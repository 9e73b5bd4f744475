/** The UTF-8-only ReliableTXT package (`src/reliabletxt/__init__.py`). */
module ReliableTxt {
  import opened Wrappers
  import opened Unicode
  import Codecs
  import CodePoints

  /** The UTF-8 preamble, EF BB BF: the legacy module's UTF-8 preamble. */
  const BomBytes: seq<Byte> := Codecs.Preamble(Codecs.Utf8)

  /** ReliableTxt.encode: the text's UTF-8 bytes; no BOM is added. */
  function Encode(text: string): (r: seq<Byte>)
    ensures Codecs.Decode(Codecs.Utf8, r) == Some(text)
  {
    Codecs.DecodeEncode(Codecs.Utf8, text);
    Codecs.Encode(Codecs.Utf8, text)
  }

  /** ReliableTxt.decode: decode the whole content as UTF-8 first, then
      demand that the first character is U+FEFF and drop it. An empty text
      fails at `text[0]`. */
  function Decode(content: seq<Byte>): (r: Result<string>)
    ensures r.Err? ==> r.error == DecodingError || r.error == EmptyContent || r.error == MissingPreamble
    ensures r.Ok? ==> |r.value| < |content|
  {
    match Codecs.Decode(Codecs.Utf8, content)
    case None => Err(DecodingError)
    case Some(text) =>
      if |text| == 0 then Err(EmptyContent)
      else if text[0] != BOM then Err(MissingPreamble)
      else Ok(text[1..])
  }

  /** UTF-8 bytes that start with EF BB BF decode to U+FEFF and the decoding
      of the remaining bytes. */
  lemma DecodeWithBom(rest: seq<Byte>)
    ensures Codecs.Decode(Codecs.Utf8, BomBytes + rest)
         == match Codecs.Decode(Codecs.Utf8, rest) case None => None case Some(s) => Some([BOM] + s)
  {
    Codecs.PreambleIsEncodedBom(Codecs.Utf8);
    Codecs.DecodeCons(Codecs.Utf8, BOM, rest);
  }

  /** Decoding succeeds exactly when the content is well-formed UTF-8 and
      starts with EF BB BF; it then yields the decoding of the rest. */
  lemma DecodeSucceedsIff(content: seq<Byte>)
    ensures Decode(content).Ok? <==> Codecs.Decode(Codecs.Utf8, content).Some? && BomBytes <= content
    ensures Decode(content).Ok? ==> Codecs.Decode(Codecs.Utf8, content[3..]) == Some(Decode(content).value)
  {
    if Decode(content).Ok? {
      var text := Codecs.Decode(Codecs.Utf8, content).value;
      Codecs.EncodeDecode(Codecs.Utf8, content);
      assert text == [BOM] + text[1..];
      Codecs.EncodeAppend(Codecs.Utf8, [BOM], text[1..]);
      assert content == BomBytes + Codecs.Encode(Codecs.Utf8, text[1..]);
    }
    if BomBytes <= content {
      assert content == BomBytes + content[3..];
      DecodeWithBom(content[3..]);
    }
  }

  /** Each error kind has its own case: a decoding error exactly for
      ill-formed UTF-8, the empty-content error exactly for empty content,
      and "not a ReliableTXT document" exactly for well-formed, non-empty
      content that does not start with EF BB BF. */
  lemma DecodeErrorKinds(content: seq<Byte>)
    ensures Decode(content) == Err(DecodingError) <==> Codecs.Decode(Codecs.Utf8, content).None?
    ensures Decode(content) == Err(EmptyContent) <==> |content| == 0
    ensures Decode(content) == Err(MissingPreamble)
        <==> Codecs.Decode(Codecs.Utf8, content).Some? && |content| > 0 && !(BomBytes <= content)
  {
    DecodeSucceedsIff(content);
  }

  /** Ill-formed UTF-8 is reported as a decoding error, before the BOM is
      looked at: a corrupt buffer without a BOM gets the decoding error too. */
  lemma IllFormedIsDecodingError(content: seq<Byte>)
    requires Codecs.Decode(Codecs.Utf8, content).None?
    ensures Decode(content) == Err(DecodingError)
  {
  }

  /** Empty content fails with its own error; a BOM-only buffer is the empty text. */
  lemma EmptyAndBomOnly()
    ensures Decode([]) == Err(EmptyContent)
    ensures Decode(BomBytes) == Ok("")
  {
    DecodeWithBom([]);
    assert BomBytes + [] == BomBytes;
  }

  /** The file `save` writes is read back by `load`. */
  lemma RoundTrip(t: string)
    ensures Decode(Encode([BOM] + t)) == Ok(t)
  {
    Codecs.EncodeAppend(Codecs.Utf8, [BOM], t);
    assert Encode([BOM] + t) == BomBytes + Encode(t);
    DecodeWithBom(Encode(t));
  }

  /** `encode` adds no BOM: its output starts with EF BB BF only when the text
      itself starts with U+FEFF. */
  lemma EncodeAddsNoBom(t: string)
    ensures Encode("") == []
    ensures BomBytes <= Encode(t) <==> |t| > 0 && t[0] == BOM
  {
    if BomBytes <= Encode(t) {
      var b := Encode(t);
      assert b == BomBytes + b[3..];
      DecodeWithBom(b[3..]);
    }
    if |t| > 0 && t[0] == BOM {
      assert t == [BOM] + t[1..];
      Codecs.EncodeAppend(Codecs.Utf8, [BOM], t[1..]);
    }
  }

  /** A character outside the Basic Multilingual Plane stays one code point:
      U+1D11E is the four bytes F0 9D 84 9E and decodes back to itself. */
  lemma SupplementaryCharacter()
    ensures Encode("\U{1D11E}") == [0xF0, 0x9D, 0x84, 0x9E]
    ensures Decode(BomBytes + [0xF0, 0x9D, 0x84, 0x9E]) == Ok("\U{1D11E}")
    ensures CodePoints.ToOrds(Decode(BomBytes + [0xF0, 0x9D, 0x84, 0x9E]).value) == [0x1D11E]
  {
    RoundTrip("\U{1D11E}");
    assert [BOM] + "\U{1D11E}" == "\U{FEFF}\U{1D11E}";
    Codecs.EncodeAppend(Codecs.Utf8, [BOM], "\U{1D11E}");
  }

  /** The one-byte rows of the character table the package's tests decode:
      ASCII characters are their own byte. */
  lemma TableOneByte()
    ensures Encode("a") == [0x61]
    ensures Encode("~") == [0x7E]
  {
  }

  /** The two-byte rows of the character table, U+00A5 to U+00BF. */
  lemma TableTwoByteC2()
    ensures Encode("\U{A5}") == [0xC2, 0xA5]
    ensures Encode("\U{BB}") == [0xC2, 0xBB]
    ensures Encode("\U{BD}") == [0xC2, 0xBD]
    ensures Encode("\U{BF}") == [0xC2, 0xBF]
  {
  }

  /** The two-byte rows of the character table, U+00DF to U+0153. */
  lemma TableTwoByteC3C5()
    ensures Encode("\U{DF}") == [0xC3, 0x9F]
    ensures Encode("\U{E4}") == [0xC3, 0xA4]
    ensures Encode("\U{EF}") == [0xC3, 0xAF]
    ensures Encode("\U{153}") == [0xC5, 0x93]
  {
  }

  /** The three-byte rows of the character table. */
  lemma TableThreeByte()
    ensures Encode("\U{20AC}") == [0xE2, 0x82, 0xAC]
    ensures Encode("\U{6771}") == [0xE6, 0x9D, 0xB1]
  {
  }

  /** The four-byte row U+20007 of the character table; the row for U+1D11E
      is `SupplementaryCharacter`. */
  lemma TableFourByte()
    ensures Encode("\U{20007}") == [0xF0, 0xA0, 0x80, 0x87]
  {
  }

  /** ReliableTxtDocument: a text and a read-only flag fixed at construction. */
  class Document {
    var text: string
    const readOnly: bool

    constructor (text: string := "", readOnly: bool := false)
      ensures this.text == text && this.readOnly == readOnly
    {
      this.text := text;
      this.readOnly := readOnly;
    }

    method ReadOnly() returns (r: bool)
      ensures r == readOnly
    {
      r := readOnly;
    }

    method Text() returns (t: string)
      ensures t == text
    {
      t := text;
    }

    /** The `text` setter: a read-only document refuses and keeps its text. */
    method SetText(t: string) returns (r: Outcome)
      modifies this
      ensures readOnly ==> r == Fail(ReadOnlyViolation) && text == old(text)
      ensures !readOnly ==> r == Pass && text == t
    {
      if readOnly {
        r := Fail(ReadOnlyViolation);
      } else {
        text := t;
        r := Pass;
      }
    }

    /** The `content` property: the text's UTF-8 bytes, which decode back to
        it once a BOM is put in front. */
    method Content() returns (b: seq<Byte>)
      ensures b == Encode(text)
      ensures Decode(BomBytes + b) == Ok(text)
    {
      b := Encode(text);
      DecodeWithBom(b);
    }

    method Ords() returns (o: seq<int>)
      ensures o == CodePoints.ToOrds(text)
    {
      o := CodePoints.ToOrds(text);
    }

    /** The `ords` setter. It does not consult `readOnly`: even a read-only
        document's text is replaced. */
    method SetOrds(o: seq<int>) returns (r: Outcome)
      modifies this
      ensures r.Pass? <==> forall i :: 0 <= i < |o| ==> IsScalarValue(o[i])
      ensures r.Pass? ==> CodePoints.ToOrds(text) == o
      ensures r.Fail? ==> r.error == InvalidCodePoint && text == old(text)
    {
      match CodePoints.FromOrds(o)
      case None =>
        r := Fail(InvalidCodePoint);
      case Some(s) =>
        CodePoints.ToOrdsFromOrds(o);
        text := s;
        r := Pass;
    }

    /** The bytes `save` writes: U+FEFF and the text in UTF-8. */
    method SaveBytes() returns (b: seq<Byte>)
      ensures b == Encode([BOM] + text)
      ensures Decode(b) == Ok(text)
    {
      b := Encode([BOM] + text);
      RoundTrip(text);
    }

    /** `load` once the file's bytes are read: a new writable document with
        the decoded text, or the decoder's error. */
    static method Load(content: seq<Byte>) returns (r: Result<Document>)
      ensures Decode(content).Err? ==> r == Err(Decode(content).error)
      ensures Decode(content).Ok? ==> r.Ok? && fresh(r.value) && !r.value.readOnly
                                      && r.value.text == Decode(content).value
    {
      match Decode(content)
      case Err(err) =>
        r := Err(err);
      case Ok(t) =>
        var d := new Document(t);
        r := Ok(d);
    }
  }

  /** A caller of the document relies on the contracts alone. */
  method DocumentClient()
  {
    var d := new Document("x", readOnly := true);
    var r := d.SetText("y");
    assert r == Fail(ReadOnlyViolation) && d.text == "x";
    r := d.SetOrds([0x79]);
    assert r == Pass && CodePoints.ToOrds(d.text) == [0x79];
  }
}

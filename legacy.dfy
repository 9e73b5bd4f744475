/** The multi-encoding ReliableTXT module: encoder, preamble-detecting
    decoder and the mutable document (`stenway/reliabletxt.py`). */
module LegacyReliableTxt {
  import opened Wrappers
  import opened Unicode
  import Codecs
  import CodePoints

  type Encoding = Codecs.Encoding

  /** ReliableTxtEncoder.encode: the text's bytes in the encoding, with no
      preamble; they decode back to the text. */
  function Encode(text: string, e: Encoding): (r: seq<Byte>)
    ensures Codecs.Decode(e, r) == Some(text)
  {
    Codecs.DecodeEncode(e, text);
    Codecs.Encode(e, text)
  }

  /** ReliableTxtDecoder.getEncoding: the encodings are tried in the order
      UTF-8, UTF-16, UTF-16 reverse, UTF-32 and the first whose preamble starts
      the buffer is returned. Since no preamble is a prefix of another, that
      is the only encoding whose preamble starts it. */
  function GetEncoding(b: seq<Byte>): (r: Result<Encoding>)
    ensures r.Err? ==> r.error == MissingPreamble
    ensures forall e: Encoding :: r == Ok(e) <==> Codecs.Preamble(e) <= b
  {
    if |b| >= 3 && b[0] == 0xEF && b[1] == 0xBB && b[2] == 0xBF then
      Ok(Codecs.Utf8)
    else if |b| >= 2 && b[0] == 0xFE && b[1] == 0xFF then
      Ok(Codecs.Utf16)
    else if |b| >= 2 && b[0] == 0xFF && b[1] == 0xFE then
      Ok(Codecs.Utf16Reverse)
    else if |b| >= 4 && b[0] == 0x00 && b[1] == 0x00 && b[2] == 0xFE && b[3] == 0xFF then
      Ok(Codecs.Utf32)
    else
      Err(MissingPreamble)
  }

  /** Python's `text[1:]`: everything after the first character, and the
      empty text stays empty. */
  function DropFirst(s: string): (r: string)
    ensures |s| == 0 ==> r == ""
    ensures |s| > 0 ==> [s[0]] + r == s
  {
    if |s| == 0 then s else s[1..]
  }

  /** ReliableTxtDecoder.decode: detect the encoding, decode the whole buffer
      (preamble included) and drop the first code point. */
  function Decode(b: seq<Byte>): (r: Result<(Encoding, string)>)
    ensures r.Err? ==> r.error == MissingPreamble || r.error == DecodingError
    ensures r.Ok? ==> Codecs.Preamble(r.value.0) <= b
  {
    match GetEncoding(b)
    case Err(err) => Err(err)
    case Ok(e) =>
      match Codecs.Decode(e, b)
      case None => Err(DecodingError)
      case Some(text) => Ok((e, DropFirst(text)))
  }

  /** No preamble is a prefix of another's. */
  lemma PreamblesArePrefixFree(e1: Encoding, e2: Encoding)
    requires e1 != e2
    ensures !(Codecs.Preamble(e1) <= Codecs.Preamble(e2))
  {
    // the four preambles already differ in their first byte
    assert Codecs.Preamble(e1)[0] != Codecs.Preamble(e2)[0];
  }

  /** The empty buffer and every one-byte buffer have no preamble. */
  lemma ShortBufferHasNoPreamble(b: seq<Byte>)
    requires |b| <= 1
    ensures GetEncoding(b) == Err(MissingPreamble)
    ensures Decode(b) == Err(MissingPreamble)
  {
  }

  /** A missing preamble is reported before any byte is decoded: the error is
      MissingPreamble exactly when no preamble starts the buffer, whatever the
      bytes that follow. */
  lemma DecodeReportsMissingPreambleFirst(b: seq<Byte>)
    ensures Decode(b) == Err(MissingPreamble) <==> forall e: Encoding :: !(Codecs.Preamble(e) <= b)
  {
    if forall e: Encoding :: !(Codecs.Preamble(e) <= b) {
      assert GetEncoding(b).Err?;
    }
  }

  /** Once encoding `e` is detected, the result is the strict decoding of the
      bytes after the preamble: the leading U+FEFF is exactly what is dropped. */
  lemma DecodeAfterPreamble(b: seq<Byte>, e: Encoding)
    requires Codecs.Preamble(e) <= b
    ensures Decode(b) == match Codecs.Decode(e, b[|Codecs.Preamble(e)|..])
                         case None => Err(DecodingError)
                         case Some(t) => Ok((e, t))
  {
    var p := Codecs.Preamble(e);
    Codecs.PreambleIsEncodedBom(e);
    assert b == p + b[|p|..];
    Codecs.DecodeCons(e, BOM, b[|p|..]);
  }

  /** A buffer holding only a preamble is an empty document. */
  lemma DecodePreambleOnly(e: Encoding)
    ensures Decode(Codecs.Preamble(e)) == Ok((e, ""))
  {
    var p := Codecs.Preamble(e);
    DecodeAfterPreamble(p, e);
    assert p[|p|..] == [];
  }

  /** The byte layout `save` writes is read back by `load`: U+FEFF followed by
      the text, encoded, decodes to the encoding and the text. */
  lemma RoundTrip(t: string, e: Encoding)
    ensures Decode(Encode([BOM] + t, e)) == Ok((e, t))
  {
    var p := Codecs.Preamble(e);
    Codecs.PreambleIsEncodedBom(e);
    var b := Encode([BOM] + t, e);
    assert ([BOM] + t)[0] == BOM && ([BOM] + t)[1..] == t;
    assert b == p + Codecs.Encode(e, t);
    assert b[|p|..] == Codecs.Encode(e, t);
    DecodeAfterPreamble(b, e);
    Codecs.DecodeEncode(e, t);
  }

  /** Plain ASCII has no preamble; a UTF-8 preamble followed by a lone
      continuation byte is a corrupt document; G clef is the surrogate pair
      D834 DD1E in UTF-16. */
  lemma DecodeExamples()
    ensures Decode([0x68, 0x65, 0x6C, 0x6C, 0x6F]) == Err(MissingPreamble)
    ensures Decode([0xEF, 0xBB, 0xBF, 0x80]) == Err(DecodingError)
    ensures Encode("\U{1D11E}", Codecs.Utf16) == [0xD8, 0x34, 0xDD, 0x1E]
    ensures Encode("\U{1D11E}", Codecs.Utf16Reverse) == [0x34, 0xD8, 0x1E, 0xDD]
  {
    var b := [0xEF, 0xBB, 0xBF, 0x80];
    DecodeAfterPreamble(b, Codecs.Utf8);
    assert b[3..] == [0x80];
  }

  /** ReliableTxtDocument: a text and the encoding it is saved in. */
  class Document {
    var text: string
    var encoding: Encoding

    constructor (text: string := "", encoding: Encoding := Codecs.Utf8)
      ensures this.text == text && this.encoding == encoding
    {
      this.text := text;
      this.encoding := encoding;
    }

    method SetEncoding(encoding: Encoding)
      modifies this
      ensures this.encoding == encoding && text == old(text)
    {
      this.encoding := encoding;
    }

    method SetText(text: string)
      modifies this
      ensures this.text == text && encoding == old(encoding)
    {
      this.text := text;
    }

    method GetEncoding() returns (e: Encoding)
      ensures e == encoding
    {
      e := encoding;
    }

    method GetText() returns (t: string)
      ensures t == text
    {
      t := text;
    }

    /** The text in the document's encoding, without a preamble; decoding
      these bytes in that encoding gives the text back. */
    method GetBytes() returns (b: seq<Byte>)
      ensures b == Encode(text, encoding)
      ensures Codecs.Decode(encoding, b) == Some(text)
    {
      b := Encode(text, encoding);
    }

    method GetCodePoints() returns (cps: seq<int>)
      ensures |cps| == |text| && forall i :: 0 <= i < |text| ==> cps[i] == text[i] as int
    {
      cps := CodePoints.ToOrds(text);
    }

    /** Replaces the text by the characters with the given code points; when
        one of them is not a scalar value, fails and changes nothing. */
    method SetCodePoints(cps: seq<int>) returns (r: Outcome)
      modifies this
      ensures r.Pass? <==> forall i :: 0 <= i < |cps| ==> IsScalarValue(cps[i])
      ensures r.Pass? ==> CodePoints.ToOrds(text) == cps
      ensures r.Fail? ==> r.error == InvalidCodePoint && text == old(text)
      ensures encoding == old(encoding)
    {
      match CodePoints.FromOrds(cps)
      case None =>
        r := Fail(InvalidCodePoint);
      case Some(s) =>
        CodePoints.ToOrdsFromOrds(cps);
        text := s;
        r := Pass;
    }

    /** The bytes `save` writes: U+FEFF and the text, in the document's
        encoding; `Load` reads them back as this document. */
    method SaveBytes() returns (b: seq<Byte>)
      ensures b == Encode([BOM] + text, encoding)
      ensures Decode(b) == Ok((encoding, text))
    {
      b := Encode([BOM] + text, encoding);
      RoundTrip(text, encoding);
    }

    /** `load` once the file's bytes are read: a new document with the
        decoded text and the detected encoding, or the decoder's error. */
    static method Load(b: seq<Byte>) returns (r: Result<Document>)
      ensures Decode(b).Err? ==> r == Err(Decode(b).error)
      ensures Decode(b).Ok? ==> r.Ok? && fresh(r.value)
                                && r.value.encoding == Decode(b).value.0
                                && r.value.text == Decode(b).value.1
    {
      match Decode(b)
      case Err(err) =>
        r := Err(err);
      case Ok((e, t)) =>
        var d := new Document(t, e);
        r := Ok(d);
    }
  }

  /** A caller of the document relies on the contracts alone. */
  method DocumentClient(cps: seq<int>)
  {
    var d := new Document();
    assert d.encoding == Codecs.Utf8 && d.text == "";
    d.SetEncoding(Codecs.Utf16);
    d.SetText("ab");
    var e := d.GetEncoding();
    assert e == Codecs.Utf16;
    var r := d.SetCodePoints(cps);
    if r.Pass? {
      var back := d.GetCodePoints();
      assert back == cps;
    }
    var saved := d.SaveBytes();
    var loaded := Document.Load(saved);
    assert loaded.Ok? && loaded.value.encoding == Codecs.Utf16;
  }
}

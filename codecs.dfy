/** The four ReliableTXT encodings, their preambles, and whole-text encoding
    and strict decoding built from the per-character codecs. */
module Codecs {
  import opened Wrappers
  import opened Unicode
  import Utf8
  import Utf16
  import Utf32

  /** ReliableTxtEncoding: UTF_8, UTF_16 (big-endian), UTF_16_REVERSE
      (little-endian) and UTF_32 (big-endian). */
  datatype Encoding = Utf8 | Utf16 | Utf16Reverse | Utf32

  /** The preamble that starts every document in encoding `e`. */
  function Preamble(e: Encoding): (r: seq<Byte>)
    ensures 2 <= |r| <= 4
  {
    match e
    case Utf8 => [0xEF, 0xBB, 0xBF]
    case Utf16 => [0xFE, 0xFF]
    case Utf16Reverse => [0xFF, 0xFE]
    case Utf32 => [0x00, 0x00, 0xFE, 0xFF]
  }

  /** The bytes of one character in encoding `e`. */
  function EncodeChar(e: Encoding, c: char): (r: seq<Byte>)
    ensures |r| >= 1
  {
    match e
    case Utf8 => Utf8.EncodeChar(c)
    case Utf16 => Utf16.EncodeChar(c, true)
    case Utf16Reverse => Utf16.EncodeChar(c, false)
    case Utf32 => Utf32.EncodeChar(c)
  }

  /** The character at the start of `b` in encoding `e`, and its length in bytes. */
  function DecodePrefix(e: Encoding, b: seq<Byte>): (r: Option<(char, nat)>)
    ensures r.Some? ==> 1 <= r.value.1 <= |b|
  {
    match e
    case Utf8 => Utf8.DecodePrefix(b)
    case Utf16 => Utf16.DecodePrefix(b, true)
    case Utf16Reverse => Utf16.DecodePrefix(b, false)
    case Utf32 => Utf32.DecodePrefix(b)
  }

  /** `str.encode` with the encoding's name: the characters' bytes one after
      the other, with no preamble. */
  function Encode(e: Encoding, s: string): (r: seq<Byte>)
    ensures |r| >= |s|
    ensures |r| == 0 <==> |s| == 0
  {
    if |s| == 0 then [] else EncodeChar(e, s[0]) + Encode(e, s[1..])
  }

  /** `bytes.decode` in strict mode: the text whose encoding `b` is, or None
      when `b` is not a concatenation of well-formed character encodings. */
  function Decode(e: Encoding, b: seq<Byte>): (r: Option<string>)
    ensures r.Some? ==> |r.value| <= |b|
    ensures r == Some("") <==> |b| == 0
    decreases |b|
  {
    if |b| == 0 then Some("")
    else match DecodePrefix(e, b)
      case None => None
      case Some((c, k)) =>
        match Decode(e, b[k..])
        case None => None
        case Some(s) => Some([c] + s)
  }

  /** The preamble is the encoding of U+FEFF. */
  lemma PreambleIsEncodedBom(e: Encoding)
    ensures Preamble(e) == EncodeChar(e, BOM)
  {
  }

  lemma DecodeEncodeChar(e: Encoding, c: char, rest: seq<Byte>)
    ensures DecodePrefix(e, EncodeChar(e, c) + rest) == Some((c, |EncodeChar(e, c)|))
  {
    match e
    case Utf8 => Utf8.DecodeEncodeChar(c, rest);
    case Utf16 => Utf16.DecodeEncodeChar(c, true, rest);
    case Utf16Reverse => Utf16.DecodeEncodeChar(c, false, rest);
    case Utf32 => Utf32.DecodeEncodeChar(c, rest);
  }

  lemma EncodeDecodeChar(e: Encoding, b: seq<Byte>)
    requires DecodePrefix(e, b).Some?
    ensures b[..DecodePrefix(e, b).value.1] == EncodeChar(e, DecodePrefix(e, b).value.0)
  {
    match e
    case Utf8 => Utf8.EncodeDecodeChar(b);
    case Utf16 => Utf16.EncodeDecodeChar(b, true);
    case Utf16Reverse => Utf16.EncodeDecodeChar(b, false);
    case Utf32 => Utf32.EncodeDecodeChar(b);
  }

  /** Encoding distributes over concatenation. */
  lemma {:induction false} EncodeAppend(e: Encoding, s: string, t: string)
    ensures Encode(e, s + t) == Encode(e, s) + Encode(e, t)
  {
    if |s| > 0 {
      assert (s + t)[0] == s[0] && (s + t)[1..] == s[1..] + t;
      EncodeAppend(e, s[1..], t);
      assert Encode(e, s + t) == EncodeChar(e, s[0]) + (Encode(e, s[1..]) + Encode(e, t));
    } else {
      assert s + t == t;
    }
  }

  /** Decoding a character's bytes followed by more bytes: the character is
      prepended to the decoding of the rest, and an error in the rest is an
      error of the whole. */
  lemma DecodeCons(e: Encoding, c: char, rest: seq<Byte>)
    ensures Decode(e, EncodeChar(e, c) + rest)
         == match Decode(e, rest) case None => None case Some(s) => Some([c] + s)
  {
    var b := EncodeChar(e, c) + rest;
    DecodeEncodeChar(e, c, rest);
    assert b[|EncodeChar(e, c)|..] == rest;
  }

  /** Strict decoding inverts encoding: every text survives the round trip. */
  lemma {:induction false} DecodeEncode(e: Encoding, s: string)
    ensures Decode(e, Encode(e, s)) == Some(s)
  {
    if |s| > 0 {
      DecodeEncode(e, s[1..]);
      DecodeCons(e, s[0], Encode(e, s[1..]));
      assert [s[0]] + s[1..] == s;
    }
  }

  /** Strict decoding accepts only encodings: a buffer that decodes is the
      encoding of what it decodes to, so no ill-formed byte is skipped or
      replaced. */
  lemma {:induction false} EncodeDecode(e: Encoding, b: seq<Byte>)
    requires Decode(e, b).Some?
    ensures Encode(e, Decode(e, b).value) == b
    decreases |b|
  {
    if |b| > 0 {
      var (c, k) := DecodePrefix(e, b).value;
      EncodeDecode(e, b[k..]);
      var s := Decode(e, b[k..]).value;
      assert Decode(e, b).value == [c] + s;
      EncodeFirst(e, b, s);
    }
  }

  /** The step of `EncodeDecode`: when the bytes after the first decoded
      character are the encoding of `s`, the whole buffer is the encoding of
      that character followed by `s`. */
  lemma EncodeFirst(e: Encoding, b: seq<Byte>, s: string)
    requires DecodePrefix(e, b).Some?
    requires Encode(e, s) == b[DecodePrefix(e, b).value.1..]
    ensures Encode(e, [DecodePrefix(e, b).value.0] + s) == b
  {
    var (c, k) := DecodePrefix(e, b).value;
    EncodeDecodeChar(e, b);
    assert ([c] + s)[1..] == s;
    assert b == b[..k] + b[k..];
  }

  /** Decoding two well-formed buffers placed one after the other gives the
      two texts one after the other. */
  lemma DecodeAppend(e: Encoding, s: string, t: string)
    ensures Decode(e, Encode(e, s) + Encode(e, t)) == Some(s + t)
  {
    EncodeAppend(e, s, t);
    DecodeEncode(e, s + t);
  }
}

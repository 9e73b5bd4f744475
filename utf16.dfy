/** UTF-16 as defined in sections 2.1 and 2.2 of RFC 2781, serialized
    big-endian (UTF-16BE) or little-endian (UTF-16LE). */
module Utf16 {
  import opened Wrappers
  import opened Unicode

  /** A 16-bit code unit. */
  type CodeUnit = u: int | 0 <= u < 0x1_0000

  predicate IsHighSurrogate(u: int) { 0xD800 <= u <= 0xDBFF }
  predicate IsLowSurrogate(u: int) { 0xDC00 <= u <= 0xDFFF }

  /** The two bytes of one code unit in the chosen byte order. */
  function UnitBytes(u: CodeUnit, bigEndian: bool): (r: seq<Byte>)
    ensures |r| == 2
  {
    if bigEndian then [u / 0x100, u % 0x100] else [u % 0x100, u / 0x100]
  }

  /** The code unit held by the two bytes `x` and `y` (in stream order). */
  function UnitOf(x: Byte, y: Byte, bigEndian: bool): (u: CodeUnit) {
    if bigEndian then x * 0x100 + y else y * 0x100 + x
  }

  /** The bytes of one character: one code unit below U+10000, otherwise a
      high surrogate carrying the upper ten bits of `n - 0x10000` followed by a
      low surrogate carrying the lower ten (section 2.1). */
  function EncodeChar(c: char, bigEndian: bool): (r: seq<Byte>)
    ensures |r| == 2 || |r| == 4
  {
    var n := c as int;
    if n < 0x1_0000 then
      UnitBytes(n, bigEndian)
    else
      var v := n - 0x1_0000;
      UnitBytes(0xD800 + v / 0x400, bigEndian) + UnitBytes(0xDC00 + v % 0x400, bigEndian)
  }

  /** Decodes the character at the start of `b` (section 2.2): a unit that is
      not a surrogate stands for itself; a high surrogate must be followed by a
      low surrogate; a lone surrogate or a truncated unit is an error. */
  function DecodePrefix(b: seq<Byte>, bigEndian: bool): (r: Option<(char, nat)>)
    ensures r.Some? ==> 1 <= r.value.1 <= |b|
  {
    if |b| < 2 then None
    else
      var w1 := UnitOf(b[0], b[1], bigEndian);
      if IsHighSurrogate(w1) then
        if |b| < 4 then None
        else
          var w2 := UnitOf(b[2], b[3], bigEndian);
          if IsLowSurrogate(w2) then
            var n: int := 0x1_0000 + (w1 - 0xD800) * 0x400 + (w2 - 0xDC00);
            Some((n as char, 4))
          else None
      else if IsLowSurrogate(w1) then None
      else Some((w1 as char, 2))
  }

  lemma UnitRoundTrip(u: CodeUnit, bigEndian: bool)
    ensures UnitOf(UnitBytes(u, bigEndian)[0], UnitBytes(u, bigEndian)[1], bigEndian) == u
  {
  }

  lemma BytesRoundTrip(x: Byte, y: Byte, bigEndian: bool)
    ensures UnitBytes(UnitOf(x, y, bigEndian), bigEndian) == [x, y]
  {
    var u := UnitOf(x, y, bigEndian);
    if bigEndian {
      assert u == x * 0x100 + y;
    } else {
      assert u == y * 0x100 + x;
    }
  }

  /** Decoding the encoding of a character yields it back, whatever follows. */
  lemma DecodeEncodeChar(c: char, bigEndian: bool, rest: seq<Byte>)
    ensures DecodePrefix(EncodeChar(c, bigEndian) + rest, bigEndian) == Some((c, |EncodeChar(c, bigEndian)|))
  {
    var n := c as int;
    var b := EncodeChar(c, bigEndian) + rest;
    if n < 0x1_0000 {
      UnitRoundTrip(n, bigEndian);
    } else {
      var v := n - 0x1_0000;
      UnitRoundTrip(0xD800 + v / 0x400, bigEndian);
      UnitRoundTrip(0xDC00 + v % 0x400, bigEndian);
      assert UnitOf(b[0], b[1], bigEndian) == 0xD800 + v / 0x400;
      assert UnitOf(b[2], b[3], bigEndian) == 0xDC00 + v % 0x400;
    }
  }

  /** Only the exact encoding of a character decodes. */
  lemma EncodeDecodeChar(b: seq<Byte>, bigEndian: bool)
    requires DecodePrefix(b, bigEndian).Some?
    ensures b[..DecodePrefix(b, bigEndian).value.1] == EncodeChar(DecodePrefix(b, bigEndian).value.0, bigEndian)
  {
    var k := DecodePrefix(b, bigEndian).value.1;
    var w1 := UnitOf(b[0], b[1], bigEndian);
    BytesRoundTrip(b[0], b[1], bigEndian);
    if k == 4 {
      var w2 := UnitOf(b[2], b[3], bigEndian);
      BytesRoundTrip(b[2], b[3], bigEndian);
      var v := (w1 as int - 0xD800) * 0x400 + (w2 as int - 0xDC00);
      assert v / 0x400 == w1 - 0xD800 && v % 0x400 == w2 - 0xDC00;
      assert b[..4] == b[..2] + b[2..4];
    }
  }
}

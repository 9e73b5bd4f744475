/** UTF-8 as defined in sections 3 and 4 of RFC 3629. */
module Utf8 {
  import opened Wrappers
  import opened Unicode

  /** UTF8-tail = %x80-BF */
  predicate IsTail(b: Byte) {
    0x80 <= b <= 0xBF
  }

  /** Lowest second byte the syntax of section 4 allows after lead byte `b0`
      (it rules out overlong forms). */
  function SecondLow(b0: Byte): (r: Byte) {
    if b0 == 0xE0 then 0xA0 else if b0 == 0xF0 then 0x90 else 0x80
  }

  /** Highest second byte allowed after lead byte `b0` (it rules out
      surrogates and values above U+10FFFF). */
  function SecondHigh(b0: Byte): (r: Byte) {
    if b0 == 0xED then 0x9F else if b0 == 0xF4 then 0x8F else 0xBF
  }

  /** The octet sequence of one character, per the table of section 3. */
  function EncodeChar(c: char): (r: seq<Byte>)
    ensures 1 <= |r| <= 4
    ensures r[0] < 0x80 <==> |r| == 1
  {
    var n := c as int;
    if n < 0x80 then
      [n]
    else if n < 0x800 then
      [0xC0 + n / 0x40, 0x80 + n % 0x40]
    else if n < 0x1_0000 then
      [0xE0 + n / 0x1000, 0x80 + (n / 0x40) % 0x40, 0x80 + n % 0x40]
    else
      [0xF0 + n / 0x4_0000, 0x80 + (n / 0x1000) % 0x40, 0x80 + (n / 0x40) % 0x40, 0x80 + n % 0x40]
  }

  /** Decodes the character at the start of `b` and says how many bytes it
      used, or None when `b` does not start with a well-formed UTF8-char. */
  function DecodePrefix(b: seq<Byte>): (r: Option<(char, nat)>)
    ensures r.Some? ==> 1 <= r.value.1 <= |b|
  {
    if |b| == 0 then None
    else
      var b0: int := b[0];
      if b0 < 0x80 then
        Some((b0 as char, 1))
      else if 0xC2 <= b0 <= 0xDF then
        if 2 <= |b| && IsTail(b[1]) then
          var n: int := (b0 - 0xC0) * 0x40 + (b[1] as int - 0x80);
          Some((n as char, 2))
        else None
      else if 0xE0 <= b0 <= 0xEF then
        if 3 <= |b| && SecondLow(b0) <= b[1] <= SecondHigh(b0) && IsTail(b[2]) then
          var n: int := (b0 - 0xE0) * 0x1000 + (b[1] as int - 0x80) * 0x40 + (b[2] as int - 0x80);
          Some((n as char, 3))
        else None
      else if 0xF0 <= b0 <= 0xF4 then
        if 4 <= |b| && SecondLow(b0) <= b[1] <= SecondHigh(b0) && IsTail(b[2]) && IsTail(b[3]) then
          var n: int := (b0 - 0xF0) * 0x4_0000 + (b[1] as int - 0x80) * 0x1000
                        + (b[2] as int - 0x80) * 0x40 + (b[3] as int - 0x80);
          Some((n as char, 4))
        else None
      else None
  }

  /** `n` written as six-bit groups: the payload bits of UTF-8 bytes. */
  lemma SixBitGroups(n: nat)
    ensures n == (n / 0x40) * 0x40 + n % 0x40
    ensures n / 0x1000 == (n / 0x40) / 0x40
    ensures n / 0x4_0000 == (n / 0x1000) / 0x40
  {
  }

  /** Decoding the encoding of a character yields it back, whatever follows. */
  lemma DecodeEncodeChar(c: char, rest: seq<Byte>)
    ensures DecodePrefix(EncodeChar(c) + rest) == Some((c, |EncodeChar(c)|))
  {
    var n := c as int;
    var b := EncodeChar(c) + rest;
    SixBitGroups(n);
    SixBitGroups(n / 0x40);
    SixBitGroups(n / 0x1000);
    if n < 0x80 {
    } else if n < 0x800 {
      assert b[0] == 0xC0 + n / 0x40 && b[1] == 0x80 + n % 0x40;
    } else if n < 0x1_0000 {
      assert b[0] == 0xE0 + n / 0x1000;
      assert b[1] == 0x80 + (n / 0x40) % 0x40;
      assert b[2] == 0x80 + n % 0x40;
    } else {
      assert b[0] == 0xF0 + n / 0x4_0000;
      assert b[1] == 0x80 + (n / 0x1000) % 0x40;
      assert b[2] == 0x80 + (n / 0x40) % 0x40;
      assert b[3] == 0x80 + n % 0x40;
    }
  }

  /** Appending a six-bit group below `x` can be undone by `/` and `%`. */
  lemma Group(x: nat, y: int)
    requires 0 <= y < 0x40
    ensures (x * 0x40 + y) / 0x40 == x && (x * 0x40 + y) % 0x40 == y
  {
  }

  lemma EncodeTwo(b0: Byte, b1: Byte)
    requires 0xC2 <= b0 <= 0xDF && IsTail(b1)
    ensures EncodeChar(((b0 - 0xC0) * 0x40 + (b1 - 0x80)) as char) == [b0, b1]
  {
    Group(b0 - 0xC0, b1 - 0x80);
  }

  lemma EncodeThree(b0: Byte, b1: Byte, b2: Byte)
    requires 0xE0 <= b0 <= 0xEF && SecondLow(b0) <= b1 <= SecondHigh(b0) && IsTail(b2)
    ensures EncodeChar(((b0 - 0xE0) * 0x1000 + (b1 - 0x80) * 0x40 + (b2 - 0x80)) as char) == [b0, b1, b2]
  {
    var n := (b0 - 0xE0) * 0x1000 + (b1 - 0x80) * 0x40 + (b2 - 0x80);
    var m := (b0 - 0xE0) * 0x40 + (b1 - 0x80);
    assert n == m * 0x40 + (b2 - 0x80);
    SixBitGroups(n);
    Group(m, b2 - 0x80);
    Group(b0 - 0xE0, b1 - 0x80);
  }

  lemma EncodeFour(b0: Byte, b1: Byte, b2: Byte, b3: Byte)
    requires 0xF0 <= b0 <= 0xF4 && SecondLow(b0) <= b1 <= SecondHigh(b0) && IsTail(b2) && IsTail(b3)
    ensures EncodeChar(((b0 - 0xF0) * 0x4_0000 + (b1 - 0x80) * 0x1000 + (b2 - 0x80) * 0x40 + (b3 - 0x80)) as char)
         == [b0, b1, b2, b3]
  {
    var n := (b0 - 0xF0) * 0x4_0000 + (b1 - 0x80) * 0x1000 + (b2 - 0x80) * 0x40 + (b3 - 0x80);
    var p := (b0 - 0xF0) * 0x40 + (b1 - 0x80);
    var m := p * 0x40 + (b2 - 0x80);
    assert n == m * 0x40 + (b3 - 0x80);
    SixBitGroups(n);
    Group(m, b3 - 0x80);
    Group(p, b2 - 0x80);
    Group(b0 - 0xF0, b1 - 0x80);
  }

  /** Only the exact encoding of a character decodes: the decoder accepts no
      overlong form, surrogate or out-of-range value. */
  lemma EncodeDecodeChar(b: seq<Byte>)
    requires DecodePrefix(b).Some?
    ensures b[..DecodePrefix(b).value.1] == EncodeChar(DecodePrefix(b).value.0)
  {
    var k := DecodePrefix(b).value.1;
    if k == 2 {
      EncodeTwo(b[0], b[1]);
    } else if k == 3 {
      EncodeThree(b[0], b[1], b[2]);
    } else if k == 4 {
      EncodeFour(b[0], b[1], b[2], b[3]);
    }
  }
}

/** UTF-32BE as in section 3.10 of the Unicode Standard: each character is
    one 32-bit code unit, most significant byte first. */
module Utf32 {
  import opened Wrappers
  import opened Unicode

  function EncodeChar(c: char): (r: seq<Byte>)
    ensures |r| == 4
  {
    var n := c as int;
    [n / 0x100_0000, (n / 0x1_0000) % 0x100, (n / 0x100) % 0x100, n % 0x100]
  }

  /** Decodes the character at the start of `b`: four bytes whose value must
      be a scalar value (not a surrogate, not above U+10FFFF). */
  function DecodePrefix(b: seq<Byte>): (r: Option<(char, nat)>)
    ensures r.Some? ==> 1 <= r.value.1 <= |b|
  {
    if |b| < 4 then None
    else
      var n: int := b[0] as int * 0x100_0000 + b[1] as int * 0x1_0000 + b[2] as int * 0x100 + b[3];
      if IsScalarValue(n) then Some((n as char, 4)) else None
  }

  /** Appending a byte below `x` can be undone by `/` and `%`. */
  lemma Octet(x: nat, y: int)
    requires 0 <= y < 0x100
    ensures (x * 0x100 + y) / 0x100 == x && (x * 0x100 + y) % 0x100 == y
  {
  }

  lemma Octets(n: nat)
    ensures n / 0x1_0000 == (n / 0x100) / 0x100
    ensures n / 0x100_0000 == (n / 0x1_0000) / 0x100
  {
  }

  /** Decoding the encoding of a character yields it back, whatever follows. */
  lemma DecodeEncodeChar(c: char, rest: seq<Byte>)
    ensures DecodePrefix(EncodeChar(c) + rest) == Some((c, 4))
  {
    var n := c as int;
    Octets(n);
    assert n == (n / 0x100) * 0x100 + n % 0x100;
    assert n / 0x100 == (n / 0x1_0000) * 0x100 + (n / 0x100) % 0x100;
    assert n / 0x1_0000 == (n / 0x100_0000) * 0x100 + (n / 0x1_0000) % 0x100;
  }

  /** Only the exact encoding of a character decodes. */
  lemma EncodeDecodeChar(b: seq<Byte>)
    requires DecodePrefix(b).Some?
    ensures b[..4] == EncodeChar(DecodePrefix(b).value.0)
  {
    var p: int := b[0] as int * 0x100 + b[1];
    var m: int := p * 0x100 + b[2];
    var n: int := m * 0x100 + b[3];
    assert DecodePrefix(b).value.0 as int == n;
    Octets(n);
    Octet(m, b[3]);
    Octet(p, b[2]);
    Octet(b[0], b[1]);
  }
}

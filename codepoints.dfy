/** Conversion between text and lists of code points: `chars_to_ords` /
    `ords_to_chars` of the package (and `StringUtil.getCodePoints` /
    `fromCodePoints` of the legacy module, which are the same code). */
module CodePoints {
  import opened Wrappers
  import opened Unicode

  /** The code point of every character, in order (`[ord(c) for c in chars]`). */
  function ToOrds(s: string): (r: seq<int>)
    ensures |r| == |s|
    ensures forall i :: 0 <= i < |s| ==> r[i] == s[i] as int
    ensures forall i :: 0 <= i < |r| ==> IsScalarValue(r[i])
  {
    seq(|s|, i requires 0 <= i < |s| => s[i] as int)
  }

  /** The text whose characters have the given code points
      (`"".join([chr(c) for c in ords])`); `chr` fails on a value that is not a
      scalar value, and then nothing is built. */
  function FromOrds(o: seq<int>): (r: Option<string>)
    ensures r.Some? <==> forall i :: 0 <= i < |o| ==> IsScalarValue(o[i])
    ensures r.Some? ==> |r.value| == |o| && forall i :: 0 <= i < |o| ==> r.value[i] as int == o[i]
  {
    if forall i :: 0 <= i < |o| ==> IsScalarValue(o[i]) then
      Some(seq(|o|, i requires 0 <= i < |o| => o[i] as char))
    else
      None
  }

  /** Every text survives the trip through its code points. */
  lemma FromOrdsToOrds(s: string)
    ensures FromOrds(ToOrds(s)) == Some(s)
  {
    var r := FromOrds(ToOrds(s));
    assert r.Some?;
    assert |r.value| == |s|;
    forall i | 0 <= i < |s| ensures r.value[i] == s[i] {
      assert r.value[i] as int == s[i] as int;
    }
    assert r.value == s;
  }

  /** Every list of scalar values survives the trip through text. */
  lemma ToOrdsFromOrds(o: seq<int>)
    requires forall i :: 0 <= i < |o| ==> IsScalarValue(o[i])
    ensures FromOrds(o).Some? && ToOrds(FromOrds(o).value) == o
  {
  }

  /** The empty text and the empty list correspond, and so do "abc" and [97, 98, 99]. */
  lemma Examples()
    ensures ToOrds("") == [] && FromOrds([]) == Some("")
    ensures ToOrds("abc") == [97, 98, 99] && FromOrds([97, 98, 99]) == Some("abc")
  {
    FromOrdsToOrds("abc");
  }
}

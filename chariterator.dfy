/** ReliableTxtCharIterator: a fixed list of code points and a cursor. The
    legacy module and the package define it with the same code (the package
    names its cursor `_ix` and its queries `is_eof`, `is_char`,
    `try_read_char`, `get_line_info`). */
module CharIterators {
  import CodePoints
  import Lines

  /** NEW_LINE: the only code point that counts as a line break. */
  const NewLine: int := 0x0A

  /** The position of the last NEW_LINE in `s`, or -1 when there is none. */
  function LastNewline(s: seq<int>): (r: int)
    ensures -1 <= r < |s|
    ensures r >= 0 ==> s[r] == NewLine
    ensures forall j :: r < j < |s| ==> s[j] != NewLine
  {
    if |s| == 0 then -1
    else if s[|s| - 1] == NewLine then |s| - 1
    else LastNewline(s[..|s| - 1])
  }

  /** The line and column found by scanning agree with splitting the scanned
      text at "\n": the line index is the index of the last piece and the
      column is that piece's length. */
  lemma {:induction false} LineInfoIsPositionInSplit(s: string)
    ensures multiset(CodePoints.ToOrds(s))[NewLine] == |Lines.Split(s)| - 1
    ensures |s| - 1 - LastNewline(CodePoints.ToOrds(s)) == |Lines.Split(s)[|Lines.Split(s)| - 1]|
    decreases |s|
  {
    if |s| > 0 {
      var p, c := s[..|s| - 1], s[|s| - 1];
      assert s == p + [c];
      LineInfoIsPositionInSplit(p);
      Lines.SplitSnoc(p, c);
      var o := CodePoints.ToOrds(s);
      assert o == CodePoints.ToOrds(p) + [c as int];
      assert o[..|o| - 1] == CodePoints.ToOrds(p);
    }
  }

  /** The same for the cursor of an iterator over `t` standing at `k`. */
  lemma LineInfoOfText(t: string, k: nat)
    requires k <= |t|
    ensures multiset(CodePoints.ToOrds(t)[..k])[NewLine] == |Lines.Split(t[..k])| - 1
    ensures k - 1 - LastNewline(CodePoints.ToOrds(t)[..k]) == |Lines.Split(t[..k])[|Lines.Split(t[..k])| - 1]|
  {
    assert CodePoints.ToOrds(t)[..k] == CodePoints.ToOrds(t[..k]);
    LineInfoIsPositionInSplit(t[..k]);
  }

  class CharIterator {
    const chars: seq<int>
    var index: nat

    ghost predicate Valid()
      reads this
    {
      index <= |chars|
    }

    /** Takes a copy of the text's code points and starts at the first. */
    constructor (text: string)
      ensures Valid() && chars == CodePoints.ToOrds(text) && index == 0
    {
      chars := CodePoints.ToOrds(text);
      index := 0;
    }

    /** The zero-based line and column of the cursor, found by scanning the
        code points before it: the line is the number of NEW_LINEs before the
        cursor and the column the number of code points since the last of
        them (or since the start). Nothing changes. */
    method GetLineInfo() returns (lineIndex: nat, linePosition: nat)
      requires Valid()
      ensures lineIndex == multiset(chars[..index])[NewLine]
      ensures linePosition == index - 1 - LastNewline(chars[..index])
    {
      lineIndex, linePosition := 0, 0;
      for i := 0 to index
        invariant lineIndex == multiset(chars[..i])[NewLine]
        invariant linePosition == i - 1 - LastNewline(chars[..i])
      {
        assert chars[..i + 1] == chars[..i] + [chars[i]];
        assert chars[..i + 1][..i] == chars[..i];
        if chars[i] == NewLine {
          lineIndex := lineIndex + 1;
          linePosition := 0;
        } else {
          linePosition := linePosition + 1;
        }
      }
    }

    method IsEndOfText() returns (eof: bool)
      requires Valid()
      ensures eof <==> index == |chars|
    {
      eof := index >= |chars|;
    }

    /** Whether the code point under the cursor is `c`; never at the end. */
    method IsChar(c: int) returns (b: bool)
      requires Valid()
      ensures index == |chars| ==> !b
      ensures b <==> index < |chars| && chars[index] == c
    {
      var eof := IsEndOfText();
      if eof {
        return false;
      }
      b := chars[index] == c;
    }

    /** Consumes `c` if it is under the cursor: the cursor moves by one
        exactly when `IsChar(c)` holds, and otherwise nothing changes. */
    method TryReadChar(c: int) returns (b: bool)
      requires Valid()
      modifies this
      ensures Valid()
      ensures b <==> old(index) < |chars| && chars[old(index)] == c
      ensures index == if b then old(index) + 1 else old(index)
    {
      b := IsChar(c);
      if !b {
        return;
      }
      index := index + 1;
    }
  }

  /** The line information of "ab\ncd\n" with the cursor on 'd' is line 1,
      column 1; a mismatching character is not consumed. */
  method IteratorClient()
  {
    var it := new CharIterator("ab\ncd\n");
    assert it.chars == [0x61, 0x62, 0x0A, 0x63, 0x64, 0x0A];
    var ok := it.TryReadChar(0x61);
    ok := it.TryReadChar(0x62);
    ok := it.TryReadChar(0x0A);
    ok := it.TryReadChar(0x63);
    assert ok && it.index == 4;
    ok := it.TryReadChar(0x0A);
    assert !ok && it.index == 4;
    var line, column := it.GetLineInfo();
    assert it.chars[..4] == [0x61, 0x62, 0x0A, 0x63];
    assert LastNewline([0x61, 0x62, 0x0A, 0x63]) == 2;
    assert multiset([0x61, 0x62, 0x0A, 0x63])[NewLine] == 1;
    assert line == 1 && column == 1;

    var single := new CharIterator("x");
    ok := single.TryReadChar(0x79);
    assert !ok && single.index == 0;
    ok := single.TryReadChar(0x78);
    assert ok && single.index == 1;
    var eof := single.IsEndOfText();
    assert eof;
  }
}

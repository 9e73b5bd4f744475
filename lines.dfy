/** ReliableTxtLines: a text as a list of lines separated by "\n". */
module Lines {

  const NewLine: char := '\n'

  /** `text.split("\n")`: the pieces between newlines, always at least one. */
  function Split(t: string): (r: seq<string>)
    ensures |r| >= 1
  {
    if |t| == 0 then
      [""]
    else
      var rest := Split(t[1..]);
      if t[0] == NewLine then [""] + rest else [[t[0]] + rest[0]] + rest[1..]
  }

  /** `"\n".join(lines)`. */
  function Join(lines: seq<string>): (r: string)
    ensures |lines| >= 1 ==> lines[0] <= r
    ensures |r| + 1 >= |lines|
  {
    if |lines| == 0 then "" else if |lines| == 1 then lines[0] else lines[0] + [NewLine] + Join(lines[1..])
  }

  /** Joining the pieces of a split gives the text back. */
  lemma {:induction false} JoinSplit(t: string)
    ensures Join(Split(t)) == t
  {
    if |t| > 0 {
      var rest := Split(t[1..]);
      JoinSplit(t[1..]);
      if t[0] == NewLine {
        assert Join([""] + rest) == "" + [NewLine] + Join(rest);
      } else if |rest| == 1 {
        assert Split(t) == [[t[0]] + rest[0]];
      } else {
        var r := [[t[0]] + rest[0]] + rest[1..];
        assert r[1..] == rest[1..];
        assert Join(rest) == rest[0] + [NewLine] + Join(rest[1..]);
      }
    }
  }

  /** No piece of a split contains a newline. */
  lemma {:induction false} SplitHasNoNewline(t: string)
    ensures forall i :: 0 <= i < |Split(t)| ==> NewLine !in Split(t)[i]
  {
    if |t| > 0 {
      SplitHasNoNewline(t[1..]);
    }
  }

  /** A split has one more piece than the text has newlines. */
  lemma {:induction false} SplitCount(t: string)
    ensures |Split(t)| == multiset(t)[NewLine] + 1
  {
    if |t| > 0 {
      SplitCount(t[1..]);
      assert t == [t[0]] + t[1..];
      assert multiset(t) == multiset{t[0]} + multiset(t[1..]);
    }
  }

  /** Joining newline-free lines puts exactly one newline between each two. */
  lemma {:induction false} JoinCount(lines: seq<string>)
    requires |lines| >= 1
    requires forall i :: 0 <= i < |lines| ==> NewLine !in lines[i]
    ensures multiset(Join(lines))[NewLine] == |lines| - 1
  {
    if |lines| > 1 {
      JoinCount(lines[1..]);
      assert multiset(Join(lines)) == multiset(lines[0]) + multiset{NewLine} + multiset(Join(lines[1..]));
      assert multiset(lines[0])[NewLine] == 0;
    } else {
      assert multiset(lines[0])[NewLine] == 0;
    }
  }

  /** Splitting a join of newline-free lines gives the lines back. */
  lemma {:induction false} SplitJoin(lines: seq<string>)
    requires |lines| >= 1
    requires forall i :: 0 <= i < |lines| ==> NewLine !in lines[i]
    ensures Split(Join(lines)) == lines
  {
    if |lines| == 1 {
      SplitOfLine(lines[0], []);
      assert lines[0] + [] == lines[0] && Split([]) == [""];
      assert lines[0] + "" == lines[0];
    } else {
      SplitJoin(lines[1..]);
      SplitOfLine(lines[0], [NewLine] + Join(lines[1..]));
      var u := [NewLine] + Join(lines[1..]);
      assert u[0] == NewLine && u[1..] == Join(lines[1..]);
      assert Split(u) == [""] + lines[1..];
      assert Join(lines) == lines[0] + u;
      assert lines[0] + Split(u)[0] == lines[0];
      assert Split(u)[1..] == lines[1..];
      assert lines == [lines[0]] + lines[1..];
    }
  }

  /** A newline-free prefix is glued to the first piece of the rest's split. */
  lemma {:induction false} SplitOfLine(l: string, u: string)
    requires NewLine !in l
    ensures Split(l + u) == [l + Split(u)[0]] + Split(u)[1..]
  {
    if |l| > 0 {
      assert (l + u)[0] == l[0] && (l + u)[1..] == l[1..] + u;
      SplitOfLine(l[1..], u);
      assert [l[0]] + (l[1..] + Split(u)[0]) == l + Split(u)[0];
    } else {
      assert l + u == u;
      assert l + Split(u)[0] == Split(u)[0];
      assert [Split(u)[0]] + Split(u)[1..] == Split(u);
    }
  }

  /** Appending a character to a text either starts a new piece (a newline)
      or extends the last piece. */
  lemma {:induction false} SplitSnoc(s: string, c: char)
    ensures Split(s + [c]) == if c == NewLine then Split(s) + [""]
                              else Split(s)[..|Split(s)| - 1] + [Split(s)[|Split(s)| - 1] + [c]]
  {
    if |s| > 0 {
      var s' := s[1..];
      assert (s + [c])[0] == s[0] && (s + [c])[1..] == s' + [c];
      SplitSnoc(s', c);
      var r := Split(s');
      if s[0] != NewLine && c != NewLine && |r| == 1 {
        assert [s[0]] + (r[0] + [c]) == ([s[0]] + r[0]) + [c];
      }
    } else {
      assert s + [c] == [c];
      if c != NewLine {
        assert [c][1..] == "";
        assert Split([c]) == [[c] + ""] + [""][1..];
        assert [c] + "" == "" + [c] == [c];
      }
    }
  }
}

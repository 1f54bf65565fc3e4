/** Text as lines: split on `'\n'` and joined again. */
module Lines {

  ghost predicate NewlineFree(s: string) {
    '\n' !in s
  }

  ghost predicate AllNewlineFree(ls: seq<string>) {
    forall i :: 0 <= i < |ls| ==> NewlineFree(ls[i])
  }

  /** The pieces between newlines; never empty. */
  function Split(s: string): (r: seq<string>)
    ensures |r| > 0 && AllNewlineFree(r)
  {
    if s == "" then [""] else
    var r := Split(s[1..]);
    if s[0] == '\n' then [""] + r else [[s[0]] + r[0]] + r[1..]
  }

  function Join(ls: seq<string>): string {
    if ls == [] then "" else if |ls| == 1 then ls[0] else ls[0] + "\n" + Join(ls[1..])
  }

  lemma {:induction false} SplitOne(s: string)
    requires NewlineFree(s)
    ensures Split(s) == [s]
  {
    if s != "" {
      assert s[0] in s && s == [s[0]] + s[1..];
      SplitOne(s[1..]);
    }
  }

  lemma {:induction false} SplitAtNewline(s: string, t: string)
    requires NewlineFree(s)
    ensures Split(s + "\n" + t) == [s] + Split(t)
  {
    if s == "" {
      assert (s + "\n" + t)[1..] == t;
    } else {
      assert (s + "\n" + t)[1..] == s[1..] + "\n" + t;
      assert s[0] in s && s == [s[0]] + s[1..];
      SplitAtNewline(s[1..], t);
    }
  }

  lemma {:induction false} SplitJoin(ls: seq<string>)
    requires ls != [] && AllNewlineFree(ls)
    ensures Split(Join(ls)) == ls
  {
    if |ls| == 1 {
      SplitOne(ls[0]);
    } else {
      SplitJoin(ls[1..]);
      SplitAtNewline(ls[0], Join(ls[1..]));
    }
  }

  lemma {:induction false} JoinSplit(s: string)
    ensures Join(Split(s)) == s
  {
    if s != "" {
      JoinSplit(s[1..]);
      var r := Split(s[1..]);
      if s[0] != '\n' && |r| > 1 {
        assert ([[s[0]] + r[0]] + r[1..])[1..] == r[1..];
      } else if s[0] == '\n' {
        assert ([""] + r)[1..] == r;
      }
    }
  }

  /** How a join ends: in a newline exactly when a blank line closes at least two lines. */
  lemma {:induction false} JoinEnds(ls: seq<string>)
    requires ls != [] && AllNewlineFree(ls)
    ensures Join(ls) == "" <==> ls == [""]
    ensures ls[|ls| - 1] == "" && |ls| > 1 ==> Join(ls) == Join(ls[..|ls| - 1]) + "\n"
    ensures Join(ls) != "" && Join(ls)[|Join(ls)| - 1] == '\n' <==> ls[|ls| - 1] == "" && |ls| > 1
  {
    if |ls| == 1 {
      assert Join(ls) == ls[0];
    } else {
      JoinEnds(ls[1..]);
      assert ls[1..][..|ls| - 2] == ls[..|ls| - 1][1..];
      var tail := Join(ls[1..]);
      assert Join(ls) == ls[0] + "\n" + tail;
      if tail != "" {
        assert Join(ls)[|Join(ls)| - 1] == tail[|tail| - 1];
      }
    }
  }
}

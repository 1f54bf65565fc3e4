/**
 Merging two edits of one file. How many copies of a line the result has is arithmetic on three counts; `Merge`
 counts in maps and builds the result in two loops over a growing list. Lines are equal when their texts are.
 */
module Merge3 {
  import opened Lines

  /** How many copies of a line with `b`, `o` and `t` copies the result holds. */
  function Want(b: nat, o: nat, t: nat): nat {
    var deleted := Max(Minus(b, o), Minus(b, t));
    var added := Max(Minus(o, b), Minus(t, b));
    b - (if deleted < b then deleted else b) + added
  }

  function Minus(x: nat, y: nat): nat {
    if x < y then 0 else x - y
  }

  function Max(x: nat, y: nat): nat {
    if x < y then y else x
  }

  function Min(x: nat, y: nat): nat {
    if x < y then x else y
  }

  ghost function Copies(s: seq<string>, k: string): nat {
    multiset(s)[k]
  }

  ghost function Wanted(b: seq<string>, o: seq<string>, t: seq<string>, k: string): nat {
    Want(Copies(b, k), Copies(o, k), Copies(t, k))
  }

  function Get(m: map<string, nat>, k: string): nat {
    if k in m then m[k] else 0
  }

  lemma CopiesSplit(s: seq<string>, i: nat, k: string)
    requires i < |s|
    ensures Copies(s[i..], k) == Copies(s[i + 1..], k) + if s[i] == k then 1 else 0
    ensures Copies(s[..i + 1], k) == Copies(s[..i], k) + if s[i] == k then 1 else 0
  {
    assert s[i..] == [s[i]] + s[i + 1..];
    assert s[..i + 1] == s[..i] + [s[i]];
  }

  lemma CopiesAppend(s: seq<string>, line: string, k: string)
    ensures Copies(s + [line], k) == Copies(s, k) + if line == k then 1 else 0
    ensures Copies([], k) == 0
  {
  }

  lemma CopiesInsert(s: seq<string>, p: nat, line: string, k: string)
    requires p <= |s|
    ensures Copies(s[..p] + [line] + s[p..], k) == Copies(s, k) + if line == k then 1 else 0
  {
    assert s == s[..p] + s[p..];
  }

  // ---- ours, in its order, up to the copies the result wants ----

  /** What the first `i` lines of `o` leave in the result. */
  ghost function Kept(b: seq<string>, o: seq<string>, t: seq<string>, i: nat): seq<string>
    requires i <= |o|
  {
    if i == 0 then [] else
    var out := Kept(b, o, t, i - 1);
    if Copies(out, o[i - 1]) < Wanted(b, o, t, o[i - 1]) then out + [o[i - 1]] else out
  }

  lemma {:induction false} KeptCopies(b: seq<string>, o: seq<string>, t: seq<string>, i: nat, k: string)
    requires i <= |o|
    ensures Copies(Kept(b, o, t, i), k) == Min(Copies(o[..i], k), Wanted(b, o, t, k))
  {
    hide Wanted, Copies;
    assert i == 0 ==> o[..i] == [];
    CopiesAppend([], "", k);
    if i > 0 {
      KeptCopies(b, o, t, i - 1, k);
      CopiesSplit(o, i - 1, k);
      CopiesAppend(Kept(b, o, t, i - 1), o[i - 1], k);
    }
  }

  ghost predicate Subsequence(s: seq<string>, t: seq<string>)
    decreases |t|
  {
    s == [] || (t != [] && (Subsequence(s, t[1..]) || (s[0] == t[0] && Subsequence(s[1..], t[1..]))))
  }

  lemma {:induction false} SubsequenceReflexive(s: seq<string>)
    ensures Subsequence(s, s)
  {
    if s != [] {
      SubsequenceReflexive(s[1..]);
    }
  }

  lemma {:induction false} SubsequenceInsert(s: seq<string>, t: seq<string>, p: nat, x: string)
    requires p <= |t| && Subsequence(s, t)
    ensures Subsequence(s, t[..p] + [x] + t[p..])
    decreases |t|
  {
    var t' := t[..p] + [x] + t[p..];
    if p == 0 {
      assert t'[1..] == t;
    } else if s != [] {
      assert t'[1..] == t[1..][..p - 1] + [x] + t[1..][p - 1..];
      if Subsequence(s, t[1..]) {
        SubsequenceInsert(s, t[1..], p - 1, x);
      } else {
        SubsequenceInsert(s[1..], t[1..], p - 1, x);
      }
    }
  }

  lemma {:induction false} SubsequenceAppend(s: seq<string>, t: seq<string>, x: string)
    requires Subsequence(s, t)
    ensures Subsequence(s, t + [x]) && Subsequence(s + [x], t + [x])
    decreases |t|
  {
    if s == [] {
      SubsequenceLast(t, x);
      assert s + [x] == [x];
    } else {
      assert (t + [x])[1..] == t[1..] + [x];
      assert (s + [x])[1..] == s[1..] + [x];
      if Subsequence(s, t[1..]) {
        SubsequenceAppend(s, t[1..], x);
      } else {
        SubsequenceAppend(s[1..], t[1..], x);
      }
    }
  }

  lemma {:induction false} SubsequenceLast(t: seq<string>, x: string)
    ensures Subsequence([x], t + [x])
  {
    if t != [] {
      assert (t + [x])[1..] == t[1..] + [x];
      SubsequenceLast(t[1..], x);
    }
  }

  lemma {:induction false} KeptIsSubsequence(b: seq<string>, o: seq<string>, t: seq<string>, i: nat)
    requires i <= |o|
    ensures Subsequence(Kept(b, o, t, i), o[..i])
  {
    if i > 0 {
      KeptIsSubsequence(b, o, t, i - 1);
      assert o[..i] == o[..i - 1] + [o[i - 1]];
      SubsequenceAppend(Kept(b, o, t, i - 1), o[..i - 1], o[i - 1]);
    }
  }

  // ---- then what theirs has that the result still wants ----

  /** The copies of `k` that `theirs` must supply. */
  ghost function Owed(b: seq<string>, o: seq<string>, t: seq<string>, k: string): nat {
    if k in t then Minus(Wanted(b, o, t, k), Copies(Kept(b, o, t, |o|), k)) else 0
  }

  /** Copy `i` is inserted: fewer equal lines follow it in `theirs` than are owed. */
  ghost predicate Extra(b: seq<string>, o: seq<string>, t: seq<string>, i: nat)
    requires i < |t|
  {
    Copies(t[i + 1..], t[i]) < Owed(b, o, t, t[i])
  }

  /** The growing result, and the slot the next extra line goes after (`-1`: none, it goes first). */
  datatype Slots = Slots(out: seq<string>, after: int)

  /** The last position of `line` in `out`, or `-1`. */
  function LastIndex(out: seq<string>, line: string): (r: int)
    ensures -1 <= r < |out|
    ensures r == -1 <==> line !in out
    ensures r >= 0 ==> out[r] == line
    ensures forall p :: r < p < |out| ==> out[p] != line
  {
    if out == [] then -1
    else if out[|out| - 1] == line then |out| - 1
    else
      var r := LastIndex(out[..|out| - 1], line);
      assert out == out[..|out| - 1] + [out[|out| - 1]];
      r
  }

  /** The result after the first `i` lines of `t`. */
  ghost function Placed(b: seq<string>, o: seq<string>, t: seq<string>, i: nat): (r: Slots)
    requires i <= |t|
    ensures -1 <= r.after < |r.out|
  {
    if i == 0 then Slots(Kept(b, o, t, |o|), -1) else
    var s := Placed(b, o, t, i - 1);
    var line := t[i - 1];
    if Extra(b, o, t, i - 1) then Slots(s.out[..s.after + 1] + [line] + s.out[s.after + 1..], s.after + 1)
    else if line in s.out then Slots(s.out, LastIndex(s.out, line))
    else s
  }

  /** What line `i` of `theirs` does to the result and its slot. */
  lemma PlacedNext(b: seq<string>, o: seq<string>, t: seq<string>, i: nat)
    requires i < |t|
    ensures var s, s' := Placed(b, o, t, i), Placed(b, o, t, i + 1);
            && (Extra(b, o, t, i) ==> s' == Slots(s.out[..s.after + 1] + [t[i]] + s.out[s.after + 1..], s.after + 1))
            && (!Extra(b, o, t, i) && t[i] in s.out ==> s' == Slots(s.out, LastIndex(s.out, t[i])))
            && (!Extra(b, o, t, i) && t[i] !in s.out ==> s' == s)
  {
    hide Extra, Kept, LastIndex;
  }

  /** The merged lines. */
  ghost function Merged(b: seq<string>, o: seq<string>, t: seq<string>): seq<string> {
    Placed(b, o, t, |t|).out
  }

  lemma {:induction false} PlacedCopies(b: seq<string>, o: seq<string>, t: seq<string>, i: nat, k: string)
    requires i <= |t|
    ensures Copies(Placed(b, o, t, i).out, k) + Min(Owed(b, o, t, k), Copies(t[i..], k))
         == Copies(Kept(b, o, t, |o|), k) + Min(Owed(b, o, t, k), Copies(t, k))
  {
    hide Placed, Owed, Kept, Copies;
    NothingPlaced(b, o, t);
    if i == 0 {
      assert t[0..] == t;
    } else {
      PlacedCopies(b, o, t, i - 1, k);
      CopiesSplit(t, i - 1, k);
      OnePlaced(b, o, t, i - 1, k);
    }
  }

  lemma NothingPlaced(b: seq<string>, o: seq<string>, t: seq<string>)
    ensures Placed(b, o, t, 0) == Slots(Kept(b, o, t, |o|), -1)
  {
  }

  /** A line of `theirs` adds one copy of itself when it is an extra one, and nothing else. */
  lemma OnePlaced(b: seq<string>, o: seq<string>, t: seq<string>, i: nat, k: string)
    requires i < |t|
    ensures Copies(Placed(b, o, t, i + 1).out, k)
         == Copies(Placed(b, o, t, i).out, k) + if Extra(b, o, t, i) && t[i] == k then 1 else 0
  {
    hide Extra, Kept, Copies;
    var s := Placed(b, o, t, i);
    CopiesInsert(s.out, s.after + 1, t[i], k);
  }

  /** Every owed copy exists in `theirs`. */
  lemma OwedIsAvailable(b: nat, o: nat, t: nat)
    ensures Minus(Want(b, o, t), Min(o, Want(b, o, t))) <= t
  {
  }

  /** The result holds exactly the wanted copies of every line. */
  lemma MergedCopies(b: seq<string>, o: seq<string>, t: seq<string>, k: string)
    ensures Copies(Merged(b, o, t), k) == Want(Copies(b, k), Copies(o, k), Copies(t, k))
  {
    PlacedCopies(b, o, t, |t|, k);
    KeptCopies(b, o, t, |o|, k);
    assert o[..|o|] == o;
    OwedIsAvailable(Copies(b, k), Copies(o, k), Copies(t, k));
  }

  /** The copies meet the merge's promises: a deletion stands, an addition stands, nothing is invented. */
  lemma WantKeepsPromises(b: nat, o: nat, t: nat)
    ensures Want(b, o, t) == Want(b, t, o)
    ensures Want(b, o, b) == o && Want(b, b, t) == t && Want(b, o, o) == o
    ensures Want(b, o, t) >= Minus(o, b) && Want(b, o, t) >= Minus(t, b)
    ensures o <= b && t <= b ==> Want(b, o, t) == Min(o, t)
    ensures o >= b && t >= b ==> Want(b, o, t) == Max(o, t)
    ensures (o <= b <= t || t <= b <= o) ==> Want(b, o, t) == o + t - b
    ensures Want(b, o, t) > 0 ==> o > 0 || t > 0
  {
  }

  /** The two sides swapped give the same lines, each as often. */
  lemma SidesAreSymmetric(b: seq<string>, o: seq<string>, t: seq<string>)
    ensures multiset(Merged(b, o, t)) == multiset(Merged(b, t, o))
  {
    hide Merged, Want;
    forall k ensures multiset(Merged(b, o, t))[k] == multiset(Merged(b, t, o))[k] {
      MergedCopies(b, o, t, k);
      MergedCopies(b, t, o, k);
      WantKeepsPromises(Copies(b, k), Copies(o, k), Copies(t, k));
    }
  }

  lemma PlacedGrows(b: seq<string>, o: seq<string>, t: seq<string>, i: nat)
    requires i < |t|
    ensures var s, out := Placed(b, o, t, i), Placed(b, o, t, i + 1).out;
            out == s.out || out == s.out[..s.after + 1] + [t[i]] + s.out[s.after + 1..]
  {
    hide Extra, Kept;
  }

  lemma {:induction false} KeptSurvives(b: seq<string>, o: seq<string>, t: seq<string>, i: nat)
    requires i <= |t|
    ensures Subsequence(Kept(b, o, t, |o|), Placed(b, o, t, i).out)
  {
    hide Placed, Kept, Subsequence;
    NothingPlaced(b, o, t);
    if i == 0 {
      SubsequenceReflexive(Kept(b, o, t, |o|));
    } else {
      KeptSurvives(b, o, t, i - 1);
      var s := Placed(b, o, t, i - 1);
      SubsequenceInsert(Kept(b, o, t, |o|), s.out, s.after + 1, t[i - 1]);
      PlacedGrows(b, o, t, i - 1);
    }
  }

  /** Ours' surviving lines keep ours' order, in the result too. */
  lemma OursKeepsItsOrder(b: seq<string>, o: seq<string>, t: seq<string>)
    ensures Subsequence(Kept(b, o, t, |o|), o) && Subsequence(Kept(b, o, t, |o|), Merged(b, o, t))
    ensures forall k :: Copies(Kept(b, o, t, |o|), k) == Min(Copies(o, k), Copies(Merged(b, o, t), k))
  {
    assert o[..|o|] == o;
    KeptIsSubsequence(b, o, t, |o|);
    KeptSurvives(b, o, t, |t|);
    forall k ensures Copies(Kept(b, o, t, |o|), k) == Min(Copies(o, k), Copies(Merged(b, o, t), k)) {
      KeptCopies(b, o, t, |o|, k);
      MergedCopies(b, o, t, k);
    }
  }

  lemma CopiesPrefix(s: seq<string>, i: nat)
    requires i < |s|
    ensures Copies(s[..i], s[i]) < Copies(s, s[i]) && s[..i + 1] == s[..i] + [s[i]]
  {
    assert s == s[..i] + s[i..];
  }

  lemma {:induction false} KeepsAll(b: seq<string>, o: seq<string>, t: seq<string>, i: nat)
    requires i <= |o| && forall k :: Wanted(b, o, t, k) == Copies(o, k)
    ensures Kept(b, o, t, i) == o[..i]
  {
    hide Wanted, Copies;
    if i > 0 {
      KeepsAll(b, o, t, i - 1);
      CopiesPrefix(o, i - 1);
    }
  }

  lemma {:induction false} PlacesNothing(b: seq<string>, o: seq<string>, t: seq<string>, i: nat)
    requires i <= |t| && forall k :: Owed(b, o, t, k) == 0
    ensures Placed(b, o, t, i).out == Kept(b, o, t, |o|)
  {
    hide Owed, Kept;
    if i > 0 {
      PlacesNothing(b, o, t, i - 1);
    }
  }

  /** When `theirs` holds the base's lines, or ours', in whatever order, the result is exactly `ours`. */
  lemma UnchangedTheirsLeavesOurs(b: seq<string>, o: seq<string>, t: seq<string>)
    requires multiset(t) == multiset(b) || multiset(t) == multiset(o)
    ensures Merged(b, o, t) == o
  {
    hide Want, Kept, Placed;
    forall k ensures Wanted(b, o, t, k) == Copies(o, k) {
      WantKeepsPromises(Copies(b, k), Copies(o, k), Copies(t, k));
    }
    KeepsAll(b, o, t, |o|);
    assert o[..|o|] == o;
    forall k ensures Owed(b, o, t, k) == 0 {
      assert Wanted(b, o, t, k) == Copies(o, k);
    }
    PlacesNothing(b, o, t, |t|);
  }

  /** Line `j` of `theirs` is in the result when its turn has passed. */
  ghost predicate Present(b: seq<string>, o: seq<string>, t: seq<string>, j: nat)
    requires j < |t|
  {
    Extra(b, o, t, j) || t[j] in Placed(b, o, t, j).out
  }

  /** The nearest line of `theirs` before `i` that the result has, or `-1`. */
  ghost function Nearest(b: seq<string>, o: seq<string>, t: seq<string>, i: nat): (r: int)
    requires i <= |t|
    ensures -1 <= r < i
  {
    if i == 0 then -1 else if Present(b, o, t, i - 1) then i - 1 else Nearest(b, o, t, i - 1)
  }

  lemma {:induction false} NearestIsPresent(b: seq<string>, o: seq<string>, t: seq<string>, i: nat)
    requires i <= |t|
    ensures Nearest(b, o, t, i) >= 0 ==> Present(b, o, t, Nearest(b, o, t, i))
    ensures forall j :: Nearest(b, o, t, i) < j < i ==> !Present(b, o, t, j)
  {
    hide Present, Nearest;
    NearestNext(b, o, t, i);
    if i > 0 && !Present(b, o, t, i - 1) {
      NearestIsPresent(b, o, t, i - 1);
    }
  }

  lemma NearestNext(b: seq<string>, o: seq<string>, t: seq<string>, i: nat)
    requires i <= |t|
    ensures Nearest(b, o, t, i) ==
            if i == 0 then -1 else if Present(b, o, t, i - 1) then i - 1 else Nearest(b, o, t, i - 1)
  {
    hide Present;
  }

  lemma {:induction false} AfterIsNearest(b: seq<string>, o: seq<string>, t: seq<string>, i: nat)
    requires i <= |t|
    ensures var s, n := Placed(b, o, t, i), Nearest(b, o, t, i);
            if n == -1 then s.after == -1 else s.after >= 0 && s.out[s.after] == t[n]
  {
    hide Extra, Kept, Copies, Placed, Nearest, LastIndex;
    NearestNext(b, o, t, i);
    NothingPlaced(b, o, t);
    if i > 0 {
      AfterIsNearest(b, o, t, i - 1);
      PlacedNext(b, o, t, i - 1);
    }
  }

  /** An extra line of `theirs` follows at once the last of its predecessors there that is present, and opens the result if none is. */
  lemma AddedLineFollowsItsPredecessor(b: seq<string>, o: seq<string>, t: seq<string>, i: nat) returns (p: nat)
    requires i < |t| && Extra(b, o, t, i)
    ensures var before, n := Placed(b, o, t, i).out, Nearest(b, o, t, i);
            && p <= |before|
            && Placed(b, o, t, i + 1).out == before[..p] + [t[i]] + before[p..]
            && (if n == -1 then p == 0 else p > 0 && before[p - 1] == t[n] && Present(b, o, t, n))
            && forall j :: n < j < i ==> !Present(b, o, t, j)
  {
    hide Extra, Kept, Copies, Nearest, Present;
    AfterIsNearest(b, o, t, i);
    NearestIsPresent(b, o, t, i);
    p := Placed(b, o, t, i).after + 1;
  }

  // ---- text in, text out ----

  predicate EndsWithNewline(text: string) {
    text != "" && text[|text| - 1] == '\n'
  }

  /** One trailing newline does not count as a last empty line. */
  function LinesOf(text: string): (r: seq<string>)
    ensures AllNewlineFree(r)
  {
    if text == "" then [] else Split(if EndsWithNewline(text) then text[..|text| - 1] else text)
  }

  function JoinSides(out: seq<string>, ours: string, theirs: string): string {
    if out == [] then "" else Join(out) + if EndsWithNewline(ours) || EndsWithNewline(theirs) then "\n" else ""
  }

  /** `m` counts the lines of `s`. */
  ghost predicate CountsOf(m: map<string, nat>, s: seq<string>) {
    forall k :: Get(m, k) == Copies(s, k)
  }

  lemma CountNothing()
    ensures CountsOf(map[], [])
  {
  }

  lemma CountOne(m: map<string, nat>, s: seq<string>, line: string)
    requires CountsOf(m, s)
    ensures CountsOf(m[line := Get(m, line) + 1], s + [line])
  {
    forall k ensures Get(m[line := Get(m, line) + 1], k) == Copies(s + [line], k) {
      CopiesAppend(s, line, k);
    }
  }

  method Counts(lines: seq<string>) returns (m: map<string, nat>)
    ensures CountsOf(m, lines)
    ensures forall k :: k in m <==> k in lines
  {
    m := map[];
    for i := 0 to |lines|
      invariant CountsOf(m, lines[..i])
      invariant forall k :: k in m <==> k in lines[..i]
    {
      CountOne(m, lines[..i], lines[i]);
      assert lines[..i + 1] == lines[..i] + [lines[i]];
      m := m[lines[i] := Get(m, lines[i]) + 1];
    }
    assert lines[..|lines|] == lines;
  }

  /** Which lines of `theirs` are to be inserted, found in one pass from its end. */
  method MarkExtra(b: seq<string>, o: seq<string>, t: seq<string>, owed: map<string, nat>) returns (extra: seq<bool>)
    requires forall k :: Get(owed, k) == Owed(b, o, t, k)
    ensures |extra| == |t| && forall i :: 0 <= i < |t| ==> (extra[i] <==> Extra(b, o, t, i))
  {
    extra := seq(|t|, _ => false);
    var fromEnd: map<string, nat> := map[];
    for i := |t| downto 0
      invariant |extra| == |t|
      invariant forall k :: Get(fromEnd, k) == Copies(t[i..], k)
      invariant forall j :: i <= j < |t| ==> (extra[j] <==> Extra(b, o, t, j))
    {
      forall k ensures Copies(t[i..], k) == Copies(t[i + 1..], k) + if t[i] == k then 1 else 0 {
        CopiesSplit(t, i, k);
      }
      var seen := Get(fromEnd, t[i]);
      extra := extra[i := seen < Get(owed, t[i])];
      fromEnd := fromEnd[t[i] := seen + 1];
    }
  }

  method InsertTheirs(b: seq<string>, o: seq<string>, t: seq<string>, kept: seq<string>, owed: map<string, nat>)
    returns (out: seq<string>)
    requires kept == Kept(b, o, t, |o|)
    requires forall k :: Get(owed, k) == Owed(b, o, t, k)
    ensures out == Merged(b, o, t)
  {
    hide Owed, Kept, LastIndex;
    var extra := MarkExtra(b, o, t, owed);
    out := kept;
    var after := -1;
    for i := 0 to |t|
      invariant Placed(b, o, t, i) == Slots(out, after)
    {
      if extra[i] {
        var at := after + 1;
        out := out[..at] + [t[i]] + out[at..];
        after := at;
      } else {
        var pos := LastIndex(out, t[i]);
        if pos != -1 {
          after := pos;
        }
      }
    }
  }

  /** The pass over `ours` keeps what `Kept` keeps, and counts it. */
  method KeepOurs(b: seq<string>, o: seq<string>, t: seq<string>,
                  nb: map<string, nat>, no: map<string, nat>, nt: map<string, nat>)
    returns (out: seq<string>, taken: map<string, nat>)
    requires CountsOf(nb, b) && CountsOf(no, o) && CountsOf(nt, t)
    ensures out == Kept(b, o, t, |o|)
    ensures CountsOf(taken, out)
  {
    hide Want, Copies;
    out, taken := [], map[];
    CountNothing();
    for i := 0 to |o|
      invariant out == Kept(b, o, t, i)
      invariant CountsOf(taken, out)
    {
      var used, want := Get(taken, o[i]), Want(Get(nb, o[i]), Get(no, o[i]), Get(nt, o[i]));
      if used < want {
        CountOne(taken, out, o[i]);
        taken := taken[o[i] := used + 1];
        out := out + [o[i]];
      }
    }
  }

  /** The copies of each line that `theirs` has still to supply, as a map. */
  method OwedByTheirs(b: seq<string>, o: seq<string>, t: seq<string>,
                      nb: map<string, nat>, no: map<string, nat>, nt: map<string, nat>, taken: map<string, nat>)
    returns (owed: map<string, nat>)
    requires CountsOf(nb, b) && CountsOf(no, o) && CountsOf(nt, t)
    requires forall k :: k in nt <==> k in t
    requires CountsOf(taken, Kept(b, o, t, |o|))
    ensures forall k :: Get(owed, k) == Owed(b, o, t, k)
  {
    hide Want, Kept;
    owed := map[];
    var keys := nt.Keys;
    while keys != {}
      invariant keys <= nt.Keys
      invariant forall k :: Get(owed, k) == if k in nt.Keys - keys then Owed(b, o, t, k) else 0
    {
      var k :| k in keys;
      var missing := Minus(Want(Get(nb, k), Get(no, k), Get(nt, k)), Get(taken, k));
      assert missing == Owed(b, o, t, k);
      ghost var was, left := owed, keys;
      if missing > 0 {
        owed := owed[k := missing];
      }
      keys := keys - {k};
      forall j ensures Get(owed, j) == if j in nt.Keys - keys then Owed(b, o, t, j) else 0 {
        if j == k {
          assert Get(was, k) == 0;
        } else {
          assert Get(owed, j) == Get(was, j);
          assert j in nt.Keys - keys <==> j in nt.Keys - left;
        }
      }
    }
  }

  /** The merged lines as a file. */
  ghost function MergedText(base: string, ours: string, theirs: string): string {
    JoinSides(Merged(LinesOf(base), LinesOf(ours), LinesOf(theirs)), ours, theirs)
  }

  /** The loops over the three lists of lines give the merged file. */
  method Merge(base: string, ours: string, theirs: string) returns (text: string)
    ensures text == MergedText(base, ours, theirs)
  {
    var b, o, t := LinesOf(base), LinesOf(ours), LinesOf(theirs);
    var nb := Counts(b);
    var no := Counts(o);
    var nt := Counts(t);
    var out, taken := KeepOurs(b, o, t, nb, no, nt);
    var owed := OwedByTheirs(b, o, t, nb, no, nt, taken);
    out := InsertTheirs(b, o, t, out, owed);
    text := JoinSides(out, ours, theirs);
  }

  /** The merged lines end in a blank one that no final newline follows: read back, it is gone. */
  ghost predicate LosesLastBlank(out: seq<string>, ours: string, theirs: string) {
    out != [] && out[|out| - 1] == "" && !EndsWithNewline(ours) && !EndsWithNewline(theirs)
  }

  /** Reading the merged text gives the merged lines, except for a last blank with no newline after it. */
  lemma ReadBack(out: seq<string>, ours: string, theirs: string)
    requires AllNewlineFree(out)
    ensures LinesOf(JoinSides(out, ours, theirs)) == if LosesLastBlank(out, ours, theirs) then out[..|out| - 1] else out
  {
    if out != [] {
      SplitJoin(out);
      JoinEnds(out);
      var text := JoinSides(out, ours, theirs);
      if EndsWithNewline(ours) || EndsWithNewline(theirs) {
        assert text[..|text| - 1] == Join(out);
      } else if LosesLastBlank(out, ours, theirs) && |out| > 1 {
        SplitJoin(out[..|out| - 1]);
        assert text == Join(out[..|out| - 1]) + "\n";
        assert text[..|text| - 1] == Join(out[..|out| - 1]);
      } else {
        assert text == Join(out);
      }
    }
  }

  lemma MergedIsNewlineFree(b: seq<string>, o: seq<string>, t: seq<string>)
    requires AllNewlineFree(o) && AllNewlineFree(t)
    ensures AllNewlineFree(Merged(b, o, t))
  {
    var out := Merged(b, o, t);
    forall i | 0 <= i < |out| ensures NewlineFree(out[i]) {
      assert Copies(out, out[i]) > 0;
      MergedCopies(b, o, t, out[i]);
      WantKeepsPromises(Copies(b, out[i]), Copies(o, out[i]), Copies(t, out[i]));
      assert out[i] in o || out[i] in t;
    }
  }

  /**
   The merged file holds exactly the wanted copies of every line if and only if it does not end in a
   blank line with neither side's file ending in a newline.
   */
  lemma MergedTextCopies(base: string, ours: string, theirs: string)
    ensures var b, o, t := LinesOf(base), LinesOf(ours), LinesOf(theirs);
            var text := MergedText(base, ours, theirs);
            (forall k :: Copies(LinesOf(text), k) == Wanted(b, o, t, k)) <==> !LosesLastBlank(Merged(b, o, t), ours, theirs)
  {
    hide Merged, LinesOf, JoinSides, Want, AllNewlineFree, EndsWithNewline;
    var b, o, t := LinesOf(base), LinesOf(ours), LinesOf(theirs);
    var out := Merged(b, o, t);
    MergedIsNewlineFree(b, o, t);
    ReadBack(out, ours, theirs);
    forall k ensures Copies(out, k) == Wanted(b, o, t, k) {
      MergedCopies(b, o, t, k);
    }
    if LosesLastBlank(out, ours, theirs) {
      CopiesSplit(out, |out| - 1, "");
      assert out[..|out|] == out;
    }
  }

  lemma KeptExample(b: seq<string>, t: seq<string>)
    requires b == ["a", "", "z"] && t == ["", "a"]
    ensures Merged(b, b, t) == ["a", ""]
  {
    assert Copies(b, "a") == Copies(b, "") == Copies(b, "z") == 1;
    assert Copies(t, "a") == Copies(t, "") == 1 && Copies(t, "z") == 0;
    WantExample(b, t);
    hide Want, Wanted, Placed;
    CopiesAppend([], "a", "");
    CopiesAppend(["a"], "", "z");
    assert Kept(b, b, t, 0) == [];
    assert Kept(b, b, t, 1) == ["a"];
    assert Kept(b, b, t, 2) == ["a", ""];
    assert Kept(b, b, t, 3) == ["a", ""];
    assert Copies(["a", ""], "a") == Copies(["a", ""], "") == 1;
    PlacesNothing(b, b, t, |t|);
  }

  lemma WantExample(b: seq<string>, t: seq<string>)
    requires Copies(b, "a") == Copies(b, "") == Copies(b, "z") == 1
    requires Copies(t, "a") == Copies(t, "") == 1 && Copies(t, "z") == 0
    ensures Wanted(b, b, t, "a") == Wanted(b, b, t, "") == 1 && Wanted(b, b, t, "z") == 0
  {
  }

  /** Three small files whose merge loses the blank line that all of them hold. */
  lemma ABlankLineCanBeLost()
    ensures var base, theirs := "a\n\nz", "\na";
            && "" in LinesOf(base) && "" in LinesOf(theirs)
            && LinesOf(MergedText(base, base, theirs)) == ["a"]
  {
    hide Split, Merged;
    var base, theirs := "a\n\nz", "\na";
    assert Join(["a", "", "z"]) == "a" + "\n" + Join(["", "z"]) == base;
    SplitJoin(["a", "", "z"]);
    assert Join(["", "a"]) == theirs;
    SplitJoin(["", "a"]);
    KeptExample(["a", "", "z"], ["", "a"]);
    ReadBack(["a", ""], base, theirs);
    assert ["a", "", "z"][1] == "" && ["", "a"][0] == "";
    assert ["a", ""][..1] == ["a"];
  }
}

/**
 What can be told of a merge before it is made: when an unchanged `ours` gives exactly `theirs`, and which
 line the merged file ends in.
 */
module MergeOrder {
  import opened Wrappers
  import opened Merge3

  // ---- ours unchanged since the base ----

  /** Line `i` of `t` is one more copy than `b` has. */
  ghost predicate Added(b: seq<string>, t: seq<string>, i: nat)
    requires i < |t|
  {
    Copies(t[..i], t[i]) >= Copies(b, t[i])
  }

  /** The lines of `s` from `i` on that are no more copies than `u` has. */
  ghost function Shared(s: seq<string>, u: seq<string>, i: nat): seq<string>
    requires i <= |s|
    decreases |s| - i
  {
    if i == |s| then [] else (if Added(u, s, i) then [] else [s[i]]) + Shared(s, u, i + 1)
  }

  /** From `i` on, a line added right after a shared one comes after the last shared copy of that one. */
  ghost predicate AddedAfterLast(b: seq<string>, t: seq<string>, i: nat) {
    forall k, j :: i <= k < |t| && 0 < k && Added(b, t, k) && !Added(b, t, k - 1) && k < j < |t| && t[j] == t[k - 1] ==>
                     Added(b, t, j)
  }

  lemma OwedIsSurplus(b: seq<string>, t: seq<string>, k: string)
    ensures Wanted(b, b, t, k) == Copies(t, k)
    ensures Owed(b, b, t, k) == Minus(Copies(t, k), Copies(b, k))
  {
    hide Kept;
    WantKeepsPromises(Copies(b, k), Copies(b, k), Copies(t, k));
    KeptCopies(b, b, t, |b|, k);
    assert b[..|b|] == b;
  }

  lemma ExtraIsAdded(b: seq<string>, t: seq<string>, i: nat)
    requires i < |t|
    ensures Extra(b, b, t, i) <==> Added(b, t, i)
  {
    hide Owed, Wanted;
    OwedIsSurplus(b, t, t[i]);
    CopiesSplit(t, i, t[i]);
    assert t == t[..i] + t[i..];
  }

  /** What an unchanged `ours` keeps are the lines it shares with `theirs`. */
  lemma {:induction false} KeptIsShared(b: seq<string>, t: seq<string>, i: nat)
    requires i <= |b|
    ensures Kept(b, b, t, i) + Shared(b, t, i) == Shared(b, t, 0)
  {
    hide Wanted, Copies, Shared;
    if i == 0 {
      assert Kept(b, b, t, 0) + Shared(b, t, 0) == Shared(b, t, 0);
    } else {
      KeptIsShared(b, t, i - 1);
      KeptCopies(b, b, t, i - 1, b[i - 1]);
      OwedIsSurplus(b, t, b[i - 1]);
      SharedNext(b, t, i - 1);
      var kept, rest := Kept(b, b, t, i - 1), Shared(b, t, i);
      assert kept + ([b[i - 1]] + rest) == kept + [b[i - 1]] + rest;
    }
  }

  lemma SharedNext(s: seq<string>, u: seq<string>, i: nat)
    requires i < |s|
    ensures Shared(s, u, i) == if Added(u, s, i) then Shared(s, u, i + 1) else [s[i]] + Shared(s, u, i + 1)
  {
    hide Added;
  }

  lemma {:induction false} SharedCopies(s: seq<string>, u: seq<string>, i: nat, k: string)
    requires i <= |s|
    ensures Copies(Shared(s, u, i), k) == Minus(Min(Copies(s, k), Copies(u, k)), Min(Copies(s[..i], k), Copies(u, k)))
    decreases |s| - i
  {
    hide Copies, Shared;
    if i == |s| {
      assert s[..i] == s;
      NothingShared(s, u);
      CopiesAppend([], "", k);
    } else {
      SharedCopies(s, u, i + 1, k);
      CopiesSplit(s, i, k);
      SharedNext(s, u, i);
      CopiesInsert(Shared(s, u, i + 1), 0, s[i], k);
      assert Shared(s, u, i + 1)[..0] + [s[i]] + Shared(s, u, i + 1)[0..] == [s[i]] + Shared(s, u, i + 1);
      CopiesOfPart(s, i + 1, k);
    }
  }

  lemma NothingShared(s: seq<string>, u: seq<string>)
    ensures Shared(s, u, |s|) == []
  {
  }

  lemma CopiesOfPart(s: seq<string>, i: nat, k: string)
    requires i <= |s|
    ensures Copies(s[..i], k) <= Copies(s, k)
  {
    assert s == s[..i] + s[i..];
  }

  /** The two sides share the same lines, in their own orders. */
  lemma SharedAlike(b: seq<string>, t: seq<string>)
    ensures multiset(Shared(b, t, 0)) == multiset(Shared(t, b, 0))
  {
    hide Shared;
    forall k ensures multiset(Shared(b, t, 0))[k] == multiset(Shared(t, b, 0))[k] {
      SharedCopies(b, t, 0, k);
      SharedCopies(t, b, 0, k);
      assert Copies(b[..0], k) == 0 && Copies(t[..0], k) == 0;
    }
  }

  /** Every shared line of `t` from `i` on is among the shared lines from `i` on. */
  lemma {:induction false} SharedHolds(t: seq<string>, b: seq<string>, i: nat, j: nat)
    requires i <= j < |t| && !Added(b, t, j)
    ensures t[j] in Shared(t, b, i)
    decreases |t| - i
  {
    hide Added, Shared;
    SharedNext(t, b, i);
    if i < j {
      SharedHolds(t, b, i + 1, j);
    }
  }

  lemma {:induction false} SharedIsLater(t: seq<string>, b: seq<string>, i: nat, x: string) returns (j: nat)
    requires i <= |t| && x in Shared(t, b, i)
    ensures i <= j < |t| && t[j] == x && !Added(b, t, j)
    decreases |t| - i
  {
    hide Added;
    if !Added(b, t, i) && t[i] == x {
      j := i;
    } else {
      j := SharedIsLater(t, b, i + 1, x);
    }
  }

  /** Once a copy is added, every later copy is. */
  lemma AddedStays(b: seq<string>, t: seq<string>, i: nat, j: nat)
    requires i <= j < |t| && t[i] == t[j] && Added(b, t, i)
    ensures Added(b, t, j)
  {
    assert t[..j] == t[..i] + t[i..j];
  }

  // ---- the result so far ----

  /** Past position `i` the result holds every line still to come that is not added. */
  ghost predicate HoldsRest(b: seq<string>, t: seq<string>, out: seq<string>, i: nat, j: nat)
    requires i <= |out|
  {
    forall k :: j <= k < |t| && !Added(b, t, k) ==> t[k] in out[i..]
  }

  /** With the slot past position `i`, nothing up to `i` changes any more. */
  lemma {:induction false} Frozen(b: seq<string>, t: seq<string>, i: nat, j: nat)
    requires j <= |t|
    requires var s := Placed(b, b, t, j); i < |s.out| && i <= s.after && HoldsRest(b, t, s.out, i, j)
    ensures var out := Merged(b, b, t); i < |out| && out[i] == Placed(b, b, t, j).out[i]
    decreases |t| - j
  {
    hide Placed, Added, LastIndex;
    if j < |t| {
      PlacedNext(b, b, t, j);
      ExtraIsAdded(b, t, j);
      var s, s' := Placed(b, b, t, j), Placed(b, b, t, j + 1);
      if Added(b, t, j) {
        InsertedPast(s.out, s.after + 1, t[j], i);
      } else {
        assert t[j] in s.out[i..];
        LastIsPast(s.out, t[j], i);
      }
      Frozen(b, t, i, j + 1);
    }
  }

  lemma InsertedPast(out: seq<string>, at: nat, line: string, i: nat)
    requires i < at <= |out|
    ensures var out' := out[..at] + [line] + out[at..];
            i < |out'| && out'[i] == out[i] && forall x :: x in out[i..] ==> x in out'[i..]
  {
    var out' := out[..at] + [line] + out[at..];
    assert out'[i..] == out[i..at] + [line] + out[at..];
    assert out[i..] == out[i..at] + out[at..];
  }

  lemma LastIsPast(out: seq<string>, line: string, i: nat)
    requires i <= |out| && line in out[i..]
    ensures line in out && LastIndex(out, line) >= i
  {
    hide LastIndex;
    var k :| 0 <= k < |out[i..]| && out[i..][k] == line;
    assert out[i + k] == line;
  }

  /** The result so far is `t` so far and then what `rest` still offers, the slot where it should be. */
  ghost predicate Follows(b: seq<string>, t: seq<string>, rest: seq<string>, i: nat)
    requires i <= |t|
  {
    var s := Placed(b, b, t, i);
    && s.out == t[..i] + rest && multiset(rest) == multiset(Shared(t, b, i))
    && (if i == 0 then s.after == -1
        else if Added(b, t, i - 1) then s.after == i - 1
        else s.after == LastIndex(s.out, t[i - 1]))
  }

  lemma LastOfPrefix(t: seq<string>, rest: seq<string>, i: nat)
    requires 0 < i <= |t|
    ensures var out := t[..i] + rest;
            && (t[i - 1] in rest ==> LastIndex(out, t[i - 1]) >= i)
            && (t[i - 1] !in rest ==> LastIndex(out, t[i - 1]) == i - 1)
  {
    hide LastIndex;
    var out, x := t[..i] + rest, t[i - 1];
    assert out[i..] == rest && out[i - 1] == x;
    assert forall p :: i <= p < |out| ==> out[p] == rest[p - i];
    if x in rest {
      LastIsPast(out, x, i);
    }
  }

  /** The slot is right before an added line unless a shared copy of the line before it is still to come. */
  lemma SlotIsNext(b: seq<string>, t: seq<string>, rest: seq<string>, i: nat)
    requires i < |t| && Follows(b, t, rest, i) && Added(b, t, i)
    ensures var s := Placed(b, b, t, i);
            if i > 0 && !Added(b, t, i - 1) && t[i - 1] in rest then s.after >= i else s.after == i - 1
  {
    hide Placed, Added, LastIndex, Shared;
    if i > 0 && !Added(b, t, i - 1) {
      LastOfPrefix(t, rest, i);
    }
  }

  lemma AddedNext(b: seq<string>, t: seq<string>, rest: seq<string>, i: nat)
    requires i < |t| && Follows(b, t, rest, i) && Added(b, t, i) && Placed(b, b, t, i).after == i - 1
    ensures Follows(b, t, rest, i + 1)
  {
    hide Placed, Added, LastIndex, Shared;
    PlacedNext(b, b, t, i);
    ExtraIsAdded(b, t, i);
    SharedNext(t, b, i);
    assert (t[..i] + rest)[..i] == t[..i] && (t[..i] + rest)[i..] == rest && t[..i + 1] == t[..i] + [t[i]];
  }

  lemma RestHolds(b: seq<string>, t: seq<string>, rest: seq<string>, i: nat)
    requires i < |t| && multiset(rest) == multiset(Shared(t, b, i)) && !Added(b, t, i)
    ensures rest != [] && t[i] in rest && Shared(t, b, i) == [t[i]] + Shared(t, b, i + 1)
  {
    hide Added, Shared;
    SharedNext(t, b, i);
    assert t[i] in multiset(Shared(t, b, i));
    assert t[i] in multiset(rest);
  }

  lemma SharedStep(b: seq<string>, t: seq<string>, rest: seq<string>, i: nat)
    requires i < |t| && Follows(b, t, rest, i) && !Added(b, t, i)
    ensures rest != [] && t[i] in rest
    ensures Placed(b, b, t, i + 1) == Slots(t[..i] + rest, LastIndex(t[..i] + rest, t[i]))
  {
    hide Placed, Added, LastIndex, Shared;
    RestHolds(b, t, rest, i);
    PlacedNext(b, b, t, i);
    ExtraIsAdded(b, t, i);
  }

  lemma SharedNextFollows(b: seq<string>, t: seq<string>, rest: seq<string>, i: nat)
    requires i < |t| && Follows(b, t, rest, i) && !Added(b, t, i) && rest != [] && rest[0] == t[i]
    ensures Follows(b, t, rest[1..], i + 1)
  {
    hide Placed, Added, LastIndex, Shared;
    SharedStep(b, t, rest, i);
    RestHolds(b, t, rest, i);
    TakeFirst(t[..i], rest);
    TakeFirst([], Shared(t, b, i));
    assert t[..i + 1] == t[..i] + [t[i]];
  }

  lemma TakeFirst(head: seq<string>, rest: seq<string>)
    requires rest != []
    ensures head + rest == head + [rest[0]] + rest[1..]
    ensures multiset(rest[1..]) == multiset(rest) - multiset{rest[0]}
  {
    assert rest == [rest[0]] + rest[1..];
  }

  lemma AllHeld(b: seq<string>, t: seq<string>, head: seq<string>, rest: seq<string>, i: nat, j: nat)
    requires i <= j <= |t| && |head| == i && multiset(rest) == multiset(Shared(t, b, i))
    ensures HoldsRest(b, t, head + rest, i, j)
  {
    hide Added, Shared;
    assert (head + rest)[i..] == rest;
    forall k | j <= k < |t| && !Added(b, t, k) ensures t[k] in (head + rest)[i..] {
      SharedHolds(t, b, i, k);
      assert t[k] in multiset(rest);
    }
  }

  /** An added line that does not come right after its predecessor leaves another line in its place. */
  lemma SlotTooFar(b: seq<string>, t: seq<string>, rest: seq<string>, i: nat)
    requires i < |t| && Follows(b, t, rest, i) && Added(b, t, i) && Placed(b, b, t, i).after >= i
    ensures Merged(b, b, t) != t
  {
    hide Placed, Added, LastIndex, Shared, Merged;
    PlacedNext(b, b, t, i);
    ExtraIsAdded(b, t, i);
    var s := Placed(b, b, t, i);
    AllHeld(b, t, t[..i], rest, i, i);
    SomeRest(b, t, i);
    assert s.out[i] == rest[0] && rest[0] in multiset(rest);
    var j := SharedIsLater(t, b, i, rest[0]);
    if rest[0] == t[i] {
      AddedStays(b, t, i, j);
    }
    Frozen(b, t, i, i);
  }

  lemma SomeRest(b: seq<string>, t: seq<string>, i: nat)
    requires i <= |t|
    ensures Placed(b, b, t, i).after < |Placed(b, b, t, i).out|
  {
    hide Placed;
  }

  /** A shared line whose turn it is not stands in another line's place. */
  lemma OutOfTurn(b: seq<string>, t: seq<string>, rest: seq<string>, i: nat)
    requires i < |t| && Follows(b, t, rest, i) && !Added(b, t, i) && rest != [] && rest[0] != t[i]
    ensures Merged(b, b, t) != t
  {
    hide Placed, Added, LastIndex, Shared, Merged;
    SharedStep(b, t, rest, i);
    var out := t[..i] + rest;
    assert out[i..] == rest && out[i] == rest[0];
    LastIsPast(out, t[i], i);
    AllHeld(b, t, t[..i], rest, i, i);
    Frozen(b, t, i, i + 1);
  }

  lemma {:induction false} FollowsToTheEnd(b: seq<string>, t: seq<string>, rest: seq<string>, i: nat)
    requires i <= |t| && Follows(b, t, rest, i)
    ensures Merged(b, b, t) == t <==> rest == Shared(t, b, i) && AddedAfterLast(b, t, i)
    decreases |t| - i
  {
    hide Placed, Added, LastIndex, Shared, Follows;
    FollowsHas(b, t, rest, i);
    if i == |t| {
      NothingShared(t, b);
      assert t[..i] == t && t + [] == t;
      assert multiset(rest) == multiset{} ==> rest == [] by { NoneLeft(rest); }
    } else if Added(b, t, i) {
      SharedNext(t, b, i);
      SlotIsNext(b, t, rest, i);
      if Placed(b, b, t, i).after == i - 1 {
        AddedNext(b, t, rest, i);
        FollowsToTheEnd(b, t, rest, i + 1);
        SlotClause(b, t, rest, i);
      } else {
        SlotTooFar(b, t, rest, i);
        SlotClause(b, t, rest, i);
      }
    } else {
      RestHolds(b, t, rest, i);
      if rest[0] == t[i] {
        SharedNextFollows(b, t, rest, i);
        FollowsToTheEnd(b, t, rest[1..], i + 1);
        assert rest == [t[i]] + rest[1..];
        assert Shared(t, b, i)[1..] == Shared(t, b, i + 1);
        SkipClause(b, t, i);
      } else {
        OutOfTurn(b, t, rest, i);
      }
    }
  }

  lemma FollowsHas(b: seq<string>, t: seq<string>, rest: seq<string>, i: nat)
    requires i <= |t| && Follows(b, t, rest, i)
    ensures Placed(b, b, t, i).out == t[..i] + rest && multiset(rest) == multiset(Shared(t, b, i))
  {
    hide Placed, Added, LastIndex, Shared;
  }

  lemma NoneLeft(rest: seq<string>)
    ensures multiset(rest) == multiset{} ==> rest == []
  {
    assert |multiset(rest)| == |rest|;
  }

  lemma HeldOrAdded(b: seq<string>, t: seq<string>, rest: seq<string>, i: nat, j: nat)
    requires i <= j < |t| && multiset(rest) == multiset(Shared(t, b, i))
    ensures Added(b, t, j) || t[j] in rest
  {
    hide Added, Shared;
    if !Added(b, t, j) {
      SharedHolds(t, b, i, j);
      assert t[j] in multiset(rest);
    }
  }

  /** What the condition says of an added line at `i`. */
  lemma SlotClause(b: seq<string>, t: seq<string>, rest: seq<string>, i: nat)
    requires i < |t| && Added(b, t, i) && multiset(rest) == multiset(Shared(t, b, i))
    ensures AddedAfterLast(b, t, i)
       <==> AddedAfterLast(b, t, i + 1) && !(i > 0 && !Added(b, t, i - 1) && t[i - 1] in rest)
  {
    hide Added, Shared;
    if i > 0 && !Added(b, t, i - 1) {
      if t[i - 1] in rest {
        assert t[i - 1] in multiset(rest);
        var j := SharedIsLater(t, b, i, t[i - 1]);
        assert j != i;
      } else {
        forall j | i < j < |t| && t[j] == t[i - 1] ensures Added(b, t, j) {
          HeldOrAdded(b, t, rest, i, j);
        }
      }
    }
  }

  lemma SkipClause(b: seq<string>, t: seq<string>, i: nat)
    requires i < |t| && !Added(b, t, i)
    ensures AddedAfterLast(b, t, i) <==> AddedAfterLast(b, t, i + 1)
  {
    hide Added;
  }

  /**
   An `ours` unchanged since the base gives exactly `theirs` if and only if the lines the two share stand in
   the same order in both, and no line is added right after a shared one that has a shared copy further on.
   */
  lemma UnchangedOursGivesTheirs(b: seq<string>, t: seq<string>)
    ensures Merged(b, b, t) == t <==> Shared(b, t, 0) == Shared(t, b, 0) && AddedAfterLast(b, t, 0)
  {
    hide Placed, Shared, Added, LastIndex, Merged;
    KeptIsShared(b, t, |b|);
    NothingShared(b, t);
    NothingPlaced(b, b, t);
    SharedAlike(b, t);
    var rest := Kept(b, b, t, |b|);
    assert rest + [] == rest && t[..0] + rest == rest;
    FollowsToTheEnd(b, t, rest, 0);
  }

  /** With no line twice in `theirs`, only the order of the shared lines matters. */
  lemma DistinctTheirs(b: seq<string>, t: seq<string>)
    requires forall i, j :: 0 <= i < j < |t| ==> t[i] != t[j]
    ensures Merged(b, b, t) == t <==> Shared(b, t, 0) == Shared(t, b, 0)
  {
    hide Shared, Added, Merged;
    UnchangedOursGivesTheirs(b, t);
  }

  /** Two lines swapped by `theirs` come back in the order of the unchanged `ours`. */
  lemma UnchangedOursReorders()
    ensures Merged(["a", "c"], ["a", "c"], ["c", "a"]) != ["c", "a"]
  {
    hide Merged;
    assert multiset(["c", "a"]) == multiset{"a", "c"} == multiset(["a", "c"]);
    UnchangedTheirsLeavesOurs(["a", "c"], ["a", "c"], ["c", "a"]);
  }

  /** The shared lines stand in one order, and still an added line moves: its predecessor has a later copy. */
  lemma AddedBetweenCopiesMoves()
    ensures var b, t := ["a", "a"], ["a", "x", "a"];
            Shared(b, t, 0) == Shared(t, b, 0) && Merged(b, b, t) != t
  {
    hide Merged;
    var b, t := ["a", "a"], ["a", "x", "a"];
    assert t[..0] == [] && t[..1] == ["a"] && t[..2] == ["a", "x"];
    assert b[..0] == [] && b[..1] == ["a"];
    assert !Added(b, t, 0) && Added(b, t, 1) && !Added(b, t, 2);
    assert !Added(t, b, 0) && !Added(t, b, 1);
    UnchangedOursGivesTheirs(b, t);
    assert t[2] == t[1 - 1];
  }

  // ---- the line the merged file ends in ----

  /** The last line of the result so far, and whether the slot is right after it. */
  datatype End = End(line: Option<string>, atEnd: bool)

  /**
   The end after the first `i` lines of `t`, told from the lines kept of ours and the extra lines alone: an
   extra line at the end becomes the end, any other leaves it; a kept line moves the slot to its last copy.
   */
  ghost function EndAfter(b: seq<string>, o: seq<string>, t: seq<string>, i: nat): End
    requires i <= |t|
  {
    var kept := Kept(b, o, t, |o|);
    if i == 0 then if kept == [] then End(None, true) else End(Some(kept[|kept| - 1]), false) else
    var e, line := EndAfter(b, o, t, i - 1), t[i - 1];
    if Extra(b, o, t, i - 1) then if e.atEnd then End(Some(line), true) else e
    else if line in kept then End(e.line, e.line == Some(line))
    else e
  }

  /** A line of `theirs` that is not extra is in the result just when ours supplied it. */
  lemma PresentIsKept(b: seq<string>, o: seq<string>, t: seq<string>, i: nat)
    requires i < |t| && !Extra(b, o, t, i)
    ensures t[i] in Placed(b, o, t, i).out <==> t[i] in Kept(b, o, t, |o|)
  {
    hide Placed, Kept, Owed;
    PlacedCopies(b, o, t, i, t[i]);
    CopiesSplit(t, i, t[i]);
    assert t == t[..i] + t[i..];
    assert Copies(Placed(b, o, t, i).out, t[i]) == Copies(Kept(b, o, t, |o|), t[i]);
  }

  /** Whether the slot is right after the last line. */
  ghost predicate EndsAs(s: Slots, e: End) {
    && e.line == (if s.out == [] then None else Some(s.out[|s.out| - 1]))
    && (e.atEnd <==> s.after == |s.out| - 1)
  }

  lemma InsertedEnd(s: Slots, e: End, line: string)
    requires EndsAs(s, e) && -1 <= s.after < |s.out|
    ensures EndsAs(Slots(s.out[..s.after + 1] + [line] + s.out[s.after + 1..], s.after + 1),
                   if e.atEnd then End(Some(line), true) else e)
  {
  }

  lemma MovedEnd(s: Slots, e: End, line: string)
    requires EndsAs(s, e) && line in s.out
    ensures EndsAs(Slots(s.out, LastIndex(s.out, line)), End(e.line, e.line == Some(line)))
  {
    hide LastIndex;
  }

  lemma {:induction false} EndIsTold(b: seq<string>, o: seq<string>, t: seq<string>, i: nat)
    requires i <= |t|
    ensures EndsAs(Placed(b, o, t, i), EndAfter(b, o, t, i))
  {
    hide Placed, Kept, Extra, LastIndex;
    NothingPlaced(b, o, t);
    if i > 0 {
      hide EndsAs;
      EndIsTold(b, o, t, i - 1);
      PlacedNext(b, o, t, i - 1);
      var s, e := Placed(b, o, t, i - 1), EndAfter(b, o, t, i - 1);
      if Extra(b, o, t, i - 1) {
        InsertedEnd(s, e, t[i - 1]);
      } else {
        PresentIsKept(b, o, t, i - 1);
        if t[i - 1] in s.out {
          MovedEnd(s, e, t[i - 1]);
        }
      }
    }
  }

  /** The wanted copies of every line are in the merged file. */
  ghost predicate KeepsCopies(base: string, ours: string, theirs: string) {
    var b, o, t := LinesOf(base), LinesOf(ours), LinesOf(theirs);
    forall k :: Copies(LinesOf(MergedText(base, ours, theirs)), k) == Wanted(b, o, t, k)
  }

  /** Whether a merge keeps every line, told before it is made: only a blank at the very end can be lost. */
  lemma LossIsTold(base: string, ours: string, theirs: string)
    ensures KeepsCopies(base, ours, theirs) <==>
            || EndsWithNewline(ours) || EndsWithNewline(theirs)
            || EndAfter(LinesOf(base), LinesOf(ours), LinesOf(theirs), |LinesOf(theirs)|).line != Some("")
  {
    hide LinesOf, JoinSides, Placed, EndAfter, Wanted, EndsWithNewline, Copies;
    var b, o, t := LinesOf(base), LinesOf(ours), LinesOf(theirs);
    EndIsTold(b, o, t, |t|);
    MergedTextCopies(base, ours, theirs);
  }

  /** A final newline on either side, or no blank line to keep, is enough for a merge to keep every line. */
  lemma NewlineKeepsAll(base: string, ours: string, theirs: string)
    requires || EndsWithNewline(ours) || EndsWithNewline(theirs)
             || Wanted(LinesOf(base), LinesOf(ours), LinesOf(theirs), "") == 0
    ensures KeepsCopies(base, ours, theirs)
  {
    hide LinesOf, JoinSides, Merged, Want, EndsWithNewline;
    var b, o, t := LinesOf(base), LinesOf(ours), LinesOf(theirs);
    MergedTextCopies(base, ours, theirs);
    MergedCopies(b, o, t, "");
    var out := Merged(b, o, t);
    assert out != [] && out[|out| - 1] == "" ==> Copies(out, "") > 0;
  }
}

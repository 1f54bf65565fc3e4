/**
 The line diff: lines are matched by `id:` when they have one, else by a hash of their content, and a
 line deleted in one place and inserted in another under the same id is a move.
 */
module LineDiffs {
  import opened Lists
  import opened Wrappers
  import EditGraph
  import Myers
  import opened TodoLines

  datatype LineDiff =
    | Keep(from: nat, to: nat)
    | Insert(to: nat)
    | Delete(from: nat)
    | Change(from: nat, to: nat)
    | Move(from: nat, to: nat)
  {
    predicate HasFrom() {
      !Insert?
    }

    predicate HasTo() {
      !Delete?
    }

    /** A line matched in place. */
    predicate Matched() {
      Keep? || Change?
    }
  }

  /** What two lines must share to be matched: an id, or a hash where neither has one. */
  datatype Key = Id(ulid: Ulid) | Hash(hash: int)

  function KeyOf(hash: Content -> int, line: Content): Key {
    match IdOf(line)
    case Some(id) => Id(id)
    case None => Hash(hash(line))
  }

  function KeysOf(hash: Content -> int, lines: seq<Content>): (keys: seq<Key>)
    ensures |keys| == |lines| && forall i :: 0 <= i < |lines| ==> keys[i] == KeyOf(hash, lines[i])
  {
    seq(|lines|, i requires 0 <= i < |lines| => KeyOf(hash, lines[i]))
  }

  // ---- what a diff accounts for ----

  function Range(lo: nat, hi: nat): (r: seq<nat>)
    requires lo <= hi
    ensures |r| == hi - lo && forall i :: 0 <= i < |r| ==> r[i] == lo + i
  {
    seq(hi - lo, i => lo + i)
  }

  ghost function FromOf(d: LineDiff): seq<nat> {
    if d.HasFrom() then [d.from] else []
  }

  ghost function ToOf(d: LineDiff): seq<nat> {
    if d.HasTo() then [d.to] else []
  }

  /** The source positions, in the diff's order. */
  ghost function Froms(out: seq<LineDiff>): seq<nat> {
    if out == [] then [] else FromOf(out[0]) + Froms(out[1..])
  }

  /** The target positions, in the diff's order. */
  ghost function Tos(out: seq<LineDiff>): seq<nat> {
    if out == [] then [] else ToOf(out[0]) + Tos(out[1..])
  }

  ghost function MatchedCount(out: seq<LineDiff>): nat {
    if out == [] then 0 else (if out[0].Matched() then 1 else 0) + MatchedCount(out[1..])
  }

  /** Each step says what its lines are. */
  ghost predicate StepHolds(a: seq<Content>, b: seq<Content>, ka: seq<Key>, kb: seq<Key>, d: LineDiff)
    requires |ka| == |a| && |kb| == |b|
  {
    && (d.HasFrom() ==> d.from < |a|) && (d.HasTo() ==> d.to < |b|)
    && (d.Keep? ==> a[d.from] == b[d.to])
    && (d.Change? ==> a[d.from] != b[d.to] && ka[d.from] == kb[d.to])
    && (d.Move? ==> ka[d.from] == kb[d.to] && ka[d.from].Id?)
  }

  ghost predicate StepsHold(a: seq<Content>, b: seq<Content>, ka: seq<Key>, kb: seq<Key>, out: seq<LineDiff>)
    requires |ka| == |a| && |kb| == |b|
  {
    forall p :: 0 <= p < |out| ==> StepHolds(a, b, ka, kb, out[p])
  }

  /** Lines matched in place rise on both sides. */
  ghost predicate MatchesRise(out: seq<LineDiff>) {
    forall p, q :: 0 <= p < q < |out| && out[p].Matched() && out[q].Matched() ==>
                     out[p].from < out[q].from && out[p].to < out[q].to
  }

  /** The first step deletes and the second inserts a line, and both lines have the same id. */
  predicate SameId(ka: seq<Key>, kb: seq<Key>, del: LineDiff, ins: LineDiff) {
    && del.Delete? && ins.Insert? && del.from < |ka| && ins.to < |kb|
    && ka[del.from].Id? && kb[ins.to] == ka[del.from]
  }

  /** No id is both deleted and inserted. */
  ghost predicate NoSplitMove(ka: seq<Key>, kb: seq<Key>, out: seq<LineDiff>, n: nat)
    requires n <= |out|
  {
    forall p, q :: 0 <= p < n && 0 <= q < |out| && out[p].Delete? && out[q].Insert? ==> !SameId(ka, kb, out[p], out[q])
  }

  lemma {:induction false} FromsConcat(x: seq<LineDiff>, y: seq<LineDiff>)
    ensures Froms(x + y) == Froms(x) + Froms(y)
    decreases |x|
  {
    hide FromOf;
    if x == [] {
      assert x + y == y;
    } else {
      assert (x + y)[1..] == x[1..] + y;
      FromsConcat(x[1..], y);
    }
  }

  lemma {:induction false} TosConcat(x: seq<LineDiff>, y: seq<LineDiff>)
    ensures Tos(x + y) == Tos(x) + Tos(y)
    decreases |x|
  {
    hide ToOf;
    if x == [] {
      assert x + y == y;
    } else {
      assert (x + y)[1..] == x[1..] + y;
      TosConcat(x[1..], y);
    }
  }

  lemma {:induction false} MatchedConcat(x: seq<LineDiff>, y: seq<LineDiff>)
    ensures MatchedCount(x + y) == MatchedCount(x) + MatchedCount(y)
    decreases |x|
  {
    if x == [] {
      assert x + y == y;
    } else {
      assert (x + y)[1..] == x[1..] + y;
      MatchedConcat(x[1..], y);
    }
  }

  lemma AccountConcat(x: seq<LineDiff>, y: seq<LineDiff>)
    ensures Froms(x + y) == Froms(x) + Froms(y)
    ensures Tos(x + y) == Tos(x) + Tos(y)
    ensures MatchedCount(x + y) == MatchedCount(x) + MatchedCount(y)
  {
    FromsConcat(x, y);
    TosConcat(x, y);
    MatchedConcat(x, y);
  }

  lemma AccountOne(d: LineDiff)
    ensures Froms([d]) == FromOf(d) && Tos([d]) == ToOf(d) && MatchedCount([d]) == if d.Matched() then 1 else 0
  {
    assert [d][1..] == [];
  }

  /** The steps as line diffs. */
  function Lined(a: seq<Content>, b: seq<Content>, step: EditGraph.Step): LineDiff {
    match step
    case Keep(i, j) => if i < |a| && j < |b| && a[i] == b[j] then Keep(i, j) else Change(i, j)
    case Delete(i) => Delete(i)
    case Insert(j) => Insert(j)
  }

  function AllLined(a: seq<Content>, b: seq<Content>, steps: seq<EditGraph.Step>): (out: seq<LineDiff>)
    ensures |out| == |steps| && forall i :: 0 <= i < |steps| ==> out[i] == Lined(a, b, steps[i])
  {
    seq(|steps|, i requires 0 <= i < |steps| => Lined(a, b, steps[i]))
  }

  /** The steps from `(x, y)` on use every later position of `a` once, in order, and of `b` likewise. */
  ghost predicate Accounted(a: seq<Content>, b: seq<Content>, x: nat, y: nat, out: seq<LineDiff>, cost: int) {
    && x <= |a| && y <= |b|
    && Froms(out) == Range(x, |a|) && Tos(out) == Range(y, |b|)
    && 2 * MatchedCount(out) + cost == (|a| - x) + (|b| - y)
  }

  lemma AccountedStep(a: seq<Content>, b: seq<Content>, x: nat, y: nat, d: LineDiff, rest: seq<LineDiff>, cost: int)
    requires d.HasFrom() ==> d.from == x < |a|
    requires d.HasTo() ==> d.to == y < |b|
    requires !d.Move?
    requires Accounted(a, b, if d.HasFrom() then x + 1 else x, if d.HasTo() then y + 1 else y, rest, cost)
    ensures Accounted(a, b, x, y, [d] + rest, cost + if d.Matched() then 0 else 1)
  {
    hide Froms, Tos, MatchedCount;
    AccountConcat([d], rest);
    AccountOne(d);
    assert d.HasFrom() ==> [x] + Range(x + 1, |a|) == Range(x, |a|);
    assert d.HasTo() ==> [y] + Range(y + 1, |b|) == Range(y, |b|);
    assert [] + Froms(rest) == Froms(rest) && [] + Tos(rest) == Tos(rest);
  }

  lemma LinedStep(a: seq<Content>, b: seq<Content>, steps: seq<EditGraph.Step>)
    requires steps != []
    ensures AllLined(a, b, steps) == [Lined(a, b, steps[0])] + AllLined(a, b, steps[1..])
  {
  }

  lemma NothingAccounted(a: seq<Content>, b: seq<Content>)
    ensures Accounted(a, b, |a|, |b|, [], 0)
  {
  }

  lemma {:induction false} ScriptAccounts(a: seq<Content>, b: seq<Content>, ka: seq<Key>, kb: seq<Key>,
                                          x: nat, y: nat, steps: seq<EditGraph.Step>)
    requires |ka| == |a| && |kb| == |b| && x <= |a| && y <= |b|
    requires EditGraph.Script(ka, kb, x, y, steps)
    ensures Accounted(a, b, x, y, AllLined(a, b, steps), EditGraph.Cost(steps))
    decreases |steps|
  {
    hide Accounted, AllLined;
    NothingAccounted(a, b);
    if steps == [] {
      assert AllLined(a, b, steps) == [];
    } else {
      LinedStep(a, b, steps);
      var x', y' := if steps[0].Insert? then x else x + 1, if steps[0].Delete? then y else y + 1;
      ScriptAccounts(a, b, ka, kb, x', y', steps[1..]);
      AccountedStep(a, b, x, y, Lined(a, b, steps[0]), AllLined(a, b, steps[1..]), EditGraph.Cost(steps[1..]));
    }
  }

  /** All positions are at or after `(x, y)`. */
  ghost predicate After(x: nat, y: nat, out: seq<LineDiff>) {
    forall p :: 0 <= p < |out| ==> (out[p].HasFrom() ==> out[p].from >= x) && (out[p].HasTo() ==> out[p].to >= y)
  }

  lemma {:induction false} ScriptRises(a: seq<Content>, b: seq<Content>, ka: seq<Key>, kb: seq<Key>,
                                       x: nat, y: nat, steps: seq<EditGraph.Step>)
    requires |ka| == |a| && |kb| == |b| && x <= |a| && y <= |b|
    requires EditGraph.Script(ka, kb, x, y, steps)
    ensures var out := AllLined(a, b, steps);
            StepsHold(a, b, ka, kb, out) && After(x, y, out) && MatchesRise(out)
    decreases |steps|
  {
    if steps != [] {
      var x', y' := if steps[0].Insert? then x else x + 1, if steps[0].Delete? then y else y + 1;
      ScriptRises(a, b, ka, kb, x', y', steps[1..]);
      RisesStep(a, b, ka, kb, x, y, x', y', Lined(a, b, steps[0]), AllLined(a, b, steps[1..]));
      LinedStep(a, b, steps);
    }
  }

  lemma RisesStep(a: seq<Content>, b: seq<Content>, ka: seq<Key>, kb: seq<Key>,
                  x: nat, y: nat, x': nat, y': nat, d: LineDiff, rest: seq<LineDiff>)
    requires |ka| == |a| && |kb| == |b| && x <= x' && y <= y'
    requires StepHolds(a, b, ka, kb, d) && StepsHold(a, b, ka, kb, rest) && After(x', y', rest) && MatchesRise(rest)
    requires (d.HasFrom() ==> d.from == x) && (d.HasTo() ==> d.to == y)
    requires d.Matched() ==> x < x' && y < y'
    ensures StepsHold(a, b, ka, kb, [d] + rest) && After(x, y, [d] + rest) && MatchesRise([d] + rest)
  {
    hide StepHolds;
    var out := [d] + rest;
    assert forall p :: 1 <= p < |out| ==> out[p] == rest[p - 1];
  }

  // ---- moves ----

  lemma Regroup(x: seq<nat>, y: seq<nat>, z: seq<nat>)
    ensures x + (y + z) == x + y + z
  {
  }

  lemma SplitAccount(out: seq<LineDiff>, i: nat)
    requires i < |out|
    ensures Froms(out) == Froms(out[..i]) + FromOf(out[i]) + Froms(out[i + 1..])
    ensures Tos(out) == Tos(out[..i]) + ToOf(out[i]) + Tos(out[i + 1..])
    ensures MatchedCount(out) == MatchedCount(out[..i]) + (if out[i].Matched() then 1 else 0) + MatchedCount(out[i + 1..])
  {
    hide Froms, Tos, MatchedCount, FromOf, ToOf;
    var head, d, tail := out[..i], out[i], out[i + 1..];
    SplitSteps(out, i);
    AccountConcat(head, [d] + tail);
    AccountConcat([d], tail);
    AccountOne(d);
    Regroup(Froms(head), FromOf(d), Froms(tail));
    Regroup(Tos(head), ToOf(d), Tos(tail));
  }

  lemma SplitSteps(out: seq<LineDiff>, i: nat)
    requires i < |out|
    ensures out == out[..i] + ([out[i]] + out[i + 1..])
  {
  }

  /** A delete turned into a move adds its target and nothing else. */
  lemma ReplaceAccounts(out: seq<LineDiff>, i: nat, move: LineDiff)
    requires i < |out| && out[i].Delete? && move.Move? && move.from == out[i].from
    ensures var paired := out[i := move];
            && Froms(paired) == Froms(out) && multiset(Tos(paired)) == multiset(Tos(out)) + multiset{move.to}
            && MatchedCount(paired) == MatchedCount(out)
  {
    hide Froms, Tos, MatchedCount;
    var paired := out[i := move];
    SplitAccount(out, i);
    SplitAccount(paired, i);
    assert paired[..i] == out[..i] && paired[i + 1..] == out[i + 1..];
  }

  function Without(out: seq<LineDiff>, j: nat): seq<LineDiff>
    requires j < |out|
  {
    out[..j] + out[j + 1..]
  }

  /** An insert taken out leaves its target and nothing else unaccounted for. */
  lemma RemoveAccounts(out: seq<LineDiff>, j: nat)
    requires j < |out| && out[j].Insert?
    ensures Froms(Without(out, j)) == Froms(out) && multiset(Tos(out)) == multiset(Tos(Without(out, j))) + multiset{out[j].to}
    ensures MatchedCount(Without(out, j)) == MatchedCount(out)
  {
    hide Froms, Tos, MatchedCount;
    SplitAccount(out, j);
    AccountConcat(out[..j], out[j + 1..]);
    assert Froms(out[..j]) + [] + Froms(out[j + 1..]) == Froms(out[..j]) + Froms(out[j + 1..]);
  }

  /** Step `i` is a move to where step `j` inserted, and step `j` is gone; the other steps are the same. */
  function Paired(out: seq<LineDiff>, i: nat, j: nat): seq<LineDiff>
    requires i < |out| && j < |out| && out[i].Delete? && out[j].Insert?
  {
    Without(out[i := Move(out[i].from, out[j].to)], j)
  }

  /** What `PairMoves` keeps: the accounting, what each step says, and the order of matched lines. */
  ghost predicate Kept(a: seq<Content>, b: seq<Content>, ka: seq<Key>, kb: seq<Key>, was: seq<LineDiff>, out: seq<LineDiff>)
    requires |ka| == |a| && |kb| == |b|
  {
    && Froms(out) == Froms(was) && multiset(Tos(out)) == multiset(Tos(was)) && MatchedCount(out) == MatchedCount(was)
    && StepsHold(a, b, ka, kb, out) && MatchesRise(out)
  }

  lemma PairKeeps(a: seq<Content>, b: seq<Content>, ka: seq<Key>, kb: seq<Key>, was: seq<LineDiff>,
                  out: seq<LineDiff>, i: nat, j: nat)
    requires |ka| == |a| && |kb| == |b| && Kept(a, b, ka, kb, was, out)
    requires i < |out| && j < |out| && SameId(ka, kb, out[i], out[j])
    ensures Kept(a, b, ka, kb, was, Paired(out, i, j))
  {
    hide StepsHold, MatchesRise, Froms, Tos, MatchedCount, SameId, Without;
    PairAccounts(ka, kb, out, i, j);
    PairHolds(a, b, ka, kb, out, i, j);
  }

  lemma PairAccounts(ka: seq<Key>, kb: seq<Key>, out: seq<LineDiff>, i: nat, j: nat)
    requires i < |out| && j < |out| && SameId(ka, kb, out[i], out[j])
    ensures var out' := Paired(out, i, j);
            Froms(out') == Froms(out) && multiset(Tos(out')) == multiset(Tos(out)) && MatchedCount(out') == MatchedCount(out)
  {
    hide Froms, Tos, MatchedCount, Without;
    var move := Move(out[i].from, out[j].to);
    ReplaceAccounts(out, i, move);
    RemoveAccounts(out[i := move], j);
    Cancel(multiset(Tos(Paired(out, i, j))), multiset(Tos(out)), move.to);
  }

  lemma Cancel(x: multiset<nat>, y: multiset<nat>, t: nat)
    requires x + multiset{t} == y + multiset{t}
    ensures x == y
  {
    assert x == x + multiset{t} - multiset{t};
    assert y == y + multiset{t} - multiset{t};
  }

  lemma PairHolds(a: seq<Content>, b: seq<Content>, ka: seq<Key>, kb: seq<Key>, out: seq<LineDiff>, i: nat, j: nat)
    requires |ka| == |a| && |kb| == |b| && StepsHold(a, b, ka, kb, out) && MatchesRise(out)
    requires i < |out| && j < |out| && SameId(ka, kb, out[i], out[j])
    ensures StepsHold(a, b, ka, kb, Paired(out, i, j)) && MatchesRise(Paired(out, i, j))
  {
    hide Without;
    WithoutKeeps(a, b, ka, kb, out[i := Move(out[i].from, out[j].to)], j);
  }

  lemma WithoutKeeps(a: seq<Content>, b: seq<Content>, ka: seq<Key>, kb: seq<Key>, out: seq<LineDiff>, j: nat)
    requires |ka| == |a| && |kb| == |b| && j < |out| && StepsHold(a, b, ka, kb, out) && MatchesRise(out)
    ensures StepsHold(a, b, ka, kb, Without(out, j)) && MatchesRise(Without(out, j))
  {
    hide StepHolds;
    var out' := Without(out, j);
    assert forall p :: 0 <= p < |out'| ==> out'[p] == if p < j then out[p] else out[p + 1];
  }

  /** The position from `j` on of the first insert of `del`'s id, or the length. */
  function FindInsert(out: seq<LineDiff>, ka: seq<Key>, kb: seq<Key>, del: LineDiff, j: nat): (r: nat)
    requires j <= |out|
    ensures j <= r <= |out| && (r < |out| ==> SameId(ka, kb, del, out[r]))
    ensures forall q :: j <= q < r ==> !SameId(ka, kb, del, out[q])
    decreases |out| - j
  {
    if j == |out| || SameId(ka, kb, del, out[j]) then j else FindInsert(out, ka, kb, del, j + 1)
  }

  ghost predicate HasMove(out: seq<LineDiff>) {
    exists p :: 0 <= p < |out| && out[p].Move?
  }

  lemma PairMakesMove(out: seq<LineDiff>, i: nat, j: nat)
    requires i < |out| && j < |out| && out[i].Delete? && out[j].Insert?
    ensures HasMove(Paired(out, i, j))
  {
    assert Paired(out, i, j)[if i < j then i else i - 1].Move?;
  }

  /** The matched steps that `was` starts with are where `out` starts too. */
  ghost predicate SameHead(was: seq<LineDiff>, out: seq<LineDiff>) {
    forall p: nat :: p <= |was| && AllMatched(was[..p]) ==> p <= |out| && out[..p] == was[..p]
  }

  ghost predicate AllMatched(out: seq<LineDiff>) {
    forall q :: 0 <= q < |out| ==> out[q].Matched()
  }

  lemma SameHeadAtFirst(out: seq<LineDiff>)
    ensures SameHead(out, out)
  {
  }

  /** A pair stands behind every step matched at the start. */
  lemma PairBehindHead(was: seq<LineDiff>, out: seq<LineDiff>, i: nat, j: nat)
    requires SameHead(was, out) && i < |out| && j < |out| && out[i].Delete? && out[j].Insert?
    ensures SameHead(was, Paired(out, i, j))
  {
    forall p: nat | p <= |was| && AllMatched(was[..p]) ensures p <= |Paired(out, i, j)| && Paired(out, i, j)[..p] == was[..p] {
      BehindHead(out, p, i);
      BehindHead(out, p, j);
    }
  }

  lemma BehindHead(out: seq<LineDiff>, p: nat, i: nat)
    requires p <= |out| && AllMatched(out[..p]) && i < |out|
    ensures i < p ==> out[i].Matched()
  {
    if i < p {
      assert out[..p][i] == out[i];
    }
  }

  /** Pairs up the steps of `SameId` for as long as there are two; what a diff accounts for does not change. */
  method PairMoves(out0: seq<LineDiff>, a: seq<Content>, b: seq<Content>, ka: seq<Key>, kb: seq<Key>)
    returns (out: seq<LineDiff>)
    requires |ka| == |a| && |kb| == |b| && StepsHold(a, b, ka, kb, out0) && MatchesRise(out0)
    ensures Kept(a, b, ka, kb, out0, out)
    ensures NoSplitMove(ka, kb, out, |out|)
    ensures (forall p :: 0 <= p < |out0| ==> !out0[p].Delete?) ==> out == out0
    ensures out == out0 || HasMove(out)
    ensures SameHead(out0, out)
  {
    hide Kept, StepHolds, NoSplitMove, MatchesRise, StepsHold, HasMove, SameHead;
    out := out0;
    SameHeadAtFirst(out0);
    KeptAtFirst(a, b, ka, kb, out);
    NothingPassed(ka, kb, out);
    var i := 0;
    while i < |out|
      invariant i <= |out|
      invariant Kept(a, b, ka, kb, out0, out)
      invariant NoSplitMove(ka, kb, out, i)
      invariant (forall p :: 0 <= p < |out0| ==> !out0[p].Delete?) ==> out == out0
      invariant out == out0 || HasMove(out)
      invariant SameHead(out0, out)
      decreases |out| - i
    {
      if !out[i].Delete? || out[i].from >= |ka| || !ka[out[i].from].Id? {
        PassOne(ka, kb, out, i);
        i := i + 1;
      } else {
        var j := FindInsert(out, ka, kb, out[i], 0);
        if j < |out| {
          PairKeeps(a, b, ka, kb, out0, out, i, j);
          PairLeavesNone(ka, kb, out, i, j);
          PairMakesMove(out, i, j);
          PairBehindHead(out0, out, i, j);
          out := Paired(out, i, j);
        } else {
          PassOne(ka, kb, out, i);
          i := i + 1;
        }
      }
    }
  }

  lemma NothingPassed(ka: seq<Key>, kb: seq<Key>, out: seq<LineDiff>)
    ensures NoSplitMove(ka, kb, out, 0)
  {
  }

  lemma PassOne(ka: seq<Key>, kb: seq<Key>, out: seq<LineDiff>, i: nat)
    requires i < |out| && NoSplitMove(ka, kb, out, i)
    requires forall q :: 0 <= q < |out| ==> !SameId(ka, kb, out[i], out[q])
    ensures NoSplitMove(ka, kb, out, i + 1)
  {
    hide SameId;
  }

  lemma KeptAtFirst(a: seq<Content>, b: seq<Content>, ka: seq<Key>, kb: seq<Key>, out: seq<LineDiff>)
    requires |ka| == |a| && |kb| == |b| && StepsHold(a, b, ka, kb, out) && MatchesRise(out)
    ensures Kept(a, b, ka, kb, out, out)
  {
  }

  /** Removing an insert, at either side of the cursor, leaves the deletes passed without a partner. */
  lemma PairLeavesNone(ka: seq<Key>, kb: seq<Key>, out: seq<LineDiff>, i: nat, j: nat)
    requires i < |out| && j < |out| && out[i].Delete? && out[j].Insert? && NoSplitMove(ka, kb, out, i)
    ensures i <= |Paired(out, i, j)| && NoSplitMove(ka, kb, Paired(out, i, j), i)
  {
    hide SameId;
    var paired := out[i := Move(out[i].from, out[j].to)];
    var out' := Paired(out, i, j);
    assert forall p :: 0 <= p < |out'| ==> out'[p] == if p < j then paired[p] else paired[p + 1];
  }

  /** A line kept or changed where it stands. */
  function InPlace(a: seq<Content>, b: seq<Content>, i: nat): LineDiff
    requires i < |a| && i < |b|
  {
    if a[i] == b[i] then Keep(i, i) else Change(i, i)
  }

  /** The lines both files start with, by key, are the first steps, kept or changed where they stand. */
  ghost predicate KeepsPrefix(a: seq<Content>, b: seq<Content>, ka: seq<Key>, kb: seq<Key>, out: seq<LineDiff>)
    requires |ka| == |a| && |kb| == |b|
  {
    forall p: nat :: p <= |a| && p <= |b| && ka[..p] == kb[..p] ==> StartsInPlace(a, b, out, p)
  }

  ghost predicate StartsInPlace(a: seq<Content>, b: seq<Content>, out: seq<LineDiff>, p: nat)
    requires p <= |a| && p <= |b|
  {
    p <= |out| && forall i :: 0 <= i < p ==> out[i] == InPlace(a, b, i)
  }

  lemma ScriptKeepsPrefix(a: seq<Content>, b: seq<Content>, ka: seq<Key>, kb: seq<Key>, steps: seq<EditGraph.Step>)
    requires |ka| == |a| && |kb| == |b| && Myers.KeepsPrefix(ka, kb, steps)
    ensures KeepsPrefix(a, b, ka, kb, AllLined(a, b, steps))
  {
    forall p: nat | p <= |a| && p <= |b| && ka[..p] == kb[..p] ensures StartsInPlace(a, b, AllLined(a, b, steps), p) {
      assert Myers.KeepsFirst(steps, p);
    }
  }

  lemma HeadKeepsPrefix(a: seq<Content>, b: seq<Content>, ka: seq<Key>, kb: seq<Key>, was: seq<LineDiff>, out: seq<LineDiff>)
    requires |ka| == |a| && |kb| == |b| && KeepsPrefix(a, b, ka, kb, was) && SameHead(was, out)
    ensures KeepsPrefix(a, b, ka, kb, out)
  {
    hide KeepsPrefix;
    forall p: nat | p <= |a| && p <= |b| && ka[..p] == kb[..p] ensures StartsInPlace(a, b, out, p) {
      PrefixStarts(a, b, ka, kb, was, p);
      forall i | 0 <= i < p ensures out[i] == was[i] {
        assert AllMatched(was[..p]);
        assert out[i] == out[..p][i] == was[..p][i] == was[i];
      }
    }
    PrefixFromStarts(a, b, ka, kb, out);
  }

  lemma PrefixStarts(a: seq<Content>, b: seq<Content>, ka: seq<Key>, kb: seq<Key>, out: seq<LineDiff>, p: nat)
    requires |ka| == |a| && |kb| == |b| && KeepsPrefix(a, b, ka, kb, out) && p <= |a| && p <= |b| && ka[..p] == kb[..p]
    ensures StartsInPlace(a, b, out, p) && AllMatched(out[..p])
  {
  }

  lemma PrefixFromStarts(a: seq<Content>, b: seq<Content>, ka: seq<Key>, kb: seq<Key>, out: seq<LineDiff>)
    requires |ka| == |a| && |kb| == |b|
    requires forall p: nat :: p <= |a| && p <= |b| && ka[..p] == kb[..p] ==> StartsInPlace(a, b, out, p)
    ensures KeepsPrefix(a, b, ka, kb, out)
  {
  }

  /** Every line accounted for once, and each step saying what its lines are. */
  ghost predicate DiffOf(a: seq<Content>, b: seq<Content>, ka: seq<Key>, kb: seq<Key>, out: seq<LineDiff>)
    requires |ka| == |a| && |kb| == |b|
  {
    && Froms(out) == Range(0, |a|) && multiset(Tos(out)) == multiset(Range(0, |b|))
    && MatchedCount(out) == EditGraph.Lcs(ka, kb, |a|, |b|)
    && StepsHold(a, b, ka, kb, out) && MatchesRise(out) && NoSplitMove(ka, kb, out, |out|)
    && (HasMove(out) || Tos(out) == Range(0, |b|)) && KeepsPrefix(a, b, ka, kb, out)
  }

  /**
   The line diff: every line of `a` in order and every line of `b` once, matched lines rising on both
   sides and as many as a longest common subsequence of the keys, no id both deleted and inserted, and
   the lines both files start with matched where they stand; with no moves, every line of `b` in order too.
   */
  method DiffLines(hash: Content -> int, a: seq<Content>, b: seq<Content>) returns (out: seq<LineDiff>)
    ensures DiffOf(a, b, KeysOf(hash, a), KeysOf(hash, b), out)
    ensures KeysOf(hash, a) == KeysOf(hash, b) ==> |out| == |a| == |b| && forall i :: 0 <= i < |a| ==> out[i] == InPlace(a, b, i)
  {
    hide StepsHold, MatchesRise, Froms, Tos, MatchedCount, StepHolds, NoSplitMove, KeyOf, KeysOf;
    hide EditGraph.Lcs, EditGraph.Script, EditGraph.Cost, HasMove, Myers.KeepsPrefix, KeepsPrefix, SameHead, AllLined;
    var ka, kb := KeysOf(hash, a), KeysOf(hash, b);
    var steps := Myers.Diff(ka, kb);
    ScriptAccounts(a, b, ka, kb, 0, 0, steps);
    ScriptRises(a, b, ka, kb, 0, 0, steps);
    if ka == kb {
      SelfLcs(ka, |ka|);
      FreeScriptKeepsAll(ka, 0, steps);
    }
    ScriptKeepsPrefix(a, b, ka, kb, steps);
    var lined := AllLined(a, b, steps);
    out := PairMoves(lined, a, b, ka, kb);
    HeadKeepsPrefix(a, b, ka, kb, lined, out);
  }

  lemma {:induction false} SelfLcs(k: seq<Key>, n: nat)
    requires n <= |k|
    ensures EditGraph.Lcs(k, k, n, n) == n
  {
    if n > 0 {
      SelfLcs(k, n - 1);
    }
  }

  /** A script that costs nothing keeps every line where it is. */
  lemma {:induction false} FreeScriptKeepsAll(k: seq<Key>, x: nat, steps: seq<EditGraph.Step>)
    requires x <= |k| && EditGraph.Script(k, k, x, x, steps) && EditGraph.Cost(steps) == 0
    ensures |steps| == |k| - x && forall i :: 0 <= i < |steps| ==> steps[i] == EditGraph.Keep(x + i, x + i)
    decreases |steps|
  {
    if steps != [] {
      FreeScriptKeepsAll(k, x + 1, steps[1..]);
      assert forall i :: 1 <= i < |steps| ==> steps[i] == steps[1..][i - 1];
    }
  }

  // ---- a file with some lines left out ----

  lemma {:induction false} MatchedAreTos(out: seq<LineDiff>)
    ensures MatchedCount(out) <= |Tos(out)|
    ensures MatchedCount(out) == |Tos(out)| ==> forall p :: 0 <= p < |out| && out[p].HasTo() ==> out[p].Matched()
  {
    if out != [] {
      MatchedAreTos(out[1..]);
      assert forall p :: 1 <= p < |out| ==> out[p] == out[1..][p - 1];
    }
  }

  lemma {:induction false} FromsInTurn(out: seq<LineDiff>)
    requires forall p :: 0 <= p < |out| ==> out[p].HasFrom()
    ensures |Froms(out)| == |out| && forall p :: 0 <= p < |out| ==> out[p].HasFrom() && Froms(out)[p] == out[p].from
  {
    if out != [] {
      FromsInTurn(out[1..]);
      assert Froms(out) == [out[0].from] + Froms(out[1..]);
    }
  }

  lemma {:induction false} ToOfStep(out: seq<LineDiff>, k: nat) returns (p: nat)
    requires k < |Tos(out)|
    ensures p < |out| && out[p].HasTo() && out[p].to == Tos(out)[k]
  {
    if k < |ToOf(out[0])| {
      p := 0;
    } else {
      p := ToOfStep(out[1..], k - |ToOf(out[0])|);
      p := p + 1;
    }
  }

  lemma {:induction false} MatchedTosRise(out: seq<LineDiff>)
    requires MatchesRise(out) && forall p :: 0 <= p < |out| && out[p].HasTo() ==> out[p].Matched()
    ensures Rising(Tos(out))
  {
    hide Rising;
    assert Rising([]) by { NothingRises(); }
    if out != [] {
      var d, rest := out[0], out[1..];
      assert forall p :: 0 <= p < |rest| ==> rest[p] == out[p + 1];
      MatchedTosRise(rest);
      if d.HasTo() {
        forall k: nat | k < |Tos(rest)| ensures d.to < Tos(rest)[k] {
          var p := ToOfStep(rest, k);
          FirstRises(out, p + 1);
        }
        PrependRises(d.to, Tos(rest));
      } else {
        assert [] + Tos(rest) == Tos(rest);
      }
    }
  }

  lemma NothingRises()
    ensures Rising([])
  {
  }

  lemma FirstRises(out: seq<LineDiff>, p: nat)
    requires 0 < p < |out| && MatchesRise(out) && out[0].Matched() && out[p].Matched()
    ensures out[0].to < out[p].to
  {
  }

  lemma PrependRises(x: nat, s: seq<nat>)
    requires Rising(s) && forall k :: 0 <= k < |s| ==> x < s[k]
    ensures Rising([x] + s)
  {
  }

  lemma SubsequenceLcs(ka: seq<Key>, kb: seq<Key>, places: seq<nat>)
    requires Within(places, |ka|) && Rising(places) && At(ka, places) == kb
    ensures EditGraph.Lcs(ka, kb, |ka|, |kb|) >= |kb|
  {
    hide EditGraph.Lcs;
    var pairs := seq(|kb|, p requires 0 <= p < |kb| => (places[p], p));
    assert forall p :: 0 <= p < |kb| ==> EditGraph.Match(ka, kb, places[p], p);
    EditGraph.LcsIsLargest(ka, kb, |ka|, |kb|, pairs);
  }

  lemma RangeRises(n: nat)
    ensures Rising(Range(0, n)) && forall x: nat :: x in Range(0, n) <==> x < n
  {
    forall x: nat | x < n ensures x in Range(0, n) {
      assert Range(0, n)[x] == x;
    }
  }

  /** When the new file's keys are the old one's with some left out, every step takes an old line in turn. */
  lemma NothingNewOnlyDeletes(a: seq<Content>, b: seq<Content>, ka: seq<Key>, kb: seq<Key>, out: seq<LineDiff>, places: seq<nat>)
    requires |ka| == |a| && |kb| == |b| && DiffOf(a, b, ka, kb, out)
    requires Within(places, |ka|) && Rising(places) && At(ka, places) == kb
    ensures |out| == |a| && Tos(out) == Range(0, |b|)
    ensures forall p :: 0 <= p < |out| ==> (out[p].Matched() || out[p].Delete?) && out[p].from == p
  {
    hide Froms, Tos, MatchedCount, StepHolds, StepsHold, NoSplitMove, Within, At, EditGraph.Lcs, MatchesRise;
    SubsequenceLcs(ka, kb, places);
    assert |multiset(Tos(out))| == |multiset(Range(0, |b|))| == |b|;
    MatchedAreTos(out);
    FromsInTurn(out);
    MatchedTosRise(out);
    RangeRises(|b|);
    forall x ensures x in Tos(out) <==> x in Range(0, |b|) {
      assert x in Tos(out) <==> x in multiset(Tos(out));
      assert x in Range(0, |b|) <==> x in multiset(Range(0, |b|));
    }
    RisingListsAgree(Tos(out), Range(0, |b|));
  }
}

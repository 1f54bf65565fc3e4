/**
 The greedy forward diff of Myers' "An O(ND) Difference Algorithm and Its Variations", over one array
 `v` updated in place, with a copy of `v` recorded per round and a walk back through the copies.

 Round `d` visits the diagonals `-d, -d + 2, ..., d`; the `h`-th of them is `2 * h - d`. Diagonal `k`
 lives at index `k + off`, so consecutive rounds use disjoint entries.
 */
module Myers {
  import opened EditGraph

  /** What round `d` finds of round `d - 1` between its own `h`-th and next diagonals. */
  ghost function Entry<T>(a: seq<T>, b: seq<T>, d: int, v: seq<nat>, h: int): int
    requires 0 <= 2 * h - d + 1 + |a| + |b| < |v|
  {
    v[2 * h - d + 1 + |a| + |b|]
  }

  ghost predicate Sized<T>(a: seq<T>, b: seq<T>, d: int, v: seq<nat>) {
    |v| == 2 * (|a| + |b|) + 2 && 0 <= d <= |a| + |b| + 1
  }

  /** `v` as round `d` finds it: the furthest points of round `d - 1`, or the initial zero. */
  ghost predicate Before<T>(a: seq<T>, b: seq<T>, d: int, v: seq<nat>) {
    && Sized(a, b, d, v)
    && (d == 0 ==> v[|a| + |b| + 1] == 0)
    && forall h :: 0 <= h < d ==> Furthest(a, b, d - 1, 2 * h - d + 1, Entry(a, b, d, v, h))
  }

  /** `v` and `was` agree on what round `d` reads. */
  ghost predicate Untouched<T>(a: seq<T>, b: seq<T>, d: int, was: seq<nat>, v: seq<nat>) {
    && Sized(a, b, d, v) && |was| == |v|
    && forall h :: 0 <= h <= d <= |a| + |b| ==> Entry(a, b, d, v, h) == Entry(a, b, d, was, h)
  }

  /** Round `d - 1` in progress: its first `done` diagonals hold its points. */
  ghost predicate Filled<T>(a: seq<T>, b: seq<T>, d: int, done: int, v: seq<nat>) {
    && 0 < d && Sized(a, b, d, v)
    && forall h :: 0 <= h < done <= d ==> Furthest(a, b, d - 1, 2 * h - d + 1, Entry(a, b, d, v, h))
  }

  lemma NothingFilled<T>(a: seq<T>, b: seq<T>, d: int, v: seq<nat>)
    requires 0 <= d <= |a| + |b| && Before(a, b, d, v)
    ensures Untouched(a, b, d, v, v) && Filled(a, b, d + 1, 0, v)
  {
  }

  lemma FillOne<T>(a: seq<T>, b: seq<T>, d: int, h: int, was: seq<nat>, v: seq<nat>, x: nat)
    requires Untouched(a, b, d, was, v) && Filled(a, b, d + 1, h, v)
    requires 0 <= h <= d && Furthest(a, b, d, 2 * h - d, x)
    ensures Untouched(a, b, d, was, v[2 * h - d + |a| + |b| := x])
    ensures Filled(a, b, d + 1, h + 1, v[2 * h - d + |a| + |b| := x])
  {
    var v' := v[2 * h - d + |a| + |b| := x];
    assert forall i :: 0 <= i <= d ==> Entry(a, b, d, v', i) == Entry(a, b, d, v, i);
    var e := d + 1;
    assert forall i :: 0 <= i < h ==> Entry(a, b, e, v', i) == Entry(a, b, e, v, i);
    assert Entry(a, b, d + 1, v', h) == x;
  }

  lemma AllFilled<T>(a: seq<T>, b: seq<T>, d: int, v: seq<nat>)
    requires Filled(a, b, d, d, v)
    ensures Before(a, b, d, v)
  {
  }

  ghost predicate TraceOf<T>(a: seq<T>, b: seq<T>, trace: seq<seq<nat>>) {
    forall d :: 0 <= d < |trace| ==> Before(a, b, d, trace[d])
  }

  /** The furthest point, as of round `d - 1`, on the diagonal left of round `d`'s `h`-th. */
  ghost function LeftOf<T>(a: seq<T>, b: seq<T>, d: int, v: seq<nat>, h: int): int
    requires 0 <= h <= d <= |a| + |b| && Sized(a, b, d, v)
  {
    if h == 0 then 0 else Entry(a, b, d, v, h - 1)
  }

  /** The furthest point, as of round `d - 1`, on the diagonal right of round `d`'s `h`-th. */
  ghost function RightOf<T>(a: seq<T>, b: seq<T>, d: int, v: seq<nat>, h: int): int
    requires 0 <= h <= d <= |a| + |b| && Sized(a, b, d, v)
  {
    if h == d then 0 else Entry(a, b, d, v, h)
  }

  /** What the copy of `v` taken before round `d` says about a diagonal of round `d`. */
  ghost predicate Entering<T>(a: seq<T>, b: seq<T>, d: int, h: int, left: int, right: int) {
    0 <= h <= d && (d > 0 ==> Neighbours(a, b, d, 2 * h - d, left, right))
  }

  lemma EnteringFromTrace<T>(a: seq<T>, b: seq<T>, d: int, h: int, v: seq<nat>)
    requires 0 <= h <= d <= |a| + |b| && Before(a, b, d, v)
    ensures Entering(a, b, d, h, LeftOf(a, b, d, v, h), RightOf(a, b, d, v, h))
  {
    if h > 0 {
      assert Furthest(a, b, d - 1, 2 * (h - 1) - d + 1, Entry(a, b, d, v, h - 1));
    }
  }

  /** The first point round `d` puts on its `h`-th diagonal. */
  ghost function Start(d: int, h: int, left: int, right: int): int {
    if d == 0 then 0 else SnakeStart(d, 2 * h - d, left, right)
  }

  lemma StartIsReachable<T>(a: seq<T>, b: seq<T>, d: int, h: int, left: int, right: int)
    requires Entering(a, b, d, h, left, right)
    ensures var x, k := Start(d, h, left, right), 2 * h - d;
            x >= 0 && x - k >= 0 && Distance(a, b, x, x - k) <= d
  {
    if d > 0 {
      SnakeStartIsReachable(a, b, d, 2 * h - d, left, right);
    }
  }

  /** The point where a snake stops is its round's furthest point on the diagonal. */
  lemma SnakeEnd<T>(a: seq<T>, b: seq<T>, d: int, h: int, left: int, right: int, x: int, y: int)
    requires Entering(a, b, d, h, left, right) && Start(d, h, left, right) <= x
    requires 0 <= x && 0 <= y && x - y == 2 * h - d && Distance(a, b, x, y) <= d
    requires !Match(a, b, x, y)
    ensures Furthest(a, b, d, 2 * h - d, x)
  {
    if d == 0 {
      DistanceMoves(a, b, x, x);
      DistanceAtLeastDiagonal(a, b, x, x + 1);
      DistanceAtLeastDiagonal(a, b, x + 1, x);
    } else {
      MismatchEndsRound(a, b, d, 2 * h - d, left, right, x);
    }
  }

  /** Above its start, every point of a snake up to the furthest one continues a run of equal elements. */
  lemma SnakeBack<T>(a: seq<T>, b: seq<T>, d: int, h: int, left: int, right: int, x: int, y: int)
    requires Entering(a, b, d, h, left, right) && Start(d, h, left, right) < x
    requires 0 < x && 0 < y && x - y == 2 * h - d && Distance(a, b, x, y) <= d
    ensures Match(a, b, x - 1, y - 1)
    ensures Distance(a, b, x - 1, y - 1) <= d
  {
    DistanceMoves(a, b, x - 1, y - 1);
    if !Match(a, b, x - 1, y - 1) {
      SnakeEnd(a, b, d, h, left, right, x - 1, y - 1);
    }
  }

  /** A round enters a diagonal at or before the diagonal's furthest point. */
  lemma StartsBeforeFurthest<T>(a: seq<T>, b: seq<T>, d: int, h: int, left: int, right: int, x: int)
    requires Entering(a, b, d, h, left, right) && Furthest(a, b, d, 2 * h - d, x)
    ensures 0 <= Start(d, h, left, right) <= x
  {
    StartIsReachable(a, b, d, h, left, right);
    FurthestIsLast(a, b, d, 2 * h - d, x, Start(d, h, left, right));
  }

  /** The first snake to end past both ends ends exactly at the goal. */
  lemma GoalIsExact<T>(a: seq<T>, b: seq<T>, d: int, x: int, y: int)
    requires 0 <= d <= Distance(a, b, |a|, |b|) && x >= |a| && y >= |b| && Furthest(a, b, d, x - y, x)
    ensures x == |a| && y == |b| && d == Distance(a, b, |a|, |b|)
  {
    DistanceOutsideBox(a, b, x, y);
  }

  /** In the goal's own round its diagonal is still ahead while no snake ended past both ends. */
  lemma GoalIsAhead<T>(a: seq<T>, b: seq<T>, d: int, x: int, y: int)
    requires Furthest(a, b, d, x - y, x) && !(x >= |a| && y >= |b|)
    requires d == Distance(a, b, |a|, |b|) ==> x - y <= |a| - |b|
    ensures d == Distance(a, b, |a|, |b|) ==> x - y < |a| - |b| <= d
  {
    DistanceAtLeastDiagonal(a, b, |a|, |b|);
    if d == Distance(a, b, |a|, |b|) && x - y == |a| - |b| {
      FurthestIsLast(a, b, d, x - y, x, |a|);
    }
  }

  /** The search's choice on diagonal `k`: come down from `k + 1`, or right from `k - 1`. */
  predicate Down(d: int, k: int, off: int, v: seq<nat>)
    requires -d <= k <= d <= off && |v| == 2 * off + 2
  {
    k == -d || (k != d && v[k + off - 1] < v[k + off + 1])
  }

  /**
   What round `d` reads of `v` is what round `d - 1` left there, though `v` is updated in place:
   the chosen neighbour is furthest in round `d - 1`, and one move from it starts the snake.
   */
  lemma ReadNeighbours<T>(a: seq<T>, b: seq<T>, d: int, h: int, was: seq<nat>, v: seq<nat>)
    requires Before(a, b, d, was) && Untouched(a, b, d, was, v) && 0 <= h <= d <= |a| + |b|
    ensures var k, off, start := 2 * h - d, |a| + |b|, Start(d, h, LeftOf(a, b, d, was, h), RightOf(a, b, d, was, h));
            && start == (if Down(d, k, off, v) then v[k + off + 1] else v[k + off - 1] + 1)
            && (d > 0 ==> if Down(d, k, off, v) then h < d && Furthest(a, b, d - 1, k + 1, start)
                          else h > 0 && Furthest(a, b, d - 1, k - 1, start - 1))
  {
    EnteringFromTrace(a, b, d, h, was);
    assert Entry(a, b, d, v, h) == Entry(a, b, d, was, h);
    if h > 0 {
      assert Entry(a, b, d, v, h - 1) == Entry(a, b, d, was, h - 1);
    }
  }

  /** The script that the steps pushed, last one first, make. */
  function ScriptOf(pushed: seq<Step>): seq<Step> {
    if pushed == [] then [] else ScriptOf(pushed[1..]) + [pushed[0]]
  }

  lemma {:induction false} ScriptStep(pushed: seq<Step>, k: nat)
    requires k < |pushed|
    ensures |ScriptOf(pushed)| == |pushed| && ScriptOf(pushed)[|pushed| - 1 - k] == pushed[k]
  {
    if |pushed| > 1 {
      ScriptStep(pushed[1..], if k > 0 then k - 1 else 0);
    }
  }

  lemma {:induction false} ScriptPush(pushed: seq<Step>, step: Step)
    ensures ScriptOf(pushed + [step]) == [step] + ScriptOf(pushed)
  {
    if pushed == [] {
      assert ScriptOf([step][1..]) == [];
    } else {
      assert (pushed + [step])[1..] == pushed[1..] + [step];
      ScriptPush(pushed[1..], step);
    }
  }

  /** The first `p` steps keep the first `p` elements of both sides. */
  predicate KeepsFirst(steps: seq<Step>, p: nat) {
    p <= |steps| && forall i :: 0 <= i < p ==> steps[i] == Keep(i, i)
  }

  /** What both texts start with is kept before anything else. */
  ghost predicate KeepsPrefix<T>(a: seq<T>, b: seq<T>, steps: seq<Step>) {
    forall p: nat :: p <= |a| && p <= |b| && a[..p] == b[..p] ==> KeepsFirst(steps, p)
  }

  lemma {:induction false} PrefixIsFree<T>(a: seq<T>, b: seq<T>, p: nat)
    requires p <= |a| && p <= |b| && a[..p] == b[..p]
    ensures Distance(a, b, p, p) <= 0
  {
    hide Lcs;
    if p == 0 {
      DistanceAtLeastDiagonal(a, b, 0, 0);
      NoDistance(a, b);
    } else {
      assert a[..p - 1] == a[..p][..p - 1] == b[..p][..p - 1] == b[..p - 1];
      PrefixIsFree(a, b, p - 1);
      assert a[p - 1] == a[..p][p - 1] == b[..p][p - 1] == b[p - 1];
      DistanceMoves(a, b, p - 1, p - 1);
    }
  }

  lemma NoDistance<T>(a: seq<T>, b: seq<T>)
    ensures Distance(a, b, 0, 0) == 0
  {
  }

  /** The first snake runs along the common prefix, so the steps pushed for it keep the prefix. */
  lemma FirstSnakeKeeps<T>(a: seq<T>, b: seq<T>, was: seq<Step>, x: nat, steps: seq<Step>)
    requires Furthest(a, b, 0, 0, x) && |steps| == |was| + x
    requires forall k :: |was| <= k < |steps| ==> steps[k] == Keep(|steps| - 1 - k, |steps| - 1 - k)
    ensures KeepsPrefix(a, b, ScriptOf(steps))
  {
    hide Furthest, ScriptOf, Lcs;
    forall p: nat | p <= |a| && p <= |b| && a[..p] == b[..p] ensures KeepsFirst(ScriptOf(steps), p) {
      PrefixIsFree(a, b, p);
      FurthestIsLast(a, b, 0, 0, x, p);
      if p > 0 {
        ScriptStep(steps, 0);
      }
      forall i: nat | i < p ensures ScriptOf(steps)[i] == Keep(i, i) {
        ScriptStep(steps, |steps| - 1 - i);
      }
    }
  }

  /** `steps`, pushed last to first, lead from `(x, y)` to the end at cost `cost`. */
  ghost predicate Pushed<T>(a: seq<T>, b: seq<T>, x: int, y: int, steps: seq<Step>, cost: int) {
    && 0 <= x <= |a| && 0 <= y <= |b|
    && Script(a, b, x, y, ScriptOf(steps))
    && Cost(ScriptOf(steps)) == cost
  }

  lemma NothingPushed<T>(a: seq<T>, b: seq<T>)
    ensures Pushed(a, b, |a|, |b|, [], 0)
  {
  }

  lemma PushStep<T>(a: seq<T>, b: seq<T>, x: int, y: int, x': int, y': int, steps: seq<Step>, cost: int, step: Step)
    requires Pushed(a, b, x, y, steps, cost) && 0 <= x' && 0 <= y'
    requires match step
             case Keep(i, j) => x' == i == x - 1 && y' == j == y - 1 && Match(a, b, i, j)
             case Delete(i) => x' == i == x - 1 && y' == y
             case Insert(j) => x' == x && y' == j == y - 1
    ensures Pushed(a, b, x', y', steps + [step], cost + if step.Keep? then 0 else 1)
  {
    ScriptPush(steps, step);
  }

  /** What a snake retraced from `(x, y)` to column `x'` pushes: each of its points kept, last first. */
  ghost predicate KeptBack(x: int, y: int, x': int, was: seq<Step>, steps: seq<Step>) {
    && 0 <= x' <= x && x - x' <= y && |steps| == |was| + (x - x')
    && forall k :: |was| <= k < |steps| ==> steps[k] == Keep(x - 1 - (k - |was|), y - 1 - (k - |was|))
  }

  lemma KeptMore(x: int, y: int, x': int, was: seq<Step>, steps: seq<Step>)
    requires KeptBack(x, y, x', was, steps) && 0 < x' && x - x' < y
    ensures KeptBack(x, y, x' - 1, was, steps + [Keep(x' - 1, y - (x - x') - 1)])
  {
  }

  lemma KeptNothing(x: int, y: int, was: seq<Step>)
    requires 0 <= x && 0 <= y
    ensures KeptBack(x, y, x, was, was)
  {
  }

  lemma KeptFromStart(was: seq<Step>, x: nat, steps: seq<Step>)
    requires KeptBack(x, x, 0, was, steps)
    ensures |steps| == |was| + x && forall k :: |was| <= k < |steps| ==> steps[k] == Keep(|steps| - 1 - k, |steps| - 1 - k)
  {
  }

  /** Retraces one snake from its furthest point to where the round's move entered the diagonal. */
  method Retrace<T(==)>(a: seq<T>, b: seq<T>, x: int, y: int, prevX: int, prevY: int, steps: seq<Step>,
                        ghost d: int, ghost h: int, ghost left: int, ghost right: int, ghost cost: int)
    returns (x': int, y': int, steps': seq<Step>)
    requires Entering(a, b, d, h, left, right) && Furthest(a, b, d, 2 * h - d, x) && y == x - (2 * h - d)
    requires Pushed(a, b, x, y, steps, cost)
    requires 0 <= prevX && 0 <= prevY
    requires if d == 0 then prevX == prevY == 0 else
               var start := Start(d, h, left, right);
               || (prevX == start && prevY == start - (2 * h - d) - 1)
               || (prevX == start - 1 && prevY == start - (2 * h - d))
    ensures x' == Start(d, h, left, right) && y' == x' - (2 * h - d)
    ensures Pushed(a, b, x', y', steps', cost)
    ensures KeptBack(x, y, x', steps, steps')
  {
    hide KeptBack, Script, Lcs;
    x', y', steps' := x, y, steps;
    KeptNothing(x, y, steps);
    StartsBeforeFurthest(a, b, d, h, left, right, x);
    while x' > prevX && y' > prevY
      invariant x' - y' == 2 * h - d && Start(d, h, left, right) <= x'
      invariant Distance(a, b, x', y') <= d
      invariant Pushed(a, b, x', y', steps', cost)
      invariant x' <= x && x' - y' == x - y && KeptBack(x, y, x', steps, steps')
      decreases x'
    {
      SnakeBack(a, b, d, h, left, right, x', y');
      KeptMore(x, y, x', steps, steps');
      PushStep(a, b, x', y', x' - 1, y' - 1, steps', cost, Keep(x' - 1, y' - 1));
      x' := x' - 1;
      y' := y' - 1;
      steps' := steps' + [Keep(x', y')];
    }
  }

  /** Walks the recorded copies back from `(|a|, |b|)`; the walk ends at the origin. */
  method Backtrack<T(==)>(a: seq<T>, b: seq<T>, trace: seq<seq<nat>>) returns (script: seq<Step>)
    requires TraceOf(a, b, trace) && |trace| > 0
    requires |trace| - 1 == Distance(a, b, |a|, |b|) && Furthest(a, b, |trace| - 1, |a| - |b|, |a|)
    ensures Script(a, b, 0, 0, script)
    ensures Cost(script) == |trace| - 1
    ensures KeepsPrefix(a, b, script)
  {
    hide Script, Cost, Lcs, Neighbours, SnakeStart, Furthest, Entering, LeftOf, RightOf, Untouched, KeptBack, KeepsPrefix, ScriptOf;
    var off := |a| + |b|;
    var x: int, y: int := |a|, |b|;
    var steps: seq<Step> := [];
    NothingPushed(a, b);
    ghost var h: int := |a| - Lcs(a, b, |a|, |b|);
    DistanceAtLeastDiagonal(a, b, |a|, |b|);
    for i := |trace| downto 0
      invariant Pushed(a, b, x, y, steps, |trace| - if i == 0 then 1 else i)
      invariant if i == 0 then x == y == 0 else
                  0 <= h <= i - 1 && x - y == 2 * h - (i - 1) && Furthest(a, b, i - 1, 2 * h - (i - 1), x)
      invariant i == 0 ==> KeepsPrefix(a, b, ScriptOf(steps))
    {
      var d: int, v := i, trace[i];
      var k := x - y;
      ReadNeighbours(a, b, d, h, v, v);
      EnteringFromTrace(a, b, d, h, v);
      ghost var left, right := LeftOf(a, b, d, v, h), RightOf(a, b, d, v, h);
      var down := Down(d, k, off, v);
      var prevK := if down then k + 1 else k - 1;
      var prevX: int, prevY: int := 0, 0;
      if d != 0 {
        prevX := v[prevK + off];
        prevY := prevX - prevK;
      }
      ghost var from, was := x, steps;
      x, y, steps := Retrace(a, b, x, y, prevX, prevY, steps, d, h, left, right, |trace| - 1 - d);
      if d > 0 {
        var step := if down then Insert(prevY) else Delete(prevX);
        PushStep(a, b, x, y, prevX, prevY, steps, |trace| - 1 - d, step);
        steps := steps + [step];
        x := prevX;
        y := prevY;
        h := if down then h else h - 1;
      } else {
        KeptFromStart(was, from, steps);
        FirstSnakeKeeps(a, b, was, from, steps);
      }
    }
    script := ScriptOf(steps);
  }

  /** Slides from `(x, y)` down its diagonal while the elements are equal, inside the box. */
  method Slide<T(==)>(a: seq<T>, b: seq<T>, x: nat, y: nat) returns (x': nat, y': nat)
    ensures x <= x' && x' - y' == x - y
    ensures !Match(a, b, x', y')
    ensures Distance(a, b, x', y') == Distance(a, b, x, y)
  {
    x', y' := x, y;
    while x' < |a| && y' < |b| && a[x'] == b[y']
      invariant x <= x' && x' - y' == x - y
      invariant Distance(a, b, x', y') == Distance(a, b, x, y)
      decreases |a| - x'
    {
      DistanceMoves(a, b, x', y');
      x' := x' + 1;
      y' := y' + 1;
    }
  }

  /** Round `d` over `v`, in place; stops when a cursor is past both ends. */
  method Round<T(==)>(a: seq<T>, b: seq<T>, d: int, v: array<nat>) returns (done: bool)
    requires d <= |a| + |b| && Before(a, b, d, v[..])
    requires d <= Distance(a, b, |a|, |b|)
    modifies v
    ensures done ==> Furthest(a, b, d, |a| - |b|, |a|) && d == Distance(a, b, |a|, |b|)
    ensures !done ==> Before(a, b, d + 1, v[..]) && d < Distance(a, b, |a|, |b|)
  {
    hide Lcs, Neighbours, SnakeStart, Start, Entering, Untouched, Filled, Furthest, LeftOf, RightOf;
    var n, m, off := |a|, |b|, |a| + |b|;
    ghost var was, h := v[..], 0;
    ghost var goal := n - Lcs(a, b, n, m);
    DistanceAtLeastDiagonal(a, b, n, m);
    NothingFilled(a, b, d, was);
    var k: int := -d;
    while k <= d
      invariant 0 <= h <= d + 1 && k == 2 * h - d
      invariant Untouched(a, b, d, was, v[..]) && Filled(a, b, d + 1, h, v[..])
      invariant d == Distance(a, b, n, m) ==> h <= goal
      decreases d + 1 - h
    {
      ReadNeighbours(a, b, d, h, was, v[..]);
      EnteringFromTrace(a, b, d, h, was);
      ghost var left, right := LeftOf(a, b, d, was, h), RightOf(a, b, d, was, h);
      StartIsReachable(a, b, d, h, left, right);
      var ki: nat := k + off;
      var x: nat := if Down(d, k, off, v[..]) then v[ki + 1] else v[ki - 1] + 1;
      var y: nat := x - k;
      x, y := Slide(a, b, x, y);
      SnakeEnd(a, b, d, h, left, right, x, y);
      FillOne(a, b, d, h, was, v[..], x);
      v[ki] := x;
      if x >= n && y >= m {
        GoalIsExact(a, b, d, x, y);
        return true;
      }
      GoalIsAhead(a, b, d, x, y);
      k := k + 2;
      h := h + 1;
    }
    AllFilled(a, b, d + 1, v[..]);
    return false;
  }

  method Zeros(length: nat) returns (v: array<nat>)
    ensures fresh(v) && v.Length == length && forall i :: 0 <= i < length ==> v[i] == 0
  {
    v := new nat[length](_ => 0);
  }

  /**
   A shortest edit script: a gap-free path whose Keeps join equal elements and whose inserts and
   deletes number `|a| + |b| - 2 * Lcs`, and which keeps the common prefix first. Every array index and every conversion to an unsigned cursor
   is in range, and the search ends within `|a| + |b|` rounds, exactly at `(|a|, |b|)`.
   */
  method Diff<T(==)>(a: seq<T>, b: seq<T>) returns (steps: seq<Step>)
    ensures Script(a, b, 0, 0, steps)
    ensures Cost(steps) == |a| + |b| - 2 * Lcs(a, b, |a|, |b|)
    ensures KeepsPrefix(a, b, steps)
  {
    steps := [];
    var max: int := |a| + |b|;
    var v := Zeros(2 * max + 2);
    var trace: seq<seq<nat>> := [];
    DistanceAtLeastDiagonal(a, b, |a|, |b|);
    for d := 0 to max + 1
      invariant |trace| == d <= Distance(a, b, |a|, |b|)
      invariant TraceOf(a, b, trace)
      invariant Before(a, b, d, v[..])
    {
      trace := trace + [v[..]];
      var done := Round(a, b, d, v);
      if done {
        steps := Backtrack(a, b, trace);
        return;
      }
    }
  }
}

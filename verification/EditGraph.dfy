/**
 The edit graph of two sequences: the grid of points `(x, y)` whose rightward moves delete `a[x]`,
 whose downward moves insert `b[y]`, and whose diagonal moves keep a pair of equal elements.

 The forward search does not clip its cursors to the box `|a| x |b|`, so the graph here is the whole
 quarter plane: right and down moves exist everywhere, diagonals only inside the box.
 */
module EditGraph {

  /** One step of a raw diff over indices. */
  datatype Step = Keep(from: nat, to: nat) | Delete(from: nat) | Insert(to: nat)

  ghost predicate Match<T>(a: seq<T>, b: seq<T>, x: nat, y: nat) {
    x < |a| && y < |b| && a[x] == b[y]
  }

  /** `steps` is a gap-free path from `(x, y)` to `(|a|, |b|)` in which every Keep joins equal elements. */
  ghost predicate Script<T>(a: seq<T>, b: seq<T>, x: nat, y: nat, steps: seq<Step>)
    decreases |steps|
  {
    if steps == [] then x == |a| && y == |b| else
    match steps[0]
    case Keep(i, j) => i == x && j == y && Match(a, b, x, y) && Script(a, b, x + 1, y + 1, steps[1..])
    case Delete(i) => i == x && x < |a| && Script(a, b, x + 1, y, steps[1..])
    case Insert(j) => j == y && y < |b| && Script(a, b, x, y + 1, steps[1..])
  }

  lemma ScriptStep<T>(a: seq<T>, b: seq<T>, x: nat, y: nat, steps: seq<Step>, i: nat)
    requires i < |steps| && Script(a, b, x, y, steps[i..])
    ensures match steps[i]
            case Keep(from, to) => from == x && to == y && Match(a, b, x, y) && Script(a, b, x + 1, y + 1, steps[i + 1..])
            case Delete(from) => from == x < |a| && Script(a, b, x + 1, y, steps[i + 1..])
            case Insert(to) => to == y < |b| && Script(a, b, x, y + 1, steps[i + 1..])
    ensures Cost(steps[i..]) == Cost(steps[i + 1..]) + if steps[i].Keep? then 0 else 1
  {
    assert steps[i..][1..] == steps[i + 1..];
  }

  lemma ScriptEnd<T>(a: seq<T>, b: seq<T>, x: nat, y: nat, steps: seq<Step>)
    requires Script(a, b, x, y, steps[|steps|..])
    ensures x == |a| && y == |b|
  {
  }

  /** Inserts plus deletes. */
  ghost function Cost(steps: seq<Step>): nat {
    if steps == [] then 0 else (if steps[0].Keep? then 0 else 1) + Cost(steps[1..])
  }

  /** The length of a longest common subsequence of `a[..x]` and `b[..y]`, constant beyond the box. */
  ghost function Lcs<T>(a: seq<T>, b: seq<T>, x: nat, y: nat): nat
    decreases x + y
  {
    if x == 0 || y == 0 then 0
    else if Match(a, b, x - 1, y - 1) then Lcs(a, b, x - 1, y - 1) + 1
    else
      var left, up := Lcs(a, b, x - 1, y), Lcs(a, b, x, y - 1);
      if left < up then up else left
  }

  /** The fewest right and down moves from the origin to `(x, y)`. */
  ghost function Distance<T>(a: seq<T>, b: seq<T>, x: nat, y: nat): int {
    x + y - 2 * Lcs(a, b, x, y)
  }

  lemma {:induction false} LcsGrowsByAtMostOne<T>(a: seq<T>, b: seq<T>, x: nat, y: nat)
    ensures Lcs(a, b, x, y) <= Lcs(a, b, x + 1, y) <= Lcs(a, b, x, y) + 1
    ensures Lcs(a, b, x, y) <= Lcs(a, b, x, y + 1) <= Lcs(a, b, x, y) + 1
    decreases x + y
  {
    if y > 0 {
      LcsGrowsByAtMostOne(a, b, x, y - 1);
    }
    if x > 0 {
      LcsGrowsByAtMostOne(a, b, x - 1, y);
    }
  }

  /** Index pairs rising strictly on both sides, each joining equal elements of `a[..x]` and `b[..y]`. */
  ghost predicate CommonSubsequence<T>(a: seq<T>, b: seq<T>, x: nat, y: nat, pairs: seq<(nat, nat)>) {
    && (forall p :: 0 <= p < |pairs| ==> pairs[p].0 < x && pairs[p].1 < y && Match(a, b, pairs[p].0, pairs[p].1))
    && (forall p, q :: 0 <= p < q < |pairs| ==> pairs[p].0 < pairs[q].0 && pairs[p].1 < pairs[q].1)
  }

  lemma {:induction false} LcsIsMonotone<T>(a: seq<T>, b: seq<T>, x: nat, y: nat, x': nat, y': nat)
    requires x <= x' && y <= y'
    ensures Lcs(a, b, x, y) <= Lcs(a, b, x', y')
    decreases x' - x + y' - y
  {
    if x < x' {
      LcsGrowsByAtMostOne(a, b, x' - 1, y');
      LcsIsMonotone(a, b, x, y, x' - 1, y');
    } else if y < y' {
      LcsGrowsByAtMostOne(a, b, x', y' - 1);
      LcsIsMonotone(a, b, x, y, x', y' - 1);
    }
  }

  /** No common subsequence is longer than `Lcs`. */
  lemma {:induction false} LcsIsLargest<T>(a: seq<T>, b: seq<T>, x: nat, y: nat, pairs: seq<(nat, nat)>)
    requires CommonSubsequence(a, b, x, y, pairs)
    ensures |pairs| <= Lcs(a, b, x, y)
    decreases |pairs|
  {
    if pairs != [] {
      var (i, j) := pairs[|pairs| - 1];
      LcsIsLargest(a, b, i, j, pairs[..|pairs| - 1]);
      LcsIsMonotone(a, b, i + 1, j + 1, x, y);
    }
  }

  /** Some common subsequence is as long as `Lcs`. */
  lemma {:induction false} LcsIsAttained<T>(a: seq<T>, b: seq<T>, x: nat, y: nat) returns (pairs: seq<(nat, nat)>)
    ensures CommonSubsequence(a, b, x, y, pairs)
    ensures |pairs| == Lcs(a, b, x, y)
    decreases x + y
  {
    if x == 0 || y == 0 {
      pairs := [];
    } else if Match(a, b, x - 1, y - 1) {
      pairs := LcsIsAttained(a, b, x - 1, y - 1);
      pairs := pairs + [(x - 1, y - 1)];
    } else if Lcs(a, b, x - 1, y) < Lcs(a, b, x, y - 1) {
      pairs := LcsIsAttained(a, b, x, y - 1);
    } else {
      pairs := LcsIsAttained(a, b, x - 1, y);
    }
  }

  /** A move never jumps more than its cost: right and down cost one, a diagonal never gains. */
  lemma DistanceMoves<T>(a: seq<T>, b: seq<T>, x: nat, y: nat)
    ensures Distance(a, b, x + 1, y) <= Distance(a, b, x, y) + 1
    ensures Distance(a, b, x, y + 1) <= Distance(a, b, x, y) + 1
    ensures Distance(a, b, x, y) <= Distance(a, b, x + 1, y + 1)
    ensures Match(a, b, x, y) ==> Distance(a, b, x + 1, y + 1) == Distance(a, b, x, y)
    ensures !Match(a, b, x, y) ==>
              Distance(a, b, x + 1, y + 1) == Distance(a, b, x, y + 1) + 1 ||
              Distance(a, b, x + 1, y + 1) == Distance(a, b, x + 1, y) + 1
  {
    LcsGrowsByAtMostOne(a, b, x, y);
  }

  lemma {:induction false} DistanceAlongDiagonal<T>(a: seq<T>, b: seq<T>, x: nat, y: nat, j: nat)
    ensures Distance(a, b, x, y) <= Distance(a, b, x + j, y + j)
    decreases j
  {
    if j > 0 {
      DistanceAlongDiagonal(a, b, x, y, j - 1);
      DistanceMoves(a, b, x + j - 1, y + j - 1);
    }
  }

  lemma {:induction false} DistanceAtLeastDiagonal<T>(a: seq<T>, b: seq<T>, x: nat, y: nat)
    ensures Distance(a, b, x, y) >= x - y && Distance(a, b, x, y) >= y - x
  {
    if x <= y {
      DistanceAlongDiagonal(a, b, 0, y - x, x);
    } else {
      DistanceAlongDiagonal(a, b, x - y, 0, y);
    }
  }

  /** Leaving the box only adds moves. */
  lemma {:induction false} DistanceOutsideBox<T>(a: seq<T>, b: seq<T>, x: nat, y: nat)
    requires x >= |a| && y >= |b|
    ensures Distance(a, b, x, y) == Distance(a, b, |a|, |b|) + (x - |a|) + (y - |b|)
    decreases x + y
  {
    LcsOutsideBox(a, b, x, y);
  }

  /** Past the end of `a` nothing more matches. */
  lemma {:induction false} LcsPastEnd<T>(a: seq<T>, b: seq<T>, x: nat, y: nat)
    requires x >= |a|
    ensures Lcs(a, b, x + 1, y) == Lcs(a, b, x, y)
  {
    if y > 0 {
      LcsPastEnd(a, b, x, y - 1);
      LcsGrowsByAtMostOne(a, b, x, y - 1);
    }
  }

  lemma {:induction false} LcsFlips<T>(a: seq<T>, b: seq<T>, x: nat, y: nat)
    ensures Lcs(a, b, x, y) == Lcs(b, a, y, x)
    decreases x + y
  {
    if x > 0 && y > 0 {
      LcsFlips(a, b, x - 1, y - 1);
      LcsFlips(a, b, x - 1, y);
      LcsFlips(a, b, x, y - 1);
    }
  }

  lemma {:induction false} LcsOutsideBox<T>(a: seq<T>, b: seq<T>, x: nat, y: nat)
    ensures Lcs(a, b, x, y) == Lcs(a, b, if x < |a| then x else |a|, if y < |b| then y else |b|)
    decreases x + y
  {
    var x', y' := if x < |a| then x else |a|, if y < |b| then y else |b|;
    if x > |a| {
      LcsOutsideBox(a, b, x - 1, y);
      LcsPastEnd(a, b, x - 1, y);
    } else if y > |b| {
      LcsOutsideBox(a, b, x, y - 1);
      LcsPastEnd(b, a, y - 1, x);
      LcsFlips(a, b, x, y - 1);
      LcsFlips(a, b, x, y);
    }
  }

  /** No script is cheaper than the distance it covers. */
  lemma {:induction false} ScriptCostsAtLeastDistance<T>(a: seq<T>, b: seq<T>, x: nat, y: nat, steps: seq<Step>)
    requires Script(a, b, x, y, steps)
    ensures Distance(a, b, x, y) + Cost(steps) >= Distance(a, b, |a|, |b|)
    decreases |steps|
  {
    if steps != [] {
      DistanceMoves(a, b, x, y);
      match steps[0]
      case Keep(_, _) => ScriptCostsAtLeastDistance(a, b, x + 1, y + 1, steps[1..]);
      case Delete(_) => ScriptCostsAtLeastDistance(a, b, x + 1, y, steps[1..]);
      case Insert(_) => ScriptCostsAtLeastDistance(a, b, x, y + 1, steps[1..]);
    }
  }

  /**
   `x` is the furthest point of diagonal `k = x - y` within `d` moves of the origin. Points past the
   box count, as they do in the search.
   */
  ghost predicate Furthest<T>(a: seq<T>, b: seq<T>, d: int, k: int, x: int) {
    && x >= 0 && x - k >= 0
    && Distance(a, b, x, x - k) <= d < Distance(a, b, x + 1, x + 1 - k)
  }

  lemma FurthestIsLast<T>(a: seq<T>, b: seq<T>, d: int, k: int, x: int, z: int)
    requires Furthest(a, b, d, k, x) && z >= 0 && z - k >= 0
    ensures Distance(a, b, z, z - k) <= d <==> z <= x
  {
    if z <= x {
      DistanceAlongDiagonal(a, b, z, z - k, x - z);
    } else {
      DistanceAlongDiagonal(a, b, x + 1, x + 1 - k, z - x - 1);
    }
  }

  /**
   The start of the snake on diagonal `k` in round `d`, from the neighbours' furthest points of
   round `d - 1`: `left` on `k - 1` (absent when `k == -d`) and `right` on `k + 1` (absent when `k == d`).
   */
  ghost predicate Neighbours<T>(a: seq<T>, b: seq<T>, d: int, k: int, left: int, right: int) {
    && d > 0 && -d <= k <= d
    && (k != -d ==> Furthest(a, b, d - 1, k - 1, left))
    && (k != d ==> Furthest(a, b, d - 1, k + 1, right))
  }

  function SnakeStart(d: int, k: int, left: int, right: int): int {
    if k == -d || (k != d && left < right) then right else left + 1
  }

  lemma SnakeStartIsReachable<T>(a: seq<T>, b: seq<T>, d: int, k: int, left: int, right: int)
    requires Neighbours(a, b, d, k, left, right)
    ensures var x := SnakeStart(d, k, left, right);
            x >= 0 && x - k >= 0 && Distance(a, b, x, x - k) <= d
  {
    var x := SnakeStart(d, k, left, right);
    if k == -d || (k != d && left < right) {
      DistanceMoves(a, b, x, x - k - 1);
    } else {
      DistanceMoves(a, b, left, left - k + 1);
    }
  }

  /** From the snake's start on, a mismatch costs more than `d`: the snake ends at the furthest point. */
  lemma MismatchEndsRound<T>(a: seq<T>, b: seq<T>, d: int, k: int, left: int, right: int, x: int)
    requires Neighbours(a, b, d, k, left, right)
    requires SnakeStart(d, k, left, right) <= x && 0 <= x && 0 <= x - k
    requires !Match(a, b, x, x - k)
    ensures Distance(a, b, x + 1, x + 1 - k) > d
  {
    hide Distance, Furthest, Match;
    DistanceMoves(a, b, x, x - k);
    if k == -d {
      DistanceAtLeastDiagonal(a, b, x, x - k + 1);
    } else {
      FurthestIsLast(a, b, d - 1, k - 1, left, x);
    }
    if k == d {
      DistanceAtLeastDiagonal(a, b, x + 1, x - k);
    } else {
      FurthestIsLast(a, b, d - 1, k + 1, right, x + 1);
    }
  }
}

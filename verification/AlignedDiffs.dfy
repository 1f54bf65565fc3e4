/**
 Files whose keys agree only in the same places: what the line diff makes of them. A command that appends
 lines, or blanks some where they stand, leaves such a file.
 */
module AlignedDiffs {
  import opened Lists
  import opened TodoLines
  import opened LineDiffs
  import EditGraph

  /** No key is in both files in different places. */
  ghost predicate Aligned(ka: seq<Key>, kb: seq<Key>) {
    forall i, j :: 0 <= i < |ka| && 0 <= j < |kb| && ka[i] == kb[j] ==> i == j
  }

  /** Place `i` has one key in both files. */
  predicate Same(ka: seq<Key>, kb: seq<Key>, i: nat) {
    i < |ka| && i < |kb| && ka[i] == kb[i]
  }

  ghost function SamePlaces(ka: seq<Key>, kb: seq<Key>, n: nat): (r: seq<nat>)
    ensures Rising(r) && forall k :: 0 <= k < |r| ==> r[k] < n && Same(ka, kb, r[k])
  {
    if n == 0 then [] else SamePlaces(ka, kb, n - 1) + if Same(ka, kb, n - 1) then [n - 1] else []
  }

  lemma {:induction false} SamePlacesCover(ka: seq<Key>, kb: seq<Key>, n: nat, i: nat)
    requires i < n && Same(ka, kb, i)
    ensures i in SamePlaces(ka, kb, n)
  {
    if i < n - 1 {
      SamePlacesCover(ka, kb, n - 1, i);
    }
  }

  lemma SamePlacesCommon(ka: seq<Key>, kb: seq<Key>)
    ensures |SamePlaces(ka, kb, |ka|)| <= EditGraph.Lcs(ka, kb, |ka|, |kb|)
  {
    hide EditGraph.Lcs;
    var places := SamePlaces(ka, kb, |ka|);
    var pairs := seq(|places|, k requires 0 <= k < |places| => (places[k], places[k]));
    assert forall k :: 0 <= k < |pairs| ==> EditGraph.Match(ka, kb, places[k], places[k]);
    EditGraph.LcsIsLargest(ka, kb, |ka|, |kb|, pairs);
  }

  /** The source places of the matched steps. */
  ghost function MatchedFroms(out: seq<LineDiff>): (r: seq<nat>)
    ensures |r| == MatchedCount(out)
  {
    if out == [] then [] else (if out[0].Matched() then [out[0].from] else []) + MatchedFroms(out[1..])
  }

  lemma {:induction false} MatchedFromAt(out: seq<LineDiff>, k: nat) returns (p: nat)
    requires k < |MatchedFroms(out)|
    ensures p < |out| && out[p].Matched() && out[p].from == MatchedFroms(out)[k]
  {
    if out[0].Matched() && k == 0 {
      p := 0;
    } else {
      p := MatchedFromAt(out[1..], if out[0].Matched() then k - 1 else k);
      p := p + 1;
    }
  }

  lemma {:induction false} MatchedFromsRise(out: seq<LineDiff>)
    requires MatchesRise(out)
    ensures Rising(MatchedFroms(out))
  {
    if out != [] {
      var rest := out[1..];
      assert forall p :: 0 <= p < |rest| ==> rest[p] == out[p + 1];
      MatchedFromsRise(rest);
      if out[0].Matched() {
        forall k: nat | k < |MatchedFroms(rest)| ensures out[0].from < MatchedFroms(rest)[k] {
          var p := MatchedFromAt(rest, k);
          FromsRise(out, p + 1);
        }
        PrependRises(out[0].from, MatchedFroms(rest));
      } else {
        assert [] + MatchedFroms(rest) == MatchedFroms(rest);
      }
    }
  }

  lemma FromsRise(out: seq<LineDiff>, p: nat)
    requires 0 < p < |out| && MatchesRise(out) && out[0].Matched() && out[p].Matched()
    ensures out[0].from < out[p].from
  {
  }

  lemma MatchedKeys(hash: Content -> int, a: seq<Content>, b: seq<Content>, out: seq<LineDiff>, p: nat)
    requires StepsHold(a, b, KeysOf(hash, a), KeysOf(hash, b), out) && p < |out| && (out[p].Matched() || out[p].Move?)
    ensures out[p].from < |a| && out[p].to < |b| && KeysOf(hash, a)[out[p].from] == KeysOf(hash, b)[out[p].to]
  {
    hide KeyOf;
    assert StepHolds(a, b, KeysOf(hash, a), KeysOf(hash, b), out[p]);
  }

  /** In aligned files every place of one key is matched where it is. */
  lemma SameIsMatched(hash: Content -> int, a: seq<Content>, b: seq<Content>, out: seq<LineDiff>, i: nat) returns (p: nat)
    requires DiffOf(a, b, KeysOf(hash, a), KeysOf(hash, b), out) && Aligned(KeysOf(hash, a), KeysOf(hash, b))
    requires Same(KeysOf(hash, a), KeysOf(hash, b), i)
    ensures p < |out| && out[p].Matched() && out[p].from == out[p].to == i
  {
    hide Froms, Tos, MatchedCount, StepsHold, NoSplitMove, HasMove, KeysOf, EditGraph.Lcs, MatchedFroms, SamePlaces, MatchesRise;
    var ka, kb := KeysOf(hash, a), KeysOf(hash, b);
    var places, froms := SamePlaces(ka, kb, |a|), MatchedFroms(out);
    SamePlacesCommon(ka, kb);
    MatchedFromsRise(out);
    DistinctCount(places);
    DistinctCount(froms);
    forall x | x in Elements(froms) ensures x in Elements(places) {
      var k :| 0 <= k < |froms| && froms[k] == x;
      var q := MatchedFromAt(out, k);
      MatchedKeys(hash, a, b, out, q);
      SamePlacesCover(ka, kb, |a|, x);
    }
    SameSize(Elements(froms), Elements(places));
    SamePlacesCover(ka, kb, |a|, i);
    assert i in Elements(froms);
    var k :| 0 <= k < |froms| && froms[k] == i;
    p := MatchedFromAt(out, k);
    MatchedKeys(hash, a, b, out, p);
  }

  lemma FromsDiffer(out: seq<LineDiff>, p: nat, q: nat)
    requires p < q < |out| && out[p].HasFrom() && out[q].HasFrom() && Distinct(Froms(out))
    ensures out[p].from != out[q].from
  {
    hide Froms;
    SplitAccount(out, q);
    SplitAccount(out[..q], p);
    var head, x, mid, y, tail := Froms(out[..q][..p]), out[p].from, Froms(out[..q][p + 1..]), out[q].from, Froms(out[q + 1..]);
    assert Froms(out) == head + [x] + mid + [y] + tail;
    assert (head + [x] + mid + [y] + tail)[|head|] == x && (head + [x] + mid + [y] + tail)[|head| + 1 + |mid|] == y;
  }

  lemma SameFromSameStep(out: seq<LineDiff>, n: nat, p: nat, q: nat)
    requires p < |out| && q < |out| && out[p].HasFrom() && out[q].HasFrom() && Froms(out) == Range(0, n)
    requires out[p].from == out[q].from
    ensures p == q
  {
    hide Froms;
    if p < q {
      FromsDiffer(out, p, q);
    } else if q < p {
      FromsDiffer(out, q, p);
    }
  }

  lemma SameToSameStep(out: seq<LineDiff>, n: nat, p: nat, q: nat)
    requires p < |out| && q < |out| && out[p].HasTo() && out[q].HasTo() && Tos(out) == Range(0, n)
    requires out[p].to == out[q].to
    ensures p == q
  {
    hide Tos;
    if p < q {
      TosDiffer(out, p, q);
    } else if q < p {
      TosDiffer(out, q, p);
    }
  }

  lemma TosDiffer(out: seq<LineDiff>, p: nat, q: nat)
    requires p < q < |out| && out[p].HasTo() && out[q].HasTo() && Distinct(Tos(out))
    ensures out[p].to != out[q].to
  {
    hide Tos;
    SplitAccount(out, q);
    SplitAccount(out[..q], p);
    var head, x, mid, y, tail := Tos(out[..q][..p]), out[p].to, Tos(out[..q][p + 1..]), out[q].to, Tos(out[q + 1..]);
    assert Tos(out) == head + [x] + mid + [y] + tail;
    assert (head + [x] + mid + [y] + tail)[|head|] == x && (head + [x] + mid + [y] + tail)[|head| + 1 + |mid|] == y;
  }

  /** A step of an aligned diff: matched in place, or in a place of different keys. */
  ghost predicate StaysInPlace(ka: seq<Key>, kb: seq<Key>, d: LineDiff) {
    && (d.Matched() ==> d.from == d.to && Same(ka, kb, d.from))
    && (d.Delete? ==> !Same(ka, kb, d.from)) && (d.Insert? ==> !Same(ka, kb, d.to)) && !d.Move?
  }

  /** The diff of aligned files moves nothing and matches every place of one key. */
  lemma AlignedStays(hash: Content -> int, a: seq<Content>, b: seq<Content>, out: seq<LineDiff>)
    requires DiffOf(a, b, KeysOf(hash, a), KeysOf(hash, b), out) && Aligned(KeysOf(hash, a), KeysOf(hash, b))
    ensures Tos(out) == Range(0, |b|)
    ensures forall q :: 0 <= q < |out| ==> StaysInPlace(KeysOf(hash, a), KeysOf(hash, b), out[q])
  {
    hide Froms, Tos, MatchedCount, StepsHold, NoSplitMove, HasMove, KeysOf, EditGraph.Lcs, MatchesRise, Same;
    var ka, kb := KeysOf(hash, a), KeysOf(hash, b);
    forall q: nat | q < |out| && (out[q].Move? || out[q].Delete?) ensures !out[q].Move? && !Same(ka, kb, out[q].from) {
      AlignedFrom(hash, a, b, out, q);
    }
    NoMoves(out);
    forall q: nat | q < |out| ensures StaysInPlace(ka, kb, out[q]) {
      AlignedTo(hash, a, b, out, q);
    }
  }

  lemma NoMoves(out: seq<LineDiff>)
    requires forall q :: 0 <= q < |out| ==> !out[q].Move?
    ensures !HasMove(out)
  {
  }

  lemma AlignedFrom(hash: Content -> int, a: seq<Content>, b: seq<Content>, out: seq<LineDiff>, q: nat)
    requires DiffOf(a, b, KeysOf(hash, a), KeysOf(hash, b), out) && Aligned(KeysOf(hash, a), KeysOf(hash, b))
    requires q < |out| && (out[q].Move? || out[q].Delete?)
    ensures !out[q].Move? && !Same(KeysOf(hash, a), KeysOf(hash, b), out[q].from)
  {
    hide Froms, Tos, MatchedCount, StepsHold, NoSplitMove, HasMove, KeysOf, EditGraph.Lcs, MatchesRise;
    var ka, kb := KeysOf(hash, a), KeysOf(hash, b);
    if out[q].Move? {
      MatchedKeys(hash, a, b, out, q);
    }
    if Same(ka, kb, out[q].from) {
      var p := SameIsMatched(hash, a, b, out, out[q].from);
      SameFromSameStep(out, |a|, p, q);
    }
  }

  lemma AlignedTo(hash: Content -> int, a: seq<Content>, b: seq<Content>, out: seq<LineDiff>, q: nat)
    requires DiffOf(a, b, KeysOf(hash, a), KeysOf(hash, b), out) && Aligned(KeysOf(hash, a), KeysOf(hash, b))
    requires q < |out| && Tos(out) == Range(0, |b|)
    requires out[q].Move? || out[q].Delete? ==> !out[q].Move? && !Same(KeysOf(hash, a), KeysOf(hash, b), out[q].from)
    ensures StaysInPlace(KeysOf(hash, a), KeysOf(hash, b), out[q])
  {
    hide Froms, Tos, MatchedCount, StepsHold, NoSplitMove, HasMove, KeysOf, EditGraph.Lcs, MatchesRise;
    var ka, kb := KeysOf(hash, a), KeysOf(hash, b);
    if out[q].Matched() {
      MatchedKeys(hash, a, b, out, q);
    } else if out[q].Insert? && Same(ka, kb, out[q].to) {
      var p := SameIsMatched(hash, a, b, out, out[q].to);
      SameToSameStep(out, |b|, p, q);
    }
  }

  /** The steps after the old file's lines, when the new file starts with their keys, only insert. */
  lemma LateSteps(a: seq<Content>, b: seq<Content>, ka: seq<Key>, kb: seq<Key>, out: seq<LineDiff>, q: nat)
    requires |ka| == |a| <= |b| == |kb| && Froms(out) == Range(0, |a|) && StepsHold(a, b, ka, kb, out)
    requires StartsInPlace(a, b, out, |a|) && |a| <= q < |out|
    ensures out[q].Insert?
  {
    hide Froms;
    assert StepHolds(a, b, ka, kb, out[q]);
    if out[q].HasFrom() {
      assert out[out[q].from] == InPlace(a, b, out[q].from);
      SameFromSameStep(out, |a|, out[q].from, q);
    }
  }

  /** When the new file starts with the old one's keys, every old line is matched where it stands, whatever keys repeat. */
  lemma PrefixStays(a: seq<Content>, b: seq<Content>, ka: seq<Key>, kb: seq<Key>, out: seq<LineDiff>)
    requires |ka| == |a| <= |b| == |kb| && DiffOf(a, b, ka, kb, out) && kb[..|a|] == ka
    ensures Tos(out) == Range(0, |b|)
    ensures forall q :: 0 <= q < |out| ==> StaysInPlace(ka, kb, out[q])
  {
    hide Froms, Tos, MatchedCount, StepsHold, NoSplitMove, HasMove, EditGraph.Lcs, MatchesRise, KeepsPrefix, InPlace;
    var n := |a|;
    assert ka[..n] == ka;
    PrefixStarts(a, b, ka, kb, out, n);
    forall q: nat | q < |out| ensures if q < n then out[q] == InPlace(a, b, q) else out[q].Insert? {
      if n <= q {
        LateSteps(a, b, ka, kb, out, q);
      }
    }
    forall q: nat | q < n ensures out[q].Matched() && out[q].from == out[q].to == q {
      InPlaceMatches(a, b, q);
    }
    NoMoves(out);
    forall q: nat | q < |out| ensures StaysInPlace(ka, kb, out[q]) {
      if q < n {
        assert ka[q] == kb[..n][q] == kb[q];
      } else if out[q].to < n {
        SameToSameStep(out, |b|, out[q].to, q);
      }
    }
  }

  lemma InPlaceMatches(a: seq<Content>, b: seq<Content>, i: nat)
    requires i < |a| && i < |b|
    ensures var d := InPlace(a, b, i); d.Matched() && d.from == d.to == i
  {
  }

  /** How far a prefix of the steps has come in both files. */
  ghost function FromCount(out: seq<LineDiff>, p: nat): nat
    requires p <= |out|
  {
    if p == 0 then 0 else FromCount(out, p - 1) + if out[p - 1].HasFrom() then 1 else 0
  }

  ghost function ToCount(out: seq<LineDiff>, p: nat): nat
    requires p <= |out|
  {
    if p == 0 then 0 else ToCount(out, p - 1) + if out[p - 1].HasTo() then 1 else 0
  }

  lemma {:induction false} CountsArePrefixes(out: seq<LineDiff>, p: nat)
    requires p <= |out|
    ensures |Froms(out[..p])| == FromCount(out, p) && |Tos(out[..p])| == ToCount(out, p)
  {
    hide Froms, Tos, MatchedCount;
    if p == 0 {
      NothingIsNowhere();
      assert out[..0] == [];
    } else {
      CountsArePrefixes(out, p - 1);
      assert out[..p] == out[..p - 1] + [out[p - 1]];
      AccountConcat(out[..p - 1], [out[p - 1]]);
      AccountOne(out[p - 1]);
    }
  }

  lemma NothingIsNowhere()
    ensures Froms([]) == [] && Tos([]) == []
  {
  }

  /** With every line in order on both sides, a step takes the next line of each side it has. */
  lemma StepIsNext(out: seq<LineDiff>, n: nat, m: nat, p: nat)
    requires p < |out| && Froms(out) == Range(0, n) && Tos(out) == Range(0, m)
    ensures out[p].HasFrom() ==> out[p].from == FromCount(out, p) < n
    ensures out[p].HasTo() ==> out[p].to == ToCount(out, p) < m
  {
    hide Froms, Tos, MatchedCount;
    SplitAccount(out, p);
    CountsArePrefixes(out, p);
    var head, tail := Froms(out[..p]), Froms(out[p + 1..]);
    assert out[p].HasFrom() ==> (head + [out[p].from] + tail)[|head|] == out[p].from;
    var head', tail' := Tos(out[..p]), Tos(out[p + 1..]);
    assert out[p].HasTo() ==> (head' + [out[p].to] + tail')[|head'|] == out[p].to;
  }

  lemma AllTaken(out: seq<LineDiff>, n: nat, m: nat)
    requires Froms(out) == Range(0, n) && Tos(out) == Range(0, m)
    ensures FromCount(out, |out|) == n && ToCount(out, |out|) == m
  {
    CountsArePrefixes(out, |out|);
    assert out[..|out|] == out;
  }
}

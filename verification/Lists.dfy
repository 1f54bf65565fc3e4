/** Positions in lists. */
module Lists {
  /** The first position of `x`, or the length. */
  function IndexOf<T(==)>(s: seq<T>, x: T): (r: nat)
    ensures r <= |s| && (r < |s| ==> s[r] == x)
    ensures forall i :: 0 <= i < r ==> s[i] != x
  {
    if s == [] || s[0] == x then 0 else 1 + IndexOf(s[1..], x)
  }

  predicate Distinct<T(==)>(s: seq<T>) {
    forall i, j :: 0 <= i < j < |s| ==> s[i] != s[j]
  }

  predicate Within(places: seq<nat>, n: nat) {
    forall i :: 0 <= i < |places| ==> places[i] < n
  }

  /** The elements at some places. */
  function At<T>(s: seq<T>, places: seq<nat>): (r: seq<T>)
    requires Within(places, |s|)
    ensures |r| == |places| && forall i :: 0 <= i < |places| ==> r[i] == s[places[i]]
  {
    seq(|places|, i requires 0 <= i < |places| => s[places[i]])
  }

  ghost predicate Rising(s: seq<nat>) {
    forall i, j :: 0 <= i < j < |s| ==> s[i] < s[j]
  }

  /** A rising list is determined by what is in it. */
  lemma {:induction false} RisingListsAgree(s: seq<nat>, t: seq<nat>)
    requires Rising(s) && Rising(t) && forall x :: x in s <==> x in t
    ensures s == t
  {
    assert |t| > 0 ==> t[0] in s;
    if |s| > 0 {
      assert s[0] in t;
      var x, y := s[|s| - 1], t[|t| - 1];
      assert x in t && y in s;
      assert x == y;
      var s', t' := s[..|s| - 1], t[..|t| - 1];
      forall z ensures z in s' <==> z in t' {
        assert z in s' <==> z in s && z != x;
        assert z in t' <==> z in t && z != y;
      }
      RisingListsAgree(s', t');
      assert s == s' + [x] && t == t' + [y];
    }
  }

  ghost function Elements<T>(s: seq<T>): set<T> {
    set x | x in s
  }

  /** A list has as many elements as places exactly when none repeats. */
  lemma {:induction false} DistinctCount<T>(s: seq<T>)
    ensures |Elements(s)| <= |s| && (|Elements(s)| == |s| <==> Distinct(s))
  {
    if s == [] {
      assert Elements(s) == {};
    } else {
      var init, last := s[..|s| - 1], s[|s| - 1];
      DistinctCount(init);
      assert s == init + [last];
      assert Elements(s) == Elements(init) + {last};
      if last in init {
        assert Elements(s) == Elements(init);
        var i :| 0 <= i < |init| && init[i] == last;
        assert s[i] == s[|s| - 1];
      } else {
        assert forall i :: 0 <= i < |init| ==> s[i] == init[i];
      }
    }
  }

  /** A set within another of no more elements is that set. */
  lemma SameSize<T>(x: set<T>, y: set<T>)
    requires x <= y && |y| <= |x|
    ensures x == y
  {
    assert |y - x| == |y| - |x|;
  }
}

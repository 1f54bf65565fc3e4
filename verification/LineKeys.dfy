/**
 Lines without an id are matched by a hash of their bytes: by the bytes themselves as long as no two such
 lines of the files share a hash, and not otherwise.
 */
module LineKeys {
  import opened Lists
  import opened Words
  import opened Dates
  import opened TodoLines
  import opened LineDiffs
  import opened AlignedDiffs
  import opened InPlacePlans
  import opened PlanCheck
  import LineEditor
  import EditGraph

  /** No two different lines without an id, one of each file, share a hash. */
  ghost predicate NoCollision(hash: Content -> int, a: seq<Content>, b: seq<Content>) {
    forall i, j :: 0 <= i < |a| && 0 <= j < |b| && IdOf(a[i]).None? && IdOf(b[j]).None? && hash(a[i]) == hash(b[j]) ==>
                     a[i] == b[j]
  }

  /** Lines without an id are matched only with lines of the same bytes. */
  ghost predicate MatchesBytes(a: seq<Content>, b: seq<Content>, out: seq<LineDiff>) {
    forall p :: 0 <= p < |out| && out[p].Matched() && out[p].from < |a| && out[p].to < |b| && IdOf(a[out[p].from]).None? ==>
                  a[out[p].from] == b[out[p].to]
  }

  /** A step that joins different bytes of a line without an id joins two such lines of one hash. */
  lemma ChangeWithoutIdCollides(hash: Content -> int, a: seq<Content>, b: seq<Content>, out: seq<LineDiff>, p: nat)
    requires StepsHold(a, b, KeysOf(hash, a), KeysOf(hash, b), out) && p < |out| && out[p].Change?
    requires out[p].from < |a| && IdOf(a[out[p].from]).None?
    ensures out[p].to < |b| && a[out[p].from] != b[out[p].to]
    ensures IdOf(b[out[p].to]).None? && hash(a[out[p].from]) == hash(b[out[p].to])
  {
    hide IdOf;
    assert StepHolds(a, b, KeysOf(hash, a), KeysOf(hash, b), out[p]);
  }

  /** Without a collision, lines without an id are matched by their exact bytes. */
  lemma NoCollisionMatchesBytes(hash: Content -> int, a: seq<Content>, b: seq<Content>, out: seq<LineDiff>)
    requires DiffOf(a, b, KeysOf(hash, a), KeysOf(hash, b), out) && NoCollision(hash, a, b)
    ensures MatchesBytes(a, b, out)
  {
    hide IdOf, Froms, Tos, MatchedCount, MatchesRise, NoSplitMove, HasMove, KeysOf, EditGraph.Lcs;
    forall p: nat | p < |out| && out[p].Matched() && out[p].from < |a| && out[p].to < |b| && IdOf(a[out[p].from]).None?
      ensures a[out[p].from] == b[out[p].to]
    {
      assert StepHolds(a, b, KeysOf(hash, a), KeysOf(hash, b), out[p]);
      if out[p].Change? {
        ChangeWithoutIdCollides(hash, a, b, out, p);
      }
    }
  }

  /** Lines of one key that differ are tasks where no hashes collide, and in files of nothing but tasks. */
  lemma KeysTellApart(hash: Content -> int, before: Lines, after: Lines)
    requires NoCollision(hash, before, after) ||
             (NoneEmpty(before) && NoneEmpty(after) && forall j :: 0 <= j < |after| ==> after[j].Text?)
    ensures ToldApart(before, after, KeysOf(hash, before), KeysOf(hash, after))
  {
    hide IdOf, IsEmpty;
    forall i, j | 0 <= i < |before| && 0 <= j < |after| && KeyOf(hash, before[i]) == KeyOf(hash, after[j]) && before[i] != after[j]
      ensures !IsEmpty(before[i]) && !IsEmpty(after[j]) && after[j].Text?
    {
      LinesWithIdsAreTasks(before[i]);
      LinesWithIdsAreTasks(after[j]);
    }
  }

  /** Two different lines under one key, each a file of its own, are one change. */
  lemma CollisionIsChange(hash: Content -> int, x: Content, y: Content, out: seq<LineDiff>)
    requires x != y && KeyOf(hash, x) == KeyOf(hash, y)
    ensures DiffOf([x], [y], KeysOf(hash, [x]), KeysOf(hash, [y]), out) <==> out == [Change(0, 0)]
  {
    hide KeyOf, DiffOf;
    OneChangeIsDiff(hash, x, y);
    if DiffOf([x], [y], KeysOf(hash, [x]), KeysOf(hash, [y]), out) {
      OnlyOneChange(hash, x, y, out);
    }
  }

  lemma OnlyOneChange(hash: Content -> int, x: Content, y: Content, out: seq<LineDiff>)
    requires x != y && KeyOf(hash, x) == KeyOf(hash, y)
    requires DiffOf([x], [y], KeysOf(hash, [x]), KeysOf(hash, [y]), out)
    ensures out == [Change(0, 0)]
  {
    hide KeyOf, Froms, Tos, MatchedCount, MatchesRise, NoSplitMove, HasMove, EditGraph.Lcs;
    var ka, kb := KeysOf(hash, [x]), KeysOf(hash, [y]);
    AlignedStays(hash, [x], [y], out);
    forall p: nat | p < |out| ensures out[p] == Change(0, 0) {
      assert StaysInPlace(ka, kb, out[p]);
      assert StepHolds([x], [y], ka, kb, out[p]);
    }
    FromsInTurn(out);
    assert |Froms(out)| == |Range(0, 1)| == 1;
  }

  lemma OneChangeIsDiff(hash: Content -> int, x: Content, y: Content)
    requires x != y && KeyOf(hash, x) == KeyOf(hash, y)
    ensures DiffOf([x], [y], KeysOf(hash, [x]), KeysOf(hash, [y]), [Change(0, 0)])
  {
    hide KeyOf;
    var ka, kb := KeysOf(hash, [x]), KeysOf(hash, [y]);
    AccountOne(Change(0, 0));
    assert Range(0, 1) == [0];
    assert ka == kb == [KeyOf(hash, x)];
    SelfLcs(ka, 1);
  }

  // ---- every hash collides ----

  /** Lines without an id are matched by their bytes in every diff. */
  ghost predicate AlwaysMatchesBytes(hash: Content -> int) {
    forall a, b, out :: DiffOf(a, b, KeysOf(hash, a), KeysOf(hash, b), out) ==> MatchesBytes(a, b, out)
  }

  /** Different lines without an id have different hashes. */
  ghost predicate Injective(hash: Content -> int) {
    forall x, y :: IdOf(x).None? && IdOf(y).None? && hash(x) == hash(y) ==> x == y
  }

  /** Lines without an id are always matched by their exact bytes if and only if the hash never collides on them. */
  lemma MatchesBytesIffInjective(hash: Content -> int)
    ensures AlwaysMatchesBytes(hash) <==> Injective(hash)
  {
    hide IdOf, DiffOf, MatchesBytes, KeysOf, NoCollision;
    if Injective(hash) {
      forall a, b, out | DiffOf(a, b, KeysOf(hash, a), KeysOf(hash, b), out) ensures MatchesBytes(a, b, out) {
        InjectiveNeverCollides(hash, a, b);
        NoCollisionMatchesBytes(hash, a, b, out);
      }
    }
    if AlwaysMatchesBytes(hash) {
      forall x, y | IdOf(x).None? && IdOf(y).None? && hash(x) == hash(y) ensures x == y {
        MatchedByBytes(hash, x, y);
      }
    }
  }

  lemma InjectiveNeverCollides(hash: Content -> int, a: seq<Content>, b: seq<Content>)
    requires Injective(hash)
    ensures NoCollision(hash, a, b)
  {
    hide IdOf;
  }

  lemma MatchedByBytes(hash: Content -> int, x: Content, y: Content)
    requires AlwaysMatchesBytes(hash) && IdOf(x).None? && IdOf(y).None? && hash(x) == hash(y)
    ensures x == y
  {
    hide IdOf, DiffOf;
    if x != y {
      var out := [Change(0, 0)];
      CollisionIsChange(hash, x, y, out);
      ChangeIsNoMatch(x, y);
    }
  }

  lemma ChangeIsNoMatch(x: Content, y: Content)
    requires x != y && IdOf(x).None?
    ensures !MatchesBytes([x], [y], [Change(0, 0)])
  {
    hide IdOf;
    assert [Change(0, 0)][0].Matched();
  }

  /** A short line has no id: a ULID alone is 26 characters. */
  lemma ShortHasNoId(text: string)
    requires |text| < 26
    ensures IdOf(Text(text)).None?
  {
    hide FindTag, IsCrockford;
    LineEditor.DescriptionIsTail(text);
  }

  const HASHES: nat := 0x1_0000_0000_0000_0000

  /** Every line hashes to 64 bits. */
  ghost predicate Is64Bit(hash: Content -> int) {
    forall c :: 0 <= hash(c) < HASHES
  }

  ghost function Below(n: nat): (r: set<int>)
    ensures forall i :: i in r <==> 0 <= i < n
    ensures |r| == n
  {
    if n == 0 then {} else Below(n - 1) + {n - 1}
  }

  lemma FewerWithin(x: set<int>, y: set<int>)
    requires x <= y
    ensures |x| <= |y|
  {
    assert y == x + (y - x);
  }

  /** More numbers than there are hashes do not all differ. */
  lemma SomeRepeat(s: seq<int>)
    requires |s| > HASHES && forall i :: 0 <= i < |s| ==> 0 <= s[i] < HASHES
    ensures !Distinct(s)
  {
    FewerWithin(Elements(s), Below(HASHES));
    DistinctCount(s);
  }

  /** The `i`-th line of twenty digits. */
  function Digits(i: nat): Content {
    Text(Padded(i, 20))
  }

  lemma DigitsDiffer(i: nat, j: nat)
    requires i < j <= HASHES
    ensures Digits(i) != Digits(j)
  {
    hide Padded, AsciiNumber;
    ManyDigits();
    NumberOfPadded(i, 20);
    NumberOfPadded(j, 20);
  }

  lemma DigitsHaveNoId(i: nat)
    ensures IdOf(Digits(i)).None?
  {
    hide IdOf, Padded;
    ShortHasNoId(Padded(i, 20));
  }

  lemma ManyDigits()
    ensures Pow10(20) > HASHES
  {
    assert Pow10(5) == 100000;
    assert Pow10(10) == 10000000000;
    assert Pow10(15) == 1000000000000000;
  }

  lemma HashIsSmall(hash: Content -> int, line: Content)
    requires Is64Bit(hash)
    ensures 0 <= hash(line) < HASHES
  {
  }

  /** No hash into 64 bits, so not the one in use, keeps all lines without an id apart. */
  lemma HashesCollide(hash: Content -> int) returns (x: Content, y: Content)
    requires Is64Bit(hash)
    ensures x != y && IdOf(x).None? && IdOf(y).None? && hash(x) == hash(y)
  {
    hide IdOf, Digits, Is64Bit;
    var hashes := seq(HASHES + 1, i requires 0 <= i <= HASHES => hash(Digits(i)));
    forall k: nat | k <= HASHES ensures hashes[k] == hash(Digits(k)) && 0 <= hashes[k] < HASHES {
      HashIsSmall(hash, Digits(k));
    }
    SomeRepeat(hashes);
    var i, j :| 0 <= i < j < |hashes| && hashes[i] == hashes[j];
    x, y := Digits(i), Digits(j);
    DigitsDiffer(i, j);
    DigitsHaveNoId(i);
    DigitsHaveNoId(j);
  }

  /** The documented exact match fails of every 64-bit hash: some two different lines are one change. */
  lemma ExactMatchFails(hash: Content -> int) returns (x: Content, y: Content)
    requires Is64Bit(hash)
    ensures x != y && IdOf(x).None? && IdOf(y).None?
    ensures forall out :: DiffOf([x], [y], KeysOf(hash, [x]), KeysOf(hash, [y]), out) <==> out == [Change(0, 0)]
    ensures !AlwaysMatchesBytes(hash)
  {
    hide IdOf, DiffOf, AlwaysMatchesBytes, KeysOf;
    x, y := HashesCollide(hash);
    forall out ensures DiffOf([x], [y], KeysOf(hash, [x]), KeysOf(hash, [y]), out) <==> out == [Change(0, 0)] {
      CollisionIsChange(hash, x, y, out);
    }
    MatchesBytesIffInjective(hash);
  }
}

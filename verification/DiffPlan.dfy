/**
 A line diff as the daemon's mutations: edits, deletes from the bottom up and appends, or nothing for a
 diff they cannot express.
 */
module DiffPlan {
  import opened Lists
  import opened Wrappers
  import opened TodoLines
  import opened PlanCheck
  import opened LineDiffs
  import CompletePlan
  import ArchivePlan

  /** A line to delete, and whether a blank stays in its place. */
  datatype Deletion = Deletion(from: nat, leaveBlank: bool)

  /** The diff steps sorted into kinds of mutation; positions are the old file's. */
  datatype Sorted = Sorted(edits: seq<Mutation>, deletes: seq<Deletion>, adds: seq<Mutation>, blankInserts: seq<nat>)

  /** Each step names lines that exist. */
  predicate InFiles(diffs: seq<LineDiff>, before: Lines, after: Lines) {
    forall p :: 0 <= p < |diffs| ==> (diffs[p].HasFrom() ==> diffs[p].from < |before|) && (diffs[p].HasTo() ==> diffs[p].to < |after|)
  }

  /** A new line that is not blank. */
  predicate IsNewTask(d: LineDiff, after: Lines) {
    d.Insert? && d.to < |after| && !IsBlank(after[d.to])
  }

  /** The places in the new file of its new tasks, in the diff's order. */
  function NewTasks(diffs: seq<LineDiff>, after: Lines): seq<nat> {
    if diffs == [] then [] else
    var d := diffs[|diffs| - 1];
    NewTasks(diffs[..|diffs| - 1], after) + if IsNewTask(d, after) then [d.to] else []
  }

  function Least(s: seq<nat>): (r: Option<nat>)
    ensures r.None? <==> s == []
    ensures r.Some? ==> r.value in s && forall i :: 0 <= i < |s| ==> r.value <= s[i]
  {
    if s == [] then None else
    match Least(s[..|s| - 1])
    case None => Some(s[|s| - 1])
    case Some(least) => Some(if s[|s| - 1] < least then s[|s| - 1] else least)
  }

  function InsertsFrom(diffs: seq<LineDiff>, from: nat): nat {
    if diffs == [] then 0 else
    var d := diffs[|diffs| - 1];
    InsertsFrom(diffs[..|diffs| - 1], from) + if d.Insert? && d.to >= from then 1 else 0
  }

  /** Every line of the new file from `from` on is an insert. */
  predicate TailIsNew(diffs: seq<LineDiff>, after: Lines, from: nat) {
    InsertsFrom(diffs, from) == if from <= |after| then |after| - from else 0
  }

  /** One step sorted; nothing for a step no mutation expresses. */
  function SortStep(s: Sorted, d: LineDiff, before: Lines, after: Lines): Option<Sorted>
    requires (d.HasFrom() ==> d.from < |before|) && (d.HasTo() ==> d.to < |after|)
  {
    match d
    case Keep(_, _) => Some(s)
    case Change(from, to) =>
      if !after[to].Text? then None
      else Some(s.(edits := s.edits + [EditLine(TaskRefAt(before[from], NumberOf(from)), after[to].text)]))
    case Delete(from) => if IsBlank(before[from]) then None else Some(s.(deletes := s.deletes + [Deletion(from, false)]))
    case Insert(to) =>
      if IsBlank(after[to]) then Some(s.(blankInserts := s.blankInserts + [to]))
      else if !after[to].Text? then None
      else Some(s.(adds := s.adds + [AddLine(after[to].text)]))
    case Move(_, _) => None
  }

  /** The first `i` steps sorted. */
  function Classified(diffs: seq<LineDiff>, before: Lines, after: Lines, i: nat): Option<Sorted>
    requires InFiles(diffs, before, after) && i <= |diffs|
  {
    if i == 0 then Some(Sorted([], [], [], [])) else
    match Classified(diffs, before, after, i - 1)
    case None => None
    case Some(s) => SortStep(s, diffs[i - 1], before, after)
  }

  lemma {:induction false} ClassifiedStops(diffs: seq<LineDiff>, before: Lines, after: Lines, i: nat)
    requires InFiles(diffs, before, after) && i <= |diffs| && Classified(diffs, before, after, i).None?
    ensures Classified(diffs, before, after, |diffs|).None?
    decreases |diffs| - i
  {
    hide SortStep;
    if i < |diffs| {
      ClassifiedStops(diffs, before, after, i + 1);
    }
  }

  method Classify(diffs: seq<LineDiff>, before: Lines, after: Lines) returns (r: Option<Sorted>)
    requires InFiles(diffs, before, after)
    ensures r == Classified(diffs, before, after, |diffs|)
  {
    hide IsBlank, TaskRefAt, NumberOf;
    var s := Sorted([], [], [], []);
    for i := 0 to |diffs|
      invariant Classified(diffs, before, after, i) == Some(s)
    {
      var next: Option<Sorted> := None;
      match diffs[i] {
        case Keep(_, _) => next := Some(s);
        case Change(from, to) =>
          if after[to].Text? {
            next := Some(s.(edits := s.edits + [EditLine(TaskRefAt(before[from], NumberOf(from)), after[to].text)]));
          }
        case Delete(from) =>
          if !IsBlank(before[from]) {
            next := Some(s.(deletes := s.deletes + [Deletion(from, false)]));
          }
        case Insert(to) =>
          if IsBlank(after[to]) {
            next := Some(s.(blankInserts := s.blankInserts + [to]));
          } else if after[to].Text? {
            next := Some(s.(adds := s.adds + [AddLine(after[to].text)]));
          }
        case Move(_, _) =>
      }
      if next.None? {
        ClassifiedStops(diffs, before, after, i + 1);
        return None;
      }
      s := next.value;
    }
    return Some(s);
  }

  /** The first delete of line `b` not paired yet, or the length. */
  function SlotFor(deletes: seq<Deletion>, b: nat): (r: nat)
    ensures r <= |deletes| && (r < |deletes| ==> deletes[r] == Deletion(b, false))
    ensures forall q :: 0 <= q < r ==> deletes[q] != Deletion(b, false)
  {
    IndexOf(deletes, Deletion(b, false))
  }

  /** A blank inserted where a line was deleted is that line left blank; any other blank has no mutation. */
  function BlanksPaired(deletes: seq<Deletion>, blanks: seq<nat>): (r: Option<seq<Deletion>>)
    ensures r.Some? ==> |r.value| == |deletes| && forall q :: 0 <= q < |deletes| ==> r.value[q].from == deletes[q].from
  {
    if blanks == [] then Some(deletes) else
    match BlanksPaired(deletes, blanks[..|blanks| - 1])
    case None => None
    case Some(paired) =>
      var slot := SlotFor(paired, blanks[|blanks| - 1]);
      if slot == |paired| then None else Some(paired[slot := Deletion(paired[slot].from, true)])
  }

  lemma {:induction false} PairingStops(deletes: seq<Deletion>, blanks: seq<nat>, i: nat)
    requires i <= |blanks| && BlanksPaired(deletes, blanks[..i]).None?
    ensures BlanksPaired(deletes, blanks).None?
    decreases |blanks| - i
  {
    if i < |blanks| {
      assert blanks[..i + 1][..i] == blanks[..i];
      PairingStops(deletes, blanks, i + 1);
    } else {
      assert blanks[..i] == blanks;
    }
  }

  method PairBlanks(deletes: seq<Deletion>, blanks: seq<nat>) returns (r: Option<seq<Deletion>>)
    ensures r == BlanksPaired(deletes, blanks)
  {
    var paired := deletes;
    for i := 0 to |blanks|
      invariant BlanksPaired(deletes, blanks[..i]) == Some(paired)
    {
      assert blanks[..i + 1][..i] == blanks[..i];
      var slot := SlotFor(paired, blanks[i]);
      if slot == |paired| {
        PairingStops(deletes, blanks, i + 1);
        return None;
      }
      paired := paired[slot := Deletion(paired[slot].from, true)];
    }
    assert blanks[..|blanks|] == blanks;
    return Some(paired);
  }

  predicate Falling(s: seq<Deletion>) {
    forall i, j :: 0 <= i < j < |s| ==> s[i].from >= s[j].from
  }

  /** `x` put after every entry that is not above it. */
  function PutDown(s: seq<Deletion>, x: Deletion): (r: seq<Deletion>)
    requires Falling(s)
    ensures Falling(r) && |r| == |s| + 1
    ensures r[|s|] == if s != [] && s[|s| - 1].from < x.from then s[|s| - 1] else x
  {
    if s == [] || s[|s| - 1].from >= x.from then s + [x] else PutDown(s[..|s| - 1], x) + [s[|s| - 1]]
  }

  /** The deletes from the bottom of the file up. */
  function BottomUp(s: seq<Deletion>): (r: seq<Deletion>)
    ensures Falling(r) && |r| == |s|
  {
    if s == [] then [] else PutDown(BottomUp(s[..|s| - 1]), s[|s| - 1])
  }

  lemma {:induction false} PutDownAdds(s: seq<Deletion>, x: Deletion)
    requires Falling(s)
    ensures multiset(PutDown(s, x)) == multiset(s) + multiset{x}
  {
    if s != [] && s[|s| - 1].from < x.from {
      assert s == s[..|s| - 1] + [s[|s| - 1]];
      PutDownAdds(s[..|s| - 1], x);
    }
  }

  lemma {:induction false} BottomUpReorders(s: seq<Deletion>)
    ensures multiset(BottomUp(s)) == multiset(s)
  {
    if s != [] {
      assert s == s[..|s| - 1] + [s[|s| - 1]];
      BottomUpReorders(s[..|s| - 1]);
      PutDownAdds(BottomUp(s[..|s| - 1]), s[|s| - 1]);
    }
  }

  /** A delete below all the others comes first. */
  lemma {:induction false} LowestGoesFirst(s: seq<Deletion>, x: Deletion)
    requires Falling(s) && forall i :: 0 <= i < |s| ==> s[i].from < x.from
    ensures PutDown(s, x) == [x] + s
  {
    if s != [] {
      LowestGoesFirst(s[..|s| - 1], x);
    }
  }

  lemma BottomUpPush(s: seq<Deletion>, x: Deletion)
    requires forall i :: 0 <= i < |s| ==> s[i].from < x.from
    ensures BottomUp(s + [x]) == [x] + BottomUp(s)
  {
    hide PutDown, Falling;
    assert (s + [x])[..|s|] == s;
    BottomUpReorders(s);
    forall i | 0 <= i < |s| ensures BottomUp(s)[i].from < x.from {
      assert BottomUp(s)[i] in multiset(BottomUp(s));
      assert BottomUp(s)[i] in s;
    }
    LowestGoesFirst(BottomUp(s), x);
  }

  function DeleteAt(before: Lines, d: Deletion): Mutation
    requires d.from < |before|
  {
    DeleteTask(TaskRefAt(before[d.from], NumberOf(d.from)), d.leaveBlank)
  }

  predicate AllIn(deletes: seq<Deletion>, before: Lines) {
    forall q :: 0 <= q < |deletes| ==> deletes[q].from < |before|
  }

  function DeletesAt(before: Lines, deletes: seq<Deletion>): (r: seq<Mutation>)
    requires AllIn(deletes, before)
    ensures |r| == |deletes| && forall q :: 0 <= q < |r| ==> r[q] == DeleteAt(before, deletes[q])
  {
    seq(|deletes|, q requires 0 <= q < |deletes| => DeleteAt(before, deletes[q]))
  }

  // ---- deletes of the lines marked as gone ----

  /** The lines marked gone among the first `i`, as deletes. */
  ghost function Deletes(gone: seq<bool>, leaveBlank: bool, i: nat): (r: seq<Deletion>)
    requires i <= |gone|
    ensures forall q :: 0 <= q < |r| ==> r[q].from < i && r[q].leaveBlank == leaveBlank
  {
    if i == 0 then [] else Deletes(gone, leaveBlank, i - 1) + if gone[i - 1] then [Deletion(i - 1, leaveBlank)] else []
  }

  /** The same deletes, each after those below it. */
  ghost function Up(gone: seq<bool>, leaveBlank: bool, i: nat): (r: seq<Deletion>)
    requires i <= |gone|
    ensures forall q :: 0 <= q < |r| ==> r[q].from < i
  {
    if i == 0 then [] else (if gone[i - 1] then [Deletion(i - 1, leaveBlank)] else []) + Up(gone, leaveBlank, i - 1)
  }

  lemma {:induction false} NothingGone(gone: seq<bool>, leaveBlank: bool, i: nat)
    requires i <= |gone| && forall k :: 0 <= k < i ==> !gone[k]
    ensures Deletes(gone, leaveBlank, i) == []
  {
    if i > 0 {
      NothingGone(gone, leaveBlank, i - 1);
    }
  }

  lemma {:induction false} BottomUpIsUp(gone: seq<bool>, leaveBlank: bool, i: nat)
    requires i <= |gone|
    ensures BottomUp(Deletes(gone, leaveBlank, i)) == Up(gone, leaveBlank, i)
  {
    hide PutDown, Falling;
    if i > 0 {
      hide BottomUp;
      BottomUpIsUp(gone, leaveBlank, i - 1);
      if gone[i - 1] {
        BottomUpPush(Deletes(gone, leaveBlank, i - 1), Deletion(i - 1, leaveBlank));
      } else {
        assert Deletes(gone, leaveBlank, i) == Deletes(gone, leaveBlank, i - 1);
        UpKeeps(gone, leaveBlank, i - 1);
      }
    }
  }

  lemma UpKeeps(gone: seq<bool>, leaveBlank: bool, i: nat)
    requires i < |gone| && !gone[i]
    ensures Up(gone, leaveBlank, i + 1) == Up(gone, leaveBlank, i)
  {
  }

  lemma UpMore(gone: seq<bool>, leaveBlank: bool, i: nat)
    requires i < |gone| && gone[i]
    ensures Up(gone, leaveBlank, i + 1) == [Deletion(i, leaveBlank)] + Up(gone, leaveBlank, i)
  {
  }

  lemma UpIn(gone: seq<bool>, leaveBlank: bool, i: nat, before: Lines)
    requires i <= |gone| && i <= |before|
    ensures AllIn(Up(gone, leaveBlank, i), before)
  {
  }

  /** The lowest delete goes first, under the number the old file gave its line. */
  lemma LowestDeleted(before: Lines, lines: Lines, gone: seq<bool>, leaveBlank: bool, i: nat)
    requires i < |gone| && gone[i] && i < |before| && AllIn(Up(gone, leaveBlank, i), before)
    ensures AllIn(Up(gone, leaveBlank, i + 1), before)
    ensures Replayed(lines, DeletesAt(before, Up(gone, leaveBlank, i + 1)))
         == match Step(lines, DeleteAt(before, Deletion(i, leaveBlank)))
            case None => None
            case Some(lines') => Replayed(lines', DeletesAt(before, Up(gone, leaveBlank, i)))
  {
    hide Step, Replayed, Up, TaskRefAt, NumberOf;
    UpMore(gone, leaveBlank, i);
    var m, ups := DeleteAt(before, Deletion(i, leaveBlank)), Up(gone, leaveBlank, i);
    assert AllIn([Deletion(i, leaveBlank)] + ups, before);
    assert DeletesAt(before, [Deletion(i, leaveBlank)] + ups) == [m] + DeletesAt(before, ups);
    ReplayedFirst(m, DeletesAt(before, ups), lines);
  }

  lemma NoDeletesAt(before: Lines)
    ensures DeletesAt(before, []) == []
  {
  }

  lemma {:induction false} NoNewTasks(diffs: seq<LineDiff>, after: Lines)
    requires forall q :: 0 <= q < |diffs| ==> !IsNewTask(diffs[q], after)
    ensures NewTasks(diffs, after) == []
  {
    hide IsNewTask;
    if diffs != [] {
      NoNewTasks(diffs[..|diffs| - 1], after);
    }
  }

  /** The mutations of the sorted steps: edits, deletes bottom up, adds. */
  function FromSorted(s: Sorted, before: Lines): Option<seq<Mutation>>
    requires AllIn(s.deletes, before)
  {
    if s.deletes != [] && s.adds != [] then None else
    match BlanksPaired(s.deletes, s.blankInserts)
    case None => None
    case Some(paired) =>
      PairedIn(s.deletes, s.blankInserts, before);
      Some(s.edits + DeletesAt(before, BottomUp(paired)) + s.adds)
  }

  lemma PairedIn(deletes: seq<Deletion>, blanks: seq<nat>, before: Lines)
    requires AllIn(deletes, before) && BlanksPaired(deletes, blanks).Some?
    ensures AllIn(BottomUp(BlanksPaired(deletes, blanks).value), before)
  {
    hide BlanksPaired;
    var paired := BlanksPaired(deletes, blanks).value;
    BottomUpReorders(paired);
    forall q | 0 <= q < |paired| ensures BottomUp(paired)[q].from < |before| {
      assert BottomUp(paired)[q] in multiset(BottomUp(paired));
      assert BottomUp(paired)[q] in paired;
    }
  }

  lemma {:induction false} SortedIn(diffs: seq<LineDiff>, before: Lines, after: Lines, i: nat)
    requires InFiles(diffs, before, after) && i <= |diffs| && Classified(diffs, before, after, i).Some?
    ensures AllIn(Classified(diffs, before, after, i).value.deletes, before)
  {
    hide IsBlank, TaskRefAt, NumberOf;
    if i > 0 {
      SortedIn(diffs, before, after, i - 1);
    }
  }

  /** What a diff is sent as, before it is checked. */
  function FromDiff(diffs: seq<LineDiff>, before: Lines, after: Lines): Option<seq<Mutation>>
    requires InFiles(diffs, before, after)
  {
    var first := Least(NewTasks(diffs, after));
    if first.Some? && !TailIsNew(diffs, after, first.value) then None else
    match Classified(diffs, before, after, |diffs|)
    case None => None
    case Some(s) =>
      SortedIn(diffs, before, after, |diffs|);
      FromSorted(s, before)
  }

  method PlanFromDiff(diffs: seq<LineDiff>, before: Lines, after: Lines) returns (r: Option<seq<Mutation>>)
    requires InFiles(diffs, before, after)
    ensures r == FromDiff(diffs, before, after)
  {
    hide NewTasks, TailIsNew, Classified, BlanksPaired, BottomUp, DeletesAt;
    var first := Least(NewTasks(diffs, after));
    if first.Some? && !TailIsNew(diffs, after, first.value) {
      return None;
    }
    var s := Classify(diffs, before, after);
    if s.None? || (s.value.deletes != [] && s.value.adds != []) {
      return None;
    }
    SortedIn(diffs, before, after, |diffs|);
    var paired := PairBlanks(s.value.deletes, s.value.blankInserts);
    if paired.None? {
      return None;
    }
    PairedIn(s.value.deletes, s.value.blankInserts, before);
    return Some(s.value.edits + DeletesAt(before, BottomUp(paired.value)) + s.value.adds);
  }

  // ---- a line that stays ----

  /** A line kept, or changed under its id. */
  predicate Carried(was: Content, line: Content) {
    was == line || (IdOf(was).Some? && IdOf(line) == IdOf(was))
  }

  lemma CarriedKeepsKey(hash: Content -> int, was: Content, line: Content)
    requires Carried(was, line)
    ensures KeyOf(hash, line) == KeyOf(hash, was) && (IsEmpty(line) <==> IsEmpty(was))
    ensures line == was || (line.Text? && !IsEmpty(line))
  {
    hide IdOf;
    LinesWithIdsAreTasks(was);
    LinesWithIdsAreTasks(line);
  }

  // ---- a delete never goes out with an append ----

  /** A rewritten line sent as a delete and an append would lose its history. */
  ghost predicate Mixes(muts: seq<Mutation>) {
    (exists i :: 0 <= i < |muts| && muts[i].DeleteTask?) && (exists i :: 0 <= i < |muts| && muts[i].AddLine?)
  }

  lemma {:induction false} SortedByKind(diffs: seq<LineDiff>, before: Lines, after: Lines, i: nat)
    requires InFiles(diffs, before, after) && i <= |diffs| && Classified(diffs, before, after, i).Some?
    ensures var s := Classified(diffs, before, after, i).value;
            (forall k :: 0 <= k < |s.edits| ==> s.edits[k].EditLine?) && (forall k :: 0 <= k < |s.adds| ==> s.adds[k].AddLine?)
  {
    hide IsBlank, TaskRefAt, NumberOf;
    if i > 0 {
      SortedByKind(diffs, before, after, i - 1);
    }
  }

  lemma DiffNeverMixes(diffs: seq<LineDiff>, before: Lines, after: Lines)
    requires InFiles(diffs, before, after) && FromDiff(diffs, before, after).Some?
    ensures !Mixes(FromDiff(diffs, before, after).value)
  {
    hide NewTasks, TailIsNew, Classified, BlanksPaired, BottomUp;
    SortedByKind(diffs, before, after, |diffs|);
  }

  lemma {:induction false} CompletionsOnly(before: Lines, after: Lines, newKeys: seq<CompletePlan.Key>, i: nat)
    requires i <= |before| && |newKeys| == |after| && CompletePlan.Planned(before, after, newKeys, i).Some?
    ensures var out := CompletePlan.Planned(before, after, newKeys, i).value.out;
            forall k :: 0 <= k < |out| ==> out[k].CompleteTask?
  {
    hide CompletePlan.Counterpart, CompletePlan.CompletionOf, TaskRefAt;
    if i > 0 {
      CompletionsOnly(before, after, newKeys, i - 1);
    }
  }

  lemma {:induction false} EditsOnly(before: Lines, after: Lines, oldIds: seq<Ulid>, newIds: seq<Ulid>, i: nat)
    requires |oldIds| == |before| && |newIds| == |after| && i <= |before|
    requires ArchivePlan.EditsOf(before, after, oldIds, newIds, i).Some?
    ensures var out := ArchivePlan.EditsOf(before, after, oldIds, newIds, i).value;
            forall k :: 0 <= k < |out| ==> out[k].EditLine?
  {
    hide TaskRefAt, NumberOf;
    if i > 0 {
      EditsOnly(before, after, oldIds, newIds, i - 1);
    }
  }

  lemma {:induction false} MovesOnly(before: Lines, oldIds: seq<Ulid>, done: set<Ulid>, i: nat)
    requires |oldIds| == |before| && i <= |before| && ArchivePlan.MovesOf(before, oldIds, done, i).Some?
    ensures var out := ArchivePlan.MovesOf(before, oldIds, done, i).value;
            forall k :: 0 <= k < |out| ==> out[k].MoveToEnd?
  {
    hide TaskRefAt;
    if i > 0 {
      MovesOnly(before, oldIds, done, i - 1);
    }
  }

  lemma PlansNeverMix(before: Lines, after: Lines)
    ensures CompletePlan.PlanOf(before, after).Some? ==> !Mixes(CompletePlan.PlanOf(before, after).value)
    ensures ArchivePlan.PlanOf(before, after).Some? ==> !Mixes(ArchivePlan.PlanOf(before, after).value)
  {
    hide IdOf, CompletePlan.KeysOf, CompletePlan.Planned, ArchivePlan.IdsOf, ArchivePlan.EditsOf, ArchivePlan.MovesOf;
    hide ArchivePlan.Part, ArchivePlan.DoneIds;
    if CompletePlan.PlanOf(before, after).Some? {
      CompletionsOnly(before, after, CompletePlan.KeysOf(after).value, |before|);
    }
    if ArchivePlan.PlanOf(before, after).Some? {
      var oldIds, newIds := ArchivePlan.IdsOf(before).value, ArchivePlan.IdsOf(after).value;
      EditsOnly(before, after, oldIds, newIds, |before|);
      MovesOnly(before, oldIds, ArchivePlan.DoneIds(after, newIds), |before|);
    }
  }
}

/** Which lines a plan names: each of its references carries the number that a line of the old file has, and that line's id. */
module PlanRefs {
  import opened Wrappers
  import opened TodoLines
  import Dates
  import opened PlanCheck
  import opened LineDiffs
  import opened DiffPlan
  import CompletePlan
  import ArchivePlan

  /** How many of the first `j` mutations sent a line to the end, so that those below it moved up. */
  function Sunk(muts: seq<Mutation>, j: nat): (r: nat)
    requires j <= |muts|
    ensures r <= j
  {
    if j == 0 then 0 else Sunk(muts, j - 1) + if muts[j - 1].CompleteTask? || muts[j - 1].MoveToEnd? then 1 else 0
  }

  /** A reference carries the id of line `k` of a file, or nothing for a line without one. */
  ghost predicate HasIdOf(before: Lines, task: TaskRef, k: nat) {
    k < |before| && task.taskId == match IdOf(before[k]) case Some(u) => u case None => ""
  }

  /** It names line `k` where it stands. */
  ghost predicate NamesInPlace(before: Lines, task: TaskRef, k: nat) {
    HasIdOf(before, task, k) && task.lineNumber == NumberOf(k)
  }

  /** It names line `k` under the number it has when so many lines above it have gone. */
  ghost predicate NamesRisen(before: Lines, task: TaskRef, k: nat, sunk: nat) {
    HasIdOf(before, task, k) && task.lineNumber + sunk == k + 1
  }

  /** What one mutation of a plan names; `sunk` lines have gone to the end before it. */
  ghost predicate NamesLine(before: Lines, m: Mutation, sunk: nat) {
    match m
    case EditLine(task, _) => exists k :: NamesInPlace(before, task, k)
    case DeleteTask(task, _) => exists k :: NamesInPlace(before, task, k)
    case CompleteTask(task, _) => exists k :: NamesRisen(before, task, k, sunk)
    case MoveToEnd(task) => exists k :: NamesRisen(before, task, k, sunk)
    case _ => true
  }

  /** Every mutation of a plan names the line it is about by its number and its id. */
  ghost predicate NamesOldLines(before: Lines, muts: seq<Mutation>) {
    forall j :: 0 <= j < |muts| ==> NamesLine(before, muts[j], Sunk(muts, j))
  }

  lemma RefNames(before: Lines, k: nat, number: nat)
    requires k < |before|
    ensures HasIdOf(before, TaskRefAt(before[k], number), k) && TaskRefAt(before[k], number).lineNumber == number
  {
    hide IdOf;
  }

  lemma {:induction false} SunkPrefix(ms: seq<Mutation>, ns: seq<Mutation>, j: nat)
    requires j <= |ms|
    ensures Sunk(ms + ns, j) == Sunk(ms, j)
  {
    if j > 0 {
      SunkPrefix(ms, ns, j - 1);
    }
  }

  lemma {:induction false} SunkLater(ms: seq<Mutation>, ns: seq<Mutation>, j: nat)
    requires j <= |ns|
    ensures Sunk(ms + ns, |ms| + j) == Sunk(ms, |ms|) + Sunk(ns, j)
  {
    if j == 0 {
      SunkPrefix(ms, ns, |ms|);
    } else {
      SunkLater(ms, ns, j - 1);
      assert (ms + ns)[|ms| + j - 1] == ns[j - 1];
    }
  }

  /** Nothing sinks in a list of edits and deletes, whatever order they are in. */
  predicate InPlaceOnly(muts: seq<Mutation>) {
    forall j :: 0 <= j < |muts| ==> !muts[j].CompleteTask? && !muts[j].MoveToEnd?
  }

  lemma {:induction false} NoneSunk(muts: seq<Mutation>, j: nat)
    requires j <= |muts| && InPlaceOnly(muts)
    ensures Sunk(muts, j) == 0
  {
    if j > 0 {
      NoneSunk(muts, j - 1);
    }
  }

  lemma NamesBoth(before: Lines, ms: seq<Mutation>, ns: seq<Mutation>)
    requires NamesOldLines(before, ms) && NamesOldLines(before, ns) && InPlaceOnly(ms)
    ensures NamesOldLines(before, ms + ns)
  {
    hide NamesLine, InPlaceOnly, Sunk;
    NoneSunk(ms, |ms|);
    forall j | 0 <= j < |ms + ns| ensures NamesLine(before, (ms + ns)[j], Sunk(ms + ns, j)) {
      if j < |ms| {
        SunkPrefix(ms, ns, j);
      } else {
        SunkLater(ms, ns, j - |ms|);
      }
    }
  }

  lemma NamesPush(before: Lines, ms: seq<Mutation>, m: Mutation)
    requires NamesOldLines(before, ms) && NamesLine(before, m, Sunk(ms, |ms|))
    ensures NamesOldLines(before, ms + [m])
  {
    hide NamesLine, Sunk;
    forall j | 0 <= j < |ms + [m]| ensures NamesLine(before, (ms + [m])[j], Sunk(ms + [m], j)) {
      SunkPrefix(ms, [m], j);
    }
  }

  lemma SunkMore(ms: seq<Mutation>, m: Mutation)
    ensures Sunk(ms + [m], |ms + [m]|) == Sunk(ms, |ms|) + if m.CompleteTask? || m.MoveToEnd? then 1 else 0
  {
    SunkPrefix(ms, [m], |ms|);
  }

  lemma NamesEdit(before: Lines, k: nat, line: string, leaveBlank: bool, sunk: nat)
    requires k < |before|
    ensures NamesLine(before, EditLine(TaskRefAt(before[k], NumberOf(k)), line), sunk)
    ensures NamesLine(before, DeleteTask(TaskRefAt(before[k], NumberOf(k)), leaveBlank), sunk)
  {
    hide TaskRefAt, NumberOf, HasIdOf;
    RefNames(before, k, NumberOf(k));
    var task := TaskRefAt(before[k], NumberOf(k));
    assert NamesInPlace(before, task, k);
  }

  lemma NamesMove(before: Lines, k: nat, number: nat, today: string, sunk: nat)
    requires k < |before| && number + sunk == k + 1
    ensures NamesLine(before, CompleteTask(TaskRefAt(before[k], number), today), sunk)
    ensures NamesLine(before, MoveToEnd(TaskRefAt(before[k], number)), sunk)
  {
    hide TaskRefAt, HasIdOf;
    RefNames(before, k, number);
    var task := TaskRefAt(before[k], number);
    assert NamesRisen(before, task, k, sunk);
  }

  // ---- each planner ----

  lemma {:induction false} CompletionsName(before: Lines, after: Lines, newKeys: seq<CompletePlan.Key>, i: nat)
    requires i <= |before| && |newKeys| == |after| && CompletePlan.Planned(before, after, newKeys, i).Some?
    ensures var p := CompletePlan.Planned(before, after, newKeys, i).value;
            NamesOldLines(before, p.out) && Sunk(p.out, |p.out|) == |p.done|
  {
    hide CompletePlan.Counterpart, CompletePlan.PlanLine, TaskRefAt, NamesOldLines, Sunk;
    if i == 0 {
      NothingNamed(before);
    } else {
      CompletionsName(before, after, newKeys, i - 1);
      var p := CompletePlan.Planned(before, after, newKeys, i - 1).value;
      var at := CompletePlan.Counterpart(before[i - 1], after, newKeys).value;
      CompletionNames(before, after, p, i - 1, at);
    }
  }

  lemma CompletionNames(before: Lines, after: Lines, p: CompletePlan.Progress, i: nat, at: nat)
    requires i < |before| && at < |after| && NamesOldLines(before, p.out) && Sunk(p.out, |p.out|) == |p.done|
    requires CompletePlan.PlanLine(p, i, before[i], after, at).Some?
    ensures var q := CompletePlan.PlanLine(p, i, before[i], after, at).value;
            NamesOldLines(before, q.out) && Sunk(q.out, |q.out|) == |q.done|
  {
    hide *;
    if after[at] == before[i] {
      CompletePlan.PlanLineOpen(p, i, before[i], after, at);
    } else {
      CompletePlan.PlanLineDone(p, i, before[i], after, at);
      CompletionAdded(before, p, i, Dates.ShowDate(CompletePlan.CompletionOf(before[i], after[at]).value));
    }
  }

  lemma CompletionAdded(before: Lines, p: CompletePlan.Progress, i: nat, today: string)
    requires i < |before| && |p.done| <= i && NamesOldLines(before, p.out) && Sunk(p.out, |p.out|) == |p.done|
    ensures var out := p.out + [CompleteTask(TaskRefAt(before[i], i - |p.done| + 1), today)];
            NamesOldLines(before, out) && Sunk(out, |out|) == |p.done| + 1
  {
    hide TaskRefAt, NamesOldLines, Sunk, NamesLine;
    var m := CompleteTask(TaskRefAt(before[i], i - |p.done| + 1), today);
    NamesMove(before, i, i - |p.done| + 1, today, |p.done|);
    NamesPush(before, p.out, m);
    SunkMore(p.out, m);
  }

  lemma NothingNamed(before: Lines)
    ensures NamesOldLines(before, []) && Sunk([], 0) == 0
  {
  }

  lemma {:induction false} EditsName(before: Lines, after: Lines, oldIds: seq<Ulid>, newIds: seq<Ulid>, i: nat)
    requires |oldIds| == |before| && |newIds| == |after| && i <= |before|
    requires ArchivePlan.EditsOf(before, after, oldIds, newIds, i).Some?
    ensures var out := ArchivePlan.EditsOf(before, after, oldIds, newIds, i).value;
            NamesOldLines(before, out) && InPlaceOnly(out)
  {
    hide TaskRefAt, NumberOf, NamesOldLines, Sunk, NamesLine;
    if i == 0 {
      NothingNamed(before);
    } else {
      EditsName(before, after, oldIds, newIds, i - 1);
      var was := ArchivePlan.EditsOf(before, after, oldIds, newIds, i - 1).value;
      var out := ArchivePlan.EditsOf(before, after, oldIds, newIds, i).value;
      if out != was {
        var m := out[|was|];
        assert out == was + [m];
        NamesEdit(before, i - 1, m.newLine, false, Sunk(was, |was|));
        NamesPush(before, was, m);
      }
    }
  }

  lemma {:induction false} MovesName(before: Lines, oldIds: seq<Ulid>, done: set<Ulid>, i: nat)
    requires |oldIds| == |before| && i <= |before| && ArchivePlan.MovesOf(before, oldIds, done, i).Some?
    ensures var out := ArchivePlan.MovesOf(before, oldIds, done, i).value;
            NamesOldLines(before, out) && Sunk(out, |out|) == |out|
  {
    hide TaskRefAt, NamesOldLines, Sunk, NamesLine;
    if i == 0 {
      NothingNamed(before);
    } else {
      MovesName(before, oldIds, done, i - 1);
      var was := ArchivePlan.MovesOf(before, oldIds, done, i - 1).value;
      var out := ArchivePlan.MovesOf(before, oldIds, done, i).value;
      if out != was {
        var m := out[|was|];
        assert out == was + [m];
        NamesMove(before, i - 1, i - |was|, "", |was|);
        NamesPush(before, was, m);
        SunkMore(was, m);
      }
    }
  }

  lemma {:induction false} SortedName(diffs: seq<LineDiff>, before: Lines, after: Lines, i: nat)
    requires InFiles(diffs, before, after) && i <= |diffs| && Classified(diffs, before, after, i).Some?
    ensures var s := Classified(diffs, before, after, i).value;
            NamesOldLines(before, s.edits) && InPlaceOnly(s.edits) && NamesOldLines(before, s.adds)
  {
    hide IsBlank, TaskRefAt, NumberOf, NamesOldLines, Sunk;
    if i == 0 {
      NothingNamed(before);
    } else {
      SortedName(diffs, before, after, i - 1);
      var s := Classified(diffs, before, after, i - 1).value;
      var d := diffs[i - 1];
      if d.Change? {
        NamesEdit(before, d.from, after[d.to].text, false, Sunk(s.edits, |s.edits|));
        NamesPush(before, s.edits, EditLine(TaskRefAt(before[d.from], NumberOf(d.from)), after[d.to].text));
      } else if d.Insert? && !IsBlank(after[d.to]) {
        NamesPush(before, s.adds, AddLine(after[d.to].text));
      }
    }
  }

  lemma DeletesName(before: Lines, deletes: seq<Deletion>)
    requires AllIn(deletes, before)
    ensures NamesOldLines(before, DeletesAt(before, deletes)) && InPlaceOnly(DeletesAt(before, deletes))
  {
    hide TaskRefAt, NumberOf, NamesLine, Sunk;
    var muts := DeletesAt(before, deletes);
    forall q | 0 <= q < |muts| ensures NamesLine(before, muts[q], Sunk(muts, q)) {
      NamesEdit(before, deletes[q].from, "", deletes[q].leaveBlank, Sunk(muts, q));
    }
  }

  lemma DiffNames(diffs: seq<LineDiff>, before: Lines, after: Lines)
    requires InFiles(diffs, before, after) && FromDiff(diffs, before, after).Some?
    ensures NamesOldLines(before, FromDiff(diffs, before, after).value)
  {
    hide NewTasks, TailIsNew, Classified, BlanksPaired, BottomUp, NamesOldLines, DeletesAt;
    SortedName(diffs, before, after, |diffs|);
    SortedIn(diffs, before, after, |diffs|);
    var s := Classified(diffs, before, after, |diffs|).value;
    PairedIn(s.deletes, s.blankInserts, before);
    var ups := BottomUp(BlanksPaired(s.deletes, s.blankInserts).value);
    DeletesName(before, ups);
    NamesBoth(before, s.edits, DeletesAt(before, ups));
    NamesBoth(before, s.edits + DeletesAt(before, ups), s.adds);
  }

  lemma OtherPlansName(before: Lines, after: Lines)
    ensures CompletePlan.PlanOf(before, after).Some? ==> NamesOldLines(before, CompletePlan.PlanOf(before, after).value)
    ensures ArchivePlan.PlanOf(before, after).Some? ==> NamesOldLines(before, ArchivePlan.PlanOf(before, after).value)
  {
    hide IdOf, CompletePlan.KeysOf, CompletePlan.Planned, ArchivePlan.IdsOf, ArchivePlan.EditsOf, ArchivePlan.MovesOf;
    hide ArchivePlan.Part, ArchivePlan.DoneIds, NamesOldLines;
    if CompletePlan.PlanOf(before, after).Some? {
      CompletionsName(before, after, CompletePlan.KeysOf(after).value, |before|);
    }
    if ArchivePlan.PlanOf(before, after).Some? {
      var oldIds, newIds := ArchivePlan.IdsOf(before).value, ArchivePlan.IdsOf(after).value;
      var done := ArchivePlan.DoneIds(after, newIds);
      EditsName(before, after, oldIds, newIds, |before|);
      MovesName(before, oldIds, done, |before|);
      NamesBoth(before, ArchivePlan.EditsOf(before, after, oldIds, newIds, |before|).value,
                ArchivePlan.MovesOf(before, oldIds, done, |before|).value);
    }
  }
}

/**
 What a command's effect on a file is sent to the daemon as: a completion, an archive, or the line diff.
 Nothing is sent that does not reproduce the new file.
 */
module DaemonMode {
  import opened Wrappers
  import opened TodoLines
  import opened PlanCheck
  import opened LineEdits
  import opened LineDiffs
  import opened DiffPlan
  import opened InPlacePlans
  import opened AlignedPlans
  import opened PlanRefs
  import CompletePlan
  import ArchivePlan

  /** A plan, when it reproduces the new file. */
  function Checked(before: Lines, after: Lines, plan: Option<seq<Mutation>>): Option<seq<Mutation>> {
    if plan.Some? && Reproduces(before, after, plan.value) then plan else None
  }

  /** The plan read off some line diff of the two files. */
  ghost predicate IsDiffPlan(hash: Content -> int, before: Lines, after: Lines, r: Option<seq<Mutation>>) {
    exists out :: DiffOf(before, after, KeysOf(hash, before), KeysOf(hash, after), out) && InFiles(out, before, after)
               && r == Checked(before, after, FromDiff(out, before, after))
  }

  /**
   The mutations that turn `before` into `after`, or nothing. What is sent always reproduces the new file;
   lines that only changed where they stand are sent if every number fits, lines left out if and only if no
   blank is among them, tasks appended if and only if the old file did not end in a blank, and tasks blanked
   beside lines with keys of their own always. Every line a plan names is an old one, by its number and its id.
   */
  method PlanMutations(hash: Content -> int, before: Lines, after: Lines) returns (r: Option<seq<Mutation>>)
    ensures r.Some? ==> Reproduces(before, after, r.value)
    ensures CompletePlan.PlanOf(before, after).Some? ==> r == CompletePlan.PlanOf(before, after)
    ensures CompletePlan.PlanOf(before, after).None? && ArchivePlan.PlanOf(before, after).Some? ==>
              r == if ArchivePlan.ChangesFit(before, after) then ArchivePlan.PlanOf(before, after) else None
    ensures CompletePlan.PlanOf(before, after).None? && ArchivePlan.PlanOf(before, after).None? ==>
              IsDiffPlan(hash, before, after, r)
    ensures SameOrder(before, after) ==>
              (r.Some? <==> CompletePlan.PlanOf(before, after).Some? || Addressable(before, after, |before|))
    ensures Blanked(hash, before, after) && |before| <= U32_MAX ==> r.Some?
    ensures Shrunk(hash, before, after) && |before| <= U32_MAX ==> (r.Some? <==> BlankCount(before) == BlankCount(after))
    ensures Appended(before, after) && |before| <= U32_MAX ==> (r.Some? <==> |before| == |after| || EndsInTask(before))
    ensures r.Some? ==> !Mixes(r.value)
    ensures r.Some? ==> NamesOldLines(before, r.value)
  {
    hide Mixes, NamesOldLines;
    hide Reproduces, FromDiff, DiffOf, ArchivePlan.PlanOf, CompletePlan.PlanOf, SameOrder, Shrunk, Appended, Blanked, Addressable;
    hide ArchivePlan.ChangesFit, KeysOf, InFiles, EndsInTask, BlankCount;
    PlansNeverMix(before, after);
    OtherPlansName(before, after);
    AddedIsNoOtherPlan(before, after);
    OtherPlansAreOfTasks(before, after);
    var completed := CompletePlan.Plan(before, after);
    if completed.Some? {
      CompletePlan.PlanReproduces(before, after);
      return completed;
    }
    var archived := ArchivePlan.Plan(before, after);
    if archived.Some? {
      ArchivePlan.PlanReproduces(before, after);
      ArchivedCases(before, after);
      return Checked(before, after, archived);
    }
    var out := DiffLines(hash, before, after);
    DiffOfInFiles(before, after, KeysOf(hash, before), KeysOf(hash, after), out);
    var plan := PlanFromDiff(out, before, after);
    DiffCases(hash, before, after, out);
    if plan.Some? {
      DiffNeverMixes(out, before, after);
      DiffNames(out, before, after);
    }
    return Checked(before, after, plan);
  }

  lemma DiffOfInFiles(before: Lines, after: Lines, ka: seq<Key>, kb: seq<Key>, out: seq<LineDiff>)
    requires |ka| == |before| && |kb| == |after| && DiffOf(before, after, ka, kb, out)
    ensures InFiles(out, before, after)
  {
    DiffInFiles(before, after, ka, kb, out);
  }

  lemma ArchivedCases(before: Lines, after: Lines)
    requires ArchivePlan.PlanOf(before, after).Some?
    ensures !SameOrder(before, after)
    ensures |before| <= U32_MAX ==> ArchivePlan.ChangesFit(before, after)
  {
    hide ArchivePlan.PlanOf, SameOrder, ArchivePlan.Changes;
    if SameOrder(before, after) {
      SameOrderIsNotArchived(before, after);
    }
  }

  lemma DiffCases(hash: Content -> int, before: Lines, after: Lines, out: seq<LineDiff>)
    requires DiffOf(before, after, KeysOf(hash, before), KeysOf(hash, after), out) && InFiles(out, before, after)
    requires KeysOf(hash, before) == KeysOf(hash, after)
             ==> |out| == |before| == |after| && forall i :: 0 <= i < |before| ==> out[i] == InPlace(before, after, i)
    ensures var plan := FromDiff(out, before, after);
            && (SameOrder(before, after) ==>
                  (plan.Some? && Reproduces(before, after, plan.value) <==> Addressable(before, after, |before|)))
            && (Blanked(hash, before, after) && |before| <= U32_MAX ==> plan.Some? && Reproduces(before, after, plan.value))
            && (Shrunk(hash, before, after) && |before| <= U32_MAX ==>
                  (plan.Some? && Reproduces(before, after, plan.value) <==> BlankCount(before) == BlankCount(after)))
            && (Appended(before, after) && |before| <= U32_MAX ==>
                  plan.Some? && (Reproduces(before, after, plan.value) <==> |before| == |after| || EndsInTask(before)))
  {
    hide FromDiff, DiffOf, SameOrder, Shrunk, Appended, Blanked, Addressable, KeysOf, InFiles, Editable, InPlace, EndsInTask, BlankCount;
    if SameOrder(before, after) {
      SameOrderSameKeys(hash, before, after);
      SameLength(before, after);
      SameOrderIsEdits(before, after, out);
      EditsReachTarget(before, after);
    }
    if |before| <= U32_MAX {
      if Shrunk(hash, before, after) {
        ShrunkIsPlanned(hash, before, after, out);
      }
      if Blanked(hash, before, after) {
        BlankedIsPlanned(hash, before, after, out);
      }
      if Appended(before, after) {
        AppendedIsPlanned(hash, before, after, out);
      }
    }
  }

  /** A file that gained lines, and ended in a blank before, is neither completed nor archived. */
  lemma AddedIsNoOtherPlan(before: Lines, after: Lines)
    ensures |before| != |after| ==> CompletePlan.PlanOf(before, after).None?
    ensures !EndsInTask(before) ==> ArchivePlan.PlanOf(before, after).None?
  {
    hide IdOf, CompletePlan.Planned, ArchivePlan.EditsOf, ArchivePlan.MovesOf, ArchivePlan.Part, ArchivePlan.DoneIds;
    if !EndsInTask(before) {
      LinesWithIdsAreTasks(before[|before| - 1]);
    }
  }

  /** Files that are completed or archived have no blank lines. */
  lemma OtherPlansAreOfTasks(before: Lines, after: Lines)
    ensures CompletePlan.PlanOf(before, after).Some? || ArchivePlan.PlanOf(before, after).Some? ==>
              BlankCount(before) == BlankCount(after) == 0
  {
    hide IdOf, CompletePlan.KeyOf, CompletePlan.Planned, ArchivePlan.EditsOf, ArchivePlan.MovesOf, ArchivePlan.Part, ArchivePlan.DoneIds;
    hide CompletePlan.AllKeyed, ArchivePlan.AllIdentified, NoneEmpty;
    if CompletePlan.PlanOf(before, after).Some? {
      CompletePlan.KeyedLinesAreTasks(before);
      CompletePlan.KeyedLinesAreTasks(after);
      NoBlanks(before);
      NoBlanks(after);
    } else if ArchivePlan.PlanOf(before, after).Some? {
      ArchivePlan.IdentifiedAreTasks(before);
      ArchivePlan.IdentifiedAreTasks(after);
      NoBlanks(before);
      NoBlanks(after);
    }
  }

  lemma SameLength(before: Lines, after: Lines)
    requires SameOrder(before, after)
    ensures |before| == |after|
  {
  }
}

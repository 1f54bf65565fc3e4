/**
 Diffs that only change and delete tasks always become a plan that gives the new file: lines that stay
 where they are, and files with some task lines left out.
 */
module InPlacePlans {
  import opened Lists
  import opened Wrappers
  import opened TodoLines
  import opened PlanCheck
  import opened LineEdits
  import opened LineDiffs
  import opened DiffPlan
  import EditGraph
  import ArchivePlan

  // ---- edits and deletes alone are always expressible ----

  /** A step for each old line in turn, kept, changed or deleted. */
  ghost predicate LineByLine(diffs: seq<LineDiff>, before: Lines, after: Lines) {
    && |diffs| == |before| && InFiles(diffs, before, after)
    && forall i :: 0 <= i < |diffs| ==> (diffs[i].Matched() || diffs[i].Delete?) && diffs[i].from == i
  }

  /** The steps only edit and delete tasks, and keeps keep. */
  ghost predicate OnTasks(diffs: seq<LineDiff>, before: Lines, after: Lines)
    requires LineByLine(diffs, before, after)
  {
    forall i :: 0 <= i < |diffs| ==> OnTask(diffs[i], before[i], after)
  }

  ghost predicate OnTask(d: LineDiff, line: Content, after: Lines)
    requires d.HasTo() ==> d.to < |after|
  {
    && (d.Keep? ==> line == after[d.to])
    && (d.Change? ==> line != after[d.to] && !IsEmpty(line) && !IsEmpty(after[d.to]) && after[d.to].Text?)
    && (d.Delete? ==> !IsEmpty(line))
  }

  /** The old file with its changed lines edited. */
  ghost function EditedLines(diffs: seq<LineDiff>, before: Lines, after: Lines): (r: Lines)
    requires LineByLine(diffs, before, after)
    ensures |r| == |before|
    ensures forall i :: 0 <= i < |r| ==> r[i] == if diffs[i].Delete? then before[i] else after[diffs[i].to]
  {
    seq(|before|, i requires 0 <= i < |before| => if diffs[i].Delete? then before[i] else after[diffs[i].to])
  }

  /** The old lines a step deletes. */
  ghost function Gone(diffs: seq<LineDiff>): (r: seq<bool>)
    ensures |r| == |diffs| && forall i :: 0 <= i < |r| ==> r[i] == diffs[i].Delete?
  {
    seq(|diffs|, i requires 0 <= i < |diffs| => diffs[i].Delete?)
  }

  lemma SortStepOnTask(s: Sorted, d: LineDiff, before: Lines, after: Lines)
    requires (d.Matched() || d.Delete?) && d.from < |before| && (d.HasTo() ==> d.to < |after|)
    requires OnTask(d, before[d.from], after)
    ensures SortStep(s, d, before, after) ==
            match d
            case Keep(_, _) => Some(s)
            case Change(from, to) =>
              Some(s.(edits := s.edits + [EditLine(TaskRefAt(before[from], NumberOf(from)), after[to].text)]))
            case Delete(from) => Some(s.(deletes := s.deletes + [Deletion(from, false)]))
            case _ => None
  {
    hide IsBlank, IsEmpty, NumberOf, TaskRefAt;
    LinesWithIdsAreTasks(before[d.from]);
  }

  lemma EditedLineAt(diffs: seq<LineDiff>, before: Lines, after: Lines, i: nat)
    requires LineByLine(diffs, before, after) && OnTasks(diffs, before, after) && i < |diffs|
    ensures OnTask(diffs[i], before[i], after)
    ensures var target := EditedLines(diffs, before, after);
            && (diffs[i].Change? ==> target[i] == after[diffs[i].to] && target[i] != before[i])
            && (diffs[i].Keep? || diffs[i].Delete? ==> target[i] == before[i])
            && (target[i] != before[i] ==> !IsEmpty(before[i]) && !IsEmpty(target[i]) && target[i].Text?)
  {
    hide IsEmpty;
    assert OnTask(diffs[i], before[i], after);
  }

  lemma {:induction false} ClassifiedLineByLine(diffs: seq<LineDiff>, before: Lines, after: Lines, i: nat)
    requires LineByLine(diffs, before, after) && OnTasks(diffs, before, after) && i <= |diffs|
    ensures var target := EditedLines(diffs, before, after);
            && Editable(before, target, i)
            && Classified(diffs, before, after, i) == Some(Sorted(EditsTo(before, target, i), Deletes(Gone(diffs), false, i), [], []))
  {
    hide IsEmpty, NumberOf, TaskRefAt, SortStep, OnTask, OnTasks, EditedLines;
    if i > 0 {
      ClassifiedLineByLine(diffs, before, after, i - 1);
      EditedLineAt(diffs, before, after, i - 1);
      SortStepOnTask(Classified(diffs, before, after, i - 1).value, diffs[i - 1], before, after);
      assert !diffs[i - 1].Delete? ==> Deletes(Gone(diffs), false, i) == Deletes(Gone(diffs), false, i - 1);
    }
  }

  /** The first `i` lines without the deleted ones. */
  ghost function Left(lines: Lines, diffs: seq<LineDiff>, i: nat): Lines
    requires i <= |diffs| == |lines|
  {
    if i == 0 then [] else Left(lines, diffs, i - 1) + if diffs[i - 1].Delete? then [] else [lines[i - 1]]
  }

  lemma DeleteOne(front: Lines, line: Content, back: Lines, task: TaskRef)
    requires !IsEmpty(line) && task.lineNumber == |front| + 1
    ensures Step(front + [line] + back, DeleteTask(task, false)) == Some(front + back)
  {
    hide IsEmpty;
    var lines := front + [line] + back;
    assert lines[|front|] == line;
    assert Removed(lines, |front|) == front + back;
  }

  /** The line at the bottom deleted, under the number the old file gave it. */
  lemma DeletesLine(before: Lines, lines: Lines, diffs: seq<LineDiff>, i: nat, back: Lines)
    requires i < |diffs| == |lines| == |before| && i < U32_MAX && AllIn(Up(Gone(diffs), false, i), before) && AllIn(Up(Gone(diffs), false, i + 1), before)
    requires diffs[i].Delete? && !IsEmpty(lines[i])
    ensures Replayed(lines[..i + 1] + back, DeletesAt(before, Up(Gone(diffs), false, i + 1)))
         == Replayed(lines[..i] + back, DeletesAt(before, Up(Gone(diffs), false, i)))
  {
    hide Replayed, Step, IsEmpty, IdText, Up, AllIn;
    assert lines[..i + 1] == lines[..i] + [lines[i]];
    LowestDeleted(before, lines[..i + 1] + back, Gone(diffs), false, i);
    DeleteOne(lines[..i], lines[i], back, DeleteAt(before, Deletion(i, false)).task);
  }

  lemma LeftOne(lines: Lines, diffs: seq<LineDiff>, i: nat, back: Lines)
    requires i < |diffs| == |lines|
    ensures diffs[i].Delete? ==> Left(lines, diffs, i + 1) == Left(lines, diffs, i)
    ensures !diffs[i].Delete? ==> Left(lines, diffs, i + 1) + back == Left(lines, diffs, i) + ([lines[i]] + back)
    ensures lines[..i + 1] + back == lines[..i] + ([lines[i]] + back)
  {
  }

  /** Deletes from the bottom up name every line as the old file numbered it. */
  lemma {:induction false} DeletesReplay(before: Lines, lines: Lines, diffs: seq<LineDiff>, i: nat, back: Lines)
    requires i <= |diffs| == |lines| == |before| && |before| <= U32_MAX
    requires forall j :: 0 <= j < |diffs| && diffs[j].Delete? ==> !IsEmpty(lines[j])
    ensures AllIn(Up(Gone(diffs), false, i), before)
    ensures Replayed(lines[..i] + back, DeletesAt(before, Up(Gone(diffs), false, i))) == Some(Left(lines, diffs, i) + back)
  {
    hide Step, IsEmpty, IdText, Replayed;
    UpIn(Gone(diffs), false, i, before);
    if i == 0 {
      assert lines[..0] + back == back && Left(lines, diffs, 0) + back == back;
      assert DeletesAt(before, Up(Gone(diffs), false, 0)) == [];
      ReplayedNothing(back);
    } else {
      hide DeletesAt, Up, Left;
      LeftOne(lines, diffs, i - 1, back);
      if diffs[i - 1].Delete? {
        DeletesReplay(before, lines, diffs, i - 1, back);
        DeletesLine(before, lines, diffs, i - 1, back);
      } else {
        DeletesReplay(before, lines, diffs, i - 1, [lines[i - 1]] + back);
        UpKeeps(Gone(diffs), false, i - 1);
      }
    }
  }

  lemma {:induction false} LeftIsAtTos(diffs: seq<LineDiff>, before: Lines, after: Lines, i: nat)
    requires LineByLine(diffs, before, after) && i <= |diffs|
    ensures Within(Tos(diffs[..i]), |after|) && Left(EditedLines(diffs, before, after), diffs, i) == At(after, Tos(diffs[..i]))
  {
    hide Tos, Froms, MatchedCount;
    if i == 0 {
      AccountConcat([], []);
      assert diffs[..0] == [] && Tos([]) == [] + [] by { TosOfNone(); }
    } else {
      LeftIsAtTos(diffs, before, after, i - 1);
      assert diffs[..i] == diffs[..i - 1] + [diffs[i - 1]];
      AccountConcat(diffs[..i - 1], [diffs[i - 1]]);
      AccountOne(diffs[i - 1]);
    }
  }

  lemma TosOfNone()
    ensures Tos([]) == []
  {
  }

  /** Steps that only edit and delete tasks go out as a plan that gives the new file. */
  lemma LineByLineReproduces(diffs: seq<LineDiff>, before: Lines, after: Lines)
    requires LineByLine(diffs, before, after) && OnTasks(diffs, before, after)
    requires |before| <= U32_MAX && Tos(diffs) == Range(0, |after|)
    ensures FromDiff(diffs, before, after).Some? && Reproduces(before, after, FromDiff(diffs, before, after).value)
  {
    hide Tos, Replayed, Classified, NewTasks, OnTask, EditedLines, EditsTo, Editable, IsEmpty, Deletes, Up, Left, DeletesAt, BottomUp;
    var n, target := |before|, EditedLines(diffs, before, after);
    NoNewTasks(diffs, after);
    ClassifiedLineByLine(diffs, before, after, n);
    BottomUpIsUp(Gone(diffs), false, n);
    EditsReachTarget(before, target);
    forall j | 0 <= j < n && diffs[j].Delete? ensures !IsEmpty(target[j]) {
      assert OnTask(diffs[j], before[j], after);
      OnTaskDelete(diffs[j], before[j], after);
    }
    DeletesReplay(before, target, diffs, n, []);
    var edits, deletes := EditsTo(before, target, n), DeletesAt(before, Up(Gone(diffs), false, n));
    assert target[..n] + [] == target;
    ReplayedAppend(before, edits, deletes);
    LeftIsAtTos(diffs, before, after, n);
    assert diffs[..n] == diffs && At(after, Range(0, |after|)) == after;
    assert Left(target, diffs, n) + [] == after;
    assert edits + deletes + [] == edits + deletes;
  }

  lemma OnTaskDelete(d: LineDiff, line: Content, after: Lines)
    requires d.Delete? && OnTask(d, line, after)
    ensures !IsEmpty(line)
  {
    hide IsEmpty;
  }

  // ---- files with some lines left out ----

  /** Lines of one key that differ are tasks, the new one text: what an id and a hash without collisions see to. */
  ghost predicate ToldApart(before: Lines, after: Lines, ka: seq<Key>, kb: seq<Key>)
    requires |ka| == |before| && |kb| == |after|
  {
    forall i, j :: 0 <= i < |before| && 0 <= j < |after| && ka[i] == kb[j] && before[i] != after[j] ==>
                     !IsEmpty(before[i]) && !IsEmpty(after[j]) && after[j].Text?
  }

  /** The new file has the old one's lines, by key and in their order, with some left out. */
  ghost predicate Shrunk(hash: Content -> int, before: Lines, after: Lines) {
    var ka, kb := KeysOf(hash, before), KeysOf(hash, after);
    ToldApart(before, after, ka, kb) && exists places :: LeavesOut(ka, kb, places)
  }

  ghost predicate LeavesOut(ka: seq<Key>, kb: seq<Key>, places: seq<nat>) {
    Within(places, |ka|) && Rising(places) && At(ka, places) == kb
  }

  function BlankCount(lines: Lines): nat {
    if lines == [] then 0 else BlankCount(lines[..|lines| - 1]) + if IsEmpty(lines[|lines| - 1]) then 1 else 0
  }

  lemma BlankPush(lines: Lines, line: Content)
    ensures BlankCount(lines + [line]) == BlankCount(lines) + if IsEmpty(line) then 1 else 0
  {
    assert (lines + [line])[..|lines|] == lines;
  }

  lemma {:induction false} NoBlanks(lines: Lines)
    requires NoneEmpty(lines)
    ensures BlankCount(lines) == 0
  {
    hide IsEmpty;
    if lines != [] {
      NoBlanks(lines[..|lines| - 1]);
    }
  }

  /** The blanks deleted among the first `i` lines. */
  ghost function BlanksGone(diffs: seq<LineDiff>, before: Lines, i: nat): nat
    requires i <= |diffs| == |before|
  {
    if i == 0 then 0 else BlanksGone(diffs, before, i - 1) + if diffs[i - 1].Delete? && IsEmpty(before[i - 1]) then 1 else 0
  }

  /** A blank is matched with a blank only. */
  ghost predicate BlanksMatch(diffs: seq<LineDiff>, before: Lines, after: Lines)
    requires LineByLine(diffs, before, after)
  {
    forall i :: 0 <= i < |diffs| && diffs[i].Matched() ==> (IsEmpty(before[i]) <==> IsEmpty(after[diffs[i].to]))
  }

  /** The old blanks are those left and those deleted. */
  lemma {:induction false} BlanksLeft(diffs: seq<LineDiff>, before: Lines, after: Lines, i: nat)
    requires LineByLine(diffs, before, after) && BlanksMatch(diffs, before, after) && i <= |diffs|
    ensures BlankCount(before[..i]) == BlankCount(Left(EditedLines(diffs, before, after), diffs, i)) + BlanksGone(diffs, before, i)
  {
    hide IsEmpty, BlankCount;
    var target := EditedLines(diffs, before, after);
    if i == 0 {
      assert before[..0] == [] && Left(target, diffs, 0) == [];
    } else {
      BlanksLeft(diffs, before, after, i - 1);
      assert before[..i] == before[..i - 1] + [before[i - 1]];
      BlankPush(before[..i - 1], before[i - 1]);
      BlankPush(Left(target, diffs, i - 1), target[i - 1]);
      assert diffs[i - 1].Delete? ==> Left(target, diffs, i) == Left(target, diffs, i - 1);
    }
  }

  lemma {:induction false} SomeBlankGone(diffs: seq<LineDiff>, before: Lines, i: nat) returns (p: nat)
    requires i <= |diffs| == |before| && BlanksGone(diffs, before, i) > 0
    ensures p < i && diffs[p].Delete? && IsEmpty(before[p])
  {
    hide IsEmpty;
    if diffs[i - 1].Delete? && IsEmpty(before[i - 1]) {
      p := i - 1;
    } else {
      p := SomeBlankGone(diffs, before, i - 1);
    }
  }

  lemma {:induction false} NoBlankGone(diffs: seq<LineDiff>, before: Lines, i: nat, p: nat)
    requires p < i <= |diffs| == |before| && BlanksGone(diffs, before, i) == 0
    ensures !(diffs[p].Delete? && IsEmpty(before[p]))
  {
    hide IsEmpty;
    if p < i - 1 {
      NoBlankGone(diffs, before, i - 1, p);
    }
  }

  /** A blank that is deleted has no mutation. */
  lemma BlankDeleteStops(diffs: seq<LineDiff>, before: Lines, after: Lines, p: nat)
    requires InFiles(diffs, before, after) && p < |diffs| && diffs[p].Delete? && IsEmpty(before[diffs[p].from])
    ensures FromDiff(diffs, before, after).None?
  {
    hide IsBlank, NewTasks, TailIsNew, TaskRefAt, NumberOf;
    LinesWithIdsAreTasks(before[diffs[p].from]);
    ClassifiedStops(diffs, before, after, p + 1);
  }

  lemma StepIsOnTask(before: Lines, after: Lines, ka: seq<Key>, kb: seq<Key>, d: LineDiff)
    requires |ka| == |before| && |kb| == |after| && ToldApart(before, after, ka, kb) && StepHolds(before, after, ka, kb, d)
    requires d.Matched() || d.Delete?
    ensures d.Matched() ==> (IsEmpty(before[d.from]) <==> IsEmpty(after[d.to]))
    ensures OnTask(d, before[d.from], after) <==> !(d.Delete? && IsEmpty(before[d.from]))
  {
    hide IsEmpty;
  }

  lemma ShrunkIsLineByLine(before: Lines, after: Lines, ka: seq<Key>, kb: seq<Key>, out: seq<LineDiff>, places: seq<nat>)
    requires |ka| == |before| && |kb| == |after| && DiffOf(before, after, ka, kb, out)
    requires ToldApart(before, after, ka, kb) && LeavesOut(ka, kb, places)
    ensures LineByLine(out, before, after) && BlanksMatch(out, before, after) && Tos(out) == Range(0, |after|)
    ensures OnTasks(out, before, after) <==> BlanksGone(out, before, |before|) == 0
  {
    hide Froms, Tos, MatchedCount, StepHolds, NoSplitMove, EditGraph.Lcs, MatchesRise, HasMove, KeepsPrefix, OnTask, IsEmpty;
    hide ToldApart, BlanksGone;
    NothingNewOnlyDeletes(before, after, ka, kb, out, places);
    DiffInFiles(before, after, ka, kb, out);
    forall p: nat | p < |out|
      ensures out[p].Matched() ==> (IsEmpty(before[p]) <==> IsEmpty(after[out[p].to]))
      ensures OnTask(out[p], before[p], after) <==> !(out[p].Delete? && IsEmpty(before[p]))
    {
      StepIsOnTask(before, after, ka, kb, out[p]);
    }
    if BlanksGone(out, before, |before|) == 0 {
      forall p: nat | p < |out| ensures OnTask(out[p], before[p], after) {
        NoBlankGone(out, before, |before|, p);
      }
    } else {
      var p := SomeBlankGone(out, before, |before|);
      assert !OnTask(out[p], before[p], after);
    }
  }

  /** With some lines left out, a plan goes out and gives the new file if and only if no blank is among them. */
  lemma ShrunkIsPlanned(hash: Content -> int, before: Lines, after: Lines, out: seq<LineDiff>)
    requires DiffOf(before, after, KeysOf(hash, before), KeysOf(hash, after), out) && InFiles(out, before, after)
    requires Shrunk(hash, before, after) && |before| <= U32_MAX
    ensures FromDiff(out, before, after).Some? <==> BlankCount(before) == BlankCount(after)
    ensures FromDiff(out, before, after).Some? ==> Reproduces(before, after, FromDiff(out, before, after).value)
  {
    hide DiffOf, LineByLine, OnTasks, BlanksMatch, FromDiff, Reproduces, Tos, Left, BlankCount, BlanksGone, KeysOf, ToldApart, LeavesOut, InFiles, IsEmpty;
    var ka, kb, n := KeysOf(hash, before), KeysOf(hash, after), |before|;
    var places :| LeavesOut(ka, kb, places);
    ShrunkIsLineByLine(before, after, ka, kb, out, places);
    AsManySteps(out, before, after);
    BlanksLeft(out, before, after, n);
    LeftIsAtTos(out, before, after, n);
    assert out[..n] == out && before[..n] == before && At(after, Range(0, |after|)) == after;
    if BlanksGone(out, before, n) == 0 {
      LineByLineReproduces(out, before, after);
    } else {
      var p := SomeBlankGone(out, before, n);
      InTurn(out, before, after, p);
      BlankDeleteStops(out, before, after, p);
    }
  }

  lemma AsManySteps(diffs: seq<LineDiff>, before: Lines, after: Lines)
    requires LineByLine(diffs, before, after)
    ensures |diffs| == |before|
  {
  }

  lemma InTurn(diffs: seq<LineDiff>, before: Lines, after: Lines, p: nat)
    requires LineByLine(diffs, before, after) && p < |diffs|
    ensures diffs[p].HasFrom() && diffs[p].from == p
  {
  }

  lemma DiffInFiles(before: Lines, after: Lines, ka: seq<Key>, kb: seq<Key>, out: seq<LineDiff>)
    requires |ka| == |before| && |kb| == |after| && StepsHold(before, after, ka, kb, out)
    ensures InFiles(out, before, after)
  {
    forall p | 0 <= p < |out|
      ensures (out[p].HasFrom() ==> out[p].from < |before|) && (out[p].HasTo() ==> out[p].to < |after|)
    {
      assert StepHolds(before, after, ka, kb, out[p]);
    }
  }

  // ---- files whose lines stay where they are ----

  /** Each line is the old one, or the old one's id kept. */
  ghost predicate SameOrder(before: Lines, after: Lines) {
    |before| == |after| && forall i :: 0 <= i < |before| ==> Carried(before[i], after[i])
  }

  lemma SameOrderSameKeys(hash: Content -> int, before: Lines, after: Lines)
    requires SameOrder(before, after)
    ensures KeysOf(hash, before) == KeysOf(hash, after) && Editable(before, after, |before|)
  {
    hide Carried, KeyOf, IsEmpty;
    forall i | 0 <= i < |before|
      ensures KeyOf(hash, before[i]) == KeyOf(hash, after[i])
      ensures before[i] != after[i] ==> !IsEmpty(before[i]) && !IsEmpty(after[i]) && after[i].Text?
    {
      CarriedKeepsKey(hash, before[i], after[i]);
    }
  }

  lemma SameOrderIsNotArchived(before: Lines, after: Lines)
    requires SameOrder(before, after)
    ensures ArchivePlan.PlanOf(before, after).None?
  {
    hide IdOf;
    if ArchivePlan.IdsOf(before).Some? && ArchivePlan.IdsOf(after).Some? {
      forall i | 0 <= i < |before| ensures IdOf(before[i]) == IdOf(after[i]) {
        assert Carried(before[i], after[i]);
      }
      assert ArchivePlan.Ids(before) == ArchivePlan.Ids(after);
    }
  }

  /** Lines that stay where they are go out as edits, and give the new file exactly when each can be numbered. */
  lemma SameOrderIsEdits(before: Lines, after: Lines, out: seq<LineDiff>)
    requires |out| == |before| == |after| && Editable(before, after, |before|) && InFiles(out, before, after)
    requires forall i :: 0 <= i < |out| ==> out[i] == InPlace(before, after, i)
    ensures FromDiff(out, before, after) == Some(EditsTo(before, after, |before|))
  {
    hide IsEmpty, NewTasks, Classified, OnTask, EditsTo, EditedLines;
    forall i: nat | i < |out| ensures OnTask(out[i], before[i], after) {
      InPlaceIsOnTask(before, after, out[i], i);
    }
    NoNewTasks(out, after);
    ClassifiedLineByLine(out, before, after, |out|);
    assert EditedLines(out, before, after) == after;
    NothingGone(Gone(out), false, |out|);
    assert DeletesAt(before, []) == [];
    var edits := EditsTo(before, after, |before|);
    assert edits + [] + [] == edits;
  }

  lemma InPlaceIsOnTask(before: Lines, after: Lines, d: LineDiff, i: nat)
    requires i < |before| == |after| && d == InPlace(before, after, i) && Editable(before, after, |before|)
    ensures OnTask(d, before[i], after)
  {
    hide IsEmpty;
  }
}

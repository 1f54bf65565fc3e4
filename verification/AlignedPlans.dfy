/**
 The plans of commands that leave lines where they are: tasks appended at the end, and tasks deleted with
 a blank left in their place. Both always go out as mutations.
 */
module AlignedPlans {
  import opened Lists
  import opened Wrappers
  import opened TodoLines
  import opened PlanCheck
  import opened LineEdits
  import opened LineDiffs
  import opened AlignedDiffs
  import opened DiffPlan

  /** A diff that takes both files in order and matches every place of one key. */
  ghost predicate Walks(out: seq<LineDiff>, before: Lines, after: Lines, ka: seq<Key>, kb: seq<Key>) {
    && |ka| == |before| && |kb| == |after| && InFiles(out, before, after)
    && Froms(out) == Range(0, |before|) && Tos(out) == Range(0, |after|)
    && forall q :: 0 <= q < |out| ==> StaysInPlace(ka, kb, out[q]) && StepHolds(before, after, ka, kb, out[q])
  }

  /** The old file with the lines of one key as the new file has them. */
  ghost function Refreshed(before: Lines, after: Lines, ka: seq<Key>, kb: seq<Key>): (r: Lines)
    requires |ka| == |before| && |kb| == |after|
    ensures |r| == |before| && forall i :: 0 <= i < |r| ==> r[i] == if Same(ka, kb, i) then after[i] else before[i]
  {
    seq(|before|, i requires 0 <= i < |before| => if Same(ka, kb, i) then after[i] else before[i])
  }

  /** The old lines that the new file does not have, under their key, where they were. */
  ghost function Unmatched(ka: seq<Key>, kb: seq<Key>): (r: seq<bool>)
    ensures |r| == |ka| && forall i :: 0 <= i < |r| ==> r[i] == !Same(ka, kb, i)
  {
    seq(|ka|, i requires 0 <= i < |ka| => !Same(ka, kb, i))
  }

  ghost function Adds(after: Lines, ka: seq<Key>, kb: seq<Key>, n: nat): seq<Mutation>
    requires n <= |after| && AllNewText(after, ka, kb)
  {
    if n == 0 then []
    else Adds(after, ka, kb, n - 1)
         + if Same(ka, kb, n - 1) || IsEmpty(after[n - 1]) then [] else [AddLine(after[n - 1].text)]
  }

  ghost function Blanks(after: Lines, ka: seq<Key>, kb: seq<Key>, n: nat): seq<nat>
    requires n <= |after|
  {
    if n == 0 then []
    else Blanks(after, ka, kb, n - 1) + if Same(ka, kb, n - 1) || !IsEmpty(after[n - 1]) then [] else [n - 1]
  }

  ghost predicate AllNewText(after: Lines, ka: seq<Key>, kb: seq<Key>) {
    forall j :: 0 <= j < |after| && !Same(ka, kb, j) ==> after[j].Text?
  }

  /** The old lines not matched are tasks, the new ones text, and the matched ones change from task to task. */
  ghost predicate Expressible(before: Lines, after: Lines, ka: seq<Key>, kb: seq<Key>)
    requires |ka| == |before| && |kb| == |after|
  {
    && AllNewText(after, ka, kb) && Editable(before, Refreshed(before, after, ka, kb), |before|)
    && forall i :: 0 <= i < |before| && !Same(ka, kb, i) ==> !IsEmpty(before[i])
  }

  lemma EditsToMore(before: Lines, target: Lines, i: nat)
    requires |target| == |before| && i < |before| && Editable(before, target, i + 1)
    ensures Editable(before, target, i)
    ensures EditsTo(before, target, i + 1) == EditsTo(before, target, i) +
            if target[i] == before[i] then [] else [EditLine(TaskRefAt(before[i], NumberOf(i)), target[i].text)]
  {
    hide IsEmpty, TaskRefAt, NumberOf;
    assert EditsTo(before, target, i) + [] == EditsTo(before, target, i);
  }

  /** What one step of the walk adds to the sorted steps. */
  lemma SortWalkStep(s: Sorted, d: LineDiff, before: Lines, after: Lines, ka: seq<Key>, kb: seq<Key>)
    requires |ka| == |before| && |kb| == |after| && Expressible(before, after, ka, kb)
    requires (d.HasFrom() ==> d.from < |before|) && (d.HasTo() ==> d.to < |after|)
    requires StaysInPlace(ka, kb, d) && StepHolds(before, after, ka, kb, d)
    ensures var target := Refreshed(before, after, ka, kb);
            SortStep(s, d, before, after) == Some(Sorted(
              s.edits + (if d.HasFrom() && target[d.from] != before[d.from]
                         then [EditLine(TaskRefAt(before[d.from], NumberOf(d.from)), target[d.from].text)] else []),
              s.deletes + (if d.HasFrom() && !Same(ka, kb, d.from) then [Deletion(d.from, false)] else []),
              s.adds + (if d.HasTo() && !Same(ka, kb, d.to) && !IsEmpty(after[d.to]) then [AddLine(after[d.to].text)] else []),
              s.blankInserts + (if d.HasTo() && !Same(ka, kb, d.to) && IsEmpty(after[d.to]) then [d.to] else [])))
  {
    hide IsEmpty, IsBlank, TaskRefAt, NumberOf;
    if d.Delete? {
      LinesWithIdsAreTasks(before[d.from]);
    } else if d.Insert? {
      LinesWithIdsAreTasks(after[d.to]);
    }
    assert s.edits + [] == s.edits && s.deletes + [] == s.deletes && s.adds + [] == s.adds && s.blankInserts + [] == s.blankInserts;
  }

  /** The first `p` steps sorted: what they have come past in both files. */
  ghost function Sortable(before: Lines, after: Lines, ka: seq<Key>, kb: seq<Key>, x: nat, y: nat): Sorted
    requires |ka| == |before| && |kb| == |after| && x <= |before| && y <= |after| && Expressible(before, after, ka, kb)
  {
    Sorted(EditsTo(before, Refreshed(before, after, ka, kb), x), Deletes(Unmatched(ka, kb), false, x), Adds(after, ka, kb, y), Blanks(after, ka, kb, y))
  }

  lemma FromMore(before: Lines, after: Lines, ka: seq<Key>, kb: seq<Key>, x: nat)
    requires |ka| == |before| && |kb| == |after| && x < |before| && Expressible(before, after, ka, kb)
    ensures var target := Refreshed(before, after, ka, kb);
            && EditsTo(before, target, x + 1) == EditsTo(before, target, x) +
               (if target[x] != before[x] then [EditLine(TaskRefAt(before[x], NumberOf(x)), target[x].text)] else [])
            && Deletes(Unmatched(ka, kb), false, x + 1) == Deletes(Unmatched(ka, kb), false, x) + (if !Same(ka, kb, x) then [Deletion(x, false)] else [])
  {
    hide TaskRefAt, NumberOf, IsEmpty, Refreshed;
    EditsToMore(before, Refreshed(before, after, ka, kb), x);
  }

  lemma ToMore(after: Lines, ka: seq<Key>, kb: seq<Key>, y: nat)
    requires y < |after| && AllNewText(after, ka, kb)
    ensures Adds(after, ka, kb, y + 1) == Adds(after, ka, kb, y) +
            (if !Same(ka, kb, y) && !IsEmpty(after[y]) then [AddLine(after[y].text)] else [])
    ensures Blanks(after, ka, kb, y + 1) == Blanks(after, ka, kb, y) +
            (if !Same(ka, kb, y) && IsEmpty(after[y]) then [y] else [])
  {
    hide IsEmpty;
  }

  lemma {:induction false} ClassifiedWalk(out: seq<LineDiff>, before: Lines, after: Lines, ka: seq<Key>, kb: seq<Key>, p: nat)
    requires Walks(out, before, after, ka, kb) && Expressible(before, after, ka, kb) && p <= |out|
    ensures FromCount(out, p) <= |before| && ToCount(out, p) <= |after|
    ensures Classified(out, before, after, p) == Some(Sortable(before, after, ka, kb, FromCount(out, p), ToCount(out, p)))
  {
    hide Froms, Tos, StepHolds, IsEmpty, SortStep, TaskRefAt, NumberOf, Refreshed, Same, Expressible, StaysInPlace;
    if p > 0 {
      hide EditsTo, Deletes, Adds, Blanks;
      ClassifiedWalk(out, before, after, ka, kb, p - 1);
      var d, x, y := out[p - 1], FromCount(out, p - 1), ToCount(out, p - 1);
      StepIsNext(out, |before|, |after|, p - 1);
      SortWalkStep(Classified(out, before, after, p - 1).value, d, before, after, ka, kb);
      MovedOn(before, after, ka, kb, d, x, y);
    }
  }

  lemma MovedOn(before: Lines, after: Lines, ka: seq<Key>, kb: seq<Key>, d: LineDiff, x: nat, y: nat)
    requires |ka| == |before| && |kb| == |after| && Expressible(before, after, ka, kb) && x <= |before| && y <= |after|
    requires d.HasFrom() ==> d.from == x < |before|
    requires d.HasTo() ==> d.to == y < |after|
    ensures var s, s', target := Sortable(before, after, ka, kb, x, y),
                                 Sortable(before, after, ka, kb, if d.HasFrom() then x + 1 else x, if d.HasTo() then y + 1 else y),
                                 Refreshed(before, after, ka, kb);
            s' == Sorted(
              s.edits + (if d.HasFrom() && target[x] != before[x]
                         then [EditLine(TaskRefAt(before[x], NumberOf(x)), target[x].text)] else []),
              s.deletes + (if d.HasFrom() && !Same(ka, kb, x) then [Deletion(x, false)] else []),
              s.adds + (if d.HasTo() && !Same(ka, kb, y) && !IsEmpty(after[y]) then [AddLine(after[y].text)] else []),
              s.blankInserts + (if d.HasTo() && !Same(ka, kb, y) && IsEmpty(after[y]) then [y] else []))
  {
    hide EditsTo, Deletes, Adds, Blanks, TaskRefAt, NumberOf, IsEmpty, Refreshed, Same;
    if d.HasFrom() {
      FromMore(before, after, ka, kb, x);
    }
    if d.HasTo() {
      ToMore(after, ka, kb, y);
    }
    var s := Sortable(before, after, ka, kb, x, y);
    assert s.edits + [] == s.edits && s.deletes + [] == s.deletes && s.adds + [] == s.adds && s.blankInserts + [] == s.blankInserts;
  }

  lemma ClassifiedWhole(out: seq<LineDiff>, before: Lines, after: Lines, ka: seq<Key>, kb: seq<Key>)
    requires Walks(out, before, after, ka, kb) && Expressible(before, after, ka, kb)
    ensures Classified(out, before, after, |out|) == Some(Sortable(before, after, ka, kb, |before|, |after|))
  {
    hide Froms, Tos, StepHolds, Expressible, StaysInPlace, Sortable, Classified;
    ClassifiedWalk(out, before, after, ka, kb, |out|);
    AllTaken(out, |before|, |after|);
  }

  // ---- appended tasks ----

  lemma {:induction false} NothingBlank(after: Lines, ka: seq<Key>, kb: seq<Key>, n: nat)
    requires n <= |after| && forall j :: 0 <= j < n && !Same(ka, kb, j) ==> !IsEmpty(after[j])
    ensures Blanks(after, ka, kb, n) == []
  {
    hide Same, IsEmpty;
    if n > 0 {
      NothingBlank(after, ka, kb, n - 1);
    }
  }

  /** Only the places from `n` on are new. */
  ghost predicate NewFrom(ka: seq<Key>, kb: seq<Key>, n: nat) {
    n <= |kb| && forall j :: 0 <= j < |kb| ==> (Same(ka, kb, j) <==> j < n)
  }

  lemma {:induction false} NewTasksLate(out: seq<LineDiff>, after: Lines, n: nat)
    requires forall q :: 0 <= q < |out| && out[q].Insert? ==> out[q].to >= n
    ensures forall k :: 0 <= k < |NewTasks(out, after)| ==> n <= NewTasks(out, after)[k] < |after|
  {
    hide IsBlank;
    if out != [] {
      NewTasksLate(out[..|out| - 1], after, n);
    }
  }

  lemma {:induction false} InsertsCounted(out: seq<LineDiff>, before: Lines, after: Lines, ka: seq<Key>, kb: seq<Key>, p: nat, n: nat, from: nat)
    requires Walks(out, before, after, ka, kb) && NewFrom(ka, kb, n) && n <= from && p <= |out|
    ensures InsertsFrom(out[..p], from) == if ToCount(out, p) <= from then 0 else ToCount(out, p) - from
  {
    hide Froms, Tos, StepHolds, Same;
    if p > 0 {
      InsertsCounted(out, before, after, ka, kb, p - 1, n, from);
      StepIsNext(out, |before|, |after|, p - 1);
      assert out[..p][..p - 1] == out[..p - 1];
      assert StaysInPlace(ka, kb, out[p - 1]);
    }
  }

  lemma TailIsNewFrom(out: seq<LineDiff>, before: Lines, after: Lines, ka: seq<Key>, kb: seq<Key>, n: nat)
    requires Walks(out, before, after, ka, kb) && NewFrom(ka, kb, n)
    ensures var first := Least(NewTasks(out, after)); first.Some? ==> TailIsNew(out, after, first.value)
  {
    hide Froms, Tos, StepHolds, Same, NewTasks, InsertsFrom;
    forall q | 0 <= q < |out| && out[q].Insert? ensures out[q].to >= n {
      assert StaysInPlace(ka, kb, out[q]);
    }
    NewTasksLate(out, after, n);
    var first := Least(NewTasks(out, after));
    if first.Some? {
      InsertsCounted(out, before, after, ka, kb, |out|, n, first.value);
      AllTaken(out, |before|, |after|);
      assert out[..|out|] == out;
    }
  }

  /** The last line is a task, if there is one. */
  predicate EndsInTask(lines: Lines) {
    lines == [] || !IsEmpty(lines[|lines| - 1])
  }

  /** After a last task each append lands at the end. */
  lemma {:induction false} AddsReplay(after: Lines, ka: seq<Key>, kb: seq<Key>, n: nat, j: nat)
    requires |kb| == |after| && NewFrom(ka, kb, n) && n <= j <= |after| && AllNewText(after, ka, kb)
    requires EndsInTask(after[..n]) && forall i :: n <= i < |after| ==> !IsEmpty(after[i])
    ensures Replayed(after[..n], Adds(after, ka, kb, j)) == Some(after[..j])
    decreases j
  {
    hide Step, IsEmpty, Same, Replayed;
    if j == n {
      NoAdds(after, ka, kb, n, n);
      ReplayedNothing(after[..n]);
    } else {
      AddsReplay(after, ka, kb, n, j - 1);
      assert j - 1 > n ==> after[..j - 1][j - 2] == after[j - 2];
      AppendOne(after[..j - 1], after[j - 1].text);
      ReplayedPush(after[..n], Adds(after, ka, kb, j - 1), AddLine(after[j - 1].text));
      assert after[..j] == after[..j - 1] + [after[j - 1]];
    }
  }

  lemma AppendOne(lines: Lines, text: string)
    requires EndsInTask(lines)
    ensures Step(lines, AddLine(text)) == Some(lines + [Text(text)])
  {
    hide IsEmpty;
    assert Inserted(lines, |lines|, Text(text)) == lines + [Text(text)];
  }

  /** A blank at the end stays there: each append lands before it. */
  lemma {:induction false} BlankStaysLast(lines: Lines, adds: seq<Mutation>)
    requires !EndsInTask(lines) && forall k :: 0 <= k < |adds| ==> adds[k].AddLine?
    ensures Replayed(lines, adds).Some? && !EndsInTask(Replayed(lines, adds).value)
    decreases |adds|
  {
    hide IsEmpty, Step;
    if adds != [] {
      AddBeforeBlank(lines, adds[0]);
      BlankStaysLast(Step(lines, adds[0]).value, adds[1..]);
    }
  }

  lemma AddBeforeBlank(lines: Lines, add: Mutation)
    requires !EndsInTask(lines) && add.AddLine?
    ensures Step(lines, add).Some? && !EndsInTask(Step(lines, add).value)
  {
    hide IsEmpty;
    var lines' := Inserted(lines, Tail(lines), Text(add.line));
    assert Tail(lines) < |lines|;
    assert lines'[|lines'| - 1] == lines[|lines| - 1];
  }

  lemma {:induction false} AddsAddOnly(after: Lines, ka: seq<Key>, kb: seq<Key>, n: nat)
    requires n <= |after| && AllNewText(after, ka, kb)
    ensures forall k :: 0 <= k < |Adds(after, ka, kb, n)| ==> Adds(after, ka, kb, n)[k].AddLine?
  {
    hide Same, IsEmpty;
    if n > 0 {
      AddsAddOnly(after, ka, kb, n - 1);
    }
  }

  lemma {:induction false} NoAdds(after: Lines, ka: seq<Key>, kb: seq<Key>, n: nat, j: nat)
    requires |kb| == |after| && NewFrom(ka, kb, n) && j <= n && AllNewText(after, ka, kb)
    ensures Adds(after, ka, kb, j) == []
  {
    hide Same, IsEmpty;
    if j > 0 {
      NoAdds(after, ka, kb, n, j - 1);
    }
  }

  /** The appends reach the new file unless a blank at the end of the old one is in their way. */
  lemma AppendsReach(after: Lines, ka: seq<Key>, kb: seq<Key>, n: nat)
    requires |kb| == |after| && NewFrom(ka, kb, n) && AllNewText(after, ka, kb)
    requires forall j :: n <= j < |after| ==> !IsEmpty(after[j])
    ensures Replayed(after[..n], Adds(after, ka, kb, |after|)) == Some(after) <==> n == |after| || EndsInTask(after[..n])
  {
    hide Same, Replayed, IsEmpty, Adds;
    assert after[..|after|] == after;
    if n == |after| {
      NoAdds(after, ka, kb, n, n);
      ReplayedNothing(after);
    } else if EndsInTask(after[..n]) {
      AddsReplay(after, ka, kb, n, |after|);
    } else {
      AddsAddOnly(after, ka, kb, |after|);
      BlankStaysLast(after[..n], Adds(after, ka, kb, |after|));
    }
  }

  lemma AppendsReproduce(out: seq<LineDiff>, before: Lines, after: Lines, ka: seq<Key>, kb: seq<Key>)
    requires Walks(out, before, after, ka, kb) && Expressible(before, after, ka, kb)
    requires NewFrom(ka, kb, |before|) && |before| <= U32_MAX && forall j :: |before| <= j < |after| ==> !IsEmpty(after[j])
    ensures FromDiff(out, before, after).Some?
    ensures Reproduces(before, after, FromDiff(out, before, after).value) <==>
              |before| == |after| || EndsInTask(after[..|before|])
  {
    hide Froms, Tos, StepHolds, Same, NewTasks, TailIsNew, Classified, IsEmpty, EditsTo, Adds, Deletes, Blanks, Replayed, Expressible;
    hide AllNewText, Editable, EndsInTask;
    var n := |before|;
    ExpressibleParts(before, after, ka, kb);
    TailIsNewFrom(out, before, after, ka, kb, n);
    ClassifiedWhole(out, before, after, ka, kb);
    NothingGone(Unmatched(ka, kb), false, n);
    NothingBlank(after, ka, kb, |after|);
    var target := Refreshed(before, after, ka, kb);
    assert target == after[..n];
    EditsReachTarget(before, target);
    AppendsReach(after, ka, kb, n);
    var edits, adds := EditsTo(before, target, n), Adds(after, ka, kb, |after|);
    ReplayedAppend(before, edits, adds);
    assert DeletesAt(before, []) == [] && edits + [] + adds == edits + adds;
  }

  lemma ExpressibleParts(before: Lines, after: Lines, ka: seq<Key>, kb: seq<Key>)
    requires |ka| == |before| && |kb| == |after| && Expressible(before, after, ka, kb)
    ensures AllNewText(after, ka, kb) && Editable(before, Refreshed(before, after, ka, kb), |before|)
  {
  }

  // ---- tasks deleted with a blank left in their place ----

  lemma {:induction false} NothingAdded(after: Lines, ka: seq<Key>, kb: seq<Key>, n: nat)
    requires n <= |after| && AllNewText(after, ka, kb) && forall j :: 0 <= j < |after| && !Same(ka, kb, j) ==> IsEmpty(after[j])
    ensures Adds(after, ka, kb, n) == []
  {
    hide Same, IsEmpty;
    if n > 0 {
      NothingAdded(after, ka, kb, n - 1);
    }
  }

  /** Deletes of the places given, the first `k` of them leaving a blank. */
  ghost function Marked(places: seq<nat>, k: nat): (r: seq<Deletion>)
    requires k <= |places|
    ensures |r| == |places| && forall q :: 0 <= q < |r| ==> r[q] == Deletion(places[q], q < k)
  {
    seq(|places|, q requires 0 <= q < |places| => Deletion(places[q], q < k))
  }

  /** Blanks inserted where lines were deleted each mark one delete. */
  lemma {:induction false} PairedInTurn(places: seq<nat>, k: nat)
    requires k <= |places| && Distinct(places)
    ensures BlanksPaired(Marked(places, 0), places[..k]) == Some(Marked(places, k))
  {
    if k > 0 {
      PairedInTurn(places, k - 1);
      assert places[..k][..k - 1] == places[..k - 1];
      var paired := Marked(places, k - 1);
      var slot := SlotFor(paired, places[k - 1]);
      assert paired[k - 1] == Deletion(places[k - 1], false);
      assert slot == k - 1;
      assert paired[slot := Deletion(places[k - 1], true)] == Marked(places, k);
    }
  }

  /** The places among the first `n` that are not of one key. */
  ghost function Others(ka: seq<Key>, kb: seq<Key>, n: nat): (r: seq<nat>)
    ensures Rising(r) && forall k :: 0 <= k < |r| ==> r[k] < n && !Same(ka, kb, r[k])
  {
    if n == 0 then [] else Others(ka, kb, n - 1) + if Same(ka, kb, n - 1) then [] else [n - 1]
  }

  lemma {:induction false} DeletesAreOthers(ka: seq<Key>, kb: seq<Key>, leaveBlank: bool, n: nat)
    requires n <= |ka|
    ensures Deletes(Unmatched(ka, kb), leaveBlank, n) ==
            Marked(Others(ka, kb, n), if leaveBlank then |Others(ka, kb, n)| else 0)
  {
    hide Same;
    if n > 0 {
      DeletesAreOthers(ka, kb, leaveBlank, n - 1);
    }
  }

  lemma {:induction false} BlanksAreOthers(after: Lines, ka: seq<Key>, kb: seq<Key>, n: nat)
    requires n <= |after| && forall j :: 0 <= j < |after| ==> (Same(ka, kb, j) <==> !IsEmpty(after[j]))
    ensures Blanks(after, ka, kb, n) == Others(ka, kb, n)
  {
    hide Same, IsEmpty;
    if n > 0 {
      BlanksAreOthers(after, ka, kb, n - 1);
    }
  }

  lemma NothingUp(ka: seq<Key>, kb: seq<Key>)
    ensures Up(Unmatched(ka, kb), true, 0) == []
  {
  }

  lemma BlankOne(lines: Lines, i: nat, task: TaskRef)
    requires i < |lines| && !IsEmpty(lines[i]) && task.lineNumber == i + 1
    ensures Step(lines, DeleteTask(task, true)) == Some(lines[i := Text("")])
  {
  }

  lemma BlankLast(before: Lines, now: Lines, ka: seq<Key>, kb: seq<Key>, n: nat)
    requires n < |before| == |now| == |ka| && n < U32_MAX && !Same(ka, kb, n) && !IsEmpty(now[n])
    requires AllIn(Up(Unmatched(ka, kb), true, n), before) && AllIn(Up(Unmatched(ka, kb), true, n + 1), before)
    ensures Replayed(now, DeletesAt(before, Up(Unmatched(ka, kb), true, n + 1)))
         == Replayed(now[n := Text("")], DeletesAt(before, Up(Unmatched(ka, kb), true, n)))
  {
    hide Step, Same, IdText, Replayed, IsEmpty, Up, AllIn;
    LowestDeleted(before, now, Unmatched(ka, kb), true, n);
    BlankOne(now, n, DeleteAt(before, Deletion(n, true)).task);
  }

  /** The old lines up to `n`, the new ones from there on, one line further. */
  lemma HalfOfEach(lines: Lines, after: Lines, n: nat)
    requires n < |lines| == |after|
    ensures (lines[..n + 1] + after[n + 1..])[n] == lines[n]
    ensures (lines[..n + 1] + after[n + 1..])[n := after[n]] == lines[..n] + after[n..]
    ensures lines[n] == after[n] ==> lines[..n + 1] + after[n + 1..] == lines[..n] + after[n..]
  {
  }

  /** A delete that leaves a blank moves no line, so every number stays the old file's. */
  lemma {:induction false} BlanksReplay(before: Lines, lines: Lines, after: Lines, ka: seq<Key>, kb: seq<Key>, n: nat)
    requires n <= |before| == |lines| == |after| == |ka| && |before| <= U32_MAX
    requires forall i :: 0 <= i < |lines| ==>
               if Same(ka, kb, i) then lines[i] == after[i] else !IsEmpty(lines[i]) && after[i] == Text("")
    ensures AllIn(Up(Unmatched(ka, kb), true, n), before)
    ensures Replayed(lines[..n] + after[n..], DeletesAt(before, Up(Unmatched(ka, kb), true, n))) == Some(after)
  {
    hide Step, Same, IsEmpty, Replayed, Up, DeletesAt;
    UpIn(Unmatched(ka, kb), true, n, before);
    if n == 0 {
      assert Up(Unmatched(ka, kb), true, 0) == [] by { NothingUp(ka, kb); }
      NoDeletesAt(before);
      assert lines[..0] + after[0..] == after;
      ReplayedNothing(after);
    } else {
      BlanksReplay(before, lines, after, ka, kb, n - 1);
      HalfOfEach(lines, after, n - 1);
      if Same(ka, kb, n - 1) {
        UpKeeps(Unmatched(ka, kb), true, n - 1);
      } else {
        BlankLast(before, lines[..n] + after[n..], ka, kb, n - 1);
      }
    }
  }

  lemma BlanksReproduce(out: seq<LineDiff>, before: Lines, after: Lines, ka: seq<Key>, kb: seq<Key>)
    requires Walks(out, before, after, ka, kb) && Expressible(before, after, ka, kb)
    requires |before| == |after| <= U32_MAX && NoneEmpty(before)
    requires forall i :: 0 <= i < |after| ==> (Same(ka, kb, i) <==> !IsEmpty(after[i]))
    ensures FromDiff(out, before, after).Some? && Reproduces(before, after, FromDiff(out, before, after).value)
  {
    hide Froms, Tos, StepHolds, Same, NewTasks, Classified, EditsTo, Adds, Deletes, Blanks, Replayed, Expressible;
    hide AllNewText, Editable, BottomUp, Up, Others, Marked, DeletesAt;
    var n := |before|;
    ExpressibleParts(before, after, ka, kb);
    forall q | 0 <= q < |out| ensures !IsNewTask(out[q], after) {
      BlankIsNoTask(before, after, ka, kb, out, q);
    }
    NoNewTasks(out, after);
    ClassifiedWhole(out, before, after, ka, kb);
    NothingAdded(after, ka, kb, n);
    DeletesAreOthers(ka, kb, false, n);
    DeletesAreOthers(ka, kb, true, n);
    BlanksAreOthers(after, ka, kb, n);
    var places, target := Others(ka, kb, n), Refreshed(before, after, ka, kb);
    assert Distinct(places);
    PairedInTurn(places, |places|);
    assert places[..|places|] == places;
    BottomUpIsUp(Unmatched(ka, kb), true, n);
    EditsReachTarget(before, target);
    BlanksReplay(before, target, after, ka, kb, n);
    assert target[..n] + after[n..] == target;
    var edits, deletes := EditsTo(before, target, n), DeletesAt(before, Up(Unmatched(ka, kb), true, n));
    ReplayedAppend(before, edits, deletes);
    assert edits + deletes + [] == edits + deletes;
  }

  lemma BlankIsNoTask(before: Lines, after: Lines, ka: seq<Key>, kb: seq<Key>, out: seq<LineDiff>, q: nat)
    requires Walks(out, before, after, ka, kb) && q < |out|
    requires forall i :: 0 <= i < |after| ==> (Same(ka, kb, i) <==> !IsEmpty(after[i]))
    ensures !IsNewTask(out[q], after)
  {
    hide Froms, Tos, StepHolds, Same, IsEmpty;
    assert StaysInPlace(ka, kb, out[q]);
    if out[q].Insert? {
      LinesWithIdsAreTasks(after[out[q].to]);
    }
  }

  // ---- the files such commands leave ----

  /** Task lines were added at the end. */
  ghost predicate Appended(before: Lines, after: Lines) {
    && |before| <= |after|
    && (forall i :: 0 <= i < |before| ==> Carried(before[i], after[i]))
    && forall j :: |before| <= j < |after| ==> after[j].Text? && !IsEmpty(after[j])
  }

  /** Some tasks became blanks where they stood, and no line that stayed is keyed like another, nor any like a blank. */
  ghost predicate Blanked(hash: Content -> int, before: Lines, after: Lines) {
    && |before| == |after| && NoneEmpty(before)
    && (forall i, j :: 0 <= i < |before| && 0 <= j < |before| && i != j && !IsEmpty(after[j]) ==>
                         KeyOf(hash, before[i]) != KeyOf(hash, before[j]))
    && (forall i :: 0 <= i < |before| ==> KeyOf(hash, before[i]) != KeyOf(hash, Text("")))
    && forall i :: 0 <= i < |before| ==> Carried(before[i], after[i]) || IsEmpty(after[i])
  }

  lemma AlignedWalks(hash: Content -> int, before: Lines, after: Lines, out: seq<LineDiff>)
    requires DiffOf(before, after, KeysOf(hash, before), KeysOf(hash, after), out) && InFiles(out, before, after)
    requires Aligned(KeysOf(hash, before), KeysOf(hash, after))
    ensures Walks(out, before, after, KeysOf(hash, before), KeysOf(hash, after))
  {
    hide Froms, Tos, MatchedCount, StepHolds, NoSplitMove, HasMove, KeysOf, MatchesRise, InFiles, StaysInPlace, Aligned;
    AlignedStays(hash, before, after, out);
  }

  lemma AppendedWalks(hash: Content -> int, before: Lines, after: Lines, out: seq<LineDiff>)
    requires DiffOf(before, after, KeysOf(hash, before), KeysOf(hash, after), out) && InFiles(out, before, after)
    requires |before| <= |after| && KeysOf(hash, after)[..|before|] == KeysOf(hash, before)
    ensures Walks(out, before, after, KeysOf(hash, before), KeysOf(hash, after))
  {
    hide Froms, Tos, MatchedCount, StepHolds, NoSplitMove, HasMove, KeysOf, MatchesRise, InFiles, StaysInPlace, KeepsPrefix;
    PrefixStays(before, after, KeysOf(hash, before), KeysOf(hash, after), out);
  }

  lemma AppendedKeys(hash: Content -> int, before: Lines, after: Lines)
    requires Appended(before, after)
    ensures var ka, kb := KeysOf(hash, before), KeysOf(hash, after);
            && kb[..|before|] == ka && NewFrom(ka, kb, |before|) && Expressible(before, after, ka, kb)
            && (EndsInTask(before) <==> EndsInTask(after[..|before|]))
  {
    hide KeyOf, IsEmpty, Carried;
    forall i: nat | i < |before|
      ensures KeyOf(hash, after[i]) == KeyOf(hash, before[i]) && (IsEmpty(after[i]) <==> IsEmpty(before[i]))
      ensures after[i] == before[i] || (after[i].Text? && !IsEmpty(after[i]))
    {
      CarriedKeepsKey(hash, before[i], after[i]);
    }
  }

  lemma BlankedKeys(hash: Content -> int, before: Lines, after: Lines)
    requires Blanked(hash, before, after)
    ensures var ka, kb := KeysOf(hash, before), KeysOf(hash, after);
            && Aligned(ka, kb) && Expressible(before, after, ka, kb)
            && forall i :: 0 <= i < |after| ==> (Same(ka, kb, i) <==> !IsEmpty(after[i]))
  {
    hide KeyOf, Carried;
    forall i: nat | i < |before|
      ensures if IsEmpty(after[i]) then KeyOf(hash, after[i]) == KeyOf(hash, Text(""))
              else KeyOf(hash, after[i]) == KeyOf(hash, before[i]) && (after[i] == before[i] || after[i].Text?)
    {
      if !IsEmpty(after[i]) {
        CarriedKeepsKey(hash, before[i], after[i]);
      }
    }
  }

  /**
   Tasks appended go out as a plan, whatever keys repeat, and it gives the new file if and only if the old
   one did not end in a blank line, which appends do not go past.
   */
  lemma AppendedIsPlanned(hash: Content -> int, before: Lines, after: Lines, out: seq<LineDiff>)
    requires DiffOf(before, after, KeysOf(hash, before), KeysOf(hash, after), out) && InFiles(out, before, after)
    requires Appended(before, after) && |before| <= U32_MAX
    ensures FromDiff(out, before, after).Some?
    ensures Reproduces(before, after, FromDiff(out, before, after).value) <==> |before| == |after| || EndsInTask(before)
  {
    hide DiffOf, Expressible, Walks, NewFrom, FromDiff, KeysOf, Reproduces, EndsInTask;
    AppendedKeys(hash, before, after);
    AppendedWalks(hash, before, after, out);
    AppendsReproduce(out, before, after, KeysOf(hash, before), KeysOf(hash, after));
  }

  /** Tasks blanked where they stand always go out as a plan that gives the new file. */
  lemma BlankedIsPlanned(hash: Content -> int, before: Lines, after: Lines, out: seq<LineDiff>)
    requires DiffOf(before, after, KeysOf(hash, before), KeysOf(hash, after), out) && InFiles(out, before, after)
    requires Blanked(hash, before, after) && |before| <= U32_MAX
    ensures FromDiff(out, before, after).Some? && Reproduces(before, after, FromDiff(out, before, after).value)
  {
    hide DiffOf, Aligned, Expressible, Walks, FromDiff, KeysOf, KeyOf, Reproduces, Carried;
    BlankedKeys(hash, before, after);
    AlignedWalks(hash, before, after, out);
    BlanksReproduce(out, before, after, KeysOf(hash, before), KeysOf(hash, after));
  }
}

/**
 The plan that carries a `do`: one completion for each line that became done and sank below the open ones,
 and no plan for a change of any other shape.
 */
module CompletePlan {
  import opened Lists
  import opened Wrappers
  import opened Dates
  import opened TodoLine
  import opened TodoEdit
  import opened TodoLines
  import opened PlanCheck

  /** The completion date when `after` is `before` completed and nothing else. */
  function CompletionOf(before: Content, after: Content): Option<Date> {
    match (KindOf(before), KindOf(after))
    case (Some(TaskLine(b)), Some(TaskLine(a))) =>
      if b.completed || !a.completed || a.completionDate.None? then None
      else if Text(Edited(before.text, [Complete(a.completionDate.value)])) == after then a.completionDate
      else None
    case _ => None
  }

  /** A task line's key: two lines have the same one if they share an id, or are equal and have none. */
  datatype Key = Id(ulid: Ulid) | Whole(line: Content)

  function KeyOf(line: Content): Option<Key> {
    match KindOf(line)
    case Some(TaskLine(t)) =>
      (match TaskId(t)
       case Some(id) => Some(Id(id))
       case None => Some(Whole(line)))
    case _ => None
  }

  predicate AllKeyed(lines: Lines) {
    forall i :: 0 <= i < |lines| ==> KeyOf(lines[i]).Some?
  }

  function Keys(lines: Lines): (r: seq<Key>)
    requires AllKeyed(lines)
    ensures |r| == |lines|
  {
    seq(|lines|, i requires 0 <= i < |lines| => KeyOf(lines[i]).value)
  }

  /** One key per line, all of them different; there is no such list with a blank line or two lines of one key. */
  function KeysOf(lines: Lines): (r: Option<seq<Key>>)
    ensures r.Some? ==> |r.value| == |lines|
  {
    if AllKeyed(lines) && Distinct(Keys(lines)) then Some(Keys(lines)) else None
  }

  lemma KeyedLinesAreTasks(lines: Lines)
    requires AllKeyed(lines)
    ensures NoneEmpty(lines)
  {
    forall i | 0 <= i < |lines| ensures !IsEmpty(lines[i]) {
      assert KeyOf(lines[i]).Some?;
      LinesWithIdsAreTasks(lines[i]);
    }
  }

  /** The first line from `from` on that is `line` completed on some day. */
  function FindCompletion(line: Content, lines: Lines, from: nat): (r: nat)
    requires from <= |lines|
    ensures from <= r <= |lines| && (r < |lines| ==> CompletionOf(line, lines[r]).Some?)
    decreases |lines| - from
  {
    if from == |lines| || CompletionOf(line, lines[from]).Some? then from else FindCompletion(line, lines, from + 1)
  }

  /** Where a line of the old file is in the new one: the same key, or its one completion. */
  function Counterpart(line: Content, after: Lines, newKeys: seq<Key>): (r: Option<nat>)
    requires |newKeys| == |after|
    ensures r.Some? ==> r.value < |after|
  {
    match KeyOf(line)
    case None => None
    case Some(key) =>
      var at := IndexOf(newKeys, key);
      if at < |after| then Some(at) else
      var hit := FindCompletion(line, after, 0);
      if hit < |after| && FindCompletion(line, after, hit + 1) == |after| then Some(hit) else None
  }

  /** Places in the new file of the lines met so far, and the plan so far. */
  datatype Progress = Progress(open: seq<nat>, done: seq<nat>, out: seq<Mutation>)

  /** What line `i` adds to the plan: a place, and a completion when it changed. */
  function PlanLine(p: Progress, i: nat, line: Content, after: Lines, at: nat): Option<Progress>
    requires at < |after|
  {
    if after[at] == line then Some(p.(open := p.open + [at])) else
    match CompletionOf(line, after[at])
    case None => None
    case Some(today) =>
      if |p.done| > i || i - |p.done| + 1 > U32_MAX then None else
      Some(Progress(p.open, p.done + [at], p.out + [CompleteTask(TaskRefAt(line, i - |p.done| + 1), ShowDate(today))]))
  }

  /** The plan after the first `i` lines of `before`. */
  function Planned(before: Lines, after: Lines, newKeys: seq<Key>, i: nat): Option<Progress>
    requires i <= |before| && |newKeys| == |after|
  {
    if i == 0 then Some(Progress([], [], [])) else
    match (Planned(before, after, newKeys, i - 1), Counterpart(before[i - 1], after, newKeys))
    case (Some(p), Some(at)) => PlanLine(p, i - 1, before[i - 1], after, at)
    case _ => None
  }

  /** One completion per line, in old order; nothing for any other diff. */
  function PlanOf(before: Lines, after: Lines): Option<seq<Mutation>> {
    match (KeysOf(after), KeysOf(before))
    case (Some(newKeys), Some(oldKeys)) =>
      if |oldKeys| != |newKeys| then None else
      (match Planned(before, after, newKeys, |before|)
       case None => None
       case Some(p) => if p.done != [] && p.open + p.done == seq(|after|, i => i) then Some(p.out) else None)
    case _ => None
  }

  /** The plan, built in one pass over the old file. */
  method Plan(before: Lines, after: Lines) returns (r: Option<seq<Mutation>>)
    ensures r == PlanOf(before, after)
  {
    hide KeysOf, Counterpart, CompletionOf, ShowDate, TaskRefAt, PlanLine;
    var newKeys := KeysOf(after);
    if newKeys.None? {
      return None;
    }
    var oldKeys := KeysOf(before);
    if oldKeys.None? || |oldKeys.value| != |newKeys.value| {
      return None;
    }
    var open: seq<nat>, done: seq<nat>, out: seq<Mutation> := [], [], [];
    for i := 0 to |before|
      invariant Planned(before, after, newKeys.value, i) == Some(Progress(open, done, out))
    {
      var at := Counterpart(before[i], after, newKeys.value);
      if at.None? {
        PlanStops(before, after, newKeys.value, i + 1);
        return None;
      }
      var line := before[i];
      if after[at.value] == line {
        PlanLineOpen(Progress(open, done, out), i, line, after, at.value);
        open := open + [at.value];
      } else {
        PlanLineDone(Progress(open, done, out), i, line, after, at.value);
        var today := CompletionOf(line, after[at.value]);
        if today.None? || |done| > i || i - |done| + 1 > U32_MAX {
          PlanStops(before, after, newKeys.value, i + 1);
          return None;
        }
        out := out + [CompleteTask(TaskRefAt(line, i - |done| + 1), ShowDate(today.value))];
        done := done + [at.value];
      }
    }
    if done == [] {
      return None;
    }
    return if open + done == seq(|after|, i => i) then Some(out) else None;
  }

  lemma PlanLineOpen(p: Progress, i: nat, line: Content, after: Lines, at: nat)
    requires at < |after| && after[at] == line
    ensures PlanLine(p, i, line, after, at) == Some(p.(open := p.open + [at]))
  {
    hide CompletionOf, ShowDate, TaskRefAt;
  }

  lemma PlanLineDone(p: Progress, i: nat, line: Content, after: Lines, at: nat)
    requires at < |after| && after[at] != line
    ensures PlanLine(p, i, line, after, at) ==
            if CompletionOf(line, after[at]).None? || |p.done| > i || i - |p.done| + 1 > U32_MAX then None
            else Some(Progress(p.open, p.done + [at],
                               p.out + [CompleteTask(TaskRefAt(line, i - |p.done| + 1),
                                                     ShowDate(CompletionOf(line, after[at]).value))]))
  {
    hide CompletionOf, ShowDate, TaskRefAt;
  }

  lemma {:induction false} PlanStops(before: Lines, after: Lines, newKeys: seq<Key>, i: nat)
    requires i <= |before| && |newKeys| == |after| && Planned(before, after, newKeys, i).None?
    ensures Planned(before, after, newKeys, |before|).None?
    decreases |before| - i
  {
    hide Counterpart, PlanLine;
    if i < |before| {
      PlanStops(before, after, newKeys, i + 1);
    }
  }

  // ---- the plan does what the command did ----

  /** A completion read off two lines is the one the daemon's own completion writes. */
  lemma CompletionIsDaemons(before: Content, after: Content)
    requires CompletionOf(before, after).Some?
    ensures Completed(before, ShowDate(CompletionOf(before, after).value)) == Some(after)
  {
    hide ParseDate, ShowDate, ParseLine;
    ParseShow(CompletionOf(before, after).value);
  }

  /** Completing a line among tasks puts it after all the others, the last one included. */
  lemma CompleteAmongTasks(front: Lines, line: Content, back: Lines, task: TaskRef, today: string, done: Content)
    requires NoneEmpty(front) && NoneEmpty(back) && !IsEmpty(line) && !IsEmpty(done)
    requires task.lineNumber == |front| + 1 && Completed(line, today) == Some(done) && done != line
    ensures Step(front + [line] + back, CompleteTask(task, today)) == Some(front + back + [done])
  {
    hide Completed, IsEmpty;
    var lines := front + [line] + back;
    var lines' := front + [done] + back;
    assert lines[|front|] == line && lines[|front| := done] == lines';
    assert NoneEmpty(lines');
    TailOfTasks(lines');
    MoveAmongTasks(front, done, back);
    if |front| + 1 == |lines'| {
      assert back == [] && lines' == front + back + [done];
    }
  }

  /** What a plan in progress has made of the old file: open lines, the lines to come, done lines. */
  ghost predicate Halfway(before: Lines, after: Lines, p: Progress, i: nat)
    requires i <= |before|
  {
    && |p.open| + |p.done| == i && Within(p.open, |after|) && Within(p.done, |after|)
    && Replayed(before, p.out) == Some(At(after, p.open) + before[i..] + At(after, p.done))
  }

  lemma HalfwayStart(before: Lines, after: Lines)
    ensures Halfway(before, after, Progress([], [], []), 0)
  {
    assert At(after, []) + before[0..] + At(after, []) == before;
  }

  lemma HalfwayOpen(before: Lines, after: Lines, p: Progress, i: nat, at: nat)
    requires i < |before| && at < |after| && Halfway(before, after, p, i) && after[at] == before[i]
    ensures Halfway(before, after, p.(open := p.open + [at]), i + 1)
  {
    hide Replayed;
    assert before[i..] == [before[i]] + before[i + 1..];
    assert At(after, p.open + [at]) == At(after, p.open) + [before[i]];
    assert At(after, p.open) + before[i..] + At(after, p.done)
        == At(after, p.open) + [before[i]] + before[i + 1..] + At(after, p.done);
  }

  lemma HalfwayDone(before: Lines, after: Lines, p: Progress, i: nat, at: nat, m: Mutation)
    requires i < |before| && at < |after| && Halfway(before, after, p, i) && NoneEmpty(before) && NoneEmpty(after)
    requires m.CompleteTask? && m.task.lineNumber == i - |p.done| + 1
    requires after[at] != before[i] && Completed(before[i], m.today) == Some(after[at])
    ensures Halfway(before, after, Progress(p.open, p.done + [at], p.out + [m]), i + 1)
  {
    hide Replayed, Step, Completed, IsEmpty;
    ReplayedPush(before, p.out, m);
    var line, front, back := before[i], At(after, p.open), before[i + 1..] + At(after, p.done);
    assert before[i..] == [line] + before[i + 1..];
    assert front + before[i..] + At(after, p.done) == front + [line] + back;
    CompleteAmongTasks(front, line, back, m.task, m.today, after[at]);
    assert At(after, p.done + [at]) == At(after, p.done) + [after[at]];
    assert front + back + [after[at]] == front + before[i + 1..] + At(after, p.done + [at]);
  }

  lemma PlanLineKeeps(before: Lines, after: Lines, p: Progress, i: nat, at: nat)
    requires i < |before| && at < |after| && Halfway(before, after, p, i) && NoneEmpty(before) && NoneEmpty(after)
    requires PlanLine(p, i, before[i], after, at).Some?
    ensures Halfway(before, after, PlanLine(p, i, before[i], after, at).value, i + 1)
  {
    hide CompletionOf, Completed, Halfway, NoneEmpty, ShowDate, IdText, IsRealDate;
    HalfwayCounts(before, after, p, i);
    if after[at] == before[i] {
      HalfwayOpen(before, after, p, i, at);
    } else {
      var today := CompletionOf(before[i], after[at]).value;
      CompletionIsDaemons(before[i], after[at]);
      HalfwayDone(before, after, p, i, at, CompleteTask(TaskRefAt(before[i], i - |p.done| + 1), ShowDate(today)));
    }
  }

  lemma HalfwayCounts(before: Lines, after: Lines, p: Progress, i: nat)
    requires i <= |before| && Halfway(before, after, p, i)
    ensures |p.open| + |p.done| == i
  {
  }

  lemma {:induction false} PlannedReplays(before: Lines, after: Lines, newKeys: seq<Key>, i: nat)
    requires i <= |before| && |newKeys| == |after| && NoneEmpty(before) && NoneEmpty(after)
    requires Planned(before, after, newKeys, i).Some?
    ensures Halfway(before, after, Planned(before, after, newKeys, i).value, i)
  {
    hide Counterpart, PlanLine, Halfway, NoneEmpty;
    if i == 0 {
      HalfwayStart(before, after);
    } else {
      PlannedReplays(before, after, newKeys, i - 1);
      PlanLineKeeps(before, after, Planned(before, after, newKeys, i - 1).value, i - 1,
                    Counterpart(before[i - 1], after, newKeys).value);
    }
  }

  /** A returned plan, replayed on the old file, gives exactly the new one. */
  lemma PlanReproduces(before: Lines, after: Lines)
    requires PlanOf(before, after).Some?
    ensures Reproduces(before, after, PlanOf(before, after).value)
  {
    hide Planned, Distinct, KeyOf, IsEmpty, Replayed, AllKeyed, Keys, NoneEmpty, Halfway;
    KeyedLinesAreTasks(before);
    KeyedLinesAreTasks(after);
    var newKeys := KeysOf(after).value;
    PlannedReplays(before, after, newKeys, |before|);
    HalfwayEnd(before, after, Planned(before, after, newKeys, |before|).value);
  }

  /** With every line met and every place taken in turn, what is left is the new file. */
  lemma HalfwayEnd(before: Lines, after: Lines, p: Progress)
    requires Halfway(before, after, p, |before|) && p.open + p.done == seq(|after|, i => i)
    ensures Replayed(before, p.out) == Some(after)
  {
    hide Replayed;
    assert At(after, p.open + p.done) == At(after, p.open) + At(after, p.done);
    assert At(after, p.open + p.done) == after;
    assert At(after, p.open) + before[|before|..] + At(after, p.done) == At(after, p.open) + At(after, p.done);
  }

  // ---- and it is returned exactly for what such a command leaves ----

  /** Line `j` of the new file is `line`: under its key, or, when no line has that key, as its only completion. */
  ghost predicate IsCounterpart(line: Content, after: Lines, j: nat) {
    && j < |after| && KeyOf(line).Some?
    && if exists q :: 0 <= q < |after| && KeyOf(after[q]) == KeyOf(line) then KeyOf(after[j]) == KeyOf(line)
       else forall q :: 0 <= q < |after| ==> (CompletionOf(line, after[q]).Some? <==> q == j)
  }

  lemma CounterpartIs(line: Content, after: Lines, j: nat)
    requires AllKeyed(after) && Distinct(Keys(after)) && KeyOf(line).Some?
    ensures Counterpart(line, after, Keys(after)) == Some(j) <==> IsCounterpart(line, after, j)
  {
    hide KeyOf, CompletionOf, FindCompletion;
    var keys, key := Keys(after), KeyOf(line).value;
    var at := IndexOf(keys, key);
    assert forall q :: 0 <= q < |after| ==> (KeyOf(after[q]) == KeyOf(line) <==> keys[q] == key);
    if at < |after| {
      assert KeyOf(after[at]) == KeyOf(line);
    } else {
      assert forall q :: 0 <= q < |after| ==> keys[q] in keys;
      OnlyCompletion(line, after, j);
    }
  }

  lemma {:induction false} NoneSkipped(line: Content, lines: Lines, from: nat)
    requires from <= |lines|
    ensures forall q :: from <= q < FindCompletion(line, lines, from) ==> CompletionOf(line, lines[q]).None?
    decreases |lines| - from
  {
    hide CompletionOf;
    if from < |lines| && CompletionOf(line, lines[from]).None? {
      NoneSkipped(line, lines, from + 1);
    }
  }

  lemma OnlyCompletion(line: Content, after: Lines, j: nat)
    ensures var hit := FindCompletion(line, after, 0);
            (hit == j && j < |after| && FindCompletion(line, after, hit + 1) == |after|)
            <==> j < |after| && forall q :: 0 <= q < |after| ==> (CompletionOf(line, after[q]).Some? <==> q == j)
  {
    hide CompletionOf;
    var hit := FindCompletion(line, after, 0);
    NoneSkipped(line, after, 0);
    if hit < |after| {
      NoneSkipped(line, after, hit + 1);
      var next := FindCompletion(line, after, hit + 1);
      assert CompletionOf(line, after[hit]).Some?;
      assert next < |after| ==> CompletionOf(line, after[next]).Some?;
    }
    assert j < |after| ==> CompletionOf(line, after[j]).Some? || CompletionOf(line, after[j]).None?;
  }

  /** The lines among the first `i` that are in the new file unchanged. */
  ghost function StayCount(before: Lines, after: Lines, at: seq<nat>, i: nat): (r: nat)
    requires i <= |at| == |before| && Within(at, |after|)
    ensures r <= i
  {
    if i == 0 then 0 else StayCount(before, after, at, i - 1) + if after[at[i - 1]] == before[i - 1] then 1 else 0
  }

  /** Line `k` is in the new file unchanged, or completed and under a number a reference can carry. */
  ghost predicate Expressed(before: Lines, after: Lines, at: seq<nat>, k: nat)
    requires k < |at| == |before| && Within(at, |after|)
  {
    after[at[k]] == before[k] || (CompletionOf(before[k], after[at[k]]).Some? && StayCount(before, after, at, k) < U32_MAX)
  }

  /** The places of the unchanged and of the completed lines among the first `i`, each in old order. */
  ghost predicate Laid(before: Lines, after: Lines, at: seq<nat>, p: Progress, i: nat)
    requires i <= |at| == |before| && Within(at, |after|)
  {
    && |p.open| == StayCount(before, after, at, i) && |p.open| + |p.done| == i
    && (forall k :: 0 <= k < i ==> PlacedAt(before, after, at, p, k))
    && (forall q :: 0 <= q < |p.open| ==> Filled(before, after, at, i, q, true))
    && (forall q :: 0 <= q < |p.done| ==> Filled(before, after, at, i, q, false))
  }

  ghost predicate PlacedAt(before: Lines, after: Lines, at: seq<nat>, p: Progress, k: nat)
    requires k < |at| == |before| && Within(at, |after|)
  {
    var n := StayCount(before, after, at, k);
    if after[at[k]] == before[k] then n < |p.open| && p.open[n] == at[k]
    else k - n < |p.done| && p.done[k - n] == at[k]
  }

  /** Line `k` is the `q`-th unchanged one, or the `q`-th completed one. */
  ghost predicate Fills(before: Lines, after: Lines, at: seq<nat>, k: nat, q: nat, stays: bool)
    requires k < |at| == |before| && Within(at, |after|)
  {
    && (after[at[k]] == before[k] <==> stays)
    && q == if stays then StayCount(before, after, at, k) else k - StayCount(before, after, at, k)
  }

  ghost predicate Filled(before: Lines, after: Lines, at: seq<nat>, i: nat, q: nat, stays: bool)
    requires i <= |at| == |before| && Within(at, |after|)
  {
    exists k :: 0 <= k < i && Fills(before, after, at, k, q, stays)
  }

  lemma FilledMore(before: Lines, after: Lines, at: seq<nat>, i: nat, q: nat, stays: bool)
    requires i < |at| == |before| && Within(at, |after|)
    requires Filled(before, after, at, i, q, stays) || Fills(before, after, at, i, q, stays)
    ensures Filled(before, after, at, i + 1, q, stays)
  {
    hide Fills;
  }

  lemma LaidMore(before: Lines, after: Lines, at: seq<nat>, p: Progress, p': Progress, i: nat)
    requires i < |at| == |before| && Within(at, |after|) && Laid(before, after, at, p, i)
    requires if after[at[i]] == before[i] then p'.open == p.open + [at[i]] && p'.done == p.done
             else p'.open == p.open && p'.done == p.done + [at[i]]
    ensures Laid(before, after, at, p', i + 1)
  {
    hide Filled;
    var n := i + 1;
    forall k | 0 <= k < n ensures PlacedAt(before, after, at, p', k) {
      if k < i {
        assert PlacedAt(before, after, at, p, k);
      }
    }
    forall q: nat | q < |p'.open| ensures Filled(before, after, at, n, q, true) {
      FilledMore(before, after, at, i, q, true);
    }
    forall q: nat | q < |p'.done| ensures Filled(before, after, at, n, q, false) {
      FilledMore(before, after, at, i, q, false);
    }
  }

  lemma {:induction false} PlannedIsLaid(before: Lines, after: Lines, keys: seq<Key>, at: seq<nat>, i: nat)
    requires i <= |at| == |before| && |keys| == |after| && Within(at, |after|)
    requires forall k :: 0 <= k < i ==> Counterpart(before[k], after, keys) == Some(at[k])
    ensures Planned(before, after, keys, i).Some? <==> forall k :: 0 <= k < i ==> Expressed(before, after, at, k)
    ensures Planned(before, after, keys, i).Some? ==> Laid(before, after, at, Planned(before, after, keys, i).value, i)
  {
    hide Counterpart, Laid, PlanLine, Expressed;
    if i == 0 {
      NothingLaid(before, after, at);
    } else {
      PlannedIsLaid(before, after, keys, at, i - 1);
      var was := Planned(before, after, keys, i - 1);
      if was.Some? {
        LaidOne(before, after, at, was.value, i - 1);
        assert Planned(before, after, keys, i) == PlanLine(was.value, i - 1, before[i - 1], after, at[i - 1]);
      }
    }
  }

  lemma NothingLaid(before: Lines, after: Lines, at: seq<nat>)
    requires |at| == |before| && Within(at, |after|)
    ensures Laid(before, after, at, Progress([], [], []), 0)
  {
  }

  lemma LaidOne(before: Lines, after: Lines, at: seq<nat>, p: Progress, i: nat)
    requires i < |at| == |before| && Within(at, |after|) && Laid(before, after, at, p, i)
    ensures var next := PlanLine(p, i, before[i], after, at[i]);
            && (next.Some? <==> Expressed(before, after, at, i))
            && (next.Some? ==> Laid(before, after, at, next.value, i + 1))
  {
    hide Laid, CompletionOf, ShowDate, TaskRefAt, StayCount;
    LaidCounts(before, after, at, p, i);
    if after[at[i]] == before[i] {
      PlanLineOpen(p, i, before[i], after, at[i]);
    } else {
      PlanLineDone(p, i, before[i], after, at[i]);
    }
    var next := PlanLine(p, i, before[i], after, at[i]);
    if next.Some? {
      LaidMore(before, after, at, p, next.value, i);
    }
  }

  lemma LaidCounts(before: Lines, after: Lines, at: seq<nat>, p: Progress, i: nat)
    requires i <= |at| == |before| && Within(at, |after|) && Laid(before, after, at, p, i)
    ensures |p.open| == StayCount(before, after, at, i) && |p.open| + |p.done| == i
  {
  }

  /** The unchanged lines come first and the completed ones after them, each in old order. */
  ghost predicate DoneMovedLast(before: Lines, after: Lines, at: seq<nat>)
    requires |at| == |before| && Within(at, |after|)
  {
    var m := StayCount(before, after, at, |before|);
    forall k :: 0 <= k < |before| ==>
      at[k] == if after[at[k]] == before[k] then StayCount(before, after, at, k) else m + k - StayCount(before, after, at, k)
  }

  lemma LaidInTurn(before: Lines, after: Lines, at: seq<nat>, p: Progress)
    requires |at| == |before| == |after| && Within(at, |after|) && Laid(before, after, at, p, |before|)
    ensures p.open + p.done == seq(|after|, i => i) <==> DoneMovedLast(before, after, at)
  {
    hide StayCount;
    var n, m := |before|, |p.open|;
    LaidCounts(before, after, at, p, n);
    if p.open + p.done == seq(|after|, i => i) {
      forall k | 0 <= k < n
        ensures at[k] == if after[at[k]] == before[k] then StayCount(before, after, at, k) else m + k - StayCount(before, after, at, k)
      {
        InTurn(before, after, at, p, k);
      }
    }
    if DoneMovedLast(before, after, at) {
      forall q: nat | q < n ensures (p.open + p.done)[q] == q {
        if q < m {
          FilledInTurn(before, after, at, p, q, true);
        } else {
          FilledInTurn(before, after, at, p, q - m, false);
        }
      }
    }
  }

  lemma FilledInTurn(before: Lines, after: Lines, at: seq<nat>, p: Progress, q: nat, stays: bool)
    requires |at| == |before| == |after| && Within(at, |after|) && Laid(before, after, at, p, |before|)
    requires DoneMovedLast(before, after, at) && q < if stays then |p.open| else |p.done|
    ensures if stays then p.open[q] == q else p.done[q] == |p.open| + q
  {
    hide StayCount;
    assert Filled(before, after, at, |before|, q, stays);
    var k :| 0 <= k < |before| && Fills(before, after, at, k, q, stays);
    assert PlacedAt(before, after, at, p, k);
  }

  lemma InTurn(before: Lines, after: Lines, at: seq<nat>, p: Progress, k: nat)
    requires |at| == |before| == |after| && Within(at, |after|) && Laid(before, after, at, p, |before|)
    requires k < |before| && p.open + p.done == seq(|after|, i => i)
    ensures var n := StayCount(before, after, at, k);
            at[k] == if after[at[k]] == before[k] then n else |p.open| + k - n
  {
    hide StayCount;
    assert PlacedAt(before, after, at, p, k);
    var n, all := StayCount(before, after, at, k), p.open + p.done;
    if after[at[k]] == before[k] {
      assert all[n] == p.open[n];
    } else {
      assert all[|p.open| + (k - n)] == p.done[k - n];
    }
  }

  /** Each old line stands at `at` in the new file, unchanged or completed, the completed ones below the rest; at least one is. */
  ghost predicate CompletedAt(before: Lines, after: Lines, at: seq<nat>) {
    && |at| == |before| && Within(at, |after|)
    && (forall k :: 0 <= k < |before| ==> IsCounterpart(before[k], after, at[k]) && Expressed(before, after, at, k))
    && StayCount(before, after, at, |before|) < |before| && DoneMovedLast(before, after, at)
  }

  ghost predicate Keyed(lines: Lines) {
    AllKeyed(lines) && Distinct(Keys(lines))
  }

  /**
   A plan is returned if and only if no line of either file is blank or keyed like another, the files are as
   long, and the new one is the old one with some lines completed and moved last.
   */
  lemma PlanIffCompleted(before: Lines, after: Lines)
    ensures PlanOf(before, after).Some? <==>
              Keyed(before) && Keyed(after) && |before| == |after| && exists at :: CompletedAt(before, after, at)
  {
    hide AllKeyed, Keys, Planned, DoneMovedLast, CompletedAt, Laid;
    if Keyed(before) && Keyed(after) && |before| == |after| {
      if PlanOf(before, after).Some? {
        PlannedIsCompleted(before, after);
      }
      if at :| CompletedAt(before, after, at) {
        CompletedIsPlanned(before, after, at);
      }
    }
  }

  lemma {:induction false} AllHaveCounterparts(before: Lines, after: Lines, keys: seq<Key>, i: nat)
    requires i <= |before| && |keys| == |after| && Planned(before, after, keys, i).Some?
    ensures forall k :: 0 <= k < i ==> Counterpart(before[k], after, keys).Some?
  {
    hide Counterpart, PlanLine;
    if i > 0 {
      AllHaveCounterparts(before, after, keys, i - 1);
    }
  }

  lemma CounterpartsAre(before: Lines, after: Lines, at: seq<nat>)
    requires Keyed(before) && Keyed(after) && |at| == |before|
    ensures (forall k :: 0 <= k < |before| ==> Counterpart(before[k], after, Keys(after)) == Some(at[k]))
       <==> forall k :: 0 <= k < |before| ==> IsCounterpart(before[k], after, at[k])
  {
    hide Counterpart, IsCounterpart, KeyOf;
    forall k | 0 <= k < |before|
      ensures Counterpart(before[k], after, Keys(after)) == Some(at[k]) <==> IsCounterpart(before[k], after, at[k])
    {
      CounterpartIs(before[k], after, at[k]);
    }
  }

  lemma PlannedIsCompleted(before: Lines, after: Lines)
    requires Keyed(before) && Keyed(after) && |before| == |after| && PlanOf(before, after).Some?
    ensures exists at :: CompletedAt(before, after, at)
  {
    hide AllKeyed, Keys, Planned, DoneMovedLast, Laid, Counterpart, IsCounterpart, Expressed, Distinct, StayCount;
    var n, keys := |before|, Keys(after);
    AllHaveCounterparts(before, after, keys, n);
    var at: seq<nat> := seq(n, k requires 0 <= k < n => Counterpart(before[k], after, keys).value);
    CounterpartsAre(before, after, at);
    PlannedIsLaid(before, after, keys, at, n);
    var p := Planned(before, after, keys, n).value;
    LaidCounts(before, after, at, p, n);
    LaidInTurn(before, after, at, p);
    assert CompletedAt(before, after, at);
  }

  lemma CompletedIsPlanned(before: Lines, after: Lines, at: seq<nat>)
    requires Keyed(before) && Keyed(after) && |before| == |after| && CompletedAt(before, after, at)
    ensures PlanOf(before, after).Some?
  {
    hide AllKeyed, Keys, Planned, DoneMovedLast, Laid, Counterpart, IsCounterpart, Expressed, Distinct, StayCount;
    var n, keys := |before|, Keys(after);
    CounterpartsAre(before, after, at);
    PlannedIsLaid(before, after, keys, at, n);
    var p := Planned(before, after, keys, n).value;
    LaidCounts(before, after, at, p, n);
    LaidInTurn(before, after, at, p);
  }
}

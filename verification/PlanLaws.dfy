/**
 What single mutations do to a file, by where its last line that is not blank stands; and which lines the
 planners take for completed, done and the same.
 */
module PlanLaws {
  import opened Wrappers
  import opened Lists
  import opened Scanner
  import opened Words
  import opened Dates
  import opened TodoLine
  import opened TodoEdit
  import opened TodoLines
  import opened Grammar
  import opened LenientLines
  import opened Rereads
  import opened Respelled
  import opened EditLaws
  import opened PlanCheck
  import opened ChangedLines
  import CompletePlan
  import ArchivePlan

  // ---- one mutation ----

  ghost predicate AllEmpty(lines: Lines) {
    forall i :: 0 <= i < |lines| ==> IsEmpty(lines[i])
  }

  /** Lines that end in one that is not blank, or none. */
  predicate Settled(lines: Lines) {
    lines == [] || !IsEmpty(lines[|lines| - 1])
  }

  lemma {:induction false} TailIs(front: Lines, blanks: Lines)
    requires Settled(front) && AllEmpty(blanks)
    ensures Tail(front + blanks) == |front|
  {
    hide IsEmpty;
    var lines := front + blanks;
    if blanks == [] {
      assert lines == front;
    } else {
      var most := blanks[..|blanks| - 1];
      assert lines[..|lines| - 1] == front + most && lines[|lines| - 1] == blanks[|blanks| - 1];
      TailIs(front, most);
    }
  }

  lemma InsertedAfter(front: Lines, blanks: Lines, line: Content)
    ensures Inserted(front + blanks, |front|, line) == front + [line] + blanks
  {
    var lines := front + blanks;
    assert lines[..|front|] == front && lines[|front|..] == blanks;
  }

  /** A line that is added, or sent to the end, goes after the last one that is not blank. */
  lemma AddStep(front: Lines, blanks: Lines, line: string)
    requires Settled(front) && AllEmpty(blanks)
    ensures Step(front + blanks, AddLine(line)) == Some(front + [Text(line)] + blanks)
  {
    hide Tail, Inserted, IsEmpty;
    TailIs(front, blanks);
    InsertedAfter(front, blanks, Text(line));
  }

  lemma MoveStep(lines: Lines, k: nat, id: string, front: Lines, blanks: Lines)
    requires k < |lines| && !IsEmpty(lines[k]) && lines[..k] + lines[k + 1..] == front + blanks
    requires Settled(front) && AllEmpty(blanks)
    ensures Step(lines, MoveToEnd(TaskRef(k + 1, id))) == Some(front + [lines[k]] + blanks)
  {
    hide Tail, Inserted, IsEmpty;
    TailIs(front, blanks);
    InsertedAfter(front, blanks, lines[k]);
  }

  /** An edit and a delete act on the line named alone; a blank left in its place keeps the numbers below. */
  lemma InPlaceSteps(lines: Lines, k: nat, id: string, line: string)
    requires k < |lines| && !IsEmpty(lines[k])
    ensures Step(lines, EditLine(TaskRef(k + 1, id), line)) == Some(lines[..k] + [Text(line)] + lines[k + 1..])
    ensures Step(lines, DeleteTask(TaskRef(k + 1, id), true)) == Some(lines[..k] + [Text("")] + lines[k + 1..])
    ensures Step(lines, DeleteTask(TaskRef(k + 1, id), false)) == Some(lines[..k] + lines[k + 1..])
  {
    hide IsEmpty;
    assert lines[k := Text(line)] == lines[..k] + [Text(line)] + lines[k + 1..];
    assert lines[k := Text("")] == lines[..k] + [Text("")] + lines[k + 1..];
  }

  /** A number that names no line, or a blank one, and a day that is none, are refused. */
  lemma RefusedSteps(lines: Lines, task: TaskRef, line: string, today: string, leaveBlank: bool)
    ensures task.lineNumber == 0 || task.lineNumber > |lines| || IsEmpty(lines[task.lineNumber - 1]) ==>
              Step(lines, EditLine(task, line)) == Step(lines, CompleteTask(task, today)) == None
              && Step(lines, DeleteTask(task, leaveBlank)) == Step(lines, MoveToEnd(task)) == None
    ensures ParseDate(today).None? ==> Step(lines, CompleteTask(task, today)) == None
    ensures Step(lines, OtherKind) == None && Step(lines, NoKind) == Some(lines)
  {
    hide IsEmpty, ParseDate, Edited, Tail;
  }

  /** A line that a completion changes stays if nothing but blanks follows it, and else goes where a line sent to the end does. */
  lemma CompleteStep(lines: Lines, k: nat, id: string, today: Date, front: Lines, blanks: Lines)
    requires k < |lines| && lines[k].Text? && lines[k].text != "" && lines[..k] + lines[k + 1..] == front + blanks
    requires Settled(front) && AllEmpty(blanks)
    ensures var done := Text(Edited(lines[k].text, [Complete(today)]));
            Step(lines, CompleteTask(TaskRef(k + 1, id), ShowDate(today))) ==
            Some(if done == lines[k] then lines
                 else if AllEmpty(lines[k + 1..]) then lines[k := done]
                 else front + [done] + blanks)
  {
    hide Tail, Inserted, IsEmpty, Edited, ShowDate, Removed;
    CompletedText(lines[k], today);
    var done := Text(Edited(lines[k].text, [Complete(today)]));
    var task := TaskRef(k + 1, id);
    NotEmptyText(lines[k].text);
    assert TaskIndex(lines, task) == Some(k);
    if done == lines[k] {
      assert lines[k := done] == lines;
    } else {
      DoneIsText(lines[k].text, today);
      NotEmptyText(done.text);
      WhereItEnds(lines[k := done], k);
      RemovedAt(lines, k, done);
      TailIs(front, blanks);
      InsertedAfter(front, blanks, done);
    }
  }

  lemma CompletedText(line: Content, today: Date)
    requires line.Text?
    ensures Completed(line, ShowDate(today)) == Some(Text(Edited(line.text, [Complete(today)])))
  {
    hide ParseDate, ShowDate, Edited;
    ParseShow(today);
  }

  lemma NotEmptyText(s: string)
    ensures IsEmpty(Text(s)) <==> s == ""
  {
  }

  lemma RemovedAt(lines: Lines, k: nat, line: Content)
    requires k < |lines|
    ensures Removed(lines[k := line], k) == lines[..k] + lines[k + 1..]
  {
  }

  lemma WhereItEnds(lines: Lines, k: nat)
    requires k < |lines| && !IsEmpty(lines[k])
    ensures Tail(lines) == k + 1 <==> AllEmpty(lines[k + 1..])
  {
    hide IsEmpty, Tail;
    var rest := lines[k + 1..];
    if AllEmpty(rest) {
      TailIs(lines[..k + 1], rest);
      assert lines[..k + 1] + rest == lines;
    } else {
      var i :| 0 <= i < |rest| && !IsEmpty(rest[i]);
      assert lines[k + 1 + i] == rest[i];
      TailIsPast(lines, k + 1 + i);
    }
  }

  lemma {:induction false} TailIsPast(lines: Lines, i: nat)
    requires i < |lines| && !IsEmpty(lines[i])
    ensures Tail(lines) > i
    decreases |lines|
  {
    if i < |lines| - 1 && IsEmpty(lines[|lines| - 1]) {
      TailIsPast(lines[..|lines| - 1], i);
    }
  }

  lemma DoneIsText(raw: string, today: Date)
    requires Edited(raw, [Complete(today)]) != raw
    ensures Edited(raw, [Complete(today)]) != ""
  {
    hide DraftOf, Edited, ShowDate, Dated, KeptApart, TodoEdit.SetTag, PriorityInWords;
    CompleteLaw(raw, today);
  }

  // ---- what is taken for a completion ----

  /** A line just completed reads as done on that day, whatever follows. */
  lemma DoneIsRead(today: Date, created: Option<Date>, d: string)
    ensures var t := DraftOf(Printed(Prefix(true, Some(today), created, None), d));
            t.prefix.completed && t.prefix.completionDate == Some(today)
  {
    hide DraftOf, ShowDate, ParseDate, GapOf, AfterGap, FirstWord, CutPriority, CutDate, Dated, IsPriorityWord;
    var raw, rest := Printed(Prefix(true, Some(today), created, None), d), Dated(created, d);
    var s := ShowDate(today) + (Sep(rest) + rest);
    MarkThenDate(today, rest);
    assert raw == "x" + (" " + s);
    XIsWord();
    WordThen("x", " " + s);
    assert raw[1..] == " " + s;
    CutTakes(s);
    StartsOnlyWhole(raw);
    CutHasDate(s);
  }

  lemma MarkThenDate(today: Date, rest: string)
    ensures var s := ShowDate(today) + (Sep(rest) + rest);
            AfterGap(" " + s) == s && !IsPriorityWord(FirstWord(s)) && ParseDate(FirstWord(s)) == Some(today)
  {
    hide ShowDate, ParseDate, FirstWord;
    var s := ShowDate(today) + (Sep(rest) + rest);
    ShownDateIsWord(today);
    SepStartsWs(rest);
    WordThen(ShowDate(today), Sep(rest) + rest);
    assert s[0] == ShowDate(today)[0];
    SpaceThen(s);
    ShapeIsNoPriority(ShowDate(today));
  }

  lemma CutHasDate(s: string)
    ensures ParseDate(FirstWord(s)).Some? ==> CutDate(s).0.Some? && CutDate(s).0.value.0 == ParseDate(FirstWord(s)).value
  {
    hide ParseDate, FirstWord, GapOf, AfterGap;
  }

  /** Completing any open line is seen as that line's completion on that day. */
  lemma CompletionIsSeen(raw: string, today: Date)
    requires raw != "" && !DraftOf(raw).prefix.completed
    ensures var done := Edited(raw, [Complete(today)]);
            done != raw && done != "" && CompletePlan.CompletionOf(Text(raw), Text(done)) == Some(today)
  {
    hide DraftOf, Edited, KindOf, ShowDate, KeptApart, TodoEdit.SetTag, PriorityInWords, Printed;
    var was := DraftOf(raw);
    CompleteLaw(raw, today);
    var d := if was.prefix.priority.Some? then TodoEdit.SetTag(was.description, "pri", [was.prefix.priority.value]) else was.description;
    DoneIsRead(today, was.prefix.creationDate, d);
    var done := Edited(raw, [Complete(today)]);
    assert done != raw;
    DoneIsText(raw, today);
    KindOfDraft(raw);
    KindOfDraft(done);
    SeenAs(raw, done, KindOf(Text(raw)).value.task, KindOf(Text(done)).value.task, today);
  }

  lemma SeenAs(raw: string, done: string, b: Task, a: Task, today: Date)
    requires KindOf(Text(raw)) == Some(TaskLine(b)) && KindOf(Text(done)) == Some(TaskLine(a))
    requires !b.completed && a.completed && a.completionDate == Some(today) && done == Edited(raw, [Complete(today)])
    ensures CompletePlan.CompletionOf(Text(raw), Text(done)) == Some(today)
  {
    hide ParseLine, Edited;
    var before, after := Text(raw), Text(done);
    assert Text(Edited(before.text, [Complete(a.completionDate.value)])) == after;
  }

  /** And a file of that line alone is sent as its completion. */
  lemma OneCompletion(raw: string, today: Date)
    requires raw != "" && !DraftOf(raw).prefix.completed
    ensures var done := Edited(raw, [Complete(today)]);
            CompletePlan.PlanOf([Text(raw)], [Text(done)]) ==
            Some([CompleteTask(TaskRef(1, IdText(Text(raw))), ShowDate(today))])
  {
    hide DraftOf, Edited, KindOf, ShowDate, CompletePlan.CompletionOf, IdText, TaskId, CompletePlan.Planned;
    var done := Edited(raw, [Complete(today)]);
    CompletionIsSeen(raw, today);
    KindOfDraft(raw);
    KindOfDraft(done);
    var before, after := [Text(raw)], [Text(done)];
    assert CompletePlan.KeyOf(before[0]).Some? && CompletePlan.KeyOf(after[0]).Some?;
    assert CompletePlan.AllKeyed(before) && CompletePlan.AllKeyed(after);
    var keys := CompletePlan.Keys(after);
    assert CompletePlan.KeysOf(after) == Some(keys) && CompletePlan.KeysOf(before).Some?;
    OneStep(before[0], after[0], keys, today);
    assert [] + [0] == seq(|after|, i => i);
  }

  lemma OneStep(was: Content, done: Content, keys: seq<CompletePlan.Key>, today: Date)
    requires was != done && CompletePlan.CompletionOf(was, done) == Some(today) && CompletePlan.KeyOf(was).Some? && |keys| == 1
    ensures CompletePlan.Planned([was], [done], keys, 1) ==
            Some(CompletePlan.Progress([], [0], [CompleteTask(TaskRef(1, IdText(was)), ShowDate(today))]))
  {
    hide ShowDate, CompletePlan.CompletionOf, IdText, CompletePlan.KeyOf;
    OnlyPlace(keys, CompletePlan.KeyOf(was).value);
    assert CompletePlan.FindCompletion(was, [done], 1) == 1;
    assert CompletePlan.FindCompletion(was, [done], 0) == 0;
    assert CompletePlan.Counterpart(was, [done], keys) == Some(0);
    var start := CompletePlan.Progress([], [], []);
    assert CompletePlan.Planned([was], [done], keys, 0) == Some(start);
    CompletePlan.PlanLineDone(start, 0, was, [done], 0);
    var m := CompleteTask(TaskRef(1, IdText(was)), ShowDate(today));
    assert TaskRefAt(was, 1) == m.task;
    assert [] + [0] == [0] && [] + [m] == [m];
    assert CompletePlan.PlanLine(start, 0, was, [done], 0) == Some(CompletePlan.Progress([], [0], [m]));
    assert [was][0] == was;
  }

  lemma OnlyPlace<T>(s: seq<T>, x: T)
    requires |s| == 1
    ensures IndexOf(s, x) == 0 || IndexOf(s, x) == 1
  {
  }

  /** Which lines have a key, and when two lines have the same. */
  lemma KeysAreIds(a: Content, b: Content)
    ensures CompletePlan.KeyOf(a).Some? <==> KindOf(a).Some? && !IsEmpty(a)
    ensures CompletePlan.KeyOf(a).Some? && CompletePlan.KeyOf(b).Some? ==>
              (CompletePlan.KeyOf(a) == CompletePlan.KeyOf(b) <==>
               if IdOf(a).Some? then IdOf(a) == IdOf(b) else IdOf(b).None? && a == b)
  {
    hide ParseLine, TaskId;
    LinesWithIdsAreTasks(a);
    BlankLine(a);
  }

  lemma BlankLine(a: Content)
    ensures KindOf(a) == Some(Blank) <==> IsEmpty(a)
  {
    LinesWithIdsAreTasks(a);
  }

  // ---- what is taken for done ----

  /** An archived line is done: the word `x` comes first, and a space after it. */
  lemma DoneByText(raw: string)
    ensures ArchivePlan.IsDone(Text(raw)) <==> FirstWord(raw) == "x" && |raw| > 1 && raw[1] == ' '
    ensures ArchivePlan.IsDone(Text(raw)) ==> DraftOf(raw).prefix.completed
  {
    hide DraftOf, RunLen;
    if "x " <= raw {
      XIsWord();
      assert raw == "x" + raw[1..];
      WordThen("x", raw[1..]);
      StartsOnlyWhole(raw);
    }
  }

  /** A done line above an open one, both with ids, is archived by one move. */
  lemma OneArchived(done: Content, open: Content, u: Ulid, v: Ulid)
    requires IdOf(done) == Some(u) && IdOf(open) == Some(v) && u != v
    requires ArchivePlan.IsDone(done) && !ArchivePlan.IsDone(open)
    ensures ArchivePlan.PlanOf([done, open], [open, done]) == Some([MoveToEnd(TaskRef(1, u))])
  {
    hide IdOf, ArchivePlan.IsDone;
    var before, after := [done, open], [open, done];
    assert ArchivePlan.AllIdentified(before) && ArchivePlan.AllIdentified(after);
    assert ArchivePlan.Ids(before) == [u, v] && ArchivePlan.Ids(after) == [v, u];
    var gone := ArchivePlan.DoneIds(after, [v, u]);
    assert gone == {u} by {
      assert ArchivePlan.IsDone(after[1]) && !ArchivePlan.IsDone(after[0]);
    }
    TwoParts(u, v);
    TwoEdits(done, open, u, v);
    TwoMoves(done, open, u, v);
  }

  lemma TwoParts(u: Ulid, v: Ulid)
    requires u != v
    ensures ArchivePlan.Part([u, v], {u}, false) == [v] && ArchivePlan.Part([u, v], {u}, true) == [u]
  {
    assert [u, v][..1] == [u] && [u][..0] == [];
    assert ArchivePlan.Part([u], {u}, false) == [] && ArchivePlan.Part([u], {u}, true) == [u];
  }

  lemma TwoEdits(done: Content, open: Content, u: Ulid, v: Ulid)
    requires u != v
    ensures ArchivePlan.EditsOf([done, open], [open, done], [u, v], [v, u], 2) == Some([])
  {
    hide TaskRefAt;
    assert [v, u][1..] == [u] && IndexOf([v, u], u) == 1 && IndexOf([v, u], v) == 0;
    assert ArchivePlan.EditsOf([done, open], [open, done], [u, v], [v, u], 0) == Some([]);
    assert ArchivePlan.EditsOf([done, open], [open, done], [u, v], [v, u], 1) == Some([]);
  }

  lemma TwoMoves(done: Content, open: Content, u: Ulid, v: Ulid)
    requires u != v && IdOf(done) == Some(u)
    ensures ArchivePlan.MovesOf([done, open], [u, v], {u}, 2) == Some([MoveToEnd(TaskRef(1, u))])
  {
    hide IdOf;
    assert ArchivePlan.MovesOf([done, open], [u, v], {u}, 0) == Some([]);
    assert TaskRefAt(done, 1) == TaskRef(1, u);
    assert [u, v][0] == u && [done, open][0] == done;
    assert [] + [MoveToEnd(TaskRefAt(done, 1))] == [MoveToEnd(TaskRef(1, u))];
    assert ArchivePlan.MovesOf([done, open], [u, v], {u}, 1) == Some([MoveToEnd(TaskRef(1, u))]);
  }
}

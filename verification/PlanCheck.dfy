/**
 What a list of mutations does to a file, the way the daemon applies them: each names a line by its
 number as the earlier ones left it. A plan is only sent when it reproduces the new file.
 */
module PlanCheck {
  import opened Wrappers
  import opened Dates
  import opened TodoEdit
  import opened TodoLines

  type Lines = seq<Content>

  const U32_MAX: nat := 0xFFFF_FFFF

  datatype TaskRef = TaskRef(lineNumber: nat, taskId: string)

  /** A reference to `line` under a number. */
  function TaskRefAt(line: Content, lineNumber: nat): TaskRef {
    TaskRef(lineNumber, IdText(line))
  }

  /** A line number as a reference carries it: one too large to write becomes the largest. */
  function NumberOf(i: nat): nat {
    if i + 1 > U32_MAX then U32_MAX else i + 1
  }

  datatype Mutation =
    | EditLine(task: TaskRef, newLine: string)
    | CompleteTask(task: TaskRef, today: string)
    | DeleteTask(task: TaskRef, leaveBlank: bool)
    | MoveToEnd(task: TaskRef)
    | AddLine(line: string)
    | OtherKind
    | NoKind

  /** Where a line sent to the end goes: only blanks stand at or below it, and no blank just above. */
  function Tail(lines: Lines): (r: nat)
    ensures r <= |lines|
  {
    if lines == [] then 0
    else if !IsEmpty(lines[|lines| - 1]) then |lines| else Tail(lines[..|lines| - 1])
  }

  /** The place a reference names among lines numbered from one; a number out of range or a blank line's names none. */
  function TaskIndex(lines: Lines, task: TaskRef): (r: Option<nat>)
    ensures r.Some? ==> r.value < |lines|
  {
    if task.lineNumber == 0 || task.lineNumber > |lines| || IsEmpty(lines[task.lineNumber - 1]) then None
    else Some(task.lineNumber - 1)
  }

  /** What a completion dated `today` leaves of a line; there is none when `today` is no date. */
  function Completed(line: Content, today: string): Option<Content> {
    match ParseDate(today)
    case None => None
    case Some(d) => Some(if line.Text? then Text(Edited(line.text, [Complete(d)])) else line)
  }

  function Removed(lines: Lines, at: nat): Lines
    requires at < |lines|
  {
    lines[..at] + lines[at + 1..]
  }

  function Inserted(lines: Lines, at: nat, line: Content): Lines
    requires at <= |lines|
  {
    lines[..at] + [line] + lines[at..]
  }

  function MovedToEnd(lines: Lines, at: nat): Lines
    requires at < |lines|
  {
    Inserted(Removed(lines, at), Tail(Removed(lines, at)), lines[at])
  }

  /** One mutation, a mutation of no kind doing nothing; nothing where the daemon would refuse it. */
  function Step(lines: Lines, m: Mutation): Option<Lines> {
    match m
    case EditLine(task, newLine) =>
      (match TaskIndex(lines, task)
       case None => None
       case Some(at) => Some(lines[at := Text(newLine)]))
    case CompleteTask(task, today) =>
      (match TaskIndex(lines, task)
       case None => None
       case Some(at) =>
         match Completed(lines[at], today)
         case None => None
         case Some(done) =>
           var lines' := lines[at := done];
           Some(if done != lines[at] && at + 1 != Tail(lines') then MovedToEnd(lines', at) else lines'))
    case DeleteTask(task, leaveBlank) =>
      (match TaskIndex(lines, task)
       case None => None
       case Some(at) => Some(if leaveBlank then lines[at := Text("")] else Removed(lines, at)))
    case MoveToEnd(task) =>
      (match TaskIndex(lines, task)
       case None => None
       case Some(at) => Some(MovedToEnd(lines, at)))
    case AddLine(line) => Some(Inserted(lines, Tail(lines), Text(line)))
    case OtherKind => None
    case NoKind => Some(lines)
  }

  function Replayed(lines: Lines, muts: seq<Mutation>): Option<Lines>
    decreases |muts|
  {
    if muts == [] then Some(lines) else
    match Step(lines, muts[0])
    case None => None
    case Some(lines') => Replayed(lines', muts[1..])
  }

  /** `muts` applied one after the other to a growing and shrinking list. */
  method Replay(before: Lines, muts: seq<Mutation>) returns (r: Option<Lines>)
    ensures r == Replayed(before, muts)
  {
    var lines := before;
    assert muts[0..] == muts;
    for i := 0 to |muts|
      invariant Replayed(lines, muts[i..]) == Replayed(before, muts)
    {
      assert muts[i..][0] == muts[i] && muts[i..][1..] == muts[i + 1..];
      match muts[i] {
        case EditLine(task, newLine) =>
          var at := TaskIndex(lines, task);
          if at.None? {
            return None;
          }
          lines := lines[at.value := Text(newLine)];
        case CompleteTask(task, today) =>
          var at := TaskIndex(lines, task);
          if at.None? {
            return None;
          }
          var done := Completed(lines[at.value], today);
          if done.None? {
            return None;
          }
          var changed := done.value != lines[at.value];
          lines := lines[at.value := done.value];
          if changed && at.value + 1 != Tail(lines) {
            var moved := lines[at.value];
            lines := Removed(lines, at.value);
            lines := Inserted(lines, Tail(lines), moved);
          }
        case DeleteTask(task, leaveBlank) =>
          var at := TaskIndex(lines, task);
          if at.None? {
            return None;
          }
          if leaveBlank {
            lines := lines[at.value := Text("")];
          } else {
            lines := Removed(lines, at.value);
          }
        case MoveToEnd(task) =>
          var at := TaskIndex(lines, task);
          if at.None? {
            return None;
          }
          var moved := lines[at.value];
          lines := Removed(lines, at.value);
          lines := Inserted(lines, Tail(lines), moved);
        case AddLine(line) => lines := Inserted(lines, Tail(lines), Text(line));
        case OtherKind => return None;
        case NoKind =>
      }
    }
    return Some(lines);
  }

  /** Applying `muts` to `before` yields `new`, line for line. */
  predicate Reproduces(before: Lines, after: Lines, muts: seq<Mutation>) {
    Replayed(before, muts) == Some(after)
  }

  // ---- replaying in steps ----

  ghost predicate NoneEmpty(lines: Lines) {
    forall i :: 0 <= i < |lines| ==> !IsEmpty(lines[i])
  }

  lemma TailOfTasks(lines: Lines)
    requires NoneEmpty(lines)
    ensures Tail(lines) == |lines|
  {
  }

  lemma {:induction false} ReplayedAppend(lines: Lines, ms: seq<Mutation>, ns: seq<Mutation>)
    ensures Replayed(lines, ms + ns)
         == match Replayed(lines, ms) case None => None case Some(lines') => Replayed(lines', ns)
    decreases |ms|
  {
    hide Step;
    if ms == [] {
      assert ms + ns == ns;
    } else {
      assert (ms + ns)[1..] == ms[1..] + ns;
      if Step(lines, ms[0]).Some? {
        ReplayedAppend(Step(lines, ms[0]).value, ms[1..], ns);
      }
    }
  }

  lemma ReplayedPush(lines: Lines, ms: seq<Mutation>, m: Mutation)
    ensures Replayed(lines, ms + [m])
         == match Replayed(lines, ms) case None => None case Some(lines') => Step(lines', m)
  {
    hide Step;
    ReplayedAppend(lines, ms, [m]);
    assert [m][1..] == [];
  }

  lemma ReplayedNothing(lines: Lines)
    ensures Replayed(lines, []) == Some(lines)
  {
  }

  lemma ReplayedFirst(m: Mutation, ms: seq<Mutation>, lines: Lines)
    ensures Replayed(lines, [m] + ms) == match Step(lines, m) case None => None case Some(lines') => Replayed(lines', ms)
  {
    hide Step;
    assert ([m] + ms)[1..] == ms;
  }

  /** Among tasks only, a line sent to the end lands after all the others. */
  lemma MoveAmongTasks(front: Lines, line: Content, back: Lines)
    requires NoneEmpty(front + [line] + back)
    ensures MovedToEnd(front + [line] + back, |front|) == front + back + [line]
  {
    var lines := front + [line] + back;
    assert Removed(lines, |front|) == front + back;
    assert forall i :: 0 <= i < |front + back| ==>
                         (front + back)[i] == if i < |front| then lines[i] else lines[i + 1];
    TailOfTasks(front + back);
  }
}

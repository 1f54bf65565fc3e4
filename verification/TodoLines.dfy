/**
 What the planners see of a line: its text, or bytes that are no text. Equal lines have equal bytes, and bytes
 that are no text have no task, no id and no kind.
 */
module TodoLines {
  import opened Wrappers
  import opened Words
  import opened Dates
  import opened TodoLine
  import opened TodoEdit

  datatype Content = Text(text: string) | Opaque(bytes: seq<int>)

  /** A ULID, as the text that writes it. */
  type Ulid = string

  predicate IsEmpty(line: Content) {
    line == Text("")
  }

  /** What a line reads as; nothing for an opaque line. */
  function KindOf(line: Content): Option<LineKind> {
    match line
    case Opaque(_) => None
    case Text(text) => match ParseLine(text, Lenient) case Ok(l) => Some(l.kind) case Err(_) => None
  }

  predicate IsBlank(line: Content) {
    KindOf(line) == Some(Blank)
  }

  function TaskId(t: Task): Option<Ulid> {
    match FindTag(t.description, 0, "id")
    case None => None
    case Some((start, end)) =>
      if start + 3 <= end && IsUlid(t.description[start + 3..end]) then Some(t.description[start + 3..end]) else None
  }

  /** The `id:` of a task line. */
  function IdOf(line: Content): Option<Ulid> {
    match KindOf(line)
    case Some(TaskLine(t)) => TaskId(t)
    case _ => None
  }

  /** What a reference to a line carries of its id: empty when it has none. */
  function IdText(line: Content): string {
    if IdOf(line).Some? then IdOf(line).value else ""
  }

  lemma LinesWithIdsAreTasks(line: Content)
    ensures IdOf(line).Some? ==> line.Text? && !IsEmpty(line)
    ensures KindOf(line).Some? && KindOf(line).value.TaskLine? ==> line.Text? && !IsEmpty(line)
    ensures IsBlank(line) <==> IsEmpty(line)
  {
  }
}

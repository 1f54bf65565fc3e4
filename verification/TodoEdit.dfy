/**
 The formatter and the mutation API: a line is read leniently into a prefix and a description, edits
 act on those, and what they touched is written back in the strict grammar.
 */
module TodoEdit {
  import opened Wrappers
  import opened Scanner
  import opened Words
  import opened Dates
  import opened TodoLine

  // ---- formatting ----

  /** What stands before a task's description. */
  datatype Prefix = Prefix(completed: bool, completionDate: Option<Date>, creationDate: Option<Date>, priority: Option<Priority>)

  const NO_PREFIX := Prefix(false, None, None, None)

  function PrefixOf(t: Task): Prefix {
    Prefix(t.completed, t.completionDate, t.creationDate, t.priority)
  }

  function PushDate(out: string, date: Option<Date>): string {
    match date
    case None => out
    case Some(d) => (if out == "" then out else out + " ") + ShowDate(d)
  }

  /** The prefix as text; a space ends it if it has any text and a description is to come. */
  function EmitPrefix(p: Prefix, hasDescription: bool): string {
    var mark := if p.completed then PushDate("x", p.completionDate)
                else if p.priority.Some? then ShowPriority(p.priority.value) else "";
    var out := PushDate(mark, p.creationDate);
    if out != "" && hasDescription then out + " " else out
  }

  // ---- editing ----

  datatype Op =
    | SetPriority(p: Priority)
    | ClearPriority
    | SetDescription(text: string)
    | SetTagOp(key: string, value: string)
    | RemoveTagOp(tag: string)
    | AppendOp(text: string)
    | PrependOp(text: string)
    | Complete(today: Date)
    | Uncomplete

  /** A task's prefix and description, apart. */
  datatype Draft = Draft(prefix: Prefix, description: string)

  function AppendTo(d: string, text: string): string {
    if d != "" && text != "" then d + " " + text else d + text
  }

  function PrependTo(d: string, text: string): string {
    if d == "" || text == "" then text + d else text + " " + d
  }

  function SetTag(d: string, key: string, value: string): string {
    match FindTag(d, 0, key)
    case Some((start, end)) => d[..start] + (key + ":" + value) + d[end..]
    case None => AppendTo(d, key + ":" + value)
  }

  /** The text without the word `FindTag` finds, and without a space next to it: the one in front, else the one behind. */
  function RemoveTag(d: string, key: string): string {
    match FindTag(d, 0, key)
    case None => d
    case Some((start, end)) =>
      if start > 0 && d[start - 1] == ' ' then d[..start - 1] + d[end..]
      else if end < |d| && d[end] == ' ' then d[..start] + d[end + 1..]
      else d[..start] + d[end..]
  }

  /** An open draft with a completion date and its priority kept in a tag; a done draft as it is. */
  function CompleteDraft(d: Draft, today: Date): Draft {
    if d.prefix.completed then d else
    Draft(d.prefix.(completed := true, completionDate := Some(today), priority := None),
          if d.prefix.priority.Some? then SetTag(d.description, "pri", [d.prefix.priority.value]) else d.description)
  }

  /** The letter a `pri:` tag would restore. */
  function PriTagLetter(d: string): Option<Priority> {
    match FindTag(d, 0, "pri")
    case Some((start, end)) => if start + 4 < end then NewPriority(d[start + 4]) else None
    case None => None
  }

  /** A done draft without its mark and completion date, its priority the letter of its first tag if that has one. */
  function UncompleteDraft(d: Draft): Draft {
    if !d.prefix.completed then d else
    var open := d.prefix.(completed := false, completionDate := None);
    match PriTagLetter(d.description)
    case Some(p) => Draft(open.(priority := Some(p)), RemoveTag(d.description, "pri"))
    case None => Draft(open, d.description)
  }

  function ApplyOp(d: Draft, op: Op): Draft {
    match op
    case SetPriority(p) => d.(prefix := d.prefix.(priority := Some(p)))
    case ClearPriority => d.(prefix := d.prefix.(priority := None))
    case SetDescription(s) => d.(description := s)
    case SetTagOp(k, v) => d.(description := SetTag(d.description, k, v))
    case RemoveTagOp(k) => d.(description := RemoveTag(d.description, k))
    case AppendOp(s) => d.(description := AppendTo(d.description, s))
    case PrependOp(s) => d.(description := PrependTo(d.description, s))
    case Complete(today) => CompleteDraft(d, today)
    case Uncomplete => UncompleteDraft(d)
  }

  function ApplyOps(d: Draft, ops: seq<Op>): Draft
    decreases |ops|
  {
    if ops == [] then d else ApplyOps(ApplyOp(d, ops[0]), ops[1..])
  }

  function DraftOf(raw: string): Draft {
    match ParseLine(raw, Lenient)
    case Ok(Line(TaskLine(t), _)) => Draft(PrefixOf(t), t.description)
    case _ => Draft(NO_PREFIX, "")
  }

  /** Where the description starts in `raw`; at the end when there is none. */
  function DescriptionStart(raw: string): int {
    |raw| - |DraftOf(raw).description|
  }

  function TrimEnd(s: string): string {
    if s != "" && IsWs(s[|s| - 1]) then TrimEnd(s[..|s| - 1]) else s
  }

  /** A line put together again from the bytes before its description and a new description. */
  function JoinPrefix(prefix: string, description: string): string {
    if description == "" then TrimEnd(prefix)
    else if prefix != "" && !IsWs(prefix[|prefix| - 1]) then prefix + " " + description
    else prefix + description
  }

  /** A priority left on a completed prefix that is rewritten becomes a `pri:` tag. */
  function Normalised(original: Draft, d: Draft): Draft {
    if d.prefix != original.prefix && d.prefix.completed && d.prefix.priority.Some?
    then Draft(d.prefix.(priority := None), SetTag(d.description, "pri", [d.prefix.priority.value]))
    else d
  }

  /** The line `raw` becomes: untouched parts keep their bytes. */
  function Edited(raw: string, ops: seq<Op>): string {
    var original := DraftOf(raw);
    var edited := ApplyOps(original, ops);
    var prefixDirty := edited.prefix != original.prefix;
    var d := Normalised(original, edited);
    if !prefixDirty && d.description == original.description then raw
    else if prefixDirty then EmitPrefix(d.prefix, d.description != "") + d.description
    else
      var split := DescriptionStart(raw);
      if 0 <= split <= |raw| then JoinPrefix(raw[..split], d.description) else raw
  }
}

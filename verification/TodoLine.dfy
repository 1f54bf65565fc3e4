/**
 One todo.txt line as a value: its task, and what reading it gives in either mode. The functions here
 read the text that is left; `LineParser` is the cursor over chunks that does the same in place.
 */
module TodoLine {
  import opened Wrappers
  import opened Scanner
  import opened Words
  import opened Dates

  /** `Strict` enforces the grammar; `Lenient` records deviations as quirks and never fails. */
  datatype Mode = Strict | Lenient

  datatype Quirk =
    NoCompletionDate | PriorityAfterX | PriorityAfterDate | Tabs | TrailingWs | InvalidRef | MixedEnding | LeadingWs

  datatype Rule = SpRule | CompletedRule | DateRule | DescriptionRule

  datatype ParseError = ParseError(rule: Rule, at: int)

  datatype Task = Task(completed: bool, completionDate: Option<Date>, creationDate: Option<Date>,
                       priority: Option<Priority>, description: string)

  const NEW_TASK := Task(false, None, None, None, "")

  datatype LineKind = Blank | TaskLine(task: Task)

  datatype Line = Line(kind: LineKind, quirks: set<Quirk>)

  /** A parse in progress: the text not yet consumed, the quirks so far, the task so far. */
  datatype State = State(rest: string, quirks: set<Quirk>, task: Task)

  datatype Parsed<+T> = Got(value: T, state: State) | Fail(error: ParseError) {
    predicate IsFailure() {
      Fail?
    }

    function PropagateFailure<U>(): Parsed<U>
      requires Fail?
    {
      Fail(error)
    }

    function Extract(): (T, State)
      requires Got?
    {
      (value, state)
    }
  }

  /** A deviation: a quirk noted and the parse going on, or, in strict mode, its end. */
  function LenientOr(mode: Mode, s: State, quirk: Quirk, rule: Rule, at: int): Parsed<()> {
    if mode == Lenient then Got((), s.(quirks := s.quirks + {quirk})) else Fail(ParseError(rule, at))
  }

  /** The whitespace after a prefix element; whether more words follow. `len` is the line's length. */
  function Separator(mode: Mode, len: nat, s: State): Parsed<bool> {
    if s.rest == "" then Got(false, s) else
    var n := RunLen(s.rest);
    var at := len - |s.rest|;
    var (_, s1) :- if s.rest[..n] != " " then LenientOr(mode, s, Tabs, SpRule, at) else Got((), s);
    var s2 := s1.(rest := s.rest[n..]);
    if s2.rest != "" then Got(true, s2) else
    var (_, s3) :- LenientOr(mode, s2, TrailingWs, DescriptionRule, at);
    Got(false, s3)
  }

  /** Strict: `x`, one space and a date. Lenient: any leading `x`. */
  function StartsCompleted(mode: Mode, raw: string): bool {
    FirstWord(raw) == "x" &&
    (mode == Lenient ||
     var after := raw[1..];
     after != "" && after[..RunLen(after)] == " " && ParseDate(FirstWord(after[1..])).Some?)
  }

  /** A priority word and the whitespace after it, if the text left opens with one; the value says whether. */
  function TakePriority(mode: Mode, len: nat, s: State): Parsed<bool> {
    var word := FirstWord(s.rest);
    if !IsPriorityWord(word) then Got(false, s) else
    var (_, s1) :- Separator(mode, len, s.(rest := s.rest[|word|..], task := s.task.(priority := NewPriority(word[1]))));
    Got(true, s1)
  }

  /** A word that parses as a date; strict mode fails where a word only has the shape of one. */
  function TakeDate(mode: Mode, len: nat, s: State): Parsed<Option<Date>> {
    var word := FirstWord(s.rest);
    match ParseDate(word)
    case Some(d) => Got(Some(d), s.(rest := s.rest[|word|..]))
    case None =>
      if mode == Strict && HasDateShape(word) then Fail(ParseError(DateRule, len - |s.rest|)) else Got(None, s)
  }

  /** An optional creation date plus its separator. */
  function TakeCreationDate(mode: Mode, len: nat, s: State): Parsed<()> {
    var (date, s1) :- TakeDate(mode, len, s);
    if date.None? then Got((), s1) else
    var (_, s2) :- Separator(mode, len, s1.(task := s1.task.(creationDate := date)));
    Got((), s2)
  }

  /** After `x`: a date and an optional second date, with the lenient places for a priority. */
  function CompletedPrefix(mode: Mode, len: nat, s: State): Parsed<()> {
    var (more, s1) :- Separator(mode, len, s);
    if !more then LenientOr(mode, s1, NoCompletionDate, CompletedRule, len - |s1.rest|) else
    var (early, s2) :- if mode == Lenient then TakePriority(mode, len, s1) else Got(false, s1);
    var s3 := if early then s2.(quirks := s2.quirks + {PriorityAfterX}) else s2;
    var (date, s4) :- TakeDate(mode, len, s3);
    if date.None? then LenientOr(mode, s4, NoCompletionDate, CompletedRule, len - |s4.rest|) else
    var (again, s5) :- Separator(mode, len, s4.(task := s4.task.(completionDate := date)));
    var (_, s6) :- if again then TakeCreationDate(mode, len, s5) else Got((), s5);
    LatePriority(mode, len, s6)
  }

  /** Lenient only: a priority after the dates, when there was none before them. */
  function LatePriority(mode: Mode, len: nat, s: State): Parsed<()> {
    if mode == Strict || s.task.priority.Some? then Got((), s) else
    var (late, s1) :- TakePriority(mode, len, s);
    Got((), if late then s1.(quirks := s1.quirks + {PriorityAfterDate}) else s1)
  }

  function IncompletePrefix(mode: Mode, len: nat, s: State): Parsed<()> {
    var (_, s1) :- TakePriority(mode, len, s);
    TakeCreationDate(mode, len, s1)
  }

  /** Checks the chunk a description text starts with; `first` on the description's first chunk. */
  function CheckRun(mode: Mode, len: nat, s: State, first: bool): Parsed<()>
    requires s.rest != ""
  {
    var n := RunLen(s.rest);
    var at := len - |s.rest|;
    if !IsWs(s.rest[0]) then Got((), s.(rest := s.rest[n..])) else
    var leading, trailing := first && at == 0, n == |s.rest|;
    var (_, s1) :- if leading then LenientOr(mode, s, LeadingWs, DescriptionRule, 0) else Got((), s);
    var (_, s2) :- if leading && !trailing then Got((), s1)
                   else if trailing then LenientOr(mode, s1, TrailingWs, DescriptionRule, at)
                   else if s.rest[..n] != " " then LenientOr(mode, s1, Tabs, SpRule, at)
                   else Got((), s1);
    Got((), s2.(rest := s.rest[n..]))
  }

  /** Checks the separators of a whole description. */
  function CheckRuns(mode: Mode, len: nat, s: State, first: bool): Parsed<()>
    decreases |s.rest|
  {
    if s.rest == "" then Got((), s) else
    match CheckRun(mode, len, s, first)
    case Fail(e) => Fail(e)
    case Got(_, s1) => if |s1.rest| < |s.rest| then CheckRuns(mode, len, s1, false) else Got((), s1)
  }

  function ParsePrefix(mode: Mode, raw: string): Parsed<()> {
    var s := State(raw, {}, NEW_TASK);
    if StartsCompleted(mode, raw)
    then CompletedPrefix(mode, |raw|, s.(rest := raw[1..], task := NEW_TASK.(completed := true)))
    else IncompletePrefix(mode, |raw|, s)
  }

  /** The prefix taken, and the text after it as the description, its whitespace checked. */
  function ParseTask(mode: Mode, raw: string): Parsed<()> {
    var (_, s1) :- ParsePrefix(mode, raw);
    var (_, s2) :- CheckRuns(mode, |raw|, s1, true);
    Got((), s2.(task := s2.task.(description := s1.rest)))
  }

  predicate IsSlugChar(c: char) {
    'a' <= c <= 'z' || IsDigit(c) || c == '.' || c == '_' || c == '-'
  }

  predicate IsValidSlug(s: string) {
    && 0 < |s| <= 64 && ('a' <= s[0] <= 'z' || IsDigit(s[0]))
    && (forall i :: 0 <= i < |s| ==> IsSlugChar(s[i]))
    && s != "." && s != ".."
  }

  function RefQuirk(description: string): set<Quirk> {
    match FindTag(description, 0, "ref")
    case Some((start, end)) => if start + 4 <= end && IsValidSlug(description[start + 4..end]) then {} else {InvalidRef}
    case None => {}
  }

  function ParseLine(raw: string, mode: Mode): Result<Line, ParseError> {
    if raw == "" then Ok(Line(Blank, {})) else
    match ParseTask(mode, raw)
    case Fail(e) => Err(e)
    case Got(_, s) => Ok(Line(TaskLine(s.task), s.quirks + RefQuirk(s.task.description)))
  }

  /** What the lenient parser notes of a line. */
  function QuirksOf(raw: string): set<Quirk> {
    match ParseLine(raw, Lenient)
    case Ok(line) => line.quirks
    case Err(_) => {}
  }
}

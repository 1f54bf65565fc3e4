/**
 Editing a line in place: a draft of its prefix and description that the ops change one by one, and the
 line written back with the bytes that were not touched. Refines `TodoEdit`.
 */
module LineEditor {
  import opened Wrappers
  import opened Scanner
  import opened Words
  import opened Dates
  import opened TodoLine
  import opened TodoEdit
  import opened TodoLines
  import TodoFile

  /** A line of a file: what it says, how it ends, and the quirks it was read with. */
  datatype OwnedLine = OwnedLine(content: Content, ending: TodoFile.Ending, quirks: set<Quirk>)

  /** A draft held in two fields, which each op replaces; `Now` is its value. */
  class Editor {
    var prefix: Prefix
    var description: string

    ghost function Now(): Draft
      reads this
    {
      Draft(prefix, description)
    }

    constructor (original: Draft)
      ensures Now() == original
    {
      prefix, description := original.prefix, original.description;
    }

    method Append(text: string)
      modifies this`description
      ensures description == AppendTo(old(description), text)
    {
      if description != "" && text != "" {
        description := description + " ";
      }
      description := description + text;
    }

    method Prepend(text: string)
      modifies this`description
      ensures description == PrependTo(old(description), text)
    {
      if description == "" || text == "" {
        description := text + description;
        return;
      }
      description := " " + description;
      description := text + description;
      assert text + (" " + old(description)) == text + " " + old(description);
    }

    method SetTag(key: string, value: string)
      modifies this`description
      ensures description == TodoEdit.SetTag(old(description), key, value)
    {
      hide FindTag;
      var word := key + ":" + value;
      match FindTag(description, 0, key) {
        case Some((start, end)) => description := description[..start] + word + description[end..];
        case None => Append(word);
      }
    }

    /** The description without the word found, and without one of the spaces around it. */
    method RemoveTag(key: string)
      modifies this`description
      ensures description == TodoEdit.RemoveTag(old(description), key)
    {
      hide FindTag;
      var found := FindTag(description, 0, key);
      if found.None? {
        return;
      }
      var (start, end) := found.value;
      var from, to := start, end;
      if start > 0 && description[start - 1] == ' ' {
        from := start - 1;
      } else if end < |description| && description[end] == ' ' {
        to := end + 1;
      }
      description := description[..from] + description[to..];
    }

    method Complete(today: Date)
      modifies this
      ensures Now() == CompleteDraft(old(Now()), today)
    {
      if prefix.completed {
        return;
      }
      prefix := prefix.(completed := true);
      prefix := prefix.(completionDate := Some(today));
      var priority := prefix.priority;
      prefix := prefix.(priority := None);
      if priority.Some? {
        SetTag("pri", [priority.value]);
      }
    }

    /** The `pri:` word found always has a value to look at. */
    method Uncomplete()
      modifies this
      ensures Now() == UncompleteDraft(old(Now()))
    {
      hide FindTag;
      if !prefix.completed {
        return;
      }
      prefix := prefix.(completed := false);
      prefix := prefix.(completionDate := None);
      var found := FindTag(description, 0, "pri");
      if found.Some? {
        var (start, end) := found.value;
        FoundPriHasValue(description);
        var restored := NewPriority(description[start + 4..end][0]);
        if restored.Some? {
          prefix := prefix.(priority := restored);
          RemoveTag("pri");
        }
      }
    }

    method Apply(op: Op)
      modifies this
      ensures Now() == ApplyOp(old(Now()), op)
    {
      match op {
        case SetPriority(p) => prefix := prefix.(priority := Some(p));
        case ClearPriority => prefix := prefix.(priority := None);
        case SetDescription(text) => description := text;
        case SetTagOp(key, value) => SetTag(key, value);
        case RemoveTagOp(key) => RemoveTag(key);
        case AppendOp(text) => Append(text);
        case PrependOp(text) => Prepend(text);
        case Complete(today) => Complete(today);
        case Uncomplete => Uncomplete();
      }
    }
  }

  lemma FoundPriHasValue(d: string)
    requires FindTag(d, 0, "pri").Some?
    ensures FindTag(d, 0, "pri").value.0 + 4 < FindTag(d, 0, "pri").value.1
  {
    hide FindTag, IsTagOf;
    FoundWordIsTag(d, 0, "pri");
    var (start, end) := FindTag(d, 0, "pri").value;
    TagOfKey(d[start - 0..end - 0], "pri");
  }

  /** The prefix slice and a description, put back together. */
  method Join(prefix: string, description: string) returns (out: string)
    ensures out == JoinPrefix(prefix, description)
  {
    out := prefix;
    if description == "" {
      while out != "" && IsWs(out[|out| - 1])
        invariant TrimEnd(out) == TrimEnd(prefix)
        decreases |out|
      {
        out := out[..|out| - 1];
      }
    } else if out != "" && !IsWs(out[|out| - 1]) {
      out := out + " ";
    }
    out := out + description;
  }

  // ---- the description is the tail of the line ----

  ghost predicate IsTail(t: string, s: string) {
    |t| <= |s| && s[|s| - |t|..] == t
  }

  lemma TailOfTail(u: string, t: string, s: string)
    requires IsTail(u, t) && IsTail(t, s)
    ensures IsTail(u, s)
  {
    assert s[|s| - |u|..] == s[|s| - |t|..][|t| - |u|..];
  }

  /** What a parser step consumes, it consumes from the front. */
  ghost predicate Consumes<T>(p: Parsed<T>, s: State) {
    p.Got? ==> IsTail(p.state.rest, s.rest)
  }

  lemma WordIsFront(s: string)
    ensures |FirstWord(s)| <= |s| && IsTail(s[|FirstWord(s)|..], s)
  {
  }

  lemma SeparatorConsumes(mode: Mode, len: nat, s: State)
    ensures Consumes(Separator(mode, len, s), s)
  {
  }

  lemma TakePriorityConsumes(mode: Mode, len: nat, s: State)
    ensures Consumes(TakePriority(mode, len, s), s)
  {
    hide Separator, FirstWord;
    WordIsFront(s.rest);
    var word := FirstWord(s.rest);
    if IsPriorityWord(word) {
      var s' := s.(rest := s.rest[|word|..], task := s.task.(priority := NewPriority(word[1])));
      SeparatorConsumes(mode, len, s');
      var p := Separator(mode, len, s');
      if p.Got? {
        TailOfTail(p.state.rest, s'.rest, s.rest);
      }
    }
  }

  lemma TakeDateConsumes(mode: Mode, len: nat, s: State)
    ensures Consumes(TakeDate(mode, len, s), s)
  {
    hide FirstWord, ParseDate;
    WordIsFront(s.rest);
  }

  lemma TakeCreationDateConsumes(mode: Mode, len: nat, s: State)
    ensures Consumes(TakeCreationDate(mode, len, s), s)
  {
    hide Separator, TakeDate;
    TakeDateConsumes(mode, len, s);
    var p := TakeDate(mode, len, s);
    if p.Got? && p.value.Some? {
      var s' := p.state.(task := p.state.task.(creationDate := p.value));
      SeparatorConsumes(mode, len, s');
      var q := Separator(mode, len, s');
      if q.Got? {
        TailOfTail(q.state.rest, s'.rest, s.rest);
      }
    }
  }

  lemma LatePriorityConsumes(mode: Mode, len: nat, s: State)
    ensures Consumes(LatePriority(mode, len, s), s)
  {
    hide TakePriority;
    TakePriorityConsumes(mode, len, s);
  }

  /** The part of `CompletedPrefix` after the completion mark's own separator. */
  lemma CompletedPrefixConsumes(mode: Mode, len: nat, s: State)
    ensures Consumes(CompletedPrefix(mode, len, s), s)
  {
    hide Separator, TakePriority, TakeDate, TakeCreationDate, LatePriority, IsTail;
    SeparatorConsumes(mode, len, s);
    var p1 := Separator(mode, len, s);
    if p1.Got? && p1.value {
      var s1 := p1.state;
      TakePriorityConsumes(mode, len, s1);
      var p2 := if mode == Lenient then TakePriority(mode, len, s1) else Got(false, s1);
      WholeIsTail(s1.rest);
      if p2.Got? {
        TailOfTail(p2.state.rest, s1.rest, s.rest);
        var s3 := if p2.value then p2.state.(quirks := p2.state.quirks + {PriorityAfterX}) else p2.state;
        TakeDateConsumes(mode, len, s3);
        var p4 := TakeDate(mode, len, s3);
        if p4.Got? {
          TailOfTail(p4.state.rest, s3.rest, s.rest);
          if p4.value.Some? {
            AfterDateConsumes(mode, len, p4.state.(task := p4.state.task.(completionDate := p4.value)), s);
          }
        }
      }
    }
  }

  lemma WholeIsTail(s: string)
    ensures IsTail(s, s)
  {
  }

  lemma AfterDateConsumes(mode: Mode, len: nat, s4: State, s: State)
    requires IsTail(s4.rest, s.rest)
    ensures var p5 := Separator(mode, len, s4);
            p5.Got? ==>
              var p6 := if p5.value then TakeCreationDate(mode, len, p5.state) else Got((), p5.state);
              p6.Got? ==> Consumes(LatePriority(mode, len, p6.state), s)
  {
    hide Separator, TakeCreationDate, LatePriority, IsTail;
    SeparatorConsumes(mode, len, s4);
    var p5 := Separator(mode, len, s4);
    if p5.Got? {
      TailOfTail(p5.state.rest, s4.rest, s.rest);
      TakeCreationDateConsumes(mode, len, p5.state);
      var p6 := if p5.value then TakeCreationDate(mode, len, p5.state) else Got((), p5.state);
      if p6.Got? {
        WholeIsTail(p5.state.rest);
        TailOfTail(p6.state.rest, p5.state.rest, s.rest);
        LatePriorityConsumes(mode, len, p6.state);
        var p7 := LatePriority(mode, len, p6.state);
        if p7.Got? {
          TailOfTail(p7.state.rest, p6.state.rest, s.rest);
        }
      }
    }
  }

  lemma IncompletePrefixConsumes(mode: Mode, len: nat, s: State)
    ensures Consumes(IncompletePrefix(mode, len, s), s)
  {
    hide TakePriority, TakeCreationDate, IsTail;
    TakePriorityConsumes(mode, len, s);
    var p := TakePriority(mode, len, s);
    if p.Got? {
      TakeCreationDateConsumes(mode, len, p.state);
      var q := TakeCreationDate(mode, len, p.state);
      if q.Got? {
        TailOfTail(q.state.rest, p.state.rest, s.rest);
      }
    }
  }

  /** The description is what the line ends with, byte for byte. */
  lemma DescriptionIsTail(raw: string)
    ensures IsTail(DraftOf(raw).description, raw)
    ensures 0 <= DescriptionStart(raw) <= |raw| && raw[DescriptionStart(raw)..] == DraftOf(raw).description
  {
    hide CompletedPrefix, IncompletePrefix, CheckRuns, RefQuirk, FirstWord;
    if StartsCompleted(Lenient, raw) {
      WordIsFront(raw);
      CompletedPrefixConsumes(Lenient, |raw|, State(raw[1..], {}, NEW_TASK.(completed := true)));
    } else {
      IncompletePrefixConsumes(Lenient, |raw|, State(raw, {}, NEW_TASK));
    }
  }

  // ---- applying an edit ----

  /** The ops change the line's prefix or its description. */
  predicate Touches(raw: string, ops: seq<Op>) {
    var original := DraftOf(raw);
    var draft := ApplyOps(original, ops);
    draft.prefix != original.prefix || draft.description != original.description
  }

  /**
   Applies the ops: the bytes of the parts they leave alone stay, every ending too, and an opaque line or one
   they do not touch stays as it is, quirks and all; a rebuilt line has the quirks it reads with.
   */
  method Apply(line: OwnedLine, ops: seq<Op>) returns (r: OwnedLine)
    ensures r.ending == line.ending
    ensures line.content.Opaque? || !Touches(line.content.text, ops) ==> r == line
    ensures line.content.Text? ==> r.content == Text(Edited(line.content.text, ops))
    ensures line.content.Text? && Touches(line.content.text, ops) ==> r.quirks == QuirksOf(r.content.text)
  {
    hide ApplyOps, DraftOf, FindTag, EmitPrefix, QuirksOf;
    if line.content.Opaque? {
      return line;
    }
    var raw := line.content.text;
    var original := DraftOf(raw);
    var draft := new Editor(original);
    assert ops[0..] == ops;
    for i := 0 to |ops|
      invariant ApplyOps(draft.Now(), ops[i..]) == ApplyOps(original, ops)
    {
      OpsUnfold(draft.Now(), ops[i..]);
      assert ops[i..][1..] == ops[i + 1..];
      draft.Apply(ops[i]);
    }
    OpsDone(draft.Now());
    assert draft.Now() == ApplyOps(original, ops);
    var prefixDirty := draft.prefix != original.prefix;
    if prefixDirty && draft.prefix.completed && draft.prefix.priority.Some? {
      var p := draft.prefix.priority.value;
      draft.prefix := draft.prefix.(priority := None);
      draft.SetTag("pri", [p]);
    }
    assert draft.Now() == Normalised(original, ApplyOps(original, ops));
    var descriptionDirty := draft.description != original.description;
    if !prefixDirty && !descriptionDirty {
      return line;
    }
    DescriptionIsTail(raw);
    var split := DescriptionStart(raw);
    var description := if descriptionDirty then draft.description else raw[split..];
    var out;
    if prefixDirty {
      out := EmitPrefix(draft.prefix, description != "") + description;
    } else {
      out := Join(raw[..split], description);
    }
    return OwnedLine(Text(out), line.ending, QuirksOf(out));
  }

  lemma OpsUnfold(d: Draft, ops: seq<Op>)
    requires ops != []
    ensures ApplyOps(d, ops) == ApplyOps(ApplyOp(d, ops[0]), ops[1..])
  {
  }

  lemma OpsDone(d: Draft)
    ensures ApplyOps(d, []) == d
  {
  }

  /**
   What an edit leaves alone keeps its bytes: a line edited in neither part is returned as it was, an
   untouched prefix is what the new line starts with, an untouched description what it ends with.
   */
  ghost predicate KeepsUntouched(raw: string, was: Draft, now: Draft, out: string) {
    && (now == was ==> out == raw)
    && |was.description| <= |raw|
    && (now.prefix == was.prefix && now.description != "" ==> raw[..|raw| - |was.description|] <= out)
    && (Normalised(was, now).description == was.description ==> IsTail(was.description, out))
  }

  lemma UntouchedBytesStay(raw: string, ops: seq<Op>)
    ensures KeepsUntouched(raw, DraftOf(raw), ApplyOps(DraftOf(raw), ops), Edited(raw, ops))
  {
    hide DraftOf, ApplyOps, EmitPrefix, SetTag;
    DescriptionIsTail(raw);
  }

  // ---- an edited line is still one line ----

  /** Why a builder refuses a text: it would break the line, or makes no tag. */
  datatype EditError = LineBreak | InvalidTag

  predicate IsBreak(c: char) {
    c == '\n' || c == '\r'
  }

  predicate OneLine(s: string) {
    forall i :: 0 <= i < |s| ==> !IsBreak(s[i])
  }

  predicate IsAsciiWhitespace(c: char) {
    c == ' ' || c == '\t' || c == '\n' || c == '\r' || c as int == 12
  }

  predicate IsTagPart(s: string) {
    s != "" && forall i :: 0 <= i < |s| ==> !IsAsciiWhitespace(s[i])
  }

  predicate IsValidTag(key: string, value: string) {
    IsTagPart(key) && IsTagPart(value) && ':' !in key
  }

  /** The check made when an edit is built, before anything is applied. */
  function Built(op: Op): Result<Op, EditError> {
    match op
    case SetDescription(text) => if OneLine(text) then Ok(op) else Err(LineBreak)
    case AppendOp(text) => if OneLine(text) then Ok(op) else Err(LineBreak)
    case PrependOp(text) => if OneLine(text) then Ok(op) else Err(LineBreak)
    case SetTagOp(key, value) => if IsValidTag(key, value) then Ok(op) else Err(InvalidTag)
    case RemoveTagOp(key) => if IsValidTag(key, "v") then Ok(op) else Err(InvalidTag)
    case _ => Ok(op)
  }

  predicate AllBuilt(ops: seq<Op>) {
    forall i :: 0 <= i < |ops| ==> Built(ops[i]).Ok?
  }

  lemma SetTagOneLine(d: string, key: string, value: string)
    requires OneLine(d) && OneLine(key) && OneLine(value)
    ensures OneLine(SetTag(d, key, value))
  {
    hide FindTag, IsBreak;
    assert !IsBreak(':') && !IsBreak(' ') by { SpacesAreNotBreaks(); }
  }

  lemma SpacesAreNotBreaks()
    ensures !IsBreak(':') && !IsBreak(' ')
  {
  }

  lemma RemoveTagOneLine(d: string, key: string)
    requires OneLine(d)
    ensures OneLine(RemoveTag(d, key))
  {
    hide FindTag, IsBreak;
  }

  lemma ApplyOneLine(d: Draft, op: Op)
    requires OneLine(d.description) && Built(op).Ok?
    ensures OneLine(ApplyOp(d, op).description)
  {
    hide SetTag, RemoveTag, PriTagLetter;
    match op {
      case SetTagOp(key, value) => SetTagOneLine(d.description, key, value);
      case RemoveTagOp(key) => RemoveTagOneLine(d.description, key);
      case Complete(_) =>
        if d.prefix.priority.Some? {
          SetTagOneLine(d.description, "pri", [d.prefix.priority.value]);
        }
      case Uncomplete => RemoveTagOneLine(d.description, "pri");
      case _ =>
    }
  }

  lemma {:induction false} ApplyAllOneLine(d: Draft, ops: seq<Op>)
    requires OneLine(d.description) && AllBuilt(ops)
    ensures OneLine(ApplyOps(d, ops).description)
    decreases |ops|
  {
    hide ApplyOp, Built, OneLine;
    if ops != [] {
      ApplyOneLine(d, ops[0]);
      ApplyAllOneLine(ApplyOp(d, ops[0]), ops[1..]);
    }
  }

  lemma DateOneLine(d: Date)
    ensures OneLine(ShowDate(d))
  {
  }

  lemma PrefixOneLine(p: Prefix, hasDescription: bool)
    ensures OneLine(EmitPrefix(p, hasDescription))
  {
    hide ShowDate;
    if p.completionDate.Some? {
      DateOneLine(p.completionDate.value);
    }
    if p.creationDate.Some? {
      DateOneLine(p.creationDate.value);
    }
  }

  lemma {:induction false} TrimOneLine(s: string)
    requires OneLine(s)
    ensures OneLine(TrimEnd(s))
  {
    if s != "" && IsWs(s[|s| - 1]) {
      TrimOneLine(s[..|s| - 1]);
    }
  }

  /** Edits that were accepted never put a line break into a line. */
  lemma EditsKeepOneLine(raw: string, ops: seq<Op>)
    requires OneLine(raw) && AllBuilt(ops)
    ensures OneLine(Edited(raw, ops))
  {
    hide DraftOf, ApplyOps, SetTag, EmitPrefix, TrimEnd, AllBuilt;
    var original := DraftOf(raw);
    DescriptionIsTail(raw);
    var edited := ApplyOps(original, ops);
    ApplyAllOneLine(original, ops);
    if edited.prefix.priority.Some? {
      SetTagOneLine(edited.description, "pri", [edited.prefix.priority.value]);
    }
    var d := Normalised(original, edited);
    PrefixOneLine(d.prefix, d.description != "");
    TrimOneLine(raw[..DescriptionStart(raw)]);
  }
}

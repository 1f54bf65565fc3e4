/** The parser as it runs: a cursor over the scanner's chunks that collects quirks and fills a task. */
module LineParser {
  import opened Wrappers
  import opened Scanner
  import opened Words
  import opened Dates
  import opened TodoLine

  /** `r` and the cursor left behind are what the value-level parse gives. */
  ghost predicate Agrees<T>(parsed: Parsed<T>, r: Result<T, ParseError>, now: State) {
    match parsed
    case Got(value, s) => r == Ok(value) && now == s
    case Fail(e) => r == Err(e)
  }

  class Parser {
    const raw: string
    const chunks: seq<Chunk>
    const mode: Mode
    var i: nat
    var quirks: set<Quirk>
    var task: Task

    /** How much of the line is behind the cursor. */
    function Pos(): int
      reads this
    {
      if i < |chunks| then chunks[i].start else |raw|
    }

    /** The chunks left are the chunks of the text left. */
    ghost predicate Valid()
      reads this
    {
      && i <= |chunks| && 0 <= Pos() <= |raw|
      && chunks[i..] == ChunksOf(raw[Pos()..], Pos())
    }

    /** The parse in progress as a value. */
    ghost function Now(): State
      reads this
      requires Valid()
    {
      State(raw[Pos()..], quirks, task)
    }

    constructor (raw: string, chunks: seq<Chunk>, mode: Mode)
      requires chunks == ChunksOf(raw, 0)
      ensures this.raw == raw && this.mode == mode
      ensures Valid() && Now() == State(raw, {}, NEW_TASK) && i == 0
    {
      this.raw, this.chunks, this.mode := raw, chunks, mode;
      i, quirks, task := 0, {}, NEW_TASK;
      new;
      assert raw[0..] == raw && chunks[0..] == chunks;
    }

    /** The current chunk, and where the cursor is once past it. */
    lemma Current()
      requires Valid() && i < |chunks|
      ensures var rest := raw[Pos()..];
              && rest != "" && chunks[i] == Chunk(Pos(), Pos() + RunLen(rest), IsWs(rest[0]))
              && raw[chunks[i].start..chunks[i].end] == rest[..RunLen(rest)]
              && chunks[i + 1..] == ChunksOf(rest[RunLen(rest)..], Pos() + RunLen(rest))
              && rest[RunLen(rest)..] == raw[chunks[i].end..]
              && (if i + 1 < |chunks| then chunks[i + 1].start == chunks[i].end else chunks[i].end == |raw|)
    {
      var rest := raw[Pos()..];
      assert chunks[i..][0] == chunks[i] && chunks[i..][1..] == chunks[i + 1..];
      if i + 1 < |chunks| {
        assert chunks[i + 1..][0] == chunks[i + 1];
      }
    }

    lemma AtEnd()
      requires Valid()
      ensures i == |chunks| <==> raw[Pos()..] == ""
    {
    }

    /** The first word of the text left, which is empty before whitespace and when nothing is left. */
    method Word() returns (w: string)
      requires Valid()
      ensures w == FirstWord(Now().rest)
    {
      AtEnd();
      if i == |chunks| {
        return "";
      }
      Current();
      return if chunks[i].isWs then "" else raw[chunks[i].start..chunks[i].end];
    }

    /** Past the current chunk. */
    method Advance()
      requires Valid() && i < |chunks|
      modifies this`i
      ensures Valid() && Now() == old(Now()).(rest := old(Now()).rest[RunLen(old(Now()).rest)..])
      ensures i == old(i) + 1
    {
      hide RunLen, ChunksOf, IsWs;
      Current();
      i := i + 1;
    }

    method LenientOrAt(quirk: Quirk, rule: Rule, at: int) returns (r: Result<(), ParseError>)
      requires Valid()
      modifies this`quirks
      ensures Valid()
      ensures Now().rest == old(Now()).rest
      ensures Agrees(LenientOr(mode, old(Now()), quirk, rule, at), r, Now())
    {
      if mode == Lenient {
        quirks := quirks + {quirk};
        return Ok(());
      }
      return Err(ParseError(rule, at));
    }

    method SeparatorStep() returns (r: Result<bool, ParseError>)
      requires Valid()
      modifies this`i, this`quirks
      ensures Valid()
      ensures Agrees(Separator(mode, |raw|, old(Now())), r, Now())
    {
      hide RunLen, ChunksOf, IsWs;
      AtEnd();
      if i == |chunks| {
        return Ok(false);
      }
      Current();
      var c := chunks[i];
      if raw[c.start..c.end] != " " {
        var ok := LenientOrAt(Tabs, SpRule, c.start);
        if ok.Err? {
          return Err(ok.error);
        }
      }
      Advance();
      AtEnd();
      if i == |chunks| {
        var ok := LenientOrAt(TrailingWs, DescriptionRule, c.start);
        if ok.Err? {
          return Err(ok.error);
        }
        return Ok(false);
      }
      return Ok(true);
    }

    method Completed() returns (b: bool)
      requires Valid() && i == 0
      ensures b == StartsCompleted(mode, Now().rest)
      ensures b ==> FirstWord(Now().rest) == "x"
    {
      var word := Word();
      if word != "x" {
        return false;
      }
      if mode == Lenient {
        return true;
      }
      MarkerThenDate();
      NoWordIsNoDate();
      hide RunLen, ParseDate, FirstWord, Valid;
      var sep := |chunks| > 1 && chunks[1].isWs && raw[chunks[1].start..chunks[1].end] == " ";
      var date := |chunks| > 2 && !chunks[2].isWs && ParseDate(raw[chunks[2].start..chunks[2].end]).Some?;
      return sep && date;
    }

    lemma NoWordIsNoDate()
      ensures FirstWord("") == "" && ParseDate("").None?
    {
    }

    lemma FirstIsOneLong(s: string)
      requires FirstWord(s) == "x"
      ensures s != "" && RunLen(s) == 1 && !IsWs(s[0])
      ensures |s| > 1 ==> IsWs(s[1])
    {
    }

    lemma WordAfterSpace(s: string)
      requires s != "" && IsWs(s[0]) && RunLen(s) < |s|
      ensures var t := s[RunLen(s)..]; !IsWs(t[0]) && FirstWord(t) == t[..RunLen(t)]
    {
    }

    /** The second and third chunks are the text after the marker. */
    lemma MarkerThenDate()
      requires Valid() && i == 0 && FirstWord(Now().rest) == "x"
      ensures var after := Now().rest[1..];
              && (|chunks| > 1 <==> after != "")
              && (|chunks| > 1 ==>
                    && chunks[1].start <= chunks[1].end <= |raw| && chunks[1].isWs
                    && raw[chunks[1].start..chunks[1].end] == after[..RunLen(after)]
                    && var rest := after[RunLen(after)..];
                       && (|chunks| > 2 <==> rest != "")
                       && (|chunks| > 2 ==>
                             && chunks[2].start <= chunks[2].end <= |raw| && !chunks[2].isWs
                             && raw[chunks[2].start..chunks[2].end] == FirstWord(rest)))
    {
      hide ChunksOf, RunLen, IsWs, FirstWord;
      var pos := Pos();
      NextChunk(raw, pos, chunks[0..]);
      assert chunks[0..] == chunks;
      var rest := raw[pos..];
      FirstIsOneLong(rest);
      assert raw[pos + 1..] == rest[1..];
      NextChunk(raw, pos + 1, chunks[1..]);
      if |chunks| > 1 {
        assert chunks[1..][0] == chunks[1] && chunks[1..][1..] == chunks[2..];
        NextChunk(raw, chunks[1].end, chunks[2..]);
        if |chunks| > 2 {
          assert chunks[2..][0] == chunks[2];
          WordAfterSpace(rest[1..]);
        }
      }
    }

    method TakeMarker()
      requires Valid() && FirstWord(Now().rest) == "x"
      modifies this`i, this`task
      ensures Valid()
      ensures Now() == old(Now()).(rest := old(Now()).rest[1..], task := old(Now()).task.(completed := true))
    {
      AtEnd();
      FirstWordSplits(raw[Pos()..]);
      Advance();
      task := task.(completed := true);
    }

    method SetDescription(description: string)
      requires Valid()
      modifies this`task
      ensures Valid() && Now() == old(Now()).(task := old(Now()).task.(description := description))
    {
      task := task.(description := description);
    }

    method TakePriorityStep() returns (r: Result<bool, ParseError>)
      requires Valid()
      modifies this`i, this`quirks, this`task
      ensures Valid()
      ensures Agrees(TakePriority(mode, |raw|, old(Now())), r, Now())
    {
      var word := Word();
      if !IsPriorityWord(word) {
        return Ok(false);
      }
      AtEnd();
      FirstWordSplits(raw[Pos()..]);
      task := task.(priority := NewPriority(word[1]));
      Advance();
      var sep := SeparatorStep();
      if sep.Err? {
        return Err(sep.error);
      }
      return Ok(true);
    }

    method TakeDateStep() returns (r: Result<Option<Date>, ParseError>)
      requires Valid()
      modifies this`i
      ensures Valid()
      ensures Agrees(TakeDate(mode, |raw|, old(Now())), r, Now())
    {
      var word := Word();
      var date := ParseDate(word);
      if date.Some? {
        AtEnd();
        FirstWordSplits(raw[Pos()..]);
        Advance();
        return Ok(date);
      }
      if mode == Strict && HasDateShape(word) {
        return Err(ParseError(DateRule, Pos()));
      }
      return Ok(None);
    }

    method TakeCreationDateStep() returns (r: Result<(), ParseError>)
      requires Valid()
      modifies this`i, this`quirks, this`task
      ensures Valid()
      ensures Agrees(TakeCreationDate(mode, |raw|, old(Now())), r, Now())
    {
      var date := TakeDateStep();
      if date.Err? {
        return Err(date.error);
      }
      if date.value.None? {
        return Ok(());
      }
      task := task.(creationDate := date.value);
      var sep := SeparatorStep();
      return if sep.Err? then Err(sep.error) else Ok(());
    }

    method CompletedPrefixStep() returns (r: Result<(), ParseError>)
      requires Valid()
      modifies this`i, this`quirks, this`task
      ensures Valid()
      ensures Agrees(CompletedPrefix(mode, |raw|, old(Now())), r, Now())
    {
      hide Separator, TakePriority, TakeDate, TakeCreationDate, LatePriority, LenientOr, Valid, Now;
      var more := SeparatorStep();
      if more.Err? {
        return Err(more.error);
      }
      if !more.value {
        PosIsLengthLessRest();
        r := LenientOrAt(NoCompletionDate, CompletedRule, Pos());
        return;
      }
      if mode == Lenient {
        var early := TakePriorityStep();
        if early.Err? {
          return Err(early.error);
        }
        if early.value {
          AddQuirk(PriorityAfterX);
        }
      }
      var date := TakeDateStep();
      if date.Err? {
        return Err(date.error);
      }
      if date.value.None? {
        PosIsLengthLessRest();
        r := LenientOrAt(NoCompletionDate, CompletedRule, Pos());
        return;
      }
      SetCompletionDate(date.value);
      var again := SeparatorStep();
      if again.Err? {
        return Err(again.error);
      }
      if again.value {
        var created := TakeCreationDateStep();
        if created.Err? {
          return Err(created.error);
        }
      }
      r := LatePriorityStep();
    }

    method LatePriorityStep() returns (r: Result<(), ParseError>)
      requires Valid()
      modifies this`i, this`quirks, this`task
      ensures Valid()
      ensures Agrees(LatePriority(mode, |raw|, old(Now())), r, Now())
    {
      hide TakePriority, Valid, Now;
      TaskIsNow();
      if mode == Lenient && task.priority.None? {
        var late := TakePriorityStep();
        if late.Err? {
          return Err(late.error);
        }
        if late.value {
          AddQuirk(PriorityAfterDate);
        }
      }
      return Ok(());
    }

    lemma PosIsLengthLessRest()
      requires Valid()
      ensures Pos() == |raw| - |Now().rest|
    {
    }

    lemma TaskIsNow()
      requires Valid()
      ensures Now().task == task && Now().quirks == quirks
    {
    }

    method AddQuirk(quirk: Quirk)
      requires Valid()
      modifies this`quirks
      ensures Valid() && Now() == old(Now()).(quirks := old(Now()).quirks + {quirk})
    {
      quirks := quirks + {quirk};
    }

    method SetCompletionDate(date: Option<Date>)
      requires Valid()
      modifies this`task
      ensures Valid() && Now() == old(Now()).(task := old(Now()).task.(completionDate := date))
    {
      task := task.(completionDate := date);
    }

    method IncompletePrefixStep() returns (r: Result<(), ParseError>)
      requires Valid()
      modifies this`i, this`quirks, this`task
      ensures Valid()
      ensures Agrees(IncompletePrefix(mode, |raw|, old(Now())), r, Now())
    {
      hide TakePriority, TakeCreationDate, Valid, Now;
      var pri := TakePriorityStep();
      if pri.Err? {
        return Err(pri.error);
      }
      r := TakeCreationDateStep();
    }

    /** Checks the current chunk of a description, the first one when `n` is zero. */
    method RunStep(start: int, n: nat) returns (r: Result<(), ParseError>)
      requires Valid() && i < |chunks| && (n == 0 ==> start == Pos())
      modifies this`i, this`quirks
      ensures Valid() && (r.Ok? ==> i == old(i) + 1)
      ensures old(Now()).rest != ""
      ensures Agrees(CheckRun(mode, |raw|, old(Now()), n == 0), r, Now())
    {
      hide Valid, Now, Pos, ChunksOf, RunLen, IsWs, LenientOr;
      RunIsLast();
      var c, trailing := chunks[i], i + 1 == |chunks|;
      if c.isWs {
        if n == 0 && start == 0 {
          var ok := LenientOrAt(LeadingWs, DescriptionRule, 0);
          if ok.Err? {
            return Err(ok.error);
          }
          if !trailing {
            Advance();
            return Ok(());
          }
        }
        if trailing {
          var ok := LenientOrAt(TrailingWs, DescriptionRule, c.start);
          if ok.Err? {
            return Err(ok.error);
          }
        } else if raw[c.start..c.end] != " " {
          var ok := LenientOrAt(Tabs, SpRule, c.start);
          if ok.Err? {
            return Err(ok.error);
          }
        }
      }
      Advance();
      return Ok(());
    }

    /** Whether the current chunk ends the line, in terms of the text left. */
    lemma RunIsLast()
      requires Valid() && i < |chunks|
      ensures var rest, c := Now().rest, chunks[i];
              && rest != "" && Pos() == c.start == |raw| - |rest|
              && c.start <= c.end <= |raw| && c.isWs == IsWs(rest[0])
              && raw[c.start..c.end] == rest[..RunLen(rest)]
              && (i + 1 == |chunks| <==> RunLen(rest) == |rest|)
    {
      AtEnd();
      Current();
    }

    /** The text left is the description, byte for byte; its whitespace is noted or refused as `CheckRuns` says. */
    method DescriptionStep() returns (r: Result<string, ParseError>)
      requires Valid()
      modifies this`i, this`quirks
      ensures Valid()
      ensures match CheckRuns(mode, |raw|, old(Now()), true)
              case Got(_, s) => r == Ok(old(Now()).rest) && Now() == s
              case Fail(e) => r == Err(e)
    {
      var start := Pos();
      var n := 0;
      ghost var checked := CheckRuns(mode, |raw|, Now(), true);
      while i < |chunks|
        invariant Valid() && (n == 0 ==> Pos() == start) && task == old(task)
        invariant CheckRuns(mode, |raw|, Now(), n == 0) == checked
        decreases |chunks| - i
      {
        ghost var before := Now();
        var ok := RunStep(start, n);
        if ok.Err? {
          return Err(ok.error);
        }
        CheckRunShortens(mode, |raw|, before, n == 0);
        n := n + 1;
      }
      AtEnd();
      return Ok(raw[start..]);
    }

    /** The parse of a whole line as `ParseTask` has it, the error and its offset included. */
    method TaskStep() returns (r: Result<(), ParseError>)
      requires Valid() && i == 0 && Now() == State(raw, {}, NEW_TASK)
      modifies this`i, this`quirks, this`task
      ensures Valid()
      ensures Agrees(ParseTask(mode, raw), r, Now())
    {
      hide Valid, Now, Pos, StartsCompleted, CompletedPrefix, IncompletePrefix, CheckRuns, FirstWord;
      var completed := Completed();
      var prefix: Result<(), ParseError>;
      if completed {
        TakeMarker();
        prefix := CompletedPrefixStep();
      } else {
        prefix := IncompletePrefixStep();
      }
      if prefix.Err? {
        return prefix;
      }
      var description := DescriptionStep();
      if description.Err? {
        return Err(description.error);
      }
      SetDescription(description.value);
      return Ok(());
    }
  }

  lemma CheckRunShortens(mode: Mode, len: nat, s: State, first: bool)
    requires s.rest != "" && CheckRun(mode, len, s, first).Got?
    ensures |CheckRun(mode, len, s, first).state.rest| < |s.rest|
  {
  }

  /** Parses one line by its chunks: the same line, quirks and errors as `ParseLine`. */
  method ParseChunks(raw: string, mode: Mode) returns (r: Result<Line, ParseError>)
    ensures r == ParseLine(raw, mode)
  {
    if raw == "" {
      return Ok(Line(Blank, {}));
    }
    hide ParseTask, ChunksOf, RefQuirk;
    var chunks := Chunks(raw);
    var p := new Parser(raw, chunks, mode);
    var parsed := p.TaskStep();
    if parsed.Err? {
      return Err(parsed.error);
    }
    p.TaskIsNow();
    return Ok(Line(TaskLine(p.task), p.quirks + RefQuirk(p.task.description)));
  }
}

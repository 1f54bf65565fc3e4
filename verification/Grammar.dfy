/**
 The strict grammar both ways: what Strict accepts prints back byte for byte, and what the formatter
 prints parses back to the same prefix and description.
 */
module Grammar {
  import opened Wrappers
  import opened Scanner
  import opened Words
  import opened Dates
  import opened TodoLine
  import opened TodoEdit

  /** The separator before what follows. */
  function Sep(rest: string): string {
    if rest == "" then "" else " "
  }

  /** A text the parser can stop at: nothing, or a word. */
  ghost predicate AtWord(s: string) {
    s == "" || !IsWs(s[0])
  }

  /** Words with exactly one space between them. */
  ghost predicate WellSpaced(d: string)
    decreases |d|
  {
    d == "" ||
    (!IsWs(d[0]) &&
     var t := d[RunLen(d)..];
     t == "" || (|t| > 1 && t[0] == ' ' && !IsWs(t[1]) && WellSpaced(t[1..])))
  }

  // ---- what strict steps consume ----

  lemma StrictSeparator(len: nat, s: State)
    requires s.rest == "" || IsWs(s.rest[0])
    requires Separator(Strict, len, s).Got?
    ensures var p := Separator(Strict, len, s);
            && p.state == s.(rest := p.state.rest) && p.value == (p.state.rest != "")
            && AtWord(p.state.rest) && s.rest == Sep(p.state.rest) + p.state.rest
  {
    if s.rest != "" {
      assert s.rest == s.rest[..RunLen(s.rest)] + s.rest[RunLen(s.rest)..];
    }
  }

  lemma StrictPriority(len: nat, s: State)
    requires AtWord(s.rest) && TakePriority(Strict, len, s).Got?
    ensures var p := TakePriority(Strict, len, s);
            if p.value then
              var pri := p.state.task.priority;
              && pri.Some? && p.state == s.(rest := p.state.rest, task := s.task.(priority := pri))
              && AtWord(p.state.rest) && s.rest == ShowPriority(pri.value) + Sep(p.state.rest) + p.state.rest
            else p.state == s && !IsPriorityWord(FirstWord(s.rest))
  {
    hide RunLen, Separator;
    var word := FirstWord(s.rest);
    if IsPriorityWord(word) {
      FirstWordSplits(s.rest);
      var s1 := s.(rest := s.rest[|word|..], task := s.task.(priority := NewPriority(word[1])));
      StrictSeparator(len, s1);
      assert word == ShowPriority(word[1]);
    }
  }

  lemma StrictCreationDate(len: nat, s: State)
    requires AtWord(s.rest) && TakeCreationDate(Strict, len, s).Got?
    ensures var p := TakeCreationDate(Strict, len, s);
            if HasDateShape(FirstWord(s.rest)) then
              var date := p.state.task.creationDate;
              && date.Some? && p.state == s.(rest := p.state.rest, task := s.task.(creationDate := date))
              && AtWord(p.state.rest) && s.rest == ShowDate(date.value) + Sep(p.state.rest) + p.state.rest
            else p.state == s
  {
    hide RunLen, Separator, ParseDate, ShowDate, HasDateShape;
    StrictDate(len, s);
    var date := ParseDate(FirstWord(s.rest));
    if date.Some? {
      var s1 := TakeDate(Strict, len, s).state;
      StrictSeparator(len, s1.(task := s1.task.(creationDate := date)));
    }
  }

  lemma StrictDate(len: nat, s: State)
    requires AtWord(s.rest) && TakeDate(Strict, len, s).Got?
    ensures var p := TakeDate(Strict, len, s);
            && p.value == ParseDate(FirstWord(s.rest))
            && (p.value.Some? <==> HasDateShape(FirstWord(s.rest)))
            && if p.value.Some? then
                 && p.state == s.(rest := p.state.rest) && s.rest == ShowDate(p.value.value) + p.state.rest
                 && (p.state.rest == "" || IsWs(p.state.rest[0]))
               else p.state == s
  {
    hide ParseDate, ShowDate;
    var word := FirstWord(s.rest);
    if ParseDate(word).Some? {
      ShowParse(word);
      FirstWordSplits(s.rest);
    }
  }

  /** A strict check of one chunk: a word passes, and whitespace only as one space between words. */
  lemma StrictRun(len: nat, s: State, first: bool)
    requires s.rest != "" && |s.rest| <= len && (first ==> len == |s.rest| || AtWord(s.rest))
    ensures var n, c := RunLen(s.rest), CheckRun(Strict, len, s, first);
            && (c.Got? <==> AtWord(s.rest) || (!first && s.rest[..n] == " " && n < |s.rest|))
            && (c.Got? ==> c.state == s.(rest := s.rest[n..]))
  {
  }

  /** Strict accepts a description exactly when its words are separated by single spaces. */
  lemma {:induction false} StrictRuns(len: nat, s: State, first: bool)
    requires |s.rest| <= len && ((first && len == |s.rest|) || AtWord(s.rest))
    ensures var c := CheckRuns(Strict, len, s, first);
            && (c.Got? <==> WellSpaced(s.rest))
            && (c.Got? ==> c.state == s.(rest := ""))
    decreases |s.rest|
  {
    hide CheckRun;
    if s.rest != "" {
      var n := RunLen(s.rest);
      StrictRun(len, s, first);
      if AtWord(s.rest) {
        var t := s.rest[n..];
        if t != "" {
          StrictRun(len, s.(rest := t), false);
          if t[..RunLen(t)] == " " && RunLen(t) < |t| {
            assert t[0] == t[..RunLen(t)][0];
            StrictRuns(len, s.(rest := t[1..]), false);
          } else {
            OneSpace(t);
          }
        }
      }
    }
  }

  lemma OneSpace(t: string)
    requires t != "" && IsWs(t[0])
    ensures |t| > 1 && t[0] == ' ' && !IsWs(t[1]) <==> t[..RunLen(t)] == " " && RunLen(t) < |t|
  {
    if |t| > 1 && t[0] == ' ' && !IsWs(t[1]) {
      RunIs(t, 1);
    } else if t[..RunLen(t)] == " " {
      assert t[0] == t[..RunLen(t)][0];
    }
  }

  /** Lenient never refuses a description. */
  lemma {:induction false} LenientRuns(len: nat, s: State, first: bool)
    ensures var c := CheckRuns(Lenient, len, s, first);
            c.Got? && c.state.task == s.task
    decreases |s.rest|
  {
    hide CheckRun;
    if s.rest != "" {
      LenientRun(len, s, first);
      LenientRuns(len, CheckRun(Lenient, len, s, first).state, false);
    }
  }

  lemma LenientRun(len: nat, s: State, first: bool)
    requires s.rest != ""
    ensures var c := CheckRun(Lenient, len, s, first);
            c.Got? && c.state.task == s.task && |c.state.rest| < |s.rest|
  {
    hide RunLen, IsWs;
  }

  // ---- what printed pieces parse to, in either mode ----

  lemma SeparatorOver(mode: Mode, len: nat, s: State, t: string)
    requires s.rest == Sep(t) + t && AtWord(t)
    ensures Separator(mode, len, s) == Got(t != "", s.(rest := t))
  {
    if t != "" {
      SpaceThen(t);
      assert s.rest[..1] == " ";
    }
  }

  lemma PriorityOver(mode: Mode, len: nat, s: State, p: Priority, t: string)
    requires s.rest == ShowPriority(p) + Sep(t) + t && AtWord(t)
    ensures TakePriority(mode, len, s) == Got(true, s.(rest := t, task := s.task.(priority := Some(p))))
  {
    hide Separator, RunLen;
    assert s.rest == ShowPriority(p) + (Sep(t) + t);
    WordThen(ShowPriority(p), Sep(t) + t);
    SeparatorOver(mode, len, s.(rest := Sep(t) + t, task := s.task.(priority := Some(p))), t);
  }

  lemma ShownDateIsWord(d: Date)
    ensures NoWs(ShowDate(d)) && ParseDate(ShowDate(d)) == Some(d) && HasDateShape(ShowDate(d))
  {
    ParseShow(d);
    ShowParse(ShowDate(d));
  }

  lemma DateOver(mode: Mode, len: nat, s: State, d: Date, t: string)
    requires s.rest == ShowDate(d) + t && (t == "" || IsWs(t[0]))
    ensures FirstWord(s.rest) == ShowDate(d)
    ensures TakeDate(mode, len, s) == Got(Some(d), s.(rest := t))
  {
    hide ParseDate, ShowDate, RunLen;
    ShownDateIsWord(d);
    WordThen(ShowDate(d), t);
  }

  lemma CreationDateOver(mode: Mode, len: nat, s: State, d: Date, t: string)
    requires s.rest == ShowDate(d) + Sep(t) + t && AtWord(t)
    ensures TakeCreationDate(mode, len, s) == Got((), s.(rest := t, task := s.task.(creationDate := Some(d))))
  {
    hide ParseDate, ShowDate, RunLen, Separator, TakeDate;
    assert s.rest == ShowDate(d) + (Sep(t) + t);
    DateOver(mode, len, s, d, Sep(t) + t);
    SeparatorOver(mode, len, s.(rest := Sep(t) + t, task := s.task.(creationDate := Some(d))), t);
  }

  /** Where no creation date stands, none is taken. */
  lemma NoCreationDate(mode: Mode, len: nat, s: State)
    requires ParseDate(FirstWord(s.rest)).None? && (mode == Strict ==> !HasDateShape(FirstWord(s.rest)))
    ensures TakeCreationDate(mode, len, s) == Got((), s)
  {
  }

  // ---- whole prefixes ----

  /** A creation date if there is one, then the description. */
  function Dated(creation: Option<Date>, desc: string): string {
    if creation.Some? then ShowDate(creation.value) + Sep(desc) + desc else desc
  }

  /** The line that prefix `p` and description `desc` are printed as. */
  function Printed(p: Prefix, desc: string): string {
    var rest := Dated(p.creationDate, desc);
    if p.completed then
      if p.completionDate.Some? then "x " + ShowDate(p.completionDate.value) + Sep(rest) + rest else "x" + Sep(rest) + rest
    else if p.priority.Some? then ShowPriority(p.priority.value) + Sep(rest) + rest
    else rest
  }

  lemma PrintedIsEmitted(p: Prefix, desc: string)
    ensures EmitPrefix(p, desc != "") + desc == Printed(p, desc)
  {
    hide ShowDate, ShowPriority;
    assert desc == "" ==> EmitPrefix(p, false) + desc == EmitPrefix(p, false);
  }

  /** The parse after a prefix: nothing noted, and the description still to read. */
  function AfterPrefix(p: Prefix, desc: string): State {
    State(desc, {}, Task(p.completed, p.completionDate, p.creationDate, p.priority, ""))
  }

  /** The description does not start with a word that a date slot would take. */
  ghost predicate NoDateFirst(mode: Mode, desc: string) {
    ParseDate(FirstWord(desc)).None? && (mode == Strict ==> !HasDateShape(FirstWord(desc)))
  }

  /** The prefix and the description are what the line they print as reads as, in `mode`. */
  ghost predicate Fits(mode: Mode, p: Prefix, desc: string) {
    && AtWord(desc)
    && (p.creationDate.None? ==> NoDateFirst(mode, desc))
    && if p.completed then
         && p.completionDate.Some? && p.priority.None?
         && (mode == Lenient ==> !IsPriorityWord(FirstWord(desc)))
       else
         && p.completionDate.None? && !StartsCompleted(mode, Printed(p, desc))
         && (p.priority.None? && p.creationDate.None? ==> desc != "" && !IsPriorityWord(FirstWord(desc)))
  }

  lemma DatedOver(mode: Mode, len: nat, s: State, creation: Option<Date>, desc: string)
    requires s.rest == Dated(creation, desc) && AtWord(desc) && s.task.creationDate.None?
    requires creation.None? ==> NoDateFirst(mode, desc)
    ensures TakeCreationDate(mode, len, s) == Got((), s.(rest := desc, task := s.task.(creationDate := creation)))
    ensures AtWord(s.rest)
    ensures creation.Some? ==> !IsPriorityWord(FirstWord(s.rest))
  {
    hide TakeCreationDate, ParseDate, ShowDate, RunLen;
    if creation.Some? {
      CreationDateOver(mode, len, s, creation.value, desc);
      assert s.rest == ShowDate(creation.value) + (Sep(desc) + desc);
      DateOver(mode, len, s, creation.value, Sep(desc) + desc);
      ShownDateIsWord(creation.value);
      assert s.rest[0] == ShowDate(creation.value)[0];
    } else {
      NoCreationDate(mode, len, s);
    }
  }

  lemma OpenPrefixOver(mode: Mode, p: Prefix, desc: string)
    requires Fits(mode, p, desc) && !p.completed
    ensures ParsePrefix(mode, Printed(p, desc)) == Got((), AfterPrefix(p, desc))
  {
    hide StartsCompleted, TakePriority, TakeCreationDate, ShowDate, FirstWord, Dated;
    var raw, rest := Printed(p, desc), Dated(p.creationDate, desc);
    var s := State(raw, {}, NEW_TASK);
    var s1 := State(rest, {}, NEW_TASK.(priority := p.priority));
    DatedOver(mode, |raw|, s1, p.creationDate, desc);
    if p.priority.Some? {
      PriorityOver(mode, |raw|, s, p.priority.value, rest);
    } else {
      assert p.creationDate.None? ==> rest == desc by {
        UndatedIsDescription(desc);
      }
      NoPriority(mode, |raw|, s);
    }
  }

  lemma UndatedIsDescription(desc: string)
    ensures Dated(None, desc) == desc
  {
  }

  lemma NoPriority(mode: Mode, len: nat, s: State)
    requires !IsPriorityWord(FirstWord(s.rest))
    ensures TakePriority(mode, len, s) == Got(false, s)
  {
  }

  lemma XIsWord()
    ensures NoWs("x")
  {
  }

  lemma MarkerOver(mode: Mode, d: Date, t: string)
    requires t == "" || IsWs(t[0])
    ensures StartsCompleted(mode, "x " + ShowDate(d) + t)
  {
    hide ParseDate, ShowDate, RunLen;
    var raw := "x " + ShowDate(d) + t;
    assert raw == "x" + (" " + ShowDate(d) + t);
    WordThen("x", " " + ShowDate(d) + t);
    ShownDateIsWord(d);
    var after := ShowDate(d) + t;
    assert raw[1..] == " " + after && after[0] == ShowDate(d)[0];
    SpaceThen(after);
    WordThen(ShowDate(d), t);
    assert raw[1..][..1] == " ";
  }

  /** The completed prefix as its steps: a separator, no early priority, a date, a separator, and what follows. */
  lemma CompletedSteps(mode: Mode, len: nat, s: State, s1: State, d: Date, s2: State, again: bool, s3: State, s4: State)
    requires Separator(mode, len, s) == Got(true, s1) && TakePriority(mode, len, s1) == Got(false, s1)
    requires TakeDate(mode, len, s1) == Got(Some(d), s2)
    requires Separator(mode, len, s2.(task := s2.task.(completionDate := Some(d)))) == Got(again, s3)
    requires if again then TakeCreationDate(mode, len, s3) == Got((), s4) else s4 == s3
    ensures CompletedPrefix(mode, len, s) == LatePriority(mode, len, s4)
  {
    hide Separator, TakePriority, TakeDate, TakeCreationDate, LatePriority, LenientOr;
  }

  /** After a completion date: its separator, and the creation date if there is one. */
  lemma DatesOver(mode: Mode, len: nat, s: State, creation: Option<Date>, desc: string)
    requires AtWord(desc) && (creation.None? ==> NoDateFirst(mode, desc)) && s.task.creationDate.None?
    requires s.rest == Sep(Dated(creation, desc)) + Dated(creation, desc)
    ensures var rest := Dated(creation, desc);
            var end := s.(rest := desc, task := s.task.(creationDate := creation));
            && Separator(mode, len, s) == Got(rest != "", s.(rest := rest))
            && if rest != "" then TakeCreationDate(mode, len, s.(rest := rest)) == Got((), end) else end == s.(rest := rest)
  {
    hide Separator, TakeCreationDate, Dated, NoDateFirst;
    var rest := Dated(creation, desc);
    DatedOver(mode, len, s.(rest := rest), creation, desc);
    DatedIsEmpty(creation, desc);
    SeparatorOver(mode, len, s, rest);
  }

  lemma ShapeIsNoPriority(w: string)
    ensures HasDateShape(w) ==> !IsPriorityWord(w)
  {
  }

  /** After the mark: its separator and the completion date. */
  lemma MarkedOver(mode: Mode, len: nat, s: State, d: Date, t: string)
    requires s.rest == " " + ShowDate(d) + t && (t == "" || IsWs(t[0]))
    ensures var s1 := s.(rest := ShowDate(d) + t);
            && Separator(mode, len, s) == Got(true, s1) && TakePriority(mode, len, s1) == Got(false, s1)
            && TakeDate(mode, len, s1) == Got(Some(d), s1.(rest := t))
  {
    hide Separator, TakePriority, TakeDate, ShowDate, FirstWord, ParseDate;
    var after := ShowDate(d) + t;
    ShownDateIsWord(d);
    assert s.rest == Sep(after) + after;
    assert after[0] == ShowDate(d)[0];
    SeparatorOver(mode, len, s, after);
    DateOver(mode, len, s.(rest := after), d, t);
    ShapeIsNoPriority(ShowDate(d));
    NoPriority(mode, len, s.(rest := after));
  }

  /** A completed prefix parses up to where lenient mode looks for a late priority. */
  lemma CompletedHeadOver(mode: Mode, p: Prefix, desc: string)
    requires AtWord(desc) && p.completed && p.completionDate.Some? && p.priority.None?
    requires p.creationDate.None? ==> NoDateFirst(mode, desc)
    ensures ParsePrefix(mode, Printed(p, desc)) == LatePriority(mode, |Printed(p, desc)|, AfterPrefix(p, desc))
  {
    hide StartsCompleted, Separator, TakePriority, TakeDate, TakeCreationDate, LatePriority, CompletedPrefix, AtWord, NoDateFirst;
    hide ShowDate, Dated;
    var raw, rest, d := Printed(p, desc), Dated(p.creationDate, desc), p.completionDate.value;
    var t := Sep(rest) + rest;
    assert raw == "x " + ShowDate(d) + t && raw[1..] == " " + ShowDate(d) + t;
    MarkerOver(mode, d, t);
    var s := State(raw[1..], {}, NEW_TASK.(completed := true));
    MarkedOver(mode, |raw|, s, d, t);
    var s2 := s.(rest := t);
    var s2' := s2.(task := s2.task.(completionDate := Some(d)));
    DatesOver(mode, |raw|, s2', p.creationDate, desc);
    CompletedSteps(mode, |raw|, s, s.(rest := ShowDate(d) + t), d, s2, rest != "", s2'.(rest := rest), AfterPrefix(p, desc));
  }

  lemma CompletedPrefixOver(mode: Mode, p: Prefix, desc: string)
    requires Fits(mode, p, desc) && p.completed
    ensures ParsePrefix(mode, Printed(p, desc)) == Got((), AfterPrefix(p, desc))
  {
    hide ParsePrefix, Printed, TakePriority;
    CompletedHeadOver(mode, p, desc);
    if mode == Lenient {
      NoPriority(mode, |Printed(p, desc)|, AfterPrefix(p, desc));
    }
  }

  lemma DatedIsEmpty(creation: Option<Date>, desc: string)
    ensures Dated(creation, desc) == "" <==> creation.None? && desc == ""
  {
  }

  /** What the formatter prints reads back as the same prefix and description. */
  lemma PrefixOver(mode: Mode, p: Prefix, desc: string)
    requires Fits(mode, p, desc)
    ensures ParsePrefix(mode, Printed(p, desc)) == Got((), AfterPrefix(p, desc))
  {
    if p.completed {
      CompletedPrefixOver(mode, p, desc);
    } else {
      OpenPrefixOver(mode, p, desc);
    }
  }

  // ---- and nothing else is accepted ----

  lemma StrictOpenPrefix(raw: string)
    requires AtWord(raw) && raw != "" && !StartsCompleted(Strict, raw) && ParsePrefix(Strict, raw).Got?
    ensures var s := ParsePrefix(Strict, raw).state;
            && raw == Printed(PrefixOf(s.task), s.rest) && Fits(Strict, PrefixOf(s.task), s.rest)
            && s == AfterPrefix(PrefixOf(s.task), s.rest)
  {
    hide StartsCompleted, TakePriority, TakeCreationDate, ShowDate, FirstWord, HasDateShape, ParseDate;
    var len, s := |raw|, State(raw, {}, NEW_TASK);
    StrictPriority(len, s);
    var s1 := TakePriority(Strict, len, s).state;
    StrictCreationDate(len, s1);
    DateShapes(FirstWord(s1.rest));
    var s2 := TakeCreationDate(Strict, len, s1).state;
    assert s1.rest == Dated(s2.task.creationDate, s2.rest);
  }

  lemma DateShapes(w: string)
    ensures ParseDate(w).Some? ==> HasDateShape(w)
  {
    if ParseDate(w).Some? {
      ShowParse(w);
    }
  }

  lemma StrictMarker(raw: string)
    requires StartsCompleted(Strict, raw)
    ensures var t := raw[2..];
            && |raw| > 2 && raw == "x " + t && t != "" && AtWord(t) && ParseDate(FirstWord(t)).Some?
  {
    hide RunLen, ParseDate;
    var after := raw[1..];
    assert raw[0] == FirstWord(raw)[0];
    assert after[0] == after[..RunLen(after)][0];
    assert after[1..] == raw[2..];
    NoDateNowhere();
  }

  lemma NoDateNowhere()
    ensures ParseDate("").None? && FirstWord("") == ""
  {
  }

  lemma StrictCompletedPrefix(raw: string)
    requires StartsCompleted(Strict, raw) && ParsePrefix(Strict, raw).Got?
    ensures var s := ParsePrefix(Strict, raw).state;
            && raw == Printed(PrefixOf(s.task), s.rest) && Fits(Strict, PrefixOf(s.task), s.rest)
            && s == AfterPrefix(PrefixOf(s.task), s.rest)
  {
    hide StartsCompleted, Separator, TakePriority, TakeDate, TakeCreationDate, ShowDate, FirstWord, HasDateShape, ParseDate, LenientOr;
    hide IsRealDate, IsPriorityWord, IsPriorityLetter, RunLen;
    StrictMarker(raw);
    var len, s := |raw|, State(raw[1..], {}, NEW_TASK.(completed := true));
    var t := raw[2..];
    assert s.rest == Sep(t) + t;
    SeparatorOver(Strict, len, s, t);
    var s3 := s.(rest := t);
    StrictDate(len, s3);
    var s4 := TakeDate(Strict, len, s3).state;
    var date := TakeDate(Strict, len, s3).value;
    var s4' := s4.(task := s4.task.(completionDate := date));
    StrictSeparator(len, s4');
    var s5 := Separator(Strict, len, s4').state;
    if s5.rest != "" {
      StrictCreationDate(len, s5);
    }
    var s6 := ParsePrefix(Strict, raw).state;
    DateShapes(FirstWord(s5.rest));
    NoShapeNowhere();
    assert s5.rest == Dated(s6.task.creationDate, s6.rest);
  }

  lemma NoShapeNowhere()
    ensures !HasDateShape(FirstWord("")) && ParseDate(FirstWord("")).None?
  {
  }

  lemma StrictPrefix(raw: string)
    requires AtWord(raw) && raw != "" && ParsePrefix(Strict, raw).Got?
    ensures var s := ParsePrefix(Strict, raw).state;
            && raw == Printed(PrefixOf(s.task), s.rest) && Fits(Strict, PrefixOf(s.task), s.rest)
            && s == AfterPrefix(PrefixOf(s.task), s.rest)
  {
    if StartsCompleted(Strict, raw) {
      StrictCompletedPrefix(raw);
    } else {
      StrictOpenPrefix(raw);
    }
  }

  /** A line that starts with whitespace has no prefix to take, and no strict description. */
  lemma StrictRefusesIndent(raw: string)
    requires raw != "" && IsWs(raw[0])
    ensures ParseTask(Strict, raw).Fail?
  {
    hide RunLen, CheckRuns;
    assert FirstWord(raw) == "";
    NoShapeNowhere();
    var s := State(raw, {}, NEW_TASK);
    NoPriority(Strict, |raw|, s);
    NoCreationDate(Strict, |raw|, s);
    StrictRuns(|raw|, s, true);
  }

  /** The line prints its task, whose description is words and single spaces that fit the prefix. */
  ghost predicate PrintsAs(raw: string, t: Task) {
    && raw == EmitPrefix(PrefixOf(t), t.description != "") + t.description
    && WellSpaced(t.description)
    && Fits(Strict, PrefixOf(t), t.description)
  }

  /**
   Strict accepts exactly the lines that some task is printed as, each as one task only: the one it prints.
   */
  lemma StrictReadsPrinted(raw: string, t: Task)
    requires raw != ""
    ensures ParseLine(raw, Strict) == Ok(Line(TaskLine(t), RefQuirk(t.description))) <==> PrintsAs(raw, t)
    ensures ParseLine(raw, Strict).Ok? ==>
              exists t' :: ParseLine(raw, Strict) == Ok(Line(TaskLine(t'), RefQuirk(t'.description)))
  {
    hide ParsePrefix, CheckRuns, EmitPrefix, Printed, Fits, WellSpaced, RefQuirk;
    var p := PrefixOf(t);
    PrintedIsEmitted(p, t.description);
    if PrintsAs(raw, t) {
      PrefixOver(Strict, p, t.description);
      FitsAtWord(Strict, p, t.description);
      StrictRuns(|raw|, AfterPrefix(p, t.description), true);
      assert ParseTask(Strict, raw).state == State("", {}, t);
      assert {} + RefQuirk(t.description) == RefQuirk(t.description);
    }
    if ParseTask(Strict, raw).Got? {
      if IsWs(raw[0]) {
        StrictRefusesIndent(raw);
      } else {
        StrictPrefix(raw);
        var s := ParsePrefix(Strict, raw).state;
        FitsAtWord(Strict, PrefixOf(s.task), s.rest);
        PrintedIsEmitted(PrefixOf(s.task), s.rest);
        StrictRuns(|raw|, s, true);
        var t' := s.task.(description := s.rest);
        assert PrefixOf(t') == PrefixOf(s.task);
        assert ParseTask(Strict, raw).state == State("", {}, t');
        assert {} + RefQuirk(t'.description) == RefQuirk(t'.description);
        assert ParseLine(raw, Strict) == Ok(Line(TaskLine(t'), RefQuirk(t'.description)));
      }
    }
  }

  lemma FitsAtWord(mode: Mode, p: Prefix, desc: string)
    requires Fits(mode, p, desc)
    ensures AtWord(desc) && |desc| <= |Printed(p, desc)|
  {
  }
}

/**
 Where strict reading stops and why: at the first whitespace that is not one space between words, or at a word
 in the place for a creation date that has a date's shape and is no day. All before that place is accepted.
 */
module StrictErrors {
  import opened Wrappers
  import opened Scanner
  import opened Words
  import opened Dates
  import opened TodoLine
  import opened TodoEdit
  import opened Grammar
  import opened StrictLines

  function StrictTask(s: string): Option<Task> {
    match ParseLine(s, Strict)
    case Ok(Line(TaskLine(t), _)) => Some(t)
    case _ => None
  }

  /** Whitespace that is wrong, after text that is accepted; at the end of a description any is, and indentation always. */
  ghost predicate SpacingFault(raw: string, e: ParseError) {
    && 0 <= e.at < |raw| && IsWs(raw[e.at])
    && var run, before := raw[e.at..][..RunLen(raw[e.at..])], StrictTask(raw[..e.at]);
       var last := e.at + |run| == |raw|;
       && (run != " " || last || e.at == 0) && (e.at > 0 ==> before.Some?)
       && e.rule == if e.at == 0 || (last && (run == " " || before.value.description != "")) then DescriptionRule else SpRule
  }

  /** A word where a creation date would stand that is shaped as a date and is none. */
  ghost predicate DateFault(raw: string, e: ParseError) {
    && e.rule == DateRule && 0 <= e.at < |raw|
    && var word := FirstWord(raw[e.at..]);
       && HasDateShape(word) && ParseDate(word).None?
       && (e.at > 0 ==>
             && raw[e.at - 1] == ' '
             && var before := StrictTask(raw[..e.at - 1]);
                before.Some? && before.value.description == "" && before.value.creationDate.None?)
  }

  // ---- text before the fault ----

  function TaskFrom(p: Prefix, d: string): Task {
    Task(p.completed, p.completionDate, p.creationDate, p.priority, d)
  }

  lemma PrintedIsAccepted(p: Prefix, d: string)
    requires Fits(Strict, p, d) && WellSpaced(d) && Printed(p, d) != ""
    ensures StrictTask(Printed(p, d)) == Some(TaskFrom(p, d))
  {
    hide ParseLine, Printed, EmitPrefix, Fits, WellSpaced;
    PrintedIsEmitted(p, d);
    assert PrefixOf(TaskFrom(p, d)) == p;
    StrictReadsPrinted(Printed(p, d), TaskFrom(p, d));
  }

  /** A separator that strict reading refuses. */
  lemma SeparatorFails(len: nat, s: State, e: ParseError)
    requires s.rest != "" && IsWs(s.rest[0]) && Separator(Strict, len, s) == Fail(e)
    ensures var run := s.rest[..RunLen(s.rest)];
            && e == ParseError(if run != " " then SpRule else DescriptionRule, len - |s.rest|)
            && (run != " " || |run| == |s.rest|)
  {
  }

  /** It stands after a prefix, with nothing of a description before it. */
  lemma FaultAfterPrefix(raw: string, p: Prefix, s: State, e: ParseError)
    requires raw == Printed(p, "") + s.rest && Fits(Strict, p, "") && Printed(p, "") != ""
    requires s.rest != "" && IsWs(s.rest[0]) && Separator(Strict, |raw|, s) == Fail(e)
    ensures SpacingFault(raw, e)
  {
    hide Separator, Printed, Fits, StrictTask, RunLen;
    SeparatorFails(|raw|, s, e);
    assert raw[e.at..] == s.rest && raw[..e.at] == Printed(p, "");
    PrintedIsAccepted(p, "");
  }

  lemma {:induction false} RunsFail(len: nat, s: State, first: bool, e: ParseError) returns (k: nat)
    requires |s.rest| <= len && AtWord(s.rest) && CheckRuns(Strict, len, s, first) == Fail(e)
    ensures 0 < k < |s.rest| && e.at == len - |s.rest| + k && WellSpaced(s.rest[..k]) && FirstWord(s.rest[..k]) == FirstWord(s.rest)
    ensures IsWs(s.rest[k])
    ensures var run := s.rest[k..][..RunLen(s.rest[k..])];
            var last := |run| == |s.rest[k..]|;
            (run != " " || last) && e.rule == if last then DescriptionRule else SpRule
    decreases |s.rest|
  {
    hide CheckRun, CheckRuns, WellSpaced, FirstWord, RunLen;
    NothingToCheck(len, s, first);
    var n := RunLen(s.rest);
    WordPasses(len, s, first);
    var t := s.rest[n..];
    var s1 := s.(rest := t);
    NothingToCheck(len, s1, false);
    if CheckRun(Strict, len, s1, false).Fail? {
      WhitespaceFails(len, s1);
      OneWordIsSpaced(s.rest);
      k := n;
    } else {
      SpacePasses(len, s1);
      var u := t[1..];
      var j := RunsFail(len, s1.(rest := u), false, e);
      k := n + 1 + j;
      MoreWords(s.rest, n, j);
      assert s.rest[k..] == u[j..];
    }
  }

  lemma NothingToCheck(len: nat, s: State, first: bool)
    ensures s.rest == "" ==> CheckRuns(Strict, len, s, first).Got?
  {
  }

  lemma WordPasses(len: nat, s: State, first: bool)
    requires s.rest != "" && !IsWs(s.rest[0])
    ensures var s1 := s.(rest := s.rest[RunLen(s.rest)..]);
            CheckRun(Strict, len, s, first) == Got((), s1) && CheckRuns(Strict, len, s, first) == CheckRuns(Strict, len, s1, false)
    ensures s.rest[RunLen(s.rest)..] == "" || IsWs(s.rest[RunLen(s.rest)..][0])
  {
  }

  lemma WhitespaceFails(len: nat, s: State)
    requires s.rest != "" && IsWs(s.rest[0]) && CheckRun(Strict, len, s, false).Fail?
    ensures var run := s.rest[..RunLen(s.rest)];
            var last := |run| == |s.rest|;
            && (run != " " || last)
            && CheckRuns(Strict, len, s, false) == Fail(ParseError(if last then DescriptionRule else SpRule, len - |s.rest|))
  {
  }

  lemma SpacePasses(len: nat, s: State)
    requires s.rest != "" && IsWs(s.rest[0]) && CheckRun(Strict, len, s, false).Got?
    ensures |s.rest| > 1 && s.rest[0] == ' ' && !IsWs(s.rest[1])
    ensures CheckRuns(Strict, len, s, false) == CheckRuns(Strict, len, s.(rest := s.rest[1..]), false)
  {
    assert s.rest[0] == s.rest[..RunLen(s.rest)][0];
  }

  lemma OneWordIsSpaced(d: string)
    requires d != "" && !IsWs(d[0])
    ensures WellSpaced(d[..RunLen(d)]) && FirstWord(d[..RunLen(d)]) == FirstWord(d)
  {
    var w := d[..RunLen(d)];
    RunIs(w, |w|);
    assert w[|w|..] == "" && w[..|w|] == w;
  }

  lemma MoreWords(d: string, n: nat, j: nat)
    requires d != "" && !IsWs(d[0]) && n == RunLen(d) && n + 1 + j < |d| && d[n] == ' ' && 0 < j
    requires WellSpaced(d[n + 1..][..j]) && !IsWs(d[n + 1])
    ensures WellSpaced(d[..n + 1 + j]) && FirstWord(d[..n + 1 + j]) == FirstWord(d)
  {
    var w, t := d[..n], d[n + 1..][..j];
    assert d[..n + 1 + j] == w + Sep(t) + t;
    WordsJoin(w, t);
  }

  /** Whitespace that is wrong inside a description. */
  lemma FaultInDescription(raw: string, p: Prefix, s: State, e: ParseError)
    requires raw == Printed(p, s.rest) && Fits(Strict, p, s.rest) && CheckRuns(Strict, |raw|, s, true) == Fail(e)
    ensures SpacingFault(raw, e)
  {
    hide Printed, Fits, CheckRuns, RunLen, StrictTask, WellSpaced, FirstWord;
    FitsAtWord(Strict, p, s.rest);
    var k := RunsFail(|raw|, s, true, e);
    var d := s.rest[..k];
    CutShort(p, s.rest, k);
    PrintedIsAccepted(p, d);
    var front := Printed(p, d);
    assert raw == front + s.rest[k..];
    assert raw[e.at..] == s.rest[k..] && raw[..e.at] == front;
  }

  lemma WordStays(a: string, t: string)
    requires a != "" && !IsWs(a[0]) && t != "" && IsWs(t[0])
    ensures FirstWord(a + t) == FirstWord(a) && RunLen(a + t) == RunLen(a)
  {
    RunIs(a + t, RunLen(a));
  }

  /** A mark before the cut is a mark of the whole. */
  lemma CutMark(d: string, k: nat)
    requires 0 < k < |d| && IsWs(d[k]) && StartsCompleted(Strict, d[..k])
    ensures StartsCompleted(Strict, d)
  {
    hide RunLen, ParseDate, FirstWord;
    var a, t := d[..k], d[k..];
    StrictMarker(a);
    NoDateNowhere();
    var u := a[2..];
    assert a == "x " + u && u != "" && !IsWs(u[0]);
    WordStays(a, t);
    assert d == a + t && d[1..] == " " + (u + t);
    WordStays(u, t);
    SpaceThen(u + t);
    assert d[1..][..1] == " " && d[1..][1..] == u + t;
  }

  lemma NoMarkPrinted(p: Prefix, d: string)
    requires !p.completed && (p.priority.Some? || p.creationDate.Some?)
    ensures FirstWord(Printed(p, d)) != "x"
  {
    hide ShowDate, FirstWord;
    var rest := Dated(p.creationDate, d);
    SepIsWs(d);
    SepIsWs(rest);
    if p.priority.Some? {
      assert Printed(p, d) == ShowPriority(p.priority.value) + (Sep(rest) + rest);
      WordThen(ShowPriority(p.priority.value), Sep(rest) + rest);
    } else {
      ShownDateIsWord(p.creationDate.value);
      assert Printed(p, d) == ShowDate(p.creationDate.value) + (Sep(d) + d);
      WordThen(ShowDate(p.creationDate.value), Sep(d) + d);
    }
  }

  lemma SepIsWs(rest: string)
    ensures Sep(rest) + rest == "" || IsWs((Sep(rest) + rest)[0])
  {
  }

  /** A description cut after some of its words fits the same prefix. */
  lemma CutShort(p: Prefix, desc: string, k: nat)
    requires Fits(Strict, p, desc) && 0 < k < |desc| && FirstWord(desc[..k]) == FirstWord(desc) && IsWs(desc[k])
    ensures Fits(Strict, p, desc[..k]) && Printed(p, desc) == Printed(p, desc[..k]) + desc[k..] && Printed(p, desc[..k]) != ""
  {
    hide ParseDate, HasDateShape, FirstWord, Printed;
    var d := desc[..k];
    PrintedMore(p, d, desc[k..]);
    assert d + desc[k..] == desc && d[0] == desc[0];
    if !p.completed {
      if p.priority.Some? || p.creationDate.Some? {
        NoMarkPrinted(p, d);
      } else {
        PlainPrinted(p, d);
        PlainPrinted(p, desc);
        if StartsCompleted(Strict, d) {
          CutMark(desc, k);
        }
      }
    }
  }

  lemma PlainPrinted(p: Prefix, d: string)
    requires !p.completed && p.priority.None? && p.creationDate.None?
    ensures Printed(p, d) == d
  {
  }

  lemma PrintedMore(p: Prefix, d: string, t: string)
    requires d != ""
    ensures Printed(p, d + t) == Printed(p, d) + t && Printed(p, d) != ""
  {
    hide ShowDate, ShowPriority;
    DatedMore(p.creationDate, d, t);
    var rest := Dated(p.creationDate, d);
    assert rest != "" && rest + t != "";
    if p.completed && p.completionDate.Some? {
      var date := ShowDate(p.completionDate.value);
      assert "x " + date + " " + (rest + t) == "x " + date + " " + rest + t;
    } else if p.completed {
      assert "x" + " " + (rest + t) == "x" + " " + rest + t;
    } else if p.priority.Some? {
      assert ShowPriority(p.priority.value) + " " + (rest + t) == ShowPriority(p.priority.value) + " " + rest + t;
    }
  }

  lemma DatedMore(created: Option<Date>, d: string, t: string)
    requires d != ""
    ensures Dated(created, d + t) == Dated(created, d) + t && Dated(created, d) != ""
  {
    hide ShowDate;
    if created.Some? {
      assert ShowDate(created.value) + " " + (d + t) == ShowDate(created.value) + " " + d + t;
    }
  }

  // ---- the steps that can fail ----

  /** A date slot: its word is no date but shaped as one, or its separator is wrong, or the rest is the description's. */
  lemma CreationFails(len: nat, s: State, e: ParseError)
    requires AtWord(s.rest) && TakeCreationDate(Strict, len, s) == Fail(e)
    ensures var word := FirstWord(s.rest);
            if ParseDate(word).None? then HasDateShape(word) && e == ParseError(DateRule, len - |s.rest|)
            else Separator(Strict, len, s.(rest := s.rest[|word|..], task := s.task.(creationDate := ParseDate(word)))) == Fail(e)
  {
    hide Separator, ParseDate, HasDateShape, FirstWord;
  }

  lemma PriorityFails(len: nat, s: State, e: ParseError)
    requires AtWord(s.rest) && TakePriority(Strict, len, s) == Fail(e)
    ensures var word := FirstWord(s.rest);
            && IsPriorityWord(word)
            && Separator(Strict, len, s.(rest := s.rest[|word|..], task := s.task.(priority := NewPriority(word[1])))) == Fail(e)
  {
    hide Separator, FirstWord;
  }

  // ---- the whole line ----

  /** What can stand before a creation date: nothing, a priority, or a mark and its date. */
  predicate BeforeDate(p: Prefix) {
    && p.creationDate.None?
    && if p.completed then p.completionDate.Some? && p.priority.None? else p.completionDate.None?
  }

  /** The line with a creation date, or the text of one, to be read. */
  function WithSlot(p: Prefix, u: string): string {
    if p == NO_PREFIX then u else Printed(p, "") + Sep(u) + u
  }

  lemma HeadFits(p: Prefix)
    requires BeforeDate(p) && p != NO_PREFIX
    ensures Fits(Strict, p, "") && Printed(p, "") != ""
  {
    hide ShowDate, FirstWord;
    NoShapeNowhere();
    if !p.completed {
      NoMarkPrinted(p, "");
    }
  }

  lemma DatedHead(p: Prefix, date: Date)
    requires BeforeDate(p)
    ensures var q := p.(creationDate := Some(date));
            Fits(Strict, q, "") && Printed(q, "") == WithSlot(p, ShowDate(date)) && Printed(q, "") != ""
  {
    hide ShowDate, FirstWord;
    var q := p.(creationDate := Some(date));
    if !p.completed {
      NoMarkPrinted(q, "");
    }
    assert ShowDate(date) + "" + "" == ShowDate(date);
  }

  lemma DateSlotFault(raw: string, p: Prefix, s: State, e: ParseError)
    requires BeforeDate(p) && raw == WithSlot(p, s.rest) && AtWord(s.rest) && TakeCreationDate(Strict, |raw|, s) == Fail(e)
    ensures SpacingFault(raw, e) || DateFault(raw, e)
  {
    hide TakeCreationDate, Printed, Fits, StrictTask, FirstWord, ParseDate, HasDateShape, Separator, ShowDate, SpacingFault;
    CreationFails(|raw|, s, e);
    var u := s.rest;
    var word := FirstWord(u);
    NoShapeNowhere();
    NoDateNowhere();
    FirstWordSplits(u);
    if ParseDate(word).None? {
      assert raw[e.at..] == u;
      if p != NO_PREFIX {
        HeadFits(p);
        PrintedIsAccepted(p, "");
        assert raw[..e.at - 1] == Printed(p, "") && raw[e.at - 1] == ' ';
      }
    } else {
      var date := ParseDate(word).value;
      ShowParse(word);
      DatedHead(p, date);
      var rest := u[|word|..];
      assert raw == WithSlot(p, ShowDate(date)) + rest;
      NothingToSeparate(|raw|, s.(rest := rest, task := s.task.(creationDate := ParseDate(word))));
      FaultAfterPrefix(raw, p.(creationDate := Some(date)), s.(rest := rest, task := s.task.(creationDate := ParseDate(word))), e);
    }
  }

  lemma NothingToSeparate(len: nat, s: State)
    ensures s.rest == "" ==> Separator(Strict, len, s).Got?
  {
  }

  lemma OpenPrefixFault(raw: string, e: ParseError)
    requires raw != "" && AtWord(raw) && !StartsCompleted(Strict, raw) && ParsePrefix(Strict, raw) == Fail(e)
    ensures SpacingFault(raw, e) || DateFault(raw, e)
  {
    hide TakePriority, TakeCreationDate, FirstWord, Separator, SpacingFault, DateFault, StartsCompleted;
    var s := State(raw, {}, NEW_TASK);
    var p := TakePriority(Strict, |raw|, s);
    if p.Fail? {
      PriorityFault(raw, s, e);
    } else {
      StrictPriority(|raw|, s);
      var s1 := p.state;
      var head := Prefix(false, None, None, s1.task.priority);
      DateSlotFault(raw, head, s1, e);
    }
  }

  lemma PriorityFault(raw: string, s: State, e: ParseError)
    requires s.rest == raw != "" && AtWord(raw) && TakePriority(Strict, |raw|, s) == Fail(e)
    ensures SpacingFault(raw, e)
  {
    hide TakePriority, FirstWord, Separator, SpacingFault, Fits, RunLen;
    PriorityFails(|raw|, s, e);
    FirstWordSplits(raw);
    var word := FirstWord(raw);
    var head := Prefix(false, None, None, Some(word[1]));
    HeadFits(head);
    var s1 := s.(rest := raw[|word|..], task := s.task.(priority := NewPriority(word[1])));
    NothingToSeparate(|raw|, s1);
    assert ShowPriority(word[1]) == word && Printed(head, "") == word;
    FaultAfterPrefix(raw, head, s1, e);
  }

  lemma MarkedPrefixFault(raw: string, e: ParseError)
    requires raw != "" && AtWord(raw) && StartsCompleted(Strict, raw) && ParsePrefix(Strict, raw) == Fail(e)
    ensures SpacingFault(raw, e) || DateFault(raw, e)
  {
    hide TakePriority, TakeDate, TakeCreationDate, FirstWord, Separator, SpacingFault, DateFault, StartsCompleted, ParseDate, ShowDate;
    hide HasDateShape, Fits;
    StrictMarker(raw);
    var t := raw[2..];
    var s := State(raw[1..], {}, NEW_TASK.(completed := true));
    assert s.rest == Sep(t) + t;
    SeparatorOver(Strict, |raw|, s, t);
    var s1 := s.(rest := t);
    DateIsTaken(|raw|, s1);
    StrictDate(|raw|, s1);
    var date := ParseDate(FirstWord(t)).value;
    var s2 := TakeDate(Strict, |raw|, s1).state;
    var s2' := s2.(task := s2.task.(completionDate := Some(date)));
    var head := Prefix(true, Some(date), None, None);
    HeadFits(head);
    MarkedHead(date);
    assert raw == Printed(head, "") + s2'.rest;
    if Separator(Strict, |raw|, s2').Fail? {
      NothingToSeparate(|raw|, s2');
      FaultAfterPrefix(raw, head, s2', e);
    } else {
      StrictSeparator(|raw|, s2');
      var s3 := Separator(Strict, |raw|, s2').state;
      DateSlotFault(raw, head, s3, e);
    }
  }

  lemma MarkedHead(date: Date)
    ensures Printed(Prefix(true, Some(date), None, None), "") == "x " + ShowDate(date)
  {
    hide ShowDate;
  }

  lemma DateIsTaken(len: nat, s: State)
    requires ParseDate(FirstWord(s.rest)).Some?
    ensures TakeDate(Strict, len, s).Got? && TakeDate(Strict, len, s).value == ParseDate(FirstWord(s.rest))
  {
    hide ParseDate, FirstWord;
  }

  /** Strict reading refuses a line at its first fault, and names that fault. */
  lemma StrictFault(raw: string, e: ParseError)
    requires ParseLine(raw, Strict) == Err(e)
    ensures SpacingFault(raw, e) || DateFault(raw, e)
  {
    hide ParsePrefix, CheckRuns, SpacingFault, DateFault, RefQuirk, StartsCompleted;
    if IsWs(raw[0]) {
      IndentFault(raw, e);
    } else if ParsePrefix(Strict, raw).Fail? {
      if StartsCompleted(Strict, raw) {
        MarkedPrefixFault(raw, e);
      } else {
        OpenPrefixFault(raw, e);
      }
    } else {
      StrictPrefix(raw);
      var s := ParsePrefix(Strict, raw).state;
      FaultInDescription(raw, PrefixOf(s.task), s, e);
    }
  }

  lemma IndentFault(raw: string, e: ParseError)
    requires raw != "" && IsWs(raw[0]) && ParseLine(raw, Strict) == Err(e)
    ensures SpacingFault(raw, e)
  {
    hide RunLen, CheckRuns, RefQuirk, FirstWord, StrictTask;
    assert FirstWord(raw) == "";
    NoShapeNowhere();
    NoDateNowhere();
    var s := State(raw, {}, NEW_TASK);
    NoPriority(Strict, |raw|, s);
    NoCreationDate(Strict, |raw|, s);
    NoMarkHere(raw);
    IndentFails(|raw|, s);
  }

  lemma NoMarkHere(raw: string)
    requires FirstWord(raw) == ""
    ensures !StartsCompleted(Strict, raw)
  {
  }

  lemma IndentFails(len: nat, s: State)
    requires s.rest != "" && IsWs(s.rest[0]) && len == |s.rest|
    ensures CheckRuns(Strict, len, s, true) == Fail(ParseError(DescriptionRule, 0))
  {
  }
}

/**
 Completing a line and reopening it, through emitted text and a re-parse: exactly when the original
 comes back.
 */
module Completion {
  import opened Wrappers
  import opened Scanner
  import opened Words
  import opened Dates
  import opened TodoLine
  import opened TodoEdit
  import opened Grammar

  // ---- lenient reading ----

  lemma LenientSeparator(len: nat, s: State)
    ensures Separator(Lenient, len, s).Got?
    ensures |Separator(Lenient, len, s).state.rest| <= |s.rest|
    ensures Separator(Lenient, len, s).state.task.completed == s.task.completed
  {
  }

  lemma LenientPriority(len: nat, s: State)
    ensures TakePriority(Lenient, len, s).Got?
    ensures |TakePriority(Lenient, len, s).state.rest| <= |s.rest|
    ensures TakePriority(Lenient, len, s).state.task.completed == s.task.completed
  {
    hide Separator;
    var word := FirstWord(s.rest);
    LenientSeparator(len, s.(rest := s.rest[|word|..], task := s.task.(priority := if |word| > 1 then NewPriority(word[1]) else None)));
  }

  lemma LenientDate(len: nat, s: State)
    ensures TakeDate(Lenient, len, s).Got?
    ensures |TakeDate(Lenient, len, s).state.rest| <= |s.rest|
    ensures TakeDate(Lenient, len, s).state.task.completed == s.task.completed
  {
  }

  lemma LenientCreationDate(len: nat, s: State)
    ensures TakeCreationDate(Lenient, len, s).Got?
    ensures |TakeCreationDate(Lenient, len, s).state.rest| <= |s.rest|
    ensures TakeCreationDate(Lenient, len, s).state.task.completed == s.task.completed
  {
    hide Separator, TakeDate;
    LenientDate(len, s);
    var d := TakeDate(Lenient, len, s);
    LenientSeparator(len, d.state.(task := d.state.task.(creationDate := d.value)));
  }

  lemma LenientCompletedPrefix(len: nat, s: State)
    ensures CompletedPrefix(Lenient, len, s).Got?
    ensures |CompletedPrefix(Lenient, len, s).state.rest| <= |s.rest|
    ensures CompletedPrefix(Lenient, len, s).state.task.completed == s.task.completed
  {
    hide Separator, TakePriority, TakeDate, TakeCreationDate;
    LenientSeparator(len, s);
    var s1 := Separator(Lenient, len, s).state;
    LenientPriority(len, s1);
    var early := TakePriority(Lenient, len, s1);
    var s3 := if early.value then early.state.(quirks := early.state.quirks + {PriorityAfterX}) else early.state;
    LenientDate(len, s3);
    var date := TakeDate(Lenient, len, s3);
    var s4 := date.state.(task := date.state.task.(completionDate := date.value));
    LenientSeparator(len, s4);
    var s5 := Separator(Lenient, len, s4).state;
    LenientCreationDate(len, s5);
    LenientPriority(len, s5);
    LenientPriority(len, TakeCreationDate(Lenient, len, s5).state);
  }

  lemma LenientPrefix(raw: string)
    ensures ParsePrefix(Lenient, raw).Got?
    ensures |ParsePrefix(Lenient, raw).state.rest| <= |raw|
    ensures StartsCompleted(Lenient, raw) ==> |ParsePrefix(Lenient, raw).state.rest| < |raw|
    ensures ParsePrefix(Lenient, raw).state.task.completed == StartsCompleted(Lenient, raw)
  {
    hide TakePriority, TakeCreationDate, CompletedPrefix, RunLen;
    if StartsCompleted(Lenient, raw) {
      LenientCompletedPrefix(|raw|, State(raw[1..], {}, NEW_TASK.(completed := true)));
    } else {
      LenientPriority(|raw|, State(raw, {}, NEW_TASK));
      LenientCreationDate(|raw|, TakePriority(Lenient, |raw|, State(raw, {}, NEW_TASK)).state);
    }
  }

  /** Lenient reading never fails, and its description is never longer than the line. */
  lemma LenientIsTotal(raw: string)
    ensures ParseLine(raw, Lenient).Ok?
    ensures |DraftOf(raw).description| <= |raw|
    ensures StartsCompleted(Lenient, raw) ==> DraftOf(raw).prefix.completed && |DraftOf(raw).description| < |raw|
  {
    hide ParsePrefix, CheckRuns;
    LenientPrefix(raw);
    LenientRuns(|raw|, ParsePrefix(Lenient, raw).state, true);
  }

  /** A printed line that fits reads back leniently as what was printed. */
  lemma ReadsAsPrinted(p: Prefix, desc: string)
    requires Fits(Lenient, p, desc) && Printed(p, desc) != ""
    ensures DraftOf(Printed(p, desc)) == Draft(p, desc)
  {
    hide ParsePrefix, CheckRuns, Fits, Printed;
    PrefixOver(Lenient, p, desc);
    LenientRuns(|Printed(p, desc)|, AfterPrefix(p, desc), true);
  }

  /** An open task, and the strict line it is printed as. */
  ghost predicate OpenTask(raw: string, t: Task) {
    raw != "" && PrintsAs(raw, t) && !t.completed
  }

  /** Unless it starts with the word `x`, an open line reads leniently as it reads strictly. */
  lemma OpenReadsTheSame(raw: string, t: Task)
    requires OpenTask(raw, t) && FirstWord(raw) != "x"
    ensures DraftOf(raw) == Draft(PrefixOf(t), t.description)
    ensures Fits(Lenient, PrefixOf(t), t.description)
  {
    hide DraftOf;
    PrintedIsEmitted(PrefixOf(t), t.description);
    ReadsAsPrinted(PrefixOf(t), t.description);
  }

  lemma {:induction false} WellSpacedEnd(d: string)
    requires WellSpaced(d)
    ensures d == "" || !IsWs(d[|d| - 1])
    decreases |d|
  {
    if d != "" && RunLen(d) < |d| {
      WellSpacedEnd(d[RunLen(d)..][1..]);
    }
  }

  // ---- completing ----

  function DonePrefix(t: Task, today: Date): Prefix {
    Prefix(true, Some(today), t.creationDate, None)
  }

  function DoneDescription(t: Task): string {
    if t.priority.Some? then SetTag(t.description, "pri", [t.priority.value]) else t.description
  }

  lemma ApplyOne(d: Draft, op: Op)
    ensures ApplyOps(d, [op]) == ApplyOp(d, op)
  {
    assert [op][1..] == [];
    assert ApplyOps(ApplyOp(d, op), []) == ApplyOp(d, op);
  }

  /** What completing an open draft writes. */
  lemma CompletedText(raw: string, t: Task, today: Date)
    requires DraftOf(raw) == Draft(PrefixOf(t), t.description) && !t.completed
    ensures Edited(raw, [Complete(today)]) == Printed(DonePrefix(t, today), DoneDescription(t))
  {
    hide DraftOf, SetTag, EmitPrefix, Printed;
    ApplyOne(DraftOf(raw), Complete(today));
    PrintedIsEmitted(DonePrefix(t, today), DoneDescription(t));
  }

  /** What reopening a completed draft writes. */
  lemma ReopenedText(done: string, d: Draft)
    requires DraftOf(done) == d && d.prefix.completed
    ensures var r := UncompleteDraft(d);
            Edited(done, [Uncomplete]) == Printed(r.prefix, r.description)
  {
    hide DraftOf, EmitPrefix, Printed, UncompleteDraft;
    ApplyOne(d, Uncomplete);
    var r := UncompleteDraft(d);
    UncompleteOpens(d);
    PrintedIsEmitted(r.prefix, r.description);
  }

  lemma UncompleteOpens(d: Draft)
    requires d.prefix.completed
    ensures !UncompleteDraft(d).prefix.completed
  {
  }

  /** The line an open task becomes and comes back as. */
  function RoundTrip(raw: string, today: Date): string {
    Edited(Edited(raw, [Complete(today)]), [Uncomplete])
  }

  lemma FirstWordStays(d: string, t: string)
    requires d != "" && !IsWs(d[|d| - 1]) && (t == "" || IsWs(t[0]))
    ensures FirstWord(d + t) == FirstWord(d)
  {
    RunStays(d, t);
  }

  lemma PriWordText(p: Priority)
    ensures "pri" + ":" + [p] == PriWord(p)
    ensures FirstWord(PriWord(p)) == PriWord(p) && !IsPriorityWord(PriWord(p)) && ParseDate(PriWord(p)).None?
  {
    PriWordIsTag(p);
    WordThen(PriWord(p), "");
    assert PriWord(p) + "" == PriWord(p);
  }

  lemma TagAlone(p: Priority)
    ensures SetTag("", "pri", [p]) == PriWord(p)
    ensures PriTagLetter(PriWord(p)) == Some(p) && RemoveTag(PriWord(p), "pri") == ""
  {
    hide FindTag, IsTagOf, FirstWord, IsPriorityWord, ParseDate, RunLen;
    PriWordText(p);
    FindPriWord(p, 0);
    FindTagNowhere(0, "pri");
    assert PriWord(p)[..0] + PriWord(p)[5..] == "";
  }

  lemma TagAtEnd(d: string, p: Priority)
    requires d != "" && !IsWs(d[|d| - 1]) && FindTag(d, 0, "pri").None?
    ensures var d' := d + " " + PriWord(p);
            && SetTag(d, "pri", [p]) == d'
            && PriTagLetter(d') == Some(p) && RemoveTag(d', "pri") == d
            && FirstWord(d') == FirstWord(d)
  {
    hide FindTag, FirstWord, PriWord, AppendTo;
    var t := " " + PriWord(p);
    var d' := d + t;
    PriWordText(p);
    TagFoundAtEnd(d, p);
    TagSlices(d, p);
    FirstWordStays(d, t);
    assert d + " " + PriWord(p) == d';
    assert AppendTo(d, PriWord(p)) == d' by { AppendedAfterSpace(d, p); }
  }

  lemma TagFoundAtEnd(d: string, p: Priority)
    requires d != "" && !IsWs(d[|d| - 1]) && FindTag(d, 0, "pri").None?
    ensures FindTag(d + (" " + PriWord(p)), 0, "pri") == Some((|d| + 1, |d| + 6))
  {
    hide FindTag;
    FindTagAppend(d, " " + PriWord(p), 0, "pri");
    FindPriWord(p, |d|);
  }

  lemma TagSlices(d: string, p: Priority)
    ensures var d' := d + (" " + PriWord(p));
            |d'| == |d| + 6 && d'[|d|] == ' ' && d'[|d| + 5] == p && d'[..|d|] == d && d'[|d| + 6..] == ""
  {
  }

  lemma AppendedAfterSpace(d: string, p: Priority)
    requires d != ""
    ensures AppendTo(d, PriWord(p)) == d + (" " + PriWord(p))
  {
  }

  /** With no `pri:` tag there, the priority goes to the end, and comes off again. */
  lemma TagComesAndGoes(d: string, p: Priority)
    requires WellSpaced(d) && FindTag(d, 0, "pri").None?
    ensures var d' := SetTag(d, "pri", [p]);
            && d' == AppendTo(d, PriWord(p))
            && PriTagLetter(d') == Some(p) && RemoveTag(d', "pri") == d
            && FirstWord(d') == (if d == "" then PriWord(p) else FirstWord(d))
            && (AtWord(d) ==> AtWord(d'))
  {
    hide FindTag, RunLen, SetTag, RemoveTag, PriTagLetter, FirstWord;
    PriWordText(p);
    WellSpacedEnd(d);
    if d != "" {
      TagAtEnd(d, p);
    } else {
      TagAlone(p);
    }
  }

  /** A completed draft's description is not mistaken for more prefix. */
  lemma DoneFits(t: Task, today: Date, desc: string)
    requires AtWord(desc) && !IsPriorityWord(FirstWord(desc))
    requires t.creationDate.None? ==> ParseDate(FirstWord(desc)).None?
    ensures Fits(Lenient, DonePrefix(t, today), desc)
    ensures Printed(DonePrefix(t, today), desc) != ""
  {
  }

  /** Whether reopening would turn a `pri:` word of the line's own into a priority. */
  predicate OwnPriTag(t: Task) {
    if t.priority.Some? then FindTag(t.description, 0, "pri").Some? else PriTagLetter(t.description).Some?
  }

  lemma RoundTripReturns(raw: string, t: Task, today: Date)
    requires OpenTask(raw, t) && FirstWord(raw) != "x"
    requires !IsPriorityWord(FirstWord(t.description)) && !OwnPriTag(t)
    ensures RoundTrip(raw, today) == raw
  {
    hide DraftOf, Edited, FindTag, SetTag, RemoveTag, PriTagLetter, Printed, Fits, EmitPrefix;
    OpenReadsTheSame(raw, t);
    CompletedText(raw, t, today);
    var desc := DoneDescription(t);
    if t.priority.Some? {
      TagComesAndGoes(t.description, t.priority.value);
      PriWordText(t.priority.value);
    }
    OpenFits(t);
    DoneFits(t, today, desc);
    var done := Printed(DonePrefix(t, today), desc);
    ReadsAsPrinted(DonePrefix(t, today), desc);
    ReopenedText(done, Draft(DonePrefix(t, today), desc));
    PrintedIsEmitted(PrefixOf(t), t.description);
  }

  lemma OpenFits(t: Task)
    requires Fits(Lenient, PrefixOf(t), t.description) && !t.completed
    ensures AtWord(t.description) && t.completionDate.None?
    ensures t.creationDate.None? ==> ParseDate(FirstWord(t.description)).None?
  {
  }

  // ---- where the original does not come back ----

  /** A tag of `key` that is a whole word of `d`, with its offsets. */
  ghost predicate Stands(d: string, start: int, end: int, key: string) {
    && 0 <= start && start + |key| + 1 < end <= |d|
    && (end == |d| || IsWs(d[end]))
    && (if start == 0 then !IsWs(d[0]) && end == RunLen(d) else RunLen(d) <= start && IsWs(d[start - 1]))
  }

  lemma StandsLater(d: string, n: nat, start: int, end: int, key: string)
    requires d != "" && n == RunLen(d) && Stands(d[n..], start, end, key)
    ensures Stands(d, start + n, end + n, key)
  {
    assert end < |d[n..]| ==> d[n..][end] == d[end + n];
    assert d[n..][0] == d[n];
    assert start > 0 ==> d[n..][start - 1] == d[start + n - 1];
  }

  lemma {:induction false} FoundTagStands(d: string, base: nat, key: string)
    requires FindTag(d, base, key).Some?
    ensures var (start, end) := FindTag(d, base, key).value;
            Stands(d, start - base, end - base, key)
    decreases |d|
  {
    hide IsTagOf, RunLen, FindTag, Stands;
    FindTagNowhere(base, key);
    var n := RunLen(d);
    FindTagStep(d, n, base, key);
    if !IsWs(d[0]) && IsTagOf(d[..n], key) {
      TagOfKey(d[..n], key);
      StandsFirst(d, key);
    } else {
      FoundTagStands(d[n..], base + n, key);
      var (start, end) := FindTag(d, base, key).value;
      StandsLater(d, n, start - base - n, end - base - n, key);
    }
  }

  lemma StandsFirst(d: string, key: string)
    requires d != "" && !IsWs(d[0]) && RunLen(d) > |key| + 1
    ensures Stands(d, 0, RunLen(d), key)
  {
  }

  /** Taking a tag away shortens a description by more than the tag's key. */
  lemma RemoveTagShortens(d: string, key: string)
    ensures FindTag(d, 0, key).Some? ==> |RemoveTag(d, key)| + |key| + 1 < |d|
    ensures FindTag(d, 0, key).None? ==> RemoveTag(d, key) == d
  {
    hide FindTag, RunLen;
    if FindTag(d, 0, key).Some? {
      FoundTagStands(d, 0, key);
    }
  }

  /** A `pri:` tag is replaced where it stands or put at the end; the first word stays or is that tag. */
  lemma SetPriTag(d: string, p: Priority)
    requires WellSpaced(d)
    ensures var d' := SetTag(d, "pri", [p]);
            && AtWord(d') && d' != ""
            && (FirstWord(d') == FirstWord(d) || FirstWord(d') == PriWord(p))
            && (IsPriorityWord(FirstWord(d)) ==> FirstWord(d') == FirstWord(d))
            && (if FindTag(d, 0, "pri").Some? then |d'| <= |d| else d' == AppendTo(d, PriWord(p)))
  {
    hide FindTag, IsTagOf, FirstWord, RunLen, SetTag, IsPriorityWord, ParseDate, RemoveTag, PriTagLetter;
    if FindTag(d, 0, "pri").None? {
      PriWordText(p);
      TagComesAndGoes(d, p);
      NothingIsNoPriority();
      FirstWordOf(d);
    } else {
      SetPriOver(d, p);
    }
  }

  lemma NothingIsNoPriority()
    ensures !IsPriorityWord("")
  {
  }

  lemma SetPriOver(d: string, p: Priority)
    requires AtWord(d) && FindTag(d, 0, "pri").Some?
    ensures var d' := SetTag(d, "pri", [p]);
            && AtWord(d') && d' != "" && |d'| <= |d|
            && (FirstWord(d') == FirstWord(d) || (FirstWord(d') == PriWord(p) && !IsPriorityWord(FirstWord(d))))
  {
    hide FindTag, IsTagOf, FirstWord, RunLen, SetTag, IsPriorityWord, ParseDate;
    var (start, end) := FindTag(d, 0, "pri").value;
    FoundTagStands(d, 0, "pri");
    SetTagInPlace(d, p);
    if start == 0 {
      FoundWordIsTag(d, 0, "pri");
      TagReplacedFirst(d, end, p);
    } else {
      TagReplacedLater(d, start, end, p);
    }
  }

  lemma SetTagInPlace(d: string, p: Priority)
    requires FindTag(d, 0, "pri").Some?
    ensures var (start, end) := FindTag(d, 0, "pri").value;
            SetTag(d, "pri", [p]) == d[..start] + PriWord(p) + d[end..]
  {
    PriWordText(p);
  }

  lemma TagReplacedFirst(d: string, end: nat, p: Priority)
    requires d != "" && end == RunLen(d) && !IsWs(d[0]) && IsTagOf(d[0..end], "pri")
    ensures FirstWord(d[..0] + PriWord(p) + d[end..]) == PriWord(p) && !IsPriorityWord(FirstWord(d))
  {
    hide IsTagOf;
    PriWordIsTag(p);
    assert d[..0] + PriWord(p) + d[end..] == PriWord(p) + d[end..];
    WordThen(PriWord(p), d[end..]);
    assert FirstWord(d) == d[0..end];
    if IsPriorityWord(FirstWord(d)) {
      PriorityWordIsNoTag(FirstWord(d));
    }
  }

  lemma TagReplacedLater(d: string, start: nat, end: nat, p: Priority)
    requires d != "" && AtWord(d) && RunLen(d) <= start < end <= |d| && IsWs(d[start - 1])
    ensures FirstWord(d[..start] + PriWord(p) + d[end..]) == FirstWord(d)
  {
    hide RunLen, FirstWord;
    AtBreak(d, start);
    SameFirstWord(d, d[..start] + PriWord(p) + d[end..]);
  }

  lemma SameFirstWord(d: string, d': string)
    requires d != "" && AtWord(d) && RunLen(d) < |d| && RunLen(d) < |d'|
    requires d[..RunLen(d) + 1] == d'[..RunLen(d) + 1]
    ensures FirstWord(d') == FirstWord(d)
  {
    hide RunLen, FirstWord, IsWs;
    var n := RunLen(d);
    FirstWordRun(d);
    SamePrefix(d, d', n);
    assert d' == d[..n] + d'[n..];
    WordThen(d[..n], d'[n..]);
  }

  lemma FirstWordRun(d: string)
    requires d != "" && AtWord(d)
    ensures FirstWord(d) == d[..RunLen(d)]
    ensures RunLen(d) < |d| ==> IsWs(d[RunLen(d)])
  {
  }

  lemma SamePrefix(d: string, d': string, n: nat)
    requires n < |d| && n < |d'| && d[..n + 1] == d'[..n + 1]
    ensures d[..n] == d'[..n] && d[n] == d'[n]
  {
    assert d[n] == d[..n + 1][n] == d'[..n + 1][n] == d'[n];
    assert d[..n] == d[..n + 1][..n] == d'[..n + 1][..n] == d'[..n];
  }

  lemma AtBreak(d: string, start: nat)
    requires d != "" && AtWord(d) && RunLen(d) <= start <= |d| && start > 0 && IsWs(d[start - 1])
    ensures RunLen(d) < start && IsWs(d[RunLen(d)])
  {
  }

  lemma FirstWordOf(d: string)
    ensures d != "" && AtWord(d) ==> FirstWord(d) == d[..RunLen(d)] && FirstWord(d) != "" && NoWs(FirstWord(d))
    ensures d == "" ==> FirstWord(d) == ""
  {
  }

  lemma PriorityWordIsNoTag(w: string)
    requires IsPriorityWord(w)
    ensures !IsTagOf(w, "pri")
  {
    if IsTagOf(w, "pri") {
      TagOfKey(w, "pri");
    }
  }

  /** A line with a priority prints longer the longer its description. */
  lemma PrintedGrows(t: Task, d: string, p: Priority, d': string)
    requires |d| < |d'|
    ensures |Printed(Prefix(false, None, t.creationDate, Some(p)), d)| < |Printed(Prefix(false, None, t.creationDate, t.priority), d')|
         || t.priority.None?
  {
    hide ShowDate, ShowPriority;
    assert t.priority.Some? ==> |ShowPriority(p)| == |ShowPriority(t.priority.value)| by {
      assert IsPriorityWord(ShowPriority(p));
      assert t.priority.Some? ==> IsPriorityWord(ShowPriority(t.priority.value));
    }
  }

  /** The first word of a printed open line is its priority, else its creation date, else its description's. */
  lemma PrintedFirstWord(p: Prefix, desc: string)
    requires !p.completed && AtWord(desc)
    ensures p.priority.Some? ==> IsPriorityWord(FirstWord(Printed(p, desc)))
    ensures p.priority.None? && p.creationDate.Some? ==> HasDateShape(FirstWord(Printed(p, desc)))
    ensures p.priority.None? && p.creationDate.None? ==> Printed(p, desc) == desc
  {
    hide RunLen, FirstWord, ShowDate, ShowPriority, ParseDate, HasDateShape, IsRealDate;
    var rest := Dated(p.creationDate, desc);
    if p.priority.Some? {
      var w := ShowPriority(p.priority.value);
      assert NoWs(w) by {
        assert IsPriorityWord(w);
      }
      WordThen(w, Sep(rest) + rest);
      assert Printed(p, desc) == w + (Sep(rest) + rest);
    } else if p.creationDate.Some? {
      ShownDateIsWord(p.creationDate.value);
      WordThen(ShowDate(p.creationDate.value), Sep(desc) + desc);
      assert Printed(p, desc) == ShowDate(p.creationDate.value) + (Sep(desc) + desc);
    }
  }

  /** A leading `x` reads as done: completing changes nothing, and reopening drops it. */
  lemma MarkerIsLost(raw: string, t: Task, today: Date)
    requires OpenTask(raw, t) && FirstWord(raw) == "x"
    ensures RoundTrip(raw, today) != raw
  {
    hide PrintsAs, ParseLine, EmitPrefix, Printed, RemoveTag;
    LenientIsTotal(raw);
    var d := DraftOf(raw);
    ApplyOne(d, Complete(today));
    assert Edited(raw, [Complete(today)]) == raw;
    ReopenedText(raw, d);
    var r := UncompleteDraft(d);
    RemoveTagShortens(d.description, "pri");
    assert raw[0] == FirstWord(raw)[0] == 'x';
    OpenFirstChar(r.prefix, r.description);
  }

  lemma OpenFirstChar(p: Prefix, desc: string)
    requires !p.completed
    ensures Printed(p, desc) == desc || (Printed(p, desc) != "" && Printed(p, desc)[0] != 'x')
  {
    hide ShowDate;
    if p.priority.None? && p.creationDate.Some? {
      assert Printed(p, desc)[0] == ShowDate(p.creationDate.value)[0];
      assert IsDigit(ShowDate(p.creationDate.value)[0]);
    }
  }

  /** A `pri:` tag of the line's own is lost, or turned into a priority. */
  lemma OwnTagIsLost(raw: string, t: Task, today: Date)
    requires OpenTask(raw, t) && FirstWord(raw) != "x"
    requires !IsPriorityWord(FirstWord(t.description)) && OwnPriTag(t)
    ensures RoundTrip(raw, today) != raw
  {
    hide DraftOf, Edited, FindTag, SetTag, RemoveTag, Printed, Fits, EmitPrefix, IsTagOf, FirstWord;
    OpenReadsTheSame(raw, t);
    CompletedText(raw, t, today);
    OpenFits(t);
    var desc := DoneDescription(t);
    if t.priority.Some? {
      SetPriTag(t.description, t.priority.value);
      PriWordText(t.priority.value);
    }
    DoneFits(t, today, desc);
    var d := Draft(DonePrefix(t, today), desc);
    ReadsAsPrinted(d.prefix, desc);
    ReopenedText(Printed(d.prefix, desc), d);
    var r := UncompleteDraft(d);
    PrintedIsEmitted(PrefixOf(t), t.description);
    RemoveTagShortens(desc, "pri");
    if r.prefix.priority.Some? && t.priority.Some? {
      PrintedGrows(t, r.description, r.prefix.priority.value, t.description);
    } else {
      FirstWordsDiffer(raw, t, r);
    }
  }

  /** With a priority on one side only, the two lines cannot start with the same word. */
  lemma FirstWordsDiffer(raw: string, t: Task, r: Draft)
    requires OpenTask(raw, t) && raw == Printed(PrefixOf(t), t.description) && AtWord(t.description)
    requires t.priority.None? && t.creationDate.None? ==> !IsPriorityWord(FirstWord(t.description))
    requires !r.prefix.completed && r.prefix.creationDate == t.creationDate
    requires t.priority.Some? != r.prefix.priority.Some?
    requires t.priority.Some? ==> t.creationDate.Some? || !IsPriorityWord(FirstWord(r.description))
    requires AtWord(r.description) || r.prefix.priority.Some?
    ensures Printed(r.prefix, r.description) != raw
  {
    hide Printed, FirstWord, PrintsAs;
    PrintedFirstWord(PrefixOf(t), t.description);
    if AtWord(r.description) {
      PrintedFirstWord(r.prefix, r.description);
    } else {
      PriorityFirst(r.prefix, r.description);
    }
  }

  lemma PriorityFirst(p: Prefix, desc: string)
    requires !p.completed && p.priority.Some?
    ensures IsPriorityWord(FirstWord(Printed(p, desc)))
  {
    hide RunLen, FirstWord, ShowDate, ShowPriority;
    var rest, w := Dated(p.creationDate, desc), ShowPriority(p.priority.value);
    assert IsPriorityWord(w) && NoWs(w);
    WordThen(w, Sep(rest) + rest);
    assert Printed(p, desc) == w + (Sep(rest) + rest);
  }

  /** Lenient reading takes a priority word wherever it looks for one. */
  lemma LenientPriorityTaken(len: nat, s: State)
    requires IsPriorityWord(FirstWord(s.rest))
    ensures var p := TakePriority(Lenient, len, s);
            && p.Got? && p.value && p.state.task == s.task.(priority := Some(FirstWord(s.rest)[1]))
            && |p.state.rest| + 3 <= |s.rest|
  {
  }

  /** A done line whose description starts with a priority word reads with that priority in its prefix. */
  lemma LateDraft(t: Task, today: Date, desc: string)
    requires AtWord(desc) && IsPriorityWord(FirstWord(desc))
    ensures var d, w := DraftOf(Printed(DonePrefix(t, today), desc)), FirstWord(desc);
            && d.prefix == DonePrefix(t, today).(priority := Some(w[1])) && |d.description| + 3 <= |desc|
            && forall v :: AtWord(v) && desc == ShowPriority(w[1]) + Sep(v) + v ==> d.description == v
  {
    hide ParsePrefix, CheckRuns, Printed, TakePriority, FirstWord, ParseDate, HasDateShape;
    var p := DonePrefix(t, today);
    var raw, s := Printed(p, desc), AfterPrefix(p, desc);
    PriorityWordIsNoDate(FirstWord(desc));
    CompletedHeadOver(Lenient, p, desc);
    LenientPriorityTaken(|raw|, s);
    var s1 := ParsePrefix(Lenient, raw).state;
    LenientRuns(|raw|, s1, true);
    DonePrinted(t, today, desc);
    forall v | AtWord(v) && desc == ShowPriority(FirstWord(desc)[1]) + Sep(v) + v ensures s1.rest == v {
      PriorityOver(Lenient, |raw|, s, FirstWord(desc)[1], v);
    }
  }

  lemma DonePrinted(t: Task, today: Date, desc: string)
    ensures Printed(DonePrefix(t, today), desc) != ""
  {
  }

  lemma PriorityWordIsNoDate(w: string)
    requires IsPriorityWord(w)
    ensures ParseDate(w).None? && !HasDateShape(w)
  {
  }

  /** A description that starts with a priority word: the word, and the well-spaced rest. */
  lemma PriorityThenRest(d: string) returns (u: string)
    requires WellSpaced(d) && IsPriorityWord(FirstWord(d))
    ensures AtWord(u) && d == ShowPriority(FirstWord(d)[1]) + Sep(u) + u
  {
    var w := FirstWord(d);
    FirstWordSplits(d);
    assert w == ShowPriority(w[1]);
    u := if |d| == 3 then "" else d[4..];
    assert |d| > 3 ==> d[3..] == " " + d[4..] && d[3..][0] == d[3];
  }

  /** A description that starts with a priority word hands that word over as a priority. */
  lemma PriorityFirstIsLost(raw: string, t: Task, today: Date)
    requires OpenTask(raw, t) && FirstWord(raw) != "x" && IsPriorityWord(FirstWord(t.description))
    ensures RoundTrip(raw, today) != raw
  {
    hide DraftOf, Edited, FindTag, SetTag, RemoveTag, Printed, Fits, EmitPrefix, FirstWord, PriTagLetter;
    hide WellSpaced, NoWs, ParseDate, IsRealDate;
    OpenReadsTheSame(raw, t);
    CompletedText(raw, t, today);
    OpenFits(t);
    var desc := DoneDescription(t);
    if t.priority.Some? {
      SetPriTag(t.description, t.priority.value);
    }
    LateDraft(t, today, desc);
    var done := Printed(DonePrefix(t, today), desc);
    var d := DraftOf(done);
    ReopenedText(done, d);
    var r := UncompleteDraft(d);
    PrintedIsEmitted(PrefixOf(t), t.description);
    RemoveTagShortens(d.description, "pri");
    PriTagLetterFound(d.description);
    assert r.prefix.priority.Some? && |r.description| <= |d.description|;
    if t.priority.None? {
      OpenNeedsPrefix(t);
      FirstWordsDiffer(raw, t, r);
    } else {
      PriorityFirstLength(t.description, t.priority.value, d.description, FirstWord(desc)[1]);
      LengthsDiffer(t, r.prefix.priority.value, r.description);
    }
  }

  /** Either the reopened description lost the priority word, or it kept part of the tag. */
  lemma PriorityFirstLength(was: string, p: Priority, desc: string, q: Priority)
    requires WellSpaced(was) && IsPriorityWord(FirstWord(was)) && q == FirstWord(was)[1]
    requires var done := SetTag(was, "pri", [p]);
             && |desc| + 3 <= |done| && (forall v :: AtWord(v) && done == ShowPriority(q) + Sep(v) + v ==> desc == v)
    ensures |desc| != |was| && |RemoveTag(desc, "pri")| != |was|
  {
    hide FindTag, SetTag, RemoveTag, FirstWord, AppendTo, IsPriorityWord, WellSpaced, AtWord;
    SetPriTag(was, p);
    RemoveTagShortens(desc, "pri");
    if FindTag(was, 0, "pri").None? {
      var u := PriorityThenRest(was);
      AppendAfter(ShowPriority(q), u, PriWord(p));
      TagAfter(u, p);
    }
  }

  lemma AppendAfter(head: string, u: string, w: string)
    requires head != "" && w != ""
    ensures AppendTo(head + Sep(u) + u, w) == head + Sep(AppendTo(u, w)) + AppendTo(u, w)
  {
    if u == "" {
      assert head + "" + "" == head && "" + w == w;
    } else {
      assert head + " " + u + " " + w == head + " " + (u + " " + w);
    }
  }

  lemma TagAfter(u: string, p: Priority)
    requires AtWord(u)
    ensures AtWord(AppendTo(u, PriWord(p))) && |AppendTo(u, PriWord(p))| == |u| + 5 + (if u == "" then 0 else 1)
  {
  }

  /** Two lines with a priority and the same date differ when their descriptions are not as long. */
  lemma LengthsDiffer(t: Task, p: Priority, d: string)
    requires !t.completed && t.completionDate.None? && t.priority.Some? && |d| != |t.description|
    ensures Printed(Prefix(false, None, t.creationDate, Some(p)), d) != Printed(PrefixOf(t), t.description)
  {
    hide Printed;
    if |d| < |t.description| {
      PrintedGrows(t, d, p, t.description);
    } else {
      PrintedGrows(t.(priority := Some(p)), t.description, t.priority.value, d);
    }
  }

  lemma PriTagLetterFound(d: string)
    ensures PriTagLetter(d).Some? ==> FindTag(d, 0, "pri").Some?
  {
  }

  lemma OpenNeedsPrefix(t: Task)
    requires Fits(Lenient, PrefixOf(t), t.description) && !t.completed && IsPriorityWord(FirstWord(t.description))
    ensures t.priority.Some? || t.creationDate.Some?
  {
  }

  /**
   Completing an open line and reopening it gives the line back, byte for byte, if and only if it does
   not start with the word `x`, its description does not start with a priority word, and it has no
   `pri:` tag that completing would overwrite or reopening would take for its own.
   */
  lemma CompleteThenReopen(raw: string, t: Task, today: Date)
    requires OpenTask(raw, t)
    ensures RoundTrip(raw, today) == raw <==>
              FirstWord(raw) != "x" && !IsPriorityWord(FirstWord(t.description)) && !OwnPriTag(t)
  {
    hide RoundTrip, PrintsAs, FirstWord, OwnPriTag;
    if FirstWord(raw) == "x" {
      MarkerIsLost(raw, t, today);
    } else if IsPriorityWord(FirstWord(t.description)) {
      PriorityFirstIsLost(raw, t, today);
    } else if OwnPriTag(t) {
      OwnTagIsLost(raw, t, today);
    } else {
      RoundTripReturns(raw, t, today);
    }
  }

  /** A blank line comes back too. */
  lemma BlankComesBack(today: Date)
    ensures RoundTrip("", today) == ""
  {
    hide ParsePrefix, CheckRuns, FindTag, RunLen, EmitPrefix, Printed;
    var done := DonePrefix(NEW_TASK, today);
    ApplyOne(Draft(NO_PREFIX, ""), Complete(today));
    PrintedIsEmitted(done, "");
    DonePrinted(NEW_TASK, today, "");
    NoDateNowhere();
    BlankFits(today);
    ReadsAsPrinted(done, "");
    FindTagNowhere(0, "pri");
    ReopenedText(Printed(done, ""), Draft(done, ""));
    PrintedNothing();
  }

  lemma BlankFits(today: Date)
    ensures Fits(Lenient, DonePrefix(NEW_TASK, today), "")
  {
  }

  lemma PrintedNothing()
    ensures Printed(NO_PREFIX, "") == ""
  {
  }
}

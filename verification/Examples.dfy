/**
 One line for each way the two exact conditions on completing fail: lines that do not come back when
 completed and reopened, and lines that the two completions write differently.
 */
module Examples {
  import opened Wrappers
  import opened Scanner
  import opened Words
  import opened Dates
  import opened TodoLine
  import opened TodoEdit
  import opened Grammar
  import opened StrictLines
  import opened Completion
  import opened Chips
  import opened Toggles
  import opened Idempotence

  const NEW_YEAR: Date := RawDate(2020, 1, 1)

  /** An open task with nothing but a description. */
  function Plain(description: string): Task {
    NEW_TASK.(description := description)
  }

  lemma OneWord(w: string)
    requires w != "" && NoWs(w)
    ensures WellSpaced(w) && FirstWord(w) == w && AtWord(w)
  {
    WordThen(w, "");
    assert w + "" == w && w[|w|..] == "";
  }

  lemma TwoWords(v: string, w: string)
    requires v != "" && NoWs(v) && w != "" && NoWs(w)
    ensures var d := v + " " + w; WellSpaced(d) && FirstWord(d) == v && AtWord(d) && d[1..] == v[1..] + " " + w
  {
    var d := v + " " + w;
    OneWord(w);
    WordThen(v, " " + w);
    assert d == v + (" " + w) && d[|v|..] == " " + w && (" " + w)[1..] == w;
  }

  lemma PlainIsOpen(d: string)
    requires d != "" && WellSpaced(d) && AtWord(d) && !IsPriorityWord(FirstWord(d)) && !HasDateShape(FirstWord(d))
    requires !StartsCompleted(Strict, d)
    ensures OpenTask(d, Plain(d))
  {
    hide WellSpaced, FirstWord, StartsCompleted, IsPriorityWord, EmitPrefix, ParseDate, HasDateShape;
    PrintedIsEmitted(PrefixOf(Plain(d)), d);
    DateShapes(FirstWord(d));
  }

  lemma NotMarked(d: string)
    requires FirstWord(d) != "x"
    ensures !StartsCompleted(Strict, d)
  {
  }

  lemma MarkedIsOpen()
    ensures FirstWord("x foo") == "x" && OpenTask("x foo", Plain("x foo"))
  {
    hide WellSpaced, FirstWord, ParseDate, HasDateShape, RunLen;
    TwoWords("x", "foo");
    assert "x" + " " + "foo" == "x foo";
    SpaceThen("foo");
    OneWord("foo");
    assert "x foo"[1..] == " " + "foo" && (" " + "foo")[..1] == " ";
    ShortIsNoDate("foo");
    ShortIsNoDate("x");
    PlainIsOpen("x foo");
  }

  lemma TaggedText()
    ensures "t" + " " + PriWord('B') == "t pri:B" == "t" + (" " + PriWord('B'))
  {
  }

  lemma TaggedIsFound()
    ensures FindTag("t pri:B", 0, "pri") == Some((2, 7)) && PriTagLetter("t pri:B") == Some('B')
    ensures WellSpaced("t pri:B") && FirstWord("t pri:B") == "t" && AtWord("t pri:B")
  {
    hide FindTag, WellSpaced, FirstWord, IsTagOf;
    TaggedText();
    PriWordIsTag('B');
    FindPriWord('B', 1);
    UntaggedWord();
    FindTagAppend("t", " " + PriWord('B'), 0, "pri");
    TwoWords("t", PriWord('B'));
  }

  lemma UntaggedWord()
    ensures FindTag("t", 0, "pri") == None
  {
    hide FindTag, ClassifyWord;
    RunIs("t", 1);
    FindTagStep("t", 1, 0, "pri");
    FindTagNowhere(1, "pri");
    assert "t"[..1] == "t" && "t"[1..] == "";
    if IsTagOf("t", "pri") {
      TagOfKey("t", "pri");
    }
  }

  /** A leading `x` reads as done once reopened, and is gone. */
  lemma MarkerDoesNotComeBack(today: Date)
    ensures OpenTask("x foo", Plain("x foo")) && RoundTrip("x foo", today) != "x foo"
  {
    hide OpenTask, RoundTrip, FirstWord;
    MarkedIsOpen();
    MarkerIsLost("x foo", Plain("x foo"), today);
  }

  lemma NewYear()
    ensures ShowDate(NEW_YEAR) == "2020-01-01"
  {
    hide ShowDate;
    assert "2020-01-01"[0..4] == "2020" && "2020-01-01"[5..7] == "01" && "2020-01-01"[8..10] == "01";
    Digits();
    ShowParse("2020-01-01");
  }

  lemma Digits()
    ensures AsciiNumber("2020") == Some(2020) && AsciiNumber("01") == Some(1)
  {
    assert "2020"[..3] == "202" && "202"[..2] == "20" && "20"[..1] == "2" && "2"[..0] == "";
    assert "01"[..1] == "0" && "0"[..0] == "";
    assert AsciiNumber("20") == Some(20);
    assert AsciiNumber("202") == Some(202);
  }

  /** An open task written with a priority or a creation date before its description. */
  lemma PrefixedIsOpen(raw: string, t: Task)
    requires !t.completed && t.completionDate.None? && (t.priority.Some? || t.creationDate.Some?)
    requires raw == Printed(PrefixOf(t), t.description) != "" && FirstWord(raw) != "x"
    requires WellSpaced(t.description) && AtWord(t.description)
    requires t.creationDate.None? ==> ParseDate(FirstWord(t.description)).None? && !HasDateShape(FirstWord(t.description))
    ensures OpenTask(raw, t)
  {
    hide WellSpaced, FirstWord, StartsCompleted, IsPriorityWord, EmitPrefix, ParseDate, HasDateShape, Printed;
    PrintedIsEmitted(PrefixOf(t), t.description);
    NotMarked(raw);
  }

  lemma DatedIsOpen(d: Date, desc: string)
    requires desc != "" && WellSpaced(desc) && AtWord(desc)
    ensures var raw := ShowDate(d) + (" " + desc);
            OpenTask(raw, Plain(desc).(creationDate := Some(d))) && FirstWord(raw) != "x"
  {
    hide FirstWord, WellSpaced, ShowDate, ParseDate, HasDateShape, OpenTask, IsRealDate;
    var raw := ShowDate(d) + (" " + desc);
    ShownDateIsWord(d);
    WordThen(ShowDate(d), " " + desc);
    assert raw == ShowDate(d) + " " + desc;
    PrefixedIsOpen(raw, Plain(desc).(creationDate := Some(d)));
  }

  lemma DatedText()
    ensures "2020-01-01" + (" " + "(A) t") == "2020-01-01 (A) t"
  {
  }

  lemma PriorityText()
    ensures "(A)" + " " + "t" == "(A) t" && WellSpaced("(A) t") && AtWord("(A) t") && IsPriorityWord(FirstWord("(A) t"))
  {
    hide WellSpaced, FirstWord;
    TwoWords("(A)", "t");
    assert "(A)" + " " + "t" == "(A) t";
  }

  /** A description that starts with a priority word hands it over as a priority. */
  lemma PriorityFirstDoesNotComeBack(today: Date)
    ensures var raw, t := "2020-01-01 (A) t", Plain("(A) t").(creationDate := Some(NEW_YEAR));
            OpenTask(raw, t) && RoundTrip(raw, today) != raw
  {
    hide RoundTrip, FirstWord, OpenTask, IsPriorityWord, WellSpaced, ShowDate;
    NewYear();
    DatedText();
    PriorityText();
    DatedIsOpen(NEW_YEAR, "(A) t");
    PriorityFirstIsLost("2020-01-01 (A) t", Plain("(A) t").(creationDate := Some(NEW_YEAR)), today);
  }

  /** A `pri:` tag of the line's own is taken for its priority. */
  lemma OwnTagDoesNotComeBack(today: Date)
    ensures OpenTask("t pri:B", Plain("t pri:B")) && RoundTrip("t pri:B", today) != "t pri:B"
  {
    hide OpenTask, RoundTrip, FirstWord, FindTag, WellSpaced, HasDateShape, PriTagLetter;
    TaggedIsFound();
    NotMarked("t pri:B");
    ShortIsNoDate("t");
    PlainIsOpen("t pri:B");
    OwnTagIsLost("t pri:B", Plain("t pri:B"), today);
  }

  /** Text glued to a priority: the chip takes the priority off, the editor does not see one. */
  lemma GluedIsCompletedTwoWays(today: Date)
    ensures OpenTask("(A)foo", Plain("(A)foo"))
    ensures ToggleCompleteText("(A)foo", ShowDate(today)) != Edited("(A)foo", [Complete(today)])
  {
    hide OpenTask, FirstWord, WellSpaced, HasDateShape, ToggleCompleteText, Edited, ShowDate;
    OneWord("(A)foo");
    NotMarked("(A)foo");
    ShortIsNoDate("(A)foo");
    PlainIsOpen("(A)foo");
    DisagreeOnGlued("(A)foo", Plain("(A)foo"), today);
  }

  /** A leading `x`: the editor sees a done line and leaves it, the chip completes it. */
  lemma MarkerIsCompletedTwoWays(today: Date)
    ensures OpenTask("x foo", Plain("x foo"))
    ensures ToggleCompleteText("x foo", ShowDate(today)) != Edited("x foo", [Complete(today)])
  {
    hide OpenTask, FirstWord, ToggleCompleteText, Edited, ShowDate;
    MarkedIsOpen();
    DisagreeOnMarker("x foo", Plain("x foo"), today);
  }

  lemma BothAreOpen()
    ensures var raw, t := "(A) t pri:B", Plain("t pri:B").(priority := Some('A'));
            OpenTask(raw, t) && FirstWord(raw) != "x" && !GluedPriority(raw)
  {
    hide FirstWord, WellSpaced, HasDateShape, ParseDate, OpenTask, FindTag;
    var raw, t := "(A) t pri:B", Plain("t pri:B").(priority := Some('A'));
    TaggedIsFound();
    assert ShowPriority('A') == "(A)" && raw == "(A)" + " " + "t pri:B" == "(A)" + (" " + "t pri:B");
    ShortIsNoDate("t");
    WordThen("(A)", " " + "t pri:B");
    PrefixedIsOpen(raw, t);
  }

  /** A priority beside a `pri:` tag: the editor replaces the tag, the chip appends another. */
  lemma TagIsCompletedTwoWays(today: Date)
    ensures var raw, t := "(A) t pri:B", Plain("t pri:B").(priority := Some('A'));
            OpenTask(raw, t) && ToggleCompleteText(raw, ShowDate(today)) != Edited(raw, [Complete(today)])
  {
    hide FirstWord, ToggleCompleteText, Edited, ShowDate, FindTag, OpenTask, GluedPriority, PriTagLetter, WellSpaced;
    BothAreOpen();
    TaggedIsFound();
    AgreeOnOpen("(A) t pri:B", Plain("t pri:B").(priority := Some('A')), today);
  }

  // ---- toggled twice ----

  lemma FalseDate()
    ensures HasDateShape("2020-13-01") && NoWs("2020-13-01") && ParseDate("2020-13-01").None?
  {
    hide AsciiNumber;
    var w := "2020-13-01";
    assert w[0..4] == "2020" && w[5..7] == "13" && w[8..10] == "01";
    Thirteen();
  }

  lemma Thirteen()
    ensures AsciiNumber("13") == Some(13)
  {
    assert "13"[..1] == "1" && "1"[..0] == "";
    assert AsciiNumber("1") == Some(1);
  }

  const FALSE_MARK := "x 2020-13-01 foo"

  lemma FalseMarkText()
    ensures FALSE_MARK == "x" + " " + "2020-13-01 foo" == "x " + "2020-13-01 foo" == "x" + (" " + "2020-13-01 foo")
    ensures "2020-13-01 foo" == "2020-13-01" + " " + "foo"
  {
  }

  lemma FalseMarkIsOpen()
    ensures OpenTask(FALSE_MARK, Plain(FALSE_MARK))
  {
    hide WellSpaced, FirstWord, ParseDate, HasDateShape, RunLen, OpenTask, StartsCompleted;
    var rest := "2020-13-01 foo";
    FalseDate();
    FalseMarkText();
    ShortIsNoDate("x");
    TwoWords("2020-13-01", "foo");
    WordsJoin("x", rest);
    SpaceThen(rest);
    NoDateNoMark(FALSE_MARK, rest);
    PlainIsOpen(FALSE_MARK);
  }

  lemma NoDateNoMark(raw: string, rest: string)
    requires raw == "x" + (" " + rest) && rest != "" && !IsWs(rest[0]) && ParseDate(FirstWord(rest)).None?
    ensures !StartsCompleted(Strict, raw)
  {
    hide ParseDate, FirstWord, RunLen;
    SpaceThen(rest);
    assert raw[1..] == " " + rest && (" " + rest)[1..] == rest;
  }

  lemma FalseMarkSplits()
    ensures SplitCompleted(FALSE_MARK).Some?
  {
    hide HasDateShape;
    FalseDate();
    FalseMarkText();
    var rest := "2020-13-01 foo";
    assert FALSE_MARK[2..] == rest && rest[..10] == "2020-13-01" && rest[10] == ' ';
  }

  /** The date after a leading `x` is no day: the prompt bar takes it for a completion date, and it is lost. */
  lemma FalseMarkDoesNotToggleBack(today: Date)
    ensures OpenTask(FALSE_MARK, Plain(FALSE_MARK))
    ensures ToggleCompleteText(ToggleCompleteText(FALSE_MARK, ShowDate(today)), ShowDate(today)) != FALSE_MARK
  {
    hide OpenTask, ToggleCompleteText, ShowDate, SplitCompleted;
    FalseMarkIsOpen();
    FalseMarkSplits();
    FakeMarkIsLost(FALSE_MARK, Plain(FALSE_MARK), today);
  }

  /** Text glued to a priority comes back apart from it. */
  lemma GluedDoesNotToggleBack(today: Date)
    ensures OpenTask("(A)foo", Plain("(A)foo"))
    ensures ToggleCompleteText(ToggleCompleteText("(A)foo", ShowDate(today)), ShowDate(today)) != "(A)foo"
  {
    hide OpenTask, ToggleCompleteText, Edited, ShowDate;
    GluedIsCompletedTwoWays(today);
    GluedComesApart("(A)foo", today);
  }

  lemma TaggedWords()
    ensures FirstPriTag(WordsOf("t pri:B")) < |WordsOf("t pri:B")|
  {
    hide SplitWords, FirstPriTag;
    TaggedText();
    WordsOfTagged("t", 'B');
    SplitOneWord("t");
    TagBeforeEnd(WordsOf("t"), PriWord('B'));
  }

  /** A `pri:` word of the line's own is taken for its priority. */
  lemma OwnTagDoesNotToggleBack(today: Date)
    ensures OpenTask("t pri:B", Plain("t pri:B"))
    ensures ToggleCompleteText(ToggleCompleteText("t pri:B", ShowDate(today)), ShowDate(today)) != "t pri:B"
  {
    hide OpenTask, RoundTrip, ToggleCompleteText, ShowDate, WordsOf, FirstPriTag, SplitCompleted, GluedPriority;
    OwnTagDoesNotComeBack(today);
    TaggedWords();
    ToggleTwice("t pri:B", Plain("t pri:B"), today);
  }

  // ---- reopened twice ----

  lemma UntaggedFoo(base: nat)
    ensures FindTag("foo", base, "pri") == None
  {
    hide FindTag, ClassifyWord;
    RunIs("foo", 3);
    FindTagStep("foo", 3, base, "pri");
    FindTagNowhere(base + 3, "pri");
    assert "foo"[..3] == "foo" && "foo"[3..] == "";
    if IsTagOf("foo", "pri") {
      TagOfKey("foo", "pri");
    }
  }

  lemma UntaggedX()
    ensures FindTag("x foo", 0, "pri") == None
  {
    hide FindTag, ClassifyWord;
    RunIs("x foo", 1);
    FindTagStep("x foo", 1, 0, "pri");
    assert "x foo"[..1] == "x" && "x foo"[1..] == " foo";
    if IsTagOf("x", "pri") {
      TagOfKey("x", "pri");
    }
    SpaceThen("foo");
    assert " " + "foo" == " foo" && " foo"[1..] == "foo";
    FindTagStep(" foo", 1, 1, "pri");
    UntaggedFoo(2);
  }

  lemma MarkUnderMark()
    ensures DraftOf("x 2020-01-01 x foo") == Draft(Prefix(true, Some(NEW_YEAR), None, None), "x foo")
  {
    hide DraftOf, FirstWord, ParseDate, ShowDate, OpenTask;
    var p := Prefix(true, Some(NEW_YEAR), None, None);
    NewYear();
    MarkedIsOpen();
    ShortIsNoDate("x");
    assert Printed(p, "x foo") == "x " + "2020-01-01" + " " + "x foo" == "x 2020-01-01 x foo";
    ReadsAsPrinted(p, "x foo");
  }

  /** Reopened, the line reads as done again, and reopening it once more changes it. */
  lemma ReopenedTwiceDiffers()
    ensures var once := Edited("x 2020-01-01 x foo", [Uncomplete]);
            once == "x foo" && Edited(once, [Uncomplete]) != once
  {
    hide DraftOf, Edited, FirstWord, FindTag, OpenTask;
    MarkUnderMark();
    UntaggedX();
    MarkedIsOpen();
    ReopenedText("x 2020-01-01 x foo", DraftOf("x 2020-01-01 x foo"));
    ReopenTwice("x 2020-01-01 x foo");
  }
}

/**
 What strict reading accepts, told from the line's words: any words with single spaces between them, unless
 a word in a place for a date has a date's shape and is no day. And how that compares with the published
 grammar, which has no control characters.
 */
module StrictLines {
  import opened Wrappers
  import opened Scanner
  import opened Words
  import opened Dates
  import opened TodoLine
  import opened TodoEdit
  import opened Grammar

  // ---- words ----

  /** What follows the first word and its space. */
  function AfterWord(d: string): string {
    if d != "" && RunLen(d) < |d| then d[RunLen(d) + 1..] else ""
  }

  lemma WordsSplit(d: string)
    requires d != "" && WellSpaced(d)
    ensures var w, t := FirstWord(d), AfterWord(d);
            w != "" && NoWs(w) && d == w + Sep(t) + t && WellSpaced(t) && |t| < |d|
  {
    hide RunLen, FirstWord;
    FirstWordSplits(d);
    var rest := d[RunLen(d)..];
    assert rest != "" ==> rest == " " + rest[1..] && rest[1..] == d[RunLen(d) + 1..];
  }

  lemma WordsJoin(w: string, t: string)
    requires w != "" && NoWs(w) && WellSpaced(t)
    ensures var d := w + Sep(t) + t; d != "" && WellSpaced(d) && FirstWord(d) == w && AfterWord(d) == t && AtWord(d)
  {
    hide RunLen, FirstWord, NoWs, WellSpaced, AfterWord;
    var d := w + Sep(t) + t;
    assert d == w + (Sep(t) + t);
    WordThen(w, Sep(t) + t);
    SpacedIsAtWord(t);
    SepSplits(w, t);
    SpacedFrom(d, w, t);
  }

  lemma SepSplits(w: string, t: string)
    ensures var d := w + Sep(t) + t;
            d[|w|..] == Sep(t) + t && (t != "" ==> |d| > |w| && d[|w|] == ' ' && d[|w| + 1..] == t && (Sep(t) + t)[1..] == t)
  {
  }

  lemma SpacedFrom(d: string, w: string, t: string)
    requires w != "" && w <= d && FirstWord(d) == w && RunLen(d) == |w| && AtWord(d) && WellSpaced(t) && AtWord(t)
    requires d[|w|..] == Sep(t) + t && (t != "" ==> |d| > |w| && d[|w|] == ' ' && d[|w| + 1..] == t && (Sep(t) + t)[1..] == t)
    ensures WellSpaced(d) && AfterWord(d) == t
  {
    hide RunLen, FirstWord;
  }

  lemma SpacedIsAtWord(d: string)
    requires WellSpaced(d)
    ensures AtWord(d)
  {
    hide RunLen;
  }

  // ---- the place for a date ----

  /** The text at the place for a date: after `x` and the completion date, after a priority, or at the start. */
  function DateSlot(raw: string): string {
    if StartsCompleted(Strict, raw) then AfterWord(AfterWord(raw))
    else if IsPriorityWord(FirstWord(raw)) then AfterWord(raw)
    else raw
  }

  /** The word there has a date's shape and is no day of the calendar. */
  predicate BadDate(raw: string) {
    var word := FirstWord(DateSlot(raw));
    HasDateShape(word) && ParseDate(word).None?
  }

  /** A creation date and a description, or a description alone. */
  lemma SlotSplits(s: string) returns (created: Option<Date>, desc: string)
    requires WellSpaced(s) && !(HasDateShape(FirstWord(s)) && ParseDate(FirstWord(s)).None?)
    ensures s == Dated(created, desc) && WellSpaced(desc) && AtWord(desc)
    ensures created.None? ==> NoDateFirst(Strict, desc) && desc == s
  {
    hide RunLen, FirstWord, ParseDate, HasDateShape, ShowDate;
    SpacedIsAtWord(s);
    DateShapes(FirstWord(s));
    if ParseDate(FirstWord(s)).Some? {
      NoDateInNothing();
      WordsSplit(s);
      ShowParse(FirstWord(s));
      created, desc := ParseDate(FirstWord(s)), AfterWord(s);
      SpacedIsAtWord(desc);
    } else {
      created, desc := None, s;
    }
  }

  lemma NoDateInNothing()
    ensures ParseDate(FirstWord("")).None? && !HasDateShape(FirstWord(""))
  {
  }

  lemma MarkAndRest(raw: string)
    requires WellSpaced(raw) && raw != "" && StartsCompleted(Strict, raw)
    ensures var t := AfterWord(raw);
            raw == "x " + t && t != "" && WellSpaced(t) && ParseDate(FirstWord(t)).Some?
  {
    hide RunLen, FirstWord, ParseDate, WellSpaced, AfterWord, IsRealDate;
    WordsSplit(raw);
    StrictMarker(raw);
    var t := AfterWord(raw);
    assert FirstWord(raw) == "x" by { MarkedIsX(raw); }
    assert raw[2..] == t;
  }

  lemma MarkedIsX(raw: string)
    requires StartsCompleted(Strict, raw)
    ensures FirstWord(raw) == "x"
  {
  }

  lemma DateAndRest(t: string)
    requires WellSpaced(t) && t != "" && ParseDate(FirstWord(t)).Some?
    ensures var slot := AfterWord(t);
            t == ShowDate(ParseDate(FirstWord(t)).value) + Sep(slot) + slot && WellSpaced(slot)
  {
    hide RunLen, FirstWord, ParseDate, ShowDate, WellSpaced, AfterWord, IsRealDate;
    WordsSplit(t);
    ShowParse(FirstWord(t));
  }

  /** A completed line: the mark, its date, and what is at the place for another. */
  lemma MarkedSplits(raw: string) returns (done: Date)
    requires WellSpaced(raw) && raw != "" && StartsCompleted(Strict, raw)
    ensures var slot := DateSlot(raw); WellSpaced(slot) && raw == "x " + ShowDate(done) + Sep(slot) + slot
  {
    hide FirstWord, ParseDate, ShowDate, WellSpaced, AfterWord, IsRealDate, StartsCompleted;
    MarkAndRest(raw);
    var t := AfterWord(raw);
    DateAndRest(t);
    done := ParseDate(FirstWord(t)).value;
    var slot := AfterWord(t);
    assert "x " + (ShowDate(done) + Sep(slot) + slot) == "x " + ShowDate(done) + Sep(slot) + slot;
  }

  /** A line of single-spaced words with no bad date is what some task prints as. */
  lemma GoodWordsPrint(raw: string) returns (t: Task)
    requires raw != "" && WellSpaced(raw) && !BadDate(raw)
    ensures PrintsAs(raw, t)
  {
    hide RunLen, FirstWord, ParseDate, HasDateShape, ShowDate, StartsCompleted, WellSpaced, EmitPrefix, ShowPriority;
    var created, desc;
    if StartsCompleted(Strict, raw) {
      var done := MarkedSplits(raw);
      created, desc := SlotSplits(DateSlot(raw));
      t := Task(true, Some(done), created, None, desc);
    } else if IsPriorityWord(FirstWord(raw)) {
      WordsSplit(raw);
      var p: Priority := FirstWord(raw)[1];
      created, desc := SlotSplits(AfterWord(raw));
      PriorityIsShown(FirstWord(raw));
      t := Task(false, None, created, Some(p), desc);
    } else {
      created, desc := SlotSplits(raw);
      t := Task(false, None, created, None, desc);
    }
    PrintedIsEmitted(PrefixOf(t), desc);
  }

  lemma PriorityIsShown(w: string)
    requires IsPriorityWord(w)
    ensures ShowPriority(w[1]) == w
  {
  }

  /** A description after a creation date, or alone where no date may start it: single-spaced, no bad date. */
  lemma SlotIsGood(created: Option<Date>, desc: string)
    requires WellSpaced(desc) && (created.None? ==> NoDateFirst(Strict, desc))
    ensures var s := Dated(created, desc);
            WellSpaced(s) && !(HasDateShape(FirstWord(s)) && ParseDate(FirstWord(s)).None?)
  {
    hide RunLen, FirstWord, ParseDate, HasDateShape, ShowDate;
    if created.Some? {
      ShownDateIsWord(created.value);
      WordsJoin(ShowDate(created.value), desc);
      ParseShow(created.value);
    }
  }

  /** A completed line as it is printed. */
  lemma DoneWords(done: Date, slot: string)
    requires WellSpaced(slot)
    ensures var raw := "x " + ShowDate(done) + Sep(slot) + slot; WellSpaced(raw) && raw != "" && DateSlot(raw) == slot
  {
    hide RunLen, FirstWord, ParseDate, HasDateShape, ShowDate, StartsCompleted, WellSpaced, AfterWord;
    var date := ShowDate(done);
    ShownDateIsWord(done);
    WordsJoin(date, slot);
    var rest := date + Sep(slot) + slot;
    XIsWord();
    WordsJoin("x", rest);
    var raw := "x" + Sep(rest) + rest;
    assert raw == "x " + date + Sep(slot) + slot;
    MarkedStarts(raw, done);
  }

  lemma PriorityWords(p: Priority, slot: string)
    requires WellSpaced(slot)
    ensures var raw := ShowPriority(p) + Sep(slot) + slot;
            WellSpaced(raw) && raw != "" && FirstWord(raw) == ShowPriority(p) && AfterWord(raw) == slot
  {
    hide RunLen, FirstWord, WellSpaced, AfterWord;
    assert IsPriorityWord(ShowPriority(p)) && NoWs(ShowPriority(p));
    WordsJoin(ShowPriority(p), slot);
  }

  lemma PrintedIsGoodWords(raw: string, t: Task)
    requires raw != "" && PrintsAs(raw, t)
    ensures WellSpaced(raw) && !BadDate(raw)
  {
    hide RunLen, FirstWord, ParseDate, HasDateShape, ShowDate, StartsCompleted, WellSpaced, EmitPrefix, ShowPriority, NoDateFirst;
    hide AfterWord;
    var slot := Dated(t.creationDate, t.description);
    PrintedIsEmitted(PrefixOf(t), t.description);
    SlotIsGood(t.creationDate, t.description);
    if t.completed {
      DoneWords(t.completionDate.value, slot);
    } else if t.priority.Some? {
      PriorityWords(t.priority.value, slot);
    } else if t.creationDate.Some? {
      DatedIsNoPriority(t.creationDate, t.description);
    }
  }

  lemma MarkedStarts(raw: string, d: Date)
    requires WellSpaced(raw) && raw != "" && FirstWord(raw) == "x" && AfterWord(raw) != ""
    requires FirstWord(AfterWord(raw)) == ShowDate(d)
    ensures StartsCompleted(Strict, raw)
  {
    hide RunLen, FirstWord, ParseDate, ShowDate;
    WordsSplit(raw);
    var t := AfterWord(raw);
    SpacedIsAtWord(t);
    SpaceThen(t);
    ParseShow(d);
    assert raw == "x" + Sep(t) + t && raw[1..] == " " + t && (" " + t)[..1] == " ";
  }

  lemma DatedIsNoPriority(created: Option<Date>, desc: string)
    requires created.Some? && WellSpaced(desc)
    ensures !IsPriorityWord(FirstWord(Dated(created, desc)))
  {
    hide RunLen, FirstWord;
    ShownDateIsWord(created.value);
    WordsJoin(ShowDate(created.value), desc);
  }

  /** Strict reading accepts exactly the lines of single-spaced words with no bad date, and the blank line. */
  lemma StrictAccepts(raw: string)
    ensures ParseLine(raw, Strict).Ok? <==> raw == "" || (WellSpaced(raw) && !BadDate(raw))
  {
    hide PrintsAs, BadDate, WellSpaced, RefQuirk, ParseTask;
    if raw != "" {
      StrictReadsPrinted(raw, NEW_TASK);
      if ParseLine(raw, Strict).Ok? {
        var t :| ParseLine(raw, Strict) == Ok(Line(TaskLine(t), RefQuirk(t.description)));
        StrictReadsPrinted(raw, t);
        PrintedIsGoodWords(raw, t);
      } else if WellSpaced(raw) && !BadDate(raw) {
        var t := GoodWordsPrint(raw);
        StrictReadsPrinted(raw, t);
      }
    }
  }

  // ---- the published grammar ----

  /** `NONSP`: any character but whitespace and control characters. */
  predicate IsNonSp(c: char) {
    0x21 <= c as int <= 0x7E || 0x80 <= c as int
  }

  /** How many such characters `s` starts with. */
  function NonSpLen(s: string): (n: nat)
    ensures n <= |s| && forall i :: 0 <= i < n ==> IsNonSp(s[i])
    ensures n < |s| ==> !IsNonSp(s[n])
  {
    if s == "" || !IsNonSp(s[0]) then 0 else 1 + NonSpLen(s[1..])
  }

  /** `description`: words of such characters with one space between them. Projects, contexts and tags are such words. */
  predicate IsDescription(s: string)
    decreases |s|
  {
    var n := NonSpLen(s);
    n > 0 && (n == |s| || (s[n] == ' ' && IsDescription(s[n + 1..])))
  }

  /** A description after a space, or nothing. */
  predicate IsDescriptionTail(s: string) {
    s == "" || (s[0] == ' ' && IsDescription(s[1..]))
  }

  /** What may follow a date or a priority: another date, and a description. */
  predicate IsDateTail(s: string) {
    IsDescriptionTail(s) || (|s| >= 11 && s[0] == ' ' && HasDateShape(s[1..11]) && IsDescriptionTail(s[11..]))
  }

  /** An open line: one opened by a priority or by a date, or a description alone. */
  predicate IsIncomplete(s: string) {
    || (|s| >= 3 && IsPriorityWord(s[..3]) && IsDateTail(s[3..]))
    || (|s| >= 10 && HasDateShape(s[..10]) && IsDescriptionTail(s[10..]))
    || IsDescription(s)
  }

  /** A done line: the mark and a date, and what may follow a date. */
  predicate IsCompleted(s: string) {
    |s| >= 12 && s[..2] == "x " && HasDateShape(s[2..12]) && IsDateTail(s[12..])
  }

  /** The texts the published grammar derives. */
  predicate IsPublished(s: string) {
    s == "" || IsCompleted(s) || IsIncomplete(s)
  }

  /** Nothing but spaces and the characters words are made of. */
  predicate IsGraphic(s: string) {
    forall i :: 0 <= i < |s| ==> s[i] == ' ' || IsNonSp(s[i])
  }

  lemma {:induction false} DescriptionIsWords(s: string)
    ensures IsDescription(s) <==> s != "" && WellSpaced(s) && IsGraphic(s)
    decreases |s|
  {
    hide RunLen;
    if s != "" {
      if NonSpLen(s) > 0 {
        NonSpIsRun(s);
      }
      var n := RunLen(s);
      if n < |s| {
        DescriptionIsWords(s[n + 1..]);
        if IsGraphic(s) {
          GraphicTail(s, n + 1);
        }
      }
    }
  }

  /** Among such characters a word ends where they do, or at a tab or a control character. */
  lemma NonSpIsRun(s: string)
    requires s != "" && NonSpLen(s) > 0
    ensures NonSpLen(s) <= RunLen(s)
    ensures IsGraphic(s) ==> NonSpLen(s) == RunLen(s)
  {
  }

  lemma GraphicTail(s: string, n: nat)
    requires n <= |s| && IsGraphic(s)
    ensures IsGraphic(s[n..])
  {
  }

  lemma TailWords(w: string, t: string)
    requires w != "" && NoWs(w) && IsGraphic(w) && IsDescriptionTail(t)
    ensures IsDescription(w + t)
  {
    hide IsDescription, WellSpaced, RunLen, NoWs, FirstWord, AfterWord, IsGraphic;
    var d := if t == "" then "" else t[1..];
    NothingIsSpaced();
    TailSplits(w, t, d);
    DescriptionIsWords(d);
    DescriptionIsWords(w + t);
    WordsJoin(w, d);
    GraphicJoin(w, d);
  }

  lemma TailSplits(w: string, t: string, d: string)
    requires if t == "" then d == "" else t[0] == ' ' && d == t[1..] && d != ""
    ensures t == Sep(d) + d && w + t == w + Sep(d) + d
  {
    assert t != "" ==> t == " " + d;
    assert w + "" + "" == w + "";
  }

  lemma GraphicJoin(w: string, d: string)
    requires IsGraphic(w) && IsGraphic(d)
    ensures IsGraphic(w + Sep(d) + d)
  {
    hide IsNonSp;
  }

  lemma NothingIsSpaced()
    ensures WellSpaced("") && IsGraphic("")
    ensures !IsDescription("")
  {
  }

  lemma DateWord(w: string)
    requires HasDateShape(w) || IsPriorityWord(w) || w == "x"
    ensures w != "" && NoWs(w) && IsGraphic(w)
  {
  }

  lemma DateTailIsTail(s: string)
    ensures IsDateTail(s) <==> IsDescriptionTail(s)
  {
    hide IsDescription, HasDateShape;
    if |s| >= 11 && s[0] == ' ' && HasDateShape(s[1..11]) && IsDescriptionTail(s[11..]) {
      DateWord(s[1..11]);
      TailWords(s[1..11], s[11..]);
      assert s[1..] == s[1..11] + s[11..];
    }
  }

  /** As texts, the published lines are the descriptions and the blank: their prefixes are words too. */
  lemma PublishedIsWords(s: string)
    ensures IsPublished(s) <==> s == "" || (WellSpaced(s) && IsGraphic(s))
  {
    hide IsDescription, HasDateShape, IsPriorityWord, WellSpaced, IsGraphic, IsDescriptionTail, IsDateTail, NoWs;
    DescriptionIsWords(s);
    if IsCompleted(s) {
      DateTailIsTail(s[12..]);
      DateWord(s[2..12]);
      TailWords(s[2..12], s[12..]);
      DateWord("x");
      SpacedDescription(s[2..12] + s[12..]);
      TailWords("x", " " + (s[2..12] + s[12..]));
      assert s == "x" + (" " + (s[2..12] + s[12..]));
    } else if |s| >= 3 && IsPriorityWord(s[..3]) && IsDateTail(s[3..]) {
      DateTailIsTail(s[3..]);
      DateWord(s[..3]);
      TailWords(s[..3], s[3..]);
      assert s == s[..3] + s[3..];
    } else if |s| >= 10 && HasDateShape(s[..10]) && IsDescriptionTail(s[10..]) {
      DateWord(s[..10]);
      TailWords(s[..10], s[10..]);
      assert s == s[..10] + s[10..];
    }
  }

  lemma SpacedDescription(d: string)
    requires IsDescription(d)
    ensures IsDescriptionTail(" " + d)
  {
    hide IsDescription;
    assert (" " + d)[1..] == d;
  }

  /**
   A line strict reading accepts is in the published grammar if and only if it has no control character, and
   of the published lines it accepts exactly those with no bad date.
   */
  lemma StrictAndPublished(raw: string)
    ensures ParseLine(raw, Strict).Ok? ==> (IsPublished(raw) <==> IsGraphic(raw))
    ensures IsPublished(raw) ==> (ParseLine(raw, Strict).Ok? <==> !BadDate(raw))
  {
    hide WellSpaced, IsPublished, ParseLine, IsGraphic;
    StrictAccepts(raw);
    PublishedIsWords(raw);
    NothingIsBad(raw);
  }

  lemma NothingIsBad(raw: string)
    ensures raw == "" ==> !BadDate(raw) && IsGraphic(raw)
  {
  }

  /** A bell is a word to strict reading, and in no published line. */
  lemma BellIsAccepted()
    ensures ParseLine("\U{0007}", Strict).Ok? && !IsPublished("\U{0007}")
  {
    hide ParseLine, IsPublished, HasDateShape;
    var bell := "\U{0007}";
    RunIs(bell, 1);
    assert bell[..1] == bell && bell[1..] == "";
    assert WellSpaced(bell) && FirstWord(bell) == bell;
    ShortIsNoDate(bell);
    StrictAccepts(bell);
    PublishedIsWords(bell);
    assert !IsGraphic(bell) by { assert bell[0] != ' ' && !IsNonSp(bell[0]); }
  }

  lemma ShortIsNoDate(w: string)
    requires |w| < 10
    ensures ParseDate(w).None? && !HasDateShape(w)
  {
  }
}

/**
 When a line that was put together reads back as what it was put together from: a prefix and a description do
 exactly when no word the description starts with is taken for a piece that the prefix has not.
 */
module Rereads {
  import opened Wrappers
  import opened Scanner
  import opened Words
  import opened Dates
  import opened TodoLine
  import opened TodoEdit
  import opened Grammar
  import opened LenientLines

  /** The pieces that go together in one line. */
  predicate Shaped(l: Layout) {
    if l.mark.Some?
    then (l.done.None? ==> l.created.None? && l.late.None?) && (l.late.Some? ==> l.early.None?)
    else l.done.None? && l.late.None?
  }

  /** The description does not start with a word that a missing piece would take. */
  predicate NotTaken(l: Layout) {
    var w := FirstWord(l.description);
    if l.mark.Some? then
      && (l.done.None? || (l.created.None? && l.late.None?) ==> ParseDate(w).None?)
      && (l.early.None? && l.late.None? ==> !IsPriorityWord(w))
    else
      && (l.created.None? ==> ParseDate(w).None?)
      && (l.early.None? && l.created.None? ==> !IsPriorityWord(w) && w != "x")
  }

  lemma PriorityStarts(p: Priority, gap: string, rest: string)
    requires GapFits(gap, rest)
    ensures var s := ShowPriority(p) + gap + rest;
            FirstWord(s) == ShowPriority(p) && FirstWord(s) != "x" && ParseDate(FirstWord(s)).None? && s[3..] == gap + rest
  {
    hide FirstWord;
    GapStartsWs(gap, rest);
    assert ShowPriority(p) + gap + rest == ShowPriority(p) + (gap + rest);
    WordThen(ShowPriority(p), gap + rest);
  }

  lemma DateStarts(d: Date, gap: string, rest: string)
    requires GapFits(gap, rest)
    ensures var s := ShowDate(d) + gap + rest;
            && FirstWord(s) == ShowDate(d) && FirstWord(s) != "x" && !IsPriorityWord(FirstWord(s))
            && ParseDate(FirstWord(s)) == Some(d) && s[10..] == gap + rest
  {
    hide FirstWord, ShowDate, ParseDate;
    GapStartsWs(gap, rest);
    ShownDateIsWord(d);
    assert ShowDate(d) + gap + rest == ShowDate(d) + (gap + rest);
    WordThen(ShowDate(d), gap + rest);
  }

  lemma GapCut(gap: string, rest: string)
    requires GapFits(gap, rest)
    ensures GapOf(gap + rest) == gap && AfterGap(gap + rest) == rest
  {
    if gap != "" {
      GapIsRun(gap, rest);
    }
  }

  lemma PriorityOff(p: Priority, gap: string, rest: string)
    requires GapFits(gap, rest)
    ensures CutPriority(ShowPriority(p) + gap + rest) == (Some((p, gap)), rest)
  {
    hide FirstWord, GapOf, AfterGap, GapFits;
    PriorityStarts(p, gap, rest);
    GapCut(gap, rest);
  }

  lemma DateOff(d: Date, gap: string, rest: string)
    requires GapFits(gap, rest)
    ensures CutDate(ShowDate(d) + gap + rest) == (Some((d, gap)), rest)
  {
    hide FirstWord, GapOf, AfterGap, GapFits, ShowDate, ParseDate;
    DateStarts(d, gap, rest);
    GapCut(gap, rest);
  }

  /** Taking a piece that is not there leaves less of the text. */
  lemma CutTakes(s: string)
    ensures |CutPriority(s).1| <= |s| && |CutDate(s).1| <= |s|
    ensures if IsPriorityWord(FirstWord(s)) then |CutPriority(s).1| < |s| else CutPriority(s) == (None, s)
    ensures if ParseDate(FirstWord(s)).Some? then |CutDate(s).1| < |s| else CutDate(s) == (None, s)
  {
    hide RunLen, ParseDate, IsRealDate;
    NoDateNowhere();
  }

  // ---- what is missed is what is taken ----

  /** The words that stand where a priority or a date would, when another piece stands there. */
  lemma PiecesStart(l: Layout)
    requires Shaped(l) && GapsFit(l)
    ensures l.done.Some? ==> NoPriorityNext(FromDone(l))
    ensures l.late.Some? ==> NoDateNext(FromLate(l))
    ensures l.mark.None? && (l.early.Some? || l.created.Some?) ==> FirstWord(LayoutText(l)) != "x"
    ensures l.mark.None? && l.created.Some? ==> NoPriorityNext(FromDone(l))
  {
    hide FirstWord, GapFits, ShowDate, ParseDate, IsPriorityWord, ShowPriority;
    NoLate(l);
    if l.early.Some? {
      PriorityStarts(l.early.value.0, l.early.value.1, FromDone(l));
    }
    if l.done.Some? {
      DateStarts(l.done.value.0, l.done.value.1, FromCreated(l));
    }
    if l.created.Some? {
      DateStarts(l.created.value.0, l.created.value.1, FromLate(l));
    }
    if l.late.Some? {
      PriorityStarts(l.late.value.0, l.late.value.1, l.description);
    }
    assert l.early.None? ==> "" + FromDone(l) == FromDone(l);
  }

  lemma MissedIsTaken(l: Layout)
    requires Shaped(l) && GapsFit(l)
    ensures NothingMissed(l) <==> NotTaken(l)
  {
    hide FirstWord, GapFits, ParseDate, IsPriorityWord, PriorityPart, DatePart;
    PiecesStart(l);
    Tails(l);
  }

  /** The parts of a marked line that are there come off one by one. */
  lemma MarkOff(l: Layout)
    requires l.mark.Some? && GapsFit(l)
    ensures var raw := LayoutText(l); FirstWord(raw) == "x" && AfterGap(raw[1..]) == FromEarly(l)
  {
    hide FirstWord, AfterGap, FromEarly;
    MarkTaken(l);
    GapCut(l.mark.value, FromEarly(l));
    GapStartsWs(l.mark.value, FromEarly(l));
    XIsWord();
    WordThen("x", l.mark.value + FromEarly(l));
  }

  lemma PartsOff(l: Layout)
    requires GapsFit(l)
    ensures l.early.Some? ==> CutPriority(FromEarly(l)) == (l.early, FromDone(l))
    ensures l.done.Some? ==> CutDate(FromDone(l)) == (l.done, FromCreated(l))
    ensures l.created.Some? ==> CutDate(FromCreated(l)) == (l.created, FromLate(l))
    ensures l.late.Some? ==> CutPriority(FromLate(l)) == (l.late, l.description)
  {
    hide CutPriority, CutDate, GapFits, ShowDate, ShowPriority;
    if l.early.Some? {
      PriorityOff(l.early.value.0, l.early.value.1, FromDone(l));
    }
    if l.done.Some? {
      DateOff(l.done.value.0, l.done.value.1, FromCreated(l));
    }
    if l.created.Some? {
      DateOff(l.created.value.0, l.created.value.1, FromLate(l));
    }
    if l.late.Some? {
      PriorityOff(l.late.value.0, l.late.value.1, l.description);
    }
  }

  // ---- what is taken is missing from the description ----

  /** The description that is left of what follows a mark. */
  function MarkedRest(s: string): string {
    var (early, s1) := CutPriority(s);
    var (done, s2) := CutDate(s1);
    if done.None? then s2 else
    var s3 := CutDate(s2).1;
    if early.None? then CutPriority(s3).1 else s3
  }

  lemma RestOfLayout(raw: string)
    ensures LayoutOf(raw).description ==
            if FirstWord(raw) == "x" then MarkedRest(AfterGap(raw[1..])) else CutDate(CutPriority(raw).1).1
  {
    hide CutPriority, CutDate, AfterGap, GapOf, FirstWord;
  }

  lemma MarkedRestShrinks(s: string)
    ensures |MarkedRest(s)| <= |s|
  {
    hide CutPriority, CutDate, FirstWord, IsPriorityWord, ParseDate;
    var (early, s1) := CutPriority(s);
    var (done, s2) := CutDate(s1);
    CutTakes(s);
    CutTakes(s1);
    CutTakes(s2);
    CutTakes(CutDate(s2).1);
  }

  lemma OpenTaken(l: Layout)
    requires Shaped(l) && GapsFit(l) && l.mark.None? && !NotTaken(l)
    ensures |LayoutOf(LayoutText(l)).description| < |l.description|
  {
    hide CutPriority, CutDate, FirstWord, IsPriorityWord, ParseDate, GapFits, GapOf, AfterGap, PriorityPart, DatePart, LayoutOf, MarkedRest;
    var d := l.description;
    Tails(l);
    PartsOff(l);
    PiecesStart(l);
    CutTakes(d);
    RestOfLayout(LayoutText(l));
    if l.early.None? {
      CutTakes(CutPriority(d).1);
      if FirstWord(d) == "x" {
        MarkedRestShrinks(AfterGap(d[1..]));
        AfterGapShrinks(d[1..]);
      }
    }
  }

  lemma AfterGapShrinks(s: string)
    ensures |AfterGap(s)| <= |s|
  {
  }

  lemma MarkedTaken(l: Layout)
    requires Shaped(l) && GapsFit(l) && l.mark.Some? && !NotTaken(l)
    ensures |LayoutOf(LayoutText(l)).description| < |l.description|
  {
    hide CutPriority, CutDate, FirstWord, IsPriorityWord, ParseDate, GapFits, GapOf, AfterGap, PriorityPart, DatePart, LayoutOf, LayoutText;
    hide MarkedRest;
    MarkOff(l);
    RestOfLayout(LayoutText(l));
    if l.done.None? {
      DatelessTaken(l);
    } else {
      DatedTaken(l);
    }
  }

  lemma DatelessTaken(l: Layout)
    requires Shaped(l) && GapsFit(l) && l.mark.Some? && l.done.None? && !NotTaken(l)
    ensures |MarkedRest(FromEarly(l))| < |l.description|
  {
    hide CutPriority, CutDate, FirstWord, IsPriorityWord, ParseDate, GapFits, PriorityPart, DatePart;
    var d := l.description;
    Tails(l);
    PartsOff(l);
    CutTakes(d);
    var s1 := CutPriority(FromEarly(l)).1;
    CutTakes(s1);
    CutTakes(CutDate(s1).1);
    CutTakes(CutDate(CutDate(s1).1).1);
  }

  lemma DatedTaken(l: Layout)
    requires Shaped(l) && GapsFit(l) && l.mark.Some? && l.done.Some? && !NotTaken(l)
    ensures |MarkedRest(FromEarly(l))| < |l.description|
  {
    hide CutPriority, CutDate, FirstWord, IsPriorityWord, ParseDate, GapFits, PriorityPart, DatePart;
    var d := l.description;
    Tails(l);
    NoLate(l);
    PartsOff(l);
    PiecesStart(l);
    EarlyOff(l);
    CutTakes(d);
    CutTakes(CutDate(d).1);
  }

  lemma EarlyOff(l: Layout)
    requires Shaped(l) && GapsFit(l) && l.mark.Some? && l.done.Some?
    ensures CutPriority(FromEarly(l)) == (l.early, FromDone(l))
  {
    hide CutPriority, CutDate, FirstWord, IsPriorityWord, ParseDate, GapFits, DatePart, FromDone;
    PartsOff(l);
    PiecesStart(l);
    CutTakes(FromDone(l));
    assert l.early.None? ==> "" + FromDone(l) == FromDone(l);
  }

  // ---- reading back ----

  /** The prefix that a layout's pieces make. */
  function LayoutPrefix(l: Layout): Prefix {
    PrefixOf(LayoutTask(l))
  }

  /** A line of such pieces and description reads back as them exactly when no word of the description is taken. */
  lemma ReadsBack(l: Layout)
    requires Shaped(l) && GapsFit(l) && LayoutText(l) != ""
    ensures DraftOf(LayoutText(l)) == Draft(LayoutPrefix(l), l.description) <==> NotTaken(l)
    ensures DraftOf(LayoutText(l)).description == l.description <==> NotTaken(l)
  {
    hide ParseLine, LayoutText, LayoutTask, LayoutQuirks, LayoutOf, GapsFit, NotTaken, NothingMissed;
    var raw := LayoutText(l);
    MissedIsTaken(l);
    if NotTaken(l) {
      PiecesRead(l);
      assert DraftOf(raw) == Draft(PrefixOf(LayoutTask(l)), LayoutTask(l).description);
      TaskKeepsDescription(l);
    } else {
      EveryLineIsLaidOut(raw);
      PiecesRead(LayoutOf(raw));
      TaskKeepsDescription(LayoutOf(raw));
      if l.mark.Some? {
        MarkedTaken(l);
      } else {
        OpenTaken(l);
      }
    }
  }

  lemma TaskKeepsDescription(l: Layout)
    ensures LayoutTask(l).description == l.description
  {
  }
}

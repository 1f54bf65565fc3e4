/**
 What an edited line reads as: the prefix and the description that the edits made, exactly when the description
 does not start with a word that a piece the line has not would take.
 */
module Respelled {
  import opened Wrappers
  import opened Scanner
  import opened Words
  import opened WordLists
  import opened Dates
  import opened TodoLine
  import opened TodoEdit
  import opened Grammar
  import opened LenientLines
  import opened Rereads

  // ---- a line printed anew ----

  /** The dates and priorities that a prefix read from a line, or made from one by edits, can have. */
  predicate Printable(p: Prefix) {
    && (p.completed ==> p.completionDate.Some? || p.creationDate.None?)
    && (!p.completed ==> p.completionDate.None?)
  }

  /** No word the description starts with is taken for a piece the prefix has not. */
  ghost predicate KeptApart(p: Prefix, d: string) {
    var w := FirstWord(d);
    && (p != NO_PREFIX ==> AtWord(d))
    && (p.creationDate.None? ==> ParseDate(w).None?)
    && (p.completed ==> !IsPriorityWord(w))
    && (p == NO_PREFIX ==> !IsPriorityWord(w) && w != "x")
  }

  function PrintedLayout(p: Prefix, d: string): Layout {
    var created := if p.creationDate.Some? then Some((p.creationDate.value, Sep(d))) else None;
    var rest := Dated(p.creationDate, d);
    if p.completed then
      var done := if p.completionDate.Some? then Some((p.completionDate.value, Sep(rest))) else None;
      Layout(Some(if p.completionDate.Some? then " " else Sep(rest)), None, done, created, None, d)
    else
      Layout(None, if p.priority.Some? then Some((p.priority.value, Sep(rest))) else None, None, created, None, d)
  }

  lemma PrintedPieces(p: Prefix, d: string)
    requires Printable(p) && (p.completed ==> p.priority.None?)
    ensures var l := PrintedLayout(p, d);
            && FromLate(l) == d && FromCreated(l) == Dated(p.creationDate, d)
            && (p.completionDate.None? ==> FromDone(l) == Dated(p.creationDate, d))
            && LayoutText(l) == Printed(p, d)
  {
    hide ShowDate, ShowPriority, LayoutText, Printed;
    PrintedTail(p, d);
    if p.completed {
      MarkedText(p, d);
    } else {
      OpenText(p, d);
    }
  }

  lemma PrintedTail(p: Prefix, d: string)
    ensures var l, rest := PrintedLayout(p, d), Dated(p.creationDate, d);
            && FromLate(l) == d && FromCreated(l) == rest
            && FromDone(l) == if p.completed && p.completionDate.Some? then ShowDate(p.completionDate.value) + Sep(rest) + rest else rest
  {
    hide ShowDate, ShowPriority, Sep;
    assert "" + d == d && "" + Dated(p.creationDate, d) == Dated(p.creationDate, d);
  }

  lemma MarkedText(p: Prefix, d: string)
    requires p.completed
    ensures LayoutText(PrintedLayout(p, d)) == Printed(p, d)
  {
    hide ShowDate, Sep, Dated, FromDone;
    PrintedTail(p, d);
    var l, rest := PrintedLayout(p, d), Dated(p.creationDate, d);
    assert "" + FromDone(l) == FromDone(l);
    if p.completionDate.Some? {
      MarkAndDate(ShowDate(p.completionDate.value), Sep(rest), rest);
    } else {
      MarkAndRest(Sep(rest), rest);
    }
  }

  lemma MarkAndDate(date: string, sep: string, rest: string)
    ensures "x" + (" " + (date + sep + rest)) == "x " + date + sep + rest
  {
  }

  lemma MarkAndRest(sep: string, rest: string)
    ensures "x" + (sep + rest) == "x" + sep + rest
  {
  }

  lemma OpenText(p: Prefix, d: string)
    requires !p.completed
    ensures p.completionDate.None? ==> LayoutText(PrintedLayout(p, d)) == Printed(p, d)
  {
    hide ShowDate, ShowPriority, Sep, Dated, FromDone;
    PrintedTail(p, d);
    var rest := Dated(p.creationDate, d);
    assert "" + rest == rest;
  }

  lemma PrintedShape(p: Prefix, d: string)
    requires Printable(p) && (p.completed ==> p.priority.None?)
    ensures Shaped(PrintedLayout(p, d)) && LayoutPrefix(PrintedLayout(p, d)) == p
  {
    hide ShowDate, ShowPriority, Dated;
  }

  lemma PrintedGaps(p: Prefix, d: string)
    requires Printable(p) && (p.completed ==> p.priority.None?) && AtWord(d)
    ensures GapsFit(PrintedLayout(p, d))
  {
    hide ShowDate, ShowPriority, LayoutText, Dated;
    PrintedPieces(p, d);
    DatedAtWord(p.creationDate, d);
    if p.completed {
      MarkGap(p, d);
    } else {
      NothingDone(p, d);
    }
  }

  lemma MarkGap(p: Prefix, d: string)
    requires Printable(p) && p.completed && AtWord(d) && AtWord(Dated(p.creationDate, d))
    requires p.completionDate.None? ==> FromDone(PrintedLayout(p, d)) == Dated(p.creationDate, d)
    ensures GapFits(PrintedLayout(p, d).mark.value, FromEarly(PrintedLayout(p, d)))
  {
    hide ShowPriority, Dated, FromCreated;
    var s := FromDone(PrintedLayout(p, d));
    assert "" + s == s;
  }

  lemma NothingDone(p: Prefix, d: string)
    requires !p.completed
    ensures FromDone(PrintedLayout(p, d)) == FromCreated(PrintedLayout(p, d))
  {
    hide ShowDate, FromCreated;
    var s := FromCreated(PrintedLayout(p, d));
    assert "" + s == s;
  }

  lemma PrintedApart(p: Prefix, d: string)
    requires Printable(p) && (p.completed ==> p.priority.None?)
    ensures NotTaken(PrintedLayout(p, d)) && (p != NO_PREFIX ==> AtWord(d)) <==> KeptApart(p, d)
  {
    hide ShowDate, ShowPriority, FirstWord, IsPriorityWord, ParseDate, Dated;
  }

  lemma BareGaps(d: string)
    ensures GapsFit(PrintedLayout(NO_PREFIX, d))
  {
  }

  lemma DatedAtWord(created: Option<Date>, d: string)
    ensures AtWord(d) ==> AtWord(Dated(created, d))
  {
    if created.Some? {
      ShownDateIsWord(created.value);
    }
  }

  /** A printed line reads back as its prefix and description exactly when they are kept apart. */
  lemma PrintedReadsBack(p: Prefix, d: string)
    requires Printable(p) && (p.completed ==> p.priority.None?)
    ensures DraftOf(Printed(p, d)) == Draft(p, d) <==> KeptApart(p, d)
  {
    hide *;
    var l := PrintedLayout(p, d);
    PrintedPieces(p, d);
    PrintedShape(p, d);
    PrintedApart(p, d);
    if LayoutText(l) == "" {
      NothingPrinted(p, d);
      BlankDraft();
    } else if p == NO_PREFIX {
      BareGaps(d);
      ReadsBack(l);
      PrintedDescription(p, d);
    } else if AtWord(d) {
      PrintedGaps(p, d);
      ReadsBack(l);
      PrintedDescription(p, d);
    } else {
      PrintedIsLonger(p, d);
      StartsOnlyWhole(Printed(p, d));
      assert DraftOf(Printed(p, d)) != Draft(p, d);
    }
  }

  lemma PrintedDescription(p: Prefix, d: string)
    ensures PrintedLayout(p, d).description == d
  {
  }

  lemma NothingPrinted(p: Prefix, d: string)
    requires Printable(p) && Printed(p, d) == ""
    ensures p == NO_PREFIX && d == "" && KeptApart(p, d)
  {
    NoDateNowhere();
  }

  lemma BlankDraft()
    ensures DraftOf("") == Draft(NO_PREFIX, "")
  {
  }

  lemma PrintedIsLonger(p: Prefix, d: string)
    requires Printable(p) && p != NO_PREFIX
    ensures |Printed(p, d)| > |d|
  {
    hide ShowDate;
  }

  /** A description starts with a word, or is the whole line. */
  lemma StartsOnlyWhole(raw: string)
    ensures AtWord(DraftOf(raw).description) || |DraftOf(raw).description| == |raw|
    ensures DraftOf(raw) == Draft(LayoutPrefix(LayoutOf(raw)), LayoutOf(raw).description)
  {
    hide LayoutText, LayoutOf, LayoutTask, LayoutQuirks, LayoutFits;
    var l := LayoutOf(raw);
    if raw == "" {
      BlankLayout();
      BlankDraft();
    } else {
      EveryLineIsLaidOut(raw);
      PiecesRead(l);
      DescriptionPlace(l);
      TaskKeepsDescription(l);
      DraftIs(raw, LayoutTask(l), LayoutQuirks(l));
    }
  }

  lemma DraftIs(raw: string, t: Task, q: set<Quirk>)
    requires ParseLine(raw, Lenient) == Ok(Line(TaskLine(t), q))
    ensures DraftOf(raw) == Draft(PrefixOf(t), t.description)
  {
    hide ParseLine;
  }

  lemma BlankLayout()
    ensures LayoutOf("") == Layout(None, None, None, None, None, "") && LayoutPrefix(LayoutOf("")) == NO_PREFIX
  {
    NoDateNowhere();
  }

  // ---- edits that change the prefix ----

  lemma DraftIsPrintable(raw: string)
    ensures Printable(DraftOf(raw).prefix)
  {
    hide DraftOf, CutPriority, CutDate, FirstWord, GapOf, AfterGap;
    StartsOnlyWhole(raw);
  }

  lemma OpIsPrintable(d: Draft, op: Op)
    requires Printable(d.prefix)
    ensures Printable(ApplyOp(d, op).prefix)
  {
    hide SetTag, RemoveTag, PriTagLetter, AppendTo, PrependTo;
  }

  lemma {:induction false} OpsArePrintable(d: Draft, ops: seq<Op>)
    requires Printable(d.prefix)
    ensures Printable(ApplyOps(d, ops).prefix)
    decreases |ops|
  {
    hide ApplyOp, Printable;
    if ops != [] {
      OpIsPrintable(d, ops[0]);
      OpsArePrintable(ApplyOp(d, ops[0]), ops[1..]);
    }
  }

  /**
   A line whose prefix the edits changed is printed anew. It reads as what the edits made of it exactly when
   that prefix and that description are kept apart.
   */
  lemma PrefixEditReads(raw: string, ops: seq<Op>)
    requires ApplyOps(DraftOf(raw), ops).prefix != DraftOf(raw).prefix
    ensures var made := Normalised(DraftOf(raw), ApplyOps(DraftOf(raw), ops));
            && Edited(raw, ops) == Printed(made.prefix, made.description)
            && (DraftOf(Edited(raw, ops)) == made <==> KeptApart(made.prefix, made.description))
  {
    hide DraftOf, ApplyOps, SetTag, KeptApart, EmitPrefix, Printed;
    var now := ApplyOps(DraftOf(raw), ops);
    var made := Normalised(DraftOf(raw), now);
    DraftIsPrintable(raw);
    OpsArePrintable(DraftOf(raw), ops);
    PrintedReadsBack(made.prefix, made.description);
    PrintedIsEmitted(made.prefix, made.description);
  }

  // ---- edits that change the description alone ----

  /** The same pieces with another gap after the last of them and another description. */
  function Regap(l: Layout, gap: string, d: string): Layout {
    if l.late.Some? then l.(late := Some((l.late.value.0, gap)), description := d)
    else if l.created.Some? then l.(created := Some((l.created.value.0, gap)), description := d)
    else if l.done.Some? then l.(done := Some((l.done.value.0, gap)), description := d)
    else if l.early.Some? then l.(early := Some((l.early.value.0, gap)), description := d)
    else if l.mark.Some? then l.(mark := Some(gap), description := d)
    else l.(description := d)
  }

  function LastGap(l: Layout): string {
    if l.late.Some? then l.late.value.1
    else if l.created.Some? then l.created.value.1
    else if l.done.Some? then l.done.value.1
    else if l.early.Some? then l.early.value.1
    else if l.mark.Some? then l.mark.value
    else ""
  }

  predicate HasPiece(l: Layout) {
    l.mark.Some? || l.early.Some? || l.done.Some? || l.created.Some? || l.late.Some?
  }

  /** What stands before the last gap. */
  function Stem(l: Layout): string {
    LayoutText(Regap(l, "", ""))
  }

  lemma CreatedGrows(l: Layout, m: Layout, t: string)
    requires m.created == l.created && FromLate(m) == FromLate(l) + t
    ensures FromCreated(m) == FromCreated(l) + t
  {
    hide FromLate, DatePart;
    assert DatePart(l.created) + (FromLate(l) + t) == DatePart(l.created) + FromLate(l) + t;
  }

  lemma DoneGrows(l: Layout, m: Layout, t: string)
    requires m.done == l.done && FromCreated(m) == FromCreated(l) + t
    ensures FromDone(m) == FromDone(l) + t
  {
    hide FromCreated, DatePart;
    assert DatePart(l.done) + (FromCreated(l) + t) == DatePart(l.done) + FromCreated(l) + t;
  }

  lemma EarlyGrows(l: Layout, m: Layout, t: string)
    requires m.early == l.early && FromDone(m) == FromDone(l) + t
    ensures FromEarly(m) == FromEarly(l) + t
  {
    hide FromDone, PriorityPart;
    assert PriorityPart(l.early) + (FromDone(l) + t) == PriorityPart(l.early) + FromDone(l) + t;
  }

  lemma MarkGrows(l: Layout, m: Layout, t: string)
    requires m.mark == l.mark && FromEarly(m) == FromEarly(l) + t
    ensures LayoutText(m) == LayoutText(l) + t
  {
    hide FromEarly;
    if l.mark.Some? {
      assert "x" + (l.mark.value + (FromEarly(l) + t)) == "x" + (l.mark.value + FromEarly(l)) + t;
    }
  }

  /** The last piece without its gap and without what follows, and with them. */
  lemma LastGrows(l: Layout, gap: string, d: string)
    requires HasPiece(l)
    ensures var a, b, t := Regap(l, "", ""), Regap(l, gap, d), gap + d;
            && (l.late.Some? ==> FromLate(b) == FromLate(a) + t)
            && (l.late.None? && l.created.Some? ==> FromCreated(b) == FromCreated(a) + t)
            && (l.late.None? && l.created.None? && l.done.Some? ==> FromDone(b) == FromDone(a) + t)
            && (l.late.None? && l.created.None? && l.done.None? && l.early.Some? ==> FromEarly(b) == FromEarly(a) + t)
            && (l.late.None? && l.created.None? && l.done.None? && l.early.None? ==> LayoutText(b) == LayoutText(a) + t)
  {
    hide ShowDate, ShowPriority;
    var a, b := Regap(l, "", ""), Regap(l, gap, d);
    Tails(a);
    Tails(b);
    if l.late.Some? {
      PieceGrows(ShowPriority(l.late.value.0), gap, d);
    } else if l.created.Some? {
      PieceGrows(ShowDate(l.created.value.0), gap, d);
    } else if l.done.Some? {
      PieceGrows(ShowDate(l.done.value.0), gap, d);
    } else if l.early.Some? {
      PieceGrows(ShowPriority(l.early.value.0), gap, d);
    } else {
      assert "x" + (gap + d) == "x" + ("" + "") + (gap + d);
    }
  }

  lemma PieceGrows(w: string, gap: string, d: string)
    ensures w + gap + d == w + "" + "" + (gap + d)
  {
  }

  lemma RegapText(l: Layout, gap: string, d: string)
    requires HasPiece(l)
    ensures LayoutText(Regap(l, gap, d)) == Stem(l) + (gap + d)
  {
    hide LayoutText, FromEarly, FromDone, FromCreated, FromLate;
    LastGrows(l, gap, d);
    var a, b, t := Regap(l, "", ""), Regap(l, gap, d), gap + d;
    if l.late.Some? {
      CreatedGrows(a, b, t);
    }
    if l.late.Some? || l.created.Some? {
      DoneGrows(a, b, t);
    }
    if l.late.Some? || l.created.Some? || l.done.Some? {
      EarlyGrows(a, b, t);
    }
    if l.late.Some? || l.created.Some? || l.done.Some? || l.early.Some? {
      MarkGrows(a, b, t);
    }
  }

  predicate EndsInWord(s: string) {
    s != "" && !IsWs(s[|s| - 1])
  }

  lemma WordLast(a: string, s: string)
    requires EndsInWord(s)
    ensures EndsInWord(a + s)
  {
    assert (a + s)[|a + s| - 1] == s[|s| - 1];
  }

  lemma PieceEnds(w: string)
    requires EndsInWord(w)
    ensures w + "" + "" == w
  {
  }

  lemma StemEnds(l: Layout)
    requires HasPiece(l)
    ensures EndsInWord(Stem(l))
  {
    hide ShowDate, ShowPriority, EndsInWord, LayoutText, PriorityPart, DatePart;
    var a := Regap(l, "", "");
    LastEnds(l);
    if l.late.Some? {
      WordLast(DatePart(a.created), FromLate(a));
    }
    if l.late.Some? || l.created.Some? {
      WordLast(DatePart(a.done), FromCreated(a));
    }
    if l.late.Some? || l.created.Some? || l.done.Some? {
      WordLast(PriorityPart(a.early), FromDone(a));
    }
    if l.late.Some? || l.created.Some? || l.done.Some? || l.early.Some? {
      MarkEnds(a);
    }
  }

  lemma MarkEnds(l: Layout)
    requires EndsInWord(FromEarly(l))
    ensures EndsInWord(LayoutText(l))
  {
    hide FromEarly, EndsInWord;
    if l.mark.Some? {
      WordLast(l.mark.value, FromEarly(l));
      WordLast("x", l.mark.value + FromEarly(l));
    }
  }

  lemma PriorityEnds(p: Priority)
    ensures EndsInWord(ShowPriority(p) + "" + "")
  {
    PieceEnds(ShowPriority(p));
  }

  lemma DateEnds(d: Date)
    ensures EndsInWord(ShowDate(d) + "" + "")
  {
    hide ShowDate;
    ShownDateIsWord(d);
    PieceEnds(ShowDate(d));
  }

  lemma LastEnds(l: Layout)
    requires HasPiece(l)
    ensures var a := Regap(l, "", "");
            && (l.late.Some? ==> EndsInWord(FromLate(a)))
            && (l.late.None? && l.created.Some? ==> EndsInWord(FromCreated(a)))
            && (l.late.None? && l.created.None? && l.done.Some? ==> EndsInWord(FromDone(a)))
            && (l.late.None? && l.created.None? && l.done.None? && l.early.Some? ==> EndsInWord(FromEarly(a)))
            && (l.late.None? && l.created.None? && l.done.None? && l.early.None? ==> EndsInWord(LayoutText(a)))
  {
    hide ShowDate, ShowPriority, EndsInWord;
    var a := Regap(l, "", "");
    Tails(a);
    if l.late.Some? {
      PriorityEnds(l.late.value.0);
    } else if l.created.Some? {
      DateEnds(l.created.value.0);
    } else if l.done.Some? {
      DateEnds(l.done.value.0);
    } else if l.early.Some? {
      PriorityEnds(l.early.value.0);
    } else {
      assert "x" + ("" + "") == "x";
      XEnds();
    }
  }

  lemma XEnds()
    ensures EndsInWord("x")
  {
  }

  lemma {:induction false} GapTrimmed(s: string, gap: string)
    requires EndsInWord(s) && AllWs(gap)
    ensures TrimEnd(s + gap) == s
  {
    if gap == "" {
      assert s + gap == s;
    } else {
      var most := gap[..|gap| - 1];
      assert (s + gap)[..|s + gap| - 1] == s + most;
      assert (s + gap)[|s + gap| - 1] == gap[|gap| - 1];
      GapTrimmed(s, most);
    }
  }

  /** What the last gap becomes: none at the end, one space where there was none, and else it stays. */
  function NewGap(gap: string, d: string): string {
    if d == "" then "" else if gap == "" then " " else gap
  }

  lemma GapJoined(s: string, gap: string, d: string)
    requires EndsInWord(s) && AllWs(gap)
    ensures JoinPrefix(s + gap, d) == s + (NewGap(gap, d) + d)
  {
    hide TrimEnd;
    GapTrimmed(s, gap);
    assert s + gap != "";
    assert (s + gap)[|s + gap| - 1] == if gap == "" then s[|s| - 1] else gap[|gap| - 1];
    assert d == "" ==> s + ("" + d) == s;
    assert gap == "" ==> s + gap == s;
    assert s + " " + d == s + (" " + d) && s + gap + d == s + (gap + d);
  }

  lemma LastGapIsWs(l: Layout)
    requires GapsFit(l)
    ensures AllWs(LastGap(l)) && Regap(l, LastGap(l), l.description) == l
  {
    hide FromEarly, FromDone, FromCreated, FromLate, AtWord;
  }

  /** The line with another description after its pieces. */
  lemma JoinedText(l: Layout, d: string)
    requires GapsFit(l)
    ensures var raw := LayoutText(l);
            && |l.description| <= |raw|
            && JoinPrefix(raw[..|raw| - |l.description|], d) == LayoutText(Regap(l, NewGap(LastGap(l), d), d))
  {
    hide LayoutText, JoinPrefix, Regap, LastGap, GapsFit;
    LastGapIsWs(l);
    if HasPiece(l) {
      RegapText(l, LastGap(l), l.description);
      RegapText(l, NewGap(LastGap(l), d), d);
      StemEnds(l);
      GapJoined(Stem(l), LastGap(l), d);
      var raw := LayoutText(l);
      assert raw == Stem(l) + LastGap(l) + l.description;
      assert raw[..|raw| - |l.description|] == Stem(l) + LastGap(l);
    } else {
      NoPieces(l, d);
    }
  }

  lemma NoPieces(l: Layout, d: string)
    requires !HasPiece(l)
    ensures LayoutText(l) == l.description && LayoutText(Regap(l, NewGap(LastGap(l), d), d)) == d
    ensures JoinPrefix("", d) == d
  {
    Tails(l);
    Tails(l.(description := d));
    assert "" + d == d;
  }

  lemma RegapShape(l: Layout, gap: string, d: string)
    requires Shaped(l)
    ensures var m := Regap(l, gap, d);
            Shaped(m) && LayoutPrefix(m) == LayoutPrefix(l) && m.description == d && (NotTaken(m) <==> NotTaken(l.(description := d)))
  {
    hide FirstWord, IsPriorityWord, ParseDate;
  }

  /** The gaps before the last are before the same pieces. */
  lemma RegapFits(l: Layout, d: string)
    requires Shaped(l) && GapsFit(l) && (HasPiece(l) ==> AtWord(d))
    ensures GapsFit(Regap(l, NewGap(LastGap(l), d), d))
  {
    hide ShowDate, ShowPriority, LayoutText;
    var m := Regap(l, NewGap(LastGap(l), d), d);
    LastGapIsWs(l);
    StartsStay(l, m);
    Tails(l);
    Tails(m);
    NoLate(l);
    NoLate(m);
  }

  lemma StartsStay(l: Layout, m: Layout)
    ensures l.late.Some? && m.late.Some? && l.late.value.0 == m.late.value.0 ==> SameStart(FromLate(l), FromLate(m))
    ensures l.created.Some? && m.created.Some? && l.created.value.0 == m.created.value.0 ==> SameStart(FromCreated(l), FromCreated(m))
    ensures l.done.Some? && m.done.Some? && l.done.value.0 == m.done.value.0 ==> SameStart(FromDone(l), FromDone(m))
  {
    hide ShowDate;
  }

  ghost predicate SameStart(s: string, t: string) {
    s != "" && t != "" && s[0] == t[0]
  }

  /** The pieces stay and the description is as given, exactly when no word it starts with is taken. */
  ghost predicate Kept(raw: string, d: string) {
    (DraftOf(raw).prefix != NO_PREFIX ==> AtWord(d)) && NotTaken(LayoutOf(raw).(description := d))
  }

  lemma LayoutIsShaped(raw: string)
    ensures Shaped(LayoutOf(raw)) && GapsFit(LayoutOf(raw)) && LayoutText(LayoutOf(raw)) == raw
    ensures DraftOf(raw) == Draft(LayoutPrefix(LayoutOf(raw)), LayoutOf(raw).description)
    ensures HasPiece(LayoutOf(raw)) <==> DraftOf(raw).prefix != NO_PREFIX
  {
    hide DraftOf, LayoutText, CutPriority, CutDate, FirstWord, GapOf, AfterGap, GapsFit;
    EveryLineIsLaidOut(raw);
    StartsOnlyWhole(raw);
  }

  lemma NothingLeft(m: Layout)
    requires LayoutText(m) == ""
    ensures LayoutPrefix(m) == NO_PREFIX && m.description == "" && NotTaken(m)
  {
    hide PriorityPart, DatePart;
    PartIsText(m);
    NoDateNowhere();
  }

  lemma RegapLonger(l: Layout, gap: string, d: string)
    requires HasPiece(l)
    ensures |LayoutText(Regap(l, gap, d))| > |d|
  {
    hide LayoutText, Regap, Stem;
    RegapText(l, gap, d);
    StemEnds(l);
  }

  /** The bytes before the description and another description. */
  function Respell(raw: string, d: string): string {
    var split := DescriptionStart(raw);
    if 0 <= split <= |raw| then JoinPrefix(raw[..split], d) else raw
  }

  lemma RespelledText(raw: string, d: string)
    ensures var l := LayoutOf(raw); Respell(raw, d) == LayoutText(Regap(l, NewGap(LastGap(l), d), d))
  {
    hide DraftOf, LayoutOf, LayoutText, LayoutPrefix, GapsFit, Shaped, HasPiece, JoinPrefix, Regap, NewGap, LastGap;
    LayoutIsShaped(raw);
    JoinedText(LayoutOf(raw), d);
  }

  lemma RespelledReads(raw: string, d: string)
    ensures DraftOf(Respell(raw, d)) == Draft(DraftOf(raw).prefix, d) <==> Kept(raw, d)
  {
    hide DraftOf, LayoutOf, LayoutText, LayoutPrefix, GapsFit, Shaped, HasPiece, NotTaken, Respell, Regap, NewGap, LastGap;
    LayoutIsShaped(raw);
    RespelledText(raw, d);
    var l := LayoutOf(raw);
    var gap := NewGap(LastGap(l), d);
    RegapShape(l, gap, d);
    if DraftOf(raw).prefix == NO_PREFIX || AtWord(d) {
      RegapFits(l, d);
      FittingReads(Regap(l, gap, d));
    } else {
      StartsOnlyWhole(Respell(raw, d));
      RegapLonger(l, gap, d);
    }
  }

  lemma FittingReads(m: Layout)
    requires Shaped(m) && GapsFit(m)
    ensures DraftOf(LayoutText(m)) == Draft(LayoutPrefix(m), m.description) <==> NotTaken(m)
  {
    hide DraftOf, LayoutText, LayoutPrefix, GapsFit, Shaped, NotTaken;
    if LayoutText(m) == "" {
      NothingLeft(m);
      BlankDraft();
    } else {
      ReadsBack(m);
    }
  }

  /**
   A line of which the edits changed only the description keeps the bytes before it. It reads as what the edits
   made of it exactly when the new description does not start with a word that is taken.
   */
  lemma DescriptionEditReads(raw: string, ops: seq<Op>)
    requires ApplyOps(DraftOf(raw), ops).prefix == DraftOf(raw).prefix
    ensures var was, now := DraftOf(raw), ApplyOps(DraftOf(raw), ops);
            && Edited(raw, ops) == (if now == was then raw else Respell(raw, now.description))
            && (DraftOf(Edited(raw, ops)) == now <==> now == was || Kept(raw, now.description))
  {
    hide DraftOf, ApplyOps, SetTag, EmitPrefix, JoinPrefix, Kept;
    RespelledReads(raw, ApplyOps(DraftOf(raw), ops).description);
  }
}

/**
 Which deviations of a line are noted, told from its text: a quirk is among those of a line exactly when the
 deviation it stands for is in the text, whatever else the line is.
 */
module Deviations {
  import opened Wrappers
  import opened Scanner
  import opened Words
  import opened WordLists
  import opened Dates
  import opened TodoLine
  import opened TodoEdit
  import opened Grammar
  import opened LenientLines

  // ---- the words of a line and its pieces ----

  /** A word by its place; nothing past the last. */
  function WordAt(words: seq<string>, k: nat): string {
    if k < |words| then words[k] else ""
  }

  lemma FirstIsWordAt(s: string)
    requires AtWord(s)
    ensures FirstWord(s) == WordAt(WordList(s), 0)
  {
  }

  lemma PartWords(w: string, gap: string, rest: string)
    requires w != "" && NoWs(w) && GapFits(gap, rest)
    ensures WordList(w + gap + rest) == [w] + WordList(rest)
  {
    hide WordList;
    GapStartsWs(gap, rest);
    assert w + gap + rest == w + (gap + rest);
    WordFirst(w, gap + rest);
    GapFirst(gap, rest);
  }

  function PriorityWordsOf(part: Option<(Priority, string)>): seq<string> {
    if part.Some? then [ShowPriority(part.value.0)] else []
  }

  function DateWordsOf(part: Option<(Date, string)>): seq<string> {
    if part.Some? then [ShowDate(part.value.0)] else []
  }

  lemma PriorityWords(part: Option<(Priority, string)>, rest: string)
    requires part.Some? ==> GapFits(part.value.1, rest)
    ensures WordList(PriorityPart(part) + rest) == PriorityWordsOf(part) + WordList(rest)
  {
    hide WordList, GapFits;
    match part
    case None => assert "" + rest == rest;
    case Some((p, gap)) => PartWords(ShowPriority(p), gap, rest);
  }

  lemma DateWords(part: Option<(Date, string)>, rest: string)
    requires part.Some? ==> GapFits(part.value.1, rest)
    ensures WordList(DatePart(part) + rest) == DateWordsOf(part) + WordList(rest)
  {
    hide WordList, GapFits, ShowDate, ParseDate, HasDateShape;
    match part
    case None => assert "" + rest == rest;
    case Some((d, gap)) =>
      ShownDateIsWord(d);
      PartWords(ShowDate(d), gap, rest);
  }

  /** A piece is there exactly when the next word makes one. */
  lemma PriorityAhead(part: Option<(Priority, string)>, rest: string)
    requires if part.Some? then GapFits(part.value.1, rest) else NoPriorityNext(rest) && AtWord(rest)
    ensures part.Some? <==> IsPriorityWord(WordAt(WordList(PriorityPart(part) + rest), 0))
  {
    hide WordList, GapFits, IsPriorityWord, PriorityPart, FirstWord;
    if part.Some? {
      PriorityWords(part, rest);
    } else {
      NoPart(rest);
      FirstIsWordAt(rest);
    }
  }

  lemma NoPart(rest: string)
    ensures PriorityPart(None) + rest == rest && DatePart(None) + rest == rest
  {
    assert "" + rest == rest;
  }

  lemma DateAhead(part: Option<(Date, string)>, rest: string)
    requires if part.Some? then GapFits(part.value.1, rest) else NoDateNext(rest) && AtWord(rest)
    ensures part.Some? <==> ParseDate(WordAt(WordList(DatePart(part) + rest), 0)).Some?
  {
    hide WordList, GapFits, ParseDate, ShowDate, HasDateShape, DatePart, FirstWord;
    if part.Some? {
      DateWords(part, rest);
      ShownDateIsWord(part.value.0);
    } else {
      NoPart(rest);
      FirstIsWordAt(rest);
    }
  }

  /** What follows each piece of a marked line starts with a word, or nothing does. */
  lemma PiecesAtWord(l: Layout)
    requires LayoutFits(l) && l.mark.Some?
    ensures AtWord(FromEarly(l)) && AtWord(FromDone(l)) && AtWord(FromCreated(l)) && AtWord(FromLate(l))
    ensures AtWord(l.description)
  {
    hide PriorityPart, DatePart, NothingMissed;
    Tails(l);
    NoLate(l);
    if l.early.None? {
      NoPart(FromDone(l));
    }
    if l.done.None? {
      DatelessNext(l);
    } else if l.created.None? {
      NoPart(FromLate(l));
    }
    if l.late.None? {
      NoPart(l.description);
    }
  }

  // ---- a mark, and what stands after it ----

  /** The words of a marked line, piece by piece. */
  lemma MarkedWords(l: Layout)
    requires LayoutFits(l) && l.mark.Some?
    ensures var early, done, created, late :=
              PriorityWordsOf(l.early), DateWordsOf(l.done), DateWordsOf(l.created), PriorityWordsOf(l.late);
            && WordList(LayoutText(l)) == ["x"] + WordList(FromEarly(l))
            && WordList(FromEarly(l)) == early + WordList(FromDone(l))
            && WordList(FromDone(l)) == done + WordList(FromCreated(l))
            && WordList(FromCreated(l)) == created + WordList(FromLate(l))
            && WordList(FromLate(l)) == late + WordList(l.description)
  {
    hide WordList, GapFits, NothingMissed, PriorityPart, DatePart, PriorityWordsOf, DateWordsOf;
    PriorityWords(l.early, FromDone(l));
    DateWords(l.done, FromCreated(l));
    DateWords(l.created, FromLate(l));
    PriorityWords(l.late, l.description);
    XIsWord();
    PartWords("x", l.mark.value, FromEarly(l));
    assert "x" + (l.mark.value + FromEarly(l)) == "x" + l.mark.value + FromEarly(l);
  }

  /** Where a completion date would stand, and where what follows the dates does. */
  function DonePlace(words: seq<string>): nat {
    if IsPriorityWord(WordAt(words, 1)) then 2 else 1
  }

  function AfterDates(words: seq<string>): nat {
    var created := DonePlace(words) + 1;
    if ParseDate(WordAt(words, created)).Some? then created + 1 else created
  }

  lemma WordsAfter(a: seq<string>, b: seq<string>, k: nat)
    ensures WordAt(a + b, |a| + k) == WordAt(b, k)
  {
  }

  /** The words after the mark are those from the second on. */
  lemma MarkFirst(l: Layout)
    requires LayoutFits(l) && l.mark.Some?
    ensures l.early.Some? <==> IsPriorityWord(WordAt(WordList(LayoutText(l)), 1))
    ensures forall k: nat :: WordAt(WordList(LayoutText(l)), DonePlace(WordList(LayoutText(l))) + k) == WordAt(WordList(FromDone(l)), k)
  {
    hide WordList, GapFits, IsPriorityWord, ShowDate, PriorityPart, DatePart, LayoutText, NoDateNext, NoPriorityNext, WordAt;
    MarkedWords(l);
    PiecesAtWord(l);
    var words, w1, w2 := WordList(LayoutText(l)), WordList(FromEarly(l)), WordList(FromDone(l));
    WordsAfter(["x"], w1, 0);
    PriorityAhead(l.early, FromDone(l));
    forall k: nat ensures WordAt(words, DonePlace(words) + k) == WordAt(w2, k) {
      var early := PriorityWordsOf(l.early);
      WordsAfter(["x"], w1, |early| + k);
      WordsAfter(early, w2, k);
    }
  }

  /** Which pieces a marked line has, by its words. */
  lemma PiecesByWords(l: Layout)
    requires LayoutFits(l) && l.mark.Some?
    ensures var words := WordList(LayoutText(l));
            && (l.early.Some? <==> IsPriorityWord(WordAt(words, 1)))
            && (l.done.Some? <==> ParseDate(WordAt(words, DonePlace(words))).Some?)
            && (l.done.Some? ==> (l.created.Some? <==> ParseDate(WordAt(words, DonePlace(words) + 1)).Some?))
            && (l.late.Some? <==> l.early.None? && l.done.Some? && IsPriorityWord(WordAt(words, AfterDates(words))))
  {
    hide WordList, GapFits, IsPriorityWord, ParseDate, PriorityPart, DatePart, LayoutText, NoDateNext, NoPriorityNext, WordAt, DonePlace;
    hide PriorityWordsOf, DateWordsOf;
    MarkFirst(l);
    PiecesAtWord(l);
    var words, w2 := WordList(LayoutText(l)), WordList(FromDone(l));
    assert WordAt(words, DonePlace(words) + 0) == WordAt(w2, 0);
    assert WordAt(words, DonePlace(words) + 1) == WordAt(w2, 1);
    assert WordAt(words, DonePlace(words) + 2) == WordAt(w2, 2);
    if l.done.None? {
      DatelessNext(l);
      FirstIsWordAt(FromDone(l));
      NoDateIs(FromDone(l));
    } else {
      DatedByWords(l);
    }
  }

  lemma DatedByWords(l: Layout)
    requires LayoutFits(l) && l.mark.Some? && l.done.Some?
    ensures var words := WordList(FromDone(l));
            && ParseDate(WordAt(words, 0)).Some?
            && (l.created.Some? <==> ParseDate(WordAt(words, 1)).Some?)
            && (l.late.Some? <==> l.early.None? && IsPriorityWord(WordAt(words, if l.created.Some? then 2 else 1)))
  {
    hide *;
    MarkedWords(l);
    var done, created := DateWordsOf(l.done), DateWordsOf(l.created);
    DatesAhead(l);
    OneDateWord(l.done);
    OneDateWord(l.created);
    WordsAfter(done, WordList(FromCreated(l)), 0);
    WordsAfter(done, WordList(FromCreated(l)), |created|);
    WordsAfter(created, WordList(FromLate(l)), 0);
    LateAhead(l);
  }

  lemma OneDateWord(part: Option<(Date, string)>)
    ensures |DateWordsOf(part)| == if part.Some? then 1 else 0
  {
  }

  lemma DatesAhead(l: Layout)
    requires LayoutFits(l) && l.mark.Some? && l.done.Some?
    ensures ParseDate(WordAt(WordList(FromDone(l)), 0)).Some?
    ensures l.created.Some? <==> ParseDate(WordAt(WordList(FromCreated(l)), 0)).Some?
  {
    hide WordList, GapFits, IsPriorityWord, ParseDate, ShowDate, PriorityPart, DatePart, NoDateNext, NoPriorityNext, WordAt;
    PiecesAtWord(l);
    DateAhead(l.done, FromCreated(l));
    DateAhead(l.created, FromLate(l));
  }

  lemma LateAhead(l: Layout)
    requires LayoutFits(l) && l.mark.Some? && l.done.Some?
    ensures l.late.Some? <==> l.early.None? && IsPriorityWord(WordAt(WordList(FromLate(l)), 0))
  {
    hide WordList, GapFits, IsPriorityWord, ParseDate, ShowDate, PriorityPart, DatePart, NoDateNext, NoPriorityNext, WordAt;
    PiecesAtWord(l);
    if l.early.None? {
      PriorityAhead(l.late, l.description);
    }
  }

  lemma NoDateIs(s: string)
    requires NoDateNext(s)
    ensures ParseDate(FirstWord(s)).None?
  {
  }

  // ---- whitespace ----

  /** The whitespace at the end is not one space. */
  predicate WideEnd(s: string) {
    EndsInGap(s) && (s[|s| - 1] == '\t' || (|s| > 1 && IsWs(s[|s| - 2])))
  }

  /** What the whitespace of a text that starts with a word and ends in the description calls for. */
  ghost function SpacingQuirks(s: string, d: string): set<Quirk> {
    (if EndsInGap(s) then {TrailingWs} else {}) + (if LooseInside(s) || (d == "" && WideEnd(s)) then {Tabs} else {})
  }

  lemma EndsLater(w: string, gap: string, rest: string)
    requires w != "" && NoWs(w) && GapFits(gap, rest)
    ensures var s := w + gap + rest;
            && (EndsInGap(s) <==> (rest == "" && gap != "") || EndsInGap(rest))
            && (WideEnd(s) <==> (rest == "" && gap != "" && gap != " ") || WideEnd(rest))
  {
    var s := w + gap + rest;
    if rest != "" {
      assert s[|s| - 1] == rest[|rest| - 1];
      assert s[|s| - 2] == if |rest| > 1 then rest[|rest| - 2] else gap[|gap| - 1];
    } else if gap != "" {
      assert s[|s| - 1] == gap[|gap| - 1];
      assert s[|s| - 2] == if |gap| > 1 then gap[|gap| - 2] else w[|w| - 1];
      assert |gap| == 1 ==> gap == [gap[0]];
    } else {
      assert s[|s| - 1] == w[|w| - 1];
    }
  }

  lemma LooseLater(w: string, gap: string, rest: string)
    requires w != "" && NoWs(w) && GapFits(gap, rest)
    ensures LooseInside(w + gap + rest) <==> (rest != "" && gap != " ") || LooseInside(rest)
  {
    hide LooseInside, LooseBeforeWord;
    assert w + gap + rest == w + (gap + rest) == "" + (w + gap + rest);
    LooseAfterGap("", w + gap + rest);
    LooseAfterGap("", rest);
    assert "" + rest == rest;
    GapStartsWs(gap, rest);
    LooseSplits(w, gap + rest);
    if gap != "" {
      LooseSplits(gap, rest);
    } else {
      assert gap + rest == rest == "";
    }
  }

  /** A piece adds what its gap calls for. */
  lemma SpacingLater(w: string, gap: string, rest: string, d: string)
    requires w != "" && NoWs(w) && GapFits(gap, rest) && |d| <= |rest|
    ensures SpacingQuirks(w + gap + rest, d) == GapQuirks(gap, rest) + SpacingQuirks(rest, d)
  {
    hide LooseInside, WideEnd, EndsInGap, NoWs;
    EndsLater(w, gap, rest);
    LooseLater(w, gap, rest);
    NothingEnds();
  }

  lemma NothingEnds()
    ensures !WideEnd("") && !EndsInGap("") && !LooseInside("")
  {
  }

  lemma PrioritySpacing(part: Option<(Priority, string)>, rest: string, d: string)
    requires (part.Some? ==> GapFits(part.value.1, rest)) && |d| <= |rest|
    ensures SpacingQuirks(PriorityPart(part) + rest, d) == PartQuirks(part, rest) + SpacingQuirks(rest, d)
  {
    hide SpacingQuirks, GapFits, GapQuirks;
    match part
    case None => NoPart(rest);
    case Some((p, gap)) => SpacingLater(ShowPriority(p), gap, rest, d);
  }

  lemma DateSpacing(part: Option<(Date, string)>, rest: string, d: string)
    requires (part.Some? ==> GapFits(part.value.1, rest)) && |d| <= |rest|
    ensures SpacingQuirks(DatePart(part) + rest, d) == PartQuirks(part, rest) + SpacingQuirks(rest, d)
  {
    hide SpacingQuirks, GapFits, GapQuirks, ShowDate, ParseDate, HasDateShape;
    match part
    case None => NoPart(rest);
    case Some((day, gap)) =>
      ShownDateIsWord(day);
      SpacingLater(ShowDate(day), gap, rest, d);
  }

  /** The whitespace of a whole line. */
  lemma LineSpacing(l: Layout)
    requires LayoutFits(l)
    ensures SpacingQuirks(LayoutText(l), l.description) == GapsQuirks(l) + SpacingQuirks(l.description, l.description)
  {
    hide SpacingQuirks, GapFits, GapQuirks, PriorityPart, DatePart, NothingMissed, PartQuirks;
    var d := l.description;
    PrioritySpacing(l.late, d, d);
    DateSpacing(l.created, FromLate(l), d);
    DateSpacing(l.done, FromCreated(l), d);
    PrioritySpacing(l.early, FromDone(l), d);
    if l.mark.Some? {
      var gap := l.mark.value;
      XIsWord();
      SpacingLater("x", gap, FromEarly(l), d);
      assert "x" + (gap + FromEarly(l)) == "x" + gap + FromEarly(l);
    }
  }

  // ---- references ----

  /** A small letter or a digit, by its code point. */
  predicate IsSlugStart(c: char) {
    0x61 <= c as int <= 0x7A || 0x30 <= c as int <= 0x39
  }

  /** A name for another list: up to 64 characters, the first a small letter or a digit. */
  predicate IsSlug(s: string) {
    && 1 <= |s| <= 64 && IsSlugStart(s[0])
    && forall i :: 0 <= i < |s| ==> IsSlugStart(s[i]) || s[i] in {'.', '_', '-'}
  }

  lemma SlugIs(s: string)
    ensures IsValidSlug(s) <==> IsSlug(s)
  {
  }

  /** The first word that opens with `ref:` and goes on names no list. */
  ghost predicate FirstRefIsBad(words: seq<string>) {
    exists k :: 0 <= k < |words| && KeyWord(words[k], "ref") && !IsSlug(words[k][4..])
                && forall i :: 0 <= i < k ==> !KeyWord(words[i], "ref")
  }

  lemma RefIsTagKey()
    ensures TagKey("ref")
  {
    assert !IsScheme("ref") by {
      assert Lower("ref"[0]) == 'r' && Lower("ftp"[0]) == 'f' && Lower("ssh"[0]) == 's';
      assert Lower("tel"[0]) == 't' && Lower("sms"[0]) == 's';
    }
  }

  lemma RefIsNoted(d: string)
    ensures RefQuirk(d) == if FirstRefIsBad(WordList(d)) then {InvalidRef} else {}
  {
    hide *;
    if FindTag(d, 0, "ref").None? {
      NoTagNoFind(d, 0, "ref");
      NoBadRef(WordList(d));
      NoRefNoted(d);
    } else {
      var a, w, b := FindTagSplits(d, 0, "ref");
      SplitIndex(a, w, b, "ref");
      RefOfSplit(d, a, w, b);
      FirstRef(WordList(d), |WordList(a)|);
    }
  }

  lemma NoRefNoted(d: string)
    requires FindTag(d, 0, "ref").None?
    ensures RefQuirk(d) == {}
  {
    hide FindTag;
  }

  lemma RefOfSplit(d: string, a: string, w: string, b: string)
    requires d == a + w + b && TagSplit(a, w, b, "ref") && FindTag(d, 0, "ref") == Some((|a|, |a| + |w|))
    ensures |w| > 4 && RefQuirk(d) == if IsValidSlug(w[4..]) then {} else {InvalidRef}
  {
    hide FindTag, IsValidSlug, IsTagOf, WordList, TagIndex;
    TagOfKey(w, "ref");
    assert d[|a| + 4..|a| + |w|] == w[4..];
  }

  lemma NoBadRef(words: seq<string>)
    requires TagIndex(words, "ref") == |words|
    ensures !FirstRefIsBad(words)
  {
    hide IsTagOf, TagIndex, IsSlug, KeyWord;
    RefIsTagKey();
    forall k | 0 <= k < |words| ensures !KeyWord(words[k], "ref") {
      TagIsKeyWord(words[k], "ref");
    }
  }

  lemma FirstRef(words: seq<string>, k: nat)
    requires k < |words| && TagIndex(words, "ref") == k && |words[k]| > 4
    ensures FirstRefIsBad(words) <==> !IsValidSlug(words[k][4..])
  {
    hide IsTagOf, TagIndex, IsSlug, IsValidSlug;
    RefIsTagKey();
    SlugIs(words[k][4..]);
    forall i | 0 <= i < |words| ensures IsTagOf(words[i], "ref") <==> KeyWord(words[i], "ref") {
      TagIsKeyWord(words[i], "ref");
    }
  }

  // ---- every quirk of a line ----

  /** The deviation of a line that a quirk stands for. */
  ghost predicate Deviates(raw: string, q: Quirk) {
    var words, d := WordList(raw), DraftOf(raw).description;
    var marked := FirstWord(raw) == "x";
    match q
    case PriorityAfterX => marked && IsPriorityWord(WordAt(words, 1))
    case NoCompletionDate => marked && ParseDate(WordAt(words, DonePlace(words))).None?
    case PriorityAfterDate =>
      marked && !IsPriorityWord(WordAt(words, 1)) && ParseDate(WordAt(words, 1)).Some? && IsPriorityWord(WordAt(words, AfterDates(words)))
    case LeadingWs => raw != "" && IsWs(raw[0])
    case TrailingWs => EndsInGap(raw)
    case Tabs => LooseInside(raw) || (d == "" && WideEnd(raw))
    case InvalidRef => FirstRefIsBad(WordList(d))
    case MixedEnding => false
  }

  lemma ReadByLayout(raw: string)
    requires raw != ""
    ensures var l := LayoutOf(raw);
            LayoutFits(l) && LayoutText(l) == raw && DraftOf(raw).description == l.description && QuirksOf(raw) == LayoutQuirks(l)
  {
    hide LayoutFits, LayoutText, LayoutQuirks, LayoutOf;
    EveryLineIsLaidOut(raw);
    PiecesRead(LayoutOf(raw));
  }

  lemma MarkIsX(l: Layout)
    requires LayoutFits(l)
    ensures l.mark.Some? <==> FirstWord(LayoutText(l)) == "x"
  {
    hide FirstWord, FromEarly;
    if l.mark.Some? {
      GapStartsWs(l.mark.value, FromEarly(l));
      XIsWord();
      WordThen("x", l.mark.value + FromEarly(l));
    }
  }

  /** Only a line that is all description can be indented. */
  lemma IndentIsDescription(l: Layout)
    requires LayoutFits(l)
    ensures l.description != "" && IsWs(l.description[0]) <==> LayoutText(l) != "" && IsWs(LayoutText(l)[0])
  {
    hide FirstWord, LayoutText;
    DescriptionPlace(l);
    DescriptionLast(l);
    if |l.description| != |LayoutText(l)| {
      PiecesFirst(l);
    }
  }

  lemma DescriptionLast(l: Layout)
    ensures |l.description| <= |LayoutText(l)|
    ensures |l.description| == |LayoutText(l)| ==> l.description == LayoutText(l)
  {
    hide PriorityPart, DatePart;
    assert LayoutText(l)[|LayoutText(l)| - |l.description|..] == l.description;
  }

  lemma PiecesFirst(l: Layout)
    requires LayoutFits(l) && |l.description| != |LayoutText(l)|
    ensures LayoutText(l) != "" && !IsWs(LayoutText(l)[0])
  {
  }

  /** What is noted of a layout, the whitespace of the whole line taken together. */
  lemma LayoutNoted(l: Layout)
    requires LayoutFits(l)
    ensures var raw := LayoutText(l);
            LayoutQuirks(l) == SpacingQuirks(raw, l.description) + PlaceQuirks(l) + RefQuirk(l.description)
                               + (if raw != "" && IsWs(raw[0]) then {LeadingWs} else {})
  {
    hide LayoutFits, LayoutText, GapsQuirks, PlaceQuirks, RefQuirk, LooseInside, EndsInGap, WideEnd;
    LineSpacing(l);
    IndentIsDescription(l);
    NothingEnds();
  }

  /** The quirks that a mark, priorities and dates call for. */
  lemma PlaceNoted(l: Layout, q: Quirk)
    requires LayoutFits(l) && LayoutText(l) != "" && q in {PriorityAfterX, NoCompletionDate, PriorityAfterDate}
    ensures q in PlaceQuirks(l) <==> Deviates(LayoutText(l), q)
  {
    hide LayoutFits, LayoutText, FirstWord, WordList, IsPriorityWord, LooseInside, WideEnd, EndsInGap, FirstRefIsBad, DonePlace, AfterDates;
    hide WordAt, ParseDate, DraftOf;
    MarkIsX(l);
    if l.mark.Some? {
      PiecesByWords(l);
      PlaceOne(WordList(LayoutText(l)));
    } else {
      Unmarked(l);
    }
  }

  lemma PlaceOne(words: seq<string>)
    ensures !IsPriorityWord(WordAt(words, 1)) ==> DonePlace(words) == 1
  {
  }

  lemma Unmarked(l: Layout)
    requires LayoutFits(l) && l.mark.None?
    ensures PlaceQuirks(l) == {}
  {
  }

  /** A quirk is noted of a line exactly when the line deviates so. */
  lemma NotedIffDeviates(raw: string, q: Quirk)
    requires raw != ""
    ensures q in QuirksOf(raw) <==> Deviates(raw, q)
  {
    hide QuirksOf, DraftOf, LayoutFits, LayoutText, LayoutOf, LayoutQuirks, FirstWord, WordList, IsPriorityWord, LooseInside, WideEnd;
    hide EndsInGap, FirstRefIsBad, DonePlace, AfterDates, WordAt, ParseDate, RefQuirk;
    ReadByLayout(raw);
    var l := LayoutOf(raw);
    LayoutNoted(l);
    RefIsNoted(l.description);
    if q in {PriorityAfterX, NoCompletionDate, PriorityAfterDate} {
      PlaceNoted(l, q);
    }
  }

  // ---- a priority kept behind the mark ----

  /** A done line with its priority before its dates, single spaces between the pieces. */
  function PriorityBehindMark(p: Priority, done: Date, created: Option<Date>, desc: string): string {
    var rest := Dated(created, desc);
    "x " + ShowPriority(p) + " " + ShowDate(done) + Sep(rest) + rest
  }

  function PriorityLayout(p: Priority, done: Date, created: Option<Date>, desc: string): Layout {
    var second := if created.Some? then Some((created.value, Sep(desc))) else None;
    Layout(Some(" "), Some((p, " ")), Some((done, Sep(Dated(created, desc)))), second, None, desc)
  }

  /** It reads as done with that priority and those dates, and only where the priority stands is noted of its prefix. */
  lemma PriorityBehindMarkReads(p: Priority, done: Date, created: Option<Date>, desc: string)
    requires AtWord(desc) && (created.None? ==> ParseDate(FirstWord(desc)).None?)
    ensures ParseLine(PriorityBehindMark(p, done, created, desc), Lenient) ==
            Ok(Line(TaskLine(Task(true, Some(done), created, Some(p), desc)),
                    {PriorityAfterX} + DescriptionQuirks(desc) + RefQuirk(desc)))
  {
    hide ParseLine, ParseDate, FirstWord, ShowDate, DescriptionQuirks, RefQuirk, HasDateShape, LayoutText, GapsQuirks, PlaceQuirks, LayoutFits;
    var l := PriorityLayout(p, done, created, desc);
    PriorityLayoutText(p, done, created, desc);
    PriorityLayoutTail(p, done, created, desc);
    PriorityLayoutFits(l);
    PiecesRead(l);
    PriorityLayoutQuirks(l);
  }

  lemma PriorityLayoutText(p: Priority, done: Date, created: Option<Date>, desc: string)
    ensures LayoutText(PriorityLayout(p, done, created, desc)) == PriorityBehindMark(p, done, created, desc)
  {
    hide ShowDate, ShowPriority, Dated, Sep;
    PriorityLayoutTail(p, done, created, desc);
    var rest := Dated(created, desc);
    MarkJoins(ShowPriority(p), ShowDate(done), Sep(rest), rest);
  }

  lemma MarkJoins(p: string, d: string, sep: string, rest: string)
    ensures "x" + (" " + (p + " " + (d + sep + rest))) == "x " + p + " " + d + sep + rest
  {
  }

  lemma PriorityLayoutTail(p: Priority, done: Date, created: Option<Date>, desc: string)
    ensures var l := PriorityLayout(p, done, created, desc);
            && FromLate(l) == desc && FromCreated(l) == Dated(created, desc)
            && FromDone(l) == ShowDate(done) + Sep(Dated(created, desc)) + Dated(created, desc)
            && FromEarly(l) == ShowPriority(p) + " " + FromDone(l)
  {
    hide ShowDate;
    assert "" + desc == desc && "" + Dated(created, desc) == Dated(created, desc);
  }

  lemma PriorityLayoutFits(l: Layout)
    requires l.mark == Some(" ") && l.early.Some? && l.early.value.1 == " " && l.late.None? && AtWord(l.description)
    requires l.done.Some? && l.done.value.1 == Sep(FromCreated(l))
    requires if l.created.Some? then l.created.value.1 == Sep(l.description) else NoDateNext(l.description)
    ensures LayoutFits(l)
  {
    hide FirstWord, ShowDate, ParseDate, IsPriorityWord;
    NoLate(l);
    if l.created.None? {
      NoPart(FromLate(l));
    }
  }

  lemma PriorityLayoutQuirks(l: Layout)
    requires l.mark == Some(" ") && l.early.Some? && l.early.value.1 == " " && l.late.None?
    requires l.done.Some? && l.done.value.1 == Sep(FromCreated(l))
    requires l.created.Some? ==> l.created.value.1 == Sep(l.description)
    ensures GapsQuirks(l) + PlaceQuirks(l) == {PriorityAfterX}
  {
    hide ShowDate, IsPriorityWord;
    NoLate(l);
    PartLength(l.early);
    DateLength(l.done);
  }

  const FIRST_OF_2026: Date := RawDate(2026, 1, 1)

  lemma FirstOf2026()
    ensures ShowDate(FIRST_OF_2026) == "2026-01-01"
  {
    hide ShowDate;
    assert "2026-01-01"[0..4] == "2026" && "2026-01-01"[5..7] == "01" && "2026-01-01"[8..10] == "01";
    FirstDigits();
    ShowParse("2026-01-01");
  }

  lemma FirstDigits()
    ensures AsciiNumber("2026") == Some(2026) && AsciiNumber("01") == Some(1)
  {
    assert "2026"[..3] == "202" && "202"[..2] == "20" && "20"[..1] == "2" && "2"[..0] == "";
    assert "01"[..1] == "0" && "0"[..0] == "";
    assert AsciiNumber("20") == Some(20);
    assert AsciiNumber("202") == Some(202);
  }

  /** One word that is neither a date nor a tag leaves nothing to note. */
  lemma FooIsPlain()
    ensures AtWord("foo") && ParseDate(FirstWord("foo")).None? && DescriptionQuirks("foo") == {} && RefQuirk("foo") == {}
  {
    hide FindTag, IsSlug;
    WordThen("foo", "");
    assert "foo" + "" == "foo";
    OneWordList("foo");
    RefIsNoted("foo");
    assert !KeyWord("foo", "ref");
  }

  lemma EarlyPriorityIsRead()
    ensures ParseLine("x (A) 2026-01-01 foo", Lenient) ==
            Ok(Line(TaskLine(Task(true, Some(FIRST_OF_2026), None, Some('A'), "foo")), {PriorityAfterX}))
  {
    hide ParseLine, DescriptionQuirks, RefQuirk, ParseDate, FirstWord, ShowDate;
    FooIsPlain();
    FirstOf2026();
    PriorityBehindMarkReads('A', FIRST_OF_2026, None, "foo");
    assert ShowPriority('A') == "(A)";
    assert "x " + "(A)" + " " + "2026-01-01" + " " + "foo" == "x (A) 2026-01-01 foo";
    assert {PriorityAfterX} + {} + {} == {PriorityAfterX};
  }
}

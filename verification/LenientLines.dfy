/**
 Lenient reading told from the text: any line is a mark, priorities, dates and a description with whitespace
 between them, in one way, and that way says which task it is and which deviations are noted.
 */
module LenientLines {
  import opened Wrappers
  import opened Scanner
  import opened Words
  import opened WordLists
  import opened Dates
  import opened TodoLine
  import opened Grammar

  // ---- how a line is laid out ----

  /** The pieces of a line in order, each but the description with the whitespace after it. */
  datatype Layout = Layout(
    mark: Option<string>,
    early: Option<(Priority, string)>,
    done: Option<(Date, string)>,
    created: Option<(Date, string)>,
    late: Option<(Priority, string)>,
    description: string)

  function PriorityPart(part: Option<(Priority, string)>): string {
    match part
    case None => ""
    case Some((p, gap)) => ShowPriority(p) + gap
  }

  function DatePart(part: Option<(Date, string)>): string {
    match part
    case None => ""
    case Some((d, gap)) => ShowDate(d) + gap
  }

  function FromLate(l: Layout): string {
    PriorityPart(l.late) + l.description
  }

  function FromCreated(l: Layout): string {
    DatePart(l.created) + FromLate(l)
  }

  function FromDone(l: Layout): string {
    DatePart(l.done) + FromCreated(l)
  }

  function FromEarly(l: Layout): string {
    PriorityPart(l.early) + FromDone(l)
  }

  function LayoutText(l: Layout): string {
    if l.mark.Some? then "x" + (l.mark.value + FromEarly(l)) else FromEarly(l)
  }

  /** Whitespace, and all of it, before what follows; none only at the end of the line. */
  ghost predicate GapFits(gap: string, rest: string) {
    AllWs(gap) && AtWord(rest) && (rest != "" ==> gap != "")
  }

  ghost predicate NoPriorityNext(s: string) {
    !IsPriorityWord(FirstWord(s))
  }

  ghost predicate NoDateNext(s: string) {
    ParseDate(FirstWord(s)).None?
  }

  ghost predicate GapsFit(l: Layout) {
    && (l.mark.Some? ==> GapFits(l.mark.value, FromEarly(l)))
    && (l.early.Some? ==> GapFits(l.early.value.1, FromDone(l)))
    && (l.done.Some? ==> GapFits(l.done.value.1, FromCreated(l)))
    && (l.created.Some? ==> GapFits(l.created.value.1, FromLate(l)))
    && (l.late.Some? ==> GapFits(l.late.value.1, l.description))
  }

  /** No piece is missing that the words standing there would make. */
  ghost predicate NothingMissed(l: Layout) {
    && (l.early.None? ==> NoPriorityNext(FromDone(l)))
    && if l.mark.Some? then
         && (l.done.None? ==> l.created.None? && l.late.None? && NoDateNext(l.description))
         && (l.done.Some? && l.created.None? ==> NoDateNext(FromLate(l)))
         && (l.late.Some? ==> l.early.None?)
         && (l.done.Some? && l.early.None? && l.late.None? ==> NoPriorityNext(l.description))
       else
         && l.done.None? && l.late.None? && FirstWord(LayoutText(l)) != "x"
         && (l.created.None? ==> NoDateNext(l.description))
  }

  ghost predicate LayoutFits(l: Layout) {
    GapsFit(l) && NothingMissed(l)
  }

  function FirstOf<T>(part: Option<(T, string)>): Option<T> {
    match part
    case None => None
    case Some((x, _)) => Some(x)
  }

  function LayoutTask(l: Layout): Task {
    Task(l.mark.Some?, FirstOf(l.done), FirstOf(l.created), if l.early.Some? then FirstOf(l.early) else FirstOf(l.late), l.description)
  }

  // ---- what is noted of it ----

  /** Whitespace other than one space, or at the end of the line. */
  function GapQuirks(gap: string, rest: string): set<Quirk> {
    (if gap != "" && gap != " " then {Tabs} else {}) + (if gap != "" && rest == "" then {TrailingWs} else {})
  }

  function PartQuirks<T>(part: Option<(T, string)>, rest: string): set<Quirk> {
    match part
    case None => {}
    case Some((_, gap)) => GapQuirks(gap, rest)
  }

  /** A tab, or the second of two spaces. */
  predicate Loose(s: string, j: nat) {
    j < |s| && (s[j] == '\t' || (s[j] == ' ' && j > 0 && s[j - 1] == ' '))
  }

  ghost predicate WordBefore(s: string, j: nat) {
    exists i :: 0 <= i < j && i < |s| && !IsWs(s[i])
  }

  ghost predicate WordAfter(s: string, j: nat) {
    exists i :: j < i < |s| && !IsWs(s[i])
  }

  /** Between two words there is a tab or more than one space. */
  ghost predicate LooseInside(s: string) {
    exists j :: 0 <= j < |s| && Loose(s, j) && WordBefore(s, j) && WordAfter(s, j)
  }

  predicate EndsInGap(s: string) {
    s != "" && IsWs(s[|s| - 1])
  }

  ghost function DescriptionQuirks(d: string): set<Quirk> {
    (if d != "" && IsWs(d[0]) then {LeadingWs} else {})
    + (if EndsInGap(d) then {TrailingWs} else {})
    + (if LooseInside(d) then {Tabs} else {})
  }

  /** What a line starts with decides what else is noted. */
  function PlaceQuirks(l: Layout): set<Quirk> {
    (if l.mark.Some? && l.early.Some? then {PriorityAfterX} else {})
    + (if l.mark.Some? && l.done.None? then {NoCompletionDate} else {})
    + (if l.late.Some? then {PriorityAfterDate} else {})
  }

  function GapsQuirks(l: Layout): set<Quirk> {
    (if l.mark.Some? then GapQuirks(l.mark.value, FromEarly(l)) else {})
    + PartQuirks(l.early, FromDone(l)) + PartQuirks(l.done, FromCreated(l))
    + PartQuirks(l.created, FromLate(l)) + PartQuirks(l.late, l.description)
  }

  ghost function LayoutQuirks(l: Layout): set<Quirk> {
    GapsQuirks(l) + PlaceQuirks(l) + DescriptionQuirks(l.description) + RefQuirk(l.description)
  }

  // ---- the parser's steps over the pieces ----

  lemma GapOver(len: nat, s: State, gap: string, t: string)
    requires s.rest == gap + t && GapFits(gap, t)
    ensures Separator(Lenient, len, s) == Got(t != "", s.(rest := t, quirks := s.quirks + GapQuirks(gap, t)))
  {
    hide RunLen, Separator;
    if gap != "" {
      GapIsRun(gap, t);
      GapTaken(len, s, gap, t);
    } else {
      assert s.rest == "" && s.quirks + ({} + {}) == s.quirks;
      NothingTaken(len, s);
    }
  }

  lemma GapIsRun(gap: string, t: string)
    requires gap != "" && GapFits(gap, t)
    ensures RunLen(gap + t) == |gap| && (gap + t)[..|gap|] == gap && (gap + t)[|gap|..] == t
  {
    RunIs(gap + t, |gap|);
  }

  lemma NothingTaken(len: nat, s: State)
    requires s.rest == ""
    ensures Separator(Lenient, len, s) == Got(false, s)
  {
  }

  lemma GapTaken(len: nat, s: State, gap: string, t: string)
    requires gap != "" && s.rest == gap + t && RunLen(gap + t) == |gap| && s.rest[..|gap|] == gap && s.rest[|gap|..] == t
    ensures Separator(Lenient, len, s) == Got(t != "", s.(rest := t, quirks := s.quirks + GapQuirks(gap, t)))
  {
    hide RunLen, IsWs, GapFits;
    var q := s.quirks;
    assert q + {Tabs} + {TrailingWs} == q + ({Tabs} + {TrailingWs});
    assert q + {} == q;
  }

  lemma GapStartsWs(gap: string, t: string)
    requires GapFits(gap, t)
    ensures gap + t == "" || IsWs((gap + t)[0])
  {
  }

  lemma PriorityTaken(len: nat, s: State, p: Priority, gap: string, t: string)
    requires s.rest == ShowPriority(p) + gap + t && GapFits(gap, t)
    ensures TakePriority(Lenient, len, s) ==
            Got(true, s.(rest := t, quirks := s.quirks + GapQuirks(gap, t), task := s.task.(priority := Some(p))))
  {
    hide Separator, GapQuirks, RunLen;
    GapStartsWs(gap, t);
    assert s.rest == ShowPriority(p) + (gap + t);
    WordThen(ShowPriority(p), gap + t);
    GapOver(len, s.(rest := gap + t, task := s.task.(priority := Some(p))), gap, t);
  }

  /** A priority and its gap, or none. */
  lemma PriorityStep(len: nat, s: State, part: Option<(Priority, string)>, t: string)
    requires s.rest == PriorityPart(part) + t
    requires if part.Some? then GapFits(part.value.1, t) else NoPriorityNext(t)
    ensures TakePriority(Lenient, len, s) ==
            Got(part.Some?, s.(rest := t, quirks := s.quirks + PartQuirks(part, t),
                               task := if part.Some? then s.task.(priority := Some(part.value.0)) else s.task))
  {
    hide TakePriority, GapQuirks;
    match part
    case Some((p, gap)) =>
      PriorityTaken(len, s, p, gap, t);
    case None =>
      assert s.rest == t && s.quirks + {} == s.quirks;
      NoPriority(Lenient, len, s);
  }

  lemma DateTaken(len: nat, s: State, d: Date, gap: string, t: string)
    requires s.rest == ShowDate(d) + gap + t && GapFits(gap, t)
    ensures TakeDate(Lenient, len, s) == Got(Some(d), s.(rest := gap + t))
  {
    hide TakeDate, ShowDate;
    GapStartsWs(gap, t);
    assert s.rest == ShowDate(d) + (gap + t);
    DateOver(Lenient, len, s, d, gap + t);
  }

  lemma NoDateTaken(len: nat, s: State)
    requires NoDateNext(s.rest)
    ensures TakeDate(Lenient, len, s) == Got(None, s)
  {
  }

  /** A creation date and its gap, or none. */
  lemma CreatedStep(len: nat, s: State, part: Option<(Date, string)>, t: string)
    requires s.rest == DatePart(part) + t && s.task.creationDate.None?
    requires if part.Some? then GapFits(part.value.1, t) else NoDateNext(t)
    ensures TakeCreationDate(Lenient, len, s) ==
            Got((), s.(rest := t, quirks := s.quirks + PartQuirks(part, t), task := s.task.(creationDate := FirstOf(part))))
  {
    hide TakeDate, GapQuirks, Separator, ShowDate;
    match part
    case Some((d, gap)) =>
      DateTaken(len, s, d, gap, t);
      GapOver(len, s.(rest := gap + t, task := s.task.(creationDate := Some(d))), gap, t);
    case None =>
      assert s.rest == t && s.quirks + {} == s.quirks;
      NoDateTaken(len, s);
  }

  /** The state after the prefix: the description is left to read. */
  function AfterPieces(l: Layout): State {
    State(l.description, GapsQuirks(l) + PlaceQuirks(l), LayoutTask(l).(description := ""))
  }

  lemma OpenPieces(l: Layout)
    requires LayoutFits(l) && l.mark.None?
    ensures ParsePrefix(Lenient, LayoutText(l)) == Got((), AfterPieces(l))
  {
    hide TakePriority, TakeCreationDate, GapQuirks, GapFits, NoPriorityNext, NoDateNext, FirstWord, PriorityPart, DatePart;
    NoLate(l);
    var raw := LayoutText(l);
    var s := State(raw, {}, NEW_TASK);
    PriorityStep(|raw|, s, l.early, FromDone(l));
    var s1 := TakePriority(Lenient, |raw|, s).state;
    CreatedStep(|raw|, s1, l.created, l.description);
    assert {} + PartQuirks(l.early, FromDone(l)) + PartQuirks(l.created, l.description) == GapsQuirks(l) + PlaceQuirks(l);
  }

  lemma NoLate(l: Layout)
    ensures l.late.None? ==> FromLate(l) == l.description
    ensures l.done.None? ==> FromDone(l) == FromCreated(l)
  {
    assert "" + l.description == l.description && "" + FromCreated(l) == FromCreated(l);
  }

  // ---- a line with a mark ----

  lemma PartIsText(l: Layout)
    requires FromEarly(l) == ""
    ensures l.early.None? && l.done.None? && l.created.None? && l.late.None? && l.description == ""
  {
    hide PriorityPart, DatePart;
    PartLength(l.early);
    DateLength(l.done);
    DateLength(l.created);
    PartLength(l.late);
  }

  lemma PartLength(part: Option<(Priority, string)>)
    ensures part.Some? ==> |PriorityPart(part)| >= 3
  {
  }

  lemma DateLength(part: Option<(Date, string)>)
    ensures part.Some? ==> |DatePart(part)| >= 10
  {
    hide ShowDate;
  }

  /** The text after the mark and its gap. */
  lemma MarkTaken(l: Layout)
    requires l.mark.Some? && GapFits(l.mark.value, FromEarly(l))
    ensures var raw, gap := LayoutText(l), l.mark.value;
            && raw != "" && StartsCompleted(Lenient, raw) && raw[1..] == gap + FromEarly(l)
            && Separator(Lenient, |raw|, State(raw[1..], {}, NEW_TASK.(completed := true))) ==
               Got(FromEarly(l) != "", State(FromEarly(l), GapQuirks(gap, FromEarly(l)), NEW_TASK.(completed := true)))
  {
    hide Separator, GapQuirks, FromEarly, RunLen;
    var raw, gap := LayoutText(l), l.mark.value;
    var tail := gap + FromEarly(l);
    GapStartsWs(gap, FromEarly(l));
    XIsWord();
    WordThen("x", tail);
    assert raw[1..] == tail;
    GapOver(|raw|, State(raw[1..], {}, NEW_TASK.(completed := true)), gap, FromEarly(l));
    assert {} + GapQuirks(gap, FromEarly(l)) == GapQuirks(gap, FromEarly(l));
  }

  /** The state after the mark, and after an early priority if there is one. */
  function AfterMark(l: Layout): State
    requires l.mark.Some?
  {
    State(FromEarly(l), GapQuirks(l.mark.value, FromEarly(l)), NEW_TASK.(completed := true))
  }

  function AfterEarly(l: Layout): State
    requires l.mark.Some?
  {
    State(FromDone(l),
          GapQuirks(l.mark.value, FromEarly(l)) + PartQuirks(l.early, FromDone(l)) + (if l.early.Some? then {PriorityAfterX} else {}),
          NEW_TASK.(completed := true, priority := FirstOf(l.early)))
  }

  /** What the completed prefix does with a mark alone. */
  lemma MarkAlone(len: nat, s: State, s1: State)
    requires Separator(Lenient, len, s) == Got(false, s1)
    ensures CompletedPrefix(Lenient, len, s) == Got((), s1.(quirks := s1.quirks + {NoCompletionDate}))
  {
    hide Separator, TakePriority, TakeDate, TakeCreationDate, LatePriority;
  }

  /** And with something after it: an early priority, then a date or none. */
  lemma MarkAndMore(len: nat, s: State, s1: State, early: bool, s2: State, date: Option<Date>, s4: State)
    requires Separator(Lenient, len, s) == Got(true, s1) && TakePriority(Lenient, len, s1) == Got(early, s2)
    requires TakeDate(Lenient, len, if early then s2.(quirks := s2.quirks + {PriorityAfterX}) else s2) == Got(date, s4)
    ensures CompletedPrefix(Lenient, len, s) ==
            if date.None? then Got((), s4.(quirks := s4.quirks + {NoCompletionDate}))
            else AfterDate(len, s4.(task := s4.task.(completionDate := date)))
  {
    hide Separator, TakePriority, TakeDate, TakeCreationDate, LatePriority;
  }

  /** The rest of the prefix after the completion date. */
  function AfterDate(len: nat, s: State): Parsed<()> {
    var (again, s5) :- Separator(Lenient, len, s);
    var (_, s6) :- if again then TakeCreationDate(Lenient, len, s5) else Got((), s5);
    LatePriority(Lenient, len, s6)
  }

  lemma EarlyTaken(l: Layout, len: nat)
    requires LayoutFits(l) && l.mark.Some?
    ensures TakePriority(Lenient, len, AfterMark(l)) ==
            Got(l.early.Some?, State(FromDone(l), GapQuirks(l.mark.value, FromEarly(l)) + PartQuirks(l.early, FromDone(l)),
                                     NEW_TASK.(completed := true, priority := FirstOf(l.early))))
  {
    hide TakePriority, GapQuirks, GapFits, NoPriorityNext, NoDateNext, FirstWord, PriorityPart, FromDone;
    PriorityStep(len, AfterMark(l), l.early, FromDone(l));
  }

  lemma MarkedPieces(l: Layout)
    requires LayoutFits(l) && l.mark.Some?
    ensures ParsePrefix(Lenient, LayoutText(l)) == Got((), AfterPieces(l))
  {
    hide TakePriority, TakeDate, Separator, GapQuirks, GapFits, NoPriorityNext, NoDateNext, FirstWord, CompletedPrefix, LayoutText;
    hide StartsCompleted, FromEarly, FromDone, FromCreated, FromLate, AfterDate, PartQuirks;
    var raw := LayoutText(l);
    MarkTaken(l);
    var s := State(raw[1..], {}, NEW_TASK.(completed := true));
    if FromEarly(l) == "" {
      MarkAlone(|raw|, s, AfterMark(l));
      NothingAfter(l);
    } else {
      EarlyTaken(l, |raw|);
      var s2 := TakePriority(Lenient, |raw|, AfterMark(l)).state;
      var q := GapQuirks(l.mark.value, FromEarly(l)) + PartQuirks(l.early, FromDone(l));
      assert q + {} == q;
      var s3 := AfterEarly(l);
      if l.done.None? {
        DatelessNext(l);
        NoDateTaken(|raw|, s3);
        MarkAndMore(|raw|, s, AfterMark(l), l.early.Some?, s2, None, s3);
        DatelessPieces(l);
      } else {
        var (d, gap) := l.done.value;
        var s4 := s3.(rest := gap + FromCreated(l));
        DoneTaken(l, |raw|);
        MarkAndMore(|raw|, s, AfterMark(l), l.early.Some?, s2, Some(d), s4);
        DatedPieces(l, |raw|);
      }
    }
  }

  lemma NothingAfter(l: Layout)
    requires l.mark.Some? && FromEarly(l) == ""
    ensures AfterMark(l).(quirks := AfterMark(l).quirks + {NoCompletionDate}) == AfterPieces(l)
  {
    hide GapQuirks;
    PartIsText(l);
    assert GapsQuirks(l) == GapQuirks(l.mark.value, FromEarly(l));
    assert PlaceQuirks(l) == {NoCompletionDate};
  }

  lemma DatelessNext(l: Layout)
    requires LayoutFits(l) && l.mark.Some? && l.done.None?
    ensures FromDone(l) == l.description && NoDateNext(FromDone(l))
  {
    hide NoDateNext;
    assert "" + ("" + ("" + l.description)) == l.description;
  }

  lemma DatelessPieces(l: Layout)
    requires LayoutFits(l) && l.mark.Some? && l.done.None?
    ensures AfterEarly(l).(quirks := AfterEarly(l).quirks + {NoCompletionDate}) == AfterPieces(l)
  {
    hide GapQuirks, GapFits, NoDateNext, NoPriorityNext;
    DatelessNext(l);
    assert AfterEarly(l).quirks + {NoCompletionDate} == GapsQuirks(l) + PlaceQuirks(l);
  }

  lemma DoneTaken(l: Layout, len: nat)
    requires LayoutFits(l) && l.mark.Some? && l.done.Some?
    ensures var (d, gap) := l.done.value;
            TakeDate(Lenient, len, AfterEarly(l)) == Got(Some(d), AfterEarly(l).(rest := gap + FromCreated(l)))
  {
    hide TakeDate, GapQuirks, GapFits, NoDateNext, NoPriorityNext, ShowDate, FromCreated, PartQuirks;
    var (d, gap) := l.done.value;
    assert FromDone(l) == ShowDate(d) + gap + FromCreated(l);
    DateTaken(len, AfterEarly(l), d, gap, FromCreated(l));
  }

  /** The state after the completion date and its gap. */
  function AfterDone(l: Layout): State
    requires l.mark.Some? && l.done.Some?
  {
    State(FromCreated(l), AfterEarly(l).quirks + PartQuirks(l.done, FromCreated(l)),
          AfterEarly(l).task.(completionDate := Some(l.done.value.0)))
  }

  function AfterCreated(l: Layout): State
    requires l.mark.Some? && l.done.Some?
  {
    State(FromLate(l), AfterDone(l).quirks + PartQuirks(l.created, FromLate(l)),
          AfterDone(l).task.(creationDate := FirstOf(l.created)))
  }

  lemma CreatedTaken(l: Layout, len: nat)
    requires LayoutFits(l) && l.mark.Some? && l.done.Some?
    ensures TakeCreationDate(Lenient, len, AfterDone(l)) == Got((), AfterCreated(l))
    ensures FromCreated(l) == "" ==> AfterCreated(l) == AfterDone(l)
  {
    hide TakeCreationDate, GapFits, NoPriorityNext, NoDateNext, FirstWord, ShowDate, FromLate, GapQuirks, PartQuirks;
    CreatedStep(len, AfterDone(l), l.created, FromLate(l));
    if FromCreated(l) == "" {
      DateLength(l.created);
      NoneNoted(FromLate(l));
      assert AfterDone(l).quirks + {} == AfterDone(l).quirks;
    }
  }

  lemma NoneNoted(rest: string)
    ensures PartQuirks<Date>(None, rest) == {}
  {
  }

  lemma LateTaken(l: Layout, len: nat)
    requires LayoutFits(l) && l.mark.Some? && l.done.Some?
    ensures LatePriority(Lenient, len, AfterCreated(l)) == Got((), AfterPieces(l))
  {
    hide TakePriority, GapFits, NoPriorityNext, NoDateNext, FirstWord, ShowDate, GapQuirks, FromDone, FromCreated, FromEarly, PriorityPart;
    LatePieces(l);
    if l.early.Some? {
      assert FromLate(l) == l.description by { NoLate(l); }
    } else {
      PriorityStep(len, AfterCreated(l), l.late, l.description);
    }
  }

  lemma LatePieces(l: Layout)
    requires LayoutFits(l) && l.mark.Some? && l.done.Some?
    ensures AfterCreated(l).quirks + PartQuirks(l.late, l.description) + (if l.late.Some? then {PriorityAfterDate} else {})
         == GapsQuirks(l) + PlaceQuirks(l)
    ensures l.late.None? ==> AfterCreated(l).quirks == GapsQuirks(l) + PlaceQuirks(l)
  {
    hide GapQuirks, GapsFit, NothingMissed;
  }

  lemma DatedPieces(l: Layout, len: nat)
    requires LayoutFits(l) && l.mark.Some? && l.done.Some?
    ensures var (d, gap) := l.done.value;
            var s := State(gap + FromCreated(l), AfterEarly(l).quirks, AfterEarly(l).task.(completionDate := Some(d)));
            AfterDate(len, s) == Got((), AfterPieces(l))
  {
    hide Separator, TakeCreationDate, LatePriority, GapFits, NoPriorityNext, NoDateNext, FirstWord, ShowDate, GapQuirks, FromCreated;
    hide AfterEarly, AfterCreated, AfterPieces, NothingMissed;
    var (d, gap) := l.done.value;
    GapOver(len, State(gap + FromCreated(l), AfterEarly(l).quirks, AfterEarly(l).task.(completionDate := Some(d))), gap, FromCreated(l));
    CreatedTaken(l, len);
    LateTaken(l, len);
  }

  // ---- the whitespace inside a description ----

  /** A tab or a second space with a word after it. */
  ghost predicate LooseBeforeWord(s: string) {
    exists j :: 0 <= j < |s| && Loose(s, j) && WordAfter(s, j)
  }

  lemma LooseHere(s: string, j: nat)
    requires j < |s| && Loose(s, j) && WordAfter(s, j)
    ensures LooseBeforeWord(s)
  {
    hide Loose, WordAfter;
  }

  lemma AfterShifts(run: string, t: string, j: nat)
    ensures WordAfter(run + t, |run| + j) <==> WordAfter(t, j)
  {
    var s := run + t;
    if WordAfter(s, |run| + j) {
      var i := WordThere(s, |run| + j);
      assert s[i] == t[i - |run|];
    }
    if WordAfter(t, j) {
      var i := WordThere(t, j);
      assert s[|run| + i] == t[i];
    }
  }

  lemma WordThere(s: string, j: nat) returns (i: nat)
    requires WordAfter(s, j)
    ensures j < i < |s| && !IsWs(s[i])
  {
    i :| j < i < |s| && !IsWs(s[i]);
  }

  /** At a boundary between a word and whitespace nothing is loose that is not loose on one side. */
  lemma LooseShifts(run: string, t: string, j: nat)
    requires run != "" && t != "" && IsWs(run[|run| - 1]) != IsWs(t[0])
    ensures Loose(run + t, |run| + j) <==> Loose(t, j)
  {
    var s := run + t;
    if j < |t| {
      assert s[|run| + j] == t[j];
      assert j > 0 ==> s[|run| + j - 1] == t[j - 1];
      assert j == 0 ==> s[|run| + j - 1] == run[|run| - 1];
    }
  }

  /** A run and what follows it: loose whitespace before a word is in the one or in the other. */
  lemma LooseSplits(run: string, t: string)
    requires run != "" && (forall i :: 0 <= i < |run| ==> IsWs(run[i]) == IsWs(run[0]))
    requires t == "" || IsWs(t[0]) != IsWs(run[0])
    ensures LooseBeforeWord(run + t) <==> (IsWs(run[0]) && run != " " && t != "") || LooseBeforeWord(t)
  {
    hide WordAfter;
    var s := run + t;
    if LooseBeforeWord(s) {
      var j :| 0 <= j < |s| && Loose(s, j) && WordAfter(s, j);
      if j >= |run| {
        LooseShifts(run, t, j - |run|);
        AfterShifts(run, t, j - |run|);
        LooseHere(t, j - |run|);
      } else {
        LooseInRun(run, t, j);
      }
    }
    if LooseBeforeWord(t) {
      var j :| 0 <= j < |t| && Loose(t, j) && WordAfter(t, j);
      LooseShifts(run, t, j);
      AfterShifts(run, t, j);
      LooseHere(s, |run| + j);
    }
    if IsWs(run[0]) && run != " " && t != "" {
      var j := WideRun(run, t);
      LooseHere(s, j);
    }
  }

  lemma LooseInRun(run: string, t: string, j: nat)
    requires j < |run| && (forall i :: 0 <= i < |run| ==> IsWs(run[i]) == IsWs(run[0]))
    requires Loose(run + t, j) && WordAfter(run + t, j)
    ensures IsWs(run[0]) && run != " " && t != ""
  {
    var s := run + t;
    assert s[j] == run[j] && (j > 0 ==> s[j - 1] == run[j - 1]);
    var i :| j < i < |s| && !IsWs(s[i]);
    assert forall k :: 0 <= k < |run| ==> s[k] == run[k];
  }

  lemma WideRun(run: string, t: string) returns (j: nat)
    requires run != "" && run != " " && t != "" && !IsWs(t[0]) && forall i :: 0 <= i < |run| ==> IsWs(run[i])
    ensures Loose(run + t, j) && WordAfter(run + t, j)
  {
    var s := run + t;
    assert s[|run|] == t[0];
    assert s[0] == run[0];
    if run[0] == '\t' {
      j := 0;
    } else {
      j := 1;
      assert run == " " || |run| > 1;
      assert s[1] == run[1];
    }
  }

  function RestQuirks(s: string, loose: bool): set<Quirk> {
    (if EndsInGap(s) then {TrailingWs} else {}) + (if loose then {Tabs} else {})
  }

  /** Past the start of the line every run of whitespace is held to one space. */
  lemma {:induction false} RunsNoted(len: nat, s: State, first: bool)
    requires !first || len > |s.rest| || AtWord(s.rest)
    ensures CheckRuns(Lenient, len, s, first) ==
            Got((), s.(rest := "", quirks := s.quirks + RestQuirks(s.rest, LooseBeforeWord(s.rest))))
    decreases |s.rest|
  {
    hide CheckRun, LooseBeforeWord, Loose;
    if s.rest == "" {
      NothingLoose();
      assert s.quirks + {} == s.quirks;
    } else {
      var n := RunLen(s.rest);
      var run, t := s.rest[..n], s.rest[n..];
      assert s.rest == run + t;
      RunNoted(len, s, first);
      var s1 := CheckRun(Lenient, len, s, first).state;
      RunsNoted(len, s1, false);
      LooseSplits(run, t);
      NothingLoose();
      assert t == "" ==> !LooseBeforeWord(t);
      assert t != "" ==> s.rest[|s.rest| - 1] == t[|t| - 1];
      QuirksJoin(s.quirks, run, t, LooseBeforeWord(t));
    }
  }

  lemma NothingLoose()
    ensures !LooseBeforeWord("")
  {
  }

  function RunQuirks(run: string, t: string): set<Quirk>
    requires run != ""
  {
    if !IsWs(run[0]) then {} else if t == "" then {TrailingWs} else if run != " " then {Tabs} else {}
  }

  lemma RunNoted(len: nat, s: State, first: bool)
    requires s.rest != "" && (!first || len > |s.rest| || AtWord(s.rest))
    ensures var n := RunLen(s.rest);
            CheckRun(Lenient, len, s, first) ==
            Got((), s.(rest := s.rest[n..], quirks := s.quirks + RunQuirks(s.rest[..n], s.rest[n..])))
  {
    hide RunLen;
    assert s.quirks + {} == s.quirks;
  }

  lemma QuirksJoin(q: set<Quirk>, run: string, t: string, loose: bool)
    requires run != "" && (t == "" ==> !loose) && (t == "" || IsWs(t[0]) != IsWs(run[0]))
    requires forall i :: 0 <= i < |run| ==> IsWs(run[i]) == IsWs(run[0])
    ensures q + RunQuirks(run, t) + RestQuirks(t, loose)
         == q + RestQuirks(run + t, (IsWs(run[0]) && run != " " && t != "") || loose)
  {
    var s := run + t;
    assert s[|s| - 1] == if t == "" then run[|run| - 1] else t[|t| - 1];
  }

  /** Before the first word no whitespace is loose. */
  lemma LooseAfterGap(gap: string, t: string)
    requires AllWs(gap) && AtWord(t)
    ensures LooseInside(gap + t) <==> LooseBeforeWord(t)
  {
    hide WordAfter;
    var s := gap + t;
    if LooseInside(s) {
      var j :| 0 <= j < |s| && Loose(s, j) && WordBefore(s, j) && WordAfter(s, j);
      var i :| 0 <= i < j && i < |s| && !IsWs(s[i]);
      assert forall k :: 0 <= k < |gap| ==> s[k] == gap[k];
      AfterShifts(gap, t, j - |gap|);
      assert s[j] == t[j - |gap|] && s[j - 1] == t[j - |gap| - 1];
      LooseHere(t, j - |gap|);
    }
    if LooseBeforeWord(t) {
      var j :| 0 <= j < |t| && Loose(t, j) && WordAfter(t, j);
      assert s[|gap| + j] == t[j] && s[|gap|] == t[0];
      assert j > 0 && s[|gap| + j - 1] == t[j - 1];
      AfterShifts(gap, t, j);
      assert Loose(s, |gap| + j) && WordBefore(s, |gap| + j);
    }
  }

  /** What is noted of a description, whether it is the whole line or follows other pieces. */
  lemma DescriptionNoted(len: nat, s: State)
    requires len == |s.rest| || AtWord(s.rest)
    ensures CheckRuns(Lenient, len, s, true) == Got((), s.(rest := "", quirks := s.quirks + DescriptionQuirks(s.rest)))
  {
    hide *;
    if AtWord(s.rest) {
      RunsNoted(len, s, true);
      WordsNoted(s.rest);
    } else {
      SomeIndent(s.rest);
      IndentNoted(len, s);
      var d := s.rest;
      var n := RunLen(d);
      var t := d[n..];
      var s1 := State(t, s.quirks + {LeadingWs} + (if t == "" then {TrailingWs} else {}), s.task);
      RunsNoted(len, s1, false);
      IndentAndWords(d, s.quirks);
    }
  }

  lemma SomeIndent(d: string)
    requires !AtWord(d)
    ensures d != "" && IsWs(d[0])
  {
  }

  lemma WordsNoted(d: string)
    requires AtWord(d)
    ensures DescriptionQuirks(d) == RestQuirks(d, LooseBeforeWord(d))
  {
    hide LooseInside, LooseBeforeWord;
    LooseAfterGap("", d);
    assert "" + d == d;
  }

  lemma IndentAndWords(d: string, q: set<Quirk>)
    requires d != "" && IsWs(d[0])
    ensures var t := d[RunLen(d)..];
            q + {LeadingWs} + (if t == "" then {TrailingWs} else {}) + RestQuirks(t, LooseBeforeWord(t)) == q + DescriptionQuirks(d)
  {
    hide LooseInside, LooseBeforeWord, RunLen;
    var t := d[RunLen(d)..];
    IndentSplits(d);
    var trailing: set<Quirk> := if EndsInGap(d) then {TrailingWs} else {};
    var tabs: set<Quirk> := if LooseInside(d) then {Tabs} else {};
    assert DescriptionQuirks(d) == {LeadingWs} + trailing + tabs;
    assert (if t == "" then {TrailingWs} else {}) + RestQuirks(t, LooseBeforeWord(t)) == trailing + tabs;
  }

  lemma IndentSplits(d: string)
    requires d != "" && IsWs(d[0])
    ensures var t := d[RunLen(d)..];
            (EndsInGap(d) <==> t == "" || EndsInGap(t)) && (LooseInside(d) <==> LooseBeforeWord(t)) && (t == "" ==> !LooseBeforeWord(t))
  {
    hide LooseInside, LooseBeforeWord;
    var gap, t := d[..RunLen(d)], d[RunLen(d)..];
    assert d == gap + t;
    LooseAfterGap(gap, t);
    NothingLoose();
    assert d[|d| - 1] == if t == "" then gap[|gap| - 1] else t[|t| - 1];
  }

  lemma IndentNoted(len: nat, s: State)
    requires s.rest != "" && IsWs(s.rest[0]) && len == |s.rest|
    ensures var t := s.rest[RunLen(s.rest)..];
            CheckRuns(Lenient, len, s, true) ==
            CheckRuns(Lenient, len, State(t, s.quirks + {LeadingWs} + (if t == "" then {TrailingWs} else {}), s.task), false)
  {
    hide RunLen;
    assert s.quirks + {LeadingWs} + {} == s.quirks + {LeadingWs};
  }

  // ---- the whole line ----

  /** A line that is laid out so reads as its pieces say. */
  lemma PiecesRead(l: Layout)
    requires LayoutFits(l) && LayoutText(l) != ""
    ensures ParseLine(LayoutText(l), Lenient) == Ok(Line(TaskLine(LayoutTask(l)), LayoutQuirks(l)))
  {
    hide ParsePrefix, CheckRuns, LayoutFits, LayoutText, GapsQuirks, PlaceQuirks, DescriptionQuirks, RefQuirk;
    var raw := LayoutText(l);
    if l.mark.Some? {
      MarkedPieces(l);
    } else {
      OpenPieces(l);
    }
    DescriptionPlace(l);
    DescriptionNoted(|raw|, AfterPieces(l));
  }

  /** A description is the whole line or starts with a word. */
  lemma DescriptionPlace(l: Layout)
    requires LayoutFits(l)
    ensures |l.description| == |LayoutText(l)| || AtWord(l.description)
  {
    hide PriorityPart, DatePart, NothingMissed;
    Tails(l);
  }

  lemma Tails(l: Layout)
    ensures l.late.None? ==> FromLate(l) == l.description
    ensures l.late.None? && l.created.None? ==> FromCreated(l) == l.description
    ensures l.late.None? && l.created.None? && l.done.None? ==> FromDone(l) == l.description
    ensures l.late.None? && l.created.None? && l.done.None? && l.early.None? ==> FromEarly(l) == l.description
  {
    assert "" + l.description == l.description;
  }

  // ---- every line is laid out in some way ----

  /** The whitespace a text starts with. */
  function GapOf(s: string): string {
    if s != "" && IsWs(s[0]) then s[..RunLen(s)] else ""
  }

  function AfterGap(s: string): string {
    if s != "" && IsWs(s[0]) then s[RunLen(s)..] else s
  }

  lemma GapIsGap(s: string)
    requires s == "" || IsWs(s[0])
    ensures s == GapOf(s) + AfterGap(s) && GapFits(GapOf(s), AfterGap(s))
  {
  }

  /** A priority word taken off a text with its gap, and what is left. */
  function CutPriority(s: string): (Option<(Priority, string)>, string) {
    if IsPriorityWord(FirstWord(s)) then (Some((FirstWord(s)[1], GapOf(s[3..]))), AfterGap(s[3..])) else (None, s)
  }

  function CutDate(s: string): (Option<(Date, string)>, string) {
    match ParseDate(FirstWord(s))
    case None => (None, s)
    case Some(d) => var t := s[|FirstWord(s)|..]; (Some((d, GapOf(t))), AfterGap(t))
  }

  lemma PriorityCut(s: string)
    ensures var (part, rest) := CutPriority(s);
            && s == PriorityPart(part) + rest
            && if part.Some? then GapFits(part.value.1, rest) else NoPriorityNext(rest) && rest == s
  {
    hide RunLen, FirstWord, GapOf, AfterGap;
    if IsPriorityWord(FirstWord(s)) {
      FirstWordSplits(s);
      GapIsGap(s[3..]);
      assert ShowPriority(FirstWord(s)[1]) == FirstWord(s);
      assert s == FirstWord(s) + s[3..];
    }
  }

  lemma DateCut(s: string)
    ensures var (part, rest) := CutDate(s);
            && s == DatePart(part) + rest
            && if part.Some? then GapFits(part.value.1, rest) else NoDateNext(rest) && rest == s
  {
    hide RunLen, FirstWord, GapOf, AfterGap, ParseDate, ShowDate;
    var w := FirstWord(s);
    if ParseDate(w).Some? {
      ShowParse(w);
      NoDateNowhere();
      FirstWordSplits(s);
      GapIsGap(s[|w|..]);
      assert s == w + s[|w|..];
    }
  }

  /** How any line is laid out. */
  function LayoutOf(raw: string): Layout {
    if FirstWord(raw) == "x" then
      var t := raw[1..];
      var (early, s1) := CutPriority(AfterGap(t));
      var (done, s2) := CutDate(s1);
      if done.None? then Layout(Some(GapOf(t)), early, None, None, None, s2) else
      var (created, s3) := CutDate(s2);
      var (late, s4) := if early.None? then CutPriority(s3) else (None, s3);
      Layout(Some(GapOf(t)), early, done, created, late, s4)
    else
      var (early, s1) := CutPriority(raw);
      var (created, s2) := CutDate(s1);
      Layout(None, early, None, created, None, s2)
  }

  lemma OpenLayout(raw: string)
    requires FirstWord(raw) != "x"
    ensures LayoutFits(LayoutOf(raw)) && LayoutText(LayoutOf(raw)) == raw
  {
    hide PriorityPart, DatePart, CutPriority, CutDate, FirstWord, GapFits, NoPriorityNext, NoDateNext;
    PriorityCut(raw);
    var (early, s1) := CutPriority(raw);
    DateCut(s1);
    Tails(LayoutOf(raw));
    NoLate(LayoutOf(raw));
  }

  lemma MarkCut(raw: string)
    requires FirstWord(raw) == "x"
    ensures raw != "" && raw == "x" + (GapOf(raw[1..]) + AfterGap(raw[1..])) && GapFits(GapOf(raw[1..]), AfterGap(raw[1..]))
  {
    hide RunLen, FirstWord, GapOf, AfterGap;
    FirstWordSplits(raw);
    GapIsGap(raw[1..]);
    assert raw == "x" + raw[1..];
  }

  lemma MarkedLayout(raw: string)
    requires FirstWord(raw) == "x"
    ensures LayoutFits(LayoutOf(raw)) && LayoutText(LayoutOf(raw)) == raw
  {
    hide PriorityPart, DatePart, CutPriority, CutDate, FirstWord, GapFits, NoPriorityNext, NoDateNext, GapOf, AfterGap;
    MarkCut(raw);
    var s := AfterGap(raw[1..]);
    PriorityCut(s);
    var (early, s1) := CutPriority(s);
    DateCut(s1);
    var (done, s2) := CutDate(s1);
    if done.Some? {
      DateCut(s2);
      var (created, s3) := CutDate(s2);
      PriorityCut(s3);
    }
    Tails(LayoutOf(raw));
    NoLate(LayoutOf(raw));
  }

  /** Any line has a layout. */
  lemma EveryLineIsLaidOut(raw: string)
    ensures LayoutFits(LayoutOf(raw)) && LayoutText(LayoutOf(raw)) == raw
  {
    if FirstWord(raw) == "x" {
      MarkedLayout(raw);
    } else {
      OpenLayout(raw);
    }
  }

  /**
   Lenient reading of any line: the task is `t` and the quirks are `q` exactly when the line is laid out in
   pieces that make that task and call for those quirks.
   */
  lemma LenientReads(raw: string, t: Task, q: set<Quirk>)
    requires raw != ""
    ensures ParseLine(raw, Lenient) == Ok(Line(TaskLine(t), q)) <==>
              exists l :: LayoutFits(l) && LayoutText(l) == raw && LayoutTask(l) == t && LayoutQuirks(l) == q
  {
    hide ParseLine, LayoutFits, LayoutText, LayoutTask, LayoutQuirks, LayoutOf;
    EveryLineIsLaidOut(raw);
    PiecesRead(LayoutOf(raw));
    if l :| LayoutFits(l) && LayoutText(l) == raw && LayoutTask(l) == t && LayoutQuirks(l) == q {
      PiecesRead(l);
    }
  }
}

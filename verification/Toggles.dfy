/**
 Toggling a line twice: completed and reopened by the prompt bar, an open line comes back under an exact
 condition, whatever the day.
 */
module Toggles {
  import opened Wrappers
  import opened Scanner
  import opened Words
  import opened Dates
  import opened TodoLine
  import opened TodoEdit
  import opened Grammar
  import opened Completion
  import opened Chips

  // ---- the words between single spaces ----

  predicate NoSpace(w: string) {
    ' ' !in w
  }

  ghost predicate SpaceFree(words: seq<string>) {
    forall i :: 0 <= i < |words| ==> NoSpace(words[i])
  }

  /** The words of a description; none when it is empty. */
  function WordsOf(d: string): seq<string> {
    if d == "" then [] else SplitWords(d)
  }

  lemma {:induction false} SplitIsSpaceFree(s: string)
    ensures SpaceFree(SplitWords(s))
  {
    if s != "" {
      SplitIsSpaceFree(s[1..]);
    }
  }

  lemma {:induction false} SplitOneWord(w: string)
    requires NoSpace(w)
    ensures SplitWords(w) == [w]
  {
    if w != "" {
      assert w[0] in w && forall c :: c in w[1..] ==> c in w;
      SplitOneWord(w[1..]);
      assert w == [w[0]] + w[1..];
    }
  }

  lemma {:induction false} SplitAppend(d: string, w: string)
    requires NoSpace(w)
    ensures SplitWords(d + " " + w) == SplitWords(d) + [w]
  {
    var s := d + " " + w;
    if d == "" {
      SplitOneWord(w);
      assert s[1..] == w;
    } else {
      SplitAppend(d[1..], w);
      assert s[1..] == d[1..] + " " + w;
    }
  }

  lemma {:induction false} SplitJoined(words: seq<string>)
    requires words != [] && SpaceFree(words)
    ensures SplitWords(JoinWords(words)) == words
  {
    if |words| == 1 {
      SplitOneWord(words[0]);
    } else {
      SplitJoined(words[1..]);
      SplitPrepend(words[0], JoinWords(words[1..]));
    }
  }

  lemma {:induction false} SplitPrepend(w: string, s: string)
    requires NoSpace(w)
    ensures SplitWords(w + " " + s) == [w] + SplitWords(s)
  {
    var t := w + " " + s;
    if w == "" {
      assert t[1..] == s;
    } else {
      assert w[0] in w && forall c :: c in w[1..] ==> c in w;
      SplitPrepend(w[1..], s);
      assert t[1..] == w[1..] + " " + s && t[0] == w[0];
      assert ([w[1..]] + SplitWords(s))[1..] == SplitWords(s) && [w[0]] + w[1..] == w;
    }
  }

  lemma WordsOfTagged(d: string, p: Priority)
    ensures WordsOf(AppendTo(d, PriWord(p))) == WordsOf(d) + [PriWord(p)]
  {
    hide SplitWords;
    SplitOneWord(PriWord(p));
    SplitAppend(d, PriWord(p));
    assert [] + [PriWord(p)] == [PriWord(p)] && "" + PriWord(p) == PriWord(p);
  }

  // ---- the toggled line read back ----

  /** The description a toggled line has: its priority at the end as a tag. */
  function Tagged(d: string, p: Option<Priority>): string {
    if p.Some? then AppendTo(d, PriWord(p.value)) else d
  }

  lemma SplitShaped(c: string, d: string)
    requires HasDateShape(c)
    ensures SplitDate(c + Sep(d) + d) == Some((c, d))
  {
    hide HasDateShape;
    var s := c + Sep(d) + d;
    assert |c| == 10 by { ShapeIsTen(c); }
    assert s[..10] == c;
    if d != "" {
      assert s[10] == ' ' && s[11..] == d;
    } else {
      assert s == c;
    }
  }

  lemma ShapeIsTen(c: string)
    requires HasDateShape(c)
    ensures |c| == 10
  {
  }

  /** A tag at the end makes no date of what was none. */
  lemma TaggedIsNoDate(d: string, p: Option<Priority>)
    requires SplitDate(d).None?
    ensures SplitDate(Tagged(d, p)).None?
  {
    if p.Some? && d != "" {
      var s := d + " " + PriWord(p.value);
      if |d| >= 10 {
        assert s[..10] == d[..10];
        assert |d| > 10 ==> s[10] == d[10];
      } else if |s| >= 10 {
        assert s[..10][|d|] == s[|d|] == ' ';
      }
    }
  }

  lemma SplitToggled(today: Date, c: Option<string>, d: string, p: Option<Priority>)
    requires if c.Some? then HasDateShape(c.value) else SplitDate(d).None?
    ensures SplitCompleted(Toggled(today, c, d, p)) == Some((c, Tagged(d, p)))
  {
    hide ShowDate, HasDateShape, SplitDate, PriWord, Tagged;
    if p.Some? {
      ToggledTag(today, c, d, p.value);
    }
    var d' := Tagged(d, p);
    assert Toggled(today, c, d, p) == Toggled(today, c, d', None) by { TaggedText(today, c, d, p); }
    var rest := if c.Some? then c.value + Sep(d') + d' else d';
    if c.Some? {
      ShapeIsTen(c.value);
    }
    ToggledAsDates(today, c, d', rest);
    DateHasShape(today);
    SplitShaped(ShowDate(today), rest);
    if c.Some? {
      SplitShaped(c.value, d');
    } else {
      TaggedIsNoDate(d, p);
    }
    assert ("x " + (ShowDate(today) + Sep(rest) + rest))[2..] == ShowDate(today) + Sep(rest) + rest;
  }

  lemma TaggedText(today: Date, c: Option<string>, d: string, p: Option<Priority>)
    ensures Toggled(today, c, d, p) == Toggled(today, c, Tagged(d, p), None)
  {
    hide ShowDate, PriWord;
    if p.Some? {
      ToggledTag(today, c, d, p.value);
    }
  }

  lemma DateHasShape(d: Date)
    ensures HasDateShape(ShowDate(d))
  {
  }

  lemma ToggledAsDates(today: Date, c: Option<string>, d: string, rest: string)
    requires rest == if c.Some? then c.value + Sep(d) + d else d
    requires c.Some? ==> c.value != ""
    ensures Toggled(today, c, d, None) == "x " + (ShowDate(today) + Sep(rest) + rest)
  {
    hide ShowDate;
    var date := ShowDate(today);
    if c.Some? {
      assert "x " + date + (" " + c.value) + Sep(d) + d + "" == "x " + (date + " " + (c.value + Sep(d) + d));
    } else {
      assert "x " + date + "" + Sep(d) + d + "" == "x " + (date + Sep(d) + d);
    }
  }

  // ---- the reopened line ----

  /** A priority, a creation date and words, as a line. */
  function WordLine(p: Option<Priority>, c: Option<string>, words: seq<string>): string {
    JoinWords((if p.Some? then [ShowPriority(p.value)] else []) + OptionalPart(c) + (if words != [] then [JoinWords(words)] else []))
  }

  /** The words without their first tag, and the letter of it. */
  function Untagged(words: seq<string>): (Option<Priority>, seq<string>) {
    var at := FirstPriTag(words);
    if at < |words| then (Some(words[at][4]), words[..at] + words[at + 1..]) else (None, words)
  }

  lemma ReopenIsLine(c: Option<string>, d: string)
    ensures var (p, kept) := Untagged(WordsOf(d)); Reopen(c, d) == WordLine(p, c, kept)
  {
    hide SplitWords, FirstPriTag, ShowPriority, JoinWords, IsPriTag;
  }

  /** An open task that is not glued, as its words. */
  lemma OpenIsLine(raw: string, t: Task)
    requires OpenTask(raw, t)
    ensures raw == WordLine(t.priority, CreatedText(t), WordsOf(t.description))
  {
    hide SplitWords, ShowPriority, ShowDate, EmitPrefix, WellSpaced, Fits, JoinWords;
    PrintedIsEmitted(PrefixOf(t), t.description);
    var c, words := CreatedText(t), WordsOf(t.description);
    if words != [] {
      JoinSplitWords(t.description);
    }
    var last := if words != [] then [JoinWords(words)] else [];
    LastIsDescription(t.description);
    if t.priority.Some? {
      var p := ShowPriority(t.priority.value);
      JoinIsTail(p, OptionalPart(c) + last);
      TailConcat(OptionalPart(c), last);
      TailOptional(c);
      assert [p] + OptionalPart(c) + last == [p] + (OptionalPart(c) + last);
    } else if c.Some? {
      JoinIsTail(c.value, last);
      assert [] + OptionalPart(c) + last == [c.value] + last;
    } else {
      JoinNothing();
      JoinIsTail(JoinWords(words), []);
      assert [] + OptionalPart(c) + last == last;
      assert [JoinWords(words)] + [] == [JoinWords(words)];
    }
  }

  function CreatedText(t: Task): Option<string> {
    if t.creationDate.Some? then Some(ShowDate(t.creationDate.value)) else None
  }

  lemma LastIsDescription(d: string)
    ensures JoinTail(if WordsOf(d) != [] then [JoinWords(WordsOf(d))] else []) == Sep(d) + d
    ensures WordsOf(d) == [] <==> d == ""
  {
    hide SplitWords, JoinWords;
    JoinNothing();
    if d != "" {
      JoinSplitWords(d);
      TailOne(d);
    }
  }

  /** A line with a priority: the priority, and everything after it. */
  lemma PriorityLine(p: Priority, c: Option<string>, words: seq<string>)
    ensures WordLine(Some(p), c, words) == ShowPriority(p) + (JoinTail(OptionalPart(c)) + JoinTail(if words != [] then [JoinWords(words)] else []))
  {
    hide ShowPriority, JoinWords;
    var last := if words != [] then [JoinWords(words)] else [];
    JoinIsTail(ShowPriority(p), OptionalPart(c) + last);
    TailConcat(OptionalPart(c), last);
    assert [ShowPriority(p)] + OptionalPart(c) + last == [ShowPriority(p)] + (OptionalPart(c) + last);
  }

  lemma LastIsWords(a: seq<string>, b: seq<string>)
    requires SpaceFree(a) && SpaceFree(b)
    requires JoinTail(if a != [] then [JoinWords(a)] else []) == JoinTail(if b != [] then [JoinWords(b)] else [])
    ensures a == b
  {
    hide JoinWords, SplitWords, NoSpace;
    JoinNothing();
    if a != [] {
      TailOne(JoinWords(a));
      SplitJoined(a);
    }
    if b != [] {
      TailOne(JoinWords(b));
      SplitJoined(b);
    }
    if a != [] && b != [] {
      assert (" " + JoinWords(a))[1..] == JoinWords(a) && (" " + JoinWords(b))[1..] == JoinWords(b);
    }
  }

  /** Lines with a priority are told apart by it and by their words. */
  lemma PriorityLinesDiffer(p: Priority, q: Priority, c: Option<string>, a: seq<string>, b: seq<string>)
    requires SpaceFree(a) && SpaceFree(b)
    ensures WordLine(Some(p), c, a) == WordLine(Some(q), c, b) <==> p == q && a == b
  {
    hide WordLine, JoinWords, JoinTail, SpaceFree;
    PriorityLine(p, c, a);
    PriorityLine(q, c, b);
    if WordLine(Some(p), c, a) == WordLine(Some(q), c, b) {
      var x := JoinTail(OptionalPart(c)) + JoinTail(if a != [] then [JoinWords(a)] else []);
      var y := JoinTail(OptionalPart(c)) + JoinTail(if b != [] then [JoinWords(b)] else []);
      assert (ShowPriority(p) + x)[1] == p && (ShowPriority(q) + y)[1] == q;
      assert (ShowPriority(p) + x)[3..] == x && (ShowPriority(q) + y)[3..] == y;
      var n := |JoinTail(OptionalPart(c))|;
      assert x[n..] == y[n..];
      LastIsWords(a, b);
    }
  }

  /** A line with a priority starts with its word. */
  lemma PriorityLineStarts(p: Priority, c: Option<string>, words: seq<string>)
    ensures IsPriorityWord(FirstWord(WordLine(Some(p), c, words)))
    ensures var s := WordLine(Some(p), c, words); |s| == 3 || (|s| > 3 && s[3] == ' ')
  {
    hide WordLine, FirstWord;
    PriorityLine(p, c, words);
    var rest := JoinTail(OptionalPart(c)) + JoinTail(if words != [] then [JoinWords(words)] else []);
    assert rest == "" || rest[0] == ' ';
    assert IsPriorityWord(ShowPriority(p)) && NoWs(ShowPriority(p));
    WordThen(ShowPriority(p), rest);
  }

  // ---- there and back ----

  /** Every word from the first `pri:P` word on is the tag of this priority. */
  predicate SameTags(words: seq<string>, p: Priority) {
    forall i :: FirstPriTag(words) <= i < |words| ==> words[i] == PriWord(p)
  }

  lemma {:induction false} TagBeforeEnd(words: seq<string>, w: string)
    requires IsPriTag(w)
    ensures FirstPriTag(words + [w]) == FirstPriTag(words)
  {
    hide IsPriTag;
    if words != [] && !IsPriTag(words[0]) {
      TagBeforeEnd(words[1..], w);
      assert (words + [w])[1..] == words[1..] + [w];
    }
  }

  lemma {:induction false} ShiftedSame(words: seq<string>, kept: seq<string>, at: nat, w: string, i: nat)
    requires at <= i < |words| == |kept| && kept == words
    requires forall j :: at <= j < |words| ==> kept[j] == if j + 1 < |words| then words[j + 1] else w
    ensures words[i] == w
    decreases |words| - i
  {
    if i + 1 < |words| {
      ShiftedSame(words, kept, at, w, i + 1);
    }
  }

  /** With the tag of its own priority at the end, the words come back if and only if the tags before it are the same. */
  lemma UntaggedSame(words: seq<string>, p: Priority)
    ensures var (q, kept) := Untagged(words + [PriWord(p)]);
            q.Some? && (q == Some(p) && kept == words <==> SameTags(words, p))
  {
    hide FirstPriTag;
    var w := PriWord(p);
    var all, at := words + [w], FirstPriTag(words);
    TagBeforeEnd(words, w);
    var kept := all[..at] + all[at + 1..];
    assert all[at][4] == if at < |words| then words[at][4] else p;
    forall j: nat | at <= j < |words| ensures kept[j] == if j + 1 < |words| then words[j + 1] else w {
      assert kept[j] == all[j + 1];
    }
    if kept == words {
      forall i: nat | at <= i < |words| ensures words[i] == w {
        ShiftedSame(words, kept, at, w, i);
      }
    }
    SameTagsStay(words, kept, p);
  }

  lemma SameTagsStay(words: seq<string>, kept: seq<string>, p: Priority)
    requires |kept| == |words| && kept[..FirstPriTag(words)] == words[..FirstPriTag(words)]
    requires forall j :: FirstPriTag(words) <= j < |words| ==> kept[j] == if j + 1 < |words| then words[j + 1] else PriWord(p)
    ensures SameTags(words, p) ==> kept == words
  {
    hide FirstPriTag;
    var at := FirstPriTag(words);
    assert forall j :: 0 <= j < at ==> kept[j] == kept[..at][j] && words[j] == words[..at][j];
  }

  lemma UntaggedIsSpaceFree(words: seq<string>)
    requires SpaceFree(words)
    ensures SpaceFree(Untagged(words).1)
  {
    hide NoSpace, FirstPriTag;
  }

  lemma WordsAreSpaceFree(d: string)
    ensures SpaceFree(WordsOf(d))
  {
    hide SplitWords;
    SplitIsSpaceFree(d);
  }

  /** An open task's tags survive being completed and reopened by the prompt bar. */
  predicate TagsComeBack(t: Task) {
    var words := WordsOf(t.description);
    if t.priority.Some? then SameTags(words, t.priority.value) else FirstPriTag(words) == |words|
  }

  lemma CreatedHasShape(t: Task)
    requires Fits(Strict, PrefixOf(t), t.description) && !t.completed
    ensures if CreatedText(t).Some? then HasDateShape(CreatedText(t).value) else SplitDate(t.description).None?
  {
    hide HasDateShape, SplitDate, ShowDate, ParseDate, FirstWord, StartsCompleted;
    DatedSplits(t);
    if t.creationDate.Some? {
      DateHasShape(t.creationDate.value);
    }
  }

  lemma OpenTogglesBack(raw: string, t: Task, today: Date)
    requires OpenTask(raw, t) && SplitCompleted(raw).None? && !GluedPriority(raw)
    ensures ToggleCompleteText(ToggleCompleteText(raw, ShowDate(today)), ShowDate(today)) == raw <==> TagsComeBack(t)
  {
    hide ToggleCompleteText, GluedPriority, ShowDate, SplitCompleted, WordLine, Untagged, Toggled, EmitPrefix, WellSpaced, FirstWord;
    hide Reopen, Fits, CreatedText, WordsOf, Tagged, SameTags, SplitDate, HasDateShape;
    var c, words := CreatedText(t), WordsOf(t.description);
    ToggleOpen(raw, t, today);
    CreatedHasShape(t);
    CreatedIsText(t);
    SplitToggled(today, c, t.description, t.priority);
    Reopened(today, c, t.description, t.priority);
    OpenIsLine(raw, t);
    WordsAreSpaceFree(t.description);
    if t.priority.Some? {
      var p := t.priority.value;
      UntaggedSame(words, p);
      var (q, kept) := Untagged(words + [PriWord(p)]);
      TaggedAreSpaceFree(words, p);
      UntaggedIsSpaceFree(words + [PriWord(p)]);
      PriorityLinesDiffer(q.value, p, c, kept, words);
    } else {
      NoTagsKept(words);
      if FirstPriTag(words) < |words| {
        var (q, kept) := Untagged(words);
        PriorityLineStarts(q.value, c, kept);
        OpenIsNoPriority(raw, t);
      }
    }
  }

  lemma CreatedIsText(t: Task)
    ensures CreatedText(t) == if t.creationDate.Some? then Some(ShowDate(t.creationDate.value)) else None
  {
  }

  lemma TaggedAreSpaceFree(words: seq<string>, p: Priority)
    requires SpaceFree(words)
    ensures SpaceFree(words + [PriWord(p)])
  {
    assert NoSpace(PriWord(p));
  }

  lemma NoTagsKept(words: seq<string>)
    ensures FirstPriTag(words) == |words| ==> Untagged(words) == (None, words)
    ensures FirstPriTag(words) < |words| ==> Untagged(words).0.Some?
  {
    hide FirstPriTag;
  }

  /** A completed line as the toggle wrote it, reopened. */
  lemma Reopened(today: Date, c: Option<string>, d: string, p: Option<Priority>)
    requires SplitCompleted(Toggled(today, c, d, p)) == Some((c, Tagged(d, p)))
    ensures var words := if p.Some? then WordsOf(d) + [PriWord(p.value)] else WordsOf(d);
            var (q, kept) := Untagged(words);
            ToggleCompleteText(Toggled(today, c, d, p), ShowDate(today)) == WordLine(q, c, kept)
  {
    hide ShowDate, SplitCompleted, WordLine, Untagged, Toggled, Reopen, WordsOf, PriWord;
    if p.Some? {
      WordsOfTagged(d, p.value);
    }
    ReopenIsLine(c, Tagged(d, p));
  }

  lemma OpenIsNoPriority(raw: string, t: Task)
    requires OpenTask(raw, t) && t.priority.None?
    ensures !IsPriorityWord(FirstWord(raw))
  {
    hide FirstWord, EmitPrefix, ShowDate, Printed, HasDateShape, IsPriorityWord;
    PrintedIsEmitted(PrefixOf(t), t.description);
    FitsAtWord(Strict, PrefixOf(t), t.description);
    PrintedFirstWord(PrefixOf(t), t.description);
    ShapeIsNoPriority(FirstWord(raw));
    if t.creationDate.None? {
      OpenWordIsNoPriority(t);
    }
  }

  /** Text glued to a priority comes back apart from it. */
  lemma GluedComesApart(raw: string, today: Date)
    requires GluedPriority(raw)
    ensures ToggleCompleteText(ToggleCompleteText(raw, ShowDate(today)), ShowDate(today)) != raw
  {
    hide ToggleCompleteText, ShowDate, WordLine, Untagged, Toggled, FirstWord, Reopen, WordsOf, Tagged, SplitDate, HasDateShape;
    assert SplitCompleted(raw).None?;
    ToggleText(raw, today);
    var p, rest: string := raw[1], raw[3..];
    assert StripPriority(raw) == Some((p, rest));
    var split := SplitDate(rest);
    var (c, d) := if split.Some? then (Some(split.value.0), split.value.1) else (None, rest);
    SplitHasShape(rest);
    SplitToggled(today, c, d, Some(p));
    Reopened(today, c, d, Some(p));
    UntaggedSame(WordsOf(d), p);
    var (q, kept) := Untagged(WordsOf(d) + [PriWord(p)]);
    PriorityLineStarts(q.value, c, kept);
  }

  lemma SplitHasShape(s: string)
    ensures SplitDate(s).Some? ==> HasDateShape(SplitDate(s).value.0)
  {
    if |s| == 10 {
      assert s[..10] == s;
    }
  }

  /** A line that looks completed to the prompt bar, but is not, loses its mark and its date for good. */
  lemma FakeMarkIsLost(raw: string, t: Task, today: Date)
    requires OpenTask(raw, t) && SplitCompleted(raw).Some?
    ensures ToggleCompleteText(ToggleCompleteText(raw, ShowDate(today)), ShowDate(today)) != raw
  {
    hide ShowDate, Reopen, Toggled, StripPriority, SplitCompleted, EmitPrefix, WellSpaced, Fits, SplitDate;
    var (c, d) := SplitCompleted(raw).value;
    SplitCreated(raw);
    ReopenIsNotMarked(c, d);
    MarkedX(raw);
    var once := Reopen(c, d);
    if SplitCompleted(once).Some? {
      MarkedX(once);
      var (c', d') := SplitCompleted(once).value;
      SplitCreated(once);
      ReopenIsNotMarked(c', d');
    } else {
      ToggleText(once, today);
      FakeDate(raw, t, today);
      ToggledHead(once, today);
    }
  }

  lemma MarkedX(raw: string)
    requires SplitCompleted(raw).Some?
    ensures raw != "" && raw[0] == 'x'
  {
  }

  /** The date of such a line is no day, so it is not today. */
  lemma FakeDate(raw: string, t: Task, today: Date)
    requires OpenTask(raw, t) && SplitCompleted(raw).Some?
    ensures |raw| >= 12 && raw[2..12] != ShowDate(today)
  {
    hide OpenTask, SplitCompleted, ParseDate, ShowDate, FirstWord, StartsCompleted;
    MarkedDate(raw);
    if raw[2..12] == ShowDate(today) {
      ParseShow(today);
      DateStarts(raw, raw[2..]);
      OpenIsNotMarked(raw, t);
    }
  }

  lemma MarkedDate(raw: string)
    requires SplitCompleted(raw).Some?
    ensures |raw| >= 12 && raw == "x " + raw[2..] && raw[2..] != "" && !IsWs(raw[2])
    ensures FirstWord(raw[2..]) == raw[2..12]
  {
    hide FirstWord, HasDateShape;
    var rest := raw[2..];
    assert rest[..10] == raw[2..12];
    ShapeIsFirst(rest);
    ShapeIsWord(rest[..10]);
    assert rest[..10][0] == rest[0] == raw[2];
  }

  lemma DateStarts(raw: string, rest: string)
    requires raw == "x " + rest && rest != "" && !IsWs(rest[0]) && ParseDate(FirstWord(rest)).Some?
    ensures StartsCompleted(Strict, raw)
  {
    hide ParseDate, RunLen, FirstWord;
    assert raw == "x" + (" " + rest);
    XIsWord();
    WordThen("x", " " + rest);
    SpaceThen(rest);
    assert raw[1..] == " " + rest && (" " + rest)[..1] == " ";
  }

  lemma OpenIsNotMarked(raw: string, t: Task)
    requires OpenTask(raw, t)
    ensures !StartsCompleted(Strict, raw)
  {
    hide StartsCompleted, EmitPrefix, WellSpaced, FirstWord, ParseDate, HasDateShape;
    PrintedIsEmitted(PrefixOf(t), t.description);
  }

  lemma ToggledHead(once: string, today: Date)
    requires SplitCompleted(once).None?
    ensures var twice := ToggleCompleteText(once, ShowDate(today)); |twice| >= 12 && twice[2..12] == ShowDate(today)
  {
    hide ShowDate, StripPriority, SplitDate, SplitCompleted, ToggleCompleteText;
    ToggleText(once, today);
  }

  /**
   Completing an open line and reopening it from the prompt bar gives it back if and only if it does not
   start like a completed line, no text is glued to a priority, and its tags come back: with no priority it
   has no `pri:P` word, with one every word from its first such word on is that priority's own tag.
   */
  lemma ToggleTwice(raw: string, t: Task, today: Date)
    requires OpenTask(raw, t)
    ensures ToggleCompleteText(ToggleCompleteText(raw, ShowDate(today)), ShowDate(today)) == raw <==>
              SplitCompleted(raw).None? && !GluedPriority(raw) && TagsComeBack(t)
  {
    hide ToggleCompleteText, SplitCompleted, GluedPriority, TagsComeBack, OpenTask, ShowDate;
    if SplitCompleted(raw).Some? {
      FakeMarkIsLost(raw, t, today);
    } else if GluedPriority(raw) {
      GluedComesApart(raw, today);
    } else {
      OpenTogglesBack(raw, t, today);
    }
  }
}

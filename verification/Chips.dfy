/**
 The prompt bar's own completion, plain text in and plain text out: a second implementation of
 completing a line, and exactly when it agrees with the editor.
 */
module Chips {
  import opened Wrappers
  import opened Scanner
  import opened Words
  import opened Dates
  import opened TodoLine
  import opened TodoEdit
  import opened Grammar
  import opened Completion

  /** A priority word the line opens with, taken off with at most one space after it; nothing when it opens with none. */
  function StripPriority(raw: string): Option<(Priority, string)> {
    if |raw| < 3 || !IsPriorityWord(raw[..3]) then None else
    var rest := raw[3..];
    Some((raw[1], if rest != "" && rest[0] == ' ' then rest[1..] else rest))
  }

  /** Ten characters shaped like a date, valid day or not, and what a space sets apart from them. */
  function SplitDate(s: string): Option<(string, string)> {
    if |s| < 10 || !HasDateShape(s[..10]) then None
    else if |s| == 10 then Some((s, ""))
    else if s[10] == ' ' then Some((s[..10], s[11..]))
    else None
  }

  /** A line that looks completed to the prompt bar, taken apart: the second date, if it has one, and the text after the dates. */
  function SplitCompleted(raw: string): Option<(Option<string>, string)> {
    if !("x " <= raw) then None else
    match SplitDate(raw[2..])
    case None => None
    case Some((_, rest)) =>
      match SplitDate(rest)
      case Some((created, description)) => Some((Some(created), description))
      case None => Some((None, rest))
  }

  function JoinWords(parts: seq<string>): string {
    if parts == [] then "" else if |parts| == 1 then parts[0] else parts[0] + " " + JoinWords(parts[1..])
  }

  /** The pieces between single spaces. */
  function SplitWords(s: string): (r: seq<string>)
    ensures |r| > 0
  {
    if s == "" then [""] else
    var r := SplitWords(s[1..]);
    if s[0] == ' ' then [""] + r else [[s[0]] + r[0]] + r[1..]
  }

  predicate IsPriTag(w: string) {
    |w| == 5 && w[..4] == "pri:" && IsPriorityLetter(w[4])
  }

  /** The position of the first `pri:P` word, or the length. */
  function FirstPriTag(words: seq<string>): (r: nat)
    ensures r <= |words| && (r < |words| ==> IsPriTag(words[r]))
    ensures forall i :: 0 <= i < r ==> !IsPriTag(words[i])
  {
    if words == [] || IsPriTag(words[0]) then 0 else 1 + FirstPriTag(words[1..])
  }

  function OptionalPart(part: Option<string>): seq<string> {
    if part.Some? then [part.value] else []
  }

  /** The reopen half: the first `pri:P` word goes back to the front as a priority. */
  function Reopen(created: Option<string>, description: string): string {
    var words := if description == "" then [] else SplitWords(description);
    var at := FirstPriTag(words);
    var kept := if at < |words| then words[..at] + words[at + 1..] else words;
    JoinWords((if at < |words| then [ShowPriority(words[at][4])] else [])
              + OptionalPart(created)
              + (if kept != [] then [JoinWords(kept)] else []))
  }

  /** Completes `raw`, or reopens a completed line. */
  function ToggleCompleteText(raw: string, today: string): string {
    match SplitCompleted(raw)
    case Some((created, description)) => Reopen(created, description)
    case None =>
      var (priority, rest) := match StripPriority(raw)
        case Some((p, rest)) => (Some(PriWord(p)), rest)
        case None => (None, raw);
      var (created, description) := match SplitDate(rest)
        case Some((date, description)) => (Some(date), description)
        case None => (None, rest);
      JoinWords(["x", today] + OptionalPart(created) + (if description != "" then [description] else []) + OptionalPart(priority))
  }

  /** Filters the words once: the first `pri:P` goes, and its letter is remembered. */
  method ReopenWords(created: Option<string>, description: string) returns (r: string)
    ensures r == Reopen(created, description)
  {
    hide SplitWords, JoinWords, FirstPriTag;
    var words := if description == "" then [] else SplitWords(description);
    ghost var at := FirstPriTag(words);
    var priority: Option<char>, kept: seq<string> := None, [];
    for i := 0 to |words|
      invariant i <= at ==> priority == None && kept == words[..i]
      invariant i > at ==> priority == Some(words[at][4]) && kept == words[..at] + words[at + 1..i]
    {
      if priority.None? && IsPriTag(words[i]) {
        priority := Some(words[i][4]);
      } else {
        kept := kept + [words[i]];
      }
    }
    var parts: seq<string> := [];
    if priority.Some? {
      parts := parts + [ShowPriority(priority.value)];
    }
    if created.Some? {
      parts := parts + [created.value];
    }
    if kept != [] {
      parts := parts + [JoinWords(kept)];
    }
    assert kept == if at < |words| then words[..at] + words[at + 1..] else words;
    assert parts == (if at < |words| then [ShowPriority(words[at][4])] else []) + OptionalPart(created)
                    + (if kept != [] then [JoinWords(kept)] else []);
    r := JoinWords(parts);
  }

  method ToggleComplete(raw: string, today: string) returns (r: string)
    ensures r == ToggleCompleteText(raw, today)
  {
    hide SplitCompleted, StripPriority, SplitDate, JoinWords, Reopen;
    var completed := SplitCompleted(raw);
    if completed.Some? {
      r := ReopenWords(completed.value.0, completed.value.1);
      return;
    }
    var priority: Option<Priority>, rest := None, raw;
    var stripped := StripPriority(raw);
    if stripped.Some? {
      priority, rest := Some(stripped.value.0), stripped.value.1;
    }
    var created: Option<string>, description := None, rest;
    var dated := SplitDate(rest);
    if dated.Some? {
      created, description := Some(dated.value.0), dated.value.1;
    }
    var parts := ["x", today];
    if created.Some? {
      parts := parts + [created.value];
    }
    if description != "" {
      parts := parts + [description];
    }
    if priority.Some? {
      parts := parts + [PriWord(priority.value)];
    }
    assert parts == ["x", today] + OptionalPart(created) + (if description != "" then [description] else [])
                    + OptionalPart(if priority.Some? then Some(PriWord(priority.value)) else None);
    r := JoinWords(parts);
  }

  // ---- agreement with the editor ----

  /** A priority at the very start with more text glued to it. */
  predicate GluedPriority(raw: string) {
    |raw| > 3 && IsPriorityWord(raw[..3]) && raw[3] != ' '
  }

  /** What the toggle writes for a line it completes. */
  function Toggled(today: Date, created: Option<string>, description: string, priority: Option<Priority>): string {
    "x " + ShowDate(today)
    + (if created.Some? then " " + created.value else "")
    + Sep(description) + description
    + (if priority.Some? then " " + PriWord(priority.value) else "")
  }

  /** Parts, each after a space. */
  function JoinTail(parts: seq<string>): string {
    if parts == [] then "" else " " + parts[0] + JoinTail(parts[1..])
  }

  lemma {:induction false} JoinIsTail(first: string, parts: seq<string>)
    ensures JoinWords([first] + parts) == first + JoinTail(parts)
    decreases |parts|
  {
    assert ([first] + parts)[1..] == parts;
    if parts != [] {
      JoinIsTail(parts[0], parts[1..]);
      assert [parts[0]] + parts[1..] == parts;
    }
  }

  lemma {:induction false} TailConcat(a: seq<string>, b: seq<string>)
    ensures JoinTail(a + b) == JoinTail(a) + JoinTail(b)
    decreases |a|
  {
    if a == [] {
      assert a + b == b;
    } else {
      assert (a + b)[1..] == a[1..] + b;
      TailConcat(a[1..], b);
    }
  }

  lemma TailOne(part: string)
    ensures JoinTail([part]) == " " + part
  {
    assert JoinTail([part][1..]) == "";
  }

  lemma JoinParts(a: string, c: seq<string>, d: seq<string>, p: seq<string>)
    ensures JoinWords(["x", a] + c + d + p) == "x" + (" " + a + JoinTail(c) + JoinTail(d) + JoinTail(p))
  {
    hide JoinWords, JoinTail;
    JoinIsTail("x", [a] + c + d + p);
    assert ["x"] + ([a] + c + d + p) == ["x", a] + c + d + p;
    TailConcat([a] + c + d, p);
    TailConcat([a] + c, d);
    TailConcat([a], c);
    TailOne(a);
  }

  lemma ToggledText(today: Date, created: Option<string>, description: string, priority: Option<Priority>)
    ensures JoinWords(["x", ShowDate(today)] + OptionalPart(created) + (if description != "" then [description] else [])
                      + OptionalPart(if priority.Some? then Some(PriWord(priority.value)) else None))
         == Toggled(today, created, description, priority)
  {
    hide ShowDate, JoinWords, JoinTail, PriWord, OptionalPart;
    var pri := if priority.Some? then Some(PriWord(priority.value)) else None;
    JoinParts(ShowDate(today), OptionalPart(created), if description != "" then [description] else [], OptionalPart(pri));
    TailOptional(created);
    TailOptional(pri);
    TailDescription(description);
    Regroup(ShowDate(today), if created.Some? then " " + created.value else "", Sep(description), description,
            if pri.Some? then " " + pri.value else "");
  }

  lemma TailOptional(part: Option<string>)
    ensures JoinTail(OptionalPart(part)) == if part.Some? then " " + part.value else ""
  {
    TailOne(if part.Some? then part.value else "");
  }

  lemma TailDescription(description: string)
    ensures JoinTail(if description != "" then [description] else []) == Sep(description) + description
  {
    TailOne(description);
  }

  lemma Regroup(a: string, c: string, s: string, d: string, p: string)
    ensures "x" + (" " + a + c + (s + d) + p) == "x " + a + c + s + d + p
  {
  }

  lemma NotAMarker(raw: string)
    requires FirstWord(raw) != "x"
    ensures SplitCompleted(raw).None?
  {
    if "x " <= raw {
      assert raw == "x" + raw[1..] && raw[1] == ' ';
      WordThen("x", raw[1..]);
    }
  }

  /** What the toggle writes for a line it completes. */
  lemma ToggleText(raw: string, today: Date)
    requires SplitCompleted(raw).None?
    ensures var stripped := StripPriority(raw);
            var (p, rest) := if stripped.Some? then (Some(stripped.value.0), stripped.value.1) else (None, raw);
            var split := SplitDate(rest);
            var (created, desc) := if split.Some? then (Some(split.value.0), split.value.1) else (None, rest);
            ToggleCompleteText(raw, ShowDate(today)) == Toggled(today, created, desc, p)
  {
    hide SplitCompleted, StripPriority, SplitDate, JoinWords, ShowDate, PriWord, Toggled;
    var stripped := StripPriority(raw);
    var (p, rest) := if stripped.Some? then (Some(stripped.value.0), stripped.value.1) else (None, raw);
    var split := SplitDate(rest);
    var (created, desc) := if split.Some? then (Some(split.value.0), split.value.1) else (None, rest);
    ToggledText(today, created, desc, p);
  }

  /** A description no date slot would take is not split by shape either. */
  lemma SplitNoDate(desc: string)
    requires !HasDateShape(FirstWord(desc))
    ensures SplitDate(desc).None?
  {
    if |desc| >= 10 && HasDateShape(desc[..10]) && (|desc| == 10 || desc[10] == ' ') {
      ShapeIsFirst(desc);
    }
  }

  lemma ShapeIsFirst(s: string)
    requires |s| >= 10 && HasDateShape(s[..10]) && (|s| == 10 || s[10] == ' ')
    ensures FirstWord(s) == s[..10]
  {
    ShapeIsWord(s[..10]);
    assert s[..10] + s[10..] == s;
    WordThen(s[..10], s[10..]);
  }

  lemma ShapeIsWord(w: string)
    requires HasDateShape(w)
    ensures NoWs(w)
  {
  }

  lemma SplitDated(d: Date, desc: string)
    requires AtWord(desc)
    ensures SplitDate(ShowDate(d) + Sep(desc) + desc) == Some((ShowDate(d), desc))
  {
    hide ShowDate, HasDateShape;
    ShownDateIsWord(d);
    var s := ShowDate(d) + Sep(desc) + desc;
    assert s[..10] == ShowDate(d);
    assert desc != "" ==> s[10] == ' ' && s[11..] == desc;
    assert desc == "" ==> s == ShowDate(d);
  }

  lemma StripShown(p: Priority, rest: string)
    requires AtWord(rest)
    ensures StripPriority(ShowPriority(p) + Sep(rest) + rest) == Some((p, rest))
  {
    var raw := ShowPriority(p) + Sep(rest) + rest;
    assert raw[..3] == ShowPriority(p) && raw[3..] == Sep(rest) + rest;
  }

  /** Nothing is stripped from a line whose first word is not a priority, unless more text is glued to one. */
  lemma StripNothing(raw: string)
    requires !IsPriorityWord(FirstWord(raw)) && !GluedPriority(raw)
    ensures StripPriority(raw).None?
  {
    hide FirstWord;
    if |raw| >= 3 && IsPriorityWord(raw[..3]) {
      PriorityIsFirstWord(raw);
    }
  }

  lemma PriorityIsFirstWord(raw: string)
    requires |raw| >= 3 && IsPriorityWord(raw[..3])
    ensures GluedPriority(raw) || FirstWord(raw) == raw[..3]
  {
    hide FirstWord;
    assert raw[..3] + raw[3..] == raw;
    assert NoWs(raw[..3]);
    if !GluedPriority(raw) {
      WordThen(raw[..3], raw[3..]);
    }
  }

  lemma DatedSplits(t: Task)
    requires Fits(Strict, PrefixOf(t), t.description) && !t.completed
    ensures var rest := Dated(t.creationDate, t.description);
            && AtWord(rest)
            && SplitDate(rest) == if t.creationDate.Some? then Some((ShowDate(t.creationDate.value), t.description)) else None
  {
    hide ShowDate, HasDateShape, SplitDate, ParseDate, FirstWord, StartsCompleted;
    if t.creationDate.Some? {
      SplitDated(t.creationDate.value, t.description);
      ShownDateIsWord(t.creationDate.value);
      assert Dated(t.creationDate, t.description)[0] == ShowDate(t.creationDate.value)[0];
    } else {
      SplitNoDate(t.description);
    }
  }

  /** What the toggle writes for an open task that is not glued to a priority. */
  lemma ToggleOpen(raw: string, t: Task, today: Date)
    requires OpenTask(raw, t) && SplitCompleted(raw).None? && !GluedPriority(raw)
    ensures ToggleCompleteText(raw, ShowDate(today))
         == Toggled(today, if t.creationDate.Some? then Some(ShowDate(t.creationDate.value)) else None, t.description, t.priority)
  {
    hide ToggleCompleteText, Toggled, StripPriority, SplitDate, ShowDate, ShowPriority, FirstWord, GluedPriority, Fits, EmitPrefix;
    hide SplitCompleted;
    PrintedIsEmitted(PrefixOf(t), t.description);
    ToggleText(raw, today);
    DatedSplits(t);
    FitsAtWord(Strict, PrefixOf(t), t.description);
    var rest := Dated(t.creationDate, t.description);
    if t.priority.Some? {
      StripShown(t.priority.value, rest);
    } else {
      PrintedFirstWord(PrefixOf(t), t.description);
      ShapeIsNoPriority(FirstWord(raw));
      if t.creationDate.None? {
        OpenWordIsNoPriority(t);
      }
      StripNothing(raw);
    }
  }

  lemma OpenWordIsNoPriority(t: Task)
    requires Fits(Strict, PrefixOf(t), t.description) && !t.completed && t.priority.None? && t.creationDate.None?
    ensures !IsPriorityWord(FirstWord(t.description))
  {
  }

  lemma PrintedDone(t: Task, today: Date, desc: string)
    ensures Printed(DonePrefix(t, today), desc)
         == Toggled(today, if t.creationDate.Some? then Some(ShowDate(t.creationDate.value)) else None, desc, None)
  {
    hide ShowDate;
  }

  lemma ToggledTag(today: Date, created: Option<string>, desc: string, p: Priority)
    ensures Toggled(today, created, desc, Some(p)) == Toggled(today, created, AppendTo(desc, PriWord(p)), None)
  {
    hide ShowDate;
  }

  lemma ToggledLength(today: Date, created: Option<string>, desc: string, p: Option<Priority>)
    ensures |Toggled(today, created, desc, p)|
         == 12 + (if created.Some? then 1 + |created.value| else 0) + (if desc == "" then 0 else 1 + |desc|) + (if p.Some? then 6 else 0)
  {
    hide ShowDate;
  }

  /** For an open task that is not glued: the two agree unless a priority meets a `pri:` tag. */
  lemma AgreeOnOpen(raw: string, t: Task, today: Date)
    requires OpenTask(raw, t) && FirstWord(raw) != "x" && !GluedPriority(raw)
    ensures ToggleCompleteText(raw, ShowDate(today)) == Edited(raw, [Complete(today)]) <==>
              t.priority.None? || FindTag(t.description, 0, "pri").None?
  {
    hide ToggleCompleteText, Edited, DraftOf, Toggled, ShowDate, FindTag, SetTag, PriWord, FirstWord, GluedPriority, Printed, Fits, PrintsAs;
    NotAMarker(raw);
    ToggleOpen(raw, t, today);
    OpenReadsTheSame(raw, t);
    CompletedText(raw, t, today);
    var created := if t.creationDate.Some? then Some(ShowDate(t.creationDate.value)) else None;
    PrintedDone(t, today, DoneDescription(t));
    if t.priority.Some? {
      var p := t.priority.value;
      OpenIsWellSpaced(raw, t);
      SetPriTag(t.description, p);
      ToggledTag(today, created, t.description, p);
      ToggledLength(today, created, t.description, t.priority);
      ToggledLength(today, created, DoneDescription(t), None);
      FoundSomewhere(t.description);
    }
  }

  lemma OpenIsWellSpaced(raw: string, t: Task)
    requires OpenTask(raw, t)
    ensures WellSpaced(t.description)
  {
  }

  lemma FoundSomewhere(d: string)
    ensures FindTag(d, 0, "pri").Some? ==> d != ""
  {
  }

  /** Text glued to a priority: the toggle takes the letter, the editor does not. */
  lemma DisagreeOnGlued(raw: string, t: Task, today: Date)
    requires OpenTask(raw, t) && FirstWord(raw) != "x" && GluedPriority(raw)
    ensures ToggleCompleteText(raw, ShowDate(today)) != Edited(raw, [Complete(today)])
  {
    hide ToggleCompleteText, Edited, DraftOf, Toggled, ShowDate, Printed, Fits, SplitDate, FirstWord;
    GluedIsDescription(raw, t);
    NotAMarker(raw);
    ToggleText(raw, today);
    OpenReadsTheSame(raw, t);
    CompletedText(raw, t, today);
    PrintedDone(t, today, raw);
    ToggledLength(today, None, raw, None);
    var rest := raw[3..];
    assert StripPriority(raw) == Some((raw[1], rest));
    SplitLength(rest);
    var split := SplitDate(rest);
    if split.Some? {
      ToggledLength(today, Some(split.value.0), split.value.1, Some(raw[1]));
    } else {
      ToggledLength(today, None, rest, Some(raw[1]));
    }
  }

  lemma SplitLength(s: string)
    ensures SplitDate(s).Some? ==>
              var (date, desc) := SplitDate(s).value;
              |date| == 10 && |desc| <= |s| && |s| <= 10 + 1 + |desc| && (desc != "" ==> |s| == 11 + |desc|)
  {
  }

  /** A line glued to a priority is all description. */
  lemma GluedIsDescription(raw: string, t: Task)
    requires OpenTask(raw, t) && GluedPriority(raw)
    ensures t.description == raw && t.priority.None? && t.creationDate.None?
  {
    hide ShowDate, WellSpaced, StartsCompleted, EmitPrefix;
    PrintedIsEmitted(PrefixOf(t), t.description);
    assert t.creationDate.Some? ==> IsDigit(ShowDate(t.creationDate.value)[0]);
    assert raw[0] == '(' && raw[3] != ' ';
  }

  /** A leading `x`: the editor leaves the line, the toggle never does. */
  lemma DisagreeOnMarker(raw: string, t: Task, today: Date)
    requires OpenTask(raw, t) && FirstWord(raw) == "x"
    ensures ToggleCompleteText(raw, ShowDate(today)) != Edited(raw, [Complete(today)])
  {
    hide PrintsAs, ParseLine, EmitPrefix, Toggled, ShowDate, Reopen, JoinWords, PriWord;
    LenientIsTotal(raw);
    ApplyOne(DraftOf(raw), Complete(today));
    assert Edited(raw, [Complete(today)]) == raw;
    assert raw[0] == FirstWord(raw)[0] == 'x';
    match SplitCompleted(raw)
    case Some((created, description)) =>
      ReopenIsNotMarked(created, description);
      SplitCreated(raw);
    case None =>
      assert StripPriority(raw).None? && SplitDate(raw).None?;
      ToggledText(today, None, raw, None);
      ToggledLength(today, None, raw, None);
  }

  lemma SplitCreated(raw: string)
    requires SplitCompleted(raw).Some?
    ensures var (created, description) := SplitCompleted(raw).value;
            |description| < |raw| && (created.Some? ==> created.value != "" && IsDigit(created.value[0]))
  {
  }

  lemma {:induction false} JoinSplitWords(s: string)
    ensures JoinWords(SplitWords(s)) == s
  {
    if s != "" {
      JoinSplitWords(s[1..]);
      var r := SplitWords(s[1..]);
      if s[0] != ' ' && |r| > 1 {
        assert ([[s[0]] + r[0]] + r[1..])[1..] == r[1..];
      } else if s[0] == ' ' {
        assert ([""] + r)[1..] == r;
      }
    }
  }

  /** A reopened line is its description as it was, or starts with a priority or with a date. */
  lemma ReopenIsNotMarked(created: Option<string>, description: string)
    requires created.Some? ==> created.value != "" && IsDigit(created.value[0])
    ensures var r := Reopen(created, description);
            r == description || (r != "" && r[0] != 'x')
  {
    hide SplitWords, FirstPriTag, ShowPriority, JoinWords;
    var words := if description == "" then [] else SplitWords(description);
    var at := FirstPriTag(words);
    var kept := if at < |words| then words[..at] + words[at + 1..] else words;
    var last := if kept != [] then [JoinWords(kept)] else [];
    if at < |words| {
      var p := ShowPriority(words[at][4]);
      JoinIsTail(p, OptionalPart(created) + last);
      assert [p] + (OptionalPart(created) + last) == [p] + OptionalPart(created) + last;
    } else if created.Some? {
      JoinIsTail(created.value, last);
      assert [created.value] + last == [] + OptionalPart(created) + last;
    } else {
      JoinSplitWords(description);
      JoinNothing();
      JoinIsTail(JoinWords(kept), []);
      assert [] + OptionalPart(created) + last == last;
      assert [JoinWords(kept)] + [] == [JoinWords(kept)];
    }
  }

  lemma JoinNothing()
    ensures JoinWords([]) == "" && JoinTail([]) == ""
  {
  }

  /**
   The two completions of an open line agree if and only if the line does not start with the word `x`,
   no text is glued to a priority at its start, and its priority meets no `pri:` tag of its own.
   */
  lemma CompletionsAgree(raw: string, t: Task, today: Date)
    requires OpenTask(raw, t)
    ensures ToggleCompleteText(raw, ShowDate(today)) == Edited(raw, [Complete(today)]) <==>
              && FirstWord(raw) != "x" && !GluedPriority(raw)
              && (t.priority.None? || FindTag(t.description, 0, "pri").None?)
  {
    hide ToggleCompleteText, Edited, FirstWord, GluedPriority, PrintsAs, FindTag, ShowDate;
    if FirstWord(raw) == "x" {
      DisagreeOnMarker(raw, t, today);
    } else if GluedPriority(raw) {
      DisagreeOnGlued(raw, t, today);
    } else {
      AgreeOnOpen(raw, t, today);
    }
  }
}

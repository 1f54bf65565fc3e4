/**
 What each edit makes of a line: the text it becomes, its words, and what it reads as again. The text before the
 description stays, and of the words only those change that the edit is about.
 */
module EditLaws {
  import opened Wrappers
  import opened Scanner
  import opened Words
  import opened WordLists
  import opened Dates
  import opened TodoEdit
  import opened Grammar
  import opened Completion
  import opened LenientLines
  import opened Rereads
  import opened Respelled
  import opened LineEditor

  // ---- the text before the description ----

  function Description(raw: string): string {
    DraftOf(raw).description
  }

  /** What stands before the description. */
  function Before(raw: string): string {
    if |Description(raw)| <= |raw| then raw[..|raw| - |Description(raw)|] else ""
  }

  /** A line without a description, and one that starts; a space between where none is. */
  function Started(raw: string, d: string): string {
    if raw == "" || IsWs(raw[|raw| - 1]) then raw + d else raw + " " + d
  }

  lemma LineIsParts(raw: string)
    ensures raw == Before(raw) + Description(raw)
    ensures if Description(raw) == "" then Before(raw) == raw else EndsInWs(Before(raw))
  {
    hide DraftOf, LayoutOf, LayoutText, LayoutPrefix, Shaped, GapsFit, Regap, LastGap, Stem, HasPiece;
    LayoutIsShaped(raw);
    var l := LayoutOf(raw);
    LastGapIsWs(l);
    if HasPiece(l) {
      RegapText(l, LastGap(l), l.description);
      GapBefore(l);
      assert raw == Stem(l) + LastGap(l) + l.description;
      assert Before(raw) == Stem(l) + LastGap(l);
    } else {
      NoPieces(l, "");
      assert Before(raw) == "";
    }
  }

  lemma GapBefore(l: Layout)
    requires GapsFit(l) && HasPiece(l)
    ensures GapFits(LastGap(l), l.description)
  {
    hide GapFits;
    Tails(l);
  }

  /** What a new description makes of the line, by text. */
  lemma RespellIs(raw: string, d: string)
    requires d != ""
    ensures Respell(raw, d) == if Description(raw) == "" then Started(raw, d) else Before(raw) + d
  {
    hide DraftOf;
    LineIsParts(raw);
    assert DescriptionStart(raw) == |Before(raw)|;
    assert Description(raw) == "" ==> raw[..|raw|] == raw;
  }

  /** An empty one leaves the text before it without the whitespace at its end. */
  lemma RespellNothing(raw: string) returns (gap: string)
    ensures Before(raw) == Respell(raw, "") + gap && AllWs(gap)
    ensures Respell(raw, "") == "" || EndsInWord(Respell(raw, ""))
  {
    hide DraftOf, TrimEnd;
    LineIsParts(raw);
    assert DescriptionStart(raw) == |Before(raw)|;
    gap := TrimmedOff(Before(raw));
  }

  lemma {:induction false} TrimmedOff(s: string) returns (gap: string)
    ensures s == TrimEnd(s) + gap && AllWs(gap) && (TrimEnd(s) == "" || EndsInWord(TrimEnd(s)))
    decreases |s|
  {
    if s != "" && IsWs(s[|s| - 1]) {
      var t := s[..|s| - 1];
      gap := TrimmedOff(t);
      gap := gap + [s[|s| - 1]];
    } else {
      gap := "";
    }
  }

  lemma StartedWords(raw: string, d: string)
    ensures WordList(Started(raw, d)) == WordList(raw) + WordList(d)
  {
    hide WordList;
    if raw == "" || IsWs(raw[|raw| - 1]) {
      WordsConcat(raw, d);
    } else {
      SpacedWords(raw, d);
    }
  }

  lemma SpacedWords(a: string, b: string)
    ensures WordList(a + " " + b) == WordList(a) + WordList(b)
  {
    hide WordList;
    assert a + " " + b == a + (" " + b);
    WordsConcat(a, " " + b);
    GapFirst(" ", b);
  }

  /** The words of the line with a new description are those before it and the description's. */
  lemma RespelledWords(raw: string, d: string)
    requires d != ""
    ensures WordList(Respell(raw, d)) == WordList(Before(raw)) + WordList(d)
  {
    hide WordList, Respell, Description, Before;
    RespellIs(raw, d);
    LineIsParts(raw);
    if Description(raw) == "" {
      StartedWords(raw, d);
    } else {
      WordsConcat(Before(raw), d);
    }
  }

  // ---- when a description stays out of the prefix ----

  lemma FirstWordKept(a: string, t: string)
    requires a != "" && (t == "" || IsWs(t[0]) || IsWs(a[|a| - 1]))
    ensures FirstWord(a + t) == FirstWord(a)
  {
    if !IsWs(a[0]) {
      RunIs(a + t, RunLen(a));
    }
  }

  /** A description that starts as the old one does is read as it is. */
  lemma SameFirstIsKept(raw: string, d: string)
    requires d != "" && Description(raw) != "" && FirstWord(d) == FirstWord(Description(raw))
    ensures Kept(raw, d)
  {
    hide DraftOf, LayoutOf, LayoutText, LayoutPrefix, Shaped, GapsFit, FirstWord, HasPiece, NothingMissed, IsPriorityWord, ParseDate;
    LayoutIsShaped(raw);
    EveryLineIsLaidOut(raw);
    var l := LayoutOf(raw);
    MissedIsTaken(l);
    if HasPiece(l) {
      GapBefore(l);
    }
  }

  lemma ColonIsNoPiece(w: string)
    requires ':' in w
    ensures w != "x" && !IsPriorityWord(w) && ParseDate(w).None?
  {
    if ParseDate(w).Some? {
      ShowParse(w);
    }
  }

  lemma ColonIsKept(raw: string, d: string)
    requires d != "" && ':' in FirstWord(d)
    ensures Kept(raw, d)
  {
    hide DraftOf, LayoutOf, FirstWord, IsPriorityWord, ParseDate;
    ColonIsNoPiece(FirstWord(d));
  }

  lemma ReadsAs(raw: string, op: Op, d: string)
    requires ApplyOp(DraftOf(raw), op) == DraftOf(raw).(description := d)
    ensures Edited(raw, [op]) == if d == Description(raw) then raw else Respell(raw, d)
    ensures DraftOf(Edited(raw, [op])) == DraftOf(raw).(description := d) <==> d == Description(raw) || Kept(raw, d)
  {
    hide DraftOf, ApplyOps, ApplyOp, Edited, Kept, Respell;
    ApplyOne(DraftOf(raw), op);
    DescriptionEditReads(raw, [op]);
  }

  // ---- the description replaced ----

  lemma SetDescriptionLaw(raw: string, text: string)
    ensures var out := Edited(raw, [SetDescription(text)]);
            && (text == Description(raw) ==> out == raw)
            && (text != "" ==> out == if Description(raw) == "" then Started(raw, text) else Before(raw) + text)
            && (text != "" ==> WordList(out) == WordList(Before(raw)) + WordList(text))
            && (DraftOf(out) == DraftOf(raw).(description := text) <==> text == Description(raw) || Kept(raw, text))
  {
    hide DraftOf, ApplyOps, Kept, Respell, WordList, Edited, Started;
    ReadsAs(raw, SetDescription(text), text);
    LineIsParts(raw);
    if text != "" {
      RespellIs(raw, text);
      RespelledWords(raw, text);
      if Description(raw) != "" {
        WordsConcat(Before(raw), Description(raw));
      }
    }
  }

  /** Without a description the line is what stood before it, and no whitespace at the end. */
  lemma DescriptionTaken(raw: string) returns (gap: string)
    requires Description(raw) != ""
    ensures var out := Edited(raw, [SetDescription("")]);
            && Before(raw) == out + gap && AllWs(gap) && (out == "" || EndsInWord(out))
            && DraftOf(out) == DraftOf(raw).(description := "")
  {
    hide DraftOf, ApplyOps, Kept, Respell, Edited;
    ReadsAs(raw, SetDescription(""), "");
    NothingIsKept(raw);
    gap := RespellNothing(raw);
  }

  lemma NothingIsKept(raw: string)
    ensures Kept(raw, "")
  {
    hide DraftOf, LayoutOf;
    NoDateNowhere();
  }

  // ---- text added ----

  /** Appended text stands at the end after one space, and the rest of the line reads as before. */
  lemma AppendLaw(raw: string, text: string)
    ensures var out := Edited(raw, [AppendOp(text)]);
            && (text == "" ==> out == raw)
            && (text != "" ==> out == if Description(raw) == "" then Started(raw, text) else raw + " " + text)
            && WordList(out) == WordList(raw) + WordList(text)
            && (text != "" && Description(raw) != "" ==> DraftOf(out) == DraftOf(raw).(description := Description(raw) + " " + text))
            && (Description(raw) == "" ==> (DraftOf(out) == DraftOf(raw).(description := text) <==> Kept(raw, text)))
  {
    hide *;
    AppendReads(raw, text);
    LineIsParts(raw);
    NoWords();
    if text == "" {
      NothingPrepended(raw);
      WordsOfLine(raw);
    } else if Description(raw) == "" {
      StartedWords(raw, text);
      NothingBehind(raw, text);
    } else {
      PutBehind(raw, text);
    }
  }

  lemma AppendReads(raw: string, text: string)
    ensures var d, out := AppendTo(Description(raw), text), Edited(raw, [AppendOp(text)]);
            && out == (if text == "" then raw else Respell(raw, d))
            && (DraftOf(out) == DraftOf(raw).(description := d) <==> text == "" || Kept(raw, d))
  {
    hide DraftOf, ApplyOps, Kept, Respell, Edited;
    var was := Description(raw);
    var d := AppendTo(was, text);
    ReadsAs(raw, AppendOp(text), d);
    if text == "" {
      assert d == was;
    } else {
      assert |d| > |was|;
    }
  }

  lemma WordsOfLine(raw: string)
    ensures WordList(raw) == WordList(raw) + WordList("")
  {
    hide WordList;
    NoWords();
  }

  lemma NothingBehind(raw: string, text: string)
    requires Description(raw) == "" && text != ""
    ensures Respell(raw, AppendTo("", text)) == Started(raw, text) && AppendTo("", text) == text
  {
    hide DraftOf, Respell, Started;
    LineIsParts(raw);
    assert "" + text == text;
    RespellIs(raw, text);
  }

  lemma PutBehind(raw: string, text: string)
    requires Description(raw) != "" && text != ""
    ensures var was, out := Description(raw), Respell(raw, AppendTo(Description(raw), text));
            && AppendTo(was, text) == was + " " + text && out == raw + " " + text && Kept(raw, was + " " + text)
            && WordList(out) == WordList(raw) + WordList(text)
  {
    hide DraftOf, Respell, WordList, Before, Kept, FirstWord;
    var was := Description(raw);
    var d := AppendTo(was, text);
    LineIsParts(raw);
    RespellIs(raw, d);
    assert Before(raw) + (was + " " + text) == Before(raw) + was + " " + text;
    SpacedWords(raw, text);
    assert was + " " + text == was + (" " + text);
    FirstWordKept(was, " " + text);
    SameFirstIsKept(raw, d);
  }

  lemma PrependedWords(d: string, text: string)
    requires text != ""
    ensures var d' := PrependTo(d, text);
            && WordList(d') == WordList(text) + WordList(d) && d' != "" && d' != d
            && d' == if d == "" then text else text + " " + d
  {
    hide WordList;
    NoWords();
    if d == "" {
      assert text + "" == text;
    } else {
      SpacedWords(text, d);
      assert |text + " " + d| > |d|;
    }
  }

  /** Prepended text stands where the description did, and one space before it. */
  lemma PrependLaw(raw: string, text: string)
    ensures var out := Edited(raw, [PrependOp(text)]);
            && (text == "" ==> out == raw)
            && (text != "" ==> out == if Description(raw) == "" then Started(raw, text) else Before(raw) + text + " " + Description(raw))
            && WordList(out) == WordList(Before(raw)) + WordList(text) + WordList(Description(raw))
            && (text != "" && Description(raw) != "" ==>
                  (DraftOf(out) == DraftOf(raw).(description := text + " " + Description(raw))
                   <==> Kept(raw, text + " " + Description(raw))))
            && (Description(raw) == "" ==> (DraftOf(out) == DraftOf(raw).(description := text) <==> Kept(raw, text)))
  {
    hide *;
    var was := Description(raw);
    PrependReads(raw, text);
    LineIsParts(raw);
    if text == "" {
      NothingPrepended(raw);
    } else if was == "" {
      StartedWords(raw, text);
      NothingBefore(raw, text);
    } else {
      PutBefore(raw, text);
    }
  }

  lemma PutBefore(raw: string, text: string)
    requires Description(raw) != "" && text != ""
    ensures var was, out := Description(raw), Respell(raw, PrependTo(Description(raw), text));
            && PrependTo(was, text) == text + " " + was && out == Before(raw) + text + " " + was
            && WordList(out) == WordList(Before(raw)) + WordList(text) + WordList(was)
  {
    hide DraftOf, Respell, WordList, Before, Description;
    var was := Description(raw);
    var d := PrependTo(was, text);
    PrependedWords(was, text);
    RespelledWords(raw, d);
    RespellIs(raw, d);
    assert Before(raw) + d == Before(raw) + text + " " + was;
    assert WordList(Before(raw)) + (WordList(text) + WordList(was)) == WordList(Before(raw)) + WordList(text) + WordList(was);
  }

  lemma PrependReads(raw: string, text: string)
    ensures var d, out := PrependTo(Description(raw), text), Edited(raw, [PrependOp(text)]);
            && out == (if text == "" then raw else Respell(raw, d))
            && (DraftOf(out) == DraftOf(raw).(description := d) <==> text == "" || Kept(raw, d))
  {
    hide DraftOf, ApplyOps, Kept, Respell, Edited;
    var was := Description(raw);
    var d := PrependTo(was, text);
    ReadsAs(raw, PrependOp(text), d);
    if text == "" {
      assert d == was;
    } else {
      PrependedWords(was, text);
    }
  }

  lemma NothingPrepended(raw: string)
    ensures WordList(raw) == WordList(Before(raw)) + WordList("") + WordList(Description(raw)) && Kept(raw, "")
    ensures DraftOf(raw) == DraftOf(raw).(description := Description(raw))
  {
    hide WordList, DraftOf, Kept, Before;
    LineIsParts(raw);
    NoWords();
    NothingIsKept(raw);
    WordsConcat(Before(raw), Description(raw));
  }

  lemma NothingBefore(raw: string, text: string)
    requires Description(raw) == "" && text != ""
    ensures Before(raw) == raw && Respell(raw, PrependTo("", text)) == Started(raw, text) && PrependTo("", text) == text
    ensures WordList("") == []
  {
    hide DraftOf, Respell, Started;
    LineIsParts(raw);
    NoWords();
    assert text + "" == text;
    RespellIs(raw, text);
  }

  // ---- tags ----

  lemma TagText(key: string, value: string)
    requires IsValidTag(key, value)
    ensures var w := key + ":" + value; w != "" && NoWs(w) && ':' in w && KeyWord(w, key)
  {
    var w := key + ":" + value;
    assert w[|key|] == ':';
  }

  /** A word put in the place of another, among the words. */
  lemma WordReplaced(a: string, w: string, w': string, b: string)
    requires w != "" && w' != "" && NoWs(w) && NoWs(w') && EndsInWs(a) && StartsInWs(b)
    ensures |WordList(a)| < |WordList(a + w + b)| && WordList(a + w' + b) == WordList(a + w + b)[|WordList(a)| := w']
  {
    hide WordList, NoWs;
    WordsAround(a, w, b);
    WordsAround(a, w', b);
  }

  lemma SetTagFound(d: string, key: string, value: string, a: string, w: string, b: string)
    requires FindTag(d, 0, key) == Some((|a|, |a| + |w|)) && d == a + w + b
    ensures SetTag(d, key, value) == a + (key + ":" + value) + b
  {
    hide FindTag;
  }

  /** A description with a tag set: the first tag of the key becomes it where it stands, or it comes last. */
  lemma SetTagWords(d: string, key: string, value: string)
    requires IsValidTag(key, value)
    ensures var words, word := WordList(d), key + ":" + value;
            WordList(SetTag(d, key, value)) ==
            if TagIndex(words, key) < |words| then words[TagIndex(words, key) := word] else words + [word]
  {
    hide FindTag, WordList, TagIndex, IsTagOf, NoWs, SetTag, AppendTo, IsValidTag, KeyWord;
    var word := key + ":" + value;
    TagText(key, value);
    if FindTag(d, 0, key).None? {
      NoTagNoFind(d, 0, key);
      SetTagNew(d, key, value);
      AppendedWords(d, word);
      OneWordList(word);
    } else {
      var a, w, b := FindTagSplits(d, 0, key);
      SplitIndex(a, w, b, key);
      SetTagFound(d, key, value, a, w, b);
      WordReplaced(a, w, word, b);
    }
  }

  lemma SetTagNew(d: string, key: string, value: string)
    requires FindTag(d, 0, key).None?
    ensures SetTag(d, key, value) == AppendTo(d, key + ":" + value)
  {
    hide FindTag, AppendTo;
  }

  lemma AppendedWords(d: string, t: string)
    ensures WordList(AppendTo(d, t)) == WordList(d) + WordList(t)
  {
    hide WordList;
    NoWords();
    if d != "" && t != "" {
      SpacedWords(d, t);
    } else {
      assert d + "" == d && "" + t == t;
    }
  }

  lemma TagHasColon(w: string, key: string)
    requires IsTagOf(w, key)
    ensures ':' in w
  {
    TagOfKey(w, key);
    assert (key + ":")[|key|] == ':' == w[|key|];
  }

  lemma ReplacedStarts(a: string, w: string, w': string, b: string)
    requires w != "" && w' != "" && NoWs(w) && NoWs(w') && EndsInWs(a) && StartsInWs(b)
    ensures if a == "" then FirstWord(a + w + b) == w && FirstWord(a + w' + b) == w'
            else FirstWord(a + w + b) == FirstWord(a + w' + b)
  {
    hide FirstWord, NoWs, RunLen;
    StartsAs(a, w, b);
    StartsAs(a, w', b);
  }

  lemma StartsAs(a: string, w: string, b: string)
    requires w != "" && NoWs(w) && EndsInWs(a) && StartsInWs(b)
    ensures FirstWord(a + w + b) == if a == "" then w else FirstWord(a)
  {
    hide FirstWord, NoWs, RunLen;
    assert a + w + b == a + (w + b);
    if a == "" {
      WordThen(w, b);
      assert "" + (w + b) == w + b;
    } else {
      FirstWordKept(a, w + b);
    }
  }

  lemma AppendedStarts(d: string, w: string)
    requires w != "" && NoWs(w)
    ensures FirstWord(AppendTo(d, w)) == if d == "" then w else FirstWord(d)
  {
    hide FirstWord, NoWs, RunLen;
    if d == "" {
      WordThen(w, "");
      assert "" + w == w + "" == w;
    } else {
      FirstWordKept(d, " " + w);
      assert d + " " + w == d + (" " + w);
    }
  }

  /** How a description with a tag set starts: as before, or with the tag, in the place of another or alone. */
  lemma SetTagStarts(d: string, key: string, value: string)
    requires IsValidTag(key, value)
    ensures var d' := SetTag(d, key, value);
            && d' != ""
            && ((d != "" && FirstWord(d') == FirstWord(d)) || (':' in FirstWord(d') && (d == "" || ':' in FirstWord(d))))
  {
    hide FindTag, WordList, TagIndex, IsTagOf, NoWs, SetTag, IsValidTag, KeyWord, FirstWord;
    var word := key + ":" + value;
    TagText(key, value);
    if FindTag(d, 0, key).None? {
      SetTagNew(d, key, value);
      AppendedStarts(d, word);
    } else {
      var a, w, b := FindTagSplits(d, 0, key);
      SetTagFound(d, key, value, a, w, b);
      ReplacedStarts(a, w, word, b);
      TagHasColon(w, key);
    }
  }

  /**
   After a tag is set the prefix reads as before, and of the words of the description only the first tag of the
   key is another, or one more word is there. It is the first tag of its key, where there are tags of the key at all.
   */
  lemma SetTagLaw(raw: string, key: string, value: string)
    requires IsValidTag(key, value)
    ensures var out, word := Edited(raw, [SetTagOp(key, value)]), key + ":" + value;
            var was, now := WordList(Description(raw)), WordList(Description(out));
            var k := TagIndex(was, key);
            && DraftOf(out).prefix == DraftOf(raw).prefix
            && now == (if k < |was| then was[k := word] else was + [word])
            && WordList(out) == WordList(Before(raw)) + now
            && (TagKey(key) ==> TagIndex(now, key) == k && now[k] == word)
  {
    hide DraftOf, ApplyOps, Kept, Respell, WordList, Edited, FirstWord, SetTag, TagIndex, Before, TagKey, IsValidTag;
    var d := SetTag(Description(raw), key, value);
    ReadsAs(raw, SetTagOp(key, value), d);
    SetTagStarts(Description(raw), key, value);
    SetTagWords(Description(raw), key, value);
    if ':' in FirstWord(d) {
      ColonIsKept(raw, d);
    } else {
      SameFirstIsKept(raw, d);
    }
    LineIsParts(raw);
    WordsConcat(Before(raw), Description(raw));
    RespelledWords(raw, d);
    if TagKey(key) {
      SetTagIsFirst(WordList(Description(raw)), key, value);
    }
  }

  lemma SetTagIsFirst(was: seq<string>, key: string, value: string)
    requires IsValidTag(key, value) && TagKey(key)
    ensures var k, word := TagIndex(was, key), key + ":" + value;
            var now := if k < |was| then was[k := word] else was + [word];
            TagIndex(now, key) == k && now[k] == word
  {
    hide IsTagOf, TagIndex, TagKey, IsValidTag, KeyWord;
    var k, word := TagIndex(was, key), key + ":" + value;
    TagText(key, value);
    TagIsKeyWord(word, key);
    var now := if k < |was| then was[k := word] else was + [word];
    assert now[k] == word && IsTagOf(now[k], key);
    forall i | 0 <= i < k ensures !IsTagOf(now[i], key) {
      assert now[i] == was[i];
    }
  }

  /** Where the text of the description changes when a tag that is there is set, and nothing else does. */
  lemma SetTagInText(raw: string, key: string, value: string) returns (a: string, w: string, b: string)
    requires IsValidTag(key, value) && TagIndex(WordList(Description(raw)), key) < |WordList(Description(raw))|
    ensures Description(raw) == a + w + b && TagSplit(a, w, b, key)
    ensures Edited(raw, [SetTagOp(key, value)]) == Before(raw) + (a + (key + ":" + value) + b)
  {
    hide DraftOf, ApplyOps, Kept, Respell, WordList, Edited, SetTag, TagIndex, IsTagOf, FindTag, TagSplit, Before;
    var d := Description(raw);
    if FindTag(d, 0, key).None? {
      NoTagNoFind(d, 0, key);
    }
    a, w, b := FindTagSplits(d, 0, key);
    SetTagFound(d, key, value, a, w, b);
    ReadsAs(raw, SetTagOp(key, value), SetTag(d, key, value));
    assert |d| == |a| + |w| + |b| > 0;
    RespellIs(raw, SetTag(d, key, value));
    LineIsParts(raw);
  }

  /** A description with a tag taken out, one space with it: that one word is gone. */
  lemma RemoveTagWords(d: string, key: string)
    ensures var words := WordList(d);
            var k := TagIndex(words, key);
            WordList(RemoveTag(d, key)) == if k < |words| then words[..k] + words[k + 1..] else words
  {
    hide FindTag, WordList, TagIndex, IsTagOf, RemoveTag;
    if FindTag(d, 0, key).None? {
      NoTagNoFind(d, 0, key);
      RemoveTagNone(d, key);
    } else {
      var a, w, b := FindTagSplits(d, 0, key);
      SplitIndex(a, w, b, key);
      RemoveTagFound(d, key, a, w, b);
      WordsWithout(a, b);
    }
  }

  lemma RemoveTagNone(d: string, key: string)
    requires FindTag(d, 0, key).None?
    ensures RemoveTag(d, key) == d
  {
    hide FindTag;
  }

  /** Two texts around a word that is taken out: the space before it goes, or else the one after it. */
  function Without(a: string, b: string): string {
    if a != "" && a[|a| - 1] == ' ' then a[..|a| - 1] + b
    else if b != "" && b[0] == ' ' then a + b[1..]
    else a + b
  }

  lemma RemoveTagAt(d: string, key: string, start: nat, end: nat)
    requires FindTag(d, 0, key) == Some((start, end))
    ensures end <= |d|
    ensures RemoveTag(d, key) == if start > 0 && d[start - 1] == ' ' then d[..start - 1] + d[end..]
                                 else if end < |d| && d[end] == ' ' then d[..start] + d[end + 1..]
                                 else d[..start] + d[end..]
  {
    hide FindTag;
  }

  lemma RemoveTagFound(d: string, key: string, a: string, w: string, b: string)
    requires FindTag(d, 0, key) == Some((|a|, |a| + |w|)) && d == a + w + b
    ensures RemoveTag(d, key) == Without(a, b)
  {
    hide FindTag, RemoveTag;
    RemoveTagAt(d, key, |a|, |a| + |w|);
    WordOut(d, a, w, b);
  }

  lemma WordOut(d: string, a: string, w: string, b: string)
    requires d == a + w + b
    ensures d[..|a|] == a && d[|a| + |w|..] == b && (a != "" ==> d[|a| - 1] == a[|a| - 1] && d[..|a| - 1] == a[..|a| - 1])
    ensures b != "" ==> |a| + |w| < |d| && d[|a| + |w|] == b[0] && d[|a| + |w| + 1..] == b[1..]
    ensures |a| + |w| < |d| ==> b != ""
  {
  }

  lemma WordsWithout(a: string, b: string)
    requires EndsInWs(a) && StartsInWs(b)
    ensures WordList(Without(a, b)) == WordList(a) + WordList(b)
  {
    hide WordList;
    if a != "" && a[|a| - 1] == ' ' {
      var a' := a[..|a| - 1];
      assert a == a' + " ";
      WordsConcat(a', b);
      WordsConcat(a', " ");
      SpaceHasNoWords();
      assert WordList(a') + [] == WordList(a');
    } else if b != "" && b[0] == ' ' {
      assert b == " " + b[1..];
      GapFirst(" ", b[1..]);
      WordsConcat(a, b[1..]);
    } else {
      WordsConcat(a, b);
    }
  }

  lemma SpaceHasNoWords()
    ensures WordList(" ") == []
  {
    GapFirst(" ", "");
    assert " " + "" == " ";
  }

  /** After a tag is removed exactly one word is gone, the first tag of the key; without one nothing changes. */
  lemma RemoveTagLaw(raw: string, key: string)
    ensures var out, was := Edited(raw, [RemoveTagOp(key)]), WordList(Description(raw));
            var k := TagIndex(was, key);
            && (k == |was| ==> out == raw)
            && (k < |was| ==> WordList(out) == WordList(Before(raw)) + (was[..k] + was[k + 1..]))
  {
    hide DraftOf, ApplyOps, Kept, Respell, WordList, Edited, RemoveTag, TagIndex, Before, FindTag;
    var was := Description(raw);
    var d := RemoveTag(was, key);
    ReadsAs(raw, RemoveTagOp(key), d);
    RemoveTagWords(was, key);
    RemoveTagShortens(was, key);
    if FindTag(was, 0, key).Some? {
      var a, w, b := FindTagSplits(was, 0, key);
      SplitIndex(a, w, b, key);
      NewWords(raw, d);
    } else {
      NoTagNoFind(was, 0, key);
    }
  }

  lemma NewWords(raw: string, d: string)
    ensures WordList(Respell(raw, d)) == WordList(Before(raw)) + WordList(d)
  {
    hide WordList, Respell, Before;
    if d != "" {
      RespelledWords(raw, d);
    } else {
      var gap := RespellNothing(raw);
      WordsConcat(Respell(raw, ""), gap);
      GapHasNoWords(gap);
      NoWords();
    }
  }

  lemma GapHasNoWords(gap: string)
    requires AllWs(gap)
    ensures WordList(gap) == []
  {
    GapFirst(gap, "");
    assert gap + "" == gap;
  }

  /** Where the text changes when a tag is removed, and when the line reads as the rest of its description. */
  lemma RemoveTagInText(raw: string, key: string) returns (a: string, w: string, b: string)
    requires TagIndex(WordList(Description(raw)), key) < |WordList(Description(raw))|
    ensures Description(raw) == a + w + b && TagSplit(a, w, b, key)
    ensures var out := Edited(raw, [RemoveTagOp(key)]);
            && (Without(a, b) != "" ==> out == Before(raw) + Without(a, b))
            && (DraftOf(out) == DraftOf(raw).(description := Without(a, b)) <==> Kept(raw, Without(a, b)))
  {
    hide DraftOf, ApplyOps, Kept, Respell, WordList, Edited, RemoveTag, TagIndex, IsTagOf, FindTag, TagSplit, Before, Without;
    var d := Description(raw);
    if FindTag(d, 0, key).None? {
      NoTagNoFind(d, 0, key);
    }
    a, w, b := FindTagSplits(d, 0, key);
    RemoveTagFound(d, key, a, w, b);
    RemoveTagShortens(d, key);
    ReadsAs(raw, RemoveTagOp(key), RemoveTag(d, key));
    if Without(a, b) != "" {
      RespellIs(raw, Without(a, b));
    }
  }

  // ---- priority ----

  /** A printed line of an open task with a priority starts with it, whatever its description. */
  lemma PriorityIsRead(p: Priority, created: Option<Date>, d: string)
    ensures var t := DraftOf(Printed(Prefix(false, None, created, Some(p)), d));
            !t.prefix.completed && t.prefix.priority == Some(p)
  {
    hide DraftOf, ShowDate, CutDate, GapOf, AfterGap, FirstWord;
    var raw := Printed(Prefix(false, None, created, Some(p)), d);
    var rest := Dated(created, d);
    assert raw == ShowPriority(p) + (Sep(rest) + rest);
    SepStartsWs(rest);
    WordThen(ShowPriority(p), Sep(rest) + rest);
    StartsOnlyWhole(raw);
  }

  lemma SepStartsWs(rest: string)
    ensures Sep(rest) + rest == "" || IsWs((Sep(rest) + rest)[0])
  {
  }

  /** A word that a piece the line has would not take is not taken for one it has not. */
  lemma OwnIsKept(raw: string)
    ensures var (p, d) := (DraftOf(raw).prefix, Description(raw));
            && (p != NO_PREFIX ==> AtWord(d))
            && (!p.completed && p.creationDate.None? ==> ParseDate(FirstWord(d)).None?)
  {
    hide DraftOf, LayoutText, Shaped, GapsFit, FirstWord, HasPiece, NothingMissed, IsPriorityWord, ParseDate, LayoutOf;
    LayoutIsShaped(raw);
    EveryLineIsLaidOut(raw);
    var l := LayoutOf(raw);
    MissedIsTaken(l);
    if HasPiece(l) {
      GapBefore(l);
    }
    OpenPiece(l);
  }

  lemma OpenPiece(l: Layout)
    ensures !LayoutPrefix(l).completed ==> l.mark.None? && (l.created.None? <==> LayoutPrefix(l).creationDate.None?)
  {
  }

  /**
   Setting the priority of an open line puts it first and shows when the line is read again, and all else of the
   line reads as before exactly when its description was not indented.
   */
  lemma SetPriorityOpen(raw: string, p: Priority)
    requires !DraftOf(raw).prefix.completed
    ensures var was, out := DraftOf(raw), Edited(raw, [SetPriority(p)]);
            var now := was.prefix.(priority := Some(p));
            && out == (if was.prefix.priority == Some(p) then raw else Printed(now, was.description))
            && DraftOf(out).prefix.priority == Some(p) && !DraftOf(out).prefix.completed
            && (DraftOf(out) == Draft(now, was.description) <==> was.prefix.priority == Some(p) || AtWord(was.description))
  {
    hide DraftOf, ApplyOps, Edited, Printed, KeptApart, SetTag;
    var was := DraftOf(raw);
    ApplyOne(was, SetPriority(p));
    DraftIsPrintable(raw);
    OwnIsKept(raw);
    if was.prefix.priority == Some(p) {
      DescriptionEditReads(raw, [SetPriority(p)]);
    } else {
      PrefixEditReads(raw, [SetPriority(p)]);
      PriorityIsRead(p, was.prefix.creationDate, was.description);
      PriorityApart(was.prefix, p, was.description);
    }
  }

  lemma PriorityApart(was: Prefix, p: Priority, d: string)
    requires !was.completed && (was.creationDate.None? ==> ParseDate(FirstWord(d)).None?)
    ensures KeptApart(was.(priority := Some(p)), d) <==> AtWord(d)
  {
    hide FirstWord, ParseDate, AtWord;
  }

  /** Clearing a priority prints the line without it; the rest reads as before exactly when it is kept apart. */
  lemma ClearPriorityLaw(raw: string)
    ensures var was, out := DraftOf(raw), Edited(raw, [ClearPriority]);
            var now := was.prefix.(priority := None);
            && out == (if was.prefix.priority.None? then raw else Printed(now, was.description))
            && (DraftOf(out) == Draft(now, was.description) <==> was.prefix.priority.None? || KeptApart(now, was.description))
  {
    hide DraftOf, ApplyOps, Edited, Printed, KeptApart, SetTag;
    var was := DraftOf(raw);
    ApplyOne(was, ClearPriority);
    if was.prefix.priority.None? {
      DescriptionEditReads(raw, [ClearPriority]);
    } else {
      PrefixEditReads(raw, [ClearPriority]);
    }
  }

  /**
   On a done line a priority that is set becomes the first `pri:` word of the description. The rest of the line
   reads as before exactly when the description was kept apart without a priority before it.
   */
  lemma SetPriorityDone(raw: string, p: Priority)
    requires DraftOf(raw).prefix.completed
    ensures var was, out := DraftOf(raw), Edited(raw, [SetPriority(p)]);
            var now, d := was.prefix.(priority := None), SetTag(was.description, "pri", [p]);
            if was.prefix.priority == Some(p) then out == raw else
            && out == Printed(now, d)
            && (DraftOf(out) == Draft(now, d) <==> KeptApart(now, was.description))
            && PriorityInWords(WordList(was.description), p, WordList(d))
  {
    hide DraftOf, ApplyOps, Edited, Printed, KeptApart, SetTag, PriorityInWords;
    var was := DraftOf(raw);
    ApplyOne(was, SetPriority(p));
    if was.prefix.priority == Some(p) {
      DescriptionEditReads(raw, [SetPriority(p)]);
    } else {
      PrefixEditReads(raw, [SetPriority(p)]);
      OwnIsKept(raw);
      TaggedApart(was.prefix.(priority := None), was.description, p);
      TaggedWords(was.description, p);
    }
  }

  /** The first `pri:` word is at this place, or the place is the end; this letter's is there. */
  ghost predicate PriorityAt(was: seq<string>, p: Priority, now: seq<string>, k: nat) {
    && k <= |was| && (forall i :: 0 <= i < k ==> !KeyWord(was[i], "pri")) && (k < |was| ==> KeyWord(was[k], "pri"))
    && now == if k < |was| then was[k := "pri:" + [p]] else was + ["pri:" + [p]]
  }

  ghost predicate PriorityInWords(was: seq<string>, p: Priority, now: seq<string>) {
    exists k :: PriorityAt(was, p, now, k)
  }

  lemma PriIsTagKey()
    ensures TagKey("pri")
  {
    assert !IsScheme("pri") by {
      assert Lower("pri"[0]) == 'p' && Lower("ftp"[0]) == 'f' && Lower("ssh"[0]) == 's';
      assert Lower("tel"[0]) == 't' && Lower("sms"[0]) == 's';
    }
  }

  lemma TaggedWords(d: string, p: Priority)
    ensures PriorityInWords(WordList(d), p, WordList(SetTag(d, "pri", [p])))
  {
    hide SetTag, WordList, IsTagOf, KeyWord, TagIndex, TagKey;
    PriIsTagKey();
    SetTagWords(d, "pri", [p]);
    assert "pri" + ":" + [p] == "pri:" + [p];
    var was := WordList(d);
    forall i | 0 <= i < |was| ensures IsTagOf(was[i], "pri") <==> KeyWord(was[i], "pri") {
      TagIsKeyWord(was[i], "pri");
    }
    assert PriorityAt(was, p, WordList(SetTag(d, "pri", [p])), TagIndex(was, "pri"));
  }

  lemma TaggedApart(p: Prefix, d: string, letter: Priority)
    requires p.completed && AtWord(d)
    ensures KeptApart(p, SetTag(d, "pri", [letter])) <==> KeptApart(p, d)
  {
    hide SetTag, FirstWord, IsPriorityWord, ParseDate;
    SetTagStarts(d, "pri", [letter]);
    var w, w' := FirstWord(d), FirstWord(SetTag(d, "pri", [letter]));
    NoPieceInNothing();
    assert w' != "" by {
      assert ':' in w' || w' == w != "";
    }
    if w' != w {
      ColonIsNoPiece(w');
      if d != "" {
        ColonIsNoPiece(w);
      }
    }
  }

  lemma NoPieceInNothing()
    ensures FirstWord("") == "" && !IsPriorityWord("") && ParseDate("").None?
  {
  }

  // ---- completing and reopening any line ----

  /** What an open line becomes when it is completed; a done line stays. */
  lemma CompleteLaw(raw: string, today: Date)
    ensures var was, out := DraftOf(raw), Edited(raw, [Complete(today)]);
            var now := Prefix(true, Some(today), was.prefix.creationDate, None);
            var d := if was.prefix.priority.Some? then SetTag(was.description, "pri", [was.prefix.priority.value]) else was.description;
            if was.prefix.completed then out == raw else
            && out == Printed(now, d)
            && (DraftOf(out) == Draft(now, d) <==> KeptApart(now, was.description))
            && (was.prefix.priority.Some? ==> PriorityInWords(WordList(was.description), was.prefix.priority.value, WordList(d)))
  {
    hide DraftOf, ApplyOps, Edited, Printed, KeptApart, SetTag, PriorityInWords;
    var was := DraftOf(raw);
    ApplyOne(was, Complete(today));
    if was.prefix.completed {
      DescriptionEditReads(raw, [Complete(today)]);
    } else {
      PrefixEditReads(raw, [Complete(today)]);
      OwnIsKept(raw);
      if was.prefix.priority.Some? {
        TaggedApart(Prefix(true, Some(today), was.prefix.creationDate, None), was.description, was.prefix.priority.value);
        TaggedWords(was.description, was.prefix.priority.value);
      }
    }
  }

  /** The letter of the first `pri:` word, if it is one. */
  function FirstLetter(words: seq<string>): Option<Priority> {
    if words == [] then None
    else if KeyWord(words[0], "pri") then NewPriority(words[0][4])
    else FirstLetter(words[1..])
  }

  lemma {:induction false} LetterByIndex(words: seq<string>)
    ensures var k := TagIndex(words, "pri");
            FirstLetter(words) == if k < |words| && KeyWord(words[k], "pri") then NewPriority(words[k][4]) else None
  {
    hide KeyWord, IsTagOf, TagKey;
    PriIsTagKey();
    if words != [] {
      TagIsKeyWord(words[0], "pri");
      if !KeyWord(words[0], "pri") {
        LetterByIndex(words[1..]);
      }
    }
  }

  lemma LetterInWords(d: string)
    ensures PriTagLetter(d) == FirstLetter(WordList(d))
  {
    hide FindTag, WordList, TagSplit, FirstLetter, TagIndex, PriTagLetter, KeyWord;
    var words := WordList(d);
    LetterByIndex(words);
    if FindTag(d, 0, "pri").None? {
      NoTagNoFind(d, 0, "pri");
      NoLetter(d);
    } else {
      var a, w, b := FindTagSplits(d, 0, "pri");
      SplitIndex(a, w, b, "pri");
      SplitIsTag(a, w, b);
      LetterOfSplit(d, a, w, b);
    }
  }

  lemma NoLetter(d: string)
    requires FindTag(d, 0, "pri").None?
    ensures PriTagLetter(d) == None
  {
    hide FindTag;
  }

  lemma SplitIsTag(a: string, w: string, b: string)
    requires TagSplit(a, w, b, "pri")
    ensures KeyWord(w, "pri")
  {
    hide TagIndex, TagKey, IsTagOf, WordList;
    TagIsKeyWord(w, "pri");
  }

  lemma LetterOfSplit(d: string, a: string, w: string, b: string)
    requires d == a + w + b && KeyWord(w, "pri") && FindTag(d, 0, "pri") == Some((|a|, |a| + |w|))
    ensures PriTagLetter(d) == NewPriority(w[4])
  {
    hide FindTag;
    assert d[|a| + 4] == w[4];
  }

  /** What a done line becomes when it is reopened: its first `pri:` word gives the priority back and is gone. */
  lemma UncompleteLaw(raw: string)
    ensures var was, out := DraftOf(raw), Edited(raw, [Uncomplete]);
            var letter := FirstLetter(WordList(was.description));
            var now := Prefix(false, None, was.prefix.creationDate, if letter.Some? then letter else was.prefix.priority);
            var d := if letter.Some? then RemoveTag(was.description, "pri") else was.description;
            if !was.prefix.completed then out == raw else
            out == Printed(now, d) && (DraftOf(out) == Draft(now, d) <==> KeptApart(now, d))
  {
    hide DraftOf, ApplyOps, Edited, Printed, KeptApart, RemoveTag, PriTagLetter, FirstLetter, WordList;
    var was := DraftOf(raw);
    ApplyOne(was, Uncomplete);
    LetterInWords(was.description);
    if was.prefix.completed {
      PrefixEditReads(raw, [Uncomplete]);
    } else {
      DescriptionEditReads(raw, [Uncomplete]);
    }
  }

  // ---- what an edit can be built from ----

  /** A text without a newline or a carriage return. */
  predicate HasNoBreak(s: string) {
    forall i :: 0 <= i < |s| ==> s[i] as int != 10 && s[i] as int != 13
  }

  /** Some text, and in it no space, tab, newline, form feed or carriage return. */
  predicate IsUnbroken(s: string) {
    s != "" && forall i :: 0 <= i < |s| ==> s[i] as int !in {9, 10, 12, 13, 32}
  }

  /** Exactly these arguments are taken, and the others refused for what is wrong with them. */
  lemma BuiltIff(op: Op)
    ensures op.SetDescription? || op.AppendOp? || op.PrependOp? ==>
              Built(op) == if HasNoBreak(op.text) then Ok(op) else Err(LineBreak)
    ensures op.SetTagOp? ==>
              Built(op) == if IsUnbroken(op.key) && IsUnbroken(op.value) && ':' !in op.key then Ok(op) else Err(InvalidTag)
    ensures op.RemoveTagOp? ==> Built(op) == if IsUnbroken(op.tag) && ':' !in op.tag then Ok(op) else Err(InvalidTag)
    ensures op.SetPriority? || op.ClearPriority? || op.Complete? || op.Uncomplete? ==> Built(op) == Ok(op)
  {
    match op
    case SetDescription(text) => BreakIs(text);
    case AppendOp(text) => BreakIs(text);
    case PrependOp(text) => BreakIs(text);
    case SetTagOp(key, value) =>
      UnbrokenIs(key);
      UnbrokenIs(value);
    case RemoveTagOp(tag) =>
      UnbrokenIs(tag);
      UnbrokenIs("v");
    case _ =>
  }

  lemma BreakIs(s: string)
    ensures OneLine(s) <==> HasNoBreak(s)
  {
  }

  lemma UnbrokenIs(s: string)
    ensures IsTagPart(s) <==> IsUnbroken(s)
  {
    assert '\t' as int == 9 && '\n' as int == 10 && '\r' as int == 13 && ' ' as int == 32;
  }

  // ---- two small lines ----

  /** A line with no piece before its first word is all description. */
  lemma PlainReads(d: string)
    requires FirstWord(d) != "x" && !IsPriorityWord(FirstWord(d)) && ParseDate(FirstWord(d)).None?
    ensures DraftOf(d) == Draft(NO_PREFIX, d)
  {
    hide DraftOf, FirstWord, IsPriorityWord, ParseDate;
    PrintedReadsBack(NO_PREFIX, d);
  }

  lemma OneWordReads(w: string)
    requires NoWs(w) && w != "" && w != "x" && !IsPriorityWord(w) && ParseDate(w).None?
    ensures DraftOf(w) == Draft(NO_PREFIX, w)
  {
    hide DraftOf, FirstWord, IsPriorityWord, ParseDate, NoWs;
    WordThen(w, "");
    assert w + "" == w;
    PlainReads(w);
  }

  lemma BuyMilk()
    ensures Edited("milk", [PrependOp("buy")]) == "buy milk"
  {
    hide Edited, DraftOf, WordList, Kept;
    OneWordReads("milk");
    PrependLaw("milk", "buy");
    assert Before("milk") == "" && "" + "buy" + " " + "milk" == "buy milk";
  }

  lemma FooIsB()
    ensures Edited("foo", [SetPriority('B')]) == "(B) foo"
  {
    hide Edited, DraftOf;
    OneWordReads("foo");
    SetPriorityOpen("foo", 'B');
    assert ShowPriority('B') == "(B)";
  }

  lemma MarkReads(t: string)
    requires t != "" && IsWs(t[0])
    ensures DraftOf("x" + t).prefix.completed
  {
    hide DraftOf, LayoutOf, FirstWord;
    XIsWord();
    WordThen("x", t);
    StartsOnlyWhole("x" + t);
    MarkedLayoutIsDone("x" + t);
  }

  lemma MarkedLayoutIsDone(raw: string)
    requires FirstWord(raw) == "x"
    ensures LayoutPrefix(LayoutOf(raw)).completed
  {
    hide CutPriority, CutDate, GapOf, AfterGap, FirstWord;
  }

  /** The word `x` put before a description is read as the mark. */
  lemma PrependedMarkIsTaken()
    ensures Edited("milk", [PrependOp("x")]) == "x milk" && DraftOf("x milk").prefix.completed
    ensures !DraftOf("milk").prefix.completed && !Kept("milk", "x milk")
  {
    hide Edited, DraftOf, Kept, WordList;
    OneWordReads("milk");
    PrependLaw("milk", "x");
    assert Before("milk") == "" && "" + "x" + " " + "milk" == "x milk" == "x" + " " + "milk";
    MarkReads(" milk");
    assert "x" + " milk" == "x milk";
  }
}

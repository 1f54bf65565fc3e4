/**
 A description as the list of its words, and its tags told from that list: which words are tags of a key, and
 that the tag looked up is the first of them.
 */
module WordLists {
  import opened Wrappers
  import opened Scanner
  import opened Words

  /** The words of a text, in order; only spaces and tabs are between them. */
  function WordList(d: string): seq<string>
    decreases |d|
  {
    if d == "" then [] else
    var n := RunLen(d);
    (if IsWs(d[0]) then [] else [d[..n]]) + WordList(d[n..])
  }

  ghost predicate AllWs(s: string) {
    forall i :: 0 <= i < |s| ==> IsWs(s[i])
  }

  /** Nothing but whitespace is where the one text ends or where the other starts. */
  ghost predicate Apart(a: string, b: string) {
    a == "" || b == "" || IsWs(a[|a| - 1]) || IsWs(b[0])
  }

  lemma NoWords()
    ensures WordList("") == []
  {
  }

  lemma WordFirst(w: string, t: string)
    requires w != "" && NoWs(w) && (t == "" || IsWs(t[0]))
    ensures WordList(w + t) == [w] + WordList(t)
  {
    RunIs(w + t, |w|);
    assert (w + t)[..|w|] == w && (w + t)[|w|..] == t;
  }

  lemma OneWordList(w: string)
    requires w != "" && NoWs(w)
    ensures WordList(w) == [w]
  {
    WordFirst(w, "");
    assert w + "" == w;
  }

  lemma GapFirst(g: string, t: string)
    requires AllWs(g)
    ensures WordList(g + t) == WordList(t)
  {
    hide WordList;
    if g == "" {
      assert g + t == t;
    } else if t == "" || !IsWs(t[0]) {
      GapThenWord(g, t);
    } else {
      var n := RunLen(t);
      var more, rest := t[..n], t[n..];
      GapThenWord(g + more, rest);
      GapThenWord(more, rest);
      assert g + t == g + more + rest && t == more + rest;
    }
  }

  lemma GapThenWord(g: string, t: string)
    requires g != "" && AllWs(g) && (t == "" || !IsWs(t[0]))
    ensures WordList(g + t) == WordList(t)
  {
    RunIs(g + t, |g|);
    assert (g + t)[|g|..] == t;
  }

  lemma {:induction false} WordsAreWords(d: string)
    ensures forall i :: 0 <= i < |WordList(d)| ==> WordList(d)[i] != "" && NoWs(WordList(d)[i])
    decreases |d|
  {
    if d != "" {
      WordsAreWords(d[RunLen(d)..]);
    }
  }

  /** A text cut where whitespace is has the words of the one part and then those of the other. */
  lemma {:induction false} WordsConcat(a: string, b: string)
    requires Apart(a, b)
    ensures WordList(a + b) == WordList(a) + WordList(b)
    decreases |a|
  {
    hide WordList;
    NoWords();
    if a == "" {
      assert a + b == b;
    } else {
      var n := RunLen(a);
      var run, rest := a[..n], a[n..];
      assert a == run + rest && a + b == run + (rest + b);
      assert rest != "" ==> rest[|rest| - 1] == a[|a| - 1];
      WordsConcat(rest, b);
      RunFirst(a);
      RunThen(run, rest + b);
    }
  }

  /** The words of a text are its first run, if that is a word, and the words after it. */
  lemma RunFirst(a: string)
    requires a != ""
    ensures var n := RunLen(a); WordList(a) == (if IsWs(a[0]) then [] else [a[..n]]) + WordList(a[n..])
  {
  }

  lemma RunThen(run: string, t: string)
    requires run != "" && (forall i :: 0 <= i < |run| ==> IsWs(run[i]) == IsWs(run[0]))
    requires t == "" || IsWs(run[0]) || IsWs(t[0])
    ensures WordList(run + t) == (if IsWs(run[0]) then [] else [run]) + WordList(t)
  {
    hide WordList;
    if IsWs(run[0]) {
      GapFirst(run, t);
    } else {
      WordFirst(run, t);
    }
  }

  // ---- tags ----

  /** A word made of a key, a colon and a value. */
  predicate KeyWord(w: string, key: string) {
    key + ":" <= w && |w| > |key| + 1
  }

  /** A key that tags can have: words that start with any other one are links, projects, contexts or plain text. */
  predicate TagKey(key: string) {
    key != "" && ':' !in key && key[0] != '+' && key[0] != '@' && !IsScheme(key)
  }

  /** A text with its capital letters, by their code points, made small. */
  function LowerCase(s: string): string {
    seq(|s|, i requires 0 <= i < |s| => if 65 <= s[i] as int <= 90 then (s[i] as int + 32) as char else s[i])
  }

  lemma NameIs(name: string, s: string)
    requires forall i :: 0 <= i < |name| ==> Lower(name[i]) == name[i]
    ensures EqIgnoreCase(name, s) <==> LowerCase(s) == name
  {
    if EqIgnoreCase(name, s) {
      assert forall i :: 0 <= i < |s| ==> LowerCase(s)[i] == name[i];
    }
    if LowerCase(s) == name {
      assert forall i :: 0 <= i < |s| ==> Lower(s[i]) == LowerCase(s)[i] == Lower(name[i]);
    }
  }

  /** The schemes are eight names, in any case. */
  lemma SchemeIs(s: string)
    ensures IsScheme(s) <==> LowerCase(s) in {"http", "https", "mailto", "ftp", "ssh", "file", "tel", "sms"}
  {
    hide EqIgnoreCase, LowerCase;
    NameIs("http", s);
    NameIs("https", s);
    NameIs("mailto", s);
    NameIs("ftp", s);
    NameIs("ssh", s);
    NameIs("file", s);
    NameIs("tel", s);
    NameIs("sms", s);
  }

  lemma {:induction false} FoundAt(s: string, c: char, n: nat)
    requires n < |s| && s[n] == c && forall i :: 0 <= i < n ==> s[i] != c
    ensures Find(s, c) == n
  {
    if n > 0 {
      FoundAt(s[1..], c, n - 1);
    }
  }

  lemma KeyWordColon(w: string, key: string)
    requires KeyWord(w, key) && ':' !in key
    ensures Find(w, ':') == |key| && w[..|key|] == key
  {
    assert w[|key|] == (key + ":")[|key|] == ':';
    assert forall i :: 0 <= i < |key| ==> w[i] == (key + ":")[i] == key[i];
    FoundAt(w, ':', |key|);
  }

  /** A word is a tag of a key exactly when tags can have the key, and it is the key, a colon and a value. */
  lemma TagIsKeyWord(w: string, key: string)
    ensures IsTagOf(w, key) <==> TagKey(key) && KeyWord(w, key)
  {
    hide IsTagOf, TagKey, KeyWord;
    if IsTagOf(w, key) {
      TagOfKey(w, key);
      TagHasKey(w, key);
      IsKeyWord(w, key);
    }
    if TagKey(key) && KeyWord(w, key) {
      KeyWordIsTag(w, key);
    }
  }

  lemma IsKeyWord(w: string, key: string)
    requires key + ":" <= w && |w| > |key| + 1
    ensures KeyWord(w, key)
  {
  }

  lemma KeyWordIsTag(w: string, key: string)
    requires TagKey(key) && KeyWord(w, key)
    ensures IsTagOf(w, key)
  {
    hide IsScheme, IsUlid, Find;
    KeyWordColon(w, key);
    assert w[0] == key[0];
    if "id:" <= w {
      FoundAt(w, ':', 2);
      assert key == w[..2] == "id";
    }
  }

  lemma IdIsNoScheme()
    ensures !IsScheme("id")
  {
  }

  lemma TagHasKey(w: string, key: string)
    requires IsTagOf(w, key)
    ensures TagKey(key)
  {
    hide IsScheme, IsUlid;
    IdIsNoScheme();
    if ClassifyWord(w).Tag? {
      var colon := ClassifyWord(w).colon;
      assert key == w[..colon] && key[0] == w[0];
    }
  }

  /** The place of the first tag of a key among the words, or their number. */
  function TagIndex(words: seq<string>, key: string): (r: nat)
    ensures r <= |words| && (r < |words| ==> IsTagOf(words[r], key))
    ensures forall i :: 0 <= i < r ==> !IsTagOf(words[i], key)
  {
    if words == [] || IsTagOf(words[0], key) then 0 else 1 + TagIndex(words[1..], key)
  }

  /** A text cut around the first tag of a key: whitespace is around the tag, and no tag of the key before it. */
  ghost predicate TagSplit(a: string, w: string, b: string, key: string) {
    && w != "" && NoWs(w) && IsTagOf(w, key) && EndsInWs(a) && StartsInWs(b)
    && TagIndex(WordList(a), key) == |WordList(a)|
  }

  predicate EndsInWs(a: string) {
    a == "" || IsWs(a[|a| - 1])
  }

  predicate StartsInWs(b: string) {
    b == "" || IsWs(b[0])
  }

  /** The words of a text around one of its words. */
  lemma WordsAround(a: string, w: string, b: string)
    requires w != "" && NoWs(w) && EndsInWs(a) && StartsInWs(b)
    ensures WordList(a + w + b) == WordList(a) + [w] + WordList(b)
  {
    hide WordList, NoWs;
    assert a + w + b == a + (w + b);
    WordsConcat(a, w + b);
    WordFirst(w, b);
    assert WordList(a) + ([w] + WordList(b)) == WordList(a) + [w] + WordList(b);
  }

  lemma NoTagIn(a: seq<string>, b: seq<string>, key: string)
    requires (forall i :: 0 <= i < |a| ==> !IsTagOf(a[i], key)) && TagIndex(b, key) == |b|
    ensures TagIndex(a + b, key) == |a| + |b|
  {
    hide IsTagOf, TagIndex;
    var words := a + b;
    forall i | 0 <= i < |words| ensures !IsTagOf(words[i], key) {
      if i >= |a| {
        assert words[i] == b[i - |a|];
      }
    }
  }

  /** The first tag of a key, by its place among the words. */
  lemma SplitIndex(a: string, w: string, b: string, key: string)
    requires TagSplit(a, w, b, key)
    ensures var words, k := WordList(a + w + b), |WordList(a)|;
            words == WordList(a) + [w] + WordList(b) && TagIndex(words, key) == k < |words| && words[k] == w
  {
    hide IsTagOf, WordList, TagIndex, NoWs;
    WordsAround(a, w, b);
    var words, before := WordList(a + w + b), WordList(a);
    assert words[|before|] == w;
    forall i | 0 <= i < |before| ensures !IsTagOf(words[i], key) {
      assert words[i] == before[i];
    }
  }

  lemma {:induction false} NoTagNoFind(d: string, base: nat, key: string)
    requires FindTag(d, base, key).None?
    ensures TagIndex(WordList(d), key) == |WordList(d)|
    decreases |d|
  {
    hide IsTagOf, FindTag, WordList, TagIndex;
    NoWords();
    if d != "" {
      var n := RunLen(d);
      RunFirst(d);
      FindTagStep(d, n, base, key);
      NoTagNoFind(d[n..], base + n, key);
      NoTagIn(if IsWs(d[0]) then [] else [d[..n]], WordList(d[n..]), key);
    }
  }

  /** The tag looked up is the first one of its key. */
  lemma {:induction false} FindTagSplits(d: string, base: nat, key: string) returns (a: string, w: string, b: string)
    requires FindTag(d, base, key).Some?
    ensures d == a + w + b && FindTag(d, base, key) == Some((base + |a|, base + |a| + |w|))
    ensures TagSplit(a, w, b, key)
    decreases |d|
  {
    hide IsTagOf, FindTag, WordList, TagIndex, TagSplit;
    FindTagNowhere(base, key);
    var n := RunLen(d);
    var run, rest := d[..n], d[n..];
    assert d == run + rest;
    FindTagStep(d, n, base, key);
    if !IsWs(d[0]) && IsTagOf(run, key) {
      a, w, b := "", run, rest;
      assert d == "" + run + rest;
      TagComesFirst(run, rest, key);
    } else {
      a, w, b := FindTagSplits(rest, base + n, key);
      assert run + (a + w + b) == run + a + w + b;
      TagComesLater(d, n, a, w, b, key);
      a := run + a;
    }
  }

  lemma TagComesFirst(run: string, rest: string, key: string)
    requires run != "" && NoWs(run) && IsTagOf(run, key) && StartsInWs(rest)
    ensures TagSplit("", run, rest, key)
  {
    hide IsTagOf;
    NoWords();
  }

  lemma TagComesLater(d: string, n: nat, a: string, w: string, b: string, key: string)
    requires d != "" && n == RunLen(d) && d[n..] == a + w + b && TagSplit(a, w, b, key)
    requires IsWs(d[0]) || !IsTagOf(d[..n], key)
    ensures TagSplit(d[..n] + a, w, b, key)
  {
    hide IsTagOf, WordList, TagIndex;
    var run := d[..n];
    assert d[n] == d[n..][0] == (a + w + b)[0];
    assert a == "" ==> (a + w + b)[0] == w[0];
    assert a != "" ==> (a + w + b)[0] == a[0] && (run + a)[|run + a| - 1] == a[|a| - 1];
    assert a == "" ==> run + a == run;
    RunThen(run, a);
    NoTagIn(if IsWs(run[0]) then [] else [run], WordList(a), key);
  }
}

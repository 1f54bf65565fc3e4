/** What one word of a description is: a URL, an id, a project, a context, a `key:value` tag or text. */
module Words {
  import opened Wrappers
  import opened Scanner

  predicate IsPriorityLetter(c: char) {
    'A' <= c <= 'Z'
  }

  type Priority = c: char | IsPriorityLetter(c) witness 'A'

  function NewPriority(c: char): Option<Priority> {
    if IsPriorityLetter(c) then Some(c) else None
  }

  /** `(A)` to `(Z)` exactly. */
  predicate IsPriorityWord(w: string) {
    |w| == 3 && w[0] == '(' && w[2] == ')' && IsPriorityLetter(w[1])
  }

  function ShowPriority(p: Priority): (w: string)
    ensures IsPriorityWord(w) && w[1] == p
  {
    ['(', p, ')']
  }

  /** The position of the first `c` in `s`, or the length. */
  function Find(s: string, c: char): (r: nat)
    ensures r <= |s| && c !in s[..r] && (r < |s| ==> s[r] == c)
  {
    if s == "" || s[0] == c then 0 else
    var r := Find(s[1..], c);
    assert s[..r + 1] == [s[0]] + s[1..][..r];
    r + 1
  }

  function Lower(c: char): char {
    if 'A' <= c <= 'Z' then (c as int + 32) as char else c
  }

  predicate EqIgnoreCase(s: string, t: string) {
    |s| == |t| && forall i :: 0 <= i < |s| ==> Lower(s[i]) == Lower(t[i])
  }

  /** The schemes recognised by default, in any case. */
  predicate IsScheme(s: string) {
    || EqIgnoreCase("http", s) || EqIgnoreCase("https", s) || EqIgnoreCase("mailto", s) || EqIgnoreCase("ftp", s)
    || EqIgnoreCase("ssh", s) || EqIgnoreCase("file", s) || EqIgnoreCase("tel", s) || EqIgnoreCase("sms", s)
  }

  predicate IsUrl(word: string) {
    var colon := Find(word, ':');
    |word| > colon + 1 && IsScheme(word[..colon])
  }

  /** The digits and the letters without I, L, O and U. */
  predicate IsCrockford(c: char) {
    '0' <= c <= '9' || ('A' <= c <= 'Z' && c != 'I' && c != 'L' && c != 'O' && c != 'U')
  }

  /** A ULID is carried as its own text, which writes each value in exactly one way. */
  predicate IsUlid(s: string) {
    |s| == 26 && s[0] <= '7' && forall i :: 0 <= i < 26 ==> IsCrockford(s[i])
  }

  datatype WordKind = Url | IdTag | Project | Context | Tag(colon: nat) | PlainWord

  function ClassifyWord(word: string): (k: WordKind)
    ensures k.Tag? ==> 0 < k.colon < |word| - 1 && k.colon == Find(word, ':')
  {
    if IsUrl(word) then Url
    else if "id:" <= word && IsUlid(word[3..]) then IdTag
    else if |word| > 1 && word[0] == '+' then Project
    else if |word| > 1 && word[0] == '@' then Context
    else
      var colon := Find(word, ':');
      if 0 < colon && colon + 1 < |word| then Tag(colon) else PlainWord
  }

  /** Whether a description word is a tag of this key. */
  predicate IsTagOf(word: string, key: string) {
    match ClassifyWord(word)
    case Tag(colon) => word[..colon] == key
    case IdTag => key == "id"
    case _ => false
  }

  /** A tag word of a key: the key, a colon, and a value that is not empty. */
  lemma TagOfKey(word: string, key: string)
    requires IsTagOf(word, key)
    ensures key + ":" <= word && |word| > |key| + 1
  {
    if ClassifyWord(word).Tag? {
      var colon := ClassifyWord(word).colon;
      assert word == word[..colon] + [word[colon]] + word[colon + 1..];
    }
  }

  /** The first tag word of `key` in `d`, as offsets counted from `base`. */
  function FindTag(d: string, base: nat, key: string): (r: Option<(nat, nat)>)
    ensures r.Some? ==> base <= r.value.0 < r.value.1 <= base + |d|
  {
    if d == "" then None else
    var n := RunLen(d);
    if !IsWs(d[0]) && IsTagOf(d[..n], key) then Some((base, base + n)) else FindTag(d[n..], base + n, key)
  }

  lemma FindTagStep(d: string, n: nat, base: nat, key: string)
    requires d != "" && n == RunLen(d)
    ensures FindTag(d, base, key)
         == if !IsWs(d[0]) && IsTagOf(d[..n], key) then Some((base, base + n)) else FindTag(d[n..], base + n, key)
  {
  }

  lemma FindTagNowhere(base: nat, key: string)
    ensures FindTag("", base, key) == None
  {
  }

  lemma {:induction false} FoundWordIsTag(d: string, base: nat, key: string)
    requires FindTag(d, base, key).Some?
    ensures var (start, end) := FindTag(d, base, key).value;
            IsTagOf(d[start - base..end - base], key)
    decreases |d|
  {
    hide IsTagOf, RunLen, IsWs, FindTag;
    FindTagNowhere(base, key);
    var n := RunLen(d);
    FindTagStep(d, n, base, key);
    if IsWs(d[0]) || !IsTagOf(d[..n], key) {
      FoundWordIsTag(d[n..], base + n, key);
      var (start, end) := FindTag(d, base, key).value;
      assert d[n..][start - base - n..end - base - n] == d[start - base..end - base];
    }
  }

  /** A tag is found where its word stands, and appended words are only looked at last. */
  lemma {:induction false} FindTagAppend(d: string, t: string, base: nat, key: string)
    requires d == "" || !IsWs(d[|d| - 1])
    requires t == "" || IsWs(t[0])
    ensures FindTag(d + t, base, key)
         == if FindTag(d, base, key).Some? then FindTag(d, base, key) else FindTag(t, base + |d|, key)
    decreases |d|
  {
    hide IsTagOf, RunLen, IsWs, FindTag;
    FindTagNowhere(base, key);
    if d == "" {
      assert d + t == t;
    } else {
      var n := RunLen(d);
      assert RunLen(d + t) == n by {
        RunStays(d, t);
      }
      assert (d + t)[n..] == d[n..] + t && (d + t)[..n] == d[..n];
      FindTagStep(d, n, base, key);
      FindTagStep(d + t, n, base, key);
      FindTagAppend(d[n..], t, base + n, key);
      assert base + n + |d[n..]| == base + |d|;
    }
  }

  lemma RunStays(d: string, t: string)
    requires d != "" && !IsWs(d[|d| - 1]) && (t == "" || IsWs(t[0]))
    ensures RunLen(d + t) == RunLen(d)
  {
    RunIs(d + t, RunLen(d));
  }

  function PriWord(p: Priority): string {
    ['p', 'r', 'i', ':', p]
  }

  lemma PriWordIsTag(p: Priority)
    ensures IsTagOf(PriWord(p), "pri") && NoWs(PriWord(p))
  {
    var w := PriWord(p);
    assert Find(w, ':') == 3 by {
      assert w[0] != ':' && w[1] != ':' && w[2] != ':' && w[3] == ':';
      assert w[3] in w[..4] && w[3] in w;
    }
    assert w[..3] == "pri";
    assert !IsScheme("pri") by {
      assert Lower("pri"[0]) == 'p' && Lower("ftp"[0]) == 'f' && Lower("ssh"[0]) == 's';
      assert Lower("tel"[0]) == 't' && Lower("sms"[0]) == 's';
    }
  }

  lemma FindPriWord(p: Priority, base: nat)
    ensures FindTag(PriWord(p), base, "pri") == Some((base, base + 5))
    ensures FindTag(" " + PriWord(p), base, "pri") == Some((base + 1, base + 6))
  {
    PriWordIsTag(p);
    var w := PriWord(p);
    RunIs(w, 5);
    SpaceThen(w);
    assert w[..5] == w;
  }
}

/** The id of a line, told from its words: which lines have one, and which one it is. */
module LineIds {
  import opened Wrappers
  import opened Words
  import opened WordLists
  import opened TodoLine
  import opened TodoLines

  /** What a ULID is written with, in the order of the values. */
  const ALPHABET := "0123456789ABCDEFGHJKMNPQRSTVWXYZ"

  /** The text of a 128-bit number: 26 characters of five bits, of which the first uses three. */
  predicate IsUlidText(u: string) {
    |u| == 26 && u[0] in "01234567" && forall i :: 0 <= i < |u| ==> u[i] in ALPHABET
  }

  /** Among the words the first that opens with `id:` and goes on is this id's. */
  ghost predicate FirstIdIs(words: seq<string>, u: Ulid) {
    && IsUlidText(u)
    && exists k :: 0 <= k < |words| && words[k] == "id:" + u && forall i :: 0 <= i < k ==> !KeyWord(words[i], "id")
  }

  function DigitAt(c: char): nat
    requires IsCrockford(c)
    ensures DigitAt(c) < 32
  {
    if c <= '9' then c as int - '0' as int
    else if c <= 'H' then c as int - 'A' as int + 10
    else if c <= 'K' then c as int - 'J' as int + 18
    else if c <= 'N' then c as int - 'M' as int + 20
    else if c <= 'T' then c as int - 'P' as int + 22
    else c as int - 'V' as int + 27
  }

  lemma CrockfordIsInAlphabet(c: char)
    requires IsCrockford(c)
    ensures ALPHABET[DigitAt(c)] == c
  {
  }

  lemma AlphabetIsCrockford(i: nat)
    requires i < |ALPHABET|
    ensures IsCrockford(ALPHABET[i])
  {
  }

  lemma UlidIsText(u: string)
    ensures IsUlid(u) <==> IsUlidText(u)
  {
    hide IsCrockford;
    if IsUlid(u) {
      forall i | 0 <= i < |u| ensures u[i] in ALPHABET {
        CrockfordIsInAlphabet(u[i]);
      }
      SmallDigit(u[0]);
    }
    if IsUlidText(u) {
      forall i | 0 <= i < |u| ensures IsCrockford(u[i]) {
        var k :| 0 <= k < |ALPHABET| && ALPHABET[k] == u[i];
        AlphabetIsCrockford(k);
      }
    }
  }

  lemma SmallDigit(c: char)
    requires IsCrockford(c) && c <= '7'
    ensures c in "01234567"
  {
    assert "01234567"[c as int - '0' as int] == c;
  }

  lemma IdIsTagKey()
    ensures TagKey("id")
  {
    IdIsNoScheme();
  }

  /** A task has an id exactly when the first `id:` word of its description is one. */
  lemma TaskIdIsFirst(t: Task, u: Ulid)
    ensures TaskId(t) == Some(u) <==> FirstIdIs(WordList(t.description), u)
  {
    hide FindTag, WordList, IsUlid, IsUlidText, TagSplit;
    IdIsTagKey();
    var words := WordList(t.description);
    if FindTag(t.description, 0, "id").None? {
      NoTagNoFind(t.description, 0, "id");
      NoIdWord(words, u);
    } else {
      var a, w, b := FindTagSplits(t.description, 0, "id");
      SplitIndex(a, w, b, "id");
      IdOfSplit(t, a, w, b);
      FirstIdWord(words, |WordList(a)|, u);
    }
  }

  lemma IdOfSplit(t: Task, a: string, w: string, b: string)
    requires t.description == a + w + b && TagSplit(a, w, b, "id")
    requires FindTag(t.description, 0, "id") == Some((|a|, |a| + |w|))
    ensures |w| > 3 && w == "id:" + w[3..]
    ensures TaskId(t) == if IsUlid(w[3..]) then Some(w[3..]) else None
  {
    hide FindTag, IsUlid, IsTagOf, WordList, TagIndex;
    TagOfKey(w, "id");
    assert "id" + ":" == "id:";
    assert t.description[|a| + 3..|a| + |w|] == w[3..];
  }

  lemma NoIdWord(words: seq<string>, u: Ulid)
    requires TagIndex(words, "id") == |words| && TagKey("id")
    ensures !FirstIdIs(words, u)
  {
    hide IsTagOf, TagIndex, IsScheme;
    forall k | 0 <= k < |words| ensures words[k] != "id:" + u || !IsUlidText(u) {
      TagIsKeyWord(words[k], "id");
    }
  }

  lemma FirstIdWord(words: seq<string>, k: nat, u: Ulid)
    requires TagKey("id") && k < |words| && TagIndex(words, "id") == k
    requires |words[k]| > 3 && words[k] == "id:" + words[k][3..]
    ensures FirstIdIs(words, u) <==> IsUlid(words[k][3..]) && u == words[k][3..]
  {
    hide IsTagOf, TagIndex, IsScheme, IsUlid, IsUlidText;
    UlidIsText(u);
    forall i | 0 <= i < |words| ensures IsTagOf(words[i], "id") <==> KeyWord(words[i], "id") {
      TagIsKeyWord(words[i], "id");
    }
    if FirstIdIs(words, u) {
      var j :| 0 <= j < |words| && words[j] == "id:" + u && forall i :: 0 <= i < j ==> !KeyWord(words[i], "id");
      UlidIsLong(u);
      assert KeyWord(words[j], "id");
      assert j == k;
    }
  }

  lemma UlidIsLong(u: string)
    requires IsUlidText(u)
    ensures |u| == 26
  {
  }

  /** The words of a line's description; none for a blank line or bytes that are no text. */
  function DescriptionWords(line: Content): seq<string> {
    match KindOf(line)
    case Some(TaskLine(t)) => WordList(t.description)
    case _ => []
  }

  /** A line has an id exactly when the first `id:` word of its description is one. */
  lemma IdIsFirstIdWord(line: Content, u: Ulid)
    ensures IdOf(line) == Some(u) <==> FirstIdIs(DescriptionWords(line), u)
  {
    hide FindTag, WordList, TaskId;
    match KindOf(line)
    case Some(TaskLine(t)) => TaskIdIsFirst(t, u);
    case _ =>
  }
}

/** A text cut into its maximal runs, of spaces and tabs or of anything else. */
module Scanner {

  predicate IsWs(c: char) {
    c == ' ' || c == '\t'
  }

  ghost predicate NoWs(s: string) {
    forall i :: 0 <= i < |s| ==> !IsWs(s[i])
  }

  /** The length of the run `s` starts with. */
  function RunLen(s: string): (n: nat)
    requires s != ""
    ensures 0 < n <= |s|
    ensures forall i :: 0 <= i < n ==> IsWs(s[i]) == IsWs(s[0])
    ensures n < |s| ==> IsWs(s[n]) != IsWs(s[0])
  {
    if |s| > 1 && IsWs(s[1]) == IsWs(s[0]) then 1 + RunLen(s[1..]) else 1
  }

  /** A run of characters with its offsets in the scanned line. */
  datatype Chunk = Chunk(start: nat, end: nat, isWs: bool)

  /** The chunks of `s`, whose first character sits at offset `base`. */
  function ChunksOf(s: string, base: nat): seq<Chunk> {
    if s == "" then [] else
    var n := RunLen(s);
    [Chunk(base, base + n, IsWs(s[0]))] + ChunksOf(s[n..], base + n)
  }

  /** `chunks` cover `raw` from `base` on: contiguous, never empty, each a maximal run of one kind. */
  ghost predicate Covers(raw: string, base: nat, chunks: seq<Chunk>)
    decreases |chunks|
  {
    if chunks == [] then base == |raw| else
    var c := chunks[0];
    && c.start == base < c.end <= |raw|
    && (forall j :: c.start <= j < c.end ==> IsWs(raw[j]) == c.isWs)
    && (c.end < |raw| ==> IsWs(raw[c.end]) != c.isWs)
    && Covers(raw, c.end, chunks[1..])
  }

  lemma {:induction false} ChunksCover(raw: string, base: nat)
    requires base <= |raw|
    ensures Covers(raw, base, ChunksOf(raw[base..], base))
    decreases |raw| - base
  {
    if base < |raw| {
      var s := raw[base..];
      var n := RunLen(s);
      ChunksCover(raw, base + n);
      assert s[n..] == raw[base + n..];
      assert forall j :: base <= j < base + n ==> raw[j] == s[j - base];
    }
  }

  method Chunks(raw: string) returns (chunks: seq<Chunk>)
    ensures chunks == ChunksOf(raw, 0)
    ensures Covers(raw, 0, chunks)
  {
    hide Covers, ChunksOf, IsWs;
    chunks := [];
    var pos := 0;
    assert raw[0..] == raw;
    while pos < |raw|
      invariant pos <= |raw|
      invariant chunks + ChunksOf(raw[pos..], pos) == ChunksOf(raw, 0)
      decreases |raw| - pos
    {
      var ws := IsWs(raw[pos]);
      var start := pos;
      while pos < |raw| && IsWs(raw[pos]) == ws
        invariant start <= pos <= |raw| && (pos == start ==> IsWs(raw[pos]) == ws)
        invariant forall j :: start <= j < pos ==> IsWs(raw[j]) == ws
        decreases |raw| - pos
      {
        pos := pos + 1;
      }
      ChunkTaken(raw, start, pos);
      chunks := chunks + [Chunk(start, pos, ws)];
    }
    NoChunksLeft(raw);
    ChunksCover(raw, 0);
  }

  lemma RunInside(raw: string, pos: nat, n: nat)
    requires pos <= |raw| && n <= |raw[pos..]|
    ensures pos + n <= |raw| && raw[pos..][n..] == raw[pos + n..] && raw[pos..][..n] == raw[pos..pos + n]
  {
  }

  /** The first of the chunks left, and what is left after it. */
  lemma NextChunk(raw: string, pos: nat, chunks: seq<Chunk>)
    requires pos <= |raw| && chunks == ChunksOf(raw[pos..], pos)
    ensures chunks == [] <==> pos == |raw|
    ensures chunks != [] ==>
              var rest, c := raw[pos..], chunks[0];
              && c == Chunk(pos, pos + RunLen(rest), IsWs(rest[0])) && c.end <= |raw|
              && raw[c.start..c.end] == rest[..RunLen(rest)]
              && raw[c.end..] == rest[RunLen(rest)..]
              && chunks[1..] == ChunksOf(raw[c.end..], c.end)
  {
    hide RunLen, IsWs;
    if pos < |raw| {
      RunInside(raw, pos, RunLen(raw[pos..]));
    }
  }

  lemma NoChunksLeft(raw: string)
    ensures ChunksOf(raw[|raw|..], |raw|) == []
  {
  }

  lemma ChunkTaken(raw: string, start: nat, end: nat)
    requires start < end <= |raw|
    requires forall j :: start <= j < end ==> IsWs(raw[j]) == IsWs(raw[start])
    requires end < |raw| ==> IsWs(raw[end]) != IsWs(raw[start])
    ensures ChunksOf(raw[start..], start) == [Chunk(start, end, IsWs(raw[start]))] + ChunksOf(raw[end..], end)
  {
    RunIs(raw[start..], end - start);
    assert raw[start..][end - start..] == raw[end..];
  }

  /** A run is the only prefix of one kind that stops at a character of the other. */
  lemma RunIs(s: string, n: nat)
    requires 0 < n <= |s|
    requires forall i :: 0 <= i < n ==> IsWs(s[i]) == IsWs(s[0])
    requires n < |s| ==> IsWs(s[n]) != IsWs(s[0])
    ensures RunLen(s) == n
  {
  }

  // ---- words at the front of a text ----

  /** The word `s` starts with; empty at the end and on whitespace. */
  function FirstWord(s: string): (w: string)
    ensures w <= s && NoWs(w)
    ensures w == "" <==> s == "" || IsWs(s[0])
  {
    if s == "" || IsWs(s[0]) then "" else s[..RunLen(s)]
  }

  lemma WordThen(w: string, t: string)
    requires w != "" && NoWs(w) && (t == "" || IsWs(t[0]))
    ensures FirstWord(w + t) == w && RunLen(w + t) == |w| && (w + t)[|w|..] == t
  {
    RunIs(w + t, |w|);
  }

  lemma SpaceThen(t: string)
    requires t != "" && !IsWs(t[0])
    ensures RunLen(" " + t) == 1 && (" " + t)[1..] == t
  {
    RunIs(" " + t, 1);
  }

  lemma FirstWordSplits(s: string)
    requires s != "" && !IsWs(s[0])
    ensures s == FirstWord(s) + s[RunLen(s)..] && |FirstWord(s)| == RunLen(s)
    ensures s[RunLen(s)..] == "" || IsWs(s[RunLen(s)..][0])
  {
  }
}

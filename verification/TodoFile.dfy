/**
 A whole file: its lines with the endings they were read with, the byte order mark, and the exact
 bytes it is written back as. Lines are byte strings; `decode` gives the text of those that are text.
 */
module TodoFile {
  import opened Octets
  import opened Wrappers
  import TodoLine

  const LF: Byte := 10
  const CR: Byte := 13
  const BOM: Bytes := [0xEF, 0xBB, 0xBF]

  /** The bytes after a line: a newline, one with a carriage return before it, or none. */
  datatype Ending = Lf | CrLf | NoEnding {
    function AsBytes(): Bytes {
      match this
      case Lf => [LF]
      case CrLf => [CR, LF]
      case NoEnding => []
    }
  }

  /** A line of a file as it is kept: what it holds, what follows it, and what was noted of it. */
  datatype OwnedLine = OwnedLine(bytes: Bytes, ending: Ending, quirks: set<TodoLine.Quirk>)

  datatype File = File(lines: seq<OwnedLine>, bom: bool, ending: Ending, trailingNewline: bool)

  // ---- reading ----

  predicate EndsWithCr(s: Bytes) {
    s != [] && s[|s| - 1] == CR
  }

  /** The line that `s` followed by a newline reads as. */
  function Cut(s: Bytes): (Bytes, Ending) {
    if EndsWithCr(s) then (s[..|s| - 1], CrLf) else (s, Lf)
  }

  /** The position of the first newline, or the length. */
  function FirstLf(s: Bytes): (r: nat)
    ensures r <= |s| && LF !in s[..r] && (r < |s| ==> s[r] == LF)
  {
    if s == [] || s[0] == LF then 0 else
    var r := FirstLf(s[1..]);
    assert s[..r + 1] == [s[0]] + s[1..][..r];
    r + 1
  }

  /** The lines of `body` in order; only the last can be without an ending, and an empty piece at the end is no line. */
  function SplitLines(body: Bytes): seq<(Bytes, Ending)>
    decreases |body|
  {
    if body == [] then [] else
    var nl := FirstLf(body);
    if nl == |body| then [(body, NoEnding)] else [Cut(body[..nl])] + SplitLines(body[nl + 1..])
  }

  function CountEnding(lines: seq<(Bytes, Ending)>, e: Ending): nat {
    if lines == [] then 0 else (if lines[0].1 == e then 1 else 0) + CountEnding(lines[1..], e)
  }

  /** The majority of `Lf` and `CrLf`; ties are `Lf`. */
  function DominantEnding(lines: seq<(Bytes, Ending)>): (e: Ending)
    ensures e != NoEnding
  {
    if CountEnding(lines, CrLf) > CountEnding(lines, Lf) then CrLf else Lf
  }

  function Body(bytes: Bytes): Bytes {
    if BOM <= bytes then bytes[|BOM|..] else bytes
  }

  /** The text of a line's bytes; nothing when they are not text. */
  type Decode = Bytes -> Option<string>

  /** What lenient parsing notes of a line, where its bytes decode. */
  function ReadQuirks(decode: Decode, bytes: Bytes): set<TodoLine.Quirk> {
    match decode(bytes)
    case None => {}
    case Some(raw) => TodoLine.QuirksOf(raw)
  }

  /** The quirks of a line in a file: its own, and an ending that is not the file's. */
  function LineQuirks(decode: Decode, bytes: Bytes, ending: Ending, dominant: Ending): set<TodoLine.Quirk> {
    ReadQuirks(decode, bytes) + if ending != NoEnding && ending != dominant then {TodoLine.MixedEnding} else {}
  }

  /** What a file holds once read. */
  ghost predicate ReadsAs(decode: Decode, bytes: Bytes, f: File) {
    var split := SplitLines(Body(bytes));
    && f.bom == (BOM <= bytes)
    && f.ending == DominantEnding(split)
    && f.trailingNewline == (Body(bytes) != [] && Body(bytes)[|Body(bytes)| - 1] == LF)
    && |f.lines| == |split|
    && forall i :: 0 <= i < |split| ==>
         f.lines[i] == OwnedLine(split[i].0, split[i].1, LineQuirks(decode, split[i].0, split[i].1, f.ending))
  }

  method SplitAll(body: Bytes) returns (split: seq<(Bytes, Ending)>)
    ensures split == SplitLines(body)
  {
    var rest: Bytes := body;
    split := [];
    while rest != []
      invariant split + SplitLines(rest) == SplitLines(body)
      decreases |rest|
    {
      var nl := FirstLf(rest);
      if nl == |rest| {
        split := split + [(rest, NoEnding)];
        rest := [];
      } else {
        split := split + [Cut(rest[..nl])];
        rest := rest[nl + 1..];
      }
    }
    assert split + [] == split;
  }

  method ParseFile(decode: Decode, bytes: Bytes) returns (f: File)
    ensures ReadsAs(decode, bytes, f)
  {
    hide SplitLines, DominantEnding, ReadQuirks;
    var bom := BOM <= bytes;
    var body := if bom then bytes[|BOM|..] else bytes;
    var split := SplitAll(body);
    var lines: seq<OwnedLine> := seq(|split|, i requires 0 <= i < |split| =>
      OwnedLine(split[i].0, split[i].1, ReadQuirks(decode, split[i].0)));
    var ending := DominantEnding(split);
    for i := 0 to |lines|
      invariant |lines| == |split|
      invariant forall j :: 0 <= j < |lines| ==>
                  lines[j] == OwnedLine(split[j].0, split[j].1, if j < i then LineQuirks(decode, split[j].0, split[j].1, ending)
                                                                else ReadQuirks(decode, split[j].0))
    {
      var line := lines[i];
      if line.ending != NoEnding && line.ending != ending {
        lines := lines[i := line.(quirks := line.quirks + {TodoLine.MixedEnding})];
      }
    }
    f := File(lines, bom, ending, body != [] && body[|body| - 1] == LF);
  }

  // ---- writing ----

  /** What is written after a line that has no ending but is followed by another: the file's own ending. */
  function Terminator(f: File): (e: Ending)
    ensures e != NoEnding
  {
    if f.ending == NoEnding then Lf else f.ending
  }

  /** What follows line `i` in the written file; every line but the last is followed by an ending. */
  function WrittenEnding(f: File, i: nat): (e: Ending)
    requires i < |f.lines|
    ensures i < |f.lines| - 1 ==> e != NoEnding
  {
    if f.lines[i].ending == NoEnding && i < |f.lines| - 1 then Terminator(f) else f.lines[i].ending
  }

  /** Lines `i` on, each followed by its ending. */
  ghost function WrittenFrom(f: File, i: nat): Bytes
    requires i <= |f.lines|
    decreases |f.lines| - i
  {
    if i == |f.lines| then [] else f.lines[i].bytes + WrittenEnding(f, i).AsBytes() + WrittenFrom(f, i + 1)
  }

  ghost function Written(f: File): Bytes {
    (if f.bom then BOM else []) + WrittenFrom(f, 0)
  }

  lemma Regroup(w: Bytes, x: Bytes, y: Bytes, z: Bytes)
    ensures w + (x + y + z) == w + x + y + z
  {
  }

  method ToBytes(f: File) returns (out: Bytes)
    ensures out == Written(f)
  {
    out := if f.bom then BOM else [];
    for i := 0 to |f.lines|
      invariant out + WrittenFrom(f, i) == Written(f)
    {
      Regroup(out, f.lines[i].bytes, WrittenEnding(f, i).AsBytes(), WrittenFrom(f, i + 1));
      out := out + f.lines[i].bytes;
      out := out + WrittenEnding(f, i).AsBytes();
    }
  }

  // ---- reading and writing back ----

  lemma CutIsExact(s: Bytes)
    ensures Cut(s).0 + Cut(s).1.AsBytes() == s + [LF]
  {
  }

  /** Only the last line can lack an ending. */
  lemma {:induction false} OnlyLastLacksEnding(body: Bytes, i: nat)
    requires i < |SplitLines(body)|
    ensures SplitLines(body)[i].1 == NoEnding ==> i == |SplitLines(body)| - 1
    decreases |body|
  {
    var nl := FirstLf(body);
    if nl < |body| && i > 0 {
      OnlyLastLacksEnding(body[nl + 1..], i - 1);
    }
  }

  ghost function Glued(lines: seq<(Bytes, Ending)>): Bytes {
    if lines == [] then [] else lines[0].0 + lines[0].1.AsBytes() + Glued(lines[1..])
  }

  lemma GluedFirst(first: (Bytes, Ending), rest: seq<(Bytes, Ending)>)
    ensures Glued([first] + rest) == first.0 + first.1.AsBytes() + Glued(rest)
    ensures Glued([]) == []
  {
    assert ([first] + rest)[1..] == rest;
  }

  lemma {:induction false} SplitThenGlue(body: Bytes)
    ensures Glued(SplitLines(body)) == body
    decreases |body|
  {
    hide Glued, Cut;
    if body == [] {
      GluedFirst(([], NoEnding), []);
    } else {
      var nl := FirstLf(body);
      if nl < |body| {
        SplitThenGlue(body[nl + 1..]);
        CutIsExact(body[..nl]);
        GluedFirst(Cut(body[..nl]), SplitLines(body[nl + 1..]));
        assert body == body[..nl] + [LF] + body[nl + 1..];
      } else {
        GluedFirst((body, NoEnding), []);
        assert [(body, NoEnding)] + [] == [(body, NoEnding)];
        assert body + [] + [] == body;
      }
    }
  }

  lemma {:induction false} WrittenAsGlued(f: File, i: nat, split: seq<(Bytes, Ending)>)
    requires i <= |f.lines| == |split|
    requires forall j :: 0 <= j < |split| ==> split[j] == (f.lines[j].bytes, WrittenEnding(f, j))
    ensures WrittenFrom(f, i) == Glued(split[i..])
    decreases |split| - i
  {
    if i < |split| {
      WrittenAsGlued(f, i + 1, split);
      assert split[i..][1..] == split[i + 1..];
    }
  }

  /** Reading a file and writing it back reproduces every byte, whatever the bytes. */
  lemma ParseThenWrite(decode: Decode, bytes: Bytes, f: File)
    requires ReadsAs(decode, bytes, f)
    ensures Written(f) == bytes
  {
    hide LineQuirks;
    var split := SplitLines(Body(bytes));
    forall j | 0 <= j < |split| ensures split[j] == (f.lines[j].bytes, WrittenEnding(f, j)) {
      OnlyLastLacksEnding(Body(bytes), j);
    }
    WrittenAsGlued(f, 0, split);
    SplitThenGlue(Body(bytes));
    assert split[0..] == split;
  }

  /** How line `i` reads back: itself, unless its own last byte is a carriage return before a bare newline. */
  ghost function Reread(f: File, i: nat): (Bytes, Ending)
    requires i < |f.lines|
  {
    if WrittenEnding(f, i) == Lf && EndsWithCr(f.lines[i].bytes)
    then (f.lines[i].bytes[..|f.lines[i].bytes| - 1], CrLf)
    else (f.lines[i].bytes, WrittenEnding(f, i))
  }

  ghost function RereadFrom(f: File, i: nat): seq<(Bytes, Ending)>
    requires i <= |f.lines|
    decreases |f.lines| - i
  {
    if i == |f.lines| || (i == |f.lines| - 1 && Reread(f, i) == ([], NoEnding)) then []
    else [Reread(f, i)] + RereadFrom(f, i + 1)
  }

  lemma FirstLfAt(s: Bytes, rest: Bytes)
    requires LF !in s
    ensures FirstLf(s + [LF] + rest) == |s|
  {
    var t := s + [LF] + rest;
    assert t[|s|] == LF && forall i :: 0 <= i < |s| ==> t[i] == s[i] && s[i] in s;
  }

  lemma SplitAtEnding(s: Bytes, e: Ending, rest: Bytes)
    requires LF !in s && e != NoEnding
    ensures SplitLines(s + e.AsBytes() + rest)
         == [if e == Lf && EndsWithCr(s) then (s[..|s| - 1], CrLf) else (s, e)] + SplitLines(rest)
  {
    hide SplitLines, EndsWithCr;
    var s' := if e == Lf then s else s + [CR];
    assert s + e.AsBytes() + rest == s' + [LF] + rest;
    SplitAtLf(s', rest);
    CutLine(s, e);
  }

  lemma SplitAtLf(s: Bytes, rest: Bytes)
    requires LF !in s
    ensures SplitLines(s + [LF] + rest) == [Cut(s)] + SplitLines(rest)
  {
    hide FirstLf, Cut;
    var t := s + [LF] + rest;
    FirstLfAt(s, rest);
    assert t[..|s|] == s && t[|s| + 1..] == rest;
  }

  lemma CutLine(s: Bytes, e: Ending)
    requires e != NoEnding
    ensures Cut(if e == Lf then s else s + [CR]) == if e == Lf && EndsWithCr(s) then (s[..|s| - 1], CrLf) else (s, e)
  {
    assert (s + [CR])[..|s|] == s;
  }

  /**
   No two lines are glued, however a file's lines were rearranged: what is written reads back as the
   same lines in the same order. Only an empty unterminated last line is not there to read.
   */
  lemma {:induction false} LinesAreNeverGlued(f: File, i: nat)
    requires i <= |f.lines| && forall j :: 0 <= j < |f.lines| ==> LF !in f.lines[j].bytes
    ensures SplitLines(WrittenFrom(f, i)) == RereadFrom(f, i)
    decreases |f.lines| - i
  {
    if i < |f.lines| {
      var s, e := f.lines[i].bytes, WrittenEnding(f, i);
      LinesAreNeverGlued(f, i + 1);
      if e != NoEnding {
        SplitAtEnding(s, e, WrittenFrom(f, i + 1));
      } else {
        assert WrittenFrom(f, i) == s;
        assert s != [] ==> FirstLf(s) == |s|;
      }
    }
  }

  // ---- the ending of the file ----

  /** The places among the first `n` of the lines that end so. */
  ghost function EndingIn(f: File, e: Ending, n: nat): set<nat> {
    set i: nat | i < n && i < |f.lines| && f.lines[i].ending == e
  }

  lemma {:induction false} CountPush(lines: seq<(Bytes, Ending)>, line: (Bytes, Ending), e: Ending)
    ensures CountEnding(lines + [line], e) == CountEnding(lines, e) + if line.1 == e then 1 else 0
  {
    if lines == [] {
      assert [line][1..] == [];
    } else {
      assert (lines + [line])[1..] == lines[1..] + [line];
      CountPush(lines[1..], line, e);
    }
  }

  lemma {:induction false} CountIsPlaces(f: File, split: seq<(Bytes, Ending)>, e: Ending, n: nat)
    requires n <= |split| == |f.lines| && forall i :: 0 <= i < |split| ==> f.lines[i].ending == split[i].1
    ensures CountEnding(split[..n], e) == |EndingIn(f, e, n)|
  {
    hide CountEnding, EndingIn;
    if n == 0 {
      assert split[..0] == [];
      NothingCounted(e);
      NoPlaces(f, e);
    } else {
      CountIsPlaces(f, split, e, n - 1);
      assert split[..n] == split[..n - 1] + [split[n - 1]];
      CountPush(split[..n - 1], split[n - 1], e);
      OneMorePlace(f, e, n);
    }
  }

  lemma NoPlaces(f: File, e: Ending)
    ensures EndingIn(f, e, 0) == {}
  {
  }

  lemma OneMorePlace(f: File, e: Ending, n: nat)
    requires 0 < n <= |f.lines|
    ensures |EndingIn(f, e, n)| == |EndingIn(f, e, n - 1)| + if f.lines[n - 1].ending == e then 1 else 0
  {
    var was := EndingIn(f, e, n - 1);
    assert n - 1 !in was;
    assert EndingIn(f, e, n) == if f.lines[n - 1].ending == e then was + {n - 1} else was;
  }

  lemma NothingCounted(e: Ending)
    ensures CountEnding([], e) == 0
  {
  }

  /** The file's ending is the one most lines have: carriage return and newline only where they are in the majority. */
  lemma EndingIsMajority(decode: Decode, bytes: Bytes, f: File)
    requires ReadsAs(decode, bytes, f)
    ensures f.ending == CrLf || f.ending == Lf
    ensures f.ending == CrLf <==> |EndingIn(f, CrLf, |f.lines|)| > |EndingIn(f, Lf, |f.lines|)|
  {
    hide SplitLines, LineQuirks, CountEnding;
    var split := SplitLines(Body(bytes));
    CountIsPlaces(f, split, CrLf, |split|);
    CountIsPlaces(f, split, Lf, |split|);
    assert split[..|split|] == split;
  }

  /** A line with no ending of its own that is written before another gets the ending of the file it was read from. */
  lemma MissingEndingIsTheFiles(decode: Decode, bytes: Bytes, was: File, f: File, i: nat)
    requires ReadsAs(decode, bytes, was) && f.ending == was.ending
    requires i + 1 < |f.lines| && f.lines[i].ending == NoEnding
    ensures WrittenFrom(f, i) == f.lines[i].bytes + was.ending.AsBytes() + WrittenFrom(f, i + 1)
  {
    hide ReadsAs;
    EndingIsMajority(decode, bytes, was);
  }

  // ---- the byte order mark and the last newline ----

  /** A byte order mark is noted and is no part of the first line. */
  lemma MarkIsKeptApart(decode: Decode, body: Bytes, f: File, g: File)
    requires !(BOM <= body) && ReadsAs(decode, BOM + body, f) && ReadsAs(decode, body, g)
    ensures f == g.(bom := true) && !g.bom
  {
    hide SplitLines, DominantEnding, LineQuirks;
    assert BOM <= BOM + body && (BOM + body)[|BOM|..] == body;
  }

  /** The file ends with a newline exactly when its last line has an ending. */
  lemma NewlineIsTheLastLines(decode: Decode, bytes: Bytes, f: File)
    requires ReadsAs(decode, bytes, f)
    ensures f.trailingNewline <==> f.lines != [] && f.lines[|f.lines| - 1].ending != NoEnding
  {
    hide SplitLines, DominantEnding, LineQuirks;
    LastEnding(Body(bytes));
  }

  lemma {:induction false} SplitStep(body: Bytes)
    ensures SplitLines(body) ==
            if body == [] then [] else
            var nl := FirstLf(body);
            if nl == |body| then [(body, NoEnding)] else [Cut(body[..nl])] + SplitLines(body[nl + 1..])
  {
  }

  lemma {:induction false} LastEnding(body: Bytes)
    ensures var split := SplitLines(body);
            && (split == [] <==> body == [])
            && (body != [] && body[|body| - 1] == LF <==> split != [] && split[|split| - 1].1 != NoEnding)
    decreases |body|
  {
    hide SplitLines, Cut;
    SplitStep(body);
    if body != [] {
      var nl := FirstLf(body);
      if nl == |body| {
        assert body[..nl] == body && body[|body| - 1] in body;
      } else {
        CutHasEnding(body[..nl]);
        var rest := body[nl + 1..];
        LastEnding(rest);
        assert body[|body| - 1] == if rest == [] then body[nl] else rest[|rest| - 1];
      }
    }
  }

  lemma CutHasEnding(s: Bytes)
    ensures Cut(s).1 != NoEnding
  {
  }
}

/** The ending of a file and the lines that do not have it. */
module FileEndings {
  import opened Octets
  import opened Wrappers
  import opened TodoFile
  import TodoLine
  import Deviations

  lemma OwnQuirksAreNotMixed(decode: Decode, bytes: Bytes)
    ensures TodoLine.MixedEnding !in ReadQuirks(decode, bytes)
  {
    hide TodoLine.QuirksOf;
    match decode(bytes)
    case None =>
    case Some(raw) =>
      if raw == "" {
        BlankHasNoQuirks();
      } else {
        NotAmongOwn(raw);
      }
  }

  lemma BlankHasNoQuirks()
    ensures TodoLine.QuirksOf("") == {}
  {
  }

  lemma NotAmongOwn(raw: string)
    requires raw != ""
    ensures TodoLine.MixedEnding !in TodoLine.QuirksOf(raw)
  {
    hide *;
    Deviations.NotedIffDeviates(raw, TodoLine.MixedEnding);
    NeverMixed(raw);
  }

  lemma NeverMixed(raw: string)
    ensures !Deviations.Deviates(raw, TodoLine.MixedEnding)
  {
  }

  /** A line is marked as mixed exactly when it has an ending that is not the file's. */
  lemma MixedIsOtherEnding(decode: Decode, bytes: Bytes, f: File, i: nat)
    requires ReadsAs(decode, bytes, f) && i < |f.lines|
    ensures TodoLine.MixedEnding in f.lines[i].quirks <==> f.lines[i].ending != NoEnding && f.lines[i].ending != f.ending
  {
    hide SplitLines, DominantEnding, ReadQuirks;
    OwnQuirksAreNotMixed(decode, f.lines[i].bytes);
  }

  /** When all lines that have an ending have the same one, it is the file's, and no line is marked as mixed. */
  lemma OneEndingIsTheFiles(decode: Decode, bytes: Bytes, f: File, e: Ending)
    requires ReadsAs(decode, bytes, f) && e != NoEnding
    requires exists i :: 0 <= i < |f.lines| && f.lines[i].ending == e
    requires forall i :: 0 <= i < |f.lines| ==> f.lines[i].ending == e || f.lines[i].ending == NoEnding
    ensures f.ending == e && forall i :: 0 <= i < |f.lines| ==> TodoLine.MixedEnding !in f.lines[i].quirks
  {
    hide ReadsAs;
    EndingIsMajority(decode, bytes, f);
    var i :| 0 <= i < |f.lines| && f.lines[i].ending == e;
    assert i in EndingIn(f, e, |f.lines|);
    var other := if e == CrLf then Lf else CrLf;
    assert EndingIn(f, other, |f.lines|) == {};
    forall i: nat | i < |f.lines| ensures TodoLine.MixedEnding !in f.lines[i].quirks {
      MixedIsOtherEnding(decode, bytes, f, i);
    }
  }

  /** A file of one line that ends in a newline alone. */
  lemma OneLineFile(decode: Decode, f: File)
    requires ReadsAs(decode, [97, LF], f)
    ensures f == File([OwnedLine([97], Lf, ReadQuirks(decode, [97]))], false, Lf, true)
  {
    hide DominantEnding, SplitLines, ReadQuirks;
    assert [97] + [LF] + [] == [97, LF] == Body([97, LF]);
    SplitAtLf([97], []);
    NoLines();
    EndingIsMajority(decode, [97, LF], f);
    assert EndingIn(f, CrLf, 1) == {};
    assert |f.lines| == 1 && f.lines == [f.lines[0]];
    assert {} + ReadQuirks(decode, [97]) == ReadQuirks(decode, [97]);
  }

  lemma NoLines()
    ensures SplitLines([]) == []
  {
  }
}

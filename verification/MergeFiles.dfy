/**
 Merges with one unchanged side, as whole files: when the result is the other side's file to the last byte, and
 when it only gains a newline at its end.
 */
module MergeFiles {
  import opened Lines
  import opened Merge3
  import opened MergeOrder

  /** A file without a final newline gains one when the other side ends in one. */
  predicate KeepsEnd(file: string, other: string) {
    file == "" || EndsWithNewline(file) || !EndsWithNewline(other)
  }

  /** A file's own lines joined are the file again, but for the newline at its end. */
  lemma JoinedAgain(file: string, ours: string, theirs: string)
    ensures JoinSides(LinesOf(file), ours, theirs) == file <==>
              file == "" || (EndsWithNewline(file) <==> EndsWithNewline(ours) || EndsWithNewline(theirs))
  {
    hide Join, Split;
    if file != "" {
      var body := if EndsWithNewline(file) then file[..|file| - 1] else file;
      JoinSplit(body);
      BodyAndEnd(file, body);
    }
  }

  lemma BodyAndEnd(file: string, body: string)
    requires file != "" && body == if EndsWithNewline(file) then file[..|file| - 1] else file
    ensures body + "\n" == file <==> EndsWithNewline(file)
    ensures body == file <==> !EndsWithNewline(file)
  {
    assert (body + "\n")[|body|] == '\n';
  }

  /**
   When `theirs` has the base's lines, or ours', in whatever order, the merge is exactly the file of `ours` if
   and only if that is empty or ends in a newline, or `theirs` does not.
   */
  lemma UnchangedTheirsFile(base: string, ours: string, theirs: string)
    requires multiset(LinesOf(theirs)) == multiset(LinesOf(base)) || multiset(LinesOf(theirs)) == multiset(LinesOf(ours))
    ensures MergedText(base, ours, theirs) == ours <==> KeepsEnd(ours, theirs)
  {
    hide Merged, LinesOf, JoinSides, EndsWithNewline;
    UnchangedTheirsLeavesOurs(LinesOf(base), LinesOf(ours), LinesOf(theirs));
    JoinedAgain(ours, ours, theirs);
  }

  /** Joined lines that are the file of `theirs` are its lines. */
  lemma JoinedIsTheirs(out: seq<string>, ours: string, theirs: string)
    requires AllNewlineFree(out) && JoinSides(out, ours, theirs) == theirs
    ensures out == LinesOf(theirs) || (out == [""] && theirs == "")
  {
    hide LinesOf, Join;
    ReadBack(out, ours, theirs);
    if LosesLastBlank(out, ours, theirs) {
      JoinEnds(out);
    }
  }

  lemma NothingOfNothing(b: seq<string>)
    ensures Merged(b, b, []) != [""]
  {
    hide Merged;
    MergedCopies(b, b, [], "");
    WantKeepsPromises(Copies(b, ""), Copies(b, ""), Copies([], ""));
    assert [""][0] == "" && Copies([""], "") == 1;
  }

  /**
   When `ours` is the unchanged side, the merge is exactly the file of `theirs` if and only if the shared lines
   stand in one order, no added line comes right after a line that is shared again further on, and `theirs`
   is empty or ends in a newline, or `ours` does not.
   */
  lemma UnchangedOursFile(base: string, theirs: string)
    ensures var b, t := LinesOf(base), LinesOf(theirs);
            MergedText(base, base, theirs) == theirs <==>
              Shared(b, t, 0) == Shared(t, b, 0) && AddedAfterLast(b, t, 0) && KeepsEnd(theirs, base)
  {
    hide Merged, JoinSides, EndsWithNewline, Shared, AddedAfterLast, Split;
    var b, t := LinesOf(base), LinesOf(theirs);
    UnchangedOursGivesTheirs(b, t);
    MergedIsNewlineFree(b, b, t);
    JoinedAgain(theirs, base, theirs);
    if MergedText(base, base, theirs) == theirs {
      JoinedIsTheirs(Merged(b, b, t), base, theirs);
      NothingOfNothing(b);
    }
  }

  /** One line, with and without a newline at its end. */
  lemma OneLine()
    ensures LinesOf("a\n") == LinesOf("a") == ["a"] && EndsWithNewline("a\n") && !EndsWithNewline("a")
  {
    assert "a\n"[..1] == "a";
    SplitOne("a");
  }

  /** `theirs` is the base, and ours gains a final newline. */
  lemma UnchangedTheirsAddsNewline()
    ensures MergedText("a\n", "a", "a\n") == "a\n" != "a"
  {
    hide Merged, LinesOf, EndsWithNewline;
    OneLine();
    UnchangedTheirsLeavesOurs(["a"], ["a"], ["a"]);
    assert "a" + "\n" == "a\n";
  }

  /** `ours` is the base, the lines are theirs in their order, and theirs gains a final newline. */
  lemma UnchangedOursAddsNewline()
    ensures Merged(LinesOf("a\n"), LinesOf("a\n"), LinesOf("a")) == LinesOf("a")
    ensures MergedText("a\n", "a\n", "a") == "a\n" != "a"
  {
    hide Merged, LinesOf, EndsWithNewline;
    OneLine();
    UnchangedTheirsLeavesOurs(["a"], ["a"], ["a"]);
    assert "a" + "\n" == "a\n";
  }
}

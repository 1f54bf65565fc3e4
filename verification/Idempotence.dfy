/**
 Completing a line again and reopening one again: inside one edit neither does anything, and between edits,
 through emitted text and a re-parse, only completing is sure not to.
 */
module Idempotence {
  import opened Wrappers
  import opened Scanner
  import opened Words
  import opened Dates
  import opened TodoLine
  import opened TodoEdit
  import opened Grammar
  import opened Completion

  /** A line reads leniently as done exactly when its first word is `x`. */
  lemma ReadsDone(raw: string)
    ensures DraftOf(raw).prefix.completed <==> FirstWord(raw) == "x"
  {
    hide ParsePrefix, CheckRuns, FirstWord;
    LenientPrefix(raw);
    LenientRuns(|raw|, ParsePrefix(Lenient, raw).state, true);
    BlankHasNoWord();
  }

  lemma BlankHasNoWord()
    ensures FirstWord("") == ""
  {
  }

  lemma NothingEdited(raw: string, op: Op)
    requires ApplyOp(DraftOf(raw), op) == DraftOf(raw)
    ensures Edited(raw, [op]) == raw
  {
    hide DraftOf, ApplyOp, EmitPrefix, SetTag;
    ApplyOne(DraftOf(raw), op);
  }

  // ---- inside one edit ----

  lemma ApplyTwo(d: Draft, op: Op, again: Op)
    ensures ApplyOps(d, [op, again]) == ApplyOp(ApplyOp(d, op), again)
  {
    hide ApplyOp;
    assert [op, again][1..] == [again];
    ApplyOne(ApplyOp(d, op), again);
  }

  /** Once more in the same edit, completing and reopening change nothing. */
  lemma AgainInOneEdit(raw: string, today: Date, later: Date)
    ensures Edited(raw, [Complete(today), Complete(later)]) == Edited(raw, [Complete(today)])
    ensures Edited(raw, [Uncomplete, Uncomplete]) == Edited(raw, [Uncomplete])
  {
    hide DraftOf, EmitPrefix, SetTag, PriTagLetter, RemoveTag;
    var d := DraftOf(raw);
    ApplyOne(d, Complete(today));
    ApplyTwo(d, Complete(today), Complete(later));
    ApplyOne(d, Uncomplete);
    ApplyTwo(d, Uncomplete, Uncomplete);
  }

  // ---- in another edit ----

  lemma DoneStartsWithX(p: Prefix, desc: string)
    requires p.completed && p.completionDate.Some?
    ensures FirstWord(Printed(p, desc)) == "x"
  {
    hide ShowDate, Dated, FirstWord;
    var rest := Dated(p.creationDate, desc);
    var tail := " " + ShowDate(p.completionDate.value) + Sep(rest) + rest;
    assert Printed(p, desc) == "x" + tail;
    XIsWord();
    WordThen("x", tail);
  }

  /** What completing a line that does not read as done writes. */
  lemma NewlyDone(raw: string, today: Date)
    requires !DraftOf(raw).prefix.completed
    ensures var d := CompleteDraft(DraftOf(raw), today);
            Edited(raw, [Complete(today)]) == Printed(d.prefix, d.description)
    ensures var p := CompleteDraft(DraftOf(raw), today).prefix; p.completed && p.completionDate.Some?
  {
    hide DraftOf, EmitPrefix, Printed, SetTag;
    var d := CompleteDraft(DraftOf(raw), today);
    ApplyOne(DraftOf(raw), Complete(today));
    PrintedIsEmitted(d.prefix, d.description);
  }

  /** A completed line completed again, on whatever day, stays as it is, whatever the line was. */
  lemma CompleteTwice(raw: string, today: Date, later: Date)
    ensures Edited(Edited(raw, [Complete(today)]), [Complete(later)]) == Edited(raw, [Complete(today)])
  {
    hide DraftOf, Edited, Printed, FirstWord, SetTag;
    var done := Edited(raw, [Complete(today)]);
    if DraftOf(raw).prefix.completed {
      NothingEdited(raw, Complete(today));
    } else {
      var d := CompleteDraft(DraftOf(raw), today);
      NewlyDone(raw, today);
      DoneStartsWithX(d.prefix, d.description);
    }
    ReadsDone(done);
    NothingEdited(done, Complete(later));
  }

  /** Reopening a line that reads as done always changes it. */
  lemma ReopeningChanges(raw: string)
    requires DraftOf(raw).prefix.completed
    ensures Edited(raw, [Uncomplete]) != raw
  {
    hide DraftOf, Edited, ParseLine, FirstWord, Printed, RemoveTag, PriTagLetter;
    var d := DraftOf(raw);
    ReadsDone(raw);
    LenientIsTotal(raw);
    ReopenedText(raw, d);
    var r := UncompleteDraft(d);
    UncompleteOpens(d);
    RemoveTagShortens(d.description, "pri");
    assert raw[0] == FirstWord(raw)[0] == 'x';
    OpenFirstChar(r.prefix, r.description);
  }

  /** A done line with nothing before its description once reopened, which then starts with a mark of its own. */
  predicate ReopensMarked(d: Draft) {
    && d.prefix.completed && d.prefix.priority.None? && d.prefix.creationDate.None?
    && PriTagLetter(d.description).None? && FirstWord(d.description) == "x"
  }

  lemma ReopenedReadsDone(d: Draft)
    requires d.prefix.completed
    ensures var r := UncompleteDraft(d); FirstWord(Printed(r.prefix, r.description)) == "x" <==> ReopensMarked(d)
  {
    hide FirstWord, RemoveTag, PriTagLetter, ShowDate;
    var r := UncompleteDraft(d);
    var text := Printed(r.prefix, r.description);
    assert FirstWord(text) == "x" ==> text[0] == FirstWord(text)[0] == 'x';
    if r.prefix.priority.None? && r.prefix.creationDate.Some? {
      assert text[0] == ShowDate(r.prefix.creationDate.value)[0];
      assert IsDigit(ShowDate(r.prefix.creationDate.value)[0]);
    }
  }

  /**
   Reopening a line again changes nothing if and only if the first reopening did not uncover another mark: a
   done line with no priority, no creation date and no `pri:P` tag whose description starts with `x`.
   */
  lemma ReopenTwice(raw: string)
    ensures Edited(Edited(raw, [Uncomplete]), [Uncomplete]) == Edited(raw, [Uncomplete]) <==> !ReopensMarked(DraftOf(raw))
  {
    hide DraftOf, Edited, Printed, FirstWord, PriTagLetter, RemoveTag, UncompleteDraft;
    var d, once := DraftOf(raw), Edited(raw, [Uncomplete]);
    if d.prefix.completed {
      ReopenedText(raw, d);
      ReopenedReadsDone(d);
      ReadsDone(once);
      if ReopensMarked(d) {
        ReopeningChanges(once);
      } else {
        OpenStays(once);
      }
    } else {
      OpenStays(raw);
    }
  }

  lemma OpenStays(raw: string)
    requires !DraftOf(raw).prefix.completed
    ensures Edited(raw, [Uncomplete]) == raw
  {
    hide DraftOf, Edited, PriTagLetter, RemoveTag;
    NothingEdited(raw, Uncomplete);
  }
}

/**
 A line that changed under its id: one step of the diff and one edit of the plan, at any two such lines and at
 two written out.
 */
module ChangedLines {
  import opened Wrappers
  import opened Lists
  import opened Scanner
  import opened Words
  import opened WordLists
  import opened Dates
  import opened TodoLine
  import opened TodoEdit
  import opened TodoLines
  import opened Completion
  import opened StrictLines
  import opened LineIds
  import opened LineDiffs
  import opened LineKeys
  import opened LineEdits
  import opened PlanCheck
  import opened DiffPlan
  import opened InPlacePlans
  import CompletePlan
  import ArchivePlan

  /** Whatever the hash, the diff of a line that changed under its id is one change. */
  lemma ChangeUnderId(hash: Content -> int, was: Content, now: Content, u: Ulid, out: seq<LineDiff>)
    requires was != now && IdOf(was) == IdOf(now) == Some(u)
    ensures DiffOf([was], [now], KeysOf(hash, [was]), KeysOf(hash, [now]), out) <==> out == [Change(0, 0)]
  {
    hide IdOf, DiffOf;
    CollisionIsChange(hash, was, now, out);
  }

  /** Unless the line was completed, what goes out is one edit that names it by its number and its id. */
  lemma EditUnderId(was: Content, now: Content, u: Ulid)
    requires was != now && IdOf(was) == IdOf(now) == Some(u) && CompletePlan.CompletionOf(was, now).None?
    ensures now.Text? && CompletePlan.PlanOf([was], [now]).None? && ArchivePlan.PlanOf([was], [now]).None?
    ensures InFiles([Change(0, 0)], [was], [now])
    ensures FromDiff([Change(0, 0)], [was], [now]) == Some([EditLine(TaskRef(1, u), now.text)])
    ensures Reproduces([was], [now], [EditLine(TaskRef(1, u), now.text)])
  {
    hide IdOf, FromDiff, EditsTo, SameOrder, Editable, Addressable, Replayed, InFiles, InPlace, IsEmpty;
    hide CompletePlan.CompletionOf, CompletePlan.PlanOf, ArchivePlan.PlanOf;
    var before, after := [was], [now];
    LinesWithIdsAreTasks(was);
    LinesWithIdsAreTasks(now);
    StaysUnderId(was, now, u);
    SameOrderIsNotArchived(before, after);
    NotCompleted(was, now);
    OneEdit(was, now, u);
    OneChangeInPlace(was, now);
    SameOrderIsEdits(before, after, [Change(0, 0)]);
    EditsReachTarget(before, after);
  }

  lemma StaysUnderId(was: Content, now: Content, u: Ulid)
    requires IdOf(was) == IdOf(now) == Some(u)
    ensures SameOrder([was], [now])
  {
    hide IdOf;
  }

  lemma OneChangeInPlace(was: Content, now: Content)
    requires was != now
    ensures InFiles([Change(0, 0)], [was], [now]) && InPlace([was], [now], 0) == Change(0, 0)
  {
  }

  lemma OneEdit(was: Content, now: Content, u: Ulid)
    requires was != now && IdOf(was) == Some(u) && now.Text? && !IsEmpty(was) && !IsEmpty(now)
    ensures Editable([was], [now], 1) && Addressable([was], [now], 1)
    ensures EditsTo([was], [now], 1) == [EditLine(TaskRef(1, u), now.text)]
  {
    hide IdOf;
    assert EditsTo([was], [now], 0) == [];
  }

  lemma NotCompleted(was: Content, now: Content)
    requires was != now && CompletePlan.CompletionOf(was, now).None?
    ensures CompletePlan.PlanOf([was], [now]).None?
  {
    hide CompletePlan.PlanOf, CompletePlan.CompletedAt;
    CompletePlan.PlanIffCompleted([was], [now]);
    forall at ensures !CompletePlan.CompletedAt([was], [now], at) {
      NoPlace(was, now, at);
    }
  }

  lemma NoPlace(was: Content, now: Content, at: seq<nat>)
    requires was != now && CompletePlan.CompletionOf(was, now).None?
    ensures !CompletePlan.CompletedAt([was], [now], at)
  {
    hide CompletePlan.CompletionOf, CompletePlan.IsCounterpart, CompletePlan.DoneMovedLast, CompletePlan.StayCount;
    if |at| == 1 && Within(at, 1) {
      assert !CompletePlan.Expressed([was], [now], at, 0);
    }
  }

  // ---- two lines written out ----

  const ULID := "01ARZ3NDEKTSV4RRFFQ69G5FAV"

  lemma UlidIsUlid()
    ensures IsUlid(ULID)
  {
  }

  /** A word, a space and an id word, as a line. */
  lemma WordAndId(w: string, u: Ulid)
    requires w != "" && NoWs(w) && |w| < 3 && w != "x" && IsUlidText(u)
    ensures DraftOf(w + " " + ("id:" + u)) == Draft(NO_PREFIX, w + " " + ("id:" + u))
    ensures WordList(w + " " + ("id:" + u)) == [w, "id:" + u]
    ensures FirstIdIs([w, "id:" + u], u)
  {
    hide WordList, FirstWord, ParseDate, DraftOf, IsUlidText;
    var id, d := "id:" + u, w + " " + ("id:" + u);
    IdHasNoWs(u);
    assert d == w + (" " + id);
    WordThen(w, " " + id);
    WordFirst(w, " " + id);
    GapFirst(" ", id);
    OneWordList(id);
    ShortIsNoDate(w);
    ReadsAsPrinted(NO_PREFIX, d);
    assert [w, id][1] == "id:" + u && !KeyWord([w, id][0], "id");
  }

  lemma IdHasNoWs(u: Ulid)
    requires IsUlidText(u)
    ensures NoWs("id:" + u)
  {
    UlidIsText(u);
  }

  lemma KindOfDraft(raw: string)
    requires raw != ""
    ensures KindOf(Text(raw)).Some? && KindOf(Text(raw)).value.TaskLine?
    ensures PrefixOf(KindOf(Text(raw)).value.task) == DraftOf(raw).prefix
    ensures KindOf(Text(raw)).value.task.description == DraftOf(raw).description
  {
    hide ParseTask;
    LenientIsTotal(raw);
  }

  lemma LineWithId(w: string, u: Ulid)
    requires w != "" && NoWs(w) && |w| < 3 && w != "x" && IsUlidText(u)
    ensures var line := Text(w + " " + ("id:" + u)); IdOf(line) == Some(u)
    ensures !DraftOf(w + " " + ("id:" + u)).prefix.completed
  {
    hide WordList, DraftOf, KindOf, IdOf, IsUlidText, FirstIdIs;
    WordAndId(w, u);
    KindOfDraft(w + " " + ("id:" + u));
    IdIsFirstIdWord(Text(w + " " + ("id:" + u)), u);
  }

  lemma OpenIsNoCompletion(was: Content, raw: string)
    requires raw != "" && !DraftOf(raw).prefix.completed
    ensures CompletePlan.CompletionOf(was, Text(raw)).None?
  {
    hide DraftOf, Edited, KindOf;
    KindOfDraft(raw);
  }

  /** A short word and an id, as a line. */
  function Worded(w: string, u: Ulid): Content {
    Text(w + " " + ("id:" + u))
  }

  lemma WordsDiffer(v: string, w: string, u: Ulid)
    requires |v| == |w| && v != w
    ensures Worded(v, u) != Worded(w, u)
  {
    var s, t := v + " " + ("id:" + u), w + " " + ("id:" + u);
    assert s[..|v|] == v && t[..|w|] == w;
  }

  /** Another word beside the same id: one change to the diff whatever the hash, and one edit to the plan. */
  lemma WordChanged(hash: Content -> int, v: string, w: string, u: Ulid)
    requires |v| == |w| == 1 && v != w && NoWs(v) && NoWs(w) && v != "x" && w != "x" && IsUlidText(u)
    ensures var was, now := Worded(v, u), Worded(w, u);
            && IdOf(was) == IdOf(now) == Some(u)
            && (forall out :: DiffOf([was], [now], KeysOf(hash, [was]), KeysOf(hash, [now]), out) <==> out == [Change(0, 0)])
            && CompletePlan.PlanOf([was], [now]).None? && ArchivePlan.PlanOf([was], [now]).None?
            && InFiles([Change(0, 0)], [was], [now])
            && FromDiff([Change(0, 0)], [was], [now]) == Some([EditLine(TaskRef(1, u), now.text)])
  {
    hide IdOf, DraftOf, DiffOf, KeysOf, FromDiff, CompletePlan.CompletionOf, IsUlidText, CompletePlan.PlanOf, ArchivePlan.PlanOf;
    var was, now := Worded(v, u), Worded(w, u);
    LineWithId(v, u);
    LineWithId(w, u);
    WordsDiffer(v, w, u);
    OpenIsNoCompletion(was, now.text);
    EditUnderId(was, now, u);
    forall out ensures DiffOf([was], [now], KeysOf(hash, [was]), KeysOf(hash, [now]), out) <==> out == [Change(0, 0)] {
      ChangeUnderId(hash, was, now, u, out);
    }
  }

  lemma UlidIsText26()
    ensures IsUlidText(ULID)
  {
    hide *;
    UlidIsUlid();
    UlidIsText(ULID);
  }

  lemma WrittenLine(u: Ulid)
    ensures Worded("a", u) == Text("a id:" + u) && Worded("b", u) == Text("b id:" + u)
  {
    assert "a" + " " + ("id:" + u) == "a id:" + u && "b" + " " + ("id:" + u) == "b id:" + u;
  }

  lemma Letters()
    ensures NoWs("a") && NoWs("b")
  {
  }

  /** Two lines written out: both have the id, so the diff is one change whatever the hash, and the plan one edit. */
  lemma WrittenOut(hash: Content -> int, was: Content, now: Content)
    requires was == Text("a id:" + ULID) && now == Text("b id:" + ULID)
    ensures IdOf(was) == IdOf(now) == Some(ULID)
    ensures forall out :: DiffOf([was], [now], KeysOf(hash, [was]), KeysOf(hash, [now]), out) <==> out == [Change(0, 0)]
    ensures CompletePlan.PlanOf([was], [now]).None? && ArchivePlan.PlanOf([was], [now]).None?
    ensures InFiles([Change(0, 0)], [was], [now])
    ensures FromDiff([Change(0, 0)], [was], [now]) == Some([EditLine(TaskRef(1, ULID), now.text)])
  {
    hide *;
    UlidIsText26();
    WrittenLine(ULID);
    Letters();
    WordChanged(hash, "a", "b", ULID);
  }
}

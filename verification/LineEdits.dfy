/**
 Edits that turn some lines of a file into others where they stand. An edit shifts nothing, so each can
 keep the old file's numbering, except for lines too far down for a number to be written.
 */
module LineEdits {
  import opened Wrappers
  import opened TodoLines
  import opened PlanCheck

  /** One edit per line among the first `i` that `target` has otherwise. */
  function EditsTo(before: Lines, target: Lines, i: nat): (r: seq<Mutation>)
    requires |target| == |before| && i <= |before|
    requires Editable(before, target, i)
    ensures |r| <= i
  {
    if i == 0 then []
    else if target[i - 1] == before[i - 1] then EditsTo(before, target, i - 1)
    else EditsTo(before, target, i - 1) + [EditLine(TaskRefAt(before[i - 1], NumberOf(i - 1)), target[i - 1].text)]
  }

  /** The lines that change are tasks, and become text that is not blank. */
  predicate Editable(before: Lines, target: Lines, i: nat)
    requires |target| == |before| && i <= |before|
  {
    forall j :: 0 <= j < i && target[j] != before[j] ==> !IsEmpty(before[j]) && !IsEmpty(target[j]) && target[j].Text?
  }

  /** Every changed line among the first `i` has a number a reference can carry. */
  predicate Addressable(before: Lines, target: Lines, i: nat)
    requires |target| == |before| && i <= |before|
  {
    forall j :: 0 <= j < i && target[j] != before[j] ==> j < U32_MAX
  }

  /** What the edits of the first `i` lines leave, addressable or not. */
  ghost predicate EditedSoFar(before: Lines, target: Lines, i: nat, lines: Lines)
    requires |target| == |before| && i <= |before|
  {
    && |lines| == |before|
    && (forall j :: U32_MAX <= j < |lines| ==> lines[j] == before[j])
    && (forall j :: 0 <= j < |lines| && !IsEmpty(before[j]) ==> !IsEmpty(lines[j]))
    && (Addressable(before, target, i) ==> forall j :: 0 <= j < |lines| ==> lines[j] == if j < i then target[j] else before[j])
  }

  lemma EditStep(before: Lines, target: Lines, i: nat, lines: Lines, m: Mutation)
    requires |target| == |before| && i < |before| && EditedSoFar(before, target, i, lines)
    requires target[i] != before[i] && !IsEmpty(target[i]) && !IsEmpty(before[i])
    requires m.EditLine? && m.task.lineNumber == NumberOf(i) && Text(m.newLine) == target[i]
    ensures Step(lines, m).Some? ==> EditedSoFar(before, target, i + 1, Step(lines, m).value)
    ensures Addressable(before, target, i + 1) || !IsEmpty(lines[NumberOf(i) - 1]) ==> Step(lines, m).Some?
  {
    var at := if i < U32_MAX then i else U32_MAX - 1;
    if !IsEmpty(lines[at]) {
      assert Step(lines, m) == Some(lines[at := target[i]]);
    }
    assert i >= U32_MAX ==> !Addressable(before, target, i + 1);
  }

  lemma {:induction false} EditsReplay(before: Lines, target: Lines, i: nat)
    requires |target| == |before| && i <= |before| && Editable(before, target, i)
    ensures var lines := Replayed(before, EditsTo(before, target, i));
            && (lines.Some? ==> EditedSoFar(before, target, i, lines.value))
            && (Addressable(before, target, i) || NoneEmpty(before) ==> lines.Some?)
  {
    hide EditedSoFar, Step, NumberOf, IdText, IsEmpty;
    if i == 0 {
      EditedAtFirst(before, target);
    } else {
      EditsReplay(before, target, i - 1);
      var out := EditsTo(before, target, i - 1);
      if target[i - 1] == before[i - 1] {
        KeepStep(before, target, i - 1, out);
      } else {
        var m := EditLine(TaskRefAt(before[i - 1], NumberOf(i - 1)), target[i - 1].text);
        ReplayedPush(before, out, m);
        if Replayed(before, out).Some? {
          EditStep(before, target, i - 1, Replayed(before, out).value, m);
          NumberNamesTask(before, target, i - 1, Replayed(before, out).value);
        }
      }
    }
  }

  lemma EditedAtFirst(before: Lines, target: Lines)
    requires |target| == |before|
    ensures EditedSoFar(before, target, 0, before)
  {
  }

  lemma KeepStep(before: Lines, target: Lines, i: nat, out: seq<Mutation>)
    requires |target| == |before| && i < |before| && target[i] == before[i]
    ensures var lines := Replayed(before, out);
            lines.Some? && EditedSoFar(before, target, i, lines.value) ==> EditedSoFar(before, target, i + 1, lines.value)
  {
    hide Replayed;
  }

  lemma NumberNamesTask(before: Lines, target: Lines, i: nat, lines: Lines)
    requires |target| == |before| && i < |before| && EditedSoFar(before, target, i, lines)
    ensures NoneEmpty(before) ==> !IsEmpty(lines[NumberOf(i) - 1])
  {
  }

  /** The edits give the target exactly when every changed line can be numbered. */
  lemma EditsReachTarget(before: Lines, target: Lines)
    requires |target| == |before| && Editable(before, target, |before|)
    ensures Replayed(before, EditsTo(before, target, |before|)) == Some(target) <==> Addressable(before, target, |before|)
  {
    hide Replayed, IsEmpty;
    EditsReplay(before, target, |before|);
    var lines := Replayed(before, EditsTo(before, target, |before|));
    if Addressable(before, target, |before|) {
      assert lines.value == target;
    }
  }
}

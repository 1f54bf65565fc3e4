/**
 Character-level diffs as runs of edits, and the two-cursor replay that turns one evolving text into
 the target. A Delete's position counts the source, an Insert's the target.
 */
module TextDiff {
  import opened EditGraph
  import Myers

  datatype TextEdit = TextInsert(at: nat, text: string) | TextDelete(at: nat, len: nat)

  /** The replayed text with its cursors: the next unconsumed source char, the target chars produced. */
  datatype Replay = Replay(text: string, cursor: nat, emitted: nat) | Failed

  /** One edit of the replay; it fails where a cursor assertion or a text position would. */
  function Apply(r: Replay, edit: TextEdit): Replay {
    if r.Failed? then Failed else
    match edit
    case TextDelete(at, len) =>
      var pos := r.emitted + at - r.cursor;
      if at < r.cursor || pos + len > |r.text| then Failed
      else Replay(r.text[..pos] + r.text[pos + len..], at + len, pos)
    case TextInsert(at, s) =>
      if at < r.emitted || at > |r.text| then Failed
      else Replay(r.text[..at] + s + r.text[at..], r.cursor + (at - r.emitted), at + |s|)
  }

  /** The replay of a whole edit list, from the left. */
  function Replayed(a: string, edits: seq<TextEdit>): Replay {
    if edits == [] then Replay(a, 0, 0) else Apply(Replayed(a, edits[..|edits| - 1]), edits[|edits| - 1])
  }

  /** Behind what was written, the text still is what is left of the source. */
  lemma {:induction false} SourceIsLeft(a: string, edits: seq<TextEdit>)
    requires Replayed(a, edits).Replay?
    ensures var r := Replayed(a, edits); r.cursor <= |a| && r.emitted <= |r.text| && r.text[r.emitted..] == a[r.cursor..]
  {
    hide Replayed;
    if edits == [] {
      NothingReplayed(a);
    } else {
      var init, edit := edits[..|edits| - 1], edits[|edits| - 1];
      LastReplayed(a, edits);
      SourceIsLeft(a, init);
      LeftAfter(a, Replayed(a, init), edit);
    }
  }

  lemma LastReplayed(a: string, edits: seq<TextEdit>)
    requires edits != []
    ensures Replayed(a, edits) == Apply(Replayed(a, edits[..|edits| - 1]), edits[|edits| - 1])
  {
  }

  lemma LeftAfter(a: string, r: Replay, edit: TextEdit)
    requires r.Replay? && r.cursor <= |a| && r.emitted <= |r.text| && r.text[r.emitted..] == a[r.cursor..]
    requires Apply(r, edit).Replay?
    ensures var r' := Apply(r, edit); r'.cursor <= |a| && r'.emitted <= |r'.text| && r'.text[r'.emitted..] == a[r'.cursor..]
  {
    assert |r.text| - r.emitted == |a| - r.cursor;
    match edit
    case TextDelete(at, len) =>
      var pos := r.emitted + at - r.cursor;
      assert (r.text[..pos] + r.text[pos + len..])[pos..] == r.text[pos + len..] == r.text[r.emitted..][at + len - r.cursor..];
      assert a[r.cursor..][at + len - r.cursor..] == a[at + len..];
    case TextInsert(at, s) =>
      assert (r.text[..at] + s + r.text[at..])[at + |s|..] == r.text[at..] == r.text[r.emitted..][at - r.emitted..];
      assert a[r.cursor..][at - r.emitted..] == a[r.cursor + (at - r.emitted)..];
  }

  /** An edit is refused exactly when it goes back, or reaches past what is left of the source. */
  lemma ReplayRefuses(a: string, edits: seq<TextEdit>, edit: TextEdit)
    requires Replayed(a, edits).Replay?
    ensures var r := Replayed(a, edits);
            Replayed(a, edits + [edit]).Failed? <==>
            match edit
            case TextDelete(at, len) => at < r.cursor || at + len > |a|
            case TextInsert(at, _) => at < r.emitted || at - r.emitted > |a| - r.cursor
  {
    hide Replayed;
    SourceIsLeft(a, edits);
    LastReplayed(a, edits + [edit]);
    assert (edits + [edit])[..|edits|] == edits;
    var r := Replayed(a, edits);
    assert |r.text| - r.emitted == |a| - r.cursor by {
      assert |r.text[r.emitted..]| == |a[r.cursor..]|;
    }
  }

  /** Replays `edits` onto `text` with two cursors; `None`-like failure only where `Replayed` fails. */
  method ReplayEdits(text: string, edits: seq<TextEdit>) returns (ok: bool, out: string)
    ensures ok <==> Replayed(text, edits).Replay?
    ensures ok ==> out == Replayed(text, edits).text
  {
    hide Replayed;
    out := text;
    var cursor: nat, emitted: nat := 0, 0;
    NothingReplayed(text);
    assert edits[..0] == [];
    for i := 0 to |edits|
      invariant Replayed(text, edits[..i]) == Replay(out, cursor, emitted)
    {
      ReplayedStep(text, edits, i);
      match edits[i] {
        case TextDelete(at, len) =>
          if at < cursor || emitted + (at - cursor) + len > |out| {
            FailureSticks(text, edits, i + 1);
            return false, out;
          }
          var pos := emitted + (at - cursor);
          out := out[..pos] + out[pos + len..];
          cursor := at + len;
          emitted := pos;
        case TextInsert(at, s) =>
          if at < emitted || at > |out| {
            FailureSticks(text, edits, i + 1);
            return false, out;
          }
          var keep := at - emitted;
          var pos := emitted + keep;
          out := out[..pos] + s + out[pos..];
          cursor := cursor + keep;
          emitted := pos + |s|;
      }
    }
    assert edits[..|edits|] == edits;
    return true, out;
  }

  lemma NothingReplayed(a: string)
    ensures Replayed(a, []) == Replay(a, 0, 0)
  {
  }

  lemma ReplayedStep(a: string, edits: seq<TextEdit>, i: nat)
    requires i < |edits|
    ensures Replayed(a, edits[..i + 1]) == Apply(Replayed(a, edits[..i]), edits[i])
  {
    assert edits[..i + 1][..i] == edits[..i];
  }

  lemma {:induction false} FailureSticks(a: string, edits: seq<TextEdit>, i: nat)
    requires i <= |edits| && Replayed(a, edits[..i]).Failed?
    ensures Replayed(a, edits).Failed?
    decreases |edits| - i
  {
    if i == |edits| {
      assert edits[..i] == edits;
    } else {
      ReplayedStep(a, edits, i);
      FailureSticks(a, edits, i + 1);
    }
  }

  /** Where an edit list has got to in the source and the target, when each edit fits `a` and `b`. */
  datatype Place = Place(cursor: nat, emitted: nat) | Misfit

  ghost function Advance(a: string, b: string, p: Place, edit: TextEdit): Place {
    if p.Misfit? then Misfit else
    match edit
    case TextDelete(at, len) =>
      var y := p.emitted + at - p.cursor;
      if p.cursor <= at && at + len <= |a| && y <= |b| && a[p.cursor..at] == b[p.emitted..y]
      then Place(at + len, y) else Misfit
    case TextInsert(at, s) =>
      var x := p.cursor + at - p.emitted;
      if p.emitted <= at && at + |s| <= |b| && x <= |a| && a[p.cursor..x] == b[p.emitted..at] && s == b[at..at + |s|]
      then Place(x, at + |s|) else Misfit
  }

  ghost function PlaceOf(a: string, b: string, edits: seq<TextEdit>): Place {
    if edits == [] then Place(0, 0) else Advance(a, b, PlaceOf(a, b, edits[..|edits| - 1]), edits[|edits| - 1])
  }

  /** A fitting edit list replays to the target so far followed by the source still to come. */
  lemma {:induction false} FittingEditsReplay(a: string, b: string, edits: seq<TextEdit>)
    requires PlaceOf(a, b, edits).Place?
    ensures var p := PlaceOf(a, b, edits);
            && p.cursor <= |a| && p.emitted <= |b|
            && Replayed(a, edits) == Replay(b[..p.emitted] + a[p.cursor..], p.cursor, p.emitted)
    decreases |edits|
  {
    if edits != [] {
      var init, edit := edits[..|edits| - 1], edits[|edits| - 1];
      FittingEditsReplay(a, b, init);
      FittingEditReplays(a, b, PlaceOf(a, b, init), edit);
    }
  }

  /** The text between two edits: the target so far, then the source still to come. */
  ghost predicate Between(a: string, b: string, p: Place, r: Replay) {
    && p.Place? && p.cursor <= |a| && p.emitted <= |b|
    && r == Replay(b[..p.emitted] + a[p.cursor..], p.cursor, p.emitted)
  }

  lemma FittingEditReplays(a: string, b: string, p: Place, edit: TextEdit)
    requires p.Place? && p.cursor <= |a| && p.emitted <= |b| && Advance(a, b, p, edit).Place?
    ensures Between(a, b, Advance(a, b, p, edit), Apply(Replay(b[..p.emitted] + a[p.cursor..], p.cursor, p.emitted), edit))
  {
    match edit
    case TextDelete(at, len) => FittingDelete(a, b, p.cursor, p.emitted, at, len);
    case TextInsert(at, s) => FittingInsert(a, b, p.cursor, p.emitted, at, s);
  }

  lemma FittingDelete(a: string, b: string, cursor: nat, emitted: nat, at: nat, len: nat)
    requires cursor <= at && at + len <= |a| && emitted + at - cursor <= |b|
    requires a[cursor..at] == b[emitted..emitted + at - cursor]
    ensures var text, pos := b[..emitted] + a[cursor..], emitted + at - cursor;
            pos + len <= |text| && text[..pos] == b[..pos] && text[pos + len..] == a[at + len..]
  {
    var text, pos := b[..emitted] + a[cursor..], emitted + at - cursor;
    assert text[..pos] == b[..emitted] + a[cursor..at];
  }

  lemma FittingInsert(a: string, b: string, cursor: nat, emitted: nat, at: nat, s: string)
    requires emitted <= at && at + |s| <= |b| && cursor + at - emitted <= |a|
    requires a[cursor..cursor + at - emitted] == b[emitted..at] && s == b[at..at + |s|]
    ensures var text, x := b[..emitted] + a[cursor..], cursor + at - emitted;
            at <= |text| && text[..at] + s + text[at..] == b[..at + |s|] + a[x..]
  {
    var text, x := b[..emitted] + a[cursor..], cursor + at - emitted;
    assert text[..at] == b[..emitted] + a[cursor..x] == b[..at];
    assert text[at..] == a[x..];
    assert b[..at] + s == b[..at + |s|];
  }

  /** Characters deleted plus characters inserted. */
  ghost function Weight(edits: seq<TextEdit>): nat {
    if edits == [] then 0 else
    var last := edits[|edits| - 1];
    Weight(edits[..|edits| - 1]) + if last.TextDelete? then last.len else |last.text|
  }

  lemma WeightNothing()
    ensures Weight([]) == 0
  {
  }

  lemma WeightPush(out: seq<TextEdit>, edit: TextEdit)
    ensures Weight(out + [edit]) == Weight(out) + if edit.TextDelete? then edit.len else |edit.text|
  {
    assert (out + [edit])[..|out|] == out;
  }

  /** `next` carries straight on where `prev` stopped, so the two would be one run. */
  ghost predicate Joins(prev: TextEdit, next: TextEdit) {
    match (prev, next)
    case (TextDelete(at, len), TextDelete(at', _)) => at + len == at'
    case (TextInsert(at, s), TextInsert(at', _)) => at + |s| == at'
    case _ => false
  }

  ghost predicate InRuns(edits: seq<TextEdit>) {
    forall i :: 0 < i < |edits| ==> !Joins(edits[i - 1], edits[i])
  }

  /** What `out` says after the steps up to `(x, y)`: only a common run separates its place from there. */
  ghost predicate Covers(a: string, b: string, out: seq<TextEdit>, x: nat, y: nat) {
    var p := PlaceOf(a, b, out);
    && p.Place? && p.cursor <= x <= |a| && p.emitted <= y <= |b| && x - p.cursor == y - p.emitted
    && a[p.cursor..x] == b[p.emitted..y]
  }

  lemma CoversNothing(a: string, b: string)
    ensures Covers(a, b, [], 0, 0)
  {
  }

  lemma CoversAll(a: string, b: string, out: seq<TextEdit>)
    requires Covers(a, b, out, |a|, |b|)
    ensures Replayed(a, out).Replay? && Replayed(a, out).text == b
  {
    hide Replayed, PlaceOf;
    FittingEditsReplay(a, b, out);
    var p := PlaceOf(a, b, out);
    assert a[p.cursor..] == b[p.emitted..];
    assert b == b[..p.emitted] + b[p.emitted..];
  }

  lemma OneMore(s: string, i: nat, j: nat)
    requires i <= j < |s|
    ensures s[i..j + 1] == s[i..j] + [s[j]]
  {
  }

  lemma CoversKeep(a: string, b: string, out: seq<TextEdit>, x: nat, y: nat)
    requires Covers(a, b, out, x, y) && Match(a, b, x, y)
    ensures Covers(a, b, out, x + 1, y + 1)
  {
    hide PlaceOf;
    var p := PlaceOf(a, b, out);
    OneMore(a, p.cursor, x);
    OneMore(b, p.emitted, y);
  }

  /** A new edit at `(x, y)`. */
  lemma CoversPush(a: string, b: string, out: seq<TextEdit>, x: nat, y: nat, edit: TextEdit)
    requires Covers(a, b, out, x, y)
    requires (x < |a| && edit == TextDelete(x, 1)) || (y < |b| && edit == TextInsert(y, [b[y]]))
    ensures if edit.TextDelete? then Covers(a, b, out + [edit], x + 1, y) else Covers(a, b, out + [edit], x, y + 1)
  {
    assert (out + [edit])[..|out|] == out;
  }

  /** The last edit, grown by one character: only when nothing was kept since. */
  lemma CoversGrow(a: string, b: string, out: seq<TextEdit>, x: nat, y: nat, edit: TextEdit)
    requires Covers(a, b, out, x, y) && out != []
    requires match out[|out| - 1]
             case TextDelete(at, len) => at + len == x < |a| && edit == TextDelete(at, len + 1)
             case TextInsert(at, s) => at + |s| == y < |b| && edit == TextInsert(at, s + [b[y]])
    ensures var out' := out[|out| - 1 := edit];
            if edit.TextDelete? then Covers(a, b, out', x + 1, y) else Covers(a, b, out', x, y + 1)
  {
    assert out[|out| - 1 := edit][..|out| - 1] == out[..|out| - 1];
    if edit.TextInsert? {
      assert edit.text == b[edit.at..edit.at + |edit.text|];
    }
  }

  lemma WeightGrow(out: seq<TextEdit>, edit: TextEdit)
    requires out != []
    requires match out[|out| - 1]
             case TextDelete(at, len) => edit == TextDelete(at, len + 1)
             case TextInsert(at, s) => edit.TextInsert? && edit.at == at && |edit.text| == |s| + 1
    ensures Weight(out[|out| - 1 := edit]) == Weight(out) + 1
    ensures InRuns(out) ==> InRuns(out[|out| - 1 := edit])
  {
    assert out[|out| - 1 := edit][..|out| - 1] == out[..|out| - 1];
  }

  /**
   The char-level diff of `a` to `b`: replaying it on `a` yields exactly `b`, with the fewest
   characters deleted and inserted, in runs that do not touch.
   */
  method DiffText(a: string, b: string) returns (out: seq<TextEdit>)
    ensures Replayed(a, out).Replay? && Replayed(a, out).text == b
    ensures Weight(out) == |a| + |b| - 2 * Lcs(a, b, |a|, |b|)
    ensures InRuns(out)
  {
    hide Covers, PlaceOf, Script, Weight, Lcs;
    out := [];
    CoversNothing(a, b);
    WeightNothing();
    var steps := Myers.Diff(a, b);
    ghost var x, y := 0, 0;
    for i := 0 to |steps|
      invariant x <= |a| && y <= |b| && Script(a, b, x, y, steps[i..])
      invariant Covers(a, b, out, x, y)
      invariant Weight(out) + Cost(steps[i..]) == |a| + |b| - 2 * Lcs(a, b, |a|, |b|)
      invariant InRuns(out)
    {
      ScriptStep(a, b, x, y, steps, i);
      match steps[i] {
        case Delete(from) =>
          if out != [] && out[|out| - 1].TextDelete? && out[|out| - 1].at + out[|out| - 1].len == from {
            var last := out[|out| - 1];
            CoversGrow(a, b, out, x, y, TextDelete(last.at, last.len + 1));
            WeightGrow(out, TextDelete(last.at, last.len + 1));
            out := out[|out| - 1 := TextDelete(last.at, last.len + 1)];
          } else {
            CoversPush(a, b, out, x, y, TextDelete(from, 1));
            WeightPush(out, TextDelete(from, 1));
            out := out + [TextDelete(from, 1)];
          }
          x := x + 1;
        case Insert(to) =>
          if out != [] && out[|out| - 1].TextInsert? && out[|out| - 1].at + |out[|out| - 1].text| == to {
            var last := out[|out| - 1];
            CoversGrow(a, b, out, x, y, TextInsert(last.at, last.text + [b[to]]));
            WeightGrow(out, TextInsert(last.at, last.text + [b[to]]));
            out := out[|out| - 1 := TextInsert(last.at, last.text + [b[to]])];
          } else {
            CoversPush(a, b, out, x, y, TextInsert(to, [b[to]]));
            WeightPush(out, TextInsert(to, [b[to]]));
            out := out + [TextInsert(to, [b[to]])];
          }
          y := y + 1;
        case Keep(_, _) =>
          CoversKeep(a, b, out, x, y);
          x, y := x + 1, y + 1;
      }
    }
    ScriptEnd(a, b, x, y, steps);
    CoversAll(a, b, out);
  }
}

/**
 `archive` as the daemon's own mutations: when the new file is the before one with its done lines at the
 bottom in their old order, the plan edits the lines that changed and then sends each done line to the end.
 */
module ArchivePlan {
  import opened LineEdits
  import opened Lists
  import opened Wrappers
  import opened TodoLines
  import opened PlanCheck

  /** The daemon refuses a batch of more mutations than this. */
  const MAX_BATCH: nat := 10_000

  predicate AllIdentified(lines: Lines) {
    forall i :: 0 <= i < |lines| ==> IdOf(lines[i]).Some?
  }

  function Ids(lines: Lines): (r: seq<Ulid>)
    requires AllIdentified(lines)
    ensures |r| == |lines| && forall i :: 0 <= i < |r| ==> r[i] == IdOf(lines[i]).value
  {
    seq(|lines|, i requires 0 <= i < |lines| => IdOf(lines[i]).value)
  }

  /** The ids in line order; nothing when a line has none or an id repeats. */
  function IdsOf(lines: Lines): (r: Option<seq<Ulid>>)
    ensures r.Some? ==> |r.value| == |lines|
  {
    if AllIdentified(lines) && Distinct(Ids(lines)) then Some(Ids(lines)) else None
  }

  /** A done line, by its first two bytes. */
  predicate IsDone(line: Content) {
    match line
    case Text(text) => "x " <= text
    case Opaque(bytes) => [120, 32] <= bytes
  }

  /** The ids of the done lines of the new file. */
  function DoneIds(after: Lines, newIds: seq<Ulid>): set<Ulid>
    requires |newIds| == |after|
  {
    set i | 0 <= i < |after| && IsDone(after[i]) :: newIds[i]
  }

  /** The ids in `done`, or those that are not, in their order. */
  function Part(ids: seq<Ulid>, done: set<Ulid>, want: bool): seq<Ulid> {
    if ids == [] then [] else
    var last := ids[|ids| - 1];
    Part(ids[..|ids| - 1], done, want) + if (last in done) == want then [last] else []
  }

  /** One edit per changed line among the first `i`, each under the old file's own numbering. */
  function EditsOf(before: Lines, after: Lines, oldIds: seq<Ulid>, newIds: seq<Ulid>, i: nat): Option<seq<Mutation>>
    requires |oldIds| == |before| && |newIds| == |after| && i <= |before|
  {
    if i == 0 then Some([]) else
    match EditsOf(before, after, oldIds, newIds, i - 1)
    case None => None
    case Some(out) =>
      var at := IndexOf(newIds, oldIds[i - 1]);
      if at == |after| then None
      else if after[at] == before[i - 1] then Some(out)
      else if !after[at].Text? then None
      else Some(out + [EditLine(TaskRefAt(before[i - 1], NumberOf(i - 1)), after[at].text)])
  }

  /** One move per done line among the first `i`; each move so far has lifted it by one. */
  function MovesOf(before: Lines, oldIds: seq<Ulid>, done: set<Ulid>, i: nat): (r: Option<seq<Mutation>>)
    requires |oldIds| == |before| && i <= |before|
    ensures r.Some? ==> |r.value| <= i
  {
    if i == 0 then Some([]) else
    match MovesOf(before, oldIds, done, i - 1)
    case None => None
    case Some(out) =>
      if oldIds[i - 1] !in done then Some(out)
      else if i - |out| > U32_MAX then None
      else Some(out + [MoveToEnd(TaskRefAt(before[i - 1], i - |out|))])
  }

  function PlanOf(before: Lines, after: Lines): Option<seq<Mutation>> {
    match (IdsOf(before), IdsOf(after))
    case (Some(oldIds), Some(newIds)) =>
      var done := DoneIds(after, newIds);
      if Part(oldIds, done, false) + Part(oldIds, done, true) != newIds || oldIds == newIds then None else
      (match (EditsOf(before, after, oldIds, newIds, |before|), MovesOf(before, oldIds, done, |before|))
       case (Some(edits), Some(moves)) => if |edits + moves| <= MAX_BATCH then Some(edits + moves) else None
       case _ => None)
    case _ => None
  }

  method Edits(before: Lines, after: Lines, oldIds: seq<Ulid>, newIds: seq<Ulid>) returns (r: Option<seq<Mutation>>)
    requires |oldIds| == |before| && |newIds| == |after|
    ensures r == EditsOf(before, after, oldIds, newIds, |before|)
  {
    hide TaskRefAt, NumberOf;
    var out := [];
    for i := 0 to |before|
      invariant EditsOf(before, after, oldIds, newIds, i) == Some(out)
    {
      var at := IndexOf(newIds, oldIds[i]);
      if at == |after| || (after[at] != before[i] && !after[at].Text?) {
        EditsStop(before, after, oldIds, newIds, i + 1);
        return None;
      }
      if after[at] != before[i] {
        out := out + [EditLine(TaskRefAt(before[i], NumberOf(i)), after[at].text)];
      }
    }
    return Some(out);
  }

  method Moves(before: Lines, oldIds: seq<Ulid>, done: set<Ulid>) returns (r: Option<seq<Mutation>>)
    requires |oldIds| == |before|
    ensures r == MovesOf(before, oldIds, done, |before|)
  {
    hide TaskRefAt;
    var out, k := [], 0;
    for i := 0 to |before|
      invariant MovesOf(before, oldIds, done, i) == Some(out) && k == |out| <= i
    {
      if oldIds[i] in done {
        if i - k + 1 > U32_MAX {
          MovesStop(before, oldIds, done, i + 1);
          return None;
        }
        out := out + [MoveToEnd(TaskRefAt(before[i], i - k + 1))];
        k := k + 1;
      }
    }
    return Some(out);
  }

  method Plan(before: Lines, after: Lines) returns (r: Option<seq<Mutation>>)
    ensures r == PlanOf(before, after)
  {
    hide IdsOf, DoneIds, Part, EditsOf, MovesOf;
    var oldIds, newIds := IdsOf(before), IdsOf(after);
    if oldIds.None? || newIds.None? {
      return None;
    }
    var done := DoneIds(after, newIds.value);
    var archived := Part(oldIds.value, done, false) + Part(oldIds.value, done, true);
    if archived != newIds.value || oldIds.value == newIds.value {
      return None;
    }
    var edits := Edits(before, after, oldIds.value, newIds.value);
    if edits.None? {
      return None;
    }
    var moves := Moves(before, oldIds.value, done);
    if moves.None? {
      return None;
    }
    var out := edits.value + moves.value;
    return if |out| <= MAX_BATCH then Some(out) else None;
  }

  lemma {:induction false} EditsStop(before: Lines, after: Lines, oldIds: seq<Ulid>, newIds: seq<Ulid>, i: nat)
    requires |oldIds| == |before| && |newIds| == |after| && i <= |before|
    requires EditsOf(before, after, oldIds, newIds, i).None?
    ensures EditsOf(before, after, oldIds, newIds, |before|).None?
    decreases |before| - i
  {
    hide TaskRefAt, NumberOf;
    if i < |before| {
      EditsStop(before, after, oldIds, newIds, i + 1);
    }
  }

  lemma {:induction false} MovesStop(before: Lines, oldIds: seq<Ulid>, done: set<Ulid>, i: nat)
    requires |oldIds| == |before| && i <= |before| && MovesOf(before, oldIds, done, i).None?
    ensures MovesOf(before, oldIds, done, |before|).None?
    decreases |before| - i
  {
    hide TaskRefAt;
    if i < |before| {
      MovesStop(before, oldIds, done, i + 1);
    }
  }

  // ---- the places the ids come from ----

  /** The positions among the first `i` of the ids in `done`, or of those that are not. */
  ghost function Places(ids: seq<Ulid>, done: set<Ulid>, want: bool, i: nat): (r: seq<nat>)
    requires i <= |ids|
    ensures forall k :: 0 <= k < |r| ==> r[k] < i && (ids[r[k]] in done) == want
  {
    if i == 0 then [] else
    Places(ids, done, want, i - 1) + if (ids[i - 1] in done) == want then [i - 1] else []
  }

  lemma PlacesOneMore(ids: seq<Ulid>, done: set<Ulid>, want: bool, i: nat)
    requires i < |ids|
    ensures Places(ids, done, want, i + 1) == Places(ids, done, want, i) + if (ids[i] in done) == want then [i] else []
  {
  }

  lemma {:induction false} PlacesRise(ids: seq<Ulid>, done: set<Ulid>, want: bool, i: nat)
    requires i <= |ids|
    ensures Rising(Places(ids, done, want, i))
  {
    if i > 0 {
      hide Places;
      PlacesRise(ids, done, want, i - 1);
      PlacesOneMore(ids, done, want, i - 1);
    } else {
      assert Places(ids, done, want, 0) == [];
    }
  }

  lemma {:induction false} PlacesCover(ids: seq<Ulid>, done: set<Ulid>, want: bool, i: nat, j: nat)
    requires j < i <= |ids| && (ids[j] in done) == want
    ensures j in Places(ids, done, want, i)
  {
    if j < i - 1 {
      PlacesCover(ids, done, want, i - 1, j);
    }
  }

  lemma PartOneMore(ids: seq<Ulid>, done: set<Ulid>, want: bool, i: nat)
    requires i < |ids|
    ensures Part(ids[..i + 1], done, want) == Part(ids[..i], done, want) + if (ids[i] in done) == want then [ids[i]] else []
  {
    assert ids[..i + 1][..i] == ids[..i];
  }

  lemma {:induction false} PartIsAtPlaces(ids: seq<Ulid>, done: set<Ulid>, want: bool, i: nat)
    requires i <= |ids|
    ensures Within(Places(ids, done, want, i), |ids|) && Part(ids[..i], done, want) == At(ids, Places(ids, done, want, i))
  {
    if i > 0 {
      hide Part;
      PartIsAtPlaces(ids, done, want, i - 1);
      PartOneMore(ids, done, want, i - 1);
    }
  }

  /** Where each line of the archived file comes from: the open lines, then the done ones. */
  ghost function Order(ids: seq<Ulid>, done: set<Ulid>): (r: seq<nat>)
    ensures Within(r, |ids|)
  {
    Places(ids, done, false, |ids|) + Places(ids, done, true, |ids|)
  }

  lemma PartsAreAtOrder(ids: seq<Ulid>, done: set<Ulid>)
    ensures Part(ids, done, false) + Part(ids, done, true) == At(ids, Order(ids, done))
  {
    assert ids[..|ids|] == ids;
    PartIsAtPlaces(ids, done, false, |ids|);
    PartIsAtPlaces(ids, done, true, |ids|);
  }

  lemma OrderCovers(ids: seq<Ulid>, done: set<Ulid>, j: nat)
    requires j < |ids|
    ensures j in Order(ids, done)
  {
    PlacesCover(ids, done, ids[j] in done, |ids|, j);
  }

  // ---- a returned plan does what the command did ----

  /** Each old line as the new file has it. */
  function NewVersions(before: Lines, after: Lines, oldIds: seq<Ulid>, newIds: seq<Ulid>): (r: Lines)
    requires |oldIds| == |before| && |newIds| == |after|
    ensures |r| == |before| && forall j :: 0 <= j < |before| ==> r[j] == NewVersion(before[j], after, oldIds[j], newIds)
  {
    seq(|before|, j requires 0 <= j < |before| => NewVersion(before[j], after, oldIds[j], newIds))
  }

  function NewVersion(line: Content, after: Lines, id: Ulid, newIds: seq<Ulid>): Content
    requires |newIds| == |after|
  {
    var at := IndexOf(newIds, id);
    if at < |after| then after[at] else line
  }

  lemma {:induction false} EditsReachVersions(before: Lines, after: Lines, oldIds: seq<Ulid>, newIds: seq<Ulid>, i: nat)
    requires |oldIds| == |before| && |newIds| == |after| && i <= |before| && NoneEmpty(before) && NoneEmpty(after)
    requires EditsOf(before, after, oldIds, newIds, i).Some?
    ensures var target := NewVersions(before, after, oldIds, newIds);
            Editable(before, target, i) && EditsOf(before, after, oldIds, newIds, i) == Some(EditsTo(before, target, i))
  {
    hide NumberOf, IdText, IndexOf, IsEmpty;
    if i > 0 {
      EditsReachVersions(before, after, oldIds, newIds, i - 1);
    }
  }

  /** After the moves for the first `i` lines: the open ones, the lines to come, the done ones. */
  ghost function Sent(lines: Lines, ids: seq<Ulid>, done: set<Ulid>, i: nat): Lines
    requires i <= |ids| == |lines|
  {
    At(lines, Places(ids, done, false, i)) + lines[i..] + At(lines, Places(ids, done, true, i))
  }

  lemma {:induction false} PlacesCount(ids: seq<Ulid>, done: set<Ulid>, i: nat)
    requires i <= |ids|
    ensures |Places(ids, done, false, i)| + |Places(ids, done, true, i)| == i
  {
    if i > 0 {
      PlacesCount(ids, done, i - 1);
    }
  }

  /** A done line stands between the lines kept open and those to come. */
  lemma SentAround(lines: Lines, ids: seq<Ulid>, done: set<Ulid>, i: nat)
    requires i < |ids| == |lines| && ids[i] in done
    ensures var front, back := At(lines, Places(ids, done, false, i)), lines[i + 1..] + At(lines, Places(ids, done, true, i));
            && Sent(lines, ids, done, i) == front + [lines[i]] + back
            && Sent(lines, ids, done, i + 1) == front + back + [lines[i]]
  {
    assert lines[i..] == [lines[i]] + lines[i + 1..];
    assert At(lines, Places(ids, done, true, i + 1)) == At(lines, Places(ids, done, true, i)) + [lines[i]];
  }

  lemma SendOne(lines: Lines, ids: seq<Ulid>, done: set<Ulid>, i: nat, task: TaskRef)
    requires i < |ids| == |lines| && NoneEmpty(lines) && ids[i] in done
    requires task.lineNumber == i - |Places(ids, done, true, i)| + 1
    ensures Step(Sent(lines, ids, done, i), MoveToEnd(task)) == Some(Sent(lines, ids, done, i + 1))
  {
    hide IsEmpty, MovedToEnd, Sent, Places;
    PlacesCount(ids, done, i);
    SentAround(lines, ids, done, i);
    var front, back := At(lines, Places(ids, done, false, i)), lines[i + 1..] + At(lines, Places(ids, done, true, i));
    assert NoneEmpty(front + [lines[i]] + back);
    MoveAmongTasks(front, lines[i], back);
    assert (front + [lines[i]] + back)[|front|] == lines[i];
  }

  lemma SendNone(lines: Lines, ids: seq<Ulid>, done: set<Ulid>, i: nat)
    requires i < |ids| == |lines| && ids[i] !in done
    ensures Sent(lines, ids, done, i + 1) == Sent(lines, ids, done, i)
  {
    assert lines[i..] == [lines[i]] + lines[i + 1..];
    assert At(lines, Places(ids, done, false, i + 1)) == At(lines, Places(ids, done, false, i)) + [lines[i]];
  }

  lemma NothingSent(lines: Lines, ids: seq<Ulid>, done: set<Ulid>)
    requires |ids| == |lines|
    ensures Sent(lines, ids, done, 0) == lines
  {
  }

  /** The moves on `lines`, whose numbers are the same whatever the lines are. */
  lemma {:induction false} MovesReplay(before: Lines, lines: Lines, ids: seq<Ulid>, done: set<Ulid>, i: nat)
    requires |ids| == |before| == |lines| && i <= |before| && NoneEmpty(lines) && MovesOf(before, ids, done, i).Some?
    ensures |MovesOf(before, ids, done, i).value| == |Places(ids, done, true, i)|
    ensures Replayed(lines, MovesOf(before, ids, done, i).value) == Some(Sent(lines, ids, done, i))
  {
    hide Step, IdText, Sent, NoneEmpty;
    if i == 0 {
      NothingSent(lines, ids, done);
    } else {
      MovesReplay(before, lines, ids, done, i - 1);
      var out := MovesOf(before, ids, done, i - 1).value;
      if ids[i - 1] in done {
        var task := TaskRefAt(before[i - 1], i - |out|);
        SendOne(lines, ids, done, i - 1, task);
        ReplayedPush(lines, out, MoveToEnd(task));
      } else {
        SendNone(lines, ids, done, i - 1);
      }
    }
  }

  /** The place in a list of distinct ids is the only one. */
  lemma PlaceIsOnly(ids: seq<Ulid>, p: nat)
    requires Distinct(ids) && p < |ids|
    ensures IndexOf(ids, ids[p]) == p
  {
  }

  /** Every changed line has a number a reference can carry. */
  ghost predicate ChangesFit(before: Lines, after: Lines) {
    forall j :: j in Changed(before, after) ==> j + 1 <= U32_MAX
  }

  /** Line `j` is in the new file under its id, with other bytes. */
  ghost predicate Changes(before: Lines, after: Lines, j: nat)
    requires j < |before|
  {
    exists p :: 0 <= p < |after| && IdOf(after[p]) == IdOf(before[j]) && after[p] != before[j]
  }

  ghost function Changed(before: Lines, after: Lines): set<nat> {
    set j | 0 <= j < |before| && Changes(before, after, j)
  }

  lemma ChangesIsNewVersion(before: Lines, after: Lines, j: nat)
    requires j < |before| && AllIdentified(before) && AllIdentified(after) && Distinct(Ids(after))
    ensures Changes(before, after, j) <==> NewVersion(before[j], after, Ids(before)[j], Ids(after)) != before[j]
  {
    hide IdOf, IndexOf;
    var newIds, id := Ids(after), Ids(before)[j];
    var at := IndexOf(newIds, id);
    if at < |after| {
      assert IdOf(after[at]) == IdOf(before[j]);
    }
    forall p | 0 <= p < |after| && IdOf(after[p]) == IdOf(before[j]) ensures p == at {
      assert newIds[p] == id;
      PlaceIsOnly(newIds, p);
    }
  }

  lemma AddressableIsFit(before: Lines, after: Lines)
    requires AllIdentified(before) && AllIdentified(after) && Distinct(Ids(after))
    ensures Addressable(before, NewVersions(before, after, Ids(before), Ids(after)), |before|) <==> ChangesFit(before, after)
  {
    hide Changes, NewVersion, IdOf;
    forall j: nat | j < |before|
      ensures j in Changed(before, after) <==> NewVersion(before[j], after, Ids(before)[j], Ids(after)) != before[j]
    {
      ChangesIsNewVersion(before, after, j);
    }
  }

  /** The archived file is each line's new version, in the archived order. */
  lemma ArchivedIsAtOrder(before: Lines, after: Lines, oldIds: seq<Ulid>, newIds: seq<Ulid>, done: set<Ulid>, lines: Lines)
    requires |oldIds| == |before| == |lines| && |newIds| == |after| && Distinct(newIds)
    requires At(oldIds, Order(oldIds, done)) == newIds
    ensures At(lines, Order(oldIds, done)) == after
       <==> lines == NewVersions(before, after, oldIds, newIds)
  {
    hide Order, IndexOf;
    var order := Order(oldIds, done);
    forall p: nat | p < |after| ensures NewVersions(before, after, oldIds, newIds)[order[p]] == after[p] {
      PlaceIsOnly(newIds, p);
    }
    if At(lines, order) == after {
      forall j: nat | j < |before| ensures lines[j] == NewVersions(before, after, oldIds, newIds)[j] {
        OrderCovers(oldIds, done, j);
        var p :| 0 <= p < |order| && order[p] == j;
        assert At(lines, order)[p] == after[p];
      }
    }
  }

  lemma IdentifiedAreTasks(lines: Lines)
    requires AllIdentified(lines)
    ensures NoneEmpty(lines)
  {
    hide IdOf, IsEmpty;
    forall i | 0 <= i < |lines| ensures !IsEmpty(lines[i]) {
      LinesWithIdsAreTasks(lines[i]);
    }
  }

  lemma SentAll(lines: Lines, ids: seq<Ulid>, done: set<Ulid>)
    requires |ids| == |lines|
    ensures Sent(lines, ids, done, |ids|) == At(lines, Order(ids, done))
  {
  }

  /** Replayed on the old file, a returned plan gives the new one exactly when every changed line can be numbered. */
  lemma PlanReproduces(before: Lines, after: Lines)
    requires PlanOf(before, after).Some?
    ensures Reproduces(before, after, PlanOf(before, after).value) <==> ChangesFit(before, after)
  {
    hide EditsOf, MovesOf, Part, DoneIds, Order, IdOf, NoneEmpty, Distinct, AllIdentified;
    hide Replayed, Sent, NewVersion, ChangesFit, EditedSoFar, Addressable, Editable;
    IdentifiedAreTasks(before);
    IdentifiedAreTasks(after);
    var oldIds, newIds := Ids(before), Ids(after);
    var done, target := DoneIds(after, newIds), NewVersions(before, after, oldIds, newIds);
    var edits, moves := EditsOf(before, after, oldIds, newIds, |before|).value, MovesOf(before, oldIds, done, |before|).value;
    EditsReachVersions(before, after, oldIds, newIds, |before|);
    EditsReplay(before, target, |before|);
    EditsReachTarget(before, target);
    var lines := Replayed(before, edits).value;
    EditedAreTasks(before, target, lines);
    MovesReplay(before, lines, oldIds, done, |before|);
    ReplayedAppend(before, edits, moves);
    SentAll(lines, oldIds, done);
    PartsAreAtOrder(oldIds, done);
    ArchivedIsAtOrder(before, after, oldIds, newIds, done, lines);
    AddressableIsFit(before, after);
  }

  lemma EditedAreTasks(before: Lines, target: Lines, lines: Lines)
    requires |target| == |before| && NoneEmpty(before) && EditedSoFar(before, target, |before|, lines)
    ensures |lines| == |before| && NoneEmpty(lines)
  {
    hide IsEmpty;
  }

  // ---- a plan is returned exactly for archived files ----

  /**
   The new file is the old one archived: the same distinct ids, done lines last, and lines of a kind in
   their old order.
   */
  ghost predicate Archived(before: Lines, after: Lines) {
    && AllIdentified(before) && AllIdentified(after) && Distinct(Ids(before)) && Distinct(Ids(after))
    && (forall id :: id in Ids(before) <==> id in Ids(after))
    && DoneLast(after) && InOldOrder(Ids(before), Ids(after), after)
  }

  ghost predicate DoneLast(after: Lines) {
    forall p, q :: 0 <= p < q < |after| && IsDone(after[p]) ==> IsDone(after[q])
  }

  ghost predicate InOldOrder(oldIds: seq<Ulid>, newIds: seq<Ulid>, after: Lines)
    requires |newIds| == |after|
  {
    forall p, q :: 0 <= p < q < |after| && IsDone(after[p]) == IsDone(after[q]) ==>
                     IndexOf(oldIds, newIds[p]) < IndexOf(oldIds, newIds[q])
  }

  lemma DoneByLine(after: Lines, newIds: seq<Ulid>, p: nat)
    requires p < |after| == |newIds| && Distinct(newIds)
    ensures newIds[p] in DoneIds(after, newIds) <==> IsDone(after[p])
  {
    hide IsDone;
  }

  lemma OrderedIsArchived(before: Lines, after: Lines, oldIds: seq<Ulid>, newIds: seq<Ulid>)
    requires |oldIds| == |before| && |newIds| == |after| && Distinct(oldIds) && Distinct(newIds)
    requires At(oldIds, Order(oldIds, DoneIds(after, newIds))) == newIds
    ensures (forall id :: id in oldIds <==> id in newIds) && DoneLast(after) && InOldOrder(oldIds, newIds, after)
  {
    hide IsDone, IndexOf, DoneIds;
    var done := DoneIds(after, newIds);
    var order := Order(oldIds, done);
    PlacesRise(oldIds, done, false, |oldIds|);
    PlacesRise(oldIds, done, true, |oldIds|);
    forall p: nat | p < |after|
      ensures IndexOf(oldIds, newIds[p]) == order[p] && (oldIds[order[p]] in done <==> IsDone(after[p]))
    {
      PlaceIsOnly(oldIds, order[p]);
      DoneByLine(after, newIds, p);
    }
    forall id | id in oldIds ensures id in newIds {
      var j :| 0 <= j < |oldIds| && oldIds[j] == id;
      OrderCovers(oldIds, done, j);
      var p :| 0 <= p < |order| && order[p] == j;
      assert newIds[p] == id;
    }
  }

  /** How many lines come before the first done one. */
  ghost function OpenCount(after: Lines): (r: nat)
    requires DoneLast(after)
    ensures r <= |after| && forall p :: 0 <= p < |after| ==> (IsDone(after[p]) <==> p >= r)
  {
    if after == [] then 0
    else if !IsDone(after[|after| - 1]) then |after|
    else OpenCount(after[..|after| - 1])
  }

  ghost function OldPlaces(oldIds: seq<Ulid>, newIds: seq<Ulid>, lo: nat, hi: nat): (r: seq<nat>)
    requires lo <= hi <= |newIds|
    ensures |r| == hi - lo && forall k :: 0 <= k < |r| ==> r[k] == IndexOf(oldIds, newIds[lo + k])
  {
    if lo == hi then [] else OldPlaces(oldIds, newIds, lo, hi - 1) + [IndexOf(oldIds, newIds[hi - 1])]
  }

  /** The old places of the lines of one kind are all the places of that kind, so the order is the archived one. */
  lemma PlacesOfKind(oldIds: seq<Ulid>, newIds: seq<Ulid>, after: Lines, lo: nat, hi: nat, want: bool)
    requires lo <= hi <= |after| == |newIds| && Distinct(oldIds) && Distinct(newIds)
    requires (forall id :: id in oldIds <==> id in newIds) && InOldOrder(oldIds, newIds, after)
    requires forall p :: 0 <= p < |after| ==> (lo <= p < hi <==> IsDone(after[p]) == want)
    ensures var places := Places(oldIds, DoneIds(after, newIds), want, |oldIds|);
            |places| == hi - lo && forall p :: lo <= p < hi ==> places[p - lo] == IndexOf(oldIds, newIds[p])
  {
    hide IsDone, IndexOf, DoneIds, Places, Distinct;
    var done := DoneIds(after, newIds);
    var s := OldPlaces(oldIds, newIds, lo, hi);
    var t := Places(oldIds, done, want, |oldIds|);
    PlacesRise(oldIds, done, want, |oldIds|);
    assert Rising(s);
    forall x ensures x in s <==> x in t {
      if x in s {
        var k :| 0 <= k < |s| && s[k] == x;
        KindOfPlace(oldIds, newIds, after, lo + k);
        PlacesCover(oldIds, done, want, |oldIds|, x);
      }
      if x in t {
        var p := PlaceAmong(oldIds, newIds, x);
        KindOfPlace(oldIds, newIds, after, p);
        assert s[p - lo] == x;
      }
    }
    RisingListsAgree(s, t);
  }

  lemma KindOfPlace(oldIds: seq<Ulid>, newIds: seq<Ulid>, after: Lines, p: nat)
    requires p < |after| == |newIds| && Distinct(newIds) && forall id :: id in oldIds <==> id in newIds
    ensures var x := IndexOf(oldIds, newIds[p]);
            x < |oldIds| && oldIds[x] == newIds[p] && (oldIds[x] in DoneIds(after, newIds) <==> IsDone(after[p]))
  {
    hide IsDone, DoneIds;
    assert newIds[p] in newIds;
    DoneByLine(after, newIds, p);
  }

  lemma PlaceAmong(oldIds: seq<Ulid>, newIds: seq<Ulid>, x: nat) returns (p: nat)
    requires x < |oldIds| && Distinct(oldIds) && forall id :: id in oldIds <==> id in newIds
    ensures p < |newIds| && newIds[p] == oldIds[x] && IndexOf(oldIds, newIds[p]) == x
  {
    assert oldIds[x] in oldIds;
    p :| 0 <= p < |newIds| && newIds[p] == oldIds[x];
    PlaceIsOnly(oldIds, x);
  }

  lemma ArchivedIsOrdered(after: Lines, oldIds: seq<Ulid>, newIds: seq<Ulid>)
    requires |newIds| == |after| && Distinct(oldIds) && Distinct(newIds)
    requires (forall id :: id in oldIds <==> id in newIds) && DoneLast(after) && InOldOrder(oldIds, newIds, after)
    ensures At(oldIds, Order(oldIds, DoneIds(after, newIds))) == newIds
  {
    hide IsDone, IndexOf, DoneIds, Places, InOldOrder, DoneLast;
    var m := OpenCount(after);
    PlacesOfKind(oldIds, newIds, after, 0, m, false);
    PlacesOfKind(oldIds, newIds, after, m, |after|, true);
    var order := Order(oldIds, DoneIds(after, newIds));
    forall p: nat | p < |after| ensures order[p] == IndexOf(oldIds, newIds[p]) && order[p] < |oldIds| {
      if p >= m {
        assert order[p] == Places(oldIds, DoneIds(after, newIds), true, |oldIds|)[p - m];
      } else {
        assert Places(oldIds, DoneIds(after, newIds), false, |oldIds|)[p - 0] == IndexOf(oldIds, newIds[p]);
      }
    }
  }

  /** The ids in `done` among the first `i`. */
  ghost function DoneAmong(ids: seq<Ulid>, done: set<Ulid>, i: nat): set<Ulid>
    requires i <= |ids|
  {
    set j | 0 <= j < i && ids[j] in done :: ids[j]
  }

  lemma {:induction false} DonePlacesCount(ids: seq<Ulid>, done: set<Ulid>, i: nat)
    requires i <= |ids| && Distinct(ids)
    ensures |Places(ids, done, true, i)| == |DoneAmong(ids, done, i)|
  {
    hide DoneAmong, Places;
    NoneDone(ids, done);
    if i > 0 {
      DonePlacesCount(ids, done, i - 1);
      DoneOneMore(ids, done, i - 1);
      PlacesOneMore(ids, done, true, i - 1);
    }
  }

  lemma NoneDone(ids: seq<Ulid>, done: set<Ulid>)
    ensures DoneAmong(ids, done, 0) == {} && Places(ids, done, true, 0) == []
  {
  }

  lemma DoneOneMore(ids: seq<Ulid>, done: set<Ulid>, i: nat)
    requires i < |ids| && Distinct(ids)
    ensures |DoneAmong(ids, done, i + 1)| == |DoneAmong(ids, done, i)| + if ids[i] in done then 1 else 0
  {
    assert ids[i] !in DoneAmong(ids, done, i);
    assert DoneAmong(ids, done, i + 1) == DoneAmong(ids, done, i) + if ids[i] in done then {ids[i]} else {};
  }

  /** Fewer lines stay open above each done one than there are line numbers. */
  ghost predicate MovesFit(ids: seq<Ulid>, done: set<Ulid>, i: nat)
    requires i <= |ids|
  {
    forall j: nat :: j < i && ids[j] in done ==> |Places(ids, done, false, j)| < U32_MAX
  }

  lemma {:induction false} MovesExist(before: Lines, ids: seq<Ulid>, done: set<Ulid>, i: nat)
    requires |ids| == |before| && i <= |before|
    ensures MovesOf(before, ids, done, i).Some? <==> MovesFit(ids, done, i)
    ensures MovesFit(ids, done, i) ==> |MovesOf(before, ids, done, i).value| == |Places(ids, done, true, i)|
  {
    hide TaskRefAt;
    if i > 0 {
      MovesExist(before, ids, done, i - 1);
      PlacesCount(ids, done, i - 1);
    }
  }

  ghost function ChangedAmong(before: Lines, after: Lines, i: nat): set<nat>
    requires i <= |before|
  {
    set j | 0 <= j < i && Changes(before, after, j)
  }

  lemma ChangedOneMore(before: Lines, after: Lines, i: nat)
    requires i < |before|
    ensures |ChangedAmong(before, after, i + 1)|
         == |ChangedAmong(before, after, i)| + if Changes(before, after, i) then 1 else 0
  {
    hide Changes;
    assert i !in ChangedAmong(before, after, i);
    assert ChangedAmong(before, after, i + 1)
        == ChangedAmong(before, after, i) + if Changes(before, after, i) then {i} else {};
  }

  lemma NewVersionIsText(before: Lines, after: Lines, i: nat)
    requires AllIdentified(before) && AllIdentified(after) && i < |before| && Ids(before)[i] in Ids(after)
    ensures var at := IndexOf(Ids(after), Ids(before)[i]); at < |after| && after[at].Text?
  {
    hide IdOf, IndexOf;
    LinesWithIdsAreTasks(after[IndexOf(Ids(after), Ids(before)[i])]);
  }

  lemma {:induction false} EditsExist(before: Lines, after: Lines, i: nat)
    requires AllIdentified(before) && AllIdentified(after) && Distinct(Ids(after)) && i <= |before|
    requires forall id :: id in Ids(before) ==> id in Ids(after)
    ensures var edits := EditsOf(before, after, Ids(before), Ids(after), i);
            edits.Some? && |edits.value| == |ChangedAmong(before, after, i)|
  {
    hide TaskRefAt, NumberOf, Changes, IdOf, IndexOf, Ids, AllIdentified, Distinct;
    if i > 0 {
      hide ChangedAmong;
      EditsExist(before, after, i - 1);
      ChangesIsNewVersion(before, after, i - 1);
      ChangedOneMore(before, after, i - 1);
      assert Ids(before)[i - 1] in Ids(before);
      NewVersionIsText(before, after, i - 1);
    }
  }

  /**
   A plan is returned exactly when the new file is the old one archived, something moved, and the plan fits
   one batch and its line numbers.
   */
  lemma PlanIffArchived(before: Lines, after: Lines)
    ensures PlanOf(before, after).Some?
       <==> && Archived(before, after) && Ids(before) != Ids(after)
            && |Changed(before, after)| + |DoneIds(after, Ids(after))| <= MAX_BATCH
            && MovesFit(Ids(before), DoneIds(after, Ids(after)), |before|)
  {
    hide IdOf, Part, Order, DoneIds, EditsOf, MovesOf, MovesFit, Changes, DoneLast, InOldOrder, Places;
    if AllIdentified(before) && AllIdentified(after) && Distinct(Ids(before)) && Distinct(Ids(after)) {
      var oldIds, newIds := Ids(before), Ids(after);
      var done := DoneIds(after, newIds);
      PartsAreAtOrder(oldIds, done);
      if At(oldIds, Order(oldIds, done)) == newIds {
        OrderedIsArchived(before, after, oldIds, newIds);
        EditsExist(before, after, |before|);
        MovesExist(before, oldIds, done, |before|);
        DonePlacesCount(oldIds, done, |before|);
        AllDoneCounted(oldIds, newIds, after);
        assert ChangedAmong(before, after, |before|) == Changed(before, after);
      } else if Archived(before, after) {
        ArchivedIsOrdered(after, oldIds, newIds);
      }
    }
  }

  lemma AllDoneCounted(oldIds: seq<Ulid>, newIds: seq<Ulid>, after: Lines)
    requires |newIds| == |after| && forall id :: id in oldIds <==> id in newIds
    ensures DoneAmong(oldIds, DoneIds(after, newIds), |oldIds|) == DoneIds(after, newIds)
  {
    hide IsDone;
    var done := DoneIds(after, newIds);
    forall id | id in done ensures id in DoneAmong(oldIds, done, |oldIds|) {
      assert id in oldIds;
    }
  }
}

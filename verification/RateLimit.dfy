/**
 The relay's fixed-window request cap. `Limiter` is the stateful object; `Answer` and `Next` say what
 one request gets and leaves, and runs of requests are lists of them.
 */
module RateLimit {

  const I64_MIN: int := -0x8000_0000_0000_0000
  const I64_MAX: int := 0x7fff_ffff_ffff_ffff

  type Clock = t: int | I64_MIN <= t <= I64_MAX

  /** When a group's window opened and how many requests it has let through. */
  datatype Window = Window(startedAt: Clock, count: nat)

  type Windows = map<string, Window>

  datatype Request = Request(group: string, now: Clock)

  function SaturatingSub(x: Clock, y: Clock): Clock {
    if x - y < I64_MIN then I64_MIN else if x - y > I64_MAX then I64_MAX else x - y
  }

  /** The window a request is counted in: the group's own, or a new one when that has elapsed. */
  function Current(ws: Windows, r: Request, windowMs: Clock): Window {
    if r.group !in ws || SaturatingSub(r.now, ws[r.group].startedAt) >= windowMs then Window(r.now, 0) else ws[r.group]
  }

  function Answer(ws: Windows, r: Request, cap: nat, windowMs: Clock): bool {
    Current(ws, r, windowMs).count < cap
  }

  function Next(ws: Windows, r: Request, cap: nat, windowMs: Clock): Windows {
    var w := Current(ws, r, windowMs);
    ws[r.group := Window(w.startedAt, w.count + if w.count < cap then 1 else 0)]
  }

  class Limiter {
    var windows: Windows

    constructor ()
      ensures windows == map[]
    {
      windows := map[];
    }

    /** One request answered, and the windows updated as the value model has it, whatever the answer. */
    method Allow(group: string, now: Clock, cap: nat, windowMs: Clock) returns (allowed: bool)
      modifies this
      ensures allowed == Answer(old(windows), Request(group, now), cap, windowMs)
      ensures windows == Next(old(windows), Request(group, now), cap, windowMs)
    {
      if group !in windows {
        windows := windows[group := Window(now, 0)];
      }
      if SaturatingSub(now, windows[group].startedAt) >= windowMs {
        windows := windows[group := Window(now, 0)];
      }
      if windows[group].count >= cap {
        return false;
      }
      windows := windows[group := windows[group].(count := windows[group].count + 1)];
      return true;
    }
  }

  // ---- runs ----

  /** The state after the first `i` requests of a fresh limiter. */
  function After(rs: seq<Request>, i: nat, cap: nat, windowMs: Clock): Windows
    requires i <= |rs|
  {
    if i == 0 then map[] else Next(After(rs, i - 1, cap, windowMs), rs[i - 1], cap, windowMs)
  }

  function Allowed(rs: seq<Request>, i: nat, cap: nat, windowMs: Clock): bool
    requires i < |rs|
  {
    Answer(After(rs, i, cap, windowMs), rs[i], cap, windowMs)
  }

  /** The start of the window that request `i` is counted in. */
  function WindowOf(rs: seq<Request>, i: nat, cap: nat, windowMs: Clock): Clock
    requires i < |rs|
  {
    Current(After(rs, i, cap, windowMs), rs[i], windowMs).startedAt
  }

  ghost predicate NonDecreasing(rs: seq<Request>) {
    forall i, j :: 0 <= i <= j < |rs| ==> rs[i].now <= rs[j].now
  }

  /** Requests of `group` among the first `i` that were allowed at a time in `[from, to)`. */
  ghost function CountIn(rs: seq<Request>, i: nat, cap: nat, windowMs: Clock, group: string, from: int, to: int): nat
    requires i <= |rs|
  {
    if i == 0 then 0 else
    CountIn(rs, i - 1, cap, windowMs, group, from, to)
    + if rs[i - 1].group == group && from <= rs[i - 1].now < to && Allowed(rs, i - 1, cap, windowMs) then 1 else 0
  }

  /** Requests of `group` among the first `i` that were allowed in the window started at `start`. */
  ghost function CountOfWindow(rs: seq<Request>, i: nat, cap: nat, windowMs: Clock, group: string, start: int): nat
    requires i <= |rs|
  {
    if i == 0 then 0 else
    CountOfWindow(rs, i - 1, cap, windowMs, group, start)
    + if rs[i - 1].group == group && WindowOf(rs, i - 1, cap, windowMs) == start && Allowed(rs, i - 1, cap, windowMs)
      then 1 else 0
  }

  /**
   What holds of `group` after `i` requests: its window is the last one opened, everything allowed in
   it is in its count, and older windows ended before it began.
   */
  lemma {:induction false} WindowInvariant(rs: seq<Request>, i: nat, cap: nat, windowMs: Clock, group: string, start: int)
    requires i <= |rs| && NonDecreasing(rs) && windowMs > 0
    ensures var ws := After(rs, i, cap, windowMs);
            && (group in ws ==> ws[group].count <= cap && i > 0 && ws[group].startedAt <= rs[i - 1].now)
            && CountOfWindow(rs, i, cap, windowMs, group, start) <= cap
            && (group !in ws ==> CountOfWindow(rs, i, cap, windowMs, group, start) == 0)
            && (group in ws && start > ws[group].startedAt ==> CountOfWindow(rs, i, cap, windowMs, group, start) == 0)
            && (group in ws && start == ws[group].startedAt ==> CountOfWindow(rs, i, cap, windowMs, group, start) == ws[group].count)
  {
    if i > 0 {
      WindowInvariant(rs, i - 1, cap, windowMs, group, start);
    }
  }

  /** At most `cap` requests of a group are allowed in any one of its windows. */
  lemma AtMostCapPerWindow(rs: seq<Request>, cap: nat, windowMs: Clock, group: string, start: int)
    requires NonDecreasing(rs) && windowMs > 0
    ensures CountOfWindow(rs, |rs|, cap, windowMs, group, start) <= cap
  {
    WindowInvariant(rs, |rs|, cap, windowMs, group, start);
  }

  lemma {:induction false} IntervalInvariant(rs: seq<Request>, i: nat, cap: nat, windowMs: Clock, group: string, from: int)
    requires i <= |rs| && NonDecreasing(rs) && windowMs > 0
    ensures var ws, n := After(rs, i, cap, windowMs), CountIn(rs, i, cap, windowMs, group, from, from + windowMs);
            && n <= 2 * cap
            && (group !in ws ==> n == 0)
            && (group in ws ==>
                  var w := ws[group];
                  && w.count <= cap && i > 0 && w.startedAt <= rs[i - 1].now
                  && (w.startedAt + windowMs <= from ==> n == 0)
                  && (w.startedAt <= from ==> n <= w.count)
                  && (from < w.startedAt < from + windowMs ==> n <= cap + w.count))
  {
    if i > 0 {
      IntervalInvariant(rs, i - 1, cap, windowMs, group, from);
    }
  }

  /** At most `2 * cap` requests of a group are allowed in any half-open interval as long as a window. */
  lemma AtMostTwiceCapPerInterval(rs: seq<Request>, cap: nat, windowMs: Clock, group: string, from: int)
    requires NonDecreasing(rs) && windowMs > 0
    ensures CountIn(rs, |rs|, cap, windowMs, group, from, from + windowMs) <= 2 * cap
  {
    IntervalInvariant(rs, |rs|, cap, windowMs, group, from);
  }

  /** The requests of one group among the first `i`. */
  function Only(rs: seq<Request>, i: nat, group: string): seq<Request>
    requires i <= |rs|
  {
    if i == 0 then []
    else if rs[i - 1].group == group then Only(rs, i - 1, group) + [rs[i - 1]]
    else Only(rs, i - 1, group)
  }

  lemma {:induction false} AfterPrefix(rs: seq<Request>, r: Request, i: nat, cap: nat, windowMs: Clock)
    requires i <= |rs|
    ensures After(rs + [r], i, cap, windowMs) == After(rs, i, cap, windowMs)
  {
    if i > 0 {
      AfterPrefix(rs, r, i - 1, cap, windowMs);
    }
  }

  lemma {:induction false} OneGroupsWindow(rs: seq<Request>, i: nat, cap: nat, windowMs: Clock, group: string)
    requires i <= |rs|
    ensures var own := Only(rs, i, group);
            var ws, ws' := After(rs, i, cap, windowMs), After(own, |own|, cap, windowMs);
            (group in ws <==> group in ws') && (group in ws ==> ws[group] == ws'[group])
  {
    if i > 0 {
      OneGroupsWindow(rs, i - 1, cap, windowMs, group);
      if rs[i - 1].group == group {
        var own := Only(rs, i - 1, group);
        AfterPrefix(own, rs[i - 1], |own|, cap, windowMs);
      }
    }
  }

  /** A group gets the answers it would get alone: whatever other groups send, they never change. */
  lemma GroupsAreIndependent(rs: seq<Request>, i: nat, cap: nat, windowMs: Clock)
    requires i < |rs|
    ensures var own := Only(rs, i, rs[i].group);
            Allowed(rs, i, cap, windowMs) == Answer(After(own, |own|, cap, windowMs), rs[i], cap, windowMs)
  {
    OneGroupsWindow(rs, i, cap, windowMs, rs[i].group);
  }

  // ---- which requests are allowed, told from the requests alone ----

  /** At least `windowMs` lie between the two times; the least span of all is always over. */
  predicate Elapsed(now: Clock, start: Clock, windowMs: Clock) {
    now - start >= windowMs || windowMs == I64_MIN
  }

  /** The last of the first `i` requests to open a window of `group`: its first one, and each first one long enough after the last opener. */
  ghost function LastOpener(rs: seq<Request>, i: nat, windowMs: Clock, group: string): (o: int)
    requires i <= |rs|
    ensures -1 <= o < i && (o >= 0 ==> rs[o].group == group)
  {
    if i == 0 then -1 else
    var last := LastOpener(rs, i - 1, windowMs, group);
    if rs[i - 1].group == group && (last == -1 || Elapsed(rs[i - 1].now, rs[last].now, windowMs)) then i - 1 else last
  }

  /** The requests of `group` from number `from` on, up to number `to`. */
  ghost function Arrivals(rs: seq<Request>, from: nat, to: nat, group: string): set<nat>
    requires to <= |rs|
  {
    set j: nat | from <= j < to && rs[j].group == group
  }

  lemma NoArrivals(rs: seq<Request>, i: nat, group: string)
    requires i <= |rs|
    ensures |Arrivals(rs, i, i, group)| == 0
  {
    assert Arrivals(rs, i, i, group) == {};
  }

  lemma OneMoreArrival(rs: seq<Request>, from: nat, i: nat, group: string)
    requires from <= i < |rs|
    ensures |Arrivals(rs, from, i + 1, group)| == |Arrivals(rs, from, i, group)| + if rs[i].group == group then 1 else 0
  {
    var was := Arrivals(rs, from, i, group);
    assert i !in was;
    assert Arrivals(rs, from, i + 1, group) == if rs[i].group == group then was + {i} else was;
  }

  lemma ElapsedSaturates(now: Clock, start: Clock, windowMs: Clock)
    ensures SaturatingSub(now, start) >= windowMs <==> Elapsed(now, start, windowMs)
  {
  }

  /** A group's window is the last one opened, and counts what arrived in it up to the cap. */
  lemma {:induction false} WindowCounts(rs: seq<Request>, i: nat, cap: nat, windowMs: Clock, group: string)
    requires i <= |rs|
    ensures var ws, o := After(rs, i, cap, windowMs), LastOpener(rs, i, windowMs, group);
            && (group in ws <==> o >= 0)
            && (o >= 0 ==>
                  var n := |Arrivals(rs, o, i, group)|;
                  ws[group] == Window(rs[o].now, if n < cap then n else cap))
  {
    hide SaturatingSub, Elapsed, Arrivals;
    if i > 0 {
      WindowCounts(rs, i - 1, cap, windowMs, group);
      var ws, r, last := After(rs, i - 1, cap, windowMs), rs[i - 1], LastOpener(rs, i - 1, windowMs, group);
      NoArrivals(rs, i - 1, group);
      OneMoreArrival(rs, i - 1, i - 1, group);
      if last >= 0 {
        ElapsedSaturates(r.now, rs[last].now, windowMs);
        OneMoreArrival(rs, last, i - 1, group);
      }
    }
  }

  /**
   Over any run a request is allowed if and only if fewer than `cap` requests of its group came before it
   since its window was opened; the window opens with the group's first request, and again with the first one
   long enough after the last opening.
   */
  lemma AllowedIffUnderCap(rs: seq<Request>, i: nat, cap: nat, windowMs: Clock)
    requires i < |rs|
    ensures var o := LastOpener(rs, i + 1, windowMs, rs[i].group);
            && 0 <= o <= i && WindowOf(rs, i, cap, windowMs) == rs[o].now
            && (Allowed(rs, i, cap, windowMs) <==> |Arrivals(rs, o, i, rs[i].group)| < cap)
  {
    hide SaturatingSub, Elapsed, Arrivals;
    var group, last := rs[i].group, LastOpener(rs, i, windowMs, rs[i].group);
    WindowCounts(rs, i, cap, windowMs, group);
    NoArrivals(rs, i, group);
    if last >= 0 {
      ElapsedSaturates(rs[i].now, rs[last].now, windowMs);
    }
  }

  /** The first request a group makes is allowed under any cap that allows one at all. */
  lemma FirstIsAllowed(group: string, now: Clock, cap: nat, windowMs: Clock)
    requires cap > 0
    ensures Answer(map[], Request(group, now), cap, windowMs)
  {
    var rs := [Request(group, now)];
    AllowedIffUnderCap(rs, 0, cap, windowMs);
    NoArrivals(rs, 0, group);
  }
}

/** Training windows around grasps: the fixed lead, the pose-predicate lead, and the gate on
    the frame at which the jaws close. */
module Windows {
  import opened Common
  import opened Sorting
  import opened Grid

  datatype Grasp = Grasp(id: nat, t: Option<real>)

  datatype Span = Span(lo: real, hi: real)

  /** How the start of a window was decided. */
  datatype Mode = FixedLead | Pose | Clamp | Clamped

  datatype Start = Start(t: real, mode: Mode)

  /** `k` indexes the time-sorted grasps. */
  datatype Window = Window(k: nat, span: Span, mode: Mode)

  // ---- the clipping rule ------------------------------------------------------------

  function Mid(a: real, b: real): real {
    (a + b) / 2.0
  }

  /** Never reach back past the midpoint to the previous grasp. */
  function Lo(ts: seq<real>, k: nat, start: real): real
    requires k < |ts|
  {
    if k > 0 then MaxReal(start, Mid(ts[k - 1], ts[k])) else start
  }

  /** Never reach forward past the midpoint to the next grasp. */
  function Hi(ts: seq<real>, k: nat, t1: real, postS: real): real
    requires k < |ts|
  {
    var hi := MinReal(t1, ts[k] + postS);
    if k + 1 < |ts| then MinReal(hi, Mid(ts[k], ts[k + 1])) else hi
  }

  /** The windows of the first `n` grasps; one that clips to nothing is dropped. */
  ghost function Plan(ts: seq<real>, starts: seq<Start>, t1: real, postS: real, n: nat): seq<Window>
    requires |starts| == |ts| && n <= |ts|
  {
    if n == 0 then []
    else
      var span := Span(Lo(ts, n - 1, starts[n - 1].t), Hi(ts, n - 1, t1, postS));
      Plan(ts, starts, t1, postS, n - 1) +
      if span.hi > span.lo then [Window(n - 1, span, starts[n - 1].mode)] else []
  }

  /** Each window has positive length and ends no later than the next begins. */
  ghost predicate Disjoint(spans: seq<Span>) {
    && (forall i :: 0 <= i < |spans| ==> spans[i].lo < spans[i].hi)
    && (forall i, j :: 0 <= i < j < |spans| ==> spans[i].hi <= spans[j].lo)
  }

  function Spans(ws: seq<Window>): (r: seq<Span>)
    ensures |r| == |ws| && forall i :: 0 <= i < |ws| ==> r[i] == ws[i].span
  {
    Map((w: Window) => w.span, ws)
  }

  lemma {:induction false} PlanMembers(ts: seq<real>, starts: seq<Start>, t1: real, postS: real, n: nat)
    requires |starts| == |ts| && n <= |ts|
    ensures forall w :: w in Plan(ts, starts, t1, postS, n) <==>
              w.k < n && w == WindowOf(ts, starts, t1, postS, w.k) && w.span.lo < w.span.hi
  {
    hide Lo, Hi;
    if n > 0 {
      PlanMembers(ts, starts, t1, postS, n - 1);
      var before, last := Plan(ts, starts, t1, postS, n - 1), WindowOf(ts, starts, t1, postS, n - 1);
      assert forall w :: w in Plan(ts, starts, t1, postS, n) <==>
               w in before || (w == last && last.span.lo < last.span.hi);
    }
  }

  ghost predicate InTimeOrder(ws: seq<Window>) {
    forall i, j :: 0 <= i < j < |ws| ==> ws[i].k < ws[j].k
  }

  lemma OneMoreInOrder(ws: seq<Window>, last: Window)
    requires InTimeOrder(ws) && forall w :: w in ws ==> w.k < last.k
    ensures InTimeOrder(ws + [last])
  {
    assert forall i :: 0 <= i < |ws| ==> ws[i] in ws;
  }

  lemma {:induction false} PlanInOrder(ts: seq<real>, starts: seq<Start>, t1: real, postS: real, n: nat)
    requires |starts| == |ts| && n <= |ts|
    ensures InTimeOrder(Plan(ts, starts, t1, postS, n))
  {
    hide Lo, Hi;
    if n > 0 {
      PlanInOrder(ts, starts, t1, postS, n - 1);
      PlanMembers(ts, starts, t1, postS, n - 1);
      var before, last := Plan(ts, starts, t1, postS, n - 1), WindowOf(ts, starts, t1, postS, n - 1);
      if last.span.lo < last.span.hi {
        assert Plan(ts, starts, t1, postS, n) == before + [last];
        OneMoreInOrder(before, last);
      } else {
        assert Plan(ts, starts, t1, postS, n) == before;
      }
    }
  }

  lemma {:induction false} PlanShape(ts: seq<real>, starts: seq<Start>, t1: real, postS: real, n: nat)
    requires |starts| == |ts| && n <= |ts|
    ensures var ws := Plan(ts, starts, t1, postS, n);
      && (forall w :: w in ws <==>
            && w.k < n && w.mode == starts[w.k].mode
            && w.span == Span(Lo(ts, w.k, starts[w.k].t), Hi(ts, w.k, t1, postS)) && w.span.lo < w.span.hi)
      && (forall i, j :: 0 <= i < j < |ws| ==> ws[i].k < ws[j].k)
  {
    hide Plan, Lo, Hi;
    PlanMembers(ts, starts, t1, postS, n);
    PlanInOrder(ts, starts, t1, postS, n);
  }

  ghost function WindowOf(ts: seq<real>, starts: seq<Start>, t1: real, postS: real, k: nat): Window
    requires k < |ts| == |starts|
  {
    Window(k, Span(Lo(ts, k, starts[k].t), Hi(ts, k, t1, postS)), starts[k].mode)
  }

  lemma PlanMember(ts: seq<real>, starts: seq<Start>, t1: real, postS: real, w: Window)
    requires |starts| == |ts|
    ensures w in Plan(ts, starts, t1, postS, |ts|) <==>
              w.k < |ts| && w == WindowOf(ts, starts, t1, postS, w.k) && w.span.lo < w.span.hi
  {
    PlanShape(ts, starts, t1, postS, |ts|);
  }

  /** Whatever reaches forward from one grasp stops before what reaches back from a later one. */
  lemma MidpointBetween(ts: seq<real>, starts: seq<Start>, t1: real, postS: real, a: nat, b: nat)
    requires a < b < |ts| == |starts| && Ascending(ts)
    ensures Hi(ts, a, t1, postS) <= Lo(ts, b, starts[b].t)
  {
    assert a < b - 1 ==> ts[a] <= ts[b - 1];
    assert a + 1 < b ==> ts[a + 1] <= ts[b];
  }

  /** Whatever the starts, the windows of any list of grasps are in order and share no time,
      also when some of them have clipped away. */
  lemma PlanDisjoint(ts: seq<real>, starts: seq<Start>, t1: real, postS: real)
    requires |starts| == |ts| && Ascending(ts)
    ensures Disjoint(Spans(Plan(ts, starts, t1, postS, |ts|)))
  {
    hide Plan, Lo, Hi, Ascending;
    PlanShape(ts, starts, t1, postS, |ts|);
    var ws := Plan(ts, starts, t1, postS, |ts|);
    forall i, j | 0 <= i < j < |ws| ensures ws[i].span.hi <= ws[j].span.lo {
      assert ws[i] in ws && ws[j] in ws;
      MidpointBetween(ts, starts, t1, postS, ws[i].k, ws[j].k);
    }
    forall i | 0 <= i < |ws| ensures ws[i].span.lo < ws[i].span.hi {
      assert ws[i] in ws;
    }
  }

  /** The instant is no later than halfway to any later close and no earlier than halfway to
      any earlier one. */
  ghost predicate Nearest(ts: seq<real>, k: nat, x: real)
    requires k < |ts|
  {
    && (forall j :: 0 <= j < k ==> ts[k] - x <= x - ts[j])
    && (forall j :: k < j < |ts| ==> x - ts[k] <= ts[j] - x)
  }

  /** When no two closes coincide, that is being no nearer to any other close. */
  lemma NearestIsNoNearerElsewhere(ts: seq<real>, k: nat, x: real)
    requires k < |ts| && Distinct(ts)
    ensures Nearest(ts, k, x) <==> forall j :: 0 <= j < |ts| ==> AbsReal(x - ts[k]) <= AbsReal(x - ts[j])
  {
    forall j | 0 <= j < k ensures AbsReal(x - ts[k]) <= AbsReal(x - ts[j]) <==> ts[k] - x <= x - ts[j] {
      assert ts[j] < ts[k];
    }
    forall j | k < j < |ts| ensures AbsReal(x - ts[k]) <= AbsReal(x - ts[j]) <==> x - ts[k] <= ts[j] - x {
      assert ts[k] < ts[j];
    }
  }

  /** The instants around close `k` from its start on. */
  ghost predicate Around(ts: seq<real>, k: nat, start: real, t1: real, postS: real, x: real)
    requires k < |ts|
  {
    start <= x <= t1 && x <= ts[k] + postS && Nearest(ts, k, x)
  }

  lemma ClippedIsAround(ts: seq<real>, k: nat, start: real, t1: real, postS: real, x: real)
    requires k < |ts| && Ascending(ts)
    ensures Lo(ts, k, start) <= x <= Hi(ts, k, t1, postS) <==> Around(ts, k, start, t1, postS, x)
  {
    if Lo(ts, k, start) <= x <= Hi(ts, k, t1, postS) {
      forall j | 0 <= j < k ensures ts[k] - x <= x - ts[j] {
        assert j < k - 1 ==> ts[j] <= ts[k - 1];
      }
      forall j | k < j < |ts| ensures x - ts[k] <= ts[j] - x {
        assert k + 1 < j ==> ts[k + 1] <= ts[j];
      }
    }
  }

  /** A span of positive length that holds exactly the instants around close `k`. */
  ghost predicate WindowAround(ts: seq<real>, k: nat, start: real, t1: real, postS: real, s: Span)
    requires k < |ts|
  {
    s.lo < s.hi && forall x :: s.lo <= x <= s.hi <==> Around(ts, k, start, t1, postS, x)
  }

  lemma ClippedWindow(ts: seq<real>, k: nat, start: real, t1: real, postS: real, s: Span)
    requires k < |ts| && Ascending(ts)
    ensures WindowAround(ts, k, start, t1, postS, s)
            <==> s == Span(Lo(ts, k, start), Hi(ts, k, t1, postS)) && s.lo < s.hi
  {
    hide Lo, Hi, Around, Ascending;
    var lo, hi := Lo(ts, k, start), Hi(ts, k, t1, postS);
    forall x ensures lo <= x <= hi <==> Around(ts, k, start, t1, postS, x) {
      ClippedIsAround(ts, k, start, t1, postS, x);
    }
    if WindowAround(ts, k, start, t1, postS, s) {
      assert Around(ts, k, start, t1, postS, s.lo) && Around(ts, k, start, t1, postS, s.hi);
      assert Around(ts, k, start, t1, postS, lo) && Around(ts, k, start, t1, postS, hi);
    }
  }

  /** A window is planned for close `k` exactly when the instants around it have length, and
      then it is those instants. */
  lemma PlanIsAround(ts: seq<real>, starts: seq<Start>, t1: real, postS: real, w: Window)
    requires |starts| == |ts| && Ascending(ts)
    ensures w in Plan(ts, starts, t1, postS, |ts|)
            <==> w.k < |ts| && w.mode == starts[w.k].mode && WindowAround(ts, w.k, starts[w.k].t, t1, postS, w.span)
  {
    hide Plan, Lo, Hi, WindowAround, Ascending;
    PlanMember(ts, starts, t1, postS, w);
    if w.k < |ts| {
      ClippedWindow(ts, w.k, starts[w.k].t, t1, postS, w.span);
    }
  }

  /** No grid instant falls in two windows. */
  lemma NoInstantTwice(spans: seq<Span>, fps: int, i: nat, j: nat, a: nat, b: nat)
    requires Disjoint(spans) && fps > 0 && i < |spans| && j < |spans|
    requires a < GridSize(spans[i].lo, spans[i].hi, fps) && b < GridSize(spans[j].lo, spans[j].hi, fps)
    ensures Instant(spans[i].lo, a, fps) == Instant(spans[j].lo, b, fps) <==> i == j && a == b
  {
    InstantInWindow(spans[i].lo, spans[i].hi, a, fps);
    InstantInWindow(spans[j].lo, spans[j].hi, b, fps);
    if i == j && a < b { InstantMonotone(spans[i].lo, a, b, fps); }
    if i == j && b < a { InstantMonotone(spans[i].lo, b, a, fps); }
  }

  // ---- fixed windows ----------------------------------------------------------------

  function ByTime(x: real): Key { (x, 0.0) }

  function CloseTimes(grasps: seq<Grasp>): seq<real> {
    if grasps == [] then []
    else
      var g := grasps[|grasps| - 1];
      CloseTimes(grasps[..|grasps| - 1]) + if g.t.Some? then [g.t.value] else []
  }

  function SortedTimes(grasps: seq<Grasp>): seq<real> {
    Sort(CloseTimes(grasps), ByTime)
  }

  lemma SortedTimesAscend(grasps: seq<Grasp>)
    ensures Ascending(SortedTimes(grasps))
  {
    SortSorts(CloseTimes(grasps), ByTime);
    var ts := SortedTimes(grasps);
    forall i, j | 0 <= i < j < |ts| ensures ts[i] <= ts[j] {
      assert Leq(ByTime(ts[i]), ByTime(ts[j]));
    }
  }

  function FixedStarts(ts: seq<real>, t0: real, preS: real): (r: seq<Start>)
    ensures |r| == |ts|
  {
    seq(|ts|, k requires 0 <= k < |ts| => Start(MaxReal(t0, ts[k] - preS), FixedLead))
  }

  ghost function FixedPlan(ts: seq<real>, t0: real, t1: real, preS: real, postS: real): seq<Window> {
    Plan(ts, FixedStarts(ts, t0, preS), t1, postS, |ts|)
  }

  /** The instant is in the take, from `preS` before close `k` to `postS` after it, and not past
      halfway to another close. */
  ghost predicate InReach(ts: seq<real>, k: nat, t0: real, t1: real, preS: real, postS: real, x: real)
    requires k < |ts|
  {
    t0 <= x <= t1 && ts[k] - preS <= x <= ts[k] + postS && Nearest(ts, k, x)
  }

  /** A span of positive length that holds exactly those instants. */
  ghost predicate FixedWindow(ts: seq<real>, k: nat, t0: real, t1: real, preS: real, postS: real, s: Span)
    requires k < |ts|
  {
    s.lo < s.hi && forall x :: s.lo <= x <= s.hi <==> InReach(ts, k, t0, t1, preS, postS, x)
  }

  lemma FixedWindowBounds(ts: seq<real>, k: nat, t0: real, t1: real, preS: real, postS: real, s: Span)
    requires k < |ts| && FixedWindow(ts, k, t0, t1, preS, postS, s)
    ensures t0 <= s.lo && ts[k] - preS <= s.lo && s.hi <= ts[k] + postS && s.hi <= t1
  {
    assert InReach(ts, k, t0, t1, preS, postS, s.lo) && InReach(ts, k, t0, t1, preS, postS, s.hi);
  }

  lemma FixedIsAround(ts: seq<real>, k: nat, t0: real, t1: real, preS: real, postS: real, start: real, s: Span)
    requires k < |ts| && start == MaxReal(t0, ts[k] - preS)
    ensures FixedWindow(ts, k, t0, t1, preS, postS, s) <==> WindowAround(ts, k, start, t1, postS, s)
  {
    hide InReach, Around;
    forall x ensures InReach(ts, k, t0, t1, preS, postS, x) <==> Around(ts, k, start, t1, postS, x) {
      ReachIsAround(ts, k, t0, t1, preS, postS, start, x);
    }
  }

  lemma ReachIsAround(ts: seq<real>, k: nat, t0: real, t1: real, preS: real, postS: real, start: real, x: real)
    requires k < |ts| && start == MaxReal(t0, ts[k] - preS)
    ensures InReach(ts, k, t0, t1, preS, postS, x) <==> Around(ts, k, start, t1, postS, x)
  {
    hide Nearest;
  }

  /** The fixed windows are exactly these, one for each close that has one. */
  lemma FixedWindowsReach(grasps: seq<Grasp>, t0: real, t1: real, preS: real, postS: real, w: Window)
    ensures Ascending(SortedTimes(grasps))
    ensures forall t :: multiset(SortedTimes(grasps))[t] == |ClosingAt(grasps, t)|
    ensures w in FixedPlan(SortedTimes(grasps), t0, t1, preS, postS)
            <==> w.k < |SortedTimes(grasps)| && w.mode == FixedLead
                 && FixedWindow(SortedTimes(grasps), w.k, t0, t1, preS, postS, w.span)
  {
    SortedTimesAscend(grasps);
    SortedTimesCount(grasps);
    FixedPlanReaches(SortedTimes(grasps), t0, t1, preS, postS, w);
  }

  lemma SortedTimesCount(grasps: seq<Grasp>)
    ensures forall t :: multiset(SortedTimes(grasps))[t] == |ClosingAt(grasps, t)|
  {
    TimesAreCloses(grasps);
    SortSorts(CloseTimes(grasps), ByTime);
  }

  lemma FixedPlanReaches(ts: seq<real>, t0: real, t1: real, preS: real, postS: real, w: Window)
    requires Ascending(ts)
    ensures w in FixedPlan(ts, t0, t1, preS, postS)
            <==> w.k < |ts| && w.mode == FixedLead && FixedWindow(ts, w.k, t0, t1, preS, postS, w.span)
  {
    hide Plan, FixedWindow, WindowAround;
    PlanIsAround(ts, FixedStarts(ts, t0, preS), t1, postS, w);
    if w.k < |ts| {
      var start := FixedStarts(ts, t0, preS)[w.k];
      FixedIsAround(ts, w.k, t0, t1, preS, postS, start.t, w.span);
    }
  }

  /** The grasps that close at `t`, by number. */
  ghost function ClosingAt(grasps: seq<Grasp>, t: real): set<nat> {
    set i: nat | i < |grasps| && grasps[i].t == Some(t)
  }

  lemma {:induction false} TimesAreCloses(grasps: seq<Grasp>)
    ensures forall t :: multiset(CloseTimes(grasps))[t] == |ClosingAt(grasps, t)|
  {
    hide ClosingAt;
    if grasps == [] {
      NoneClosing();
    } else {
      var front, last := grasps[..|grasps| - 1], grasps[|grasps| - 1];
      TimesAreCloses(front);
      forall t ensures multiset(CloseTimes(grasps))[t] == |ClosingAt(grasps, t)| {
        OneMoreClosing(grasps, t);
      }
    }
  }

  lemma NoneClosing()
    ensures forall t :: ClosingAt([], t) == {}
  {
  }

  lemma OneMoreClosing(grasps: seq<Grasp>, t: real)
    requires grasps != []
    ensures var n := |grasps| - 1;
      |ClosingAt(grasps, t)| == |ClosingAt(grasps[..n], t)| + if grasps[n].t == Some(t) then 1 else 0
  {
    var n := |grasps| - 1;
    assert ClosingAt(grasps, t) == ClosingAt(grasps[..n], t) + if grasps[n].t == Some(t) then {n} else {};
  }

  method GraspWindowsIndexed(grasps: seq<Grasp>, t0: real, t1: real, preS: real, postS: real)
      returns (out: seq<Window>)
    ensures out == FixedPlan(SortedTimes(grasps), t0, t1, preS, postS)
  {
    var ts := SortedTimes(grasps);
    out := [];
    for i := 0 to |ts|
      invariant out == Plan(ts, FixedStarts(ts, t0, preS), t1, postS, i)
    {
      var lo, hi := MaxReal(t0, ts[i] - preS), MinReal(t1, ts[i] + postS);
      if i > 0 {
        lo := MaxReal(lo, (ts[i - 1] + ts[i]) / 2.0);
      }
      if i + 1 < |ts| {
        hi := MinReal(hi, (ts[i] + ts[i + 1]) / 2.0);
      }
      if hi > lo {
        out := out + [Window(i, Span(lo, hi), FixedLead)];
      }
    }
  }

  /** A fixed window contains its own close exactly when the close lies in the recorded span. */
  lemma FixedContainsClose(ts: seq<real>, t0: real, t1: real, preS: real, postS: real, w: Window)
    requires Ascending(ts) && preS >= 0.0 && postS >= 0.0
    requires w in FixedPlan(ts, t0, t1, preS, postS)
    ensures w.k < |ts|
    ensures w.span.lo <= ts[w.k] <= w.span.hi <==> t0 <= ts[w.k] <= t1
  {
    hide Plan;
    PlanMember(ts, FixedStarts(ts, t0, preS), t1, postS, w);
    assert w.k > 0 ==> ts[w.k - 1] <= ts[w.k];
    assert w.k + 1 < |ts| ==> ts[w.k] <= ts[w.k + 1];
  }

  // ---- the pose predicate -----------------------------------------------------------

  /** Height of the end effector over the approach to a grasp. */
  datatype Track = Track(times: seq<real>, z: seq<real>)

  /** The last of the first `n` samples inside [floor, close], or -1. */
  function LastInSpan(times: seq<real>, floor: real, close: real, n: nat): int
    requires n <= |times|
  {
    if n == 0 then -1
    else if floor <= times[n - 1] <= close then n - 1
    else LastInSpan(times, floor, close, n - 1)
  }

  /** The last of the first `n` samples inside the span that is not below the plane, or -1. */
  function LastAbove(track: Track, floor: real, close: real, plane: real, n: nat): int
    requires n <= |track.times| == |track.z|
  {
    if n == 0 then -1
    else if floor <= track.times[n - 1] <= close && track.z[n - 1] >= plane then n - 1
    else LastAbove(track, floor, close, plane, n - 1)
  }

  function PregraspStart(close: real, track: Track, planeM: real, marginS: real, floor: real): Start {
    var last := LastInSpan(track.times, floor, close, |track.times|);
    if last < 0 || |track.z| != |track.times| then Start(floor, Clamp)
    else
      LastInSpanSound(track.times, floor, close, |track.times|);
      var crossing := LastAbove(track, floor, close, track.z[last] + planeM, |track.times|);
      if crossing < 0 then Start(floor, Clamp)
      else
        LastAboveSound(track, floor, close, track.z[last] + planeM, |track.times|);
        var lo := track.times[crossing] - marginS;
        if lo <= floor then Start(floor, Clamped) else Start(lo, Pose)
  }

  lemma {:induction false} LastInSpanSound(times: seq<real>, floor: real, close: real, n: nat)
    requires n <= |times|
    ensures var c := LastInSpan(times, floor, close, n);
      && -1 <= c < n && (c >= 0 ==> floor <= times[c] <= close)
      && forall j :: c < j < n ==> !(floor <= times[j] <= close)
  {
    if n > 0 { LastInSpanSound(times, floor, close, n - 1); }
  }

  lemma {:induction false} LastAboveSound(track: Track, floor: real, close: real, plane: real, n: nat)
    requires n <= |track.times| == |track.z|
    ensures var c := LastAbove(track, floor, close, plane, n);
      && -1 <= c < n && (c >= 0 ==> floor <= track.times[c] <= close && track.z[c] >= plane)
      && forall j :: c < j < n && floor <= track.times[j] <= close ==> track.z[j] < plane
  {
    if n > 0 { LastAboveSound(track, floor, close, plane, n - 1); }
  }

  lemma {:induction false} LastAboveMonotone(track: Track, floor: real, close: real, p: real, q: real, n: nat)
    requires n <= |track.times| == |track.z| && p <= q
    ensures LastAbove(track, floor, close, q, n) <= LastAbove(track, floor, close, p, n)
  {
    if n > 0 {
      LastAboveMonotone(track, floor, close, p, q, n - 1);
      LastAboveSound(track, floor, close, q, n - 1);
    }
  }

  /** The start never precedes the floor, and with a lead that is not negative it never
      follows the close. */
  lemma StartBounds(close: real, track: Track, planeM: real, marginS: real, floor: real)
    ensures var s := PregraspStart(close, track, planeM, marginS, floor);
      && s.t >= floor && s.mode != FixedLead && (s.mode == Pose <==> s.t > floor)
      && (marginS >= 0.0 && floor <= close ==> s.t <= close)
  {
    LastInSpanSound(track.times, floor, close, |track.times|);
    var last := LastInSpan(track.times, floor, close, |track.times|);
    if last >= 0 && |track.z| == |track.times| {
      LastAboveSound(track, floor, close, track.z[last] + planeM, |track.times|);
    }
  }

  /** In "pose" mode the start is one margin before a sample that is not below the plane,
      every later sample of the approach is below it, and with a positive plane height the
      descent to the grasp's own height comes after it. */
  lemma PoseIsLastCrossing(close: real, track: Track, planeM: real, marginS: real, floor: real)
    requires PregraspStart(close, track, planeM, marginS, floor).mode == Pose
    ensures |track.times| == |track.z|
    ensures var s, last := PregraspStart(close, track, planeM, marginS, floor),
                           LastInSpan(track.times, floor, close, |track.times|);
      && 0 <= last < |track.z|
      && exists c :: 0 <= c <= last
           && floor <= track.times[c] <= close && s.t == track.times[c] - marginS
           && track.z[c] >= track.z[last] + planeM
           && (forall j :: c < j < |track.z| && floor <= track.times[j] <= close
                 ==> track.z[j] < track.z[last] + planeM)
           && (planeM > 0.0 ==> c < last)
  {
    LastInSpanSound(track.times, floor, close, |track.times|);
    var last := LastInSpan(track.times, floor, close, |track.times|);
    LastAboveSound(track, floor, close, track.z[last] + planeM, |track.times|);
    var c := LastAbove(track, floor, close, track.z[last] + planeM, |track.times|);
    assert 0 <= c <= last;
  }

  /** Sample `l` is the last of the approach, and `c` the last of it that is not below the
      plane over sample `l`. */
  ghost predicate Crosses(track: Track, floor: real, close: real, planeM: real, l: nat, c: nat)
    requires |track.times| == |track.z|
  {
    && c <= l < |track.z| && floor <= track.times[l] <= close && floor <= track.times[c] <= close
    && (forall j :: l < j < |track.z| ==> !(floor <= track.times[j] <= close))
    && track.z[c] >= track.z[l] + planeM
    && (forall j :: c < j < |track.z| && floor <= track.times[j] <= close ==> track.z[j] < track.z[l] + planeM)
  }

  /** The start in every case: one margin before the last sample of the approach that is not
      below the plane, unless that is before the floor; the floor when there is no such sample
      or the heights do not match the times. */
  lemma PregraspStartIs(close: real, track: Track, planeM: real, marginS: real, floor: real)
    ensures var s := PregraspStart(close, track, planeM, marginS, floor);
      if |track.times| == |track.z| && exists l: nat, c: nat :: Crosses(track, floor, close, planeM, l, c)
      then exists l: nat, c: nat :: Crosses(track, floor, close, planeM, l, c)
             && s == if track.times[c] - marginS <= floor then Start(floor, Clamped)
                     else Start(track.times[c] - marginS, Pose)
      else s == Start(floor, Clamp)
    ensures |track.times| == |track.z| ==>
              forall l: nat, c: nat, l': nat, c': nat ::
                (Crosses(track, floor, close, planeM, l, c) && Crosses(track, floor, close, planeM, l', c')) ==>
                  l == l' && c == c'
  {
    LastInSpanSound(track.times, floor, close, |track.times|);
    var last := LastInSpan(track.times, floor, close, |track.times|);
    if last >= 0 && |track.z| == |track.times| {
      LastAboveSound(track, floor, close, track.z[last] + planeM, |track.times|);
      var crossing := LastAbove(track, floor, close, track.z[last] + planeM, |track.times|);
      if crossing >= 0 {
        assert Crosses(track, floor, close, planeM, last, crossing);
      }
    }
  }

  /** Raising the margin or the plane never moves a start later. */
  lemma StartMonotone(close: real, track: Track, plane: real, plane': real, margin: real, margin': real, floor: real)
    requires plane <= plane' && margin <= margin'
    requires Ascending(track.times)
    ensures PregraspStart(close, track, plane', margin', floor).t <= PregraspStart(close, track, plane, margin, floor).t
  {
    hide PregraspStart, LastInSpan, LastAbove;
    StartTime(close, track, plane, margin, floor);
    StartTime(close, track, plane', margin', floor);
    LastInSpanSound(track.times, floor, close, |track.times|);
    var last := LastInSpan(track.times, floor, close, |track.times|);
    if last >= 0 && |track.z| == |track.times| {
      LastAboveMonotone(track, floor, close, track.z[last] + plane, track.z[last] + plane', |track.times|);
      LastAboveSound(track, floor, close, track.z[last] + plane, |track.times|);
      LastAboveSound(track, floor, close, track.z[last] + plane', |track.times|);
    }
  }

  /** The start as one expression: a margin before the crossing, but not before the floor. */
  lemma StartTime(close: real, track: Track, plane: real, margin: real, floor: real)
    ensures var last := LastInSpan(track.times, floor, close, |track.times|);
      && -1 <= last < |track.times|
      && PregraspStart(close, track, plane, margin, floor).t
         == if last < 0 || |track.z| != |track.times| then floor
            else
              var crossing := LastAbove(track, floor, close, track.z[last] + plane, |track.times|);
              if 0 <= crossing < |track.times| then MaxReal(floor, track.times[crossing] - margin) else floor
  {
    LastInSpanSound(track.times, floor, close, |track.times|);
    var last := LastInSpan(track.times, floor, close, |track.times|);
    if last >= 0 && |track.z| == |track.times| {
      LastAboveSound(track, floor, close, track.z[last] + plane, |track.times|);
    }
  }

  // ---- pose windows -----------------------------------------------------------------

  function ByClose(g: Grasp): Key {
    (if g.t.Some? then g.t.value else 0.0, 0.0)
  }

  function Ordered(grasps: seq<Grasp>): seq<Grasp> {
    Sort(grasps, ByClose)
  }

  ghost predicate Timed(grasps: seq<Grasp>) {
    forall g :: g in grasps ==> g.t.Some?
  }

  function OrderedTimes(ordered: seq<Grasp>): (r: seq<real>)
    ensures |r| == |ordered|
  {
    seq(|ordered|, k requires 0 <= k < |ordered| => ByClose(ordered[k]).0)
  }

  function PoseStart(g: Grasp, t: real, t0: real, preS: real, eeZ: Grasp -> Option<Track>,
                     planeM: real, marginS: real): Start {
    var floor := MaxReal(t0, t - preS);
    match eeZ(g)
    case None => Start(floor, Clamp)
    case Some(track) => PregraspStart(t, track, planeM, marginS, floor)
  }

  function PoseStarts(ordered: seq<Grasp>, t0: real, preS: real, eeZ: Grasp -> Option<Track>,
                      planeM: real, marginS: real): (r: seq<Start>)
    ensures |r| == |ordered|
  {
    seq(|ordered|, k requires 0 <= k < |ordered| =>
      PoseStart(ordered[k], ByClose(ordered[k]).0, t0, preS, eeZ, planeM, marginS))
  }

  ghost function PosePlan(grasps: seq<Grasp>, t0: real, t1: real, preS: real, postS: real,
                          eeZ: Grasp -> Option<Track>, planeM: real, marginS: real): seq<Window> {
    var ordered := Ordered(grasps);
    Plan(OrderedTimes(ordered), PoseStarts(ordered, t0, preS, eeZ, planeM, marginS), t1, postS, |ordered|)
  }

  method GraspWindowsPoseIndexed(grasps: seq<Grasp>, t0: real, t1: real, preS: real, postS: real,
                                 eeZ: Grasp -> Option<Track>, planeM: real, marginS: real)
      returns (out: seq<Window>)
    requires Timed(grasps)
    ensures out == PosePlan(grasps, t0, t1, preS, postS, eeZ, planeM, marginS)
  {
    hide PregraspStart, Sort;
    var order := Ordered(grasps);
    var ts := OrderedTimes(order);
    ghost var starts := PoseStarts(order, t0, preS, eeZ, planeM, marginS);
    out := [];
    for k := 0 to |order|
      invariant out == Plan(ts, starts, t1, postS, k)
    {
      var t := ts[k];
      var floor := MaxReal(t0, t - preS);
      var start := Start(floor, Clamp);
      var track := eeZ(order[k]);
      if track.Some? {
        start := PregraspStart(t, track.value, planeM, marginS, floor);
      }
      assert start == starts[k];
      var lo, hi := start.t, MinReal(t1, t + postS);
      if k > 0 {
        lo := MaxReal(lo, (ts[k - 1] + t) / 2.0);
      }
      if k + 1 < |ts| {
        hi := MinReal(hi, (t + ts[k + 1]) / 2.0);
      }
      if hi > lo {
        out := out + [Window(k, Span(lo, hi), start.mode)];
      }
    }
  }

  /** Where the window of a grasp starts: its own lead before the close, or where its approach
      crosses the plane, if the arm's height over it is known. */
  ghost predicate StartsAt(g: Grasp, t0: real, preS: real, eeZ: Grasp -> Option<Track>, planeM: real, marginS: real,
                           s: Start)
  {
    && g.t.Some?
    && var floor := if t0 >= g.t.value - preS then t0 else g.t.value - preS;
       s == if eeZ(g).None? then Start(floor, Clamp)
            else PregraspStart(g.t.value, eeZ(g).value, planeM, marginS, floor)
  }

  /** The pose windows are exactly the instants around each close from that start on. */
  lemma PoseWindowsReach(grasps: seq<Grasp>, t0: real, t1: real, preS: real, postS: real,
                         eeZ: Grasp -> Option<Track>, planeM: real, marginS: real, w: Window)
    requires Timed(grasps)
    ensures var ts, ordered := SortedTimes(grasps), Ordered(grasps);
      && |ts| == |ordered| == |grasps| && (forall k :: 0 <= k < |ts| ==> ordered[k].t == Some(ts[k]))
      && (w in PosePlan(grasps, t0, t1, preS, postS, eeZ, planeM, marginS)
          <==> w.k < |ts|
               && exists start :: StartsAt(ordered[w.k], t0, preS, eeZ, planeM, marginS, start)
                    && w.mode == start.mode && WindowAround(ts, w.k, start.t, t1, postS, w.span))
  {
    hide Plan, WindowAround, PregraspStart, Sort;
    var ts, ordered := SortedTimes(grasps), Ordered(grasps);
    SameTimes(grasps);
    SortMembers(grasps, ByClose);
    SortSorts(grasps, ByClose);
    var starts := PoseStarts(ordered, t0, preS, eeZ, planeM, marginS);
    forall k | 0 <= k < |ts|
      ensures ordered[k].t == Some(ts[k]) && StartsAt(ordered[k], t0, preS, eeZ, planeM, marginS, starts[k])
    {
      assert ordered[k] in grasps;
    }
    PlanIsAround(ts, starts, t1, postS, w);
  }

  /** Both planners order the grasps by the same times. */
  lemma SameTimes(grasps: seq<Grasp>)
    requires Timed(grasps)
    ensures OrderedTimes(Ordered(grasps)) == SortedTimes(grasps)
    ensures Ascending(OrderedTimes(Ordered(grasps)))
  {
    SortedTimesAscend(grasps);
    SortProjects(grasps);
  }

  lemma {:induction false} InsertProjects(s: seq<Grasp>, x: Grasp)
    ensures OrderedTimes(Insert(s, x, ByClose)) == Insert(OrderedTimes(s), ByClose(x).0, ByTime)
  {
    if s != [] {
      var front := s[..|s| - 1];
      InsertProjects(front, x);
      assert OrderedTimes(s)[..|s| - 1] == OrderedTimes(front);
    }
  }

  lemma {:induction false} SortProjects(grasps: seq<Grasp>)
    requires Timed(grasps)
    ensures OrderedTimes(Ordered(grasps)) == SortedTimes(grasps)
  {
    if grasps != [] {
      var front, last := grasps[..|grasps| - 1], grasps[|grasps| - 1];
      SortProjects(front);
      InsertProjects(Ordered(front), last);
      assert CloseTimes(grasps) == CloseTimes(front) + [last.t.value];
    }
  }

  /** Each pose window lies inside the fixed window of the same grasp and ends with it. */
  lemma PoseInsideFixed(grasps: seq<Grasp>, t0: real, t1: real, preS: real, postS: real,
                        eeZ: Grasp -> Option<Track>, planeM: real, marginS: real, w: Window)
    requires Timed(grasps)
    requires w in PosePlan(grasps, t0, t1, preS, postS, eeZ, planeM, marginS)
    ensures exists f :: f in FixedPlan(SortedTimes(grasps), t0, t1, preS, postS)
                        && f.k == w.k && f.span.lo <= w.span.lo && f.span.hi == w.span.hi
  {
    var ts := SortedTimes(grasps);
    SameTimes(grasps);
    PoseStartsBounds(grasps, t0, preS, eeZ, planeM, marginS);
    LaterStartsLieInside(ts, PoseStarts(Ordered(grasps), t0, preS, eeZ, planeM, marginS), FixedStarts(ts, t0, preS),
                         t1, postS, w);
  }

  /** Moving starts later only shrinks the windows, from the left. */
  lemma LaterStartsLieInside(ts: seq<real>, starts: seq<Start>, earlier: seq<Start>, t1: real, postS: real, w: Window)
    requires |starts| == |earlier| == |ts| && forall k :: 0 <= k < |ts| ==> earlier[k].t <= starts[k].t
    requires w in Plan(ts, starts, t1, postS, |ts|)
    ensures exists f :: f in Plan(ts, earlier, t1, postS, |ts|)
                        && f.k == w.k && f.span.lo <= w.span.lo && f.span.hi == w.span.hi
  {
    hide Plan;
    PlanMember(ts, starts, t1, postS, w);
    var f := WindowOf(ts, earlier, t1, postS, w.k);
    PlanMember(ts, earlier, t1, postS, f);
  }

  lemma PoseStartsBounds(grasps: seq<Grasp>, t0: real, preS: real, eeZ: Grasp -> Option<Track>, planeM: real,
                         marginS: real)
    requires Timed(grasps)
    ensures var ts, starts := SortedTimes(grasps), PoseStarts(Ordered(grasps), t0, preS, eeZ, planeM, marginS);
      && |starts| == |ts| == |grasps|
      && forall k :: 0 <= k < |ts| ==>
           && FixedStarts(ts, t0, preS)[k].t <= starts[k].t
           && (marginS >= 0.0 && t0 <= ts[k] && preS >= 0.0 ==> starts[k].t <= ts[k])
  {
    SameTimes(grasps);
    hide Sort, SortedTimes, OrderedTimes, PoseStarts, FixedStarts;
    forall k | 0 <= k < |SortedTimes(grasps)|
      ensures var ts, starts := SortedTimes(grasps), PoseStarts(Ordered(grasps), t0, preS, eeZ, planeM, marginS);
        && FixedStarts(ts, t0, preS)[k].t <= starts[k].t
        && (marginS >= 0.0 && t0 <= ts[k] && preS >= 0.0 ==> starts[k].t <= ts[k])
    {
      PoseStartsBound(Ordered(grasps), t0, preS, eeZ, planeM, marginS, k);
    }
  }

  lemma PoseStartsBound(ordered: seq<Grasp>, t0: real, preS: real, eeZ: Grasp -> Option<Track>, planeM: real,
                        marginS: real, k: nat)
    requires k < |ordered|
    ensures var ts, starts := OrderedTimes(ordered), PoseStarts(ordered, t0, preS, eeZ, planeM, marginS);
      && FixedStarts(ts, t0, preS)[k].t <= starts[k].t
      && (marginS >= 0.0 && t0 <= ts[k] && preS >= 0.0 ==> starts[k].t <= ts[k])
  {
    PoseStartBounds(ordered[k], ByClose(ordered[k]).0, t0, preS, eeZ, planeM, marginS);
    hide PoseStart, ByClose;
  }

  lemma PoseStartBounds(g: Grasp, t: real, t0: real, preS: real, eeZ: Grasp -> Option<Track>, planeM: real,
                        marginS: real)
    ensures var s := PoseStart(g, t, t0, preS, eeZ, planeM, marginS);
      && s.t >= MaxReal(t0, t - preS)
      && (marginS >= 0.0 && t0 <= t && preS >= 0.0 ==> s.t <= t)
  {
    var track := eeZ(g);
    if track.Some? {
      StartBounds(t, track.value, planeM, marginS, MaxReal(t0, t - preS));
    }
  }

  ghost predicate Distinct(ts: seq<real>) {
    forall i, j :: 0 <= i < j < |ts| ==> ts[i] < ts[j]
  }

  lemma {:induction false} PlanKeepsAll(ts: seq<real>, starts: seq<Start>, t1: real, postS: real, n: nat)
    requires |starts| == |ts| && n <= |ts| && Distinct(ts) && postS > 0.0
    requires forall k :: 0 <= k < |ts| ==> starts[k].t <= ts[k] < t1
    ensures var ws := Plan(ts, starts, t1, postS, n);
      |ws| == n && forall k :: 0 <= k < n ==> ws[k].k == k
  {
    if n > 0 {
      PlanKeepsAll(ts, starts, t1, postS, n - 1);
      assert n >= 2 ==> ts[n - 2] < ts[n - 1];
      assert n < |ts| ==> ts[n - 1] < ts[n];
    }
  }

  /** With distinct closes inside the recorded span both planners keep every grasp, in the
      same order. */
  lemma BothKeepEveryGrasp(grasps: seq<Grasp>, t0: real, t1: real, preS: real, postS: real,
                           eeZ: Grasp -> Option<Track>, planeM: real, marginS: real)
    requires Timed(grasps) && Distinct(SortedTimes(grasps))
    requires forall k :: 0 <= k < |SortedTimes(grasps)| ==> t0 <= SortedTimes(grasps)[k] < t1
    requires preS >= 0.0 && postS > 0.0 && marginS >= 0.0
    ensures var fixed, pose := FixedPlan(SortedTimes(grasps), t0, t1, preS, postS),
                               PosePlan(grasps, t0, t1, preS, postS, eeZ, planeM, marginS);
      && |fixed| == |pose| == |grasps|
      && forall k :: 0 <= k < |grasps| ==> fixed[k].k == pose[k].k == k
  {
    var ts := SortedTimes(grasps);
    SameTimes(grasps);
    PoseStartsBounds(grasps, t0, preS, eeZ, planeM, marginS);
    PlanKeepsAll(ts, PoseStarts(Ordered(grasps), t0, preS, eeZ, planeM, marginS), t1, postS, |ts|);
    PlanKeepsAll(ts, FixedStarts(ts, t0, preS), t1, postS, |ts|);
  }

  function Numbers(ws: seq<Window>): seq<nat> {
    Map((w: Window) => w.k, ws)
  }

  ghost predicate Rising(ks: seq<nat>) {
    forall i, j :: 0 <= i < j < |ks| ==> ks[i] < ks[j]
  }

  lemma NotTheLast(k: nat, ks: seq<nat>)
    requires k in ks && k != ks[|ks| - 1]
    ensures k in ks[..|ks| - 1]
  {
    assert ks == ks[..|ks| - 1] + [ks[|ks| - 1]];
  }

  /** Some of an ascending list of numbers are no more than all of them, and as many only if
      they are all of them. */
  lemma {:induction false} SomeOfAll(some: seq<nat>, all: seq<nat>)
    requires Rising(some) && Rising(all) && forall k :: k in some ==> k in all
    ensures |some| <= |all| && (|some| == |all| ==> some == all)
    decreases |all|
  {
    if some != [] {
      assert some[0] in all;
      var m, n := |some| - 1, |all| - 1;
      if some[m] == all[n] {
        forall i | 0 <= i < m ensures some[i] in all[..n] {
          NotTheLast(some[i], all);
        }
        SomeOfAll(some[..m], all[..n]);
        assert some == some[..m] + [some[m]] && all == all[..n] + [all[n]];
      } else {
        forall i | 0 <= i <= m ensures some[i] in all[..n] {
          assert some[m] in all && some[i] in all;
          NotTheLast(some[i], all);
        }
        SomeOfAll(some, all[..n]);
      }
    }
  }

  /** The report pairs the k-th fixed window with the k-th pose window as soon as there are
      equally many: then they are of the same grasps and end together, whatever the closes. */
  lemma SameCountSameGrasps(grasps: seq<Grasp>, t0: real, t1: real, preS: real, postS: real,
                            eeZ: Grasp -> Option<Track>, planeM: real, marginS: real)
    requires Timed(grasps)
    ensures var fixed, pose := FixedPlan(SortedTimes(grasps), t0, t1, preS, postS),
                               PosePlan(grasps, t0, t1, preS, postS, eeZ, planeM, marginS);
      && |pose| <= |fixed|
      && (|pose| == |fixed| ==>
            forall i :: 0 <= i < |fixed| ==> fixed[i].k == pose[i].k && fixed[i].span.hi == pose[i].span.hi)
  {
    var ts, ordered := SortedTimes(grasps), Ordered(grasps);
    var fixed, pose := FixedPlan(ts, t0, t1, preS, postS),
                       PosePlan(grasps, t0, t1, preS, postS, eeZ, planeM, marginS);
    hide Plan, Sort, SortedTimes, PoseStarts, FixedStarts;
    SameTimes(grasps);
    PlanShape(ts, FixedStarts(ts, t0, preS), t1, postS, |ts|);
    PlanShape(ts, PoseStarts(ordered, t0, preS, eeZ, planeM, marginS), t1, postS, |ts|);
    forall i | 0 <= i < |pose| ensures pose[i].k in Numbers(fixed) {
      assert pose[i] in pose;
      PoseInsideFixed(grasps, t0, t1, preS, postS, eeZ, planeM, marginS, pose[i]);
      var f :| f in fixed && f.k == pose[i].k;
      var j :| 0 <= j < |fixed| && fixed[j] == f;
      assert Numbers(fixed)[j] == f.k;
    }
    SomeOfAll(Numbers(pose), Numbers(fixed));
    forall i | |pose| == |fixed| && 0 <= i < |fixed|
      ensures fixed[i].k == pose[i].k && fixed[i].span.hi == pose[i].span.hi
    {
      assert fixed[i] in fixed && pose[i] in pose;
      assert Numbers(fixed)[i] == Numbers(pose)[i];
    }
  }

  // ---- the close-index gate ---------------------------------------------------------

  function InFrames(seconds: real, fps: int): real {
    seconds * fps as real
  }

  /** A length of time in whole frames. */
  function Frames(seconds: real, fps: int): int {
    RoundHalfEven(InFrames(seconds, fps))
  }

  lemma Scale(x: real, y: real, fps: int)
    requires x <= y && fps > 0
    ensures InFrames(x, fps) <= InFrames(y, fps)
  {
    assert (y - x) * fps as real >= 0.0;
  }

  lemma FramesMonotone(x: real, y: real, fps: int)
    requires x <= y && fps > 0
    ensures Frames(x, fps) <= Frames(y, fps)
  {
    hide InFrames, RoundHalfEven;
    Scale(x, y, fps);
    RoundHalfEvenMonotone(InFrames(x, fps), InFrames(y, fps));
  }

  function CloseFrameIndex(close: real, lo: real, fps: int): int {
    Frames(close - lo, fps)
  }

  /** The close index is the number of whole frames nearest to the lead. */
  lemma CloseFrameIsNearest(close: real, lo: real, fps: int)
    ensures var lead := close - lo;
      lead * fps as real - 0.5 <= CloseFrameIndex(close, lo, fps) as real <= lead * fps as real + 0.5
  {
    var lead := close - lo;
    hide RoundHalfEven;
    RoundHalfEvenWithinHalf(InFrames(lead, fps));
  }

  function CloseIdxGate(chunkFrames: int, frac: real): int {
    Trunc(chunkFrames as real * frac)
  }

  predicate PassesGate(idx: int, chunkFrames: int, frac: real) {
    idx <= CloseIdxGate(chunkFrames, frac)
  }

  /** What the gate stands for: the close comes within the given share of the chunk. */
  predicate WithinShare(idx: int, share: real) {
    idx as real <= share
  }

  /** The gate passes exactly the indices within the share of the chunk, except when that
      share is negative and not whole. */
  lemma GateIsShare(chunkFrames: int, frac: real)
    ensures var share := chunkFrames as real * frac;
      (forall idx :: PassesGate(idx, chunkFrames, frac) <==> WithinShare(idx, share))
      <==> share >= 0.0 || share == share.Floor as real
  {
    GateAt(chunkFrames, frac, chunkFrames as real * frac);
  }

  lemma GateAt(chunkFrames: int, frac: real, share: real)
    requires CloseIdxGate(chunkFrames, frac) == Trunc(share)
    ensures (forall idx :: PassesGate(idx, chunkFrames, frac) <==> WithinShare(idx, share))
            <==> share >= 0.0 || share == share.Floor as real
  {
    hide CloseIdxGate;
    if share < 0.0 && share != share.Floor as real {
      assert PassesGate(Trunc(share), chunkFrames, frac) && !WithinShare(Trunc(share), share);
    }
  }

  /** No window opens its close later than round(pre * fps), and a window that nothing
      clipped meets that bound exactly. */
  lemma CloseIndexCeiling(ts: seq<real>, starts: seq<Start>, t0: real, t1: real, preS: real, postS: real, fps: int,
                          w: Window)
    requires |starts| == |ts| && fps > 0
    requires forall k :: 0 <= k < |ts| ==> starts[k].t >= MaxReal(t0, ts[k] - preS)
    requires w in Plan(ts, starts, t1, postS, |ts|)
    ensures w.k < |ts| && CloseFrameIndex(ts[w.k], w.span.lo, fps) <= Frames(preS, fps)
    ensures w.span.lo == ts[w.k] - preS ==>
              CloseFrameIndex(ts[w.k], w.span.lo, fps) == Frames(preS, fps)
  {
    hide Plan, Frames;
    PlanMember(ts, starts, t1, postS, w);
    FramesMonotone(ts[w.k] - w.span.lo, preS, fps);
  }

  /** The documented ceiling `close_idx <= pre_s * fps` holds for every window of every take
      exactly when pre * fps does not round up, for instance whenever it is an integer. */
  lemma DocumentedCeiling(preS: real, fps: int)
    requires fps > 0 && preS > 0.0
    ensures (forall ts: seq<real>, t0: real, t1: real, postS: real, w: Window ::
               w in FixedPlan(ts, t0, t1, preS, postS) && w.k < |ts| ==>
               CloseFrameIndex(ts[w.k], w.span.lo, fps) as real <= preS * fps as real)
            <==> Frames(preS, fps) as real <= preS * fps as real
    ensures preS * fps as real == (preS * fps as real).Floor as real ==>
              Frames(preS, fps) as real == preS * fps as real
  {
    if Frames(preS, fps) as real <= preS * fps as real {
      forall ts: seq<real>, t0: real, t1: real, postS: real, w: Window |
        w in FixedPlan(ts, t0, t1, preS, postS) && w.k < |ts|
        ensures CloseFrameIndex(ts[w.k], w.span.lo, fps) as real <= preS * fps as real
      {
        CloseIndexCeiling(ts, FixedStarts(ts, t0, preS), t0, t1, preS, postS, fps, w);
      }
    } else {
      var w := UnclippedWindow(preS);
      CloseIndexCeiling([0.0], FixedStarts([0.0], -preS, preS), -preS, 1.0, preS, 1.0, fps, w);
    }
  }

  /** A take with one grasp well inside it. */
  lemma UnclippedWindow(preS: real) returns (w: Window)
    requires preS > 0.0
    ensures w in FixedPlan([0.0], -preS, 1.0, preS, 1.0) && w.k == 0 && w.span.lo == -preS
  {
    w := Window(0, Span(-preS, 1.0), FixedLead);
    PlanMember([0.0], FixedStarts([0.0], -preS, preS), 1.0, 1.0, w);
  }

  /** A lead of 3.06 s at 30 frames a second breaks the documented ceiling: 91.8 frames, and a
      window that nothing clipped closes at frame 92. */
  lemma CeilingBroken() returns (w: Window)
    ensures w in FixedPlan([0.0], -3.06, 1.0, 3.06, 1.0) && w.k == 0
    ensures CloseFrameIndex(0.0, w.span.lo, 30) == 92 && 92.0 > 3.06 * 30.0
  {
    hide Plan;
    w := UnclippedWindow(3.06);
    assert InFrames(0.0 - w.span.lo, 30) == 91.8;
  }

  /** The windows of the first `n` that close inside the gate. */
  ghost function Gated(ws: seq<Window>, ts: seq<real>, fps: int, maxIdx: int, n: nat): seq<Window>
    requires n <= |ws| && forall i :: 0 <= i < |ws| ==> ws[i].k < |ts|
  {
    if n == 0 then []
    else
      var w := ws[n - 1];
      Gated(ws, ts, fps, maxIdx, n - 1) +
      if CloseFrameIndex(ts[w.k], w.span.lo, fps) <= maxIdx then [w] else []
  }

  lemma AppendDisjoint(ws: seq<Window>, w: Window)
    requires Disjoint(Spans(ws)) && w.span.lo < w.span.hi
    requires forall i :: 0 <= i < |ws| ==> ws[i].span.hi <= w.span.lo
    ensures Disjoint(Spans(ws + [w]))
  {
  }

  lemma {:induction false} GatedMembers(ws: seq<Window>, ts: seq<real>, fps: int, maxIdx: int, n: nat)
    requires n <= |ws| && forall i :: 0 <= i < |ws| ==> ws[i].k < |ts|
    ensures var g := Gated(ws, ts, fps, maxIdx, n);
      && (forall i :: 0 <= i < |g| ==> exists k :: 0 <= k < n && g[i] == ws[k])
      && (forall k :: 0 <= k < n ==> (ws[k] in g <==> CloseFrameIndex(ts[ws[k].k], ws[k].span.lo, fps) <= maxIdx))
  {
    hide CloseFrameIndex;
    if n > 0 {
      GatedMembers(ws, ts, fps, maxIdx, n - 1);
      var g, w := Gated(ws, ts, fps, maxIdx, n - 1), ws[n - 1];
      assert forall v :: v in g + [w] <==> v in g || v == w;
    }
  }

  /** The gate only leaves windows out. */
  lemma {:induction false} GatedCount(ws: seq<Window>, ts: seq<real>, fps: int, maxIdx: int, n: nat)
    requires n <= |ws| && forall i :: 0 <= i < |ws| ==> ws[i].k < |ts|
    ensures |Gated(ws, ts, fps, maxIdx, n)| <= n
    ensures |Gated(ws, ts, fps, maxIdx, n)| == n ==> Gated(ws, ts, fps, maxIdx, n) == ws[..n]
  {
    hide CloseFrameIndex;
    if n > 0 {
      GatedCount(ws, ts, fps, maxIdx, n - 1);
    }
  }

  lemma {:induction false} GatedDisjoint(ws: seq<Window>, ts: seq<real>, fps: int, maxIdx: int, n: nat)
    requires n <= |ws| && forall i :: 0 <= i < |ws| ==> ws[i].k < |ts|
    requires Disjoint(Spans(ws))
    ensures var g := Gated(ws, ts, fps, maxIdx, n);
      && Disjoint(Spans(g))
      && (forall i :: 0 <= i < |g| ==> exists k :: 0 <= k < n && g[i] == ws[k])
      && (forall k :: 0 <= k < n ==> (ws[k] in g <==> CloseFrameIndex(ts[ws[k].k], ws[k].span.lo, fps) <= maxIdx))
  {
    GatedMembers(ws, ts, fps, maxIdx, n);
    GatedInOrder(ws, ts, fps, maxIdx, n);
  }

  lemma {:induction false} GatedInOrder(ws: seq<Window>, ts: seq<real>, fps: int, maxIdx: int, n: nat)
    requires n <= |ws| && forall i :: 0 <= i < |ws| ==> ws[i].k < |ts|
    requires Disjoint(Spans(ws))
    ensures Disjoint(Spans(Gated(ws, ts, fps, maxIdx, n)))
  {
    hide CloseFrameIndex, Spans;
    if n > 0 {
      GatedInOrder(ws, ts, fps, maxIdx, n - 1);
      GatedMembers(ws, ts, fps, maxIdx, n - 1);
      var g, w := Gated(ws, ts, fps, maxIdx, n - 1), ws[n - 1];
      assert Spans(ws)[n - 1].lo < Spans(ws)[n - 1].hi;
      forall i | 0 <= i < |g| ensures g[i].span.hi <= w.span.lo {
        var k :| 0 <= k < n - 1 && g[i] == ws[k];
        assert Spans(ws)[k].hi <= Spans(ws)[n - 1].lo;
      }
      AppendDisjoint(g, w);
    }
  }
}

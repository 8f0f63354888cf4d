/** From a take to its dataset rows: which windows are planned, and what exporting a plan
    guarantees from end to end. */
module EpisodePlan {
  import opened Common
  import opened Sorting
  import opened Grid
  import opened Windows
  import opened WindowsFile
  import opened CameraExport
  import opened Export
  import KeepList
  import Segmenter

  datatype WindowMode = PerGrasp | PerGraspPose | WholeTake

  datatype Refusal = NoUsableGrasps | KeepMismatch | KeptNothing | BadTake | Unreadable | CameraMissing
    | SpansApart | NotListed | NothingRecorded | NoneCloseInTime | NoWindow

  datatype Recipe = Recipe(mode: WindowMode, preS: real, postS: real, fps: int,
                           chunkFrames: int, frac: real, planeM: real, marginS: real)

  /** What is known of a take: per arm its usable grasps, if any; the operator's keep-list, if
      there is one; whether the take is flagged; the joint streams, if they can be read;
      whether every camera is there; and the loaded windows file, if one is used. */
  datatype Take<!J> = Take(name: string, perArm: seq<Option<seq<Grasp>>>, keep: Option<seq<real>>, flagged: bool,
                           arms: Option<seq<Arm<J>>>, camerasPresent: bool, listed: Option<Loaded>)

  datatype WindowPlan = WindowPlan(spans: seq<Span>, tasks: seq<Option<string>>)

  // ---- the common span of all streams -----------------------------------------------

  predicate Sampled<J>(arms: seq<Arm<J>>) {
    arms != [] && forall a :: 0 <= a < |arms| ==> arms[a].tState != [] && arms[a].tAction != []
  }

  function LastOf(t: seq<real>): real
    requires t != []
  {
    t[|t| - 1]
  }

  /** The latest first stamp of any stream. */
  function SpanStart<J>(arms: seq<Arm<J>>): (t0: real)
    requires Sampled(arms)
    ensures forall a :: 0 <= a < |arms| ==> arms[a].tState[0] <= t0 && arms[a].tAction[0] <= t0
    ensures exists a :: 0 <= a < |arms| && (t0 == arms[a].tState[0] || t0 == arms[a].tAction[0])
  {
    var last := arms[|arms| - 1];
    var own := MaxReal(last.tState[0], last.tAction[0]);
    if |arms| == 1 then own else MaxReal(SpanStart(arms[..|arms| - 1]), own)
  }

  /** The earliest last stamp of any stream. */
  function SpanEnd<J>(arms: seq<Arm<J>>): (t1: real)
    requires Sampled(arms)
    ensures forall a :: 0 <= a < |arms| ==> t1 <= LastOf(arms[a].tState) && t1 <= LastOf(arms[a].tAction)
    ensures exists a :: 0 <= a < |arms| && (t1 == LastOf(arms[a].tState) || t1 == LastOf(arms[a].tAction))
  {
    var last := arms[|arms| - 1];
    var own := MinReal(LastOf(last.tState), LastOf(last.tAction));
    if |arms| == 1 then own else MinReal(SpanEnd(arms[..|arms| - 1]), own)
  }

  // ---- choosing the windows ---------------------------------------------------------

  /** The grasps of all arms in one pool; None when an arm has none and they are needed. */
  function Pool(perArm: seq<Option<seq<Grasp>>>, needed: bool): Option<seq<Grasp>> {
    if perArm == [] then Some([])
    else
      match Pool(perArm[..|perArm| - 1], needed)
      case None => None
      case Some(before) =>
        match perArm[|perArm| - 1]
        case None => if needed then None else Some(before)
        case Some(grasps) => Some(before + grasps)
  }

  /** The grasps the keep-list leaves. */
  ghost function AfterKeep(grasps: seq<Grasp>, keep: Option<seq<real>>): Result<seq<Grasp>, Refusal> {
    match keep
    case None => Ok(grasps)
    case Some(wanted) =>
      var matched := KeepList.Match(grasps, wanted, |grasps|);
      var kept := KeepList.Kept(grasps, matched, |grasps|);
      if KeepList.Missing(wanted, KeepList.Used(matched), |wanted|) != [] then Err(KeepMismatch)
      else if kept == [] then Err(KeptNothing)
      else Ok(kept)
  }

  /** A keep-list is honoured exactly or not at all: planning goes on exactly when it names
      something and every time on it was matched, and then with as many grasps as times. */
  lemma KeepListIsHonoured(grasps: seq<Grasp>, wanted: seq<real>)
    ensures var m := KeepList.Match(grasps, wanted, |grasps|);
            var r := AfterKeep(grasps, Some(wanted));
      && |m| == |grasps|
      && (r.Ok? <==> wanted != [] && forall i :: 0 <= i < |wanted| ==> i in KeepList.Used(m))
      && (r.Ok? ==> |r.value| == |wanted|)
  {
    var m := KeepList.Match(grasps, wanted, |grasps|);
    KeepList.KeptPlusMissing(grasps, wanted);
    NothingMissing(wanted, KeepList.Used(m), |wanted|);
  }

  lemma {:induction false} NothingMissing(wanted: seq<real>, used: set<nat>, n: nat)
    requires n <= |wanted|
    ensures KeepList.Missing(wanted, used, n) == [] <==> forall i :: 0 <= i < n ==> i in used
  {
    if n > 0 {
      NothingMissing(wanted, used, n - 1);
    }
  }

  /** When the mode needs grasps of every arm, one arm without any stops the plan; otherwise
      the pool is all the grasps there are. */
  lemma {:induction false} PoolIsEveryGrasp(perArm: seq<Option<seq<Grasp>>>, needed: bool)
    ensures Pool(perArm, needed).None? <==> needed && None in perArm
    ensures Pool(perArm, needed).Some? ==>
              forall g :: g in Pool(perArm, needed).value <==> exists grasps :: Some(grasps) in perArm && g in grasps
  {
    if perArm != [] {
      var front, last := perArm[..|perArm| - 1], perArm[|perArm| - 1];
      assert perArm == front + [last];
      PoolIsEveryGrasp(front, needed);
      assert forall a :: a in perArm <==> a in front || a == last;
      if Pool(perArm, needed).Some? {
        forall g ensures g in Pool(perArm, needed).value <==> exists grasps :: Some(grasps) in perArm && g in grasps {
          if last.Some? && g in last.value {
            assert Some(last.value) in perArm;
          }
        }
      }
    }
  }

  /** The windows file as the loader leaves it. */
  ghost predicate WellLoaded(l: Loaded) {
    && l.tasks.Keys == l.windows.Keys
    && forall e :: e in l.windows ==> |l.tasks[e]| == |l.windows[e]| && Disjoint(l.windows[e])
  }

  lemma LoadedIsWellLoaded(items: seq<Item>, l: Loaded)
    requires Acceptable(items) && HoldsFirst(items, |items|, l)
    ensures WellLoaded(l)
  {
    Gathered(items, l);
  }

  /** The file a segmented session leaves is loaded as exactly the windows that were cut. */
  lemma SegmentedWindowsAreLoaded(takes: seq<Segmenter.Take>, rule: Segmenter.Rule, windows: map<string, seq<Span>>,
                                  items: seq<Item>, l: Loaded)
    requires Segmenter.Accepting(rule)
    ensures Segmenter.SessionFile(takes, rule, windows, items) && windows != map[] && LoadedFrom(items, l) ==>
              l.windows == windows && WellLoaded(l)
  {
    hide Segmenter.Holds, Segmenter.Accepting, Segmenter.Loadable, SortedListing, Acceptable;
    if Segmenter.SessionFile(takes, rule, windows, items) && windows != map[] && LoadedFrom(items, l) {
      Segmenter.SegmentedFileIsAccepted(takes, rule, windows, items);
      LoadedIsWellLoaded(items, l);
      forall e | e in windows ensures e in l.windows && l.windows[e] == windows[e] {
        var i :| 0 <= i < |items| && items[i].episode == e;
      }
    }
  }

  /** What the loader leaves of a file it accepts. */
  ghost predicate LoadedFrom(items: seq<Item>, l: Loaded) {
    (forall i :: 0 <= i < |items| ==> Consistent(items[i])) && HoldsFirst(items, |items|, l)
  }

  ghost function WholeTakePlan(name: string, listed: Option<Loaded>, t0: real, t1: real): Result<WindowPlan, Refusal>
    requires listed.Some? ==> WellLoaded(listed.value)
  {
    if t1 <= t0 then Err(SpansApart)
    else if listed.None? then Ok(WindowPlan([Span(t0, t1)], []))
    else if name !in listed.value.windows || listed.value.windows[name] == [] then Err(NotListed)
    else
      var wanted := listed.value.windows[name];
      var planned := ClipAll(wanted, listed.value.tasks[name], t0, t1, |wanted|);
      if planned == [] then Err(NothingRecorded) else Ok(WindowPlan(PlannedSpans(planned), PlannedTasks(planned)))
  }

  ghost function PlannedTasks(planned: seq<Planned>): seq<Option<string>> {
    Map((p: Planned) => p.task, planned)
  }

  /** The pose windows that pass the close-index gate. */
  ghost function GatedPlan(recipe: Recipe, grasps: seq<Grasp>, t0: real, t1: real,
                           eeZ: Grasp -> Option<Track>): seq<Window> {
    var ws := PosePlan(grasps, t0, t1, recipe.preS, recipe.postS, eeZ, recipe.planeM, recipe.marginS);
    PoseNumbers(grasps, t0, t1, recipe.preS, recipe.postS, eeZ, recipe.planeM, recipe.marginS);
    Gated(ws, OrderedTimes(Ordered(grasps)), recipe.fps, CloseIdxGate(recipe.chunkFrames, recipe.frac), |ws|)
  }

  lemma PoseNumbers(grasps: seq<Grasp>, t0: real, t1: real, preS: real, postS: real,
                    eeZ: Grasp -> Option<Track>, planeM: real, marginS: real)
    ensures var ws := PosePlan(grasps, t0, t1, preS, postS, eeZ, planeM, marginS);
      forall i :: 0 <= i < |ws| ==> ws[i].k < |OrderedTimes(Ordered(grasps))|
  {
    var ordered := Ordered(grasps);
    PlanShape(OrderedTimes(ordered), PoseStarts(ordered, t0, preS, eeZ, planeM, marginS), t1, postS, |ordered|);
    var ws := PosePlan(grasps, t0, t1, preS, postS, eeZ, planeM, marginS);
    assert forall i :: 0 <= i < |ws| ==> ws[i] in ws;
  }

  /** Windows that pass the gate are as many as the fixed windows only when they are of the
      same grasps, so that the report may take the k-th close for the k-th fixed window. */
  lemma ReportPairsCloses(recipe: Recipe, grasps: seq<Grasp>, t0: real, t1: real, eeZ: Grasp -> Option<Track>)
    requires Timed(grasps)
    ensures var fixed, gated := FixedPlan(SortedTimes(grasps), t0, t1, recipe.preS, recipe.postS),
                                GatedPlan(recipe, grasps, t0, t1, eeZ);
      && |gated| <= |fixed|
      && (|gated| == |fixed| ==>
            forall i :: 0 <= i < |fixed| ==>
              fixed[i].k == gated[i].k && fixed[i].span.hi == gated[i].span.hi)
  {
    hide FixedPlan, PosePlan, SortedTimes, Ordered, OrderedTimes;
    SameCountSameGrasps(grasps, t0, t1, recipe.preS, recipe.postS, eeZ, recipe.planeM, recipe.marginS);
    PoseNumbers(grasps, t0, t1, recipe.preS, recipe.postS, eeZ, recipe.planeM, recipe.marginS);
    var ws := PosePlan(grasps, t0, t1, recipe.preS, recipe.postS, eeZ, recipe.planeM, recipe.marginS);
    GatedCount(ws, OrderedTimes(Ordered(grasps)), recipe.fps, CloseIdxGate(recipe.chunkFrames, recipe.frac), |ws|);
    assert ws[..|ws|] == ws;
  }

  /** The plan of a take, or why there is none. */
  ghost function PlanOf<J>(recipe: Recipe, take: Take<J>, eeZ: Grasp -> Option<Track>): Result<WindowPlan, Refusal>
    requires take.arms.Some? ==> Sampled(take.arms.value)
    requires take.listed.Some? ==> WellLoaded(take.listed.value)
  {
    var pool := Pool(take.perArm, !recipe.mode.WholeTake?);
    if pool.None? then Err(NoUsableGrasps)
    else
      var kept := AfterKeep(pool.value, take.keep);
      if kept.Err? then Err(kept.error)
      else if take.flagged then Err(BadTake)
      else if take.arms.None? then Err(Unreadable)
      else if !take.camerasPresent then Err(CameraMissing)
      else
        var t0, t1 := SpanStart(take.arms.value), SpanEnd(take.arms.value);
        match recipe.mode
        case WholeTake => WholeTakePlan(take.name, take.listed, t0, t1)
        case PerGraspPose =>
          var ws := GatedPlan(recipe, kept.value, t0, t1, eeZ);
          if ws == [] then Err(NoneCloseInTime) else Ok(WindowPlan(Spans(ws), []))
        case PerGrasp =>
          var ws := FixedPlan(SortedTimes(kept.value), t0, t1, recipe.preS, recipe.postS);
          if ws == [] then Err(NoWindow) else Ok(WindowPlan(Spans(ws), []))
  }

  // ---- the planner itself -----------------------------------------------------------

  method PoolGrasps(perArm: seq<Option<seq<Grasp>>>, needed: bool) returns (pool: Option<seq<Grasp>>)
    ensures pool == Pool(perArm, needed)
  {
    var grasps := [];
    for i := 0 to |perArm|
      invariant Pool(perArm[..i], needed) == Some(grasps)
    {
      assert perArm[..i + 1][..i] == perArm[..i];
      match perArm[i] {
        case None =>
          if needed {
            PoolStops(perArm, i + 1, needed);
            return None;
          }
        case Some(more) => grasps := grasps + more;
      }
    }
    assert perArm[..|perArm|] == perArm;
    pool := Some(grasps);
  }

  lemma {:induction false} PoolStops(perArm: seq<Option<seq<Grasp>>>, n: nat, needed: bool)
    requires n <= |perArm| && Pool(perArm[..n], needed).None?
    ensures Pool(perArm, needed).None?
    decreases |perArm| - n
  {
    if n < |perArm| {
      assert perArm[..n + 1][..n] == perArm[..n];
      PoolStops(perArm, n + 1, needed);
    } else {
      assert perArm[..n] == perArm;
    }
  }

  method ApplyKeep(grasps: seq<Grasp>, keep: Option<seq<real>>) returns (r: Result<seq<Grasp>, Refusal>)
    ensures r == AfterKeep(grasps, keep)
  {
    if keep.None? {
      return Ok(grasps);
    }
    var kept, missing := KeepList.FilterByKeepList(grasps, keep.value);
    r := if missing != [] then Err(KeepMismatch) else if kept == [] then Err(KeptNothing) else Ok(kept);
  }

  method PlanWholeTake(name: string, listed: Option<Loaded>, t0: real, t1: real)
      returns (r: Result<WindowPlan, Refusal>)
    requires listed.Some? ==> WellLoaded(listed.value)
    ensures r == WholeTakePlan(name, listed, t0, t1)
  {
    if t1 <= t0 {
      return Err(SpansApart);
    }
    if listed.None? {
      return Ok(WindowPlan([Span(t0, t1)], []));
    }
    if name !in listed.value.windows || listed.value.windows[name] == [] {
      return Err(NotListed);
    }
    var windows, meta := ClipWindows(listed.value.windows[name], listed.value.tasks[name], t0, t1);
    ghost var planned := ClipAll(listed.value.windows[name], listed.value.tasks[name], t0, t1,
                                 |listed.value.windows[name]|);
    assert windows == PlannedSpans(planned) && meta == PlannedTasks(planned);
    r := if windows == [] then Err(NothingRecorded) else Ok(WindowPlan(windows, meta));
  }

  method PlanGated(recipe: Recipe, grasps: seq<Grasp>, t0: real, t1: real, eeZ: Grasp -> Option<Track>)
      returns (kept: seq<Window>)
    requires Timed(grasps)
    ensures kept == GatedPlan(recipe, grasps, t0, t1, eeZ)
  {
    hide PosePlan, CloseFrameIndex, CloseIdxGate;
    var ts := OrderedTimes(Ordered(grasps));
    var gate := CloseIdxGate(recipe.chunkFrames, recipe.frac);
    var ws := GraspWindowsPoseIndexed(grasps, t0, t1, recipe.preS, recipe.postS, eeZ, recipe.planeM, recipe.marginS);
    PoseNumbers(grasps, t0, t1, recipe.preS, recipe.postS, eeZ, recipe.planeM, recipe.marginS);
    kept := [];
    for i := 0 to |ws|
      invariant kept == Gated(ws, ts, recipe.fps, gate, i)
    {
      if CloseFrameIndex(ts[ws[i].k], ws[i].span.lo, recipe.fps) <= gate {
        kept := kept + [ws[i]];
      }
    }
  }

  method PlanEpisode<J>(recipe: Recipe, take: Take<J>, eeZ: Grasp -> Option<Track>)
      returns (r: Result<WindowPlan, Refusal>)
    requires take.arms.Some? ==> Sampled(take.arms.value)
    requires take.listed.Some? ==> WellLoaded(take.listed.value)
    requires recipe.mode.PerGraspPose? ==> forall g :: Some(g) in take.perArm ==> Timed(g)
    ensures r == PlanOf(recipe, take, eeZ)
  {
    hide WholeTakePlan, GatedPlan, FixedPlan, AfterKeep, WellLoaded, SortedTimes, Pool;
    var pool := PoolGrasps(take.perArm, !recipe.mode.WholeTake?);
    if pool.None? {
      return Err(NoUsableGrasps);
    }
    var kept := ApplyKeep(pool.value, take.keep);
    if kept.Err? {
      return Err(kept.error);
    }
    if take.flagged {
      return Err(BadTake);
    }
    if take.arms.None? {
      return Err(Unreadable);
    }
    if !take.camerasPresent {
      return Err(CameraMissing);
    }
    var t0, t1 := SpanStart(take.arms.value), SpanEnd(take.arms.value);
    match recipe.mode {
      case WholeTake => r := PlanWholeTake(take.name, take.listed, t0, t1);
      case PerGraspPose =>
        PoolTimed(take.perArm, true);
        KeepTimed(pool.value, take.keep);
        var ws := PlanGated(recipe, kept.value, t0, t1, eeZ);
        r := if ws == [] then Err(NoneCloseInTime) else Ok(WindowPlan(Spans(ws), []));
      case PerGrasp =>
        var ws := GraspWindowsIndexed(kept.value, t0, t1, recipe.preS, recipe.postS);
        r := if ws == [] then Err(NoWindow) else Ok(WindowPlan(Spans(ws), []));
    }
  }

  lemma {:induction false} PoolTimed(perArm: seq<Option<seq<Grasp>>>, needed: bool)
    requires forall g :: Some(g) in perArm ==> Timed(g)
    ensures Pool(perArm, needed).Some? ==> Timed(Pool(perArm, needed).value)
  {
    if perArm != [] {
      PoolTimed(perArm[..|perArm| - 1], needed);
      var last := perArm[|perArm| - 1];
      if last.Some? { assert Some(last.value) in perArm; }
    }
  }

  lemma KeepTimed(grasps: seq<Grasp>, keep: Option<seq<real>>)
    requires Timed(grasps)
    ensures AfterKeep(grasps, keep).Ok? ==> Timed(AfterKeep(grasps, keep).value)
  {
    if keep.Some? {
      KeptAmong(grasps, KeepList.Match(grasps, keep.value, |grasps|), |grasps|);
    }
  }

  /** A grasp of the list closes within a thousandth of a second of the time. */
  ghost predicate ClosesNear(grasps: seq<Grasp>, t: real) {
    exists g :: g in grasps && CloseAt(g, t)
  }

  ghost predicate CloseAt(g: Grasp, t: real) {
    g.t.Some? && g.t.value - 0.001 <= t <= g.t.value + 0.001
  }

  /** Each of the grasps is one of the pool that the list wants. */
  ghost predicate AllWanted(kept: seq<Grasp>, pool: seq<Grasp>, wanted: seq<real>) {
    forall g :: g in kept ==> g in pool && exists i :: 0 <= i < |wanted| && CloseAt(g, wanted[i])
  }

  /** What goes on after a keep-list are grasps of the pool close to a wanted time, as many as
      there are wanted times, and one for each of these; without a list it is the pool. */
  lemma KeptAreWanted(grasps: seq<Grasp>, keep: Option<seq<real>>)
    requires AfterKeep(grasps, keep).Ok?
    ensures keep.None? ==> AfterKeep(grasps, keep).value == grasps
    ensures keep.Some? ==>
              var kept := AfterKeep(grasps, keep).value;
              && |kept| == |keep.value|
              && AllWanted(kept, grasps, keep.value)
              && forall i :: 0 <= i < |keep.value| ==> ClosesNear(kept, keep.value[i])
  {
    if keep.Some? {
      KeptAreClose(grasps, keep.value);
      WantedAreKept(grasps, keep.value);
    }
  }

  lemma KeptAreClose(grasps: seq<Grasp>, wanted: seq<real>)
    requires AfterKeep(grasps, Some(wanted)).Ok?
    ensures forall g :: g in AfterKeep(grasps, Some(wanted)).value ==>
              g in grasps && exists i :: 0 <= i < |wanted| && CloseAt(g, wanted[i])
  {
    hide KeepList.Match, KeepList.Kept, KeepList.Missing, KeepList.KeptAt;
    var m, kept := KeepList.Match(grasps, wanted, |grasps|), AfterKeep(grasps, Some(wanted)).value;
    KeepList.MatchSound(grasps, wanted, |grasps|);
    KeepList.KeptInOrder(grasps, m, |grasps|);
    forall g | g in kept ensures g in grasps && exists i :: 0 <= i < |wanted| && CloseAt(g, wanted[i]) {
      var j :| 0 <= j < |kept| && kept[j] == g;
      assert CloseAt(g, wanted[m[KeepList.KeptAt(m, |grasps|)[j]]]);
    }
  }

  lemma WantedAreKept(grasps: seq<Grasp>, wanted: seq<real>)
    requires AfterKeep(grasps, Some(wanted)).Ok?
    ensures |AfterKeep(grasps, Some(wanted)).value| == |wanted|
    ensures forall i :: 0 <= i < |wanted| ==> ClosesNear(AfterKeep(grasps, Some(wanted)).value, wanted[i])
  {
    hide KeepList.Match, KeepList.Kept, KeepList.Missing, KeepList.KeptAt;
    var m, kept := KeepList.Match(grasps, wanted, |grasps|), AfterKeep(grasps, Some(wanted)).value;
    KeepListIsHonoured(grasps, wanted);
    KeepList.MatchSound(grasps, wanted, |grasps|);
    forall i | 0 <= i < |wanted| ensures ClosesNear(kept, wanted[i]) {
      assert i in KeepList.Used(m);
      var k :| 0 <= k < |m| && m[k] == i;
      MatchedIsKept(grasps, m, |grasps|, k);
      assert CloseAt(grasps[k], wanted[i]);
    }
  }

  /** When grasps and wanted times lie more than twice the tolerance apart, a list is
      honoured exactly when it names something and each of its times has a close grasp. */
  lemma KeepListHonouredExactlyWhen(grasps: seq<Grasp>, wanted: seq<real>)
    requires KeepList.Separated(grasps, wanted)
    ensures AfterKeep(grasps, Some(wanted)).Ok?
            <==> wanted != [] && forall i :: 0 <= i < |wanted| ==> ClosesNear(grasps, wanted[i])
  {
    hide AfterKeep, KeepList.Separated;
    KeepListIsHonoured(grasps, wanted);
    forall i | 0 <= i < |wanted|
      ensures i in KeepList.Used(KeepList.Match(grasps, wanted, |grasps|)) <==> ClosesNear(grasps, wanted[i])
    {
      if grasps != [] {
        KeepList.UniqueMatching(grasps, wanted, 0, i);
      }
      CloseMeans(grasps, wanted[i]);
    }
  }

  lemma CloseMeans(grasps: seq<Grasp>, t: real)
    ensures ClosesNear(grasps, t) <==> exists g :: g in grasps && KeepList.Close(g, t)
  {
    assert forall g :: CloseAt(g, t) <==> KeepList.Close(g, t);
  }

  lemma {:induction false} MatchedIsKept(grasps: seq<Grasp>, matched: seq<int>, n: nat, k: nat)
    requires k < n <= |grasps| && n <= |matched| && matched[k] >= 0
    ensures grasps[k] in KeepList.Kept(grasps, matched, n)
  {
    if k < n - 1 { MatchedIsKept(grasps, matched, n - 1, k); }
  }

  lemma {:induction false} KeptAmong(grasps: seq<Grasp>, matched: seq<int>, n: nat)
    requires n <= |grasps| && n <= |matched|
    ensures forall g :: g in KeepList.Kept(grasps, matched, n) ==> g in grasps
  {
    if n > 0 { KeptAmong(grasps, matched, n - 1); }
  }

  // ---- what every plan satisfies ----------------------------------------------------

  ghost predicate Within(spans: seq<Span>, t0: real, t1: real) {
    forall i :: 0 <= i < |spans| ==> t0 <= spans[i].lo && spans[i].hi <= t1
  }

  lemma PlanWithin(ts: seq<real>, starts: seq<Start>, t0: real, t1: real, postS: real)
    requires |starts| == |ts| && forall k :: 0 <= k < |ts| ==> starts[k].t >= t0
    ensures Within(Spans(Plan(ts, starts, t1, postS, |ts|)), t0, t1)
  {
    var ws := Plan(ts, starts, t1, postS, |ts|);
    PlanShape(ts, starts, t1, postS, |ts|);
    forall i | 0 <= i < |ws| ensures t0 <= ws[i].span.lo && ws[i].span.hi <= t1 {
      assert ws[i] in ws;
    }
  }

  lemma FixedFit(ts: seq<real>, t0: real, t1: real, preS: real, postS: real)
    requires Ascending(ts)
    ensures Disjoint(Spans(FixedPlan(ts, t0, t1, preS, postS)))
    ensures Within(Spans(FixedPlan(ts, t0, t1, preS, postS)), t0, t1)
  {
    PlanDisjoint(ts, FixedStarts(ts, t0, preS), t1, postS);
    PlanWithin(ts, FixedStarts(ts, t0, preS), t0, t1, postS);
  }

  lemma PoseFit(grasps: seq<Grasp>, t0: real, t1: real, preS: real, postS: real,
                eeZ: Grasp -> Option<Track>, planeM: real, marginS: real)
    requires Timed(grasps)
    ensures var spans := Spans(PosePlan(grasps, t0, t1, preS, postS, eeZ, planeM, marginS));
      Disjoint(spans) && Within(spans, t0, t1)
  {
    hide Plan, Within, Disjoint;
    var ordered := Ordered(grasps);
    var ts, starts := OrderedTimes(ordered), PoseStarts(ordered, t0, preS, eeZ, planeM, marginS);
    SameTimes(grasps);
    PlanDisjoint(ts, starts, t1, postS);
    forall k | 0 <= k < |ts| ensures starts[k].t >= t0 {
      PoseStartBounds(ordered[k], ByClose(ordered[k]).0, t0, preS, eeZ, planeM, marginS);
    }
    PlanWithin(ts, starts, t0, t1, postS);
  }

  lemma GatedWithin(ws: seq<Window>, ts: seq<real>, fps: int, gate: int, n: nat, t0: real, t1: real)
    requires n <= |ws| && forall i :: 0 <= i < |ws| ==> ws[i].k < |ts|
    requires Within(Spans(ws), t0, t1)
    ensures Within(Spans(Gated(ws, ts, fps, gate, n)), t0, t1)
  {
    if n > 0 {
      GatedWithin(ws, ts, fps, gate, n - 1, t0, t1);
      assert t0 <= Spans(ws)[n - 1].lo && Spans(ws)[n - 1].hi <= t1;
    }
  }

  /** The gated pose windows are disjoint and recorded, each closes within the gate, and a
      planned window is left out only for closing later. */
  lemma GatedFit(recipe: Recipe, grasps: seq<Grasp>, t0: real, t1: real, eeZ: Grasp -> Option<Track>)
    requires Timed(grasps)
    ensures var spans := Spans(GatedPlan(recipe, grasps, t0, t1, eeZ));
      Disjoint(spans) && Within(spans, t0, t1)
    ensures var gate, ts := CloseIdxGate(recipe.chunkFrames, recipe.frac), SortedTimes(grasps);
      forall w :: w in PosePlan(grasps, t0, t1, recipe.preS, recipe.postS, eeZ, recipe.planeM, recipe.marginS) ==>
        && w.k < |ts|
        && (w in GatedPlan(recipe, grasps, t0, t1, eeZ) <==> CloseFrameIndex(ts[w.k], w.span.lo, recipe.fps) <= gate)
  {
    hide CloseFrameIndex, CloseIdxGate, PosePlan, Within, Disjoint, Gated, Ordered, SortedTimes;
    var ts, gate := OrderedTimes(Ordered(grasps)), CloseIdxGate(recipe.chunkFrames, recipe.frac);
    var ws := PosePlan(grasps, t0, t1, recipe.preS, recipe.postS, eeZ, recipe.planeM, recipe.marginS);
    SameTimes(grasps);
    PoseFit(grasps, t0, t1, recipe.preS, recipe.postS, eeZ, recipe.planeM, recipe.marginS);
    PoseNumbers(grasps, t0, t1, recipe.preS, recipe.postS, eeZ, recipe.planeM, recipe.marginS);
    GatedDisjoint(ws, ts, recipe.fps, gate, |ws|);
    GatedWithin(ws, ts, recipe.fps, gate, |ws|, t0, t1);
    forall w | w in ws
      ensures w.k < |ts|
      ensures w in GatedPlan(recipe, grasps, t0, t1, eeZ) <==>
                CloseFrameIndex(ts[w.k], w.span.lo, recipe.fps) <= gate
    {
      var k :| 0 <= k < |ws| && ws[k] == w;
    }
  }

  lemma WholeTakeFit(name: string, listed: Option<Loaded>, t0: real, t1: real)
    requires listed.Some? ==> WellLoaded(listed.value)
    ensures var r := WholeTakePlan(name, listed, t0, t1);
      r.Ok? ==> r.value.spans != [] && Disjoint(r.value.spans) && Within(r.value.spans, t0, t1)
  {
    if listed.Some? && name in listed.value.windows {
      var wanted, tasks := listed.value.windows[name], listed.value.tasks[name];
      ClipKeepsOrder(wanted, tasks, t0, t1, |wanted|);
      var planned := ClipAll(wanted, tasks, t0, t1, |wanted|);
      assert forall i :: 0 <= i < |planned| ==> planned[i] in planned;
    }
  }

  /** Whatever the mode, the grasps, the keep-list and the windows file: a plan has at least
      one window, its windows are in order and share no time, and all of them lie in the
      span every stream of every arm recorded. */
  lemma PlansAreFit<J>(recipe: Recipe, take: Take<J>, eeZ: Grasp -> Option<Track>)
    requires take.arms.Some? ==> Sampled(take.arms.value)
    requires take.listed.Some? ==> WellLoaded(take.listed.value)
    requires recipe.mode.PerGraspPose? ==> forall g :: Some(g) in take.perArm ==> Timed(g)
    ensures var r := PlanOf(recipe, take, eeZ);
      r.Ok? ==>
        && take.arms.Some? && !take.flagged && r.value.spans != [] && Disjoint(r.value.spans)
        && Within(r.value.spans, SpanStart(take.arms.value), SpanEnd(take.arms.value))
  {
    hide Pool, AfterKeep, FixedPlan, GatedPlan, WholeTakePlan, Within, Disjoint, Timed, SortedTimes, WellLoaded;
    var pool := Pool(take.perArm, !recipe.mode.WholeTake?);
    if take.arms.Some? && pool.Some? && AfterKeep(pool.value, take.keep).Ok? {
      var grasps := AfterKeep(pool.value, take.keep).value;
      var t0, t1 := SpanStart(take.arms.value), SpanEnd(take.arms.value);
      match recipe.mode
      case WholeTake => WholeTakeFit(take.name, take.listed, t0, t1);
      case PerGraspPose =>
        PoolTimed(take.perArm, true);
        KeepTimed(pool.value, take.keep);
        GatedFit(recipe, grasps, t0, t1, eeZ);
      case PerGrasp =>
        SortedTimesAscend(grasps);
        FixedFit(SortedTimes(grasps), t0, t1, recipe.preS, recipe.postS);
    }
  }

  // ---- which windows a plan has -----------------------------------------------------

  /** Nothing stands in the way of planning the take, and these grasps are planned. */
  ghost predicate Cleared<J>(take: Take<J>, needed: bool, kept: seq<Grasp>) {
    && Pool(take.perArm, needed).Some? && AfterKeep(Pool(take.perArm, needed).value, take.keep) == Ok(kept)
    && !take.flagged && take.arms.Some? && take.camerasPresent
  }

  /** A plan is only made of a take that is cleared. */
  lemma PlansNeedClearance<J>(recipe: Recipe, take: Take<J>, eeZ: Grasp -> Option<Track>)
    requires take.arms.Some? ==> Sampled(take.arms.value)
    requires take.listed.Some? ==> WellLoaded(take.listed.value)
    requires PlanOf(recipe, take, eeZ).Ok?
    ensures var needed := !recipe.mode.WholeTake?; exists kept :: Cleared(take, needed, kept)
  {
    hide Pool, AfterKeep, FixedPlan, GatedPlan, WholeTakePlan, WellLoaded;
    var needed := !recipe.mode.WholeTake?;
    assert Cleared(take, needed, AfterKeep(Pool(take.perArm, needed).value, take.keep).value);
  }

  ghost predicate Plans(r: Result<WindowPlan, Refusal>, s: Span) {
    r.Ok? && s in r.value.spans
  }

  /** The span is the fixed window of one of the closes. */
  ghost predicate WindowOfSome(grasps: seq<Grasp>, t0: real, t1: real, preS: real, postS: real, s: Span) {
    exists k :: 0 <= k < |SortedTimes(grasps)| && FixedWindow(SortedTimes(grasps), k, t0, t1, preS, postS, s)
  }

  /** With a fixed lead the plan has exactly the windows of the kept grasps: for each close
      the recorded instants from `preS` before to `postS` after it that are not past halfway
      to another kept close, if they have length. There is a plan if there is a window. */
  lemma GraspPlanReaches<J>(recipe: Recipe, take: Take<J>, eeZ: Grasp -> Option<Track>, kept: seq<Grasp>)
    requires recipe.mode.PerGrasp? && Cleared(take, true, kept) && Sampled(take.arms.value)
    requires take.listed.Some? ==> WellLoaded(take.listed.value)
    ensures var r, t0, t1 := PlanOf(recipe, take, eeZ), SpanStart(take.arms.value), SpanEnd(take.arms.value);
      && (r.Ok? ==> r.value.spans != [] && r.value.tasks == [])
      && forall s :: Plans(r, s) <==> WindowOfSome(kept, t0, t1, recipe.preS, recipe.postS, s)
  {
    hide Pool, AfterKeep, GatedPlan, FixedPlan, WholeTakePlan, WellLoaded;
    var r, t0, t1 := PlanOf(recipe, take, eeZ), SpanStart(take.arms.value), SpanEnd(take.arms.value);
    var ws := FixedPlan(SortedTimes(kept), t0, t1, recipe.preS, recipe.postS);
    assert r == if ws == [] then Err(NoWindow) else Ok(WindowPlan(Spans(ws), []));
    forall s ensures Plans(r, s) <==> WindowOfSome(kept, t0, t1, recipe.preS, recipe.postS, s) {
      FixedSpansReach(kept, t0, t1, recipe.preS, recipe.postS, s);
    }
  }

  lemma FixedSpansReach(kept: seq<Grasp>, t0: real, t1: real, preS: real, postS: real, s: Span)
    ensures s in Spans(FixedPlan(SortedTimes(kept), t0, t1, preS, postS))
            <==> WindowOfSome(kept, t0, t1, preS, postS, s)
  {
    hide FixedPlan;
    var ts, ws := SortedTimes(kept), FixedPlan(SortedTimes(kept), t0, t1, preS, postS);
    SpansAreTheWindows(ws, s);
    if s in Spans(ws) {
      var w :| w in ws && w.span == s;
      FixedWindowsReach(kept, t0, t1, preS, postS, w);
    }
    if WindowOfSome(kept, t0, t1, preS, postS, s) {
      var k :| 0 <= k < |ts| && FixedWindow(ts, k, t0, t1, preS, postS, s);
      FixedWindowsReach(kept, t0, t1, preS, postS, Window(k, s, FixedLead));
    }
  }

  lemma SpansAreTheWindows(ws: seq<Window>, s: Span)
    ensures s in Spans(ws) <==> exists w :: w in ws && w.span == s
  {
    if s in Spans(ws) {
      var i :| 0 <= i < |ws| && Spans(ws)[i] == s;
      assert ws[i] in ws;
    }
    if w :| w in ws && w.span == s {
      var i :| 0 <= i < |ws| && ws[i] == w;
      assert Spans(ws)[i] == s;
    }
  }

  /** The span holds exactly the instants around the close of kept grasp `k` from where its
      approach starts, and the close comes no later in it than the gate allows. */
  ghost predicate PoseWindow(recipe: Recipe, kept: seq<Grasp>, k: nat, t0: real, t1: real,
                             eeZ: Grasp -> Option<Track>, s: Span)
    requires k < |SortedTimes(kept)| == |Ordered(kept)|
  {
    && (exists start :: StartsAt(Ordered(kept)[k], t0, recipe.preS, eeZ, recipe.planeM, recipe.marginS, start)
          && WindowAround(SortedTimes(kept), k, start.t, t1, recipe.postS, s))
    && PassesGate(CloseFrameIndex(SortedTimes(kept)[k], s.lo, recipe.fps), recipe.chunkFrames, recipe.frac)
  }

  ghost predicate PoseWindowOfSome(recipe: Recipe, kept: seq<Grasp>, t0: real, t1: real,
                                   eeZ: Grasp -> Option<Track>, s: Span)
    requires |SortedTimes(kept)| == |Ordered(kept)| == |kept|
  {
    exists k :: 0 <= k < |kept| && PoseWindow(recipe, kept, k, t0, t1, eeZ, s)
  }

  /** In pose mode the plan has exactly the windows of the kept grasps that close in time. */
  lemma PosePlanReaches<J>(recipe: Recipe, take: Take<J>, eeZ: Grasp -> Option<Track>, kept: seq<Grasp>)
    requires recipe.mode.PerGraspPose? && Cleared(take, true, kept) && Sampled(take.arms.value) && Timed(kept)
    requires take.listed.Some? ==> WellLoaded(take.listed.value)
    ensures |SortedTimes(kept)| == |Ordered(kept)| == |kept|
    ensures var r, t0, t1 := PlanOf(recipe, take, eeZ), SpanStart(take.arms.value), SpanEnd(take.arms.value);
      && (r.Ok? ==> r.value.spans != [] && r.value.tasks == [])
      && forall s :: Plans(r, s) <==> PoseWindowOfSome(recipe, kept, t0, t1, eeZ, s)
  {
    hide Pool, AfterKeep, FixedPlan, GatedPlan, WholeTakePlan, WellLoaded;
    var r, t0, t1 := PlanOf(recipe, take, eeZ), SpanStart(take.arms.value), SpanEnd(take.arms.value);
    var ws := GatedPlan(recipe, kept, t0, t1, eeZ);
    assert r == if ws == [] then Err(NoneCloseInTime) else Ok(WindowPlan(Spans(ws), []));
    TimesAndGrasps(kept);
    forall s ensures Plans(r, s) <==> PoseWindowOfSome(recipe, kept, t0, t1, eeZ, s) {
      GatedSpansReach(recipe, kept, t0, t1, eeZ, s);
    }
  }

  lemma TimesAndGrasps(kept: seq<Grasp>)
    requires Timed(kept)
    ensures |SortedTimes(kept)| == |Ordered(kept)| == |kept|
  {
    SameTimes(kept);
    SortSorts(kept, ByClose);
    assert |Ordered(kept)| == |multiset(Ordered(kept))| == |multiset(kept)|;
  }

  lemma GatedSpansReach(recipe: Recipe, kept: seq<Grasp>, t0: real, t1: real, eeZ: Grasp -> Option<Track>, s: Span)
    requires Timed(kept) && |SortedTimes(kept)| == |Ordered(kept)| == |kept|
    ensures s in Spans(GatedPlan(recipe, kept, t0, t1, eeZ)) <==> PoseWindowOfSome(recipe, kept, t0, t1, eeZ, s)
  {
    hide GatedPlan, SortedTimes, Ordered, PoseWindow;
    var ws := GatedPlan(recipe, kept, t0, t1, eeZ);
    SpansAreTheWindows(ws, s);
    if s in Spans(ws) {
      var w :| w in ws && w.span == s;
      GatedWindowIs(recipe, kept, t0, t1, eeZ, w);
    }
    if PoseWindowOfSome(recipe, kept, t0, t1, eeZ, s) {
      var k :| 0 <= k < |kept| && PoseWindow(recipe, kept, k, t0, t1, eeZ, s);
      var w := PoseWindowIsGated(recipe, kept, k, t0, t1, eeZ, s);
    }
  }

  lemma GatedWindowIs(recipe: Recipe, kept: seq<Grasp>, t0: real, t1: real, eeZ: Grasp -> Option<Track>, w: Window)
    requires Timed(kept) && w in GatedPlan(recipe, kept, t0, t1, eeZ)
    ensures w.k < |kept| == |SortedTimes(kept)| == |Ordered(kept)|
    ensures PoseWindow(recipe, kept, w.k, t0, t1, eeZ, w.span)
  {
    hide PosePlan, Gated;
    var ws := PosePlan(kept, t0, t1, recipe.preS, recipe.postS, eeZ, recipe.planeM, recipe.marginS);
    GatedComesFromPlan(recipe, kept, t0, t1, eeZ, w);
    GatedFit(recipe, kept, t0, t1, eeZ);
    PoseWindowsReach(kept, t0, t1, recipe.preS, recipe.postS, eeZ, recipe.planeM, recipe.marginS, w);
    assert w in ws;
  }

  lemma GatedComesFromPlan(recipe: Recipe, kept: seq<Grasp>, t0: real, t1: real, eeZ: Grasp -> Option<Track>, w: Window)
    requires w in GatedPlan(recipe, kept, t0, t1, eeZ)
    ensures w in PosePlan(kept, t0, t1, recipe.preS, recipe.postS, eeZ, recipe.planeM, recipe.marginS)
  {
    hide PosePlan, CloseFrameIndex, CloseIdxGate, Ordered;
    var ws := PosePlan(kept, t0, t1, recipe.preS, recipe.postS, eeZ, recipe.planeM, recipe.marginS);
    PoseNumbers(kept, t0, t1, recipe.preS, recipe.postS, eeZ, recipe.planeM, recipe.marginS);
    GatedMembers(ws, OrderedTimes(Ordered(kept)), recipe.fps, CloseIdxGate(recipe.chunkFrames, recipe.frac), |ws|);
    var i :| 0 <= i < |GatedPlan(recipe, kept, t0, t1, eeZ)| && GatedPlan(recipe, kept, t0, t1, eeZ)[i] == w;
  }

  lemma PoseWindowIsGated(recipe: Recipe, kept: seq<Grasp>, k: nat, t0: real, t1: real, eeZ: Grasp -> Option<Track>,
                          s: Span)
      returns (w: Window)
    requires Timed(kept) && k < |kept| == |SortedTimes(kept)| == |Ordered(kept)|
    requires PoseWindow(recipe, kept, k, t0, t1, eeZ, s)
    ensures w in GatedPlan(recipe, kept, t0, t1, eeZ) && w.span == s
  {
    hide PosePlan, GatedPlan;
    var start :| StartsAt(Ordered(kept)[k], t0, recipe.preS, eeZ, recipe.planeM, recipe.marginS, start)
                 && WindowAround(SortedTimes(kept), k, start.t, t1, recipe.postS, s);
    w := Window(k, s, start.mode);
    PoseWindowsReach(kept, t0, t1, recipe.preS, recipe.postS, eeZ, recipe.planeM, recipe.marginS, w);
    GatedFit(recipe, kept, t0, t1, eeZ);
  }

  /** What the take recorded of the listed span, if that is at least nine tenths of it. */
  ghost predicate RecordedPart(listed: Span, t0: real, t1: real, s: Span) {
    && s == Span(if listed.lo >= t0 then listed.lo else t0, if listed.hi <= t1 then listed.hi else t1)
    && 10.0 * (s.hi - s.lo) >= 9.0 * (listed.hi - listed.lo)
  }

  /** A whole take is planned as one window, or as the recorded parts of the windows listed for
      it, each with the task it was listed with. */
  lemma WholeTakePlanReaches<J>(recipe: Recipe, take: Take<J>, eeZ: Grasp -> Option<Track>, kept: seq<Grasp>)
    requires recipe.mode.WholeTake? && Cleared(take, false, kept) && Sampled(take.arms.value)
    requires take.listed.Some? ==> WellLoaded(take.listed.value)
    ensures var r, t0, t1 := PlanOf(recipe, take, eeZ), SpanStart(take.arms.value), SpanEnd(take.arms.value);
      if take.listed.None? then r == if t0 < t1 then Ok(WindowPlan([Span(t0, t1)], [])) else Err(SpansApart)
      else
        var l := take.listed.value;
        && (r.Ok? ==> |r.value.spans| == |r.value.tasks| && r.value.spans != [])
        && forall s, task ::
             r.Ok? && Paired(r.value.spans, r.value.tasks, s, task)
             <==> t0 < t1 && take.name in l.windows
                  && RecordedAmong(l.windows[take.name], l.tasks[take.name], t0, t1, s, task)
  {
    hide Pool, AfterKeep, FixedPlan, GatedPlan, SpanStart, SpanEnd, ClipAll;
    if take.listed.Some? && take.name in take.listed.value.windows {
      var t0, t1, l := SpanStart(take.arms.value), SpanEnd(take.arms.value), take.listed.value;
      PlannedAreRecorded(l.windows[take.name], l.tasks[take.name], t0, t1);
    }
  }

  /** The span stands in the one list where the task stands in the other. */
  ghost predicate Paired(spans: seq<Span>, tasks: seq<Option<string>>, s: Span, task: Option<string>)
    requires |spans| == |tasks|
  {
    exists i :: 0 <= i < |spans| && spans[i] == s && tasks[i] == task
  }

  ghost predicate RecordedAmong(wanted: seq<Span>, tasks: seq<Option<string>>, t0: real, t1: real,
                                s: Span, task: Option<string>)
    requires |wanted| == |tasks|
  {
    exists k :: 0 <= k < |wanted| && RecordedPart(wanted[k], t0, t1, s) && task == tasks[k]
  }

  lemma PlannedAreRecorded(wanted: seq<Span>, tasks: seq<Option<string>>, t0: real, t1: real)
    requires |wanted| == |tasks| && Disjoint(wanted)
    ensures var planned := ClipAll(wanted, tasks, t0, t1, |wanted|);
      forall s, task ::
        Paired(PlannedSpans(planned), PlannedTasks(planned), s, task)
        <==> RecordedAmong(wanted, tasks, t0, t1, s, task)
  {
    hide ClipAll, Paired, RecordedAmong;
    ClipKeepsOrder(wanted, tasks, t0, t1, |wanted|);
    var planned := ClipAll(wanted, tasks, t0, t1, |wanted|);
    forall s, task
      ensures Paired(PlannedSpans(planned), PlannedTasks(planned), s, task)
              <==> RecordedAmong(wanted, tasks, t0, t1, s, task)
    {
      PairIsRecorded(planned, wanted, tasks, t0, t1, s, task);
    }
  }

  lemma RecordedPartIs(listed: Span, t0: real, t1: real, s: Span)
    ensures RecordedPart(listed, t0, t1, s) <==> MostlyRecorded(listed, t0, t1) && s == Clip(listed, t0, t1)
  {
  }

  lemma PairIsRecorded(planned: seq<Planned>, wanted: seq<Span>, tasks: seq<Option<string>>, t0: real, t1: real,
                       s: Span, task: Option<string>)
    requires |wanted| == |tasks|
    requires forall p :: p in planned <==>
               && p.number < |wanted| && MostlyRecorded(wanted[p.number], t0, t1)
               && p.span == Clip(wanted[p.number], t0, t1) && p.task == tasks[p.number]
    ensures Paired(PlannedSpans(planned), PlannedTasks(planned), s, task)
            <==> RecordedAmong(wanted, tasks, t0, t1, s, task)
  {
    hide MostlyRecorded, Clip, RecordedPart;
    if Paired(PlannedSpans(planned), PlannedTasks(planned), s, task) {
      var i :| 0 <= i < |planned| && PlannedSpans(planned)[i] == s && PlannedTasks(planned)[i] == task;
      assert planned[i] in planned;
      RecordedPartIs(wanted[planned[i].number], t0, t1, s);
    }
    if RecordedAmong(wanted, tasks, t0, t1, s, task) {
      var k :| 0 <= k < |wanted| && RecordedPart(wanted[k], t0, t1, s) && task == tasks[k];
      RecordedPartIs(wanted[k], t0, t1, s);
      assert Planned(s, task, k) in planned;
      var i :| 0 <= i < |planned| && planned[i] == Planned(s, task, k);
      assert PlannedSpans(planned)[i] == s && PlannedTasks(planned)[i] == task;
    }
  }

  /** The span lies around the close of a pool grasp that the list wants. */
  ghost predicate AroundWanted(pool: seq<Grasp>, wanted: seq<real>, preS: real, postS: real, s: Span) {
    exists g, i :: g in pool && 0 <= i < |wanted| && CloseAt(g, wanted[i])
                   && g.t.value - preS <= s.lo && s.hi <= g.t.value + postS
  }

  /** With a keep-list nothing is planned but around grasps it names, and no more windows than
      it names grasps. */
  lemma OnlyWantedIsPlanned<J>(recipe: Recipe, take: Take<J>, eeZ: Grasp -> Option<Track>)
    requires !recipe.mode.WholeTake? && take.keep.Some? && (take.arms.Some? ==> Sampled(take.arms.value))
    requires take.listed.Some? ==> WellLoaded(take.listed.value)
    requires recipe.mode.PerGraspPose? ==> forall g :: Some(g) in take.perArm ==> Timed(g)
    ensures var r, pool := PlanOf(recipe, take, eeZ), Pool(take.perArm, true);
      r.Ok? ==>
        && pool.Some? && |r.value.spans| <= |take.keep.value|
        && forall s :: s in r.value.spans ==>
             AroundWanted(pool.value, take.keep.value, recipe.preS, recipe.postS, s)
  {
    hide Pool, AfterKeep, FixedPlan, GatedPlan, WellLoaded, AroundWanted, SpanStart, SpanEnd, Timed;
    if PlanOf(recipe, take, eeZ).Ok? {
      PlansNeedClearance(recipe, take, eeZ);
      var kept :| Cleared(take, true, kept);
      var t0, t1, pool := SpanStart(take.arms.value), SpanEnd(take.arms.value), Pool(take.perArm, true).value;
      KeptAreWanted(pool, take.keep);
      if recipe.mode.PerGrasp? {
        FixedAroundKept(kept, pool, take.keep.value, t0, t1, recipe.preS, recipe.postS);
      } else {
        PoolTimed(take.perArm, true);
        KeepTimed(pool, take.keep);
        GatedAroundKept(recipe, kept, pool, take.keep.value, t0, t1, eeZ);
      }
    }
  }

  lemma FixedAroundKept(kept: seq<Grasp>, pool: seq<Grasp>, wanted: seq<real>, t0: real, t1: real,
                        preS: real, postS: real)
    requires AllWanted(kept, pool, wanted)
    ensures var ws := FixedPlan(SortedTimes(kept), t0, t1, preS, postS);
      |ws| <= |kept| && forall s :: s in Spans(ws) ==> AroundWanted(pool, wanted, preS, postS, s)
  {
    hide FixedPlan, CloseAt;
    var ts, ws := SortedTimes(kept), FixedPlan(SortedTimes(kept), t0, t1, preS, postS);
    FixedCount(kept, t0, t1, preS, postS);
    forall s | s in Spans(ws) ensures AroundWanted(pool, wanted, preS, postS, s) {
      SpansAreTheWindows(ws, s);
      var w :| w in ws && w.span == s;
      FixedWindowsReach(kept, t0, t1, preS, postS, w);
      FixedWindowBounds(ts, w.k, t0, t1, preS, postS, s);
      assert ts[w.k] in multiset(ts);
      assert multiset(ts)[ts[w.k]] == |ClosingAt(kept, ts[w.k])|;
      assert ClosingAt(kept, ts[w.k]) != {};
      var i :| i in ClosingAt(kept, ts[w.k]);
      assert kept[i] in kept;
    }
  }

  lemma GatedAroundKept(recipe: Recipe, kept: seq<Grasp>, pool: seq<Grasp>, wanted: seq<real>, t0: real, t1: real,
                        eeZ: Grasp -> Option<Track>)
    requires AllWanted(kept, pool, wanted) && Timed(kept)
    ensures var ws := GatedPlan(recipe, kept, t0, t1, eeZ);
      |ws| <= |kept| && forall s :: s in Spans(ws) ==> AroundWanted(pool, wanted, recipe.preS, recipe.postS, s)
  {
    hide GatedPlan, FixedPlan, PosePlan, SortedTimes, AroundWanted, AllWanted, Timed;
    var ws := GatedPlan(recipe, kept, t0, t1, eeZ);
    ReportPairsCloses(recipe, kept, t0, t1, eeZ);
    FixedAroundKept(kept, pool, wanted, t0, t1, recipe.preS, recipe.postS);
    forall s | s in Spans(ws) ensures AroundWanted(pool, wanted, recipe.preS, recipe.postS, s) {
      SpansAreTheWindows(ws, s);
      var w :| w in ws && w.span == s;
      GatedComesFromPlan(recipe, kept, t0, t1, eeZ, w);
      PoseInsideFixed(kept, t0, t1, recipe.preS, recipe.postS, eeZ, recipe.planeM, recipe.marginS, w);
      var f :| f in FixedPlan(SortedTimes(kept), t0, t1, recipe.preS, recipe.postS)
               && f.k == w.k && f.span.lo <= w.span.lo && f.span.hi == w.span.hi;
      SpansAreTheWindows(FixedPlan(SortedTimes(kept), t0, t1, recipe.preS, recipe.postS), f.span);
      NarrowerAroundWanted(pool, wanted, recipe.preS, recipe.postS, f.span, s);
    }
  }

  lemma NarrowerAroundWanted(pool: seq<Grasp>, wanted: seq<real>, preS: real, postS: real, s: Span, s': Span)
    requires AroundWanted(pool, wanted, preS, postS, s) && s.lo <= s'.lo && s'.hi <= s.hi
    ensures AroundWanted(pool, wanted, preS, postS, s')
  {
  }

  lemma FixedCount(kept: seq<Grasp>, t0: real, t1: real, preS: real, postS: real)
    ensures |FixedPlan(SortedTimes(kept), t0, t1, preS, postS)| <= |kept|
  {
    var ts := SortedTimes(kept);
    PlanCount(ts, FixedStarts(ts, t0, preS), t1, postS, |ts|);
    SortSorts(CloseTimes(kept), ByTime);
    assert |ts| == |multiset(ts)| == |multiset(CloseTimes(kept))| == |CloseTimes(kept)|;
    ClosesCount(kept);
  }

  lemma {:induction false} ClosesCount(grasps: seq<Grasp>)
    ensures |CloseTimes(grasps)| <= |grasps|
  {
    if grasps != [] { ClosesCount(grasps[..|grasps| - 1]); }
  }

  lemma {:induction false} PlanCount(ts: seq<real>, starts: seq<Start>, t1: real, postS: real, n: nat)
    requires |starts| == |ts| && n <= |ts|
    ensures |Plan(ts, starts, t1, postS, n)| <= n
  {
    if n > 0 { PlanCount(ts, starts, t1, postS, n - 1); }
  }

  // ---- end to end -------------------------------------------------------------------

  /** The instant lies between the first and the last stamp of every joint stream. */
  ghost predicate Bracketed<J>(arms: seq<Arm<J>>, x: real)
    requires Sampled(arms)
  {
    forall a :: 0 <= a < |arms| ==>
      && arms[a].tState[0] <= x <= LastOf(arms[a].tState)
      && arms[a].tAction[0] <= x <= LastOf(arms[a].tAction)
  }

  /** A take planned in any mode and exported with its own cameras: no reader ever seeks
      backward or is reopened, every row shows each camera's nearest decoded frame, no
      staler than the cap, and each arm's nearest samples, with the task of its window, at an
      instant that no joint stream has to be extrapolated for, and no instant is written
      twice; and of each planned window every instant that it reaches is written. */
  lemma PlannedExportIsRight<F, J>(recipe: Recipe, take: Take<J>, eeZ: Grasp -> Option<Track>,
                                   cams: seq<Camera<F>>, task: string, veto: nat -> bool)
    requires take.arms.Some? && Sampled(take.arms.value) && Usable(cams, take.arms.value) && recipe.fps > 0
    requires take.listed.Some? ==> WellLoaded(take.listed.value)
    requires recipe.mode.PerGraspPose? ==> forall g :: Some(g) in take.perArm ==> Timed(g)
    requires InOrder(cams, take.arms.value) && PlanOf(recipe, take, eeZ).Ok?
    ensures var plan := PlanOf(recipe, take, eeZ).value;
            var job := Job(plan.spans, plan.tasks, task, recipe.fps);
            var dump := EpisodeRun(cams, take.arms.value, job, veto, 0, seq(|cams|, _ => -1));
            var rows := AllRows(dump.episodes);
      && !dump.raised && dump.reopened == 0 && dump.frames == |rows|
      && (forall q, r :: 0 <= q < r < |rows| ==> rows[q].instant < rows[r].instant)
      && (forall e, r :: 0 <= e < |dump.episodes| && 0 <= r < |dump.episodes[e]| ==>
            GoodRow(cams, take.arms.value, job, dump.episodes[e][r]))
      && forall w :: 0 <= w < |plan.spans| ==>
           WrittenWhole(cams, plan.spans[w], recipe.fps, veto(w), dump.episodes)
  {
    hide WrittenWhole, PlanOf, EpisodeRun, IdealExport, RightSomewhere, AllRows, GoodRow, Disjoint, Within, WellLoaded,
         Timed, Ascending, Sampled;
    var plan := PlanOf(recipe, take, eeZ).value;
    var arms, job := take.arms.value, Job(plan.spans, plan.tasks, task, recipe.fps);
    PlansAreFit(recipe, take, eeZ);
    ReadersRefineLookup(cams, arms, job, veto);
    NoInstantExportedTwice(cams, arms, job, veto);
    EveryRowIsRight(cams, arms, job, veto);
    var dump := EpisodeRun(cams, arms, job, veto, 0, seq(|cams|, _ => -1));
    forall e, r | 0 <= e < |dump.episodes| && 0 <= r < |dump.episodes[e]|
      ensures GoodRow(cams, arms, job, dump.episodes[e][r])
    {
      RowIsGood(cams, arms, job, dump.episodes[e][r]);
    }
    CamerasInOrder(cams, arms);
    forall w | 0 <= w < |plan.spans| ensures WrittenWhole(cams, plan.spans[w], recipe.fps, veto(w), dump.episodes) {
      WindowIsWrittenWhole(cams, arms, job, veto, w);
    }
  }

  /** `value` is a sample whose stamp is nearest to `x`. */
  ghost predicate NearestSample<J>(t: seq<real>, samples: seq<J>, x: real, value: J)
    requires |t| == |samples|
  {
    exists i :: 0 <= i < |t| && value == samples[i]
                && forall k :: 0 <= k < |t| ==> AbsReal(t[i] - x) <= AbsReal(t[k] - x)
  }

  /** For every arm the row has the follower and the leader sample nearest to its instant. */
  ghost predicate RightJoints<F, J>(arms: seq<Arm<J>>, row: Row<F, J>)
    requires forall a :: 0 <= a < |arms| ==>
               |arms[a].tState| == |arms[a].state| && |arms[a].tAction| == |arms[a].action|
  {
    && |row.state| == |row.action| == |arms|
    && forall a :: 0 <= a < |arms| ==>
         && NearestSample(arms[a].tState, arms[a].state, row.instant, row.state[a])
         && NearestSample(arms[a].tAction, arms[a].action, row.instant, row.action[a])
  }

  ghost predicate InOrder<F, J>(cams: seq<Camera<F>>, arms: seq<Arm<J>>) {
    && (forall c :: 0 <= c < |cams| ==> Ascending(cams[c].stamps))
    && forall a :: 0 <= a < |arms| ==> Ascending(arms[a].tState) && Ascending(arms[a].tAction)
  }

  lemma PickedIsNearest<J>(t: seq<real>, samples: seq<J>, x: real)
    requires t != [] && |t| == |samples| && Ascending(t)
    ensures NearestSample(t, samples, x, Pick(samples, NearestIndex(t, x)))
  {
    NearestIsNearest(t, x);
    var n := NearestIndex(t, x);
    var i := if n < 0 then |t| + n else n;
    assert Pick(samples, n) == samples[i];
  }

  lemma JointsAreNearest<F, J>(arms: seq<Arm<J>>, row: Row<F, J>)
    requires forall a :: 0 <= a < |arms| ==>
               && arms[a].tState != [] && |arms[a].tState| == |arms[a].state| && Ascending(arms[a].tState)
               && arms[a].tAction != [] && |arms[a].tAction| == |arms[a].action| && Ascending(arms[a].tAction)
    requires row.state == StateAt(arms, row.instant) && row.action == ActionAt(arms, row.instant)
    ensures RightJoints(arms, row)
  {
    hide NearestSample, NearestIndex, Ascending, Pick;
    forall a | 0 <= a < |arms|
      ensures NearestSample(arms[a].tState, arms[a].state, row.instant, row.state[a])
      ensures NearestSample(arms[a].tAction, arms[a].action, row.instant, row.action[a])
    {
      PickedIsNearest(arms[a].tState, arms[a].state, row.instant);
      PickedIsNearest(arms[a].tAction, arms[a].action, row.instant);
    }
  }

  /** The task a window was listed with, if it has one, and otherwise the take's. */
  ghost predicate RightTask(job: Job, w: nat, task: string) {
    if w < |job.tasks| && job.tasks[w].Some? && job.tasks[w].value != ""
    then job.tasks[w] == Some(task)
    else task == job.task
  }

  /** Everything a written row should be. */
  ghost predicate GoodRow<F, J>(cams: seq<Camera<F>>, arms: seq<Arm<J>>, job: Job, row: Row<F, J>)
    requires Usable(cams, arms) && Sampled(arms)
  {
    && Bracketed(arms, row.instant) && RightImages(cams, row) && RightJoints(arms, row)
    && exists w :: 0 <= w < |job.spans| && RightTask(job, w, row.task)
         && job.spans[w].lo <= row.instant < job.spans[w].hi
  }

  lemma RowIsGood<F, J>(cams: seq<Camera<F>>, arms: seq<Arm<J>>, job: Job, row: Row<F, J>)
    requires Usable(cams, arms) && Sampled(arms) && job.fps > 0
    ensures Within(job.spans, SpanStart(arms), SpanEnd(arms)) && InOrder(cams, arms)
            && RightSomewhere(cams, arms, job, row) ==>
              GoodRow(cams, arms, job, row)
  {
    hide RightImages, RightJoints, StateAt, ActionAt, OnGrid, SpanStart, SpanEnd;
    if Within(job.spans, SpanStart(arms), SpanEnd(arms)) && InOrder(cams, arms)
       && RightSomewhere(cams, arms, job, row) {
      var w :| 0 <= w < |job.spans| && RightRow(cams, arms, row, TaskOf(job, w))
        && GridSize(job.spans[w].lo, job.spans[w].hi, job.fps) >= 0
        && OnGrid(job.spans[w].lo, job.fps, 0, GridSize(job.spans[w].lo, job.spans[w].hi, job.fps), row.instant);
      OnGridWithin(job.spans[w].lo, job.spans[w].hi, job.fps, row.instant);
      assert RightRow(cams, arms, row, TaskOf(job, w));
      JointsAreNearest(arms, row);
    }
  }

  // ---- the yield, from the cut to the rows ------------------------------------------

  /** A listed window that the take recorded in full is planned as it stands. */
  lemma UnclippedIsPlanned(wanted: seq<Span>, tasks: seq<Option<string>>, t0: real, t1: real, k: nat)
    requires k < |wanted| == |tasks| && Disjoint(wanted) && t0 <= wanted[k].lo && wanted[k].hi <= t1
    ensures var spans := PlannedSpans(ClipAll(wanted, tasks, t0, t1, |wanted|));
      exists w :: 0 <= w < |spans| && spans[w] == wanted[k]
  {
    ClipKeepsOrder(wanted, tasks, t0, t1, |wanted|);
    var planned := ClipAll(wanted, tasks, t0, t1, |wanted|);
    var p := Planned(wanted[k], tasks[k], k);
    assert p in planned;
    var w :| 0 <= w < |planned| && planned[w] == p;
    assert PlannedSpans(planned)[w] == wanted[k];
  }

  /** The window `s` of the plan: unless it is vetoed, it is written with at least as many rows
      as the yield promises, if those are enough for an episode. */
  ghost predicate Delivered<F, J>(cams: seq<Camera<F>>, arms: seq<Arm<J>>, job: Job, veto: nat -> bool, s: Span,
                                  y: real)
    requires Usable(cams, arms) && job.fps > 0 && s.lo < s.hi
  {
    LongerThanNothing(s.lo, s.hi);
    var bound := RowsBound(|cams|, y, GridSize(s.lo, s.hi, SEGMENT_FPS));
    exists w :: 0 <= w < |job.spans| && job.spans[w] == s
      && (!veto(w) && bound > (MIN_WINDOW_FRAMES - 1) as real ==>
            && WindowRows(cams, arms, job, w) in EpisodeRun(cams, arms, job, veto, 0, seq(|cams|, _ => -1)).episodes
            && |WindowRows(cams, arms, job, w)| as real >= bound)
  }

  lemma PlannedIsDelivered<F, J>(cams: seq<Camera<F>>, arms: seq<Arm<J>>, job: Job, veto: nat -> bool, w: nat, y: real)
    requires Usable(cams, arms) && job.fps == SEGMENT_FPS && Disjoint(job.spans) && w < |job.spans|
    requires forall c :: 0 <= c < |cams| ==> Ascending(cams[c].stamps)
    requires Segmenter.YieldOk(Stamps(cams), job.spans[w], y) && WindowDecodes(cams, job.spans[w])
    ensures Delivered(cams, arms, job, veto, job.spans[w], y)
  {
    hide EpisodeRun, WindowRows, WindowDecodes, RowsBound, FrameYield, Ascending;
    if !veto(w) {
      forall c | 0 <= c < |cams| ensures FrameYield(cams[c].stamps, job.spans[w].lo, job.spans[w].hi) >= y {
        assert FrameYield(Stamps(cams)[c], job.spans[w].lo, job.spans[w].hi) >= y;
      }
      YieldIsDelivered(cams, arms, job, veto, w, y);
    }
  }

  /** From the segmenter to the dataset: a train window of a segmented session, loaded from the
      session's file and exported with the cameras it was cut with, is written with the rows
      its yield gate promised, when the take recorded it in full and its frames decode. */
  lemma SegmentedWindowIsDelivered<F, J>(
      takes: seq<Segmenter.Take>, rule: Segmenter.Rule, windows: map<string, seq<Span>>,
      items: seq<Item>, l: Loaded, i: nat, k: nat, recipe: Recipe, take: Take<J>, eeZ: Grasp -> Option<Track>,
      cams: seq<Camera<F>>, task: string, veto: nat -> bool)
    requires Segmenter.Accepting(rule) && recipe.mode == WholeTake && recipe.fps == SEGMENT_FPS
    requires take.arms.Some? && Sampled(take.arms.value) && Usable(cams, take.arms.value)
    requires take.listed == Some(l) && WellLoaded(l)
    ensures
      && Segmenter.SessionFile(takes, rule, windows, items) && LoadedFrom(items, l)
      && i < |takes| && takes[i].name == take.name && take.name in windows && k < |windows[take.name]|
      && RecordedInFull(cams, take.arms.value, takes[i].stamps, windows[take.name][k])
      && PlanOf(recipe, take, eeZ).Ok? ==>
        var s, plan := windows[take.name][k], PlanOf(recipe, take, eeZ).value;
        && s.lo < s.hi
        && Delivered(cams, take.arms.value, Job(plan.spans, plan.tasks, task, recipe.fps), veto, s, rule.minYield)
  {
    hide PlanOf, Usable, Sampled, InOrder, Delivered, WindowDecodes, Disjoint,
         Segmenter.Accepting, Segmenter.SessionFile, LoadedFrom, WellLoaded, Ascending,
         Segmenter.YieldOk, SpanStart, SpanEnd;
    if && Segmenter.SessionFile(takes, rule, windows, items) && LoadedFrom(items, l)
       && i < |takes| && takes[i].name == take.name && take.name in windows && k < |windows[take.name]|
       && RecordedInFull(cams, take.arms.value, takes[i].stamps, windows[take.name][k])
       && PlanOf(recipe, take, eeZ).Ok? {
      var s, plan, arms := windows[take.name][k], PlanOf(recipe, take, eeZ).value, take.arms.value;
      GateHeld(takes, rule, windows, items, i, s);
      SegmentedWindowsAreLoaded(takes, rule, windows, items, l);
      WholePlan(recipe, take, eeZ);
      ListedHasLength(l, take.name, k);
      UnclippedIsPlanned(l.windows[take.name], l.tasks[take.name], SpanStart(arms), SpanEnd(arms), k);
      var w :| 0 <= w < |plan.spans| && plan.spans[w] == s;
      PlansAreFit(recipe, take, eeZ);
      CamerasInOrder(cams, arms);
      PlannedIsDelivered(cams, arms, Job(plan.spans, plan.tasks, task, recipe.fps), veto, w, rule.minYield);
    }
  }

  /** The take's cameras are those the window was cut with, its joint streams cover the window,
      and the window decodes. */
  ghost predicate RecordedInFull<F, J>(cams: seq<Camera<F>>, arms: seq<Arm<J>>, stamps: seq<seq<real>>, s: Span)
    requires Usable(cams, arms) && Sampled(arms)
  {
    && Stamps(cams) == stamps && InOrder(cams, arms)
    && SpanStart(arms) <= s.lo && s.hi <= SpanEnd(arms) && WindowDecodes(cams, s)
  }

  lemma GateHeld(takes: seq<Segmenter.Take>, rule: Segmenter.Rule, windows: map<string, seq<Span>>, items: seq<Item>,
                 i: nat, s: Span)
    requires Segmenter.SessionFile(takes, rule, windows, items) && Segmenter.Accepting(rule)
    requires i < |takes| && takes[i].name in windows && s in windows[takes[i].name]
    ensures Segmenter.Loadable(takes[i]) && Segmenter.YieldOk(takes[i].stamps, s, rule.minYield)
  {
    hide Segmenter.Safe, Segmenter.Loadable, Segmenter.Holds, Segmenter.FileOf, Segmenter.YieldOk;
    if Segmenter.Safe(rule) {
      Segmenter.TrainWindowPassedGate(takes, rule, windows, i, s);
    } else {
      Segmenter.NothingToTrainOn(takes, rule, windows);
    }
  }

  lemma WholePlan<J>(recipe: Recipe, take: Take<J>, eeZ: Grasp -> Option<Track>)
    requires take.arms.Some? && Sampled(take.arms.value) && recipe.mode == WholeTake
    requires take.listed.Some? && WellLoaded(take.listed.value) && PlanOf(recipe, take, eeZ).Ok?
    ensures var l, plan := take.listed.value, PlanOf(recipe, take, eeZ).value;
      && take.name in l.windows
      && plan.spans == PlannedSpans(ClipAll(l.windows[take.name], l.tasks[take.name], SpanStart(take.arms.value),
                                            SpanEnd(take.arms.value), |l.windows[take.name]|))
  {
    hide Pool, AfterKeep, ClipAll, WellLoaded;
  }

  lemma CamerasInOrder<F, J>(cams: seq<Camera<F>>, arms: seq<Arm<J>>)
    requires InOrder(cams, arms)
    ensures forall c :: 0 <= c < |cams| ==> Ascending(cams[c].stamps)
  {
  }

  lemma ListedHasLength(l: Loaded, name: string, k: nat)
    requires WellLoaded(l) && name in l.windows && k < |l.windows[name]|
    ensures l.windows[name][k].lo < l.windows[name][k].hi
    ensures name in l.tasks && |l.tasks[name]| == |l.windows[name]| && Disjoint(l.windows[name])
  {
  }
}

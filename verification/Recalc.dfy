/** The recalculation handshake between caller threads and the detector's background loop,
    as interleaved atomic steps. Frames are numbered by the step at which they were fetched,
    requests by the generation they bumped the counter to. */
module Recalc {
  import opened Common
  import opened Detections
  import opened PartIds
  import opened Tracker

  datatype Config = Config(hold: real, minConf: real, recalibrate: bool)

  /** The statement of the loop that comes next. */
  datatype Phase = Top | Test | Drop | Forget | Lower | Fetch | Work | Credit

  /** `made[g - 1]` is the step at which request g bumped the counter; `raising` are the
      requests that have bumped it but not yet set the flag. `source` and `sourceKnown` are
      what the published boxes were voted from, `publishedGen` the request that cycle saw. */
  datatype State = State(
    clock: nat, made: seq<nat>, raising: set<nat>, servedGen: nat, reset: bool,
    phase: Phase, pending: nat, held: seq<Entry>, expected: nat, frame: Option<nat>,
    published: seq<Detection>, source: seq<Entry>, sourceKnown: seq<string>, publishedGen: nat)
  {
    function ResetGen(): nat { |made| }
  }

  datatype Action =
    | Bump
    | Raise(g: nat)
    | Snapshot
    | TestFlag
    | DropHeld
    | ForgetExpected
    | LowerFlag
    | FetchFrame(available: bool)
    | NoFrame
    | Process(first: seq<Detection>, swept: seq<Detection>, known: seq<string>, now: real)
    | Fail(left: seq<Entry>)
    | CreditRequest

  ghost const INIT := State(0, [], {}, 0, false, Top, 0, [], 0, None, [], [], [], 0)

  ghost predicate Enabled(s: State, a: Action) {
    match a
    case Bump => true
    case Raise(g) => g in s.raising
    case Snapshot => s.phase == Top
    case TestFlag => s.phase == Test
    case DropHeld => s.phase == Drop
    case ForgetExpected => s.phase == Forget
    case LowerFlag => s.phase == Lower
    case FetchFrame(_) => s.phase == Fetch
    case NoFrame => s.phase == Work && s.frame.None?
    case Process(_, _, _, _) => s.phase == Work && s.frame.Some?
    case Fail(left) =>
      // an exception may leave the held list half updated, with reads of this frame in it
      && s.phase == Work && s.frame.Some?
      && forall e, r :: e in left && r in e.window ==>
           r.frame == s.frame.value || exists e' :: e' in s.held && r in e'.window
    case CreditRequest => s.phase == Credit
  }

  ghost function Effect(c: Config, s: State, a: Action): State
    requires Enabled(s, a)
  {
    match a
    case Bump => s.(made := s.made + [s.clock], raising := s.raising + {|s.made| + 1})
    case Raise(g) => s.(reset := true, raising := s.raising - {g})
    case Snapshot => s.(pending := s.ResetGen(), phase := Test)
    case TestFlag => s.(phase := if s.reset then Drop else Fetch)
    case DropHeld => s.(held := [], phase := Forget)
    case ForgetExpected => s.(expected := 0, phase := Lower)
    case LowerFlag => s.(reset := false, phase := Fetch)
    case FetchFrame(available) => s.(frame := if available then Some(s.clock) else None, phase := Work)
    case NoFrame => s.(phase := Credit)
    case Process(first, swept, known, now) =>
      var dets := FreshDetections(first, swept, s.expected, c.recalibrate, c.minConf);
      var held := Advance(s.held, dets, s.frame.value, now, c.hold);
      s.(expected := MaxInt(s.expected, |dets|), held := held, phase := Credit,
         published := Published(held, known, c.minConf),
         source := held, sourceKnown := known, publishedGen := s.pending)
    case Fail(left) => s.(held := left, phase := Credit)
    case CreditRequest => s.(servedGen := MaxInt(s.servedGen, s.pending), phase := Top)
  }

  ghost function Step(c: Config, s: State, a: Action): State
    requires Enabled(s, a)
  {
    Effect(c, s, a).(clock := s.clock + 1)
  }

  /** Every action of the run is possible when its turn comes. */
  ghost predicate Valid(c: Config, s: State, run: seq<Action>)
    decreases |run|
  {
    run == [] || (Enabled(s, run[0]) && Valid(c, Step(c, s, run[0]), run[1..]))
  }

  ghost function Exec(c: Config, s: State, run: seq<Action>): State
    requires Valid(c, s, run)
    decreases |run|
  {
    if run == [] then s else Exec(c, Step(c, s, run[0]), run[1..])
  }

  /** Every read behind the entries is of a frame fetched after step `t`. */
  ghost predicate After(entries: seq<Entry>, t: nat) {
    forall e, r :: e in entries && r in e.window ==> r.frame > t
  }

  ghost predicate FreshFor(s: State, entries: seq<Entry>, g: nat)
    requires 1 <= g <= s.ResetGen()
  {
    After(entries, s.made[g - 1])
  }

  /** Fresh for one request: what is held, and the frame in hand if there is one. */
  ghost predicate FreshAt(s: State, g: nat)
    requires 1 <= g <= s.ResetGen()
  {
    FreshFor(s, s.held, g) && (s.phase == Work && s.frame.Some? ==> s.frame.value > s.made[g - 1])
  }

  // ---- what every interleaving keeps ------------------------------------------------

  /** Counters, and the fate of the flag: once it is down, everything held is fresh for
      every request that has finished setting it. */
  ghost predicate Inv(s: State) {
    && s.servedGen <= s.ResetGen() && s.pending <= s.ResetGen() && s.publishedGen <= s.ResetGen()
    && (s.phase != Top ==> s.servedGen <= s.pending)
    && (forall g :: g in s.raising ==> 1 <= g <= s.ResetGen())
    && (forall i :: 0 <= i < |s.made| ==> s.made[i] < s.clock)
    && (s.phase == Drop || s.phase == Forget || s.phase == Lower ==> s.reset)
    && (s.phase == Forget || s.phase == Lower ==> s.held == [])
    && (!s.reset ==> forall g :: 1 <= g <= s.ResetGen() && g !in s.raising ==> FreshAt(s, g))
  }

  lemma AdvanceAfter(held: seq<Entry>, dets: seq<Detection>, frame: nat, now: real, hold: real, t: nat)
    requires After(held, t) && frame > t
    ensures After(Advance(held, dets, frame, now, hold), t)
  {
    var p := (r: Read) => r.frame > t;
    hide Advance;
    assert ReadsAre(held, p);
    AdvanceReads(held, dets, frame, now, hold, p);
    forall e, r | e in Advance(held, dets, frame, now, hold) && r in e.window ensures r.frame > t {
      assert p(r);
    }
  }

  lemma StepAfter(c: Config, s: State, a: Action, t: nat)
    requires Enabled(s, a) && After(s.held, t)
    requires s.phase == Work && s.frame.Some? ==> s.frame.value > t
    ensures After(Step(c, s, a).held, t)
    ensures a.Process? ==> After(Step(c, s, a).source, t)
  {
    hide Advance, Published, FreshDetections;
    if a.Process? {
      var dets := FreshDetections(a.first, a.swept, s.expected, c.recalibrate, c.minConf);
      AdvanceAfter(s.held, dets, s.frame.value, a.now, c.hold, t);
    }
  }

  lemma StepKeepsInv(c: Config, s: State, a: Action)
    requires Inv(s) && Enabled(s, a)
    ensures Inv(Step(c, s, a))
    ensures s.servedGen <= Step(c, s, a).servedGen && s.ResetGen() <= Step(c, s, a).ResetGen()
  {
    var n := Step(c, s, a);
    hide Advance, Published, FreshDetections, After;
    if !n.reset {
      forall g | 1 <= g <= n.ResetGen() && g !in n.raising ensures FreshAt(n, g) {
        if a.LowerFlag? {
          NothingHeld(s.made[g - 1]);
        } else {
          StepKeepsFreshAt(c, s, a, g);
        }
      }
    }
  }

  /** In every interleaving the served counter never goes back and never runs ahead of the
      requests. */
  lemma {:induction false} CountersSafe(c: Config, s: State, run: seq<Action>)
    requires Inv(s) && Valid(c, s, run)
    ensures Inv(Exec(c, s, run))
    ensures s.servedGen <= Exec(c, s, run).servedGen <= Exec(c, s, run).ResetGen()
    decreases |run|
  {
    if run != [] {
      StepKeepsInv(c, s, run[0]);
      CountersSafe(c, Step(c, s, run[0]), run[1..]);
    }
  }

  // ---- freshness --------------------------------------------------------------------

  /** The loop is about to snapshot the counter, the flag is down, and a request that has
      bumped the counter but not yet set the flag would find older reads held. */
  ghost predicate Danger(s: State)
    requires Inv(s)
  {
    s.phase == Top && !s.reset && exists g :: g in s.raising && !FreshFor(s, s.held, g)
  }

  /** No snapshot of the run is taken in a dangerous state. */
  ghost predicate Guarded(c: Config, s: State, run: seq<Action>)
    requires Inv(s) && Valid(c, s, run)
    decreases |run|
  {
    run == [] ||
    (StepKeepsInv(c, s, run[0]);
     (run[0] == Snapshot ==> !Danger(s)) && Guarded(c, Step(c, s, run[0]), run[1..]))
  }

  /** Everything held is fresh for every request already credited, and for every request
      the current cycle will credit once it is past the flag. */
  ghost predicate Fresh(s: State)
    requires Inv(s)
  {
    && (forall g :: 1 <= g <= s.servedGen ==> FreshAt(s, g))
    && (s.phase == Test ==> s.reset || forall g :: 1 <= g <= s.pending ==> FreshAt(s, g))
    && (s.phase == Fetch || s.phase == Work || s.phase == Credit ==>
          forall g :: 1 <= g <= s.pending ==> FreshAt(s, g))
    && (forall g :: 1 <= g <= s.publishedGen ==> FreshFor(s, s.source, g))
  }

  lemma StepKeepsFreshAt(c: Config, s: State, a: Action, g: nat)
    requires Enabled(s, a) && 1 <= g <= s.ResetGen() && FreshAt(s, g)
    requires forall i :: 0 <= i < |s.made| ==> s.made[i] < s.clock
    ensures FreshAt(Step(c, s, a), g)
    ensures a.Process? ==> FreshFor(Step(c, s, a), Step(c, s, a).source, g)
  {
    hide Advance, Published, FreshDetections;
    StepAfter(c, s, a, s.made[g - 1]);
    if a.Fail? || a.NoFrame? {
      assert After(Step(c, s, a).held, s.made[g - 1]);
    }
  }

  lemma StepKeepsFresh(c: Config, s: State, a: Action)
    requires Inv(s) && Fresh(s) && Enabled(s, a)
    requires a == Snapshot ==> !Danger(s)
    ensures Inv(Step(c, s, a)) && Fresh(Step(c, s, a))
  {
    StepKeepsInv(c, s, a);
    var n := Step(c, s, a);
    hide Advance, Published, FreshDetections, After;
    forall g | 1 <= g <= s.ResetGen() && FreshAt(s, g)
      ensures FreshAt(n, g)
      ensures a.Process? ==> FreshFor(n, n.source, g)
    {
      StepKeepsFreshAt(c, s, a, g);
    }
    if a.LowerFlag? {
      forall g | 1 <= g <= n.ResetGen() ensures FreshAt(n, g) {
        NothingHeld(s.made[g - 1]);
      }
    } else if a.Snapshot? && !s.reset {
      forall g | 1 <= g <= n.ResetGen() ensures FreshAt(n, g) {
        assert g !in s.raising ==> FreshAt(s, g);
      }
    }
    forall g | 1 <= g <= n.publishedGen ensures FreshFor(n, n.source, g) {
      assert !a.Process? ==> FreshFor(s, s.source, g);
      assert a.Process? ==> FreshAt(s, g);
    }
    forall g | 1 <= g <= n.pending && (n.phase == Fetch || n.phase == Work || n.phase == Credit)
      ensures FreshAt(n, g)
    {
    }
  }

  lemma NothingHeld(t: nat)
    ensures After([], t)
  {
  }

  lemma {:induction false} GuardedRunsStayFresh(c: Config, s: State, run: seq<Action>)
    requires Inv(s) && Fresh(s) && Valid(c, s, run) && Guarded(c, s, run)
    ensures Inv(Exec(c, s, run)) && Fresh(Exec(c, s, run))
    decreases |run|
  {
    if run != [] {
      StepKeepsFresh(c, s, run[0]);
      GuardedRunsStayFresh(c, Step(c, s, run[0]), run[1..]);
    }
  }

  /** The boxes on screen are what the vote and the clean-up make of the entries they came from. */
  ghost predicate Shown(c: Config, s: State) {
    s.published == Published(s.source, s.sourceKnown, c.minConf)
  }

  lemma {:induction false} RunKeepsShown(c: Config, s: State, run: seq<Action>)
    requires Valid(c, s, run)
    ensures Shown(c, s) ==> Shown(c, Exec(c, s, run))
    decreases |run|
  {
    hide Published, Advance, FreshDetections;
    if run != [] {
      RunKeepsShown(c, Step(c, s, run[0]), run[1..]);
    }
  }

  lemma NothingShown(c: Config)
    ensures Shown(c, INIT)
  {
    assert VotedAll([], []) == [];
  }

  /** When the wait for request g ends with True, every read the tracker holds is of a frame
      fetched after g was made; the boxes on screen are too, if the last cycle that got
      through a frame already saw g. */
  lemma WaiterSeesFreshReads(c: Config, run: seq<Action>, g: nat)
    requires Valid(c, INIT, run) && Guarded(c, INIT, run)
    requires 1 <= g <= Exec(c, INIT, run).servedGen
    ensures var s := Exec(c, INIT, run);
      && g <= s.ResetGen() && FreshFor(s, s.held, g)
      && s.published == Published(s.source, s.sourceKnown, c.minConf)
      && (g <= s.publishedGen ==> FreshFor(s, s.source, g))
  {
    hide Published;
    NothingShown(c);
    RunKeepsShown(c, INIT, run);
    GuardedRunsStayFresh(c, INIT, run);
    assert FreshAt(Exec(c, INIT, run), g);
  }

  /** The condition is exact: from any dangerous state the loop can go on to credit a request
      while it still holds older reads, and the flag is only set after it was tested. */
  lemma DangerBreaksFreshness(c: Config, s: State, g: nat)
    requires Inv(s) && s.phase == Top && !s.reset
    requires g in s.raising && !FreshFor(s, s.held, g)
    ensures Valid(c, s, LateFlag(g))
    ensures var t := Exec(c, s, LateFlag(g));
         g <= t.servedGen <= t.ResetGen() && g !in t.raising && !FreshFor(t, t.held, g)
  {
    hide Exec, Valid, After;
    LateFlagRun(c, s, g);
  }

  lemma LateFlagRun(c: Config, s: State, g: nat)
    requires s.phase == Top && !s.reset && g in s.raising
    ensures Valid(c, s, LateFlag(g))
    ensures var t := Exec(c, s, LateFlag(g));
      && t.held == s.held && t.made == s.made && t.raising == s.raising - {g}
      && t.servedGen == MaxInt(s.servedGen, s.ResetGen())
  {
    FlagAfterTest(c, s, g);
    hide Valid, Exec;
    var s3 := Exec(c, s, [Snapshot, TestFlag, Raise(g)]);
    NoFrameCredited(c, s3);
    assert [Snapshot, TestFlag, Raise(g)] + NO_FRAME == LateFlag(g);
    ExecAppend(c, s, [Snapshot, TestFlag, Raise(g)], NO_FRAME);
  }

  lemma FlagAfterTest(c: Config, s: State, g: nat)
    requires s.phase == Top && !s.reset && g in s.raising
    ensures Valid(c, s, [Snapshot, TestFlag, Raise(g)])
    ensures Exec(c, s, [Snapshot, TestFlag, Raise(g)])
            == s.(pending := s.ResetGen(), phase := Fetch, reset := true, raising := s.raising - {g},
                  clock := s.clock + 3)
  {
    hide Valid, Exec, Advance, Published, FreshDetections;
    var s1 := Step(c, s, Snapshot);
    var s2 := Step(c, s1, TestFlag);
    var s3 := Step(c, s2, Raise(g));
    Trace(c, [Snapshot, TestFlag, Raise(g)], [s, s1, s2, s3]);
  }

  /** The rest of a cycle that gets no frame. */
  const NO_FRAME := [FetchFrame(false), NoFrame, CreditRequest]

  lemma NoFrameCredited(c: Config, s: State)
    requires s.phase == Fetch
    ensures Valid(c, s, NO_FRAME)
    ensures Exec(c, s, NO_FRAME)
            == s.(frame := None, phase := Top, servedGen := MaxInt(s.servedGen, s.pending), clock := s.clock + 3)
  {
    hide Valid, Exec, Advance, Published, FreshDetections;
    var s1 := Step(c, s, FetchFrame(false));
    var s2 := Step(c, s1, NoFrame);
    var s3 := Step(c, s2, CreditRequest);
    Trace(c, NO_FRAME, [s, s1, s2, s3]);
  }

  /** One cycle without a frame during which request g, already counted, sets its flag just
      after the flag was tested. */
  ghost function LateFlag(g: nat): seq<Action> {
    [Snapshot, TestFlag, Raise(g), FetchFrame(false), NoFrame, CreditRequest]
  }

  /** A run given by the states it goes through. */
  lemma {:induction false} Trace(c: Config, run: seq<Action>, states: seq<State>)
    requires |states| == |run| + 1
    requires forall i :: 0 <= i < |run| ==> Enabled(states[i], run[i]) && states[i + 1] == Step(c, states[i], run[i])
    ensures Valid(c, states[0], run) && Exec(c, states[0], run) == states[|run|]
    decreases |run|
  {
    if run != [] {
      assert forall i :: 0 <= i < |run[1..]| ==> run[1..][i] == run[i + 1] && states[1..][i] == states[i + 1];
      Trace(c, run[1..], states[1..]);
    }
  }

  // ---- one cycle that nothing interrupts --------------------------------------------

  /** The steps of a cycle that no request interrupts, over one frame. */
  ghost function WholeCycle(reset: bool, scan: Action): seq<Action> {
    [Snapshot] + TestedFlag(reset) + [FetchFrame(true), scan, CreditRequest]
  }

  ghost function TestedFlag(reset: bool): seq<Action> {
    if reset then [TestFlag, DropHeld, ForgetExpected, LowerFlag] else [TestFlag]
  }

  /** What the tracker has at that moment. */
  ghost function TrackedAt(s: State): Tracked {
    Tracked(s.held, s.expected, s.published)
  }

  /** An undisturbed cycle does to the tracker what one cycle of a session does, after starting
      over if the flag was up; it lowers the flag and credits every request made so far. */
  lemma CycleIsSessionStep(c: Config, s: State, first: seq<Detection>, swept: seq<Detection>, known: seq<string>,
                           now: real)
    requires s.phase == Top
    ensures Valid(c, s, WholeCycle(s.reset, Process(first, swept, known, now)))
    ensures var n := Exec(c, s, WholeCycle(s.reset, Process(first, swept, known, now)));
            var frame := s.clock + if s.reset then 5 else 2;
            var before := if s.reset then AfterCycle(c.hold, c.minConf, c.recalibrate, TrackedAt(s), StartOver)
                          else TrackedAt(s);
      && TrackedAt(n) == AfterCycle(c.hold, c.minConf, c.recalibrate, before, Scan(first, swept, known, frame, now))
      && n.phase == Top && !n.reset && n.made == s.made && n.raising == s.raising
      && n.servedGen == MaxInt(s.servedGen, s.ResetGen())
  {
    var scan := Process(first, swept, known, now);
    hide Valid, Exec, Advance, Published, FreshDetections;
    var s1 := Step(c, s, Snapshot);
    Trace(c, [Snapshot], [s, s1]);
    FlagTested(c, s1);
    var s2 := Exec(c, s1, TestedFlag(s.reset));
    ExecAppend(c, s, [Snapshot], TestedFlag(s.reset));
    FrameProcessed(c, s2, first, swept, known, now);
    ExecAppend(c, s, [Snapshot] + TestedFlag(s.reset), [FetchFrame(true), scan, CreditRequest]);
  }

  lemma FlagTested(c: Config, s: State)
    requires s.phase == Test
    ensures Valid(c, s, TestedFlag(s.reset))
    ensures Exec(c, s, TestedFlag(s.reset))
            == if s.reset then s.(held := [], expected := 0, reset := false, phase := Fetch, clock := s.clock + 4)
               else s.(phase := Fetch, clock := s.clock + 1)
  {
    hide Valid, Exec, Advance, Published, FreshDetections;
    if s.reset {
      Cleared(c, s);
    } else {
      Trace(c, [TestFlag], [s, Step(c, s, TestFlag)]);
    }
  }

  lemma FrameProcessed(c: Config, s: State, first: seq<Detection>, swept: seq<Detection>, known: seq<string>, now: real)
    requires s.phase == Fetch
    ensures var run := [FetchFrame(true), Process(first, swept, known, now), CreditRequest];
      && Valid(c, s, run)
      && var n := Exec(c, s, run);
         && TrackedAt(n) == AfterCycle(c.hold, c.minConf, c.recalibrate, TrackedAt(s),
                                       Scan(first, swept, known, s.clock, now))
         && n.phase == Top && n.reset == s.reset && n.made == s.made && n.raising == s.raising
         && n.servedGen == MaxInt(s.servedGen, s.pending)
  {
    hide Valid, Exec, Advance, Published, FreshDetections;
    var s1 := Step(c, s, FetchFrame(true));
    var s2 := Step(c, s1, Process(first, swept, known, now));
    var s3 := Step(c, s2, CreditRequest);
    Trace(c, [FetchFrame(true), Process(first, swept, known, now), CreditRequest], [s, s1, s2, s3]);
  }

  // ---- the two writes as one step ---------------------------------------------------

  /** Every bump of the counter is followed at once by the same caller's write of the flag. */
  ghost predicate Paired(run: seq<Action>) {
    run == [] || (if run[0] == Bump then |run| > 1 && run[1].Raise? && Paired(run[2..])
                  else !run[0].Raise? && Paired(run[1..]))
  }

  /** With the two writes as one step no snapshot is ever dangerous. */
  lemma {:induction false} PairedIsGuarded(c: Config, s: State, run: seq<Action>)
    requires Inv(s) && s.raising == {} && Valid(c, s, run) && Paired(run)
    ensures Guarded(c, s, run)
    decreases |run|
  {
    if run != [] {
      StepKeepsInv(c, s, run[0]);
      var s1 := Step(c, s, run[0]);
      if run[0] == Bump {
        var g := run[1].g;
        assert run[1..][0] == run[1] && run[1..][1..] == run[2..];
        assert s1.raising == {g};
        StepKeepsInv(c, s1, run[1]);
        PairedIsGuarded(c, Step(c, s1, run[1]), run[2..]);
        assert Guarded(c, s1, run[1..]);
      } else {
        PairedIsGuarded(c, s1, run[1..]);
      }
    }
  }

  /** The freshness promise of a request, for every interleaving in which a request is one
      step: mid-cycle, between the flag test and its clearing, or anywhere else. */
  lemma RequestsAreServedFresh(c: Config, run: seq<Action>, g: nat)
    requires Valid(c, INIT, run) && Paired(run)
    requires 1 <= g <= Exec(c, INIT, run).servedGen
    ensures var s := Exec(c, INIT, run);
      && g <= s.ResetGen() && FreshFor(s, s.held, g)
      && s.published == Published(s.source, s.sourceKnown, c.minConf)
      && (g <= s.publishedGen ==> FreshFor(s, s.source, g))
  {
    hide Published;
    PairedIsGuarded(c, INIT, run);
    WaiterSeesFreshReads(c, run, g);
  }

  // ---- two runs the promise does not cover ------------------------------------------

  /** A packet as OCR reads it, and as the vote shows it. */
  const SAMPLE_BOX := Box(100, 200, 60, 24)
  const SAMPLE := Detection(SAMPLE_BOX, Some("UNN-10126-151"), 0.9)
  const SHOWN := Detection(SAMPLE_BOX, Some("UNN-10126-151"), 1.0)

  /** One frame with that one part number on it yields exactly the sample, and the tracker
      then shows it. */
  lemma SampleIsRead(minConf: real, frame: nat)
    requires minConf <= 0.9
    ensures DetectOnce([Hit("UNN", "10126", Some("151"), SAMPLE_BOX, 0.9)], [], minConf) == [SAMPLE]
    ensures Published([NewEntry(SAMPLE, frame, 0.0)], [], minConf) == [SHOWN]
  {
    hide ParsePart, Cleaned, Published;
    var hit := Hit("UNN", "10126", Some("151"), SAMPLE_BOX, 0.9);
    assert InCents(0.9) == 90.0;
    assert "UNN" + "-" + "10126" + "-" + "151" == "UNN-10126-151";
    assert RawRead(hit) == SAMPLE;
    SampleCanonical();
    CleanedOne(SAMPLE, minConf, MERGE_PX);
    NormalizeKnown("UNN-10126-151");
    assert Repaired(SAMPLE) == SAMPLE;
    assert seq(1, i requires 0 <= i < 1 => RawRead([hit][i])) == [SAMPLE];
    OneReadPublished(NewEntry(SAMPLE, frame, 0.0), ReadOf(SAMPLE, frame), [], minConf);
    assert Repaired(SHOWN) == SHOWN;
  }

  lemma SampleCanonical()
    ensures Canonical("UNN-10126-151")
  {
    hide ParsePart;
    var p := Parts("UNN", "10126", "151");
    assert Print(p) == "UNN-10126-151";
    ParsePrint(p);
  }

  /** One undisturbed cycle over a frame that shows one packet. */
  const FIRST_CYCLE := [Snapshot, TestFlag, FetchFrame(true), Process([SAMPLE], [], [], 0.0), CreditRequest]

  lemma SampleTracked(frame: nat, hold: real)
    ensures Advance([], [SAMPLE], frame, 0.0, hold) == [NewEntry(SAMPLE, frame, 0.0)]
  {
    assert Match([], [SAMPLE], 0) == [];
    assert Survivors([], [], 0, 0.0, hold) == [];
    assert Newcomers([], 1) == Newcomers([], 0) + [New(0)];
    assert Origins([], [SAMPLE], 0.0, hold) == [New(0)];
  }

  lemma FirstFrame(c: Config, s: State)
    requires s.phase == Work && s.frame == Some(2) && s.held == [] && s.expected == 0
    ensures var t := Step(c, s, Process([SAMPLE], [], [], 0.0));
      && t.held == t.source == [NewEntry(SAMPLE, 2, 0.0)] && t.sourceKnown == []
      && t.published == Published(t.source, t.sourceKnown, c.minConf)
  {
    hide Advance, Published;
    SampleTracked(2, c.hold);
    assert FreshDetections([SAMPLE], [], 0, c.recalibrate, c.minConf) == [SAMPLE] by {
      hide Cleaned;
    }
  }

  /** The states the first cycle goes through, up to the published boxes. */
  ghost function AtTest(): State { INIT.(phase := Test, clock := 1) }
  ghost function AtFetch(): State { INIT.(phase := Fetch, clock := 2) }
  ghost function AtWork(): State { INIT.(phase := Work, clock := 3, frame := Some(2)) }

  lemma AfterFirstCycle(c: Config)
    ensures Valid(c, INIT, FIRST_CYCLE)
    ensures var s := Exec(c, INIT, FIRST_CYCLE);
      && Inv(s) && s.phase == Top && s.made == [] && s.raising == {} && !s.reset && s.clock == 5
      && s.held == s.source == [NewEntry(SAMPLE, 2, 0.0)] && s.sourceKnown == []
      && s.published == Published(s.source, s.sourceKnown, c.minConf)
  {
    hide Valid, Exec, Published, After, Inv;
    FrameFetched(c);
    SampleProcessed(c, AtWork());
    assert [Snapshot, TestFlag, FetchFrame(true)] + [Process([SAMPLE], [], [], 0.0), CreditRequest] == FIRST_CYCLE;
    ExecAppend(c, INIT, [Snapshot, TestFlag, FetchFrame(true)], [Process([SAMPLE], [], [], 0.0), CreditRequest]);
    StartsSound();
    CountersSafe(c, INIT, FIRST_CYCLE);
  }

  lemma StartsSound()
    ensures Inv(INIT)
  {
  }

  lemma FrameFetched(c: Config)
    ensures Valid(c, INIT, [Snapshot, TestFlag, FetchFrame(true)])
    ensures Exec(c, INIT, [Snapshot, TestFlag, FetchFrame(true)]) == AtWork()
  {
    hide Valid, Exec, Advance, Published, FreshDetections;
    assert Step(c, INIT, Snapshot) == AtTest();
    assert Step(c, AtTest(), TestFlag) == AtFetch();
    assert Step(c, AtFetch(), FetchFrame(true)) == AtWork();
    Trace(c, [Snapshot, TestFlag, FetchFrame(true)], [INIT, AtTest(), AtFetch(), AtWork()]);
  }

  lemma SampleProcessed(c: Config, s: State)
    requires s.phase == Work && s.frame == Some(2) && s.held == [] && s.expected == 0
    ensures Valid(c, s, [Process([SAMPLE], [], [], 0.0), CreditRequest])
    ensures var t := Exec(c, s, [Process([SAMPLE], [], [], 0.0), CreditRequest]);
      && t.phase == Top && t.made == s.made && t.raising == s.raising && t.reset == s.reset && t.clock == s.clock + 2
      && t.held == t.source == [NewEntry(SAMPLE, 2, 0.0)] && t.sourceKnown == []
      && t.published == Published(t.source, t.sourceKnown, c.minConf)
  {
    hide Valid, Exec, Advance, Published, FreshDetections;
    FirstFrame(c, s);
    var s1 := Step(c, s, Process([SAMPLE], [], [], 0.0));
    var s2 := Step(c, s1, CreditRequest);
    Trace(c, [Process([SAMPLE], [], [], 0.0), CreditRequest], [s, s1, s2]);
  }

  lemma {:induction false} ExecAppend(c: Config, s: State, run: seq<Action>, more: seq<Action>)
    requires Valid(c, s, run) && Valid(c, Exec(c, s, run), more)
    ensures Valid(c, s, run + more) && Exec(c, s, run + more) == Exec(c, Exec(c, s, run), more)
    decreases |run|
  {
    hide Step, Enabled;
    if run == [] {
      assert run + more == more;
    } else {
      ExecAppend(c, Step(c, s, run[0]), run[1..], more);
      assert (run + more)[1..] == run[1..] + more;
    }
  }

  /** The bump, the snapshot and the flag test, and only then the flag: the wait for the
      request ends with True although what is held was read before it was made. */
  lemma SnapshotBetweenTheTwoWrites(c: Config)
    ensures var run := FIRST_CYCLE + ([Bump] + LateFlag(1));
      && Valid(c, INIT, run)
      && var s := Exec(c, INIT, run);
         s.ResetGen() == 1 && s.servedGen >= 1 && 1 !in s.raising && !FreshFor(s, s.held, 1)
  {
    hide Valid, Exec, After;
    AfterFirstCycle(c);
    var s := Exec(c, INIT, FIRST_CYCLE);
    var s' := Step(c, s, Bump);
    StepKeepsInv(c, s, Bump);
    SampleIsOld(s'.made[0]);
    DangerBreaksFreshness(c, s', 1);
    MadeUnchanged(c, s', LateFlag(1));
    Trace(c, [Bump], [s, s']);
    ExecAppend(c, s, [Bump], LateFlag(1));
    ExecAppend(c, INIT, FIRST_CYCLE, [Bump] + LateFlag(1));
  }

  lemma {:induction false} MadeUnchanged(c: Config, s: State, run: seq<Action>)
    requires Valid(c, s, run) && Bump !in run
    ensures Exec(c, s, run).made == s.made
    decreases |run|
  {
    if run != [] {
      MadeUnchanged(c, Step(c, s, run[0]), run[1..]);
    }
  }

  /** A request, and the steps with which the loop forgets everything. */
  const FORGETTING := [Bump, Raise(1), Snapshot, TestFlag, DropHeld, ForgetExpected, LowerFlag]

  lemma Forgotten(c: Config, s: State)
    requires s.phase == Top && s.made == []
    ensures Valid(c, s, FORGETTING)
    ensures Exec(c, s, FORGETTING)
            == s.(made := [s.clock], raising := s.raising + {1} - {1}, pending := 1, held := [], expected := 0,
                  reset := false, phase := Fetch, clock := s.clock + 7)
  {
    Requested(c, s);
    hide Valid, Exec;
    var s3 := Exec(c, s, [Bump, Raise(1), Snapshot]);
    Cleared(c, s3);
    assert [Bump, Raise(1), Snapshot] + [TestFlag, DropHeld, ForgetExpected, LowerFlag] == FORGETTING;
    ExecAppend(c, s, [Bump, Raise(1), Snapshot], [TestFlag, DropHeld, ForgetExpected, LowerFlag]);
  }

  lemma Requested(c: Config, s: State)
    requires s.phase == Top && s.made == []
    ensures Valid(c, s, [Bump, Raise(1), Snapshot])
    ensures Exec(c, s, [Bump, Raise(1), Snapshot])
            == s.(made := [s.clock], raising := s.raising + {1} - {1}, reset := true, pending := 1, phase := Test,
                  clock := s.clock + 3)
  {
    hide Valid, Exec, Advance, Published, FreshDetections;
    var s1 := Step(c, s, Bump);
    var s2 := Step(c, s1, Raise(1));
    var s3 := Step(c, s2, Snapshot);
    Trace(c, [Bump, Raise(1), Snapshot], [s, s1, s2, s3]);
  }

  lemma Cleared(c: Config, s: State)
    requires s.phase == Test && s.reset
    ensures Valid(c, s, [TestFlag, DropHeld, ForgetExpected, LowerFlag])
    ensures Exec(c, s, [TestFlag, DropHeld, ForgetExpected, LowerFlag])
            == s.(held := [], expected := 0, reset := false, phase := Fetch, clock := s.clock + 4)
  {
    hide Valid, Exec, Advance, Published, FreshDetections;
    var s1 := Step(c, s, TestFlag);
    var s2 := Step(c, s1, DropHeld);
    var s3 := Step(c, s2, ForgetExpected);
    var s4 := Step(c, s3, LowerFlag);
    Trace(c, [TestFlag, DropHeld, ForgetExpected, LowerFlag], [s, s1, s2, s3, s4]);
  }

  /** A cycle that gets no frame credits the request and leaves on screen the box read from a
      frame fetched before the request was made. */
  lemma CreditWithoutFrameKeepsOldBoxes(c: Config)
    ensures Valid(c, INIT, FIRST_CYCLE + (FORGETTING + NO_FRAME))
    ensures var s := Exec(c, INIT, FIRST_CYCLE + (FORGETTING + NO_FRAME));
         && s.ResetGen() == 1 && s.servedGen == 1 && s.held == []
         && s.published == Published(s.source, s.sourceKnown, c.minConf)
         && (c.minConf <= 0.9 ==> s.published == [SHOWN])
         && s.source == [NewEntry(SAMPLE, 2, 0.0)] && s.made[0] > 2
         && !FreshFor(s, s.source, 1)
  {
    if c.minConf <= 0.9 {
      SampleIsRead(c.minConf, 2);
    }
    hide Published, After, Valid, Exec;
    AfterFirstCycle(c);
    var s := Exec(c, INIT, FIRST_CYCLE);
    Forgotten(c, s);
    NoFrameCredited(c, Exec(c, s, FORGETTING));
    ExecAppend(c, s, FORGETTING, NO_FRAME);
    ExecAppend(c, INIT, FIRST_CYCLE, FORGETTING + NO_FRAME);
    SampleIsOld(s.clock);
  }

  lemma SampleIsOld(t: nat)
    requires t >= 2
    ensures !After([NewEntry(SAMPLE, 2, 0.0)], t)
  {
    var entries := [NewEntry(SAMPLE, 2, 0.0)];
    assert entries[0] in entries && entries[0].window[0] in entries[0].window;
  }
}

/** The camera drop watcher: the events it raises over a whole run, and the bursts it prints. */
module Watcher {
  import opened Common

  datatype Kind = Drop | Frozen | Unfroze | Stall | Resume | Health

  /** `identical` counts identical frames (Frozen, Unfroze), `missed` lost ones (Drop). */
  datatype Event = Event(kind: Kind, now: real, frameN: nat, identical: nat, missed: int, gap: Option<real>)

  datatype Options = Options(nominal: real, gapThresh: real, frozenN: int, stallS: real, stdoutMinS: real)

  /** The watcher's options; the nominal time between two frames is positive. */
  type Settings = o: Options | o.nominal > 0.0 witness Options(1.0, 1.0, 1, 1.0, 1.0)

  /** The watcher's fields. `printed` are the bursts printed so far, each with what it covers. */
  datatype Fields = Fields(
    frames: nat, lastTs: Option<real>, lastArrival: Option<real>, lastDigest: Option<string>,
    sameRun: nat, frozenOpen: bool, stalled: bool, events: seq<Event>,
    lastStdout: real, pending: multiset<Kind>, printed: seq<multiset<Kind>>)

  // ---- the fields as each method leaves them ----------------------------------------

  function Flush(a: Settings, w: Fields, now: real, force: bool): Fields {
    if w.pending == multiset{} || (!force && now - w.lastStdout < a.stdoutMinS) then w
    else w.(printed := w.printed + [w.pending], pending := multiset{}, lastStdout := now)
  }

  function Raise(a: Settings, w: Fields, e: Event): Fields {
    var w1 := w.(events := w.events + [e], pending := w.pending + multiset{e.kind});
    if e.kind != Drop || e.now - w1.lastStdout >= a.stdoutMinS then Flush(a, w1, e.now, true) else w1
  }

  /** A time that was noted and is not zero, the test the source makes. */
  predicate Noted(t: Option<real>) {
    t.Some? && t.value != 0.0
  }

  function ResumeEvent(w: Fields, now: real): Event {
    Event(Resume, now, w.frames, 0, 0, if Noted(w.lastArrival) then Some(now - w.lastArrival.value) else None)
  }

  /** A frame that ends a stall. */
  function AfterResume(a: Settings, w: Fields, now: real): Fields {
    if !w.stalled then w
    else Raise(a, w.(stalled := false), ResumeEvent(w, now))
  }

  function MissedFrames(a: Settings, gap: real): int
  {
    MaxInt(0, RoundHalfEven(gap / a.nominal) - 1)
  }

  function AfterGap(a: Settings, w: Fields, now: real, ts: real): Fields
  {
    if w.lastTs.Some? && ts - w.lastTs.value > a.gapThresh
    then Raise(a, w, Event(Drop, now, w.frames, 0, MissedFrames(a, ts - w.lastTs.value), Some(ts - w.lastTs.value)))
    else w
  }

  function AfterContent(a: Settings, w: Fields, now: real, d: string): Fields {
    if w.lastDigest == Some(d) then
      var w1 := w.(sameRun := w.sameRun + 1);
      if w1.sameRun >= a.frozenN && !w1.frozenOpen
      then Raise(a, w1.(frozenOpen := true), Event(Frozen, now, w.frames, w1.sameRun + 1, 0, None))
      else w1
    else
      var w1 := if w.frozenOpen
                then Raise(a, w.(frozenOpen := false), Event(Unfroze, now, w.frames, w.sameRun + 1, 0, None))
                else w;
      w1.(sameRun := 0, lastDigest := Some(d))
  }

  /** What reaches the watcher: a frame (its content may be absent), a poll, or a health
      message, `changed` saying whether it differs from the previous one in a way that counts. */
  datatype Input =
    | Frame(now: real, ts: real, digest: Option<string>)
    | Tick(now: real)
    | HealthMessage(now: real, changed: bool)

  function FrameStep(a: Settings, w: Fields, now: real, ts: real, digest: Option<string>): Fields
  {
    var w1 := AfterResume(a, w.(frames := w.frames + 1), now);
    var w2 := AfterGap(a, w1, now, ts);
    var w3 := if digest.Some? then AfterContent(a, w2, now, digest.value) else w2;
    w3.(lastTs := Some(ts), lastArrival := Some(now))
  }

  function TickStep(a: Settings, w: Fields, now: real): Fields {
    var w1 := if Noted(w.lastArrival) && !w.stalled && now - w.lastArrival.value > a.stallS
              then Raise(a, w.(stalled := true), Event(Stall, now, w.frames, 0, 0, Some(now - w.lastArrival.value)))
              else w;
    Flush(a, w1, now, false)
  }

  function Step(a: Settings, w: Fields, i: Input): Fields
  {
    match i
    case Frame(now, ts, digest) => FrameStep(a, w, now, ts, digest)
    case Tick(now) => TickStep(a, w, now)
    case HealthMessage(now, changed) => if changed then Raise(a, w, Event(Health, now, w.frames, 0, 0, None)) else w
  }

  function Run(a: Settings, w: Fields, inputs: seq<Input>): Fields
  {
    if inputs == [] then w else Step(a, Run(a, w, inputs[..|inputs| - 1]), inputs[|inputs| - 1])
  }

  const START := Fields(0, None, None, None, 0, false, false, [], 0.0, multiset{}, [])

  // ---- the object itself ------------------------------------------------------------

  class Watcher {
    const a: Settings
    var frames: nat
    var lastTs: Option<real>
    var lastArrival: Option<real>
    var lastDigest: Option<string>
    var sameRun: nat
    var frozenOpen: bool
    var stalled: bool
    var events: seq<Event>
    var lastStdout: real
    var pending: multiset<Kind>
    var printed: seq<multiset<Kind>>

    ghost function View(): Fields
      reads this
    {
      Fields(frames, lastTs, lastArrival, lastDigest, sameRun, frozenOpen, stalled, events, lastStdout, pending,
             printed)
    }

    constructor (a: Settings)
      ensures View() == START && this.a == a
    {
      this.a := a;
      frames, lastTs, lastArrival, lastDigest := 0, None, None, None;
      sameRun, frozenOpen, stalled, events := 0, false, false, [];
      lastStdout, pending, printed := 0.0, multiset{}, [];
    }

    method FlushPending(now: real, force: bool)
      modifies this
      ensures View() == Flush(a, old(View()), now, force)
    {
      if pending == multiset{} || (!force && now - lastStdout < a.stdoutMinS) {
        return;
      }
      printed := printed + [pending];
      pending := multiset{};
      lastStdout := now;
    }

    method RaiseEvent(e: Event)
      modifies this
      ensures View() == Raise(a, old(View()), e)
      ensures lastDigest == old(lastDigest)
    {
      events := events + [e];
      pending := pending + multiset{e.kind};
      if e.kind != Drop || e.now - lastStdout >= a.stdoutMinS {
        FlushPending(e.now, true);
      }
    }

    method EndStall(now: real)
      modifies this
      ensures View() == AfterResume(a, old(View()), now)
    {
      hide Raise;
      if stalled {
        stalled := false;
        RaiseEvent(Event(Resume, now, frames, 0, 0,
                         if Noted(lastArrival) then Some(now - lastArrival.value) else None));
      }
    }

    method CheckGap(now: real, ts: real)
      modifies this
      ensures View() == AfterGap(a, old(View()), now, ts)
    {
      hide Raise, RoundHalfEven, MaxInt;
      if lastTs.Some? {
        var gap := ts - lastTs.value;
        if gap > a.gapThresh {
          var missed := MissedFrames(a, gap);
          RaiseEvent(Event(Drop, now, frames, 0, missed, Some(gap)));
        }
      }
    }

    method CheckContent(now: real, digest: string)
      modifies this
      ensures View() == AfterContent(a, old(View()), now, digest)
    {
      hide Raise;
      if Some(digest) == lastDigest {
        sameRun := sameRun + 1;
        if sameRun >= a.frozenN && !frozenOpen {
          frozenOpen := true;
          RaiseEvent(Event(Frozen, now, frames, sameRun + 1, 0, None));
        }
      } else {
        if frozenOpen {
          frozenOpen := false;
          RaiseEvent(Event(Unfroze, now, frames, sameRun + 1, 0, None));
        }
        sameRun := 0;
      }
      lastDigest := Some(digest);
    }

    method CheckFrame(now: real, ts: real, digest: Option<string>)
      modifies this
      ensures var w := AfterGap(a, AfterResume(a, old(View()), now), now, ts);
        View() == if digest.Some? then AfterContent(a, w, now, digest.value) else w
    {
      hide AfterResume, AfterGap, AfterContent;
      EndStall(now);
      CheckGap(now, ts);
      if digest.Some? {
        CheckContent(now, digest.value);
      }
    }

    method OnFrame(now: real, ts: real, digest: Option<string>)
      modifies this
      ensures View() == FrameStep(a, old(View()), now, ts, digest)
    {
      hide AfterResume, AfterGap, AfterContent;
      frames := frames + 1;
      CheckFrame(now, ts, digest);
      lastTs := Some(ts);
      lastArrival := Some(now);
    }

    method OnTick(now: real)
      modifies this
      ensures View() == TickStep(a, old(View()), now)
    {
      hide Raise, Flush;
      if Noted(lastArrival) && !stalled && now - lastArrival.value > a.stallS {
        stalled := true;
        RaiseEvent(Event(Stall, now, frames, 0, 0, Some(now - lastArrival.value)));
      }
      FlushPending(now, false);
    }

    method OnHealth(now: real, changed: bool)
      modifies this
      ensures View() == if changed then Raise(a, old(View()), Event(Health, now, old(frames), 0, 0, None))
                        else old(View())
    {
      if changed {
        RaiseEvent(Event(Health, now, frames, 0, 0, None));
      }
    }

    method Watch(inputs: seq<Input>)
      modifies this
      ensures View() == Run(a, old(View()), inputs)
    {
      for i := 0 to |inputs|
        invariant View() == Run(a, old(View()), inputs[..i])
      {
        assert inputs[..i + 1][..i] == inputs[..i];
        match inputs[i] {
          case Frame(now, ts, digest) => OnFrame(now, ts, digest);
          case Tick(now) => OnTick(now);
          case HealthMessage(now, changed) => OnHealth(now, changed);
        }
      }
      assert inputs[..|inputs|] == inputs;
    }
  }

  // ---- bursts -----------------------------------------------------------------------

  ghost function KindsOf(events: seq<Event>): multiset<Kind> {
    if events == [] then multiset{} else KindsOf(events[..|events| - 1]) + multiset{events[|events| - 1].kind}
  }

  ghost function AllPrinted(printed: seq<multiset<Kind>>): multiset<Kind> {
    if printed == [] then multiset{} else AllPrinted(printed[..|printed| - 1]) + printed[|printed| - 1]
  }

  /** Every event is in exactly one printed burst or still pending, and only drops wait. */
  ghost predicate Accounted(w: Fields) {
    && AllPrinted(w.printed) + w.pending == KindsOf(w.events)
    && (forall k :: k in w.pending ==> k == Drop)
    && (forall b :: b in w.printed ==> b != multiset{})
  }

  lemma FlushAccounted(a: Settings, w: Fields, now: real, force: bool)
    requires Accounted(w)
    ensures Accounted(Flush(a, w, now, force))
  {
    PrintedOneMore(w.printed, w.pending);
  }

  lemma PrintedOneMore(printed: seq<multiset<Kind>>, b: multiset<Kind>)
    ensures AllPrinted(printed + [b]) == AllPrinted(printed) + b
  {
    assert (printed + [b])[..|printed|] == printed;
  }

  lemma KindsOneMore(events: seq<Event>, e: Event)
    ensures KindsOf(events + [e]) == KindsOf(events) + multiset{e.kind}
  {
    assert (events + [e])[..|events|] == events;
  }

  /** After any event what is pending holds drops only. */
  lemma RaiseAccounted(a: Settings, w: Fields, e: Event)
    requires Accounted(w)
    ensures Accounted(Raise(a, w, e))
  {
    hide AllPrinted, KindsOf;
    var pending := w.pending + multiset{e.kind};
    KindsOneMore(w.events, e);
    PrintedOneMore(w.printed, pending);
    assert pending != multiset{} by { assert e.kind in pending; }
    assert AllPrinted(w.printed) + pending == KindsOf(w.events + [e]);
    assert AllPrinted(w.printed + [pending]) + multiset{} == KindsOf(w.events + [e]);
  }

  lemma FrameAccounted(a: Settings, w: Fields, now: real, ts: real, digest: Option<string>)
    requires Accounted(w)
    ensures Accounted(FrameStep(a, w, now, ts, digest))
  {
    hide AfterResume, AfterGap, AfterContent, AllPrinted, KindsOf;
    var w0 := w.(frames := w.frames + 1);
    var w1 := AfterResume(a, w0, now);
    var w2 := AfterGap(a, w1, now, ts);
    ResumeAccounted(a, w0, now);
    GapAccounted(a, w1, now, ts);
    if digest.Some? {
      ContentAccounted(a, w2, now, digest.value);
    }
  }

  lemma ResumeAccounted(a: Settings, w: Fields, now: real)
    requires Accounted(w)
    ensures Accounted(AfterResume(a, w, now))
  {
    hide Raise, AllPrinted, KindsOf;
    if w.stalled {
      RaiseAccounted(a, w.(stalled := false), ResumeEvent(w, now));
    }
  }

  lemma GapAccounted(a: Settings, w: Fields, now: real, ts: real)
    requires Accounted(w)
    ensures Accounted(AfterGap(a, w, now, ts))
  {
    hide Raise, AllPrinted, KindsOf, MissedFrames;
    if w.lastTs.Some? && ts - w.lastTs.value > a.gapThresh {
      var gap := ts - w.lastTs.value;
      RaiseAccounted(a, w, Event(Drop, now, w.frames, 0, MissedFrames(a, gap), Some(gap)));
    }
  }

  lemma ContentAccounted(a: Settings, w: Fields, now: real, d: string)
    requires Accounted(w)
    ensures Accounted(AfterContent(a, w, now, d))
  {
    hide Raise, AllPrinted, KindsOf;
    if w.lastDigest == Some(d) {
      RaiseAccounted(a, w.(sameRun := w.sameRun + 1, frozenOpen := true),
                     Event(Frozen, now, w.frames, w.sameRun + 2, 0, None));
    } else {
      RaiseAccounted(a, w.(frozenOpen := false), Event(Unfroze, now, w.frames, w.sameRun + 1, 0, None));
    }
  }

  lemma TickAccounted(a: Settings, w: Fields, now: real)
    requires Accounted(w)
    ensures Accounted(TickStep(a, w, now))
  {
    hide Raise, Flush, AllPrinted, KindsOf;
    if Noted(w.lastArrival) && !w.stalled && now - w.lastArrival.value > a.stallS {
      var e := Event(Stall, now, w.frames, 0, 0, Some(now - w.lastArrival.value));
      RaiseAccounted(a, w.(stalled := true), e);
      FlushAccounted(a, Raise(a, w.(stalled := true), e), now, false);
    } else {
      FlushAccounted(a, w, now, false);
    }
  }

  lemma StepAccounted(a: Settings, w: Fields, i: Input)
    requires Accounted(w)
    ensures Accounted(Step(a, w, i))
  {
    hide Raise, FrameStep, TickStep, Accounted;
    match i
    case Frame(now, ts, digest) => FrameAccounted(a, w, now, ts, digest);
    case Tick(now) => TickAccounted(a, w, now);
    case HealthMessage(now, changed) => RaiseAccounted(a, w, Event(Health, now, w.frames, 0, 0, None));
  }

  lemma {:induction false} RunAccounted(a: Settings, inputs: seq<Input>)
    ensures Accounted(Run(a, START, inputs))
  {
    if inputs != [] {
      RunAccounted(a, inputs[..|inputs| - 1]);
      StepAccounted(a, Run(a, START, inputs[..|inputs| - 1]), inputs[|inputs| - 1]);
    }
  }

  // ---- frozen stretches -------------------------------------------------------------

  /** The contents the watcher compared, in order. */
  ghost function Digests(inputs: seq<Input>): seq<string> {
    if inputs == [] then []
    else
      var i := inputs[|inputs| - 1];
      Digests(inputs[..|inputs| - 1]) + if i.Frame? && i.digest.Some? then [i.digest.value] else []
  }

  /** The lengths after one more content: the last one grows, or a new one starts. */
  ghost function GrowLast(lengths: seq<nat>, same: bool): (r: seq<nat>)
    ensures r != []
    ensures (forall k :: 0 <= k < |lengths| ==> lengths[k] >= 1) ==> forall k :: 0 <= k < |r| ==> r[k] >= 1
  {
    if same && lengths != [] then lengths[..|lengths| - 1] + [lengths[|lengths| - 1] + 1] else lengths + [1]
  }

  /** Lengths of the maximal stretches of equal contents. */
  ghost function Stretches(ds: seq<string>): (r: seq<nat>)
    ensures (r == [] <==> ds == []) && forall k :: 0 <= k < |r| ==> r[k] >= 1
  {
    if ds == [] then []
    else GrowLast(Stretches(ds[..|ds| - 1]), |ds| >= 2 && ds[|ds| - 2] == ds[|ds| - 1])
  }

  datatype Mark = Mark(frozen: bool, identical: nat)

  /** The Frozen and Unfroze events, with the frame count each reports. */
  ghost function Marks(events: seq<Event>): seq<Mark> {
    if events == [] then []
    else
      var e := events[|events| - 1];
      Marks(events[..|events| - 1]) +
      if e.kind == Frozen || e.kind == Unfroze then [Mark(e.kind == Frozen, e.identical)] else []
  }

  /** A stretch longer than the threshold is announced when it passes it. */
  ghost function Opened(length: nat, threshold: nat): seq<Mark> {
    if length > threshold then [Mark(true, threshold + 1)] else []
  }

  /** Such a stretch is closed with its exact length. */
  ghost function Closed(length: nat, threshold: nat): seq<Mark> {
    if length > threshold then [Mark(true, threshold + 1), Mark(false, length)] else []
  }

  ghost function ClosedAll(lengths: seq<nat>, threshold: nat): seq<Mark> {
    if lengths == [] then []
    else ClosedAll(lengths[..|lengths| - 1], threshold) + Closed(lengths[|lengths| - 1], threshold)
  }

  /** What should have been reported: every stretch but the last is over. */
  ghost function ExpectedMarks(lengths: seq<nat>, threshold: nat): seq<Mark> {
    if lengths == [] then []
    else ClosedAll(lengths[..|lengths| - 1], threshold) + Opened(lengths[|lengths| - 1], threshold)
  }

  /** Identical frames needed before a stretch counts; at least one repeat. */
  ghost function Threshold(a: Settings): nat {
    MaxInt(a.frozenN, 1)
  }

  ghost function LastLength(ds: seq<string>): nat {
    if ds == [] then 1 else Stretches(ds)[|Stretches(ds)| - 1]
  }

  ghost predicate FrozenInv(a: Settings, w: Fields, ds: seq<string>) {
    && w.lastDigest == (if ds == [] then None else Some(ds[|ds| - 1]))
    && w.sameRun + 1 == LastLength(ds)
    && (w.frozenOpen <==> LastLength(ds) > Threshold(a))
    && Marks(w.events) == ExpectedMarks(Stretches(ds), Threshold(a))
  }

  /** What an event leaves of the bookkeeping on frozen stretches and stalls. */
  ghost predicate SameBook(w: Fields, n: Fields) {
    && n.lastDigest == w.lastDigest && n.sameRun == w.sameRun && n.frozenOpen == w.frozenOpen && n.stalled == w.stalled
  }

  lemma RaiseKeepsBook(a: Settings, w: Fields, e: Event)
    ensures SameBook(w, Raise(a, w, e)) && Raise(a, w, e).events == w.events + [e]
    ensures Raise(a, w, e).frames == w.frames && Raise(a, w, e).lastTs == w.lastTs
    ensures Raise(a, w, e).lastArrival == w.lastArrival
  {
  }

  lemma MarksOneMore(events: seq<Event>, e: Event)
    ensures Marks(events + [e]) == Marks(events)
              + if e.kind == Frozen || e.kind == Unfroze then [Mark(e.kind == Frozen, e.identical)] else []
  {
    assert (events + [e])[..|events|] == events;
  }

  /** Events of another kind are nothing to the frozen-stretch bookkeeping. */
  lemma RaiseKeepsFrozen(a: Settings, w: Fields, e: Event, ds: seq<string>)
    requires FrozenInv(a, w, ds) && e.kind != Frozen && e.kind != Unfroze
    ensures FrozenInv(a, Raise(a, w, e), ds)
  {
    RaiseKeepsBook(a, w, e);
    MarksOneMore(w.events, e);
    hide Raise, Marks, ExpectedMarks, LastLength;
  }

  lemma ResumeKeepsFrozen(a: Settings, w: Fields, now: real, ds: seq<string>)
    requires FrozenInv(a, w, ds)
    ensures FrozenInv(a, AfterResume(a, w, now), ds)
  {
    hide Raise, Marks, ExpectedMarks, LastLength;
    if w.stalled {
      RaiseKeepsFrozen(a, w.(stalled := false), ResumeEvent(w, now), ds);
    }
  }

  lemma GapKeepsFrozen(a: Settings, w: Fields, now: real, ts: real, ds: seq<string>)
    requires FrozenInv(a, w, ds)
    ensures FrozenInv(a, AfterGap(a, w, now, ts), ds)
  {
    hide Raise, Marks, ExpectedMarks, LastLength, MissedFrames;
    if w.lastTs.Some? && ts - w.lastTs.value > a.gapThresh {
      var gap := ts - w.lastTs.value;
      RaiseKeepsFrozen(a, w, Event(Drop, now, w.frames, 0, MissedFrames(a, gap), Some(gap)), ds);
    }
  }

  lemma TickKeepsFrozen(a: Settings, w: Fields, now: real, ds: seq<string>)
    requires FrozenInv(a, w, ds)
    ensures FrozenInv(a, TickStep(a, w, now), ds)
  {
    hide Raise, Marks, ExpectedMarks, LastLength;
    if Noted(w.lastArrival) && !w.stalled && now - w.lastArrival.value > a.stallS {
      RaiseKeepsFrozen(a, w.(stalled := true), Event(Stall, now, w.frames, 0, 0, Some(now - w.lastArrival.value)), ds);
    }
  }

  lemma StretchesOneMore(ds: seq<string>, d: string)
    ensures Stretches(ds + [d]) == GrowLast(Stretches(ds), ds != [] && ds[|ds| - 1] == d)
  {
    var all := ds + [d];
    assert all[..|all| - 1] == ds && all[|all| - 1] == d;
    assert ds != [] ==> all[|all| - 2] == ds[|ds| - 1];
  }

  /** What one more content adds to the report. */
  lemma GrowMarks(lengths: seq<nat>, same: bool, threshold: nat)
    requires threshold >= 1 && (same ==> lengths != [])
    ensures ExpectedMarks(GrowLast(lengths, same), threshold)
            == ExpectedMarks(lengths, threshold) +
               if lengths == [] then []
               else
                 var last := lengths[|lengths| - 1];
                 if same then (if last == threshold then [Mark(true, threshold + 1)] else [])
                 else if last > threshold then [Mark(false, last)] else []
  {
    var grown := GrowLast(lengths, same);
    if same {
      assert grown[..|grown| - 1] == lengths[..|lengths| - 1];
    } else {
      assert grown[..|grown| - 1] == lengths;
    }
  }

  lemma ContentKeepsFrozen(a: Settings, w: Fields, now: real, d: string, ds: seq<string>)
    requires FrozenInv(a, w, ds)
    ensures FrozenInv(a, AfterContent(a, w, now, d), ds + [d])
  {
    hide Raise, Marks, ExpectedMarks, Stretches;
    StretchesOneMore(ds, d);
    GrowMarks(Stretches(ds), ds != [] && ds[|ds| - 1] == d, Threshold(a));
    if w.lastDigest == Some(d) {
      var w1, e := w.(sameRun := w.sameRun + 1, frozenOpen := true),
                   Event(Frozen, now, w.frames, w.sameRun + 2, 0, None);
      RaiseKeepsBook(a, w1, e);
      MarksOneMore(w.events, e);
    } else {
      var w1, e := w.(frozenOpen := false), Event(Unfroze, now, w.frames, w.sameRun + 1, 0, None);
      RaiseKeepsBook(a, w1, e);
      MarksOneMore(w.events, e);
    }
  }

  lemma StepKeepsFrozen(a: Settings, w: Fields, i: Input, ds: seq<string>)
    requires FrozenInv(a, w, ds)
    ensures FrozenInv(a, Step(a, w, i), ds + if i.Frame? && i.digest.Some? then [i.digest.value] else [])
  {
    hide Raise, AfterResume, AfterGap, AfterContent, TickStep, Marks, ExpectedMarks, LastLength, Stretches;
    assert ds + [] == ds;
    match i
    case Frame(now, ts, digest) =>
      var w0 := w.(frames := w.frames + 1);
      assert FrozenInv(a, w0, ds);
      var w1 := AfterResume(a, w0, now);
      var w2 := AfterGap(a, w1, now, ts);
      ResumeKeepsFrozen(a, w0, now, ds);
      GapKeepsFrozen(a, w1, now, ts, ds);
      if digest.Some? {
        ContentKeepsFrozen(a, w2, now, digest.value, ds);
      }
    case Tick(now) => TickKeepsFrozen(a, w, now, ds);
    case HealthMessage(now, changed) => RaiseKeepsFrozen(a, w, Event(Health, now, w.frames, 0, 0, None), ds);
  }

  /** Over any run the Frozen and Unfroze events are exactly those of the maximal stretches of
      identical contents longer than the threshold, in order, each closed with its exact
      length; only the last may still be open. */
  lemma {:induction false} FrozenMatchesStretches(a: Settings, inputs: seq<Input>)
    ensures FrozenInv(a, Run(a, START, inputs), Digests(inputs))
  {
    if inputs != [] {
      FrozenMatchesStretches(a, inputs[..|inputs| - 1]);
      StepKeepsFrozen(a, Run(a, START, inputs[..|inputs| - 1]), inputs[|inputs| - 1], Digests(inputs[..|inputs| - 1]));
    }
  }

  ghost predicate Alternating(marks: seq<Mark>) {
    forall k :: 0 <= k < |marks| ==> (marks[k].frozen <==> k % 2 == 0)
  }

  lemma {:induction false} ClosedAllAlternates(lengths: seq<nat>, threshold: nat)
    ensures Alternating(ClosedAll(lengths, threshold)) && |ClosedAll(lengths, threshold)| % 2 == 0
  {
    if lengths != [] {
      ClosedAllAlternates(lengths[..|lengths| - 1], threshold);
    }
  }

  /** Frozen and Unfroze strictly alternate, Frozen first. */
  lemma FrozenAlternates(a: Settings, inputs: seq<Input>)
    ensures Alternating(Marks(Run(a, START, inputs).events))
  {
    hide Run, Stretches, Marks, Digests;
    FrozenMatchesStretches(a, inputs);
    var lengths := Stretches(Digests(inputs));
    if lengths != [] {
      ClosedAllAlternates(lengths[..|lengths| - 1], Threshold(a));
    }
  }

  // ---- stalls -----------------------------------------------------------------------

  /** The Stall (true) and Resume (false) events, in order. */
  ghost function Stalls(events: seq<Event>): seq<bool> {
    if events == [] then []
    else
      var e := events[|events| - 1];
      Stalls(events[..|events| - 1]) + if e.kind == Stall then [true] else if e.kind == Resume then [false] else []
  }

  /** They alternate, Stall first, and the flag tells whether the last one is open. */
  ghost predicate StallInv(w: Fields) {
    && (forall k :: 0 <= k < |Stalls(w.events)| ==> (Stalls(w.events)[k] <==> k % 2 == 0))
    && (w.stalled <==> |Stalls(w.events)| % 2 == 1)
  }

  lemma StallsOneMore(events: seq<Event>, e: Event)
    ensures Stalls(events + [e])
            == Stalls(events) + if e.kind == Stall then [true] else if e.kind == Resume then [false] else []
  {
    assert (events + [e])[..|events|] == events;
  }

  /** An event that fits the flag: a stall when there is none, a resume when there is one, or
      anything else with the flag left alone. */
  lemma RaiseKeepsStalls(a: Settings, w: Fields, e: Event, flag: bool)
    requires StallInv(w)
    requires e.kind == Stall ==> !w.stalled && flag
    requires e.kind == Resume ==> w.stalled && !flag
    requires e.kind != Stall && e.kind != Resume ==> flag == w.stalled
    ensures StallInv(Raise(a, w.(stalled := flag), e))
  {
    RaiseKeepsBook(a, w.(stalled := flag), e);
    StallsOneMore(w.events, e);
    hide Raise, Stalls;
  }

  lemma FrameKeepsStalls(a: Settings, w: Fields, now: real, ts: real, digest: Option<string>)
    requires StallInv(w)
    ensures StallInv(FrameStep(a, w, now, ts, digest))
  {
    hide AfterResume, AfterGap, AfterContent, Stalls;
    var w0 := w.(frames := w.frames + 1);
    var w1 := AfterResume(a, w0, now);
    var w2 := AfterGap(a, w1, now, ts);
    ResumeKeepsStalls(a, w0, now);
    GapKeepsStalls(a, w1, now, ts);
    if digest.Some? {
      ContentKeepsStalls(a, w2, now, digest.value);
    }
  }

  lemma ResumeKeepsStalls(a: Settings, w: Fields, now: real)
    requires StallInv(w)
    ensures StallInv(AfterResume(a, w, now))
  {
    hide Raise, Stalls;
    if w.stalled {
      RaiseKeepsStalls(a, w, ResumeEvent(w, now), false);
    }
  }

  lemma GapKeepsStalls(a: Settings, w: Fields, now: real, ts: real)
    requires StallInv(w)
    ensures StallInv(AfterGap(a, w, now, ts))
  {
    hide Raise, Stalls, MissedFrames;
    if w.lastTs.Some? && ts - w.lastTs.value > a.gapThresh {
      var gap := ts - w.lastTs.value;
      assert w.(stalled := w.stalled) == w;
      RaiseKeepsStalls(a, w, Event(Drop, now, w.frames, 0, MissedFrames(a, gap), Some(gap)), w.stalled);
    }
  }

  lemma ContentKeepsStalls(a: Settings, w: Fields, now: real, d: string)
    requires StallInv(w)
    ensures StallInv(AfterContent(a, w, now, d))
  {
    hide Raise, Stalls;
    var same, new' := w.(sameRun := w.sameRun + 1, frozenOpen := true), w.(frozenOpen := false);
    assert same.(stalled := same.stalled) == same && new'.(stalled := new'.stalled) == new';
    RaiseKeepsStalls(a, same, Event(Frozen, now, w.frames, w.sameRun + 2, 0, None), same.stalled);
    RaiseKeepsStalls(a, new', Event(Unfroze, now, w.frames, w.sameRun + 1, 0, None), new'.stalled);
  }

  lemma StepKeepsStalls(a: Settings, w: Fields, i: Input)
    requires StallInv(w)
    ensures StallInv(Step(a, w, i))
  {
    hide Raise, FrameStep, Stalls;
    match i
    case Frame(now, ts, digest) => FrameKeepsStalls(a, w, now, ts, digest);
    case Tick(now) =>
      if Noted(w.lastArrival) && !w.stalled && now - w.lastArrival.value > a.stallS {
        RaiseKeepsStalls(a, w, Event(Stall, now, w.frames, 0, 0, Some(now - w.lastArrival.value)), true);
      }
    case HealthMessage(now, changed) =>
      assert w.(stalled := w.stalled) == w;
      RaiseKeepsStalls(a, w, Event(Health, now, w.frames, 0, 0, None), w.stalled);
  }

  lemma {:induction false} StallsAlternate(a: Settings, inputs: seq<Input>)
    ensures StallInv(Run(a, START, inputs))
  {
    if inputs != [] {
      StallsAlternate(a, inputs[..|inputs| - 1]);
      StepKeepsStalls(a, Run(a, START, inputs[..|inputs| - 1]), inputs[|inputs| - 1]);
    }
  }

  // ---- silences ---------------------------------------------------------------------

  /** One report on a silence: its start or its end, when, and how long it had lasted. */
  datatype Silence = Silence(begins: bool, now: real, lasted: real)

  ghost function SilenceOf(events: seq<Event>): seq<Silence> {
    if events == [] then []
    else
      var e := events[|events| - 1];
      SilenceOf(events[..|events| - 1]) +
      if e.kind == Stall || e.kind == Resume
      then [Silence(e.kind == Stall, e.now, if e.gap.Some? then e.gap.value else 0.0)] else []
  }

  /** Position of the last frame, or -1. */
  ghost function LastFrame(inputs: seq<Input>): (f: int)
    ensures -1 <= f < |inputs| && (f >= 0 ==> inputs[f].Frame?)
  {
    if inputs == [] then -1
    else if inputs[|inputs| - 1].Frame? then |inputs| - 1
    else LastFrame(inputs[..|inputs| - 1])
  }

  /** Input `i` is a poll that comes too long after the last frame before it. */
  ghost predicate Overdue(a: Settings, inputs: seq<Input>, i: nat)
    requires i < |inputs|
  {
    var f := LastFrame(inputs[..i]);
    inputs[i].Tick? && f >= 0 && inputs[f].now != 0.0 && inputs[i].now - inputs[f].now > a.stallS
  }

  /** Some poll since the last frame was overdue. */
  ghost predicate Silent(a: Settings, inputs: seq<Input>) {
    exists i :: LastFrame(inputs) < i < |inputs| && Overdue(a, inputs, i)
  }

  /** What should be reported: a silence begins at the first overdue poll after a frame, and
      ends at the next frame. */
  ghost function Silences(a: Settings, inputs: seq<Input>): seq<Silence> {
    if inputs == [] then []
    else
      var before, i := inputs[..|inputs| - 1], inputs[|inputs| - 1];
      var f := LastFrame(before);
      Silences(a, before) +
      if f >= 0 && Overdue(a, inputs, |inputs| - 1) && !Silent(a, before)
      then [Silence(true, i.now, i.now - before[f].now)]
      else if f >= 0 && i.Frame? && Silent(a, before) then [Silence(false, i.now, i.now - before[f].now)]
      else []
  }

  lemma SilentNext(a: Settings, before: seq<Input>, i: Input)
    ensures var inputs := before + [i];
      && LastFrame(inputs) == (if i.Frame? then |before| else LastFrame(before))
      && (Silent(a, inputs) <==> !i.Frame? && (Silent(a, before) || Overdue(a, inputs, |before|)))
  {
    var inputs := before + [i];
    assert inputs[..|before|] == before;
    if !i.Frame? {
      forall j | 0 <= j < |before| ensures Overdue(a, inputs, j) <==> Overdue(a, before, j) {
        assert inputs[..j] == before[..j];
      }
    }
  }

  /** A silence is one after some frame. */
  lemma {:induction false} SilentAfterFrame(a: Settings, inputs: seq<Input>)
    ensures Silent(a, inputs) ==> LastFrame(inputs) >= 0 && inputs[LastFrame(inputs)].now != 0.0
  {
    if inputs != [] {
      var before, i := inputs[..|inputs| - 1], inputs[|inputs| - 1];
      assert inputs == before + [i];
      SilentAfterFrame(a, before);
      SilentNext(a, before, i);
    }
  }

  ghost predicate SilenceInv(a: Settings, w: Fields, inputs: seq<Input>) {
    && w.lastArrival == (if LastFrame(inputs) < 0 then None else Some(inputs[LastFrame(inputs)].now))
    && (w.stalled <==> Silent(a, inputs))
    && SilenceOf(w.events) == Silences(a, inputs)
  }

  lemma SilenceOneMore(events: seq<Event>, e: Event)
    ensures SilenceOf(events + [e]) == SilenceOf(events)
              + if e.kind == Stall || e.kind == Resume
                then [Silence(e.kind == Stall, e.now, if e.gap.Some? then e.gap.value else 0.0)] else []
  {
    assert (events + [e])[..|events|] == events;
  }

  ghost predicate SameSilence(w: Fields, n: Fields) {
    n.stalled == w.stalled && n.lastArrival == w.lastArrival && SilenceOf(n.events) == SilenceOf(w.events)
  }

  lemma RaiseKeepsSilence(a: Settings, w: Fields, e: Event)
    requires e.kind != Stall && e.kind != Resume
    ensures SameSilence(w, Raise(a, w, e))
  {
    hide SilenceOf;
    RaiseKeepsBook(a, w, e);
    SilenceOneMore(w.events, e);
  }

  lemma ResumeEndsSilence(a: Settings, w: Fields, now: real)
    requires w.stalled ==> Noted(w.lastArrival)
    ensures var n := AfterResume(a, w, now);
      && !n.stalled && n.lastArrival == w.lastArrival
      && SilenceOf(n.events)
         == SilenceOf(w.events) + if w.stalled then [Silence(false, now, now - w.lastArrival.value)] else []
  {
    hide Raise, SilenceOf;
    if w.stalled {
      var e := Event(Resume, now, w.frames, 0, 0, Some(now - w.lastArrival.value));
      RaiseKeepsBook(a, w.(stalled := false), e);
      SilenceOneMore(w.events, e);
    }
  }

  lemma GapKeepsSilence(a: Settings, w: Fields, now: real, ts: real)
    ensures SameSilence(w, AfterGap(a, w, now, ts))
  {
    hide Raise, SilenceOf, MissedFrames;
    if w.lastTs.Some? && ts - w.lastTs.value > a.gapThresh {
      RaiseKeepsSilence(a, w, Event(Drop, now, w.frames, 0, MissedFrames(a, ts - w.lastTs.value),
                                    Some(ts - w.lastTs.value)));
    }
  }

  lemma ContentKeepsSilence(a: Settings, w: Fields, now: real, d: string)
    ensures SameSilence(w, AfterContent(a, w, now, d))
  {
    hide Raise, SilenceOf;
    RaiseKeepsSilence(a, w.(sameRun := w.sameRun + 1, frozenOpen := true),
                      Event(Frozen, now, w.frames, w.sameRun + 2, 0, None));
    RaiseKeepsSilence(a, w.(frozenOpen := false), Event(Unfroze, now, w.frames, w.sameRun + 1, 0, None));
  }

  lemma FrameEndsSilence(a: Settings, w: Fields, now: real, ts: real, digest: Option<string>)
    requires (w.stalled ==> Noted(w.lastArrival))
    ensures var n := FrameStep(a, w, now, ts, digest);
      && !n.stalled && n.lastArrival == Some(now)
      && SilenceOf(n.events)
         == SilenceOf(w.events) + if w.stalled then [Silence(false, now, now - w.lastArrival.value)] else []
  {
    hide AfterResume, AfterGap, AfterContent, SilenceOf;
    var w0 := w.(frames := w.frames + 1);
    var w1 := AfterResume(a, w0, now);
    var w2 := AfterGap(a, w1, now, ts);
    ResumeEndsSilence(a, w0, now);
    GapKeepsSilence(a, w1, now, ts);
    if digest.Some? {
      ContentKeepsSilence(a, w2, now, digest.value);
    }
  }

  lemma TickBeginsSilence(a: Settings, w: Fields, now: real)
    ensures var n := TickStep(a, w, now);
            var overdue := Noted(w.lastArrival) && now - w.lastArrival.value > a.stallS;
      && n.lastArrival == w.lastArrival && n.stalled == (w.stalled || overdue)
      && SilenceOf(n.events)
         == SilenceOf(w.events) + if overdue && !w.stalled then [Silence(true, now, now - w.lastArrival.value)] else []
  {
    hide Raise, SilenceOf;
    if Noted(w.lastArrival) && !w.stalled && now - w.lastArrival.value > a.stallS {
      var e := Event(Stall, now, w.frames, 0, 0, Some(now - w.lastArrival.value));
      RaiseKeepsBook(a, w.(stalled := true), e);
      SilenceOneMore(w.events, e);
    }
  }

  lemma StepKeepsSilence(a: Settings, w: Fields, inputs: seq<Input>, i: Input)
    requires SilenceInv(a, w, inputs)
    ensures SilenceInv(a, Step(a, w, i), inputs + [i])
  {
    hide Raise, FrameStep, TickStep, SilenceOf, Silent, LastFrame;
    var all := inputs + [i];
    assert all[..|inputs|] == inputs;
    SilentNext(a, inputs, i);
    SilentAfterFrame(a, inputs);
    match i
    case Frame(now, ts, digest) => FrameEndsSilence(a, w, now, ts, digest);
    case Tick(now) => TickBeginsSilence(a, w, now);
    case HealthMessage(now, changed) => RaiseKeepsSilence(a, w, Event(Health, now, w.frames, 0, 0, None));
  }

  /** Over any run the stalls and resumes reported are exactly the silences: each begins at the
      first poll over the limit after a frame and ends at the next frame. */
  lemma {:induction false} StallsAreTheSilences(a: Settings, inputs: seq<Input>)
    ensures SilenceInv(a, Run(a, START, inputs), inputs)
  {
    if inputs != [] {
      var before, i := inputs[..|inputs| - 1], inputs[|inputs| - 1];
      StallsAreTheSilences(a, before);
      StepKeepsSilence(a, Run(a, START, before), before, i);
      assert inputs == before + [i];
    }
  }

  // ---- dropped frames ---------------------------------------------------------------

  /** One report of dropped frames: at which frame, how many are missing, over what gap. */
  datatype Loss = Loss(frameN: nat, missed: int, gap: real)

  ghost function DropLog(events: seq<Event>): seq<Loss> {
    if events == [] then []
    else
      var e := events[|events| - 1];
      DropLog(events[..|events| - 1]) +
      if e.kind == Drop then [Loss(e.frameN, e.missed, if e.gap.Some? then e.gap.value else 0.0)] else []
  }

  /** The stamps of the frames, in the order they came. */
  ghost function Stamps(inputs: seq<Input>): seq<real> {
    if inputs == [] then []
    else
      var i := inputs[|inputs| - 1];
      Stamps(inputs[..|inputs| - 1]) + if i.Frame? then [i.ts] else []
  }

  /** Every gap between neighbouring stamps that is over the threshold. */
  ghost function Gaps(a: Settings, ts: seq<real>): seq<Loss>
  {
    if |ts| < 2 then []
    else
      var gap := ts[|ts| - 1] - ts[|ts| - 2];
      Gaps(a, ts[..|ts| - 1]) + if gap > a.gapThresh then [Loss(|ts|, MissedFrames(a, gap), gap)] else []
  }

  ghost predicate DropInv(a: Settings, w: Fields, ts: seq<real>)
  {
    && w.frames == |ts| && w.lastTs == (if ts == [] then None else Some(ts[|ts| - 1]))
    && DropLog(w.events) == Gaps(a, ts)
  }

  lemma DropLogOneMore(events: seq<Event>, e: Event)
    ensures DropLog(events + [e]) == DropLog(events)
              + if e.kind == Drop then [Loss(e.frameN, e.missed, if e.gap.Some? then e.gap.value else 0.0)] else []
  {
    assert (events + [e])[..|events|] == events;
  }

  /** Same frames seen, same drops reported. */
  ghost predicate SameDrops(w: Fields, n: Fields) {
    n.frames == w.frames && n.lastTs == w.lastTs && DropLog(n.events) == DropLog(w.events)
  }

  lemma RaiseKeepsDrops(a: Settings, w: Fields, e: Event)
    requires e.kind != Drop
    ensures SameDrops(w, Raise(a, w, e))
  {
    hide DropLog;
    RaiseKeepsBook(a, w, e);
    DropLogOneMore(w.events, e);
  }

  lemma ResumeKeepsDrops(a: Settings, w: Fields, now: real)
    ensures SameDrops(w, AfterResume(a, w, now))
  {
    hide Raise, DropLog;
    if w.stalled {
      RaiseKeepsDrops(a, w.(stalled := false), ResumeEvent(w, now));
    }
  }

  lemma ContentKeepsDrops(a: Settings, w: Fields, now: real, d: string)
    ensures SameDrops(w, AfterContent(a, w, now, d))
  {
    hide Raise, DropLog;
    RaiseKeepsDrops(a, w.(sameRun := w.sameRun + 1, frozenOpen := true),
                    Event(Frozen, now, w.frames, w.sameRun + 2, 0, None));
    RaiseKeepsDrops(a, w.(frozenOpen := false), Event(Unfroze, now, w.frames, w.sameRun + 1, 0, None));
  }

  lemma TickKeepsDrops(a: Settings, w: Fields, now: real)
    ensures SameDrops(w, TickStep(a, w, now))
  {
    hide Raise, DropLog;
    if Noted(w.lastArrival) && !w.stalled && now - w.lastArrival.value > a.stallS {
      RaiseKeepsDrops(a, w.(stalled := true), Event(Stall, now, w.frames, 0, 0, Some(now - w.lastArrival.value)));
    }
  }

  /** The gap before a new frame is reported exactly when it is over the threshold. */
  lemma GapIsLogged(a: Settings, w: Fields, now: real, ts: real)
    ensures var n := AfterGap(a, w, now, ts);
      && n.frames == w.frames
      && DropLog(n.events) == DropLog(w.events) +
           if w.lastTs.Some? && ts - w.lastTs.value > a.gapThresh
           then [Loss(w.frames, MissedFrames(a, ts - w.lastTs.value), ts - w.lastTs.value)] else []
  {
    hide Raise, DropLog, MissedFrames;
    if w.lastTs.Some? && ts - w.lastTs.value > a.gapThresh {
      var e := Event(Drop, now, w.frames, 0, MissedFrames(a, ts - w.lastTs.value), Some(ts - w.lastTs.value));
      RaiseKeepsBook(a, w, e);
      DropLogOneMore(w.events, e);
    }
  }

  lemma FrameKeepsDrops(a: Settings, w: Fields, now: real, ts: real, digest: Option<string>, stamps: seq<real>)
    requires DropInv(a, w, stamps)
    ensures DropInv(a, FrameStep(a, w, now, ts, digest), stamps + [ts])
  {
    hide AfterResume, AfterGap, AfterContent, DropLog, MissedFrames;
    var w0 := w.(frames := w.frames + 1);
    var w1 := AfterResume(a, w0, now);
    var w2 := AfterGap(a, w1, now, ts);
    ResumeKeepsDrops(a, w0, now);
    GapIsLogged(a, w1, now, ts);
    if digest.Some? {
      ContentKeepsDrops(a, w2, now, digest.value);
    }
    assert (stamps + [ts])[..|stamps|] == stamps;
  }

  lemma StepKeepsDrops(a: Settings, w: Fields, i: Input, stamps: seq<real>)
    requires DropInv(a, w, stamps)
    ensures DropInv(a, Step(a, w, i), stamps + if i.Frame? then [i.ts] else [])
  {
    hide Raise, FrameStep, TickStep, DropLog, Gaps;
    assert stamps + [] == stamps;
    match i
    case Frame(now, ts, digest) => FrameKeepsDrops(a, w, now, ts, digest, stamps);
    case Tick(now) => TickKeepsDrops(a, w, now);
    case HealthMessage(now, changed) => RaiseKeepsDrops(a, w, Event(Health, now, w.frames, 0, 0, None));
  }

  /** Over any run the drops reported are exactly the gaps over the threshold between
      neighbouring frames, each at its frame and with its own length and count. */
  lemma {:induction false} DropsAreTheGaps(a: Settings, inputs: seq<Input>)
    ensures DropInv(a, Run(a, START, inputs), Stamps(inputs))
  {
    if inputs != [] {
      DropsAreTheGaps(a, inputs[..|inputs| - 1]);
      StepKeepsDrops(a, Run(a, START, inputs[..|inputs| - 1]), inputs[|inputs| - 1], Stamps(inputs[..|inputs| - 1]));
    }
  }

  /** The count is right as long as the frame after the gap is less than half a period off
      its place. */
  lemma LostFramesCounted(a: Settings, gap: real, m: nat)
    requires (m as real + 0.5) * a.nominal < gap < (m as real + 1.5) * a.nominal
    ensures MissedFrames(a, gap) == m
  {
    var q := gap / a.nominal;
    InPeriods(q, m as real + 0.5, m as real + 1.5, a.nominal, gap);
    NearestPeriod(q, m);
  }

  lemma InPeriods(q: real, lo: real, hi: real, p: real, gap: real)
    requires p > 0.0 && q == gap / p && lo * p < gap < hi * p
    ensures lo < q < hi
  {
    assert q * p == gap;
    if q <= lo {
      MulMonotone(q, lo, p);
    }
    if q >= hi {
      MulMonotone(hi, q, p);
    }
  }

  lemma NearestPeriod(q: real, m: nat)
    requires m as real + 0.5 < q < m as real + 1.5
    ensures RoundHalfEven(q) == m + 1
  {
  }

  // ---- health changes ---------------------------------------------------------------

  /** The times of the HEALTH events, in order. */
  ghost function HealthTimes(events: seq<Event>): seq<real> {
    if events == [] then []
    else
      var e := events[|events| - 1];
      HealthTimes(events[..|events| - 1]) + if e.kind == Health then [e.now] else []
  }

  /** The times at which a health message differed from the one before, in order. */
  ghost function ChangeTimes(inputs: seq<Input>): seq<real> {
    if inputs == [] then []
    else
      var i := inputs[|inputs| - 1];
      ChangeTimes(inputs[..|inputs| - 1]) + if i.HealthMessage? && i.changed then [i.now] else []
  }

  lemma RaiseHealth(a: Settings, w: Fields, e: Event)
    ensures HealthTimes(Raise(a, w, e).events) == HealthTimes(w.events) + if e.kind == Health then [e.now] else []
  {
    assert Raise(a, w, e).events == w.events + [e];
    assert (w.events + [e])[..|w.events|] == w.events;
  }

  lemma FrameHealth(a: Settings, w: Fields, now: real, ts: real, digest: Option<string>)
    ensures HealthTimes(FrameStep(a, w, now, ts, digest).events) == HealthTimes(w.events)
  {
    hide AfterResume, AfterGap, AfterContent, HealthTimes;
    var w0 := w.(frames := w.frames + 1);
    var w1 := AfterResume(a, w0, now);
    var w2 := AfterGap(a, w1, now, ts);
    ResumeHealth(a, w0, now);
    GapHealth(a, w1, now, ts);
    if digest.Some? {
      ContentHealth(a, w2, now, digest.value);
    }
  }

  lemma ResumeHealth(a: Settings, w: Fields, now: real)
    ensures HealthTimes(AfterResume(a, w, now).events) == HealthTimes(w.events)
  {
    hide Raise, HealthTimes;
    if w.stalled {
      RaiseHealth(a, w.(stalled := false), ResumeEvent(w, now));
    }
  }

  lemma GapHealth(a: Settings, w: Fields, now: real, ts: real)
    ensures HealthTimes(AfterGap(a, w, now, ts).events) == HealthTimes(w.events)
  {
    hide Raise, HealthTimes, MissedFrames;
    if w.lastTs.Some? && ts - w.lastTs.value > a.gapThresh {
      RaiseHealth(a, w, Event(Drop, now, w.frames, 0, MissedFrames(a, ts - w.lastTs.value),
                              Some(ts - w.lastTs.value)));
    }
  }

  lemma ContentHealth(a: Settings, w: Fields, now: real, d: string)
    ensures HealthTimes(AfterContent(a, w, now, d).events) == HealthTimes(w.events)
  {
    hide Raise, HealthTimes;
    RaiseHealth(a, w.(sameRun := w.sameRun + 1, frozenOpen := true),
                Event(Frozen, now, w.frames, w.sameRun + 2, 0, None));
    RaiseHealth(a, w.(frozenOpen := false), Event(Unfroze, now, w.frames, w.sameRun + 1, 0, None));
  }

  lemma TickHealth(a: Settings, w: Fields, now: real)
    ensures HealthTimes(TickStep(a, w, now).events) == HealthTimes(w.events)
  {
    hide Raise, HealthTimes;
    if Noted(w.lastArrival) {
      RaiseHealth(a, w.(stalled := true),
                  Event(Stall, now, w.frames, 0, 0, Some(now - w.lastArrival.value)));
    }
  }

  /** Over any run a HEALTH event is raised for each message that differs, and for nothing else. */
  lemma {:induction false} HealthChangesAreReported(a: Settings, inputs: seq<Input>)
    ensures HealthTimes(Run(a, START, inputs).events) == ChangeTimes(inputs)
  {
    hide Raise, FrameStep, TickStep;
    if inputs != [] {
      var before := inputs[..|inputs| - 1];
      HealthChangesAreReported(a, before);
      var w := Run(a, START, before);
      match inputs[|inputs| - 1]
      case Frame(now, ts, digest) => FrameHealth(a, w, now, ts, digest);
      case Tick(now) => TickHealth(a, w, now);
      case HealthMessage(now, changed) => RaiseHealth(a, w, Event(Health, now, w.frames, 0, 0, None));
    }
  }

  // ---- how often a line is printed --------------------------------------------------

  /** An event is printed at once, with all that waited, exactly when it is no drop or the
      last line is at least the minimum ago. */
  lemma PrintedAtOnceExactlyWhen(a: Settings, w: Fields, e: Event)
    ensures Raise(a, w, e).pending == multiset{} <==> e.kind != Drop || e.now - w.lastStdout >= a.stdoutMinS
    ensures Raise(a, w, e).pending == multiset{} ==> Raise(a, w, e).lastStdout == e.now
  {
    assert e.kind in w.pending + multiset{e.kind};
  }

  /** Whatever still waits after a poll, the last line is less than the minimum ago. */
  lemma PollLeavesNothingWaiting(a: Settings, w: Fields, now: real)
    ensures var n := TickStep(a, w, now);
      n.pending == multiset{} || now - n.lastStdout < a.stdoutMinS
  {
    hide Raise;
  }

  /** From `w` to `n` at time `now`: nothing already printed or logged changes, the time of
      the last line is kept right, and when only drops happened a line comes no sooner than
      the minimum after the last one. */
  ghost predicate Throttled(a: Settings, w: Fields, n: Fields, now: real) {
    && w.printed <= n.printed && w.events <= n.events
    && n.lastStdout == (if n.printed == w.printed then w.lastStdout else now)
    && ((forall k :: |w.events| <= k < |n.events| ==> n.events[k].kind == Drop) && n.printed != w.printed ==>
          now - w.lastStdout >= a.stdoutMinS)
  }

  lemma ThrottledThen(a: Settings, w: Fields, m: Fields, n: Fields, now: real)
    requires Throttled(a, w, m, now) && Throttled(a, m, n, now)
    ensures Throttled(a, w, n, now)
  {
    if forall k :: |w.events| <= k < |n.events| ==> n.events[k].kind == Drop {
      forall k | |w.events| <= k < |m.events| ensures m.events[k].kind == Drop {
        assert n.events[k] == m.events[k];
      }
    }
  }

  lemma RaiseThrottled(a: Settings, w: Fields, e: Event)
    ensures Throttled(a, w, Raise(a, w, e), e.now)
  {
    assert Raise(a, w, e).events[|w.events|] == e;
  }

  lemma FrameThrottled(a: Settings, w: Fields, now: real, ts: real, digest: Option<string>)
    ensures Throttled(a, w, FrameStep(a, w, now, ts, digest), now)
  {
    hide AfterResume, AfterGap, AfterContent;
    var w0 := w.(frames := w.frames + 1);
    var w1 := AfterResume(a, w0, now);
    var w2 := AfterGap(a, w1, now, ts);
    var w3 := if digest.Some? then AfterContent(a, w2, now, digest.value) else w2;
    ResumeThrottled(a, w0, now);
    GapThrottled(a, w1, now, ts);
    if digest.Some? {
      ContentThrottled(a, w2, now, digest.value);
    }
    ThrottledThen(a, w0, w1, w2, now);
    ThrottledThen(a, w0, w2, w3, now);
    hide Throttled;
    assert Throttled(a, w0, w3, now);
    SameLines(a, w0, w3, w, w3.(lastTs := Some(ts), lastArrival := Some(now)), now);
  }

  lemma SameLines(a: Settings, w: Fields, n: Fields, w': Fields, n': Fields, now: real)
    requires Throttled(a, w, n, now)
    requires w'.printed == w.printed && w'.events == w.events && w'.lastStdout == w.lastStdout
    requires n'.printed == n.printed && n'.events == n.events && n'.lastStdout == n.lastStdout
    ensures Throttled(a, w', n', now)
  {
  }

  lemma ResumeThrottled(a: Settings, w: Fields, now: real)
    ensures Throttled(a, w, AfterResume(a, w, now), now)
  {
    hide Raise;
    if w.stalled {
      var e := ResumeEvent(w, now);
      var w1 := w.(stalled := false);
      RaiseThrottled(a, w1, e);
      SameLines(a, w1, Raise(a, w1, e), w, Raise(a, w1, e), now);
    }
  }

  lemma GapThrottled(a: Settings, w: Fields, now: real, ts: real)
    ensures Throttled(a, w, AfterGap(a, w, now, ts), now)
  {
    hide Raise, MissedFrames;
    if w.lastTs.Some? && ts - w.lastTs.value > a.gapThresh {
      RaiseThrottled(a, w, Event(Drop, now, w.frames, 0, MissedFrames(a, ts - w.lastTs.value),
                                 Some(ts - w.lastTs.value)));
    }
  }

  lemma ContentThrottled(a: Settings, w: Fields, now: real, d: string)
    ensures Throttled(a, w, AfterContent(a, w, now, d), now)
  {
    hide Raise;
    var n := AfterContent(a, w, now, d);
    if w.lastDigest == Some(d) {
      var w1, e := w.(sameRun := w.sameRun + 1, frozenOpen := true),
                   Event(Frozen, now, w.frames, w.sameRun + 2, 0, None);
      RaiseThrottled(a, w1, e);
      if w.sameRun + 1 >= a.frozenN && !w.frozenOpen {
        SameLines(a, w1, Raise(a, w1, e), w, n, now);
      }
    } else if w.frozenOpen {
      var w1, e := w.(frozenOpen := false), Event(Unfroze, now, w.frames, w.sameRun + 1, 0, None);
      RaiseThrottled(a, w1, e);
      SameLines(a, w1, Raise(a, w1, e), w, n, now);
    }
  }

  lemma TickThrottled(a: Settings, w: Fields, now: real)
    ensures Throttled(a, w, TickStep(a, w, now), now)
  {
    hide Raise;
    if Noted(w.lastArrival) && !w.stalled && now - w.lastArrival.value > a.stallS {
      var w1, e := w.(stalled := true), Event(Stall, now, w.frames, 0, 0, Some(now - w.lastArrival.value));
      RaiseThrottled(a, w1, e);
      SameLines(a, w1, Raise(a, w1, e), w, Raise(a, w1, e), now);
      ThrottledThen(a, w, Raise(a, w1, e), Flush(a, Raise(a, w1, e), now, false), now);
    }
  }

  lemma StepThrottled(a: Settings, w: Fields, i: Input)
    ensures Throttled(a, w, Step(a, w, i), i.now)
  {
    hide Raise, FrameStep, TickStep, Throttled;
    match i
    case Frame(now, ts, digest) => FrameThrottled(a, w, now, ts, digest);
    case Tick(now) => TickThrottled(a, w, now);
    case HealthMessage(now, changed) =>
      RaiseThrottled(a, w, Event(Health, now, w.frames, 0, 0, None));
      NothingHappened(a, w, now);
  }

  lemma NothingHappened(a: Settings, w: Fields, now: real)
    ensures Throttled(a, w, w, now)
  {
  }

  /** The fields after the first `n` inputs. */
  ghost function After(a: Settings, w: Fields, inputs: seq<Input>, n: nat): Fields
    requires n <= |inputs|
  {
    Run(a, w, inputs[..n])
  }

  ghost predicate PrintsAt(a: Settings, w: Fields, inputs: seq<Input>, k: nat)
    requires k < |inputs|
  {
    After(a, w, inputs, k + 1).printed != After(a, w, inputs, k).printed
  }

  /** Nothing but drops was raised by the inputs from `m` up to `n`. */
  ghost predicate OnlyDrops(a: Settings, w: Fields, inputs: seq<Input>, m: nat, n: nat)
    requires m <= n <= |inputs|
  {
    var before, after := After(a, w, inputs, m).events, After(a, w, inputs, n).events;
    forall k :: |before| <= k < |after| ==> after[k].kind == Drop
  }

  lemma AfterOne(a: Settings, w: Fields, inputs: seq<Input>, k: nat)
    requires k < |inputs|
    ensures Throttled(a, After(a, w, inputs, k), After(a, w, inputs, k + 1), inputs[k].now)
  {
    hide Throttled, Step;
    assert inputs[..k + 1][..k] == inputs[..k];
    StepThrottled(a, After(a, w, inputs, k), inputs[k]);
  }

  lemma {:induction false} AfterMore(a: Settings, w: Fields, inputs: seq<Input>, m: nat, n: nat)
    requires m <= n <= |inputs|
    requires forall k :: m <= k < n ==> !PrintsAt(a, w, inputs, k)
    ensures After(a, w, inputs, m).events <= After(a, w, inputs, n).events
    ensures After(a, w, inputs, n).lastStdout == After(a, w, inputs, m).lastStdout
  {
    hide After;
    if m < n {
      AfterMore(a, w, inputs, m, n - 1);
      AfterOne(a, w, inputs, n - 1);
      assert !PrintsAt(a, w, inputs, n - 1);
    }
  }

  /** The last line was printed at input `j`, or, when `j` is the length, before all of them. */
  ghost predicate LastLineAt(a: Settings, w: Fields, inputs: seq<Input>, j: nat)
    requires j <= |inputs|
  {
    && (j < |inputs| ==> PrintsAt(a, w, inputs, j))
    && forall k :: (if j < |inputs| then j + 1 else 0) <= k < |inputs| ==> !PrintsAt(a, w, inputs, k)
  }

  lemma {:induction false} FindLastLine(a: Settings, w: Fields, inputs: seq<Input>, n: nat) returns (j: int)
    requires n <= |inputs|
    ensures -1 <= j < n && (j >= 0 ==> PrintsAt(a, w, inputs, j))
    ensures forall k :: j < k < n ==> !PrintsAt(a, w, inputs, k)
  {
    hide PrintsAt;
    if n == 0 {
      j := -1;
    } else if PrintsAt(a, w, inputs, n - 1) {
      j := n - 1;
    } else {
      j := FindLastLine(a, w, inputs, n - 1);
    }
  }

  /** After a run that ends with a poll nothing waits, unless the last line was printed less
      than the minimum ago (or, before the first line, the poll came that early). */
  lemma PendingIsPrinted(a: Settings, w: Fields, inputs: seq<Input>) returns (j: nat)
    requires inputs != [] && inputs[|inputs| - 1].Tick?
    ensures j <= |inputs| && LastLineAt(a, w, inputs, j)
    ensures var last := if j < |inputs| then inputs[j].now else w.lastStdout;
      Run(a, w, inputs).pending == multiset{} || inputs[|inputs| - 1].now - last < a.stdoutMinS
  {
    hide Throttled, Step, TickStep, PrintsAt;
    var n := |inputs|;
    assert inputs[..n] == inputs;
    PollLeavesNothingWaiting(a, Run(a, w, inputs[..n - 1]), inputs[n - 1].now);
    StepOfTick(a, Run(a, w, inputs[..n - 1]), inputs[n - 1]);
    var i := FindLastLine(a, w, inputs, n);
    j := if i < 0 then n else i;
    LastLineTime(a, w, inputs, i);
  }

  lemma StepOfTick(a: Settings, w: Fields, i: Input)
    requires i.Tick?
    ensures Step(a, w, i) == TickStep(a, w, i.now)
  {
  }

  lemma LastLineTime(a: Settings, w: Fields, inputs: seq<Input>, i: int)
    requires -1 <= i < |inputs| && (i >= 0 ==> PrintsAt(a, w, inputs, i))
    requires forall k :: i < k < |inputs| ==> !PrintsAt(a, w, inputs, k)
    ensures After(a, w, inputs, |inputs|).lastStdout == if i < 0 then w.lastStdout else inputs[i].now
  {
    AfterMore(a, w, inputs, i + 1, |inputs|);
    if i >= 0 {
      AfterOne(a, w, inputs, i);
    } else {
      assert inputs[..0] == [];
    }
  }

  /** Lines at inputs `i` and `j`, none between them, and only drops after the first. */
  ghost predicate NextLineForDrops(a: Settings, w: Fields, inputs: seq<Input>, i: nat, j: nat)
    requires i < j < |inputs|
  {
    && PrintsAt(a, w, inputs, i) && PrintsAt(a, w, inputs, j)
    && (forall k :: i < k < j ==> !PrintsAt(a, w, inputs, k))
    && OnlyDrops(a, w, inputs, i + 1, j + 1)
  }

  /** Two consecutive lines with nothing but drops between them are at least the minimum
      apart, whatever came before and however often the watcher was polled. */
  lemma PrintingIsThrottled(a: Settings, w: Fields, inputs: seq<Input>)
    ensures forall i, j :: 0 <= i < j < |inputs| && NextLineForDrops(a, w, inputs, i, j) ==>
              inputs[j].now - inputs[i].now >= a.stdoutMinS
  {
    hide After, Throttled, PrintsAt, OnlyDrops, NextLineForDrops;
    forall i, j | 0 <= i < j < |inputs| && NextLineForDrops(a, w, inputs, i, j)
      ensures inputs[j].now - inputs[i].now >= a.stdoutMinS
    {
      LinesApart(a, w, inputs, i, j);
    }
  }

  lemma LinesApart(a: Settings, w: Fields, inputs: seq<Input>, i: nat, j: nat)
    requires i < j < |inputs|
    ensures NextLineForDrops(a, w, inputs, i, j) ==> inputs[j].now - inputs[i].now >= a.stdoutMinS
  {
    hide After;
    if NextLineForDrops(a, w, inputs, i, j) {
      AfterOne(a, w, inputs, i);
      AfterMore(a, w, inputs, i + 1, j);
      AfterOne(a, w, inputs, j);
    }
  }
}

/** The export of an episode as a whole: the stateful readers amount to looking each frame up,
    every written row has the right image, and no instant is written twice. */
module Export {
  import opened Common
  import opened Grid
  import opened Windows
  import opened CameraExport

  // ---- the export without readers ---------------------------------------------------

  /** Every camera's nearest frame decodes. */
  ghost predicate Decodes<F>(cams: seq<Camera<F>>, x: real)
    requires forall c :: 0 <= c < |cams| ==> cams[c].stamps != []
  {
    forall c :: 0 <= c < |cams| ==> 0 <= NearestIndex(cams[c].stamps, x) < |cams[c].video|
  }

  ghost function NearestImages<F>(cams: seq<Camera<F>>, x: real): seq<F>
    requires (forall c :: 0 <= c < |cams| ==> cams[c].stamps != []) && Decodes(cams, x)
  {
    seq(|cams|, c requires 0 <= c < |cams| => cams[c].video[NearestIndex(cams[c].stamps, x)])
  }

  /** The rows of one window from grid instant `k` on, each image looked up on its own: the
      stale instants are passed over, an undecodable one ends the window. */
  ghost function IdealRows<F, J>(cams: seq<Camera<F>>, arms: seq<Arm<J>>, lo: real, fps: int, task: string,
                                 n: nat, k: nat): seq<Row<F, J>>
    requires Usable(cams, arms) && fps > 0 && k <= n
    decreases n - k
  {
    if k == n then []
    else
      var x := Instant(lo, k, fps);
      if !AllHonest(Stamps(cams), x) then IdealRows(cams, arms, lo, fps, task, n, k + 1)
      else if !Decodes(cams, x) then []
      else [Row(x, StateAt(arms, x), ActionAt(arms, x), task, NearestImages(cams, x))]
           + IdealRows(cams, arms, lo, fps, task, n, k + 1)
  }

  ghost function WindowRows<F, J>(cams: seq<Camera<F>>, arms: seq<Arm<J>>, job: Job, w: nat): seq<Row<F, J>>
    requires Usable(cams, arms) && job.fps > 0 && w < |job.spans|
  {
    var span := job.spans[w];
    var n := GridSize(span.lo, span.hi, job.fps);
    if n < 0 then [] else IdealRows(cams, arms, span.lo, job.fps, TaskOf(job, w), n, 0)
  }

  /** A window becomes a dataset episode when it is long enough, not vetoed, and keeps enough
      rows. */
  ghost predicate Saved<F, J>(cams: seq<Camera<F>>, arms: seq<Arm<J>>, job: Job, veto: nat -> bool, w: nat)
    requires Usable(cams, arms) && job.fps > 0 && w < |job.spans|
  {
    && GridSize(job.spans[w].lo, job.spans[w].hi, job.fps) >= MIN_WINDOW_FRAMES && !veto(w)
    && |WindowRows(cams, arms, job, w)| >= MIN_WINDOW_FRAMES
  }

  ghost function IdealExport<F, J>(cams: seq<Camera<F>>, arms: seq<Arm<J>>, job: Job, veto: nat -> bool,
                                   w: nat): Dump<F, J>
    requires Usable(cams, arms) && job.fps > 0 && w <= |job.spans|
    decreases |job.spans| - w
  {
    if w == |job.spans| then Dump([], 0, 0, false)
    else
      var rest := IdealExport(cams, arms, job, veto, w + 1);
      if Saved(cams, arms, job, veto, w)
      then
        var rows := WindowRows(cams, arms, job, w);
        rest.(episodes := [rows] + rest.episodes, frames := |rows| + rest.frames)
      else rest
  }

  // ---- refinement -------------------------------------------------------------------

  /** No reader is past the frame its camera needs at `x`. */
  ghost predicate Behind<F>(cams: seq<Camera<F>>, pos: seq<int>, x: real)
    requires Positions(cams, pos) && forall c :: 0 <= c < |cams| ==> cams[c].stamps != []
  {
    forall c :: 0 <= c < |cams| ==> pos[c] <= NearestIndex(cams[c].stamps, x)
  }

  lemma BehindLater<F>(cams: seq<Camera<F>>, pos: seq<int>, x: real, y: real)
    requires Positions(cams, pos) && forall c :: 0 <= c < |cams| ==> cams[c].stamps != []
    requires Behind(cams, pos, x) && x <= y
    ensures Behind(cams, pos, y)
  {
    forall c | 0 <= c < |cams| ensures pos[c] <= NearestIndex(cams[c].stamps, y) {
      NearestMonotone(cams[c].stamps, x, y);
    }
  }

  /** Readers that are not past their frames serve exactly the looked-up images, and are not
      past them afterwards either. */
  lemma {:induction false} ServeFromBehind<F>(cams: seq<Camera<F>>, pos: seq<int>, x: real, c: nat)
    requires Positions(cams, pos) && forall k :: 0 <= k < |cams| ==> cams[k].stamps != []
    requires Behind(cams, pos, x) && c <= |cams|
    ensures var (r, pos') := ServeFrom(cams, pos, x, c);
      && Behind(cams, pos', x) && !r.SeekError?
      && (r.Images? <==> forall k :: c <= k < |cams| ==> 0 <= NearestIndex(cams[k].stamps, x) < |cams[k].video|)
      && (r.Images? ==>
            && |r.images| == |cams| - c
            && forall k :: c <= k < |cams| ==> r.images[k - c] == cams[k].video[NearestIndex(cams[k].stamps, x)])
    decreases |cams| - c
  {
    hide NearestIndex;
    if c < |cams| {
      var (served, p) := Serve(cams[c].video, pos[c], NearestIndex(cams[c].stamps, x));
      assert served.Image? <==> 0 <= NearestIndex(cams[c].stamps, x) < |cams[c].video|;
      ServeFromBehind(cams, pos[c := p], x, c + 1);
    }
  }

  lemma ServeRowBehind<F>(cams: seq<Camera<F>>, pos: seq<int>, x: real)
    requires Positions(cams, pos) && forall c :: 0 <= c < |cams| ==> cams[c].stamps != []
    requires Behind(cams, pos, x)
    ensures var (r, pos') := ServeFrom(cams, pos, x, 0);
      && Behind(cams, pos', x) && !r.SeekError?
      && (r.Images? <==> Decodes(cams, x)) && (r.Images? ==> r.images == NearestImages(cams, x))
  {
    hide NearestIndex, ServeFrom;
    ServeFromBehind(cams, pos, x, 0);
  }

  lemma {:induction false} WindowRunBehind<F, J>(cams: seq<Camera<F>>, arms: seq<Arm<J>>, lo: real, fps: int,
                                                 task: string, n: nat, k: nat, pos: seq<int>)
    requires Usable(cams, arms) && Positions(cams, pos) && fps > 0 && k <= n
    requires Behind(cams, pos, Instant(lo, k, fps))
    ensures var out := WindowRun(cams, arms, lo, fps, task, n, k, pos);
      && out.rows == IdealRows(cams, arms, lo, fps, task, n, k) && !out.raised
      && Behind(cams, out.pos, Instant(lo, n, fps))
    decreases n - k
  {
    hide NearestIndex, AllHonest, StateAt, ActionAt, Instant, WindowRun, ServeFrom, Behind;
    if k == n {
      WindowRunEnds(cams, arms, lo, fps, task, n, pos);
    } else {
      var x, y := Instant(lo, k, fps), Instant(lo, k + 1, fps);
      InstantMonotone(lo, k, k + 1, fps);
      InstantMonotone(lo, k + 1, n, fps);
      WindowRunUnfolds(cams, arms, lo, fps, task, n, k, pos);
      if !AllHonest(Stamps(cams), x) {
        BehindLater(cams, pos, x, y);
        WindowRunBehind(cams, arms, lo, fps, task, n, k + 1, pos);
      } else {
        ServeRowBehind(cams, pos, x);
        var (r, pos') := ServeFrom(cams, pos, x, 0);
        BehindLater(cams, pos', x, y);
        if r.Images? {
          WindowRunBehind(cams, arms, lo, fps, task, n, k + 1, pos');
        } else {
          BehindLater(cams, pos', y, Instant(lo, n, fps));
        }
      }
    }
  }

  lemma GridEnd(lo: real, hi: real, fps: int)
    requires fps > 0 && GridSize(lo, hi, fps) >= 0 && lo < hi
    ensures Instant(lo, GridSize(lo, hi, fps), fps) <= hi
  {
    var n, f := GridSize(lo, hi, fps), fps as real;
    assert n as real <= (hi - lo) * f;
    Divide(n as real, (hi - lo) * f, f);
    Cancel(hi - lo, f);
  }

  lemma NoneBehindhand<F>(cams: seq<Camera<F>>, lo: real, pos: seq<int>, n: nat)
    requires Positions(cams, pos) && forall c :: 0 <= c < |cams| ==> cams[c].stamps != []
    requires Behind(cams, pos, lo) && n <= |cams|
    ensures Reopened(cams, lo, pos) == pos && ReopenCount(cams, lo, pos, n) == 0
  {
    hide NearestIndex;
  }

  lemma {:induction false} EpisodeRunBehind<F, J>(cams: seq<Camera<F>>, arms: seq<Arm<J>>, job: Job, veto: nat -> bool,
                                                  w: nat, pos: seq<int>)
    requires Usable(cams, arms) && Positions(cams, pos) && job.fps > 0 && w <= |job.spans| && Disjoint(job.spans)
    requires w < |job.spans| ==> Behind(cams, pos, job.spans[w].lo)
    ensures EpisodeRun(cams, arms, job, veto, w, pos) == IdealExport(cams, arms, job, veto, w)
    decreases |job.spans| - w
  {
    hide WindowRun, IdealRows, GridSize, Instant, TaskOf, Behind, EpisodeRun, Reopened, ReopenCount;
    if w == |job.spans| {
      EpisodeRunEnds(cams, arms, job, veto, pos);
    } else {
      var span := job.spans[w];
      var n := GridSize(span.lo, span.hi, job.fps);
      EpisodeRunUnfolds(cams, arms, job, veto, w, pos);
      if n < MIN_WINDOW_FRAMES || veto(w) {
        if w + 1 < |job.spans| { BehindLater(cams, pos, span.lo, job.spans[w + 1].lo); }
        EpisodeRunBehind(cams, arms, job, veto, w + 1, pos);
      } else {
        NoneBehindhand(cams, span.lo, pos, |cams|);
        FirstInstant(span.lo, job.fps);
        WindowRunBehind(cams, arms, span.lo, job.fps, TaskOf(job, w), n, 0, pos);
        GridEnd(span.lo, span.hi, job.fps);
        var out := WindowRun(cams, arms, span.lo, job.fps, TaskOf(job, w), n, 0, pos);
        if w + 1 < |job.spans| {
          BehindLater(cams, out.pos, Instant(span.lo, n, job.fps), job.spans[w + 1].lo);
        }
        EpisodeRunBehind(cams, arms, job, veto, w + 1, out.pos);
      }
    }
  }

  lemma FirstInstant(lo: real, fps: int)
    requires fps > 0
    ensures Instant(lo, 0, fps) == lo
  {
  }

  /** For windows in order and without overlap the forward-only readers never seek backward,
      are never reopened, and export exactly what looking every frame up would. */
  lemma ReadersRefineLookup<F, J>(cams: seq<Camera<F>>, arms: seq<Arm<J>>, job: Job, veto: nat -> bool)
    requires Usable(cams, arms) && job.fps > 0 && Disjoint(job.spans)
    ensures EpisodeRun(cams, arms, job, veto, 0, seq(|cams|, _ => -1)) == IdealExport(cams, arms, job, veto, 0)
    ensures !IdealExport(cams, arms, job, veto, 0).raised && IdealExport(cams, arms, job, veto, 0).reopened == 0
  {
    EpisodeRunBehind(cams, arms, job, veto, 0, seq(|cams|, _ => -1));
    IdealClean(cams, arms, job, veto, 0);
  }

  lemma {:induction false} IdealClean<F, J>(cams: seq<Camera<F>>, arms: seq<Arm<J>>, job: Job,
                                            veto: nat -> bool, w: nat)
    requires Usable(cams, arms) && job.fps > 0 && w <= |job.spans|
    ensures var d := IdealExport(cams, arms, job, veto, w);
      && !d.raised && d.reopened == 0
      && forall e :: 0 <= e < |d.episodes| ==>
           FromWindow(cams, arms, job, veto, w, d.episodes[e])
    decreases |job.spans| - w
  {
    if w < |job.spans| {
      hide Saved, WindowRows;
      IdealClean(cams, arms, job, veto, w + 1);
      var d, rest := IdealExport(cams, arms, job, veto, w), IdealExport(cams, arms, job, veto, w + 1);
      forall e | 0 <= e < |d.episodes| ensures FromWindow(cams, arms, job, veto, w, d.episodes[e]) {
        if !Saved(cams, arms, job, veto, w) {
          assert FromWindow(cams, arms, job, veto, w + 1, rest.episodes[e]);
        } else if e > 0 {
          assert FromWindow(cams, arms, job, veto, w + 1, rest.episodes[e - 1]);
        }
      }
    }
  }

  ghost predicate FromWindow<F, J>(cams: seq<Camera<F>>, arms: seq<Arm<J>>, job: Job, veto: nat -> bool, w: nat,
                                   rows: seq<Row<F, J>>)
    requires Usable(cams, arms) && job.fps > 0
  {
    exists v :: w <= v < |job.spans| && Saved(cams, arms, job, veto, v) && rows == WindowRows(cams, arms, job, v)
  }

  // ---- what a written row is --------------------------------------------------------

  /** The row shows, for each camera, the decoded frame whose stamp is nearest to the row's
      instant, and that stamp is within the staleness cap. */
  ghost predicate RightImages<F, J>(cams: seq<Camera<F>>, row: Row<F, J>) {
    && |row.images| == |cams|
    && forall c :: 0 <= c < |cams| ==>
         var t := cams[c].stamps;
         && t != [] && 0 <= NearestIndex(t, row.instant) < |t| && NearestIndex(t, row.instant) < |cams[c].video|
         && row.images[c] == cams[c].video[NearestIndex(t, row.instant)]
         && AbsReal(t[NearestIndex(t, row.instant)] - row.instant) <= STALENESS
         && forall k :: 0 <= k < |t| ==>
              AbsReal(t[NearestIndex(t, row.instant)] - row.instant) <= AbsReal(t[k] - row.instant)
  }

  /** A row with the right images, the joint samples of its instant and the task given. */
  ghost predicate RightRow<F, J>(cams: seq<Camera<F>>, arms: seq<Arm<J>>, row: Row<F, J>, task: string)
    requires Usable(cams, arms)
  {
    && RightImages(cams, row) && row.task == task
    && row.state == StateAt(arms, row.instant) && row.action == ActionAt(arms, row.instant)
  }

  lemma LookedUpIsRight<F, J>(cams: seq<Camera<F>>, arms: seq<Arm<J>>, x: real, task: string)
    requires Usable(cams, arms) && AllHonest(Stamps(cams), x) && Decodes(cams, x)
    requires forall c :: 0 <= c < |cams| ==> Ascending(cams[c].stamps)
    ensures RightRow(cams, arms, Row(x, StateAt(arms, x), ActionAt(arms, x), task, NearestImages(cams, x)), task)
  {
    forall c | 0 <= c < |cams|
      ensures var t := cams[c].stamps;
        && AbsReal(t[NearestIndex(t, x)] - x) <= STALENESS
        && forall k :: 0 <= k < |t| ==> AbsReal(t[NearestIndex(t, x)] - x) <= AbsReal(t[k] - x)
    {
      NearestIsNearest(cams[c].stamps, x);
      assert !Stale(Stamps(cams)[c], x);
    }
  }

  /** `x` is one of the grid instants k, ..., n - 1 of a window. */
  ghost predicate OnGrid(lo: real, fps: int, k: nat, n: nat, x: real)
    requires fps > 0
  {
    exists m :: k <= m < n && x == Instant(lo, m, fps)
  }

  lemma OnGridFrom(lo: real, fps: int, k: nat, n: nat, x: real)
    requires fps > 0 && k < n
    ensures OnGrid(lo, fps, k, n, Instant(lo, k, fps))
    ensures OnGrid(lo, fps, k + 1, n, x) ==> OnGrid(lo, fps, k, n, x) && Instant(lo, k, fps) < x
  {
    if OnGrid(lo, fps, k + 1, n, x) {
      var m :| k + 1 <= m < n && x == Instant(lo, m, fps);
      InstantMonotone(lo, k, m, fps);
    }
  }

  lemma OnGridWithin(lo: real, hi: real, fps: int, x: real)
    requires fps > 0 && GridSize(lo, hi, fps) >= 0 && OnGrid(lo, fps, 0, GridSize(lo, hi, fps), x)
    ensures lo <= x < hi
  {
    var m :| 0 <= m < GridSize(lo, hi, fps) && x == Instant(lo, m, fps);
    InstantInWindow(lo, hi, m, fps);
  }

  lemma {:induction false} IdealRowsRight<F, J>(cams: seq<Camera<F>>, arms: seq<Arm<J>>, lo: real, fps: int,
                                                task: string, n: nat, k: nat)
    requires Usable(cams, arms) && fps > 0 && k <= n
    requires forall c :: 0 <= c < |cams| ==> Ascending(cams[c].stamps)
    ensures var rows := IdealRows(cams, arms, lo, fps, task, n, k);
      && (forall r :: 0 <= r < |rows| ==>
            RightRow(cams, arms, rows[r], task) && OnGrid(lo, fps, k, n, rows[r].instant))
      && (forall q, r :: 0 <= q < r < |rows| ==> rows[q].instant < rows[r].instant)
    decreases n - k
  {
    if k < n {
      hide RightRow, OnGrid, AllHonest, Decodes, StateAt, ActionAt, Ascending;
      IdealRowsRight(cams, arms, lo, fps, task, n, k + 1);
      var x, rest := Instant(lo, k, fps), IdealRows(cams, arms, lo, fps, task, n, k + 1);
      forall r | 0 <= r < |rest| ensures OnGrid(lo, fps, k, n, rest[r].instant) && x < rest[r].instant {
        assert RightRow(cams, arms, IdealRows(cams, arms, lo, fps, task, n, k + 1)[r], task);
        OnGridFrom(lo, fps, k, n, rest[r].instant);
      }
      if AllHonest(Stamps(cams), x) && Decodes(cams, x) {
        LookedUpIsRight(cams, arms, x, task);
        OnGridFrom(lo, fps, k, n, x);
      }
    }
  }

  /** When every needed frame decodes, the window's rows are exactly its honest instants. */
  lemma {:induction false} DecodedWindowCount<F, J>(cams: seq<Camera<F>>, arms: seq<Arm<J>>, lo: real, fps: int,
                                                    task: string, n: nat, k: nat)
    requires Usable(cams, arms) && fps > 0 && k <= n
    requires forall m :: 0 <= m < n && AllHonest(Stamps(cams), Instant(lo, m, fps)) ==>
               Decodes(cams, Instant(lo, m, fps))
    ensures |IdealRows(cams, arms, lo, fps, task, n, k)| + HonestCount(Stamps(cams), lo, fps, k)
            == HonestCount(Stamps(cams), lo, fps, n)
    decreases n - k
  {
    if k < n {
      hide AllHonest, Instant, Decodes;
      DecodedWindowCount(cams, arms, lo, fps, task, n, k + 1);
    }
  }

  lemma WindowRowRight<F, J>(cams: seq<Camera<F>>, arms: seq<Arm<J>>, job: Job, w: nat, r: nat)
    requires Usable(cams, arms) && job.fps > 0 && w < |job.spans| && r < |WindowRows(cams, arms, job, w)|
    requires forall c :: 0 <= c < |cams| ==> Ascending(cams[c].stamps)
    ensures var row, n := WindowRows(cams, arms, job, w)[r], GridSize(job.spans[w].lo, job.spans[w].hi, job.fps);
      RightRow(cams, arms, row, TaskOf(job, w)) && n >= 0 && OnGrid(job.spans[w].lo, job.fps, 0, n, row.instant)
  {
    var lo, n := job.spans[w].lo, GridSize(job.spans[w].lo, job.spans[w].hi, job.fps);
    IdealRowsRight(cams, arms, lo, job.fps, TaskOf(job, w), n, 0);
    hide RightRow, OnGrid;
    assert RightRow(cams, arms, IdealRows(cams, arms, lo, job.fps, TaskOf(job, w), n, 0)[r], TaskOf(job, w));
  }

  /** The row is right for one of the windows, at one of that window's grid instants. */
  ghost predicate RightSomewhere<F, J>(cams: seq<Camera<F>>, arms: seq<Arm<J>>, job: Job, row: Row<F, J>)
    requires Usable(cams, arms) && job.fps > 0
  {
    exists w :: 0 <= w < |job.spans| && RightRow(cams, arms, row, TaskOf(job, w))
      && GridSize(job.spans[w].lo, job.spans[w].hi, job.fps) >= 0
      && OnGrid(job.spans[w].lo, job.fps, 0, GridSize(job.spans[w].lo, job.spans[w].hi, job.fps), row.instant)
  }

  /** Every row of every saved episode, over the whole export of the take. */
  lemma EveryRowIsRight<F, J>(cams: seq<Camera<F>>, arms: seq<Arm<J>>, job: Job, veto: nat -> bool)
    requires Usable(cams, arms) && job.fps > 0 && Disjoint(job.spans)
    requires forall c :: 0 <= c < |cams| ==> Ascending(cams[c].stamps)
    ensures var episodes := EpisodeRun(cams, arms, job, veto, 0, seq(|cams|, _ => -1)).episodes;
      forall e, r :: 0 <= e < |episodes| && 0 <= r < |episodes[e]| ==> RightSomewhere(cams, arms, job, episodes[e][r])
  {
    hide RightRow, OnGrid, IdealRows, EpisodeRun, IdealExport;
    ReadersRefineLookup(cams, arms, job, veto);
    IdealClean(cams, arms, job, veto, 0);
    var episodes := IdealExport(cams, arms, job, veto, 0).episodes;
    forall e, r | 0 <= e < |episodes| && 0 <= r < |episodes[e]|
      ensures RightSomewhere(cams, arms, job, episodes[e][r]) {
      assert FromWindow(cams, arms, job, veto, 0, episodes[e]);
      var w :| 0 <= w < |job.spans| && Saved(cams, arms, job, veto, w) && episodes[e] == WindowRows(cams, arms, job, w);
      WindowRowRight(cams, arms, job, w, r);
    }
  }

  // ---- no instant twice -------------------------------------------------------------

  ghost predicate InstantsWithin<F, J>(rows: seq<Row<F, J>>, lo: real, hi: real) {
    && (forall r :: 0 <= r < |rows| ==> lo <= rows[r].instant < hi)
    && (forall q, r :: 0 <= q < r < |rows| ==> rows[q].instant < rows[r].instant)
  }

  lemma WindowRowsWithin<F, J>(cams: seq<Camera<F>>, arms: seq<Arm<J>>, job: Job, w: nat)
    requires Usable(cams, arms) && job.fps > 0 && w < |job.spans|
    requires forall c :: 0 <= c < |cams| ==> Ascending(cams[c].stamps)
    ensures InstantsWithin(WindowRows(cams, arms, job, w), job.spans[w].lo, job.spans[w].hi)
  {
    var span, rows := job.spans[w], WindowRows(cams, arms, job, w);
    var n := GridSize(span.lo, span.hi, job.fps);
    if n >= 0 {
      IdealRowsRight(cams, arms, span.lo, job.fps, TaskOf(job, w), n, 0);
      assert rows == IdealRows(cams, arms, span.lo, job.fps, TaskOf(job, w), n, 0);
      hide RightRow, OnGrid, IdealRows;
      forall r | 0 <= r < |rows| ensures span.lo <= rows[r].instant < span.hi {
        WindowRowRight(cams, arms, job, w, r);
        OnGridWithin(span.lo, span.hi, job.fps, rows[r].instant);
      }
    }
  }

  /** All the rows of a take, in the order they are written. */
  ghost function AllRows<F, J>(episodes: seq<seq<Row<F, J>>>): seq<Row<F, J>> {
    if episodes == [] then [] else episodes[0] + AllRows(episodes[1..])
  }

  lemma {:induction false} IdealInstants<F, J>(cams: seq<Camera<F>>, arms: seq<Arm<J>>, job: Job,
                                               veto: nat -> bool, w: nat)
    requires Usable(cams, arms) && job.fps > 0 && Disjoint(job.spans) && w < |job.spans|
    requires forall c :: 0 <= c < |cams| ==> Ascending(cams[c].stamps)
    ensures var d := IdealExport(cams, arms, job, veto, w);
      && InstantsWithin(AllRows(d.episodes), job.spans[w].lo, job.spans[|job.spans| - 1].hi)
      && d.frames == |AllRows(d.episodes)|
    decreases |job.spans| - w
  {
    hide Saved, WindowRows, Usable, InstantsWithin, AllRows, Ascending;
    WindowRowsWithin(cams, arms, job, w);
    var span, last := job.spans[w], job.spans[|job.spans| - 1];
    var own, rest := WindowRows(cams, arms, job, w), IdealExport(cams, arms, job, veto, w + 1);
    AllRowsUnfold(own, rest.episodes);
    if w + 1 == |job.spans| {
      NothingWithin<F, J>(span.lo, span.hi);
      InstantsJoin(own, [], span.lo, span.hi, span.hi, span.hi);
      assert own + [] == own;
    } else {
      IdealInstants(cams, arms, job, veto, w + 1);
      assert span.hi <= job.spans[w + 1].lo && job.spans[w + 1].lo < job.spans[w + 1].hi <= last.hi;
      InstantsJoin(own, AllRows(rest.episodes), span.lo, span.hi, job.spans[w + 1].lo, last.hi);
    }
  }

  lemma AllRowsUnfold<F, J>(rows: seq<Row<F, J>>, episodes: seq<seq<Row<F, J>>>)
    ensures AllRows([rows] + episodes) == rows + AllRows(episodes)
    ensures AllRows<F, J>([]) == []
  {
    assert ([rows] + episodes)[1..] == episodes;
  }

  lemma NothingWithin<F, J>(lo: real, hi: real)
    ensures InstantsWithin<F, J>([], lo, hi)
  {
  }

  /** Rows of one window followed by rows of later ones. */
  lemma InstantsJoin<F, J>(rows: seq<Row<F, J>>, later: seq<Row<F, J>>, lo: real, hi: real, lo': real, hi': real)
    requires lo < hi <= lo' <= hi' && InstantsWithin(rows, lo, hi) && InstantsWithin(later, lo', hi')
    ensures InstantsWithin(rows + later, lo, hi') && InstantsWithin(later, lo, hi')
  {
  }

  /** Over everything a take exports the instants strictly increase: no instant is exported
      twice, and the reported number of frames is the number of rows. */
  lemma NoInstantExportedTwice<F, J>(cams: seq<Camera<F>>, arms: seq<Arm<J>>, job: Job, veto: nat -> bool)
    requires Usable(cams, arms) && job.fps > 0 && Disjoint(job.spans)
    requires forall c :: 0 <= c < |cams| ==> Ascending(cams[c].stamps)
    ensures var d := EpisodeRun(cams, arms, job, veto, 0, seq(|cams|, _ => -1));
            var rows := AllRows(d.episodes);
      && (forall q, r :: 0 <= q < r < |rows| ==> rows[q].instant < rows[r].instant)
      && d.frames == |rows|
  {
    ReadersRefineLookup(cams, arms, job, veto);
    if job.spans != [] {
      IdealInstants(cams, arms, job, veto, 0);
    }
  }

  // ---- the yield the segmenter promised ---------------------------------------------

  /** A window that decodes and that every camera covers with yield at least `y` keeps at
      least (1 - c(1 - y)) of its rows. */
  lemma YieldBoundsWindow<F, J>(cams: seq<Camera<F>>, arms: seq<Arm<J>>, job: Job, w: nat, y: real)
    requires Usable(cams, arms) && job.fps == SEGMENT_FPS && w < |job.spans|
    requires forall c :: 0 <= c < |cams| ==> Ascending(cams[c].stamps)
    requires forall c :: 0 <= c < |cams| ==> FrameYield(cams[c].stamps, job.spans[w].lo, job.spans[w].hi) >= y
    requires GridSize(job.spans[w].lo, job.spans[w].hi, SEGMENT_FPS) >= 0
    requires WindowDecodes(cams, job.spans[w])
    ensures |WindowRows(cams, arms, job, w)| as real
            >= RowsBound(|cams|, y, GridSize(job.spans[w].lo, job.spans[w].hi, SEGMENT_FPS))
  {
    var lo, hi := job.spans[w].lo, job.spans[w].hi;
    var n := GridSize(lo, hi, SEGMENT_FPS);
    DecodedWindowCount(cams, arms, lo, SEGMENT_FPS, TaskOf(job, w), n, 0);
    hide RowsBound, HonestCount, Decodes, AllHonest, IdealRows;
    NothingCounted(Stamps(cams), lo, SEGMENT_FPS);
    YieldBoundsRows(Stamps(cams), lo, hi, y);
  }

  lemma {:induction false} RowsFitGrid<F, J>(cams: seq<Camera<F>>, arms: seq<Arm<J>>, lo: real, fps: int,
                                             task: string, n: nat, k: nat)
    requires Usable(cams, arms) && fps > 0 && k <= n
    ensures |IdealRows(cams, arms, lo, fps, task, n, k)| <= n - k
    decreases n - k
  {
    if k < n {
      hide AllHonest, Instant, Decodes;
      RowsFitGrid(cams, arms, lo, fps, task, n, k + 1);
    }
  }

  /** Every saved window's rows are an episode of the export. */
  lemma {:induction false} SavedIsExported<F, J>(cams: seq<Camera<F>>, arms: seq<Arm<J>>, job: Job, veto: nat -> bool,
                                                 v: nat, w: nat)
    requires Usable(cams, arms) && job.fps > 0 && v <= w < |job.spans| && Saved(cams, arms, job, veto, w)
    ensures WindowRows(cams, arms, job, w) in IdealExport(cams, arms, job, veto, v).episodes
    decreases w - v
  {
    hide Saved, WindowRows, Usable;
    var rest := IdealExport(cams, arms, job, veto, v + 1);
    if v == w {
      assert IdealExport(cams, arms, job, veto, v).episodes[0] == WindowRows(cams, arms, job, w);
    } else {
      SavedIsExported(cams, arms, job, veto, v + 1, w);
    }
  }

  /** The promise of a yield: a window of the plan that is not vetoed, decodes, and that every
      camera covers with yield at least `y` is written as an episode of at least
      (1 - c(1 - y))n rows, whenever that is more than the nine an episode may not have. */
  lemma YieldIsDelivered<F, J>(cams: seq<Camera<F>>, arms: seq<Arm<J>>, job: Job, veto: nat -> bool, w: nat, y: real)
    requires Usable(cams, arms) && job.fps == SEGMENT_FPS && Disjoint(job.spans) && w < |job.spans| && !veto(w)
    requires forall c :: 0 <= c < |cams| ==> Ascending(cams[c].stamps)
    requires forall c :: 0 <= c < |cams| ==> FrameYield(cams[c].stamps, job.spans[w].lo, job.spans[w].hi) >= y
    requires WindowDecodes(cams, job.spans[w])
    ensures var bound := RowsBound(|cams|, y, GridSize(job.spans[w].lo, job.spans[w].hi, SEGMENT_FPS));
            var episodes := EpisodeRun(cams, arms, job, veto, 0, seq(|cams|, _ => -1)).episodes;
      bound > (MIN_WINDOW_FRAMES - 1) as real ==>
        WindowRows(cams, arms, job, w) in episodes && |WindowRows(cams, arms, job, w)| as real >= bound
  {
    hide RowsBound, IdealRows, FrameYield, Decodes, Ascending;
    var lo, hi := job.spans[w].lo, job.spans[w].hi;
    var n := GridSize(lo, hi, SEGMENT_FPS);
    LongerThanNothing(lo, hi);
    if RowsBound(|cams|, y, n) > (MIN_WINDOW_FRAMES - 1) as real {
      YieldBoundsWindow(cams, arms, job, w, y);
      RowsFitGrid(cams, arms, lo, SEGMENT_FPS, TaskOf(job, w), n, 0);
      assert Saved(cams, arms, job, veto, w);
      ReadersRefineLookup(cams, arms, job, veto);
      SavedIsExported(cams, arms, job, veto, 0, w);
    }
  }

  lemma LongerThanNothing(lo: real, hi: real)
    ensures lo < hi ==> GridSize(lo, hi, SEGMENT_FPS) >= 0
  {
  }

  /** At every honest instant of the window each camera's nearest frame decodes. */
  ghost predicate WindowDecodes<F>(cams: seq<Camera<F>>, span: Span)
    requires forall c :: 0 <= c < |cams| ==> cams[c].stamps != []
  {
    forall m :: 0 <= m < GridSize(span.lo, span.hi, SEGMENT_FPS)
        && AllHonest(Stamps(cams), Instant(span.lo, m, SEGMENT_FPS))
      ==> Decodes(cams, Instant(span.lo, m, SEGMENT_FPS))
  }

  // ---- what a window leaves -----------------------------------------------------------

  function Instants<F, J>(rows: seq<Row<F, J>>): seq<real> {
    Map((row: Row<F, J>) => row.instant, rows)
  }

  /** `x` begins a whole period of the window, every camera has a stamp within two frames of
      it, and no such instant up to `x` needs a frame that does not decode. */
  ghost predicate Reached<F>(cams: seq<Camera<F>>, span: Span, fps: int, x: real)
    requires fps > 0 && forall c :: 0 <= c < |cams| ==> cams[c].stamps != []
  {
    && OnPeriod(span.lo, span.hi, fps, x) && Covered(Stamps(cams), x)
    && forall y :: y <= x && OnPeriod(span.lo, span.hi, fps, y) && Covered(Stamps(cams), y) ==> Decodes(cams, y)
  }

  /** Exactly the instants a window reaches, in order. */
  ghost predicate ListsReached<F>(cams: seq<Camera<F>>, span: Span, fps: int, xs: seq<real>)
    requires fps > 0 && forall c :: 0 <= c < |cams| ==> cams[c].stamps != []
  {
    && (forall x :: x in xs <==> Reached(cams, span, fps, x))
    && forall i, j :: 0 <= i < j < |xs| ==> xs[i] < xs[j]
  }

  /** The instants a window reaches are one episode, if it is not vetoed and reaches at least
      ten; otherwise none of it is written. */
  ghost predicate WrittenWhole<F, J>(cams: seq<Camera<F>>, span: Span, fps: int, vetoed: bool,
                                     episodes: seq<seq<Row<F, J>>>)
    requires fps > 0 && forall c :: 0 <= c < |cams| ==> cams[c].stamps != []
  {
    exists xs :: ListsReached(cams, span, fps, xs)
      && if !vetoed && |xs| >= 10 then IsEpisode(xs, episodes) else NothingFrom(span, episodes)
  }

  ghost predicate IsEpisode<F, J>(xs: seq<real>, episodes: seq<seq<Row<F, J>>>) {
    exists e :: 0 <= e < |episodes| && Instants(episodes[e]) == xs
  }

  ghost predicate NothingFrom<F, J>(span: Span, episodes: seq<seq<Row<F, J>>>) {
    forall e, r :: 0 <= e < |episodes| && 0 <= r < |episodes[e]| ==> !(span.lo <= episodes[e][r].instant < span.hi)
  }

  /** Instant `m` is written exactly when it is honest and everything honest up to it decodes. */
  lemma {:induction false} RowsReach<F, J>(cams: seq<Camera<F>>, arms: seq<Arm<J>>, lo: real, fps: int,
                                           task: string, n: nat, k: nat, m: nat)
    requires Usable(cams, arms) && fps > 0 && k <= m < n
    requires forall c :: 0 <= c < |cams| ==> Ascending(cams[c].stamps)
    ensures Instant(lo, m, fps) in Instants(IdealRows(cams, arms, lo, fps, task, n, k))
            <==> ReachedFrom(cams, lo, fps, k, m)
    decreases n - k
  {
    hide AllHonest, Decodes, StateAt, ActionAt, Instant, Ascending, Instants;
    var x, y := Instant(lo, k, fps), Instant(lo, m, fps);
    var rest := IdealRows(cams, arms, lo, fps, task, n, k + 1);
    if k < m {
      RowsReach(cams, arms, lo, fps, task, n, k + 1, m);
      InstantMonotone(lo, k, m, fps);
    } else {
      RowsAreLater(cams, arms, lo, fps, task, n, k);
    }
    ReachedFromNext(cams, lo, fps, k, m);
    if AllHonest(Stamps(cams), x) && Decodes(cams, x) {
      InstantsOfMore(Row(x, StateAt(arms, x), ActionAt(arms, x), task, NearestImages(cams, x)), rest);
    } else if AllHonest(Stamps(cams), x) {
      InstantsOfNone<F, J>();
    }
  }

  ghost predicate ReachedFrom<F>(cams: seq<Camera<F>>, lo: real, fps: int, k: nat, m: nat)
    requires fps > 0 && forall c :: 0 <= c < |cams| ==> cams[c].stamps != []
  {
    && AllHonest(Stamps(cams), Instant(lo, m, fps))
    && forall j :: k <= j <= m && AllHonest(Stamps(cams), Instant(lo, j, fps)) ==> Decodes(cams, Instant(lo, j, fps))
  }

  lemma ReachedFromNext<F>(cams: seq<Camera<F>>, lo: real, fps: int, k: nat, m: nat)
    requires fps > 0 && (forall c :: 0 <= c < |cams| ==> cams[c].stamps != []) && k <= m
    ensures var x := Instant(lo, k, fps);
      ReachedFrom(cams, lo, fps, k, m)
      <==> (AllHonest(Stamps(cams), x) ==> Decodes(cams, x))
           && if k == m then AllHonest(Stamps(cams), x) else ReachedFrom(cams, lo, fps, k + 1, m)
  {
    hide AllHonest, Decodes, Instant;
  }

  lemma InstantsOfMore<F, J>(row: Row<F, J>, rest: seq<Row<F, J>>)
    ensures Instants([row] + rest) == [row.instant] + Instants(rest)
  {
  }

  lemma InstantsOfNone<F, J>()
    ensures Instants<F, J>([]) == []
  {
  }

  /** The rows from the next instant on are of later instants. */
  lemma RowsAreLater<F, J>(cams: seq<Camera<F>>, arms: seq<Arm<J>>, lo: real, fps: int, task: string, n: nat, k: nat)
    requires Usable(cams, arms) && fps > 0 && k < n
    requires forall c :: 0 <= c < |cams| ==> Ascending(cams[c].stamps)
    ensures Instant(lo, k, fps) !in Instants(IdealRows(cams, arms, lo, fps, task, n, k + 1))
  {
    hide RightRow, OnGrid, Ascending;
    var rest := IdealRows(cams, arms, lo, fps, task, n, k + 1);
    IdealRowsRight(cams, arms, lo, fps, task, n, k + 1);
    forall r | 0 <= r < |rest| ensures Instant(lo, k, fps) < rest[r].instant {
      assert RightRow(cams, arms, IdealRows(cams, arms, lo, fps, task, n, k + 1)[r], task);
      OnGridFrom(lo, fps, k, n, rest[r].instant);
    }
  }

  /** On the grid, reaching an instant is reaching it from the start. */
  lemma ReachedOnGrid<F>(cams: seq<Camera<F>>, span: Span, fps: int, m: nat)
    requires fps > 0 && m < GridSize(span.lo, span.hi, fps)
    requires forall c :: 0 <= c < |cams| ==> cams[c].stamps != [] && Ascending(cams[c].stamps)
    ensures Reached(cams, span, fps, Instant(span.lo, m, fps)) <==> ReachedFrom(cams, span.lo, fps, 0, m)
  {
    hide AllHonest, Decodes, Covered, Instant, GridSize, OnPeriod, Ascending;
    var x := Instant(span.lo, m, fps);
    GridIsEveryPeriod(span.lo, span.hi, fps, x);
    CoveredIsHonest(Stamps(cams), x);
    if Reached(cams, span, fps, x) {
      forall j | 0 <= j <= m && AllHonest(Stamps(cams), Instant(span.lo, j, fps))
        ensures Decodes(cams, Instant(span.lo, j, fps))
      {
        InstantMonotone(span.lo, j, m, fps);
        GridIsEveryPeriod(span.lo, span.hi, fps, Instant(span.lo, j, fps));
        CoveredIsHonest(Stamps(cams), Instant(span.lo, j, fps));
      }
    }
    if ReachedFrom(cams, span.lo, fps, 0, m) {
      forall y | y <= x && OnPeriod(span.lo, span.hi, fps, y) && Covered(Stamps(cams), y) ensures Decodes(cams, y) {
        GridIsEveryPeriod(span.lo, span.hi, fps, y);
        CoveredIsHonest(Stamps(cams), y);
        var j :| 0 <= j < GridSize(span.lo, span.hi, fps) && y == Instant(span.lo, j, fps);
        if j > m {
          InstantMonotone(span.lo, m, j, fps);
        }
      }
    }
  }

  lemma WindowListsReached<F, J>(cams: seq<Camera<F>>, arms: seq<Arm<J>>, job: Job, w: nat)
    requires Usable(cams, arms) && job.fps > 0 && w < |job.spans|
    requires forall c :: 0 <= c < |cams| ==> Ascending(cams[c].stamps)
    ensures ListsReached(cams, job.spans[w], job.fps, Instants(WindowRows(cams, arms, job, w)))
  {
    hide ReachedFrom, Reached, IdealRows, Instant, GridSize, Ascending, OnPeriod, RightRow;
    var span := job.spans[w];
    var rows: seq<Row<F, J>> := WindowRows(cams, arms, job, w);
    var n, xs := GridSize(span.lo, span.hi, job.fps), Instants(rows);
    WindowRowsWithin(cams, arms, job, w);
    forall x ensures x in xs <==> Reached(cams, span, job.fps, x) {
      GridIsEveryPeriod(span.lo, span.hi, job.fps, x);
      if x in xs {
        var r :| 0 <= r < |rows| && rows[r].instant == x;
        WindowRowRight(cams, arms, job, w, r);
      }
      if x in xs || Reached(cams, span, job.fps, x) {
        ReachedIsOnGrid(cams, span, job.fps, x);
        var m :| 0 <= m < n && x == Instant(span.lo, m, job.fps);
        RowsReach(cams, arms, span.lo, job.fps, TaskOf(job, w), n, 0, m);
        ReachedOnGrid(cams, span, job.fps, m);
      }
    }
  }

  lemma ReachedIsOnGrid<F>(cams: seq<Camera<F>>, span: Span, fps: int, x: real)
    requires fps > 0 && forall c :: 0 <= c < |cams| ==> cams[c].stamps != []
    ensures Reached(cams, span, fps, x) ==> OnPeriod(span.lo, span.hi, fps, x)
  {
  }

  /** Whatever the export of a take does, the instants a window reaches are exactly the
      instants of one episode, unless it is vetoed or reaches fewer than ten, and then
      nothing of it is written. */
  lemma WindowIsWrittenWhole<F, J>(cams: seq<Camera<F>>, arms: seq<Arm<J>>, job: Job, veto: nat -> bool, w: nat)
    requires Usable(cams, arms) && job.fps > 0 && Disjoint(job.spans) && w < |job.spans|
    requires forall c :: 0 <= c < |cams| ==> Ascending(cams[c].stamps)
    ensures WrittenWhole(cams, job.spans[w], job.fps, veto(w),
                         EpisodeRun(cams, arms, job, veto, 0, seq(|cams|, _ => -1)).episodes)
  {
    hide ListsReached, IdealRows, GridSize, Ascending, WindowRows, EpisodeRun, IdealExport;
    ReadersRefineLookup(cams, arms, job, veto);
    WindowListsReached(cams, arms, job, w);
    var span, rows := job.spans[w], WindowRows(cams, arms, job, w);
    var episodes := IdealExport(cams, arms, job, veto, 0).episodes;
    RowsFitWindow(cams, arms, job, w);
    if Saved(cams, arms, job, veto, w) {
      SavedIsExported(cams, arms, job, veto, 0, w);
      assert IsEpisode(Instants(rows), episodes);
    } else {
      UnsavedLeavesNothing(cams, arms, job, veto, w);
    }
  }

  lemma RowsFitWindow<F, J>(cams: seq<Camera<F>>, arms: seq<Arm<J>>, job: Job, w: nat)
    requires Usable(cams, arms) && job.fps > 0 && w < |job.spans|
    ensures |WindowRows(cams, arms, job, w)| <= MaxInt(0, GridSize(job.spans[w].lo, job.spans[w].hi, job.fps))
  {
    hide IdealRows, GridSize;
    var span := job.spans[w];
    var n := GridSize(span.lo, span.hi, job.fps);
    if n >= 0 {
      RowsFitGrid(cams, arms, span.lo, job.fps, TaskOf(job, w), n, 0);
    }
  }

  lemma UnsavedLeavesNothing<F, J>(cams: seq<Camera<F>>, arms: seq<Arm<J>>, job: Job, veto: nat -> bool, w: nat)
    requires Usable(cams, arms) && job.fps > 0 && Disjoint(job.spans) && w < |job.spans|
    requires forall c :: 0 <= c < |cams| ==> Ascending(cams[c].stamps)
    requires !Saved(cams, arms, job, veto, w)
    ensures NothingFrom(job.spans[w], IdealExport(cams, arms, job, veto, 0).episodes)
  {
    hide Saved, WindowRows, IdealExport, Usable, Ascending;
    IdealClean(cams, arms, job, veto, 0);
    var span := job.spans[w];
    var episodes: seq<seq<Row<F, J>>> := IdealExport(cams, arms, job, veto, 0).episodes;
    forall e, r | 0 <= e < |episodes| && 0 <= r < |episodes[e]|
      ensures !(span.lo <= episodes[e][r].instant < span.hi)
    {
      assert FromWindow(cams, arms, job, veto, 0, episodes[e]);
      var v :| 0 <= v < |job.spans| && Saved(cams, arms, job, veto, v) && episodes[e] == WindowRows(cams, arms, job, v);
      WindowRowsWithin(cams, arms, job, v);
      assert v != w;
    }
  }

  lemma NothingCounted(stamps: seq<seq<real>>, lo: real, fps: int)
    requires fps > 0 && forall c :: 0 <= c < |stamps| ==> stamps[c] != []
    ensures HonestCount(stamps, lo, fps, 0) == 0
  {
  }
}

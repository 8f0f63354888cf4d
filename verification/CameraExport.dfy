/** Writing the windows of one episode: forward-only video readers, the write loop with its
    staleness filter and its reopen branch, and the stateless export it amounts to. */
module CameraExport {
  import opened Common
  import opened Grid
  import opened Windows

  // ---- the reader -------------------------------------------------------------------

  /** What a request for a frame gives: the backward-seek error, no frame, or an image. */
  datatype Served<+F> = Backward | Missing | Image(image: F)

  /** The answer for frame `index` and the position afterwards, from position `pos`. */
  function Serve<F>(video: seq<F>, pos: int, index: int): (r: (Served<F>, int))
    requires -1 <= pos < |video|
    ensures -1 <= r.1 < |video|
  {
    if index < pos then (Backward, pos)
    else if index >= |video| then (Missing, |video| - 1)
    else if index < 0 then (Missing, pos)
    else (Image(video[index]), index)
  }

  /** One recording read strictly forward. `video` are the frames that decode, in order. */
  class CameraStream<F> {
    const video: seq<F>
    const t: seq<real>
    var pos: int
    var frame: Option<F>

    ghost predicate Valid()
      reads this
    {
      -1 <= pos < |video| && frame == if pos < 0 then None else Some(video[pos])
    }

    constructor (video: seq<F>, t: seq<real>)
      ensures Valid() && pos == -1 && this.video == video && this.t == t
    {
      this.video, this.t := video, t;
      pos, frame := -1, None;
    }

    method FrameAt(index: int) returns (r: Served<F>)
      requires Valid()
      modifies this
      ensures Valid() && (r, pos) == Serve(video, old(pos), index)
    {
      if index < pos {
        return Backward;
      }
      while pos < index
        invariant Valid() && old(pos) <= pos <= MaxInt(index, old(pos))
      {
        if pos + 1 == |video| {
          return Missing;
        }
        pos := pos + 1;
        frame := Some(video[pos]);
      }
      r := if frame.None? then Missing else Image(frame.value);
    }
  }

  // ---- rows -------------------------------------------------------------------------

  datatype Camera<+F> = Camera(video: seq<F>, stamps: seq<real>)

  /** Follower state and leader action, each on its own timeline. */
  datatype Arm<+J> = Arm(tState: seq<real>, state: seq<J>, tAction: seq<real>, action: seq<J>)

  /** One row of the dataset. `instant` is the grid instant it was sampled for. */
  datatype Row<+F, +J> = Row(instant: real, state: seq<J>, action: seq<J>, task: string, images: seq<F>)

  ghost predicate Usable<F, J>(cams: seq<Camera<F>>, arms: seq<Arm<J>>) {
    && (forall c :: 0 <= c < |cams| ==> cams[c].stamps != [])
    && (forall a :: 0 <= a < |arms| ==>
          && arms[a].tState != [] && |arms[a].tState| == |arms[a].state|
          && arms[a].tAction != [] && |arms[a].tAction| == |arms[a].action|)
  }

  function Stamps<F>(cams: seq<Camera<F>>): (r: seq<seq<real>>)
    ensures |r| == |cams| && forall c :: 0 <= c < |cams| ==> r[c] == cams[c].stamps
  {
    seq(|cams|, c requires 0 <= c < |cams| => cams[c].stamps)
  }

  function Pick<J>(s: seq<J>, i: int): J
    requires -|s| <= i < |s|
  {
    if i < 0 then s[|s| + i] else s[i]
  }

  function StateAt<J>(arms: seq<Arm<J>>, x: real): seq<J>
    requires forall a :: 0 <= a < |arms| ==> arms[a].tState != [] && |arms[a].tState| == |arms[a].state|
  {
    seq(|arms|, a requires 0 <= a < |arms| => Pick(arms[a].state, NearestIndex(arms[a].tState, x)))
  }

  function ActionAt<J>(arms: seq<Arm<J>>, x: real): seq<J>
    requires forall a :: 0 <= a < |arms| ==> arms[a].tAction != [] && |arms[a].tAction| == |arms[a].action|
  {
    seq(|arms|, a requires 0 <= a < |arms| => Pick(arms[a].action, NearestIndex(arms[a].tAction, x)))
  }

  // ---- the write loop as it runs ----------------------------------------------------

  ghost predicate Positions<F>(cams: seq<Camera<F>>, pos: seq<int>) {
    |pos| == |cams| && forall c :: 0 <= c < |cams| ==> -1 <= pos[c] < |cams[c].video|
  }

  datatype Images<+F> = Images(images: seq<F>) | Undecodable | SeekError

  /** The images already in hand followed by those still to come, if they all come. */
  ghost function Prepend<F>(images: seq<F>, rest: (Images<F>, seq<int>)): (Images<F>, seq<int>) {
    (if rest.0.Images? then Images(images + rest.0.images) else rest.0, rest.1)
  }

  lemma PrependMore<F>(images: seq<F>, f: F, rest: (Images<F>, seq<int>))
    ensures Prepend(images, Prepend([f], rest)) == Prepend(images + [f], rest)
  {
    if rest.0.Images? {
      assert images + ([f] + rest.0.images) == images + [f] + rest.0.images;
    }
  }

  lemma PrependNone<F>(rest: (Images<F>, seq<int>))
    ensures Prepend([], rest) == rest
  {
    if rest.0.Images? {
      assert [] + rest.0.images == rest.0.images;
    }
  }

  lemma PrependStopped<F>(images: seq<F>, rest: (Images<F>, seq<int>))
    ensures !rest.0.Images? ==> Prepend(images, rest) == rest
    ensures rest.0 == Images([]) ==> Prepend(images, rest) == (Images(images), rest.1)
  {
    assert images + [] == images;
  }

  /** Ask the cameras from number `c` on for the frame nearest to `x`, in order. */
  ghost function ServeFrom<F>(cams: seq<Camera<F>>, pos: seq<int>, x: real, c: nat): (r: (Images<F>, seq<int>))
    requires Positions(cams, pos) && c <= |cams| && forall k :: 0 <= k < |cams| ==> cams[k].stamps != []
    ensures Positions(cams, r.1)
    decreases |cams| - c
  {
    if c == |cams| then (Images([]), pos)
    else
      var (served, p) := Serve(cams[c].video, pos[c], NearestIndex(cams[c].stamps, x));
      var pos' := pos[c := p];
      match served
      case Backward => (SeekError, pos')
      case Missing => (Undecodable, pos')
      case Image(f) =>
        Prepend([f], ServeFrom(cams, pos', x, c + 1))
  }

  datatype Written<+F, +J> = Written(rows: seq<Row<F, J>>, pos: seq<int>, raised: bool)

  /** The rows of one window from grid instant `k` on. */
  ghost function WindowRun<F, J>(cams: seq<Camera<F>>, arms: seq<Arm<J>>, lo: real, fps: int, task: string,
                                 n: nat, k: nat, pos: seq<int>): (r: Written<F, J>)
    requires Usable(cams, arms) && Positions(cams, pos) && fps > 0 && k <= n
    ensures Positions(cams, r.pos)
    decreases n - k
  {
    if k == n then Written([], pos, false)
    else
      var x := Instant(lo, k, fps);
      if !AllHonest(Stamps(cams), x) then WindowRun(cams, arms, lo, fps, task, n, k + 1, pos)
      else
        var (images, pos') := ServeFrom(cams, pos, x, 0);
        match images
        case SeekError => Written([], pos', true)
        case Undecodable => Written([], pos', false)
        case Images(fs) =>
          var rest := WindowRun(cams, arms, lo, fps, task, n, k + 1, pos');
          rest.(rows := [Row(x, StateAt(arms, x), ActionAt(arms, x), task, fs)] + rest.rows)
  }

  const MIN_WINDOW_FRAMES := 10

  /** What an episode's export leaves: the saved dataset episodes, the frames reported, how
      often a reader was reopened, and whether a seek error stopped it. */
  datatype Dump<+F, +J> = Dump(episodes: seq<seq<Row<F, J>>>, frames: nat, reopened: nat, raised: bool)

  datatype Job = Job(spans: seq<Span>, tasks: seq<Option<string>>, task: string, fps: int)

  /** A window's own task when it has one, else the task of the episode. */
  function TaskOf(job: Job, w: nat): string {
    if w < |job.tasks| && job.tasks[w].Some? && job.tasks[w].value != "" then job.tasks[w].value else job.task
  }

  function Behindhand(lo: real, stamps: seq<real>, pos: int): bool
    requires stamps != []
  {
    NearestIndex(stamps, lo) < pos
  }

  /** A reader already past the first frame a window needs starts again from the top. */
  ghost function Reopened<F>(cams: seq<Camera<F>>, lo: real, pos: seq<int>): (r: seq<int>)
    requires Positions(cams, pos) && forall c :: 0 <= c < |cams| ==> cams[c].stamps != []
    ensures Positions(cams, r)
  {
    seq(|cams|, c requires 0 <= c < |cams| => if Behindhand(lo, cams[c].stamps, pos[c]) then -1 else pos[c])
  }

  ghost function ReopenCount<F>(cams: seq<Camera<F>>, lo: real, pos: seq<int>, n: nat): nat
    requires Positions(cams, pos) && n <= |cams| && forall c :: 0 <= c < |cams| ==> cams[c].stamps != []
  {
    if n == 0 then 0
    else ReopenCount(cams, lo, pos, n - 1) + if Behindhand(lo, cams[n - 1].stamps, pos[n - 1]) then 1 else 0
  }

  /** The windows from number `w` on, starting from the readers' positions. */
  ghost function EpisodeRun<F, J>(cams: seq<Camera<F>>, arms: seq<Arm<J>>, job: Job, veto: nat -> bool,
                                  w: nat, pos: seq<int>): Dump<F, J>
    requires Usable(cams, arms) && Positions(cams, pos) && job.fps > 0 && w <= |job.spans|
    decreases |job.spans| - w
  {
    if w == |job.spans| then Dump([], 0, 0, false)
    else
      var span := job.spans[w];
      var n := GridSize(span.lo, span.hi, job.fps);
      if n < MIN_WINDOW_FRAMES || veto(w) then EpisodeRun(cams, arms, job, veto, w + 1, pos)
      else
        var pos', again := Reopened(cams, span.lo, pos), ReopenCount(cams, span.lo, pos, |cams|);
        var out := WindowRun(cams, arms, span.lo, job.fps, TaskOf(job, w), n, 0, pos');
        if out.raised then Dump([], 0, again, true)
        else
          Adding(out.rows, again, EpisodeRun(cams, arms, job, veto, w + 1, out.pos))
  }

  /** A window's rows are saved as an episode when there are enough of them. */
  ghost function Adding<F, J>(rows: seq<Row<F, J>>, again: nat, rest: Dump<F, J>): Dump<F, J> {
    if |rows| >= MIN_WINDOW_FRAMES
    then Dump([rows] + rest.episodes, |rows| + rest.frames, again + rest.reopened, rest.raised)
    else rest.(reopened := again + rest.reopened)
  }

  // ---- the loop itself --------------------------------------------------------------

  ghost predicate Mirrors<F>(streams: seq<CameraStream<F>>, cams: seq<Camera<F>>, pos: seq<int>)
    reads streams
  {
    && |streams| == |cams| && Positions(cams, pos)
    && (forall i, j :: 0 <= i < j < |streams| ==> streams[i] != streams[j])
    && forall c :: 0 <= c < |streams| ==>
         streams[c].Valid() && streams[c].pos == pos[c]
         && streams[c].video == cams[c].video && streams[c].t == cams[c].stamps
  }

  method ServeOne<F>(streams: seq<CameraStream<F>>, ghost cams: seq<Camera<F>>, ghost pos: seq<int>, c: nat, x: real)
      returns (served: Served<F>, ghost pos': seq<int>)
    requires Mirrors(streams, cams, pos) && c < |streams| && cams[c].stamps != []
    modifies streams[c]
    ensures var (r, p) := Serve(cams[c].video, pos[c], NearestIndex(cams[c].stamps, x));
            served == r && pos' == pos[c := p] && Mirrors(streams, cams, pos')
  {
    served := streams[c].FrameAt(NearestIndex(streams[c].t, x));
    pos' := pos[c := streams[c].pos];
  }

  /** One row's images: ask each camera in turn, stop at the first that has none. */
  method ServeRow<F>(streams: seq<CameraStream<F>>, ghost cams: seq<Camera<F>>, ghost pos: seq<int>, x: real)
      returns (r: Images<F>, ghost pos': seq<int>)
    requires Mirrors(streams, cams, pos) && forall c :: 0 <= c < |cams| ==> cams[c].stamps != []
    modifies streams
    ensures (r, pos') == ServeFrom(cams, pos, x, 0) && Mirrors(streams, cams, pos')
  {
    hide Serve, NearestIndex, Prepend;
    var images: seq<F> := [];
    pos' := pos;
    ghost var whole := ServeFrom(cams, pos, x, 0);
    PrependNone(whole);
    for c := 0 to |streams|
      invariant Mirrors(streams, cams, pos')
      invariant whole == Prepend(images, ServeFrom(cams, pos', x, c))
    {
      var served;
      ghost var before := ServeFrom(cams, pos', x, c);
      served, pos' := ServeOne(streams, cams, pos', c, x);
      PrependStopped(images, before);
      match served {
        case Backward => return SeekError, pos';
        case Missing => return Undecodable, pos';
        case Image(f) =>
          PrependMore(images, f, ServeFrom(cams, pos', x, c + 1));
          images := images + [f];
      }
    }
    PrependStopped(images, ServeFrom(cams, pos', x, |streams|));
    r := Images(images);
  }

  method WriteWindow<F, J>(streams: seq<CameraStream<F>>, ghost cams: seq<Camera<F>>, arms: seq<Arm<J>>,
                           lo: real, fps: int, task: string, n: nat, ghost pos: seq<int>)
      returns (rows: seq<Row<F, J>>, raised: bool, ghost pos': seq<int>)
    requires Mirrors(streams, cams, pos) && Usable(cams, arms) && fps > 0
    modifies streams
    ensures Written(rows, pos', raised) == WindowRun(cams, arms, lo, fps, task, n, 0, pos)
    ensures Mirrors(streams, cams, pos')
  {
    hide WindowRun, Following, Mirrors, AllHonest, StateAt, ActionAt, Instant, ServeFrom, Positions;
    rows, pos' := [], pos;
    MirrorsPositions(streams, cams, pos);
    ghost var whole := WindowRun(cams, arms, lo, fps, task, n, 0, pos);
    FollowingNone(whole);
    var stamps := seq(|streams|, c requires 0 <= c < |streams| => streams[c].t);
    assert stamps == Stamps(cams);
    for k := 0 to n
      invariant Mirrors(streams, cams, pos') && Positions(cams, pos')
      invariant whole == Following(rows, WindowRun(cams, arms, lo, fps, task, n, k, pos'))
    {
      var x := Instant(lo, k, fps);
      WindowRunUnfolds(cams, arms, lo, fps, task, n, k, pos');
      if AllHonest(stamps, x) {
        var images;
        images, pos' := ServeRow(streams, cams, pos', x);
        MirrorsPositions(streams, cams, pos');
        FollowingStopped(rows, pos', images.SeekError?);
        match images {
          case SeekError => return rows, true, pos';
          case Undecodable => return rows, false, pos';
          case Images(fs) =>
            var row := Row(x, StateAt(arms, x), ActionAt(arms, x), task, fs);
            FollowingMore(rows, row, WindowRun(cams, arms, lo, fps, task, n, k + 1, pos'));
            rows := rows + [row];
        }
      }
    }
    WindowRunEnds(cams, arms, lo, fps, task, n, pos');
    FollowingStopped(rows, pos', false);
    raised := false;
  }

  /** Rows already written followed by what the rest of the window writes. */
  ghost function Following<F, J>(rows: seq<Row<F, J>>, rest: Written<F, J>): Written<F, J> {
    rest.(rows := rows + rest.rows)
  }

  lemma FollowingNone<F, J>(rest: Written<F, J>)
    ensures Following([], rest) == rest
  {
    assert [] + rest.rows == rest.rows;
  }

  lemma FollowingMore<F, J>(rows: seq<Row<F, J>>, row: Row<F, J>, rest: Written<F, J>)
    ensures Following(rows, rest.(rows := [row] + rest.rows)) == Following(rows + [row], rest)
  {
    assert rows + ([row] + rest.rows) == rows + [row] + rest.rows;
  }

  lemma FollowingStopped<F, J>(rows: seq<Row<F, J>>, pos: seq<int>, raised: bool)
    ensures Following(rows, Written([], pos, raised)) == Written(rows, pos, raised)
  {
    assert rows + [] == rows;
  }

  lemma MirrorsPositions<F>(streams: seq<CameraStream<F>>, cams: seq<Camera<F>>, pos: seq<int>)
    requires Mirrors(streams, cams, pos)
    ensures Positions(cams, pos) && |streams| == |cams|
    ensures forall c :: 0 <= c < |streams| ==> streams[c].t == cams[c].stamps
  {
  }

  /** One grid instant: passed over when stale, otherwise served. */
  lemma WindowRunUnfolds<F, J>(cams: seq<Camera<F>>, arms: seq<Arm<J>>, lo: real, fps: int,
                               task: string, n: nat, k: nat, pos: seq<int>)
    requires Usable(cams, arms) && Positions(cams, pos) && fps > 0 && k < n
    ensures var x := Instant(lo, k, fps);
            var run := WindowRun(cams, arms, lo, fps, task, n, k, pos);
      if !AllHonest(Stamps(cams), x) then run == WindowRun(cams, arms, lo, fps, task, n, k + 1, pos)
      else
        var (images, pos') := ServeFrom(cams, pos, x, 0);
        match images
        case SeekError => run == Written([], pos', true)
        case Undecodable => run == Written([], pos', false)
        case Images(fs) =>
          var rest := WindowRun(cams, arms, lo, fps, task, n, k + 1, pos');
          run == rest.(rows := [Row(x, StateAt(arms, x), ActionAt(arms, x), task, fs)] + rest.rows)
  {
    hide ServeFrom, AllHonest, Instant, StateAt, ActionAt;
  }

  lemma WindowRunEnds<F, J>(cams: seq<Camera<F>>, arms: seq<Arm<J>>, lo: real, fps: int, task: string, n: nat,
                            pos: seq<int>)
    requires Usable(cams, arms) && Positions(cams, pos) && fps > 0
    ensures WindowRun(cams, arms, lo, fps, task, n, n, pos) == Written([], pos, false)
  {
  }

  lemma MirrorsReplace<F>(streams: seq<CameraStream<F>>, cams: seq<Camera<F>>, pos: seq<int>, c: nat,
                          s: CameraStream<F>)
    requires Mirrors(streams, cams, pos) && c < |streams| && s !in streams
    requires s.Valid() && s.pos == -1 && s.video == cams[c].video && s.t == cams[c].stamps
    ensures Mirrors(streams[c := s], cams, pos[c := -1])
  {
  }

  lemma ReopenedIs<F>(cams: seq<Camera<F>>, lo: real, pos: seq<int>, pos': seq<int>)
    requires Positions(cams, pos) && forall c :: 0 <= c < |cams| ==> cams[c].stamps != []
    requires |pos'| == |cams|
    requires forall c :: 0 <= c < |cams| ==> pos'[c] == if Behindhand(lo, cams[c].stamps, pos[c]) then -1 else pos[c]
    ensures pos' == Reopened(cams, lo, pos)
  {
    hide Behindhand;
  }

  lemma ReopenCountNext<F>(cams: seq<Camera<F>>, lo: real, pos: seq<int>, n: nat)
    requires Positions(cams, pos) && n < |cams| && forall c :: 0 <= c < |cams| ==> cams[c].stamps != []
    ensures ReopenCount(cams, lo, pos, 0) == 0
    ensures ReopenCount(cams, lo, pos, n + 1)
            == ReopenCount(cams, lo, pos, n) + if Behindhand(lo, cams[n].stamps, pos[n]) then 1 else 0
  {
    hide Behindhand;
  }

  method ReopenOne<F>(streams: seq<CameraStream<F>>, ghost cams: seq<Camera<F>>, ghost pos: seq<int>, c: nat, lo: real)
      returns (s: CameraStream<F>, again: bool)
    requires Mirrors(streams, cams, pos) && c < |streams| && cams[c].stamps != []
    ensures again == Behindhand(lo, cams[c].stamps, pos[c])
    ensures s == streams[c] || fresh(s)
    ensures Mirrors(streams[c := s], cams, pos[c := if again then -1 else pos[c]])
  {
    s, again := streams[c], Behindhand(lo, streams[c].t, streams[c].pos);
    if again {
      s := new CameraStream(streams[c].video, streams[c].t);
      MirrorsReplace(streams, cams, pos, c, s);
    } else {
      assert streams[c := s] == streams && pos[c := pos[c]] == pos;
    }
  }

  method ReopenBehindhand<F>(streams: seq<CameraStream<F>>, ghost cams: seq<Camera<F>>, ghost pos: seq<int>, lo: real)
      returns (current: seq<CameraStream<F>>, again: nat, ghost pos': seq<int>)
    requires Mirrors(streams, cams, pos) && forall c :: 0 <= c < |cams| ==> cams[c].stamps != []
    ensures pos' == Reopened(cams, lo, pos) && again == ReopenCount(cams, lo, pos, |cams|)
    ensures |current| == |streams| && Mirrors(current, cams, pos')
    ensures forall k :: 0 <= k < |current| ==> current[k] == streams[k] || fresh(current[k])
  {
    hide Behindhand, Mirrors, Reopened, Positions;
    MirrorsPositions(streams, cams, pos);
    current, again, pos' := streams, 0, pos;
    for c := 0 to |streams|
      invariant |current| == |streams| == |pos'| && Mirrors(current, cams, pos')
      invariant again == ReopenCount(cams, lo, pos, c)
      invariant forall k :: 0 <= k < |current| ==> current[k] == streams[k] || fresh(current[k])
      invariant forall k :: 0 <= k < |pos'| ==>
        pos'[k] == if k < c && Behindhand(lo, cams[k].stamps, pos[k]) then -1 else pos[k]
    {
      ReopenCountNext(cams, lo, pos, c);
      var s, reopened := ReopenOne(current, cams, pos', c, lo);
      current, again := current[c := s], again + if reopened then 1 else 0;
      pos' := pos'[c := if reopened then -1 else pos'[c]];
    }
    ReopenedIs(cams, lo, pos, pos');
  }

  method OpenAll<F>(cams: seq<Camera<F>>) returns (streams: seq<CameraStream<F>>)
    ensures Mirrors(streams, cams, seq(|cams|, _ => -1))
    ensures forall k :: 0 <= k < |streams| ==> fresh(streams[k])
  {
    streams := [];
    for c := 0 to |cams|
      invariant |streams| == c && forall k :: 0 <= k < |streams| ==> fresh(streams[k])
      invariant forall k :: 0 <= k < c ==>
        && streams[k].Valid() && streams[k].pos == -1
        && streams[k].video == cams[k].video && streams[k].t == cams[k].stamps
      invariant forall i, j :: 0 <= i < j < c ==> streams[i] != streams[j]
    {
      var s := new CameraStream(cams[c].video, cams[c].stamps);
      streams := streams + [s];
    }
  }

  method ExportEpisode<F, J>(cams: seq<Camera<F>>, arms: seq<Arm<J>>, job: Job, veto: nat -> bool)
      returns (dump: Dump<F, J>)
    requires Usable(cams, arms) && job.fps > 0
    ensures dump == EpisodeRun(cams, arms, job, veto, 0, seq(|cams|, _ => -1))
  {
    hide WindowRun, Reopened, ReopenCount, GridSize, TaskOf, EpisodeRun, Joined, Mirrors, Positions;
    var streams := OpenAll(cams);
    ghost var pos: seq<int> := seq(|cams|, _ => -1);
    MirrorsPositions(streams, cams, pos);
    ghost var whole := EpisodeRun(cams, arms, job, veto, 0, pos);
    dump := Dump([], 0, 0, false);
    JoinedNone(whole);
    for w := 0 to |job.spans|
      invariant Mirrors(streams, cams, pos) && Positions(cams, pos)
      invariant forall k :: 0 <= k < |streams| ==> fresh(streams[k])
      invariant whole == Joined(dump, EpisodeRun(cams, arms, job, veto, w, pos))
      invariant !dump.raised
    {
      var span := job.spans[w];
      var n := GridSize(span.lo, span.hi, job.fps);
      EpisodeRunUnfolds(cams, arms, job, veto, w, pos);
      if n >= MIN_WINDOW_FRAMES && !veto(w) {
        var again;
        streams, again, pos := ReopenBehindhand(streams, cams, pos, span.lo);
        assert forall k :: 0 <= k < |streams| ==> fresh(streams[k]);
        var rows, raised;
        rows, raised, pos := WriteWindow(streams, cams, arms, span.lo, job.fps, TaskOf(job, w), n, pos);
        MirrorsPositions(streams, cams, pos);
        JoinedMore(dump, rows, again, EpisodeRun(cams, arms, job, veto, w + 1, pos));
        JoinedStopped(dump, again, true);
        dump := dump.(reopened := dump.reopened + again);
        if raised {
          return dump.(raised := true);
        }
        if |rows| >= MIN_WINDOW_FRAMES {
          dump := dump.(episodes := dump.episodes + [rows], frames := dump.frames + |rows|);
        }
      }
    }
    EpisodeRunEnds(cams, arms, job, veto, pos);
    JoinedStopped(dump, 0, false);
  }

  /** One window: passed over, broken off by a seek error, or written and perhaps saved. */
  lemma EpisodeRunUnfolds<F, J>(cams: seq<Camera<F>>, arms: seq<Arm<J>>, job: Job, veto: nat -> bool, w: nat,
                                pos: seq<int>)
    requires Usable(cams, arms) && Positions(cams, pos) && job.fps > 0 && w < |job.spans|
    ensures var span := job.spans[w];
            var n := GridSize(span.lo, span.hi, job.fps);
            var run := EpisodeRun(cams, arms, job, veto, w, pos);
      if n < MIN_WINDOW_FRAMES || veto(w) then run == EpisodeRun(cams, arms, job, veto, w + 1, pos)
      else
        var again := ReopenCount(cams, span.lo, pos, |cams|);
        var out := WindowRun(cams, arms, span.lo, job.fps, TaskOf(job, w), n, 0, Reopened(cams, span.lo, pos));
        run == if out.raised then Dump([], 0, again, true)
               else Adding(out.rows, again, EpisodeRun(cams, arms, job, veto, w + 1, out.pos))
  {
    hide WindowRun, Reopened, ReopenCount, GridSize, TaskOf;
  }

  lemma EpisodeRunEnds<F, J>(cams: seq<Camera<F>>, arms: seq<Arm<J>>, job: Job, veto: nat -> bool, pos: seq<int>)
    requires Usable(cams, arms) && Positions(cams, pos) && job.fps > 0
    ensures EpisodeRun(cams, arms, job, veto, |job.spans|, pos) == Dump([], 0, 0, false)
  {
  }

  lemma JoinedNone<F, J>(rest: Dump<F, J>)
    ensures Joined(Dump([], 0, 0, false), rest) == rest
  {
    assert [] + rest.episodes == rest.episodes;
  }

  lemma JoinedMore<F, J>(done: Dump<F, J>, rows: seq<Row<F, J>>, again: nat, rest: Dump<F, J>)
    ensures Joined(done, Adding(rows, again, rest))
            == if |rows| >= MIN_WINDOW_FRAMES
               then Joined(done.(reopened := done.reopened + again, episodes := done.episodes + [rows],
                                 frames := done.frames + |rows|), rest)
               else Joined(done.(reopened := done.reopened + again), rest)
  {
    assert done.episodes + ([rows] + rest.episodes) == done.episodes + [rows] + rest.episodes;
  }

  lemma JoinedStopped<F, J>(done: Dump<F, J>, again: nat, raised: bool)
    ensures Joined(done, Dump([], 0, again, raised)) == done.(reopened := done.reopened + again, raised := raised)
  {
    assert done.episodes + [] == done.episodes;
  }

  /** What has been exported followed by what is still to come. */
  ghost function Joined<F, J>(done: Dump<F, J>, rest: Dump<F, J>): Dump<F, J> {
    Dump(done.episodes + rest.episodes, done.frames + rest.frames, done.reopened + rest.reopened, rest.raised)
  }
}

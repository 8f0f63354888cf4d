/** Resampling a stream onto the export grid: the nearest stamp to each instant, the
    staleness cap on camera frames, and the yield the segmenter computes ahead of time. */
module Grid {
  import opened Common

  ghost predicate Ascending(t: seq<real>) {
    forall i, j :: 0 <= i < j < |t| ==> t[i] <= t[j]
  }

  /** How many stamps lie before `x`. */
  function SearchSorted(t: seq<real>, x: real): nat {
    if t == [] then 0
    else if t[|t| - 1] < x then |t|
    else SearchSorted(t[..|t| - 1], x)
  }

  /** An array read with the language's own negative indices. */
  function At(t: seq<real>, i: int): real
    requires -|t| <= i < |t|
  {
    if i < 0 then t[|t| + i] else t[i]
  }

  /** The clipped insertion point both tools compare the instant around. */
  function Pivot(t: seq<real>, x: real): int
    requires t != []
    ensures 0 <= Pivot(t, x) < |t| && (|t| >= 2 ==> Pivot(t, x) >= 1)
  {
    MinInt(MaxInt(SearchSorted(t, x), 1), |t| - 1)
  }

  /** Index of the nearest sample. For a single stamp the insertion point is clipped to 0,
      so the answer can be -1, which reads the same stamp. */
  function NearestIndex(t: seq<real>, x: real): (i: int)
    requires t != []
    ensures -1 <= i < |t| && (|t| >= 2 ==> i >= 0)
  {
    var k := Pivot(t, x);
    if x - At(t, k - 1) <= At(t, k) - x then k - 1 else k
  }

  function Distance(t: seq<real>, i: int, x: real): real
    requires -|t| <= i < |t|
  {
    AbsReal(At(t, i) - x)
  }

  lemma {:induction false} SearchSortedSplits(t: seq<real>, x: real)
    requires Ascending(t)
    ensures SearchSorted(t, x) <= |t|
    ensures forall i :: 0 <= i < SearchSorted(t, x) ==> t[i] < x
    ensures forall i :: SearchSorted(t, x) <= i < |t| ==> x <= t[i]
  {
    if t != [] && t[|t| - 1] >= x {
      SearchSortedSplits(t[..|t| - 1], x);
      assert forall i :: 0 <= i < |t| - 1 ==> t[i] == t[..|t| - 1][i];
    }
  }

  /** The index chosen is at least as near as every stamp, instants before the first and
      after the last stamp included; of two stamps as near it is the earlier. */
  lemma NearestIsNearest(t: seq<real>, x: real)
    requires t != [] && Ascending(t)
    ensures forall k :: 0 <= k < |t| ==> Distance(t, NearestIndex(t, x), x) <= AbsReal(t[k] - x)
    ensures forall k :: 0 <= k < |t| && Distance(t, NearestIndex(t, x), x) == AbsReal(t[k] - x) ==>
              At(t, NearestIndex(t, x)) <= t[k]
  {
    SearchSortedSplits(t, x);
    var p := Pivot(t, x);
    if |t| >= 2 {
      forall k | 0 <= k < |t|
        ensures Distance(t, NearestIndex(t, x), x) <= AbsReal(t[k] - x)
        ensures Distance(t, NearestIndex(t, x), x) == AbsReal(t[k] - x) ==> At(t, NearestIndex(t, x)) <= t[k]
      {
        assert k < p ==> t[k] <= t[p - 1];
        assert k > p ==> t[p] <= t[k];
      }
    }
  }

  lemma {:induction false} SearchSortedMonotone(t: seq<real>, x: real, y: real)
    requires x <= y
    ensures SearchSorted(t, x) <= SearchSorted(t, y) <= |t|
  {
    if t != [] {
      SearchSortedMonotone(t[..|t| - 1], x, y);
    }
  }

  /** A later instant never asks for an earlier frame. */
  lemma NearestMonotone(t: seq<real>, x: real, y: real)
    requires t != [] && x <= y
    ensures NearestIndex(t, x) <= NearestIndex(t, y)
  {
    SearchSortedMonotone(t, x, y);
  }

  /** The one case in which the index is negative: a single stamp and an instant not after it. */
  lemma NegativeOnlyForSingleStamp(t: seq<real>, x: real)
    requires t != []
    ensures NearestIndex(t, x) == -1 <==> |t| == 1 && x <= t[0]
  {
  }

  // ---- the grid of a window ---------------------------------------------------------

  /** How many whole frame periods fit: one instant every 1/fps from `lo`. */
  function GridSize(lo: real, hi: real, fps: int): int {
    Trunc((hi - lo) * fps as real)
  }

  function Instant(lo: real, k: int, fps: int): real
    requires fps > 0
  {
    lo + k as real / fps as real
  }

  lemma InstantMonotone(lo: real, j: int, k: int, fps: int)
    requires fps > 0 && j <= k
    ensures Instant(lo, j, fps) <= Instant(lo, k, fps)
    ensures j < k ==> Instant(lo, j, fps) < Instant(lo, k, fps)
  {
    Divide(j as real, k as real, fps as real);
  }

  lemma Divide(x: real, y: real, d: real)
    requires d > 0.0 && x <= y
    ensures x / d <= y / d && (x < y ==> x / d < y / d)
  {
    assert y / d - x / d == (y - x) / d;
  }

  /** `x` is `k` periods after `lo`, and the period it begins ends by `hi`. */
  ghost predicate PeriodAt(lo: real, hi: real, fps: int, k: nat, x: real)
    requires fps > 0
  {
    x == lo + k as real / fps as real && lo + (k + 1) as real / fps as real <= hi
  }

  ghost predicate OnPeriod(lo: real, hi: real, fps: int, x: real)
    requires fps > 0
  {
    exists k: nat :: PeriodAt(lo, hi, fps, k, x)
  }

  lemma GridCounts(lo: real, hi: real, fps: int, k: nat)
    requires fps > 0
    ensures k < GridSize(lo, hi, fps) <==> lo + (k + 1) as real / fps as real <= hi
    ensures Instant(lo, k, fps) == lo + k as real / fps as real
  {
    var w, f, next := hi - lo, fps as real, (k + 1) as real;
    Cancel(w, f);
    if next <= w * f {
      Divide(next, w * f, f);
    } else {
      Divide(w * f, next, f);
    }
    assert k < GridSize(lo, hi, fps) <==> next <= w * f;
  }

  /** The grid of a window is exactly the instants lo + k / fps that begin a whole period of it. */
  lemma GridIsEveryPeriod(lo: real, hi: real, fps: int, x: real)
    requires fps > 0
    ensures OnPeriod(lo, hi, fps, x) <==> exists k :: 0 <= k < GridSize(lo, hi, fps) && x == Instant(lo, k, fps)
  {
    hide GridSize, Instant;
    if k: nat :| PeriodAt(lo, hi, fps, k, x) {
      GridCounts(lo, hi, fps, k);
      assert x == Instant(lo, k, fps);
    }
    if k :| 0 <= k < GridSize(lo, hi, fps) && x == Instant(lo, k, fps) {
      GridCounts(lo, hi, fps, k);
      assert PeriodAt(lo, hi, fps, k, x);
    }
  }

  /** Every instant of a window lies in [lo, hi). */
  lemma InstantInWindow(lo: real, hi: real, k: int, fps: int)
    requires fps > 0 && 0 <= k < GridSize(lo, hi, fps)
    ensures lo <= Instant(lo, k, fps) < hi
  {
    var w, f := hi - lo, fps as real;
    assert w * f >= 0.0;
    assert k as real + 1.0 <= w * f;
    Divide(k as real, w * f, f);
    Cancel(w, f);
    Divide(0.0, k as real, f);
  }

  lemma Cancel(w: real, f: real)
    requires f > 0.0
    ensures w * f / f == w
  {
  }

  // ---- staleness and yield ----------------------------------------------------------

  const STALENESS := 2.0 / 30.0

  /** An instant whose nearest frame is too far away in time has no honest image. */
  predicate Stale(t: seq<real>, x: real)
    requires t != []
  {
    Distance(t, NearestIndex(t, x), x) > STALENESS
  }

  /** The segmenter's own test: the nearer of the two stamps around the insertion point. */
  predicate YieldCounts(t: seq<real>, x: real)
    requires t != []
  {
    MinReal(Distance(t, Pivot(t, x), x), Distance(t, Pivot(t, x) - 1, x)) <= STALENESS
  }

  /** Both tools judge every instant alike. */
  lemma YieldAgrees(t: seq<real>, x: real)
    requires t != [] && Ascending(t)
    ensures YieldCounts(t, x) <==> !Stale(t, x)
  {
    SearchSortedSplits(t, x);
  }

  /** How many of the first `n` grid instants the segmenter counts. */
  function YieldCount(t: seq<real>, lo: real, fps: int, n: nat): nat
    requires t != [] && fps > 0
  {
    if n == 0 then 0
    else YieldCount(t, lo, fps, n - 1) + if YieldCounts(t, Instant(lo, n - 1, fps)) then 1 else 0
  }

  const SEGMENT_FPS := 30

  /** The share of the instants of [lo, hi] that have an honest image. */
  function FrameYield(t: seq<real>, lo: real, hi: real): real
    requires t != []
  {
    var n := GridSize(lo, hi, SEGMENT_FPS);
    if n <= 0 then 0.0 else YieldCount(t, lo, SEGMENT_FPS, n) as real / n as real
  }

  /** Some stamp is within two frames of the instant. */
  ghost predicate Near(t: seq<real>, x: real) {
    exists i :: 0 <= i < |t| && AbsReal(t[i] - x) <= 2.0 / 30.0
  }

  lemma NearIsHonest(t: seq<real>, x: real)
    requires t != [] && Ascending(t)
    ensures Near(t, x) <==> !Stale(t, x)
    ensures Near(t, x) <==> YieldCounts(t, x)
  {
    hide NearestIndex, YieldCounts;
    NearestIsNearest(t, x);
    YieldAgrees(t, x);
    var i := NearestIndex(t, x);
    assert At(t, i) == t[if i < 0 then |t| + i else i];
  }

  /** Period `k` of a thirtieth of a second from `lo` begins near a stamp. */
  ghost predicate NearPeriod(t: seq<real>, lo: real, k: nat) {
    Near(t, lo + k as real / 30.0)
  }

  ghost function NearPeriods(t: seq<real>, lo: real, n: nat): set<nat> {
    set k: nat | k < n && NearPeriod(t, lo, k)
  }

  /** The yield is the share of the whole periods that begin near a stamp, and zero when not
      a single period fits. */
  lemma YieldIsShare(t: seq<real>, lo: real, hi: real, n: nat)
    requires t != [] && Ascending(t)
    requires n > 0 ==> lo + n as real / 30.0 <= hi
    requires hi < lo + (n + 1) as real / 30.0
    ensures FrameYield(t, lo, hi) == if n == 0 then 0.0 else |NearPeriods(t, lo, n)| as real / n as real
  {
    hide GridSize, YieldCounts, Near;
    GridCounts(lo, hi, 30, n);
    if n > 0 {
      GridCounts(lo, hi, 30, n - 1);
      CountIsNearPeriods(t, lo, n);
    }
  }

  lemma {:induction false} CountIsNearPeriods(t: seq<real>, lo: real, n: nat)
    requires t != [] && Ascending(t)
    ensures YieldCount(t, lo, 30, n) == |NearPeriods(t, lo, n)|
  {
    hide YieldCounts, Near;
    if n == 0 {
      assert NearPeriods(t, lo, 0) == {};
    } else {
      CountIsNearPeriods(t, lo, n - 1);
      NearIsHonest(t, Instant(lo, n - 1, 30));
      assert NearPeriods(t, lo, n)
             == NearPeriods(t, lo, n - 1) + if NearPeriod(t, lo, n - 1) then {n - 1} else {};
    }
  }

  // ---- several cameras --------------------------------------------------------------

  /** No camera is stale at the instant: the exporter's test for writing the row. */
  predicate AllHonest(stamps: seq<seq<real>>, x: real)
    requires forall c :: 0 <= c < |stamps| ==> stamps[c] != []
  {
    forall c :: 0 <= c < |stamps| ==> !Stale(stamps[c], x)
  }

  function HonestCount(stamps: seq<seq<real>>, lo: real, fps: int, n: nat): nat
    requires fps > 0 && forall c :: 0 <= c < |stamps| ==> stamps[c] != []
  {
    if n == 0 then 0
    else HonestCount(stamps, lo, fps, n - 1) + if AllHonest(stamps, Instant(lo, n - 1, fps)) then 1 else 0
  }

  /** At the instant every camera has a stamp within two frames. */
  ghost predicate Covered(stamps: seq<seq<real>>, x: real) {
    forall c :: 0 <= c < |stamps| ==> Near(stamps[c], x)
  }

  lemma CoveredIsHonest(stamps: seq<seq<real>>, x: real)
    requires forall c :: 0 <= c < |stamps| ==> stamps[c] != [] && Ascending(stamps[c])
    ensures Covered(stamps, x) <==> AllHonest(stamps, x)
  {
    hide Near, Stale, Ascending;
    forall c | 0 <= c < |stamps| ensures Near(stamps[c], x) <==> !Stale(stamps[c], x) {
      NearIsHonest(stamps[c], x);
    }
  }

  lemma {:induction false} HonestCountOneMore(stamps: seq<seq<real>>, t: seq<real>, lo: real, fps: int, n: nat)
    requires fps > 0 && t != [] && Ascending(t) && forall c :: 0 <= c < |stamps| ==> stamps[c] != []
    ensures HonestCount(stamps + [t], lo, fps, n) >= HonestCount(stamps, lo, fps, n) + YieldCount(t, lo, fps, n) - n
  {
    if n > 0 {
      var x := Instant(lo, n - 1, fps);
      HonestCountOneMore(stamps, t, lo, fps, n - 1);
      YieldAgrees(t, x);
      var all := stamps + [t];
      assert all[|stamps|] == t;
      if AllHonest(stamps, x) && !Stale(t, x) {
        assert AllHonest(all, x);
      }
    }
  }

  /** With c cameras each losing at most `lost` of `n` instants, at least n - c * lost instants
      are honest for all of them. */
  lemma {:induction false} HonestCountBound(stamps: seq<seq<real>>, lo: real, fps: int, n: nat, lost: real)
    requires fps > 0
    requires forall c :: 0 <= c < |stamps| ==> stamps[c] != [] && Ascending(stamps[c])
    requires forall c :: 0 <= c < |stamps| ==> YieldCount(stamps[c], lo, fps, n) as real >= n as real - lost
    ensures HonestCount(stamps, lo, fps, n) as real >= n as real - |stamps| as real * lost
  {
    hide HonestCount, YieldCount, Ascending;
    if stamps == [] {
      AllHonestCount(lo, fps, n);
    } else {
      var front, last := stamps[..|stamps| - 1], stamps[|stamps| - 1];
      HonestCountBound(front, lo, fps, n, lost);
      HonestCountOneMore(front, last, lo, fps, n);
      assert stamps == front + [last];
      OneMoreTimes(|front|, lost);
    }
  }

  lemma OneMoreTimes(k: nat, x: real)
    ensures (k + 1) as real * x == k as real * x + x
  {
  }

  lemma {:induction false} AllHonestCount(lo: real, fps: int, n: nat)
    requires fps > 0
    ensures HonestCount([], lo, fps, n) == n
  {
    if n > 0 { AllHonestCount(lo, fps, n - 1); }
  }

  /** (1 - c(1 - y)) n */
  function RowsBound(c: nat, y: real, n: nat): real {
    (1.0 - c as real * (1.0 - y)) * n as real
  }

  /** A window that every camera covers with yield at least `y` keeps at least
      (1 - c(1 - y)) of its instants through the exporter's filter at the same rate. */
  lemma YieldBoundsRows(stamps: seq<seq<real>>, lo: real, hi: real, y: real)
    requires forall c :: 0 <= c < |stamps| ==> stamps[c] != [] && Ascending(stamps[c])
    requires forall c :: 0 <= c < |stamps| ==> FrameYield(stamps[c], lo, hi) >= y
    requires GridSize(lo, hi, SEGMENT_FPS) >= 0
    ensures var n := GridSize(lo, hi, SEGMENT_FPS);
      HonestCount(stamps, lo, SEGMENT_FPS, n) as real >= RowsBound(|stamps|, y, n)
  {
    var n := GridSize(lo, hi, SEGMENT_FPS);
    if n > 0 {
      hide RowsBound, HonestCount, YieldCount, GridSize, Ascending;
      forall c | 0 <= c < |stamps|
        ensures YieldCount(stamps[c], lo, SEGMENT_FPS, n) as real / n as real >= y
      {
        assert FrameYield(stamps[c], lo, hi) >= y;
      }
      YieldBoundsCount(stamps, lo, SEGMENT_FPS, n, y);
    }
  }

  lemma YieldBoundsCount(stamps: seq<seq<real>>, lo: real, fps: int, n: nat, y: real)
    requires fps > 0 && n > 0
    requires forall c :: 0 <= c < |stamps| ==> stamps[c] != [] && Ascending(stamps[c])
    requires forall c :: 0 <= c < |stamps| ==> YieldCount(stamps[c], lo, fps, n) as real / n as real >= y
    ensures HonestCount(stamps, lo, fps, n) as real >= RowsBound(|stamps|, y, n)
  {
    hide HonestCount, YieldCount, Ascending;
    var lost := (1.0 - y) * n as real;
    forall c | 0 <= c < |stamps| ensures YieldCount(stamps[c], lo, fps, n) as real >= n as real - lost {
      ShareAtLeast(YieldCount(stamps[c], lo, fps, n) as real, n as real, y);
    }
    HonestCountBound(stamps, lo, fps, n, lost);
    Regroup(|stamps| as real, y, n as real);
  }

  lemma ShareAtLeast(count: real, n: real, y: real)
    requires n > 0.0 && count / n >= y
    ensures count >= n - (1.0 - y) * n
  {
    assert count / n * n >= y * n;
  }

  lemma Regroup(c: real, y: real, n: real)
    ensures n - c * ((1.0 - y) * n) == (1.0 - c * (1.0 - y)) * n
  {
  }
}

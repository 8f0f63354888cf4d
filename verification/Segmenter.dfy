/** Cutting a take into home-to-home windows, splitting them into train and holdout, and why
    the exporter's loader accepts what is written. */
module Segmenter {
  import opened Common
  import opened Sorting
  import opened Grid
  import opened Windows
  import opened WindowsFile

  // ---- dwells at home ---------------------------------------------------------------

  /** A stay at home, from its first to its last sample. */
  datatype Dwell = Dwell(lo: real, hi: real)

  function AtHome(dist: seq<real>, thr: real): (r: seq<bool>)
    ensures |r| == |dist| && forall i :: 0 <= i < |dist| ==> r[i] == (dist[i] < thr)
  {
    seq(|dist|, i requires 0 <= i < |dist| => dist[i] < thr)
  }

  /** The first index from `i` on that is not at home, or the end. */
  function RunEnd(at: seq<bool>, i: nat): (j: nat)
    requires i <= |at|
    ensures i <= j <= |at| && (forall k :: i <= k < j ==> at[k]) && (j < |at| ==> !at[j])
    decreases |at| - i
  {
    if i < |at| && at[i] then RunEnd(at, i + 1) else i
  }

  ghost function DwellsFrom(t: seq<real>, at: seq<bool>, dwellS: real, i: nat): seq<Dwell>
    requires i <= |t| == |at|
    decreases |t| - i
  {
    if i == |t| then []
    else if !at[i] then DwellsFrom(t, at, dwellS, i + 1)
    else
      var j := RunEnd(at, i);
      (if t[j - 1] - t[i] >= dwellS then [Dwell(t[i], t[j - 1])] else []) + DwellsFrom(t, at, dwellS, j)
  }

  ghost function DwellsOf(t: seq<real>, dist: seq<real>, thr: real, dwellS: real): seq<Dwell>
    requires |t| == |dist|
  {
    DwellsFrom(t, AtHome(dist, thr), dwellS, 0)
  }

  method Dwells(t: seq<real>, dist: seq<real>, thr: real, dwellS: real) returns (iv: seq<Dwell>)
    requires |t| == |dist|
    ensures iv == DwellsOf(t, dist, thr, dwellS)
  {
    var at := AtHome(dist, thr);
    var i := 0;
    iv := [];
    while i < |t|
      invariant 0 <= i <= |t|
      invariant iv + DwellsFrom(t, at, dwellS, i) == DwellsOf(t, dist, thr, dwellS)
    {
      if at[i] {
        var j := i;
        while j < |t| && at[j]
          invariant i <= j <= |t| && forall k :: i <= k < j ==> at[k]
        {
          j := j + 1;
        }
        RunEndIs(at, i, j);
        if t[j - 1] - t[i] >= dwellS {
          iv := iv + [Dwell(t[i], t[j - 1])];
        }
        i := j;
      } else {
        i := i + 1;
      }
    }
  }

  lemma {:induction false} RunEndIs(at: seq<bool>, i: nat, j: nat)
    requires i <= j <= |at| && (forall k :: i <= k < j ==> at[k]) && (j < |at| ==> !at[j])
    ensures RunEnd(at, i) == j
    decreases j - i
  {
    if i < j { RunEndIs(at, i + 1, j); }
  }

  /** A stretch of samples at home that no neighbouring sample extends. */
  ghost predicate MaximalRun(at: seq<bool>, i: nat, j: nat) {
    && i < j <= |at| && (forall k :: i <= k < j ==> at[k])
    && (i > 0 ==> !at[i - 1]) && (j < |at| ==> !at[j])
  }

  ghost predicate LongRun(t: seq<real>, at: seq<bool>, dwellS: real, i: nat, j: nat)
    requires |t| == |at|
  {
    MaximalRun(at, i, j) && t[j - 1] - t[i] >= dwellS
  }

  /** The dwells are exactly the maximal stays at home that last long enough. */
  lemma {:induction false} DwellsAreLongRuns(t: seq<real>, at: seq<bool>, dwellS: real, i: nat)
    requires i <= |t| == |at| && (0 < i < |t| && at[i] ==> !at[i - 1])
    ensures forall w :: w in DwellsFrom(t, at, dwellS, i) ==>
              exists a, b :: i <= a && LongRun(t, at, dwellS, a, b) && w == Dwell(t[a], t[b - 1])
    ensures forall a, b :: i <= a && LongRun(t, at, dwellS, a, b) ==>
              Dwell(t[a], t[b - 1]) in DwellsFrom(t, at, dwellS, i)
    decreases |t| - i
  {
    if i < |t| {
      if !at[i] {
        DwellsAreLongRuns(t, at, dwellS, i + 1);
      } else {
        var j := RunEnd(at, i);
        DwellsAreLongRuns(t, at, dwellS, j);
        assert MaximalRun(at, i, j);
        forall w | w in DwellsFrom(t, at, dwellS, i)
          ensures exists a, b :: i <= a && LongRun(t, at, dwellS, a, b) && w == Dwell(t[a], t[b - 1])
        {
          if w in DwellsFrom(t, at, dwellS, j) {
            var a, b :| j <= a && LongRun(t, at, dwellS, a, b) && w == Dwell(t[a], t[b - 1]);
            assert i <= a;
          } else {
            assert LongRun(t, at, dwellS, i, j);
          }
        }
        forall a, b | i <= a && LongRun(t, at, dwellS, a, b)
          ensures Dwell(t[a], t[b - 1]) in DwellsFrom(t, at, dwellS, i)
        {
          if a == i {
            RunEndIs(at, i, b);
          }
        }
      }
    }
  }

  ghost predicate InOrder(iv: seq<Dwell>) {
    && (forall k :: 0 <= k < |iv| ==> iv[k].lo <= iv[k].hi)
    && (forall j, k :: 0 <= j < k < |iv| ==> iv[j].hi <= iv[k].lo)
  }

  lemma DwellsUnfold(t: seq<real>, at: seq<bool>, dwellS: real, i: nat)
    requires i <= |t| == |at|
    ensures var r := DwellsFrom(t, at, dwellS, i);
      if i == |t| then r == []
      else if !at[i] then r == DwellsFrom(t, at, dwellS, i + 1)
      else
        var j := RunEnd(at, i);
        && i < j
        && r == if t[j - 1] - t[i] >= dwellS then [Dwell(t[i], t[j - 1])] + DwellsFrom(t, at, dwellS, j)
                else DwellsFrom(t, at, dwellS, j)
  {
  }

  lemma EmptyInOrder()
    ensures InOrder([])
  {
  }

  lemma PrependInOrder(rest: seq<Dwell>, w: Dwell)
    requires InOrder(rest) && w.lo <= w.hi && forall v :: v in rest ==> w.hi <= v.lo
    ensures InOrder([w] + rest)
  {
  }

  lemma {:induction false} DwellsInOrder(t: seq<real>, at: seq<bool>, dwellS: real, i: nat)
    requires i <= |t| == |at| && Ascending(t)
    ensures InOrder(DwellsFrom(t, at, dwellS, i))
    ensures forall w :: w in DwellsFrom(t, at, dwellS, i) ==>
              i < |t| && t[i] <= w.lo && w.hi <= t[|t| - 1] && w.hi - w.lo >= dwellS
    decreases |t| - i
  {
    hide RunEnd, InOrder, DwellsFrom;
    DwellsUnfold(t, at, dwellS, i);
    if i == |t| {
      EmptyInOrder();
    } else if !at[i] {
      DwellsInOrder(t, at, dwellS, i + 1);
      assert i + 1 < |t| ==> t[i] <= t[i + 1];
    } else {
      var j := RunEnd(at, i);
      DwellsInOrder(t, at, dwellS, j);
      assert t[i] <= t[j - 1] <= t[|t| - 1] && (j < |t| ==> t[j - 1] <= t[j]);
      PrependInOrder(DwellsFrom(t, at, dwellS, j), Dwell(t[i], t[j - 1]));
    }
  }

  // ---- cutting ----------------------------------------------------------------------

  datatype Rule = Rule(thr: real, dwellS: real, padS: real, minS: real, minYield: real, holdoutEvery: int)

  /** One take. `wanted(k)` says whether category, phase mark and operator let the stretch
      after dwell `k` be exported. */
  datatype Take = Take(name: string, t: seq<real>, dist: seq<real>, stamps: seq<seq<real>>, wanted: nat -> bool)

  /** A take that is cut at all: long enough, samples in order, distances to home that are
      not negative, at least one camera. */
  ghost predicate Loadable(take: Take) {
    && |take.t| >= 2 * SEGMENT_FPS && |take.t| == |take.dist| && Ascending(take.t)
    && (forall i :: 0 <= i < |take.dist| ==> take.dist[i] >= 0.0)
    && take.stamps != [] && forall c :: 0 <= c < |take.stamps| ==> take.stamps[c] != []
  }

  /** The stretch after dwell `k`, widened on each side by the pad or by half of the dwell it
      reaches into, whichever is less, and kept inside the take. */
  function Padded(take: Take, iv: seq<Dwell>, padS: real, k: nat): Span
    requires take.t != [] && k + 1 < |iv|
  {
    var lo, hi := iv[k].hi, iv[k + 1].lo;
    var padLo := MinReal(padS, (iv[k].hi - iv[k].lo) / 2.0);
    var padHi := MinReal(padS, (iv[k + 1].hi - iv[k + 1].lo) / 2.0);
    Span(MaxReal(lo - padLo, take.t[0]), MinReal(hi + padHi, take.t[|take.t| - 1]))
  }

  /** Every camera covers the window well enough. */
  predicate YieldOk(stamps: seq<seq<real>>, s: Span, minYield: real)
    requires forall c :: 0 <= c < |stamps| ==> stamps[c] != []
  {
    forall c :: 0 <= c < |stamps| ==> FrameYield(stamps[c], s.lo, s.hi) >= minYield
  }

  predicate Exports(take: Take, iv: seq<Dwell>, rule: Rule, k: nat)
    requires take.t != [] && k < |iv| && forall c :: 0 <= c < |take.stamps| ==> take.stamps[c] != []
  {
    && k + 1 < |iv| && iv[k + 1].lo - iv[k].hi >= rule.minS && take.wanted(k)
    && YieldOk(take.stamps, Padded(take, iv, rule.padS, k), rule.minYield)
  }

  /** The windows exported from the first `n` dwells, in order. */
  ghost function Cut(take: Take, iv: seq<Dwell>, rule: Rule, n: nat): seq<Span>
    requires take.t != [] && n <= |iv| && forall c :: 0 <= c < |take.stamps| ==> take.stamps[c] != []
  {
    if n == 0 then []
    else Cut(take, iv, rule, n - 1) +
         if Exports(take, iv, rule, n - 1) then [Padded(take, iv, rule.padS, n - 1)] else []
  }

  ghost function Exported(take: Take, rule: Rule): seq<Span>
    requires Loadable(take)
  {
    var iv := DwellsOf(take.t, take.dist, rule.thr, rule.dwellS);
    Cut(take, iv, rule, |iv|)
  }

  /** The rules under which an exported window cannot be empty: a yield gate, stretches longer
      than what negative pads take off, or pads that reach into dwells of some length. */
  predicate Safe(rule: Rule) {
    || rule.minYield > 0.0
    || rule.minS + 2.0 * MinReal(rule.padS, 0.0) > 0.0
    || (rule.padS > 0.0 && rule.dwellS > 0.0)
  }

  /** The dwells are in order, last long enough, and lie inside the take. */
  ghost predicate DwellsOk(take: Take, iv: seq<Dwell>, rule: Rule)
    requires take.t != []
  {
    && InOrder(iv)
    && forall k :: 0 <= k < |iv| ==>
         iv[k].hi - iv[k].lo >= rule.dwellS && take.t[0] <= iv[k].lo && iv[k].hi <= take.t[|take.t| - 1]
  }

  /** With a yield gate above zero an exported window always has positive length, because an
      empty grid counts as yield zero. */
  lemma YieldMeansLength(t: seq<real>, s: Span)
    requires t != [] && FrameYield(t, s.lo, s.hi) > 0.0
    ensures s.lo < s.hi
  {
  }

  lemma ExportsMeans(take: Take, iv: seq<Dwell>, rule: Rule, k: nat)
    requires take.t != [] && k < |iv| && forall c :: 0 <= c < |take.stamps| ==> take.stamps[c] != []
    requires Exports(take, iv, rule, k)
    ensures k + 1 < |iv| && iv[k + 1].lo - iv[k].hi >= rule.minS
    ensures YieldOk(take.stamps, Padded(take, iv, rule.padS, k), rule.minYield)
  {
  }

  lemma ExportedHasLength(take: Take, iv: seq<Dwell>, rule: Rule, k: nat)
    requires Loadable(take) && DwellsOk(take, iv, rule) && k < |iv| && Safe(rule) && Exports(take, iv, rule, k)
    ensures k + 1 < |iv| && Padded(take, iv, rule.padS, k).lo < Padded(take, iv, rule.padS, k).hi
  {
    hide Exports, YieldOk, Ascending;
    ExportsMeans(take, iv, rule, k);
    if rule.minYield > 0.0 {
      PositiveYield(take, Padded(take, iv, rule.padS, k), rule.minYield);
    } else {
      assert iv[k].hi - iv[k].lo >= rule.dwellS && iv[k + 1].hi - iv[k + 1].lo >= rule.dwellS;
      assert iv[k].lo <= iv[k].hi <= iv[k + 1].lo <= iv[k + 1].hi;
    }
  }

  lemma PaddedBetween(take: Take, iv: seq<Dwell>, rule: Rule, k: nat)
    requires take.t != [] && DwellsOk(take, iv, rule) && k + 1 < |iv|
    ensures Mid(iv[k].lo, iv[k].hi) <= Padded(take, iv, rule.padS, k).lo
    ensures Padded(take, iv, rule.padS, k).hi <= Mid(iv[k + 1].lo, iv[k + 1].hi)
    ensures Mid(iv[k].lo, iv[k].hi) <= Mid(iv[k + 1].lo, iv[k + 1].hi)
  {
    assert iv[k].lo <= iv[k].hi <= iv[k + 1].lo <= iv[k + 1].hi;
  }

  /** Pads that stop at the midpoints of the dwells keep the windows apart. */
  lemma {:induction false} CutDisjoint(take: Take, iv: seq<Dwell>, rule: Rule, n: nat)
    requires Loadable(take) && DwellsOk(take, iv, rule) && n <= |iv| && Safe(rule)
    ensures Disjoint(Cut(take, iv, rule, n))
    ensures n < |iv| ==> forall s :: s in Cut(take, iv, rule, n) ==> s.hi <= Mid(iv[n].lo, iv[n].hi)
    ensures forall s :: s in Cut(take, iv, rule, n) ==>
              && YieldOk(take.stamps, s, rule.minYield)
              && exists k :: 0 <= k < n && Exports(take, iv, rule, k) && s == Padded(take, iv, rule.padS, k)
  {
    hide YieldOk, Exports, Safe, Padded, DwellsOk, Mid;
    if n > 0 {
      CutDisjoint(take, iv, rule, n - 1);
      var before, k := Cut(take, iv, rule, n - 1), n - 1;
      if n < |iv| {
        PaddedBetween(take, iv, rule, k);
      }
      if Exports(take, iv, rule, k) {
        ExportsMeans(take, iv, rule, k);
        ExportedHasLength(take, iv, rule, k);
        var s := Padded(take, iv, rule.padS, k);
        forall i | 0 <= i < |before| ensures before[i].hi <= s.lo {
          assert before[i] in before;
        }
        assert Cut(take, iv, rule, n) == before + [s];
      }
    }
  }

  lemma PositiveYield(take: Take, s: Span, minYield: real)
    requires Loadable(take) && YieldOk(take.stamps, s, minYield) && minYield > 0.0
    ensures s.lo < s.hi
  {
    YieldMeansLength(take.stamps[0], s);
  }

  lemma ExportedDisjoint(take: Take, rule: Rule)
    requires Loadable(take) && Safe(rule)
    ensures Disjoint(Exported(take, rule))
    ensures forall s :: s in Exported(take, rule) ==> YieldOk(take.stamps, s, rule.minYield)
  {
    var iv := DwellsOf(take.t, take.dist, rule.thr, rule.dwellS);
    DwellsInOrder(take.t, AtHome(take.dist, rule.thr), rule.dwellS, 0);
    hide DwellsOf, Safe, Cut, YieldOk, Loadable;
    assert forall k :: 0 <= k < |iv| ==> iv[k] in iv;
    CutDisjoint(take, iv, rule, |iv|);
  }

  /** The stretch between dwells `k` and `k + 1` is wanted and long enough, and every camera
      covers it well enough with its pads: as much of each dwell as `padS`, but no more than
      half of it. */
  ghost predicate Keeps(take: Take, iv: seq<Dwell>, rule: Rule, k: nat, s: Span)
    requires k + 1 < |iv| && forall c :: 0 <= c < |take.stamps| ==> take.stamps[c] != []
  {
    && take.wanted(k) && iv[k + 1].lo - iv[k].hi >= rule.minS
    && PadsInto(iv[k].hi - s.lo, iv[k].hi - iv[k].lo, rule.padS)
    && PadsInto(s.hi - iv[k + 1].lo, iv[k + 1].hi - iv[k + 1].lo, rule.padS)
    && forall c :: 0 <= c < |take.stamps| ==> FrameYield(take.stamps[c], s.lo, s.hi) >= rule.minYield
  }

  ghost predicate PadsInto(pad: real, dwell: real, padS: real) {
    if 2.0 * padS <= dwell then pad == padS else 2.0 * pad == dwell
  }

  /** Exactly the stretches to keep are exported, each with those pads; the pads never reach
      beyond the take. */
  lemma ExportedExactly(take: Take, rule: Rule, s: Span)
    requires Loadable(take)
    ensures var iv := DwellsOf(take.t, take.dist, rule.thr, rule.dwellS);
      && DwellsOk(take, iv, rule)
      && (s in Exported(take, rule) <==> exists k :: 0 <= k < |iv| - 1 && Keeps(take, iv, rule, k, s))
  {
    hide DwellsOf, DwellsOk, Keeps, Exports, Padded, Cut;
    var iv := DwellsOf(take.t, take.dist, rule.thr, rule.dwellS);
    DwellsAreOk(take, rule);
    CutMembers(take, iv, rule, |iv|, s);
    forall k | 0 <= k < |iv| - 1
      ensures Keeps(take, iv, rule, k, s) <==> Exports(take, iv, rule, k) && s == Padded(take, iv, rule.padS, k)
    {
      KeepsIsExports(take, iv, rule, k, s);
    }
    forall k | 0 <= k < |iv| && Exports(take, iv, rule, k) ensures k < |iv| - 1 {
      ExportsMeans(take, iv, rule, k);
    }
  }

  lemma DwellsAreOk(take: Take, rule: Rule)
    requires Loadable(take)
    ensures take.t != [] && forall c :: 0 <= c < |take.stamps| ==> take.stamps[c] != []
    ensures DwellsOk(take, DwellsOf(take.t, take.dist, rule.thr, rule.dwellS), rule)
  {
    var iv := DwellsOf(take.t, take.dist, rule.thr, rule.dwellS);
    DwellsInOrder(take.t, AtHome(take.dist, rule.thr), rule.dwellS, 0);
    assert forall k :: 0 <= k < |iv| ==> iv[k] in iv;
  }

  lemma {:induction false} CutMembers(take: Take, iv: seq<Dwell>, rule: Rule, n: nat, s: Span)
    requires take.t != [] && n <= |iv| && forall c :: 0 <= c < |take.stamps| ==> take.stamps[c] != []
    ensures s in Cut(take, iv, rule, n)
            <==> exists k :: 0 <= k < n && Exports(take, iv, rule, k) && k + 1 < |iv|
                             && s == Padded(take, iv, rule.padS, k)
  {
    hide Exports, Padded;
    if n > 0 {
      CutMembers(take, iv, rule, n - 1, s);
      if Exports(take, iv, rule, n - 1) {
        ExportsMeans(take, iv, rule, n - 1);
      }
    }
  }

  lemma KeepsIsExports(take: Take, iv: seq<Dwell>, rule: Rule, k: nat, s: Span)
    requires take.t != [] && DwellsOk(take, iv, rule) && k + 1 < |iv|
    requires forall c :: 0 <= c < |take.stamps| ==> take.stamps[c] != []
    ensures Keeps(take, iv, rule, k, s) <==> Exports(take, iv, rule, k) && s == Padded(take, iv, rule.padS, k)
  {
    hide FrameYield;
    var p := Padded(take, iv, rule.padS, k);
    assert iv[k].lo <= iv[k].hi <= iv[k + 1].lo <= iv[k + 1].hi;
    assert PadsInto(iv[k].hi - s.lo, iv[k].hi - iv[k].lo, rule.padS) <==> s.lo == p.lo;
    assert PadsInto(s.hi - iv[k + 1].lo, iv[k + 1].hi - iv[k + 1].lo, rule.padS) <==> s.hi == p.hi;
  }

  // ---- the split --------------------------------------------------------------------

  /** Every Nth exported window of the session is held out; with N = 0 none is. */
  predicate HeldOut(ordinal: nat, every: int) {
    every != 0 && ordinal % every == 0
  }

  /** Of the first `n` windows of a take, numbered from `first` + 1 in the session, those that
      are held out (`held`), or those that are not. */
  ghost function Part(spans: seq<Span>, first: nat, every: int, held: bool, n: nat): seq<Span>
    requires n <= |spans|
  {
    if n == 0 then []
    else Part(spans, first, every, held, n - 1) +
         if HeldOut(first + n, every) == held then [spans[n - 1]] else []
  }

  /** The last window is the only one that can be new. */
  lemma PartGrows(spans: seq<Span>, first: nat, every: int, held: bool, n: nat, s: Span)
    requires 0 < n <= |spans|
    ensures (exists i :: 0 <= i < n && spans[i] == s && HeldOut(first + i + 1, every) == held)
            <==> (exists i :: 0 <= i < n - 1 && spans[i] == s && HeldOut(first + i + 1, every) == held)
                 || (spans[n - 1] == s && HeldOut(first + n, every) == held)
  {
    hide HeldOut;
    if i :| 0 <= i < n && spans[i] == s && HeldOut(first + i + 1, every) == held {
      assert i < n - 1 || first + i + 1 == first + n;
    }
    if spans[n - 1] == s && HeldOut(first + n, every) == held {
      assert HeldOut(first + (n - 1) + 1, every) == held;
    }
  }

  lemma {:induction false} PartShape(spans: seq<Span>, first: nat, every: int, held: bool, n: nat)
    requires n <= |spans| && Disjoint(spans)
    ensures Disjoint(Part(spans, first, every, held, n))
    ensures forall s :: s in Part(spans, first, every, held, n) <==>
              exists i :: 0 <= i < n && spans[i] == s && HeldOut(first + i + 1, every) == held
  {
    hide HeldOut;
    if n > 0 {
      PartShape(spans, first, every, held, n - 1);
      var before := Part(spans, first, every, held, n - 1);
      forall i | 0 <= i < |before| ensures before[i].hi <= spans[n - 1].lo {
        assert before[i] in before;
        var k :| 0 <= k < n - 1 && spans[k] == before[i] && HeldOut(first + k + 1, every) == held;
      }
      forall s ensures s in Part(spans, first, every, held, n) <==>
          exists i :: 0 <= i < n && spans[i] == s && HeldOut(first + i + 1, every) == held
      {
        PartGrows(spans, first, every, held, n, s);
      }
    }
  }

  lemma {:induction false} PartsCover(spans: seq<Span>, first: nat, every: int, n: nat)
    requires n <= |spans|
    ensures |Part(spans, first, every, true, n)| + |Part(spans, first, every, false, n)| == n
  {
    if n > 0 { PartsCover(spans, first, every, n - 1); }
  }

  /** Of the windows numbered first + 1 to first + n exactly those at multiples of N are held
      out, so over a session one window in N, rounded down. */
  lemma {:induction false} HeldOutShare(spans: seq<Span>, first: nat, every: int, n: nat)
    requires n <= |spans|
    ensures every > 0 ==> |Part(spans, first, every, true, n)| == (first + n) / every - first / every
    ensures every == 0 ==> Part(spans, first, every, true, n) == []
  {
    if n > 0 {
      HeldOutShare(spans, first, every, n - 1);
      if every > 0 {
        NextMultiple(first + n, every);
      }
    }
  }

  lemma NextMultiple(k: nat, every: int)
    requires k > 0 && every > 0
    ensures k / every - (k - 1) / every == if k % every == 0 then 1 else 0
  {
    var q, r := (k - 1) / every, (k - 1) % every;
    assert k == q * every + r + 1;
    if r + 1 == every {
      QuotientIs(k, every, q + 1, 0);
    } else {
      QuotientIs(k, every, q, r + 1);
    }
  }

  lemma QuotientIs(k: int, every: int, q: int, r: int)
    requires every > 0 && k == q * every + r && 0 <= r < every
    ensures k / every == q && k % every == r
  {
    var d := k / every - q;
    assert k == k / every * every + k % every;
    assert d * every == r - k % every;
    Multiples(d, every);
  }

  lemma Multiples(d: int, m: int)
    requires m > 0
    ensures d > 0 ==> d * m >= m
    ensures d < 0 ==> d * m <= -m
  {
    if d > 0 {
      TimesAtLeastOnce(d, m);
    } else if d < 0 {
      TimesAtLeastOnce(-d, m);
      assert d * m == -((-d) * m);
    }
  }

  lemma {:induction false} TimesAtLeastOnce(d: nat, m: int)
    requires d > 0 && m > 0
    ensures d * m >= m
  {
    if d > 1 {
      TimesAtLeastOnce(d - 1, m);
      assert d * m == (d - 1) * m + m;
    }
  }

  /** Train and holdout share no time, and every exported window is in exactly one of them. */
  lemma SplitIsClean(spans: seq<Span>, first: nat, every: int)
    requires Disjoint(spans)
    ensures var train, held := Part(spans, first, every, false, |spans|), Part(spans, first, every, true, |spans|);
      && Disjoint(train) && Disjoint(held) && |train| + |held| == |spans|
      && (forall s :: s in spans <==> s in train || s in held)
      && forall a, b :: a in train && b in held ==> a.hi <= b.lo || b.hi <= a.lo
  {
    hide HeldOut, Part;
    PartShape(spans, first, every, false, |spans|);
    PartShape(spans, first, every, true, |spans|);
    PartsCover(spans, first, every, |spans|);
    var train, held := Part(spans, first, every, false, |spans|), Part(spans, first, every, true, |spans|);
    forall a, b | a in train && b in held ensures a.hi <= b.lo || b.hi <= a.lo {
      var i :| 0 <= i < |spans| && spans[i] == a && HeldOut(first + i + 1, every) == false;
      var j :| 0 <= j < |spans| && spans[j] == b && HeldOut(first + j + 1, every) == true;
      assert i != j;
    }
    forall s ensures s in spans <==> s in train || s in held {
      if s in spans {
        var i :| 0 <= i < |spans| && spans[i] == s;
        assert HeldOut(first + i + 1, every) == true || HeldOut(first + i + 1, every) == false;
      }
    }
  }

  // ---- the session ------------------------------------------------------------------

  /** One more window under a name that may be new. */
  function AppendAt(d: map<string, seq<Span>>, name: string, s: Span): map<string, seq<Span>> {
    d[name := (if name in d then d[name] else []) + [s]]
  }

  /** The dict holds exactly `s` under `name`, and no entry when `s` is empty. */
  ghost predicate Lists(d: map<string, seq<Span>>, name: string, s: seq<Span>) {
    if s == [] then name !in d else name in d && d[name] == s
  }

  ghost function CountBefore(takes: seq<Take>, rule: Rule, n: nat): nat
    requires n <= |takes| && forall i :: 0 <= i < |takes| ==> Loadable(takes[i])
  {
    if n == 0 then 0 else CountBefore(takes, rule, n - 1) + |Exported(takes[n - 1], rule)|
  }

  ghost predicate DistinctTakes(takes: seq<Take>) {
    forall i, j :: 0 <= i < j < |takes| ==> takes[i].name != takes[j].name
  }

  /** The dict lists exactly the train (or held-out) part of take `i`'s exported windows. */
  ghost predicate TakeListed(takes: seq<Take>, rule: Rule, held: bool, i: nat, d: map<string, seq<Span>>)
    requires i < |takes| && forall k :: 0 <= k < |takes| ==> Loadable(takes[k])
  {
    var spans := Exported(takes[i], rule);
    Lists(d, takes[i].name, Part(spans, CountBefore(takes, rule, i), rule.holdoutEvery, held, |spans|))
  }

  /** The dict lists, for each of the first `n` takes, the train (or held-out) part of its
      exported windows, and nothing else. */
  ghost predicate Holds(takes: seq<Take>, rule: Rule, held: bool, n: nat, d: map<string, seq<Span>>)
    requires n <= |takes| && forall i :: 0 <= i < |takes| ==> Loadable(takes[i])
  {
    && (forall i :: 0 <= i < n ==> TakeListed(takes, rule, held, i, d))
    && forall name :: name in d ==> exists i :: 0 <= i < n && takes[i].name == name
  }

  method CutTake(take: Take, rule: Rule, train: map<string, seq<Span>>, held: map<string, seq<Span>>, first: nat)
      returns (train': map<string, seq<Span>>, held': map<string, seq<Span>>, count: nat)
    requires Loadable(take) && take.name !in train && take.name !in held
    ensures var spans := Exported(take, rule);
      && count == first + |spans|
      && Lists(train', take.name, Part(spans, first, rule.holdoutEvery, false, |spans|))
      && Lists(held', take.name, Part(spans, first, rule.holdoutEvery, true, |spans|))
    ensures train' - {take.name} == train && held' - {take.name} == held
  {
    hide Exports, Padded, HeldOut, Lists, AppendAt, Part, DwellsOf, Ascending;
    var iv := Dwells(take.t, take.dist, rule.thr, rule.dwellS);
    train', held', count := train, held, first;
    ghost var spans: seq<Span> := [];
    NothingListed(train, take.name, first, rule.holdoutEvery, false);
    NothingListed(held, take.name, first, rule.holdoutEvery, true);
    for k := 0 to |iv|
      invariant spans == Cut(take, iv, rule, k) && count == first + |spans|
      invariant Lists(train', take.name, Part(spans, first, rule.holdoutEvery, false, |spans|))
      invariant Lists(held', take.name, Part(spans, first, rule.holdoutEvery, true, |spans|))
      invariant train' - {take.name} == train && held' - {take.name} == held
    {
      if Exports(take, iv, rule, k) {
        ExportsMeans(take, iv, rule, k);
        var s := Padded(take, iv, rule.padS, k);
        PartAppend(spans, s, first, rule.holdoutEvery, false);
        PartAppend(spans, s, first, rule.holdoutEvery, true);
        count := count + 1;
        if HeldOut(count, rule.holdoutEvery) {
          AppendLists(held', take.name, Part(spans, first, rule.holdoutEvery, true, |spans|), s);
          held' := AppendAt(held', take.name, s);
        } else {
          AppendLists(train', take.name, Part(spans, first, rule.holdoutEvery, false, |spans|), s);
          train' := AppendAt(train', take.name, s);
        }
        spans := spans + [s];
      }
    }
  }

  lemma NothingListed(d: map<string, seq<Span>>, name: string, first: nat, every: int, held: bool)
    requires name !in d
    ensures Lists(d, name, Part([], first, every, held, 0)) && d - {name} == d
  {
  }

  lemma AppendLists(d: map<string, seq<Span>>, name: string, spans: seq<Span>, s: Span)
    requires Lists(d, name, spans)
    ensures Lists(AppendAt(d, name, s), name, spans + [s]) && AppendAt(d, name, s) - {name} == d - {name}
  {
  }

  lemma PartAppend(spans: seq<Span>, s: Span, first: nat, every: int, held: bool)
    ensures var before, after := Part(spans, first, every, held, |spans|),
                                Part(spans + [s], first, every, held, |spans + [s]|);
      after == if HeldOut(first + |spans| + 1, every) == held then before + [s] else before
  {
    hide HeldOut;
    PartPrefix(spans, s, first, every, held, |spans|);
  }

  lemma {:induction false} PartPrefix(spans: seq<Span>, s: Span, first: nat, every: int, held: bool, n: nat)
    requires n <= |spans|
    ensures Part(spans + [s], first, every, held, n) == Part(spans, first, every, held, n)
  {
    if n > 0 { PartPrefix(spans, s, first, every, held, n - 1); }
  }

  method Segment(takes: seq<Take>, rule: Rule)
      returns (windows: map<string, seq<Span>>, holdout: map<string, seq<Span>>, count: nat)
    requires DistinctTakes(takes) && forall i :: 0 <= i < |takes| ==> Loadable(takes[i])
    ensures Holds(takes, rule, false, |takes|, windows) && Holds(takes, rule, true, |takes|, holdout)
    ensures count == CountBefore(takes, rule, |takes|)
  {
    hide Exported, Part, Loadable, Lists, Holds, CountBefore, DistinctTakes;
    windows, holdout, count := map[], map[], 0;
    NothingHeldYet(takes, rule);
    for n := 0 to |takes|
      invariant Holds(takes, rule, false, n, windows) && Holds(takes, rule, true, n, holdout)
      invariant count == CountBefore(takes, rule, n)
    {
      ghost var w, h := windows, holdout;
      NotYetListed(takes, rule, false, n, windows);
      NotYetListed(takes, rule, true, n, holdout);
      CountNext(takes, rule, n);
      windows, holdout, count := CutTake(takes[n], rule, windows, holdout, count);
      HoldsOneMore(takes, rule, false, n, w, windows);
      HoldsOneMore(takes, rule, true, n, h, holdout);
    }
  }

  lemma NothingHeldYet(takes: seq<Take>, rule: Rule)
    requires forall i :: 0 <= i < |takes| ==> Loadable(takes[i])
    ensures Holds(takes, rule, false, 0, map[]) && Holds(takes, rule, true, 0, map[])
    ensures CountBefore(takes, rule, 0) == 0
  {
  }

  lemma CountNext(takes: seq<Take>, rule: Rule, n: nat)
    requires n < |takes| && forall i :: 0 <= i < |takes| ==> Loadable(takes[i])
    ensures CountBefore(takes, rule, n + 1) == CountBefore(takes, rule, n) + |Exported(takes[n], rule)|
  {
  }

  lemma NotYetListed(takes: seq<Take>, rule: Rule, held: bool, n: nat, d: map<string, seq<Span>>)
    requires n < |takes| && DistinctTakes(takes) && forall i :: 0 <= i < |takes| ==> Loadable(takes[i])
    requires Holds(takes, rule, held, n, d)
    ensures takes[n].name !in d
  {
    hide Lists;
  }

  lemma StillListed(takes: seq<Take>, rule: Rule, held: bool, i: nat, d: map<string, seq<Span>>, removed: string)
    requires i < |takes| && (forall k :: 0 <= k < |takes| ==> Loadable(takes[k])) && takes[i].name != removed
    requires TakeListed(takes, rule, held, i, d - {removed})
    ensures TakeListed(takes, rule, held, i, d)
  {
    hide Exported, Part, Loadable, CountBefore;
    assert takes[i].name in d <==> takes[i].name in d - {removed};
  }

  lemma HoldsOneMore(takes: seq<Take>, rule: Rule, held: bool, n: nat, d: map<string, seq<Span>>,
                     d': map<string, seq<Span>>)
    requires n < |takes| && DistinctTakes(takes) && forall i :: 0 <= i < |takes| ==> Loadable(takes[i])
    requires Holds(takes, rule, held, n, d) && d' - {takes[n].name} == d
    requires TakeListed(takes, rule, held, n, d')
    ensures Holds(takes, rule, held, n + 1, d')
  {
    hide Loadable, TakeListed;
    forall i | 0 <= i < n ensures TakeListed(takes, rule, held, i, d') {
      assert TakeListed(takes, rule, held, i, d);
      StillListed(takes, rule, held, i, d', takes[n].name);
    }
    forall name | name in d' ensures exists i :: 0 <= i < n + 1 && takes[i].name == name {
      if name != takes[n].name {
        assert name in d;
        var i :| 0 <= i < n && takes[i].name == name;
      }
    }
  }

  /** Every window the first `n` takes export, in order. */
  ghost function AllExported(takes: seq<Take>, rule: Rule, n: nat): seq<Span>
    requires n <= |takes| && forall i :: 0 <= i < |takes| ==> Loadable(takes[i])
  {
    if n == 0 then [] else AllExported(takes, rule, n - 1) + Exported(takes[n - 1], rule)
  }

  lemma {:induction false} CountsAllExported(takes: seq<Take>, rule: Rule, n: nat)
    requires n <= |takes| && forall i :: 0 <= i < |takes| ==> Loadable(takes[i])
    ensures CountBefore(takes, rule, n) == |AllExported(takes, rule, n)|
  {
    hide Exported, Loadable;
    if n > 0 { CountsAllExported(takes, rule, n - 1); }
  }

  ghost predicate ListedIn(d: map<string, seq<Span>>, name: string, s: Span) {
    name in d && s in d[name]
  }

  /** Windows are numbered through the whole session: number m of it is held out exactly when
      m is a multiple of N, and otherwise it is trained on. */
  lemma SessionSplit(takes: seq<Take>, rule: Rule, windows: map<string, seq<Span>>, holdout: map<string, seq<Span>>,
                     i: nat, j: nat)
    requires (forall k :: 0 <= k < |takes| ==> Loadable(takes[k])) && Safe(rule)
    requires Holds(takes, rule, false, |takes|, windows) && Holds(takes, rule, true, |takes|, holdout)
    requires i < |takes| && j < |Exported(takes[i], rule)|
    ensures var s, m := Exported(takes[i], rule)[j], |AllExported(takes, rule, i)| + j + 1;
            var multiple := rule.holdoutEvery != 0 && m % rule.holdoutEvery == 0;
      && (ListedIn(holdout, takes[i].name, s) <==> multiple)
      && (ListedIn(windows, takes[i].name, s) <==> !multiple)
  {
    hide Exported, Loadable, Safe, Part;
    var spans, first := Exported(takes[i], rule), CountBefore(takes, rule, i);
    CountsAllExported(takes, rule, i);
    ExportedDisjoint(takes[i], rule);
    assert TakeListed(takes, rule, false, i, windows) && TakeListed(takes, rule, true, i, holdout);
    WindowInPart(spans, first, rule.holdoutEvery, false, j);
    WindowInPart(spans, first, rule.holdoutEvery, true, j);
  }

  lemma WindowInPart(spans: seq<Span>, first: nat, every: int, held: bool, j: nat)
    requires Disjoint(spans) && j < |spans|
    ensures spans[j] in Part(spans, first, every, held, |spans|) <==> HeldOut(first + j + 1, every) == held
  {
    hide HeldOut;
    PartShape(spans, first, every, held, |spans|);
    if i :| 0 <= i < |spans| && spans[i] == spans[j] && HeldOut(first + i + 1, every) == held {
      assert i == j;
    }
  }

  /** How many windows a dict lists for the first `n` takes. */
  ghost function ListedCount(takes: seq<Take>, d: map<string, seq<Span>>, n: nat): nat
    requires n <= |takes|
  {
    if n == 0 then 0
    else ListedCount(takes, d, n - 1) + if takes[n - 1].name in d then |d[takes[n - 1].name]| else 0
  }

  /** Over a session one window in N, rounded down, is held out. */
  lemma {:induction false} SessionHeldOutShare(takes: seq<Take>, rule: Rule, holdout: map<string, seq<Span>>, n: nat)
    requires forall k :: 0 <= k < |takes| ==> Loadable(takes[k])
    requires Holds(takes, rule, true, |takes|, holdout) && n <= |takes| && rule.holdoutEvery > 0
    ensures ListedCount(takes, holdout, n) == |AllExported(takes, rule, n)| / rule.holdoutEvery
  {
    hide Exported, Loadable, Part;
    if n == 0 {
      assert 0 / rule.holdoutEvery == 0 by { QuotientIs(0, rule.holdoutEvery, 0, 0); }
    } else {
      SessionHeldOutShare(takes, rule, holdout, n - 1);
      CountsAllExported(takes, rule, n - 1);
      var spans := Exported(takes[n - 1], rule);
      assert TakeListed(takes, rule, true, n - 1, holdout);
      HeldOutShare(spans, CountBefore(takes, rule, n - 1), rule.holdoutEvery, |spans|);
    }
  }

  // ---- the contract with the exporter -----------------------------------------------

  function Pair(s: Span): seq<real> {
    [s.lo, s.hi]
  }

  /** The items of a windows dict as they come back from the file, in any order. */
  ghost predicate FileOf(items: seq<Item>, windows: map<string, seq<Span>>) {
    && DistinctEpisodes(items)
    && (forall name :: name in windows <==> exists i :: 0 <= i < |items| && items[i].episode == name)
    && forall i :: 0 <= i < |items| ==>
         && items[i].episode in windows && items[i].tasks == None
         && |items[i].windows| == |windows[items[i].episode]|
         && forall k :: 0 <= k < |items[i].windows| ==> items[i].windows[k] == Pair(windows[items[i].episode][k])
  }

  lemma TrainListed(takes: seq<Take>, rule: Rule, windows: map<string, seq<Span>>, name: string)
    requires (forall i :: 0 <= i < |takes| ==> Loadable(takes[i])) && Safe(rule)
    requires Holds(takes, rule, false, |takes|, windows) && name in windows
    ensures Disjoint(windows[name])
  {
    hide Exported, Part, Loadable, CountBefore, Safe;
    var i :| 0 <= i < |takes| && takes[i].name == name;
    assert TakeListed(takes, rule, false, i, windows);
    ExportedDisjoint(takes[i], rule);
    PartShape(Exported(takes[i], rule), CountBefore(takes, rule, i), rule.holdoutEvery, false,
              |Exported(takes[i], rule)|);
  }

  /** A window in the train dict was exported from its take, so it passed the yield gate. */
  lemma TrainWindowPassedGate(takes: seq<Take>, rule: Rule, windows: map<string, seq<Span>>, i: nat, s: Span)
    requires (forall k :: 0 <= k < |takes| ==> Loadable(takes[k])) && Safe(rule)
    requires Holds(takes, rule, false, |takes|, windows) && i < |takes|
    requires takes[i].name in windows && s in windows[takes[i].name]
    ensures YieldOk(takes[i].stamps, s, rule.minYield)
  {
    hide Exported, Part, Loadable, CountBefore, Safe, YieldOk;
    assert TakeListed(takes, rule, false, i, windows);
    ExportedDisjoint(takes[i], rule);
    PartShape(Exported(takes[i], rule), CountBefore(takes, rule, i), rule.holdoutEvery, false,
              |Exported(takes[i], rule)|);
  }

  lemma DisjointItemAccepted(item: Item, spans: seq<Span>)
    requires Disjoint(spans) && item.tasks == None && |item.windows| == |spans|
    requires forall k :: 0 <= k < |spans| ==> item.windows[k] == Pair(spans[k])
    ensures Consistent(item) && PairwiseApart(Listing(item)) && SpansOf(SortedListing(item)) == spans
  {
    var rows := Listing(item);
    forall i, j | 0 <= i < j < |rows| ensures Apart(rows[i], rows[j]) && Leq(ByBounds(rows[i]), ByBounds(rows[j])) {
      assert spans[i].hi <= spans[j].lo && spans[i].lo < spans[i].hi && spans[j].lo < spans[j].hi;
    }
    SortOfSorted(rows, ByBounds);
  }

  /** With a threshold that no distance is under no dwell is found. */
  lemma {:induction false} NeverAtHome(t: seq<real>, at: seq<bool>, dwellS: real, i: nat)
    requires i <= |t| == |at| && forall k :: 0 <= k < |at| ==> !at[k]
    ensures DwellsFrom(t, at, dwellS, i) == []
    decreases |t| - i
  {
    if i < |t| { NeverAtHome(t, at, dwellS, i + 1); }
  }

  /** Holding out every window leaves none to train on. */
  lemma {:induction false} AllHeldOut(spans: seq<Span>, first: nat, every: int, n: nat)
    requires n <= |spans| && (every == 1 || every == -1)
    ensures Part(spans, first, every, false, n) == []
  {
    if n > 0 {
      AllHeldOut(spans, first, every, n - 1);
      assert HeldOut(first + n, every);
    }
  }

  /** The rules under which a session never leaves the loader a window to refuse: the safe
      ones, and those that never leave it a window. */
  predicate Accepting(rule: Rule) {
    Safe(rule) || rule.thr <= 0.0 || rule.holdoutEvery == 1 || rule.holdoutEvery == -1
  }

  lemma NothingToTrainOn(takes: seq<Take>, rule: Rule, windows: map<string, seq<Span>>)
    requires (forall i :: 0 <= i < |takes| ==> Loadable(takes[i])) && Holds(takes, rule, false, |takes|, windows)
    requires Accepting(rule) && !Safe(rule)
    ensures windows == map[]
  {
    forall name ensures name !in windows {
      if i :| 0 <= i < |takes| && takes[i].name == name {
        TakeLeavesNothing(takes[i], rule, CountBefore(takes, rule, i));
        assert TakeListed(takes, rule, false, i, windows);
      }
    }
  }

  lemma TakeLeavesNothing(take: Take, rule: Rule, first: nat)
    requires Loadable(take) && Accepting(rule) && !Safe(rule)
    ensures Part(Exported(take, rule), first, rule.holdoutEvery, false, |Exported(take, rule)|) == []
  {
    hide Safe, HeldOut;
    if rule.thr <= 0.0 {
      NeverAtHome(take.t, AtHome(take.dist, rule.thr), rule.dwellS, 0);
    } else {
      AllHeldOut(Exported(take, rule), first, rule.holdoutEvery, |Exported(take, rule)|);
    }
  }

  /** Under an accepting rule, whatever a session looked like, the windows file it leaves passes
      every check of the loader, unless it lists no window at all; and the loader hands on the
      very windows that were cut. */
  lemma SegmentedFileIsAccepted(takes: seq<Take>, rule: Rule, windows: map<string, seq<Span>>, items: seq<Item>)
    requires (forall i :: 0 <= i < |takes| ==> Loadable(takes[i])) && Accepting(rule)
    requires Holds(takes, rule, false, |takes|, windows) && FileOf(items, windows)
    ensures Acceptable(items) <==> windows != map[]
    ensures forall i :: 0 <= i < |items| ==>
              Consistent(items[i]) && SpansOf(SortedListing(items[i])) == windows[items[i].episode]
  {
    hide Holds, Safe, Accepting, Loadable;
    if Safe(rule) {
      SafeFileIsAccepted(takes, rule, windows, items);
    } else {
      NothingToTrainOn(takes, rule, windows);
      NoItems(items, windows);
    }
  }

  lemma NoItems(items: seq<Item>, windows: map<string, seq<Span>>)
    requires FileOf(items, windows)
    ensures windows == map[] ==> items == []
  {
    assert items != [] ==> items[0].episode in windows;
  }

  lemma SafeFileIsAccepted(takes: seq<Take>, rule: Rule, windows: map<string, seq<Span>>, items: seq<Item>)
    requires (forall i :: 0 <= i < |takes| ==> Loadable(takes[i])) && Safe(rule)
    requires Holds(takes, rule, false, |takes|, windows) && FileOf(items, windows)
    ensures Acceptable(items) <==> windows != map[]
    ensures forall i :: 0 <= i < |items| ==>
              Consistent(items[i]) && SpansOf(SortedListing(items[i])) == windows[items[i].episode]
  {
    forall i | 0 <= i < |items|
      ensures Consistent(items[i]) && PairwiseApart(Listing(items[i]))
              && SpansOf(SortedListing(items[i])) == windows[items[i].episode]
    {
      hide Holds;
      TrainListed(takes, rule, windows, items[i].episode);
      DisjointItemAccepted(items[i], windows[items[i].episode]);
    }
    if windows != map[] {
      var name :| name in windows;
    }
    assert items != [] ==> items[0].episode in windows;
  }

  // ---- the condition is exact -------------------------------------------------------

  /** At home for the samples a take must have at least, and back again after `gap` seconds away. */
  ghost function ShortTrip(rule: Rule, stay: real, gap: real): Take {
    Take("episode_1", seq(2 * SEGMENT_FPS, _ => 0.0) + [stay, stay, stay + gap, stay + gap + stay],
         seq(2 * SEGMENT_FPS + 1, _ => 0.0) + [rule.thr, 0.0, 0.0], [[0.0]], _ => true)
  }

  lemma ShortTripDwells(rule: Rule, stay: real, gap: real)
    requires stay >= 0.0 && stay >= rule.dwellS && gap >= 0.0 && rule.thr > 0.0
    ensures var take := ShortTrip(rule, stay, gap);
      && Loadable(take) && |take.t| == 64 && take.t[0] == 0.0 && take.t[63] == stay + gap + stay
      && DwellsOf(take.t, take.dist, rule.thr, rule.dwellS)
         == [Dwell(0.0, stay), Dwell(stay + gap, stay + gap + stay)]
  {
    var take := ShortTrip(rule, stay, gap);
    var t, at := take.t, AtHome(take.dist, rule.thr);
    hide ShortTrip;
    assert |t| == 64 && |at| == 64 && t[0] == 0.0 && t[60] == stay && t[62] == stay + gap
           && t[63] == stay + gap + stay by {
      ShortTripShape(rule, stay, gap);
    }
    assert (forall i :: 0 <= i < 61 ==> at[i]) && !at[61] && at[62] && at[63] && Loadable(take) by {
      ShortTripShape(rule, stay, gap);
    }
    RunEndIs(at, 0, 61);
    RunEndIs(at, 62, 64);
    hide RunEnd;
    assert DwellsFrom(t, at, rule.dwellS, 64) == [];
    assert DwellsFrom(t, at, rule.dwellS, 62) == [Dwell(stay + gap, stay + gap + stay)];
    assert DwellsFrom(t, at, rule.dwellS, 61) == [Dwell(stay + gap, stay + gap + stay)];
  }

  lemma ShortTripShape(rule: Rule, stay: real, gap: real)
    requires stay >= 0.0 && gap >= 0.0 && rule.thr > 0.0
    ensures var take := ShortTrip(rule, stay, gap);
      && |take.t| == |take.dist| == 64 && Loadable(take)
      && take.t[0] == 0.0 && take.t[60] == stay && take.t[62] == stay + gap && take.t[63] == stay + gap + stay
      && (forall i :: 0 <= i < 61 ==> take.dist[i] < rule.thr)
      && take.dist[61] >= rule.thr && take.dist[62] < rule.thr && take.dist[63] < rule.thr
  {
    var t := ShortTrip(rule, stay, gap).t;
    assert forall i :: 0 <= i < 60 ==> t[i] == 0.0;
    assert t[60] == stay && t[61] == stay && t[62] == stay + gap && t[63] == stay + gap + stay;
  }

  /** Under any other rule that finds dwells at all, a trip just long enough is exported as a
      window of no length. */
  lemma UnsafeRuleCutsEmptyWindow(rule: Rule)
    requires !Safe(rule) && rule.thr > 0.0
    ensures var stay, gap := MaxReal(rule.dwellS, 0.0), -2.0 * MinReal(rule.padS, 0.0);
            var take, at := ShortTrip(rule, stay, gap), stay - MinReal(rule.padS, 0.0);
      && Loadable(take) && Exported(take, rule) == [Span(at, at)] && !WellShaped(Pair(Span(at, at)))
  {
    var stay, gap := MaxReal(rule.dwellS, 0.0), -2.0 * MinReal(rule.padS, 0.0);
    var take, at := ShortTrip(rule, stay, gap), stay - MinReal(rule.padS, 0.0);
    hide ShortTrip, DwellsOf;
    ShortTripDwells(rule, stay, gap);
    assert take.stamps == [[0.0]] && take.wanted(0) by {
      ShortTripCamera(rule, stay, gap);
    }
    var iv := DwellsOf(take.t, take.dist, rule.thr, rule.dwellS);
    assert Padded(take, iv, rule.padS, 0) == Span(at, at);
    assert FrameYield([0.0], at, at) == 0.0;
    assert Exports(take, iv, rule, 0) && !Exports(take, iv, rule, 1);
    CutTwo(take, iv, rule);
  }

  lemma ShortTripCamera(rule: Rule, stay: real, gap: real)
    ensures ShortTrip(rule, stay, gap).stamps == [[0.0]] && ShortTrip(rule, stay, gap).wanted(0)
  {
  }

  lemma CutTwo(take: Take, iv: seq<Dwell>, rule: Rule)
    requires take.t != [] && |iv| == 2 && forall c :: 0 <= c < |take.stamps| ==> take.stamps[c] != []
    requires Exports(take, iv, rule, 0) && !Exports(take, iv, rule, 1)
    ensures Cut(take, iv, rule, 2) == [Padded(take, iv, rule.padS, 0)]
  {
    hide Exports, Padded;
    assert Cut(take, iv, rule, 0) == [];
    assert Cut(take, iv, rule, 1) == [] + [Padded(take, iv, rule.padS, 0)];
  }

  /** What a session leaves: the train dict of its takes, and the items of the file. */
  ghost predicate SessionFile(takes: seq<Take>, rule: Rule, windows: map<string, seq<Span>>, items: seq<Item>) {
    && DistinctTakes(takes) && (forall i :: 0 <= i < |takes| ==> Loadable(takes[i]))
    && Holds(takes, rule, false, |takes|, windows) && FileOf(items, windows)
  }

  /** The session of one short trip, with a window the loader refuses. */
  lemma RefusedSession(rule: Rule) returns (takes: seq<Take>, windows: map<string, seq<Span>>, items: seq<Item>)
    requires !Accepting(rule)
    ensures SessionFile(takes, rule, windows, items) && windows != map[] && !Acceptable(items)
  {
    hide ShortTrip, Loadable, Exported, Safe;
    UnsafeRuleCutsEmptyWindow(rule);
    var stay, gap := MaxReal(rule.dwellS, 0.0), -2.0 * MinReal(rule.padS, 0.0);
    var take, at := ShortTrip(rule, stay, gap), stay - MinReal(rule.padS, 0.0);
    var span := Span(at, at);
    takes, windows := [take], map[take.name := [span]];
    items := [Item(take.name, [Pair(span)], None)];
    OnlyWindowTrains(span, rule.holdoutEvery);
    assert CountBefore(takes, rule, 0) == 0;
    assert TakeListed(takes, rule, false, 0, windows);
    assert takes[0].name == take.name && items[0].episode == take.name;
    assert !WellShaped(items[0].windows[0]);
  }

  lemma OnlyWindowTrains(span: Span, every: int)
    requires every != 1 && every != -1
    ensures Part([span], 0, every, false, 1) == [span]
  {
    assert !HeldOut(1, every) by {
      if every != 0 {
        OneIsNoMultiple(every);
      }
    }
    assert Part([span], 0, every, false, 0) == [];
  }

  lemma OneIsNoMultiple(every: int)
    requires every != 0 && every != 1 && every != -1
    ensures 1 % every != 0
  {
    if every > 1 {
      QuotientIs(1, every, 0, 1);
    } else {
      assert 1 % every == 1 % -every;
      QuotientIs(1, -every, 0, 1);
    }
  }

  /** The condition is exact: every session that leaves any window leaves a file the loader
      accepts exactly when the rule is safe, or never leaves a window. */
  lemma AcceptedExactlyWhen(rule: Rule)
    ensures Accepting(rule) <==>
              forall takes, windows, items :: SessionFile(takes, rule, windows, items) && windows != map[] ==>
                  Acceptable(items)
  {
    hide Safe, Acceptable, Holds, FileOf, Loadable;
    if Accepting(rule) {
      forall takes, windows, items | SessionFile(takes, rule, windows, items) && windows != map[]
        ensures Acceptable(items)
      {
        SegmentedFileIsAccepted(takes, rule, windows, items);
      }
    } else {
      var takes, windows, items := RefusedSession(rule);
    }
  }
}

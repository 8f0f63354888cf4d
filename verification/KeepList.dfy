/** The operator's keep-list: matching reviewed close times to the grasps of an episode. */
module KeepList {
  import opened Common
  import opened Windows

  const KEEP_T_TOL := 0.001

  predicate Close(g: Grasp, w: real) {
    g.t.Some? && AbsReal(g.t.value - w) <= KEEP_T_TOL
  }

  /** The first wanted time from `i` on that is not used yet and close to the grasp, or -1. */
  ghost function FirstUnused(g: Grasp, wanted: seq<real>, used: set<nat>, i: nat): int
    requires i <= |wanted|
    decreases |wanted| - i
  {
    if i == |wanted| then -1
    else if i !in used && Close(g, wanted[i]) then i
    else FirstUnused(g, wanted, used, i + 1)
  }

  /** For each of the first `n` grasps the wanted time it was matched to, or -1. */
  ghost function Match(grasps: seq<Grasp>, wanted: seq<real>, n: nat): (r: seq<int>)
    requires n <= |grasps|
    ensures |r| == n
  {
    if n == 0 then []
    else
      var before := Match(grasps, wanted, n - 1);
      before + [FirstUnused(grasps[n - 1], wanted, Used(before), 0)]
  }

  ghost function Used(matched: seq<int>): set<nat> {
    set i | i in matched && i >= 0
  }

  ghost function Kept(grasps: seq<Grasp>, matched: seq<int>, n: nat): seq<Grasp>
    requires n <= |grasps| && n <= |matched|
  {
    if n == 0 then []
    else Kept(grasps, matched, n - 1) + if matched[n - 1] >= 0 then [grasps[n - 1]] else []
  }

  ghost function Missing(wanted: seq<real>, used: set<nat>, n: nat): seq<real>
    requires n <= |wanted|
  {
    if n == 0 then []
    else Missing(wanted, used, n - 1) + if n - 1 !in used then [wanted[n - 1]] else []
  }

  method FilterByKeepList(grasps: seq<Grasp>, wanted: seq<real>) returns (kept: seq<Grasp>, missing: seq<real>)
    ensures kept == Kept(grasps, Match(grasps, wanted, |grasps|), |grasps|)
    ensures missing == Missing(wanted, Used(Match(grasps, wanted, |grasps|)), |wanted|)
  {
    kept := [];
    var used: set<nat> := {};
    for n := 0 to |grasps|
      invariant used == Used(Match(grasps, wanted, n))
      invariant kept == Kept(grasps, Match(grasps, wanted, n), n)
    {
      var g := grasps[n];
      var hit := -1;
      if g.t.Some? {
        hit := FindUnused(g, wanted, used);
      } else {
        NoTime(g, wanted, used, 0);
      }
      KeptPrefix(grasps, Match(grasps, wanted, n), hit, n);
      if hit >= 0 {
        kept, used := kept + [g], used + {hit as nat};
      }
    }
    missing := [];
    for i := 0 to |wanted|
      invariant missing == Missing(wanted, used, i)
    {
      if i !in used {
        missing := missing + [wanted[i]];
      }
    }
  }

  method FindUnused(g: Grasp, wanted: seq<real>, used: set<nat>) returns (i: int)
    ensures i == FirstUnused(g, wanted, used, 0)
  {
    for k := 0 to |wanted|
      invariant FirstUnused(g, wanted, used, 0) == FirstUnused(g, wanted, used, k)
    {
      if k !in used && Close(g, wanted[k]) {
        return k;
      }
    }
    i := -1;
  }

  lemma {:induction false} NoTime(g: Grasp, wanted: seq<real>, used: set<nat>, i: nat)
    requires g.t.None? && i <= |wanted|
    ensures FirstUnused(g, wanted, used, i) == -1
    decreases |wanted| - i
  {
    if i < |wanted| { NoTime(g, wanted, used, i + 1); }
  }

  lemma {:induction false} KeptPrefix(grasps: seq<Grasp>, matched: seq<int>, hit: int, n: nat)
    requires n <= |grasps| && n <= |matched|
    ensures Kept(grasps, matched + [hit], n) == Kept(grasps, matched, n)
  {
    if n > 0 { KeptPrefix(grasps, matched, hit, n - 1); }
  }

  // ---- the matching -----------------------------------------------------------------

  lemma {:induction false} FirstUnusedSound(g: Grasp, wanted: seq<real>, used: set<nat>, i: nat)
    requires i <= |wanted|
    ensures var k := FirstUnused(g, wanted, used, i);
      && -1 <= k < |wanted| && (k >= 0 ==> i <= k && k !in used && Close(g, wanted[k]))
      && forall j :: i <= j < (if k < 0 then |wanted| else k) ==> j in used || !Close(g, wanted[j])
    decreases |wanted| - i
  {
    if i < |wanted| { FirstUnusedSound(g, wanted, used, i + 1); }
  }

  /** Wanted time `i` went to one of the first `k` grasps. */
  ghost predicate Taken(m: seq<int>, k: nat, i: nat) {
    exists j :: 0 <= j < k && j < |m| && m[j] == i
  }

  lemma OneMoreMatched(grasps: seq<Grasp>, wanted: seq<real>, m: seq<int>, i: int)
    requires |m| < |grasps| && -1 <= i < |wanted|
    requires forall k :: 0 <= k < |m| ==> -1 <= m[k] < |wanted| && (m[k] >= 0 ==> Close(grasps[k], wanted[m[k]]))
    requires forall j, k :: 0 <= j < k < |m| && m[j] == m[k] ==> m[k] == -1
    requires i >= 0 ==> i !in m && Close(grasps[|m|], wanted[i])
    ensures var m' := m + [i];
      && (forall k :: 0 <= k < |m'| ==> -1 <= m'[k] < |wanted| && (m'[k] >= 0 ==> Close(grasps[k], wanted[m'[k]])))
      && (forall j, k :: 0 <= j < k < |m'| && m'[j] == m'[k] ==> m'[k] == -1)
  {
    hide Close;
  }

  lemma {:induction false} FirstCloseIsTaken(grasps: seq<Grasp>, wanted: seq<real>, n: nat)
    requires n <= |grasps|
    ensures var m := Match(grasps, wanted, n);
      forall k, i :: 0 <= k < n && 0 <= i < |wanted| && (m[k] < 0 || i < m[k]) && Close(grasps[k], wanted[i])
        ==> Taken(m, k, i)
  {
    hide Close, FirstUnused;
    if n > 0 {
      var before, m := Match(grasps, wanted, n - 1), Match(grasps, wanted, n);
      FirstCloseIsTaken(grasps, wanted, n - 1);
      FirstUnusedSound(grasps[n - 1], wanted, Used(before), 0);
      forall k, i | 0 <= k < n && 0 <= i < |wanted| && (m[k] < 0 || i < m[k]) && Close(grasps[k], wanted[i])
        ensures Taken(m, k, i)
      {
        if k < n - 1 {
          assert m[k] == before[k] && Taken(before, k, i);
          var j :| 0 <= j < k && before[j] == i;
          assert m[j] == i;
        } else {
          assert i in Used(before);
          var j :| 0 <= j < n - 1 && before[j] == i;
          assert m[j] == i;
        }
      }
    }
  }

  /** Matched pairs are within tolerance and no wanted time is matched twice; a grasp takes the
      first time close to it that no earlier grasp took, and none only if there is none. */
  lemma {:induction false} MatchSound(grasps: seq<Grasp>, wanted: seq<real>, n: nat)
    requires n <= |grasps|
    ensures var m := Match(grasps, wanted, n);
      && |m| == n
      && (forall k :: 0 <= k < n ==> -1 <= m[k] < |wanted| && (m[k] >= 0 ==> Close(grasps[k], wanted[m[k]])))
      && (forall j, k :: 0 <= j < k < n && m[j] == m[k] ==> m[k] == -1)
      && (forall k, i :: 0 <= k < n && 0 <= i < |wanted| && (m[k] < 0 || i < m[k]) && Close(grasps[k], wanted[i])
            ==> Taken(m, k, i))
  {
    hide Close, FirstUnused;
    FirstCloseIsTaken(grasps, wanted, n);
    if n > 0 {
      var m := Match(grasps, wanted, n - 1);
      MatchSound(grasps, wanted, n - 1);
      FirstUnusedSound(grasps[n - 1], wanted, Used(m), 0);
      OneMoreMatched(grasps, wanted, m, FirstUnused(grasps[n - 1], wanted, Used(m), 0));
    }
  }

  /** Positions of the kept grasps: an increasing list of indices. */
  ghost function KeptAt(matched: seq<int>, n: nat): seq<nat>
    requires n <= |matched|
  {
    if n == 0 then [] else KeptAt(matched, n - 1) + if matched[n - 1] >= 0 then [n - 1] else []
  }

  /** The kept grasps are a subsequence of the grasps in their order. */
  lemma {:induction false} KeptInOrder(grasps: seq<Grasp>, matched: seq<int>, n: nat)
    requires n <= |grasps| && n <= |matched|
    ensures var at, kept := KeptAt(matched, n), Kept(grasps, matched, n);
      && |at| == |kept|
      && (forall i :: 0 <= i < |at| ==> at[i] < n && matched[at[i]] >= 0 && kept[i] == grasps[at[i]])
      && (forall i, j :: 0 <= i < j < |at| ==> at[i] < at[j])
  {
    if n > 0 { KeptInOrder(grasps, matched, n - 1); }
  }

  lemma {:induction false} KeptCount(grasps: seq<Grasp>, wanted: seq<real>, n: nat)
    requires n <= |grasps|
    ensures |Kept(grasps, Match(grasps, wanted, n), n)| == |Used(Match(grasps, wanted, n))|
  {
    if n > 0 {
      KeptCount(grasps, wanted, n - 1);
      var before := Match(grasps, wanted, n - 1);
      var hit := FirstUnused(grasps[n - 1], wanted, Used(before), 0);
      FirstUnusedSound(grasps[n - 1], wanted, Used(before), 0);
      KeptPrefix(grasps, before, hit, n - 1);
      if hit >= 0 {
        assert Used(before + [hit]) == Used(before) + {hit as nat};
      } else {
        assert Used(before + [hit]) == Used(before);
      }
    }
  }

  lemma {:induction false} MissingCount(wanted: seq<real>, used: set<nat>, n: nat)
    requires n <= |wanted|
    ensures |Missing(wanted, used, n)| + |set i: nat | i in used && i < n| == n
  {
    if n > 0 {
      MissingCount(wanted, used, n - 1);
      var before, now := set i: nat | i in used && i < n - 1, set i: nat | i in used && i < n;
      if n - 1 in used {
        assert now == before + {n - 1};
      } else {
        assert now == before;
      }
    } else {
      assert (set i: nat | i in used && i < 0) == {};
    }
  }

  /** Kept and missing always add up to what was wanted. */
  lemma KeptPlusMissing(grasps: seq<Grasp>, wanted: seq<real>)
    ensures var m := Match(grasps, wanted, |grasps|);
      && |m| == |grasps|
      && |Kept(grasps, m, |grasps|)| + |Missing(wanted, Used(m), |wanted|)| == |wanted|
  {
    var m := Match(grasps, wanted, |grasps|);
    MatchSound(grasps, wanted, |grasps|);
    KeptCount(grasps, wanted, |grasps|);
    MissingCount(wanted, Used(m), |wanted|);
    assert (set i: nat | i in Used(m) && i < |wanted|) == Used(m);
  }

  lemma {:induction false} MissingAreUnmatched(wanted: seq<real>, used: set<nat>, n: nat)
    requires n <= |wanted|
    ensures forall t :: t in Missing(wanted, used, n) <==> exists i :: 0 <= i < n && i !in used && wanted[i] == t
  {
    if n > 0 {
      MissingAreUnmatched(wanted, used, n - 1);
      var before, last := Missing(wanted, used, n - 1), if n - 1 !in used then [wanted[n - 1]] else [];
      assert forall t :: t in before + last <==> t in before || t in last;
    }
  }

  /** No grasp was matched to wanted time `i`. */
  ghost predicate NotFound(matched: seq<int>, i: nat) {
    forall k :: 0 <= k < |matched| ==> matched[k] != i
  }

  /** The times reported missing are exactly those no grasp was matched to. */
  lemma MissingWereNotFound(grasps: seq<Grasp>, wanted: seq<real>, t: real)
    ensures var m := Match(grasps, wanted, |grasps|);
      t in Missing(wanted, Used(m), |wanted|) <==> exists i :: 0 <= i < |wanted| && wanted[i] == t && NotFound(m, i)
  {
    hide Match, Missing;
    var m := Match(grasps, wanted, |grasps|);
    MissingAreUnmatched(wanted, Used(m), |wanted|);
    forall i | 0 <= i < |wanted| ensures i !in Used(m) <==> NotFound(m, i) {
      UsedMeans(m, i);
    }
  }

  lemma UsedMeans(matched: seq<int>, i: nat)
    ensures i !in Used(matched) <==> NotFound(matched, i)
  {
  }

  // ---- well-separated times ---------------------------------------------------------

  ghost predicate Separated(grasps: seq<Grasp>, wanted: seq<real>) {
    && (forall i, j :: 0 <= i < j < |grasps| && grasps[i].t.Some? && grasps[j].t.Some? ==>
          AbsReal(grasps[i].t.value - grasps[j].t.value) > 2.0 * KEEP_T_TOL)
    && (forall i, j :: 0 <= i < j < |wanted| ==> AbsReal(wanted[i] - wanted[j]) > 2.0 * KEEP_T_TOL)
  }

  /** When grasps and wanted times are each more than twice the tolerance apart, the greedy
      result is the only matching: grasp k goes to time i exactly when they are close. */
  lemma UniqueMatching(grasps: seq<Grasp>, wanted: seq<real>, k: nat, i: nat)
    requires Separated(grasps, wanted) && k < |grasps| && i < |wanted|
    ensures Match(grasps, wanted, |grasps|)[k] == i <==> Close(grasps[k], wanted[i])
    ensures i in Used(Match(grasps, wanted, |grasps|)) <==> exists g :: g in grasps && Close(g, wanted[i])
  {
    var m := Match(grasps, wanted, |grasps|);
    MatchSound(grasps, wanted, |grasps|);
    if Close(grasps[k], wanted[i]) {
      OnlyGrasp(grasps, wanted, m, k, i);
    }
    if g :| g in grasps && Close(g, wanted[i]) {
      var j :| 0 <= j < |grasps| && grasps[j] == g;
      OnlyGrasp(grasps, wanted, m, j, i);
    }
  }

  lemma OnlyGrasp(grasps: seq<Grasp>, wanted: seq<real>, m: seq<int>, k: nat, i: nat)
    requires Separated(grasps, wanted) && k < |grasps| == |m| && i < |wanted| && Close(grasps[k], wanted[i])
    requires m == Match(grasps, wanted, |grasps|)
    ensures m[k] == i
  {
    hide Close, Match;
    MatchSound(grasps, wanted, |grasps|);
    forall j | 0 <= j < k ensures m[j] != i {
      if m[j] == i {
        CloseToBoth(grasps[j], grasps[k], wanted[i]);
      }
    }
    if m[k] >= 0 {
      BothClose(grasps[k], wanted[m[k]], wanted[i]);
    }
  }

  lemma CloseToBoth(g: Grasp, h: Grasp, w: real)
    requires Close(g, w) && Close(h, w)
    ensures g.t.Some? && h.t.Some? && AbsReal(g.t.value - h.t.value) <= 2.0 * KEEP_T_TOL
  {
  }

  lemma BothClose(g: Grasp, v: real, w: real)
    requires Close(g, v) && Close(g, w)
    ensures AbsReal(v - w) <= 2.0 * KEEP_T_TOL && AbsReal(w - v) <= 2.0 * KEEP_T_TOL
  {
  }
}

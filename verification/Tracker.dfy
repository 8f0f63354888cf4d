/** The spatial tracker of the packet detector: one entry per physical packet, matched to
    the fresh detections of each cycle by position, and identified by a weighted vote over
    its recent reads. */
module Tracker {
  import opened Common
  import opened PartIds
  import opened Detections

  /** One OCR read. `frame` numbers the fetch it came from. */
  datatype Read = Read(part: Option<string>, conf: real, frame: nat)

  datatype Entry = Entry(bbox: Box, window: seq<Read>, seen: real)

  const VOTE_WINDOW: nat := 15
  const NEAR_PX := 75

  /** What a bounded queue of length `n` still holds. */
  function LastN<T>(s: seq<T>, n: nat): seq<T> {
    if |s| <= n then s else s[|s| - n..]
  }

  // ---- the vote ---------------------------------------------------------------------

  function ReadWeight(r: Read): real {
    MaxReal(r.conf, 0.05)
  }

  ghost function Weight(window: seq<Read>, part: string): real {
    if window == [] then 0.0
    else
      var last := window[|window| - 1];
      Weight(window[..|window| - 1], part) +
      if Named(last.part) && last.part.value == part then ReadWeight(last) else 0.0
  }

  ghost function Total(window: seq<Read>): real {
    if window == [] then 0.0
    else
      var last := window[|window| - 1];
      Total(window[..|window| - 1]) + if Named(last.part) then ReadWeight(last) else 0.0
  }

  /** The distinct names read, in first-seen order. */
  ghost function Candidates(window: seq<Read>): seq<string> {
    if window == [] then []
    else
      var before, last := Candidates(window[..|window| - 1]), window[|window| - 1];
      if Named(last.part) && last.part.value !in before then before + [last.part.value] else before
  }

  /** The first candidate of greatest weight. */
  ghost function Heaviest(window: seq<Read>, names: seq<string>): string
    requires names != []
  {
    if |names| == 1 then names[0]
    else
      var best := Heaviest(window, names[..|names| - 1]);
      if Weight(window, names[|names| - 1]) > Weight(window, best) then names[|names| - 1] else best
  }

  ghost function Winner(window: seq<Read>): string
    requires Candidates(window) != []
  {
    Heaviest(window, Candidates(window))
  }

  function InCents(x: real): real {
    x * 100.0
  }

  /** To two decimals. */
  function RoundCents(x: real): real {
    RoundHalfEven(InCents(x)) as real / 100.0
  }

  lemma {:induction false} TotalPositive(window: seq<Read>)
    ensures Candidates(window) == [] ==> Total(window) == 0.0
    ensures Candidates(window) != [] ==> Total(window) >= 0.05
  {
    if window != [] { TotalPositive(window[..|window| - 1]); }
  }

  ghost function Voted(e: Entry, known: seq<string>): Detection {
    if Candidates(e.window) == [] then Detection(e.bbox, None, 0.0)
    else
      TotalPositive(e.window);
      Detection(e.bbox, Some(SnapToCatalog(Winner(e.window), known)),
                RoundCents(Weight(e.window, Winner(e.window)) / Total(e.window)))
  }

  method Vote(e: Entry, known: seq<string>) returns (d: Detection)
    ensures d == Voted(e, known)
  {
    var names: seq<string> := [];
    var tally: map<string, real> := map[];
    var total := 0.0;
    hide Heaviest, SnapToCatalog;
    for i := 0 to |e.window|
      invariant names == Candidates(e.window[..i])
      invariant forall name :: name in tally <==> name in names
      invariant forall name :: name in names ==> tally[name] == Weight(e.window[..i], name)
      invariant forall name :: name !in names ==> Weight(e.window[..i], name) == 0.0
      invariant total == Total(e.window[..i])
    {
      assert e.window[..i + 1][..i] == e.window[..i];
      var r := e.window[i];
      if Named(r.part) {
        var part := r.part.value;
        if part !in tally {
          names := names + [part];
        }
        tally := tally[part := (if part in tally then tally[part] else 0.0) + ReadWeight(r)];
        total := total + ReadWeight(r);
      }
    }
    assert e.window[..|e.window|] == e.window;
    if names == [] {
      return Detection(e.bbox, None, 0.0);
    }
    var winner := HeaviestOf(e.window, names, tally);
    TotalPositive(e.window);
    var snapped := SnapToCatalogOf(winner, known);
    d := Detection(e.bbox, Some(snapped), RoundCents(tally[winner] / total));
  }

  method HeaviestOf(ghost window: seq<Read>, names: seq<string>, tally: map<string, real>) returns (best: string)
    requires names != []
    requires forall name :: name in names ==> name in tally && tally[name] == Weight(window, name)
    ensures best == Heaviest(window, names) && best in names
  {
    best := names[0];
    for i := 1 to |names|
      invariant best == Heaviest(window, names[..i]) && best in names
    {
      assert names[..i + 1][..i] == names[..i];
      if tally[names[i]] > tally[best] {
        best := names[i];
      }
    }
    assert names[..|names|] == names;
  }

  lemma {:induction false} HeaviestWeighsMost(window: seq<Read>, names: seq<string>)
    requires names != []
    ensures Heaviest(window, names) in names
    ensures forall name :: name in names ==> Weight(window, name) <= Weight(window, Heaviest(window, names))
  {
    if |names| > 1 {
      HeaviestWeighsMost(window, names[..|names| - 1]);
      assert names == names[..|names| - 1] + [names[|names| - 1]];
    }
  }

  lemma {:induction false} CandidatesAreRead(window: seq<Read>)
    ensures forall name :: name in Candidates(window) <==> exists r :: r in window && r.part == Some(name) && name != ""
    ensures forall name :: name !in Candidates(window) ==> Weight(window, name) == 0.0
  {
    if window != [] {
      var front, last := window[..|window| - 1], window[|window| - 1];
      CandidatesAreRead(front);
      assert window == front + [last];
      forall name | name in Candidates(window)
        ensures exists r :: r in window && r.part == Some(name) && name != ""
      {
        if name in Candidates(front) {
          var r :| r in front && r.part == Some(name) && name != "";
          assert r in window;
        } else {
          assert last in window;
        }
      }
    }
  }

  lemma {:induction false} TwoWeights(window: seq<Read>, p: string, q: string)
    requires p != q
    ensures 0.0 <= Weight(window, p)
    ensures Weight(window, p) + Weight(window, q) <= Total(window)
  {
    if window != [] { TwoWeights(window[..|window| - 1], p, q); }
  }

  /** A name with more than half of the vote weight wins the vote. */
  lemma MajorityWins(window: seq<Read>, part: string)
    requires 2.0 * Weight(window, part) > Total(window)
    ensures Candidates(window) != [] && Winner(window) == part
  {
    CandidatesAreRead(window);
    TotalPositive(window);
    TwoWeights(window, part, part + "x");
    if Winner(window) != part {
      HeaviestWeighsMost(window, Candidates(window));
      TwoWeights(window, part, Winner(window));
    }
  }

  /** The vote abstains exactly when nothing was read; otherwise the confidence it reports
      is the winner's share of the weight, between zero and one. */
  lemma VoteConfidence(e: Entry, known: seq<string>)
    ensures 0.0 <= Voted(e, known).conf <= 1.0
    ensures Voted(e, known).part.None? <==> forall r :: r in e.window ==> !Named(r.part)
    ensures Voted(e, known).part.None? ==> Voted(e, known) == Detection(e.bbox, None, 0.0)
  {
    CandidatesAreRead(e.window);
    TotalPositive(e.window);
    if Candidates(e.window) == [] {
      if r :| r in e.window && Named(r.part) {
        NamedIsCandidate(e.window, r);
      }
    } else {
      var w, t := Weight(e.window, Winner(e.window)), Total(e.window);
      TwoWeights(e.window, Winner(e.window), Winner(e.window) + "x");
      TwoWeights(e.window, Winner(e.window) + "x", Winner(e.window));
      ShareInUnit(w, t);
      HeaviestWeighsMost(e.window, Candidates(e.window));
      var r :| r in e.window && r.part == Some(Winner(e.window)) && Winner(e.window) != "";
      assert Named(r.part);
    }
  }

  /** What is reported is the share of a heaviest name, to the nearest hundredth. */
  lemma VoteAgreement(e: Entry, known: seq<string>, rival: string)
    requires Voted(e, known).part.Some?
    ensures Candidates(e.window) != [] && Total(e.window) > 0.0
    ensures Weight(e.window, rival) <= Weight(e.window, Winner(e.window))
    ensures AbsReal(Voted(e, known).conf - Weight(e.window, Winner(e.window)) / Total(e.window)) <= 0.005
    ensures Voted(e, known).part == Some(SnapToCatalog(Winner(e.window), known)) && Voted(e, known).bbox == e.bbox
  {
    CandidatesAreRead(e.window);
    TotalPositive(e.window);
    HeaviestWeighsMost(e.window, Candidates(e.window));
    TwoWeights(e.window, Winner(e.window), Winner(e.window) + "x");
    NearestCent(Weight(e.window, Winner(e.window)) / Total(e.window));
  }

  /** What one more read adds: its confidence, but no less than a twentieth, to the name it
      has and to the whole. */
  lemma OneMoreRead(window: seq<Read>, r: Read, part: string)
    ensures var weight := if r.conf >= 0.05 then r.conf else 0.05;
      && Weight(window + [r], part)
         == Weight(window, part) + (if part != "" && r.part == Some(part) then weight else 0.0)
      && Total(window + [r])
         == Total(window) + (if r.part.Some? && r.part.value != "" then weight else 0.0)
    ensures Weight([], part) == 0.0 && Total([]) == 0.0
  {
    assert (window + [r])[..|window|] == window;
  }

  lemma {:induction false} HeaviestIsFirst(window: seq<Read>, names: seq<string>)
    requires names != []
    ensures exists p :: 0 <= p < |names| && names[p] == Heaviest(window, names)
                        && forall q :: 0 <= q < p ==> Weight(window, names[q]) < Weight(window, names[p])
  {
    if |names| > 1 {
      var n := |names| - 1;
      var front := names[..n];
      HeaviestIsFirst(window, front);
      HeaviestWeighsMost(window, front);
      if Weight(window, names[n]) > Weight(window, Heaviest(window, front)) {
        assert forall q :: 0 <= q < n ==> names[q] == front[q] && front[q] in front;
        assert names[n] == Heaviest(window, names);
      } else {
        var p :| 0 <= p < n && front[p] == Heaviest(window, front)
                 && forall q :: 0 <= q < p ==> Weight(window, front[q]) < Weight(window, front[p]);
        assert names[p] == Heaviest(window, names);
        assert forall q :: 0 <= q < p ==> names[q] == front[q];
      }
    } else {
      assert names[0] == Heaviest(window, names);
    }
  }

  /** `name` was read at place `i` or before it. */
  ghost predicate ReadBy(window: seq<Read>, name: string, i: nat) {
    exists j :: 0 <= j <= i && j < |window| && window[j].part == Some(name)
  }

  lemma {:induction false} CandidatesInReadOrder(window: seq<Read>, p: nat, q: nat, i: nat)
    requires p < q < |Candidates(window)| && i < |window| && window[i].part == Some(Candidates(window)[q])
    ensures i > 0 && ReadBy(window, Candidates(window)[p], i - 1)
  {
    var n := |window| - 1;
    var front, names := window[..n], Candidates(window);
    CandidatesAreRead(front);
    if i == n {
      if p < |Candidates(front)| {
        assert names[p] in Candidates(front);
        var r :| r in front && r.part == Some(names[p]);
        var j :| 0 <= j < |front| && front[j] == r;
        assert window[j].part == Some(names[p]);
      }
    } else {
      CandidatesAreRead(window);
      assert names[q] in names && names[q] != "";
      assert front[i] in front && front[i].part == Some(names[q]);
      assert names[q] in Candidates(front);
      CandidatesDistinct(window);
      CandidatesInReadOrder(front, p, q, i);
      var j :| 0 <= j <= i - 1 && j < |front| && front[j].part == Some(names[p]);
      assert window[j].part == Some(names[p]);
    }
  }

  lemma {:induction false} CandidatesDistinct(window: seq<Read>)
    ensures forall p, q :: 0 <= p < q < |Candidates(window)| ==> Candidates(window)[p] != Candidates(window)[q]
  {
    if window != [] { CandidatesDistinct(window[..|window| - 1]); }
  }

  /** Of the names of the greatest weight the one that was read first wins. */
  lemma TiesGoToFirstRead(window: seq<Read>, rival: string, i: nat)
    requires Candidates(window) != [] && i < |window| && rival != "" && window[i].part == Some(rival)
    requires Weight(window, rival) == Weight(window, Winner(window)) && rival != Winner(window)
    ensures i > 0 && ReadBy(window, Winner(window), i - 1)
  {
    hide ReadBy, Weight;
    var names := Candidates(window);
    CandidatesAreRead(window);
    HeaviestIsFirst(window, names);
    assert window[i] in window && rival in names;
    var p :| 0 <= p < |names| && names[p] == Winner(window)
             && forall q :: 0 <= q < p ==> Weight(window, names[q]) < Weight(window, names[p]);
    var q :| 0 <= q < |names| && names[q] == rival;
    CandidatesInReadOrder(window, p, q, i);
  }

  lemma NearestCent(x: real)
    ensures AbsReal(RoundCents(x) - x) <= 0.005
  {
    RoundHalfEvenWithinHalf(InCents(x));
  }

  lemma NamedIsCandidate(window: seq<Read>, r: Read)
    requires r in window && Named(r.part)
    ensures r.part.value in Candidates(window)
  {
    CandidatesAreRead(window);
  }

  lemma Quotient(w: real, t: real, q: real)
    requires 0.0 <= w <= t && t > 0.0 && q * t == w
    ensures 0.0 <= q <= 1.0
  {
    if q > 1.0 {
      MulStrict(1.0, q, t);
    } else if q < 0.0 {
      MulStrict(q, 0.0, t);
    }
  }

  lemma WholeNumbersStay()
    ensures RoundCents(0.0) == 0.0 && RoundCents(1.0) == 1.0
  {
    assert InCents(0.0) == 0.0 && InCents(1.0) == 100.0;
  }

  lemma ShareInUnit(w: real, t: real)
    requires 0.0 <= w <= t && t > 0.0
    ensures 0.0 <= RoundCents(w / t) <= 1.0
  {
    hide RoundHalfEven;
    Quotient(w, t, w / t);
    RoundHalfEvenMonotone(InCents(0.0), InCents(w / t));
    RoundHalfEvenMonotone(InCents(w / t), InCents(1.0));
    WholeNumbersStay();
  }

  // ---- matching fresh detections to held entries ------------------------------------

  /** The first fresh detection not yet taken that is near the box, or -1. */
  ghost function FirstFree(bbox: Box, dets: seq<Detection>, taken: seq<int>, from: nat): int
    requires from <= |dets|
    decreases |dets| - from
  {
    if from == |dets| then -1
    else if from !in taken && Near(bbox, dets[from].bbox, NEAR_PX) then from
    else FirstFree(bbox, dets, taken, from + 1)
  }

  /** For each of the first `n` entries, the fresh detection that feeds it, or -1. */
  ghost function Match(held: seq<Entry>, dets: seq<Detection>, n: nat): (r: seq<int>)
    requires n <= |held|
    ensures |r| == n
  {
    if n == 0 then []
    else
      var before := Match(held, dets, n - 1);
      before + [FirstFree(held[n - 1].bbox, dets, before, 0)]
  }

  /** Where an entry of the next cycle comes from. */
  datatype Origin =
    | Fed(entry: nat, detection: nat)
    | Kept(entry: nat)
    | New(detection: nat)

  ghost function Survivors(held: seq<Entry>, matched: seq<int>, n: nat, now: real, hold: real): seq<Origin>
    requires n <= |held| == |matched|
  {
    if n == 0 then []
    else
      Survivors(held, matched, n - 1, now, hold) +
      if matched[n - 1] >= 0 then [Fed(n - 1, matched[n - 1])]
      else if now - held[n - 1].seen < hold then [Kept(n - 1)]
      else []
  }

  ghost function Newcomers(matched: seq<int>, n: nat): seq<Origin> {
    if n == 0 then []
    else Newcomers(matched, n - 1) + if n - 1 !in matched then [New(n - 1)] else []
  }

  ghost function Origins(held: seq<Entry>, dets: seq<Detection>, now: real, hold: real): seq<Origin> {
    var matched := Match(held, dets, |held|);
    Survivors(held, matched, |held|, now, hold) + Newcomers(matched, |dets|)
  }

  function ReadOf(d: Detection, frame: nat): Read {
    Read(d.part, d.conf, frame)
  }

  ghost predicate InRange(o: Origin, held: seq<Entry>, dets: seq<Detection>) {
    match o
    case Fed(k, i) => k < |held| && i < |dets|
    case Kept(k) => k < |held|
    case New(i) => i < |dets|
  }

  function FeedEntry(e: Entry, d: Detection, frame: nat, now: real): Entry {
    Entry(d.bbox, LastN(e.window + [ReadOf(d, frame)], VOTE_WINDOW), now)
  }

  function NewEntry(d: Detection, frame: nat, now: real): Entry {
    Entry(d.bbox, [ReadOf(d, frame)], now)
  }

  ghost function Build(o: Origin, held: seq<Entry>, dets: seq<Detection>, frame: nat, now: real): Entry
    requires InRange(o, held, dets)
  {
    match o
    case Fed(k, i) => FeedEntry(held[k], dets[i], frame, now)
    case Kept(k) => held[k]
    case New(i) => NewEntry(dets[i], frame, now)
  }

  ghost function BuildAll(os: seq<Origin>, held: seq<Entry>, dets: seq<Detection>, frame: nat,
                          now: real): (r: seq<Entry>)
    requires forall o :: o in os ==> InRange(o, held, dets)
    ensures |r| == |os| && forall p :: 0 <= p < |os| ==> r[p] == Build(os[p], held, dets, frame, now)
  {
    seq(|os|, p requires 0 <= p < |os| => assert os[p] in os; Build(os[p], held, dets, frame, now))
  }

  ghost function Advance(held: seq<Entry>, dets: seq<Detection>, frame: nat, now: real, hold: real): seq<Entry> {
    OriginsInRange(held, dets, now, hold);
    BuildAll(Origins(held, dets, now, hold), held, dets, frame, now)
  }

  lemma {:induction false} FirstFreeSound(bbox: Box, dets: seq<Detection>, taken: seq<int>, from: nat)
    requires from <= |dets|
    ensures var i := FirstFree(bbox, dets, taken, from);
      && -1 <= i < |dets|
      && (i >= 0 ==> from <= i && i !in taken && Near(bbox, dets[i].bbox, NEAR_PX))
      && forall k :: from <= k < (if i < 0 then |dets| else i) ==>
           k in taken || !Near(bbox, dets[k].bbox, NEAR_PX)
    decreases |dets| - from
  {
    if from < |dets| { FirstFreeSound(bbox, dets, taken, from + 1); }
  }

  /** One more entry matched to a free detection near it, or to none when none near it is free. */
  lemma OneMoreMatched(held: seq<Entry>, dets: seq<Detection>, m: seq<int>, i: int)
    requires |m| < |held| && -1 <= i < |dets|
    requires forall k :: 0 <= k < |m| ==> -1 <= m[k] < |dets|
    requires forall k :: 0 <= k < |m| && m[k] >= 0 ==> Near(held[k].bbox, dets[m[k]].bbox, 75)
    requires forall j, k :: 0 <= j < k < |m| && m[j] == m[k] ==> m[k] == -1
    requires i >= 0 ==> i !in m && Near(held[|m|].bbox, dets[i].bbox, 75)
    ensures var m' := m + [i];
      && (forall k :: 0 <= k < |m'| ==> -1 <= m'[k] < |dets|)
      && (forall k :: 0 <= k < |m'| && m'[k] >= 0 ==> Near(held[k].bbox, dets[m'[k]].bbox, 75))
      && (forall j, k :: 0 <= j < k < |m'| && m'[j] == m'[k] ==> m'[k] == -1)
  {
    hide Near;
  }

  /** Detection `i` went to one of the first `k` entries. */
  ghost predicate Taken(m: seq<int>, k: nat, i: nat) {
    exists j :: 0 <= j < k && j < |m| && m[j] == i
  }

  lemma {:induction false} FirstNearIsTaken(held: seq<Entry>, dets: seq<Detection>, n: nat)
    requires n <= |held|
    ensures var m := Match(held, dets, n);
      forall k, i :: 0 <= k < n && 0 <= i < |dets| && (m[k] < 0 || i < m[k]) && Near(held[k].bbox, dets[i].bbox, 75)
        ==> Taken(m, k, i)
  {
    hide Near, FirstFree;
    if n > 0 {
      var before, m := Match(held, dets, n - 1), Match(held, dets, n);
      FirstNearIsTaken(held, dets, n - 1);
      FirstFreeSound(held[n - 1].bbox, dets, before, 0);
      forall k, i | 0 <= k < n && 0 <= i < |dets| && (m[k] < 0 || i < m[k]) && Near(held[k].bbox, dets[i].bbox, 75)
        ensures Taken(m, k, i)
      {
        if k < n - 1 {
          assert m[k] == before[k] && Taken(before, k, i);
          var j :| 0 <= j < k && before[j] == i;
          assert m[j] == i;
        } else {
          assert i in before;
          var j :| 0 <= j < n - 1 && before[j] == i;
          assert m[j] == i;
        }
      }
    }
  }

  /** Greedy matching: each entry is fed by the first detection near it that no earlier entry
      took, and by none only if there is none; no detection feeds two entries. */
  lemma {:induction false} MatchSound(held: seq<Entry>, dets: seq<Detection>, n: nat)
    requires n <= |held|
    ensures var m := Match(held, dets, n);
      && |m| == n
      && (forall k :: 0 <= k < n ==> -1 <= m[k] < |dets|)
      && (forall k :: 0 <= k < n && m[k] >= 0 ==> Near(held[k].bbox, dets[m[k]].bbox, 75))
      && (forall j, k :: 0 <= j < k < n && m[j] == m[k] ==> m[k] == -1)
      && (forall k, i :: 0 <= k < n && 0 <= i < |dets| && (m[k] < 0 || i < m[k]) && Near(held[k].bbox, dets[i].bbox, 75)
            ==> Taken(m, k, i))
  {
    hide Near, FirstFree;
    FirstNearIsTaken(held, dets, n);
    if n > 0 {
      var m := Match(held, dets, n - 1);
      MatchSound(held, dets, n - 1);
      FirstFreeSound(held[n - 1].bbox, dets, m, 0);
      OneMoreMatched(held, dets, m, FirstFree(held[n - 1].bbox, dets, m, 0));
    }
  }

  lemma {:induction false} SurvivorsAre(held: seq<Entry>, matched: seq<int>, n: nat, now: real, hold: real)
    requires n <= |held| == |matched|
    ensures forall o :: o in Survivors(held, matched, n, now, hold) <==>
              || (o.Fed? && o.entry < n && matched[o.entry] == o.detection)
              || (o.Kept? && o.entry < n && matched[o.entry] < 0 && now - held[o.entry].seen < hold)
    ensures forall p, q :: 0 <= p < q < |Survivors(held, matched, n, now, hold)| ==>
              Old(Survivors(held, matched, n, now, hold)[p]) < Old(Survivors(held, matched, n, now, hold)[q])
  {
    if n > 0 {
      SurvivorsAre(held, matched, n - 1, now, hold);
      var s := Survivors(held, matched, n - 1, now, hold);
      forall p | 0 <= p < |s| ensures 0 <= Old(s[p]) < n - 1 {
        assert s[p] in s;
      }
    }
  }

  /** The held entry an origin continues, or -1. */
  ghost function Old(o: Origin): int {
    match o { case Fed(k, _) => k case Kept(k) => k case New(_) => -1 }
  }

  /** The fresh detection an origin consumes, or -1. */
  ghost function Consumes(o: Origin): int {
    match o { case Fed(_, i) => i case Kept(_) => -1 case New(i) => i }
  }

  lemma {:induction false} NewcomersAre(matched: seq<int>, n: nat)
    ensures forall o :: o in Newcomers(matched, n) <==> o.New? && o.detection < n && o.detection !in matched
    ensures forall p, q :: 0 <= p < q < |Newcomers(matched, n)| ==>
              Consumes(Newcomers(matched, n)[p]) < Consumes(Newcomers(matched, n)[q])
  {
    if n > 0 {
      NewcomersAre(matched, n - 1);
      var s := Newcomers(matched, n - 1);
      forall p | 0 <= p < |s| ensures Consumes(s[p]) < n - 1 {
        assert s[p] in s;
      }
    }
  }

  lemma OriginsInRange(held: seq<Entry>, dets: seq<Detection>, now: real, hold: real)
    ensures forall o :: o in Origins(held, dets, now, hold) ==> InRange(o, held, dets)
  {
    var matched := Match(held, dets, |held|);
    MatchSound(held, dets, |held|);
    SurvivorsAre(held, matched, |held|, now, hold);
    NewcomersAre(matched, |dets|);
  }

  // ---- one cycle --------------------------------------------------------------------

  /** Every fresh detection feeds exactly one entry of the next cycle. */
  lemma EveryDetectionFeedsOne(held: seq<Entry>, dets: seq<Detection>, now: real, hold: real, i: nat)
    requires i < |dets|
    ensures var os := Origins(held, dets, now, hold);
      exists p :: 0 <= p < |os| && Consumes(os[p]) == i
                  && forall r :: 0 <= r < |os| && Consumes(os[r]) == i ==> r == p
  {
    var os := Origins(held, dets, now, hold);
    var source := ConsumedSomewhere(held, dets, now, hold, i);
    hide Origins;
    var p :| 0 <= p < |os| && os[p] == source;
    forall r | 0 <= r < |os| && Consumes(os[r]) == i ensures r == p {
      ConsumedOnce(held, dets, now, hold, os[r], source);
      OriginsDistinct(held, dets, now, hold, r, p);
    }
  }

  lemma ConsumedSomewhere(held: seq<Entry>, dets: seq<Detection>, now: real, hold: real, i: nat) returns (o: Origin)
    requires i < |dets|
    ensures o in Origins(held, dets, now, hold) && Consumes(o) == i
  {
    var m := Match(held, dets, |held|);
    SurvivorsAre(held, m, |held|, now, hold);
    NewcomersAre(m, |dets|);
    if i in m {
      var k :| 0 <= k < |m| && m[k] == i;
      o := Fed(k, i);
    } else {
      o := New(i);
    }
  }

  lemma ConsumedOnce(held: seq<Entry>, dets: seq<Detection>, now: real, hold: real, o: Origin, o': Origin)
    requires o in Origins(held, dets, now, hold) && o' in Origins(held, dets, now, hold)
    requires Consumes(o) == Consumes(o') >= 0
    ensures o == o'
  {
    var m := Match(held, dets, |held|);
    MatchSound(held, dets, |held|);
    SurvivorsAre(held, m, |held|, now, hold);
    NewcomersAre(m, |dets|);
  }

  lemma OriginsDistinct(held: seq<Entry>, dets: seq<Detection>, now: real, hold: real, r: nat, p: nat)
    requires r < |Origins(held, dets, now, hold)| && p < |Origins(held, dets, now, hold)|
    requires Origins(held, dets, now, hold)[r] == Origins(held, dets, now, hold)[p]
    ensures r == p
  {
    var m := Match(held, dets, |held|);
    SurvivorsAre(held, m, |held|, now, hold);
    NewcomersAre(m, |dets|);
    var survivors, newcomers := Survivors(held, m, |held|, now, hold), Newcomers(m, |dets|);
    assert forall i :: 0 <= i < |survivors| ==> survivors[i] in survivors;
    assert forall i :: 0 <= i < |newcomers| ==> newcomers[i] in newcomers;
    DistinctOrigins(survivors, newcomers, r, p);
  }

  /** Survivors ordered by their entry, then newcomers ordered by their detection, are all
      different. */
  lemma DistinctOrigins(survivors: seq<Origin>, newcomers: seq<Origin>, r: nat, p: nat)
    requires forall i :: 0 <= i < |survivors| ==> Old(survivors[i]) >= 0
    requires forall i, j :: 0 <= i < j < |survivors| ==> Old(survivors[i]) < Old(survivors[j])
    requires forall i :: 0 <= i < |newcomers| ==> Old(newcomers[i]) < 0
    requires forall i, j :: 0 <= i < j < |newcomers| ==> Consumes(newcomers[i]) < Consumes(newcomers[j])
    requires r < |survivors| + |newcomers| && p < |survivors| + |newcomers|
    requires (survivors + newcomers)[r] == (survivors + newcomers)[p]
    ensures r == p
  {
  }

  /** Each held entry goes on in at most one entry, in the same order. It goes on exactly
      when a detection feeds it or it was last seen less than `hold` ago. */
  lemma EveryEntrySurvivesOnceOrAgesOut(held: seq<Entry>, dets: seq<Detection>, now: real, hold: real)
    ensures var m, os := Match(held, dets, |held|), Origins(held, dets, now, hold);
      && |m| == |held|
      && (forall p, q :: 0 <= p < q < |os| && Old(os[p]) >= 0 && Old(os[q]) >= 0 ==> Old(os[p]) < Old(os[q]))
      && (forall k :: 0 <= k < |held| ==>
            ((exists o :: o in os && Old(o) == k) <==> m[k] >= 0 || now - held[k].seen < hold))
      && (forall k :: 0 <= k < |held| && m[k] < 0 && now - held[k].seen < hold ==> Kept(k) in os)
  {
    var m, os := Match(held, dets, |held|), Origins(held, dets, now, hold);
    MatchSound(held, dets, |held|);
    var survivors, newcomers := Survivors(held, m, |held|, now, hold), Newcomers(m, |dets|);
    SurvivorsAre(held, m, |held|, now, hold);
    NewcomersAre(m, |dets|);
    assert os == survivors + newcomers;
    assert forall r :: 0 <= r < |newcomers| ==> newcomers[r] in newcomers;
    NewcomersLast(survivors, newcomers);
    forall k | 0 <= k < |held|
      ensures (exists o :: o in os && Old(o) == k) <==> m[k] >= 0 || now - held[k].seen < hold
      ensures m[k] < 0 && now - held[k].seen < hold ==> Kept(k) in os
    {
      SurvivorOf(survivors, newcomers, m, held, now, hold, k);
    }
  }

  lemma NewcomersLast(survivors: seq<Origin>, newcomers: seq<Origin>)
    requires forall i, j :: 0 <= i < j < |survivors| ==> Old(survivors[i]) < Old(survivors[j])
    requires forall i :: 0 <= i < |newcomers| ==> Old(newcomers[i]) < 0
    ensures var os := survivors + newcomers;
      forall p, q :: 0 <= p < q < |os| && Old(os[p]) >= 0 && Old(os[q]) >= 0 ==> Old(os[p]) < Old(os[q])
  {
  }

  lemma SurvivorOf(survivors: seq<Origin>, newcomers: seq<Origin>, m: seq<int>, held: seq<Entry>, now: real, hold: real,
                   k: nat)
    requires k < |held| == |m|
    requires forall o :: o in survivors <==>
               || (o.Fed? && o.entry < |held| && m[o.entry] == o.detection)
               || (o.Kept? && o.entry < |held| && m[o.entry] < 0 && now - held[o.entry].seen < hold)
    requires forall o :: o in newcomers ==> o.New?
    ensures var os := survivors + newcomers;
      && ((exists o :: o in os && Old(o) == k) <==> m[k] >= 0 || now - held[k].seen < hold)
      && (m[k] < 0 && now - held[k].seen < hold ==> Kept(k) in os)
  {
    var os := survivors + newcomers;
    if m[k] >= 0 {
      assert Fed(k, m[k]) in os && Old(Fed(k, m[k])) == k;
    } else if now - held[k].seen < hold {
      assert Kept(k) in os && Old(Kept(k)) == k;
    }
  }

  /** A detection becomes a new entry only where no entry left without one is near it. */
  lemma NewcomersAreNotMissedMatches(held: seq<Entry>, dets: seq<Detection>, now: real, hold: real, k: nat, i: nat)
    requires k < |held|
    requires New(i) in Origins(held, dets, now, hold)
    requires forall o :: o in Origins(held, dets, now, hold) && o.Fed? ==> o.entry != k
    ensures i < |dets| && !Near(held[k].bbox, dets[i].bbox, 75)
  {
    var m := Match(held, dets, |held|);
    MatchSound(held, dets, |held|);
    NewcomersAre(m, |dets|);
    SurvivorsAre(held, m, |held|, now, hold);
    MatchedIsFed(held, dets, now, hold, k);
  }

  lemma MatchedIsFed(held: seq<Entry>, dets: seq<Detection>, now: real, hold: real, k: nat)
    requires k < |held|
    ensures Match(held, dets, |held|)[k] >= 0 ==>
              exists o :: o in Origins(held, dets, now, hold) && o.Fed? && o.entry == k
  {
    var m := Match(held, dets, |held|);
    MatchSound(held, dets, |held|);
    SurvivorsAre(held, m, |held|, now, hold);
    if m[k] >= 0 {
      assert Fed(k, m[k]) in Origins(held, dets, now, hold);
    }
  }

  // ---- the reads behind an entry ----------------------------------------------------

  ghost predicate ReadsAre(held: seq<Entry>, p: Read -> bool) {
    forall e, r :: e in held && r in e.window ==> p(r)
  }

  /** A cycle brings in no reads but the held ones and those of the fresh detections. */
  lemma AdvanceReads(held: seq<Entry>, dets: seq<Detection>, frame: nat, now: real, hold: real, p: Read -> bool)
    requires ReadsAre(held, p)
    requires forall i :: 0 <= i < |dets| ==> p(ReadOf(dets[i], frame))
    ensures ReadsAre(Advance(held, dets, frame, now, hold), p)
  {
    var os, next := Origins(held, dets, now, hold), Advance(held, dets, frame, now, hold);
    OriginsInRange(held, dets, now, hold);
    forall e, r | e in next && r in e.window ensures p(r) {
      var q :| 0 <= q < |next| && next[q] == e;
      assert os[q] in os;
      match os[q]
      case Fed(k, i) =>
        assert held[k] in held;
        assert r in held[k].window || r == ReadOf(dets[i], frame);
      case Kept(k) => assert held[k] in held;
      case New(i) =>
    }
  }

  /** Every fresh detection is the box, the latest read and the last sighting of some entry. */
  lemma LatestIsKept(held: seq<Entry>, dets: seq<Detection>, frame: nat, now: real, hold: real, i: nat)
    requires i < |dets|
    ensures exists e :: e in Advance(held, dets, frame, now, hold)
                        && e.bbox == dets[i].bbox && e.seen == now
                        && e.window != [] && e.window[|e.window| - 1] == Read(dets[i].part, dets[i].conf, frame)
  {
    var os, next := Origins(held, dets, now, hold), Advance(held, dets, frame, now, hold);
    OriginsInRange(held, dets, now, hold);
    var o := ConsumedSomewhere(held, dets, now, hold, i);
    hide Origins;
    var p :| 0 <= p < |os| && os[p] == o;
    assert next[p] in next && next[p] == Build(o, held, dets, frame, now);
  }

  /** After a cycle nothing is held that was last seen `hold` ago or longer, and what was not
      seen now is held unchanged. */
  lemma HeldIsRecent(held: seq<Entry>, dets: seq<Detection>, frame: nat, now: real, hold: real)
    ensures forall e :: e in Advance(held, dets, frame, now, hold) ==>
              e.seen == now || (e in held && now - e.seen < hold)
  {
    var m, os, next := Match(held, dets, |held|), Origins(held, dets, now, hold), Advance(held, dets, frame, now, hold);
    OriginsInRange(held, dets, now, hold);
    MatchSound(held, dets, |held|);
    SurvivorsAre(held, m, |held|, now, hold);
    NewcomersAre(m, |dets|);
    forall e | e in next ensures e.seen == now || (e in held && now - e.seen < hold) {
      var q :| 0 <= q < |next| && next[q] == e;
      assert os[q] in os;
      assert e == Build(os[q], held, dets, frame, now);
    }
  }

  /** An entry that goes on keeps its window, or gains the one read that feeds it and forgets
      what no longer fits; a new entry starts with one read. */
  lemma GainsAtMostOneRead(held: seq<Entry>, dets: seq<Detection>, frame: nat, now: real, hold: real)
    ensures var os, next := Origins(held, dets, now, hold), Advance(held, dets, frame, now, hold);
      && |next| == |os|
      && forall p :: 0 <= p < |next| ==>
           if Old(os[p]) >= 0 then
             && Old(os[p]) < |held|
             && (next[p].window == held[Old(os[p])].window
                 || exists i :: 0 <= i < |dets|
                      && next[p].window
                         == LastN(held[Old(os[p])].window + [Read(dets[i].part, dets[i].conf, frame)], VOTE_WINDOW))
           else exists i :: 0 <= i < |dets| && next[p].window == [Read(dets[i].part, dets[i].conf, frame)]
  {
    hide Origins, LastN;
    OriginsInRange(held, dets, now, hold);
    var os, next := Origins(held, dets, now, hold), Advance(held, dets, frame, now, hold);
    forall p | 0 <= p < |next| ensures os[p] in os && next[p] == Build(os[p], held, dets, frame, now) {
    }
  }

  lemma TailOfTail<T>(history: seq<T>, x: T, n: nat)
    ensures LastN(LastN(history, n) + [x], n) == LastN(history + [x], n)
  {
  }

  ghost predicate WindowsBounded(held: seq<Entry>) {
    forall e :: e in held ==> 1 <= |e.window| <= 15
  }

  lemma AdvanceBounded(held: seq<Entry>, dets: seq<Detection>, frame: nat, now: real, hold: real)
    requires WindowsBounded(held)
    ensures WindowsBounded(Advance(held, dets, frame, now, hold))
  {
    var os, next := Origins(held, dets, now, hold), Advance(held, dets, frame, now, hold);
    OriginsInRange(held, dets, now, hold);
    forall e | e in next ensures 1 <= |e.window| <= 15 {
      var q :| 0 <= q < |next| && next[q] == e;
      assert os[q] in os;
    }
  }

  // ---- what one frame yields, and what is published ---------------------------------

  /** One part number found on the frame: letters, five digits, perhaps three more. */
  datatype Hit = Hit(prefix: string, middle: string, suffix: Option<string>, bbox: Box, conf: real)

  ghost predicate ValidHit(h: Hit) {
    WellFormed(Parts(h.prefix, h.middle, if h.suffix.Some? then h.suffix.value else "000"))
  }

  function RawRead(h: Hit): Detection {
    var suffix := if h.suffix.Some? then h.suffix.value else "000";
    Detection(h.bbox, Some(h.prefix + "-" + h.middle + "-" + suffix), RoundCents(h.conf))
  }

  function Unnamed(bbox: Box): Detection {
    Detection(bbox, None, 0.0)
  }

  ghost function DetectOnce(hits: seq<Hit>, unnamed: seq<Box>, minConf: real): seq<Detection> {
    Cleaned(seq(|hits|, i requires 0 <= i < |hits| => RawRead(hits[i])), minConf, MERGE_PX)
    + seq(|unnamed|, i requires 0 <= i < |unnamed| => Unnamed(unnamed[i]))
  }

  ghost predicate Readable(part: Option<string>) {
    Named(part) ==> Canonical(part.value)
  }

  ghost predicate AllReadable(dets: seq<Detection>) {
    forall d :: d in dets ==> Readable(d.part)
  }

  /** Cleaning turns part ids into part ids with a known prefix. */
  lemma CleanedReadable(dets: seq<Detection>, minConf: real, px: int)
    requires forall d :: d in dets && Named(d.part) ==> ParsePart(d.part.value).Some?
    ensures AllReadable(Cleaned(dets, minConf, px))
  {
    var r := Cleaned(dets, minConf, px);
    forall k | k in r ensures Readable(k.part) {
      var d := CleanedFrom(dets, minConf, px, k);
      if Named(d.part) {
        NormalizeRepairsPrefix(d.part.value);
      }
    }
  }

  lemma DetectOnceReadable(hits: seq<Hit>, unnamed: seq<Box>, minConf: real)
    requires forall h :: h in hits ==> ValidHit(h)
    ensures AllReadable(DetectOnce(hits, unnamed, minConf))
  {
    var raw := seq(|hits|, i requires 0 <= i < |hits| => RawRead(hits[i]));
    forall d | d in raw && Named(d.part) ensures ParsePart(d.part.value).Some? {
      var i :| 0 <= i < |hits| && raw[i] == d;
      assert hits[i] in hits;
      var p := Parts(hits[i].prefix, hits[i].middle, if hits[i].suffix.Some? then hits[i].suffix.value else "000");
      ParsePrint(p);
      assert d.part.value == Print(p);
    }
    CleanedReadable(raw, minConf, MERGE_PX);
  }

  /** The detection is a hit: its box, its confidence to the hundredth, and its fields joined,
      with the suffix 000 when none was read and the prefix repaired. */
  ghost predicate IsHit(h: Hit, d: Detection) {
    var suffix := if h.suffix.Some? then h.suffix.value else "000";
    && d.bbox == h.bbox && d.conf == RoundCents(h.conf)
    && d.part == Some(NormalizePrefix(h.prefix + "-" + h.middle + "-" + suffix))
  }

  /** One frame yields every hit over the threshold or a stronger one near it, nothing named
      but hits over the threshold, and every packet seen but not read. */
  lemma DetectOnceFindsAll(hits: seq<Hit>, unnamed: seq<Box>, minConf: real, h: Hit)
    ensures var dets := DetectOnce(hits, unnamed, minConf);
      && (h in hits && RoundCents(h.conf) >= minConf ==>
            exists d :: d in dets && d.conf >= RoundCents(h.conf) && Near(h.bbox, d.bbox, 75))
      && (forall d :: d in dets && d.part.Some? ==> d.conf >= minConf && exists g :: g in hits && IsHit(g, d))
      && forall b :: b in unnamed ==> Detection(b, None, 0.0) in dets
  {
    hide Cleaned, Near, NormalizePrefix, RoundCents;
    var raw := seq(|hits|, i requires 0 <= i < |hits| => RawRead(hits[i]));
    var named := Cleaned(raw, minConf, MERGE_PX);
    var rest := seq(|unnamed|, i requires 0 <= i < |unnamed| => Unnamed(unnamed[i]));
    var dets := DetectOnce(hits, unnamed, minConf);
    assert dets == named + rest;
    if h in hits && RoundCents(h.conf) >= minConf {
      var i :| 0 <= i < |hits| && hits[i] == h;
      assert raw[i] in raw;
      ReadIsAnsweredFor(raw, minConf, raw[i]);
      var d :| d in named && d.conf >= raw[i].conf && Near(raw[i].bbox, d.bbox, 75);
      assert d in dets;
    }
    forall d | d in dets && d.part.Some? ensures d.conf >= minConf && exists g :: g in hits && IsHit(g, d) {
      assert d in named;
      var v := CleanedFrom(raw, minConf, MERGE_PX, d);
      var i :| 0 <= i < |raw| && raw[i] == v;
      assert hits[i] in hits && IsHit(hits[i], d);
    }
    forall b | b in unnamed ensures Detection(b, None, 0.0) in dets {
      var i :| 0 <= i < |unnamed| && unnamed[i] == b;
      assert rest[i] == Detection(b, None, 0.0);
      assert dets[|named| + i] == rest[i];
    }
  }

  lemma ReadIsAnsweredFor(raw: seq<Detection>, minConf: real, v: Detection)
    requires v in raw && v.conf >= minConf
    ensures exists d :: d in Cleaned(raw, minConf, MERGE_PX) && d.conf >= v.conf && Near(v.bbox, d.bbox, 75)
  {
    hide Cleaned, Near, Repaired;
    var named := Cleaned(raw, minConf, MERGE_PX);
    CleanedShape(raw, minConf, MERGE_PX);
    assert Covers(named, v, MERGE_PX);
    var k :| 0 <= k < |named| && named[k].conf >= v.conf
             && (named[k] == Repaired(v) || Near(v.bbox, named[k].bbox, MERGE_PX));
    RepairedKeeps(v);
    NearItself(v.bbox);
    assert named[k] in named;
  }

  ghost function VotedAll(held: seq<Entry>, known: seq<string>): seq<Detection> {
    seq(|held|, i requires 0 <= i < |held| => Voted(held[i], known))
  }

  ghost function Published(held: seq<Entry>, known: seq<string>, minConf: real): seq<Detection> {
    Cleaned(VotedAll(held, known), minConf, MERGE_PX)
  }

  /** What is published of a single entry with a single named read. */
  lemma OneReadPublished(e: Entry, r: Read, known: seq<string>, minConf: real)
    requires e.window == [r] && Named(r.part) && minConf <= 1.0
    ensures Published([e], known, minConf)
            == [Repaired(Detection(e.bbox, Some(SnapToCatalog(r.part.value, known)), 1.0))]
  {
    hide SnapToCatalog, Repaired, Cleaned, RoundCents;
    var d := Detection(e.bbox, Some(SnapToCatalog(r.part.value, known)), 1.0);
    OneReadVoted(e, r, known);
    assert VotedAll([e], known) == [d];
    CleanedOne(d, minConf, MERGE_PX);
  }

  lemma OneReadVoted(e: Entry, r: Read, known: seq<string>)
    requires e.window == [r] && Named(r.part)
    ensures Voted(e, known) == Detection(e.bbox, Some(SnapToCatalog(r.part.value, known)), 1.0)
  {
    hide SnapToCatalog;
    var part := r.part.value;
    assert [r][..0] == [];
    assert Candidates([r]) == [part] && Winner([r]) == part;
    assert Weight([r], part) == ReadWeight(r) == Total([r]);
    WholeNumbersStay();
    assert ReadWeight(r) / ReadWeight(r) == 1.0;
  }

  /** A catalogue that prefix repair does not lead out of, as one of canonical ids is. */
  ghost predicate Closed(known: seq<string>) {
    forall k :: k in known ==> NormalizePrefix(k) in known
  }

  lemma CanonicalCatalogIsClosed(known: seq<string>)
    requires forall k :: k in known ==> Canonical(k)
    ensures Closed(known)
  {
    hide Canonical, NormalizePrefix;
    forall k | k in known ensures NormalizePrefix(k) in known {
      NormalizeKnown(k);
    }
  }

  /** Any single read, snapped and repaired, is in the catalogue. */
  ghost predicate KeepsReads(known: seq<string>) {
    forall part :: Canonical(part) ==> NormalizePrefix(SnapToCatalog(part, known)) in known
  }

  ghost predicate AllNamesIn(dets: seq<Detection>, known: seq<string>) {
    forall d :: d in dets && d.part.Some? ==> d.part.value in known
  }

  ghost predicate ReadableEntries(held: seq<Entry>) {
    forall e, r :: e in held && r in e.window ==> Readable(r.part)
  }

  /** With a catalogue closed under prefix repair, every name that is published is in it. */
  lemma PublishedInCatalog(held: seq<Entry>, known: seq<string>, minConf: real)
    requires known != [] && Closed(known) && ReadableEntries(held)
    ensures AllNamesIn(Published(held, known, minConf), known)
  {
    hide SnapToCatalog, Published;
    forall part | Canonical(part) ensures NormalizePrefix(SnapToCatalog(part, known)) in known {
      SnapInCatalog(part, known);
    }
    KeptReadsArePublished(held, known, minConf);
  }

  lemma KeptReadsArePublished(held: seq<Entry>, known: seq<string>, minConf: real)
    requires KeepsReads(known) && ReadableEntries(held)
    ensures AllNamesIn(Published(held, known, minConf), known)
  {
    hide Voted, VotedAll, Repaired, Cleaned, ReadableEntries;
    forall d | d in Published(held, known, minConf) && d.part.Some? ensures d.part.value in known {
      var v := CleanedFrom(VotedAll(held, known), minConf, MERGE_PX, d);
      var k := VotedFrom(held, known, v);
      VotedKept(held, k, known);
    }
  }

  lemma VotedFrom(held: seq<Entry>, known: seq<string>, v: Detection) returns (k: nat)
    requires v in VotedAll(held, known)
    ensures k < |held| && v == Voted(held[k], known)
  {
    hide Voted;
    k :| 0 <= k < |held| && VotedAll(held, known)[k] == v;
  }

  lemma VotedKept(held: seq<Entry>, k: nat, known: seq<string>)
    requires KeepsReads(known) && ReadableEntries(held) && k < |held|
    ensures var d := Repaired(Voted(held[k], known)); d.part.Some? ==> d.part.value in known
  {
    hide SnapToCatalog, NormalizePrefix, Canonical;
    var e := held[k];
    if Candidates(e.window) != [] {
      HeaviestWeighsMost(e.window, Candidates(e.window));
      CandidatesAreRead(e.window);
      var r :| r in e.window && r.part == Some(Winner(e.window)) && Winner(e.window) != "";
      assert e in held && Readable(r.part);
    }
  }

  /** Whatever is held, only catalogue names are published, exactly when no single read of a
      part id leads out of the catalogue. */
  lemma CatalogKeptExactlyWhen(known: seq<string>)
    ensures (forall held, minConf :: ReadableEntries(held) ==> AllNamesIn(Published(held, known, minConf), known))
            <==> KeepsReads(known)
  {
    hide SnapToCatalog, NormalizePrefix, Published, Canonical;
    if forall held, minConf :: ReadableEntries(held) ==> AllNamesIn(Published(held, known, minConf), known) {
      forall part | Canonical(part) ensures NormalizePrefix(SnapToCatalog(part, known)) in known {
        var e := EntryReading(part);
        ReadIsPublished(part, known);
        assert AllNamesIn(Published([e], known, 1.0), known);
      }
    }
    if KeepsReads(known) {
      forall held, minConf | ReadableEntries(held) ensures AllNamesIn(Published(held, known, minConf), known) {
        KeptReadsArePublished(held, known, minConf);
      }
    }
  }

  /** An entry that was read once. */
  ghost function EntryReading(part: string): Entry {
    NewEntry(Detection(Box(0, 0, 1, 1), Some(part), 1.0), 1, 0.0)
  }

  lemma ReadIsPublished(part: string, known: seq<string>)
    requires Canonical(part)
    ensures ReadableEntries([EntryReading(part)])
    ensures var name := NormalizePrefix(SnapToCatalog(part, known));
      name in known
      || exists d :: d in Published([EntryReading(part)], known, 1.0) && d.part == Some(name)
  {
    hide Published;
    var e, snapped := EntryReading(part), SnapToCatalog(part, known);
    OneReadPublished(e, e.window[0], known, 1.0);
    var d := Repaired(Detection(e.bbox, Some(snapped), 1.0));
    assert Published([e], known, 1.0)[0] == d;
    if snapped == "" {
      SnapInCatalog(part, known);
    }
  }

  lemma MisreadIsRepaired()
    ensures var repaired := NormalizePrefix("DNN-10126-151");
      repaired != "DNN-10126-151" && Canonical(repaired) && ParsePart(repaired).Some?
  {
    hide ParsePart, NormalizePrefix;
    var p := Parts("DNN", "10126", "151");
    assert Print(p) == "DNN-10126-151";
    ParsePrint(p);
    NormalizeRepairsPrefix("DNN-10126-151");
  }

  /** A catalogue entry whose own prefix is a misread: its packet is published under a name
      the catalogue does not have. */
  lemma MisreadCatalog()
    ensures var known, held := ["DNN-10126-151"], [EntryReading(NormalizePrefix("DNN-10126-151"))];
      && !Closed(known) && ReadableEntries(held) && !AllNamesIn(Published(held, known, 1.0), known)
  {
    hide Published, ReadableEntries, ParsePart, EntryReading, NormalizePrefix, SnapToCatalog;
    var known, part := ["DNN-10126-151"], NormalizePrefix("DNN-10126-151");
    MisreadIsRepaired();
    assert part !in known && known[0] in known;
    SnapInCatalog(part, known);
    assert SnapToCatalog(part, known) == known[0];
    ReadIsPublished(part, known);
  }

  // ---- the loop's own state ---------------------------------------------------------

  ghost function FreshDetections(first: seq<Detection>, swept: seq<Detection>, expected: nat,
                                 recalibrate: bool, minConf: real): seq<Detection> {
    if recalibrate && |first| < expected then Cleaned(first + swept, minConf, MERGE_PX) else first
  }

  /** The extra exposures count only when fewer packets were seen than before, and then every
      read over the threshold, of any exposure, is answered for by a fresh detection. */
  lemma SweepAnswersForEveryRead(first: seq<Detection>, swept: seq<Detection>, expected: nat,
                                 recalibrate: bool, minConf: real, d: Detection)
    requires d in first || d in swept
    ensures var fresh' := FreshDetections(first, swept, expected, recalibrate, minConf);
      if recalibrate && |first| < expected then d.conf >= minConf ==> Covers(fresh', d, 75)
      else fresh' == first
  {
    hide Cleaned, Covers;
    CleanedShape(first + swept, minConf, MERGE_PX);
    assert d in first + swept;
  }

  /** Some published box answers for the detection: near it and of no lower confidence. */
  ghost predicate AnsweredFor(v: Detection, published: seq<Detection>) {
    exists d :: d in published && d.conf >= v.conf && Near(v.bbox, d.bbox, 75)
  }

  /** The published box is what was voted at some held entry, its prefix repaired. */
  ghost predicate VotedSomewhere(d: Detection, held: seq<Entry>, known: seq<string>, minConf: real) {
    exists e :: e in held && ShownAs(Voted(e, known), d) && d.conf >= minConf && d.bbox == e.bbox
  }

  ghost predicate ShownAs(v: Detection, d: Detection) {
    && d.bbox == v.bbox && d.conf == v.conf
    && d.part == if Named(v.part) then Some(NormalizePrefix(v.part.value)) else None
  }

  /** Every held entry that is voted with enough confidence is answered for by a box on
      screen, every box on screen is the vote of a held entry, and no two are of one packet. */
  lemma EveryPacketIsPublished(held: seq<Entry>, known: seq<string>, minConf: real)
    ensures var published := Published(held, known, minConf);
      && (forall e :: e in held && Voted(e, known).conf >= minConf ==> AnsweredFor(Voted(e, known), published))
      && (forall d :: d in published ==> VotedSomewhere(d, held, known, minConf))
      && forall i, j :: 0 <= i < j < |published| ==> !Near(published[j].bbox, published[i].bbox, 75)
  {
    hide Cleaned, Near, NormalizePrefix, Voted;
    var voted, published := VotedAll(held, known), Published(held, known, minConf);
    CleanedShape(voted, minConf, 75);
    forall e | e in held && Voted(e, known).conf >= minConf ensures AnsweredFor(Voted(e, known), published) {
      var k :| 0 <= k < |held| && held[k] == e;
      assert voted[k] == Voted(e, known) && voted[k] in voted;
      ReadIsAnsweredFor(voted, minConf, voted[k]);
    }
    forall d | d in published ensures VotedSomewhere(d, held, known, minConf) {
      var v := CleanedFrom(voted, minConf, MERGE_PX, d);
      var k := VotedFrom(held, known, v);
      VotedBox(held[k], known);
      assert held[k] in held;
    }
  }

  lemma NearItself(b: Box)
    ensures Near(b, b, 75)
  {
  }

  lemma VotedBox(e: Entry, known: seq<string>)
    ensures Voted(e, known).bbox == e.bbox
  {
  }

  // ---- whole sessions ---------------------------------------------------------------

  /** What the loop keeps from one cycle to the next. */
  datatype Tracked = Tracked(held: seq<Entry>, expected: nat, published: seq<Detection>)

  /** A cycle that forgets everything, or one over a frame. */
  datatype Cycle =
    | StartOver
    | Scan(first: seq<Detection>, swept: seq<Detection>, known: seq<string>, frame: nat, now: real)

  ghost function AfterCycle(hold: real, minConf: real, recalibrate: bool, t: Tracked, c: Cycle): Tracked {
    match c
    case StartOver => Tracked([], 0, t.published)
    case Scan(first, swept, known, frame, now) =>
      var dets := FreshDetections(first, swept, t.expected, recalibrate, minConf);
      var held := Advance(t.held, dets, frame, now, hold);
      Tracked(held, if |dets| > t.expected then |dets| else t.expected, Published(held, known, minConf))
  }

  ghost function Session(hold: real, minConf: real, recalibrate: bool, cycles: seq<Cycle>): Tracked {
    if cycles == [] then Tracked([], 0, [])
    else
      AfterCycle(hold, minConf, recalibrate, Session(hold, minConf, recalibrate, cycles[..|cycles| - 1]),
                 cycles[|cycles| - 1])
  }

  /** Every cycle from number `j` on is over a frame. */
  ghost predicate SinceStartOver(cycles: seq<Cycle>, j: nat) {
    forall i :: j <= i < |cycles| ==> cycles[i].Scan?
  }

  /** How many detections cycle `j` of the session worked with. */
  ghost function ScanYield(hold: real, minConf: real, recalibrate: bool, cycles: seq<Cycle>, j: nat): nat
    requires j < |cycles| && cycles[j].Scan?
  {
    |FreshDetections(cycles[j].first, cycles[j].swept, Session(hold, minConf, recalibrate, cycles[..j]).expected,
                     recalibrate, minConf)|
  }

  /** No scan since the last start over had more than what is expected, and one of them had
      exactly that many, unless nothing is expected. */
  lemma {:induction false} ExpectedIsHighWater(hold: real, minConf: real, recalibrate: bool, cycles: seq<Cycle>)
    ensures var expected := Session(hold, minConf, recalibrate, cycles).expected;
      && (forall j :: 0 <= j < |cycles| && SinceStartOver(cycles, j) ==>
            ScanYield(hold, minConf, recalibrate, cycles, j) <= expected)
      && (expected == 0
          || exists j :: 0 <= j < |cycles| && SinceStartOver(cycles, j)
                         && ScanYield(hold, minConf, recalibrate, cycles, j) == expected)
  {
    hide FreshDetections, Advance, Published;
    if cycles != [] {
      var before, last := cycles[..|cycles| - 1], |cycles| - 1;
      ExpectedIsHighWater(hold, minConf, recalibrate, before);
      forall j | 0 <= j < last && SinceStartOver(cycles, j)
        ensures SinceStartOver(before, j)
                && ScanYield(hold, minConf, recalibrate, cycles, j) == ScanYield(hold, minConf, recalibrate, before, j)
      {
        assert before[..j] == cycles[..j];
      }
      if cycles[last].Scan? {
        assert SinceStartOver(cycles, last);
        forall j | 0 <= j < last && SinceStartOver(before, j)
          ensures SinceStartOver(cycles, j)
                  && ScanYield(hold, minConf, recalibrate, cycles, j)
                     == ScanYield(hold, minConf, recalibrate, before, j)
        {
          assert before[..j] == cycles[..j];
        }
      }
    }
  }

  /** After any session that ends with a frame the screen shows every packet the tracker
      holds and can tell, and nothing else. */
  lemma SessionPublishesEveryPacket(hold: real, minConf: real, recalibrate: bool, cycles: seq<Cycle>)
    requires cycles != [] && cycles[|cycles| - 1].Scan?
    ensures var t, known := Session(hold, minConf, recalibrate, cycles), cycles[|cycles| - 1].known;
      && (forall e :: e in t.held && Voted(e, known).conf >= minConf ==> AnsweredFor(Voted(e, known), t.published))
      && forall d :: d in t.published ==> VotedSomewhere(d, t.held, known, minConf)
  {
    hide Advance, Published, FreshDetections, Voted;
    EveryPacketIsPublished(Session(hold, minConf, recalibrate, cycles).held, cycles[|cycles| - 1].known, minConf);
  }

  /** The read is of a frame scanned since the tracker last started over. */
  ghost predicate OfScanSince(cycles: seq<Cycle>, r: Read) {
    exists j :: 0 <= j < |cycles| && SinceStartOver(cycles, j) && cycles[j].Scan? && cycles[j].frame == r.frame
  }

  /** Starting over forgets every read, for good. */
  lemma {:induction false} StartingOverForgets(hold: real, minConf: real, recalibrate: bool, cycles: seq<Cycle>)
    ensures forall e, r :: e in Session(hold, minConf, recalibrate, cycles).held && r in e.window ==>
              OfScanSince(cycles, r)
  {
    hide Advance, Published, FreshDetections;
    if cycles != [] && cycles[|cycles| - 1].Scan? {
      var before, c := cycles[..|cycles| - 1], cycles[|cycles| - 1];
      StartingOverForgets(hold, minConf, recalibrate, before);
      var t := Session(hold, minConf, recalibrate, before);
      var dets := FreshDetections(c.first, c.swept, t.expected, recalibrate, minConf);
      var p := (r: Read) => OfScanSince(cycles, r);
      forall e, r | e in t.held && r in e.window ensures p(r) {
        assert OfScanSince(before, r);
        var j :| 0 <= j < |before| && SinceStartOver(before, j) && before[j].Scan? && before[j].frame == r.frame;
        assert SinceStartOver(cycles, j) && cycles[j] == before[j];
      }
      assert SinceStartOver(cycles, |cycles| - 1);
      forall i | 0 <= i < |dets| ensures p(ReadOf(dets[i], c.frame)) {
        assert cycles[|cycles| - 1].frame == ReadOf(dets[i], c.frame).frame;
      }
      AdvanceReads(t.held, dets, c.frame, c.now, hold, p);
      forall e, r | e in Session(hold, minConf, recalibrate, cycles).held && r in e.window
        ensures OfScanSince(cycles, r)
      {
        assert p(r);
      }
    }
  }

  // ---- the reads each entry ever gained ---------------------------------------------

  /** An entry's reads so far, from those of the entry it continues. */
  ghost function HistoryOf(o: Origin, histories: seq<seq<Read>>, dets: seq<Detection>, frame: nat): seq<Read>
    requires o.Fed? || o.Kept? ==> o.entry < |histories|
    requires o.Fed? || o.New? ==> o.detection < |dets|
  {
    match o
    case Fed(k, i) => histories[k] + [ReadOf(dets[i], frame)]
    case Kept(k) => histories[k]
    case New(i) => [ReadOf(dets[i], frame)]
  }

  ghost function Histories(held: seq<Entry>, histories: seq<seq<Read>>, dets: seq<Detection>, frame: nat,
                           now: real, hold: real): (r: seq<seq<Read>>)
    requires |histories| == |held|
    ensures |r| == |Origins(held, dets, now, hold)|
  {
    OriginsInRange(held, dets, now, hold);
    var os := Origins(held, dets, now, hold);
    seq(|os|, p requires 0 <= p < |os| => assert os[p] in os; HistoryOf(os[p], histories, dets, frame))
  }

  /** For every entry held after a session, all the reads it ever gained, oldest first. */
  ghost function SessionHistories(hold: real, minConf: real, recalibrate: bool, cycles: seq<Cycle>): (r: seq<seq<Read>>)
    ensures |r| == |Session(hold, minConf, recalibrate, cycles).held|
  {
    if cycles == [] then []
    else
      var before, c := cycles[..|cycles| - 1], cycles[|cycles| - 1];
      match c
      case StartOver => []
      case Scan(first, swept, known, frame, now) =>
        var t := Session(hold, minConf, recalibrate, before);
        var dets := FreshDetections(first, swept, t.expected, recalibrate, minConf);
        GainsAtMostOneRead(t.held, dets, frame, now, hold);
        Histories(t.held, SessionHistories(hold, minConf, recalibrate, before), dets, frame, now, hold)
  }

  ghost predicate TailsOf(held: seq<Entry>, histories: seq<seq<Read>>) {
    |held| == |histories| && forall p :: 0 <= p < |held| ==> held[p].window == LastN(histories[p], VOTE_WINDOW)
  }

  lemma AdvanceKeepsTails(held: seq<Entry>, histories: seq<seq<Read>>, dets: seq<Detection>, frame: nat, now: real,
                          hold: real)
    requires TailsOf(held, histories)
    ensures TailsOf(Advance(held, dets, frame, now, hold), Histories(held, histories, dets, frame, now, hold))
  {
    hide Origins, LastN;
    OriginsInRange(held, dets, now, hold);
    var os, next := Origins(held, dets, now, hold), Advance(held, dets, frame, now, hold);
    var after := Histories(held, histories, dets, frame, now, hold);
    forall p | 0 <= p < |next| ensures next[p].window == LastN(after[p], VOTE_WINDOW) {
      assert os[p] in os && next[p] == Build(os[p], held, dets, frame, now);
      match os[p]
      case Fed(k, i) => TailOfTail(histories[k], ReadOf(dets[i], frame), VOTE_WINDOW);
      case Kept(k) =>
      case New(i) => ShortTail(ReadOf(dets[i], frame));
    }
  }

  lemma ShortTail(r: Read)
    ensures LastN([r], VOTE_WINDOW) == [r]
  {
  }

  /** After any session each window is exactly the last fifteen reads its entry gained, or all
      of them while there are fewer. */
  lemma WindowIsTailOfHistory(hold: real, minConf: real, recalibrate: bool, cycles: seq<Cycle>, p: nat)
    requires p < |Session(hold, minConf, recalibrate, cycles).held|
    ensures var window := Session(hold, minConf, recalibrate, cycles).held[p].window;
            var history := SessionHistories(hold, minConf, recalibrate, cycles)[p];
      && |window| == (if |history| < 15 then |history| else 15)
      && history == history[..|history| - |window|] + window
  {
    hide Session, SessionHistories, LastN;
    SessionKeepsTails(hold, minConf, recalibrate, cycles);
    TailIs(SessionHistories(hold, minConf, recalibrate, cycles)[p]);
  }

  lemma TailIs(history: seq<Read>)
    ensures var window := LastN(history, VOTE_WINDOW);
      && |window| == (if |history| < 15 then |history| else 15)
      && history == history[..|history| - |window|] + window
  {
  }

  lemma {:induction false} SessionKeepsTails(hold: real, minConf: real, recalibrate: bool, cycles: seq<Cycle>)
    ensures TailsOf(Session(hold, minConf, recalibrate, cycles).held,
                    SessionHistories(hold, minConf, recalibrate, cycles))
  {
    hide FreshDetections, Advance, Published, Histories, TailsOf;
    if cycles == [] {
      NoTails();
    } else {
      var before, c := cycles[..|cycles| - 1], cycles[|cycles| - 1];
      SessionKeepsTails(hold, minConf, recalibrate, before);
      if c.Scan? {
        var t := Session(hold, minConf, recalibrate, before);
        var dets := FreshDetections(c.first, c.swept, t.expected, recalibrate, minConf);
        AdvanceKeepsTails(t.held, SessionHistories(hold, minConf, recalibrate, before), dets, c.frame, c.now, hold);
      } else {
        NoTails();
      }
    }
  }

  lemma NoTails()
    ensures TailsOf([], [])
  {
  }

  /** What OCR gives a cycle is part ids with known prefixes, which `DetectOnceReadable` says
      of every frame. */
  ghost predicate ReadableCycle(c: Cycle) {
    c.Scan? ==> AllReadable(c.first) && AllReadable(c.swept)
  }

  ghost predicate HeldReadable(held: seq<Entry>) {
    forall e, r :: e in held && r in e.window ==> Readable(r.part)
  }

  lemma FreshReadable(first: seq<Detection>, swept: seq<Detection>, expected: nat, recalibrate: bool, minConf: real)
    requires AllReadable(first) && AllReadable(swept)
    ensures AllReadable(FreshDetections(first, swept, expected, recalibrate, minConf))
  {
    hide Cleaned;
    CleanedReadable(first + swept, minConf, MERGE_PX);
  }

  lemma ScanReadable(held: seq<Entry>, dets: seq<Detection>, frame: nat, now: real, hold: real)
    requires HeldReadable(held) && AllReadable(dets)
    ensures HeldReadable(Advance(held, dets, frame, now, hold))
  {
    hide Advance, Readable;
    var p := (r: Read) => Readable(r.part);
    assert ReadsAre(held, p);
    forall i | 0 <= i < |dets| ensures p(ReadOf(dets[i], frame)) {
      assert dets[i] in dets;
    }
    AdvanceReads(held, dets, frame, now, hold, p);
    forall e, r | e in Advance(held, dets, frame, now, hold) && r in e.window ensures Readable(r.part) {
      assert p(r);
    }
  }

  /** Over any session every window holds between one and fifteen reads, all of them part ids
      with a known prefix or nothing. */
  lemma {:induction false} SessionReadable(hold: real, minConf: real, recalibrate: bool, cycles: seq<Cycle>)
    requires forall c :: c in cycles ==> ReadableCycle(c)
    ensures var t := Session(hold, minConf, recalibrate, cycles);
      WindowsBounded(t.held) && HeldReadable(t.held)
  {
    hide Advance, Published, FreshDetections, Readable, AllReadable;
    if cycles != [] {
      var before, c := cycles[..|cycles| - 1], cycles[|cycles| - 1];
      SessionReadable(hold, minConf, recalibrate, before);
      if c.Scan? {
        assert ReadableCycle(c);
        var t := Session(hold, minConf, recalibrate, before);
        var dets := FreshDetections(c.first, c.swept, t.expected, recalibrate, minConf);
        FreshReadable(c.first, c.swept, t.expected, recalibrate, minConf);
        AdvanceBounded(t.held, dets, c.frame, c.now, hold);
        ScanReadable(t.held, dets, c.frame, c.now, hold);
      }
    }
  }

  /** After any session, what the last frame published is named from the catalogue that cycle
      used, as long as that catalogue is not empty and closed under prefix repair. */
  lemma SessionPublishesCatalog(hold: real, minConf: real, recalibrate: bool, cycles: seq<Cycle>)
    requires cycles != [] && forall c :: c in cycles ==> ReadableCycle(c)
    requires cycles[|cycles| - 1].Scan?
    requires cycles[|cycles| - 1].known != [] && Closed(cycles[|cycles| - 1].known)
    ensures AllNamesIn(Session(hold, minConf, recalibrate, cycles).published, cycles[|cycles| - 1].known)
  {
    hide Advance, Published, FreshDetections, Readable, Canonical;
    SessionReadable(hold, minConf, recalibrate, cycles);
    PublishedInCatalog(Session(hold, minConf, recalibrate, cycles).held, cycles[|cycles| - 1].known, minConf);
  }

  // ---- the object -------------------------------------------------------------------

  class PacketDetector {
    const holdSeconds: real
    const minConf: real
    const recalibrate: bool
    var held: seq<Entry>
    var expected: nat
    var published: seq<Detection>

    constructor (holdSeconds: real, minConf: real)
      ensures this.holdSeconds == holdSeconds && this.minConf == minConf
      ensures held == [] && expected == 0 && published == []
    {
      this.holdSeconds, this.minConf, this.recalibrate := holdSeconds, minConf, true;
      held, expected, published := [], 0, [];
    }

    ghost function View(): Tracked
      reads this
    {
      Tracked(held, expected, published)
    }

    /** Forget everything: the part of a cycle that serves a recalculation request. */
    method Reset()
      modifies this
      ensures View() == AfterCycle(holdSeconds, minConf, recalibrate, old(View()), StartOver)
    {
      held, expected := [], 0;
    }

    /** One cycle over a frame. `first` is what OCR gave at the current exposure, `swept` what
        the two extra exposures give should they be needed. */
    method ProcessFrame(first: seq<Detection>, swept: seq<Detection>, known: seq<string>, frame: nat, now: real)
      modifies this
      ensures View() == AfterCycle(holdSeconds, minConf, recalibrate, old(View()),
                                   Scan(first, swept, known, frame, now))
    {
      var dets := first;
      if recalibrate && |dets| < expected {
        dets := CleanDets(first + swept, minConf, MERGE_PX);
      }
      expected := if |dets| > expected then |dets| else expected;
      held := Track(held, dets, frame, now, holdSeconds);
      var voted := VoteAll(held, known);
      published := CleanDets(voted, minConf, MERGE_PX);
    }
  }

  method VoteAll(held: seq<Entry>, known: seq<string>) returns (voted: seq<Detection>)
    ensures voted == VotedAll(held, known)
  {
    voted := [];
    for i := 0 to |held|
      invariant voted == VotedAll(held[..i], known)
    {
      var d := Vote(held[i], known);
      voted := voted + [d];
    }
    assert held[..|held|] == held;
  }

  method FindFree(bbox: Box, dets: seq<Detection>, used: seq<bool>, ghost taken: seq<int>) returns (i: int)
    requires |used| == |dets| && forall k :: 0 <= k < |used| ==> (used[k] <==> k in taken)
    ensures i == FirstFree(bbox, dets, taken, 0)
    ensures -1 <= i < |dets|
  {
    for k := 0 to |dets|
      invariant FirstFree(bbox, dets, taken, 0) == FirstFree(bbox, dets, taken, k)
    {
      if !used[k] && Near(bbox, dets[k].bbox, NEAR_PX) {
        return k;
      }
    }
    i := -1;
  }

  method Track(held: seq<Entry>, dets: seq<Detection>, frame: nat, now: real, hold: real) returns (next: seq<Entry>)
    ensures next == Advance(held, dets, frame, now, hold)
  {
    OriginsInRange(held, dets, now, hold);
    MatchSound(held, dets, |held|);
    var used;
    next, used := TrackHeld(held, dets, frame, now, hold);
    next := TrackNew(held, dets, frame, now, next, used,
                     Survivors(held, Match(held, dets, |held|), |held|, now, hold), Match(held, dets, |held|));
  }

  method TrackHeld(held: seq<Entry>, dets: seq<Detection>, frame: nat, now: real, hold: real)
      returns (next: seq<Entry>, used: seq<bool>)
    ensures Builds(next, Survivors(held, Match(held, dets, |held|), |held|, now, hold), held, dets, frame, now)
    ensures |used| == |dets| && forall i :: 0 <= i < |dets| ==> (used[i] <==> i in Match(held, dets, |held|))
  {
    hide Near, FirstFree;
    used := seq(|dets|, _ => false);
    ghost var m := Match(held, dets, |held|);
    ghost var os: seq<Origin> := [];
    next := [];
    for k := 0 to |held|
      invariant |used| == |dets|
      invariant forall i :: 0 <= i < |dets| ==> (used[i] <==> i in Match(held, dets, k))
      invariant os == Survivors(held, m, k, now, hold)
      invariant Builds(next, os, held, dets, frame, now)
    {
      MatchStep(held, dets, k);
      var i := FindFree(held[k].bbox, dets, used, Match(held, dets, k));
      hide Match;
      if i >= 0 {
        used := used[i := true];
        next := next + [FeedEntry(held[k], dets[i], frame, now)];
        os := os + [Fed(k, i)];
      } else if now - held[k].seen < hold {
        next := next + [held[k]];
        os := os + [Kept(k)];
      }
    }
  }

  method TrackNew(held: seq<Entry>, dets: seq<Detection>, frame: nat, now: real, fed: seq<Entry>, used: seq<bool>,
                  ghost survivors: seq<Origin>, ghost m: seq<int>) returns (next: seq<Entry>)
    requires Builds(fed, survivors, held, dets, frame, now)
    requires |used| == |dets| && forall i :: 0 <= i < |dets| ==> (used[i] <==> i in m)
    ensures Builds(next, survivors + Newcomers(m, |dets|), held, dets, frame, now)
  {
    ghost var os := survivors;
    next := fed;
    for i := 0 to |dets|
      invariant os == survivors + Newcomers(m, i)
      invariant Builds(next, os, held, dets, frame, now)
    {
      if !used[i] {
        next := next + [NewEntry(dets[i], frame, now)];
        os := os + [New(i)];
      }
    }
  }

  ghost predicate Builds(next: seq<Entry>, os: seq<Origin>, held: seq<Entry>, dets: seq<Detection>, frame: nat,
                         now: real) {
    && |next| == |os|
    && forall p :: 0 <= p < |os| ==> InRange(os[p], held, dets) && next[p] == Build(os[p], held, dets, frame, now)
  }

  lemma MatchStep(held: seq<Entry>, dets: seq<Detection>, k: nat)
    requires k < |held|
    ensures Match(held, dets, k + 1) == Match(held, dets, k) + [FirstFree(held[k].bbox, dets, Match(held, dets, k), 0)]
    ensures Match(held, dets, |held|)[k] == FirstFree(held[k].bbox, dets, Match(held, dets, k), 0)
  {
    MatchPrefix(held, dets, k + 1);
    assert Match(held, dets, |held|)[k] == Match(held, dets, |held|)[..k + 1][k];
  }

  lemma {:induction false} MatchPrefix(held: seq<Entry>, dets: seq<Detection>, n: nat)
    requires n <= |held|
    ensures Match(held, dets, |held|)[..n] == Match(held, dets, n)
    decreases |held| - n
  {
    if n < |held| {
      MatchPrefix(held, dets, n + 1);
      assert Match(held, dets, n + 1)[..n] == Match(held, dets, n);
      assert Match(held, dets, |held|)[..n] == Match(held, dets, |held|)[..n + 1][..n];
    }
  }
}

/** Detections, the greedy spatial de-duplication applied along the pipeline, and the
    pick list built from what it publishes. */
module Detections {
  import opened Common
  import opened Sorting
  import opened PartIds

  datatype Box = Box(x: int, y: int, w: int, h: int)

  /** `part` is the text read on the packet; an absent or empty one means unidentified. */
  datatype Detection = Detection(bbox: Box, part: Option<string>, conf: real)

  predicate Named(part: Option<string>) {
    part.Some? && part.value != ""
  }

  function CenterX(b: Box): real {
    b.x as real + b.w as real / 2.0
  }

  function CenterY(b: Box): real {
    b.y as real + b.h as real / 2.0
  }

  /** Two boxes belong to one packet when their centres are closer than `px` on both axes. */
  predicate Near(a: Box, b: Box, px: int) {
    && AbsReal(CenterX(a) - CenterX(b)) < px as real
    && AbsReal(CenterY(a) - CenterY(b)) < px as real
  }

  /** Nearness depends on the centres alone, and can be read off in whole half-pixels. */
  lemma NearInHalfPixels(a: Box, b: Box, px: int)
    ensures Near(a, b, px) <==>
              && -2 * px < 2 * a.x + a.w - (2 * b.x + b.w) < 2 * px
              && -2 * px < 2 * a.y + a.h - (2 * b.y + b.h) < 2 * px
    ensures Near(a, b, px) == Near(b, a, px)
  {
    assert CenterX(a) - CenterX(b) == (2 * a.x + a.w - (2 * b.x + b.w)) as real / 2.0;
    assert CenterY(a) - CenterY(b) == (2 * a.y + a.h - (2 * b.y + b.h)) as real / 2.0;
  }

  const MERGE_PX := 75

  function ByConfidence(d: Detection): Key {
    (-d.conf, 0.0)
  }

  function AtLeast(dets: seq<Detection>, minConf: real): seq<Detection> {
    if dets == [] then []
    else AtLeast(dets[..|dets| - 1], minConf) +
         if dets[|dets| - 1].conf >= minConf then [dets[|dets| - 1]] else []
  }

  predicate NearAny(d: Detection, kept: seq<Detection>, px: int) {
    exists k :: 0 <= k < |kept| && Near(d.bbox, kept[k].bbox, px)
  }

  ghost function Repaired(d: Detection): Detection {
    d.(part := if Named(d.part) then Some(NormalizePrefix(d.part.value)) else None)
  }

  /** Keep each read that is not near one kept before it. */
  ghost function Greedy(good: seq<Detection>, px: int): seq<Detection> {
    if good == [] then []
    else
      var kept := Greedy(good[..|good| - 1], px);
      var d := good[|good| - 1];
      if NearAny(d, kept, px) then kept else kept + [Repaired(d)]
  }

  ghost function Cleaned(dets: seq<Detection>, minConf: real, px: int): seq<Detection> {
    Greedy(Sort(AtLeast(dets, minConf), ByConfidence), px)
  }

  method CleanDets(dets: seq<Detection>, minConf: real, px: int) returns (kept: seq<Detection>)
    ensures kept == Cleaned(dets, minConf, px)
  {
    var good := Sort(AtLeast(dets, minConf), ByConfidence);
    kept := [];
    for i := 0 to |good|
      invariant kept == Greedy(good[..i], px)
    {
      assert good[..i + 1][..i] == good[..i];
      var d := good[i];
      if !NearAny(d, kept, px) {
        var part := None;
        if Named(d.part) {
          var repaired := NormalizePrefixOf(d.part.value);
          part := Some(repaired);
        }
        kept := kept + [Detection(d.bbox, part, d.conf)];
      }
    }
    assert good[..|good|] == good;
  }

  // ---- what the cleaned list looks like ---------------------------------------------

  ghost predicate Separated(dets: seq<Detection>, px: int) {
    forall i, j :: 0 <= i < j < |dets| ==> !Near(dets[j].bbox, dets[i].bbox, px)
  }

  /** Strongest first, parts already repaired. */
  ghost predicate Tidy(dets: seq<Detection>) {
    && StrongestFirst(dets)
    && (forall i :: 0 <= i < |dets| ==> dets[i] == Repaired(dets[i]))
  }

  lemma {:induction false} AtLeastMembers(dets: seq<Detection>, minConf: real)
    ensures forall d :: d in AtLeast(dets, minConf) <==> d in dets && d.conf >= minConf
  {
    if dets != [] {
      AtLeastMembers(dets[..|dets| - 1], minConf);
      assert dets == dets[..|dets| - 1] + [dets[|dets| - 1]];
    }
  }

  lemma {:induction false} AtLeastAll(dets: seq<Detection>, minConf: real)
    requires forall d :: d in dets ==> d.conf >= minConf
    ensures AtLeast(dets, minConf) == dets
  {
    if dets != [] {
      AtLeastAll(dets[..|dets| - 1], minConf);
      assert dets == dets[..|dets| - 1] + [dets[|dets| - 1]];
    }
  }

  /** Every kept detection is some read, repaired; every read has a kept one near it (or
      standing for itself) of no lower confidence. */
  ghost predicate Covers(kept: seq<Detection>, d: Detection, px: int) {
    exists k :: 0 <= k < |kept| && kept[k].conf >= d.conf
                && (kept[k] == Repaired(d) || Near(d.bbox, kept[k].bbox, px))
  }

  lemma RepairedTwice(d: Detection)
    ensures Repaired(Repaired(d)) == Repaired(d)
  {
    if Named(d.part) {
      NormalizeIdempotent(d.part.value);
    }
  }

  lemma RepairedKeeps(d: Detection)
    ensures Repaired(d).bbox == d.bbox && Repaired(d).conf == d.conf
  {
  }

  ghost predicate StrongestFirst(dets: seq<Detection>) {
    forall i, j :: 0 <= i < j < |dets| ==> dets[i].conf >= dets[j].conf
  }

  lemma AppendTidy(kept: seq<Detection>, k: Detection, px: int)
    requires Separated(kept, px) && Tidy(kept)
    requires !NearAny(k, kept, px) && k == Repaired(k)
    requires forall i :: 0 <= i < |kept| ==> kept[i].conf >= k.conf
    ensures Separated(kept + [k], px) && Tidy(kept + [k])
  {
    hide Repaired, Near;
  }

  ghost predicate AllRepaired(kept: seq<Detection>, good: seq<Detection>) {
    forall i :: 0 <= i < |kept| ==> RepairedFrom(kept[i], good)
  }

  ghost predicate RepairedFrom(k: Detection, good: seq<Detection>) {
    exists d :: d in good && k == Repaired(d)
  }

  lemma {:induction false} GreedyTidy(good: seq<Detection>, px: int)
    requires StrongestFirst(good)
    ensures Separated(Greedy(good, px), px) && Tidy(Greedy(good, px))
    ensures AllRepaired(Greedy(good, px), good)
  {
    if good != [] {
      hide Repaired, Near;
      var front, d := good[..|good| - 1], good[|good| - 1];
      GreedyTidy(front, px);
      assert good == front + [d];
      assert AllRepaired(Greedy(front, px), good);
      if !NearAny(d, Greedy(front, px), px) {
        RepairedTwice(d);
        NearRepaired(d, Greedy(front, px), px);
        forall i | 0 <= i < |Greedy(front, px)|
          ensures Greedy(front, px)[i].conf >= Repaired(d).conf
        {
          KeptIsStronger(good, Greedy(front, px), i);
          RepairedKeeps(d);
        }
        AppendTidy(Greedy(front, px), Repaired(d), px);
      }
    }
  }

  lemma NearRepaired(d: Detection, kept: seq<Detection>, px: int)
    ensures NearAny(Repaired(d), kept, px) == NearAny(d, kept, px)
  {
    RepairedKeeps(d);
  }

  lemma KeptIsStronger(good: seq<Detection>, kept: seq<Detection>, k: nat)
    requires good != [] && StrongestFirst(good) && k < |kept|
    requires AllRepaired(kept, good[..|good| - 1])
    ensures kept[k].conf >= good[|good| - 1].conf
  {
    var front := good[..|good| - 1];
    assert RepairedFrom(kept[k], front);
    var e :| e in front && kept[k] == Repaired(e);
    hide Repaired;
    RepairedKeeps(e);
    var m :| 0 <= m < |front| && front[m] == e;
    assert good[m] == e;
  }

  lemma CoversMore(kept: seq<Detection>, r: seq<Detection>, d: Detection, px: int)
    requires kept <= r && Covers(kept, d, px)
    ensures Covers(r, d, px)
  {
    hide Repaired, Near;
    var k :| 0 <= k < |kept| && kept[k].conf >= d.conf
             && (kept[k] == Repaired(d) || Near(d.bbox, kept[k].bbox, px));
    assert r[k] == kept[k];
  }

  lemma {:induction false} GreedyCovers(good: seq<Detection>, px: int)
    requires StrongestFirst(good)
    ensures forall d :: d in good ==> Covers(Greedy(good, px), d, px)
  {
    if good != [] {
      var front, d := good[..|good| - 1], good[|good| - 1];
      GreedyCovers(front, px);
      GreedyTidy(front, px);
      var kept, r := Greedy(front, px), Greedy(good, px);
      hide Repaired, Near, Greedy;
      RepairedKeeps(d);
      assert good == front + [d];
      forall e | e in good ensures Covers(r, e, px) {
        if e in front {
          CoversMore(kept, r, e, px);
        } else if NearAny(d, kept, px) {
          var k :| 0 <= k < |kept| && Near(d.bbox, kept[k].bbox, px);
          KeptIsStronger(good, kept, k);
        } else {
          assert r[|kept|] == Repaired(d);
        }
      }
    }
  }

  lemma CleanedOne(d: Detection, minConf: real, px: int)
    requires d.conf >= minConf
    ensures Cleaned([d], minConf, px) == [Repaired(d)]
  {
    hide Repaired;
    assert [d][..0] == [];
    assert AtLeast([d], minConf) == [d];
    assert Sort([d], ByConfidence) == [d];
    assert Greedy([d], px) == [Repaired(d)];
  }

  lemma SortedByConfidence(dets: seq<Detection>, minConf: real)
    ensures var good := Sort(AtLeast(dets, minConf), ByConfidence);
      StrongestFirst(good) && (forall d :: d in good <==> d in dets && d.conf >= minConf)
  {
    var chosen := AtLeast(dets, minConf);
    SortSorts(chosen, ByConfidence);
    SortMembers(chosen, ByConfidence);
    AtLeastMembers(dets, minConf);
    var good := Sort(chosen, ByConfidence);
    forall i, j | 0 <= i < j < |good| ensures good[i].conf >= good[j].conf {
      assert Leq(ByConfidence(good[i]), ByConfidence(good[j]));
    }
  }

  /** One detection per packet: the result is pairwise at least `px` apart on some axis,
      strongest first, made of reads over the threshold, and every such read is answered
      for by a kept one near it with no lower confidence. */
  lemma CleanedShape(dets: seq<Detection>, minConf: real, px: int)
    ensures var r := Cleaned(dets, minConf, px);
      && Separated(r, px) && Tidy(r)
      && AllRepaired(r, AtLeast(dets, minConf))
      && (forall d :: d in dets && d.conf >= minConf ==> Covers(r, d, px))
  {
    SortedByConfidence(dets, minConf);
    var good := Sort(AtLeast(dets, minConf), ByConfidence);
    GreedyTidy(good, px);
    GreedyCovers(good, px);
    AtLeastMembers(dets, minConf);
  }

  lemma {:induction false} GreedyKeepsAll(dets: seq<Detection>, px: int)
    requires Separated(dets, px) && Tidy(dets)
    ensures Greedy(dets, px) == dets
  {
    if dets != [] {
      var front := dets[..|dets| - 1];
      GreedyKeepsAll(front, px);
      assert dets == front + [dets[|dets| - 1]];
    }
  }

  /** Cleaning again changes nothing, whatever the second threshold, as long as it is one
      that every published detection meets. */
  lemma CleanedFixed(dets: seq<Detection>, minConf: real, px: int, again: real)
    requires forall d :: d in Cleaned(dets, minConf, px) ==> d.conf >= again
    ensures Cleaned(Cleaned(dets, minConf, px), again, px) == Cleaned(dets, minConf, px)
  {
    var r := Cleaned(dets, minConf, px);
    CleanedShape(dets, minConf, px);
    AtLeastAll(r, again);
    SortOfSorted(r, ByConfidence);
    GreedyKeepsAll(r, px);
  }

  /** Where a published detection comes from. */
  lemma CleanedFrom(dets: seq<Detection>, minConf: real, px: int, k: Detection) returns (d: Detection)
    ensures k in Cleaned(dets, minConf, px) ==> d in dets && d.conf >= minConf && k == Repaired(d)
  {
    hide Repaired, Cleaned;
    CleanedShape(dets, minConf, px);
    AtLeastMembers(dets, minConf);
    var r := Cleaned(dets, minConf, px);
    if k !in r {
      return k;
    }
    var i :| 0 <= i < |r| && r[i] == k;
    assert RepairedFrom(k, AtLeast(dets, minConf));
    d :| d in AtLeast(dets, minConf) && r[i] == Repaired(d);
  }

  lemma PublishedConfidence(dets: seq<Detection>, minConf: real, px: int)
    ensures forall k :: k in Cleaned(dets, minConf, px) ==>
              exists d :: d in dets && d.conf >= minConf && k.conf == d.conf
  {
    forall k | k in Cleaned(dets, minConf, px)
      ensures exists d :: d in dets && d.conf >= minConf && k.conf == d.conf
    {
      var d := CleanedFrom(dets, minConf, px, k);
      RepairedKeeps(d);
    }
  }

  lemma CleanedIdempotent(dets: seq<Detection>, minConf: real, px: int)
    ensures Cleaned(Cleaned(dets, minConf, px), minConf, px) == Cleaned(dets, minConf, px)
  {
    PublishedConfidence(dets, minConf, px);
    CleanedFixed(dets, minConf, px, minConf);
  }

  // ---- the pick list ----------------------------------------------------------------

  datatype KitEntry = KitEntry(bagId: nat, part: Option<string>, comp: Option<int>)

  /** Rows of 120 pixels from the top, then left to right. */
  function ReadingOrder(d: Detection): Key {
    ((d.bbox.y / 120) as real, d.bbox.x as real)
  }

  /** The distinct names of the first `n` detections, in first-seen order. */
  ghost function Seen(dets: seq<Detection>, n: nat): seq<string>
    requires n <= |dets|
  {
    if n == 0 then []
    else
      var before := Seen(dets, n - 1);
      var part := dets[n - 1].part;
      if Named(part) && part.value !in before then before + [part.value] else before
  }

  ghost function IndexOf(names: seq<string>, name: string): nat
    requires name in names
    ensures IndexOf(names, name) < |names| && names[IndexOf(names, name)] == name
  {
    if names[0] == name then 0 else 1 + IndexOf(names[1..], name)
  }

  lemma {:induction false} SeenDistinct(dets: seq<Detection>, n: nat)
    requires n <= |dets|
    ensures forall i, j :: 0 <= i < j < |Seen(dets, n)| ==> Seen(dets, n)[i] != Seen(dets, n)[j]
    ensures forall i :: 0 <= i < n && Named(dets[i].part) ==> dets[i].part.value in Seen(dets, n)
  {
    if n > 0 {
      SeenDistinct(dets, n - 1);
    }
  }

  /** The pick list of the first `n` detections. A named one goes to the compartment the
      calibration gives, or without a calibration to the first-seen number of its name,
      capped at `maxComp`. */
  ghost function Entries(ordered: seq<Detection>, n: nat, maxComp: int,
                         compOf: Option<map<string, int>>): seq<KitEntry>
    requires n <= |ordered|
  {
    if n == 0 then []
    else
      var part := ordered[n - 1].part;
      SeenDistinct(ordered, n);
      var comp :=
        if !Named(part) then None
        else if compOf.Some? then
          (if part.value in compOf.value then Some(compOf.value[part.value]) else None)
        else Some(MinInt(IndexOf(Seen(ordered, n), part.value) + 1, maxComp));
      Entries(ordered, n - 1, maxComp, compOf) + [KitEntry(n, part, comp)]
  }

  ghost function Kit(dets: seq<Detection>, maxComp: int, compOf: Option<map<string, int>>): seq<KitEntry> {
    var ordered := Sort(Cleaned(dets, 0.0, MERGE_PX), ReadingOrder);
    Entries(ordered, |ordered|, maxComp, compOf)
  }

  lemma {:induction false} IndexOfAppend(names: seq<string>, name: string, more: string)
    requires name in names
    ensures name in names + [more] && IndexOf(names + [more], name) == IndexOf(names, name)
  {
    if names[0] != name {
      assert (names + [more])[1..] == names[1..] + [more];
      IndexOfAppend(names[1..], name, more);
    }
  }

  lemma {:induction false} IndexOfLast(names: seq<string>, name: string)
    requires name !in names
    ensures IndexOf(names + [name], name) == |names|
  {
    if names != [] {
      assert (names + [name])[1..] == names[1..] + [name];
      IndexOfLast(names[1..], name);
    }
  }

  lemma SeenStep(dets: seq<Detection>, n: nat)
    requires n < |dets|
    ensures forall name :: name in Seen(dets, n) ==>
              name in Seen(dets, n + 1) && IndexOf(Seen(dets, n + 1), name) == IndexOf(Seen(dets, n), name)
    ensures Named(dets[n].part) && dets[n].part.value !in Seen(dets, n) ==>
              && Seen(dets, n + 1) == Seen(dets, n) + [dets[n].part.value]
              && IndexOf(Seen(dets, n + 1), dets[n].part.value) == |Seen(dets, n)|
  {
    var before := Seen(dets, n);
    if Named(dets[n].part) && dets[n].part.value !in before {
      IndexOfLast(before, dets[n].part.value);
      forall name | name in before
        ensures name in Seen(dets, n + 1) && IndexOf(Seen(dets, n + 1), name) == IndexOf(before, name)
      {
        IndexOfAppend(before, name, dets[n].part.value);
      }
    }
  }

  lemma {:induction false} SeenStable(dets: seq<Detection>, m: nat, n: nat, name: string)
    requires m <= n <= |dets| && name in Seen(dets, m)
    ensures name in Seen(dets, n) && IndexOf(Seen(dets, n), name) == IndexOf(Seen(dets, m), name)
  {
    if m < n {
      SeenStable(dets, m, n - 1, name);
      SeenStep(dets, n - 1);
    }
  }

  /** The compartment given to each name so far. */
  ghost predicate Numbers(seen: map<string, int>, names: seq<string>, maxComp: int) {
    && |seen| == |names|
    && (forall name :: name in seen <==> name in names)
    && forall name :: name in seen ==> seen[name] == MinInt(IndexOf(names, name) + 1, maxComp)
  }

  lemma NoneNumbered(dets: seq<Detection>, maxComp: int)
    ensures Numbers(map[], Seen(dets, 0), maxComp)
  {
  }

  /** A new name gets the next number, a name seen before keeps its own. */
  lemma NumbersStep(dets: seq<Detection>, n: nat, seen: map<string, int>, maxComp: int)
    requires n < |dets| && Numbers(seen, Seen(dets, n), maxComp)
    ensures var part := dets[n].part;
            var seen' := if Named(part) && part.value !in seen
                         then seen[part.value := MinInt(|seen| + 1, maxComp)]
                         else seen;
      && Numbers(seen', Seen(dets, n + 1), maxComp)
      && (Named(part) ==> part.value in seen' && part.value in Seen(dets, n + 1)
                          && seen'[part.value] == MinInt(IndexOf(Seen(dets, n + 1), part.value) + 1, maxComp))
  {
    hide IndexOf;
    SeenStep(dets, n);
  }

  method KitFromDetections(dets: seq<Detection>, maxComp: int, compOf: Option<map<string, int>>)
      returns (kit: seq<KitEntry>)
    ensures kit == Kit(dets, maxComp, compOf)
  {
    var clean := CleanDets(dets, 0.0, MERGE_PX);
    var ordered := Sort(clean, ReadingOrder);
    var seen: map<string, int> := map[];
    hide Cleaned, Greedy, NormalizePrefix, IndexOf, Numbers, Seen;
    NoneNumbered(ordered, maxComp);
    kit := [];
    for i := 0 to |ordered|
      invariant kit == Entries(ordered, i, maxComp, compOf)
      invariant compOf.None? ==> Numbers(seen, Seen(ordered, i), maxComp)
    {
      var part := ordered[i].part;
      if compOf.None? {
        NumbersStep(ordered, i, seen, maxComp);
      }
      var comp := None;
      if Named(part) {
        if compOf.Some? {
          comp := if part.value in compOf.value then Some(compOf.value[part.value]) else None;
        } else {
          if part.value !in seen {
            seen := seen[part.value := MinInt(|seen| + 1, maxComp)];
          }
          comp := Some(seen[part.value]);
        }
      }
      kit := kit + [KitEntry(i + 1, part, comp)];
    }
  }

  lemma {:induction false} EntriesAt(ordered: seq<Detection>, n: nat, maxComp: int,
                                     compOf: Option<map<string, int>>, i: nat)
    requires i < n <= |ordered|
    ensures |Entries(ordered, n, maxComp, compOf)| == n
    ensures var e := Entries(ordered, n, maxComp, compOf)[i];
      && e.bagId == i + 1 && e.part == ordered[i].part
      && (!Named(e.part) ==> e.comp == None)
      && (Named(e.part) && compOf.Some? ==>
            e.comp == if e.part.value in compOf.value then Some(compOf.value[e.part.value]) else None)
      && (Named(e.part) && compOf.None? ==>
            && e.part.value in Seen(ordered, n)
            && e.comp == Some(MinInt(IndexOf(Seen(ordered, n), e.part.value) + 1, maxComp)))
  {
    hide IndexOf, Seen;
    EntriesLength(ordered, n - 1, maxComp, compOf);
    SeenDistinct(ordered, n);
    if i < n - 1 {
      EntriesAt(ordered, n - 1, maxComp, compOf, i);
      SeenStep(ordered, n - 1);
    }
  }

  lemma {:induction false} EntriesLength(ordered: seq<Detection>, n: nat, maxComp: int,
                                         compOf: Option<map<string, int>>)
    requires n <= |ordered|
    ensures |Entries(ordered, n, maxComp, compOf)| == n
  {
    if n > 0 {
      EntriesLength(ordered, n - 1, maxComp, compOf);
    }
  }

  /** Rows of 120 pixels from the top, left to right in each. */
  ghost predicate RowByRow(dets: seq<Detection>) {
    forall i, j :: 0 <= i < j < |dets| ==>
      var row, row' := dets[i].bbox.y / 120, dets[j].bbox.y / 120;
      row < row' || (row == row' && dets[i].bbox.x <= dets[j].bbox.x)
  }

  lemma ReadingOrderIsRowByRow(dets: seq<Detection>)
    requires Sorted(dets, ReadingOrder)
    ensures RowByRow(dets)
  {
    forall i, j | 0 <= i < j < |dets|
      ensures var row, row' := dets[i].bbox.y / 120, dets[j].bbox.y / 120;
        row < row' || (row == row' && dets[i].bbox.x <= dets[j].bbox.x)
    {
      assert Leq(ReadingOrder(dets[i]), ReadingOrder(dets[j]));
    }
  }

  /** On published detections the guard inside the pick-list builder does nothing: the list
      has one entry per published detection, row by row, and with a calibration each goes to
      the compartment it names for the part, if it names one. */
  lemma KitCoversPublished(dets: seq<Detection>, minConf: real, maxComp: int,
                           compOf: Option<map<string, int>>)
    requires forall d :: d in dets && d.conf >= minConf ==> d.conf >= 0.0
    ensures var published := Cleaned(dets, minConf, MERGE_PX);
            var ordered, kit := Sort(published, ReadingOrder), Kit(published, maxComp, compOf);
      && multiset(ordered) == multiset(published) && RowByRow(ordered)
      && |kit| == |published|
      && forall i :: 0 <= i < |kit| ==>
           && kit[i].bagId == i + 1 && kit[i].part == ordered[i].part
           && (!Named(kit[i].part) ==> kit[i].comp == None)
           && (Named(kit[i].part) && compOf.Some? ==>
                 match kit[i].comp
                 case None => kit[i].part.value !in compOf.value
                 case Some(comp) => kit[i].part.value in compOf.value && compOf.value[kit[i].part.value] == comp)
  {
    var published := Cleaned(dets, minConf, MERGE_PX);
    PublishedConfidence(dets, minConf, MERGE_PX);
    CleanedFixed(dets, minConf, MERGE_PX, 0.0);
    SortSorts(published, ReadingOrder);
    var ordered := Sort(published, ReadingOrder);
    ReadingOrderIsRowByRow(ordered);
    EntriesLength(ordered, |ordered|, maxComp, compOf);
    forall i | 0 <= i < |ordered|
      ensures var e := Entries(ordered, |ordered|, maxComp, compOf)[i];
        && e.bagId == i + 1 && e.part == ordered[i].part
        && (!Named(e.part) ==> e.comp == None)
        && (Named(e.part) && compOf.Some? ==>
              e.comp == if e.part.value in compOf.value then Some(compOf.value[e.part.value]) else None)
    {
      EntriesAt(ordered, |ordered|, maxComp, compOf, i);
    }
  }

  /** The distinct names on the pick list, in first-seen order. */
  ghost function Names(dets: seq<Detection>): seq<string> {
    var ordered := Sort(Cleaned(dets, 0.0, MERGE_PX), ReadingOrder);
    Seen(ordered, |ordered|)
  }

  /** The names of the first `n` detections. */
  ghost function NameSet(dets: seq<Detection>, n: nat): set<string>
    requires n <= |dets|
  {
    set j: nat | j < n && Named(dets[j].part) :: dets[j].part.value
  }

  lemma {:induction false} SeenCountsNames(dets: seq<Detection>, n: nat)
    requires n <= |dets|
    ensures |Seen(dets, n)| == |NameSet(dets, n)|
    ensures forall name :: name in Seen(dets, n) <==> name in NameSet(dets, n)
  {
    if n == 0 {
      assert NameSet(dets, 0) == {};
    } else {
      SeenCountsNames(dets, n - 1);
      var part := dets[n - 1].part;
      assert NameSet(dets, n) == NameSet(dets, n - 1) + if Named(part) then {part.value} else {};
    }
  }

  /** Without a calibration a name met for the first time gets the number of names met so
      far, itself included, but no more than there are compartments. */
  lemma CompartmentsCountNames(dets: seq<Detection>, maxComp: int, i: nat)
    requires i < |Kit(dets, maxComp, None)|
    ensures var ordered, kit := Sort(Cleaned(dets, 0.0, MERGE_PX), ReadingOrder), Kit(dets, maxComp, None);
      && |ordered| == |kit|
      && (Named(kit[i].part) && kit[i].part.value !in NameSet(ordered, i) ==>
            kit[i].comp == Some(MinInt(|NameSet(ordered, i + 1)|, maxComp)))
  {
    hide Cleaned, Entries, IndexOf;
    var ordered := Sort(Cleaned(dets, 0.0, MERGE_PX), ReadingOrder);
    EntriesLength(ordered, |ordered|, maxComp, None);
    EntriesAt(ordered, |ordered|, maxComp, None, i);
    SeenCountsNames(ordered, i);
    SeenCountsNames(ordered, i + 1);
    var part := ordered[i].part;
    if Named(part) && part.value !in Seen(ordered, i) {
      SeenStep(ordered, i);
      SeenStable(ordered, i + 1, |ordered|, part.value);
    }
  }

  /** Without a calibration, two named entries share a compartment exactly when they have
      the same name or both names came too late to get a compartment of their own. */
  lemma FirstSeenCompartments(dets: seq<Detection>, maxComp: int, i: nat, j: nat)
    requires i < |Kit(dets, maxComp, None)| && j < |Kit(dets, maxComp, None)|
    requires Named(Kit(dets, maxComp, None)[i].part) && Named(Kit(dets, maxComp, None)[j].part)
    ensures var kit, names := Kit(dets, maxComp, None), Names(dets);
      && kit[i].part.value in names && kit[j].part.value in names
      && kit[i].comp.Some? && kit[j].comp.Some? && kit[i].comp.value <= maxComp
      && (kit[i].comp == kit[j].comp <==>
            || kit[i].part == kit[j].part
            || (IndexOf(names, kit[i].part.value) + 1 >= maxComp
                && IndexOf(names, kit[j].part.value) + 1 >= maxComp))
      && (|names| <= maxComp ==> (kit[i].comp == kit[j].comp <==> kit[i].part == kit[j].part))
  {
    var ordered := Sort(Cleaned(dets, 0.0, MERGE_PX), ReadingOrder);
    EntriesLength(ordered, |ordered|, maxComp, None);
    EntriesAt(ordered, |ordered|, maxComp, None, i);
    EntriesAt(ordered, |ordered|, maxComp, None, j);
    SeenDistinct(ordered, |ordered|);
  }
}

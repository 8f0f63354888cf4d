/** The explicit training windows of "full" mode: reading the windows file, and clipping its
    windows to what a take recorded. */
module WindowsFile {
  import opened Common
  import opened Sorting
  import opened Windows

  datatype LoadError = NoWindows | TaskCount | BadWindow | Overlap

  /** A window with the task it was listed with. */
  datatype Listed = Listed(lo: real, hi: real, task: Option<string>)

  /** What the file holds for one episode: lists of numbers, and perhaps a task for each. */
  datatype Item = Item(episode: string, windows: seq<seq<real>>, tasks: Option<seq<Option<string>>>)

  predicate WellShaped(w: seq<real>) {
    |w| == 2 && w[1] > w[0]
  }

  function TaskAt(item: Item, k: nat): Option<string>
    requires item.tasks.Some? ==> k < |item.tasks.value|
  {
    if item.tasks.Some? then item.tasks.value[k] else None
  }

  predicate Consistent(item: Item) {
    && (item.tasks.Some? ==> |item.tasks.value| == |item.windows|)
    && forall k :: 0 <= k < |item.windows| ==> WellShaped(item.windows[k])
  }

  function Listing(item: Item): (r: seq<Listed>)
    requires Consistent(item)
    ensures |r| == |item.windows|
  {
    seq(|item.windows|, k requires 0 <= k < |item.windows| =>
      Listed(item.windows[k][0], item.windows[k][1], TaskAt(item, k)))
  }

  function ByBounds(r: Listed): Key {
    (r.lo, r.hi)
  }

  function SortedListing(item: Item): seq<Listed>
    requires Consistent(item)
  {
    Sort(Listing(item), ByBounds)
  }

  function SpansOf(rows: seq<Listed>): seq<Span> {
    Map((row: Listed) => Span(row.lo, row.hi), rows)
  }

  function TasksOf(rows: seq<Listed>): seq<Option<string>> {
    Map((row: Listed) => row.task, rows)
  }

  // ---- overlap ----------------------------------------------------------------------

  predicate Apart(a: Listed, b: Listed) {
    a.hi <= b.lo || b.hi <= a.lo
  }

  /** No two windows of the list share time, in whatever order they are listed. */
  ghost predicate PairwiseApart(rows: seq<Listed>) {
    forall i, j :: 0 <= i < j < |rows| ==> Apart(rows[i], rows[j])
  }

  ghost predicate ApartFromAll(rows: seq<Listed>, x: Listed) {
    forall i :: 0 <= i < |rows| ==> Apart(rows[i], x)
  }

  /** The loader's own check: no window of the sorted list starts before the previous ends. */
  predicate NoneStartsEarly(rows: seq<Listed>) {
    forall k :: 0 <= k < |rows| - 1 ==> rows[k].hi <= rows[k + 1].lo
  }

  lemma PairwiseAppend(rows: seq<Listed>, x: Listed)
    ensures PairwiseApart(rows + [x]) <==> PairwiseApart(rows) && ApartFromAll(rows, x)
  {
    var all := rows + [x];
    if PairwiseApart(all) {
      forall i | 0 <= i < |rows| ensures Apart(rows[i], x) {
        assert Apart(all[i], all[|rows|]);
      }
      forall i, j | 0 <= i < j < |rows| ensures Apart(rows[i], rows[j]) {
        assert Apart(all[i], all[j]);
      }
    }
  }

  lemma {:induction false} ApartInsert(rows: seq<Listed>, x: Listed, y: Listed)
    ensures ApartFromAll(Insert(rows, x, ByBounds), y) <==> ApartFromAll(rows, y) && Apart(x, y)
  {
    if rows == [] || Leq(ByBounds(rows[|rows| - 1]), ByBounds(x)) {
      ApartAppend(rows, x, y);
    } else {
      var front, last := rows[..|rows| - 1], rows[|rows| - 1];
      ApartInsert(front, x, y);
      ApartAppend(Insert(front, x, ByBounds), last, y);
      ApartAppend(front, last, y);
      assert rows == front + [last];
    }
  }

  lemma ApartAppend(rows: seq<Listed>, x: Listed, y: Listed)
    ensures ApartFromAll(rows + [x], y) <==> ApartFromAll(rows, y) && Apart(x, y)
  {
    if ApartFromAll(rows + [x], y) {
      assert Apart((rows + [x])[|rows|], y);
      forall i | 0 <= i < |rows| ensures Apart(rows[i], y) {
        assert Apart((rows + [x])[i], y);
      }
    }
  }

  lemma {:induction false} PairwiseInsert(rows: seq<Listed>, x: Listed)
    ensures PairwiseApart(Insert(rows, x, ByBounds)) <==> PairwiseApart(rows) && ApartFromAll(rows, x)
  {
    if rows == [] || Leq(ByBounds(rows[|rows| - 1]), ByBounds(x)) {
      PairwiseAppend(rows, x);
    } else {
      var front, last := rows[..|rows| - 1], rows[|rows| - 1];
      assert rows == front + [last];
      PairwiseInsert(front, x);
      PairwiseAppend(Insert(front, x, ByBounds), last);
      ApartInsert(front, x, last);
      PairwiseAppend(front, last);
      ApartAppend(front, last, x);
    }
  }

  lemma {:induction false} PairwiseSort(rows: seq<Listed>)
    ensures PairwiseApart(Sort(rows, ByBounds)) <==> PairwiseApart(rows)
  {
    if rows != [] {
      var front, last := rows[..|rows| - 1], rows[|rows| - 1];
      assert rows == front + [last];
      PairwiseSort(front);
      PairwiseInsert(Sort(front, ByBounds), last);
      PairwiseAppend(front, last);
      ApartSort(front, last);
    }
  }

  lemma {:induction false} ApartSort(rows: seq<Listed>, y: Listed)
    ensures ApartFromAll(Sort(rows, ByBounds), y) <==> ApartFromAll(rows, y)
  {
    if rows != [] {
      var front, last := rows[..|rows| - 1], rows[|rows| - 1];
      assert rows == front + [last];
      ApartSort(front, y);
      ApartInsert(Sort(front, ByBounds), last, y);
      ApartAppend(front, last, y);
    }
  }

  ghost predicate Positive(rows: seq<Listed>) {
    forall i :: 0 <= i < |rows| ==> rows[i].lo < rows[i].hi
  }

  /** On a sorted list of windows of positive length, checking neighbours is enough. */
  lemma {:induction false} NeighboursSuffice(rows: seq<Listed>)
    requires Positive(rows) && Sorted(rows, ByBounds)
    ensures NoneStartsEarly(rows) <==> Disjoint(SpansOf(rows))
    ensures NoneStartsEarly(rows) <==> PairwiseApart(rows)
  {
    if NoneStartsEarly(rows) {
      forall i, j | 0 <= i < j < |rows| ensures rows[i].hi <= rows[j].lo {
        Chain(rows, i, j);
      }
    } else {
      var k :| 0 <= k < |rows| - 1 && rows[k].hi > rows[k + 1].lo;
      assert Leq(ByBounds(rows[k]), ByBounds(rows[k + 1]));
      assert !Apart(rows[k], rows[k + 1]);
      assert SpansOf(rows)[k].hi > SpansOf(rows)[k + 1].lo;
    }
  }

  lemma {:induction false} Chain(rows: seq<Listed>, i: nat, j: nat)
    requires Positive(rows) && NoneStartsEarly(rows) && i < j < |rows|
    ensures rows[i].hi <= rows[j].lo
    decreases j
  {
    if i < j - 1 {
      Chain(rows, i, j - 1);
      assert rows[j - 1].lo < rows[j - 1].hi && rows[j - 1].hi <= rows[j - 1 + 1].lo;
    }
  }

  // ---- the loader -------------------------------------------------------------------

  /** Per episode the windows in order, and step by step with them their tasks. */
  datatype Loaded = Loaded(windows: map<string, seq<Span>>, tasks: map<string, seq<Option<string>>>)

  ghost predicate DistinctEpisodes(items: seq<Item>) {
    forall i, j :: 0 <= i < j < |items| ==> items[i].episode != items[j].episode
  }

  /** What a file must satisfy, stated on the lists as written. */
  ghost predicate Acceptable(items: seq<Item>) {
    items != [] && forall i :: 0 <= i < |items| ==> Consistent(items[i]) && PairwiseApart(Listing(items[i]))
  }

  ghost predicate HoldsFirst(items: seq<Item>, n: nat, l: Loaded)
    requires n <= |items| && forall i :: 0 <= i < n ==> Consistent(items[i])
  {
    && (forall e :: e in l.windows <==> exists i :: 0 <= i < n && items[i].episode == e)
    && l.tasks.Keys == l.windows.Keys
    && forall i :: 0 <= i < n ==>
         && l.windows[items[i].episode] == SpansOf(SortedListing(items[i]))
         && l.tasks[items[i].episode] == TasksOf(SortedListing(items[i]))
  }

  /** The same, written out on the numbers of the file. */
  ghost predicate ListsApart(item: Item) {
    && (item.tasks.Some? ==> |item.tasks.value| == |item.windows|)
    && (forall k :: 0 <= k < |item.windows| ==> |item.windows[k]| == 2 && item.windows[k][0] < item.windows[k][1])
    && forall j, k :: 0 <= j < k < |item.windows| ==>
         item.windows[j][1] <= item.windows[k][0] || item.windows[k][1] <= item.windows[j][0]
  }

  lemma AcceptableMeans(items: seq<Item>)
    ensures Acceptable(items) <==> items != [] && forall i :: 0 <= i < |items| ==> ListsApart(items[i])
  {
    forall i | 0 <= i < |items|
      ensures ListsApart(items[i]) <==> Consistent(items[i]) && PairwiseApart(Listing(items[i]))
    {
      ItemAcceptable(items[i]);
    }
  }

  lemma ItemAcceptable(item: Item)
    ensures ListsApart(item) <==> Consistent(item) && PairwiseApart(Listing(item))
  {
    if ListsApart(item) {
      assert Consistent(item);
      forall i, j | 0 <= i < j < |Listing(item)| ensures Apart(Listing(item)[i], Listing(item)[j]) {
      }
    }
    if Consistent(item) && PairwiseApart(Listing(item)) {
      assert forall k :: 0 <= k < |item.windows| ==> WellShaped(item.windows[k]);
      forall j, k | 0 <= j < k < |item.windows|
        ensures item.windows[j][1] <= item.windows[k][0] || item.windows[k][1] <= item.windows[j][0]
      {
        assert Apart(Listing(item)[j], Listing(item)[k]);
      }
    }
  }

  lemma ListingChecks(item: Item)
    requires Consistent(item)
    ensures NoneStartsEarly(SortedListing(item)) <==> PairwiseApart(Listing(item))
    ensures NoneStartsEarly(SortedListing(item)) <==> Disjoint(SpansOf(SortedListing(item)))
  {
    var rows := SortedListing(item);
    SortSorts(Listing(item), ByBounds);
    SortMembers(Listing(item), ByBounds);
    forall i | 0 <= i < |rows| ensures rows[i].lo < rows[i].hi {
      assert rows[i] in Listing(item);
      var k :| 0 <= k < |Listing(item)| && Listing(item)[k] == rows[i];
      assert WellShaped(item.windows[k]);
    }
    NeighboursSuffice(rows);
    PairwiseSort(Listing(item));
  }

  /** A file is accepted exactly when it lists at least one episode, every window has two
      ascending bounds, tasks come one per window, and no two windows of one episode
      overlap. What is loaded is then sorted and disjoint, tasks in step. */
  method LoadWindows(items: seq<Item>) returns (r: Result<Loaded, LoadError>)
    requires DistinctEpisodes(items)
    ensures r.Ok? <==> Acceptable(items)
    ensures r.Ok? ==> HoldsFirst(items, |items|, r.value)
    ensures r.Ok? ==> forall e :: e in r.value.windows ==> Disjoint(r.value.windows[e])
  {
    if items == [] {
      return Err(NoWindows);
    }
    r := ReadItems(items);
    if r.Err? {
      return;
    }
    var overlap := FindOverlap(items);
    hide HoldsFirst;
    if overlap {
      return Err(Overlap);
    }
    Gathered(items, r.value);
  }

  lemma Gathered(items: seq<Item>, l: Loaded)
    requires Acceptable(items) && HoldsFirst(items, |items|, l)
    ensures forall e :: e in l.windows ==> Disjoint(l.windows[e])
  {
    forall e | e in l.windows ensures Disjoint(l.windows[e]) {
      var i :| 0 <= i < |items| && items[i].episode == e;
      ListingChecks(items[i]);
    }
  }

  /** The first pass: shape of every window, one task per window, sorting. */
  method ReadItems(items: seq<Item>) returns (r: Result<Loaded, LoadError>)
    requires DistinctEpisodes(items)
    ensures r.Ok? <==> forall i :: 0 <= i < |items| ==> Consistent(items[i])
    ensures r.Ok? ==> HoldsFirst(items, |items|, r.value)
  {
    hide SortedListing, HoldsFirst;
    var l := Loaded(map[], map[]);
    HoldsNone(items);
    for i := 0 to |items|
      invariant forall k :: 0 <= k < i ==> Consistent(items[k])
      invariant HoldsFirst(items, i, l)
    {
      var item := items[i];
      if item.tasks.Some? && |item.tasks.value| != |item.windows| {
        return Err(TaskCount);
      }
      var shaped := AllWellShaped(item.windows);
      if !shaped {
        return Err(BadWindow);
      }
      HoldsOneMore(items, i, l);
      var rows := SortedListing(item);
      l := Loaded(l.windows[item.episode := SpansOf(rows)], l.tasks[item.episode := TasksOf(rows)]);
    }
    r := Ok(l);
  }

  lemma HoldsNone(items: seq<Item>)
    ensures HoldsFirst(items, 0, Loaded(map[], map[]))
  {
  }

  lemma HoldsOneMore(items: seq<Item>, n: nat, l: Loaded)
    requires DistinctEpisodes(items) && n < |items|
    requires (forall i :: 0 <= i <= n ==> Consistent(items[i])) && HoldsFirst(items, n, l)
    ensures var rows, e := SortedListing(items[n]), items[n].episode;
      HoldsFirst(items, n + 1, Loaded(l.windows[e := SpansOf(rows)], l.tasks[e := TasksOf(rows)]))
  {
    hide SortedListing, Consistent;
  }

  /** The second pass: neighbours that overlap, in any episode. */
  method FindOverlap(items: seq<Item>) returns (overlap: bool)
    requires forall i :: 0 <= i < |items| ==> Consistent(items[i])
    ensures overlap <==> exists i :: 0 <= i < |items| && !PairwiseApart(Listing(items[i]))
  {
    hide SortedListing, Listing, PairwiseApart;
    for i := 0 to |items|
      invariant forall k :: 0 <= k < i ==> PairwiseApart(Listing(items[k]))
    {
      ListingChecks(items[i]);
      if !NoneStartsEarly(SortedListing(items[i])) {
        return true;
      }
    }
    overlap := false;
  }

  method AllWellShaped(ws: seq<seq<real>>) returns (ok: bool)
    ensures ok <==> forall k :: 0 <= k < |ws| ==> WellShaped(ws[k])
  {
    for k := 0 to |ws|
      invariant forall j :: 0 <= j < k ==> WellShaped(ws[j])
    {
      if !WellShaped(ws[k]) {
        return false;
      }
    }
    ok := true;
  }

  /** Sorting moves each task with its window: the loaded pairs are the listed pairs. */
  lemma TasksStayWithWindows(item: Item, k: nat)
    requires Consistent(item) && k < |SortedListing(item)|
    ensures multiset(SortedListing(item)) == multiset(Listing(item))
    ensures exists p :: 0 <= p < |item.windows|
              && SpansOf(SortedListing(item))[k] == Span(item.windows[p][0], item.windows[p][1])
              && TasksOf(SortedListing(item))[k] == (if item.tasks.Some? then item.tasks.value[p] else None)
  {
    SortSorts(Listing(item), ByBounds);
    SortMembers(Listing(item), ByBounds);
    assert SortedListing(item)[k] in Listing(item);
    var p :| 0 <= p < |Listing(item)| && Listing(item)[p] == SortedListing(item)[k];
  }

  // ---- clipping to the recorded span ------------------------------------------------

  /** One planned window: its span after clipping, its task, and its number in the list. */
  datatype Planned = Planned(span: Span, task: Option<string>, number: nat)

  function Clip(s: Span, t0: real, t1: real): Span {
    Span(MaxReal(s.lo, t0), MinReal(s.hi, t1))
  }

  /** At least nine tenths of the window were recorded. */
  predicate MostlyRecorded(s: Span, t0: real, t1: real) {
    var c := Clip(s, t0, t1);
    c.hi - c.lo >= (s.hi - s.lo) * 0.9
  }

  ghost function ClipAll(wanted: seq<Span>, tasks: seq<Option<string>>, t0: real, t1: real, n: nat): seq<Planned>
    requires n <= |wanted| == |tasks|
  {
    if n == 0 then []
    else
      ClipAll(wanted, tasks, t0, t1, n - 1) +
      if MostlyRecorded(wanted[n - 1], t0, t1)
      then [Planned(Clip(wanted[n - 1], t0, t1), tasks[n - 1], n - 1)] else []
  }

  method ClipWindows(wanted: seq<Span>, tasks: seq<Option<string>>, t0: real, t1: real)
      returns (windows: seq<Span>, meta: seq<Option<string>>)
    requires |tasks| == |wanted|
    ensures var planned := ClipAll(wanted, tasks, t0, t1, |wanted|);
      && |windows| == |meta| == |planned|
      && forall i :: 0 <= i < |planned| ==> windows[i] == planned[i].span && meta[i] == planned[i].task
  {
    windows, meta := [], [];
    for k := 0 to |wanted|
      invariant var planned := ClipAll(wanted, tasks, t0, t1, k);
        && |windows| == |meta| == |planned|
        && forall i :: 0 <= i < |planned| ==> windows[i] == planned[i].span && meta[i] == planned[i].task
    {
      var lo, hi := wanted[k].lo, wanted[k].hi;
      var clo, chi := MaxReal(lo, t0), MinReal(hi, t1);
      if !(chi - clo < (hi - lo) * 0.9) {
        windows, meta := windows + [Span(clo, chi)], meta + [tasks[k]];
      }
    }
  }

  function PlannedSpans(planned: seq<Planned>): seq<Span> {
    Map((p: Planned) => p.span, planned)
  }

  /** Clipping keeps the windows in order, disjoint and of positive length; a window stays
      exactly when it was mostly recorded, lies inside both its listed bounds and the
      recorded span, and keeps its own task. */
  lemma ClipKeepsOrder(wanted: seq<Span>, tasks: seq<Option<string>>, t0: real, t1: real, n: nat)
    requires n <= |wanted| == |tasks| && Disjoint(wanted)
    ensures var planned := ClipAll(wanted, tasks, t0, t1, n);
      && Disjoint(PlannedSpans(planned))
      && (forall p :: p in planned <==>
            && p.number < n && MostlyRecorded(wanted[p.number], t0, t1)
            && p.span == Clip(wanted[p.number], t0, t1) && p.task == tasks[p.number])
      && (forall i, j :: 0 <= i < j < |planned| ==> planned[i].number < planned[j].number)
  {
    ClipShape(wanted, tasks, t0, t1, n);
    var planned := ClipAll(wanted, tasks, t0, t1, n);
    forall i | 0 <= i < |planned| ensures planned[i].span.lo < planned[i].span.hi {
      assert planned[i] in planned;
      ClippedLength(wanted[planned[i].number], t0, t1);
    }
    forall i, j | 0 <= i < j < |planned| ensures planned[i].span.hi <= planned[j].span.lo {
      assert planned[i] in planned && planned[j] in planned;
      assert wanted[planned[i].number].hi <= wanted[planned[j].number].lo;
    }
  }

  lemma ClippedLength(s: Span, t0: real, t1: real)
    requires s.lo < s.hi && MostlyRecorded(s, t0, t1)
    ensures Clip(s, t0, t1).lo < Clip(s, t0, t1).hi
  {
  }

  lemma {:induction false} ClipShape(wanted: seq<Span>, tasks: seq<Option<string>>, t0: real, t1: real, n: nat)
    requires n <= |wanted| == |tasks|
    ensures var planned := ClipAll(wanted, tasks, t0, t1, n);
      && (forall p :: p in planned <==>
            && p.number < n && MostlyRecorded(wanted[p.number], t0, t1)
            && p.span == Clip(wanted[p.number], t0, t1) && p.task == tasks[p.number])
      && (forall i, j :: 0 <= i < j < |planned| ==> planned[i].number < planned[j].number)
  {
    hide MostlyRecorded, Clip;
    if n > 0 {
      ClipShape(wanted, tasks, t0, t1, n - 1);
      var before := ClipAll(wanted, tasks, t0, t1, n - 1);
      assert forall i :: 0 <= i < |before| ==> before[i] in before;
    }
  }

  /** From the file to the plan: a planned window is one listed window of the episode,
      clipped, with the task listed for it. */
  lemma PlannedFromListed(item: Item, t0: real, t1: real, i: nat)
    requires Consistent(item) && PairwiseApart(Listing(item))
    requires i < |ClipAll(SpansOf(SortedListing(item)), TasksOf(SortedListing(item)), t0, t1, |SortedListing(item)|)|
    ensures var planned := ClipAll(SpansOf(SortedListing(item)), TasksOf(SortedListing(item)), t0, t1,
                                   |SortedListing(item)|);
      && Disjoint(PlannedSpans(planned))
      && exists p :: 0 <= p < |item.windows|
           && planned[i].span == Clip(Span(item.windows[p][0], item.windows[p][1]), t0, t1)
           && planned[i].task == (if item.tasks.Some? then item.tasks.value[p] else None)
  {
    var rows := SortedListing(item);
    ListingChecks(item);
    ClipKeepsOrder(SpansOf(rows), TasksOf(rows), t0, t1, |rows|);
    var planned := ClipAll(SpansOf(rows), TasksOf(rows), t0, t1, |rows|);
    assert planned[i] in planned;
    TasksStayWithWindows(item, planned[i].number);
  }
}

/** Operator verdicts as data: the key an event is filed under, merging a verdict into an
    episode's corrections, and applying corrections to the labels. */
module Corrections {
  import opened Common

  /** section -> item -> field -> value, as in corrections.json */
  type Fields = map<string, string>
  type Sections = map<string, map<string, Fields>>

  const GRASPS := "grasp_attempts"
  const PLACES := "place_events"
  const VERDICT := "operator_verdict"

  datatype Post = Post(dir: string, section: string, item: string, verdict: string)

  function SectionOf(c: Sections, section: string): map<string, Fields> {
    if section in c then c[section] else map[]
  }

  function ItemOf(s: map<string, Fields>, item: string): Fields {
    if item in s then s[item] else map[]
  }

  /** The verdict replaces an earlier one for the same item and nothing else. */
  function Merge(c: Sections, p: Post): Sections {
    var s := SectionOf(c, p.section);
    c[p.section := s[p.item := ItemOf(s, p.item)[VERDICT := p.verdict]]]
  }

  // ---- keys -------------------------------------------------------------------------

  /** What stands before and after the first slash. */
  function Partition(key: string): (string, string) {
    if key == [] then ([], [])
    else if key[0] == '/' then ([], key[1..])
    else var (a, b) := Partition(key[1..]); ([key[0]] + a, b)
  }

  /** What a request must carry to be filed; `None` is answered with an error. */
  function ParseRequest(dir: string, key: string, verdict: string): Option<Post> {
    var (section, item) := Partition(key);
    if (section != GRASPS && section != PLACES) || item == [] then None
    else if verdict != "ok" && verdict != "wrong" then None
    else Some(Post(dir, section, item, verdict))
  }

  /** One labelled event; `attempt` is empty for a placement. */
  datatype Event = Event(bag: string, attempt: string, fields: Fields)

  function ItemKey(section: string, e: Event): string {
    if section == GRASPS then e.bag + ":" + e.attempt else e.bag
  }

  function EventKey(section: string, e: Event): string {
    section + "/" + ItemKey(section, e)
  }

  lemma {:induction false} PartitionJoins(a: string, b: string)
    requires forall i :: 0 <= i < |a| ==> a[i] != '/'
    ensures Partition(a + "/" + b) == (a, b)
  {
    var key := a + "/" + b;
    if a == [] {
      assert key[0] == '/' && key[1..] == b;
    } else {
      assert key[0] == a[0] && key[1..] == a[1..] + "/" + b;
      PartitionJoins(a[1..], b);
      assert [a[0]] + a[1..] == a;
    }
  }

  /** The key printed for an event is split back into its section and item, whatever the bag
      and attempt are called; only a placement without a bag name is refused. */
  lemma PrintedKeyIsFiled(dir: string, section: string, e: Event, verdict: string)
    requires section == GRASPS || section == PLACES
    requires verdict == "ok" || verdict == "wrong"
    ensures ParseRequest(dir, EventKey(section, e), verdict)
            == if section == PLACES && e.bag == "" then None
               else Some(Post(dir, section, ItemKey(section, e), verdict))
  {
    PartitionJoins(section, ItemKey(section, e));
  }

  lemma {:induction false} PartitionSplits(key: string)
    ensures var (a, b) := Partition(key);
      && (forall i :: 0 <= i < |a| ==> a[i] != '/')
      && (key == a + "/" + b || (key == a && b == []))
  {
    if key != [] && key[0] != '/' {
      PartitionSplits(key[1..]);
      var (a, b) := Partition(key[1..]);
      assert key == [key[0]] + key[1..];
      assert [key[0]] + (a + "/" + b) == [key[0]] + a + "/" + b;
    }
  }

  /** A request is filed exactly when its key is one of the two sections, a slash and a
      name, and the verdict is one of the two words. */
  lemma FiledExactlyWhen(dir: string, key: string, verdict: string)
    ensures ParseRequest(dir, key, verdict).Some?
            <==> (verdict == "ok" || verdict == "wrong")
                 && exists section, item ::
                      (section == "grasp_attempts" || section == "place_events")
                      && item != "" && key == section + "/" + item
  {
    PartitionSplits(key);
    var (a, b) := Partition(key);
    if (a == GRASPS || a == PLACES) && b != [] {
      assert key == a + "/" + b;
    }
    forall section, item | (section == GRASPS || section == PLACES) && item != "" && key == section + "/" + item
      ensures (a, b) == (section, item)
    {
      PartitionJoins(section, item);
    }
  }

  ghost predicate NoColon(s: string) {
    forall i :: 0 <= i < |s| ==> s[i] != ':'
  }

  /** Two placements are filed under one item exactly when they are of one bag; two grasps
      exactly when they are of one bag and one attempt, whatever the bags are called, as long
      as an attempt is a number or another text without a colon. */
  lemma KeyIdentifies(d: Event, e: Event)
    ensures ItemKey(PLACES, d) == ItemKey(PLACES, e) <==> d.bag == e.bag
    ensures NoColon(d.attempt) && NoColon(e.attempt) ==>
              (ItemKey(GRASPS, d) == ItemKey(GRASPS, e) <==> d.bag == e.bag && d.attempt == e.attempt)
  {
    if NoColon(d.attempt) && NoColon(e.attempt) && ItemKey(GRASPS, d) == ItemKey(GRASPS, e) {
      SameAfterColon(d.bag, d.attempt, e.bag, e.attempt);
    }
  }

  lemma SameAfterColon(a: string, b: string, a': string, b': string)
    requires a + ":" + b == a' + ":" + b' && NoColon(b) && NoColon(b')
    ensures a == a' && b == b'
  {
    var s := a + ":" + b;
    LastColon(a, b);
    LastColon(a', b');
    assert |a| == |a'|;
    assert a == s[..|a|] && a' == s[..|a|] && b == s[|a| + 1..] && b' == s[|a| + 1..];
  }

  lemma LastColon(a: string, b: string)
    requires NoColon(b)
    ensures var s := a + ":" + b; s[|a|] == ':' && forall i :: |a| < i < |s| ==> s[i] != ':'
  {
    var s := a + ":" + b;
    assert forall i :: |a| < i < |s| ==> s[i] == b[i - |a| - 1];
  }

  /** With a colon in an attempt two grasps of different bags can be filed under one item. */
  lemma ColonsCollide()
    ensures ItemKey(GRASPS, Event("1", "2:3", map[])) == ItemKey(GRASPS, Event("1:2", "3", map[]))
  {
    assert "1" + ":" + "2:3" == "1:2" + ":" + "3";
  }

  // ---- applying corrections ---------------------------------------------------------

  /** Position of the last of the first `n` events with the item key, or -1. */
  ghost function LastWithKey(section: string, events: seq<Event>, key: string, n: nat): int
    requires n <= |events|
  {
    if n == 0 then -1
    else if ItemKey(section, events[n - 1]) == key then n - 1
    else LastWithKey(section, events, key, n - 1)
  }

  /** An event takes an override when it is the last one under its key. */
  ghost function Applied(section: string, events: seq<Event>, overrides: map<string, Fields>, i: nat): Event
    requires i < |events|
  {
    var e := events[i];
    var key := ItemKey(section, e);
    if key in overrides && LastWithKey(section, events, key, |events|) == i
    then e.(fields := e.fields + overrides[key]) else e
  }

  ghost function Corrected(section: string, events: seq<Event>, overrides: map<string, Fields>): (r: seq<Event>)
    ensures |r| == |events|
  {
    seq(|events|, i requires 0 <= i < |events| => Applied(section, events, overrides, i))
  }

  lemma {:induction false} LastWithKeySound(section: string, events: seq<Event>, key: string, n: nat)
    requires n <= |events|
    ensures var i := LastWithKey(section, events, key, n);
      && -1 <= i < n && (i >= 0 ==> ItemKey(section, events[i]) == key)
      && forall k :: i < k < n ==> ItemKey(section, events[k]) != key
  {
    if n > 0 { LastWithKeySound(section, events, key, n - 1); }
  }

  /** No later event is filed under the same item. */
  ghost predicate LastOfItem(section: string, events: seq<Event>, i: nat)
    requires i < |events|
  {
    forall k :: i < k < |events| ==> ItemKey(section, events[k]) != ItemKey(section, events[i])
  }

  /** Every field of every event after the overrides: the one filed for its item, if there is
      one and no later event of that item takes it, and otherwise its own. */
  lemma OverridesLand(section: string, events: seq<Event>, overrides: map<string, Fields>, i: nat, field: string)
    requires i < |events|
    ensures var e, r, key := events[i], Corrected(section, events, overrides)[i], ItemKey(section, events[i]);
            var taken := LastOfItem(section, events, i) && key in overrides && field in overrides[key];
      && r.bag == e.bag && r.attempt == e.attempt
      && (field in r.fields <==> taken || field in e.fields)
      && (field in r.fields ==> r.fields[field] == if taken then overrides[key][field] else e.fields[field])
  {
    hide ItemKey;
    LastWithKeySound(section, events, ItemKey(section, events[i]), |events|);
  }

  /** One section of the labels under its overrides, taken in whatever order the dict gives. */
  method ApplyCorrections(section: string, events: seq<Event>, overrides: map<string, Fields>) returns (r: seq<Event>)
    ensures r == Corrected(section, events, overrides)
  {
    var index: map<string, int> := map[];
    for i := 0 to |events|
      invariant forall key :: (key in index <==> LastWithKey(section, events, key, i) >= 0)
      invariant forall key :: key in index ==> index[key] == LastWithKey(section, events, key, i)
    {
      index := index[ItemKey(section, events[i]) := i];
    }
    forall key ensures key in index ==> 0 <= index[key] < |events| && ItemKey(section, events[index[key]]) == key {
      LastWithKeySound(section, events, key, |events|);
    }
    r := events;
    var todo := overrides.Keys;
    while todo != {}
      invariant todo <= overrides.Keys && |r| == |events|
      invariant forall i :: 0 <= i < |events| ==>
        r[i] == if ItemKey(section, events[i]) in todo then events[i] else Applied(section, events, overrides, i)
      decreases todo
    {
      var key :| key in todo;
      if key in index {
        var i := index[key];
        r := r[i := r[i].(fields := r[i].fields + overrides[key])];
      }
      todo := todo - {key};
    }
  }

  // ---- verdicts after any sequence of posts -----------------------------------------

  ghost function MergeAll(c: Sections, posts: seq<Post>): Sections {
    if posts == [] then c else Merge(MergeAll(c, posts[..|posts| - 1]), posts[|posts| - 1])
  }

  /** The verdict of the last post to the item, if there was one. */
  ghost function LastVerdict(posts: seq<Post>, section: string, item: string): Option<string> {
    if posts == [] then None
    else
      var p := posts[|posts| - 1];
      if p.section == section && p.item == item then Some(p.verdict)
      else LastVerdict(posts[..|posts| - 1], section, item)
  }

  lemma {:induction false} MergedField(c: Sections, posts: seq<Post>, section: string, item: string)
    ensures var before, after := ItemOf(SectionOf(c, section), item),
                                ItemOf(SectionOf(MergeAll(c, posts), section), item);
      && after == (match LastVerdict(posts, section, item) case None => before case Some(v) => before[VERDICT := v])
      && (item in SectionOf(MergeAll(c, posts), section)
          <==> item in SectionOf(c, section) || LastVerdict(posts, section, item).Some?)
  {
    if posts != [] {
      MergedField(c, posts[..|posts| - 1], section, item);
    }
  }

  ghost predicate UniqueKeys(section: string, events: seq<Event>) {
    forall i, j :: 0 <= i < j < |events| ==> ItemKey(section, events[i]) != ItemKey(section, events[j])
  }

  /** After any sequence of posts, loading the labels shows at an event exactly the last
      verdict posted under its key, and changes nothing else, if it is the last event with
      that key; every other event is untouched. */
  lemma VerdictsLand(section: string, events: seq<Event>, c: Sections, posts: seq<Post>, i: nat)
    requires i < |events|
    ensures var key := ItemKey(section, events[i]);
            var without, with := Corrected(section, events, SectionOf(c, section))[i],
                                 Corrected(section, events, SectionOf(MergeAll(c, posts), section))[i];
      with == match LastVerdict(posts, section, key)
              case None => without
              case Some(v) => if LastWithKey(section, events, key, |events|) == i
                              then without.(fields := without.fields[VERDICT := v]) else events[i]
  {
    hide MergeAll, Merge, LastWithKey, ItemKey, LastVerdict;
    var key := ItemKey(section, events[i]);
    MergedField(c, posts, section, key);
    var before, after := SectionOf(c, section), SectionOf(MergeAll(c, posts), section);
    match LastVerdict(posts, section, key)
    case None => assert key in before <==> key in after;
    case Some(v) =>
      AddVerdict(events[i].fields, ItemOf(before, key), v);
      assert events[i].fields + map[] == events[i].fields;
  }

  /** With unique keys the verdict posted for an event lands on that event and on no other. */
  lemma VerdictLandsOnce(section: string, events: seq<Event>, c: Sections, posts: seq<Post>, dir: string,
                         verdict: string, i: nat, j: nat)
    requires section == GRASPS || section == PLACES
    requires verdict == "ok" || verdict == "wrong"
    requires i < |events| && j < |events| && UniqueKeys(section, events)
    requires section == PLACES ==> events[i].bag != ""
    ensures ParseRequest(dir, EventKey(section, events[i]), verdict).Some?
    ensures var p := ParseRequest(dir, EventKey(section, events[i]), verdict).value;
            var before, after := Corrected(section, events, SectionOf(MergeAll(c, posts), section)),
                                 Corrected(section, events, SectionOf(MergeAll(c, posts + [p]), section));
      after[j] == if i == j then before[j].(fields := before[j].fields[VERDICT := verdict]) else before[j]
  {
    hide ParseRequest, MergeAll, Merge, ItemKey, Applied, ItemOf;
    PrintedKeyIsFiled(dir, section, events[i], verdict);
    var p := Post(dir, section, ItemKey(section, events[i]), verdict);
    MergedStep(c, posts, p, section, ItemKey(section, events[j]));
    var before, after := SectionOf(MergeAll(c, posts), section), SectionOf(MergeAll(c, posts + [p]), section);
    AppliedChange(section, events, before, after, j, p.item, verdict);
  }

  /** One more override changes the event it is filed under, and no event with another key. */
  lemma AppliedChange(section: string, events: seq<Event>, before: map<string, Fields>, after: map<string, Fields>,
                      j: nat, item: string, verdict: string)
    requires j < |events| && UniqueKeys(section, events)
    requires var key := ItemKey(section, events[j]);
      if key == item then key in after && after[key] == ItemOf(before, key)[VERDICT := verdict]
      else (key in after <==> key in before) && (key in after ==> after[key] == before[key])
    ensures var was, now := Applied(section, events, before, j), Applied(section, events, after, j);
      now == if ItemKey(section, events[j]) == item then was.(fields := was.fields[VERDICT := verdict]) else was
  {
    hide LastWithKey, ItemKey;
    var key := ItemKey(section, events[j]);
    LastWithKeySound(section, events, key, |events|);
    AddVerdict(events[j].fields, ItemOf(before, key), verdict);
    assert events[j].fields + map[] == events[j].fields;
  }

  lemma AddVerdict(fields: Fields, overrides: Fields, v: string)
    ensures fields + overrides[VERDICT := v] == (fields + overrides)[VERDICT := v]
  {
  }

  lemma MergedStep(c: Sections, posts: seq<Post>, p: Post, section: string, item: string)
    ensures var before, after := SectionOf(MergeAll(c, posts), section), SectionOf(MergeAll(c, posts + [p]), section);
      if p.section == section && p.item == item
      then item in after && after[item] == ItemOf(before, item)[VERDICT := p.verdict]
      else (item in after <==> item in before) && (item in after ==> after[item] == before[item])
  {
    assert (posts + [p])[..|posts|] == posts;
  }

  /** With a key that two events share, the earlier one never shows a verdict. */
  lemma SharedKeyHidesEarlier(section: string, events: seq<Event>, c: Sections, i: nat, j: nat)
    requires i < j < |events| && ItemKey(section, events[i]) == ItemKey(section, events[j])
    ensures Corrected(section, events, SectionOf(c, section))[i] == events[i]
  {
    LastWithKeySound(section, events, ItemKey(section, events[i]), |events|);
  }
}

/** scripts/linux_test_plan.py: the exact partition of the collected tests into lanes. */
module TestPartition {
  import opened Basics
  import opened Text

  datatype PartitionError = DuplicateIds | EmptyLane | DuplicateOwner | Incomplete

  /** One lane's selection: the node identifiers its digests are computed from. */
  datatype Selection = Selection(count: nat, nodeids: seq<string>)

  datatype Evidence = Evidence(selectedCount: nat, selections: seq<Selection>)

  datatype Test = Test(nodeid: string, path: string, markers: set<string>, fixtures: set<string>)

  /** The tests a lane selects. */
  type Lane = Test -> bool

  predicate UniqueIds(items: seq<Test>) {
    forall i, j | 0 <= i < j < |items| :: items[i].nodeid != items[j].nodeid
  }

  function Filter(items: seq<Test>, lane: Lane): seq<Test> {
    if items == [] then []
    else Filter(items[..|items| - 1], lane) + if lane(items[|items| - 1]) then [items[|items| - 1]] else []
  }

  function Ids(items: seq<Test>): (ids: seq<string>)
    ensures |ids| == |items| && forall i | 0 <= i < |items| :: ids[i] == items[i].nodeid
  {
    if items == [] then [] else Ids(items[..|items| - 1]) + [items[|items| - 1].nodeid]
  }

  predicate InSome(item: Test, lanes: seq<Lane>) {
    exists k | 0 <= k < |lanes| :: lanes[k](item)
  }

  ghost predicate AtMostOne(item: Test, lanes: seq<Lane>) {
    forall k, l | 0 <= k < l < |lanes| :: !(lanes[k](item) && lanes[l](item))
  }

  ghost predicate Disjoint(items: seq<Test>, lanes: seq<Lane>) {
    forall i | 0 <= i < |items| :: AtMostOne(items[i], lanes)
  }

  ghost predicate Nonempty(items: seq<Test>, lane: Lane) {
    exists i | 0 <= i < |items| :: lane(items[i])
  }

  ghost predicate Covers(items: seq<Test>, lanes: seq<Lane>, reference: Lane) {
    forall i | 0 <= i < |items| :: InSome(items[i], lanes) <==> reference(items[i])
  }

  /** The lanes divide the reference selection: none is empty, no test is in two, and
      a test is in the selection exactly when it is in some lane. */
  ghost predicate Partitions(items: seq<Test>, lanes: seq<Lane>, reference: Lane) {
    && (forall k | 0 <= k < |lanes| :: Nonempty(items, lanes[k]))
    && Disjoint(items, lanes) && Covers(items, lanes, reference)
  }

  // ----- filtering -----

  lemma {:induction false} FilterFrom(items: seq<Test>, lane: Lane, j: nat) returns (i: nat)
    requires j < |Filter(items, lane)|
    ensures i < |items| && items[i] == Filter(items, lane)[j] && lane(items[i])
  {
    var init := items[..|items| - 1];
    if j < |Filter(init, lane)| { i := FilterFrom(init, lane, j); } else { i := |items| - 1; }
  }

  lemma {:induction false} FilterTo(items: seq<Test>, lane: Lane, i: nat) returns (j: nat)
    requires i < |items| && lane(items[i])
    ensures j < |Filter(items, lane)| && Filter(items, lane)[j] == items[i]
  {
    var init := items[..|items| - 1];
    if i < |init| { j := FilterTo(init, lane, i); } else { j := |Filter(init, lane)|; }
  }

  lemma {:induction false} FilterUnique(items: seq<Test>, lane: Lane)
    requires UniqueIds(items)
    ensures UniqueIds(Filter(items, lane))
  {
    if items != [] {
      var init := items[..|items| - 1];
      var kept := Filter(init, lane);
      FilterUnique(init, lane);
      forall i | 0 <= i < |kept| ensures kept[i].nodeid != items[|items| - 1].nodeid {
        var j := FilterFrom(init, lane, i);
        assert items[j] == kept[i];
      }
    }
  }

  /** With unique identifiers, an identifier is selected exactly with its test. */
  lemma SelectedIds(items: seq<Test>, lane: Lane, i: nat)
    requires UniqueIds(items) && i < |items|
    ensures (exists j | 0 <= j < |Filter(items, lane)| :: Filter(items, lane)[j].nodeid == items[i].nodeid) <==> lane(items[i])
  {
    var selected := Filter(items, lane);
    if lane(items[i]) {
      var j := FilterTo(items, lane, i);
      assert selected[j].nodeid == items[i].nodeid;
    }
    forall j | 0 <= j < |selected| && selected[j].nodeid == items[i].nodeid ensures lane(items[i]) {
      var k := FilterFrom(items, lane, j);
      assert items[k].nodeid == items[i].nodeid;
    }
  }

  // ----- conservation -----

  function TotalCount(items: seq<Test>, lanes: seq<Lane>): nat {
    if lanes == [] then 0 else TotalCount(items, lanes[..|lanes| - 1]) + |Filter(items, lanes[|lanes| - 1])|
  }

  function OwnersOf(item: Test, lanes: seq<Lane>): nat {
    if lanes == [] then 0 else OwnersOf(item, lanes[..|lanes| - 1]) + if lanes[|lanes| - 1](item) then 1 else 0
  }

  lemma {:induction false} TotalAddsItem(items: seq<Test>, item: Test, lanes: seq<Lane>)
    ensures TotalCount(items + [item], lanes) == TotalCount(items, lanes) + OwnersOf(item, lanes)
  {
    if lanes != [] {
      TotalAddsItem(items, item, lanes[..|lanes| - 1]);
      assert (items + [item])[..|items|] == items;
    }
  }

  lemma {:induction false} TotalOfNone(lanes: seq<Lane>)
    ensures TotalCount([], lanes) == 0
  {
    if lanes != [] { TotalOfNone(lanes[..|lanes| - 1]); }
  }

  lemma InSomeAppend(item: Test, lanes: seq<Lane>, lane: Lane)
    ensures InSome(item, lanes + [lane]) <==> InSome(item, lanes) || lane(item)
  {
    var more := lanes + [lane];
    if InSome(item, lanes) {
      var k :| 0 <= k < |lanes| && lanes[k](item);
      assert more[k](item);
    }
    if lane(item) { assert more[|lanes|](item); }
  }

  lemma {:induction false} OneOwner(item: Test, lanes: seq<Lane>)
    requires AtMostOne(item, lanes)
    ensures OwnersOf(item, lanes) == if InSome(item, lanes) then 1 else 0
  {
    if lanes != [] {
      var init, last := lanes[..|lanes| - 1], lanes[|lanes| - 1];
      OneOwner(item, init);
      InSomeAppend(item, init, last);
      assert lanes == init + [last];
      assert InSome(item, init) ==> !last(item);
    }
  }

  /** In a partition the lane sizes add up to the size of the selection. */
  lemma {:induction false} CountsAddUp(items: seq<Test>, lanes: seq<Lane>, reference: Lane)
    requires Disjoint(items, lanes) && Covers(items, lanes, reference)
    ensures TotalCount(items, lanes) == |Filter(items, reference)|
  {
    if items == [] {
      TotalOfNone(lanes);
    } else {
      var init, last := items[..|items| - 1], items[|items| - 1];
      CountsAddUp(init, lanes, reference);
      TotalAddsItem(init, last, lanes);
      OneOwner(last, lanes);
      assert items == init + [last];
    }
  }

  // ----- identifiers -----

  /** `ids` are exactly the identifiers of the tests. */
  ghost predicate IdSet(ids: set<string>, items: seq<Test>) {
    forall id :: id in ids <==> exists i | 0 <= i < |items| :: items[i].nodeid == id
  }

  lemma {:induction false} IdSetSize(ids: set<string>, items: seq<Test>)
    requires UniqueIds(items) && IdSet(ids, items)
    ensures |ids| == |items|
  {
    if items == [] {
      assert ids == {};
    } else {
      var last := items[|items| - 1];
      assert last.nodeid in ids;
      IdSetSize(ids - {last.nodeid}, items[..|items| - 1]);
    }
  }

  lemma UniqueAppend(items: seq<Test>, item: Test)
    ensures UniqueIds(items + [item]) <==> UniqueIds(items) && forall i | 0 <= i < |items| :: items[i].nodeid != item.nodeid
  {
    var more := items + [item];
    if UniqueIds(more) {
      forall i, j | 0 <= i < j < |items| ensures items[i].nodeid != items[j].nodeid {
        assert more[i] == items[i] && more[j] == items[j];
      }
      forall i | 0 <= i < |items| ensures items[i].nodeid != item.nodeid { assert more[i].nodeid != more[|items|].nodeid; }
    }
  }

  method RequireUnique(items: seq<Test>) returns (unique: bool)
    ensures unique <==> UniqueIds(items)
  {
    var seen: set<string> := {};
    unique := true;
    for i := 0 to |items|
      invariant IdSet(seen, items[..i])
      invariant unique <==> UniqueIds(items[..i])
    {
      assert items[..i + 1] == items[..i] + [items[i]];
      UniqueAppend(items[..i], items[i]);
      if items[i].nodeid in seen { unique := false; }
      seen := seen + {items[i].nodeid};
    }
    assert items[..|items|] == items;
  }

  method Select(items: seq<Test>, lane: Lane) returns (selected: seq<Test>)
    ensures selected == Filter(items, lane)
  {
    selected := [];
    for i := 0 to |items|
      invariant selected == Filter(items[..i], lane)
    {
      assert items[..i + 1][..i] == items[..i];
      if lane(items[i]) { selected := selected + [items[i]]; }
    }
    assert items[..|items|] == items;
  }

  // ----- owners -----

  /** The owners so far are the tests of the lanes so far. */
  ghost predicate Owns(owned: map<string, nat>, items: seq<Test>, lanes: seq<Lane>) {
    && (forall id | id in owned :: exists i | 0 <= i < |items| :: items[i].nodeid == id)
    && (forall i | 0 <= i < |items| :: items[i].nodeid in owned <==> InSome(items[i], lanes))
  }

  /** None of the selected tests has an owner. */
  ghost predicate Free(selected: seq<Test>, owned: map<string, nat>) {
    forall i | 0 <= i < |selected| :: selected[i].nodeid !in owned
  }

  /** The owners are those of before and the selected tests. */
  ghost predicate Claims(before: map<string, nat>, selected: seq<Test>, owned: map<string, nat>) {
    forall id :: id in owned <==> id in before || exists i | 0 <= i < |selected| :: selected[i].nodeid == id
  }

  /** One lane takes its tests; it fails at a test that has an owner already. */
  method Claim(selected: seq<Test>, lane: nat, before: map<string, nat>) returns (ok: bool, owned: map<string, nat>)
    requires UniqueIds(selected)
    ensures ok <==> Free(selected, before)
    ensures ok ==> Claims(before, selected, owned)
  {
    owned := before;
    for j := 0 to |selected|
      invariant forall i | 0 <= i < j :: selected[i].nodeid !in before
      invariant forall id :: id in owned <==> id in before || exists i | 0 <= i < j :: selected[i].nodeid == id
    {
      if selected[j].nodeid in owned { return false, owned; }
      owned := owned[selected[j].nodeid := lane];
    }
    ok := true;
  }

  lemma OwnsExtend(items: seq<Test>, lanes: seq<Lane>, lane: Lane, before: map<string, nat>, owned: map<string, nat>)
    requires UniqueIds(items) && Owns(before, items, lanes) && Claims(before, Filter(items, lane), owned)
    ensures Owns(owned, items, lanes + [lane])
  {
    var selected := Filter(items, lane);
    forall id | id in owned ensures exists i | 0 <= i < |items| :: items[i].nodeid == id {
      if id !in before {
        var j :| 0 <= j < |selected| && selected[j].nodeid == id;
        var k := FilterFrom(items, lane, j);
        assert items[k].nodeid == id;
      }
    }
    forall i | 0 <= i < |items| ensures items[i].nodeid in owned <==> InSome(items[i], lanes + [lane]) {
      SelectedIds(items, lane, i);
      InSomeAppend(items[i], lanes, lane);
    }
  }

  lemma AtMostOneAppend(item: Test, lanes: seq<Lane>, lane: Lane)
    ensures AtMostOne(item, lanes + [lane]) <==> AtMostOne(item, lanes) && !(lane(item) && InSome(item, lanes))
  {
    var more := lanes + [lane];
    if AtMostOne(item, more) {
      forall k, l | 0 <= k < l < |lanes| ensures !(lanes[k](item) && lanes[l](item)) {
        assert !(more[k](item) && more[l](item));
      }
      forall k | 0 <= k < |lanes| ensures !(lanes[k](item) && lane(item)) {
        assert !(more[k](item) && more[|lanes|](item));
      }
    }
  }

  lemma DisjointAppend(items: seq<Test>, lanes: seq<Lane>, lane: Lane)
    ensures Disjoint(items, lanes + [lane])
       <==> Disjoint(items, lanes) && forall i | 0 <= i < |items| && lane(items[i]) :: !InSome(items[i], lanes)
  {
    forall i | 0 <= i < |items|
      ensures AtMostOne(items[i], lanes + [lane]) <==> AtMostOne(items[i], lanes) && !(lane(items[i]) && InSome(items[i], lanes))
    {
      AtMostOneAppend(items[i], lanes, lane);
    }
  }

  /** A lane finds all its tests free exactly when it is disjoint from the lanes
      before it. */
  lemma FreeIsDisjoint(items: seq<Test>, lanes: seq<Lane>, lane: Lane, owned: map<string, nat>)
    requires Owns(owned, items, lanes) && Disjoint(items, lanes)
    ensures Free(Filter(items, lane), owned) <==> Disjoint(items, lanes + [lane])
  {
    var selected := Filter(items, lane);
    DisjointAppend(items, lanes, lane);
    if Free(selected, owned) {
      forall i | 0 <= i < |items| && lane(items[i]) ensures !InSome(items[i], lanes) {
        var j := FilterTo(items, lane, i);
        assert selected[j].nodeid !in owned;
      }
    }
    if Disjoint(items, lanes + [lane]) {
      forall j | 0 <= j < |selected| ensures selected[j].nodeid !in owned {
        var i := FilterFrom(items, lane, j);
        assert items[i].nodeid in owned <==> InSome(items[i], lanes);
      }
    }
  }

  lemma DisjointPrefix(items: seq<Test>, lanes: seq<Lane>, n: nat)
    requires n <= |lanes|
    ensures Disjoint(items, lanes) ==> Disjoint(items, lanes[..n])
  {
    if Disjoint(items, lanes) {
      forall i | 0 <= i < |items| ensures AtMostOne(items[i], lanes[..n]) { assert AtMostOne(items[i], lanes); }
    }
  }

  lemma EmptySelection(items: seq<Test>, lane: Lane)
    ensures Filter(items, lane) == [] <==> !Nonempty(items, lane)
  {
    if Nonempty(items, lane) {
      var i :| 0 <= i < |items| && lane(items[i]);
      var j := FilterTo(items, lane, i);
    }
    if Filter(items, lane) != [] {
      var i := FilterFrom(items, lane, 0);
    }
  }

  lemma OwnedIsExpected(items: seq<Test>, lanes: seq<Lane>, reference: Lane, owned: map<string, nat>, expected: set<string>)
    requires UniqueIds(items) && Owns(owned, items, lanes) && IdSet(expected, Filter(items, reference))
    ensures owned.Keys == expected <==> Covers(items, lanes, reference)
  {
    var tests := Filter(items, reference);
    forall i | 0 <= i < |items| ensures items[i].nodeid in expected <==> reference(items[i]) {
      SelectedIds(items, reference, i);
    }
    forall id | id in expected ensures exists i | 0 <= i < |items| :: items[i].nodeid == id {
      var j :| 0 <= j < |tests| && tests[j].nodeid == id;
      var k := FilterFrom(items, reference, j);
      assert items[k].nodeid == id;
    }
    KeysAreExpected(items, lanes, reference, owned, expected);
  }

  lemma KeysAreExpected(items: seq<Test>, lanes: seq<Lane>, reference: Lane, owned: map<string, nat>, expected: set<string>)
    requires Owns(owned, items, lanes)
    requires forall i | 0 <= i < |items| :: items[i].nodeid in expected <==> reference(items[i])
    requires forall id | id in expected :: exists i | 0 <= i < |items| :: items[i].nodeid == id
    ensures owned.Keys == expected <==> Covers(items, lanes, reference)
  {
    if Covers(items, lanes, reference) {
      forall id ensures id in owned <==> id in expected {
        if id in owned || id in expected {
          var i :| 0 <= i < |items| && items[i].nodeid == id;
        }
      }
    } else {
      var i :| 0 <= i < |items| && InSome(items[i], lanes) != reference(items[i]);
      assert (items[i].nodeid in owned.Keys) != (items[i].nodeid in expected);
    }
  }

  // ----- the evidence -----

  ghost predicate Recorded(selections: seq<Selection>, items: seq<Test>, lanes: seq<Lane>) {
    && |selections| == |lanes|
    && forall k | 0 <= k < |lanes| ::
         selections[k] == Selection(|Filter(items, lanes[k])|, Ids(Filter(items, lanes[k])))
  }

  /** The lanes so far are nonempty, disjoint and the owners of their tests. */
  ghost predicate Taken(items: seq<Test>, lanes: seq<Lane>, owned: map<string, nat>) {
    Owns(owned, items, lanes) && Disjoint(items, lanes) && forall k | 0 <= k < |lanes| :: Nonempty(items, lanes[k])
  }

  /** What one lane's turn means for the partition. */
  lemma LaneStep(items: seq<Test>, lanes: seq<Lane>, lane: Lane, before: map<string, nat>, ok: bool, owned: map<string, nat>)
    requires UniqueIds(items) && Taken(items, lanes, before) && Nonempty(items, lane)
    requires ok <==> Free(Filter(items, lane), before)
    requires ok ==> Claims(before, Filter(items, lane), owned)
    ensures if ok then Taken(items, lanes + [lane], owned) else !Disjoint(items, lanes + [lane])
  {
    FreeIsDisjoint(items, lanes, lane, before);
    if ok { OwnsExtend(items, lanes, lane, before, owned); }
  }

  /** Taken, to be looked into where it is used only. */
  ghost predicate Settled(items: seq<Test>, lanes: seq<Lane>, owned: map<string, nat>) {
    forall taken | Same(taken, lanes) :: Taken(items, taken, owned)
  }

  /** Some lane is empty, or two share a test. */
  ghost predicate Refused(items: seq<Test>, lanes: seq<Lane>) {
    !Disjoint(items, lanes) || exists k | 0 <= k < |lanes| :: !Nonempty(items, lanes[k])
  }

  lemma SettledMore(items: seq<Test>, lanes: seq<Lane>, lane: Lane, before: map<string, nat>, ok: bool, owned: map<string, nat>)
    requires UniqueIds(items) && Settled(items, lanes, before) && Nonempty(items, lane)
    requires ok <==> Free(Filter(items, lane), before)
    requires ok ==> Claims(before, Filter(items, lane), owned)
    ensures if ok then Settled(items, lanes + [lane], owned) else !Disjoint(items, lanes + [lane])
  {
    assert Same(lanes, lanes);
    LaneStep(items, lanes, lane, before, ok, owned);
  }

  lemma PrefixGrows(lanes: seq<Lane>, k: nat)
    requires k < |lanes|
    ensures lanes[..k + 1] == lanes[..k] + [lanes[k]]
  {
  }

  /** The same over the lanes in order. */
  lemma SettledStep(items: seq<Test>, lanes: seq<Lane>, k: nat, before: map<string, nat>, ok: bool, owned: map<string, nat>)
    requires UniqueIds(items) && k < |lanes| && Settled(items, lanes[..k], before) && Nonempty(items, lanes[k])
    requires ok <==> Free(Filter(items, lanes[k]), before)
    requires ok ==> Claims(before, Filter(items, lanes[k]), owned)
    ensures if ok then Settled(items, lanes[..k + 1], owned) else Refused(items, lanes)
  {
    PrefixGrows(lanes, k);
    SettledMore(items, lanes[..k], lanes[k], before, ok, owned);
    if !ok { DisjointPrefix(items, lanes, k + 1); }
  }

  method TakeLane(items: seq<Test>, lanes: seq<Lane>, k: nat, before: map<string, nat>)
    returns (r: Result<Selection, PartitionError>, owned: map<string, nat>)
    requires UniqueIds(items) && k < |lanes| && Settled(items, lanes[..k], before)
    ensures r.Success? ==> Settled(items, lanes[..k + 1], owned)
    ensures r.Success? ==> r.value == Selection(|Filter(items, lanes[k])|, Ids(Filter(items, lanes[k])))
    ensures r.Failure? ==> r.error in {EmptyLane, DuplicateOwner} && Refused(items, lanes)
  {
    var selected := Select(items, lanes[k]);
    EmptySelection(items, lanes[k]);
    if selected == [] { return Failure(EmptyLane), before; }
    FilterUnique(items, lanes[k]);
    var ok;
    ok, owned := Claim(selected, k, before);
    SettledStep(items, lanes, k, before, ok, owned);
    if !ok { return Failure(DuplicateOwner), before; }
    r := Success(Selection(|selected|, Ids(selected)));
  }

  lemma NothingTaken(items: seq<Test>)
    ensures Settled(items, [], map[])
  {
  }

  method TakeLanes(items: seq<Test>, lanes: seq<Lane>) returns (r: Result<seq<Selection>, PartitionError>, owned: map<string, nat>)
    requires UniqueIds(items)
    ensures r.Success? ==> Settled(items, lanes, owned) && Recorded(r.value, items, lanes)
    ensures r.Failure? ==> r.error in {EmptyLane, DuplicateOwner} && Refused(items, lanes)
  {
    owned := map[];
    NothingTaken(items);
    assert lanes[..0] == [];
    var selections := [];
    for k := 0 to |lanes|
      invariant |selections| == k && Settled(items, lanes[..k], owned)
      invariant forall l | 0 <= l < k :: selections[l] == Selection(|Filter(items, lanes[l])|, Ids(Filter(items, lanes[l])))
    {
      var selection, more := TakeLane(items, lanes, k, owned);
      if selection.Failure? { return Failure(selection.error), owned; }
      owned := more;
      selections := selections + [selection.value];
    }
    assert lanes[..|lanes|] == lanes;
    r := Success(selections);
  }

  /** The partition is accepted exactly when the identifiers are unique and the lanes
      divide the reference selection; then it records every lane's selection. */
  method PartitionEvidence(items: seq<Test>, lanes: seq<Lane>, reference: Lane) returns (r: Result<Evidence, PartitionError>)
    ensures r.Success? <==> UniqueIds(items) && Partitions(items, lanes, reference)
    ensures r.Success? ==>
              && r.value.selectedCount == |Filter(items, reference)| == TotalCount(items, lanes)
              && Recorded(r.value.selections, items, lanes)
    ensures r == Failure(DuplicateIds) <==> !UniqueIds(items)
    ensures r == Failure(Incomplete) <==> UniqueIds(items) && !Refused(items, lanes) && !Covers(items, lanes, reference)
  {
    var unique := RequireUnique(items);
    if !unique { return Failure(DuplicateIds); }
    var tests := Select(items, reference);
    var expected := set i | 0 <= i < |tests| :: tests[i].nodeid;
    var selections, owned := TakeLanes(items, lanes);
    if selections.Failure? { return Failure(selections.error); }
    assert Same(lanes, lanes);
    if owned.Keys != expected {
      OwnedIsExpected(items, lanes, reference, owned, expected);
      return Failure(Incomplete);
    }
    EvidenceHolds(items, lanes, reference, owned, tests, expected);
    r := Success(Evidence(|expected|, selections.value));
  }

  lemma EvidenceHolds(items: seq<Test>, lanes: seq<Lane>, reference: Lane, owned: map<string, nat>, tests: seq<Test>, expected: set<string>)
    requires UniqueIds(items) && Taken(items, lanes, owned) && owned.Keys == expected
    requires tests == Filter(items, reference) && IdSet(expected, tests)
    ensures Partitions(items, lanes, reference) && |expected| == |tests| == TotalCount(items, lanes)
  {
    OwnedIsExpected(items, lanes, reference, owned, expected);
    CountsAddUp(items, lanes, reference);
    FilterUnique(items, reference);
    IdSetSize(expected, tests);
  }
}

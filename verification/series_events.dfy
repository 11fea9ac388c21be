/** The series events `onPostUpdated` emits: additions, removals, and one combined event per owner who gets both. */
module SeriesEvents {
  import opened Ids
  import opened Lists

  type SeriesId = nat

  /** A series as the updated post carries it. */
  datatype Series = Series(id: SeriesId, owner: UserId)

  datatype Item = Item(id: SeriesId, owner: UserId, added: bool)

  datatype Event =
    | ItemsChanged(series: seq<Item>)
    | ItemsAdded(seriesId: SeriesId, skipNotify: bool)
    | ItemsRemoved(seriesId: SeriesId, skipNotify: bool)

  function IdsOf(series: seq<Series>): (ids: seq<SeriesId>)
    ensures |ids| == |series| && forall i :: 0 <= i < |ids| ==> ids[i] == series[i].id
  {
    seq(|series|, i requires 0 <= i < |series| => series[i].id)
  }

  /** The items of `a` whose id is not in `ids`, marked as added or removed. */
  function ItemsNotIn(a: seq<Series>, ids: seq<SeriesId>, added: bool): (items: seq<Item>)
    ensures forall x :: x in items <==> x.added == added && Series(x.id, x.owner) in a && x.id !in ids
  {
    if a == [] then []
    else
      assert forall s :: s in a <==> s == a[0] || s in a[1..];
      var rest := ItemsNotIn(a[1..], ids, added);
      if a[0].id in ids then rest else [Item(a[0].id, a[0].owner, added)] + rest
  }

  // ---------- grouping by owner ----------

  function OwnedBy(items: seq<Item>, owner: UserId): (r: seq<Item>)
    ensures forall x :: x in r <==> x in items && x.owner == owner
  {
    if items == [] then []
    else
      var init, last := items[..|items| - 1], items[|items| - 1];
      assert items == init + [last];
      if last.owner == owner then OwnedBy(init, owner) + [last] else OwnedBy(init, owner)
  }

  /** Owners in the order a `Map` keyed by owner is iterated: first appearance. */
  function Owners(items: seq<Item>): (owners: seq<UserId>)
    ensures Distinct(owners)
    ensures forall o :: o in owners <==> exists x :: x in items && x.owner == o
  {
    if items == [] then []
    else
      var init, last := items[..|items| - 1], items[|items| - 1];
      assert items == init + [last];
      var owners := Owners(init);
      if last.owner in owners then owners else owners + [last.owner]
  }

  predicate HasBoth(items: seq<Item>, owner: UserId) {
    (exists x :: x in items && x.owner == owner && x.added) && (exists x :: x in items && x.owner == owner && !x.added)
  }

  /** Ids of the owner's items of one kind. */
  function IdsOfKind(items: seq<Item>, added: bool): (ids: seq<SeriesId>)
    ensures forall id :: id in ids <==> exists x :: x in items && x.id == id && x.added == added
  {
    if items == [] then []
    else
      assert forall x :: x in items <==> x == items[0] || x in items[1..];
      var rest := IdsOfKind(items[1..], added);
      if items[0].added == added then [items[0].id] + rest else rest
  }

  datatype Grouping = Grouping(same: seq<seq<Item>>, skipNew: seq<SeriesId>, skipRemoved: seq<SeriesId>)

  /** One pass over the owners: keep the lists with both kinds; the skip lists are overwritten each time. */
  function GroupBy(items: seq<Item>, owners: seq<UserId>): Grouping {
    if owners == [] then Grouping([], [], [])
    else
      var init, last := owners[..|owners| - 1], owners[|owners| - 1];
      var g, mine := GroupBy(items, init), OwnedBy(items, last);
      if HasBoth(items, last)
      then Grouping(g.same + [mine], IdsOfKind(mine, true), IdsOfKind(mine, false))
      else g
  }

  function Diff(oldSeries: seq<Series>, newSeries: seq<Series>): seq<Item> {
    ItemsNotIn(newSeries, IdsOf(oldSeries), true) + ItemsNotIn(oldSeries, IdsOf(newSeries), false)
  }

  /** Nothing is grouped unless there are both additions and removals. */
  function GroupingOf(oldSeries: seq<Series>, newSeries: seq<Series>): Grouping {
    var added, removed := ItemsNotIn(newSeries, IdsOf(oldSeries), true), ItemsNotIn(oldSeries, IdsOf(newSeries), false);
    if added == [] || removed == [] then Grouping([], [], [])
    else GroupBy(added + removed, Owners(added + removed))
  }

  function ChangedEvents(g: Grouping, hidden: bool): seq<Event> {
    if hidden then [] else seq(|g.same|, i requires 0 <= i < |g.same| => ItemsChanged(g.same[i]))
  }

  function AddedEvents(ids: seq<SeriesId>, skip: seq<SeriesId>, hidden: bool): seq<Event> {
    seq(|ids|, i requires 0 <= i < |ids| => ItemsAdded(ids[i], ids[i] in skip || hidden))
  }

  function RemovedEvents(ids: seq<SeriesId>, skip: seq<SeriesId>, hidden: bool): seq<Event> {
    seq(|ids|, i requires 0 <= i < |ids| => ItemsRemoved(ids[i], ids[i] in skip || hidden))
  }

  /** The three runs of events, one after the other. */
  function Batch(g: Grouping, newIds: seq<SeriesId>, oldIds: seq<SeriesId>, hidden: bool): seq<Event> {
    ChangedEvents(g, hidden) + AddedEvents(newIds, g.skipNew, hidden) + RemovedEvents(oldIds, g.skipRemoved, hidden)
  }

  /** Everything emitted for one update of a published post. */
  function Emitted(oldSeries: seq<Series>, newSeries: seq<Series>, hidden: bool): seq<Event> {
    var g := GroupingOf(oldSeries, newSeries);
    Batch(g, Difference(IdsOf(newSeries), IdsOf(oldSeries)), Difference(IdsOf(oldSeries), IdsOf(newSeries)), hidden)
  }

  /** The event part of `onPostUpdated` for a published post. */
  method OnPostUpdated(oldSeries: seq<Series>, newSeries: seq<Series>, isHidden: bool) returns (events: seq<Event>)
    ensures events == Emitted(oldSeries, newSeries, isHidden)
  {
    var seriesIds, oldSeriesIds := IdsOf(newSeries), IdsOf(oldSeries);
    var removeSeriesWithState := ItemsNotIn(oldSeries, seriesIds, false);
    var newSeriesWithState := ItemsNotIn(newSeries, oldSeriesIds, true);
    var grouping := Grouping([], [], []);
    events := [];
    if |newSeriesWithState| > 0 && |removeSeriesWithState| > 0 {
      grouping := GroupSameOwner(newSeriesWithState + removeSeriesWithState);
      if |grouping.same| > 0 && !isHidden {
        for i := 0 to |grouping.same|
          invariant events == ChangedEvents(grouping, isHidden)[..i]
        {
          events := events + [ItemsChanged(grouping.same[i])];
        }
      }
    }
    assert grouping == GroupingOf(oldSeries, newSeries);
    assert events == ChangedEvents(grouping, isHidden);
    var newSeriesIds, seriesIdsDeleted := Difference(seriesIds, oldSeriesIds), Difference(oldSeriesIds, seriesIds);
    events := events + AddedEvents(newSeriesIds, grouping.skipNew, isHidden);
    events := events + RemovedEvents(seriesIdsDeleted, grouping.skipRemoved, isHidden);
  }

  /** The `Map` keyed by owner with its insertion order, filled item by item. */
  method CollectByOwner(items: seq<Item>) returns (order: seq<UserId>, result: map<UserId, seq<Item>>)
    ensures order == Owners(items)
    ensures forall o :: o in result <==> o in order
    ensures forall o :: o in result ==> result[o] == OwnedBy(items, o)
  {
    order, result := [], map[];
    for i := 0 to |items|
      invariant order == Owners(items[..i])
      invariant forall o :: o in result <==> o in order
      invariant forall o :: o in result ==> result[o] == OwnedBy(items[..i], o)
    {
      var key := items[i].owner;
      assert items[..i + 1][..i] == items[..i];
      if key !in result {
        NothingOwnedYet(items[..i], key);
        result := result[key := []];
        order := order + [key];
      }
      result := result[key := result[key] + [items[i]]];
    }
    assert items[..|items|] == items;
  }

  /** Group the items by owner, then one pass over the owners. */
  method GroupSameOwner(items: seq<Item>) returns (g: Grouping)
    ensures g == GroupBy(items, Owners(items))
  {
    var order, result := CollectByOwner(items);
    g := Grouping([], [], []);
    for i := 0 to |order|
      invariant g == GroupBy(items, order[..i])
    {
      var r := result[order[i]];
      assert order[..i + 1][..i] == order[..i];
      var newItem, removeItem := IdsOfKind(r, true), IdsOfKind(r, false);
      BothIff(items, order[i]);
      if |newItem| > 0 && |removeItem| > 0 {
        g := Grouping(g.same + [r], newItem, removeItem);
      }
    }
    assert order[..|order|] == order;
  }

  lemma NothingOwnedYet(items: seq<Item>, owner: UserId)
    ensures OwnedBy(items, owner) != [] ==> owner in Owners(items)
  {
    var r := OwnedBy(items, owner);
    if r != [] {
      assert r[0] in r;
    }
  }

  lemma BothIff(items: seq<Item>, owner: UserId)
    ensures var mine := OwnedBy(items, owner);
            HasBoth(items, owner) <==> IdsOfKind(mine, true) != [] && IdsOfKind(mine, false) != []
  {
    var mine := OwnedBy(items, owner);
    var a, b := IdsOfKind(mine, true), IdsOfKind(mine, false);
    if a != [] { assert a[0] in a; }
    if b != [] { assert b[0] in b; }
    if exists x :: x in items && x.owner == owner && x.added {
      var x :| x in items && x.owner == owner && x.added;
      assert x in mine && x.id in a;
    }
    if exists x :: x in items && x.owner == owner && !x.added {
      var x :| x in items && x.owner == owner && !x.added;
      assert x in mine && x.id in b;
    }
  }

  // ---------- the events are an exact diff ----------

  /** An id occurs in a list of events as an addition or a removal. */
  predicate Announces(events: seq<Event>, id: SeriesId, added: bool) {
    exists e :: e in events &&
      (if added then e.ItemsAdded? && e.seriesId == id else e.ItemsRemoved? && e.seriesId == id)
  }

  predicate Suppresses(events: seq<Event>, id: SeriesId, added: bool) {
    exists e :: e in events && if added then e == ItemsAdded(id, true) else e == ItemsRemoved(id, true)
  }

  /** Some combined event carries the item. */
  predicate Combines(events: seq<Event>, id: SeriesId, added: bool) {
    exists e :: e in events && e.ItemsChanged? && exists x :: x in e.series && x.id == id && x.added == added
  }

  /** Which run an event belongs to. */
  lemma BatchAt(g: Grouping, newIds: seq<SeriesId>, oldIds: seq<SeriesId>, hidden: bool, k: nat)
    requires k < |Batch(g, newIds, oldIds, hidden)|
    ensures var n, e := |ChangedEvents(g, hidden)|, Batch(g, newIds, oldIds, hidden)[k];
            && |Batch(g, newIds, oldIds, hidden)| == n + |newIds| + |oldIds|
            && (k < n ==> e.ItemsChanged?)
            && (n <= k < n + |newIds| ==> e.ItemsAdded? && e.seriesId == newIds[k - n])
            && (n + |newIds| <= k ==> e.ItemsRemoved? && e.seriesId == oldIds[k - n - |newIds|])
  {
  }

  lemma BatchAnnounces(g: Grouping, newIds: seq<SeriesId>, oldIds: seq<SeriesId>, hidden: bool, id: SeriesId)
    ensures Announces(Batch(g, newIds, oldIds, hidden), id, true) <==> id in newIds
    ensures Announces(Batch(g, newIds, oldIds, hidden), id, false) <==> id in oldIds
  {
    var events, n := Batch(g, newIds, oldIds, hidden), |ChangedEvents(g, hidden)|;
    forall k | 0 <= k < |events|
      ensures events[k].ItemsAdded? && events[k].seriesId == id ==> id in newIds
      ensures events[k].ItemsRemoved? && events[k].seriesId == id ==> id in oldIds
    {
      BatchAt(g, newIds, oldIds, hidden, k);
    }
    if id in newIds {
      var i :| 0 <= i < |newIds| && newIds[i] == id;
      BatchAt(g, newIds, oldIds, hidden, n + i);
      assert events[n + i] in events;
    }
    if id in oldIds {
      var i :| 0 <= i < |oldIds| && oldIds[i] == id;
      BatchAt(g, newIds, oldIds, hidden, n + |newIds| + i);
      assert events[n + |newIds| + i] in events;
    }
  }

  /** Added events are exactly new-minus-old, removed events exactly old-minus-new, each once, in their lists' order. */
  lemma EventsAreExactDiff(oldSeries: seq<Series>, newSeries: seq<Series>, hidden: bool)
    requires Distinct(IdsOf(oldSeries)) && Distinct(IdsOf(newSeries))
    ensures var events := Emitted(oldSeries, newSeries, hidden);
            && (forall id :: Announces(events, id, true) <==> id in IdsOf(newSeries) && id !in IdsOf(oldSeries))
            && (forall id :: Announces(events, id, false) <==> id in IdsOf(oldSeries) && id !in IdsOf(newSeries))
            && (forall i, j :: 0 <= i < j < |events| && !events[i].ItemsChanged? && !events[j].ItemsChanged? ==>
                  events[i].seriesId != events[j].seriesId)
  {
    var g := GroupingOf(oldSeries, newSeries);
    var newIds := Difference(IdsOf(newSeries), IdsOf(oldSeries));
    var oldIds := Difference(IdsOf(oldSeries), IdsOf(newSeries));
    var events := Batch(g, newIds, oldIds, hidden);
    forall id ensures Announces(events, id, true) <==> id in newIds
      ensures Announces(events, id, false) <==> id in oldIds
    {
      BatchAnnounces(g, newIds, oldIds, hidden, id);
    }
    forall i, j | 0 <= i < j < |events| && !events[i].ItemsChanged? && !events[j].ItemsChanged?
      ensures events[i].seriesId != events[j].seriesId
    {
      BatchAt(g, newIds, oldIds, hidden, i);
      BatchAt(g, newIds, oldIds, hidden, j);
      if events[i].ItemsAdded? && events[j].ItemsRemoved? {
        assert events[i].seriesId in newIds && events[j].seriesId in oldIds;
      }
    }
  }

  // ---------- combined events and suppression ----------

  /** The pass over the owners collects the lists of the owners with both kinds, and ends with the skip lists of
      one of them: the last. */
  lemma {:induction false} GroupByCollects(items: seq<Item>, owners: seq<UserId>)
    ensures var g := GroupBy(items, owners);
            && (forall l :: l in g.same <==> exists o :: o in owners && HasBoth(items, o) && l == OwnedBy(items, o))
            && ((exists o :: o in owners && HasBoth(items, o)) ==>
                  exists o :: o in owners && HasBoth(items, o) && g.skipNew == IdsOfKind(OwnedBy(items, o), true)
                              && g.skipRemoved == IdsOfKind(OwnedBy(items, o), false))
            && ((forall o :: o in owners ==> !HasBoth(items, o)) ==> g.skipNew == [] && g.skipRemoved == [])
    decreases |owners|
  {
    if owners != [] {
      var init, last := owners[..|owners| - 1], owners[|owners| - 1];
      GroupByCollects(items, init);
      assert forall o :: o in owners <==> o in init || o == last;
    }
  }

  // ---------- order and multiplicity of the combined events ----------

  function ItemIds(items: seq<Item>): seq<SeriesId> {
    seq(|items|, i requires 0 <= i < |items| => items[i].id)
  }

  lemma ItemIdsCons(x: Item, rest: seq<Item>)
    ensures ItemIds([x] + rest) == [x.id] + ItemIds(rest)
  {
  }

  /** The items of a kind are the ids of the difference, in its order and as often. */
  lemma {:induction false} ItemIdsAre(a: seq<Series>, ids: seq<SeriesId>, added: bool)
    ensures ItemIds(ItemsNotIn(a, ids, added)) == Difference(IdsOf(a), ids)
    decreases |a|
  {
    if a != [] {
      var rest := ItemsNotIn(a[1..], ids, added);
      ItemIdsAre(a[1..], ids, added);
      ItemIdsCons(Item(a[0].id, a[0].owner, added), rest);
      assert IdsOf(a) == [a[0].id] + IdsOf(a[1..]);
    }
  }

  lemma ItemsOnce(a: seq<Series>, ids: seq<SeriesId>, added: bool)
    requires Distinct(IdsOf(a))
    ensures Distinct(ItemsNotIn(a, ids, added))
  {
    var items := ItemsNotIn(a, ids, added);
    ItemIdsAre(a, ids, added);
    forall i, j | 0 <= i < j < |items| ensures items[i] != items[j] {
      assert ItemIds(items)[i] != ItemIds(items)[j];
    }
  }

  /** Owners are listed by their first items. */
  lemma {:induction false} OwnersAppear(items: seq<Item>, i: nat, j: nat)
    requires i < j < |Owners(items)|
    ensures exists k :: && 0 <= k < |items| && items[k].owner == Owners(items)[i]
                        && forall m :: 0 <= m <= k ==> items[m].owner != Owners(items)[j]
    decreases |items|
  {
    var init, last := items[..|items| - 1], items[|items| - 1];
    if j < |Owners(init)| {
      OwnersAppear(init, i, j);
      var k :| && 0 <= k < |init| && init[k].owner == Owners(init)[i]
               && forall m :: 0 <= m <= k ==> init[m].owner != Owners(init)[j];
      assert items[k] == init[k];
      assert forall m :: 0 <= m <= k ==> items[m] == init[m];
    } else {
      var o := Owners(init)[i];
      assert o in Owners(init) && last.owner !in Owners(init);
      var x :| x in init && x.owner == o;
      var k :| 0 <= k < |init| && init[k] == x;
      assert items[k] == x;
      assert forall m :: 0 <= m <= k ==> items[m] == init[m] && init[m] in init;
    }
  }

  lemma {:induction false} OwnedConcat(a: seq<Item>, b: seq<Item>, owner: UserId)
    ensures OwnedBy(a + b, owner) == OwnedBy(a, owner) + OwnedBy(b, owner)
    decreases |b|
  {
    if b == [] {
      assert a + b == a;
    } else {
      assert (a + b)[..|a + b| - 1] == a + b[..|b| - 1];
      OwnedConcat(a, b[..|b| - 1], owner);
    }
  }

  lemma {:induction false} OwnedOnce(items: seq<Item>, owner: UserId)
    requires Distinct(items)
    ensures Distinct(OwnedBy(items, owner))
    decreases |items|
  {
    if items != [] {
      var init, last := items[..|items| - 1], items[|items| - 1];
      OwnedOnce(init, owner);
      assert forall i :: 0 <= i < |init| ==> init[i] == items[i] && init[i] != last;
      assert last !in OwnedBy(init, owner);
    }
  }

  /** The owners with both kinds, in the order of their first items. */
  function MixedOwners(items: seq<Item>): seq<UserId> {
    Restrict(Owners(items), set o | o in Owners(items) && HasBoth(items, o))
  }

  ghost predicate GroupsOfMixed(items: seq<Item>, mixed: seq<UserId>, g: Grouping) {
    && |g.same| == |mixed| && (forall i :: 0 <= i < |mixed| ==> g.same[i] == OwnedBy(items, mixed[i]))
    && if mixed == [] then g.skipNew == [] && g.skipRemoved == []
       else var last := OwnedBy(items, mixed[|mixed| - 1]);
            g.skipNew == IdsOfKind(last, true) && g.skipRemoved == IdsOfKind(last, false)
  }

  lemma {:induction false} GroupByIs(items: seq<Item>, owners: seq<UserId>, both: set<UserId>)
    requires forall o :: o in owners ==> (o in both <==> HasBoth(items, o))
    ensures GroupsOfMixed(items, Restrict(owners, both), GroupBy(items, owners))
    decreases |owners|
  {
    if owners != [] {
      var init, last := owners[..|owners| - 1], owners[|owners| - 1];
      assert owners == init + [last];
      RestrictAppend(init, last, both);
      GroupByIs(items, init, both);
    }
  }

  lemma {:induction false} RestrictOnce(s: seq<UserId>, keep: set<UserId>)
    requires Distinct(s)
    ensures Distinct(Restrict(s, keep))
    decreases |s|
  {
    if s != [] {
      var init, last := s[..|s| - 1], s[|s| - 1];
      assert s == init + [last];
      RestrictAppend(init, last, keep);
      RestrictOnce(init, keep);
      assert forall i :: 0 <= i < |init| ==> init[i] == s[i] && init[i] != last;
    }
  }

  lemma DiffOnce(oldSeries: seq<Series>, newSeries: seq<Series>)
    requires Distinct(IdsOf(oldSeries)) && Distinct(IdsOf(newSeries))
    ensures Distinct(Diff(oldSeries, newSeries))
  {
    var added := ItemsNotIn(newSeries, IdsOf(oldSeries), true);
    var removed := ItemsNotIn(oldSeries, IdsOf(newSeries), false);
    var diff := added + removed;
    ItemsOnce(newSeries, IdsOf(oldSeries), true);
    ItemsOnce(oldSeries, IdsOf(newSeries), false);
    forall i, j | 0 <= i < j < |diff| ensures diff[i] != diff[j] {
      assert diff[i] == if i < |added| then added[i] else removed[i - |added|];
      assert diff[j] == if j < |added| then added[j] else removed[j - |added|];
      assert i < |added| <= j ==> added[i] in added && removed[j - |added|] in removed;
    }
  }

  /** The items of one owner, additions before removals. */
  lemma AddedFirst(oldSeries: seq<Series>, newSeries: seq<Series>, owner: UserId, i: nat, j: nat)
    requires i < j < |OwnedBy(Diff(oldSeries, newSeries), owner)|
    requires OwnedBy(Diff(oldSeries, newSeries), owner)[j].added
    ensures OwnedBy(Diff(oldSeries, newSeries), owner)[i].added
  {
    var added := ItemsNotIn(newSeries, IdsOf(oldSeries), true);
    var removed := ItemsNotIn(oldSeries, IdsOf(newSeries), false);
    OwnedConcat(added, removed, owner);
    var a, r := OwnedBy(added, owner), OwnedBy(removed, owner);
    assert forall k :: 0 <= k < |a| ==> a[k] in a;
    assert forall k :: 0 <= k < |r| ==> r[k] in r;
    assert forall k :: 0 <= k < |a + r| ==> ((a + r)[k].added <==> k < |a|);
  }

  /** The grouping of the diff is the grouping of its mixed owners, also when it is skipped for want of one kind. */
  lemma GroupingIs(oldSeries: seq<Series>, newSeries: seq<Series>)
    ensures var diff := Diff(oldSeries, newSeries);
            GroupsOfMixed(diff, MixedOwners(diff), GroupingOf(oldSeries, newSeries))
  {
    var diff := Diff(oldSeries, newSeries);
    var mixed := MixedOwners(diff);
    GroupByIs(diff, Owners(diff), set o | o in Owners(diff) && HasBoth(diff, o));
    BothNeedsBoth(oldSeries, newSeries);
    if mixed != [] {
      assert mixed[0] in mixed;
    } else {
      forall o | o in Owners(diff) ensures !HasBoth(diff, o) {
        assert o !in mixed;
      }
      NothingGrouped(diff, Owners(diff));
    }
  }

  lemma {:induction false} NothingGrouped(items: seq<Item>, owners: seq<UserId>)
    requires forall o :: o in owners ==> !HasBoth(items, o)
    ensures GroupBy(items, owners) == Grouping([], [], [])
    decreases |owners|
  {
    if owners != [] {
      var init := owners[..|owners| - 1];
      assert forall o :: o in init ==> o in owners;
      NothingGrouped(items, init);
    }
  }

  /** A visible post's events begin with one combined event per mixed owner, in the order of the owners' first items;
      it holds each of the owner's items once, and no later event is a combined one. */
  lemma CombinedOncePerOwner(oldSeries: seq<Series>, newSeries: seq<Series>)
    requires Distinct(IdsOf(oldSeries)) && Distinct(IdsOf(newSeries))
    ensures var events, diff := Emitted(oldSeries, newSeries, false), Diff(oldSeries, newSeries);
            var mixed := MixedOwners(diff);
            && Distinct(mixed) && (forall o :: o in mixed <==> HasBoth(diff, o))
            && |mixed| <= |events|
            && (forall i :: 0 <= i < |events| ==> (events[i].ItemsChanged? <==> i < |mixed|))
            && (forall i :: 0 <= i < |mixed| ==>
                  events[i] == ItemsChanged(OwnedBy(diff, mixed[i])) && Distinct(OwnedBy(diff, mixed[i])))
  {
    var diff, g := Diff(oldSeries, newSeries), GroupingOf(oldSeries, newSeries);
    var newIds := Difference(IdsOf(newSeries), IdsOf(oldSeries));
    var oldIds := Difference(IdsOf(oldSeries), IdsOf(newSeries));
    GroupingIs(oldSeries, newSeries);
    BothNeedsBoth(oldSeries, newSeries);
    RestrictOnce(Owners(diff), set o | o in Owners(diff) && HasBoth(diff, o));
    DiffOnce(oldSeries, newSeries);
    forall o ensures Distinct(OwnedBy(diff, o)) {
      OwnedOnce(diff, o);
    }
    forall i | 0 <= i < |Batch(g, newIds, oldIds, false)|
      ensures Batch(g, newIds, oldIds, false)[i].ItemsChanged? <==> i < |g.same|
    {
      BatchAt(g, newIds, oldIds, false, i);
    }
  }

  ghost predicate AtMostOneMixedOwner(items: seq<Item>) {
    forall o, p :: HasBoth(items, o) && HasBoth(items, p) ==> o == p
  }

  lemma InDiff(oldSeries: seq<Series>, newSeries: seq<Series>, x: Item)
    ensures x in Diff(oldSeries, newSeries) <==>
            if x.added then Series(x.id, x.owner) in newSeries && x.id !in IdsOf(oldSeries)
            else Series(x.id, x.owner) in oldSeries && x.id !in IdsOf(newSeries)
  {
  }

  lemma SameId(series: seq<Series>, a: Series, b: Series)
    requires Distinct(IdsOf(series)) && a in series && b in series && a.id == b.id
    ensures a == b
  {
    var i :| 0 <= i < |series| && series[i] == a;
    var j :| 0 <= j < |series| && series[j] == b;
    assert IdsOf(series)[i] == IdsOf(series)[j];
  }

  lemma DiffIds(oldSeries: seq<Series>, newSeries: seq<Series>, x: Item, y: Item)
    requires Distinct(IdsOf(oldSeries)) && Distinct(IdsOf(newSeries))
    requires x in Diff(oldSeries, newSeries) && y in Diff(oldSeries, newSeries) && x.id == y.id && x.added == y.added
    ensures x == y
  {
    InDiff(oldSeries, newSeries, x);
    InDiff(oldSeries, newSeries, y);
    SameId(if x.added then newSeries else oldSeries, Series(x.id, x.owner), Series(y.id, y.owner));
  }

  lemma InChanged(g: Grouping, hidden: bool, e: Event)
    ensures e in ChangedEvents(g, hidden) <==> !hidden && e.ItemsChanged? && e.series in g.same
  {
    var es := ChangedEvents(g, hidden);
    if !hidden && e.ItemsChanged? && e.series in g.same {
      var i :| 0 <= i < |g.same| && g.same[i] == e.series;
      assert es[i] == e;
    }
  }

  lemma InAdded(ids: seq<SeriesId>, skip: seq<SeriesId>, hidden: bool, e: Event)
    ensures e in AddedEvents(ids, skip, hidden)
            <==> e.ItemsAdded? && e.seriesId in ids && e.skipNotify == (e.seriesId in skip || hidden)
  {
    var es := AddedEvents(ids, skip, hidden);
    if e.ItemsAdded? && e.seriesId in ids && e.skipNotify == (e.seriesId in skip || hidden) {
      var i :| 0 <= i < |ids| && ids[i] == e.seriesId;
      assert es[i] == e;
    }
  }

  lemma InRemoved(ids: seq<SeriesId>, skip: seq<SeriesId>, hidden: bool, e: Event)
    ensures e in RemovedEvents(ids, skip, hidden)
            <==> e.ItemsRemoved? && e.seriesId in ids && e.skipNotify == (e.seriesId in skip || hidden)
  {
    var es := RemovedEvents(ids, skip, hidden);
    if e.ItemsRemoved? && e.seriesId in ids && e.skipNotify == (e.seriesId in skip || hidden) {
      var i :| 0 <= i < |ids| && ids[i] == e.seriesId;
      assert es[i] == e;
    }
  }

  /** Membership in the emitted list, kind by kind. */
  lemma InEmitted(oldSeries: seq<Series>, newSeries: seq<Series>, hidden: bool, e: Event)
    ensures var g := GroupingOf(oldSeries, newSeries);
            e in Emitted(oldSeries, newSeries, hidden) <==>
            match e
            case ItemsChanged(series) => !hidden && series in g.same
            case ItemsAdded(id, skip) =>
              id in IdsOf(newSeries) && id !in IdsOf(oldSeries) && skip == (id in g.skipNew || hidden)
            case ItemsRemoved(id, skip) =>
              id in IdsOf(oldSeries) && id !in IdsOf(newSeries) && skip == (id in g.skipRemoved || hidden)
  {
    var g := GroupingOf(oldSeries, newSeries);
    InChanged(g, hidden, e);
    InAdded(Difference(IdsOf(newSeries), IdsOf(oldSeries)), g.skipNew, hidden, e);
    InRemoved(Difference(IdsOf(oldSeries), IdsOf(newSeries)), g.skipRemoved, hidden, e);
  }

  /** Combined events of a visible post are exactly the diff items of each owner with both kinds present. */
  lemma ChangedEventsAreMixedOwners(oldSeries: seq<Series>, newSeries: seq<Series>, items: seq<Item>)
    ensures ItemsChanged(items) in Emitted(oldSeries, newSeries, false)
            <==> exists o :: HasBoth(Diff(oldSeries, newSeries), o) && items == OwnedBy(Diff(oldSeries, newSeries), o)
    ensures ItemsChanged(items) !in Emitted(oldSeries, newSeries, true)
  {
    InEmitted(oldSeries, newSeries, false, ItemsChanged(items));
    InEmitted(oldSeries, newSeries, true, ItemsChanged(items));
    var diff := Diff(oldSeries, newSeries);
    GroupByCollects(diff, Owners(diff));
    BothNeedsBoth(oldSeries, newSeries);
  }

  /** An owner with both kinds means both lists are non-empty, so the grouping pass runs. */
  lemma BothNeedsBoth(oldSeries: seq<Series>, newSeries: seq<Series>)
    ensures var diff := Diff(oldSeries, newSeries);
            && (forall o :: HasBoth(diff, o) ==> o in Owners(diff))
            && ((exists o :: HasBoth(diff, o)) ==> GroupingOf(oldSeries, newSeries) == GroupBy(diff, Owners(diff)))
  {
  }

  /** What suppression amounts to, for a visible post. */
  lemma SuppressionIs(oldSeries: seq<Series>, newSeries: seq<Series>, id: SeriesId, added: bool)
    ensures var g := GroupingOf(oldSeries, newSeries);
            Suppresses(Emitted(oldSeries, newSeries, false), id, added) <==>
            if added then id in IdsOf(newSeries) && id !in IdsOf(oldSeries) && id in g.skipNew
            else id in IdsOf(oldSeries) && id !in IdsOf(newSeries) && id in g.skipRemoved
  {
    InEmitted(oldSeries, newSeries, false, ItemsAdded(id, true));
    InEmitted(oldSeries, newSeries, false, ItemsRemoved(id, true));
  }

  /** The item is in the diff and its owner has both kinds. */
  predicate InMixed(diff: seq<Item>, id: SeriesId, added: bool) {
    exists x :: x in diff && x.id == id && x.added == added && HasBoth(diff, x.owner)
  }

  lemma CombinedIsMixed(oldSeries: seq<Series>, newSeries: seq<Series>, items: seq<Item>, x: Item)
    requires ItemsChanged(items) in Emitted(oldSeries, newSeries, false) && x in items
    ensures InMixed(Diff(oldSeries, newSeries), x.id, x.added)
  {
    ChangedEventsAreMixedOwners(oldSeries, newSeries, items);
    var diff := Diff(oldSeries, newSeries);
    var o :| HasBoth(diff, o) && items == OwnedBy(diff, o);
    assert x in diff && x.owner == o;
  }

  lemma MixedIsCombined(oldSeries: seq<Series>, newSeries: seq<Series>, x: Item)
    requires x in Diff(oldSeries, newSeries) && HasBoth(Diff(oldSeries, newSeries), x.owner)
    ensures Combines(Emitted(oldSeries, newSeries, false), x.id, x.added)
  {
    var mine := OwnedBy(Diff(oldSeries, newSeries), x.owner);
    ChangedEventsAreMixedOwners(oldSeries, newSeries, mine);
    assert x in ItemsChanged(mine).series;
  }

  lemma CombinationIs(oldSeries: seq<Series>, newSeries: seq<Series>, id: SeriesId, added: bool)
    ensures Combines(Emitted(oldSeries, newSeries, false), id, added) <==>
            InMixed(Diff(oldSeries, newSeries), id, added)
  {
    var events, diff := Emitted(oldSeries, newSeries, false), Diff(oldSeries, newSeries);
    if Combines(events, id, added) {
      var e :| e in events && e.ItemsChanged? && exists x :: x in e.series && x.id == id && x.added == added;
      var x :| x in e.series && x.id == id && x.added == added;
      CombinedIsMixed(oldSeries, newSeries, e.series, x);
    }
    if InMixed(diff, id, added) {
      var x :| x in diff && x.id == id && x.added == added && HasBoth(diff, x.owner);
      MixedIsCombined(oldSeries, newSeries, x);
    }
  }

  /** Every suppressed event belongs to a combined one; the skip lists are those of one mixed owner, if there is any. */
  lemma SkipListsAreOneOwners(oldSeries: seq<Series>, newSeries: seq<Series>) returns (owner: UserId)
    ensures var diff, g := Diff(oldSeries, newSeries), GroupingOf(oldSeries, newSeries);
            if exists o :: HasBoth(diff, o)
            then HasBoth(diff, owner) && g.skipNew == IdsOfKind(OwnedBy(diff, owner), true)
                 && g.skipRemoved == IdsOfKind(OwnedBy(diff, owner), false)
            else g.skipNew == [] && g.skipRemoved == []
  {
    var diff, g := Diff(oldSeries, newSeries), GroupingOf(oldSeries, newSeries);
    GroupByCollects(diff, Owners(diff));
    BothNeedsBoth(oldSeries, newSeries);
    owner := 0;
    if exists o :: HasBoth(diff, o) {
      owner :| owner in Owners(diff) && HasBoth(diff, owner) && g.skipNew == IdsOfKind(OwnedBy(diff, owner), true)
               && g.skipRemoved == IdsOfKind(OwnedBy(diff, owner), false);
    }
  }

  /** Suppressed is exactly one mixed owner's part of the diff. */
  lemma SuppressedIsOneOwners(oldSeries: seq<Series>, newSeries: seq<Series>, last: UserId, id: SeriesId, added: bool)
    requires var diff, g := Diff(oldSeries, newSeries), GroupingOf(oldSeries, newSeries);
             if exists o :: HasBoth(diff, o)
             then HasBoth(diff, last) && g.skipNew == IdsOfKind(OwnedBy(diff, last), true)
                  && g.skipRemoved == IdsOfKind(OwnedBy(diff, last), false)
             else g.skipNew == [] && g.skipRemoved == []
    ensures Suppresses(Emitted(oldSeries, newSeries, false), id, added) <==>
            SkippedBy(Diff(oldSeries, newSeries), last, id, added)
  {
    var diff := Diff(oldSeries, newSeries);
    SuppressionIs(oldSeries, newSeries, id, added);
    if SkippedBy(diff, last, id, added) {
      var x :| x in diff && x.id == id && x.added == added && x.owner == last;
      assert Series(x.id, x.owner) in (if added then newSeries else oldSeries);
      IdOf(if added then newSeries else oldSeries, Series(x.id, x.owner));
      assert x in OwnedBy(diff, last);
    }
  }

  predicate SkippedBy(diff: seq<Item>, last: UserId, id: SeriesId, added: bool) {
    HasBoth(diff, last) && exists x :: x in diff && x.id == id && x.added == added && x.owner == last
  }

  lemma IdOf(series: seq<Series>, s: Series)
    requires s in series
    ensures s.id in IdsOf(series)
  {
    var i :| 0 <= i < |series| && series[i] == s;
    assert IdsOf(series)[i] == s.id;
  }

  /** For a visible post the suppressed events are exactly the items of the combined events if and only if at most
      one owner has both kinds: with two, the overwritten skip lists forget all but the last. */
  lemma SuppressionIsExactIff(oldSeries: seq<Series>, newSeries: seq<Series>)
    requires Distinct(IdsOf(oldSeries)) && Distinct(IdsOf(newSeries))
    ensures var events := Emitted(oldSeries, newSeries, false);
            (forall id, added :: Suppresses(events, id, added) <==> Combines(events, id, added))
            <==> AtMostOneMixedOwner(Diff(oldSeries, newSeries))
  {
    var events, diff := Emitted(oldSeries, newSeries, false), Diff(oldSeries, newSeries);
    var last := SkipListsAreOneOwners(oldSeries, newSeries);
    if AtMostOneMixedOwner(diff) {
      forall id, added ensures Suppresses(events, id, added) <==> Combines(events, id, added) {
        SuppressedIsOneOwners(oldSeries, newSeries, last, id, added);
        CombinationIs(oldSeries, newSeries, id, added);
      }
    } else {
      var o, p :| HasBoth(diff, o) && HasBoth(diff, p) && o != p;
      var other := if o == last then p else o;
      var x :| x in diff && x.owner == other && x.added;
      CombinationIs(oldSeries, newSeries, x.id, true);
      SuppressedIsOneOwners(oldSeries, newSeries, last, x.id, true);
      if SkippedBy(diff, last, x.id, true) {
        var y :| y in diff && y.id == x.id && y.added && y.owner == last;
        DiffIds(oldSeries, newSeries, x, y);
        assert false;
      }
      assert Combines(events, x.id, true) && !Suppresses(events, x.id, true);
    }
  }

  /** What a visible post's suppressed events are: the diff items of the mixed owner who appears last. */
  lemma SuppressedAreTheLast(oldSeries: seq<Series>, newSeries: seq<Series>, id: SeriesId, added: bool)
    ensures var diff := Diff(oldSeries, newSeries);
            var mixed := MixedOwners(diff);
            Suppresses(Emitted(oldSeries, newSeries, false), id, added) <==>
            mixed != [] && exists x :: x in diff && x.id == id && x.added == added && x.owner == mixed[|mixed| - 1]
  {
    var diff := Diff(oldSeries, newSeries);
    var mixed := MixedOwners(diff);
    GroupingIs(oldSeries, newSeries);
    BothNeedsBoth(oldSeries, newSeries);
    assert forall o :: o in mixed <==> HasBoth(diff, o);
    var last := if mixed == [] then 0 else mixed[|mixed| - 1];
    assert mixed != [] ==> last in mixed;
    if mixed == [] {
      assert forall o :: !HasBoth(diff, o);
    }
    SuppressedIsOneOwners(oldSeries, newSeries, last, id, added);
  }

  lemma MixedOwner(oldSeries: seq<Series>, newSeries: seq<Series>, old_: Series, new_: Series)
    requires old_ in oldSeries && old_.id !in IdsOf(newSeries) && new_ in newSeries && new_.id !in IdsOf(oldSeries)
    requires old_.owner == new_.owner
    ensures HasBoth(Diff(oldSeries, newSeries), old_.owner)
  {
    var diff := Diff(oldSeries, newSeries);
    assert Item(old_.id, old_.owner, false) in ItemsNotIn(oldSeries, IdsOf(newSeries), false);
    assert Item(new_.id, new_.owner, true) in ItemsNotIn(newSeries, IdsOf(oldSeries), true);
    assert Item(old_.id, old_.owner, false) in diff && Item(new_.id, new_.owner, true) in diff;
  }

  /** Two owners who each lose a series and get another. */
  lemma TwoMixedOwners(oldSeries: seq<Series>, newSeries: seq<Series>, a: Series, b: Series, c: Series, d: Series)
    requires Distinct(IdsOf(oldSeries)) && Distinct(IdsOf(newSeries))
    requires a in oldSeries && b in oldSeries && a.id !in IdsOf(newSeries) && b.id !in IdsOf(newSeries)
    requires c in newSeries && d in newSeries && c.id !in IdsOf(oldSeries) && d.id !in IdsOf(oldSeries)
    requires a.owner == c.owner != b.owner == d.owner
    ensures var events := Emitted(oldSeries, newSeries, false);
            exists id, added :: Combines(events, id, added) != Suppresses(events, id, added)
  {
    MixedOwner(oldSeries, newSeries, a, c);
    MixedOwner(oldSeries, newSeries, b, d);
    SuppressionIsExactIff(oldSeries, newSeries);
  }

  const BEFORE := [Series(1, 10), Series(2, 20)]
  const AFTER := [Series(3, 10), Series(4, 20)]

  /** The post moves from series 1 and 2 to series 3 and 4; owner 10 has series 1 and 3, owner 20 has 2 and 4. Both
      owners get a combined event, yet only the events of one of them are suppressed. */
  lemma TwoMixedOwnersAreNotSuppressed()
    ensures var events := Emitted(BEFORE, AFTER, false);
            exists id, added :: Combines(events, id, added) != Suppresses(events, id, added)
  {
    assert IdsOf(BEFORE) == [1, 2] && IdsOf(AFTER) == [3, 4];
    assert BEFORE[0] in BEFORE && BEFORE[1] in BEFORE && AFTER[0] in AFTER && AFTER[1] in AFTER;
    TwoMixedOwners(BEFORE, AFTER, BEFORE[0], BEFORE[1], AFTER[0], AFTER[1]);
  }
}

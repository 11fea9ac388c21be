/** Delete/insert diffs on join tables: a post's groups, categories and series, an entity's mentions.
    All four services diff the stored targets against the wanted ones with the same two set differences. */
module LinkRows {
  import opened Lists

  type OwnerId = nat
  type TargetId = nat

  /** Primary key of a join row. For mentions the owner is the entity with its type. */
  datatype Key = Key(owner: OwnerId, target: TargetId)

  function TargetsOf<D>(rows: map<Key, D>, owner: OwnerId): (ts: set<TargetId>)
    ensures forall t :: t in ts <==> Key(owner, t) in rows
  {
    var ts := set k | k in rows && k.owner == owner :: k.target;
    assert forall t :: Key(owner, t) in rows ==> Key(owner, t).target in ts;
    ts
  }

  /** The rows after the diff: exactly the wanted targets for the owner, old columns for kept rows, `added` for new
      ones, everybody else's rows untouched. */
  ghost predicate Synced<D>(after: map<Key, D>, before: map<Key, D>, owner: OwnerId, wanted: set<TargetId>,
                            added: map<TargetId, D>)
    requires wanted - TargetsOf(before, owner) <= added.Keys
  {
    && TargetsOf(after, owner) == wanted
    && (forall t :: t in wanted ==>
          after[Key(owner, t)] == if Key(owner, t) in before then before[Key(owner, t)] else added[t])
    && (forall k: Key :: k.owner != owner ==> (k in after <==> k in before))
    && (forall k: Key :: k.owner != owner && k in before ==> after[k] == before[k])
  }

  /** A wanted list repeats a target only if its row exists already; otherwise the insert violates the primary key. */
  predicate Insertable<D>(rows: map<Key, D>, owner: OwnerId, wanted: seq<TargetId>) {
    forall i, j :: 0 <= i < j < |wanted| && wanted[i] == wanted[j] ==> Key(owner, wanted[i]) in rows
  }

  lemma {:induction false} DistinctIff<D>(rows: map<Key, D>, owner: OwnerId, wanted: seq<TargetId>,
                                          current: seq<TargetId>)
    requires forall t :: t in current <==> Key(owner, t) in rows
    ensures Distinct(Difference(wanted, current)) <==> Insertable(rows, owner, wanted)
    decreases |wanted|
  {
    if wanted != [] {
      var head, tail := wanted[0], wanted[1..];
      DistinctIff(rows, owner, tail, current);
      assert Insertable(rows, owner, wanted) <==>
             Insertable(rows, owner, tail) && (head in tail ==> Key(owner, head) in rows) by {
        assert forall i, j :: 0 <= i < j < |tail| ==> tail[i] == wanted[i + 1] && tail[j] == wanted[j + 1];
        if Insertable(rows, owner, wanted) {
          assert head in tail ==> exists j :: 0 < j < |wanted| && wanted[j] == head by {
            if head in tail {
              var j :| 0 <= j < |tail| && tail[j] == head;
              assert wanted[j + 1] == head;
            }
          }
          forall i, j | 0 <= i < j < |tail| && tail[i] == tail[j] ensures Key(owner, tail[i]) in rows {
            assert wanted[i + 1] == wanted[j + 1];
          }
        }
        if Insertable(rows, owner, tail) && (head in tail ==> Key(owner, head) in rows) {
          forall i, j | 0 <= i < j < |wanted| && wanted[i] == wanted[j] ensures Key(owner, wanted[i]) in rows {
            assert tail[j - 1] == wanted[j];
            assert i > 0 ==> tail[i - 1] == wanted[i];
          }
        }
      }
      if head !in current {
        ConsDistinct(head, Difference(tail, current));
      }
    }
  }

  lemma ConsDistinct(head: TargetId, rest: seq<TargetId>)
    ensures Distinct([head] + rest) <==> head !in rest && Distinct(rest)
  {
    var all := [head] + rest;
    assert all[0] == head;
    if Distinct(all) {
      forall j | 0 <= j < |rest| ensures rest[j] != head { assert all[j + 1] == rest[j]; }
      forall i, j | 0 <= i < j < |rest| ensures rest[i] != rest[j] {
        assert all[i + 1] == rest[i] && all[j + 1] == rest[j];
      }
    }
    if head !in rest && Distinct(rest) {
      forall i, j | 0 <= i < j < |all| ensures all[i] != all[j] {
        assert all[j] == rest[j - 1] && rest[j - 1] in rest;
        assert i > 0 ==> all[i] == rest[i - 1];
      }
    }
  }

  /** `DELETE ... WHERE owner AND target IN (ts)`. */
  function DeleteTargets<D>(rows: map<Key, D>, owner: OwnerId, ts: seq<TargetId>): map<Key, D> {
    map k | k in rows && !(k.owner == owner && k.target in ts) :: rows[k]
  }

  /** `INSERT` of one row per new target. */
  function InsertTargets<D>(rows: map<Key, D>, owner: OwnerId, ts: seq<TargetId>, added: map<TargetId, D>): map<Key, D>
    requires forall t :: t in ts ==> t in added
  {
    rows + map k | k in KeysOf(owner, ts) :: added[k.target]
  }

  function KeysOf(owner: OwnerId, ts: seq<TargetId>): (keys: set<Key>)
    ensures forall k :: k in keys <==> k.owner == owner && k.target in ts
  {
    var keys := set t | t in ts :: Key(owner, t);
    assert forall k: Key :: k.owner == owner && k.target in ts ==> k == Key(owner, k.target);
    keys
  }

  lemma InsertAgrees<D>(rows: map<Key, D>, owner: OwnerId, ts: seq<TargetId>, a: map<TargetId, D>, b: map<TargetId, D>)
    requires forall t :: t in ts ==> t in a && t in b && a[t] == b[t]
    ensures InsertTargets(rows, owner, ts, a) == InsertTargets(rows, owner, ts, b)
  {
  }

  lemma NothingToDo<D>(rows: map<Key, D>, owner: OwnerId, added: map<TargetId, D>)
    ensures DeleteTargets(rows, owner, []) == rows && InsertTargets(rows, owner, [], added) == rows
  {
  }

  /** Deleting current-minus-wanted and inserting wanted-minus-current reaches the wanted targets. */
  lemma DiffReachesTarget<D>(rows: map<Key, D>, owner: OwnerId, wanted: seq<TargetId>, current: seq<TargetId>,
                             added: map<TargetId, D>)
    requires forall t :: t in current <==> Key(owner, t) in rows
    requires forall t :: t in wanted ==> t in added
    ensures Synced(InsertTargets(DeleteTargets(rows, owner, Difference(current, wanted)),
                                 owner, Difference(wanted, current), added),
                   rows, owner, Elems(wanted), added)
  {
    var deleteIds, addIds := Difference(current, wanted), Difference(wanted, current);
    var mid := DeleteTargets(rows, owner, deleteIds);
    var after := InsertTargets(mid, owner, addIds, added);
    forall t ensures Key(owner, t) in after <==> t in wanted {
      assert Key(owner, t) in mid <==> t in current && t !in deleteIds;
    }
    assert TargetsOf(after, owner) == Elems(wanted);
  }

  class LinkTable<D(!new)> {
    var rows: map<Key, D>

    constructor (rows: map<Key, D>)
      ensures this.rows == rows
    {
      this.rows := rows;
    }

    /** `setGroupByPost`, `updateToPost`, `setMention`; `current` is what `findAll` returned for the owner, in any
        order, and `columns` are the defaults of a new row. A repeated new target violates the primary key, and the
        transaction then rolls the delete back too, so it is looked for first here. */
    method SetTargets(owner: OwnerId, wanted: seq<TargetId>, current: seq<TargetId>, columns: D) returns (ok: bool)
      requires Distinct(current) && forall t :: t in current <==> Key(owner, t) in rows
      modifies this
      ensures ok <==> Insertable(old(rows), owner, wanted)
      ensures !ok ==> rows == old(rows)
      ensures ok ==> Synced(rows, old(rows), owner, Elems(wanted), map t | t in wanted :: columns)
    {
      ghost var added := map t | t in wanted :: columns;
      DistinctIff(rows, owner, wanted, current);
      DiffReachesTarget(rows, owner, wanted, current, added);
      var deleteIds, addIds := Difference(current, wanted), Difference(wanted, current);
      ok := IsDistinct(addIds);
      if !ok {
        return;
      }
      var mid := rows;
      NothingToDo(mid, owner, added);
      if |deleteIds| > 0 {
        mid := DeleteTargets(mid, owner, deleteIds);
      }
      NothingToDo(mid, owner, added);
      if |addIds| > 0 {
        var inserted := map t | t in addIds :: columns;
        InsertAgrees(mid, owner, addIds, inserted, added);
        mid := InsertTargets(mid, owner, addIds, inserted);
      }
      rows := mid;
    }
  }

  method IsDistinct(s: seq<TargetId>) returns (ok: bool)
    ensures ok <==> Distinct(s)
  {
    for i := 0 to |s|
      invariant Distinct(s[..i])
    {
      if s[i] in s[..i] {
        var j :| 0 <= j < i && s[j] == s[i];
        return false;
      }
      assert s[..i + 1] == s[..i] + [s[i]];
    }
    assert s[..|s|] == s;
    return true;
  }

  // ---------- series: the new item goes last ----------

  /** Owner is the post, target the series, data the `zindex` of the item in the series. */
  type SeriesRows = map<Key, nat>

  function ZindicesIn(rows: SeriesRows, series: TargetId): set<nat> {
    set k | k in rows && k.target == series :: rows[k]
  }

  /** An answer to "the items of the series ORDER BY zindex", ties in any order. */
  ghost predicate IsListing(rows: SeriesRows, series: TargetId, items: seq<OwnerId>) {
    && Distinct(items)
    && (forall p :: p in items <==> Key(p, series) in rows)
    && (forall i, j :: 0 <= i < j < |items| && Key(items[i], series) in rows && Key(items[j], series) in rows ==>
          rows[Key(items[i], series)] <= rows[Key(items[j], series)])
  }

  /** The columns `_updateSeriesToPost` gives the inserted rows. */
  ghost function NextZindices(rows: SeriesRows, wanted: seq<TargetId>): map<TargetId, nat> {
    map t | t in wanted :: MaxOf(ZindicesIn(rows, t)) + 1
  }

  /** A new item's `zindex` is one above the largest of its series, and 1 in an empty series. */
  lemma NextZindexIs(rows: SeriesRows, wanted: seq<TargetId>, series: TargetId)
    requires series in wanted
    ensures var next := NextZindices(rows, wanted)[series];
            && (forall k :: k in rows && k.target == series ==> rows[k] < next)
            && if exists k :: k in rows && k.target == series then
                 exists k :: k in rows && k.target == series && next == rows[k] + 1
               else next == 1
  {
    var zs := ZindicesIn(rows, series);
    forall k | k in rows && k.target == series ensures rows[k] in zs {
    }
    if exists k :: k in rows && k.target == series {
      assert MaxOf(zs) in zs;
    } else {
      assert zs == {};
    }
  }

  /** A post added to a series reads last and the other items keep their order. */
  lemma AddedReadsLast(before: SeriesRows, after: SeriesRows, post: OwnerId, wanted: seq<TargetId>,
                       series: TargetId, items: seq<OwnerId>)
    requires Synced(after, before, post, Elems(wanted), NextZindices(before, wanted))
    requires series in wanted && Key(post, series) !in before
    ensures IsListing(after, series, items) <==>
            items != [] && items[|items| - 1] == post && IsListing(before, series, items[..|items| - 1])
  {
    var top := after[Key(post, series)];
    assert series in TargetsOf(after, post);
    assert forall p :: p != post ==> (Key(p, series) in after <==> Key(p, series) in before);
    forall p | p != post && Key(p, series) in before ensures after[Key(p, series)] == before[Key(p, series)] < top {
      assert before[Key(p, series)] in ZindicesIn(before, series);
    }
    if IsListing(after, series, items) {
      assert post in items;
      var k :| 0 <= k < |items| && items[k] == post;
      assert k == |items| - 1 by {
        assert items[|items| - 1] in items;
      }
      InitLists(before, after, series, items, post);
    } else if items != [] && items[|items| - 1] == post && IsListing(before, series, items[..|items| - 1]) {
      SnocLists(before, after, series, items, post);
    }
  }

  ghost predicate TopsSeries(before: SeriesRows, after: SeriesRows, series: TargetId, post: OwnerId) {
    && Key(post, series) !in before && Key(post, series) in after
    && (forall p :: p != post ==> (Key(p, series) in after <==> Key(p, series) in before))
    && (forall p :: p != post && Key(p, series) in before ==>
          after[Key(p, series)] == before[Key(p, series)] < after[Key(post, series)])
  }

  lemma InitLists(before: SeriesRows, after: SeriesRows, series: TargetId, items: seq<OwnerId>, post: OwnerId)
    requires TopsSeries(before, after, series, post)
    requires IsListing(after, series, items) && items != [] && items[|items| - 1] == post
    ensures IsListing(before, series, items[..|items| - 1])
  {
    var init := items[..|items| - 1];
    forall p ensures p in init <==> Key(p, series) in before {
      if p in init {
        var i :| 0 <= i < |init| && init[i] == p;
        assert items[i] == p && p in items;
      }
      if Key(p, series) in before {
        assert p in items;
        var i :| 0 <= i < |items| && items[i] == p;
        assert init[i] == p;
      }
    }
    forall i, j | 0 <= i < j < |init|
      ensures init[i] != init[j] && before[Key(init[i], series)] <= before[Key(init[j], series)]
    {
      assert init[i] == items[i] && init[j] == items[j] && init[i] in init && init[j] in init;
    }
  }

  lemma SnocLists(before: SeriesRows, after: SeriesRows, series: TargetId, items: seq<OwnerId>, post: OwnerId)
    requires TopsSeries(before, after, series, post)
    requires items != [] && items[|items| - 1] == post && IsListing(before, series, items[..|items| - 1])
    ensures IsListing(after, series, items)
  {
    var init := items[..|items| - 1];
    assert items == init + [post];
    forall i, j | 0 <= i < j < |items|
      ensures items[i] != items[j]
      ensures Key(items[i], series) in after && Key(items[j], series) in after &&
              after[Key(items[i], series)] <= after[Key(items[j], series)]
    {
      assert items[i] == init[i] && init[i] in init;
      assert j < |init| ==> items[j] == init[j] && init[j] in init;
    }
  }

  class SeriesTable {
    var rows: SeriesRows

    constructor (rows: SeriesRows)
      ensures this.rows == rows
    {
      this.rows := rows;
    }

    /** `_updateSeriesToPost`; `current` is what `findAll` returned for the post. */
    method UpdateSeriesToPost(seriesIds: seq<TargetId>, postId: OwnerId, current: seq<TargetId>) returns (ok: bool)
      requires Distinct(current) && forall t :: t in current <==> Key(postId, t) in rows
      modifies this
      ensures ok <==> Insertable(old(rows), postId, seriesIds)
      ensures !ok ==> rows == old(rows)
      ensures ok ==> Synced(rows, old(rows), postId, Elems(seriesIds), NextZindices(old(rows), seriesIds))
    {
      ghost var added := NextZindices(rows, seriesIds);
      DistinctIff(rows, postId, seriesIds, current);
      DiffReachesTarget(rows, postId, seriesIds, current, added);
      var deleteIds, addIds := Difference(current, seriesIds), Difference(seriesIds, current);
      ok := IsDistinct(addIds);
      if !ok {
        return;
      }
      var mid := rows;
      NothingToDo(mid, postId, added);
      if |deleteIds| > 0 {
        mid := DeleteTargets(mid, postId, deleteIds);
      }
      assert mid == DeleteTargets(rows, postId, deleteIds);
      assert forall t :: t in addIds ==> t in seriesIds && t !in deleteIds && t in added;
      var dataInsert := LastZindices(mid, addIds);
      ZindicesAgree(rows, postId, deleteIds, addIds, seriesIds, dataInsert);
      InsertAgrees(mid, postId, addIds, dataInsert, added);
      rows := InsertTargets(mid, postId, addIds, dataInsert);
    }

    /** The loop that asks each series for its largest `zindex`. */
    static method LastZindices(rows: SeriesRows, addIds: seq<TargetId>) returns (dataInsert: map<TargetId, nat>)
      ensures forall t :: t in addIds ==> t in dataInsert && dataInsert[t] == MaxOf(ZindicesIn(rows, t)) + 1
    {
      dataInsert := map[];
      for i := 0 to |addIds|
        invariant forall j :: 0 <= j < i ==> addIds[j] in dataInsert
        invariant forall t :: t in dataInsert ==> dataInsert[t] == MaxOf(ZindicesIn(rows, t)) + 1
      {
        var max := Maximum(ZindicesIn(rows, addIds[i]));
        dataInsert := dataInsert[addIds[i] := max + 1];
      }
    }
  }

  lemma ZindicesAgree(rows: SeriesRows, post: OwnerId, deleteIds: seq<TargetId>, addIds: seq<TargetId>,
                      wanted: seq<TargetId>, data: map<TargetId, nat>)
    requires forall t :: t in addIds ==> t in wanted && t !in deleteIds && t in data &&
                                         data[t] == MaxOf(ZindicesIn(DeleteTargets(rows, post, deleteIds), t)) + 1
    ensures forall t :: t in addIds ==> data[t] == NextZindices(rows, wanted)[t]
  {
    forall t | t in addIds ensures data[t] == NextZindices(rows, wanted)[t] {
      OthersKeepZindices(rows, post, deleteIds, t);
    }
  }

  /** The deletes do not touch a series that is not deleted from. */
  lemma OthersKeepZindices(rows: SeriesRows, post: OwnerId, deleteIds: seq<TargetId>, series: TargetId)
    requires series !in deleteIds
    ensures ZindicesIn(DeleteTargets(rows, post, deleteIds), series) == ZindicesIn(rows, series)
  {
    var mid := DeleteTargets(rows, post, deleteIds);
    assert forall k: Key :: k.target == series ==> (k in mid <==> k in rows);
    forall z | z in ZindicesIn(rows, series) ensures z in ZindicesIn(mid, series) {
      var k :| k in rows && k.target == series && rows[k] == z;
      assert k in mid && mid[k] == z;
    }
  }
}

/** Archiving and restoring groups, and the payload the search index receives. */
module Archive {
  import opened Ids
  import opened Lists
  import opened Paging
  import opened Wrappers

  /** A `posts_groups` row. The table is the list of its rows in scan order. */
  datatype PostGroup = PostGroup(post: PostId, group: GroupId, archived: bool)

  type Table = seq<PostGroup>

  datatype Payload = Payload(posts: seq<PostId>, groupsOf: map<PostId, seq<GroupId>>)

  // ---------- queries ----------

  /** `SELECT DISTINCT group_id ... WHERE group_id IN (:ids) AND is_archived = NOT :state`. */
  function NotInState(rows: Table, ids: seq<GroupId>, state: bool): (gs: seq<GroupId>)
    ensures Distinct(gs)
    ensures forall g :: g in gs <==> g in ids && exists r :: r in rows && r.group == g && r.archived != state
  {
    if rows == [] then []
    else
      assert forall r :: r in rows <==> r == rows[0] || r in rows[1..];
      var rest := NotInState(rows[1..], ids, state);
      if rows[0].group in ids && rows[0].archived != state && rows[0].group !in rest
      then [rows[0].group] + rest else rest
  }

  function RowsInGroups(rows: Table, gs: seq<GroupId>): (r: Table)
    ensures forall x :: x in r <==> x in rows && x.group in gs
  {
    if rows == [] then []
    else if rows[0].group in gs then [rows[0]] + RowsInGroups(rows[1..], gs) else RowsInGroups(rows[1..], gs)
  }

  function UnarchivedRowsOf(rows: Table, ps: seq<PostId>): (r: Table)
    ensures forall x :: x in r <==> x in rows && x.post in ps && !x.archived
  {
    if rows == [] then []
    else
      var rest := UnarchivedRowsOf(rows[1..], ps);
      if rows[0].post in ps && !rows[0].archived then [rows[0]] + rest else rest
  }

  /** The unarchived groups of a post, in scan order. */
  function UnarchivedGroups(rows: Table, p: PostId): (gs: seq<GroupId>)
    ensures forall g :: g in gs <==> PostGroup(p, g, false) in rows
  {
    if rows == [] then []
    else
      var rest := UnarchivedGroups(rows[1..], p);
      if rows[0].post == p && !rows[0].archived then [rows[0].group] + rest else rest
  }

  function Posts(rows: Table): seq<PostId> {
    seq(|rows|, i requires 0 <= i < |rows| => rows[i].post)
  }

  /** `UPDATE ... SET is_archived = :state WHERE group_id IN (:gs)`. */
  function SetState(rows: Table, gs: seq<GroupId>, state: bool): Table {
    seq(|rows|, i requires 0 <= i < |rows| => if rows[i].group in gs then rows[i].(archived := state) else rows[i])
  }

  // ---------- facts about them ----------

  /** The update writes the archived mark of the listed groups' rows and nothing else. */
  lemma StateWrites(rows: Table, gs: seq<GroupId>, state: bool, i: nat)
    requires i < |rows|
    ensures var after := SetState(rows, gs, state);
            && |after| == |rows| && after[i].post == rows[i].post && after[i].group == rows[i].group
            && after[i].archived ==
               if exists k :: 0 <= k < |gs| && gs[k] == rows[i].group then state else rows[i].archived
  {
  }

  /** Updating only the groups found in the other state sets every listed group, since the rest is there already. */
  lemma StaleUpdateIsFull(rows: Table, ids: seq<GroupId>, state: bool)
    ensures SetState(rows, NotInState(rows, ids, state), state) == SetState(rows, ids, state)
    ensures NotInState(rows, ids, state) == [] <==> SetState(rows, ids, state) == rows
  {
    var gs := NotInState(rows, ids, state);
    forall i | 0 <= i < |rows|
      ensures rows[i].group in ids && rows[i].archived != state ==> rows[i].group in gs
      ensures rows[i].group in gs ==> rows[i].group in ids
    {
      assert rows[i] in rows;
    }
    if gs != [] {
      assert gs[0] in gs;
      var r :| r in rows && r.group == gs[0] && r.archived != state;
      var i :| 0 <= i < |rows| && rows[i] == r;
      assert SetState(rows, ids, state)[i] != rows[i];
    }
    if gs == [] {
      forall i | 0 <= i < |rows| ensures SetState(rows, ids, state)[i] == rows[i] {}
    }
  }

  /** The payload's group lists, taken from the unarchived rows of the listed posts only, are those of the table. */
  lemma {:induction false} GroupsFromRows(rows: Table, ps: seq<PostId>, p: PostId)
    requires p in ps
    ensures UnarchivedGroups(UnarchivedRowsOf(rows, ps), p) == UnarchivedGroups(rows, p)
  {
    if rows != [] {
      GroupsFromRows(rows[1..], ps, p);
      var rest := UnarchivedRowsOf(rows[1..], ps);
      if rows[0].post in ps && !rows[0].archived {
        assert UnarchivedRowsOf(rows, ps)[1..] == rest;
      }
    }
  }

  /** A post's groups are listed in the order of its rows. */
  lemma {:induction false} GroupsInScanOrder(rows: Table, last: PostGroup, p: PostId)
    ensures UnarchivedGroups(rows + [last], p) ==
            UnarchivedGroups(rows, p) + if last.post == p && !last.archived then [last.group] else []
  {
    if rows == [] {
      assert rows + [last] == [last] && [last][1..] == [];
    } else {
      assert (rows + [last])[1..] == rows[1..] + [last];
      GroupsInScanOrder(rows[1..], last, p);
    }
  }

  /** Archive then restore of the same groups is the identity if and only if no row of theirs was archived. */
  lemma RestoreUndoesArchiveIff(rows: Table, ids: seq<GroupId>)
    ensures SetState(SetState(rows, ids, true), ids, false) == rows
            <==> forall r :: r in rows && r.group in ids ==> !r.archived
  {
    var after := SetState(SetState(rows, ids, true), ids, false);
    if after == rows {
      forall r | r in rows && r.group in ids ensures !r.archived {
        var i :| 0 <= i < |rows| && rows[i] == r;
        assert after[i] == rows[i];
      }
    }
    if forall r :: r in rows && r.group in ids ==> !r.archived {
      forall i | 0 <= i < |rows| ensures after[i] == rows[i] {
        assert rows[i] in rows;
      }
    }
  }

  /** A post whose rows the update changes has a row in an updated group. */
  predicate HasRowIn(rows: Table, p: PostId, gs: seq<GroupId>) {
    exists r :: r in rows && r.post == p && r.group in gs
  }

  class PostGroupStore {
    var rows: Table
    const livePosts: seq<PostId>

    constructor (rows: Table, livePosts: seq<PostId>)
      ensures this.rows == rows && this.livePosts == livePosts
    {
      this.rows, this.livePosts := rows, livePosts;
    }

    /** `updateGroupStateAndGetPostIdsAffected`; `pageSize` is 1000 in the service. */
    method UpdateGroupState(groupIds: seq<GroupId>, isArchive: bool, pageSize: nat)
      returns (affected: Option<seq<PostId>>)
      requires 1 <= pageSize
      modifies this
      ensures rows == SetState(old(rows), groupIds, isArchive)
      ensures affected.None? <==> rows == old(rows)
      ensures affected.Some? ==>
                forall p :: p in affected.value <==> HasRowIn(old(rows), p, NotInState(old(rows), groupIds, isArchive))
    {
      ghost var before := rows;
      StaleUpdateIsFull(rows, groupIds, isArchive);
      DistinctFits(NotInState(rows, groupIds, isArchive), groupIds);
      var notInStateGroupIds := Take(NotInState(rows, groupIds, isArchive), |groupIds|);
      var affectedCount := |RowsInGroups(rows, notInStateGroupIds)|;
      rows := SetState(rows, notInStateGroupIds, isArchive);
      CountIsZeroIff(before, groupIds, isArchive);
      if affectedCount > 0 {
        var affectPostGroups := GetAllRecursive(RowsInGroups(rows, notInStateGroupIds), pageSize, 0, [], 0);
        GetAllIsWhole(RowsInGroups(rows, notInStateGroupIds), pageSize);
        affected := Some(Posts(affectPostGroups));
        AffectedPosts(before, notInStateGroupIds, isArchive);
      } else {
        affected := None;
      }
    }

    /** `getPostsArchivedOrRestoredByGroupEventPayload`. */
    method GetPayload(postIds: seq<PostId>, pageSize: nat) returns (payload: Payload)
      requires 1 <= pageSize
      ensures payload.groupsOf.Keys == Elems(postIds)
      ensures forall p :: p in postIds ==> payload.groupsOf[p] == UnarchivedGroups(rows, p)
      ensures forall p :: p in payload.posts <==> p in livePosts && p in postIds
    {
      var postGroups := GetAllRecursive(UnarchivedRowsOf(rows, postIds), pageSize, 0, [], 0);
      GetAllIsWhole(UnarchivedRowsOf(rows, postIds), pageSize);
      var postIndex: map<PostId, seq<GroupId>> := map[];
      for i := 0 to |postIds|
        invariant postIndex.Keys == Elems(postIds[..i])
        invariant forall p :: p in postIndex ==> postIndex[p] == UnarchivedGroups(rows, p)
      {
        assert postIds[..i + 1] == postIds[..i] + [postIds[i]];
        if postIds[i] !in postIndex {
          GroupsFromRows(rows, postIds, postIds[i]);
          postIndex := postIndex[postIds[i] := UnarchivedGroups(postGroups, postIds[i])];
        }
      }
      assert postIds[..|postIds|] == postIds;
      GetAllIsWhole(Restrict(livePosts, postIndex.Keys), pageSize);
      payload := Payload(GetAllRecursive(Restrict(livePosts, postIndex.Keys), pageSize, 0, [], 0), postIndex);
    }

    /** The handler of a group state event: update, then emit the payload unless nothing changed. */
    method OnGroupStateChanged(groupIds: seq<GroupId>, isArchive: bool, pageSize: nat)
      returns (emitted: Option<Payload>)
      requires 1 <= pageSize
      modifies this
      ensures rows == SetState(old(rows), groupIds, isArchive)
      ensures emitted.None? <==> rows == old(rows)
      ensures emitted.Some? ==>
                forall p :: p in emitted.value.groupsOf ==> emitted.value.groupsOf[p] == UnarchivedGroups(rows, p)
      ensures emitted.Some? ==>
                forall i :: 0 <= i < |rows| && rows[i] != old(rows)[i] ==> rows[i].post in emitted.value.groupsOf
      ensures emitted.Some? ==> forall p :: p in emitted.value.posts <==> p in livePosts && p in emitted.value.groupsOf
    {
      ghost var before := rows;
      var affected := UpdateGroupState(groupIds, isArchive, pageSize);
      if affected.Some? {
        var payload := GetPayload(affected.value, pageSize);
        emitted := Some(payload);
        forall i | 0 <= i < |rows| && rows[i] != before[i] ensures rows[i].post in payload.groupsOf {
          assert before[i] in before;
          assert HasRowIn(before, rows[i].post, NotInState(before, groupIds, isArchive));
        }
      } else {
        emitted := None;
      }
    }
  }

  lemma CountIsZeroIff(rows: Table, ids: seq<GroupId>, state: bool)
    ensures RowsInGroups(rows, NotInState(rows, ids, state)) == [] <==> NotInState(rows, ids, state) == []
  {
    var gs := NotInState(rows, ids, state);
    var r := RowsInGroups(rows, gs);
    if gs != [] {
      assert gs[0] in gs;
      var x :| x in rows && x.group == gs[0];
      assert x in r;
    }
    if r != [] {
      assert r[0] in r;
    }
  }

  lemma AffectedPosts(before: Table, gs: seq<GroupId>, state: bool)
    ensures forall p :: p in Posts(RowsInGroups(SetState(before, gs, state), gs)) <==> HasRowIn(before, p, gs)
  {
    var after := SetState(before, gs, state);
    var found := RowsInGroups(after, gs);
    forall p ensures p in Posts(found) <==> HasRowIn(before, p, gs) {
      if p in Posts(found) {
        var i :| 0 <= i < |found| && found[i].post == p;
        assert found[i] in found;
        var j :| 0 <= j < |after| && after[j] == found[i];
        assert before[j] in before;
      }
      if HasRowIn(before, p, gs) {
        var r :| r in before && r.post == p && r.group in gs;
        var j :| 0 <= j < |before| && before[j] == r;
        assert after[j] in after && after[j] in found;
        var i :| 0 <= i < |found| && found[i] == after[j];
        assert Posts(found)[i] == p;
      }
    }
  }
}

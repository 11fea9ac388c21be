/** Pinned posts of a group. The service stores the order as an integer index per row; the indices refine
    an abstract duplicate-free list per group. */
module Pinning {
  import opened Ids
  import opened Lists
  import opened Wrappers

  datatype Key = Key(post: PostId, group: GroupId)

  datatype PinRow = PinRow(archived: bool, pinned: bool, index: nat)

  /** `posts_groups` by primary key. */
  type Table = map<Key, PinRow>

  predicate IsPinned(rows: Table, p: PostId, g: GroupId) {
    Key(p, g) in rows && rows[Key(p, g)].pinned
  }

  function PinnedPosts(rows: Table, g: GroupId): (ps: set<PostId>)
    ensures forall p :: p in ps <==> IsPinned(rows, p, g)
  {
    var ps := set k | k in rows && k.group == g && rows[k].pinned :: k.post;
    assert forall p :: IsPinned(rows, p, g) ==> Key(p, g).post in ps;
    ps
  }

  function Index(rows: Table, p: PostId, g: GroupId): nat {
    if Key(p, g) in rows then rows[Key(p, g)].index else 0
  }

  /** Unpinned rows have index 0; pinned rows have positive indices, distinct within the group. */
  ghost predicate WellIndexed(rows: Table) {
    && (forall p, g :: Key(p, g) in rows && !IsPinned(rows, p, g) ==> Index(rows, p, g) == 0)
    && (forall p, g :: IsPinned(rows, p, g) ==> 0 < Index(rows, p, g))
    && (forall p, q, g :: IsPinned(rows, p, g) && IsPinned(rows, q, g) && p != q ==>
          Index(rows, p, g) != Index(rows, q, g))
  }

  // ---------- the abstract list ----------

  ghost predicate InOrder(rows: Table, g: GroupId, s: seq<PostId>) {
    forall i, j :: 0 <= i < j < |s| ==> Index(rows, s[i], g) < Index(rows, s[j], g)
  }

  predicate IsLowest(rows: Table, g: GroupId, ps: set<PostId>, p: PostId) {
    p in ps && forall q :: q in ps ==> Index(rows, p, g) <= Index(rows, q, g)
  }

  lemma {:induction false} Lowest(rows: Table, g: GroupId, ps: set<PostId>) returns (p: PostId)
    requires ps != {}
    ensures IsLowest(rows, g, ps, p)
  {
    p :| p in ps;
    if ps != {p} {
      var low := Lowest(rows, g, ps - {p});
      assert forall q :: q in ps ==> q == p || q in ps - {p};
      if Index(rows, low, g) < Index(rows, p, g) {
        p := low;
      }
    }
  }

  lemma LowestExists(rows: Table, g: GroupId, ps: set<PostId>)
    requires ps != {}
    ensures exists p :: IsLowest(rows, g, ps, p)
  {
    var p := Lowest(rows, g, ps);
  }

  ghost function Sorted(rows: Table, g: GroupId, ps: set<PostId>): seq<PostId> {
    if ps == {} then []
    else
      LowestExists(rows, g, ps);
      var p :| IsLowest(rows, g, ps, p);
      [p] + Sorted(rows, g, ps - {p})
  }

  ghost predicate Holds(s: seq<PostId>, ps: set<PostId>) {
    forall p :: p in s <==> p in ps
  }

  /** The pinned list of a group: its pinned posts by increasing index. */
  ghost function Listing(rows: Table, g: GroupId): seq<PostId> {
    Sorted(rows, g, PinnedPosts(rows, g))
  }

  lemma {:induction false} SortedIsOrdered(rows: Table, g: GroupId, ps: set<PostId>)
    requires forall p, q :: p in ps && q in ps && p != q ==> Index(rows, p, g) != Index(rows, q, g)
    ensures InOrder(rows, g, Sorted(rows, g, ps)) && Holds(Sorted(rows, g, ps), ps)
  {
    if ps != {} {
      var s := Sorted(rows, g, ps);
      var low := s[0];
      assert IsLowest(rows, g, ps, low);
      var rest := Sorted(rows, g, ps - {low});
      assert s == [low] + rest;
      SortedIsOrdered(rows, g, ps - {low});
      LowFirst(rows, g, low, rest);
      forall p ensures p in s <==> p in ps {
        assert p in s <==> p == low || p in rest;
      }
    }
  }

  lemma LowFirst(rows: Table, g: GroupId, low: PostId, rest: seq<PostId>)
    requires InOrder(rows, g, rest) && forall p :: p in rest ==> Index(rows, low, g) < Index(rows, p, g)
    ensures InOrder(rows, g, [low] + rest)
  {
    var s := [low] + rest;
    forall i, j | 0 <= i < j < |s| ensures Index(rows, s[i], g) < Index(rows, s[j], g) {
      assert s[j] == rest[j - 1] && rest[j - 1] in rest;
      assert s[i] == if i == 0 then low else rest[i - 1];
    }
  }

  lemma LastLast(rows: Table, g: GroupId, front: seq<PostId>, high: PostId)
    requires InOrder(rows, g, front) && forall p :: p in front ==> Index(rows, p, g) < Index(rows, high, g)
    ensures InOrder(rows, g, front + [high])
  {
    var s := front + [high];
    forall i, j | 0 <= i < j < |s| ensures Index(rows, s[i], g) < Index(rows, s[j], g) {
      assert s[i] == front[i] && front[i] in front;
      assert s[j] == if j == |front| then high else front[j];
    }
  }

  /** An index order determines the list. */
  lemma {:induction false} OrderIsUnique(rows: Table, g: GroupId, s: seq<PostId>, t: seq<PostId>)
    requires InOrder(rows, g, s) && InOrder(rows, g, t) && forall p :: p in s <==> p in t
    ensures s == t
    decreases |s|
  {
    assert s != [] ==> s[0] in s;
    assert t != [] ==> t[0] in t;
    if s != [] && t != [] {
      var i :| 0 <= i < |t| && t[i] == s[0];
      var j :| 0 <= j < |s| && s[j] == t[0];
      assert s[0] == t[0];
      TailOf(rows, g, s);
      TailOf(rows, g, t);
      OrderIsUnique(rows, g, s[1..], t[1..]);
    }
  }

  lemma TailOf(rows: Table, g: GroupId, s: seq<PostId>)
    requires s != [] && InOrder(rows, g, s)
    ensures InOrder(rows, g, s[1..]) && forall p :: p in s[1..] <==> p in s && p != s[0]
  {
    forall i, j | 0 <= i < j < |s[1..]| ensures Index(rows, s[1..][i], g) < Index(rows, s[1..][j], g) {
      assert s[1..][i] == s[i + 1] && s[1..][j] == s[j + 1];
    }
    forall p ensures p in s[1..] <==> p in s && p != s[0] {
      if p in s[1..] {
        var k :| 0 <= k < |s[1..]| && s[1..][k] == p;
        assert s[k + 1] == p;
      }
    }
  }

  lemma ListingIs(rows: Table, g: GroupId, s: seq<PostId>)
    requires WellIndexed(rows) && InOrder(rows, g, s) && Holds(s, PinnedPosts(rows, g))
    ensures Listing(rows, g) == s
  {
    SortedIsOrdered(rows, g, PinnedPosts(rows, g));
    OrderIsUnique(rows, g, Listing(rows, g), s);
  }

  lemma {:induction false} RestrictKeepsOrder(rows: Table, rows': Table, g: GroupId, s: seq<PostId>, keep: set<PostId>)
    requires InOrder(rows, g, s)
    requires forall p :: p in s && p in keep ==> Index(rows', p, g) == Index(rows, p, g)
    ensures InOrder(rows', g, Restrict(s, keep))
  {
    if s != [] {
      TailOf(rows, g, s);
      RestrictKeepsOrder(rows, rows', g, s[1..], keep);
      if s[0] in keep {
        var rest := Restrict(s[1..], keep);
        forall p | p in rest ensures Index(rows', s[0], g) < Index(rows', p, g) {
          var k :| 0 <= k < |s[1..]| && s[1..][k] == p;
          assert s[k + 1] == p && s[0] in s;
        }
        LowFirst(rows', g, s[0], rest);
      }
    }
  }

  function Remove(s: seq<PostId>, p: PostId): seq<PostId> {
    Restrict(s, Elems(s) - {p})
  }

  // ---------- pin and unpin ----------

  function IndicesIn(rows: Table, g: GroupId): set<nat> {
    set k | k in rows && k.group == g :: rows[k].index
  }

  /** `SELECT MAX(pinned_index) WHERE group_id = g`, over pinned and unpinned, archived and unarchived rows. */
  ghost function MaxIndex(rows: Table, g: GroupId): nat {
    MaxOf(IndicesIn(rows, g))
  }

  ghost function PinStep(rows: Table, p: PostId, gs: set<GroupId>): Table {
    map k | k in rows ::
      if k.post == p && k.group in gs then rows[k].(pinned := true, index := MaxIndex(rows, k.group) + 1) else rows[k]
  }

  function UnpinStep(rows: Table, p: PostId, gs: set<GroupId>): Table {
    map k | k in rows ::
      if k.post == p && k.group in gs then rows[k].(pinned := false, index := 0) else rows[k]
  }

  lemma PinCells(rows: Table, p: PostId, gs: set<GroupId>)
    ensures var after := PinStep(rows, p, gs);
            && (forall q, h :: Index(rows, q, h) <= MaxIndex(rows, h))
            && (forall q, h :: IsPinned(after, q, h) <==>
                  IsPinned(rows, q, h) || (q == p && h in gs && Key(q, h) in rows))
            && (forall q, h :: Index(after, q, h) ==
                  if q == p && h in gs && Key(q, h) in rows then MaxIndex(rows, h) + 1 else Index(rows, q, h))
  {
    forall q, h | Key(q, h) in rows ensures Index(rows, q, h) <= MaxIndex(rows, h) {
      assert rows[Key(q, h)].index in IndicesIn(rows, h);
    }
  }

  /** Pinning writes two columns of the listed rows: the new index is one above the largest of the group. Every other
      row and every `archived` column stays. */
  lemma PinWrites(rows: Table, p: PostId, gs: set<GroupId>, k: Key)
    requires k in rows
    ensures var after := PinStep(rows, p, gs);
            && after.Keys == rows.Keys
            && if k.post == p && k.group in gs then
                 && after[k].archived == rows[k].archived && after[k].pinned
                 && (forall j :: j in rows && j.group == k.group ==> rows[j].index < after[k].index)
                 && exists j :: j in rows && j.group == k.group && rows[j].index + 1 == after[k].index
               else after[k] == rows[k]
  {
    var indices := IndicesIn(rows, k.group);
    assert rows[k].index in indices;
    assert MaxOf(indices) in indices;
    forall j | j in rows && j.group == k.group ensures rows[j].index <= MaxIndex(rows, k.group) {
      assert rows[j].index in indices;
    }
  }

  /** Unpinning writes the same two columns of the listed rows. */
  lemma UnpinWrites(rows: Table, p: PostId, gs: set<GroupId>, k: Key)
    requires k in rows
    ensures var after := UnpinStep(rows, p, gs);
            && after.Keys == rows.Keys
            && after[k] == if k.post == p && k.group in gs then PinRow(rows[k].archived, false, 0) else rows[k]
  {
  }

  lemma PinKeepsIndexed(rows: Table, p: PostId, gs: set<GroupId>)
    requires WellIndexed(rows)
    ensures WellIndexed(PinStep(rows, p, gs))
  {
    PinCells(rows, p, gs);
  }

  /** A post whose new index tops the group moves to the end of the list. */
  lemma RestIsOrdered(rows: Table, after: Table, g: GroupId, p: PostId)
    requires WellIndexed(rows) && forall q :: q != p ==> Index(after, q, g) == Index(rows, q, g)
    ensures var front := Remove(Listing(rows, g), p);
            InOrder(after, g, front) && forall q :: q in front <==> IsPinned(rows, q, g) && q != p
  {
    SortedIsOrdered(rows, g, PinnedPosts(rows, g));
    var s := Listing(rows, g);
    RestrictKeepsOrder(rows, after, g, s, Elems(s) - {p});
  }

  lemma HoldsSnoc(rows: Table, after: Table, g: GroupId, front: seq<PostId>, p: PostId)
    requires forall q :: IsPinned(after, q, g) <==> IsPinned(rows, q, g) || q == p
    requires forall q :: q in front <==> IsPinned(rows, q, g) && q != p
    ensures Holds(front + [p], PinnedPosts(after, g))
  {
    assert forall q :: q in front + [p] <==> q in front || q == p;
  }

  lemma MovedLast(rows: Table, after: Table, g: GroupId, p: PostId)
    requires WellIndexed(rows) && WellIndexed(after)
    requires forall q :: IsPinned(after, q, g) <==> IsPinned(rows, q, g) || q == p
    requires forall q :: q != p ==> Index(after, q, g) == Index(rows, q, g) && Index(rows, q, g) < Index(after, p, g)
    ensures Listing(after, g) == Remove(Listing(rows, g), p) + [p]
  {
    var front := Remove(Listing(rows, g), p);
    RestIsOrdered(rows, after, g, p);
    LastLast(after, g, front, p);
    HoldsSnoc(rows, after, g, front, p);
    ListingIs(after, g, front + [p]);
  }

  lemma PinInGroup(rows: Table, p: PostId, gs: set<GroupId>, g: GroupId)
    requires WellIndexed(rows) && g in gs && Key(p, g) in rows
    ensures Listing(PinStep(rows, p, gs), g) == Remove(Listing(rows, g), p) + [p]
  {
    PinCells(rows, p, gs);
    PinKeepsIndexed(rows, p, gs);
    MovedLast(rows, PinStep(rows, p, gs), g, p);
  }

  lemma PinElsewhere(rows: Table, p: PostId, gs: set<GroupId>, g: GroupId)
    requires WellIndexed(rows) && !(g in gs && Key(p, g) in rows)
    ensures Listing(PinStep(rows, p, gs), g) == Listing(rows, g)
  {
    PinCells(rows, p, gs);
    PinKeepsIndexed(rows, p, gs);
    SameList(rows, PinStep(rows, p, gs), g);
  }

  /** The same pinned posts on the same indices make the same list. */
  lemma SameList(rows: Table, after: Table, g: GroupId)
    requires WellIndexed(rows)
    requires forall q :: IsPinned(after, q, g) <==> IsPinned(rows, q, g)
    requires forall q :: IsPinned(rows, q, g) ==> Index(after, q, g) == Index(rows, q, g)
    ensures Listing(after, g) == Listing(rows, g)
  {
    SortedIsOrdered(rows, g, PinnedPosts(rows, g));
    var s := Listing(rows, g);
    forall i, j | 0 <= i < j < |s| ensures Index(after, s[i], g) < Index(after, s[j], g) {
      assert s[i] in s && s[j] in s;
    }
    SortedIsOrdered(after, g, PinnedPosts(after, g));
    OrderIsUnique(after, g, Listing(after, g), s);
  }

  /** Pinning moves the post to the end of each listed group it belongs to and changes no other group. */
  lemma PinAppends(rows: Table, p: PostId, gs: set<GroupId>, g: GroupId)
    requires WellIndexed(rows)
    ensures WellIndexed(PinStep(rows, p, gs))
    ensures Listing(PinStep(rows, p, gs), g) ==
            if g in gs && Key(p, g) in rows then Remove(Listing(rows, g), p) + [p] else Listing(rows, g)
  {
    PinKeepsIndexed(rows, p, gs);
    if g in gs && Key(p, g) in rows {
      PinInGroup(rows, p, gs, g);
    } else {
      PinElsewhere(rows, p, gs, g);
    }
  }

  lemma UnpinCells(rows: Table, p: PostId, gs: set<GroupId>)
    ensures var after := UnpinStep(rows, p, gs);
            && (forall q, h :: IsPinned(after, q, h) <==> IsPinned(rows, q, h) && !(q == p && h in gs))
            && (forall q, h :: Index(after, q, h) == if q == p && h in gs then 0 else Index(rows, q, h))
            && (WellIndexed(rows) ==> WellIndexed(after))
  {
  }

  lemma UnpinInGroup(rows: Table, p: PostId, gs: set<GroupId>, g: GroupId)
    requires WellIndexed(rows) && g in gs
    ensures Listing(UnpinStep(rows, p, gs), g) == Remove(Listing(rows, g), p)
  {
    UnpinCells(rows, p, gs);
    var after, s := UnpinStep(rows, p, gs), Listing(rows, g);
    SortedIsOrdered(rows, g, PinnedPosts(rows, g));
    RestrictKeepsOrder(rows, after, g, s, Elems(s) - {p});
    ListingIs(after, g, Remove(s, p));
  }

  /** Unpinning removes the post from each listed group and keeps the relative order of the rest. */
  lemma UnpinRemoves(rows: Table, p: PostId, gs: set<GroupId>, g: GroupId)
    requires WellIndexed(rows)
    ensures WellIndexed(UnpinStep(rows, p, gs))
    ensures Listing(UnpinStep(rows, p, gs), g) ==
            if g in gs then Remove(Listing(rows, g), p) else Listing(rows, g)
  {
    UnpinCells(rows, p, gs);
    if g in gs {
      UnpinInGroup(rows, p, gs, g);
    } else {
      SameList(rows, UnpinStep(rows, p, gs), g);
    }
  }

  // ---------- reorder ----------

  function SetIndex(rows: Table, p: PostId, g: GroupId, index: nat): Table {
    if Key(p, g) in rows then rows[Key(p, g) := rows[Key(p, g)].(index := index)] else rows
  }

  /** `reorderPinnedPostGroups`: one UPDATE per listed post, completing in the order `done` (positions in `ids`). */
  function ReorderStep(rows: Table, g: GroupId, ids: seq<PostId>, done: seq<nat>): Table
    requires forall i :: i in done ==> i < |ids|
    decreases |done|
  {
    if done == [] then rows
    else
      assert done[0] in done && forall i :: i in done[1..] ==> i in done;
      ReorderStep(SetIndex(rows, ids[done[0]], g, done[0] + 1), g, ids, done[1..])
  }

  function Positions(n: nat): seq<nat> {
    seq(n, i => i)
  }

  /** The position of the last update of the post to complete. */
  function LastDone(ids: seq<PostId>, done: seq<nat>, p: PostId): (last: Option<nat>)
    requires forall i :: i in done ==> i < |ids|
    ensures last.Some? ==> last.value in done && ids[last.value] == p
    ensures last.None? ==> forall i :: i in done ==> ids[i] != p
    decreases |done|
  {
    if done == [] then None
    else
      assert done[0] in done && forall i :: i in done <==> i == done[0] || i in done[1..];
      var later := LastDone(ids, done[1..], p);
      if later.None? && ids[done[0]] == p then Some(done[0]) else later
  }

  /** A listing may name a post more than once: the update that completes last decides its index. */
  lemma {:induction false} ReorderSetsLast(rows: Table, g: GroupId, ids: seq<PostId>, done: seq<nat>)
    requires forall i :: i in done ==> i < |ids|
    ensures var after := ReorderStep(rows, g, ids, done);
            && after.Keys == rows.Keys
            && (forall k :: k in rows ==> after[k].pinned == rows[k].pinned && after[k].archived == rows[k].archived)
            && (forall p, h :: Index(after, p, h) ==
                  if h == g && Key(p, g) in rows && LastDone(ids, done, p).Some?
                  then LastDone(ids, done, p).value + 1 else Index(rows, p, h))
    decreases |done|
  {
    if done != [] {
      assert done[0] in done && forall i :: i in done[1..] ==> i in done;
      ReorderSetsLast(SetIndex(rows, ids[done[0]], g, done[0] + 1), g, ids, done[1..]);
    }
  }

  lemma DistinctLast(ids: seq<PostId>, done: seq<nat>, i: nat)
    requires Distinct(ids) && i in done && forall j :: j in done ==> j < |ids|
    ensures LastDone(ids, done, ids[i]) == Some(i)
  {
  }

  /** For a duplicate-free listing the completion order does not matter: post `i` gets index `i + 1`. */
  lemma ReorderSetsIndices(rows: Table, g: GroupId, ids: seq<PostId>, done: seq<nat>)
    requires Distinct(ids) && forall i :: i in done ==> i < |ids|
    ensures var after := ReorderStep(rows, g, ids, done);
            && after.Keys == rows.Keys
            && (forall k :: k in rows ==> after[k].pinned == rows[k].pinned && after[k].archived == rows[k].archived)
            && (forall i :: i in done && Key(ids[i], g) in rows ==> Index(after, ids[i], g) == i + 1)
            && (forall p, h :: (h != g || forall i :: i in done ==> ids[i] != p) ==>
                  Index(after, p, h) == Index(rows, p, h))
  {
    ReorderSetsLast(rows, g, ids, done);
    forall i | i in done ensures LastDone(ids, done, ids[i]) == Some(i) {
      DistinctLast(ids, done, i);
    }
  }

  datatype ReorderOutcome = NotBelong(denied: seq<PostId>) | Lack(lacked: set<PostId>) | Reordered

  /** The pinned posts the endpoint compares the listing with: published and not hidden, archived or not. */
  function ReorderablePosts(rows: Table, g: GroupId, visible: set<PostId>): set<PostId> {
    PinnedPosts(rows, g) * visible
  }

  /** A pinned post has an update exactly when it is visible. */
  lemma Listed(rows: Table, g: GroupId, visible: set<PostId>, ids: seq<PostId>, done: seq<nat>, p: PostId)
    requires Holds(ids, ReorderablePosts(rows, g, visible)) && forall i :: i in done <==> 0 <= i < |ids|
    ensures LastDone(ids, done, p).Some? <==> IsPinned(rows, p, g) && p in visible
  {
    if p in ids {
      var i :| 0 <= i < |ids| && ids[i] == p;
      assert i in done;
    }
  }

  lemma ListedIndices(rows: Table, g: GroupId, visible: set<PostId>, ids: seq<PostId>, done: seq<nat>, i: nat)
    requires Distinct(ids) && Holds(ids, ReorderablePosts(rows, g, visible))
    requires (forall j :: j in done <==> 0 <= j < |ids|) && i < |ids|
    ensures IsPinned(rows, ids[i], g) && Index(ReorderStep(rows, g, ids, done), ids[i], g) == i + 1
  {
    assert ids[i] in ids;
    ReorderSetsIndices(rows, g, ids, done);
  }

  lemma SamePins(rows: Table, g: GroupId, ids: seq<PostId>, done: seq<nat>)
    requires forall i :: i in done ==> i < |ids|
    ensures var after := ReorderStep(rows, g, ids, done);
            && (forall p, h :: IsPinned(after, p, h) <==> IsPinned(rows, p, h))
            && (forall p, h :: Key(p, h) in after <==> Key(p, h) in rows)
  {
    ReorderSetsLast(rows, g, ids, done);
  }

  /** A hidden pinned post of the group sits on an index the listing of length `n` takes. */
  predicate Collides(rows: Table, g: GroupId, visible: set<PostId>, n: nat) {
    exists k :: k in rows && k.group == g && rows[k].pinned && k.post !in visible && rows[k].index <= n
  }

  /** A hidden pinned post of the group sits on the index a listed post ends on. */
  ghost predicate Clashes(rows: Table, g: GroupId, visible: set<PostId>, ids: seq<PostId>, done: seq<nat>)
    requires forall i :: i in done ==> i < |ids|
  {
    exists p, q :: && LastDone(ids, done, p).Some? && IsPinned(rows, q, g) && q !in visible
                   && Index(rows, q, g) == LastDone(ids, done, p).value + 1
  }

  /** The indices of two pinned posts after an accepted reorder without a clash. */
  lemma IndicesStayApart(rows: Table, g: GroupId, visible: set<PostId>, ids: seq<PostId>, done: seq<nat>,
                         p: PostId, q: PostId)
    requires WellIndexed(rows) && Holds(ids, ReorderablePosts(rows, g, visible))
    requires forall i :: i in done <==> 0 <= i < |ids|
    requires !Clashes(rows, g, visible, ids, done)
    requires IsPinned(rows, p, g) && IsPinned(rows, q, g) && p != q
    ensures var after := ReorderStep(rows, g, ids, done); Index(after, p, g) != Index(after, q, g)
  {
    ReorderSetsLast(rows, g, ids, done);
    Listed(rows, g, visible, ids, done, p);
    Listed(rows, g, visible, ids, done, q);
  }

  /** A reorder the endpoint accepts, repeated ids included, keeps the indices well formed if and only if no hidden
      pinned post of the group sits on an index a listed post ends on. */
  lemma ReorderIff(rows: Table, g: GroupId, visible: set<PostId>, ids: seq<PostId>, done: seq<nat>)
    requires WellIndexed(rows) && Holds(ids, ReorderablePosts(rows, g, visible))
    requires forall i :: i in done <==> 0 <= i < |ids|
    ensures WellIndexed(ReorderStep(rows, g, ids, done)) <==> !Clashes(rows, g, visible, ids, done)
  {
    var after := ReorderStep(rows, g, ids, done);
    ReorderSetsLast(rows, g, ids, done);
    forall p
      ensures LastDone(ids, done, p).Some? <==> IsPinned(rows, p, g) && p in visible
    {
      Listed(rows, g, visible, ids, done, p);
    }
    if Clashes(rows, g, visible, ids, done) {
      var p, q :| && LastDone(ids, done, p).Some? && IsPinned(rows, q, g) && q !in visible
                  && Index(rows, q, g) == LastDone(ids, done, p).value + 1;
      assert IsPinned(after, p, g) && IsPinned(after, q, g) && Index(after, p, g) == Index(after, q, g);
    } else {
      forall p, q, h | IsPinned(after, p, h) && IsPinned(after, q, h) && p != q
        ensures Index(after, p, h) != Index(after, q, h)
      {
        assert IsPinned(rows, p, h) && IsPinned(rows, q, h);
        if h == g {
          IndicesStayApart(rows, g, visible, ids, done, p, q);
        }
      }
    }
  }

  /** For a duplicate-free listing of `n` posts the taken indices are `1..n`. */
  lemma DistinctClashes(rows: Table, g: GroupId, visible: set<PostId>, ids: seq<PostId>, done: seq<nat>)
    requires WellIndexed(rows) && Distinct(ids) && forall i :: i in done <==> 0 <= i < |ids|
    ensures Clashes(rows, g, visible, ids, done) <==> Collides(rows, g, visible, |ids|)
  {
    if Collides(rows, g, visible, |ids|) {
      var k :| k in rows && k.group == g && rows[k].pinned && k.post !in visible && rows[k].index <= |ids|;
      assert k == Key(k.post, g) && IsPinned(rows, k.post, g);
      var i := Index(rows, k.post, g) - 1;
      assert i in done;
      assert LastDone(ids, done, ids[i]) == Some(i);
    }
  }

  /** Posts 1 and 2 are pinned in group 7. */
  const UNPINNED: Table := map[Key(1, 7) := PinRow(false, false, 0), Key(2, 7) := PinRow(false, false, 0)]
  const PINNED: Table := map[Key(1, 7) := PinRow(false, true, 1), Key(2, 7) := PinRow(false, true, 2)]

  const ONCE: Table := map[Key(1, 7) := PinRow(false, true, 1), Key(2, 7) := PinRow(false, false, 0)]

  lemma FirstPin()
    ensures WellIndexed(UNPINNED) && PinStep(UNPINNED, 1, {7}) == ONCE
  {
    assert UNPINNED[Key(1, 7)].index in IndicesIn(UNPINNED, 7);
    assert IndicesIn(UNPINNED, 7) == {0};
  }

  lemma SecondPin()
    ensures PinStep(ONCE, 2, {7}) == PINNED
  {
    assert ONCE[Key(1, 7)].index in IndicesIn(ONCE, 7) && ONCE[Key(2, 7)].index in IndicesIn(ONCE, 7);
    assert IndicesIn(ONCE, 7) == {0, 1};
  }

  lemma PinnedIsIndexed()
    ensures WellIndexed(PINNED)
  {
    FirstPin();
    SecondPin();
    PinKeepsIndexed(UNPINNED, 1, {7});
    PinKeepsIndexed(ONCE, 2, {7});
  }

  lemma ClashBreaks(rows: Table, g: GroupId, visible: set<PostId>, ids: seq<PostId>, done: seq<nat>)
    requires WellIndexed(rows) && Elems(ids) == ReorderablePosts(rows, g, visible)
    requires (forall i :: i in done <==> 0 <= i < |ids|) && Clashes(rows, g, visible, ids, done)
    ensures !WellIndexed(ReorderStep(rows, g, ids, done))
  {
    assert forall p :: p in ids <==> p in Elems(ids);
    ReorderIff(rows, g, visible, ids, done);
  }

  lemma ListingOne()
    ensures Elems([2]) == ReorderablePosts(PINNED, 7, {2}) && Clashes(PINNED, 7, {2}, [2], [0])
  {
    assert IsPinned(PINNED, 2, 7) && IsPinned(PINNED, 1, 7);
    assert LastDone([2], [0], 2) == Some(0);
    assert Index(PINNED, 1, 7) == 1;
  }

  /** Post 1 is pinned, then post 2, then post 1 is hidden: listing the only visible pinned post, `[2]`, is accepted
      and puts both on index 1. */
  lemma HiddenPinIsHit()
    ensures PinStep(PinStep(UNPINNED, 1, {7}), 2, {7}) == PINNED && WellIndexed(UNPINNED)
    ensures Elems([2]) == ReorderablePosts(PINNED, 7, {2})
    ensures !WellIndexed(ReorderStep(PINNED, 7, [2], [0]))
  {
    FirstPin();
    SecondPin();
    PinnedIsIndexed();
    ListingOne();
    ClashBreaks(PINNED, 7, {2}, [2], [0]);
  }

  /** After a reorder without a collision the visible part of the pinned list is the listing. */
  lemma ReorderListing(rows: Table, g: GroupId, visible: set<PostId>, ids: seq<PostId>, done: seq<nat>)
    requires WellIndexed(rows) && Distinct(ids) && Holds(ids, ReorderablePosts(rows, g, visible))
    requires (forall i :: i in done <==> 0 <= i < |ids|) && !Collides(rows, g, visible, |ids|)
    ensures Restrict(Listing(ReorderStep(rows, g, ids, done), g), visible) == ids
  {
    var after := ReorderStep(rows, g, ids, done);
    DistinctClashes(rows, g, visible, ids, done);
    ReorderIff(rows, g, visible, ids, done);
    SamePins(rows, g, ids, done);
    forall i | 0 <= i < |ids| ensures Index(after, ids[i], g) == i + 1 {
      ListedIndices(rows, g, visible, ids, done, i);
    }
    SortedIsOrdered(after, g, PinnedPosts(after, g));
    var s := Listing(after, g);
    RestrictKeepsOrder(after, after, g, s, visible);
    assert forall p :: p in s <==> IsPinned(rows, p, g);
    OrderIsUnique(after, g, Restrict(s, visible), ids);
  }

  /** A reorder of one group, accepted or not, leaves every other group's list alone. */
  lemma ReorderElsewhere(rows: Table, g: GroupId, ids: seq<PostId>, done: seq<nat>, h: GroupId)
    requires WellIndexed(rows) && h != g && forall i :: i in done ==> i < |ids|
    ensures Listing(ReorderStep(rows, g, ids, done), h) == Listing(rows, h)
  {
    ReorderSetsLast(rows, g, ids, done);
    SameList(rows, ReorderStep(rows, g, ids, done), h);
  }

  // ---------- the ordered read ----------

  /** The `WHERE` clause of `getIdsPinnedInGroup`: only signed-in readers get the pinned and report conditions. */
  predicate Read(rows: Table, p: PostId, g: GroupId, signedIn: bool, reported: set<PostId>) {
    && Key(p, g) in rows && !rows[Key(p, g)].archived
    && (signedIn ==> rows[Key(p, g)].pinned && p !in reported)
  }

  ghost predicate NonDescending(rows: Table, g: GroupId, r: seq<PostId>) {
    forall i, j :: 0 <= i < j < |r| ==> Index(rows, r[i], g) <= Index(rows, r[j], g)
  }

  /** Any answer to the query: the selected posts once each, by `pinned_index ASC`, ties in any order. */
  ghost predicate IsAnswer(rows: Table, g: GroupId, signedIn: bool, reported: set<PostId>, r: seq<PostId>) {
    && Distinct(r)
    && (forall p :: p in r <==> Read(rows, p, g, signedIn, reported))
    && NonDescending(rows, g, r)
  }

  lemma AnswerGrows(rows: Table, g: GroupId, r: seq<PostId>, p: PostId)
    requires Distinct(r) && NonDescending(rows, g, r)
    requires p !in r && forall q :: q in r ==> Index(rows, q, g) <= Index(rows, p, g)
    ensures Distinct(r + [p]) && NonDescending(rows, g, r + [p])
  {
    var t := r + [p];
    forall i, j | 0 <= i < j < |t| ensures t[i] != t[j] && Index(rows, t[i], g) <= Index(rows, t[j], g) {
      assert t[i] == r[i] && r[i] in r;
      assert t[j] == if j == |r| then p else r[j];
    }
  }

  function Unarchived(rows: Table, g: GroupId): set<PostId> {
    set k | k in rows && k.group == g && !rows[k].archived :: k.post
  }

  lemma InUnarchived(rows: Table, g: GroupId)
    ensures forall p :: p in Unarchived(rows, g) <==> Key(p, g) in rows && !rows[Key(p, g)].archived
  {
    assert forall p :: Key(p, g) in rows && !rows[Key(p, g)].archived ==> Key(p, g).post in Unarchived(rows, g);
  }

  /** A signed-in reader gets the pinned list without archived and reported posts, in its order. */
  lemma SignedInReadIsListing(rows: Table, g: GroupId, reported: set<PostId>, r: seq<PostId>)
    requires WellIndexed(rows) && IsAnswer(rows, g, true, reported, r)
    ensures r == Restrict(Listing(rows, g), Unarchived(rows, g) - reported)
  {
    var keep := Unarchived(rows, g) - reported;
    InUnarchived(rows, g);
    SortedIsOrdered(rows, g, PinnedPosts(rows, g));
    RestrictKeepsOrder(rows, rows, g, Listing(rows, g), keep);
    forall i, j | 0 <= i < j < |r| ensures Index(rows, r[i], g) < Index(rows, r[j], g) {
      assert r[i] in r && r[j] in r;
      assert IsPinned(rows, r[i], g) && IsPinned(rows, r[j], g);
    }
    assert Holds(Listing(rows, g), PinnedPosts(rows, g));
    OrderIsUnique(rows, g, r, Restrict(Listing(rows, g), keep));
  }

  /** An anonymous reader gets the pinned list if and only if the group has no unarchived unpinned row. */
  lemma AnonymousReadIsListingIff(rows: Table, g: GroupId, r: seq<PostId>)
    requires WellIndexed(rows) && IsAnswer(rows, g, false, {}, r)
    ensures r == Restrict(Listing(rows, g), Unarchived(rows, g))
            <==> forall p :: p in Unarchived(rows, g) ==> IsPinned(rows, p, g)
  {
    InUnarchived(rows, g);
    SortedIsOrdered(rows, g, PinnedPosts(rows, g));
    var s := Restrict(Listing(rows, g), Unarchived(rows, g));
    if forall p :: p in Unarchived(rows, g) ==> IsPinned(rows, p, g) {
      forall p ensures p in r <==> Read(rows, p, g, true, {}) {}
      assert IsAnswer(rows, g, true, {}, r);
      SignedInReadIsListing(rows, g, {}, r);
      assert Unarchived(rows, g) - {} == Unarchived(rows, g);
    } else {
      var p :| p in Unarchived(rows, g) && !IsPinned(rows, p, g);
      assert Read(rows, p, g, false, {}) && p in r;
      assert p !in Listing(rows, g);
    }
  }

  /** A signed-out reader of a group with one unpinned post is shown it as pinned. */
  lemma UnpinnedIsRead()
    ensures WellIndexed(UNPINNED) && IsAnswer(UNPINNED, 7, false, {}, [1, 2])
    ensures [1, 2] != Restrict(Listing(UNPINNED, 7), Unarchived(UNPINNED, 7))
  {
    FirstPin();
    assert Key(1, 7) in UNPINNED && Key(2, 7) in UNPINNED;
    InUnarchived(UNPINNED, 7);
    assert 1 in Unarchived(UNPINNED, 7) && !IsPinned(UNPINNED, 1, 7);
    AnonymousReadIsListingIff(UNPINNED, 7, [1, 2]);
  }

  // ---------- runs ----------

  datatype Step =
    | Pin(post: PostId, groups: set<GroupId>)
    | Unpin(post: PostId, groups: set<GroupId>)
    | Reorder(group: GroupId, ids: seq<PostId>, done: seq<nat>)

  ghost function Next(rows: Table, step: Step): Table
    requires step.Reorder? ==> forall i :: i in step.done ==> i < |step.ids|
  {
    match step
    case Pin(p, gs) => PinStep(rows, p, gs)
    case Unpin(p, gs) => UnpinStep(rows, p, gs)
    case Reorder(g, ids, done) => ReorderStep(rows, g, ids, done)
  }

  /** A reorder with a duplicate-free listing of all pinned posts of the group, in any completion order. */
  ghost predicate Complete(rows: Table, step: Step) {
    step.Reorder? ==>
      && Distinct(step.ids) && Holds(step.ids, PinnedPosts(rows, step.group))
      && Distinct(step.done) && forall i :: i in step.done <==> 0 <= i < |step.ids|
  }

  /** What the step does to the abstract list of a group. */
  ghost function AbstractNext(rows: Table, s: seq<PostId>, step: Step, g: GroupId): seq<PostId> {
    match step
    case Pin(p, gs) => if g in gs && Key(p, g) in rows then Remove(s, p) + [p] else s
    case Unpin(p, gs) => if g in gs then Remove(s, p) else s
    case Reorder(h, ids, _) => if h == g then ids else s
  }

  /** One step refines: well-formed indices stay so, and every group's list makes the abstract step. */
  lemma StepRefines(rows: Table, step: Step, g: GroupId)
    requires WellIndexed(rows) && Complete(rows, step)
    ensures WellIndexed(Next(rows, step)) && Next(rows, step).Keys == rows.Keys
    ensures Listing(Next(rows, step), g) == AbstractNext(rows, Listing(rows, g), step, g)
  {
    match step
    case Pin(p, gs) => PinAppends(rows, p, gs, g);
    case Unpin(p, gs) => UnpinRemoves(rows, p, gs, g);
    case Reorder(h, ids, done) =>
      var all := PinnedPosts(rows, h);
      assert ReorderablePosts(rows, h, all) == all;
      assert !Collides(rows, h, all, |ids|);
      DistinctClashes(rows, h, all, ids, done);
      ReorderIff(rows, h, all, ids, done);
      if g != h { ReorderElsewhere(rows, h, ids, done, g); }
      ReorderSetsIndices(rows, h, ids, done);
      if g == h {
        var after := Next(rows, step);
        assert forall p :: IsPinned(after, p, h) <==> IsPinned(rows, p, h);
        assert PinnedPosts(after, h) == all;
        ReorderListing(rows, h, all, ids, done);
        SortedIsOrdered(after, h, all);
        RestrictToAll(Listing(after, h), all);
      }
  }

  lemma {:induction false} RestrictToAll(s: seq<PostId>, keep: set<PostId>)
    requires forall p :: p in s ==> p in keep
    ensures Restrict(s, keep) == s
  {
    if s != [] {
      assert s[0] in s && forall p :: p in s[1..] ==> p in s;
      RestrictToAll(s[1..], keep);
    }
  }

  ghost predicate Runs(rows: Table, steps: seq<Step>)
    decreases |steps|
  {
    steps == [] || (Complete(rows, steps[0]) && Runs(Next(rows, steps[0]), steps[1..]))
  }

  ghost function RunTable(rows: Table, steps: seq<Step>): Table
    requires Runs(rows, steps)
    decreases |steps|
  {
    if steps == [] then rows else RunTable(Next(rows, steps[0]), steps[1..])
  }

  ghost function RunList(rows: Table, s: seq<PostId>, steps: seq<Step>, g: GroupId): seq<PostId>
    requires Runs(rows, steps)
    decreases |steps|
  {
    if steps == [] then s
    else RunList(Next(rows, steps[0]), AbstractNext(rows, s, steps[0], g), steps[1..], g)
  }

  /** Every run keeps pinned indices positive and distinct and refines the run on the abstract list. */
  lemma {:induction false} RunRefines(rows: Table, steps: seq<Step>, g: GroupId)
    requires WellIndexed(rows) && Runs(rows, steps)
    ensures WellIndexed(RunTable(rows, steps))
    ensures Listing(RunTable(rows, steps), g) == RunList(rows, Listing(rows, g), steps, g)
    decreases |steps|
  {
    if steps != [] {
      StepRefines(rows, steps[0], g);
      RunRefines(Next(rows, steps[0]), steps[1..], g);
    }
  }

  /** The rows and archived marks are the same before and after. */
  ghost predicate SameRows(rows: Table, after: Table) {
    after.Keys == rows.Keys && forall k :: k in rows ==> after[k].archived == rows[k].archived
  }

  lemma StepKeepsRows(rows: Table, step: Step)
    requires step.Reorder? ==> forall i :: i in step.done ==> i < |step.ids|
    ensures SameRows(rows, Next(rows, step))
  {
    match step
    case Pin(p, gs) =>
      forall k | k in rows ensures k in PinStep(rows, p, gs) && PinStep(rows, p, gs)[k].archived == rows[k].archived {
        PinWrites(rows, p, gs, k);
      }
    case Unpin(p, gs) =>
    case Reorder(g, ids, done) => ReorderSetsLast(rows, g, ids, done);
  }

  lemma {:induction false} RunKeepsRows(rows: Table, steps: seq<Step>)
    requires Runs(rows, steps)
    ensures SameRows(rows, RunTable(rows, steps))
    decreases |steps|
  {
    if steps != [] {
      StepKeepsRows(rows, steps[0]);
      RunKeepsRows(Next(rows, steps[0]), steps[1..]);
    }
  }

  /** What a signed-in reader sees after a run is decided by the abstract list and the archived marks at the start. */
  lemma ReadFollowsRun(rows: Table, steps: seq<Step>, g: GroupId, reported: set<PostId>, r: seq<PostId>)
    requires WellIndexed(rows) && Runs(rows, steps)
    requires IsAnswer(RunTable(rows, steps), g, true, reported, r)
    ensures r == Restrict(RunList(rows, Listing(rows, g), steps, g), Unarchived(rows, g) - reported)
  {
    var end := RunTable(rows, steps);
    RunRefines(rows, steps, g);
    RunKeepsRows(rows, steps);
    InUnarchived(rows, g);
    InUnarchived(end, g);
    assert Unarchived(end, g) == Unarchived(rows, g);
    SignedInReadIsListing(end, g, reported, r);
  }

  // ---------- runs of accepted requests ----------

  /** A request as the endpoint sees it: the posts that are visible at that time decide which listings it accepts. */
  datatype Request = Request(step: Step, visible: set<PostId>)

  /** A reorder lists exactly the visible pinned posts, any number of times each; pins and unpins are free. */
  ghost predicate Accepted(rows: Table, r: Request) {
    r.step.Reorder? ==>
      && Holds(r.step.ids, ReorderablePosts(rows, r.step.group, r.visible))
      && forall i :: i in r.step.done <==> 0 <= i < |r.step.ids|
  }

  ghost predicate Disturbs(rows: Table, r: Request)
    requires Accepted(rows, r)
  {
    r.step.Reorder? && Clashes(rows, r.step.group, r.visible, r.step.ids, r.step.done)
  }

  ghost predicate AllAccepted(rows: Table, rs: seq<Request>)
    decreases |rs|
  {
    rs == [] || (Accepted(rows, rs[0]) && AllAccepted(Next(rows, rs[0].step), rs[1..]))
  }

  ghost predicate NeverDisturbs(rows: Table, rs: seq<Request>)
    requires AllAccepted(rows, rs)
    decreases |rs|
  {
    rs == [] || (!Disturbs(rows, rs[0]) && NeverDisturbs(Next(rows, rs[0].step), rs[1..]))
  }

  ghost predicate AlwaysIndexed(rows: Table, rs: seq<Request>)
    requires AllAccepted(rows, rs)
    decreases |rs|
  {
    WellIndexed(rows) && (rs == [] || AlwaysIndexed(Next(rows, rs[0].step), rs[1..]))
  }

  ghost function AfterRequests(rows: Table, rs: seq<Request>): Table
    requires AllAccepted(rows, rs)
    decreases |rs|
  {
    if rs == [] then rows else AfterRequests(Next(rows, rs[0].step), rs[1..])
  }

  lemma {:induction false} RequestsKeepRows(rows: Table, rs: seq<Request>)
    requires AllAccepted(rows, rs)
    ensures SameRows(rows, AfterRequests(rows, rs))
    decreases |rs|
  {
    if rs != [] {
      StepKeepsRows(rows, rs[0].step);
      RequestsKeepRows(Next(rows, rs[0].step), rs[1..]);
    }
  }

  lemma RequestKeepsIff(rows: Table, r: Request)
    requires WellIndexed(rows) && Accepted(rows, r)
    ensures WellIndexed(Next(rows, r.step)) <==> !Disturbs(rows, r)
  {
    match r.step
    case Pin(p, gs) => PinKeepsIndexed(rows, p, gs);
    case Unpin(p, gs) => UnpinCells(rows, p, gs);
    case Reorder(g, ids, done) => ReorderIff(rows, g, r.visible, ids, done);
  }

  /** Over a run of accepted requests, with posts hidden and shown in between, the indices are well formed after every
      request if and only if no reorder puts a listed post on the index of a hidden pinned one. */
  lemma {:induction false} AcceptedRunsIff(rows: Table, rs: seq<Request>)
    requires WellIndexed(rows) && AllAccepted(rows, rs)
    ensures AlwaysIndexed(rows, rs) <==> NeverDisturbs(rows, rs)
    decreases |rs|
  {
    if rs != [] {
      RequestKeepsIff(rows, rs[0]);
      if WellIndexed(Next(rows, rs[0].step)) {
        AcceptedRunsIff(Next(rows, rs[0].step), rs[1..]);
      }
    }
  }

  // ---------- the table as the service changes it ----------

  class PostGroupTable {
    var rows: Table

    constructor (rows: Table)
      ensures this.rows == rows
    {
      this.rows := rows;
    }

    method PinPostToGroupIds(postId: PostId, groupIds: seq<GroupId>)
      modifies this
      ensures rows == PinStep(old(rows), postId, Elems(groupIds))
    {
      if |groupIds| == 0 {
        return;
      }
      var top := MaxPerGroup(groupIds);
      ghost var was := rows;
      rows := map k | k in rows ::
        if k.post == postId && k.group in groupIds then
          rows[k].(pinned := true, index := top[k.group] + 1)
        else rows[k];
      forall k | k in was ensures rows[k] == PinStep(was, postId, Elems(groupIds))[k] {
        assert k.group in groupIds <==> k.group in Elems(groupIds);
      }
    }

    /** The grouped `MAX(pinned_index)` query. */
    method MaxPerGroup(groupIds: seq<GroupId>) returns (top: map<GroupId, nat>)
      ensures forall g :: g in groupIds ==> g in top && top[g] == MaxIndex(rows, g)
    {
      top := map[];
      for i := 0 to |groupIds|
        invariant forall g :: g in groupIds[..i] ==> g in top
        invariant forall g :: g in top ==> top[g] == MaxIndex(rows, g)
      {
        var m := Maximum(IndicesIn(rows, groupIds[i]));
        top := top[groupIds[i] := m];
        assert groupIds[..i + 1] == groupIds[..i] + [groupIds[i]];
      }
      assert groupIds[..|groupIds|] == groupIds;
    }

    method UnpinPostToGroupIds(postId: PostId, groupIds: seq<GroupId>)
      modifies this
      ensures rows == UnpinStep(old(rows), postId, Elems(groupIds))
    {
      if |groupIds| == 0 {
        return;
      }
      rows := map k | k in rows ::
        if k.post == postId && k.group in groupIds then rows[k].(pinned := false, index := 0) else rows[k];
    }

    /** `visible` are the published posts that are neither hidden nor soft-deleted. */
    method ReorderPinnedContent(groupId: GroupId, postIds: seq<PostId>, visible: set<PostId>)
      returns (outcome: ReorderOutcome)
      modifies this
      ensures outcome.Reordered? <==> Elems(postIds) == ReorderablePosts(old(rows), groupId, visible)
      ensures outcome.NotBelong? <==> !(Elems(postIds) <= ReorderablePosts(old(rows), groupId, visible))
      ensures outcome.NotBelong? ==>
                var current := ReorderablePosts(old(rows), groupId, visible);
                && (forall p :: p in outcome.denied <==> p in postIds && p !in current)
                && outcome.denied == Restrict(postIds, Elems(postIds) - current)
      ensures outcome.Lack? ==> outcome.lacked == ReorderablePosts(old(rows), groupId, visible) - Elems(postIds)
      ensures rows == if outcome.Reordered?
                      then ReorderStep(old(rows), groupId, postIds, Positions(|postIds|)) else old(rows)
    {
      var current := ReorderablePosts(rows, groupId, visible);
      var notBelong := Restrict(postIds, Elems(postIds) - current);
      assert forall p :: p in Elems(postIds) && p !in current ==> p in notBelong;
      if |notBelong| > 0 {
        assert notBelong[0] in notBelong;
        assert notBelong[0] in Elems(postIds) && notBelong[0] !in current;
        return NotBelong(notBelong);
      }
      var lacked := current - Elems(postIds);
      if lacked != {} {
        return Lack(lacked);
      }
      assert Elems(postIds) == current by {
        forall p | p in current ensures p in Elems(postIds) { assert p !in lacked; }
      }
      ghost var all := Positions(|postIds|);
      for i := 0 to |postIds|
        invariant ReorderStep(rows, groupId, postIds, all[i..]) == ReorderStep(old(rows), groupId, postIds, all)
      {
        assert all[i..][0] == i && all[i..][1..] == all[i + 1..];
        rows := SetIndex(rows, postIds[i], groupId, i + 1);
      }
      outcome := Reordered;
    }

    method GetIdsPinnedInGroup(groupId: GroupId, signedIn: bool, reported: set<PostId>) returns (ids: seq<PostId>)
      ensures IsAnswer(rows, groupId, signedIn, reported, ids)
    {
      var left := set k | k in rows && k.group == groupId && Read(rows, k.post, groupId, signedIn, reported) :: k.post;
      assert forall p :: Read(rows, p, groupId, signedIn, reported) ==> Key(p, groupId).post in left;
      ids := [];
      while left != {}
        invariant Distinct(ids) && NonDescending(rows, groupId, ids)
        invariant forall p :: p in ids ==> p !in left
        invariant forall p :: p in ids || p in left <==> Read(rows, p, groupId, signedIn, reported)
        invariant forall p, q :: p in ids && q in left ==> Index(rows, p, groupId) <= Index(rows, q, groupId)
        decreases left
      {
        LowestExists(rows, groupId, left);
        var p :| p in left && IsLowest(rows, groupId, left, p);
        AnswerGrows(rows, groupId, ids, p);
        assert forall q :: q in ids + [p] <==> q in ids || q == p;
        ids := ids + [p];
        left := left - {p};
      }
    }
  }
}

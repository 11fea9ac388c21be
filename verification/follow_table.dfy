/** The `follows` table and the cursor page query the fan-out walks it with. */
module FollowTable {
  import opened Ids
  import opened Lists

  /** `zindex` is the auto-increment column, (user, group) the primary key. */
  datatype FollowRow = FollowRow(zindex: nat, user: UserId, group: GroupId)

  ghost predicate Ascending(rows: seq<FollowRow>) {
    forall i, j :: 0 <= i < j < |rows| ==> rows[i].zindex < rows[j].zindex
  }

  /** Rows in insertion order, which is `ORDER BY zindex`; `next` is the next value of the sequence. */
  ghost predicate ValidRows(rows: seq<FollowRow>, next: nat) {
    && 0 < next
    && Ascending(rows)
    && (forall r :: r in rows ==> 0 < r.zindex < next)
    && (forall i, j :: 0 <= i < j < |rows| ==> rows[i].user != rows[j].user || rows[i].group != rows[j].group)
  }

  predicate Follows(rows: seq<FollowRow>, u: UserId, g: GroupId) {
    exists r :: r in rows && r.user == u && r.group == g
  }

  predicate FollowsAny(rows: seq<FollowRow>, u: UserId, gs: set<GroupId>) {
    exists g :: g in gs && Follows(rows, u, g)
  }

  function Followers(rows: seq<FollowRow>, gs: set<GroupId>): set<UserId> {
    set r | r in rows && r.group in gs :: r.user
  }

  lemma FollowersAreThoseWhoFollow(rows: seq<FollowRow>, gs: set<GroupId>)
    ensures forall u :: u in Followers(rows, gs) <==> FollowsAny(rows, u, gs)
  {
    forall u ensures u in Followers(rows, gs) <==> FollowsAny(rows, u, gs) {
      if FollowsAny(rows, u, gs) {
        var g :| g in gs && Follows(rows, u, g);
        var r :| r in rows && r.user == u && r.group == g;
        assert r.user in Followers(rows, gs);
      }
      if u in Followers(rows, gs) {
        var r :| r in rows && r.group in gs && r.user == u;
        assert Follows(rows, u, r.group);
      }
    }
  }

  // ---------- the page query ----------

  /** The `WHERE` clause without the cursor: in a target group, and following none of the excluded groups. */
  predicate Eligible(rows: seq<FollowRow>, r: FollowRow, target: set<GroupId>, exclude: set<GroupId>) {
    r.group in target && !FollowsAny(rows, r.user, exclude)
  }

  /** Rows of `scan` the query selects beyond the cursor, in `zindex` order. */
  function Selected(rows: seq<FollowRow>, scan: seq<FollowRow>,
                    target: set<GroupId>, exclude: set<GroupId>, cursor: nat): (s: seq<FollowRow>)
    ensures forall r :: r in s <==> r in scan && Eligible(rows, r, target, exclude) && cursor < r.zindex
    ensures |s| <= |scan|
  {
    if scan == [] then []
    else
      assert forall r :: r in scan <==> r == scan[0] || r in scan[1..];
      var rest := Selected(rows, scan[1..], target, exclude, cursor);
      if Eligible(rows, scan[0], target, exclude) && cursor < scan[0].zindex then [scan[0]] + rest else rest
  }

  function Page(rows: seq<FollowRow>, target: set<GroupId>, exclude: set<GroupId>, cursor: nat, limit: nat)
    : seq<FollowRow>
  {
    Take(Selected(rows, rows, target, exclude, cursor), limit)
  }

  function Users(rows: seq<FollowRow>): set<UserId> {
    set r | r in rows :: r.user
  }

  /** The cursor handed back: the last row's `zindex`, or 0 for an empty page. */
  function LastZindex(page: seq<FollowRow>): nat {
    if page == [] then 0 else page[|page| - 1].zindex
  }

  lemma ConsAscends(first: FollowRow, rest: seq<FollowRow>)
    requires Ascending(rest) && forall r :: r in rest ==> first.zindex < r.zindex
    ensures Ascending([first] + rest)
  {
    var s := [first] + rest;
    forall i, j | 0 <= i < j < |s| ensures s[i].zindex < s[j].zindex {
      assert s[j] == rest[j - 1] && rest[j - 1] in rest;
    }
  }

  lemma TailAscends(rows: seq<FollowRow>)
    requires Ascending(rows) && rows != []
    ensures Ascending(rows[1..])
    ensures forall r :: r in rows[1..] ==> rows[0].zindex < r.zindex
  {
    forall r | r in rows[1..] ensures rows[0].zindex < r.zindex {
      var i :| 0 <= i < |rows[1..]| && rows[1..][i] == r;
      assert rows[i + 1] == r;
    }
  }

  lemma {:induction false} SelectedIsSorted(rows: seq<FollowRow>, scan: seq<FollowRow>,
                                            target: set<GroupId>, exclude: set<GroupId>, cursor: nat)
    requires Ascending(scan)
    ensures Ascending(Selected(rows, scan, target, exclude, cursor))
  {
    if scan != [] {
      TailAscends(scan);
      SelectedIsSorted(rows, scan[1..], target, exclude, cursor);
      ConsAscends(scan[0], Selected(rows, scan[1..], target, exclude, cursor));
    }
  }

  /** What `LIMIT` takes from an ascending list, and what it leaves out. */
  lemma TakeCovers(s: seq<FollowRow>, limit: nat)
    requires Ascending(s) && 1 <= limit
    ensures var page := Take(s, limit);
            && (forall r :: r in page ==> r in s && r.zindex <= LastZindex(page))
            && (page != [] ==> page[|page| - 1] in s)
            && (forall r :: r in s ==> r in page || (|page| == limit && LastZindex(page) < r.zindex))
  {
    var page := Take(s, limit);
    if page != [] {
      PrefixCovers(s, |page|);
      assert page == s[..|page|];
      assert page[|page| - 1] in page;
    }
  }

  /** A prefix of an ascending list ends at its largest member and leaves out only larger ones. */
  lemma PrefixCovers(s: seq<FollowRow>, n: nat)
    requires Ascending(s) && 0 < n <= |s|
    ensures forall r :: r in s[..n] ==> r.zindex <= s[n - 1].zindex
    ensures forall r :: r in s ==> r in s[..n] || s[n - 1].zindex < r.zindex
  {
    forall r | r in s[..n] ensures r.zindex <= s[n - 1].zindex {
      var i :| 0 <= i < n && s[i] == r;
    }
    forall r | r in s ensures r in s[..n] || s[n - 1].zindex < r.zindex {
      var i :| 0 <= i < |s| && s[i] == r;
      if i < n {
        assert s[..n][i] == r;
      }
    }
  }

  /** What one page guarantees: it holds only eligible rows beyond the cursor, moves the cursor forward,
      and leaves out an eligible row only when it is full and that row lies beyond the new cursor. */
  lemma PageCovers(rows: seq<FollowRow>, next: nat, target: set<GroupId>, exclude: set<GroupId>,
                   cursor: nat, limit: nat)
    requires ValidRows(rows, next) && 1 <= limit
    ensures var page := Page(rows, target, exclude, cursor, limit);
            && |page| <= limit
            && (forall r :: r in page ==> r in rows && Eligible(rows, r, target, exclude)
                                          && cursor < r.zindex <= LastZindex(page))
            && (page != [] ==> cursor < LastZindex(page) < next)
            && (forall r :: r in rows && Eligible(rows, r, target, exclude) && cursor < r.zindex ==>
                  r in page || (|page| == limit && LastZindex(page) < r.zindex))
  {
    SelectedIsSorted(rows, rows, target, exclude, cursor);
    TakeCovers(Selected(rows, rows, target, exclude, cursor), limit);
  }

  // ---------- writing the table ----------

  /** The groups the user follows, as the `findAll` on the user returns them. */
  function JoinedGroupIds(rows: seq<FollowRow>, u: UserId): (gs: seq<GroupId>)
    ensures forall g :: g in gs <==> Follows(rows, u, g)
  {
    if rows == [] then []
    else
      assert forall r :: r in rows <==> r == rows[0] || r in rows[1..];
      var rest := JoinedGroupIds(rows[1..], u);
      assert forall g :: Follows(rows, u, g) <==> (rows[0].user == u && rows[0].group == g) || Follows(rows[1..], u, g);
      if rows[0].user == u then [rows[0].group] + rest else rest
  }

  function AddFollow(rows: seq<FollowRow>, next: nat, u: UserId, g: GroupId): seq<FollowRow> {
    if Follows(rows, u, g) then rows else rows + [FollowRow(next, u, g)]
  }

  /** `bulkCreate` with `ignoreDuplicates`: a pair already present is skipped; the sequence moves on anyway. */
  function AddFollows(rows: seq<FollowRow>, next: nat, u: UserId, gs: seq<GroupId>): (seq<FollowRow>, nat)
    decreases |gs|
  {
    if gs == [] then (rows, next)
    else
      AddFollows(AddFollow(rows, next, u, gs[0]), next + 1, u, gs[1..])
  }

  /** `rows'` is `rows` with the user's follows of `gs` appended under later `zindex` values. */
  ghost predicate Added(rows: seq<FollowRow>, next: nat, rows': seq<FollowRow>, next': nat, u: UserId,
                        gs: seq<GroupId>)
  {
    && next <= next'
    && rows <= rows'
    && (forall r :: r in rows ==> r in rows')
    && (forall v, g :: Follows(rows', v, g) <==> Follows(rows, v, g) || (v == u && g in gs))
    && (forall r :: r in rows' ==> r in rows || (r.user == u && r.group in gs && next <= r.zindex))
  }

  lemma AddedThen(a: seq<FollowRow>, n: nat, b: seq<FollowRow>, m: nat, c: seq<FollowRow>, k: nat,
                  u: UserId, gs: seq<GroupId>)
    requires gs != [] && Added(a, n, b, m, u, gs[..1]) && Added(b, m, c, k, u, gs[1..])
    ensures Added(a, n, c, k, u, gs)
  {
    assert forall g :: g in gs <==> g in gs[..1] || g in gs[1..];
  }

  lemma {:induction false} AddFollowsAdds(rows: seq<FollowRow>, next: nat, u: UserId, gs: seq<GroupId>)
    requires ValidRows(rows, next)
    ensures var (rows', next') := AddFollows(rows, next, u, gs);
            ValidRows(rows', next') && Added(rows, next, rows', next', u, gs)
    decreases |gs|
  {
    if gs != [] {
      AddOne(rows, next, u, gs[0]);
      var more := AddFollow(rows, next, u, gs[0]);
      AddFollowsAdds(more, next + 1, u, gs[1..]);
      assert gs[..1] == [gs[0]];
      var (rows', next') := AddFollows(more, next + 1, u, gs[1..]);
      AddedThen(rows, next, more, next + 1, rows', next', u, gs);
    }
  }

  /** The pairs are inserted in the listed order, each attempt taking the next value of the sequence. */
  lemma {:induction false} AddFollowsInOrder(rows: seq<FollowRow>, next: nat, u: UserId, gs: seq<GroupId>, g: GroupId)
    ensures var (rows', next') := AddFollows(rows, next, u, gs);
            && next' == next + |gs|
            && AddFollows(rows, next, u, gs + [g]) ==
               (if Follows(rows', u, g) then rows' else rows' + [FollowRow(next', u, g)], next' + 1)
    decreases |gs|
  {
    if gs == [] {
      assert gs + [g] == [g] && [g][1..] == [];
    } else {
      assert (gs + [g])[1..] == gs[1..] + [g];
      AddFollowsInOrder(AddFollow(rows, next, u, gs[0]), next + 1, u, gs[1..], g);
    }
  }

  lemma AddOne(rows: seq<FollowRow>, next: nat, u: UserId, g: GroupId)
    requires ValidRows(rows, next)
    ensures var more := AddFollow(rows, next, u, g);
            ValidRows(more, next + 1) && Added(rows, next, more, next + 1, u, [g])
  {
    if !Follows(rows, u, g) {
      var added := FollowRow(next, u, g);
      var more := rows + [added];
      assert added in more;
      assert forall r :: r in more <==> r in rows || r == added;
      forall i, j | 0 <= i < j < |more|
        ensures more[i].zindex < more[j].zindex && (more[i].user != more[j].user || more[i].group != more[j].group)
      {
        assert more[i] == rows[i] && rows[i] in rows;
      }
      forall v, h | Follows(rows, v, h) ensures Follows(more, v, h) {
        var r :| r in rows && r.user == v && r.group == h;
        assert r in more;
      }
    }
  }

  /** `DELETE FROM follows WHERE user_id = :u AND group_id IN (:gs)`. */
  function RemoveFollows(rows: seq<FollowRow>, u: UserId, gs: seq<GroupId>): (left: seq<FollowRow>)
    ensures forall r :: r in left <==> r in rows && !(r.user == u && r.group in gs)
  {
    if rows == [] then []
    else
      assert forall r :: r in rows <==> r == rows[0] || r in rows[1..];
      var rest := RemoveFollows(rows[1..], u, gs);
      if rows[0].user == u && rows[0].group in gs then rest else [rows[0]] + rest
  }

  lemma RemoveFollowsRemoves(rows: seq<FollowRow>, u: UserId, gs: seq<GroupId>)
    ensures forall v, g :: Follows(RemoveFollows(rows, u, gs), v, g) <==> Follows(rows, v, g) && !(v == u && g in gs)
  {
    var left := RemoveFollows(rows, u, gs);
    forall v, g | Follows(rows, v, g) && !(v == u && g in gs) ensures Follows(left, v, g) {
      var r :| r in rows && r.user == v && r.group == g;
      assert r in left;
    }
  }

  lemma {:induction false} RemoveFollowsKeepsOrder(rows: seq<FollowRow>, next: nat, u: UserId, gs: seq<GroupId>)
    requires ValidRows(rows, next)
    ensures ValidRows(RemoveFollows(rows, u, gs), next)
  {
    if rows != [] {
      var tail := rows[1..];
      assert forall r :: r in tail ==> r in rows;
      RemoveFollowsKeepsOrder(tail, next, u, gs);
      var rest := RemoveFollows(tail, u, gs);
      forall r | r in rest
        ensures rows[0].zindex < r.zindex && (r.user != rows[0].user || r.group != rows[0].group)
      {
        var i :| 0 <= i < |tail| && tail[i] == r;
        assert rows[i + 1] == r;
      }
      var left := RemoveFollows(rows, u, gs);
      assert left == rest || left == [rows[0]] + rest;
      if left != rest {
        ConsKeepsOrder(rows[0], rest, next);
      }
    }
  }

  lemma ConsKeepsOrder(first: FollowRow, rest: seq<FollowRow>, next: nat)
    requires ValidRows(rest, next) && 0 < first.zindex < next
    requires forall r :: r in rest ==>
                           first.zindex < r.zindex && (r.user != first.user || r.group != first.group)
    ensures ValidRows([first] + rest, next)
  {
    var all := [first] + rest;
    forall i, j | 0 <= i < j < |all|
      ensures all[i].zindex < all[j].zindex && (all[i].user != all[j].user || all[i].group != all[j].group)
    {
      assert all[j] == rest[j - 1] && rest[j - 1] in rest;
      assert i > 0 ==> all[i] == rest[i - 1];
    }
  }
}

/** Whole runs of the newsfeed: what follow, unfollow, publish and regroup keep, one call at a time. */
module FeedRuns {
  import opened Ids
  import opened Lists
  import opened FollowTable
  import opened Newsfeed

  datatype Step =
    | FollowGroups(user: UserId, groups: seq<GroupId>)
    | UnfollowGroups(user: UserId, groups: seq<GroupId>)
    | CreateDraft(post: PostId, groups: seq<GroupId>)
    | Publish(post: PostId, groups: seq<GroupId>)
    | Regroup(post: PostId, groups: seq<GroupId>)
    | SetArchived(group: GroupId, archived: bool)
    | SetHidden(post: PostId, hidden: bool)

  function Unarchived(post: Post): set<GroupId> {
    set g | g in post.groups && !post.groups[g]
  }

  function Archived(post: Post): set<GroupId> {
    set g | g in post.groups && post.groups[g]
  }

  /** Setting the groups of a post. The handlers load and change unarchived rows only: archived rows stay as they
      are, listed or not. */
  function Regrouped(post: Post, gs: seq<GroupId>): Post {
    post.(groups := map g | g in Archived(post) + Elems(gs) :: g in Archived(post))
  }

  function ArchiveIn(post: Post, g: GroupId, archived: bool): Post {
    if g in post.groups then post.(groups := post.groups[g := archived]) else post
  }

  function Apply(db: Db, step: Step, maxPosts: nat): Db {
    match step
    case FollowGroups(u, gs) => FollowStep(db, u, gs, maxPosts)
    case UnfollowGroups(u, gs) => UnfollowStep(db, u, gs)
    case CreateDraft(p, gs) =>
      if p in db.posts then db
      else db.(posts := db.posts[p := Post(false, false, map g | g in gs :: false)],
               newestFirst := [p] + db.newestFirst)
    case Publish(p, gs) =>
      // the event carries the requested groups, by default the unarchived ones; the consumer passes [] as the old ones
      if p !in db.posts || db.posts[p].published || db.posts[p].hidden then db
      else db.(posts := db.posts[p := Regrouped(db.posts[p], gs).(published := true)],
               feed := FanoutFeed(db.feed, db.follows, p, Elems(gs), {}))
    case Regroup(p, gs) =>
      // a published post without unarchived groups is not found
      if p !in db.posts || db.posts[p].hidden || (db.posts[p].published && Unarchived(db.posts[p]) == {}) then db
      else db.(posts := db.posts[p := Regrouped(db.posts[p], gs)],
               feed := if db.posts[p].published
                       then FanoutFeed(db.feed, db.follows, p, Elems(gs), Unarchived(db.posts[p]))
                       else db.feed)
    case SetArchived(g, archived) =>
      db.(posts := map p | p in db.posts :: ArchiveIn(db.posts[p], g, archived))
    case SetHidden(p, hidden) =>
      if p !in db.posts then db else db.(posts := db.posts[p := db.posts[p].(hidden := hidden)])
  }

  function Run(db: Db, steps: seq<Step>, maxPosts: nat): Db
    decreases |steps|
  {
    if steps == [] then db else Run(Apply(db, steps[0], maxPosts), steps[1..], maxPosts)
  }

  // ---------- the fan-out on one post ----------

  predicate HasRow(feed: Feed, u: UserId, p: PostId) {
    FeedKey(u, p) in feed
  }

  /** Who has the post after a fan-out, whatever the rows were before; other posts and kept flags are untouched. */
  lemma FanoutRows(feed: Feed, rows: seq<FollowRow>, p: PostId, new_: set<GroupId>, old_: set<GroupId>)
    ensures var after := FanoutFeed(feed, rows, p, new_, old_);
            && (forall u :: HasRow(after, u, p) <==>
                  && (HasRow(feed, u, p) || (FollowsAny(rows, u, new_ - old_) && !FollowsAny(rows, u, old_)))
                  && !(FollowsAny(rows, u, old_ - new_) && !FollowsAny(rows, u, new_)))
            && (forall k: FeedKey :: k.post != p ==> (k in after <==> k in feed))
            && (forall k :: k in after && k in feed ==> after[k] == feed[k])
            && (forall k :: k in after && k !in feed ==> !after[k])
  {
    FollowersAreThoseWhoFollow(rows, new_ - old_);
    FollowersAreThoseWhoFollow(rows, old_ - new_);
    FollowersAreThoseWhoFollow(rows, new_);
    FollowersAreThoseWhoFollow(rows, old_);
  }

  lemma FollowsSplit(rows: seq<FollowRow>, u: UserId, a: set<GroupId>, b: set<GroupId>)
    ensures FollowsAny(rows, u, a) ==> FollowsAny(rows, u, a - b) || FollowsAny(rows, u, b)
    ensures FollowsAny(rows, u, a - b) ==> FollowsAny(rows, u, a)
  {
    if FollowsAny(rows, u, a) {
      var g :| g in a && Follows(rows, u, g);
      assert g in a - b || g in b;
    }
  }

  /** The fan-out leaves exactly the followers of the new groups if and only if the rows it started from
      held everyone who follows both sides and nobody who follows neither. */
  lemma FanoutIsExactIff(feed: Feed, rows: seq<FollowRow>, p: PostId, new_: set<GroupId>, old_: set<GroupId>)
    ensures (Readers(FanoutFeed(feed, rows, p, new_, old_), p) == Followers(rows, new_))
            <==> Followers(rows, new_) * Followers(rows, old_) <= Readers(feed, p)
                 <= Followers(rows, new_) + Followers(rows, old_)
  {
    var after := FanoutFeed(feed, rows, p, new_, old_);
    FanoutRows(feed, rows, p, new_, old_);
    FollowersAreThoseWhoFollow(rows, new_);
    FollowersAreThoseWhoFollow(rows, old_);
    forall u
      ensures u in Readers(after, p) <==> HasRow(after, u, p)
      ensures u in Readers(feed, p) <==> HasRow(feed, u, p)
      ensures FollowsAny(rows, u, new_) ==> FollowsAny(rows, u, new_ - old_) || FollowsAny(rows, u, old_)
      ensures FollowsAny(rows, u, old_) ==> FollowsAny(rows, u, old_ - new_) || FollowsAny(rows, u, new_)
      ensures FollowsAny(rows, u, new_ - old_) ==> FollowsAny(rows, u, new_)
      ensures FollowsAny(rows, u, old_ - new_) ==> FollowsAny(rows, u, old_)
    {
      if HasRow(after, u, p) { assert FeedKey(u, p).user in Readers(after, p); }
      if HasRow(feed, u, p) { assert FeedKey(u, p).user in Readers(feed, p); }
      FollowsSplit(rows, u, new_, old_);
      FollowsSplit(rows, u, old_, new_);
    }
    var result, want := Readers(after, p), Followers(rows, new_);
    if result == want {
      forall u | u in Readers(feed, p) ensures u in want + Followers(rows, old_) {
        if u !in result {
          assert FollowsAny(rows, u, old_ - new_);
        }
      }
    }
  }

  /** A follower of a group the post keeps, without the row before the call, has none after it. */
  lemma FanoutNeedsOldReaders()
    ensures var rows := [FollowRow(1, 5, 10)];
            Readers(FanoutFeed(map[], rows, 1, {10, 20}, {10}), 1) != Followers(rows, {10, 20})
  {
    var rows, row := [FollowRow(1, 5, 10)], FollowRow(1, 5, 10);
    assert row in rows;
    assert row.user in Followers(rows, {10, 20}) * Followers(rows, {10});
    assert Readers(map[], 1) == {};
    FanoutIsExactIff(map[], rows, 1, {10, 20}, {10});
  }

  // ---------- invariants ----------

  predicate Entitled(db: Db, u: UserId, p: PostId) {
    p in db.posts && db.posts[p].published && FollowsAny(db.follows, u, db.posts[p].groups.Keys)
  }

  /** The table equals its recomputation. */
  ghost predicate Exact(db: Db) {
    forall u, p :: HasRow(db.feed, u, p) <==> Entitled(db, u, p)
  }

  /** Nobody has a post they may not see. */
  ghost predicate Sound(db: Db) {
    forall u, p :: HasRow(db.feed, u, p) ==> Entitled(db, u, p)
  }

  lemma StepKeepsValid(db: Db, step: Step, maxPosts: nat)
    requires ValidDb(db)
    ensures ValidDb(Apply(db, step, maxPosts))
  {
    match step
    case FollowGroups(u, gs) => AddFollowsAdds(db.follows, db.nextZindex, u, NewlyFollowed(db, u, gs));
    case UnfollowGroups(u, gs) => RemoveFollowsKeepsOrder(db.follows, db.nextZindex, u, gs);
    case CreateDraft(p, gs) =>
      if p !in db.posts {
        var db' := Apply(db, step, maxPosts);
        assert p !in Elems(db.newestFirst);
        assert forall q :: q in db'.newestFirst <==> q == p || q in db.newestFirst;
      }
    case _ =>
  }

  lemma AfterFollowTable(db: Db, u: UserId, gs: seq<GroupId>, maxPosts: nat)
    requires ValidDb(db)
    ensures var db' := FollowStep(db, u, gs, maxPosts);
            && ValidRows(db'.follows, db'.nextZindex)
            && Added(db.follows, db.nextZindex, db'.follows, db'.nextZindex, u, NewlyFollowed(db, u, gs))
  {
    AddFollowsAdds(db.follows, db.nextZindex, u, NewlyFollowed(db, u, gs));
  }

  /** Rows that stay keep their seen mark, and new rows are unseen. */
  ghost predicate MarksKept(before: Feed, after: Feed) {
    && (forall k :: k in before && k in after ==> after[k] == before[k])
    && (forall k :: k in after && k !in before ==> !after[k])
  }

  lemma AfterFollowFeed(db: Db, u: UserId, gs: seq<GroupId>, maxPosts: nat)
    ensures var db' := FollowStep(db, u, gs, maxPosts);
            && db'.posts == db.posts && db'.newestFirst == db.newestFirst
            && MarksKept(db.feed, db'.feed)
            && (forall v, p :: HasRow(db'.feed, v, p) <==>
                  HasRow(db.feed, v, p) || (v == u && p in Inserted(db, u, gs, maxPosts)))
  {
    var ps := VisiblePosts(db.posts, db.newestFirst, NewlyFollowed(db, u, gs));
    assert ps != [] ==> ps[0] in ps;
  }

  /** Who follows what, and who has which row, after a follow. */
  lemma AfterFollow(db: Db, u: UserId, gs: seq<GroupId>, maxPosts: nat)
    requires ValidDb(db)
    ensures var db' := FollowStep(db, u, gs, maxPosts);
            && ValidRows(db'.follows, db'.nextZindex)
            && db'.posts == db.posts && db'.newestFirst == db.newestFirst
            && MarksKept(db.feed, db'.feed)
            && db.nextZindex <= db'.nextZindex
            && (forall v, g :: Follows(db'.follows, v, g) <==> Follows(db.follows, v, g) || (v == u && g in gs))
            && (forall r :: r in db.follows ==> r in db'.follows)
            && (forall r :: r in db'.follows ==>
                  r in db.follows || (r.user == u && r.group in NewlyFollowed(db, u, gs) && db.nextZindex <= r.zindex))
            && (forall v, p :: HasRow(db'.feed, v, p) <==>
                  HasRow(db.feed, v, p) || (v == u && p in Inserted(db, u, gs, maxPosts)))
  {
    var newly := NewlyFollowed(db, u, gs);
    AfterFollowTable(db, u, gs, maxPosts);
    AfterFollowFeed(db, u, gs, maxPosts);
    assert forall g :: g in gs && !Follows(db.follows, u, g) ==> g in newly;
  }

  lemma InsertedIsVisible(db: Db, u: UserId, gs: seq<GroupId>, maxPosts: nat)
    ensures forall p :: p in Inserted(db, u, gs, maxPosts) ==>
                          p in db.newestFirst && Visible(db.posts, p, NewlyFollowed(db, u, gs))
  {
    var all := VisiblePosts(db.posts, db.newestFirst, NewlyFollowed(db, u, gs));
    forall p | p in Inserted(db, u, gs, maxPosts) ensures p in all {
      var i :| 0 <= i < |Take(all, maxPosts)| && Take(all, maxPosts)[i] == p;
      assert all[i] == p;
    }
  }

  /** Who follows what, and who has which row, after an unfollow. */
  lemma AfterUnfollow(db: Db, u: UserId, gs: seq<GroupId>)
    requires ValidDb(db)
    ensures var db' := UnfollowStep(db, u, gs);
            && ValidRows(db'.follows, db'.nextZindex)
            && db'.posts == db.posts && db'.nextZindex == db.nextZindex && db'.newestFirst == db.newestFirst
            && MarksKept(db.feed, db'.feed)
            && (forall v, g :: Follows(db'.follows, v, g) <==> Follows(db.follows, v, g) && !(v == u && g in gs))
            && (forall r :: r in db'.follows <==> r in db.follows && !(r.user == u && r.group in gs))
            && (forall v, p :: HasRow(db'.feed, v, p) <==>
                  && HasRow(db.feed, v, p)
                  && !(v == u && InAnyOf(db.posts, p, gs) && !FollowsAny(db'.follows, u, GroupsOf(db.posts, p))))
  {
    RemoveFollowsKeepsOrder(db.follows, db.nextZindex, u, gs);
    RemoveFollowsRemoves(db.follows, u, gs);
    var rows := RemoveFollows(db.follows, u, gs);
    forall p ensures InAnyOf(db.posts, p, JoinedGroupIds(rows, u)) <==> FollowsAny(rows, u, GroupsOf(db.posts, p)) {
      if FollowsAny(rows, u, GroupsOf(db.posts, p)) {
        var g :| g in GroupsOf(db.posts, p) && Follows(rows, u, g);
        assert g in JoinedGroupIds(rows, u);
      }
    }
  }

  // ---------- what the steps do to the posts ----------

  /** The step sets the groups of the post. */
  predicate Regroups(db: Db, step: Step, q: PostId)
    requires q in db.posts
  {
    && (step.Publish? || step.Regroup?) && step.post == q && !db.posts[q].hidden
    && if step.Publish? then !db.posts[q].published else db.posts[q].published ==> Unarchived(db.posts[q]) != {}
  }

  /** A new draft is listed first, unpublished, visible, and archived nowhere. */
  lemma DraftsAfter(db: Db, step: Step, maxPosts: nat)
    ensures var db' := Apply(db, step, maxPosts);
            if step.CreateDraft? && step.post !in db.posts then
              && db'.newestFirst == [step.post] + db.newestFirst
              && db'.posts.Keys == db.posts.Keys + {step.post}
              && !db'.posts[step.post].published && !db'.posts[step.post].hidden
              && Unarchived(db'.posts[step.post]) == Elems(step.groups) && Archived(db'.posts[step.post]) == {}
            else db'.newestFirst == db.newestFirst && db'.posts.Keys == db.posts.Keys
  {
  }

  /** Each column of an existing post is changed by one kind of step; an archived row stays archived, whatever groups
      a handler asks for, until its group is restored. */
  lemma PostAfter(db: Db, step: Step, maxPosts: nat, q: PostId, g: GroupId)
    requires q in db.posts
    ensures var before, db' := db.posts[q], Apply(db, step, maxPosts);
            && q in db'.posts
            && var after := db'.posts[q];
            && (after.published <==> before.published || (step.Publish? && step.post == q && !before.hidden))
            && after.hidden == (if step.SetHidden? && step.post == q then step.hidden else before.hidden)
            && (g in Archived(after) <==>
                  if step.SetArchived? && step.group == g then step.archived && g in before.groups
                  else g in Archived(before))
            && (g in Unarchived(after) <==>
                  if step.SetArchived? && step.group == g then !step.archived && g in before.groups
                  else if Regroups(db, step, q) then g in step.groups && g !in Archived(before)
                  else g in Unarchived(before))
  {
  }

  lemma StepKeepsMarks(db: Db, step: Step, maxPosts: nat)
    ensures MarksKept(db.feed, Apply(db, step, maxPosts).feed)
  {
    match step
    case FollowGroups(u, gs) => AfterFollowFeed(db, u, gs, maxPosts);
    case Publish(p, gs) => FanoutRows(db.feed, db.follows, p, Elems(gs), {});
    case Regroup(p, gs) =>
      if p in db.posts {
        FanoutRows(db.feed, db.follows, p, Elems(gs), Unarchived(db.posts[p]));
      }
    case _ =>
  }

  /** No run of these steps marks anything as seen: a row that is seen at the end was there and seen at the start. */
  lemma {:induction false} RunMarksNothing(db: Db, steps: seq<Step>, maxPosts: nat, k: FeedKey)
    requires var end := Run(db, steps, maxPosts); k in end.feed && end.feed[k]
    ensures k in db.feed && db.feed[k]
    decreases |steps|
  {
    if steps != [] {
      StepKeepsMarks(db, steps[0], maxPosts);
      RunMarksNothing(Apply(db, steps[0], maxPosts), steps[1..], maxPosts, k);
    }
  }

  /** A follow covers: each published post of a newly followed group that is hidden, archived in all of them or
      beyond the limit is also in a group the user follows already. */
  predicate Covers(db: Db, u: UserId, gs: seq<GroupId>, maxPosts: nat) {
    var newly := NewlyFollowed(db, u, gs);
    forall p | p in db.posts ::
      db.posts[p].published && InAnyOf(db.posts, p, newly) && PassedOver(db, u, gs, maxPosts, p) ==>
        FollowsAny(db.follows, u, db.posts[p].groups.Keys)
  }

  /** `follow` keeps the table exact if and only if it covers: archived rows, hidden posts and the
      10000-post limit are the only ways to lose a row. */
  lemma FollowIsExactIff(db: Db, u: UserId, gs: seq<GroupId>, maxPosts: nat)
    requires ValidDb(db) && Exact(db)
    ensures Exact(FollowStep(db, u, gs, maxPosts)) <==> Covers(db, u, gs, maxPosts)
  {
    var db' := FollowStep(db, u, gs, maxPosts);
    var newly := NewlyFollowed(db, u, gs);
    AfterFollow(db, u, gs, maxPosts);
    InsertedIsVisible(db, u, gs, maxPosts);
    forall v, p | p in db.posts
      ensures FollowsAny(db'.follows, v, db.posts[p].groups.Keys) <==>
              FollowsAny(db.follows, v, db.posts[p].groups.Keys) || (v == u && InAnyOf(db.posts, p, newly))
    {
      if FollowsAny(db'.follows, v, db.posts[p].groups.Keys) {
        var g :| g in db.posts[p].groups.Keys && Follows(db'.follows, v, g);
        if !Follows(db.follows, v, g) { assert g in newly; }
      }
      if FollowsAny(db.follows, v, db.posts[p].groups.Keys) {
        var g :| g in db.posts[p].groups.Keys && Follows(db.follows, v, g);
        assert Follows(db'.follows, v, g);
      }
      if v == u && InAnyOf(db.posts, p, newly) {
        var g :| g in newly && g in GroupsOf(db.posts, p);
        assert Follows(db'.follows, v, g);
      }
    }
    forall p | p in db.posts
      ensures p !in Inserted(db, u, gs, maxPosts) <==> !db.posts[p].published || PassedOver(db, u, gs, maxPosts, p)
    {
      PassedOverIff(db, u, gs, maxPosts, p);
    }
    if Exact(db') {
      forall p | p in db.posts && db.posts[p].published && InAnyOf(db.posts, p, newly)
                 && p !in Inserted(db, u, gs, maxPosts)
        ensures FollowsAny(db.follows, u, db.posts[p].groups.Keys)
      {
        assert Entitled(db', u, p);
        assert HasRow(db'.feed, u, p);
      }
    }
    if Covers(db, u, gs, maxPosts) {
      forall v, p ensures HasRow(db'.feed, v, p) <==> Entitled(db', v, p) {
        if v == u && p in Inserted(db, u, gs, maxPosts) {
          var g :| g in newly && g in db.posts[p].groups;
          assert InAnyOf(db.posts, p, newly);
        }
      }
    }
  }

  /** No hidden post and no archived row. */
  predicate AllOpen(db: Db) {
    forall p :: p in db.posts ==>
                  !db.posts[p].hidden && forall g :: g in db.posts[p].groups ==> !db.posts[p].groups[g]
  }

  /** No archived rows, no hidden posts and no truncation are enough to cover. */
  lemma VisibleFeedCovers(db: Db, u: UserId, gs: seq<GroupId>, maxPosts: nat)
    requires ValidDb(db)
    requires AllOpen(db) && |VisiblePosts(db.posts, db.newestFirst, NewlyFollowed(db, u, gs))| <= maxPosts
    ensures Covers(db, u, gs, maxPosts)
  {
    var newly := NewlyFollowed(db, u, gs);
    forall p | p in db.posts && db.posts[p].published && InAnyOf(db.posts, p, newly)
      ensures !PassedOver(db, u, gs, maxPosts, p)
    {
      assert p in Elems(db.newestFirst);
      assert Visible(db.posts, p, newly);
      PassedOverIff(db, u, gs, maxPosts, p);
    }
  }

  lemma FollowKeepsSound(db: Db, u: UserId, gs: seq<GroupId>, maxPosts: nat)
    requires ValidDb(db) && Sound(db)
    ensures Sound(FollowStep(db, u, gs, maxPosts))
  {
    var db' := FollowStep(db, u, gs, maxPosts);
    AfterFollow(db, u, gs, maxPosts);
    InsertedIsVisible(db, u, gs, maxPosts);
    forall v, p | HasRow(db'.feed, v, p) ensures Entitled(db', v, p) {
      if HasRow(db.feed, v, p) {
        var g :| g in db.posts[p].groups.Keys && Follows(db.follows, v, g);
        assert Follows(db'.follows, v, g);
      } else {
        var g :| g in NewlyFollowed(db, u, gs) && g in db.posts[p].groups;
        assert Follows(db'.follows, v, g);
      }
    }
  }

  lemma UnfollowKeepsSound(db: Db, u: UserId, gs: seq<GroupId>)
    requires ValidDb(db) && Sound(db)
    ensures Sound(UnfollowStep(db, u, gs))
    ensures Exact(db) ==> Exact(UnfollowStep(db, u, gs))
  {
    var db' := UnfollowStep(db, u, gs);
    AfterUnfollow(db, u, gs);
    forall v, p | p in db.posts
      ensures FollowsAny(db'.follows, v, db.posts[p].groups.Keys) ==> FollowsAny(db.follows, v, db.posts[p].groups.Keys)
      ensures FollowsAny(db.follows, v, db.posts[p].groups.Keys) && !FollowsAny(db'.follows, v, db.posts[p].groups.Keys)
              ==> v == u && InAnyOf(db.posts, p, gs)
    {
      if FollowsAny(db'.follows, v, db.posts[p].groups.Keys) {
        var g :| g in db.posts[p].groups.Keys && Follows(db'.follows, v, g);
        assert Follows(db.follows, v, g);
      } else if FollowsAny(db.follows, v, db.posts[p].groups.Keys) {
        var g :| g in db.posts[p].groups.Keys && Follows(db.follows, v, g);
        assert !Follows(db'.follows, v, g);
      }
    }
  }

  /** The followers a fan-out that does not know the archived groups loses: they follow one of those, no new group,
      and the call has not given them the row or takes it away. */
  predicate Strays(rows: seq<FollowRow>, u: UserId, before: Post, new_: set<GroupId>, old_: set<GroupId>) {
    && FollowsAny(rows, u, Archived(before)) && !FollowsAny(rows, u, new_)
    && (before.published ==> FollowsAny(rows, u, old_ - new_))
  }

  ghost predicate NobodyStrays(rows: seq<FollowRow>, before: Post, new_: set<GroupId>, old_: set<GroupId>) {
    forall u :: !Strays(rows, u, before, new_, old_)
  }

  lemma UnionFollows(rows: seq<FollowRow>, u: UserId, a: set<GroupId>, b: set<GroupId>)
    ensures FollowsAny(rows, u, a + b) <==> FollowsAny(rows, u, a) || FollowsAny(rows, u, b)
  {
    if FollowsAny(rows, u, a) {
      var g :| g in a && Follows(rows, u, g);
      assert g in a + b;
    }
    if FollowsAny(rows, u, b) {
      var g :| g in b && Follows(rows, u, g);
      assert g in a + b;
    }
  }

  /** One user under a fan-out from `old_` to `new_` on a post whose groups are these and the archived ones. */
  lemma FanoutKeepsUser(db: Db, p: PostId, after: Post, new_: set<GroupId>, old_: set<GroupId>, u: UserId)
    requires p in db.posts && after.published && after.groups.Keys == Archived(db.posts[p]) + new_
    requires old_ == if db.posts[p].published then Unarchived(db.posts[p]) else {}
    ensures var feed := FanoutFeed(db.feed, db.follows, p, new_, old_);
            && (Sound(db) ==> HasRow(feed, u, p) ==> FollowsAny(db.follows, u, after.groups.Keys))
            && (Exact(db) ==>
                  (HasRow(feed, u, p) <==>
                   (FollowsAny(db.follows, u, after.groups.Keys) && !Strays(db.follows, u, db.posts[p], new_, old_))))
  {
    var before, archived := db.posts[p], Archived(db.posts[p]);
    FanoutRows(db.feed, db.follows, p, new_, old_);
    UnionFollows(db.follows, u, archived, new_);
    UnionFollows(db.follows, u, archived, Unarchived(before));
    assert before.groups.Keys == archived + Unarchived(before);
    FollowsSplit(db.follows, u, new_, old_);
    FollowsSplit(db.follows, u, old_, new_);
    assert !FollowsAny(db.follows, u, {});
    assert Exact(db) ==> (HasRow(db.feed, u, p) <==> Entitled(db, u, p));
  }

  /** A fan-out towards the post's new groups keeps the table sound, and exact if and only if nobody strays. */
  lemma FanoutKeepsIff(db: Db, p: PostId, after: Post, new_: set<GroupId>, old_: set<GroupId>)
    requires p in db.posts && after.published && after.groups.Keys == Archived(db.posts[p]) + new_
    requires old_ == if db.posts[p].published then Unarchived(db.posts[p]) else {}
    ensures var db' := db.(posts := db.posts[p := after], feed := FanoutFeed(db.feed, db.follows, p, new_, old_));
            && (Sound(db) ==> Sound(db'))
            && (Exact(db) ==> (Exact(db') <==> NobodyStrays(db.follows, db.posts[p], new_, old_)))
  {
    var db' := db.(posts := db.posts[p := after], feed := FanoutFeed(db.feed, db.follows, p, new_, old_));
    FanoutRows(db.feed, db.follows, p, new_, old_);
    forall u, q | q != p
      ensures HasRow(db'.feed, u, q) == HasRow(db.feed, u, q) && Entitled(db', u, q) == Entitled(db, u, q)
    {
      assert FeedKey(u, q).post != p;
    }
    forall u
      ensures Sound(db) ==> HasRow(db'.feed, u, p) ==> Entitled(db', u, p)
      ensures Exact(db) ==>
                (HasRow(db'.feed, u, p) <==> (Entitled(db', u, p) && !Strays(db.follows, u, db.posts[p], new_, old_)))
    {
      FanoutKeepsUser(db, p, after, new_, old_, u);
    }
    if Exact(db) {
      forall u ensures Strays(db.follows, u, db.posts[p], new_, old_) ==> Entitled(db', u, p) {
        UnionFollows(db.follows, u, Archived(db.posts[p]), new_);
      }
    }
  }

  /** A publication that runs: every follower of an archived group of the post follows a published one too. A regroup
      of a published post that runs: whoever follows an archived and a removed group follows a new one too. */
  ghost predicate CoversArchived(db: Db, p: PostId, gs: seq<GroupId>)
    requires p in db.posts
  {
    NobodyStrays(db.follows, db.posts[p], Elems(gs), if db.posts[p].published then Unarchived(db.posts[p]) else {})
  }

  /** What exactness asks of a step; unfollows, drafts, hiding and archiving need nothing. */
  ghost predicate Covered(db: Db, step: Step, maxPosts: nat) {
    match step
    case FollowGroups(u, gs) => Covers(db, u, gs, maxPosts)
    case Publish(p, gs) => p in db.posts && !db.posts[p].published && !db.posts[p].hidden ==> CoversArchived(db, p, gs)
    case Regroup(p, gs) =>
      p in db.posts && db.posts[p].published && !db.posts[p].hidden && Unarchived(db.posts[p]) != {} ==>
        CoversArchived(db, p, gs)
    case _ => true
  }

  lemma PublishKeeps(db: Db, p: PostId, gs: seq<GroupId>, maxPosts: nat)
    requires p in db.posts && !db.posts[p].published && !db.posts[p].hidden
    ensures var db' := Apply(db, Publish(p, gs), maxPosts);
            (Sound(db) ==> Sound(db')) && (Exact(db) ==> (Exact(db') <==> CoversArchived(db, p, gs)))
  {
    FanoutKeepsIff(db, p, Regrouped(db.posts[p], gs).(published := true), Elems(gs), {});
  }

  lemma RegroupKeeps(db: Db, p: PostId, gs: seq<GroupId>, maxPosts: nat)
    requires p in db.posts && db.posts[p].published && !db.posts[p].hidden && Unarchived(db.posts[p]) != {}
    ensures var db' := Apply(db, Regroup(p, gs), maxPosts);
            (Sound(db) ==> Sound(db')) && (Exact(db) ==> (Exact(db') <==> CoversArchived(db, p, gs)))
  {
    FanoutKeepsIff(db, p, Regrouped(db.posts[p], gs), Elems(gs), Unarchived(db.posts[p]));
  }

  /** Steps that change neither rows nor who is entitled. */
  lemma QuietStep(db: Db, step: Step, maxPosts: nat)
    requires step.CreateDraft? || step.SetArchived? || step.SetHidden?
             || (step.Regroup? && !(step.post in db.posts && db.posts[step.post].published))
    ensures var db' := Apply(db, step, maxPosts);
            db'.feed == db.feed && db'.follows == db.follows
            && forall u, q :: Entitled(db', u, q) == Entitled(db, u, q)
  {
    if step.SetArchived? {
      forall u, q ensures Entitled(Apply(db, step, maxPosts), u, q) == Entitled(db, u, q) {
        if q in db.posts {
          assert ArchiveIn(db.posts[q], step.group, step.archived).groups.Keys == db.posts[q].groups.Keys;
        }
      }
    }
  }

  /** Every step keeps the table sound, and exact if and only if it is covered. */
  lemma StepKeeps(db: Db, step: Step, maxPosts: nat)
    requires ValidDb(db)
    ensures Sound(db) ==> Sound(Apply(db, step, maxPosts))
    ensures Exact(db) ==> (Exact(Apply(db, step, maxPosts)) <==> Covered(db, step, maxPosts))
  {
    assert Exact(db) ==> Sound(db);
    match step
    case FollowGroups(u, gs) =>
      if Sound(db) { FollowKeepsSound(db, u, gs, maxPosts); }
      if Exact(db) { FollowIsExactIff(db, u, gs, maxPosts); }
    case UnfollowGroups(u, gs) =>
      if Sound(db) { UnfollowKeepsSound(db, u, gs); }
    case Publish(p, gs) =>
      if p in db.posts && !db.posts[p].published && !db.posts[p].hidden { PublishKeeps(db, p, gs, maxPosts); }
    case Regroup(p, gs) =>
      if p in db.posts && db.posts[p].published {
        if !db.posts[p].hidden && Unarchived(db.posts[p]) != {} { RegroupKeeps(db, p, gs, maxPosts); }
      } else {
        QuietStep(db, step, maxPosts);
      }
    case _ => QuietStep(db, step, maxPosts);
  }

  /** Soundness over every run: however follows are truncated and whatever is archived or hidden,
      a user only ever has posts of groups they follow. */
  lemma {:induction false} RunsStaySound(db: Db, steps: seq<Step>, maxPosts: nat)
    requires ValidDb(db) && Sound(db)
    ensures ValidDb(Run(db, steps, maxPosts)) && Sound(Run(db, steps, maxPosts))
    decreases |steps|
  {
    if steps != [] {
      StepKeepsValid(db, steps[0], maxPosts);
      StepKeeps(db, steps[0], maxPosts);
      RunsStaySound(Apply(db, steps[0], maxPosts), steps[1..], maxPosts);
    }
  }

  ghost predicate AllCovered(db: Db, steps: seq<Step>, maxPosts: nat)
    decreases |steps|
  {
    steps == [] ||
    (Covered(db, steps[0], maxPosts) && AllCovered(Apply(db, steps[0], maxPosts), steps[1..], maxPosts))
  }

  /** Exactness over every run whose follows cover: the cache equals its recomputation. */
  lemma {:induction false} RunsStayExact(db: Db, steps: seq<Step>, maxPosts: nat)
    requires ValidDb(db) && Exact(db) && AllCovered(db, steps, maxPosts)
    ensures Exact(Run(db, steps, maxPosts))
    decreases |steps|
  {
    if steps != [] {
      StepKeepsValid(db, steps[0], maxPosts);
      StepKeeps(db, steps[0], maxPosts);
      RunsStayExact(Apply(db, steps[0], maxPosts), steps[1..], maxPosts);
    }
  }

  ghost predicate AlwaysExact(db: Db, steps: seq<Step>, maxPosts: nat)
    decreases |steps|
  {
    Exact(db) && (steps == [] || AlwaysExact(Apply(db, steps[0], maxPosts), steps[1..], maxPosts))
  }

  /** A run that starts exact is exact after every step if and only if every step is covered. */
  lemma {:induction false} AlwaysExactIff(db: Db, steps: seq<Step>, maxPosts: nat)
    requires ValidDb(db) && Exact(db)
    ensures AlwaysExact(db, steps, maxPosts) <==> AllCovered(db, steps, maxPosts)
    decreases |steps|
  {
    if steps != [] {
      StepKeepsValid(db, steps[0], maxPosts);
      StepKeeps(db, steps[0], maxPosts);
      if Exact(Apply(db, steps[0], maxPosts)) {
        AlwaysExactIff(Apply(db, steps[0], maxPosts), steps[1..], maxPosts);
      } else {
        assert !AlwaysExact(Apply(db, steps[0], maxPosts), steps[1..], maxPosts);
      }
    }
  }

  /** A follow of the run has at most `maxPosts` visible posts to insert; nothing is hidden or archived. */
  predicate OpenStep(db: Db, step: Step, maxPosts: nat) {
    match step
    case FollowGroups(u, gs) => |VisiblePosts(db.posts, db.newestFirst, NewlyFollowed(db, u, gs))| <= maxPosts
    case SetArchived(_, archived) => !archived
    case SetHidden(_, hidden) => !hidden
    case _ => true
  }

  ghost predicate OpenRun(db: Db, steps: seq<Step>, maxPosts: nat)
    decreases |steps|
  {
    steps == [] || (OpenStep(db, steps[0], maxPosts) && OpenRun(Apply(db, steps[0], maxPosts), steps[1..], maxPosts))
  }

  lemma StepKeepsOpen(db: Db, step: Step, maxPosts: nat)
    requires AllOpen(db) && OpenStep(db, step, maxPosts)
    ensures AllOpen(Apply(db, step, maxPosts))
  {
  }

  lemma OpenIsCovered(db: Db, step: Step, maxPosts: nat)
    requires ValidDb(db) && AllOpen(db) && OpenStep(db, step, maxPosts)
    ensures Covered(db, step, maxPosts)
  {
    if step.FollowGroups? {
      VisibleFeedCovers(db, step.user, step.groups, maxPosts);
    }
    if (step.Publish? || step.Regroup?) && step.post in db.posts {
      assert Archived(db.posts[step.post]) == {};
    }
  }

  /** Without hidden or archived posts, and with at most `maxPosts` posts to insert per follow, the table equals its
      recomputation after every run of follows, unfollows, drafts, publications and regroupings. */
  lemma {:induction false} OpenRunsStayExact(db: Db, steps: seq<Step>, maxPosts: nat)
    requires ValidDb(db) && Exact(db) && AllOpen(db) && OpenRun(db, steps, maxPosts)
    ensures Exact(Run(db, steps, maxPosts)) && AllOpen(Run(db, steps, maxPosts))
    decreases |steps|
  {
    if steps != [] {
      var step := steps[0];
      OpenIsCovered(db, step, maxPosts);
      StepKeepsValid(db, step, maxPosts);
      StepKeeps(db, step, maxPosts);
      StepKeepsOpen(db, step, maxPosts);
      OpenRunsStayExact(Apply(db, step, maxPosts), steps[1..], maxPosts);
    }
  }

  const EMPTY := Db([], 1, map[], [], map[])
  const IN_TEN: map<GroupId, bool> := map[10 := false]
  const DRAFT_ONE := Db([], 1, map[1 := Post(false, false, IN_TEN)], [1], map[])
  const LIVE_ONE := Db([], 1, map[1 := Post(true, false, IN_TEN)], [1], map[])
  const HIDDEN_ONE := Db([], 1, map[1 := Post(true, true, IN_TEN)], [1], map[])

  lemma RunOfThree(db: Db, a: Step, b: Step, c: Step, n: nat)
    ensures Run(db, [a, b, c], n) == Apply(Apply(Apply(db, a, n), b, n), c, n)
  {
    var one := Apply(db, a, n);
    var two := Apply(one, b, n);
    assert Run(two, [c], n) == Apply(two, c, n) by {
      assert [c][1..] == [];
    }
    assert Run(one, [b, c], n) == Run(two, [c], n) by {
      assert [b, c][1..] == [c];
    }
    assert Run(db, [a, b, c], n) == Run(one, [b, c], n) by {
      assert [a, b, c][1..] == [b, c];
    }
  }

  lemma PublishOne()
    ensures Apply(DRAFT_ONE, Publish(1, [10]), MAX_POSTS_IN_NEWSFEED) == LIVE_ONE
  {
    assert Followers([], {10}) == {} && Followers([], {}) == {};
    assert Archived(DRAFT_ONE.posts[1]) == {} && Elems([10]) == {10};
    assert Regrouped(DRAFT_ONE.posts[1], [10]).groups == IN_TEN;
  }

  lemma HideOne()
    ensures Run(EMPTY, [CreateDraft(1, [10]), Publish(1, [10]), SetHidden(1, true)], MAX_POSTS_IN_NEWSFEED) ==
            HIDDEN_ONE
  {
    RunOfThree(EMPTY, CreateDraft(1, [10]), Publish(1, [10]), SetHidden(1, true), MAX_POSTS_IN_NEWSFEED);
    assert (map g: GroupId | g in [10] :: false) == IN_TEN;
    assert Apply(EMPTY, CreateDraft(1, [10]), MAX_POSTS_IN_NEWSFEED) == DRAFT_ONE;
    PublishOne();
    assert Apply(LIVE_ONE, SetHidden(1, true), MAX_POSTS_IN_NEWSFEED) == HIDDEN_ONE;
  }

  lemma HiddenIsNotCovered()
    ensures ValidDb(HIDDEN_ONE) && Exact(HIDDEN_ONE) && !Covers(HIDDEN_ONE, 5, [10], MAX_POSTS_IN_NEWSFEED)
  {
    var newly := NewlyFollowed(HIDDEN_ONE, 5, [10]);
    assert 10 in newly && InAnyOf(HIDDEN_ONE.posts, 1, newly);
    assert PassedOver(HIDDEN_ONE, 5, [10], MAX_POSTS_IN_NEWSFEED, 1);
  }

  /** From empty tables: a post of group 10 is published and hidden, then user 5 follows the group. The user follows
      a group of the post and has no row. */
  lemma HiddenPostIsPassedOver()
    ensures ValidDb(EMPTY) && Exact(EMPTY)
    ensures var steps := [CreateDraft(1, [10]), Publish(1, [10]), SetHidden(1, true)];
            var db := Run(EMPTY, steps, MAX_POSTS_IN_NEWSFEED);
            Exact(db) && !Exact(FollowStep(db, 5, [10], MAX_POSTS_IN_NEWSFEED))
  {
    HideOne();
    HiddenIsNotCovered();
    FollowIsExactIff(HIDDEN_ONE, 5, [10], MAX_POSTS_IN_NEWSFEED);
  }

  /** Post 1 is a draft in groups 10 and 20, group 10 is archived, and user 5 follows group 10 only. */
  const ARCHIVED_TEN :=
    Db([FollowRow(1, 5, 10)], 2, map[1 := Post(false, false, map[10 := true, 20 := false])], [1], map[])

  lemma ArchivedTenIsExact()
    ensures ValidDb(ARCHIVED_TEN) && Exact(ARCHIVED_TEN)
  {
    assert ARCHIVED_TEN.follows[0] == FollowRow(1, 5, 10);
  }

  /** Publishing the post fans it out to group 20 alone: the follower of group 10 has no row. */
  lemma ArchivedFollowerIsPassedOver()
    ensures ValidDb(ARCHIVED_TEN) && Exact(ARCHIVED_TEN) && Unarchived(ARCHIVED_TEN.posts[1]) == Elems([20])
    ensures !Exact(Apply(ARCHIVED_TEN, Publish(1, [20]), MAX_POSTS_IN_NEWSFEED))
  {
    var db := ARCHIVED_TEN;
    ArchivedTenIsExact();
    PublishKeeps(db, 1, [20], MAX_POSTS_IN_NEWSFEED);
    assert Strays(db.follows, 5, db.posts[1], Elems([20]), {}) by {
      assert db.follows[0] == FollowRow(1, 5, 10) && Follows(db.follows, 5, 10);
      assert 10 in Archived(db.posts[1]);
    }
  }
}

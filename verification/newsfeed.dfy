/** `user_newsfeed`, the cache of "posts in groups the user follows", and everything that writes it:
    `follow`, `unfollow` and the paged `fanoutOnWrite`. */
module Newsfeed {
  import opened Ids
  import opened Lists
  import opened FollowTable

  const MAX_POSTS_IN_NEWSFEED: nat := 10000

  /** Primary key of `user_newsfeed`. */
  datatype FeedKey = FeedKey(user: UserId, post: PostId)

  /** The table, each key with its `is_seen_post` column. */
  type Feed = map<FeedKey, bool>

  /** A post with its `posts_groups` rows: group to `is_archived`. */
  datatype Post = Post(published: bool, hidden: bool, groups: map<GroupId, bool>)

  /** The tables involved. `newestFirst` is the order `ORDER BY created_at DESC` lists the posts in. */
  datatype Db = Db(follows: seq<FollowRow>, nextZindex: nat,
                   posts: map<PostId, Post>, newestFirst: seq<PostId>, feed: Feed)

  ghost predicate ValidDb(db: Db) {
    && ValidRows(db.follows, db.nextZindex)
    && Distinct(db.newestFirst)
    && Elems(db.newestFirst) == db.posts.Keys
  }

  function GroupsOf(posts: map<PostId, Post>, p: PostId): set<GroupId> {
    if p in posts then posts[p].groups.Keys else {}
  }

  // ---------- statements on user_newsfeed ----------

  function Keys(users: set<UserId>, p: PostId): set<FeedKey> {
    set u | u in users :: FeedKey(u, p)
  }

  /** `INSERT ... VALUES (u, p, false) ... ON CONFLICT DO NOTHING`. */
  function Insert(feed: Feed, keys: set<FeedKey>): Feed {
    feed + map k | k in keys && k !in feed :: false
  }

  /** `DELETE ... WHERE user_id IN (users) AND post_id = p`. */
  function Detach(feed: Feed, users: set<UserId>, p: PostId): Feed {
    feed - Keys(users, p)
  }

  function Attach(feed: Feed, users: set<UserId>, p: PostId): Feed {
    Insert(feed, Keys(users, p))
  }

  /** The users who have the post in their newsfeed. */
  function Readers(feed: Feed, p: PostId): set<UserId> {
    set k | k in feed && k.post == p :: k.user
  }

  // ---------- follow ----------

  predicate Visible(posts: map<PostId, Post>, p: PostId, gs: seq<GroupId>) {
    && p in posts && posts[p].published && !posts[p].hidden
    && exists g :: g in gs && g in posts[p].groups && !posts[p].groups[g]
  }

  function VisiblePosts(posts: map<PostId, Post>, listing: seq<PostId>, gs: seq<GroupId>): (ps: seq<PostId>)
    ensures forall p :: p in ps <==> p in listing && Visible(posts, p, gs)
  {
    if listing == [] then []
    else
      var rest := VisiblePosts(posts, listing[1..], gs);
      if Visible(posts, listing[0], gs) then [listing[0]] + rest else rest
  }

  /** How many visible posts the listing has before `p`. */
  function VisibleBefore(posts: map<PostId, Post>, listing: seq<PostId>, gs: seq<GroupId>, p: PostId): nat {
    if listing == [] || listing[0] == p then 0
    else (if Visible(posts, listing[0], gs) then 1 else 0) + VisibleBefore(posts, listing[1..], gs, p)
  }

  /** The `LIMIT` takes a listed post if and only if it is visible and fewer than `n` visible posts come first. */
  lemma {:induction false} TakenIff(posts: map<PostId, Post>, listing: seq<PostId>, gs: seq<GroupId>, n: nat, p: PostId)
    ensures p in Take(VisiblePosts(posts, listing, gs), n) <==>
            p in listing && Visible(posts, p, gs) && VisibleBefore(posts, listing, gs, p) < n
  {
    if listing != [] {
      var first, tail := listing[0], listing[1..];
      var rest := VisiblePosts(posts, tail, gs);
      assert forall q :: q in listing <==> q == first || q in tail;
      if Visible(posts, first, gs) {
        assert n > 0 ==> Take([first] + rest, n) == [first] + Take(rest, n - 1);
        if n > 0 {
          TakenIff(posts, tail, gs, n - 1, p);
        }
      } else {
        TakenIff(posts, tail, gs, n, p);
      }
    }
  }

  /** The groups of the request the user does not follow yet. */
  function NewlyFollowed(db: Db, u: UserId, gs: seq<GroupId>): seq<GroupId> {
    Difference(gs, JoinedGroupIds(db.follows, u))
  }

  /** The posts a follow inserts: the newest `maxPosts` visible ones of the newly followed groups. */
  function Inserted(db: Db, u: UserId, gs: seq<GroupId>, maxPosts: nat): seq<PostId> {
    Take(VisiblePosts(db.posts, db.newestFirst, NewlyFollowed(db, u, gs)), maxPosts)
  }

  /** The ways a follow passes over a post: it is hidden, archived in each of the newly followed groups it is in, or
      has `maxPosts` visible posts before it. */
  predicate PassedOver(db: Db, u: UserId, gs: seq<GroupId>, maxPosts: nat, p: PostId)
    requires p in db.posts
  {
    var newly := NewlyFollowed(db, u, gs);
    || db.posts[p].hidden
    || (forall g :: g in newly && g in db.posts[p].groups ==> db.posts[p].groups[g])
    || maxPosts <= VisibleBefore(db.posts, db.newestFirst, newly, p)
  }

  lemma PassedOverIff(db: Db, u: UserId, gs: seq<GroupId>, maxPosts: nat, p: PostId)
    requires ValidDb(db) && p in db.posts
    ensures p !in Inserted(db, u, gs, maxPosts) <==> !db.posts[p].published || PassedOver(db, u, gs, maxPosts, p)
  {
    assert p in Elems(db.newestFirst);
    TakenIff(db.posts, db.newestFirst, NewlyFollowed(db, u, gs), maxPosts, p);
  }

  function PostKeys(u: UserId, ps: seq<PostId>): set<FeedKey> {
    set p | p in ps :: FeedKey(u, p)
  }

  function FollowStep(db: Db, u: UserId, gs: seq<GroupId>, maxPosts: nat): Db {
    var newly := NewlyFollowed(db, u, gs);
    if newly == [] then db
    else
      var (rows, next) := AddFollows(db.follows, db.nextZindex, u, newly);
      db.(follows := rows, nextZindex := next,
          feed := Insert(db.feed, PostKeys(u, Inserted(db, u, gs, maxPosts))))
  }

  // ---------- unfollow ----------

  predicate InAnyOf(posts: map<PostId, Post>, p: PostId, gs: seq<GroupId>) {
    exists g :: g in gs && g in GroupsOf(posts, p)
  }

  /** Rows of the user whose post is in a left group and in no group still followed. */
  function Orphaned(feed: Feed, posts: map<PostId, Post>, u: UserId,
                    left: seq<GroupId>, joined: seq<GroupId>): set<FeedKey> {
    set k | k in feed && k.user == u && InAnyOf(posts, k.post, left) && !InAnyOf(posts, k.post, joined)
  }

  function UnfollowStep(db: Db, u: UserId, gs: seq<GroupId>): Db {
    var rows := RemoveFollows(db.follows, u, gs);
    db.(follows := rows, feed := db.feed - Orphaned(db.feed, db.posts, u, gs, JoinedGroupIds(rows, u)))
  }

  // ---------- fan-out ----------

  /** The fan-out as one set-valued statement: (before + (F(new-old) - F(old))) - (F(old-new) - F(new)). */
  function FanoutFeed(feed: Feed, rows: seq<FollowRow>, p: PostId, new_: set<GroupId>, old_: set<GroupId>): Feed {
    Detach(Attach(feed, Followers(rows, new_ - old_) - Followers(rows, old_), p),
           Followers(rows, old_ - new_) - Followers(rows, new_), p)
  }

  /** The users of eligible rows at or before the cursor: what the pages so far have covered. */
  function UsersUpTo(rows: seq<FollowRow>, target: set<GroupId>, exclude: set<GroupId>, cursor: nat): set<UserId> {
    set r | r in rows && Eligible(rows, r, target, exclude) && r.zindex <= cursor :: r.user
  }

  lemma PageAdvances(rows: seq<FollowRow>, next: nat, target: set<GroupId>, exclude: set<GroupId>,
                     cursor: nat, limit: nat)
    requires ValidRows(rows, next) && 1 <= limit
    ensures var page := Page(rows, target, exclude, cursor, limit);
            UsersUpTo(rows, target, exclude, cursor) + Users(page) ==
            if |page| < limit then Followers(rows, target) - Followers(rows, exclude)
            else UsersUpTo(rows, target, exclude, LastZindex(page))
  {
    PageCovers(rows, next, target, exclude, cursor, limit);
    FollowersAreThoseWhoFollow(rows, exclude);
    var page := Page(rows, target, exclude, cursor, limit);
    var covered := UsersUpTo(rows, target, exclude, cursor) + Users(page);
    var reached := if |page| < limit then Followers(rows, target) - Followers(rows, exclude)
                   else UsersUpTo(rows, target, exclude, LastZindex(page));
    forall r | r in rows && Eligible(rows, r, target, exclude) && (|page| < limit || r.zindex <= LastZindex(page))
      ensures r.user in covered
    {
      if cursor < r.zindex {
        assert r in page;
      }
    }
    assert reached <= covered by {
      forall u | u in reached ensures u in covered {
        if |page| < limit {
          var r :| r in rows && r.group in target && r.user == u;
          assert Eligible(rows, r, target, exclude);
        }
      }
    }
    assert covered <= reached by {
      forall u | u in covered ensures u in reached {
        if u in Users(page) {
          var r :| r in page && r.user == u;
          assert r in rows;
        }
      }
    }
  }

  lemma AttachTwice(feed: Feed, a: set<UserId>, b: set<UserId>, p: PostId)
    ensures Attach(Attach(feed, a, p), b, p) == Attach(feed, a + b, p)
  {
  }

  lemma DetachTwice(feed: Feed, a: set<UserId>, b: set<UserId>, p: PostId)
    ensures Detach(Detach(feed, a, p), b, p) == Detach(feed, a + b, p)
  {
  }

  lemma NobodyYet(rows: seq<FollowRow>, next: nat, target: set<GroupId>, exclude: set<GroupId>)
    requires ValidRows(rows, next)
    ensures UsersUpTo(rows, target, exclude, 0) == {}
  {
  }

  lemma NothingToDo(feed: Feed, rows: seq<FollowRow>, exclude: set<UserId>, p: PostId)
    ensures Attach(feed, Followers(rows, {}) - exclude, p) == feed
    ensures Detach(feed, Followers(rows, {}) - exclude, p) == feed
  {
    assert Followers(rows, {}) - exclude == {};
    assert Keys({}, p) == {};
  }

  /** The live tables. Each method is one of the service's, checked against the function above it. */
  class FeedDatabase {
    var follows: seq<FollowRow>
    var nextZindex: nat
    var posts: map<PostId, Post>
    var newestFirst: seq<PostId>
    var feed: Feed

    ghost function Value(): Db
      reads this
    {
      Db(follows, nextZindex, posts, newestFirst, feed)
    }

    constructor ()
      ensures Value() == Db([], 1, map[], [], map[]) && ValidDb(Value())
    {
      follows, nextZindex, posts, newestFirst, feed := [], 1, map[], [], map[];
    }

    method GetUserFollowGroupIds(groupIds: seq<GroupId>, notExistInGroupIds: seq<GroupId>, zindex: nat, limit: nat)
      returns (userIds: seq<UserId>, latestFollowId: nat)
      ensures var page := Page(follows, Elems(groupIds), Elems(notExistInGroupIds), zindex, limit);
              && |userIds| == |page| && (forall i :: 0 <= i < |page| ==> userIds[i] == page[i].user)
              && Elems(userIds) == Users(page) && latestFollowId == LastZindex(page)
    {
      var page := Page(follows, Elems(groupIds), Elems(notExistInGroupIds), zindex, limit);
      userIds := seq(|page|, i requires 0 <= i < |page| => page[i].user);
      latestFollowId := LastZindex(page);
      assert forall i :: 0 <= i < |page| ==> userIds[i] == page[i].user && page[i] in page;
      assert forall u :: u in Users(page) ==> u in userIds;
    }

    method AttachPostToUserIds(userIds: seq<UserId>, postId: PostId)
      modifies this`feed
      ensures feed == Attach(old(feed), Elems(userIds), postId)
    {
      feed := Insert(feed, set u | u in userIds :: FeedKey(u, postId));
      assert Keys(Elems(userIds), postId) == set u | u in userIds :: FeedKey(u, postId);
    }

    method DetachPostFromUserIds(userIds: seq<UserId>, postId: PostId)
      modifies this`feed
      ensures feed == Detach(old(feed), Elems(userIds), postId)
    {
      feed := feed - set u | u in userIds :: FeedKey(u, postId);
      assert Keys(Elems(userIds), postId) == set u | u in userIds :: FeedKey(u, postId);
    }

    /** The attach loop of `fanoutOnWrite`: pages through the followers of `target` who follow none of `exclude`. */
    method AttachLoop(postId: PostId, target: seq<GroupId>, exclude: seq<GroupId>, pageSize: nat)
      requires ValidRows(follows, nextZindex) && 1 <= pageSize
      modifies this`feed
      ensures feed == Attach(old(feed), Followers(follows, Elems(target)) - Followers(follows, Elems(exclude)), postId)
    {
      ghost var t, e := Elems(target), Elems(exclude);
      var latestFollowId := 0;
      NobodyYet(follows, nextZindex, t, e);
      while true
        invariant feed == Attach(old(feed), UsersUpTo(follows, t, e, latestFollowId), postId)
        decreases nextZindex - latestFollowId
      {
        PageCovers(follows, nextZindex, t, e, latestFollowId, pageSize);
        PageAdvances(follows, nextZindex, t, e, latestFollowId, pageSize);
        var userIds, lastId := GetUserFollowGroupIds(target, exclude, latestFollowId, pageSize);
        AttachTwice(old(feed), UsersUpTo(follows, t, e, latestFollowId), Elems(userIds), postId);
        if |userIds| > 0 {
          AttachPostToUserIds(userIds, postId);
        }
        if |userIds| == 0 || |userIds| < pageSize {
          break;
        }
        latestFollowId := lastId;
      }
    }

    /** The detach loop of `fanoutOnWrite`: pages through the followers of `target` who follow none of `exclude`. */
    method DetachLoop(postId: PostId, target: seq<GroupId>, exclude: seq<GroupId>, pageSize: nat)
      requires ValidRows(follows, nextZindex) && 1 <= pageSize
      modifies this`feed
      ensures feed == Detach(old(feed), Followers(follows, Elems(target)) - Followers(follows, Elems(exclude)), postId)
    {
      ghost var t, e := Elems(target), Elems(exclude);
      var latestFollowId := 0;
      NobodyYet(follows, nextZindex, t, e);
      while true
        invariant feed == Detach(old(feed), UsersUpTo(follows, t, e, latestFollowId), postId)
        decreases nextZindex - latestFollowId
      {
        PageCovers(follows, nextZindex, t, e, latestFollowId, pageSize);
        PageAdvances(follows, nextZindex, t, e, latestFollowId, pageSize);
        var userIds, lastId := GetUserFollowGroupIds(target, exclude, latestFollowId, pageSize);
        DetachTwice(old(feed), UsersUpTo(follows, t, e, latestFollowId), Elems(userIds), postId);
        if |userIds| > 0 {
          DetachPostFromUserIds(userIds, postId);
        }
        if |userIds| == 0 || |userIds| < pageSize {
          break;
        }
        latestFollowId := lastId;
      }
    }

    /** `pageSize` is 1000 in the service. */
    method FanoutOnWrite(postId: PostId, newGroupIds: seq<GroupId>, oldGroupIds: seq<GroupId>, pageSize: nat)
      requires ValidDb(Value()) && 1 <= pageSize
      modifies this`feed
      ensures feed == FanoutFeed(old(feed), follows, postId, Elems(newGroupIds), Elems(oldGroupIds))
    {
      var attachedGroupIds := Difference(newGroupIds, oldGroupIds);
      var detachedGroupIds := Difference(oldGroupIds, newGroupIds);
      ghost var new_, old_ := Elems(newGroupIds), Elems(oldGroupIds);
      assert Elems(attachedGroupIds) == new_ - old_;
      assert Elems(detachedGroupIds) == old_ - new_;
      ghost var toAttach := Followers(follows, new_ - old_) - Followers(follows, old_);
      ghost var toDetach := Followers(follows, old_ - new_) - Followers(follows, new_);
      if |attachedGroupIds| > 0 {
        AttachLoop(postId, attachedGroupIds, oldGroupIds, pageSize);
      } else {
        NothingToDo(feed, follows, Followers(follows, old_), postId);
        assert new_ - old_ == {};
      }
      assert feed == Attach(old(feed), toAttach, postId);
      NothingToDo(feed, follows, Followers(follows, new_), postId);
      if |detachedGroupIds| > 0 {
        DetachLoop(postId, detachedGroupIds, newGroupIds, pageSize);
      }
    }

    method Follow(userId: UserId, groupIds: seq<GroupId>)
      modifies this`follows, this`nextZindex, this`feed
      ensures Value() == FollowStep(old(Value()), userId, groupIds, MAX_POSTS_IN_NEWSFEED)
    {
      var followedGroupIds := Difference(groupIds, JoinedGroupIds(follows, userId));
      if |followedGroupIds| == 0 {
        return;
      }
      var chosen := Take(VisiblePosts(posts, newestFirst, followedGroupIds), MAX_POSTS_IN_NEWSFEED);
      var (rows, next) := AddFollows(follows, nextZindex, userId, followedGroupIds);
      follows, nextZindex := rows, next;
      feed := Insert(feed, PostKeys(userId, chosen));
    }

    method Unfollow(userId: UserId, groupIdsUserLeft: seq<GroupId>)
      modifies this`follows, this`feed
      ensures Value() == UnfollowStep(old(Value()), userId, groupIdsUserLeft)
    {
      follows := RemoveFollows(follows, userId, groupIdsUserLeft);
      var groupIdsUserJoined := JoinedGroupIds(follows, userId);
      feed := feed - Orphaned(feed, posts, userId, groupIdsUserLeft, groupIdsUserJoined);
    }
  }
}

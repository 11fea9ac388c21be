/** Stored counters kept up to date by model hooks: a post's comments, a top-level comment's replies, a post's
    readers. The repair commands recount them from the rows. */
module Counters {
  import opened Ids
  import opened Lists

  const NIL: CommentId := 0

  datatype Comment = Comment(post: PostId, parent: CommentId, totalReply: int)

  /** `deleted` is the soft-delete mark: the hooks look posts up without the deleted ones. */
  datatype PostRow = PostRow(deleted: bool, commentsCount: int, totalUsersSeen: int)

  datatype Seen = Seen(post: PostId, user: UserId)

  datatype Db = Db(posts: map<PostId, PostRow>, comments: map<CommentId, Comment>, seen: set<Seen>)

  // ---------- recounts ----------

  function CommentsOf(db: Db, p: PostId): set<CommentId> {
    set c | c in db.comments && db.comments[c].post == p
  }

  function RepliesTo(db: Db, parent: CommentId): set<CommentId> {
    set c | c in db.comments && db.comments[c].parent == parent
  }

  function SeenBy(db: Db, p: PostId): set<Seen> {
    set s | s in db.seen && s.post == p
  }

  /** `fix:comment-replies-count`: both UPDATE statements. */
  function FixReplies(db: Db): Db {
    var comments := map c | c in db.comments ::
      if db.comments[c].parent == NIL then db.comments[c].(totalReply := |RepliesTo(db, c)|) else db.comments[c];
    var posts := map p | p in db.posts :: db.posts[p].(commentsCount := |CommentsOf(db, p)|);
    Db(posts, comments, db.seen)
  }

  /** `fix:post:total-users-seen` on the posts that are not deleted. */
  function FixSeen(db: Db): Db {
    db.(posts := map p | p in db.posts ::
          if db.posts[p].deleted then db.posts[p] else db.posts[p].(totalUsersSeen := |SeenBy(db, p)|))
  }

  /** Foreign keys, and replies go to existing top-level comments only, as the reply handler checks. */
  ghost predicate ValidDb(db: Db) {
    && NIL !in db.comments
    && (forall c :: c in db.comments ==> db.comments[c].post in db.posts)
    && (forall c :: c in db.comments && db.comments[c].parent != NIL ==>
          && db.comments[c].parent in db.comments
          && db.comments[db.comments[c].parent].parent == NIL)
  }

  ghost predicate RepliesCounted(db: Db) {
    forall c :: c in db.comments && db.comments[c].parent == NIL ==> db.comments[c].totalReply == |RepliesTo(db, c)|
  }

  ghost predicate CommentsCounted(db: Db) {
    forall p :: p in db.posts ==> db.posts[p].commentsCount == |CommentsOf(db, p)|
  }

  ghost predicate LiveCommentsCounted(db: Db) {
    forall p :: p in db.posts && !db.posts[p].deleted ==> db.posts[p].commentsCount == |CommentsOf(db, p)|
  }

  ghost predicate SeenCounted(db: Db) {
    forall p :: p in db.posts && !db.posts[p].deleted ==> db.posts[p].totalUsersSeen == |SeenBy(db, p)|
  }

  /** The counters equal the recounts exactly when the repair commands change nothing. */
  lemma CountedIffRepairsChangeNothing(db: Db)
    ensures RepliesCounted(db) && CommentsCounted(db) <==> FixReplies(db) == db
    ensures SeenCounted(db) <==> FixSeen(db) == db
  {
    var fixed := FixReplies(db);
    if fixed == db {
      forall c | c in db.comments && db.comments[c].parent == NIL
        ensures db.comments[c].totalReply == |RepliesTo(db, c)|
      {
        assert fixed.comments[c] == db.comments[c];
      }
      forall p | p in db.posts ensures db.posts[p].commentsCount == |CommentsOf(db, p)| {
        assert fixed.posts[p] == db.posts[p];
      }
    }
    if RepliesCounted(db) && CommentsCounted(db) {
      assert fixed.comments == db.comments && fixed.posts == db.posts;
    }
    if FixSeen(db) == db {
      forall p | p in db.posts && !db.posts[p].deleted ensures db.posts[p].totalUsersSeen == |SeenBy(db, p)| {
        assert FixSeen(db).posts[p] == db.posts[p];
      }
    }
    if SeenCounted(db) {
      assert FixSeen(db).posts == db.posts;
    }
  }

  /** From any tables the repair of replies makes its counters the row counts; it changes no other column and no row. */
  lemma RepliesRepaired(db: Db)
    ensures var fixed := FixReplies(db);
            && RepliesCounted(fixed) && CommentsCounted(fixed) && FixReplies(fixed) == fixed
            && fixed.comments.Keys == db.comments.Keys && fixed.posts.Keys == db.posts.Keys && fixed.seen == db.seen
            && (forall c :: c in db.comments ==>
                  && fixed.comments[c].post == db.comments[c].post && fixed.comments[c].parent == db.comments[c].parent
                  && (db.comments[c].parent != NIL ==> fixed.comments[c] == db.comments[c]))
            && (forall p :: p in db.posts ==>
                  && fixed.posts[p].deleted == db.posts[p].deleted
                  && fixed.posts[p].totalUsersSeen == db.posts[p].totalUsersSeen)
  {
    var fixed := FixReplies(db);
    forall c ensures RepliesTo(fixed, c) == RepliesTo(db, c) {}
    forall p ensures CommentsOf(fixed, p) == CommentsOf(db, p) {}
    CountedIffRepairsChangeNothing(fixed);
  }

  /** The repair of readers makes the counters of the live posts their row counts and changes nothing else. */
  lemma SeenRepaired(db: Db)
    ensures var fixed := FixSeen(db);
            && SeenCounted(fixed) && FixSeen(fixed) == fixed
            && fixed.comments == db.comments && fixed.seen == db.seen && fixed.posts.Keys == db.posts.Keys
            && (forall p :: p in db.posts && db.posts[p].deleted ==> fixed.posts[p] == db.posts[p])
            && (forall p :: p in db.posts ==>
                  && fixed.posts[p].deleted == db.posts[p].deleted
                  && fixed.posts[p].commentsCount == db.posts[p].commentsCount)
  {
    var fixed := FixSeen(db);
    forall p ensures SeenBy(fixed, p) == SeenBy(db, p) {}
    CountedIffRepairsChangeNothing(fixed);
  }

  // ---------- hooks ----------

  /** `_updateCommentCountForPost`: `findByPk` does not find a deleted post. */
  function BumpPost(posts: map<PostId, PostRow>, p: PostId, delta: int): map<PostId, PostRow> {
    if p in posts && !posts[p].deleted
    then posts[p := posts[p].(commentsCount := posts[p].commentsCount + delta)]
    else posts
  }

  /** `_updateChildCommentCount` on a parent that exists. */
  function BumpParent(comments: map<CommentId, Comment>, parent: CommentId, delta: int): map<CommentId, Comment> {
    if parent != NIL && parent in comments
    then comments[parent := comments[parent].(totalReply := comments[parent].totalReply + delta)]
    else comments
  }

  function BumpSeen(posts: map<PostId, PostRow>, p: PostId): map<PostId, PostRow> {
    if p in posts && !posts[p].deleted then
      posts[p := posts[p].(totalUsersSeen := posts[p].totalUsersSeen + 1)]
    else posts
  }

  /** Insert, then the after-create hook. */
  function Create(db: Db, id: CommentId, p: PostId, parent: CommentId): Db {
    Db(BumpPost(db.posts, p, 1), BumpParent(db.comments[id := Comment(p, parent, 0)], parent, 1), db.seen)
  }

  /** Delete one row, then the after-destroy hook. */
  function DestroyOne(db: Db, id: CommentId): Db
    requires id in db.comments
  {
    var comment := db.comments[id];
    Db(BumpPost(db.posts, comment.post, -1), BumpParent(db.comments - {id}, comment.parent, -1), db.seen)
  }

  function MarkSeen(db: Db, p: PostId, u: UserId): Db {
    if p !in db.posts || Seen(p, u) in db.seen then db
    else Db(BumpSeen(db.posts, p), db.comments, db.seen + {Seen(p, u)})
  }

  /** The mark a publication makes: nothing is looked up first, so the hook counts an ignored insert too. */
  function MarkPublished(db: Db, p: PostId, u: UserId): Db {
    if p !in db.posts then db else Db(BumpSeen(db.posts, p), db.comments, db.seen + {Seen(p, u)})
  }

  /** A row the hooks can follow up: a fresh id, an existing post, and for a reply an existing top-level comment. */
  predicate CanInsert(db: Db, id: CommentId, p: PostId, parent: CommentId) {
    && id != NIL && id !in db.comments && p in db.posts
    && (parent != NIL ==> parent in db.comments && db.comments[parent].parent == NIL)
  }

  /**
    * What every step keeps: the counters of live posts and of top-level comments, and the frozen rows of
    * deleted posts.
    */
  ghost predicate Kept(db: Db, db': Db) {
    && ValidDb(db')
    && db'.posts.Keys == db.posts.Keys
    && (forall p :: p in db.posts ==> db'.posts[p].deleted == db.posts[p].deleted)
    && (forall p :: p in db.posts && db.posts[p].deleted ==> db'.posts[p] == db.posts[p])
    && (RepliesCounted(db) ==> RepliesCounted(db'))
    && (LiveCommentsCounted(db) ==> LiveCommentsCounted(db'))
    && (SeenCounted(db) ==> SeenCounted(db'))
  }

  /** The row sets the counters count, after a create. */
  lemma CreateSets(db: Db, id: CommentId, p: PostId, parent: CommentId)
    requires ValidDb(db) && CanInsert(db, id, p, parent)
    ensures var db' := Create(db, id, p, parent);
            && (forall q :: CommentsOf(db', q) == if q == p then CommentsOf(db, q) + {id} else CommentsOf(db, q))
            && (forall c :: RepliesTo(db', c) == if c == parent then RepliesTo(db, c) + {id} else RepliesTo(db, c))
            && (forall q :: SeenBy(db', q) == SeenBy(db, q))
            && RepliesTo(db', id) == {}
  {
    var db' := Create(db, id, p, parent);
    forall q ensures CommentsOf(db', q) == if q == p then CommentsOf(db, q) + {id} else CommentsOf(db, q) {}
    forall c ensures RepliesTo(db', c) == if c == parent then RepliesTo(db, c) + {id} else RepliesTo(db, c) {}
    forall q ensures SeenBy(db', q) == SeenBy(db, q) {}
  }

  /** A create stores the row whatever the hooks then find; no other comment moves, and only the parent's counter and
      a live post's counter change, by one. */
  lemma CreateInserts(db: Db, id: CommentId, p: PostId, parent: CommentId)
    requires id !in db.comments
    ensures var db' := Create(db, id, p, parent);
            && db'.comments.Keys == db.comments.Keys + {id} && db'.posts.Keys == db.posts.Keys && db'.seen == db.seen
            && db'.comments[id].post == p && db'.comments[id].parent == parent
            && (id != parent ==> db'.comments[id].totalReply == 0)
            && (forall c :: c in db.comments && !(c == parent && c != NIL) ==> db'.comments[c] == db.comments[c])
            && (parent in db.comments && parent != NIL ==>
                  db'.comments[parent] ==
                  db.comments[parent].(totalReply := db.comments[parent].totalReply + 1))
            && (forall q :: q in db.posts && !(q == p && !db.posts[q].deleted) ==> db'.posts[q] == db.posts[q])
            && (p in db.posts && !db.posts[p].deleted ==>
                  db'.posts[p] == db.posts[p].(commentsCount := db.posts[p].commentsCount + 1))
  {
  }

  lemma CreateIsValid(db: Db, id: CommentId, p: PostId, parent: CommentId)
    requires ValidDb(db) && CanInsert(db, id, p, parent)
    ensures ValidDb(Create(db, id, p, parent))
  {
  }

  lemma CreateKeepsReplies(db: Db, id: CommentId, p: PostId, parent: CommentId)
    requires ValidDb(db) && CanInsert(db, id, p, parent)
    ensures RepliesCounted(db) ==> RepliesCounted(Create(db, id, p, parent))
  {
    var db' := Create(db, id, p, parent);
    forall c | c in db'.comments && db'.comments[c].parent == NIL
      ensures RepliesCounted(db) ==> db'.comments[c].totalReply == |RepliesTo(db', c)|
    {
      CreateKeepsCount(db, id, p, parent, c);
    }
  }

  lemma CreateKeepsCount(db: Db, id: CommentId, p: PostId, parent: CommentId, c: CommentId)
    requires ValidDb(db) && CanInsert(db, id, p, parent)
    requires var db' := Create(db, id, p, parent); c in db'.comments && db'.comments[c].parent == NIL
    ensures var db' := Create(db, id, p, parent);
            if c == id then db'.comments[c].totalReply == |RepliesTo(db', c)|
            else c in db.comments && db.comments[c].parent == NIL
                 && db'.comments[c].totalReply - |RepliesTo(db', c)| == db.comments[c].totalReply - |RepliesTo(db, c)|
  {
    CreateSets(db, id, p, parent);
    assert id !in RepliesTo(db, parent);
  }

  lemma CreateKeepsPosts(db: Db, id: CommentId, p: PostId, parent: CommentId)
    requires ValidDb(db) && CanInsert(db, id, p, parent)
    ensures LiveCommentsCounted(db) ==> LiveCommentsCounted(Create(db, id, p, parent))
    ensures SeenCounted(db) ==> SeenCounted(Create(db, id, p, parent))
  {
    CreateSets(db, id, p, parent);
    assert id !in CommentsOf(db, p);
    var db' := Create(db, id, p, parent);
    forall q | q in db'.posts && !db'.posts[q].deleted
      ensures LiveCommentsCounted(db) ==> db'.posts[q].commentsCount == |CommentsOf(db', q)|
    {
    }
  }

  lemma CreateKeeps(db: Db, id: CommentId, p: PostId, parent: CommentId)
    requires ValidDb(db) && CanInsert(db, id, p, parent)
    ensures Kept(db, Create(db, id, p, parent))
  {
    CreateIsValid(db, id, p, parent);
    CreateKeepsReplies(db, id, p, parent);
    CreateKeepsPosts(db, id, p, parent);
  }

  /** The row sets the counters count, after one destroy. */
  lemma DestroySets(db: Db, id: CommentId)
    requires ValidDb(db) && id in db.comments && RepliesTo(db, id) == {}
    ensures var db' := DestroyOne(db, id);
            && ValidDb(db')
            && (forall q :: CommentsOf(db', q) == CommentsOf(db, q) - {id})
            && (forall c :: RepliesTo(db', c) == RepliesTo(db, c) - {id})
            && (forall q :: SeenBy(db', q) == SeenBy(db, q))
  {
    var db' := DestroyOne(db, id);
    forall c | c in db.comments ensures db.comments[c].parent != id {
      assert c !in RepliesTo(db, id);
    }
    forall q ensures CommentsOf(db', q) == CommentsOf(db, q) - {id} {}
    forall c ensures RepliesTo(db', c) == RepliesTo(db, c) - {id} {}
    forall q ensures SeenBy(db', q) == SeenBy(db, q) {}
  }

  /** Destroying a comment that has no replies keeps the counters. */
  lemma DestroyOneKeeps(db: Db, id: CommentId)
    requires ValidDb(db) && id in db.comments && RepliesTo(db, id) == {}
    ensures Kept(db, DestroyOne(db, id))
  {
    DestroySets(db, id);
    DestroyKeepsReplies(db, id);
    DestroyKeepsComments(db, id);
  }

  lemma DestroyKeepsTotal(db: Db, id: CommentId, c: CommentId)
    requires ValidDb(db) && id in db.comments && RepliesTo(db, id) == {}
    requires var db' := DestroyOne(db, id); c in db'.comments && db'.comments[c].parent == NIL
    ensures var db' := DestroyOne(db, id);
            c in db.comments && db.comments[c].parent == NIL
            && db'.comments[c].totalReply - |RepliesTo(db', c)| == db.comments[c].totalReply - |RepliesTo(db, c)|
  {
    DestroySets(db, id);
    assert id in RepliesTo(db, c) <==> db.comments[id].parent == c;
  }

  lemma DestroyKeepsReplies(db: Db, id: CommentId)
    requires ValidDb(db) && id in db.comments && RepliesTo(db, id) == {}
    ensures RepliesCounted(db) ==> RepliesCounted(DestroyOne(db, id))
  {
    var db' := DestroyOne(db, id);
    forall c | c in db'.comments && db'.comments[c].parent == NIL
      ensures RepliesCounted(db) ==> db'.comments[c].totalReply == |RepliesTo(db', c)|
    {
      DestroyKeepsTotal(db, id, c);
    }
  }

  lemma DestroyKeepsComments(db: Db, id: CommentId)
    requires ValidDb(db) && id in db.comments && RepliesTo(db, id) == {}
    ensures LiveCommentsCounted(db) ==> LiveCommentsCounted(DestroyOne(db, id))
  {
    var db' := DestroyOne(db, id);
    forall q | q in db'.posts && !db'.posts[q].deleted
      ensures LiveCommentsCounted(db) ==> db'.posts[q].commentsCount == |CommentsOf(db', q)|
    {
      DestroyKeepsCount(db, id, q);
    }
  }

  lemma DestroyKeepsCount(db: Db, id: CommentId, q: PostId)
    requires ValidDb(db) && id in db.comments && RepliesTo(db, id) == {} && q in db.posts && !db.posts[q].deleted
    ensures var db' := DestroyOne(db, id);
            q in db'.posts
            && db'.posts[q].commentsCount - |CommentsOf(db', q)| == db.posts[q].commentsCount - |CommentsOf(db, q)|
  {
    DestroySets(db, id);
    assert id in CommentsOf(db, q) <==> q == db.comments[id].post;
  }

  lemma KeptTwice(a: Db, b: Db, c: Db)
    requires Kept(a, b) && Kept(b, c)
    ensures Kept(a, c)
  {
  }

  /** The row sets the counters count, after a user is marked. */
  lemma SeenSets(db: Db, p: PostId, u: UserId)
    ensures var db' := MarkSeen(db, p, u);
            && (forall q :: CommentsOf(db', q) == CommentsOf(db, q))
            && (forall c :: RepliesTo(db', c) == RepliesTo(db, c))
            && (forall q :: SeenBy(db', q) ==
                  if q == p && p in db.posts then SeenBy(db, q) + {Seen(p, u)} else SeenBy(db, q))
  {
    var db' := MarkSeen(db, p, u);
    forall q ensures CommentsOf(db', q) == CommentsOf(db, q) {}
    forall c ensures RepliesTo(db', c) == RepliesTo(db, c) {}
    forall q
      ensures SeenBy(db', q) == if q == p && p in db.posts then SeenBy(db, q) + {Seen(p, u)} else SeenBy(db, q)
    {}
  }

  /** The same for the mark of a publication. */
  lemma PublishedSets(db: Db, p: PostId, u: UserId)
    ensures var db' := MarkPublished(db, p, u);
            && (ValidDb(db) ==> ValidDb(db')) && (RepliesCounted(db) ==> RepliesCounted(db'))
            && (forall q :: CommentsOf(db', q) == CommentsOf(db, q))
            && (forall q :: SeenBy(db', q) ==
                  if q == p && p in db.posts then SeenBy(db, q) + {Seen(p, u)} else SeenBy(db, q))
  {
    var db' := MarkPublished(db, p, u);
    forall q ensures CommentsOf(db', q) == CommentsOf(db, q) {}
    forall c ensures RepliesTo(db', c) == RepliesTo(db, c) {}
    forall q
      ensures SeenBy(db', q) == if q == p && p in db.posts then SeenBy(db, q) + {Seen(p, u)} else SeenBy(db, q)
    {}
  }

  lemma SeenKeepsSeen(db: Db, p: PostId, u: UserId)
    ensures SeenCounted(db) ==> SeenCounted(MarkSeen(db, p, u))
  {
    SeenSets(db, p, u);
    var db' := MarkSeen(db, p, u);
    forall q | q in db'.posts && !db'.posts[q].deleted
      ensures SeenCounted(db) ==> db'.posts[q].totalUsersSeen == |SeenBy(db', q)|
    {
      assert Seen(p, u) in SeenBy(db, p) <==> Seen(p, u) in db.seen;
    }
  }

  lemma SeenKeeps(db: Db, p: PostId, u: UserId)
    requires ValidDb(db)
    ensures Kept(db, MarkSeen(db, p, u))
  {
    SeenSets(db, p, u);
    SeenKeepsSeen(db, p, u);
  }

  /** A create followed by the destroy of the same comment leaves everything as it was. */
  lemma DestroyUndoesCreate(db: Db, id: CommentId, p: PostId, parent: CommentId)
    requires ValidDb(db) && CanInsert(db, id, p, parent)
    ensures DestroyOne(Create(db, id, p, parent), id) == db
  {
    var created := Create(db, id, p, parent);
    assert created.comments - {id} == BumpParent(db.comments, parent, 1);
    assert BumpParent(BumpParent(db.comments, parent, 1), parent, -1) == db.comments;
    assert BumpPost(BumpPost(db.posts, p, 1), p, -1) == db.posts;
  }

  // ---------- destroying a comment with its replies ----------

  ghost predicate DestroyOrder(db: Db, ids: seq<CommentId>) {
    && Distinct(ids)
    && (forall id :: id in ids ==> id in db.comments)
    && (forall i, c :: 0 <= i < |ids| && c in RepliesTo(db, ids[i]) ==> c in ids[..i])
  }

  /** `destroyComment`: the rows go one by one, each with its hook. */
  function DestroyAll(db: Db, ids: seq<CommentId>): Db
    requires Distinct(ids) && forall id :: id in ids ==> id in db.comments
    decreases |ids|
  {
    if ids == [] then db
    else
      assert ids[0] in ids;
      assert forall id :: id in ids[1..] ==> id in ids && id != ids[0];
      DestroyAll(DestroyOne(db, ids[0]), ids[1..])
  }

  lemma OrderAfterFirst(db: Db, ids: seq<CommentId>)
    requires ids != [] && DestroyOrder(db, ids)
    ensures RepliesTo(db, ids[0]) == {} && DestroyOrder(DestroyOne(db, ids[0]), ids[1..])
  {
    var next, rest := DestroyOne(db, ids[0]), ids[1..];
    assert ids[..0] == [];
    forall id | id in rest ensures id in next.comments {
      assert id in ids;
    }
    forall i, c | 0 <= i < |rest| && c in RepliesTo(next, rest[i]) ensures c in rest[..i] {
      assert rest[i] == ids[i + 1] && c in RepliesTo(db, ids[i + 1]) && c in ids[..i + 1] && c != ids[0];
      var k :| 0 <= k < i + 1 && ids[k] == c;
      assert rest[..i][k - 1] == c;
    }
  }

  lemma {:induction false} DestroyAllKeeps(db: Db, ids: seq<CommentId>)
    requires ValidDb(db) && DestroyOrder(db, ids)
    ensures Kept(db, DestroyAll(db, ids))
    decreases |ids|
  {
    if ids != [] {
      assert ids[0] in ids;
      OrderAfterFirst(db, ids);
      DestroyOneKeeps(db, ids[0]);
      DestroyAllKeeps(DestroyOne(db, ids[0]), ids[1..]);
      KeptTwice(db, DestroyOne(db, ids[0]), DestroyAll(db, ids));
    }
  }

  /** Exactly the listed rows go. */
  lemma {:induction false} DestroyAllRemoves(db: Db, ids: seq<CommentId>)
    requires Distinct(ids) && forall id :: id in ids ==> id in db.comments
    ensures forall c :: c in DestroyAll(db, ids).comments <==> c in db.comments && c !in ids
    decreases |ids|
  {
    if ids != [] {
      assert forall id :: id in ids <==> id == ids[0] || id in ids[1..];
      assert forall id :: id in ids[1..] ==> id != ids[0];
      DestroyAllRemoves(DestroyOne(db, ids[0]), ids[1..]);
    }
  }

  /** Listing the replies and then the comment is a safe order. */
  lemma RepliesFirst(db: Db, id: CommentId, replies: seq<CommentId>)
    requires ValidDb(db) && id in db.comments && Distinct(replies)
    requires forall c :: c in replies <==> c in RepliesTo(db, id)
    ensures DestroyOrder(db, replies + [id])
  {
    var ids := replies + [id];
    assert id !in replies;
    forall i, c | 0 <= i < |ids| && c in RepliesTo(db, ids[i]) ensures c in ids[..i] {
      assert i == |replies| by {
        assert ids[i] in replies + [id];
      }
      assert ids[..i] == replies;
    }
    assert Distinct(ids) by {
      forall i, j | 0 <= i < j < |ids| ensures ids[i] != ids[j] {
        assert ids[i] == replies[i] && replies[i] in replies;
      }
    }
  }

  // ---------- runs ----------

  datatype Step =
    | CreateComment(id: CommentId, post: PostId, parent: CommentId)
    | DeleteComment(id: CommentId, replies: seq<CommentId>)
    | See(post: PostId, user: UserId)
    | Publish(post: PostId, user: UserId)
    | SoftDelete(post: PostId)
    | Restore(post: PostId)

  predicate IsLive(db: Db, p: PostId) {
    p in db.posts && !db.posts[p].deleted
  }

  /** What the handlers check. A comment is created on a live post and deleted from a live post; the post of a reply
      is not compared with its parent's, and only a live post is published. `replies` lists the replies in the order
      the bulk destroy visits them. */
  ghost predicate Allowed(db: Db, step: Step) {
    match step
    case CreateComment(id, p, parent) => CanInsert(db, id, p, parent) && IsLive(db, p)
    case DeleteComment(id, replies) =>
      && id in db.comments && IsLive(db, db.comments[id].post)
      && Distinct(replies) && forall c :: c in replies <==> c in RepliesTo(db, id)
    case See(_, _) => true
    case Publish(p, _) => IsLive(db, p)
    case SoftDelete(p) => IsLive(db, p)
    case Restore(p) => p in db.posts && db.posts[p].deleted
  }

  function SetDeleted(db: Db, p: PostId, deleted: bool): Db
    requires p in db.posts
  {
    db.(posts := db.posts[p := db.posts[p].(deleted := deleted)])
  }

  ghost function Next(db: Db, step: Step): Db
    requires ValidDb(db) && Allowed(db, step)
  {
    match step
    case CreateComment(id, p, parent) => Create(db, id, p, parent)
    case DeleteComment(id, replies) => RepliesFirst(db, id, replies); DestroyAll(db, replies + [id])
    case See(p, u) => MarkSeen(db, p, u)
    case Publish(p, u) => MarkPublished(db, p, u)
    case SoftDelete(p) => SetDeleted(db, p, true)
    case Restore(p) => SetDeleted(db, p, false)
  }

  /** A run as its states: each is reached from the one before by an allowed step. */
  ghost predicate IsRun(states: seq<Db>, steps: seq<Step>) {
    && |states| == |steps| + 1
    && ValidDb(states[0])
    && forall i :: 0 <= i < |steps| ==>
         ValidDb(states[i]) && Allowed(states[i], steps[i]) && states[i + 1] == Next(states[i], steps[i])
  }

  lemma SetDeletedSets(db: Db, p: PostId, deleted: bool)
    requires p in db.posts
    ensures var db' := SetDeleted(db, p, deleted);
            && (ValidDb(db) ==> ValidDb(db')) && (RepliesCounted(db) ==> RepliesCounted(db'))
            && (forall q :: CommentsOf(db', q) == CommentsOf(db, q) && SeenBy(db', q) == SeenBy(db, q))
  {
    var db' := SetDeleted(db, p, deleted);
    forall q ensures CommentsOf(db', q) == CommentsOf(db, q) && SeenBy(db', q) == SeenBy(db, q) {}
    forall c ensures RepliesTo(db', c) == RepliesTo(db, c) {}
  }

  lemma StepKeeps(db: Db, step: Step)
    requires ValidDb(db) && Allowed(db, step)
    ensures ValidDb(Next(db, step)) && Next(db, step).posts.Keys == db.posts.Keys
    ensures RepliesCounted(db) ==> RepliesCounted(Next(db, step))
  {
    match step
    case CreateComment(id, p, parent) => CreateKeeps(db, id, p, parent);
    case DeleteComment(id, replies) =>
      RepliesFirst(db, id, replies);
      DestroyAllKeeps(db, replies + [id]);
    case See(p, u) => SeenKeeps(db, p, u);
    case Publish(p, u) => PublishedSets(db, p, u);
    case SoftDelete(p) => SetDeletedSets(db, p, true);
    case Restore(p) => SetDeletedSets(db, p, false);
  }

  // ---------- comment counters over runs ----------

  /** How far a post's stored counter is above its rows. */
  function CommentDrift(db: Db, p: PostId): int
    requires p in db.posts
  {
    db.posts[p].commentsCount - |CommentsOf(db, p)|
  }

  /** The step deletes a reply that sits on the soft-deleted post `p`: the hook does not find the post. */
  predicate Strands(db: Db, step: Step, p: PostId) {
    && step.DeleteComment? && p in db.posts && db.posts[p].deleted
    && exists c :: c in step.replies && c in db.comments && db.comments[c].post == p
  }

  /** None of the first `n` steps does that. */
  ghost predicate NeverStrands(states: seq<Db>, steps: seq<Step>, n: nat, p: PostId)
    requires n <= |steps| < |states|
  {
    forall i :: 0 <= i < n ==> !Strands(states[i], steps[i], p)
  }

  lemma DestroyOneDrift(db: Db, id: CommentId, p: PostId)
    requires ValidDb(db) && id in db.comments && RepliesTo(db, id) == {} && p in db.posts
    ensures var db' := DestroyOne(db, id);
            && p in db'.posts && db'.posts[p].deleted == db.posts[p].deleted
            && CommentDrift(db', p) ==
               CommentDrift(db, p) + if db.comments[id].post == p && db.posts[p].deleted then 1 else 0
  {
    DestroySets(db, id);
    assert id in CommentsOf(db, p) <==> db.comments[id].post == p;
  }

  /** Some listed comment sits on the post. */
  predicate AnyOn(db: Db, ids: seq<CommentId>, p: PostId) {
    exists id :: id in ids && id in db.comments && db.comments[id].post == p
  }

  lemma AnyOnFirst(db: Db, ids: seq<CommentId>, p: PostId)
    requires ids != [] && Distinct(ids) && ids[0] in db.comments
    ensures AnyOn(db, ids, p) <==> db.comments[ids[0]].post == p || AnyOn(DestroyOne(db, ids[0]), ids[1..], p)
  {
    var next := DestroyOne(db, ids[0]);
    assert forall id :: id in ids <==> id == ids[0] || id in ids[1..];
    assert forall id :: id in ids[1..] ==> id != ids[0];
    assert forall id :: id in next.comments <==> id in db.comments && id != ids[0];
    assert forall id :: id in next.comments ==> next.comments[id].post == db.comments[id].post;
  }

  lemma {:induction false} DestroyAllDrift(db: Db, ids: seq<CommentId>, p: PostId)
    requires ValidDb(db) && DestroyOrder(db, ids) && p in db.posts
    ensures var db' := DestroyAll(db, ids);
            && p in db'.posts && CommentDrift(db, p) <= CommentDrift(db', p)
            && (CommentDrift(db', p) == CommentDrift(db, p) <==> !(db.posts[p].deleted && AnyOn(db, ids, p)))
    decreases |ids|
  {
    if ids != [] {
      assert ids[0] in ids;
      OrderAfterFirst(db, ids);
      DestroyOneKeeps(db, ids[0]);
      DestroyOneDrift(db, ids[0], p);
      DestroyAllDrift(DestroyOne(db, ids[0]), ids[1..], p);
      AnyOnFirst(db, ids, p);
    }
  }

  lemma StepDrift(db: Db, step: Step, p: PostId)
    requires ValidDb(db) && Allowed(db, step) && p in db.posts
    ensures var db' := Next(db, step);
            && p in db'.posts && CommentDrift(db, p) <= CommentDrift(db', p)
            && (CommentDrift(db', p) == CommentDrift(db, p) <==> !Strands(db, step, p))
  {
    match step
    case CreateComment(id, q, parent) =>
      CreateSets(db, id, q, parent);
      assert id !in CommentsOf(db, q);
    case DeleteComment(id, replies) =>
      RepliesFirst(db, id, replies);
      DestroyAllDrift(db, replies + [id], p);
      assert db.posts[p].deleted ==> (AnyOn(db, replies + [id], p) <==> AnyOn(db, replies, p));
    case See(q, u) => SeenSets(db, q, u);
    case Publish(q, u) => PublishedSets(db, q, u);
    case SoftDelete(q) => SetDeletedSets(db, q, true);
    case Restore(q) => SetDeletedSets(db, q, false);
  }

  lemma {:induction false} RunDrift(states: seq<Db>, steps: seq<Step>, n: nat, p: PostId)
    requires IsRun(states, steps) && n <= |steps| && p in states[0].posts
    ensures ValidDb(states[n]) && states[n].posts.Keys == states[0].posts.Keys
    ensures RepliesCounted(states[0]) ==> RepliesCounted(states[n])
    ensures CommentDrift(states[0], p) <= CommentDrift(states[n], p)
    ensures CommentDrift(states[n], p) == CommentDrift(states[0], p) <==> NeverStrands(states, steps, n, p)
  {
    if n > 0 {
      RunDrift(states, steps, n - 1, p);
      StepKeeps(states[n - 1], steps[n - 1]);
      StepDrift(states[n - 1], steps[n - 1], p);
    }
  }

  lemma {:induction false} RunKeeps(states: seq<Db>, steps: seq<Step>, n: nat)
    requires IsRun(states, steps) && n <= |steps|
    ensures ValidDb(states[n]) && states[n].posts.Keys == states[0].posts.Keys
    ensures RepliesCounted(states[0]) ==> RepliesCounted(states[n])
  {
    if n > 0 {
      RunKeeps(states, steps, n - 1);
      StepKeeps(states[n - 1], steps[n - 1]);
    }
  }

  /** From counted tables the recount of comments and replies changes nothing after a run if and only if no step
      deletes a reply that sits on a post soft-deleted at that time. */
  lemma CommentRecountIff(states: seq<Db>, steps: seq<Step>)
    requires IsRun(states, steps) && RepliesCounted(states[0]) && CommentsCounted(states[0])
    ensures FixReplies(states[|steps|]) == states[|steps|] <==>
            forall p :: NeverStrands(states, steps, |steps|, p)
  {
    var start, end := states[0], states[|steps|];
    RunKeeps(states, steps, |steps|);
    CountedIffRepairsChangeNothing(end);
    forall p | p in end.posts
      ensures end.posts[p].commentsCount == |CommentsOf(end, p)| <==> NeverStrands(states, steps, |steps|, p)
    {
      RunDrift(states, steps, |steps|, p);
      assert CommentDrift(start, p) == 0;
    }
    forall p | p !in start.posts ensures NeverStrands(states, steps, |steps|, p) {
      forall i | 0 <= i < |steps| ensures !Strands(states[i], steps[i], p) {
        RunKeeps(states, steps, i);
      }
    }
  }

  const START := Db(map[1 := PostRow(false, 1, 0), 2 := PostRow(false, 0, 0)], map[5 := Comment(1, NIL, 0)], {})
  const REPLIED := Db(map[1 := PostRow(false, 1, 0), 2 := PostRow(false, 1, 0)],
                      map[5 := Comment(1, NIL, 1), 6 := Comment(2, 5, 0)], {})
  const REMOVED := Db(map[1 := PostRow(false, 1, 0), 2 := PostRow(true, 1, 0)],
                      map[5 := Comment(1, NIL, 1), 6 := Comment(2, 5, 0)], {})

  /** Comment 6 on post 2 replies to comment 5 on post 1; post 2 is soft-deleted; comment 5 is deleted with its
      reply: post 2 still counts a comment it does not have. */
  lemma StrandedReply() returns (states: seq<Db>, steps: seq<Step>)
    ensures IsRun(states, steps) && RepliesCounted(states[0]) && CommentsCounted(states[0])
    ensures FixReplies(states[|steps|]) != states[|steps|]
  {
    StartIsCounted();
    ReplyStep();
    var last := DeleteComment(5, [6]);
    DeleteStep();
    states := [START, REPLIED, REMOVED, Next(REMOVED, last)];
    steps := [CreateComment(6, 2, 5), SoftDelete(2), last];
    assert Strands(states[2], steps[2], 2) by {
      assert 6 in [6];
    }
    CommentRecountIff(states, steps);
    assert !NeverStrands(states, steps, 3, 2);
  }

  lemma StartIsCounted()
    ensures ValidDb(START) && RepliesCounted(START) && CommentsCounted(START)
  {
    assert CommentsOf(START, 1) == {5} && CommentsOf(START, 2) == {} && RepliesTo(START, 5) == {};
  }

  lemma ReplyStep()
    ensures Allowed(START, CreateComment(6, 2, 5)) && Next(START, CreateComment(6, 2, 5)) == REPLIED
    ensures ValidDb(REPLIED) && Allowed(REPLIED, SoftDelete(2)) && Next(REPLIED, SoftDelete(2)) == REMOVED
  {
    StartIsCounted();
  }

  lemma DeleteStep()
    ensures ValidDb(REMOVED) && Allowed(REMOVED, DeleteComment(5, [6]))
  {
    assert RepliesTo(REMOVED, 5) == {6};
  }

  // ---------- seen counters over runs ----------

  /** How far a post's readers are above its stored counter. */
  function SeenDrift(db: Db, p: PostId): int
    requires p in db.posts
  {
    |SeenBy(db, p)| - db.posts[p].totalUsersSeen
  }

  /** The step records a new reader of the soft-deleted post `p`: a row that is not counted. */
  predicate MissesReader(db: Db, step: Step, p: PostId) {
    step.See? && step.post == p && p in db.posts && db.posts[p].deleted && Seen(p, step.user) !in db.seen
  }

  /** The step publishes `p` by somebody who has seen it already: a count without a row. */
  predicate RepeatsReader(db: Db, step: Step, p: PostId) {
    step.Publish? && step.post == p && p in db.posts && !db.posts[p].deleted && Seen(p, step.user) in db.seen
  }

  /** How often the first `n` steps do that. */
  ghost function Misses(states: seq<Db>, steps: seq<Step>, n: nat, p: PostId): nat
    requires n <= |steps| < |states|
  {
    if n == 0 then 0 else
      Misses(states, steps, n - 1, p) + if MissesReader(states[n - 1], steps[n - 1], p) then 1 else 0
  }

  ghost function Repeats(states: seq<Db>, steps: seq<Step>, n: nat, p: PostId): nat
    requires n <= |steps| < |states|
  {
    if n == 0 then 0 else
      Repeats(states, steps, n - 1, p) + if RepeatsReader(states[n - 1], steps[n - 1], p) then 1 else 0
  }

  lemma {:induction false} DestroyAllSeen(db: Db, ids: seq<CommentId>)
    requires Distinct(ids) && forall id :: id in ids ==> id in db.comments
    ensures var db' := DestroyAll(db, ids);
            && db'.seen == db.seen && db'.posts.Keys == db.posts.Keys
            && forall p :: p in db.posts ==> db'.posts[p].totalUsersSeen == db.posts[p].totalUsersSeen
    decreases |ids|
  {
    if ids != [] {
      assert ids[0] in ids;
      assert forall id :: id in ids[1..] ==> id in ids && id != ids[0];
      DestroyAllSeen(DestroyOne(db, ids[0]), ids[1..]);
    }
  }

  lemma SeenDrifts(db: Db, q: PostId, u: UserId, p: PostId)
    requires p in db.posts
    ensures var db' := MarkSeen(db, q, u);
            p in db'.posts
            && SeenDrift(db', p) == SeenDrift(db, p) + if MissesReader(db, See(q, u), p) then 1 else 0
  {
    SeenSets(db, q, u);
    assert Seen(q, u) in SeenBy(db, q) <==> Seen(q, u) in db.seen;
  }

  lemma PublishedDrifts(db: Db, q: PostId, u: UserId, p: PostId)
    requires p in db.posts && IsLive(db, q)
    ensures var db' := MarkPublished(db, q, u);
            p in db'.posts
            && SeenDrift(db', p) == SeenDrift(db, p) - if RepeatsReader(db, Publish(q, u), p) then 1 else 0
  {
    PublishedSets(db, q, u);
    assert Seen(q, u) in SeenBy(db, q) <==> Seen(q, u) in db.seen;
    assert Seen(q, u) in db.seen ==> SeenBy(db, q) + {Seen(q, u)} == SeenBy(db, q);
  }

  lemma StepSeenDrift(db: Db, step: Step, p: PostId)
    requires ValidDb(db) && Allowed(db, step) && p in db.posts
    ensures var db' := Next(db, step);
            && p in db'.posts
            && SeenDrift(db', p) == SeenDrift(db, p) + (if MissesReader(db, step, p) then 1 else 0)
                                                     - (if RepeatsReader(db, step, p) then 1 else 0)
  {
    match step
    case CreateComment(id, q, parent) => CreateSets(db, id, q, parent);
    case DeleteComment(id, replies) =>
      RepliesFirst(db, id, replies);
      DestroyAllSeen(db, replies + [id]);
      assert SeenBy(Next(db, step), p) == SeenBy(db, p);
    case See(q, u) => SeenDrifts(db, q, u, p);
    case Publish(q, u) => PublishedDrifts(db, q, u, p);
    case SoftDelete(q) => SetDeletedSets(db, q, true);
    case Restore(q) => SetDeletedSets(db, q, false);
  }

  lemma {:induction false} RunSeenDrift(states: seq<Db>, steps: seq<Step>, n: nat, p: PostId)
    requires IsRun(states, steps) && n <= |steps| && p in states[0].posts
    ensures p in states[n].posts
    ensures SeenDrift(states[n], p) ==
            SeenDrift(states[0], p) + Misses(states, steps, n, p) - Repeats(states, steps, n, p)
  {
    if n > 0 {
      RunSeenDrift(states, steps, n - 1, p);
      RunKeeps(states, steps, n - 1);
      StepSeenDrift(states[n - 1], steps[n - 1], p);
    }
  }

  lemma SeenCountedIff(db: Db)
    ensures SeenCounted(db) <==> forall p :: IsLive(db, p) ==> SeenDrift(db, p) == 0
  {
    forall p ensures IsLive(db, p) ==> (SeenDrift(db, p) == 0 <==> db.posts[p].totalUsersSeen == |SeenBy(db, p)|) {
    }
    if forall p :: IsLive(db, p) ==> SeenDrift(db, p) == 0 {
      forall p | p in db.posts && !db.posts[p].deleted ensures db.posts[p].totalUsersSeen == |SeenBy(db, p)| {
        assert IsLive(db, p);
      }
    }
  }

  /** From counted posts the recount of readers changes nothing after a run if and only if every post that is live at
      the end got as many new readers while it was soft-deleted as publications by somebody who had seen it. */
  lemma SeenRecountIff(states: seq<Db>, steps: seq<Step>)
    requires IsRun(states, steps) && forall p :: p in states[0].posts ==> SeenDrift(states[0], p) == 0
    ensures FixSeen(states[|steps|]) == states[|steps|] <==>
            forall p :: IsLive(states[|steps|], p) ==>
                          Misses(states, steps, |steps|, p) == Repeats(states, steps, |steps|, p)
  {
    CountedIffRepairsChangeNothing(states[|steps|]);
    forall p | IsLive(states[|steps|], p)
      ensures SeenDrift(states[|steps|], p) == 0 <==>
              Misses(states, steps, |steps|, p) == Repeats(states, steps, |steps|, p)
    {
      RunKeeps(states, steps, |steps|);
      RunSeenDrift(states, steps, |steps|, p);
    }
    SeenCountedIff(states[|steps|]);
  }

  lemma {:induction false} StaysDeleted(states: seq<Db>, steps: seq<Step>, i: nat, n: nat, p: PostId)
    requires IsRun(states, steps) && i <= n <= |steps| && p in states[i].posts && states[i].posts[p].deleted
    requires forall j :: 0 <= j < |steps| ==> !steps[j].Restore?
    ensures p in states[n].posts && states[n].posts[p].deleted
    decreases n
  {
    if i < n {
      StaysDeleted(states, steps, i, n - 1, p);
      var db, step := states[n - 1], steps[n - 1];
      match step
      case CreateComment(id, q, parent) => CreateKeeps(db, id, q, parent);
      case DeleteComment(id, replies) =>
        RepliesFirst(db, id, replies);
        DestroyAllKeeps(db, replies + [id]);
      case See(q, u) => SeenKeeps(db, q, u);
      case Publish(q, u) => PublishedSets(db, q, u);
      case SoftDelete(q) =>
    }
  }

  /** No publication of the post is by somebody who has seen it. */
  ghost predicate NeverRepeats(states: seq<Db>, steps: seq<Step>, p: PostId)
    requires |steps| < |states|
  {
    forall i :: 0 <= i < |steps| ==> !RepeatsReader(states[i], steps[i], p)
  }

  lemma {:induction false} RepeatsIff(states: seq<Db>, steps: seq<Step>, n: nat, p: PostId)
    requires n <= |steps| < |states|
    ensures Repeats(states, steps, n, p) == 0 <==> forall i :: 0 <= i < n ==> !RepeatsReader(states[i], steps[i], p)
  {
    if n > 0 {
      RepeatsIff(states, steps, n - 1, p);
    }
  }

  lemma {:induction false} LiveMissesNothing(states: seq<Db>, steps: seq<Step>, n: nat, p: PostId)
    requires IsRun(states, steps) && n <= |steps| && IsLive(states[|steps|], p)
    requires forall j :: 0 <= j < |steps| ==> !steps[j].Restore?
    ensures Misses(states, steps, n, p) == 0
  {
    if n > 0 {
      LiveMissesNothing(states, steps, n - 1, p);
      if MissesReader(states[n - 1], steps[n - 1], p) {
        StaysDeleted(states, steps, n - 1, |steps|, p);
      }
    }
  }

  /** Nothing in the service restores a post. Without restores the recount of readers changes nothing if and only if
      no post that is live at the end was published by somebody who had seen it. */
  lemma SeenRecountWithoutRestoreIff(states: seq<Db>, steps: seq<Step>)
    requires IsRun(states, steps) && forall p :: p in states[0].posts ==> SeenDrift(states[0], p) == 0
    requires forall j :: 0 <= j < |steps| ==> !steps[j].Restore?
    ensures FixSeen(states[|steps|]) == states[|steps|] <==>
            forall p :: IsLive(states[|steps|], p) ==> NeverRepeats(states, steps, p)
  {
    forall p | IsLive(states[|steps|], p)
      ensures Misses(states, steps, |steps|, p) == Repeats(states, steps, |steps|, p) <==>
              NeverRepeats(states, steps, p)
    {
      LiveMissesNothing(states, steps, |steps|, p);
      RepeatsIff(states, steps, |steps|, p);
    }
    SeenRecountIff(states, steps);
  }

  /** An author opens a draft and then publishes it: one row, counted twice. */
  lemma PublishingCountsAuthorTwice() returns (states: seq<Db>, steps: seq<Step>)
    ensures IsRun(states, steps) && forall p :: p in states[0].posts ==> SeenDrift(states[0], p) == 0
    ensures forall j :: 0 <= j < |steps| ==> steps[j].See? || steps[j].Publish?
    ensures FixSeen(states[|steps|]) != states[|steps|]
  {
    var start := Db(map[1 := PostRow(false, 0, 0)], map[], {});
    assert SeenBy(start, 1) == {};
    var seen := Next(start, See(1, 7));
    states, steps := [start, seen, Next(seen, Publish(1, 7))], [See(1, 7), Publish(1, 7)];
    SeenRecountWithoutRestoreIff(states, steps);
    assert IsLive(states[2], 1) && !NeverRepeats(states, steps, 1) by {
      assert RepeatsReader(states[1], steps[1], 1);
    }
  }

  /** A reader recorded while the post is soft-deleted is missing from its counter once the post is restored. */
  lemma RestoredPostMissesReader() returns (states: seq<Db>, steps: seq<Step>)
    ensures IsRun(states, steps) && forall p :: p in states[0].posts ==> SeenDrift(states[0], p) == 0
    ensures forall j :: 0 <= j < |steps| ==> !steps[j].Publish?
    ensures FixSeen(states[|steps|]) != states[|steps|]
  {
    var start := Db(map[1 := PostRow(true, 0, 0)], map[], {});
    assert SeenBy(start, 1) == {};
    var seen := Next(start, See(1, 7));
    states, steps := [start, seen, Next(seen, Restore(1))], [See(1, 7), Restore(1)];
    SeenRecountIff(states, steps);
    assert MissesReader(states[0], steps[0], 1);
    assert IsLive(states[2], 1) && Misses(states, steps, 1, 1) == 1 && Misses(states, steps, 2, 1) == 1;
    assert Repeats(states, steps, 1, 1) == 0 && Repeats(states, steps, 2, 1) == 0;
  }

  // ---------- the tables as the service changes them ----------

  class CommentStore {
    var db: Db

    constructor (db: Db)
      ensures this.db == db
    {
      this.db := db;
    }

    /** `createComment`. Without its parent the row stays and the hook throws: `ok` is false. */
    method CreateComment(id: CommentId, postId: PostId, parentId: CommentId) returns (ok: bool)
      modifies this
      ensures db == Create(old(db), id, postId, parentId)
      ensures ok <==> parentId == NIL || parentId == id || parentId in old(db).comments
    {
      var comments := db.comments[id := Comment(postId, parentId, 0)];
      db := db.(comments := comments);
      var posts := db.posts;
      if postId in posts && !posts[postId].deleted {
        posts := posts[postId := posts[postId].(commentsCount := posts[postId].commentsCount + 1)];
      }
      db := db.(posts := posts);
      if parentId == NIL {
        return true;
      }
      if parentId !in db.comments {
        return false;
      }
      var parent := db.comments[parentId];
      db := db.(comments := db.comments[parentId := parent.(totalReply := parent.totalReply + 1)]);
      return true;
    }

    /** `destroyComment`; `replies` is the order in which the bulk destroy visits the replies. */
    method DestroyComment(id: CommentId, replies: seq<CommentId>) returns (ok: bool)
      requires ValidDb(db) && Distinct(replies) && forall c :: c in replies <==> c in RepliesTo(db, id)
      modifies this
      ensures ok <==> id in old(db).comments
      ensures !ok ==> db == old(db)
      ensures ok ==> DestroyOrder(old(db), replies + [id]) && db == DestroyAll(old(db), replies + [id])
    {
      if id !in db.comments {
        return false;
      }
      ghost var ids := replies + [id];
      RepliesFirst(db, id, replies);
      for i := 0 to |replies|
        invariant DestroyOrder(db, ids[i..]) && DestroyAll(db, ids[i..]) == DestroyAll(old(db), ids)
      {
        OrderAfterFirst(db, ids[i..]);
        assert ids[i..][0] == replies[i] && ids[i..][1..] == ids[i + 1..];
        assert ids[i..][0] in ids[i..];
        db := DestroyOne(db, replies[i]);
      }
      assert ids[|replies|..] == [id];
      OrderAfterFirst(db, [id]);
      assert id in [id];
      db := DestroyOne(db, id);
      return true;
    }

    /** The repository's `markSeen`, called on publication. */
    method MarkSeenOnPublish(postId: PostId, userId: UserId)
      modifies this
      ensures db == MarkPublished(old(db), postId, userId)
    {
      if postId !in db.posts {
        return;
      }
      db := db.(seen := db.seen + {Seen(postId, userId)});
      db := db.(posts := BumpSeen(db.posts, postId));
    }

    method MarkSeenPost(postId: PostId, userId: UserId)
      modifies this
      ensures db == MarkSeen(old(db), postId, userId)
    {
      var exist := Seen(postId, userId) in db.seen;
      if !exist && postId in db.posts {
        db := db.(seen := db.seen + {Seen(postId, userId)});
        db := db.(posts := BumpSeen(db.posts, postId));
      }
    }

    /** The `reduce` over the rows: how many there are per post. */
    static method CountPerPost(rows: seq<Seen>) returns (count: map<PostId, nat>)
      requires Distinct(rows)
      ensures forall p :: (if p in count then count[p] else 0) == |SeenIn(rows, p)|
    {
      count := map[];
      for i := 0 to |rows|
        invariant forall p :: (if p in count then count[p] else 0) == |SeenIn(rows[..i], p)|
      {
        var p := rows[i].post;
        assert rows[..i + 1] == rows[..i] + [rows[i]] && rows[i] !in rows[..i];
        SeenOneMore(rows[..i], rows[i]);
        count := count[p := (if p in count then count[p] else 0) + 1];
      }
      assert rows[..|rows|] == rows;
    }

    /** `rows` is the whole `users_seen_posts` table in the order it was read, `live` the posts that are not deleted. */
    method FixTotalUsersSeen(rows: seq<Seen>, live: seq<PostId>)
      requires Distinct(rows) && Elems(rows) == db.seen
      requires forall p :: p in live <==> p in db.posts && !db.posts[p].deleted
      modifies this
      ensures db == FixSeen(old(db))
    {
      var count := CountPerPost(rows);
      forall p ensures SeenIn(rows, p) == SeenBy(db, p) {
        assert forall s :: s in rows <==> s in Elems(rows);
      }
      ghost var fixed := FixSeen(db).posts;
      for i := 0 to |live|
        invariant db == old(db).(posts := db.posts) && db.posts.Keys == fixed.Keys
        invariant forall p :: p in db.posts ==>
                    db.posts[p] == if p in live[..i] then fixed[p] else old(db).posts[p]
      {
        var p := live[i];
        assert p in live && live[..i + 1] == live[..i] + [p];
        var total := if p in count then count[p] else 0;
        db := db.(posts := db.posts[p := db.posts[p].(totalUsersSeen := total)]);
      }
      assert live[..|live|] == live;
      assert db.posts == fixed;
    }
  }

  lemma SeenOneMore(rows: seq<Seen>, row: Seen)
    requires row !in rows
    ensures forall p :: |SeenIn(rows + [row], p)| == |SeenIn(rows, p)| + if p == row.post then 1 else 0
  {
    forall p ensures |SeenIn(rows + [row], p)| == |SeenIn(rows, p)| + if p == row.post then 1 else 0 {
      assert SeenIn(rows + [row], p) == if p == row.post then SeenIn(rows, p) + {row} else SeenIn(rows, p);
    }
  }

  function SeenIn(rows: seq<Seen>, p: PostId): set<Seen> {
    set s | s in rows && s.post == p
  }
}

/** The fan-out of one post interleaved with concurrent follows and unfollows.
    One page fetch with its write is one atomic step; follow and unfollow calls run between pages. */
module FanoutRace {
  import opened Ids
  import opened Lists
  import opened FollowTable
  import opened Newsfeed
  import opened FeedRuns

  /** One call `fanoutOnWrite(post, new_, old_)`; the post's rows in `posts_groups` are the new groups already. */
  datatype Call = Call(post: PostId, new_: set<GroupId>, old_: set<GroupId>, pageSize: nat, maxPosts: nat)

  datatype Phase = Attaching(cursor: nat) | Detaching(cursor: nat) | Done

  datatype State = State(db: Db, phase: Phase)

  datatype Step =
    | NextPage
    | FollowCall(user: UserId, groups: seq<GroupId>)
    | UnfollowCall(user: UserId, groups: seq<GroupId>)

  ghost predicate ValidState(c: Call, s: State) {
    && 1 <= c.pageSize
    && ValidDb(s.db)
    && c.post in s.db.posts && s.db.posts[c.post].groups.Keys == c.new_
    && (s.phase.Attaching? ==> s.phase.cursor < s.db.nextZindex)
  }

  function StartDetach(c: Call): Phase {
    if c.old_ - c.new_ == {} then Done else Detaching(0)
  }

  function Start(c: Call): Phase {
    if c.new_ - c.old_ == {} then StartDetach(c) else Attaching(0)
  }

  /** The call has an attach loop when there is a group to attach, and otherwise a detach loop when there is a group to
      detach; it fetches no page when the groups are the same. */
  lemma StartsWhen(c: Call)
    ensures Start(c).Attaching? <==> exists g :: g in c.new_ && g !in c.old_
    ensures Start(c).Detaching? <==> c.new_ < c.old_
    ensures Start(c).Done? <==> c.new_ == c.old_
  {
    assert forall g :: g in c.new_ - c.old_ <==> g in c.new_ && g !in c.old_;
    assert forall g :: g in c.old_ - c.new_ <==> g in c.old_ && g !in c.new_;
  }

  function PageStep(c: Call, s: State): State {
    match s.phase
    case Attaching(k) =>
      var page := Page(s.db.follows, c.new_ - c.old_, c.old_, k, c.pageSize);
      State(s.db.(feed := Attach(s.db.feed, Users(page), c.post)),
            if |page| < c.pageSize then StartDetach(c) else Attaching(LastZindex(page)))
    case Detaching(k) =>
      var page := Page(s.db.follows, c.old_ - c.new_, c.new_, k, c.pageSize);
      State(s.db.(feed := Detach(s.db.feed, Users(page), c.post)),
            if |page| < c.pageSize then Done else Detaching(LastZindex(page)))
    case Done => s
  }

  function Next(c: Call, s: State, step: Step): State {
    match step
    case NextPage => PageStep(c, s)
    case FollowCall(u, gs) => s.(db := FollowStep(s.db, u, gs, c.maxPosts))
    case UnfollowCall(u, gs) => s.(db := UnfollowStep(s.db, u, gs))
  }

  function RunSteps(c: Call, s: State, steps: seq<Step>): State
    decreases |steps|
  {
    if steps == [] then s else RunSteps(c, Next(c, s, steps[0]), steps[1..])
  }

  predicate Has(c: Call, s: State, u: UserId) {
    HasRow(s.db.feed, u, c.post)
  }

  // ---------- the two invariants ----------

  /** The attach loop will still reach the user: no old group followed, every attached-group row beyond the cursor. */
  predicate StillToAttach(c: Call, s: State, u: UserId) {
    && s.phase.Attaching?
    && !FollowsAny(s.db.follows, u, c.old_)
    && forall r :: r in s.db.follows && r.user == u && r.group in c.new_ - c.old_ ==> s.phase.cursor < r.zindex
  }

  /** Nobody is lost: a follower of a new group has the post or will still be attached. */
  ghost predicate Complete(c: Call, s: State) {
    forall u :: FollowsAny(s.db.follows, u, c.new_) ==> Has(c, s, u) || StillToAttach(c, s, u)
  }

  /** The row lies in a detached group, beyond where the detach loop has got to. */
  predicate AheadOfDetach(c: Call, phase: Phase, r: FollowRow) {
    && r.group in c.old_ - c.new_
    && match phase
       case Attaching(_) => true
       case Detaching(k) => k < r.zindex
       case Done => false
  }

  predicate StillToDetach(c: Call, s: State, u: UserId) {
    exists r :: r in s.db.follows && r.user == u && AheadOfDetach(c, s.phase, r)
  }

  /** No row is stale: whoever has the post follows a new group or will still be detached. */
  ghost predicate NoStaleRow(c: Call, s: State) {
    forall u :: Has(c, s, u) ==> FollowsAny(s.db.follows, u, c.new_) || StillToDetach(c, s, u)
  }

  /** When the call starts from rows that are exactly the old followers, both hold. */
  lemma StartKeepsBoth(c: Call, db: Db)
    requires ValidState(c, State(db, Start(c)))
    ensures (forall u :: FollowsAny(db.follows, u, c.old_) ==> HasRow(db.feed, u, c.post)) ==>
              Complete(c, State(db, Start(c)))
    ensures (forall u :: HasRow(db.feed, u, c.post) ==> FollowsAny(db.follows, u, c.old_)) ==>
              NoStaleRow(c, State(db, Start(c)))
  {
    var s := State(db, Start(c));
    forall u
      ensures FollowsAny(db.follows, u, c.new_) && !FollowsAny(db.follows, u, c.old_) ==> StillToAttach(c, s, u)
      ensures FollowsAny(db.follows, u, c.old_) ==> FollowsAny(db.follows, u, c.new_) || StillToDetach(c, s, u)
    {
      if FollowsAny(db.follows, u, c.new_) && !FollowsAny(db.follows, u, c.old_) {
        var g :| g in c.new_ && Follows(db.follows, u, g);
        assert g in c.new_ - c.old_;
      }
      if FollowsAny(db.follows, u, c.old_) && !FollowsAny(db.follows, u, c.new_) {
        var g :| g in c.old_ && Follows(db.follows, u, g);
        var r :| r in db.follows && r.user == u && r.group == g;
        assert g in c.old_ - c.new_;
        assert AheadOfDetach(c, s.phase, r);
      }
    }
  }

  // ---------- pages ----------

  lemma AttachPageKeeps(c: Call, s: State)
    requires ValidState(c, s) && s.phase.Attaching?
    ensures Complete(c, s) ==> Complete(c, PageStep(c, s))
    ensures NoStaleRow(c, s) ==> NoStaleRow(c, PageStep(c, s))
    ensures ValidState(c, PageStep(c, s))
  {
    var s' := PageStep(c, s);
    var rows, target := s.db.follows, c.new_ - c.old_;
    var page := Page(rows, target, c.old_, s.phase.cursor, c.pageSize);
    PageCovers(rows, s.db.nextZindex, target, c.old_, s.phase.cursor, c.pageSize);
    forall u ensures Has(c, s', u) <==> Has(c, s, u) || u in Users(page) {
      assert FeedKey(u, c.post) in Keys(Users(page), c.post) <==> u in Users(page);
    }
    if Complete(c, s) {
      forall u | FollowsAny(rows, u, c.new_) && !Has(c, s', u) ensures StillToAttach(c, s', u) {
        assert StillToAttach(c, s, u);
        var g :| g in c.new_ && Follows(rows, u, g);
        var row :| row in rows && row.user == u && row.group == g;
        assert Eligible(rows, row, target, c.old_);
        forall r | r in rows && r.user == u && r.group in target
          ensures |page| == c.pageSize && LastZindex(page) < r.zindex
        {
          assert Eligible(rows, r, target, c.old_);
          assert r in page ==> r.user in Users(page);
        }
      }
    }
    if NoStaleRow(c, s) {
      forall u | Has(c, s', u) && !FollowsAny(rows, u, c.new_) ensures StillToDetach(c, s', u) {
        if u in Users(page) {
          var r :| r in page && r.user == u;
          assert Follows(rows, u, r.group);
        }
        var r :| r in rows && r.user == u && AheadOfDetach(c, s.phase, r);
        assert 0 < r.zindex;
        assert AheadOfDetach(c, s'.phase, r);
      }
    }
  }

  lemma DetachPageKeeps(c: Call, s: State)
    requires ValidState(c, s) && s.phase.Detaching?
    ensures Complete(c, s) ==> Complete(c, PageStep(c, s))
    ensures NoStaleRow(c, s) ==> NoStaleRow(c, PageStep(c, s))
    ensures ValidState(c, PageStep(c, s))
  {
    var s' := PageStep(c, s);
    var rows, target := s.db.follows, c.old_ - c.new_;
    var page := Page(rows, target, c.new_, s.phase.cursor, c.pageSize);
    PageCovers(rows, s.db.nextZindex, target, c.new_, s.phase.cursor, c.pageSize);
    forall u ensures Has(c, s', u) <==> Has(c, s, u) && u !in Users(page) {
      assert FeedKey(u, c.post) in Keys(Users(page), c.post) <==> u in Users(page);
    }
    forall u | u in Users(page) ensures !FollowsAny(rows, u, c.new_) {
      var r :| r in page && r.user == u;
    }
    if NoStaleRow(c, s) {
      forall u | Has(c, s', u) && !FollowsAny(rows, u, c.new_) ensures StillToDetach(c, s', u) {
        var r :| r in rows && r.user == u && AheadOfDetach(c, s.phase, r);
        assert Eligible(rows, r, target, c.new_);
        assert r in page ==> r.user in Users(page);
        assert AheadOfDetach(c, s'.phase, r);
      }
    }
  }

  // ---------- what a page leaves alone ----------

  /** A page writes rows of its own post only, keeps the seen marks of the rows that stay, and inserts unseen ones. */
  lemma PageTouchesThePost(c: Call, s: State)
    ensures var s' := PageStep(c, s);
            && s'.db == s.db.(feed := s'.db.feed)
            && (forall k: FeedKey :: k.post != c.post ==> (k in s'.db.feed <==> k in s.db.feed))
            && MarksKept(s.db.feed, s'.db.feed)
  {
  }

  lemma StepMarksNothing(c: Call, s: State, step: Step)
    ensures MarksKept(s.db.feed, Next(c, s, step).db.feed)
  {
    match step
    case NextPage => PageTouchesThePost(c, s);
    case FollowCall(u, gs) => AfterFollowFeed(s.db, u, gs, c.maxPosts);
    case UnfollowCall(u, gs) =>
  }

  /** Whatever runs between the pages, a row that is seen at the end was there and seen at the start. */
  lemma {:induction false} FanoutMarksNothing(c: Call, s: State, steps: seq<Step>, k: FeedKey)
    requires var end := RunSteps(c, s, steps).db; k in end.feed && end.feed[k]
    ensures k in s.db.feed && s.db.feed[k]
    decreases |steps|
  {
    if steps != [] {
      StepMarksNothing(c, s, steps[0]);
      FanoutMarksNothing(c, Next(c, s, steps[0]), steps[1..], k);
    }
  }

  /** The two databases differ in rows of post `p` at most. */
  ghost predicate AgreeElsewhere(p: PostId, a: Db, b: Db) {
    && a.(feed := map[]) == b.(feed := map[])
    && (forall k: FeedKey :: k.post != p ==> (k in a.feed <==> k in b.feed))
    && (forall k: FeedKey :: k.post != p && k in a.feed && k in b.feed ==> a.feed[k] == b.feed[k])
  }

  /** The steps without the pages. */
  function Calls(steps: seq<Step>): seq<Step> {
    if steps == [] then [] else (if steps[0].NextPage? then [] else [steps[0]]) + Calls(steps[1..])
  }

  lemma CallAgrees(c: Call, s: State, t: State, step: Step)
    requires AgreeElsewhere(c.post, s.db, t.db) && !step.NextPage?
    ensures AgreeElsewhere(c.post, Next(c, s, step).db, Next(c, t, step).db)
  {
  }

  /** For every other post the interleaved call does not exist: its rows and their marks, the follows and the posts end
      as if only the follows and unfollows had run. */
  lemma {:induction false} OtherPostsSeeNoFanout(c: Call, s: State, t: State, steps: seq<Step>)
    requires AgreeElsewhere(c.post, s.db, t.db)
    ensures AgreeElsewhere(c.post, RunSteps(c, s, steps).db, RunSteps(c, t, Calls(steps)).db)
    decreases |steps|
  {
    if steps != [] {
      var step := steps[0];
      if step.NextPage? {
        PageTouchesThePost(c, s);
        assert [] + Calls(steps[1..]) == Calls(steps[1..]);
        OtherPostsSeeNoFanout(c, Next(c, s, step), t, steps[1..]);
      } else {
        CallAgrees(c, s, t, step);
        RunCons(c, t, step, Calls(steps[1..]));
        OtherPostsSeeNoFanout(c, Next(c, s, step), Next(c, t, step), steps[1..]);
      }
    }
  }

  // ---------- pages alone ----------

  function Attached(c: Call, db: Db): Feed {
    Attach(db.feed, Followers(db.follows, c.new_ - c.old_) - Followers(db.follows, c.old_), c.post)
  }

  /** How far an undisturbed call has got: the users up to the cursor are dealt with. */
  ghost predicate PagesReached(c: Call, db: Db, s: State) {
    && s.db == db.(feed := s.db.feed)
    && s.db.feed ==
       match s.phase
       case Attaching(k) => Attach(db.feed, UsersUpTo(db.follows, c.new_ - c.old_, c.old_, k), c.post)
       case Detaching(k) => Detach(Attached(c, db), UsersUpTo(db.follows, c.old_ - c.new_, c.new_, k), c.post)
       case Done => FanoutFeed(db.feed, db.follows, c.post, c.new_, c.old_)
  }

  lemma DetachStarts(c: Call, db: Db)
    requires ValidRows(db.follows, db.nextZindex)
    ensures PagesReached(c, db, State(db.(feed := Attached(c, db)), StartDetach(c)))
  {
    NobodyYet(db.follows, db.nextZindex, c.old_ - c.new_, c.new_);
    NothingToDo(Attached(c, db), db.follows, Followers(db.follows, c.new_), c.post);
  }

  lemma PageReaches(c: Call, db: Db, s: State)
    requires ValidRows(db.follows, db.nextZindex) && 1 <= c.pageSize && PagesReached(c, db, s)
    ensures PagesReached(c, db, PageStep(c, s))
  {
    var rows, next := db.follows, db.nextZindex;
    match s.phase
    case Attaching(k) =>
      var target := c.new_ - c.old_;
      PageAdvances(rows, next, target, c.old_, k, c.pageSize);
      AttachTwice(db.feed, UsersUpTo(rows, target, c.old_, k),
                  Users(Page(rows, target, c.old_, k, c.pageSize)), c.post);
      DetachStarts(c, db);
    case Detaching(k) =>
      var target := c.old_ - c.new_;
      PageAdvances(rows, next, target, c.new_, k, c.pageSize);
      DetachTwice(Attached(c, db), UsersUpTo(rows, target, c.new_, k),
                  Users(Page(rows, target, c.new_, k, c.pageSize)), c.post);
    case Done =>
  }

  lemma {:induction false} PagesReach(c: Call, db: Db, s: State, steps: seq<Step>)
    requires ValidRows(db.follows, db.nextZindex) && 1 <= c.pageSize && PagesReached(c, db, s)
    requires forall step :: step in steps ==> step.NextPage?
    ensures PagesReached(c, db, RunSteps(c, s, steps))
    decreases |steps|
  {
    if steps != [] {
      assert steps[0] in steps;
      PageReaches(c, db, s);
      PagesReach(c, db, PageStep(c, s), steps[1..]);
    }
  }

  /** Undisturbed, the pages that end the call make exactly the one-shot fan-out, for any rows at the start. */
  lemma PagesAloneAreFanout(c: Call, db: Db, steps: seq<Step>)
    requires ValidRows(db.follows, db.nextZindex) && 1 <= c.pageSize
    requires forall step :: step in steps ==> step.NextPage?
    requires RunSteps(c, State(db, Start(c)), steps).phase.Done?
    ensures RunSteps(c, State(db, Start(c)), steps).db ==
            db.(feed := FanoutFeed(db.feed, db.follows, c.post, c.new_, c.old_))
  {
    NobodyYet(db.follows, db.nextZindex, c.new_ - c.old_, c.old_);
    NothingToDo(db.feed, db.follows, Followers(db.follows, c.old_), c.post);
    if c.new_ - c.old_ == {} {
      assert Attached(c, db) == db.feed;
      DetachStarts(c, db);
    }
    PagesReach(c, db, State(db, Start(c)), steps);
  }

  // ---------- follow and unfollow calls ----------

  /** The only follow that loses a user: without the row, passing over the post, now following a new group,
      and not left to the attach loop because it is over or because an old group hides the user from it. */
  predicate HarmfulFollow(c: Call, s: State, u: UserId, gs: seq<GroupId>)
    requires c.post in s.db.posts
  {
    && !Has(c, s, u)
    && (!s.db.posts[c.post].published || PassedOver(s.db, u, gs, c.maxPosts, c.post))
    && (FollowsAny(s.db.follows, u, c.new_) || Elems(gs) * c.new_ != {})
    && (s.phase.Attaching? ==> FollowsAny(s.db.follows, u, c.old_) || Elems(gs) * c.old_ != {})
  }

  /** The only unfollow that leaves a stale row: the user has the row, follows no new group and leaves none,
      but leaves every detached group in which the detach loop would still have found them. */
  predicate HarmfulUnfollow(c: Call, s: State, u: UserId, gs: seq<GroupId>) {
    && Has(c, s, u)
    && !FollowsAny(s.db.follows, u, c.new_)
    && Elems(gs) * c.new_ == {}
    && forall r :: r in s.db.follows && r.user == u && AheadOfDetach(c, s.phase, r) ==> r.group in gs
  }

  lemma FollowsAfter(c: Call, s: State, u: UserId, gs: seq<GroupId>, groups: set<GroupId>)
    requires ValidState(c, s)
    ensures var s' := Next(c, s, FollowCall(u, gs));
            forall v :: FollowsAny(s'.db.follows, v, groups) <==>
                          FollowsAny(s.db.follows, v, groups) || (v == u && Elems(gs) * groups != {})
  {
    var s' := Next(c, s, FollowCall(u, gs));
    AfterFollow(s.db, u, gs, c.maxPosts);
    forall v ensures FollowsAny(s'.db.follows, v, groups) <==>
                       FollowsAny(s.db.follows, v, groups) || (v == u && Elems(gs) * groups != {}) {
      if FollowsAny(s'.db.follows, v, groups) {
        var g :| g in groups && Follows(s'.db.follows, v, g);
        assert !Follows(s.db.follows, v, g) ==> g in Elems(gs) * groups;
      }
      if FollowsAny(s.db.follows, v, groups) {
        var g :| g in groups && Follows(s.db.follows, v, g);
        assert Follows(s'.db.follows, v, g);
      }
      if v == u && Elems(gs) * groups != {} {
        var g :| g in Elems(gs) * groups;
        assert Follows(s'.db.follows, v, g);
      }
    }
  }

  /** A follow call keeps completeness if and only if it is not the harmful one, and never leaves a stale row. */
  lemma FollowCallKeepsIff(c: Call, s: State, u: UserId, gs: seq<GroupId>)
    requires ValidState(c, s)
    ensures var s' := Next(c, s, FollowCall(u, gs));
            && ValidState(c, s')
            && (Complete(c, s) ==> (Complete(c, s') <==> !HarmfulFollow(c, s, u, gs)))
            && (NoStaleRow(c, s) ==> NoStaleRow(c, s'))
  {
    var s' := Next(c, s, FollowCall(u, gs));
    AfterFollow(s.db, u, gs, c.maxPosts);
    PassedOverIff(s.db, u, gs, c.maxPosts, c.post);
    FollowsAfter(c, s, u, gs, c.new_);
    FollowsAfter(c, s, u, gs, c.old_);
    forall v | v != u ensures StillToAttach(c, s, v) ==> StillToAttach(c, s', v) {}
    if Complete(c, s) {
      if !Has(c, s, u) && s.phase.Attaching? && !FollowsAny(s'.db.follows, u, c.old_) {
        FollowCallAttach(c, s, u, gs);
      }
      if !HarmfulFollow(c, s, u, gs) {
        forall v | FollowsAny(s'.db.follows, v, c.new_) ensures Has(c, s', v) || StillToAttach(c, s', v) {
        }
      } else {
        assert FollowsAny(s'.db.follows, u, c.new_) && !Has(c, s', u) && !StillToAttach(c, s', u);
      }
    }
    if NoStaleRow(c, s) {
      forall v | Has(c, s', v) ensures FollowsAny(s'.db.follows, v, c.new_) || StillToDetach(c, s', v) {
        if Has(c, s, v) {
          if StillToDetach(c, s, v) {
            var r :| r in s.db.follows && r.user == v && AheadOfDetach(c, s.phase, r);
            assert r in s'.db.follows;
          }
        } else {
          InsertedIsVisible(s.db, u, gs, c.maxPosts);
          var g :| g in NewlyFollowed(s.db, u, gs) && g in c.new_;
          assert g in Elems(gs) * c.new_;
        }
      }
    }
  }

  /** The following user, when the call does not insert the post. */
  lemma FollowCallAttach(c: Call, s: State, u: UserId, gs: seq<GroupId>)
    requires ValidState(c, s) && Complete(c, s)
    requires !Has(c, s, u)
    requires s.phase.Attaching?
    requires !FollowsAny(Next(c, s, FollowCall(u, gs)).db.follows, u, c.old_)
    ensures StillToAttach(c, Next(c, s, FollowCall(u, gs)), u)
  {
    var s' := Next(c, s, FollowCall(u, gs));
    AfterFollow(s.db, u, gs, c.maxPosts);
    forall r | r in s'.db.follows && r.user == u && r.group in c.new_ - c.old_ ensures s.phase.cursor < r.zindex {
      if r in s.db.follows {
        assert Follows(s.db.follows, u, r.group);
        assert FollowsAny(s.db.follows, u, c.new_);
      }
    }
  }

  lemma UnfollowKeepsOthers(db: Db, u: UserId, gs: seq<GroupId>, groups: set<GroupId>)
    requires ValidDb(db)
    ensures var rows := UnfollowStep(db, u, gs).follows;
            && (forall v :: FollowsAny(rows, v, groups) ==> FollowsAny(db.follows, v, groups))
            && (forall v :: v != u && FollowsAny(db.follows, v, groups) ==> FollowsAny(rows, v, groups))
  {
    var rows := UnfollowStep(db, u, gs).follows;
    AfterUnfollow(db, u, gs);
    forall v
      ensures FollowsAny(rows, v, groups) ==> FollowsAny(db.follows, v, groups)
      ensures v != u && FollowsAny(db.follows, v, groups) ==> FollowsAny(rows, v, groups)
    {
      if FollowsAny(rows, v, groups) {
        var g :| g in groups && Follows(rows, v, g);
        assert Follows(db.follows, v, g);
      }
      if v != u && FollowsAny(db.follows, v, groups) {
        var g :| g in groups && Follows(db.follows, v, g);
        assert Follows(rows, v, g);
      }
    }
  }

  /** An unfollow call leaves no stale row if and only if it is not the harmful one, and never loses a user. */
  lemma UnfollowCallKeepsIff(c: Call, s: State, u: UserId, gs: seq<GroupId>)
    requires ValidState(c, s)
    ensures var s' := Next(c, s, UnfollowCall(u, gs));
            && ValidState(c, s')
            && (Complete(c, s) ==> Complete(c, s'))
            && (NoStaleRow(c, s) ==> (NoStaleRow(c, s') <==> !HarmfulUnfollow(c, s, u, gs)))
  {
    var s' := Next(c, s, UnfollowCall(u, gs));
    AfterUnfollow(s.db, u, gs);
    assert GroupsOf(s.db.posts, c.post) == c.new_;
    UnfollowKeepsOthers(s.db, u, gs, c.new_);
    if NoStaleRow(c, s) {
      UnfollowerIff(c, s, u, gs);
      forall v | v != u && StillToDetach(c, s, v) ensures StillToDetach(c, s', v) {
        var r :| r in s.db.follows && r.user == v && AheadOfDetach(c, s.phase, r);
        assert r in s'.db.follows;
      }
    }
  }

  lemma UnfollowerIff(c: Call, s: State, u: UserId, gs: seq<GroupId>)
    requires ValidState(c, s) && NoStaleRow(c, s)
    ensures var s' := Next(c, s, UnfollowCall(u, gs));
            HarmfulUnfollow(c, s, u, gs) <==>
            Has(c, s', u) && !FollowsAny(s'.db.follows, u, c.new_) && !StillToDetach(c, s', u)
  {
    var s' := Next(c, s, UnfollowCall(u, gs));
    AfterUnfollow(s.db, u, gs);
    assert GroupsOf(s.db.posts, c.post) == c.new_;
    assert InAnyOf(s.db.posts, c.post, gs) <==> Elems(gs) * c.new_ != {} by {
      if InAnyOf(s.db.posts, c.post, gs) {
        var g :| g in gs && g in GroupsOf(s.db.posts, c.post);
        assert g in Elems(gs) * c.new_;
      }
      if Elems(gs) * c.new_ != {} {
        var g :| g in Elems(gs) * c.new_;
        assert g in gs && g in GroupsOf(s.db.posts, c.post);
      }
    }
    if FollowsAny(s'.db.follows, u, c.new_) {
      var g :| g in c.new_ && Follows(s'.db.follows, u, g);
      assert Follows(s.db.follows, u, g);
    }
    if FollowsAny(s.db.follows, u, c.new_) && !FollowsAny(s'.db.follows, u, c.new_) {
      var g :| g in c.new_ && Follows(s.db.follows, u, g);
      assert !Follows(s'.db.follows, u, g);
      assert g in Elems(gs) * c.new_;
    }
    if !HarmfulUnfollow(c, s, u, gs) && Has(c, s', u) && !FollowsAny(s.db.follows, u, c.new_) {
      var r :| r in s.db.follows && r.user == u && AheadOfDetach(c, s.phase, r) && r.group !in gs;
      assert r in s'.db.follows;
    }
  }

  // ---------- whole runs ----------

  predicate Harmless(c: Call, s: State, step: Step)
    requires c.post in s.db.posts
  {
    match step
    case NextPage => true
    case FollowCall(u, gs) => !HarmfulFollow(c, s, u, gs)
    case UnfollowCall(u, gs) => !HarmfulUnfollow(c, s, u, gs)
  }

  ghost predicate AllHarmless(c: Call, s: State, steps: seq<Step>)
    requires c.post in s.db.posts
    decreases |steps|
  {
    steps == [] || (Harmless(c, s, steps[0]) && AllHarmless(c, Next(c, s, steps[0]), steps[1..]))
  }

  lemma StepKeepsBoth(c: Call, s: State, step: Step)
    requires ValidState(c, s) && Harmless(c, s, step)
    ensures ValidState(c, Next(c, s, step))
    ensures Complete(c, s) ==> Complete(c, Next(c, s, step))
    ensures NoStaleRow(c, s) ==> NoStaleRow(c, Next(c, s, step))
  {
    match step
    case FollowCall(u, gs) => FollowCallKeepsIff(c, s, u, gs);
    case UnfollowCall(u, gs) => UnfollowCallKeepsIff(c, s, u, gs);
    case NextPage =>
      if s.phase.Attaching? { AttachPageKeeps(c, s); }
      if s.phase.Detaching? { DetachPageKeeps(c, s); }
  }

  lemma {:induction false} RunKeepsBoth(c: Call, s: State, steps: seq<Step>)
    requires ValidState(c, s) && AllHarmless(c, s, steps)
    requires Complete(c, s) && NoStaleRow(c, s)
    ensures Complete(c, RunSteps(c, s, steps)) && NoStaleRow(c, RunSteps(c, s, steps))
    decreases |steps|
  {
    if steps != [] {
      StepKeepsBoth(c, s, steps[0]);
      RunKeepsBoth(c, Next(c, s, steps[0]), steps[1..]);
    }
  }

  /** The interleaved fan-out: from rows that are exactly the old followers, any run of pages, harmless follows
      and harmless unfollows that reaches the end leaves exactly the followers of the new groups. */
  lemma InterleavedFanoutIsExact(c: Call, db: Db, steps: seq<Step>)
    requires ValidState(c, State(db, Start(c))) && AllHarmless(c, State(db, Start(c)), steps)
    requires forall u :: HasRow(db.feed, u, c.post) <==> FollowsAny(db.follows, u, c.old_)
    requires RunSteps(c, State(db, Start(c)), steps).phase.Done?
    ensures var end := RunSteps(c, State(db, Start(c)), steps);
            forall u :: Has(c, end, u) <==> FollowsAny(end.db.follows, u, c.new_)
  {
    StartKeepsBoth(c, db);
    RunKeepsBoth(c, State(db, Start(c)), steps);
  }

  // ---------- the call ends ----------

  /** A bound on the pages the call still fetches while nobody follows anything new. */
  function PagesLeft(s: State): nat {
    match s.phase
    case Attaching(k) => (if k < s.db.nextZindex then s.db.nextZindex - k else 1) + s.db.nextZindex
    case Detaching(k) => if k < s.db.nextZindex then s.db.nextZindex - k else 1
    case Done => 0
  }

  function Pages(steps: seq<Step>): nat {
    if steps == [] then 0 else (if steps[0].NextPage? then 1 else 0) + Pages(steps[1..])
  }

  lemma PageMakesProgress(c: Call, s: State)
    requires ValidState(c, s) && !s.phase.Done?
    ensures PagesLeft(PageStep(c, s)) < PagesLeft(s)
  {
    match s.phase
    case Attaching(k) => PageCovers(s.db.follows, s.db.nextZindex, c.new_ - c.old_, c.old_, k, c.pageSize);
    case Detaching(k) => PageCovers(s.db.follows, s.db.nextZindex, c.old_ - c.new_, c.new_, k, c.pageSize);
  }

  /** From any point on, once no more follows come, `PagesLeft` pages finish the call however many unfollows are in
      between; that is at most twice the next `zindex`. */
  lemma {:induction false} EnoughPagesFinish(c: Call, s: State, steps: seq<Step>)
    requires ValidState(c, s) && (forall step :: step in steps ==> !step.FollowCall?)
    requires PagesLeft(s) <= Pages(steps)
    ensures RunSteps(c, s, steps).phase.Done?
    ensures PagesLeft(s) <= 2 * s.db.nextZindex
    decreases |steps|
  {
    if steps != [] {
      var step := steps[0];
      assert !step.FollowCall?;
      match step {
        case UnfollowCall(u, gs) => UnfollowCallKeepsIff(c, s, u, gs);
        case NextPage =>
          if s.phase.Attaching? { AttachPageKeeps(c, s); }
          if s.phase.Detaching? { DetachPageKeeps(c, s); }
          if !s.phase.Done? { PageMakesProgress(c, s); }
      }
      EnoughPagesFinish(c, Next(c, s, step), steps[1..]);
    }
  }

  // ---------- completeness alone, under conditions on the calls ----------

  /** What a deployment can promise about a follow during the call: it is not truncated, and it does not
      newly follow a group the post is leaving. */
  predicate CleanFollow(c: Call, s: State, step: Step) {
    step.FollowCall? ==>
      var newly := NewlyFollowed(s.db, step.user, step.groups);
      && |VisiblePosts(s.db.posts, s.db.newestFirst, newly)| <= c.maxPosts
      && Elems(newly) * (c.old_ - c.new_) == {}
  }

  ghost predicate AllClean(c: Call, s: State, steps: seq<Step>)
    decreases |steps|
  {
    steps == [] || (CleanFollow(c, s, steps[0]) && AllClean(c, Next(c, s, steps[0]), steps[1..]))
  }

  /** The post is published, visible and archived nowhere. */
  predicate Open(c: Call, s: State) {
    && c.post in s.db.posts
    && s.db.posts[c.post].published && !s.db.posts[c.post].hidden
    && forall g :: g in s.db.posts[c.post].groups ==> !s.db.posts[c.post].groups[g]
  }

  lemma CleanIsNotHarmful(c: Call, s: State, u: UserId, gs: seq<GroupId>)
    requires ValidState(c, s) && Complete(c, s) && Open(c, s) && CleanFollow(c, s, FollowCall(u, gs))
    ensures !HarmfulFollow(c, s, u, gs)
  {
    var newly := NewlyFollowed(s.db, u, gs);
    NewlyMeets(s.db, u, gs, c.new_);
    NewlyMeets(s.db, u, gs, c.old_);
    PassedOverIff(s.db, u, gs, c.maxPosts, c.post);
    if Elems(newly) * c.new_ != {} {
      var g :| g in Elems(newly) * c.new_;
      assert g in newly && c.post in Elems(s.db.newestFirst);
      assert Visible(s.db.posts, c.post, newly);
    }
    assert Elems(newly) * c.old_ <= Elems(newly) * (c.old_ - c.new_) + Elems(newly) * c.new_;
  }

  lemma NewlyMeets(db: Db, u: UserId, gs: seq<GroupId>, groups: set<GroupId>)
    ensures Elems(gs) * groups != {} && !FollowsAny(db.follows, u, groups) ==>
              Elems(NewlyFollowed(db, u, gs)) * groups != {}
  {
    if Elems(gs) * groups != {} && !FollowsAny(db.follows, u, groups) {
      var g :| g in Elems(gs) * groups;
      assert g in Elems(NewlyFollowed(db, u, gs)) * groups;
    }
  }

  /** Completeness for any interleaving of clean follows with any unfollows whatsoever. */
  lemma {:induction false} CleanRunKeepsComplete(c: Call, s: State, steps: seq<Step>)
    requires ValidState(c, s) && Complete(c, s) && Open(c, s) && AllClean(c, s, steps)
    ensures Complete(c, RunSteps(c, s, steps))
    decreases |steps|
  {
    if steps != [] {
      var step := steps[0];
      match step {
        case FollowCall(u, gs) =>
          CleanIsNotHarmful(c, s, u, gs);
          FollowCallKeepsIff(c, s, u, gs);
          AfterFollow(s.db, u, gs, c.maxPosts);
        case UnfollowCall(u, gs) =>
          UnfollowCallKeepsIff(c, s, u, gs);
          AfterUnfollow(s.db, u, gs);
        case NextPage =>
          if s.phase.Attaching? { AttachPageKeeps(c, s); }
          if s.phase.Detaching? { DetachPageKeeps(c, s); }
      }
      CleanRunKeepsComplete(c, Next(c, s, step), steps[1..]);
    }
  }

  lemma InterleavedFanoutIsComplete(c: Call, db: Db, steps: seq<Step>)
    requires var s := State(db, Start(c)); ValidState(c, s) && Open(c, s) && AllClean(c, s, steps)
    requires forall u :: FollowsAny(db.follows, u, c.old_) ==> HasRow(db.feed, u, c.post)
    requires RunSteps(c, State(db, Start(c)), steps).phase.Done?
    ensures var end := RunSteps(c, State(db, Start(c)), steps);
            forall u :: FollowsAny(end.db.follows, u, c.new_) ==> Has(c, end, u)
  {
    StartKeepsBoth(c, db);
    CleanRunKeepsComplete(c, State(db, Start(c)), steps);
  }

  // ---------- the harm is permanent ----------

  predicate By(step: Step, u: UserId) {
    !step.NextPage? && step.user == u
  }

  lemma HarmfulFollowLoses(c: Call, s: State, u: UserId, gs: seq<GroupId>)
    requires ValidState(c, s) && HarmfulFollow(c, s, u, gs)
    ensures var s' := Next(c, s, FollowCall(u, gs));
            && ValidState(c, s') && FollowsAny(s'.db.follows, u, c.new_) && !Has(c, s', u)
            && (s'.phase.Attaching? ==> FollowsAny(s'.db.follows, u, c.old_))
  {
    AfterFollow(s.db, u, gs, c.maxPosts);
    PassedOverIff(s.db, u, gs, c.maxPosts, c.post);
    FollowsAfter(c, s, u, gs, c.new_);
    FollowsAfter(c, s, u, gs, c.old_);
  }

  /** A harmful follow cannot be repaired by the pages or by anybody else: the user ends without the post. */
  lemma HarmfulFollowLosesForGood(c: Call, s: State, u: UserId, gs: seq<GroupId>, rest: seq<Step>)
    requires ValidState(c, s) && HarmfulFollow(c, s, u, gs)
    requires forall step :: step in rest ==> !By(step, u)
    ensures var end := RunSteps(c, s, [FollowCall(u, gs)] + rest);
            FollowsAny(end.db.follows, u, c.new_) && !Has(c, end, u)
  {
    HarmfulFollowLoses(c, s, u, gs);
    LostForGood(c, Next(c, s, FollowCall(u, gs)), rest, u);
    RunCons(c, s, FollowCall(u, gs), rest);
  }

  /** A harmful unfollow cannot be repaired either: the stale row survives the whole fan-out. */
  lemma HarmfulUnfollowStaysStale(c: Call, s: State, u: UserId, gs: seq<GroupId>, rest: seq<Step>)
    requires ValidState(c, s) && NoStaleRow(c, s) && HarmfulUnfollow(c, s, u, gs)
    requires forall step :: step in rest ==> !By(step, u)
    ensures var end := RunSteps(c, s, [UnfollowCall(u, gs)] + rest);
            !FollowsAny(end.db.follows, u, c.new_) && Has(c, end, u)
  {
    UnfollowCallKeepsIff(c, s, u, gs);
    UnfollowerIff(c, s, u, gs);
    StaleForGood(c, Next(c, s, UnfollowCall(u, gs)), rest, u);
    RunCons(c, s, UnfollowCall(u, gs), rest);
  }

  lemma {:induction false} LostForGood(c: Call, s: State, steps: seq<Step>, u: UserId)
    requires ValidState(c, s)
    requires FollowsAny(s.db.follows, u, c.new_) && !Has(c, s, u)
    requires s.phase.Attaching? ==> FollowsAny(s.db.follows, u, c.old_)
    requires forall step :: step in steps ==> !By(step, u)
    ensures var end := RunSteps(c, s, steps); FollowsAny(end.db.follows, u, c.new_) && !Has(c, end, u)
    decreases |steps|
  {
    if steps != [] {
      var step := steps[0];
      var s' := Next(c, s, step);
      assert !By(step, u);
      OthersLeaveAlone(c, s, step, u, c.new_);
      OthersLeaveAlone(c, s, step, u, c.old_);
      LostForGood(c, s', steps[1..], u);
    }
  }

  /** A step of somebody else changes neither the user's follows nor, unless a page selects them, their row. */
  lemma OthersLeaveAlone(c: Call, s: State, step: Step, u: UserId, groups: set<GroupId>)
    requires ValidState(c, s) && !By(step, u)
    ensures var s' := Next(c, s, step);
            && ValidState(c, s')
            && (FollowsAny(s'.db.follows, u, groups) <==> FollowsAny(s.db.follows, u, groups))
            && (forall r: FollowRow :: r.user == u ==> (r in s'.db.follows <==> r in s.db.follows))
            && (!s.phase.Attaching? ==> !s'.phase.Attaching? && (Has(c, s', u) ==> Has(c, s, u)))
            && (FollowsAny(s.db.follows, u, c.old_) ==> (Has(c, s', u) ==> Has(c, s, u)))
            && (Has(c, s, u) && !StillToDetach(c, s, u) ==> Has(c, s', u) && !StillToDetach(c, s', u))
  {
    var s' := Next(c, s, step);
    match step
    case FollowCall(v, gs) =>
      FollowCallKeepsIff(c, s, v, gs);
      AfterFollow(s.db, v, gs, c.maxPosts);
      FollowsAfter(c, s, v, gs, groups);
    case UnfollowCall(v, gs) =>
      UnfollowCallKeepsIff(c, s, v, gs);
      AfterUnfollow(s.db, v, gs);
      if FollowsAny(s'.db.follows, u, groups) {
        var g :| g in groups && Follows(s'.db.follows, u, g);
        assert Follows(s.db.follows, u, g);
      }
      if FollowsAny(s.db.follows, u, groups) {
        var g :| g in groups && Follows(s.db.follows, u, g);
        assert Follows(s'.db.follows, u, g);
      }
    case NextPage =>
      if s.phase.Attaching? {
        AttachPageKeeps(c, s);
        PageCovers(s.db.follows, s.db.nextZindex, c.new_ - c.old_, c.old_, s.phase.cursor, c.pageSize);
      }
      if s.phase.Detaching? {
        DetachPageKeeps(c, s);
        PageCovers(s.db.follows, s.db.nextZindex, c.old_ - c.new_, c.new_, s.phase.cursor, c.pageSize);
      }
  }

  lemma {:induction false} StaleForGood(c: Call, s: State, steps: seq<Step>, u: UserId)
    requires ValidState(c, s)
    requires Has(c, s, u) && !FollowsAny(s.db.follows, u, c.new_) && !StillToDetach(c, s, u)
    requires forall step :: step in steps ==> !By(step, u)
    ensures var end := RunSteps(c, s, steps); !FollowsAny(end.db.follows, u, c.new_) && Has(c, end, u)
    decreases |steps|
  {
    if steps != [] {
      var step := steps[0];
      var s' := Next(c, s, step);
      assert !By(step, u);
      OthersLeaveAlone(c, s, step, u, c.new_);
      StaleForGood(c, s', steps[1..], u);
    }
  }

  // ---------- witnesses: both harms occur from an exact start ----------

  /** Post 1 moves from group 20 to group 10. */
  const MOVE := Call(1, {10}, {20}, 1000, MAX_POSTS_IN_NEWSFEED)

  function MoveDb(row: FollowRow, feed: Feed): Db {
    Db([row], 2, map[1 := Post(true, false, map[10 := false])], [1], feed)
  }

  lemma RunCons(c: Call, s: State, step: Step, rest: seq<Step>)
    ensures RunSteps(c, s, [step] + rest) == RunSteps(c, Next(c, s, step), rest)
  {
    assert ([step] + rest)[1..] == rest;
  }

  lemma RunThree(c: Call, s: State, a: Step, b: Step, d: Step)
    ensures RunSteps(c, s, [a, b, d]) == Next(c, Next(c, Next(c, s, a), b), d)
  {
    assert [a, b, d] == [a] + [b, d] && [b, d] == [b] + [d] && [d] == [d] + [];
    RunCons(c, s, a, [b, d]);
    RunCons(c, Next(c, s, a), b, [d]);
    RunCons(c, Next(c, Next(c, s, a), b), d, []);
  }

  /** User 5 leaves group 20 before the detach loop reaches them: the call ends and the row is still there. */
  lemma UnfollowDuringFanoutLeavesStaleRow()
    ensures var db := MoveDb(FollowRow(1, 5, 20), map[FeedKey(5, 1) := false]);
            var end := RunSteps(MOVE, State(db, Start(MOVE)), [UnfollowCall(5, [20]), NextPage, NextPage]);
            && (forall u :: HasRow(db.feed, u, 1) <==> FollowsAny(db.follows, u, MOVE.old_))
            && end.phase.Done? && Has(MOVE, end, 5) && end.db.follows == []
  {
    var row := FollowRow(1, 5, 20);
    var db := MoveDb(row, map[FeedKey(5, 1) := false]);
    var s0 := State(db, Start(MOVE));
    assert row in db.follows && Follows(db.follows, 5, 20);
    assert MOVE.new_ - MOVE.old_ == {10} && 20 in MOVE.old_ - MOVE.new_;
    RunThree(MOVE, s0, UnfollowCall(5, [20]), NextPage, NextPage);
    var s1 := Next(MOVE, s0, UnfollowCall(5, [20]));
    assert s1.db.follows == [] && !InAnyOf(db.posts, 1, [20]) && Has(MOVE, s1, 5);
    var s2 := Next(MOVE, s1, NextPage);
    assert s2.phase == Detaching(0) && Has(MOVE, s2, 5);
  }

  const BOTH := [FollowRow(1, 5, 10), FollowRow(2, 5, 20)]

  /** The follow of group 20 inserts no row: the post is no longer in it. */
  lemma JoinInsertsNothing()
    ensures var db := MoveDb(FollowRow(1, 5, 10), map[]);
            FollowStep(db, 5, [20], MOVE.maxPosts) == db.(follows := BOTH, nextZindex := 3)
  {
    var row, added := FollowRow(1, 5, 10), FollowRow(2, 5, 20);
    var db := MoveDb(row, map[]);
    assert JoinedGroupIds(db.follows, 5) == [10];
    assert NewlyFollowed(db, 5, [20]) == [20];
    assert !Visible(db.posts, 1, [20]);
    assert !Follows(db.follows, 5, 20);
    assert AddFollows([row, added], 3, 5, []) == ([row, added], 3);
  }

  /** With user 5 in both groups neither loop selects anything. */
  lemma NobodySelected()
    ensures Page(BOTH, {10}, {20}, 0, 1000) == [] && Page(BOTH, {20}, {10}, 0, 1000) == []
  {
    assert BOTH[0] in BOTH && BOTH[1] in BOTH;
    assert Follows(BOTH, 5, 10) && Follows(BOTH, 5, 20);
    var attach, detach := Selected(BOTH, BOTH, {10}, {20}, 0), Selected(BOTH, BOTH, {20}, {10}, 0);
    assert forall r :: r !in attach && r !in detach;
    assert attach == [] && detach == [];
  }

  const JOINED := MoveDb(FollowRow(1, 5, 10), map[]).(follows := BOTH, nextZindex := 3)

  lemma AttachNobody()
    ensures PageStep(MOVE, State(JOINED, Attaching(0))) == State(JOINED, Detaching(0))
  {
    NobodySelected();
    assert MOVE.new_ - MOVE.old_ == {10} && MOVE.old_ - MOVE.new_ == {20};
    assert Attach(JOINED.feed, Users([]), 1) == JOINED.feed;
  }

  lemma DetachNobody()
    ensures PageStep(MOVE, State(JOINED, Detaching(0))) == State(JOINED, Done)
  {
    NobodySelected();
    assert MOVE.old_ - MOVE.new_ == {20};
    assert Detach(JOINED.feed, Users([]), 1) == JOINED.feed;
  }

  /** User 5 follows group 10 and joins group 20 before the attach loop reaches them: the call ends without the row. */
  lemma FollowDuringFanoutLosesPost()
    ensures var db := MoveDb(FollowRow(1, 5, 10), map[]);
            var end := RunSteps(MOVE, State(db, Start(MOVE)), [FollowCall(5, [20]), NextPage, NextPage]);
            && (forall u :: HasRow(db.feed, u, 1) <==> FollowsAny(db.follows, u, MOVE.old_))
            && end.phase.Done? && !Has(MOVE, end, 5) && FollowsAny(end.db.follows, 5, MOVE.new_)
  {
    var db := MoveDb(FollowRow(1, 5, 10), map[]);
    assert MOVE.new_ - MOVE.old_ == {10} && Start(MOVE) == Attaching(0);
    RunThree(MOVE, State(db, Start(MOVE)), FollowCall(5, [20]), NextPage, NextPage);
    JoinInsertsNothing();
    AttachNobody();
    DetachNobody();
    assert BOTH[0] in BOTH && Follows(BOTH, 5, 10);
  }
}

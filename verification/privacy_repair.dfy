/** `fix:content-privacy`: pages through the published posts and rewrites each post's privacy, asking the group
    service in chunks and memoising its answers. */
module PrivacyRepair {
  import opened Ids
  import opened Lists
  import opened Privacy
  import opened Wrappers

  const LIMIT_EACH: nat := 300
  const CHUNK_SIZE: nat := 30

  /** The most open privacy as a function: SECRET for no known group. */
  function MostOpen(groups: seq<GroupId>, service: GroupService): (m: Privacy)
    ensures IsMostOpen(m, Elems(groups), service)
  {
    if groups == [] then SECRET
    else
      var rest := MostOpen(groups[1..], service);
      var m := Compare(Lookup(service, groups[0]), rest);
      assert forall g :: g in groups <==> g == groups[0] || g in groups[1..];
      assert m != SECRET ==> exists g :: g in groups && g in service && service[g] == m by {
        if m == rest && m != SECRET {
          var g :| g in groups[1..] && g in service && service[g] == m;
          assert g in groups;
        }
      }
      m
  }

  lemma {:induction false} MostOpenByLookup(groups: seq<GroupId>, a: GroupService, b: GroupService)
    requires forall g :: g in groups ==> Lookup(a, g) == Lookup(b, g)
    ensures MostOpen(groups, a) == MostOpen(groups, b)
  {
    if groups != [] {
      assert groups[0] in groups && forall g :: g in groups[1..] ==> g in groups;
      MostOpenByLookup(groups[1..], a, b);
    }
  }

  /** A row of `posts` that is not soft-deleted, with its groups as the query joins them: the unarchived ones and the
      archived ones. */
  datatype PostRow = PostRow(id: PostId, published: bool, hidden: bool,
                             groups: seq<GroupId>, archived: seq<GroupId>, privacy: Privacy)

  predicate Live(post: PostRow) {
    post.published && !post.hidden
  }

  /**
    * The posts the `WHERE` clause selects among the first `n`, in `created_at DESC` order, the order of the
    * table here.
    */
  function LiveAmong(posts: seq<PostRow>, n: nat): (live: seq<PostRow>)
    requires n <= |posts|
    ensures forall post :: post in live <==> Live(post) && exists k :: 0 <= k < n && posts[k] == post
  {
    if n == 0 then []
    else
      var live := LiveAmong(posts, n - 1);
      if Live(posts[n - 1]) then live + [posts[n - 1]] else live
  }

  function LivePosts(posts: seq<PostRow>): seq<PostRow> {
    LiveAmong(posts, |posts|)
  }

  function Slice(s: seq<PostRow>, offset: nat, limit: nat): (r: seq<PostRow>)
    ensures |r| <= limit && (r == [] && 0 < limit ==> |s| <= offset)
  {
    if |s| <= offset then [] else Take(s[offset..], limit)
  }

  function SetPrivacy(posts: seq<PostRow>, id: PostId, privacy: Privacy): seq<PostRow> {
    seq(|posts|, i requires 0 <= i < |posts| => if posts[i].id == id then posts[i].(privacy := privacy) else posts[i])
  }

  ghost predicate UniqueIds(posts: seq<PostRow>) {
    forall i, j :: 0 <= i < j < |posts| ==> posts[i].id != posts[j].id
  }

  datatype Outcome = Updated | Kept | Failed

  /** `failing` are the posts whose UPDATE throws. */
  function OutcomeOf(post: PostRow, failing: set<PostId>): Outcome {
    if post.groups == [] then Kept else if post.id in failing then Failed else Updated
  }

  datatype Totals = Totals(updated: nat, kept: nat, failed: nat) {
    function Add(t: Totals): Totals {
      Totals(updated + t.updated, kept + t.kept, failed + t.failed)
    }
    function Sum(): nat { updated + kept + failed }
  }

  lemma AddAssociates(a: Totals, b: Totals, c: Totals)
    ensures a.Add(b).Add(c) == a.Add(b.Add(c))
  {
  }

  function One(outcome: Outcome): Totals {
    match outcome case Updated => Totals(1, 0, 0) case Kept => Totals(0, 1, 0) case Failed => Totals(0, 0, 1)
  }

  /** How many of the first `n` posts end this way. */
  function Count(live: seq<PostRow>, n: nat, failing: set<PostId>, outcome: Outcome): nat
    requires n <= |live|
  {
    if n == 0 then 0
    else Count(live, n - 1, failing, outcome) + if OutcomeOf(live[n - 1], failing) == outcome then 1 else 0
  }

  function Tally(live: seq<PostRow>, n: nat, failing: set<PostId>): Totals
    requires n <= |live|
  {
    Totals(Count(live, n, failing, Updated), Count(live, n, failing, Kept), Count(live, n, failing, Failed))
  }

  lemma TallyNext(live: seq<PostRow>, n: nat, failing: set<PostId>)
    requires n < |live|
    ensures Tally(live, n + 1, failing) == Tally(live, n, failing).Add(One(OutcomeOf(live[n], failing)))
  {
  }

  lemma {:induction false} CountsAddUp(live: seq<PostRow>, n: nat, failing: set<PostId>)
    requires n <= |live|
    ensures Count(live, n, failing, Updated) + Count(live, n, failing, Kept) + Count(live, n, failing, Failed) == n
  {
    if n > 0 {
      CountsAddUp(live, n - 1, failing);
    }
  }

  /** Nothing is counted twice or not at all. */
  lemma TallyIsTotal(live: seq<PostRow>, n: nat, failing: set<PostId>)
    requires n <= |live|
    ensures Tally(live, n, failing).Sum() == n
  {
    CountsAddUp(live, n, failing);
  }

  /** The row after the repair. */
  function Repaired(post: PostRow, service: GroupService, failing: set<PostId>): PostRow {
    if Live(post) && OutcomeOf(post, failing).Updated? then post.(privacy := MostOpen(post.groups, service)) else post
  }

  /** Every row that is done is repaired, every other row is as it was. */
  ghost predicate Progress(now: seq<PostRow>, was: seq<PostRow>, done: set<PostId>,
                           service: GroupService, failing: set<PostId>) {
    && |now| == |was|
    && forall i :: 0 <= i < |was| ==>
         now[i] == if was[i].id in done then Repaired(was[i], service, failing) else was[i]
  }

  ghost predicate SameQuery(a: seq<PostRow>, b: seq<PostRow>) {
    |a| == |b| && forall k :: 0 <= k < |b| ==> a[k].id == b[k].id && a[k].groups == b[k].groups
  }

  /** Where a row stands: hidden and unpublished rows are left alone and not counted, rows without an unarchived group
      are kept, rows whose UPDATE throws fail, and the rest are updated. */
  predicate EndsAs(post: PostRow, failing: set<PostId>, outcome: Outcome) {
    && post.published && !post.hidden
    && match outcome
       case Updated => post.groups != [] && post.id !in failing
       case Kept => post.groups == []
       case Failed => post.groups != [] && post.id in failing
  }

  /** Only the privacy of an updated row is written: the most open one of its unarchived groups. */
  lemma RepairWrites(post: PostRow, service: GroupService, failing: set<PostId>)
    ensures var after := Repaired(post, service, failing);
            && after == post.(privacy := after.privacy)
            && if EndsAs(post, failing, Updated) then IsMostOpen(after.privacy, Elems(post.groups), service)
               else after == post
  {
  }

  /** How many of the first `n` rows of the table end as `outcome`. */
  function CountRows(posts: seq<PostRow>, n: nat, failing: set<PostId>, outcome: Outcome): nat
    requires n <= |posts|
  {
    if n == 0 then 0
    else CountRows(posts, n - 1, failing, outcome) + if EndsAs(posts[n - 1], failing, outcome) then 1 else 0
  }

  /** The totals of the live posts are counts over the whole table. */
  lemma {:induction false} TallyCountsRows(posts: seq<PostRow>, n: nat, failing: set<PostId>, outcome: Outcome)
    requires n <= |posts|
    ensures var live := LiveAmong(posts, n);
            Count(live, |live|, failing, outcome) == CountRows(posts, n, failing, outcome)
  {
    if n > 0 {
      TallyCountsRows(posts, n - 1, failing, outcome);
      if Live(posts[n - 1]) {
        CountPrefix(LiveAmong(posts, n - 1), posts[n - 1], |LiveAmong(posts, n - 1)|, failing, outcome);
      }
    }
  }

  lemma {:induction false} CountPrefix(live: seq<PostRow>, last: PostRow, n: nat, failing: set<PostId>,
                                       outcome: Outcome)
    requires n <= |live|
    ensures Count(live + [last], n, failing, outcome) == Count(live, n, failing, outcome)
  {
    if n > 0 {
      CountPrefix(live, last, n - 1, failing, outcome);
    }
  }

  /** The repair changes only privacies, so it changes neither the filter nor the order it pages through. */
  lemma {:induction false} FilterIsStable(now: seq<PostRow>, was: seq<PostRow>, n: nat, done: set<PostId>,
                                          service: GroupService, failing: set<PostId>)
    requires Progress(now, was, done, service, failing) && n <= |was|
    ensures SameQuery(LiveAmong(now, n), LiveAmong(was, n))
  {
    if n > 0 {
      FilterIsStable(now, was, n - 1, done, service, failing);
      assert now[n - 1] == if was[n - 1].id in done then Repaired(was[n - 1], service, failing) else was[n - 1];
    }
  }

  /** The ids of the first `n` live posts. */
  function IdsOf(live: seq<PostRow>, n: nat): (ids: set<PostId>)
    requires n <= |live|
    ensures forall id :: id in ids <==> exists k :: 0 <= k < n && live[k].id == id
  {
    if n == 0 then {} else IdsOf(live, n - 1) + {live[n - 1].id}
  }

  /** One post of the page: repaired, failed or kept. */
  lemma ProgressOne(now: seq<PostRow>, was: seq<PostRow>, live: seq<PostRow>, n: nat,
                    service: GroupService, failing: set<PostId>)
    requires UniqueIds(was) && live == LivePosts(was) && n < |live|
    requires Progress(now, was, IdsOf(live, n), service, failing)
    ensures var post := live[n];
            var next := if OutcomeOf(post, failing).Updated?
                        then SetPrivacy(now, post.id, MostOpen(post.groups, service)) else now;
            Progress(next, was, IdsOf(live, n + 1), service, failing)
  {
    var post := live[n];
    assert post in live;
    var k :| 0 <= k < |was| && was[k] == post;
    forall i | 0 <= i < |was|
      ensures was[i].id == post.id <==> i == k
      ensures now[i].id == was[i].id
    {}
  }

  /** The page is the run of live posts that starts at `from`. */
  ghost predicate IsPageAt(page: seq<PostRow>, live: seq<PostRow>, from: nat) {
    && from + |page| <= |live|
    && forall k :: 0 <= k < |page| ==> page[k].id == live[from + k].id && page[k].groups == live[from + k].groups
  }

  /** Where the run stands at an offset: the posts before it are repaired and counted. */
  ghost predicate Reached(posts: seq<PostRow>, was: seq<PostRow>, offset: nat, total: nat, totals: Totals,
                          service: GroupService, failing: set<PostId>)
  {
    var live := LivePosts(was);
    && total == (if offset <= |live| then offset else |live|)
    && Progress(posts, was, IdsOf(live, total), service, failing)
    && totals == Tally(live, total, failing)
  }

  predicate Agrees(groups: seq<GroupId>, mapper: GroupService, service: GroupService) {
    forall g :: g in groups ==> Lookup(mapper, g) == Lookup(service, g)
  }

  class FixContentPrivacy {
    const service: GroupService
    var posts: seq<PostRow>

    constructor (service: GroupService, posts: seq<PostRow>)
      ensures this.service == service && this.posts == posts
    {
      this.service, this.posts := service, posts;
    }

    /** `_buildGroupPrivacy`: the memo afterwards knows exactly what it knew plus what the service knows of the ids. */
    method BuildGroupPrivacy(groupIds: seq<GroupId>, mapper: GroupService) returns (mapper': GroupService)
      requires forall g :: g in mapper ==> g in service && mapper[g] == service[g]
      ensures forall g :: g in mapper' ==> g in service && mapper'[g] == service[g]
      ensures mapper'.Keys == mapper.Keys + Elems(groupIds) * service.Keys
    {
      var needed := Unknown(groupIds, mapper);
      mapper' := mapper;
      var i := 0;
      ghost var found := needed[..0];
      while i < |needed|
        invariant found == if i <= |needed| then needed[..i] else needed
        invariant forall g :: g in mapper' ==> g in service && mapper'[g] == service[g]
        invariant forall g :: g in mapper' <==> g in mapper || (g in found && g in service)
        decreases |needed| - i
      {
        var end := if i + CHUNK_SIZE <= |needed| then i + CHUNK_SIZE else |needed|;
        var chunk := needed[i..end];
        found := found + chunk;
        assert found == needed[..end];
        mapper' := mapper' + map g | g in chunk && g in service :: service[g];
        i := i + CHUNK_SIZE;
      }
      assert forall g :: g in groupIds ==> g in mapper || g in needed;
    }

    /** `_getPrivacy`: the early-exit scan over the memo. */
    method GetPrivacyFrom(groupIds: seq<GroupId>, mapper: GroupService) returns (privacy: Privacy)
      ensures privacy == MostOpen(groupIds, mapper)
    {
      ghost var m := MostOpen(groupIds, mapper);
      var totalPrivate, totalOpen := 0, 0;
      for i := 0 to |groupIds|
        invariant forall j :: 0 <= j < i ==> Lookup(mapper, groupIds[j]) != Some(OPEN)
        invariant totalOpen >= 0 && totalPrivate >= 0
        invariant totalOpen > 0 <==> exists j :: 0 <= j < i && Lookup(mapper, groupIds[j]) == Some(CLOSED)
        invariant totalPrivate > 0 <==> exists j :: 0 <= j < i && Lookup(mapper, groupIds[j]) == Some(PRIVATE)
      {
        var found := Lookup(mapper, groupIds[i]);
        if found == Some(OPEN) {
          assert groupIds[i] in groupIds;
          return OPEN;
        }
        if found == Some(CLOSED) {
          totalOpen := totalOpen + 1;
        }
        if found == Some(PRIVATE) {
          totalPrivate := totalPrivate + 1;
        }
      }
      privacy := if totalOpen > 0 then CLOSED else if totalPrivate > 0 then PRIVATE else SECRET;
      assert IsMostOpen(privacy, Elems(groupIds), mapper) by {
        forall g | g in groupIds && g in mapper ensures Openness(mapper[g]) <= Openness(privacy) {
          var j :| 0 <= j < |groupIds| && groupIds[j] == g;
          assert Lookup(mapper, groupIds[j]) == Some(mapper[g]);
        }
        if privacy != SECRET {
          var j :| 0 <= j < |groupIds| && Lookup(mapper, groupIds[j]) == Some(privacy);
          assert groupIds[j] in groupIds;
        }
      }
    }

    /** One iteration of the inner loop of `run`. */
    method RepairOne(post: PostRow, mapper: GroupService, failing: set<PostId>,
                     ghost was: seq<PostRow>, ghost live: seq<PostRow>, ghost n: nat)
      returns (outcome: Outcome)
      requires UniqueIds(was) && live == LivePosts(was) && n < |live|
      requires Progress(posts, was, IdsOf(live, n), service, failing)
      requires post.id == live[n].id && post.groups == live[n].groups
      requires Agrees(post.groups, mapper, service)
      modifies this
      ensures Progress(posts, was, IdsOf(live, n + 1), service, failing)
      ensures Tally(live, n + 1, failing) == Tally(live, n, failing).Add(One(outcome))
    {
      ProgressOne(posts, was, live, n, service, failing);
      TallyNext(live, n, failing);
      if |post.groups| == 0 {
        return Kept;
      }
      var privacy := GetPrivacyFrom(post.groups, mapper);
      MostOpenByLookup(post.groups, mapper, service);
      if post.id in failing {
        return Failed;
      }
      posts := SetPrivacy(posts, post.id, privacy);
      return Updated;
    }

    /** The inner loop of `run` over one page, which starts at position `from` of the live posts. */
    method RepairPage(page: seq<PostRow>, mapper: GroupService, failing: set<PostId>,
                      ghost was: seq<PostRow>, ghost live: seq<PostRow>, ghost from: nat)
      returns (t: Totals)
      requires UniqueIds(was) && live == LivePosts(was) && IsPageAt(page, live, from)
      requires Progress(posts, was, IdsOf(live, from), service, failing)
      requires forall k :: 0 <= k < |page| ==> Agrees(page[k].groups, mapper, service)
      modifies this
      ensures Progress(posts, was, IdsOf(live, from + |page|), service, failing)
      ensures Tally(live, from + |page|, failing) == Tally(live, from, failing).Add(t)
    {
      t := Totals(0, 0, 0);
      for i := 0 to |page|
        invariant Progress(posts, was, IdsOf(live, from + i), service, failing)
        invariant Tally(live, from + i, failing) == Tally(live, from, failing).Add(t)
      {
        var outcome := RepairOne(page[i], mapper, failing, was, live, from + i);
        AddAssociates(Tally(live, from, failing), t, One(outcome));
        t := t.Add(One(outcome));
      }
    }

    /** One iteration of the outer loop of `run` on a non-empty page. */
    method RepairNext(page: seq<PostRow>, mapper: GroupService, failing: set<PostId>,
                      ghost was: seq<PostRow>, ghost offset: nat, ghost total: nat, ghost totals: Totals)
      returns (mapper': GroupService, t: Totals)
      requires UniqueIds(was) && Reached(posts, was, offset, total, totals, service, failing)
      requires page == Slice(LivePosts(posts), offset, LIMIT_EACH)
      requires forall g :: g in mapper ==> g in service && mapper[g] == service[g]
      modifies this
      ensures forall g :: g in mapper' ==> g in service && mapper'[g] == service[g]
      ensures Reached(posts, was, offset + LIMIT_EACH, total + |page|, totals.Add(t), service, failing)
    {
      PageIsAt(posts, was, total, offset, service, failing);
      mapper' := BuildGroupPrivacy(Flatten(page), mapper);
      MemoAgrees(page, mapper', service);
      t := RepairPage(page, mapper', failing, was, LivePosts(was), total);
    }

    /** `run`: afterwards every published visible post with an unarchived group stores the most open privacy of its
        unarchived groups, unless its UPDATE failed; every such post was visited exactly once. */
    method Run(failing: set<PostId>) returns (total: nat, totals: Totals)
      requires UniqueIds(posts)
      modifies this
      ensures |posts| == |old(posts)|
      ensures forall i :: 0 <= i < |posts| ==> posts[i] == Repaired(old(posts)[i], service, failing)
      ensures total == |LivePosts(old(posts))| == totals.Sum()
      ensures totals == Tally(LivePosts(old(posts)), |LivePosts(old(posts))|, failing)
      ensures totals == Totals(CountRows(old(posts), |old(posts)|, failing, Updated),
                               CountRows(old(posts), |old(posts)|, failing, Kept),
                               CountRows(old(posts), |old(posts)|, failing, Failed))
    {
      total, totals := 0, Totals(0, 0, 0);
      var offset: nat, hasMore := 0, true;
      var mapper: GroupService := map[];
      ghost var was := posts;
      while hasMore
        invariant Reached(posts, was, offset, total, totals, service, failing)
        invariant !hasMore ==> total == |LivePosts(was)|
        invariant forall g :: g in mapper ==> g in service && mapper[g] == service[g]
        decreases hasMore, |LivePosts(was)| - total
      {
        PageIsAt(posts, was, total, offset, service, failing);
        var page := Slice(LivePosts(posts), offset, LIMIT_EACH);
        if |page| == 0 {
          hasMore := false;
        } else {
          var t;
          mapper, t := RepairNext(page, mapper, failing, was, offset, total, totals);
          total, totals := total + |page|, totals.Add(t);
          offset := offset + LIMIT_EACH;
        }
      }
      AllDone(was, LivePosts(was));
      TallyIsTotal(LivePosts(was), total, failing);
      TallyCountsRows(was, |was|, failing, Updated);
      TallyCountsRows(was, |was|, failing, Kept);
      TallyCountsRows(was, |was|, failing, Failed);
    }
  }

  /** The memo, once it covers the page, answers for every post of the page what the service would. */
  lemma MemoAgrees(page: seq<PostRow>, mapper: GroupService, service: GroupService)
    requires forall g :: g in mapper ==> g in service && mapper[g] == service[g]
    requires Elems(Flatten(page)) * service.Keys <= mapper.Keys
    ensures forall k :: 0 <= k < |page| ==> Agrees(page[k].groups, mapper, service)
  {
    forall k, g | 0 <= k < |page| && g in page[k].groups ensures Lookup(mapper, g) == Lookup(service, g) {
      assert page[k] in page && g in Flatten(page);
      assert g in service ==> g in Elems(Flatten(page)) * service.Keys;
    }
  }

  /** The offset page of the half-repaired table is the right run of the original live posts. */
  lemma PageIsAt(now: seq<PostRow>, was: seq<PostRow>, total: nat, offset: nat,
                 service: GroupService, failing: set<PostId>)
    requires total == if offset <= |LivePosts(was)| then offset else |LivePosts(was)|
    requires Progress(now, was, IdsOf(LivePosts(was), total), service, failing)
    ensures var page, live := Slice(LivePosts(now), offset, LIMIT_EACH), LivePosts(was);
            && IsPageAt(page, live, total)
            && (page == [] ==> total == |live|)
            && (total + |page| == if offset + LIMIT_EACH <= |live| then offset + LIMIT_EACH else |live|)
  {
    FilterIsStable(now, was, |was|, IdsOf(LivePosts(was), total), service, failing);
    if offset < |LivePosts(now)| {
      SliceIs(LivePosts(now), offset, LIMIT_EACH);
    }
  }

  lemma SliceIs(s: seq<PostRow>, offset: nat, limit: nat)
    requires offset < |s|
    ensures var r := Slice(s, offset, limit);
            && |r| == (if |s| - offset <= limit then |s| - offset else limit)
            && forall k :: 0 <= k < |r| ==> r[k] == s[offset + k]
  {
  }

  lemma AllDone(was: seq<PostRow>, live: seq<PostRow>)
    requires UniqueIds(was) && live == LivePosts(was)
    ensures forall i :: 0 <= i < |was| ==> (was[i].id in IdsOf(live, |live|) <==> Live(was[i]))
  {
    forall i | 0 <= i < |was| ensures was[i].id in IdsOf(live, |live|) <==> Live(was[i]) {
      if was[i].id in IdsOf(live, |live|) {
        var k :| 0 <= k < |live| && live[k].id == was[i].id;
        assert live[k] in live;
        var j :| 0 <= j < |was| && was[j] == live[k];
        assert i == j;
      }
      if Live(was[i]) {
        assert was[i] in live;
        var k :| 0 <= k < |live| && live[k] == was[i];
      }
    }
  }

  /** The ids the memo does not know yet. */
  function Unknown(groupIds: seq<GroupId>, mapper: GroupService): (r: seq<GroupId>)
    ensures forall g :: g in r <==> g in groupIds && g !in mapper
  {
    if groupIds == [] then []
    else if groupIds[0] in mapper then Unknown(groupIds[1..], mapper)
    else [groupIds[0]] + Unknown(groupIds[1..], mapper)
  }

  /** All group ids of a page. Looking an id up twice changes nothing, so repeats may stay. */
  function Flatten(page: seq<PostRow>): (r: seq<GroupId>)
    ensures forall post, g :: post in page && g in post.groups ==> g in r
  {
    if page == [] then [] else page[0].groups + Flatten(page[1..])
  }

  /** The batch looks at unarchived groups only: it gives what the scan over all groups gives if and only if every
      known archived group is secret or no more open than some known unarchived group. */
  lemma BatchIsScanIff(m: Privacy, right: Privacy, unarchived: set<GroupId>, all: set<GroupId>, service: GroupService)
    requires unarchived <= all && IsMostOpen(m, unarchived, service) && IsMostOpen(right, all, service)
    ensures m == right <==>
            forall g :: g in all - unarchived && g in service ==>
              service[g] == SECRET
              || exists h :: h in unarchived && h in service && Openness(service[g]) <= Openness(service[h])
  {
    assert forall g :: g in all ==> g in unarchived || g in all - unarchived;
    if m == right && m != SECRET {
      var h :| h in unarchived && h in service && service[h] == m;
    }
  }

  /** A post in a secret group and an archived open one: the batch makes it secret, the scan calls it open. */
  lemma ArchivedGroupIsIgnored()
    ensures var service := map[1 := OPEN, 2 := SECRET];
            MostOpen([2], service) == SECRET && IsMostOpen(OPEN, {1, 2}, service)
  {
    var service := map[1 := OPEN, 2 := SECRET];
    assert 1 in {1, 2} && service[1] == OPEN;
    MostOpenIsUnique(MostOpen([2], service), SECRET, Elems([2]), service);
  }
}

/** The privacy of a post is the most open privacy of its groups. The service computes it three ways:
    an early-exit scan, a pairwise fold over join rows, and a memoised batch. All agree on one maximum. */
module Privacy {
  import opened Ids
  import opened Lists
  import opened Wrappers

  /** `GroupPrivacy` and `PostPrivacy` have the same four members. */
  datatype Privacy = OPEN | CLOSED | PRIVATE | SECRET

  function Openness(p: Privacy): nat {
    match p case OPEN => 3 case CLOSED => 2 case PRIVATE => 1 case SECRET => 0
  }

  /** The group service: unknown ids are simply not returned. */
  type GroupService = map<GroupId, Privacy>

  /** `m` is the most open privacy of the groups that have a row; SECRET when none has. */
  ghost predicate IsMostOpen(m: Privacy, groups: set<GroupId>, service: GroupService) {
    && (forall g :: g in groups && g in service ==> Openness(service[g]) <= Openness(m))
    && (m == SECRET || exists g :: g in groups && g in service && service[g] == m)
  }

  lemma MostOpenIsUnique(m: Privacy, n: Privacy, groups: set<GroupId>, service: GroupService)
    requires IsMostOpen(m, groups, service) && IsMostOpen(n, groups, service)
    ensures m == n
  {
  }

  datatype ScanResult = GroupRequired | Found(privacy: Privacy)

  /** `PostService.getPrivacy`. `groups` is what `findAllByIds(groupIds)` returned, in any order. */
  method GetPrivacy(groupIds: seq<GroupId>, groups: seq<GroupId>, service: GroupService) returns (r: ScanResult)
    requires forall g :: g in groups <==> g in groupIds && g in service
    ensures r.GroupRequired? <==> groupIds == []
    ensures r.Found? ==> IsMostOpen(r.privacy, Elems(groupIds), service)
  {
    if |groupIds| == 0 {
      return GroupRequired;
    }
    var totalPrivate, totalOpen := 0, 0;
    for i := 0 to |groups|
      invariant forall j :: 0 <= j < i ==> service[groups[j]] != OPEN
      invariant totalOpen > 0 <==> exists j :: 0 <= j < i && service[groups[j]] == CLOSED
      invariant totalPrivate > 0 <==> exists j :: 0 <= j < i && service[groups[j]] == PRIVATE
      invariant totalOpen >= 0 && totalPrivate >= 0
    {
      if service[groups[i]] == OPEN {
        assert groups[i] in groupIds;
        return Found(OPEN);
      }
      if service[groups[i]] == CLOSED {
        totalOpen := totalOpen + 1;
      }
      if service[groups[i]] == PRIVATE {
        totalPrivate := totalPrivate + 1;
      }
    }
    forall g | g in groupIds && g in service ensures exists j :: 0 <= j < |groups| && groups[j] == g {
      assert g in groups;
    }
    if totalOpen > 0 {
      return Found(CLOSED);
    }
    if totalPrivate > 0 {
      return Found(PRIVATE);
    }
    return Found(SECRET);
  }

  // ---------- the pairwise fold ----------

  /** `getPostPrivacyByCompareGroupPrivacy`; `None` is the privacy of a group the service does not know. */
  function Compare(group: Option<Privacy>, post: Privacy): (r: Privacy)
    ensures Openness(r) >= Openness(post)
    ensures group.Some? ==> Openness(r) >= Openness(group.value)
    ensures r == post || group == Some(r)
  {
    if group == Some(OPEN) || post == OPEN then OPEN
    else if group == Some(CLOSED) || post == CLOSED then CLOSED
    else if group == Some(PRIVATE) || post == PRIVATE then PRIVATE
    else SECRET
  }

  /** A `posts_groups` row. */
  datatype PostGroup = PostGroup(post: PostId, group: GroupId)

  function Lookup(service: GroupService, g: GroupId): Option<Privacy> {
    if g in service then Some(service[g]) else None
  }

  /** Groups of the post among the rows. */
  function GroupsOf(rows: seq<PostGroup>, p: PostId): set<GroupId> {
    set r | r in rows && r.post == p :: r.group
  }

  /** `m` is the most open of `start` and the privacies of the groups. */
  ghost predicate IsMostOpenFrom(m: Privacy, start: Privacy, groups: set<GroupId>, service: GroupService) {
    && Openness(start) <= Openness(m)
    && (forall g :: g in groups && g in service ==> Openness(service[g]) <= Openness(m))
    && (m == start || exists g :: g in groups && g in service && service[g] == m)
  }

  function PostsOf(rows: seq<PostGroup>): set<PostId> {
    set r | r in rows :: r.post
  }

  type Buckets = map<Privacy, seq<PostId>>

  predicate In(buckets: Buckets, k: Privacy, p: PostId) {
    k in buckets && p in buckets[k]
  }

  /** Each post with a row sits in exactly one bucket, once, keyed by the most open of the new privacy and its
      groups' privacies; nothing else is in a bucket. */
  ghost predicate Sorted(buckets: Buckets, posts: set<PostId>, rows: seq<PostGroup>, service: GroupService,
                         newPrivacy: Privacy) {
    && (forall k :: k in buckets ==> Distinct(buckets[k]))
    && (forall k, p :: In(buckets, k, p) ==>
          p in posts && IsMostOpenFrom(k, newPrivacy, GroupsOf(rows, p), service))
    && (forall p :: p in posts ==> exists k :: In(buckets, k, p))
  }

  lemma BucketIsUnique(buckets: Buckets, posts: set<PostId>, rows: seq<PostGroup>, service: GroupService,
                       newPrivacy: Privacy, p: PostId, k: Privacy, l: Privacy)
    requires Sorted(buckets, posts, rows, service, newPrivacy)
    requires In(buckets, k, p) && In(buckets, l, p)
    ensures k == l
  {
    MostOpenFromIsUnique(k, l, newPrivacy, GroupsOf(rows, p), service);
  }

  lemma MostOpenFromIsUnique(m: Privacy, n: Privacy, start: Privacy, groups: set<GroupId>, service: GroupService)
    requires IsMostOpenFrom(m, start, groups, service) && IsMostOpenFrom(n, start, groups, service)
    ensures m == n
  {
  }

  /** The fold so far: every post seen has its most open privacy. */
  ghost predicate Folded(mapping: map<PostId, Privacy>, seen: seq<PostGroup>, service: GroupService,
                         newPrivacy: Privacy)
  {
    && mapping.Keys == PostsOf(seen)
    && forall p :: p in mapping ==> IsMostOpenFrom(mapping[p], newPrivacy, GroupsOf(seen, p), service)
  }

  /** The first `reduce`: fold the rows into one privacy per post, remembering insertion order. */
  method FoldRows(rows: seq<PostGroup>, service: GroupService, newPrivacy: Privacy)
    returns (order: seq<PostId>, mapping: map<PostId, Privacy>)
    ensures Distinct(order) && Elems(order) == mapping.Keys
    ensures Folded(mapping, rows, service, newPrivacy)
  {
    order, mapping := [], map[];
    for i := 0 to |rows|
      invariant Distinct(order) && Elems(order) == mapping.Keys
      invariant Folded(mapping, rows[..i], service, newPrivacy)
    {
      var row := rows[i];
      var value := Compare(Lookup(service, row.group), if row.post in mapping then mapping[row.post] else newPrivacy);
      FoldRow(mapping, rows[..i], row, service, newPrivacy);
      assert rows[..i + 1] == rows[..i] + [row];
      if row.post !in mapping {
        assert row.post !in Elems(order);
        order := order + [row.post];
      }
      mapping := mapping[row.post := value];
    }
    assert rows[..|rows|] == rows;
  }

  /** `filterPostIdsNeedToUpdatePrivacy`. `rows` are the rows of `postIds` in whatever order the table returns. */
  method FilterPostIdsNeedToUpdatePrivacy(rows: seq<PostGroup>, service: GroupService, newPrivacy: Privacy)
    returns (updated: Buckets)
    ensures Sorted(updated, PostsOf(rows), rows, service, newPrivacy)
  {
    var order, mapping := FoldRows(rows, service, newPrivacy);
    updated := map[];
    for i := 0 to |order|
      invariant forall k :: k in updated ==> Distinct(updated[k])
      invariant forall k, p :: In(updated, k, p) <==> p in order[..i] && mapping[p] == k
    {
      var p := order[i];
      assert p in Elems(order) && p !in order[..i];
      assert order[..i + 1] == order[..i] + [p];
      var key := mapping[p];
      ghost var was := updated;
      assert !In(was, key, p);
      updated := updated[key := (if key in updated then updated[key] else []) + [p]];
      forall k, q ensures In(updated, k, q) <==> In(was, k, q) || (k == key && q == p) {}
    }
    assert order[..|order|] == order;
    forall p | p in PostsOf(rows) ensures exists k :: In(updated, k, p) {
      assert p in Elems(order) && In(updated, mapping[p], p);
    }
  }

  lemma RowSets(seen: seq<PostGroup>, row: PostGroup)
    ensures PostsOf(seen + [row]) == PostsOf(seen) + {row.post}
    ensures GroupsOf(seen + [row], row.post) == GroupsOf(seen, row.post) + {row.group}
    ensures forall p :: p != row.post ==> GroupsOf(seen + [row], p) == GroupsOf(seen, p)
    ensures row.post !in PostsOf(seen) ==> GroupsOf(seen, row.post) == {}
  {
    var all := seen + [row];
    assert forall r :: r in all <==> r in seen || r == row;
    assert row in all;
    forall p | p != row.post ensures GroupsOf(all, p) == GroupsOf(seen, p) {}
    assert GroupsOf(all, row.post) == GroupsOf(seen, row.post) + {row.group};
    assert forall r :: r in seen ==> r.post in PostsOf(seen);
  }

  lemma CompareIsMostOpen(m: Privacy, start: Privacy, groups: set<GroupId>, service: GroupService, g: GroupId)
    requires IsMostOpenFrom(m, start, groups, service)
    ensures IsMostOpenFrom(Compare(Lookup(service, g), m), start, groups + {g}, service)
  {
    assert g in groups + {g};
  }

  lemma FoldRow(mapping: map<PostId, Privacy>, seen: seq<PostGroup>, row: PostGroup,
                service: GroupService, newPrivacy: Privacy)
    requires Folded(mapping, seen, service, newPrivacy)
    ensures var before := if row.post in mapping then mapping[row.post] else newPrivacy;
            Folded(mapping[row.post := Compare(Lookup(service, row.group), before)], seen + [row], service, newPrivacy)
  {
    RowSets(seen, row);
    var before := if row.post in mapping then mapping[row.post] else newPrivacy;
    CompareIsMostOpen(before, newPrivacy, GroupsOf(seen, row.post), service, row.group);
  }

  /** When the changed group is among the post's groups and the service already stores the new privacy, the fold
      gives what `getPrivacy` gives. */
  lemma FoldIsScan(m: Privacy, newPrivacy: Privacy, groups: set<GroupId>, service: GroupService, changed: GroupId)
    requires IsMostOpenFrom(m, newPrivacy, groups, service)
    requires changed in groups && changed in service && service[changed] == newPrivacy
    ensures IsMostOpen(m, groups, service)
  {
  }

  /** With a stale service the fold is right if and only if the stale privacy is no more open than the new one or
      than that of another group of the post. */
  lemma StaleFoldIsScanIff(m: Privacy, right: Privacy, newPrivacy: Privacy, groups: set<GroupId>,
                           service: GroupService, changed: GroupId)
    requires changed in groups && changed in service
    requires IsMostOpenFrom(m, newPrivacy, groups, service)
    requires IsMostOpen(right, groups, service[changed := newPrivacy])
    ensures m == right <==>
            || Openness(service[changed]) <= Openness(newPrivacy)
            || exists g :: g in groups && g in service && g != changed
                           && Openness(service[changed]) <= Openness(service[g])
  {
    var stored := service[changed := newPrivacy];
    assert stored[changed] == newPrivacy;
    assert forall g :: g in service && g != changed ==> stored[g] == service[g];
    assert Openness(service[changed]) <= Openness(m);
  }

  /** A group goes from open to private while the group service still says open: the post stays open. */
  lemma StaleFoldKeepsOpen()
    ensures var service := map[1 := OPEN, 2 := SECRET];
            && IsMostOpenFrom(OPEN, PRIVATE, {1, 2}, service)
            && IsMostOpen(PRIVATE, {1, 2}, service[1 := PRIVATE])
  {
    var service := map[1 := OPEN, 2 := SECRET];
    assert 1 in {1, 2} && service[1] == OPEN && service[1 := PRIVATE][1] == PRIVATE;
  }
}

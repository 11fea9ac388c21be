/**
 * The article migration that scrubs base64 images, and its rollback. Both choose their rows by a
 * text pattern on a stored column, and the two patterns differ.
 */
module ContentBackup {
  import opened ContentTree
  import opened Ids
  import opened Lists
  import opened Wrappers

  datatype Post = Post(isArticle: bool, deleted: bool, content: string, oldContent: Option<string>)

  type Posts = map<PostId, Post>

  /** How article text and node lists translate. `parse` is `None` when the text is not an array of nodes, and the
      migration throws on it. */
  datatype Json = Json(parse: string -> Option<seq<Node>>, stringify: seq<Node> -> string)

  /** A parsed node list, with any image urls, prints to a text that parses to it. */
  ghost predicate RoundTrips(json: Json) {
    forall text, content: seq<Node> ::
      json.parse(text).Some? && Shapes(content) == Shapes(json.parse(text).value) ==>
        json.parse(json.stringify(content)) == Some(content)
  }

  /** Parse, scrub, print; `None` when parsing or scrubbing throws. */
  function Rewrite(json: Json, text: string): Option<string> {
    match json.parse(text)
    case None => None
    case Some(content) =>
      match ScrubContent(content)
      case None => None
      case Some(scrubbed) => Some(json.stringify(scrubbed))
  }

  /** SQL `LIKE '%pattern%'` for a pattern without wildcards. */
  predicate Like(text: string, pattern: string) {
    exists i :: 0 <= i <= |text| && pattern <= text[i..]
  }

  predicate MigrationPattern(text: string) {
    Like(text, "\"url\": \"data:") || Like(text, "\"url\":\"data:")
  }

  predicate RollbackPattern(text: string) {
    Like(text, "\"url\":\"data:") || Like(text, "\"url\":\" data:")
  }

  predicate Found(post: Post) {
    !post.deleted && post.isArticle && MigrationPattern(post.content)
  }

  predicate RolledBack(post: Post) {
    !post.deleted && post.isArticle && post.oldContent.Some? && RollbackPattern(post.oldContent.value)
  }

  /** The rows the migration loop gets through: those before the first one whose content throws. */
  function Processed(posts: Posts, found: seq<PostId>, json: Json): (n: nat)
    requires forall id :: id in found ==> id in posts
    ensures n <= |found|
    ensures forall k :: 0 <= k < n ==> Rewrite(json, posts[found[k]].content).Some?
    ensures n < |found| ==> Rewrite(json, posts[found[n]].content).None?
  {
    if found == [] || Rewrite(json, posts[found[0]].content).None? then 0
    else
      var n := Processed(posts, found[1..], json);
      assert forall k :: 0 < k <= |found[1..]| ==> found[k] == found[1..][k - 1];
      n + 1
  }

  /** What the migration leaves in one row. */
  function Migrated(post: Post, json: Json): Post
    requires Rewrite(json, post.content).Some?
  {
    post.(oldContent := Some(post.content), content := Rewrite(json, post.content).value)
  }

  function RollBackPost(post: Post): Post {
    if RolledBack(post) then post.(content := post.oldContent.value) else post
  }

  /** `posts` is `was` with the first `n` found rows migrated. */
  ghost predicate MigratedUpTo(posts: Posts, was: Posts, found: seq<PostId>, n: nat, json: Json)
    requires n <= |found| && forall id :: id in found ==> id in was
    requires forall k :: 0 <= k < n ==> Rewrite(json, was[found[k]].content).Some?
  {
    && posts.Keys == was.Keys
    && (forall k :: 0 <= k < n ==> posts[found[k]] == Migrated(was[found[k]], json))
    && (forall id :: id in was && id !in found[..n] ==> posts[id] == was[id])
  }

  lemma NotYetMigrated(posts: Posts, was: Posts, found: seq<PostId>, n: nat, json: Json)
    requires Distinct(found) && n < |found| && forall id :: id in found ==> id in was
    requires forall k :: 0 <= k < n ==> Rewrite(json, was[found[k]].content).Some?
    requires MigratedUpTo(posts, was, found, n, json)
    ensures found[n] in posts && posts[found[n]] == was[found[n]]
  {
    assert found[n] in found && found[n] !in found[..n];
  }

  lemma MigratedNext(posts: Posts, was: Posts, found: seq<PostId>, n: nat, json: Json)
    requires Distinct(found) && n < |found| && forall id :: id in found ==> id in was
    requires forall k :: 0 <= k <= n ==> Rewrite(json, was[found[k]].content).Some?
    requires MigratedUpTo(posts, was, found, n, json)
    ensures MigratedUpTo(posts[found[n] := Migrated(was[found[n]], json)], was, found, n + 1, json)
  {
    assert found[..n + 1] == found[..n] + [found[n]];
    assert found[n] in found;
  }

  class PostTable {
    var posts: Posts

    constructor (posts: Posts)
      ensures this.posts == posts
    {
      this.posts := posts;
    }

    /** `migrateContent`: rewrites the found rows in turn; the first throw ends the run. */
    method MigrateContent(found: seq<PostId>, json: Json)
      requires Distinct(found)
      requires forall id :: id in found <==> id in posts && Found(posts[id])
      modifies this
      ensures var was := old(posts); MigratedUpTo(posts, was, found, Processed(was, found, json), json)
    {
      ghost var was := posts;
      ghost var end := Processed(was, found, json);
      for i := 0 to |found|
        invariant i <= end
        invariant MigratedUpTo(posts, was, found, i, json)
      {
        var id := found[i];
        NotYetMigrated(posts, was, found, i, json);
        assert posts[id] == was[id];
        var content := Rewrite(json, posts[id].content);
        if content.None? {
          return;
        }
        assert i < end;
        MigratedNext(posts, was, found, i, json);
        posts := posts[id := posts[id].(oldContent := Some(posts[id].content), content := content.value)];
      }
    }

    /** `rollBack` */
    method RollBack()
      modifies this
      ensures posts.Keys == old(posts).Keys
      ensures forall id :: id in posts ==> posts[id] == RollBackPost(old(posts)[id])
    {
      var ids := set id | id in posts && RolledBack(posts[id]);
      posts := map id | id in posts ::
        if id in ids then posts[id].(content := posts[id].oldContent.value) else posts[id];
    }
  }

  /** What a caller can check before migrating: rolling back will give this row its content back. */
  predicate Restorable(post: Post, migrated: bool, json: Json) {
    if migrated then Rewrite(json, post.content) == Some(post.content) || RollbackPattern(post.content)
    else RolledBack(post) ==> post.oldContent.value == post.content
  }

  /** Migrating and rolling back restores every content exactly when every row is restorable. */
  lemma RollbackUndoesMigrationIff(was: Posts, found: seq<PostId>, posts: Posts, json: Json)
    requires Distinct(found)
    requires forall id :: id in found <==> id in was && Found(was[id])
    requires MigratedUpTo(posts, was, found, Processed(was, found, json), json)
    ensures (forall id :: id in was ==> RollBackPost(posts[id]).content == was[id].content)
       <==> (forall id :: id in was ==> Restorable(was[id], id in found[..Processed(was, found, json)], json))
  {
    var n := Processed(was, found, json);
    forall id | id in was
      ensures RollBackPost(posts[id]).content == was[id].content <==> Restorable(was[id], id in found[..n], json)
    {
      if id in found[..n] {
        var k :| 0 <= k < n && found[k] == id;
        assert posts[id] == Migrated(was[id], json);
      }
    }
  }

  /** A migrated article parses to the full scrubbing map of what it was: no image url starts with "data", and
      migrating it again would change nothing. */
  lemma MigratedIsClean(json: Json, text: string)
    requires RoundTrips(json)
    ensures Rewrite(json, text).Some? <==> json.parse(text).Some? && AllScrubbable(json.parse(text).value)
    ensures Rewrite(json, text).Some? ==>
              var after := json.parse(Rewrite(json, text).value);
              && after == Some(MapAll(json.parse(text).value, DropDataUrls))
              && (forall tag :: tag in TagsOf(after.value) ==> !(IsImage(tag) && IsDataUrl(tag)))
              && Rewrite(json, Rewrite(json, text).value) == Rewrite(json, text)
  {
    if json.parse(text).Some? {
      ScrubIsMap(json.parse(text).value);
      ScrubIsFullMapIff(json.parse(text).value);
      MapAllKeepsShapes(json.parse(text).value, DropDataUrls);
    }
  }

  /** The migration finds live articles only, by either spelling of a data url. */
  lemma FoundIff(post: Post)
    ensures Found(post) <==>
            && post.isArticle && !post.deleted
            && exists i :: && 0 <= i <= |post.content|
                           && ("\"url\":\"data:" <= post.content[i..] || "\"url\": \"data:" <= post.content[i..])
  {
    var text := post.content;
    assert forall i :: 0 <= i <= |text| && "\"url\":\"data:" <= text[i..] ==> MigrationPattern(text);
    assert forall i :: 0 <= i <= |text| && "\"url\": \"data:" <= text[i..] ==> MigrationPattern(text);
  }

  /** The rollback restores live articles with a backup only, by two other spellings, and writes the content column. */
  lemma RollBackWrites(post: Post)
    ensures RollBackPost(post) == post.(content := RollBackPost(post).content)
    ensures RollBackPost(post) != post ==>
              && post.isArticle && !post.deleted && post.oldContent == Some(RollBackPost(post).content)
              && exists i :: && 0 <= i <= |post.oldContent.value|
                             && ("\"url\":\"data:" <= post.oldContent.value[i..]
                                 || "\"url\":\" data:" <= post.oldContent.value[i..])
    ensures post.isArticle && !post.deleted && post.oldContent.Some?
            && (exists i :: && 0 <= i <= |post.oldContent.value|
                            && ("\"url\":\"data:" <= post.oldContent.value[i..]
                                || "\"url\":\" data:" <= post.oldContent.value[i..])) ==>
              Some(RollBackPost(post).content) == post.oldContent
  {
    if post.oldContent.Some? {
      var text := post.oldContent.value;
      assert forall i :: 0 <= i <= |text| && "\"url\":\"data:" <= text[i..] ==> RollbackPattern(text);
      assert forall i :: 0 <= i <= |text| && "\"url\":\" data:" <= text[i..] ==> RollbackPattern(text);
    }
  }

  /** A migrated row keeps everything but its content, which goes to the backup; a row the query does not find, and a
      found one behind the first that throws, stays as it was. */
  lemma MigrationWrites(was: Posts, found: seq<PostId>, posts: Posts, json: Json, id: PostId)
    requires Distinct(found) && (forall x :: x in found <==> x in was && Found(was[x])) && id in was
    requires MigratedUpTo(posts, was, found, Processed(was, found, json), json)
    ensures posts.Keys == was.Keys
    ensures if Found(was[id]) && id in found[..Processed(was, found, json)] then
              && posts[id].isArticle && !posts[id].deleted && posts[id].oldContent == Some(was[id].content)
              && json.parse(was[id].content).Some? && ScrubContent(json.parse(was[id].content).value).Some?
              && posts[id].content == json.stringify(ScrubContent(json.parse(was[id].content).value).value)
            else posts[id] == was[id]
  {
    var n := Processed(was, found, json);
    if id in found[..n] {
      var k :| 0 <= k < n && found[k] == id;
      assert found[k] in found;
    }
  }

  const SPACED := "[{\"type\":\"img\",\"url\": \"data:x\"}]"
  const SPACED_NODE := Node(Some("img"), None, Some("data:x"), Missing, map[])

  lemma OneUrl(i: nat)
    requires i + 1 < |SPACED| && SPACED[i + 1] == 'u'
    ensures i == 15
  {
  }

  lemma SpacedIsFound()
    ensures Found(Post(true, false, SPACED, None))
  {
    assert "\"url\": \"data:" <= SPACED[15..];
  }

  lemma NotAt(i: nat)
    requires i <= |SPACED|
    ensures !("\"url\":\"data:" <= SPACED[i..]) && !("\"url\":\" data:" <= SPACED[i..])
  {
    var rest := SPACED[i..];
    if |rest| >= 12 && rest[1] == 'u' {
      OneUrl(i);
      assert rest[6] == ' ';
    }
  }

  lemma SpacedIsNotRolledBack()
    ensures !RollbackPattern(SPACED)
  {
    forall i | 0 <= i <= |SPACED|
      ensures !("\"url\":\"data:" <= SPACED[i..]) && !("\"url\":\" data:" <= SPACED[i..])
    {
      NotAt(i);
    }
  }

  lemma SpacedIsScrubbed()
    ensures ScrubContent([SPACED_NODE]) == Some([SPACED_NODE.(url := Some(""))])
  {
    assert [SPACED_NODE][..0] == [];
    assert "data" <= "data:x";
    var scrubbed := SPACED_NODE.(url := Some(""));
    assert RecursivelyUpdate(SPACED_NODE) == Some(scrubbed);
    assert [] + [scrubbed] == [scrubbed];
    assert ScrubContent([SPACED_NODE]) == Append(ScrubContent([]), Some(scrubbed));
  }

  /** An article stored with a space before the data url is migrated, and the rollback does not find it. */
  lemma SpacedUrlIsNotRestored(json: Json)
    requires RoundTrips(json) && json.parse(SPACED) == Some([SPACED_NODE])
    ensures var post := Post(true, false, SPACED, None);
            && Found(post) && Rewrite(json, SPACED).Some?
            && RollBackPost(Migrated(post, json)).content != post.content
  {
    SpacedIsFound();
    SpacedIsNotRolledBack();
    SpacedIsScrubbed();
    var scrubbed := [SPACED_NODE.(url := Some(""))];
    ScrubIsFullMapIff([SPACED_NODE]);
    assert json.parse(SPACED).Some?;
    assert json.parse(json.stringify(scrubbed)) == Some(scrubbed);
    assert scrubbed[0] != SPACED_NODE;
  }
}

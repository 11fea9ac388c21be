/**
 * Comment pages. The queries return a left join of comments with the reader's reactions; the service
 * folds the rows back into comments, fetches one comment more than it shows, and does the same for the
 * replies of every comment on the page.
 */
module CommentPaging {
  import opened Ids
  import opened Lists
  import opened Wrappers

  /** A comment's own columns; `fields` stands for those that are only copied. */
  datatype Comment = Comment(id: CommentId, parentId: CommentId, createdAt: int, fields: string)

  datatype Reaction = Reaction(id: nat, reactionName: string, createdAt: int)

  /** A joined row: a comment, and one of the reader's reactions to it or null columns. */
  datatype Row = Row(comment: Comment, reaction: Option<Reaction>)

  datatype Grouped = Grouped(comment: Comment, ownerReactions: seq<Reaction>)

  // ---------- grouping rows ----------

  predicate HasComment(result: seq<Grouped>, id: CommentId) {
    exists i :: 0 <= i < |result| && result[i].comment.id == id
  }

  /** The position of the entry for a comment, the first if there were several. */
  function Find(result: seq<Grouped>, id: CommentId): (i: nat)
    requires HasComment(result, id)
    ensures i < |result| && result[i].comment.id == id
    ensures forall j :: 0 <= j < i ==> result[j].comment.id != id
  {
    if result[0].comment.id == id then 0
    else
      assert HasComment(result[1..], id) by {
        var i :| 0 <= i < |result| && result[i].comment.id == id;
        assert result[1..][i - 1] == result[i];
      }
      Find(result[1..], id) + 1
  }

  predicate HasReaction(reactions: seq<Reaction>, id: nat) {
    exists i :: 0 <= i < |reactions| && reactions[i].id == id
  }

  /** Push the row's reaction unless it is null or already there. */
  function AddReaction(reactions: seq<Reaction>, reaction: Option<Reaction>): seq<Reaction> {
    if reaction.Some? && !HasReaction(reactions, reaction.value.id) then reactions + [reaction.value] else reactions
  }

  function AddRow(result: seq<Grouped>, row: Row): seq<Grouped> {
    if HasComment(result, row.comment.id) then
      var i := Find(result, row.comment.id);
      result[i := result[i].(ownerReactions := AddReaction(result[i].ownerReactions, row.reaction))]
    else
      result + [Grouped(row.comment, if row.reaction.Some? then [row.reaction.value] else [])]
  }

  function Group(rows: seq<Row>): seq<Grouped> {
    if rows == [] then [] else AddRow(Group(rows[..|rows| - 1]), rows[|rows| - 1])
  }

  /** `_groupComments` */
  method GroupComments(comments: seq<Row>) returns (result: seq<Grouped>)
    ensures result == Group(comments)
  {
    result := [];
    for n := 0 to |comments|
      invariant result == Group(comments[..n])
    {
      var comment := comments[n];
      assert comments[..n + 1][..n] == comments[..n];
      if !HasComment(result, comment.comment.id) {
        var ownerReactions := if comment.reaction.None? then [] else [comment.reaction.value];
        result := result + [Grouped(comment.comment, ownerReactions)];
      } else {
        var i := Find(result, comment.comment.id);
        var commentAdded := result[i];
        if comment.reaction.Some? && !HasReaction(commentAdded.ownerReactions, comment.reaction.value.id) {
          commentAdded := commentAdded.(ownerReactions := commentAdded.ownerReactions + [comment.reaction.value]);
        }
        result := result[i := commentAdded];
      }
    }
    assert comments[..|comments|] == comments;
  }

  // ---------- the reference: one comment at a time ----------

  predicate HasRow(rows: seq<Row>, id: CommentId) {
    exists i :: 0 <= i < |rows| && rows[i].comment.id == id
  }

  /** Comment ids in the order of their first rows. */
  function FirstIds(rows: seq<Row>): (ids: seq<CommentId>)
    ensures Distinct(ids)
    ensures forall id :: id in ids <==> HasRow(rows, id)
  {
    if rows == [] then []
    else
      var init, last := rows[..|rows| - 1], rows[|rows| - 1].comment.id;
      RowSplit(rows);
      var ids := FirstIds(init);
      if last in ids then ids else ids + [last]
  }

  lemma RowSplit(rows: seq<Row>)
    requires rows != []
    ensures forall id :: HasRow(rows, id) <==> HasRow(rows[..|rows| - 1], id) || rows[|rows| - 1].comment.id == id
  {
    var init := rows[..|rows| - 1];
    forall id | HasRow(init, id) ensures HasRow(rows, id) {
      var i :| 0 <= i < |init| && init[i].comment.id == id;
      assert rows[i].comment.id == id;
    }
    forall id | HasRow(rows, id) && rows[|rows| - 1].comment.id != id ensures HasRow(init, id) {
      var i :| 0 <= i < |rows| && rows[i].comment.id == id;
      assert init[i].comment.id == id;
    }
  }

  /** The columns of the first row of a comment. */
  function FirstComment(rows: seq<Row>, id: CommentId): (c: Comment)
    requires HasRow(rows, id)
    ensures c.id == id && exists i :: 0 <= i < |rows| && rows[i].comment == c
  {
    var init := rows[..|rows| - 1];
    RowSplit(rows);
    if HasRow(init, id) then
      var c := FirstComment(init, id);
      assert forall i :: 0 <= i < |init| ==> rows[i] == init[i];
      c
    else rows[|rows| - 1].comment
  }

  /** The reactions in the rows of one comment, each id once, in the order of their first rows. */
  function ReactionsOf(rows: seq<Row>, id: CommentId): seq<Reaction> {
    if rows == [] then []
    else
      var before, last := ReactionsOf(rows[..|rows| - 1], id), rows[|rows| - 1];
      if last.comment.id == id then AddReaction(before, last.reaction) else before
  }

  function PerComment(rows: seq<Row>): seq<Grouped> {
    var ids := FirstIds(rows);
    seq(|ids|, i requires 0 <= i < |ids| => Grouped(FirstComment(rows, ids[i]), ReactionsOf(rows, ids[i])))
  }

  lemma {:induction false} NoRowNoReaction(rows: seq<Row>, id: CommentId)
    requires !HasRow(rows, id)
    ensures ReactionsOf(rows, id) == []
  {
    if rows != [] {
      RowSplit(rows);
      NoRowNoReaction(rows[..|rows| - 1], id);
    }
  }

  ghost predicate DistinctComments(comments: seq<Grouped>) {
    forall i, j :: 0 <= i < j < |comments| ==> comments[i].comment.id != comments[j].comment.id
  }

  /** A further row changes nothing about other comments. */
  lemma OthersStay(init: seq<Row>, last: Row, id: CommentId)
    requires HasRow(init, id) && id != last.comment.id
    ensures HasRow(init + [last], id)
    ensures FirstComment(init + [last], id) == FirstComment(init, id)
    ensures ReactionsOf(init + [last], id) == ReactionsOf(init, id)
  {
    assert (init + [last])[..|init|] == init;
    RowSplit(init + [last]);
  }

  lemma OwnRow(init: seq<Row>, last: Row)
    ensures var rows, id := init + [last], last.comment.id;
            && HasRow(rows, id)
            && FirstComment(rows, id) == (if HasRow(init, id) then FirstComment(init, id) else last.comment)
            && ReactionsOf(rows, id) == AddReaction(ReactionsOf(init, id), last.reaction)
            && FirstIds(rows) == if HasRow(init, id) then FirstIds(init) else FirstIds(init) + [id]
  {
    assert (init + [last])[..|init|] == init;
    RowSplit(init + [last]);
  }

  lemma AddRowAt(list: seq<Grouped>, row: Row, k: nat)
    requires k < |list| && list[k].comment.id == row.comment.id && DistinctComments(list)
    ensures AddRow(list, row) ==
            list[k := Grouped(list[k].comment, AddReaction(list[k].ownerReactions, row.reaction))]
  {
    assert Find(list, row.comment.id) == k;
  }

  lemma AddSeen(init: seq<Row>, last: Row)
    requires HasRow(init, last.comment.id)
    ensures AddRow(PerComment(init), last) == PerComment(init + [last])
  {
    var before, ids, id := PerComment(init), FirstIds(init), last.comment.id;
    OwnRow(init, last);
    var k :| 0 <= k < |ids| && ids[k] == id;
    AddRowAt(before, last, k);
    forall i | 0 <= i < |ids| && i != k ensures PerComment(init + [last])[i] == before[i] {
      assert ids[i] in ids;
      OthersStay(init, last, ids[i]);
    }
  }

  lemma AddUnseen(init: seq<Row>, last: Row)
    requires !HasRow(init, last.comment.id)
    ensures AddRow(PerComment(init), last) == PerComment(init + [last])
  {
    var before, ids, id := PerComment(init), FirstIds(init), last.comment.id;
    OwnRow(init, last);
    NoRowNoReaction(init, id);
    assert !HasComment(before, id);
    forall i | 0 <= i < |ids| ensures PerComment(init + [last])[i] == before[i] {
      assert ids[i] in ids;
      OthersStay(init, last, ids[i]);
    }
    assert AddReaction([], last.reaction) == if last.reaction.Some? then [last.reaction.value] else [];
  }

  /** However the rows of different comments interleave, grouping deals with each comment on its own. */
  lemma {:induction false} GroupIsPerComment(rows: seq<Row>)
    ensures Group(rows) == PerComment(rows)
  {
    if rows != [] {
      var init, last := rows[..|rows| - 1], rows[|rows| - 1];
      assert rows == init + [last];
      GroupIsPerComment(init);
      if HasRow(init, last.comment.id) {
        AddSeen(init, last);
      } else {
        AddUnseen(init, last);
      }
    }
  }

  // ---------- grouping undoes the join ----------

  /** The join's rows for one comment: one per reaction, or one with null columns. */
  function RowsOf(g: Grouped): seq<Row> {
    if g.ownerReactions == [] then [Row(g.comment, None)]
    else seq(|g.ownerReactions|, i requires 0 <= i < |g.ownerReactions| => Row(g.comment, Some(g.ownerReactions[i])))
  }

  function Flatten(comments: seq<Grouped>): seq<Row> {
    if comments == [] then [] else Flatten(comments[..|comments| - 1]) + RowsOf(comments[|comments| - 1])
  }

  ghost predicate DistinctReactions(reactions: seq<Reaction>) {
    forall i, j :: 0 <= i < j < |reactions| ==> reactions[i].id != reactions[j].id
  }

  lemma GroupNext(rows: seq<Row>, row: Row)
    ensures Group(rows + [row]) == AddRow(Group(rows), row)
  {
    assert (rows + [row])[..|rows|] == rows;
  }

  lemma AddToLast(result: seq<Grouped>, g: Grouped, reaction: Reaction)
    requires !HasComment(result, g.comment.id) && !HasReaction(g.ownerReactions, reaction.id)
    ensures AddRow(result + [g], Row(g.comment, Some(reaction)))
         == result + [g.(ownerReactions := g.ownerReactions + [reaction])]
  {
    var so := result + [g];
    assert so[|result|].comment.id == g.comment.id;
    assert Find(so, g.comment.id) == |result|;
  }

  /** A comment with its first `n` reactions. */
  function Partial(g: Grouped, n: nat): Grouped {
    Grouped(g.comment, Take(g.ownerReactions, n))
  }

  /** The first `n` rows of a comment after other rows. */
  function WithRows(rows: seq<Row>, g: Grouped, n: nat): seq<Row>
    requires n <= |RowsOf(g)|
  {
    rows + RowsOf(g)[..n]
  }

  lemma GroupWithRow(rows: seq<Row>, g: Grouped, n: nat)
    requires 1 <= n <= |RowsOf(g)|
    ensures WithRows(rows, g, 0) == rows
    ensures Group(WithRows(rows, g, n)) == AddRow(Group(WithRows(rows, g, n - 1)), RowsOf(g)[n - 1])
  {
    assert WithRows(rows, g, n) == WithRows(rows, g, n - 1) + [RowsOf(g)[n - 1]];
    GroupNext(WithRows(rows, g, n - 1), RowsOf(g)[n - 1]);
  }

  lemma AddNext(result: seq<Grouped>, g: Grouped, n: nat)
    requires !HasComment(result, g.comment.id) && DistinctReactions(g.ownerReactions)
    requires 1 < n <= |RowsOf(g)|
    ensures AddRow(result + [Partial(g, n - 1)], RowsOf(g)[n - 1]) == result + [Partial(g, n)]
  {
    assert Take(g.ownerReactions, n) == Take(g.ownerReactions, n - 1) + [g.ownerReactions[n - 1]];
    AddToLast(result, Partial(g, n - 1), g.ownerReactions[n - 1]);
  }

  lemma AddFirst(result: seq<Grouped>, g: Grouped)
    requires !HasComment(result, g.comment.id)
    ensures AddRow(result, RowsOf(g)[0]) == result + [Partial(g, 1)]
  {
    assert Partial(g, 1).ownerReactions == if g.ownerReactions == [] then [] else [g.ownerReactions[0]];
  }

  /** The rows of a comment not seen before add that comment with the reactions met so far. */
  lemma {:induction false} GroupOne(rows: seq<Row>, g: Grouped, n: nat)
    requires !HasComment(Group(rows), g.comment.id) && DistinctReactions(g.ownerReactions)
    requires 1 <= n <= |RowsOf(g)|
    ensures Group(WithRows(rows, g, n)) == Group(rows) + [Partial(g, n)]
  {
    GroupWithRow(rows, g, n);
    if n == 1 {
      AddFirst(Group(rows), g);
    } else {
      GroupOne(rows, g, n - 1);
      AddNext(Group(rows), g, n);
    }
  }

  lemma GroupWhole(rows: seq<Row>, g: Grouped)
    requires !HasComment(Group(rows), g.comment.id) && DistinctReactions(g.ownerReactions)
    ensures Group(rows + RowsOf(g)) == Group(rows) + [g]
  {
    var n := |RowsOf(g)|;
    assert RowsOf(g)[..n] == RowsOf(g);
    assert Partial(g, n) == g;
    GroupOne(rows, g, n);
  }

  /** Flattening comments to join rows and grouping the rows gives the comments back. */
  lemma {:induction false} GroupUndoesFlatten(comments: seq<Grouped>)
    requires DistinctComments(comments)
    requires forall g :: g in comments ==> DistinctReactions(g.ownerReactions)
    ensures Group(Flatten(comments)) == comments
  {
    if comments != [] {
      var init, last := comments[..|comments| - 1], comments[|comments| - 1];
      assert comments == init + [last] && last in comments;
      GroupUndoesFlatten(init);
      assert !HasComment(init, last.comment.id);
      GroupWhole(Flatten(init), last);
    }
  }

  // ---------- the tables and the queries ----------

  /** `comments` and `comments_reactions` rows; `reports` are the comments a user has reported. */
  datatype Stored = Stored(comment: Comment, hidden: bool)

  datatype StoredReaction = StoredReaction(commentId: CommentId, createdBy: UserId, reaction: Reaction)

  datatype Db = Db(comments: set<Stored>, reports: set<(UserId, CommentId)>, reactions: set<StoredReaction>)

  /** Primary keys. */
  ghost predicate ValidDb(db: Db) {
    && (forall a, b :: a in db.comments && b in db.comments && a.comment.id == b.comment.id ==> a == b)
    && (forall a, b :: a in db.reactions && b in db.reactions && a.reaction.id == b.reaction.id ==> a == b)
  }

  /** The `WHERE` clause: the request's own condition, not hidden, not reported by the reader. */
  predicate Showable(db: Db, reader: Option<UserId>, where: Comment -> bool, s: Stored) {
    && s in db.comments && where(s.comment) && !s.hidden
    && !(reader.Some? && (reader.value, s.comment.id) in db.reports)
  }

  function Visible(db: Db, reader: Option<UserId>, where: Comment -> bool): set<Comment> {
    set s | s in db.comments && Showable(db, reader, where, s) :: s.comment
  }

  /** The reader's reactions to a comment. Without a reader nothing is joined. */
  function OwnReactions(db: Db, reader: Option<UserId>, id: CommentId): set<Reaction> {
    set s | s in db.reactions && s.commentId == id && Some(s.createdBy) == reader :: s.reaction
  }

  /** `LEFT OUTER JOIN`. */
  predicate InJoin(db: Db, reader: Option<UserId>, comments: set<Comment>, row: Row) {
    && row.comment in comments
    && match row.reaction
       case None => OwnReactions(db, reader, row.comment.id) == {}
       case Some(reaction) => reaction in OwnReactions(db, reader, row.comment.id)
  }

  datatype Order = ASC | DESC

  predicate Before(order: Order, a: Comment, b: Comment) {
    match order case ASC => a.createdAt < b.createdAt case DESC => b.createdAt < a.createdAt
  }

  ghost predicate InOrder(order: Order, comments: seq<Comment>) {
    forall i, j :: 0 <= i < j < |comments| ==> !Before(order, comments[j], comments[i])
  }

  /** The joined rows as the query returns them: every row of the join once, `createdAt` in order, ties anyhow. */
  ghost predicate IsResult(db: Db, reader: Option<UserId>, comments: set<Comment>, order: Order, rows: seq<Row>) {
    && Distinct(rows)
    && (forall row :: row in rows <==> InJoin(db, reader, comments, row))
    && InOrder(order, RowComments(rows))
  }

  function RowComments(rows: seq<Row>): seq<Comment> {
    seq(|rows|, i requires 0 <= i < |rows| => rows[i].comment)
  }

  /** `ORDER BY created_at LIMIT n`: which of several equally old comments are taken is up to the database. */
  ghost predicate IsLimited(taken: seq<Comment>, from: set<Comment>, n: nat, order: Order) {
    && Distinct(taken)
    && (forall c :: c in taken ==> c in from)
    && |taken| == (if |from| <= n then |from| else n)
    && (forall c, v :: c in taken && v in from && v !in taken ==> !Before(order, v, c))
  }

  /** Of two equally old comments the database may take either. */
  lemma TiesAreFree(a: Comment, b: Comment, order: Order)
    requires a != b && a.createdAt == b.createdAt
    ensures IsLimited([a], {a, b}, 1, order) && IsLimited([b], {a, b}, 1, order)
    ensures InOrder(order, [a, b]) && InOrder(order, [b, a])
  {
    assert |{a, b}| == 2;
  }

  // ---------- what grouping makes of a query result ----------

  function Comments(list: seq<Grouped>): seq<Comment> {
    seq(|list|, i requires 0 <= i < |list| => list[i].comment)
  }

  /** The reader's reactions to the comment, each once. */
  ghost predicate ShowsOwn(db: Db, reader: Option<UserId>, g: Grouped) {
    && Distinct(g.ownerReactions)
    && forall r :: r in g.ownerReactions <==> r in OwnReactions(db, reader, g.comment.id)
  }

  lemma {:induction false} ReactionsAreRows(rows: seq<Row>, id: CommentId)
    ensures var rs := ReactionsOf(rows, id);
            && DistinctReactions(rs)
            && (forall r :: r in rs ==> exists row :: row in rows && row.comment.id == id && row.reaction == Some(r))
            && (forall row :: row in rows && row.comment.id == id && row.reaction.Some? ==>
                  HasReaction(rs, row.reaction.value.id))
  {
    if rows != [] {
      var init, last := rows[..|rows| - 1], rows[|rows| - 1];
      ReactionsAreRows(init, id);
      var before, rs := ReactionsOf(init, id), ReactionsOf(rows, id);
      assert forall row :: row in rows <==> row in init || row == last;
      forall x | HasReaction(before, x) ensures HasReaction(rs, x) {
        var i :| 0 <= i < |before| && before[i].id == x;
        assert rs[i] == before[i];
      }
      if last.comment.id == id && last.reaction.Some? {
        assert rs == before || rs[|before|] == last.reaction.value;
      }
    }
  }

  lemma GroupedShowsOwn(db: Db, reader: Option<UserId>, comments: set<Comment>, rows: seq<Row>, id: CommentId)
    requires ValidDb(db) && (forall a, b :: a in comments && b in comments && a.id == b.id ==> a == b)
    requires forall row :: row in rows <==> InJoin(db, reader, comments, row)
    requires HasRow(rows, id)
    ensures FirstComment(rows, id) in comments
    ensures ShowsOwn(db, reader, Grouped(FirstComment(rows, id), ReactionsOf(rows, id)))
  {
    var c, rs := FirstComment(rows, id), ReactionsOf(rows, id);
    var i :| 0 <= i < |rows| && rows[i].comment == c;
    assert rows[i] in rows;
    ReactionsAreRows(rows, id);
    assert Distinct(rs);
    forall r ensures r in rs <==> r in OwnReactions(db, reader, id) {
      if r in rs {
        var row :| row in rows && row.comment.id == id && row.reaction == Some(r);
        assert InJoin(db, reader, comments, row);
      }
      if r in OwnReactions(db, reader, id) {
        assert InJoin(db, reader, comments, Row(c, Some(r)));
        assert Row(c, Some(r)) in rows;
        var k :| 0 <= k < |rs| && rs[k].id == r.id;
        var row :| row in rows && row.comment.id == id && row.reaction == Some(rs[k]);
        assert InJoin(db, reader, comments, row);
      }
    }
  }

  lemma EveryCommentHasRow(db: Db, reader: Option<UserId>, comments: set<Comment>, rows: seq<Row>, c: Comment)
    requires forall row :: row in rows <==> InJoin(db, reader, comments, row)
    requires c in comments
    ensures HasRow(rows, c.id)
  {
    var own := OwnReactions(db, reader, c.id);
    var row := if own == {} then Row(c, None) else (var r :| r in own; Row(c, Some(r)));
    assert InJoin(db, reader, comments, row);
    assert row in rows;
  }

  /** Grouping a query result gives each joined comment once, with exactly the reader's reactions. */
  lemma GroupedResult(db: Db, reader: Option<UserId>, comments: set<Comment>, rows: seq<Row>)
    requires ValidDb(db) && (forall a, b :: a in comments && b in comments && a.id == b.id ==> a == b)
    requires forall row :: row in rows <==> InJoin(db, reader, comments, row)
    ensures DistinctComments(Group(rows))
    ensures forall c :: c in Comments(Group(rows)) <==> c in comments
    ensures forall g :: g in Group(rows) ==> ShowsOwn(db, reader, g)
  {
    GroupIsPerComment(rows);
    var list, ids := Group(rows), FirstIds(rows);
    forall i | 0 <= i < |list| ensures list[i].comment in comments && ShowsOwn(db, reader, list[i]) {
      assert ids[i] in ids;
      GroupedShowsOwn(db, reader, comments, rows, ids[i]);
    }
    forall c | c in comments ensures c in Comments(list) {
      EveryCommentHasRow(db, reader, comments, rows, c);
      var i :| 0 <= i < |ids| && ids[i] == c.id;
      assert Comments(list)[i] == c;
    }
  }

  lemma FirstsComeFromRows(rows: seq<Row>)
    ensures forall i :: 0 <= i < |Group(rows)| ==>
                          exists k :: 0 <= k < |rows| && rows[k].comment == Comments(Group(rows))[i]
  {
    GroupIsPerComment(rows);
    var ids := FirstIds(rows);
    forall i | 0 <= i < |Group(rows)|
      ensures exists k :: 0 <= k < |rows| && rows[k].comment == Comments(Group(rows))[i]
    {
      assert ids[i] in ids;
    }
  }

  lemma AddRowComments(result: seq<Grouped>, row: Row)
    ensures Comments(AddRow(result, row))
         == if HasComment(result, row.comment.id) then Comments(result) else Comments(result) + [row.comment]
  {
  }

  lemma {:induction false} GroupedInOrder(rows: seq<Row>, order: Order)
    requires InOrder(order, RowComments(rows))
    ensures InOrder(order, Comments(Group(rows)))
  {
    if rows != [] {
      var init, last := rows[..|rows| - 1], rows[|rows| - 1];
      assert forall i :: 0 <= i < |init| ==> RowComments(init)[i] == RowComments(rows)[i];
      GroupedInOrder(init, order);
      FirstsComeFromRows(init);
      var before := Comments(Group(init));
      forall i | 0 <= i < |before| ensures !Before(order, last.comment, before[i]) {
        var k :| 0 <= k < |init| && init[k].comment == before[i];
        assert RowComments(rows)[k] == before[i] && RowComments(rows)[|init|] == last.comment;
      }
      AddRowComments(Group(init), last);
    }
  }

  // ---------- pages ----------

  datatype Page = Page(list: seq<Grouped>, hasNextPage: bool)

  /** The service's cut of the comment list: the extra comment is dropped when it is there. */
  function CutAt(list: seq<Grouped>, limit: nat): Page {
    if |list| == limit + 1 then Page(list[..limit], true) else Page(list, false)
  }

  /** `_getComments`, from the rows on. */
  method GetCommentsPage(rows: seq<Row>, limit: nat) returns (page: Page)
    ensures page == CutAt(Group(rows), limit)
  {
    var childGrouped := GroupComments(rows);
    var hasNextPage := |childGrouped| == limit + 1;
    if hasNextPage {
      childGrouped := childGrouped[..|childGrouped| - 1];
    }
    page := Page(childGrouped, hasNextPage);
  }

  /**
   * A correct page: the first `limit` of the comments in the order, each once, with exactly the
   * reader's reactions; nothing left out comes strictly before anything shown.
   */
  ghost predicate IsPage(db: Db, reader: Option<UserId>, from: set<Comment>, order: Order, limit: nat, page: Page) {
    && |page.list| == (if |from| <= limit then |from| else limit)
    && DistinctComments(page.list)
    && (forall g :: g in page.list ==> g.comment in from && ShowsOwn(db, reader, g))
    && InOrder(order, Comments(page.list))
    && (forall g, v :: g in page.list && v in from && v !in Comments(page.list) ==> !Before(order, v, g.comment))
    && (page.hasNextPage <==> |from| > limit)
  }

  lemma SameLength(list: seq<Grouped>, taken: seq<Comment>)
    requires DistinctComments(list) && Distinct(taken)
    requires forall c :: c in Comments(list) <==> c in taken
    ensures |list| == |taken|
  {
    assert forall i :: 0 <= i < |list| ==> Comments(list)[i] == list[i].comment;
    assert Distinct(Comments(list));
    DistinctFits(Comments(list), taken);
    DistinctFits(taken, Comments(list));
  }

  /** A comment that a prefix of the taken comments leaves out is not strictly before any in the prefix. */
  lemma OmittedIsLater(comments: seq<Comment>, n: nat, taken: seq<Comment>, from: set<Comment>, order: Order,
                       i: nat, v: Comment)
    requires i < n <= |comments| && v in from && (forall j :: 0 <= j < n ==> comments[j] != v)
    requires InOrder(order, comments) && (forall c :: c in comments <==> c in taken)
    requires forall c, w :: c in taken && w in from && w !in taken ==> !Before(order, w, c)
    ensures !Before(order, v, comments[i])
  {
    assert comments[i] in taken;
    if v in taken {
      var j :| 0 <= j < |comments| && comments[j] == v;
    }
  }

  lemma PrefixMembers(db: Db, reader: Option<UserId>, list: seq<Grouped>, n: nat, taken: seq<Comment>,
                      from: set<Comment>)
    requires n <= |list| && (forall c :: c in Comments(list) <==> c in taken) && (forall c :: c in taken ==> c in from)
    requires forall g :: g in list ==> ShowsOwn(db, reader, g)
    ensures forall g :: g in list[..n] ==> g.comment in from && ShowsOwn(db, reader, g)
  {
    forall g | g in list[..n] ensures g.comment in from && ShowsOwn(db, reader, g) {
      var i :| 0 <= i < n && list[..n][i] == g;
      assert list[i] in list && Comments(list)[i] in Comments(list);
    }
  }

  lemma PrefixInOrder(list: seq<Grouped>, n: nat, order: Order)
    requires n <= |list| && DistinctComments(list) && InOrder(order, Comments(list))
    ensures DistinctComments(list[..n]) && InOrder(order, Comments(list[..n]))
  {
    assert forall i :: 0 <= i < n ==> Comments(list[..n])[i] == Comments(list)[i];
  }

  lemma PrefixOmits(list: seq<Grouped>, n: nat, taken: seq<Comment>, from: set<Comment>, order: Order,
                    g: Grouped, v: Comment)
    requires n <= |list| && InOrder(order, Comments(list)) && (forall c :: c in Comments(list) <==> c in taken)
    requires forall c, w :: c in taken && w in from && w !in taken ==> !Before(order, w, c)
    requires g in list[..n] && v in from && v !in Comments(list[..n])
    ensures !Before(order, v, g.comment)
  {
    var i :| 0 <= i < n && list[..n][i] == g;
    assert forall j :: 0 <= j < n ==> Comments(list[..n])[j] == Comments(list)[j];
    OmittedIsLater(Comments(list), n, taken, from, order, i, v);
  }

  /** Cutting an ordered list of the `limit + 1` first comments leaves the `limit` first. */
  lemma CutIsPage(db: Db, reader: Option<UserId>, list: seq<Grouped>, taken: seq<Comment>, from: set<Comment>,
                  order: Order, limit: nat)
    requires IsLimited(taken, from, limit + 1, order)
    requires DistinctComments(list) && (forall c :: c in Comments(list) <==> c in taken)
    requires forall g :: g in list ==> ShowsOwn(db, reader, g)
    requires InOrder(order, Comments(list))
    ensures IsPage(db, reader, from, order, limit, CutAt(list, limit))
    ensures |list| <= limit + 1
  {
    SameLength(list, taken);
    var page := CutAt(list, limit);
    var n := |page.list|;
    assert page.list == list[..n];
    PrefixMembers(db, reader, list, n, taken, from);
    PrefixInOrder(list, n, order);
    forall g, v | g in page.list && v in from && v !in Comments(page.list) ensures !Before(order, v, g.comment) {
      PrefixOmits(list, n, taken, from, order, g, v);
    }
  }

  /**
   * The page against the stored rows `wanted`: each shown comment is the comment of a wanted row, each once; no wanted
   * row that is left out is newer (with the newest first) or older (with the oldest first) than a shown one; the shown
   * reactions are the reader's own rows for that comment; and there is a next page exactly when more than `limit` rows
   * are wanted.
   */
  ghost predicate IsPageOfRows(db: Db, reader: Option<UserId>, wanted: set<Stored>, newestFirst: bool, limit: nat,
                               page: Page)
  {
    && |page.list| == (if |wanted| <= limit then |wanted| else limit)
    && (page.hasNextPage <==> |wanted| > limit)
    && (forall i, j :: 0 <= i < j < |page.list| ==> page.list[i].comment.id != page.list[j].comment.id)
    && (forall i, j :: 0 <= i < j < |page.list| ==>
          NotLater(newestFirst, page.list[i].comment.createdAt, page.list[j].comment.createdAt))
    && (forall g :: g in page.list ==> exists s :: s in wanted && s.comment == g.comment)
    && (forall g, s :: g in page.list && s in wanted && (forall h :: h in page.list ==> h.comment != s.comment) ==>
          NotLater(newestFirst, g.comment.createdAt, s.comment.createdAt))
    && (forall g :: g in page.list ==> Distinct(g.ownerReactions))
    && (forall g, r :: g in page.list ==>
          (r in g.ownerReactions <==>
           reader.Some? && StoredReaction(g.comment.id, reader.value, r) in db.reactions))
  }

  /** The first moment may come before the second in the order. */
  predicate NotLater(newestFirst: bool, first: int, second: int) {
    if newestFirst then second <= first else first <= second
  }

  lemma {:induction false} CommentCount(rows: set<Stored>, comments: set<Comment>)
    requires forall a, b :: a in rows && b in rows && a.comment.id == b.comment.id ==> a == b
    requires forall c :: c in comments <==> exists s :: s in rows && s.comment == c
    ensures |rows| == |comments|
    decreases rows
  {
    if rows != {} {
      var s :| s in rows;
      assert s.comment in comments;
      forall c ensures c in comments - {s.comment} <==> exists t :: t in rows - {s} && t.comment == c {
        if c in comments - {s.comment} {
          var t :| t in rows && t.comment == c;
          assert t in rows - {s};
        }
      }
      CommentCount(rows - {s}, comments - {s.comment});
    } else {
      assert comments == {};
    }
  }

  lemma WantedRows(db: Db, reader: Option<UserId>, where: Comment -> bool, wanted: set<Stored>)
    requires ValidDb(db) && forall s :: s in wanted <==> Showable(db, reader, where, s)
    ensures forall c :: c in Visible(db, reader, where) <==> exists s :: s in wanted && s.comment == c
    ensures |wanted| == |Visible(db, reader, where)|
  {
    forall c ensures c in Visible(db, reader, where) <==> exists s :: s in wanted && s.comment == c {
      if c in Visible(db, reader, where) {
        var s :| s in db.comments && Showable(db, reader, where, s) && s.comment == c;
      }
      if exists s :: s in wanted && s.comment == c {
        var s :| s in wanted && s.comment == c;
        assert Showable(db, reader, where, s);
      }
    }
    CommentCount(wanted, Visible(db, reader, where));
  }

  lemma ReactionsOfReader(db: Db, reader: Option<UserId>, id: CommentId, r: Reaction)
    ensures r in OwnReactions(db, reader, id) <==> reader.Some? && StoredReaction(id, reader.value, r) in db.reactions
  {
    if reader.Some? && StoredReaction(id, reader.value, r) in db.reactions {
      var s := StoredReaction(id, reader.value, r);
      assert s.reaction == r && Some(s.createdBy) == reader;
    }
  }

  lemma OrderOfRows(comments: seq<Comment>, list: seq<Grouped>, order: Order, i: nat, j: nat)
    requires comments == Comments(list) && InOrder(order, comments) && i < j < |list|
    ensures NotLater(order.DESC?, list[i].comment.createdAt, list[j].comment.createdAt)
  {
    assert comments[i] == list[i].comment && comments[j] == list[j].comment;
  }

  /** A correct page of the visible comments is a correct page of the stored rows. */
  lemma PageOfRows(db: Db, reader: Option<UserId>, where: Comment -> bool, wanted: set<Stored>, order: Order,
                   limit: nat, page: Page)
    requires ValidDb(db) && forall s :: s in wanted <==> Showable(db, reader, where, s)
    requires IsPage(db, reader, Visible(db, reader, where), order, limit, page)
    ensures IsPageOfRows(db, reader, wanted, order.DESC?, limit, page)
  {
    var from := Visible(db, reader, where);
    WantedRows(db, reader, where, wanted);
    forall i, j | 0 <= i < j < |page.list|
      ensures NotLater(order.DESC?, page.list[i].comment.createdAt, page.list[j].comment.createdAt)
    {
      OrderOfRows(Comments(page.list), page.list, order, i, j);
    }
    forall g, r | g in page.list
      ensures r in g.ownerReactions <==> reader.Some? && StoredReaction(g.comment.id, reader.value, r) in db.reactions
    {
      ReactionsOfReader(db, reader, g.comment.id, r);
    }
    forall g, s | g in page.list && s in wanted && (forall h :: h in page.list ==> h.comment != s.comment)
      ensures NotLater(order.DESC?, g.comment.createdAt, s.comment.createdAt)
    {
      LeftOut(page.list, s.comment);
      assert s.comment in from;
    }
  }

  lemma LeftOut(list: seq<Grouped>, c: Comment)
    requires forall h :: h in list ==> h.comment != c
    ensures c !in Comments(list)
  {
    forall i | 0 <= i < |list| ensures Comments(list)[i] != c {
      assert list[i] in list;
    }
  }

  lemma VisibleIdsDiffer(db: Db, reader: Option<UserId>, where: Comment -> bool)
    requires ValidDb(db)
    ensures forall a, b :: a in Visible(db, reader, where) && b in Visible(db, reader, where) && a.id == b.id ==> a == b
  {
  }

  /**
   * With the `limit + 1` query the page is the first `limit` visible comments, and `hasNextPage` holds
   * exactly when there are more, whatever the database does with equally old comments and rows.
   */
  lemma PageIsFirst(db: Db, reader: Option<UserId>, where: Comment -> bool, order: Order, limit: nat,
                    taken: seq<Comment>, rows: seq<Row>, wanted: set<Stored>)
    requires ValidDb(db)
    requires wanted == set s | s in db.comments && where(s.comment) && !s.hidden
                               && !(reader.Some? && (reader.value, s.comment.id) in db.reports)
    requires IsLimited(taken, Visible(db, reader, where), limit + 1, order)
    requires IsResult(db, reader, Elems(taken), order, rows)
    ensures IsPage(db, reader, Visible(db, reader, where), order, limit, CutAt(Group(rows), limit))
    ensures IsPageOfRows(db, reader, wanted, order.DESC?, limit, CutAt(Group(rows), limit))
  {
    VisibleIdsDiffer(db, reader, where);
    GroupedResult(db, reader, Elems(taken), rows);
    GroupedInOrder(rows, order);
    CutIsPage(db, reader, Group(rows), taken, Visible(db, reader, where), order, limit);
    PageOfRows(db, reader, where, wanted, order, limit, CutAt(Group(rows), limit));
  }

  // ---------- replies ----------

  function RepliesTo(parent: CommentId): Comment -> bool {
    (c: Comment) => c.parentId == parent
  }

  /** The grouped comments that reply to `parent`, in their order. */
  function ChildrenOf(list: seq<Grouped>, parent: CommentId): (r: seq<Grouped>)
    ensures forall g :: g in r <==> g in list && g.comment.parentId == parent
  {
    if list == [] then []
    else
      var init, last := list[..|list| - 1], list[|list| - 1];
      assert forall g :: g in list <==> g in init || g == last;
      if last.comment.parentId == parent then ChildrenOf(init, parent) + [last] else ChildrenOf(init, parent)
  }

  /** The cut of a reply list. */
  function CutOver(list: seq<Grouped>, limit: nat): Page {
    if |list| > limit then Page(list[..|list| - 1], true) else Page(list, false)
  }

  /** Of at most one comment too many both cuts make the same page. */
  lemma CutsAgree(list: seq<Grouped>, limit: nat)
    requires |list| <= limit + 1
    ensures CutOver(list, limit) == CutAt(list, limit)
  {
  }

  class CommentNode {
    const id: CommentId
    var child: Option<Page>

    constructor (id: CommentId)
      ensures this.id == id && child == None
    {
      this.id, child := id, None;
    }
  }

  /** One turn of the loop: the comment's own replies, cut. */
  method ChildPage(childFormatted: seq<Grouped>, id: CommentId, limit: nat) returns (page: Page)
    ensures page == CutOver(ChildrenOf(childFormatted, id), limit)
  {
    var childList := ChildrenOf(childFormatted, id);
    var hasNextPage := |childList| > limit;
    if hasNextPage {
      childList := childList[..|childList| - 1];
    }
    page := Page(childList, hasNextPage);
  }

  predicate HasChildPage(comment: CommentNode, childFormatted: seq<Grouped>, limit: nat)
    reads comment
  {
    comment.child == Some(CutOver(ChildrenOf(childFormatted, comment.id), limit))
  }

  /** `bindChildrenToComment`, from the rows on. */
  method BindChildrenToComment(comments: seq<CommentNode>, rows: seq<Row>, limit: nat)
    modifies comments
    ensures forall comment :: comment in comments ==> HasChildPage(comment, Group(rows), limit)
  {
    var childFormatted := GroupComments(rows);
    for i := 0 to |comments|
      invariant forall j :: 0 <= j < i ==> HasChildPage(comments[j], childFormatted, limit)
    {
      var page := ChildPage(childFormatted, comments[i].id, limit);
      comments[i].child := Some(page);
    }
  }

  lemma {:induction false} ChildrenKeepOrder(list: seq<Grouped>, parent: CommentId, order: Order)
    requires DistinctComments(list) && InOrder(order, Comments(list))
    ensures DistinctComments(ChildrenOf(list, parent)) && InOrder(order, Comments(ChildrenOf(list, parent)))
  {
    if list != [] {
      var init, last := list[..|list| - 1], list[|list| - 1];
      assert forall i :: 0 <= i < |init| ==> Comments(init)[i] == Comments(list)[i];
      ChildrenKeepOrder(init, parent, order);
      var before := ChildrenOf(init, parent);
      forall g | g in before ensures g.comment.id != last.comment.id && !Before(order, last.comment, g.comment) {
        var i :| 0 <= i < |init| && init[i] == g;
        assert list[i] == g && Comments(list)[i] == g.comment && Comments(list)[|init|] == last.comment;
      }
      AppendKeepsOrder(before, last, order);
    }
  }

  lemma AppendKeepsOrder(before: seq<Grouped>, last: Grouped, order: Order)
    requires DistinctComments(before) && InOrder(order, Comments(before))
    requires forall g :: g in before ==> g.comment.id != last.comment.id && !Before(order, last.comment, g.comment)
    ensures DistinctComments(before + [last]) && InOrder(order, Comments(before + [last]))
  {
    assert Comments(before + [last]) == Comments(before) + [last.comment];
    assert forall i :: 0 <= i < |before| ==> before[i] in before && Comments(before)[i] == before[i].comment;
  }

  /** One list of newest replies for each listed parent. */
  ghost predicate AreReplyLists(db: Db, reader: Option<UserId>, parents: seq<CommentId>, limit: nat,
                                lists: seq<seq<Comment>>) {
    && |lists| == |parents|
    && forall i :: 0 <= i < |parents| ==>
                     IsLimited(lists[i], Visible(db, reader, RepliesTo(parents[i])), limit + 1, DESC)
  }

  /** `UNION ALL` of the lists. */
  function Union(lists: seq<seq<Comment>>): (all: set<Comment>)
    ensures forall c :: c in all <==> exists i :: 0 <= i < |lists| && c in lists[i]
  {
    if lists == [] then {}
    else
      var init := lists[..|lists| - 1];
      var all := Union(init) + Elems(lists[|lists| - 1]);
      assert forall c, i :: 0 <= i < |init| && c in init[i] ==> c in lists[i];
      all
  }

  lemma UnionOfVisible(db: Db, reader: Option<UserId>, parents: seq<CommentId>, limit: nat, lists: seq<seq<Comment>>)
    requires ValidDb(db) && Distinct(parents) && AreReplyLists(db, reader, parents, limit, lists)
    ensures forall a, b :: a in Union(lists) && b in Union(lists) && a.id == b.id ==> a == b
    ensures forall i, c :: 0 <= i < |parents| ==> (c in Union(lists) && c.parentId == parents[i] <==> c in lists[i])
  {
    forall i, c | 0 <= i < |parents| && c in lists[i]
      ensures c.parentId == parents[i] && exists s :: s in db.comments && s.comment == c
    {
      assert c in Visible(db, reader, RepliesTo(parents[i]));
    }
  }

  /** The replies of one listed comment, against the visible replies to it. */
  lemma RepliesAreVisible(db: Db, reader: Option<UserId>, parents: seq<CommentId>, limit: nat,
                          lists: seq<seq<Comment>>, rows: seq<Row>, i: nat)
    requires ValidDb(db) && Distinct(parents) && i < |parents|
    requires AreReplyLists(db, reader, parents, limit, lists)
    requires IsResult(db, reader, Union(lists), DESC, rows)
    ensures IsPage(db, reader, Visible(db, reader, RepliesTo(parents[i])), DESC, limit,
                   CutOver(ChildrenOf(Group(rows), parents[i]), limit))
  {
    UnionOfVisible(db, reader, parents, limit, lists);
    GroupedResult(db, reader, Union(lists), rows);
    GroupedInOrder(rows, DESC);
    ChildrenKeepOrder(Group(rows), parents[i], DESC);
    var list := ChildrenOf(Group(rows), parents[i]);
    forall c ensures c in Comments(list) <==> c in lists[i] {
      ChildComments(Group(rows), parents[i], c);
    }
    CutIsPage(db, reader, list, lists[i], Visible(db, reader, RepliesTo(parents[i])), DESC, limit);
    CutsAgree(list, limit);
  }

  /** The rows of `comments` that may be shown as replies to a comment. */
  ghost predicate AreReplyRows(wanted: set<Stored>, db: Db, reader: Option<UserId>, parent: CommentId) {
    forall s :: s in wanted <==>
                  && s in db.comments && s.comment.parentId == parent && s.hidden == false
                  && (reader.Some? ==> (reader.value, s.comment.id) !in db.reports)
  }

  /**
   * Every comment on the page gets its own newest `limit` visible replies, although the replies of all
   * of them come back in one result ordered by time and are grouped together.
   */
  lemma RepliesArePages(db: Db, reader: Option<UserId>, parents: seq<CommentId>, limit: nat,
                        lists: seq<seq<Comment>>, rows: seq<Row>, i: nat, wanted: set<Stored>)
    requires ValidDb(db) && Distinct(parents) && i < |parents|
    requires AreReplyRows(wanted, db, reader, parents[i])
    requires AreReplyLists(db, reader, parents, limit, lists)
    requires IsResult(db, reader, Union(lists), DESC, rows)
    ensures IsPage(db, reader, Visible(db, reader, RepliesTo(parents[i])), DESC, limit,
                   CutOver(ChildrenOf(Group(rows), parents[i]), limit))
    ensures IsPageOfRows(db, reader, wanted, true, limit, CutOver(ChildrenOf(Group(rows), parents[i]), limit))
  {
    RepliesAreVisible(db, reader, parents, limit, lists, rows, i);
    PageOfRows(db, reader, RepliesTo(parents[i]), wanted, DESC, limit,
               CutOver(ChildrenOf(Group(rows), parents[i]), limit));
  }

  lemma ChildComments(list: seq<Grouped>, parent: CommentId, c: Comment)
    ensures c in Comments(ChildrenOf(list, parent)) <==> c in Comments(list) && c.parentId == parent
  {
    var children := ChildrenOf(list, parent);
    if c in Comments(children) {
      var i :| 0 <= i < |children| && Comments(children)[i] == c;
      assert children[i] in children;
      var j :| 0 <= j < |list| && list[j] == children[i];
      assert Comments(list)[j] == c;
    }
    if c in Comments(list) && c.parentId == parent {
      var i :| 0 <= i < |list| && Comments(list)[i] == c;
      assert list[i] in children;
      var j :| 0 <= j < |children| && children[j] == list[i];
      assert Comments(children)[j] == c;
    }
  }
}

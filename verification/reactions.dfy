/** The `create_post_reaction` procedure: a post carries at most 21 kinds of reaction. */
module Reactions {
  import opened Ids

  const MAXIMUM_KIND_REACTION: nat := 20

  /** A row of `posts_reactions`; `id` is the generated key. */
  datatype Reaction = Reaction(id: nat, post: PostId, name: string, user: UserId)

  datatype Outcome = KindLimit | Duplicate | Created

  function Kinds(rows: set<Reaction>, post: PostId): set<string> {
    set r | r in rows && r.post == post :: r.name
  }

  /** The row clashes with the primary key or with the unique index over post, reaction name and user. */
  predicate ViolatesKey(rows: set<Reaction>, r: Reaction) {
    exists x :: x in rows && (x.id == r.id || (x.post == r.post && x.name == r.name && x.user == r.user))
  }

  function OutcomeOf(rows: set<Reaction>, r: Reaction): Outcome {
    if |Kinds(rows, r.post) - {r.name}| > MAXIMUM_KIND_REACTION then KindLimit
    else if ViolatesKey(rows, r) then Duplicate
    else Created
  }

  datatype Step = Create(reaction: Reaction) | Delete(id: nat)

  function Next(rows: set<Reaction>, step: Step): set<Reaction> {
    match step
    case Create(r) => if OutcomeOf(rows, r).Created? then rows + {r} else rows
    case Delete(id) => set r | r in rows && r.id != id
  }

  function Run(rows: set<Reaction>, steps: seq<Step>): set<Reaction>
    decreases |steps|
  {
    if steps == [] then rows else Run(Next(rows, steps[0]), steps[1..])
  }

  ghost predicate Bounded(rows: set<Reaction>) {
    forall post :: |Kinds(rows, post)| <= MAXIMUM_KIND_REACTION + 1
  }

  /** No user has the same reaction to a post twice. */
  ghost predicate Unique(rows: set<Reaction>) {
    forall x, y :: x in rows && y in rows && x.post == y.post && x.name == y.name && x.user == y.user ==> x == y
  }

  /** A create changes nothing or adds exactly its row; a delete takes exactly the row of its id. */
  lemma StepRows(rows: set<Reaction>, step: Step, x: Reaction)
    ensures step.Create? ==>
              (x in Next(rows, step) <==> x in rows || (x == step.reaction && OutcomeOf(rows, x).Created?))
    ensures step.Delete? ==> (x in Next(rows, step) <==> x in rows && x.id != step.id)
  {
  }

  /** On a table a run can reach, a reaction is stored if and only if its id is fresh, the same user has not the same
      reaction to the post already, and its kind is on the post or the post has fewer than 21 kinds. */
  lemma AcceptedIff(rows: set<Reaction>, r: Reaction)
    requires forall post :: |Kinds(rows, post)| <= 21
    ensures OutcomeOf(rows, r).Created? <==>
            && (forall x :: x in rows ==> x.id != r.id)
            && (forall x :: x in rows && x.post == r.post && x.user == r.user ==> x.name != r.name)
            && ((exists x :: x in rows && x.post == r.post && x.name == r.name) || |Kinds(rows, r.post)| < 21)
  {
    RefusedIff(rows, r);
    assert |Kinds(rows, r.post)| <= 21;
    assert r.name in Kinds(rows, r.post) <==> exists x :: x in rows && x.post == r.post && x.name == r.name;
  }

  /** A user's earlier reactions with other kinds are no reason to refuse a further kind: with room on the post it is
      stored beside them. */
  lemma FurtherKindIsAccepted(rows: set<Reaction>, r: Reaction)
    requires (forall post :: |Kinds(rows, post)| <= 21) && |Kinds(rows, r.post)| < 21
    requires forall x :: x in rows ==> x.id != r.id
    requires forall x :: x in rows && x.post == r.post && x.user == r.user ==> x.name != r.name
    ensures Next(rows, Create(r)) == rows + {r}
  {
    AcceptedIff(rows, r);
  }

  lemma {:induction false} SubsetIsSmaller<T>(a: set<T>, b: set<T>)
    requires a <= b
    ensures |a| <= |b|
  {
    if a != {} {
      var x :| x in a;
      SubsetIsSmaller(a - {x}, b - {x});
    }
  }

  lemma StepKeepsUnique(rows: set<Reaction>, step: Step)
    requires Unique(rows)
    ensures Unique(Next(rows, step))
  {
  }

  lemma StepKeepsBounded(rows: set<Reaction>, step: Step)
    requires Bounded(rows)
    ensures Bounded(Next(rows, step))
  {
    var after := Next(rows, step);
    forall post ensures |Kinds(after, post)| <= MAXIMUM_KIND_REACTION + 1 {
      if step.Create? && OutcomeOf(rows, step.reaction).Created? && step.reaction.post == post {
        var others := Kinds(rows, post) - {step.reaction.name};
        assert Kinds(after, post) == others + {step.reaction.name} by {
          assert step.reaction in after;
          assert forall r :: r in rows ==> r in after;
        }
      } else {
        assert Kinds(after, post) <= Kinds(rows, post);
        SubsetIsSmaller(Kinds(after, post), Kinds(rows, post));
      }
    }
  }

  /** Over every serial run of creates and deletes each post keeps at most 21 kinds, and no (post, name, user) twice. */
  lemma {:induction false} RunsStayBounded(rows: set<Reaction>, steps: seq<Step>)
    requires Bounded(rows) && Unique(rows)
    ensures Bounded(Run(rows, steps)) && Unique(Run(rows, steps))
    decreases |steps|
  {
    if steps != [] {
      StepKeepsBounded(rows, steps[0]);
      StepKeepsUnique(rows, steps[0]);
      RunsStayBounded(Next(rows, steps[0]), steps[1..]);
    }
  }

  /** A user can react with a kind the post already has unless they already did: the kind check never refuses it. */
  lemma KnownKindIsAccepted(rows: set<Reaction>, r: Reaction)
    requires Bounded(rows) && r.name in Kinds(rows, r.post) && !ViolatesKey(rows, r)
    ensures r in Next(rows, Create(r))
  {
    RefusedIff(rows, r);
  }

  /** In a bounded table the kind check refuses exactly a new kind on a post that already has all 21. */
  lemma RefusedIff(rows: set<Reaction>, r: Reaction)
    requires Bounded(rows)
    ensures OutcomeOf(rows, r).KindLimit?
            <==> r.name !in Kinds(rows, r.post) && |Kinds(rows, r.post)| == MAXIMUM_KIND_REACTION + 1
  {
    var kinds := Kinds(rows, r.post);
    if r.name in kinds {
      assert kinds == (kinds - {r.name}) + {r.name};
    } else {
      assert kinds - {r.name} == kinds;
    }
  }

  class ReactionTable {
    var rows: set<Reaction>

    constructor ()
      ensures rows == {} && Bounded(rows) && Unique(rows)
    {
      rows := {};
      new;
      assert forall post :: Kinds({}, post) == {};
    }

    /** The procedure with the generated `id`; the keys of the table refuse a repeated row. */
    method CreatePostReaction(id: nat, postId: PostId, createdBy: UserId, reactionName: string)
      returns (outcome: Outcome)
      modifies this
      ensures outcome == OutcomeOf(old(rows), Reaction(id, postId, reactionName, createdBy))
      ensures rows == Next(old(rows), Create(Reaction(id, postId, reactionName, createdBy)))
      ensures !outcome.Created? ==> rows == old(rows)
    {
      var flag := set r | r in rows && r.post == postId && r.name != reactionName :: r.name;
      assert flag == Kinds(rows, postId) - {reactionName};
      var canReact := 0;
      canReact := if |flag| <= MAXIMUM_KIND_REACTION then 1 else 0;
      if canReact == 0 {
        return KindLimit;
      }
      var row := Reaction(id, postId, reactionName, createdBy);
      if ViolatesKey(rows, row) {
        return Duplicate;
      }
      rows := rows + {row};
      return Created;
    }
  }
}

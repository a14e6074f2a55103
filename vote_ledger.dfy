/** The `votes: { upvotes, downvotes }` pair and `voteCount` that Question,
    Answer and Comment each carry, and what `addVote`, `removeVote`,
    `calculateVoteCount` and `hasUserVoted` do to it. The three schemas
    define these methods identically; they are defined once here. */
module VoteLedger {
  import opened Common
  import opened Seqs

  datatype Votes = Votes(upvotes: seq<UserId>, downvotes: seq<UserId>)

  /** The lists of a document that nobody has voted on. */
  const NoVotes: Votes := Votes([], [])

  /** The `voteType` values the route validators and `addVote` recognise. */
  predicate IsVoteType(voteType: string) {
    voteType == "upvote" || voteType == "downvote"
  }

  /** `calculateVoteCount`. */
  function Score(v: Votes): int {
    |v.upvotes| - |v.downvotes|
  }

  /** `hasUserVoted`: (hasUpvoted, hasDownvoted). */
  function HasUserVoted(v: Votes, u: UserId): (bool, bool) {
    (u in v.upvotes, u in v.downvotes)
  }

  /** The lists after `addVote(u, voteType)`: for an upvote, `u` is filtered
      out of the downvotes and pushed onto the upvotes unless already there;
      symmetrically for a downvote; any other type leaves both lists alone. */
  function Cast(v: Votes, u: UserId, voteType: string): Votes {
    if voteType == "upvote" then
      Votes(if u in v.upvotes then v.upvotes else v.upvotes + [u], Without(v.downvotes, u))
    else if voteType == "downvote" then
      Votes(Without(v.upvotes, u), if u in v.downvotes then v.downvotes else v.downvotes + [u])
    else v
  }

  /** The lists after `removeVote(u)`. */
  function Retract(v: Votes, u: UserId): Votes {
    Votes(Without(v.upvotes, u), Without(v.downvotes, u))
  }

  /** No voter listed twice and nobody in both lists. */
  predicate WellFormed(v: Votes) {
    && NoDup(v.upvotes)
    && NoDup(v.downvotes)
    && forall x :: x in v.upvotes ==> x !in v.downvotes
  }

  /** `a` (typically the document's author) appears in neither list. */
  predicate Excludes(v: Votes, a: UserId) {
    a !in v.upvotes && a !in v.downvotes
  }

  /** After an upvote, `u` is an upvoter and not a downvoter; it was pushed
      exactly once unless it was already present. */
  lemma CastUpvote(v: Votes, u: UserId)
    ensures var r := Cast(v, u, "upvote");
      && u in r.upvotes && u !in r.downvotes
      && Count(r.upvotes, u) == if u in v.upvotes then Count(v.upvotes, u) else 1
  {
    if u !in v.upvotes {
      CountAppend(v.upvotes, u, u);
    }
  }

  lemma CastDownvote(v: Votes, u: UserId)
    ensures var r := Cast(v, u, "downvote");
      && u in r.downvotes && u !in r.upvotes
      && Count(r.downvotes, u) == if u in v.downvotes then Count(v.downvotes, u) else 1
  {
    if u !in v.downvotes {
      CountAppend(v.downvotes, u, u);
    }
  }

  /** On well-formed lists, a vote leaves `u` exactly once in the requested
      list and nowhere in the other. */
  lemma CastExactlyOnce(v: Votes, u: UserId, voteType: string)
    requires WellFormed(v) && IsVoteType(voteType)
    ensures var r := Cast(v, u, voteType);
      if voteType == "upvote" then Count(r.upvotes, u) == 1 && u !in r.downvotes
      else Count(r.downvotes, u) == 1 && u !in r.upvotes
  {
    if voteType == "upvote" {
      CastUpvote(v, u);
      if u in v.upvotes { NoDupCount(v.upvotes, u); }
    } else {
      CastDownvote(v, u);
      if u in v.downvotes { NoDupCount(v.downvotes, u); }
    }
  }

  /** Casting the same vote twice gives the lists of casting it once. */
  lemma CastIdempotent(v: Votes, u: UserId, voteType: string)
    ensures Cast(Cast(v, u, voteType), u, voteType) == Cast(v, u, voteType)
  {
    var r := Cast(v, u, voteType);
    if voteType == "upvote" {
      WithoutIdempotent(v.downvotes, u);
      assert u in r.upvotes;
    } else if voteType == "downvote" {
      WithoutIdempotent(v.upvotes, u);
      assert u in r.downvotes;
    }
  }

  /** A vote by `u` leaves every other voter's entries, with their
      multiplicities, as they were. */
  lemma CastOthersUnchanged(v: Votes, u: UserId, voteType: string, x: UserId)
    requires x != u
    ensures Count(Cast(v, u, voteType).upvotes, x) == Count(v.upvotes, x)
    ensures Count(Cast(v, u, voteType).downvotes, x) == Count(v.downvotes, x)
  {
    if voteType == "upvote" {
      WithoutCount(v.downvotes, u, x);
      if u !in v.upvotes { CountAppend(v.upvotes, u, x); }
    } else if voteType == "downvote" {
      WithoutCount(v.upvotes, u, x);
      if u !in v.downvotes { CountAppend(v.downvotes, u, x); }
    }
  }

  /** A `voteType` other than "upvote" or "downvote" changes neither list. */
  lemma CastUnknownType(v: Votes, u: UserId, voteType: string)
    requires !IsVoteType(voteType)
    ensures Cast(v, u, voteType) == v
  {
  }

  /** Well-formed lists stay well-formed under a vote. */
  lemma CastWellFormed(v: Votes, u: UserId, voteType: string)
    requires WellFormed(v)
    ensures WellFormed(Cast(v, u, voteType))
  {
    if voteType == "upvote" {
      NoDupWithout(v.downvotes, u);
      if u !in v.upvotes { NoDupAppend(v.upvotes, u); }
    } else if voteType == "downvote" {
      NoDupWithout(v.upvotes, u);
      if u !in v.downvotes { NoDupAppend(v.downvotes, u); }
    }
  }

  /** A vote by someone else keeps the author out of both lists. */
  lemma CastExcludes(v: Votes, u: UserId, voteType: string, a: UserId)
    requires Excludes(v, a) && a != u
    ensures Excludes(Cast(v, u, voteType), a)
  {
  }

  /** How a vote moves the score of well-formed lists: an upvote adds one,
      plus one more if it replaces a downvote, and nothing if `u` already
      upvoted; symmetrically for a downvote. */
  lemma CastScore(v: Votes, u: UserId, voteType: string)
    requires WellFormed(v)
    ensures voteType == "upvote" ==>
      Score(Cast(v, u, voteType)) == Score(v) + (if u in v.upvotes then 0 else 1) + (if u in v.downvotes then 1 else 0)
    ensures voteType == "downvote" ==>
      Score(Cast(v, u, voteType)) == Score(v) - (if u in v.downvotes then 0 else 1) - (if u in v.upvotes then 1 else 0)
  {
    if u in v.downvotes { NoDupCount(v.downvotes, u); }
    if u in v.upvotes { NoDupCount(v.upvotes, u); }
  }

  /** After `removeVote(u)`, `u` is in neither list, and every other voter
      keeps its entries. */
  lemma RetractClears(v: Votes, u: UserId, x: UserId)
    ensures Excludes(Retract(v, u), u)
    ensures x != u ==> Count(Retract(v, u).upvotes, x) == Count(v.upvotes, x)
    ensures x != u ==> Count(Retract(v, u).downvotes, x) == Count(v.downvotes, x)
  {
    WithoutCount(v.upvotes, u, x);
    WithoutCount(v.downvotes, u, x);
  }

  lemma RetractWellFormed(v: Votes, u: UserId)
    requires WellFormed(v)
    ensures WellFormed(Retract(v, u))
  {
    NoDupWithout(v.upvotes, u);
    NoDupWithout(v.downvotes, u);
  }

  /** On well-formed lists, retracting takes back exactly `u`'s one vote. */
  lemma RetractScore(v: Votes, u: UserId)
    requires WellFormed(v)
    ensures Score(Retract(v, u)) == Score(v) - (if u in v.upvotes then 1 else 0) + (if u in v.downvotes then 1 else 0)
  {
    if u in v.downvotes { NoDupCount(v.downvotes, u); }
    if u in v.upvotes { NoDupCount(v.upvotes, u); }
  }

  lemma RetractIdempotent(v: Votes, u: UserId)
    ensures Retract(Retract(v, u), u) == Retract(v, u)
  {
    WithoutIdempotent(v.upvotes, u);
    WithoutIdempotent(v.downvotes, u);
  }

  /** `hasUserVoted` never reports both flags on well-formed lists. */
  lemma NeverBothFlags(v: Votes, u: UserId)
    requires WellFormed(v)
    ensures !(HasUserVoted(v, u).0 && HasUserVoted(v, u).1)
  {
  }

  /** The vote fields of a document agree: well-formed lists, a `voteCount`
      equal to their score, and the author on neither side. */
  predicate Consistent(v: Votes, voteCount: int, author: UserId) {
    WellFormed(v) && voteCount == Score(v) && Excludes(v, author)
  }

  /** A vote by anyone but the author, with the count recomputed, keeps the
      fields consistent. */
  lemma CastConsistent(v: Votes, voteCount: int, author: UserId, u: UserId, voteType: string)
    requires Consistent(v, voteCount, author) && u != author
    ensures Consistent(Cast(v, u, voteType), Score(Cast(v, u, voteType)), author)
  {
    CastWellFormed(v, u, voteType);
  }

  lemma RetractConsistent(v: Votes, voteCount: int, author: UserId, u: UserId)
    requires Consistent(v, voteCount, author)
    ensures Consistent(Retract(v, u), Score(Retract(v, u)), author)
  {
    RetractWellFormed(v, u);
  }

  /** The lists that a sequence of `addVote(u, t)` calls builds from empty lists. */
  function Replay(calls: seq<(UserId, string)>): Votes
  {
    if calls == [] then NoVotes
    else Cast(Replay(calls[..|calls| - 1]), calls[|calls| - 1].0, calls[|calls| - 1].1)
  }

  lemma {:induction false} ReplayWellFormed(calls: seq<(UserId, string)>)
    ensures WellFormed(Replay(calls))
  {
    if calls != [] {
      ReplayWellFormed(calls[..|calls| - 1]);
      CastWellFormed(Replay(calls[..|calls| - 1]), calls[|calls| - 1].0, calls[|calls| - 1].1);
    }
  }
}

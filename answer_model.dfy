/** The Answer schema: stored fields and defaults, the vote methods it shares
    with Question, and `acceptAnswer`/`unacceptAnswer`. */
module AnswerModel {
  import opened Common
  import opened VoteLedger

  /** A stored answer document. */
  datatype AnswerRec = AnswerRec(
    content: string,
    author: UserId,
    question: Id,
    votes: Votes,
    voteCount: int,
    isAccepted: bool,
    acceptedAt: Option<Time>,
    acceptedBy: Option<UserId>,
    comments: seq<Id>,
    isModerated: bool,
    moderatedBy: Option<UserId>,
    moderatedAt: Option<Time>,
    moderationReason: Option<string>,
    createdAt: Time)

  /** `new Answer({ content, author, question })` with the schema defaults. */
  function NewAnswer(content: string, author: UserId, question: Id, now: Time): AnswerRec {
    AnswerRec(content, author, question, NoVotes, 0, false, None, None, [], false, None, None, None, now)
  }

  /** `required` on content, checked by `save`. */
  predicate SchemaAccepts(a: AnswerRec) {
    a.content != ""
  }

  predicate LedgerSound(a: AnswerRec) {
    Consistent(a.votes, a.voteCount, a.author)
  }

  /** A new answer is not accepted, has no votes and no comments. */
  lemma NewAnswerDefaults(content: string, author: UserId, question: Id, now: Time)
    ensures var a := NewAnswer(content, author, question, now);
      && LedgerSound(a) && a.voteCount == 0 && !a.isAccepted
      && a.acceptedAt == None && a.acceptedBy == None && !a.isModerated
      && a.content == content && a.author == author && a.question == question
  {
  }

  function Voted(a: AnswerRec, u: UserId, voteType: string): AnswerRec {
    var v := Cast(a.votes, u, voteType);
    a.(votes := v, voteCount := Score(v))
  }

  function Unvoted(a: AnswerRec, u: UserId): AnswerRec {
    var v := Retract(a.votes, u);
    a.(votes := v, voteCount := Score(v))
  }

  /** The document after `acceptAnswer(u)` at time `now`. */
  function Accepted(a: AnswerRec, u: UserId, now: Time): AnswerRec {
    a.(isAccepted := true, acceptedAt := Some(now), acceptedBy := Some(u))
  }

  /** The document after `unacceptAnswer()`. */
  function Unaccepted(a: AnswerRec): AnswerRec {
    a.(isAccepted := false, acceptedAt := None, acceptedBy := None)
  }

  /** Accept and unaccept touch only the three acceptance fields. */
  predicate SameExceptAcceptance(a: AnswerRec, b: AnswerRec) {
    a.(isAccepted := false, acceptedAt := None, acceptedBy := None)
      == b.(isAccepted := false, acceptedAt := None, acceptedBy := None)
  }

  lemma AcceptedOnlyAcceptance(a: AnswerRec, u: UserId, now: Time)
    ensures SameExceptAcceptance(Accepted(a, u, now), a)
    ensures SameExceptAcceptance(Unaccepted(a), a)
    ensures Accepted(a, u, now).isAccepted && !Unaccepted(a).isAccepted
    ensures Accepted(a, u, now).content == a.content && Accepted(a, u, now).votes == a.votes
  {
  }

  /** Unaccepting takes any answer back to the acceptance state of a new one,
      and undoes an acceptance exactly. */
  lemma UnacceptUndoesAccept(a: AnswerRec, u: UserId, now: Time)
    ensures Unaccepted(Accepted(a, u, now)) == Unaccepted(a)
    ensures !a.isAccepted && a.acceptedAt == None && a.acceptedBy == None ==>
      Unaccepted(Accepted(a, u, now)) == a
    ensures var n := NewAnswer(a.content, a.author, a.question, a.createdAt);
      Unaccepted(a).isAccepted == n.isAccepted && Unaccepted(a).acceptedAt == n.acceptedAt
      && Unaccepted(a).acceptedBy == n.acceptedBy
  {
  }

  /** Accepting again replaces the time and acceptor and nothing else. */
  lemma AcceptIdempotent(a: AnswerRec, u: UserId, v: UserId, t: Time, t': Time)
    ensures Accepted(Accepted(a, u, t), v, t') == Accepted(a, v, t')
  {
  }

  lemma VotedSound(a: AnswerRec, u: UserId, voteType: string)
    requires LedgerSound(a) && u != a.author
    ensures LedgerSound(Voted(a, u, voteType))
  {
    CastConsistent(a.votes, a.voteCount, a.author, u, voteType);
  }

  lemma UnvotedSound(a: AnswerRec, u: UserId)
    requires LedgerSound(a)
    ensures LedgerSound(Unvoted(a, u))
  {
    RetractConsistent(a.votes, a.voteCount, a.author, u);
  }

  /** `moderateAnswer`'s assignments: the moderation fields and nothing else;
      content, votes and acceptance stay as they were. */
  function Moderated(a: AnswerRec, admin: UserId, now: Time, reason: Option<string>): (r: AnswerRec)
    ensures r.isModerated && r.moderatedBy == Some(admin) && r.moderatedAt == Some(now) && r.moderationReason == reason
    ensures r.(isModerated := a.isModerated, moderatedBy := a.moderatedBy, moderatedAt := a.moderatedAt,
               moderationReason := a.moderationReason) == a
  {
    a.(isModerated := true, moderatedBy := Some(admin), moderatedAt := Some(now), moderationReason := reason)
  }

  /** Acceptance leaves the vote fields, and so their consistency, alone. */
  lemma AcceptanceSound(a: AnswerRec, u: UserId, now: Time)
    requires LedgerSound(a)
    ensures LedgerSound(Accepted(a, u, now)) && LedgerSound(Unaccepted(a))
  {
  }

  /** Mongoose's `save` writes only the paths whose newly set value differs
      from the one the document held when it was loaded; other paths keep
      whatever is stored at the time of the save. */
  function SaveChanged<T(==)>(stored: T, loaded: T, written: T): (r: T)
    ensures written != loaded ==> r == written
    ensures written == loaded ==> r == stored
    ensures stored == loaded ==> r == written
  {
    if written == loaded then stored else written
  }

  /** The stored answer after `acceptAnswer(u)` saves a document copy
      `loaded`, read before the stored answer became `stored`. This is what
      `acceptAnswer` in the question controller does: it loads the answer,
      then saves an unaccept through a second copy, then accepts through
      the first. */
  function SavedAcceptance(stored: AnswerRec, loaded: AnswerRec, u: UserId, now: Time): (r: AnswerRec)
    ensures r.(isAccepted := stored.isAccepted, acceptedAt := stored.acceptedAt, acceptedBy := stored.acceptedBy) == stored
    ensures r.isAccepted == (if loaded.isAccepted then stored.isAccepted else true)
  {
    stored.(isAccepted := SaveChanged(stored.isAccepted, loaded.isAccepted, true),
            acceptedAt := SaveChanged(stored.acceptedAt, loaded.acceptedAt, Some(now)),
            acceptedBy := SaveChanged(stored.acceptedBy, loaded.acceptedBy, Some(u)))
  }

  /** With an up-to-date copy the save is the plain acceptance. */
  lemma SavedAcceptanceWhenFresh(a: AnswerRec, u: UserId, now: Time)
    ensures SavedAcceptance(a, a, u, now) == Accepted(a, u, now)
  {
  }

  /** Re-accepting the answer that is already accepted: the copy loaded
      before the unaccept still says `isAccepted: true`, so the acceptance
      does not rewrite the flag, and the stored answer ends unaccepted
      while the question points at it. */
  lemma ReacceptClearsFlag(a: AnswerRec, u: UserId, now: Time)
    requires a.isAccepted
    ensures !SavedAcceptance(Unaccepted(a), a, u, now).isAccepted
    ensures SavedAcceptance(Unaccepted(a), a, u, now) != Accepted(Unaccepted(a), u, now)
  {
  }

  /** A loaded Mongoose answer document. */
  class Answer {
    var content: string
    var author: UserId
    var question: Id
    var upvotes: seq<UserId>
    var downvotes: seq<UserId>
    var voteCount: int
    var isAccepted: bool
    var acceptedAt: Option<Time>
    var acceptedBy: Option<UserId>
    var comments: seq<Id>
    var isModerated: bool
    var moderatedBy: Option<UserId>
    var moderatedAt: Option<Time>
    var moderationReason: Option<string>
    var createdAt: Time

    constructor Load(r: AnswerRec)
      ensures Record() == r
    {
      content, author, question := r.content, r.author, r.question;
      upvotes, downvotes, voteCount := r.votes.upvotes, r.votes.downvotes, r.voteCount;
      isAccepted, acceptedAt, acceptedBy, comments := r.isAccepted, r.acceptedAt, r.acceptedBy, r.comments;
      isModerated, moderatedBy, moderatedAt := r.isModerated, r.moderatedBy, r.moderatedAt;
      moderationReason, createdAt := r.moderationReason, r.createdAt;
    }

    function Record(): AnswerRec
      reads this
    {
      AnswerRec(content, author, question, Votes(upvotes, downvotes), voteCount, isAccepted,
                acceptedAt, acceptedBy, comments, isModerated, moderatedBy, moderatedAt,
                moderationReason, createdAt)
    }

    method AddVote(userId: UserId, voteType: string)
      modifies this
      ensures Record() == Voted(old(Record()), userId, voteType)
      ensures voteCount == |upvotes| - |downvotes|
    {
      if voteType == "upvote" {
        downvotes := Seqs.Without(downvotes, userId);
        if userId !in upvotes {
          upvotes := upvotes + [userId];
        }
      } else if voteType == "downvote" {
        upvotes := Seqs.Without(upvotes, userId);
        if userId !in downvotes {
          downvotes := downvotes + [userId];
        }
      }
      voteCount := Score(Votes(upvotes, downvotes));
    }

    method RemoveVote(userId: UserId)
      modifies this
      ensures Record() == Unvoted(old(Record()), userId)
      ensures voteCount == |upvotes| - |downvotes|
    {
      upvotes := Seqs.Without(upvotes, userId);
      downvotes := Seqs.Without(downvotes, userId);
      voteCount := Score(Votes(upvotes, downvotes));
    }

    method AcceptAnswer(userId: UserId, now: Time)
      modifies this
      ensures Record() == Accepted(old(Record()), userId, now)
    {
      isAccepted := true;
      acceptedAt := Some(now);
      acceptedBy := Some(userId);
    }

    method UnacceptAnswer()
      modifies this
      ensures Record() == Unaccepted(old(Record()))
    {
      isAccepted := false;
      acceptedAt := None;
      acceptedBy := None;
    }
  }
}

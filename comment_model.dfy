/** The Comment schema: stored fields, the 500-character content bound, and
    `addVote` (comments have no `removeVote`, and nothing stops a comment's
    author from voting on it). */
module CommentModel {
  import opened Common
  import opened VoteLedger

  /** A stored comment document. */
  datatype CommentRec = CommentRec(
    content: string,
    author: UserId,
    answer: Id,
    parentComment: Option<Id>,
    replies: seq<Id>,
    votes: Votes,
    voteCount: int,
    isModerated: bool,
    moderatedBy: Option<UserId>,
    moderatedAt: Option<Time>,
    moderationReason: Option<string>,
    createdAt: Time)

  function NewComment(content: string, author: UserId, answer: Id, parentComment: Option<Id>, now: Time): CommentRec {
    CommentRec(content, author, answer, parentComment, [], NoVotes, 0, false, None, None, None, now)
  }

  /** `required` and `maxlength: 500` on content. */
  predicate SchemaAccepts(c: CommentRec) {
    c.content != "" && |c.content| <= 500
  }

  function Voted(c: CommentRec, u: UserId, voteType: string): CommentRec {
    var v := Cast(c.votes, u, voteType);
    c.(votes := v, voteCount := Score(v))
  }

  /** The comment after a sequence of `addVote` calls. */
  function VotedAll(c: CommentRec, calls: seq<(UserId, string)>): CommentRec
    decreases |calls|
  {
    if calls == [] then c
    else Voted(VotedAll(c, calls[..|calls| - 1]), calls[|calls| - 1].0, calls[|calls| - 1].1)
  }

  /** On a new comment, any sequence of votes builds exactly the lists that
      `Replay` describes, with the count equal to their score, so
      `hasUserVoted` never reports both flags. */
  lemma {:induction false} VotedAllFromNew(c: CommentRec, calls: seq<(UserId, string)>, u: UserId)
    requires c.votes == NoVotes
    ensures VotedAll(c, calls).votes == Replay(calls)
    ensures calls != [] ==> VotedAll(c, calls).voteCount == Score(Replay(calls))
    ensures !(HasUserVoted(VotedAll(c, calls).votes, u).0 && HasUserVoted(VotedAll(c, calls).votes, u).1)
  {
    if calls != [] {
      VotedAllFromNew(c, calls[..|calls| - 1], u);
    }
    ReplayWellFormed(calls);
  }

  /** Comment voting has no self-vote guard: the author's own upvote is recorded. */
  lemma AuthorCanVote(c: CommentRec)
    ensures c.author in Voted(c, c.author, "upvote").votes.upvotes
  {
    CastUpvote(c.votes, c.author);
  }

  /** A loaded Mongoose comment document. */
  class Comment {
    var content: string
    var author: UserId
    var answer: Id
    var parentComment: Option<Id>
    var replies: seq<Id>
    var upvotes: seq<UserId>
    var downvotes: seq<UserId>
    var voteCount: int
    var isModerated: bool
    var moderatedBy: Option<UserId>
    var moderatedAt: Option<Time>
    var moderationReason: Option<string>
    var createdAt: Time

    constructor Load(r: CommentRec)
      ensures Record() == r
    {
      content, author, answer, parentComment, replies := r.content, r.author, r.answer, r.parentComment, r.replies;
      upvotes, downvotes, voteCount := r.votes.upvotes, r.votes.downvotes, r.voteCount;
      isModerated, moderatedBy, moderatedAt := r.isModerated, r.moderatedBy, r.moderatedAt;
      moderationReason, createdAt := r.moderationReason, r.createdAt;
    }

    function Record(): CommentRec
      reads this
    {
      CommentRec(content, author, answer, parentComment, replies, Votes(upvotes, downvotes), voteCount,
                 isModerated, moderatedBy, moderatedAt, moderationReason, createdAt)
    }

    method AddVote(userId: UserId, voteType: string)
      modifies this
      ensures Record() == Voted(old(Record()), userId, voteType)
      ensures voteCount == |upvotes| - |downvotes|
    {
      if voteType == "upvote" {
        downvotes := Seqs.Without(downvotes, userId);
        if userId !in upvotes {
          upvotes := upvotes + [userId];
        }
      } else if voteType == "downvote" {
        upvotes := Seqs.Without(upvotes, userId);
        if userId !in downvotes {
          downvotes := downvotes + [userId];
        }
      }
      voteCount := Score(Votes(upvotes, downvotes));
    }
  }
}

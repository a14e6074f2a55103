/** The express-validator chains of the answer routes: `answerValidation`
    on content and `voteValidation` on the vote type. */
module AnswerRoutes {
  import opened Common
  import opened VoteLedger
  import opened AnswerModel

  /** `content`: `isLength({ min: 20 })`; create and update share the rule. */
  predicate ContentValid(content: string) {
    |content| >= 20
  }

  /** Content that passes the chain always satisfies the schema's `required`;
      content of length 19 or less never passes. */
  lemma ValidContentSaves(content: string, author: UserId, question: Id, now: Time)
    ensures ContentValid(content) ==> SchemaAccepts(NewAnswer(content, author, question, now))
    ensures |content| <= 19 ==> !ContentValid(content)
  {
  }

  /** `voteValidation` (the same chain on both vote routes) accepts exactly the
      types that `addVote` records: for a user who has not voted, a type is
      valid if and only if the call puts the user in a list. */
  lemma VoteTypeRecorded(v: Votes, u: UserId, voteType: string)
    requires Excludes(v, u)
    ensures IsVoteType(voteType) <==> (u in Cast(v, u, voteType).upvotes || u in Cast(v, u, voteType).downvotes)
  {
    if voteType == "upvote" {
      CastUpvote(v, u);
    } else if voteType == "downvote" {
      CastDownvote(v, u);
    }
  }
}

/** The Question schema: its stored fields with their defaults, the status
    enum, the `trim`/`lowercase` setters and `required`/`maxlength` checks,
    and the document methods `addVote` and `removeVote`. */
module QuestionModel {
  import opened Common
  import opened Text
  import opened VoteLedger

  datatype Status = Active | Closed | Duplicate | OffTopic

  function StatusName(s: Status): string {
    match s
    case Active => "active"
    case Closed => "closed"
    case Duplicate => "duplicate"
    case OffTopic => "off-topic"
  }

  /** The schema's `enum` check on a status string. */
  function ParseStatus(s: string): (r: Option<Status>)
    ensures r.Some? ==> StatusName(r.value) == s
  {
    if s == "active" then Some(Active)
    else if s == "closed" then Some(Closed)
    else if s == "duplicate" then Some(Duplicate)
    else if s == "off-topic" then Some(OffTopic)
    else None
  }

  lemma ParseStatusName(s: Status)
    ensures ParseStatus(StatusName(s)) == Some(s)
  {
  }

  /** `question.status = status` as `save` checks it: a string outside the
      enum is rejected (`None`), while an absent status passes the enum check
      and unsets the field (`Some(None)`). */
  function AssignedStatus(s: Option<string>): (r: Option<Option<Status>>)
    ensures r.None? <==> s.Some? && ParseStatus(s.value).None?
    ensures r == Some(None) <==> s.None?
    ensures r.Some? && r.value.Some? ==> s == Some(StatusName(r.value.value))
  {
    if s.None? then Some(None)
    else if ParseStatus(s.value).None? then None
    else Some(ParseStatus(s.value))
  }

  /** A stored question document. */
  datatype QuestionRec = QuestionRec(
    title: string,
    description: string,
    tags: seq<string>,
    author: UserId,
    votes: Votes,
    voteCount: int,
    views: nat,
    answers: seq<Id>,
    acceptedAnswer: Option<Id>,
    status: Option<Status>,
    isModerated: bool,
    moderatedBy: Option<UserId>,
    moderatedAt: Option<Time>,
    moderationReason: Option<string>,
    createdAt: Time)

  /** A tag as stored: the controller's `toLowerCase`, then the schema's
      `trim` and `lowercase` setters (lowercasing ASCII commutes with trimming). */
  function StoredTag(t: string): string {
    Trim(Lower(t))
  }

  function StoredTags(ts: seq<string>): (r: seq<string>)
    ensures |r| == |ts| && forall i :: 0 <= i < |ts| ==> r[i] == StoredTag(ts[i])
  {
    seq(|ts|, i requires 0 <= i < |ts| => StoredTag(ts[i]))
  }

  /** `new Question({ title, description, tags, author })` with the schema's
      defaults and setters applied. */
  function NewQuestion(title: string, description: string, tags: seq<string>, author: UserId, now: Time): QuestionRec {
    QuestionRec(Trim(title), description, StoredTags(tags), author, NoVotes, 0, 0, [], None,
                Some(Active), false, None, None, None, now)
  }

  /** `required` on title and description and `maxlength: 300` on the
      (trimmed) title, checked by `save`. */
  predicate SchemaAccepts(q: QuestionRec) {
    q.title != "" && |q.title| <= 300 && q.description != ""
  }

  /** The vote fields are consistent: well-formed lists, `voteCount` equal
      to their score, and the author votes on neither side. */
  predicate LedgerSound(q: QuestionRec) {
    Consistent(q.votes, q.voteCount, q.author)
  }

  /** A new question starts unanswered, active, unmoderated, with no views
      and no votes. */
  lemma NewQuestionDefaults(title: string, description: string, tags: seq<string>, author: UserId, now: Time)
    ensures var q := NewQuestion(title, description, tags, author, now);
      && LedgerSound(q) && q.voteCount == 0 && q.views == 0
      && q.answers == [] && q.acceptedAnswer == None
      && q.status == Some(Active) && !q.isModerated
      && forall i :: 0 <= i < |q.tags| ==> NoUpper(q.tags[i])
  {
    var q := NewQuestion(title, description, tags, author, now);
    forall i | 0 <= i < |q.tags| ensures NoUpper(q.tags[i]) {
      var l := Lower(tags[i]);
      var t := Trim(l);
      LowerHasNoUpper(tags[i]);
      assert forall j :: 0 <= j < |t| ==> t[j] == l[Lead(l) + j];
    }
  }

  /** The document after `addVote(u, voteType)`. */
  function Voted(q: QuestionRec, u: UserId, voteType: string): QuestionRec {
    var v := Cast(q.votes, u, voteType);
    q.(votes := v, voteCount := Score(v))
  }

  /** The document after `removeVote(u)`. */
  function Unvoted(q: QuestionRec, u: UserId): QuestionRec {
    var v := Retract(q.votes, u);
    q.(votes := v, voteCount := Score(v))
  }

  /** `moderateQuestion`'s assignments: the status and the moderation fields. */
  function Moderated(q: QuestionRec, status: Option<Status>, admin: UserId, now: Time, reason: Option<string>): (r: QuestionRec)
    ensures r.status == status && r.isModerated && r.moderatedBy == Some(admin) && r.moderatedAt == Some(now)
    ensures r.moderationReason == reason
    ensures r.(status := q.status, isModerated := q.isModerated, moderatedBy := q.moderatedBy,
               moderatedAt := q.moderatedAt, moderationReason := q.moderationReason) == q
  {
    q.(status := status, isModerated := true, moderatedBy := Some(admin), moderatedAt := Some(now),
       moderationReason := reason)
  }

  /** A loaded Mongoose question document. */
  class Question {
    var title: string
    var description: string
    var tags: seq<string>
    var author: UserId
    var upvotes: seq<UserId>
    var downvotes: seq<UserId>
    var voteCount: int
    var views: nat
    var answers: seq<Id>
    var acceptedAnswer: Option<Id>
    var status: Option<Status>
    var isModerated: bool
    var moderatedBy: Option<UserId>
    var moderatedAt: Option<Time>
    var moderationReason: Option<string>
    var createdAt: Time

    /** `Question.findById`: the document holding a stored record. */
    constructor Load(r: QuestionRec)
      ensures Record() == r
    {
      title, description, tags, author := r.title, r.description, r.tags, r.author;
      upvotes, downvotes, voteCount := r.votes.upvotes, r.votes.downvotes, r.voteCount;
      views, answers, acceptedAnswer, status := r.views, r.answers, r.acceptedAnswer, r.status;
      isModerated, moderatedBy, moderatedAt := r.isModerated, r.moderatedBy, r.moderatedAt;
      moderationReason, createdAt := r.moderationReason, r.createdAt;
    }

    /** What `save` writes. */
    function Record(): QuestionRec
      reads this
    {
      QuestionRec(title, description, tags, author, Votes(upvotes, downvotes), voteCount, views,
                  answers, acceptedAnswer, status, isModerated, moderatedBy, moderatedAt,
                  moderationReason, createdAt)
    }

    method AddVote(userId: UserId, voteType: string)
      modifies this
      ensures Record() == Voted(old(Record()), userId, voteType)
      ensures voteCount == |upvotes| - |downvotes|
    {
      if voteType == "upvote" {
        downvotes := Seqs.Without(downvotes, userId);
        if userId !in upvotes {
          upvotes := upvotes + [userId];
        }
      } else if voteType == "downvote" {
        upvotes := Seqs.Without(upvotes, userId);
        if userId !in downvotes {
          downvotes := downvotes + [userId];
        }
      }
      voteCount := Score(Votes(upvotes, downvotes));
    }

    method RemoveVote(userId: UserId)
      modifies this
      ensures Record() == Unvoted(old(Record()), userId)
      ensures voteCount == |upvotes| - |downvotes|
    {
      upvotes := Seqs.Without(upvotes, userId);
      downvotes := Seqs.Without(downvotes, userId);
      voteCount := Score(Votes(upvotes, downvotes));
    }
  }
}

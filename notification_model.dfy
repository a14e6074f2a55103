/** The Notification schema: the seven notification types, the unread
    default, and `markAsRead`/`markAsUnread`. */
module NotificationModel {
  import opened Common

  datatype NotificationType = Answer | Comment | Mention | Vote | Accept | Moderation | Alert

  function TypeName(t: NotificationType): string {
    match t
    case Answer => "answer"
    case Comment => "comment"
    case Mention => "mention"
    case Vote => "vote"
    case Accept => "accept"
    case Moderation => "moderation"
    case Alert => "alert"
  }

  /** The schema's `enum` check on a type string. */
  function ParseType(s: string): (r: Option<NotificationType>)
    ensures r.Some? ==> TypeName(r.value) == s
  {
    if s == "answer" then Some(Answer)
    else if s == "comment" then Some(Comment)
    else if s == "mention" then Some(Mention)
    else if s == "vote" then Some(Vote)
    else if s == "accept" then Some(Accept)
    else if s == "moderation" then Some(Moderation)
    else if s == "alert" then Some(Alert)
    else None
  }

  /** Exactly the seven names are accepted, each naming its own type. */
  lemma ParseTypeExact(t: NotificationType, s: string)
    ensures ParseType(TypeName(t)) == Some(t)
    ensures ParseType(s).Some? <==>
      s in ["answer", "comment", "mention", "vote", "accept", "moderation", "alert"]
  {
  }

  /** A stored notification document. */
  datatype NotificationRec = NotificationRec(
    recipient: UserId,
    sender: Option<UserId>,
    kind: NotificationType,
    title: string,
    message: string,
    question: Option<Id>,
    answer: Option<Id>,
    comment: Option<Id>,
    isRead: bool,
    readAt: Option<Time>,
    createdAt: Time)

  /** `Notification.create({ ... })`: unread, never read. */
  function NewNotification(recipient: UserId, sender: Option<UserId>, kind: NotificationType, title: string,
                           message: string, question: Option<Id>, answer: Option<Id>, now: Time): NotificationRec {
    NotificationRec(recipient, sender, kind, title, message, question, answer, None, false, None, now)
  }

  /** `required` on title and message. */
  predicate SchemaAccepts(n: NotificationRec) {
    n.title != "" && n.message != ""
  }

  function Read(n: NotificationRec, now: Time): NotificationRec {
    n.(isRead := true, readAt := Some(now))
  }

  function Unread(n: NotificationRec): NotificationRec {
    n.(isRead := false, readAt := None)
  }

  /** A new notification is unread with no read time. */
  lemma NewIsUnread(recipient: UserId, sender: Option<UserId>, kind: NotificationType, title: string,
                    message: string, question: Option<Id>, answer: Option<Id>, now: Time)
    ensures var n := NewNotification(recipient, sender, kind, title, message, question, answer, now);
      !n.isRead && n.readAt == None && n.recipient == recipient && n.kind == kind
  {
  }

  /** Reading then unreading a new notification gives it back unchanged; in
      general it restores the unread state and keeps everything else. */
  lemma ReadThenUnread(n: NotificationRec, now: Time)
    ensures Unread(Read(n, now)) == Unread(n)
    ensures !n.isRead && n.readAt == None ==> Unread(Read(n, now)) == n
  {
  }

  /** Reading twice leaves it read, stamped with the later call's time. */
  lemma ReadIdempotent(n: NotificationRec, t: Time, t': Time)
    ensures Read(Read(n, t), t') == Read(n, t')
    ensures Read(Read(n, t), t').isRead
  {
  }

  /** A loaded Mongoose notification document. */
  class Notification {
    var recipient: UserId
    var sender: Option<UserId>
    var kind: NotificationType
    var title: string
    var message: string
    var question: Option<Id>
    var answer: Option<Id>
    var comment: Option<Id>
    var isRead: bool
    var readAt: Option<Time>
    var createdAt: Time

    constructor Load(r: NotificationRec)
      ensures Record() == r
    {
      recipient, sender, kind, title, message := r.recipient, r.sender, r.kind, r.title, r.message;
      question, answer, comment := r.question, r.answer, r.comment;
      isRead, readAt, createdAt := r.isRead, r.readAt, r.createdAt;
    }

    function Record(): NotificationRec
      reads this
    {
      NotificationRec(recipient, sender, kind, title, message, question, answer, comment, isRead, readAt, createdAt)
    }

    method MarkAsRead(now: Time)
      modifies this
      ensures Record() == Read(old(Record()), now)
    {
      isRead := true;
      readAt := Some(now);
    }

    method MarkAsUnread()
      modifies this
      ensures Record() == Unread(old(Record()))
    {
      isRead := false;
      readAt := None;
    }
  }
}

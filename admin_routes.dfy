/** The express-validator chains of the admin routes. The handlers never read
    their result, so the store model does not apply them; they are stated here
    with what they would guarantee. */
module AdminRoutes {
  import opened Common
  import opened QuestionModel
  import opened NotificationModel

  /** `alertValidation` on `title`: 5 to 100 characters. */
  predicate AlertTitleValid(title: string) {
    5 <= |title| <= 100
  }

  /** `alertValidation` on `message`: 10 to 500 characters. */
  predicate AlertMessageValid(message: string) {
    10 <= |message| <= 500
  }

  /** `reason`: 10 to 200 characters, in both moderation chains. */
  predicate ReasonValid(reason: string) {
    10 <= |reason| <= 200
  }

  /** `questionModerationValidation` on `status`. */
  predicate StatusValid(status: string) {
    status in ["active", "closed", "duplicate", "off-topic"]
  }

  /** `moderationValidation`: the ban and answer-moderation routes check only the reason. */
  predicate ModerationValid(reason: string) {
    ReasonValid(reason)
  }

  /** `questionModerationValidation`: status and reason. */
  predicate QuestionModerationValid(status: string, reason: string) {
    StatusValid(status) && ReasonValid(reason)
  }

  /** The status rule and the Question schema's `enum` accept the same strings. */
  lemma StatusValidMatchesSchema(status: string)
    ensures StatusValid(status) <==> ParseStatus(status).Some?
  {
    if ParseStatus(status).Some? {
      ParseStatusName(ParseStatus(status).value);
    }
  }

  /** An alert that passes the chain is one the Notification schema accepts. */
  lemma ValidAlertSaves(recipient: UserId, sender: Option<UserId>, title: string, message: string, now: Time)
    requires AlertTitleValid(title) && AlertMessageValid(message)
    ensures NotificationModel.SchemaAccepts(NewNotification(recipient, sender, Alert, title, message, None, None, now))
  {
  }

  /** Question moderation checks strictly more than the other two routes. */
  lemma QuestionModerationStricter(status: string, reason: string)
    ensures QuestionModerationValid(status, reason) ==> ModerationValid(reason)
    ensures !StatusValid(status) ==> !QuestionModerationValid(status, reason)
  {
  }
}

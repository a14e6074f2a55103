/** What the question list shows for a stored question after the writes
    that change its card: accepting an answer, adding one, and deleting one. */
module CardAfterWrites {
  import opened Common
  import opened Seqs
  import opened QuestionCard
  import QM = QuestionModel
  import AM = AnswerModel
  import NM = NotificationModel
  import UM = UserModel
  import Controllers

  /** The card's fields of a stored question in the list response; the
      `updatedAt` timestamp is not kept by the store, so it is given. */
  function CardOf(q: QM.QuestionRec, updatedAt: Time): CardQuestion {
    CardQuestion(q.description, Some(q.answers), q.acceptedAnswer, q.createdAt, updatedAt)
  }

  /** After `acceptAnswer` sets the pointer the card shows "Solved", with the
      same answer count. */
  lemma SolvedAfterAccept(q: QM.QuestionRec, answerId: Id, updatedAt: Time)
    ensures ShowSolved(CardOf(q.(acceptedAnswer := Some(answerId)), updatedAt))
    ensures AnswerCount(CardOf(q.(acceptedAnswer := Some(answerId)), updatedAt)) == AnswerCount(CardOf(q, updatedAt))
  {
  }

  /** After `createAnswer` pushes an answer the count grows by one and the
      badge is as before. */
  lemma CountAfterAnswerAdded(q: QM.QuestionRec, answerId: Id, updatedAt: Time)
    ensures AnswerCount(CardOf(q.(answers := q.answers + [answerId]), updatedAt)) == AnswerCount(CardOf(q, updatedAt)) + 1
    ensures ShowSolved(CardOf(q.(answers := q.answers + [answerId]), updatedAt)) <==> ShowSolved(CardOf(q, updatedAt))
  {
  }

  /** After `deleteAnswer` on a consistent store, the card of the answer's
      question counts one answer fewer, and shows "Solved" exactly when
      another answer is still accepted: deleting the accepted answer
      removes the badge. */
  lemma CardAfterAnswerDeleted(qs: map<Id, QM.QuestionRec>, ans: map<Id, AM.AnswerRec>,
                               ns: map<Id, NM.NotificationRec>, us: map<UserId, UM.UserRec>,
                               next: nat, id: Id, updatedAt: Time)
    requires Controllers.Consistent(qs, ans, ns, us, next) && id in ans
    ensures ShowSolved(CardOf(Controllers.Pulled(qs[ans[id].question], id), updatedAt)) <==>
      qs[ans[id].question].acceptedAnswer.Some? && qs[ans[id].question].acceptedAnswer != Some(id)
    ensures AnswerCount(CardOf(Controllers.Pulled(qs[ans[id].question], id), updatedAt))
      == AnswerCount(CardOf(qs[ans[id].question], updatedAt)) - 1
  {
    var q := qs[ans[id].question];
    assert id in q.answers;
    NoDupCount(q.answers, id);
  }
}

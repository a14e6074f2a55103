/** The controllers over one store of documents: questions, answers,
    notifications and users, each a map from ObjectId to the stored record.
    Every handler is one atomic step: it authenticates the caller as the
    `auth`/`adminAuth` middleware would, runs the controller's checks in the
    controller's order, and applies the controller's writes. `new Date()` is
    the `now` parameter; fresh ObjectIds are drawn from `nextId`. */
module Controllers {
  import opened Common
  import opened Seqs
  import QM = QuestionModel
  import VoteLedger
  import AM = AnswerModel
  import NM = NotificationModel
  import UM = UserModel
  import Text
  import Queries
  import QuestionRoutes
  import AnswerRoutes

  // ---------------------------------------------------------------------
  // The store's invariant, over plain maps

  predicate AllBelow<T>(m: map<nat, T>, bound: nat) {
    forall k :: k in m ==> k < bound
  }

  /** Every vote ledger is consistent and excludes its document's author. */
  predicate LedgersSound(qs: map<Id, QM.QuestionRec>, ans: map<Id, AM.AnswerRec>) {
    && (forall q :: q in qs ==> QM.LedgerSound(qs[q]))
    && (forall a :: a in ans ==> AM.LedgerSound(ans[a]))
  }

  /** `answer.question` and `question.answers` agree: an answer belongs to an
      existing question that lists it, a listed answer exists and points
      back, and no question lists an answer twice. */
  predicate AnswersLinked(qs: map<Id, QM.QuestionRec>, ans: map<Id, AM.AnswerRec>) {
    && (forall a :: a in ans ==> ans[a].question in qs && a in qs[ans[a].question].answers)
    && (forall q, a :: q in qs && a in qs[q].answers ==> a in ans && ans[a].question == q)
    && (forall q :: q in qs ==> NoDup(qs[q].answers))
  }

  /** `createAnswer`'s rule: at most one answer per author per question. */
  predicate OneAnswerPerAuthor(ans: map<Id, AM.AnswerRec>) {
    forall a, b :: a in ans && b in ans && a != b && ans[a].question == ans[b].question ==> ans[a].author != ans[b].author
  }

  predicate Consistent(qs: map<Id, QM.QuestionRec>, ans: map<Id, AM.AnswerRec>,
                       ns: map<Id, NM.NotificationRec>, us: map<UserId, UM.UserRec>, next: nat) {
    && AllBelow(qs, next) && AllBelow(ans, next) && AllBelow(ns, next) && AllBelow(us, next)
    && LedgersSound(qs, ans)
    && AnswersLinked(qs, ans)
    && OneAnswerPerAuthor(ans)
  }

  /** `Answer.deleteMany({ question: id })`. */
  function AnswersWithout(ans: map<Id, AM.AnswerRec>, id: Id): (r: map<Id, AM.AnswerRec>)
    ensures forall a :: a in r <==> a in ans && ans[a].question != id
    ensures forall a :: a in r ==> r[a] == ans[a]
  {
    map a | a in ans && ans[a].question != id :: ans[a]
  }

  /** `Notification.deleteMany({ question: id })`. */
  function NotificationsOffQuestion(ns: map<Id, NM.NotificationRec>, id: Id): (r: map<Id, NM.NotificationRec>)
    ensures forall n :: n in r <==> n in ns && ns[n].question != Some(id)
    ensures forall n :: n in r ==> r[n] == ns[n]
  {
    map n | n in ns && ns[n].question != Some(id) :: ns[n]
  }

  /** `Notification.deleteMany({ answer: id })`. */
  function NotificationsOffAnswer(ns: map<Id, NM.NotificationRec>, id: Id): (r: map<Id, NM.NotificationRec>)
    ensures forall n :: n in r <==> n in ns && ns[n].answer != Some(id)
    ensures forall n :: n in r ==> r[n] == ns[n]
  {
    map n | n in ns && ns[n].answer != Some(id) :: ns[n]
  }

  /** `updateMany({ recipient, isRead: false }, { isRead: true, readAt: now })`. */
  function AllRead(ns: map<Id, NM.NotificationRec>, recipient: UserId, now: Time): (r: map<Id, NM.NotificationRec>)
    ensures r.Keys == ns.Keys
    ensures forall n :: n in ns && ns[n].recipient == recipient && !ns[n].isRead ==> r[n] == NM.Read(ns[n], now)
    ensures forall n :: n in ns && (ns[n].recipient != recipient || ns[n].isRead) ==> r[n] == ns[n]
  {
    map n | n in ns :: if ns[n].recipient == recipient && !ns[n].isRead then NM.Read(ns[n], now) else ns[n]
  }

  /** After `markAllAsRead`, the recipient has no unread notification left. */
  lemma AllReadLeavesNoneUnread(ns: map<Id, NM.NotificationRec>, recipient: UserId, now: Time)
    ensures forall n :: n in AllRead(ns, recipient, now) && AllRead(ns, recipient, now)[n].recipient == recipient ==>
      AllRead(ns, recipient, now)[n].isRead
  {
  }

  /** The documents `insertMany` creates for `sendAlert`: one alert per
      recipient, under consecutive fresh ids from `next`. */
  function AlertBatch(recipients: seq<UserId>, next: nat, sender: UserId, title: string, message: string,
                      now: Time): (r: map<Id, NM.NotificationRec>)
    ensures forall i :: i in r <==> next <= i < next + |recipients|
    ensures forall i :: i in r ==> r[i] == NM.NewNotification(recipients[i - next], Some(sender), NM.Alert, title, message, None, None, now)
  {
    if recipients == [] then map[]
    else
      var last := |recipients| - 1;
      AlertBatch(recipients[..last], next, sender, title, message, now)[next + last :=
        NM.NewNotification(recipients[last], Some(sender), NM.Alert, title, message, None, None, now)]
  }

  /** With duplicate-free recipients, each recipient gets exactly one alert
      and nobody else gets any. */
  lemma AlertBatchExactlyOne(recipients: seq<UserId>, next: nat, sender: UserId, title: string, message: string,
                             now: Time, u: UserId)
    requires NoDup(recipients)
    ensures u in recipients ==>
      exists i :: i in AlertBatch(recipients, next, sender, title, message, now) &&
                  AlertBatch(recipients, next, sender, title, message, now)[i].recipient == u
    ensures var b := AlertBatch(recipients, next, sender, title, message, now);
      forall i, j :: i in b && j in b && b[i].recipient == u && b[j].recipient == u ==> i == j
    ensures var b := AlertBatch(recipients, next, sender, title, message, now);
      u !in recipients ==> forall i :: i in b ==> b[i].recipient != u
  {
    var b := AlertBatch(recipients, next, sender, title, message, now);
    if u in recipients {
      var k :| 0 <= k < |recipients| && recipients[k] == u;
      var i: Id := next + k;
      assert i in b && b[i].recipient == u;
    }
    forall i, j | i in b && j in b && b[i].recipient == u && b[j].recipient == u ensures i == j {
      assert recipients[i - next] == recipients[j - next];
    }
    if u !in recipients {
      forall i | i in b ensures b[i].recipient != u {
        assert recipients[i - next] in recipients;
      }
    }
  }

  /** What a template literal's `${x}` renders: the string, or "undefined"
      for an absent request-body field. */
  function Shown(x: Option<string>): string {
    if x.Some? then x.value else "undefined"
  }

  // ---------------------------------------------------------------------
  // How each kind of write keeps the invariant

  /** Writes to notifications and users, and fresh ids drawn, leave it intact. */
  lemma Reframed(qs: map<Id, QM.QuestionRec>, ans: map<Id, AM.AnswerRec>, ns: map<Id, NM.NotificationRec>,
                 us: map<UserId, UM.UserRec>, next: nat,
                 ns': map<Id, NM.NotificationRec>, us': map<UserId, UM.UserRec>, next': nat)
    requires Consistent(qs, ans, ns, us, next)
    requires next <= next' && AllBelow(ns', next') && AllBelow(us', next')
    ensures Consistent(qs, ans, ns', us', next')
  {
  }

  /** Replacing a question by one with the same answer list and a sound ledger. */
  lemma QuestionReplaced(qs: map<Id, QM.QuestionRec>, ans: map<Id, AM.AnswerRec>, ns: map<Id, NM.NotificationRec>,
                         us: map<UserId, UM.UserRec>, next: nat, id: Id, q: QM.QuestionRec)
    requires Consistent(qs, ans, ns, us, next) && id in qs
    requires q.answers == qs[id].answers && QM.LedgerSound(q)
    ensures Consistent(qs[id := q], ans, ns, us, next)
  {
    var qs' := qs[id := q];
    assert forall k :: k in qs' ==> qs'[k].answers == qs[k].answers;
  }

  /** Replacing an answer by one of the same question and author with a sound ledger. */
  lemma AnswerReplaced(qs: map<Id, QM.QuestionRec>, ans: map<Id, AM.AnswerRec>, ns: map<Id, NM.NotificationRec>,
                       us: map<UserId, UM.UserRec>, next: nat, id: Id, a: AM.AnswerRec)
    requires Consistent(qs, ans, ns, us, next) && id in ans
    requires a.question == ans[id].question && a.author == ans[id].author && AM.LedgerSound(a)
    ensures Consistent(qs, ans[id := a], ns, us, next)
  {
    var ans' := ans[id := a];
    assert forall k :: k in ans' ==> ans'[k].question == ans[k].question && ans'[k].author == ans[k].author;
  }

  /** A new question with no answers under the next fresh id. */
  lemma QuestionAdded(qs: map<Id, QM.QuestionRec>, ans: map<Id, AM.AnswerRec>, ns: map<Id, NM.NotificationRec>,
                      us: map<UserId, UM.UserRec>, next: nat, q: QM.QuestionRec)
    requires Consistent(qs, ans, ns, us, next)
    requires q.answers == [] && QM.LedgerSound(q)
    ensures Consistent(qs[next := q], ans, ns, us, next + 1)
  {
    var qs' := qs[next := q];
    assert forall k :: k in qs && k in qs' ==> qs'[k] == qs[k];
  }

  /** The links stay two-way when a new answer under a fresh id is appended
      to its question's list. */
  lemma LinkedAfterAnswerAdded(qs: map<Id, QM.QuestionRec>, ans: map<Id, AM.AnswerRec>, next: nat, a: AM.AnswerRec)
    requires AnswersLinked(qs, ans) && AllBelow(ans, next) && a.question in qs
    ensures AnswersLinked(qs[a.question := qs[a.question].(answers := qs[a.question].answers + [next])], ans[next := a])
  {
    var qid := a.question;
    var q := qs[qid];
    var qs' := qs[qid := q.(answers := q.answers + [next])];
    var ans' := ans[next := a];
    forall b | b in q.answers ensures b < next {
      assert b in ans;
    }
    NoDupAppend(q.answers, next);
    forall b | b in ans' ensures ans'[b].question in qs' && b in qs'[ans'[b].question].answers {
      if b != next {
        assert b in qs[ans[b].question].answers;
      }
    }
    forall k, b | k in qs' && b in qs'[k].answers ensures b in ans' && ans'[b].question == k {
      if k == qid {
        assert b in q.answers + [next];
        if b != next {
          assert b in q.answers;
          assert b in ans && ans[b].question == k;
        }
      } else {
        assert qs'[k] == qs[k];
        assert b in ans && ans[b].question == k;
        assert b != next;
      }
    }
    forall k | k in qs' ensures NoDup(qs'[k].answers) {
      if k != qid {
        assert qs'[k] == qs[k];
      }
    }
    assert AnswersLinked(qs', ans');
  }

  /** A new answer, under the next fresh id, appended to its question's list,
      by an author who has not answered that question. */
  lemma AnswerAdded(qs: map<Id, QM.QuestionRec>, ans: map<Id, AM.AnswerRec>, ns: map<Id, NM.NotificationRec>,
                    us: map<UserId, UM.UserRec>, next: nat, a: AM.AnswerRec)
    requires Consistent(qs, ans, ns, us, next) && a.question in qs && AM.LedgerSound(a)
    requires forall b :: b in ans && ans[b].question == a.question ==> ans[b].author != a.author
    ensures Consistent(qs[a.question := qs[a.question].(answers := qs[a.question].answers + [next])], ans[next := a],
                       ns, us, next + 1)
  {
    var qid := a.question;
    var qs' := qs[qid := qs[qid].(answers := qs[qid].answers + [next])];
    var ans' := ans[next := a];
    LinkedAfterAnswerAdded(qs, ans, next, a);
    assert LedgersSound(qs', ans') by {
      assert QM.LedgerSound(qs'[qid]);
    }
    assert OneAnswerPerAuthor(ans');
    assert Consistent(qs', ans', ns, us, next + 1);
  }

  /** `deleteQuestion`'s cascade: the question and every answer pointing to it. */
  lemma QuestionDeleted(qs: map<Id, QM.QuestionRec>, ans: map<Id, AM.AnswerRec>, ns: map<Id, NM.NotificationRec>,
                        us: map<UserId, UM.UserRec>, next: nat, id: Id)
    requires Consistent(qs, ans, ns, us, next)
    ensures Consistent(qs - {id}, AnswersWithout(ans, id), ns, us, next)
  {
    var qs' := qs - {id};
    var ans' := AnswersWithout(ans, id);
    LinkedAfterQuestionDeleted(qs, ans, id);
    assert LedgersSound(qs', ans');
    assert OneAnswerPerAuthor(ans');
    assert Consistent(qs', ans', ns, us, next);
  }

  lemma LinkedAfterQuestionDeleted(qs: map<Id, QM.QuestionRec>, ans: map<Id, AM.AnswerRec>, id: Id)
    requires AnswersLinked(qs, ans)
    ensures AnswersLinked(qs - {id}, AnswersWithout(ans, id))
  {
    var qs' := qs - {id};
    var ans' := AnswersWithout(ans, id);
    forall b | b in ans' ensures ans'[b].question in qs' && b in qs'[ans'[b].question].answers {
      assert b in qs[ans[b].question].answers;
    }
    forall k, b | k in qs' && b in qs'[k].answers ensures b in ans' && ans'[b].question == k {
      assert b in ans && ans[b].question == k;
    }
    forall k | k in qs' ensures NoDup(qs'[k].answers) {
      assert NoDup(qs[k].answers);
    }
    assert AnswersLinked(qs', ans');
  }

  /** The links stay two-way after removing answer `id` when every list of
      `qs'` keeps exactly the old entries other than `id`, without duplicates. */
  lemma LinkedAfterPull(qs: map<Id, QM.QuestionRec>, ans: map<Id, AM.AnswerRec>, id: Id, qs': map<Id, QM.QuestionRec>)
    requires AnswersLinked(qs, ans) && qs'.Keys == qs.Keys
    requires forall k, a :: k in qs' && a in qs'[k].answers ==> a in qs[k].answers && a != id
    requires forall a :: a in ans && a != id ==> a in qs'[ans[a].question].answers
    requires forall k :: k in qs' ==> NoDup(qs'[k].answers)
    ensures AnswersLinked(qs', ans - {id})
  {
    ListedRemain(qs, ans, id, qs');
    RemainListed(qs, ans, id, qs');
  }

  /** Every entry left in a pulled list names a remaining answer of that question. */
  lemma ListedRemain(qs: map<Id, QM.QuestionRec>, ans: map<Id, AM.AnswerRec>, id: Id, qs': map<Id, QM.QuestionRec>)
    requires forall k, a :: k in qs && a in qs[k].answers ==> a in ans && ans[a].question == k
    requires qs'.Keys == qs.Keys
    requires forall k, a :: k in qs' && a in qs'[k].answers ==> a in qs[k].answers && a != id
    ensures forall k, a :: k in qs' && a in qs'[k].answers ==> a in ans - {id} && (ans - {id})[a].question == k
  {
    var ans' := ans - {id};
    forall k, b | k in qs' && b in qs'[k].answers ensures b in ans' && ans'[b].question == k {
      assert b in qs[k].answers && b != id;
      assert b in ans && ans[b].question == k;
      assert ans'[b] == ans[b];
    }
  }

  /** Every remaining answer is still listed by its question. */
  lemma RemainListed(qs: map<Id, QM.QuestionRec>, ans: map<Id, AM.AnswerRec>, id: Id, qs': map<Id, QM.QuestionRec>)
    requires forall a :: a in ans ==> ans[a].question in qs
    requires qs'.Keys == qs.Keys
    requires forall a :: a in ans && a != id ==> a in qs'[ans[a].question].answers
    ensures forall a :: a in ans - {id} ==> (ans - {id})[a].question in qs' && a in qs'[(ans - {id})[a].question].answers
  {
    var ans' := ans - {id};
    forall b | b in ans' ensures ans'[b].question in qs' && b in qs'[ans'[b].question].answers {
      assert b in ans && b != id && ans'[b] == ans[b];
      assert b in qs'[ans[b].question].answers;
    }
  }

  /** The `$pull` of `id` from its question's list, with that question's
      accepted pointer set to `accepted`. */
  lemma PulledLists(qs: map<Id, QM.QuestionRec>, ans: map<Id, AM.AnswerRec>, id: Id, accepted: Option<Id>,
                    qs': map<Id, QM.QuestionRec>)
    requires AnswersLinked(qs, ans) && id in ans
    requires qs' == qs[ans[id].question := qs[ans[id].question].(
                       answers := Without(qs[ans[id].question].answers, id), acceptedAnswer := accepted)]
    ensures qs'.Keys == qs.Keys
    ensures forall k, a :: k in qs' && a in qs'[k].answers ==> a in qs[k].answers && a != id
    ensures forall a :: a in ans && a != id ==> a in qs'[ans[a].question].answers
    ensures forall k :: k in qs' ==> NoDup(qs'[k].answers)
  {
    var qid := ans[id].question;
    var q := qs[qid];
    forall k, a | k in qs' && a in qs'[k].answers ensures a in qs[k].answers && a != id {
      if k == qid {
        assert a in Without(q.answers, id);
      }
    }
    forall a | a in ans && a != id ensures a in qs'[ans[a].question].answers {
      assert a in qs[ans[a].question].answers;
    }
    NoDupWithout(q.answers, id);
    forall k | k in qs' ensures NoDup(qs'[k].answers) {
      if k != qid {
        assert qs'[k] == qs[k];
      }
    }
  }

  /** `deleteAnswer`'s `$pull`: the links stay two-way once the answer and its
      entry in its question's list are both gone. */
  lemma LinkedAfterAnswerDeleted(qs: map<Id, QM.QuestionRec>, ans: map<Id, AM.AnswerRec>, id: Id, accepted: Option<Id>)
    requires AnswersLinked(qs, ans) && id in ans
    ensures AnswersLinked(qs[ans[id].question := qs[ans[id].question].(
                             answers := Without(qs[ans[id].question].answers, id), acceptedAnswer := accepted)],
                          ans - {id})
  {
    var qs' := qs[ans[id].question := qs[ans[id].question].(
                    answers := Without(qs[ans[id].question].answers, id), acceptedAnswer := accepted)];
    PulledLists(qs, ans, id, accepted, qs');
    LinkedAfterPull(qs, ans, id, qs');
  }

  /** `deleteAnswer`: the answer goes, and so does its entry in its question's list. */
  lemma AnswerDeleted(qs: map<Id, QM.QuestionRec>, ans: map<Id, AM.AnswerRec>, ns: map<Id, NM.NotificationRec>,
                      us: map<UserId, UM.UserRec>, next: nat, id: Id, accepted: Option<Id>)
    requires Consistent(qs, ans, ns, us, next) && id in ans
    ensures Consistent(qs[ans[id].question := qs[ans[id].question].(
                          answers := Without(qs[ans[id].question].answers, id), acceptedAnswer := accepted)],
                       ans - {id}, ns, us, next)
  {
    LinkedAfterAnswerDeleted(qs, ans, id, accepted);
    var qid := ans[id].question;
    var q := qs[qid];
    var qs' := qs[qid := q.(answers := Without(q.answers, id), acceptedAnswer := accepted)];
    assert LedgersSound(qs', ans - {id}) by {
      assert QM.LedgerSound(qs'[qid]);
    }
    assert Consistent(qs', ans - {id}, ns, us, next);
  }

  /** The answers after `acceptAnswer`: the previously accepted answer `prev`,
      if it still exists, is unaccepted first, and the acceptance is then
      applied to `answerId` as stored after that. */
  function AcceptedIn(ans: map<Id, AM.AnswerRec>, prev: Option<Id>, answerId: Id, caller: UserId, now: Time): map<Id, AM.AnswerRec>
    requires answerId in ans
  {
    var unaccepted := if prev.Some? && prev.value in ans then ans[prev.value := AM.Unaccepted(ans[prev.value])] else ans;
    unaccepted[answerId := AM.Accepted(unaccepted[answerId], caller, now)]
  }

  /** After `acceptAnswer` exactly one of the two answers involved is
      accepted: the chosen one, by the caller at `now`, with its other fields
      kept; the previous one, when different and still present, is unaccepted;
      every other answer is untouched. */
  lemma AcceptedInEffect(ans: map<Id, AM.AnswerRec>, prev: Option<Id>, answerId: Id, caller: UserId, now: Time)
    requires answerId in ans
    ensures var r := AcceptedIn(ans, prev, answerId, caller, now);
      && r.Keys == ans.Keys
      && r[answerId] == AM.Accepted(ans[answerId], caller, now)
      && r[answerId].isAccepted && r[answerId].acceptedBy == Some(caller) && r[answerId].acceptedAt == Some(now)
      && (prev.Some? && prev.value in ans && prev.value != answerId ==>
            r[prev.value] == AM.Unaccepted(ans[prev.value]) && !r[prev.value].isAccepted)
      && (forall a :: a in ans && a != answerId && Some(a) != prev ==> r[a] == ans[a])
  {
  }

  /** `acceptAnswer`'s writes: unaccept the previous answer, accept the new
      one, set the pointer, and add a notification under a fresh id. */
  lemma AcceptKeeps(qs: map<Id, QM.QuestionRec>, ans: map<Id, AM.AnswerRec>, ns: map<Id, NM.NotificationRec>,
                    us: map<UserId, UM.UserRec>, next: nat, id: Id, answerId: Id, caller: UserId, now: Time,
                    notice: NM.NotificationRec)
    requires Consistent(qs, ans, ns, us, next) && id in qs && answerId in ans
    ensures Consistent(qs[id := qs[id].(acceptedAnswer := Some(answerId))],
                       AcceptedIn(ans, qs[id].acceptedAnswer, answerId, caller, now),
                       ns[next := notice], us, next + 1)
  {
    var prev := qs[id].acceptedAnswer;
    var qs' := qs[id := qs[id].(acceptedAnswer := Some(answerId))];
    var ans' := AcceptedIn(ans, prev, answerId, caller, now);
    AcceptedShape(ans, prev, answerId, caller, now);
    PointerSet(qs, id, Some(answerId));
    assert AllBelow(ns[next := notice], next + 1);
    LinksKept(qs, ans, ns, us, next, qs', ans', ns[next := notice], us, next + 1);
  }

  /** Setting a question's accepted pointer keeps every list and every ledger. */
  lemma PointerSet(qs: map<Id, QM.QuestionRec>, id: Id, accepted: Option<Id>)
    requires id in qs && forall k :: k in qs ==> QM.LedgerSound(qs[k])
    ensures var qs' := qs[id := qs[id].(acceptedAnswer := accepted)];
      && qs'.Keys == qs.Keys
      && forall k :: k in qs' ==> qs'[k].answers == qs[k].answers && QM.LedgerSound(qs'[k])
  {
    var qs' := qs[id := qs[id].(acceptedAnswer := accepted)];
    forall k | k in qs' ensures qs'[k].answers == qs[k].answers && QM.LedgerSound(qs'[k]) {
      assert QM.LedgerSound(qs[k]);
    }
  }

  /** Accepting and unaccepting keep each answer's question, author and ledger. */
  lemma AcceptedShape(ans: map<Id, AM.AnswerRec>, prev: Option<Id>, answerId: Id, caller: UserId, now: Time)
    requires answerId in ans && forall a :: a in ans ==> AM.LedgerSound(ans[a])
    ensures var r := AcceptedIn(ans, prev, answerId, caller, now);
      && r.Keys == ans.Keys
      && forall a :: a in r ==> r[a].question == ans[a].question && r[a].author == ans[a].author && AM.LedgerSound(r[a])
  {
    var r := AcceptedIn(ans, prev, answerId, caller, now);
    AcceptedInEffect(ans, prev, answerId, caller, now);
    forall a | a in r ensures r[a].question == ans[a].question && r[a].author == ans[a].author && AM.LedgerSound(r[a]) {
      AM.AcceptanceSound(ans[a], caller, now);
    }
  }

  /** Writes that keep every document, every link and every author, with sound
      ledgers, keep the invariant. */
  lemma LinksKept(qs: map<Id, QM.QuestionRec>, ans: map<Id, AM.AnswerRec>, ns: map<Id, NM.NotificationRec>,
                  us: map<UserId, UM.UserRec>, next: nat,
                  qs': map<Id, QM.QuestionRec>, ans': map<Id, AM.AnswerRec>, ns': map<Id, NM.NotificationRec>,
                  us': map<UserId, UM.UserRec>, next': nat)
    requires Consistent(qs, ans, ns, us, next)
    requires qs'.Keys == qs.Keys && ans'.Keys == ans.Keys
    requires forall k :: k in qs' ==> qs'[k].answers == qs[k].answers && QM.LedgerSound(qs'[k])
    requires forall a :: a in ans' ==> ans'[a].question == ans[a].question && ans'[a].author == ans[a].author && AM.LedgerSound(ans'[a])
    requires next <= next' && AllBelow(ns', next') && AllBelow(us', next')
    ensures Consistent(qs', ans', ns', us', next')
  {
    LinkedKept(qs, ans, qs', ans');
    assert OneAnswerPerAuthor(ans');
  }

  /** The links stay two-way when no answer list and no answer's question changes. */
  lemma LinkedKept(qs: map<Id, QM.QuestionRec>, ans: map<Id, AM.AnswerRec>,
                   qs': map<Id, QM.QuestionRec>, ans': map<Id, AM.AnswerRec>)
    requires AnswersLinked(qs, ans)
    requires qs'.Keys == qs.Keys && ans'.Keys == ans.Keys
    requires forall k :: k in qs' ==> qs'[k].answers == qs[k].answers
    requires forall a :: a in ans' ==> ans'[a].question == ans[a].question
    ensures AnswersLinked(qs', ans')
  {
    forall a | a in ans' ensures ans'[a].question in qs' && a in qs'[ans'[a].question].answers {
      assert a in ans && a in qs[ans[a].question].answers;
    }
    forall k, b | k in qs' && b in qs'[k].answers ensures b in ans' && ans'[b].question == k {
      assert k in qs && b in qs[k].answers;
    }
    forall k | k in qs' ensures NoDup(qs'[k].answers) {
      assert NoDup(qs[k].answers);
    }
  }

  /** `createAnswer`'s writes: the answer, its entry in the question's list,
      the author's counter, and a notification when the question is someone else's. */
  lemma CreateAnswerKeeps(qs: map<Id, QM.QuestionRec>, ans: map<Id, AM.AnswerRec>, ns: map<Id, NM.NotificationRec>,
                          us: map<UserId, UM.UserRec>, next: nat, a: AM.AnswerRec, caller: UserId,
                          notify: bool, notice: NM.NotificationRec,
                          qs': map<Id, QM.QuestionRec>, ans': map<Id, AM.AnswerRec>, ns': map<Id, NM.NotificationRec>,
                          us': map<UserId, UM.UserRec>, next': nat)
    requires Consistent(qs, ans, ns, us, next) && a.question in qs && caller in us
    requires a == AM.NewAnswer(a.content, caller, a.question, a.createdAt)
    requires !HasAnswered(ans, a.question, caller)
    requires qs' == qs[a.question := qs[a.question].(answers := qs[a.question].answers + [next])]
    requires ans' == ans[next := a]
    requires ns' == (if notify then ns[next + 1 := notice] else ns)
    requires us' == us[caller := UM.WithAnswers(us[caller], 1)]
    requires next' == if notify then next + 2 else next + 1
    ensures Consistent(qs', ans', ns', us', next')
  {
    AM.NewAnswerDefaults(a.content, caller, a.question, a.createdAt);
    AnswerAdded(qs, ans, ns, us, next, a);
    Reframed(qs', ans', ns, us, next + 1, ns', us', next');
  }

  /** `acceptAnswer` does not check that the answer belongs to the question,
      so from a consistent store it can point a question at another
      question's answer: the invariant still holds, but the accepted pointer
      names an answer the question does not list. */
  lemma AcceptAcrossQuestions(qs: map<Id, QM.QuestionRec>, ans: map<Id, AM.AnswerRec>, ns: map<Id, NM.NotificationRec>,
                              us: map<UserId, UM.UserRec>, next: nat, id: Id, answerId: Id, caller: UserId, now: Time,
                              notice: NM.NotificationRec)
    requires Consistent(qs, ans, ns, us, next) && id in qs && answerId in ans && ans[answerId].question != id
    ensures Consistent(qs[id := qs[id].(acceptedAnswer := Some(answerId))],
                       AcceptedIn(ans, qs[id].acceptedAnswer, answerId, caller, now),
                       ns[next := notice], us, next + 1)
    ensures answerId in AcceptedIn(ans, qs[id].acceptedAnswer, answerId, caller, now)
    ensures AcceptedIn(ans, qs[id].acceptedAnswer, answerId, caller, now)[answerId].question != id
    ensures AcceptedIn(ans, qs[id].acceptedAnswer, answerId, caller, now)[answerId].isAccepted
    ensures answerId !in qs[id].answers
  {
    AcceptKeeps(qs, ans, ns, us, next, id, answerId, caller, now, notice);
    AcceptedInEffect(ans, qs[id].acceptedAnswer, answerId, caller, now);
  }

  function ExampleQuestion(answers: seq<Id>): QM.QuestionRec {
    QM.QuestionRec("Title", "Description", [], 3, VoteLedger.NoVotes, 0, 0, answers, None, Some(QM.Active),
                   false, None, None, None, 0)
  }

  function ExampleUser(name: string): UM.UserRec {
    UM.UserRec(name, "user", false, None, None, None, 0, 0, 0)
  }

  /** A reachable instance: user 3 asked questions 0 and 1, user 4 answered
      question 1 with answer 2, and nothing is accepted. The store is
      consistent and user 3 may accept answer 2 on question 0. */
  lemma CrossAcceptInstance()
    ensures Consistent(map[0 := ExampleQuestion([]), 1 := ExampleQuestion([2])],
                       map[2 := AM.AnswerRec("Answer", 4, 1, VoteLedger.NoVotes, 0, false, None, None, [], false, None, None, None, 0)],
                       map[], map[3 := ExampleUser("asker"), 4 := ExampleUser("answerer")], 5)
  {
    var qs := map[0 := ExampleQuestion([]), 1 := ExampleQuestion([2])];
    var ans := map[2 := AM.AnswerRec("Answer", 4, 1, VoteLedger.NoVotes, 0, false, None, None, [], false, None, None, None, 0)];
    assert VoteLedger.Excludes(VoteLedger.NoVotes, 3) && VoteLedger.Excludes(VoteLedger.NoVotes, 4) && VoteLedger.WellFormed(VoteLedger.NoVotes) && VoteLedger.Score(VoteLedger.NoVotes) == 0;
    assert LedgersSound(qs, ans);
    assert AnswersLinked(qs, ans);
  }

  /** A question after `deleteAnswer`: the answer is pulled from its list,
      and the accepted pointer cleared when it named that answer. */
  function Pulled(q: QM.QuestionRec, id: Id): (r: QM.QuestionRec)
    ensures forall a :: a in r.answers <==> a in q.answers && a != id
    ensures r.acceptedAnswer == (if q.acceptedAnswer == Some(id) then None else q.acceptedAnswer)
    ensures r.(answers := q.answers, acceptedAnswer := q.acceptedAnswer) == q
  {
    q.(answers := Without(q.answers, id), acceptedAnswer := if q.acceptedAnswer == Some(id) then None else q.acceptedAnswer)
  }

  /** `deleteAnswer`'s writes: the `$pull`, the cleared pointer, the deletes
      and the counter. */
  lemma DeleteAnswerKeeps(qs: map<Id, QM.QuestionRec>, ans: map<Id, AM.AnswerRec>, ns: map<Id, NM.NotificationRec>,
                          us: map<UserId, UM.UserRec>, next: nat, id: Id, caller: UserId)
    requires Consistent(qs, ans, ns, us, next) && id in ans && caller in us
    ensures Consistent(qs[ans[id].question := Pulled(qs[ans[id].question], id)],
                       ans - {id}, NotificationsOffAnswer(ns, id), us[caller := UM.WithAnswers(us[caller], -1)], next)
  {
    var q := qs[ans[id].question];
    var accepted := if q.acceptedAnswer == Some(id) then None else q.acceptedAnswer;
    AnswerDeleted(qs, ans, ns, us, next, id, accepted);
    assert Pulled(q, id) == q.(answers := Without(q.answers, id), acceptedAnswer := accepted);
    var qs' := qs[ans[id].question := Pulled(q, id)];
    Reframed(qs', ans - {id}, ns, us, next, NotificationsOffAnswer(ns, id), us[caller := UM.WithAnswers(us[caller], -1)], next);
  }

  // ---------------------------------------------------------------------
  // The notifications the handlers create

  function AcceptNotice(recipient: UserId, sender: UserId, questionTitle: string, qid: Id, aid: Id,
                        now: Time): NM.NotificationRec {
    NM.NewNotification(recipient, Some(sender), NM.Accept, "Answer Accepted",
      "Your answer to \"" + questionTitle + "\" has been accepted!", Some(qid), Some(aid), now)
  }

  function AnswerNotice(recipient: UserId, sender: UserId, senderName: string, questionTitle: string, qid: Id,
                        aid: Id, now: Time): NM.NotificationRec {
    NM.NewNotification(recipient, Some(sender), NM.Answer, "New Answer",
      senderName + " answered your question \"" + questionTitle + "\"", Some(qid), Some(aid), now)
  }

  function BanNotice(target: UserId, admin: UserId, reason: Option<string>, now: Time): NM.NotificationRec {
    NM.NewNotification(target, Some(admin), NM.Alert, "Account Banned",
      "Your account has been banned. Reason: " + Shown(reason), None, None, now)
  }

  function QuestionModeratedNotice(author: UserId, admin: UserId, questionTitle: string, status: Option<string>,
                                   reason: Option<string>, qid: Id, now: Time): NM.NotificationRec {
    NM.NewNotification(author, Some(admin), NM.Moderation, "Question Moderated",
      "Your question \"" + questionTitle + "\" has been " + Shown(status) + ". Reason: " + Shown(reason),
      Some(qid), None, now)
  }

  function AnswerModeratedNotice(author: UserId, admin: UserId, reason: Option<string>, aid: Id,
                                 now: Time): NM.NotificationRec {
    NM.NewNotification(author, Some(admin), NM.Moderation, "Answer Moderated",
      "Your answer has been moderated. Reason: " + Shown(reason), None, Some(aid), now)
  }

  /** The fields `updateQuestion` assigns: a non-empty title (trimmed by the
      schema), a non-empty description, and the lowercased tags. */
  function Edited(q: QM.QuestionRec, title: string, description: string, tags: seq<string>): QM.QuestionRec {
    q.(title := if title != "" then Text.Trim(title) else q.title,
       description := if description != "" then description else q.description,
       tags := QM.StoredTags(tags))
  }

  /** An empty title or description keeps the old one; supplied text
      replaces it; every stored tag is in normal form; no other field moves. */
  lemma EditedFields(q: QM.QuestionRec, title: string, description: string, tags: seq<string>)
    ensures title == "" ==> Edited(q, title, description, tags).title == q.title
    ensures title != "" ==> Edited(q, title, description, tags).title == Text.Trim(title)
    ensures description == "" ==> Edited(q, title, description, tags).description == q.description
    ensures description != "" ==> Edited(q, title, description, tags).description == description
    ensures |Edited(q, title, description, tags).tags| == |tags|
    ensures forall i :: 0 <= i < |tags| ==>
      QM.StoredTag(Edited(q, title, description, tags).tags[i]) == Edited(q, title, description, tags).tags[i]
    ensures Edited(q, title, description, tags).(title := q.title, description := q.description, tags := q.tags) == q
  {
    var r := Edited(q, title, description, tags);
    forall i | 0 <= i < |tags| ensures QM.StoredTag(r.tags[i]) == r.tags[i] {
      Text.NormalizeIdempotent(tags[i]);
    }
  }

  /** Sending the same edit twice stores the same question as sending it once. */
  lemma EditedIdempotent(q: QM.QuestionRec, title: string, description: string, tags: seq<string>)
    ensures Edited(Edited(q, title, description, tags), title, description, tags) == Edited(q, title, description, tags)
  {
    var r := Edited(q, title, description, tags);
    Text.TrimIdempotent(title);
    EditedFields(q, title, description, tags);
    assert QM.StoredTags(tags) == r.tags;
  }

  /** Whether `caller` has already answered question `qid`. */
  predicate HasAnswered(ans: map<Id, AM.AnswerRec>, qid: Id, caller: UserId) {
    exists a :: a in ans && ans[a].question == qid && ans[a].author == caller
  }

  // ---------------------------------------------------------------------
  // The store

  class Store {
    var questions: map<Id, QM.QuestionRec>
    var answers: map<Id, AM.AnswerRec>
    var notifications: map<Id, NM.NotificationRec>
    var users: map<UserId, UM.UserRec>
    var nextId: nat

    predicate Valid()
      reads this
    {
      Consistent(questions, answers, notifications, users, nextId)
    }

    /** A store holding the given accounts and no content. */
    constructor (accounts: map<UserId, UM.UserRec>, next: nat)
      requires AllBelow(accounts, next)
      ensures Valid()
      ensures questions == map[] && answers == map[] && notifications == map[]
      ensures users == accounts && nextId == next
    {
      questions, answers, notifications := map[], map[], map[];
      users, nextId := accounts, next;
    }

    /** `auth`: the token must name an account, and the account must not be banned. */
    function Auth(callerId: UserId): (r: Result<Caller>)
      reads this
      ensures r.Success? <==> callerId in users && !users[callerId].isBanned
      ensures r.Failure? ==> r.error == (if callerId in users then Forbidden else Unauthorized)
      ensures r.Success? ==> r.value == UM.AsCaller(callerId, users[callerId])
    {
      if callerId !in users then Failure(Unauthorized)
      else if users[callerId].isBanned then Failure(Forbidden)
      else Success(UM.AsCaller(callerId, users[callerId]))
    }

    /** `adminAuth`: `auth`, then the role must be "admin". */
    function AdminAuth(callerId: UserId): (r: Result<Caller>)
      reads this
      ensures r.Success? <==> Auth(callerId).Success? && users[callerId].role == "admin"
      ensures r.Success? ==> r == Auth(callerId)
      ensures r.Failure? && Auth(callerId).Failure? ==> r == Auth(callerId)
      ensures r.Failure? && Auth(callerId).Success? ==> r.error == Forbidden
    {
      var a := Auth(callerId);
      if a.Failure? then a
      else if !IsAdmin(a.value) then Failure(Forbidden)
      else a
    }

    // ---------------------------------------------------------------
    // questionController

    /** `getQuestion`: a public read that also raises `views` by one. */
    method GetQuestion(id: Id) returns (r: Result<QM.QuestionRec>)
      requires Valid()
      modifies this
      ensures Valid()
      ensures id !in old(questions) ==> r == Failure(NotFound) && unchanged(this)
      ensures id in old(questions) ==>
        && r.Success?
        && questions == old(questions)[id := old(questions)[id].(views := old(questions)[id].views + 1)]
        && r.value == questions[id]
        && answers == old(answers) && notifications == old(notifications)
        && users == old(users) && nextId == old(nextId)
    {
      if id !in questions {
        return Failure(NotFound);
      }
      var question := new QM.Question.Load(questions[id]);
      question.views := question.views + 1;
      QuestionReplaced(questions, answers, notifications, users, nextId, id, question.Record());
      questions := questions[id := question.Record()];
      r := Success(question.Record());
    }

    /** `createQuestion`: validation, `new Question(...)` with lowercased tags,
        `save`, then `$inc` of the caller's `questionsCount`. */
    method CreateQuestion(callerId: UserId, title: string, description: string, tags: seq<string>, now: Time)
      returns (r: Result<Id>)
      requires Valid()
      modifies this
      ensures Valid()
      ensures old(Auth(callerId)).Failure? ==> r == Failure(old(Auth(callerId)).error) && unchanged(this)
      ensures old(Auth(callerId)).Success? && !QuestionRoutes.QuestionValid(title, description, tags) ==>
        r == Failure(Invalid) && unchanged(this)
      ensures r.Failure? ==> unchanged(this)
      ensures r.Success? <==>
        (&& old(Auth(callerId)).Success? && QuestionRoutes.QuestionValid(title, description, tags)
         && QM.SchemaAccepts(QM.NewQuestion(title, description, tags, callerId, now)))
      ensures r.Success? ==>
        && r.value == old(nextId) && r.value !in old(questions)
        && questions == old(questions)[r.value := QM.NewQuestion(title, description, tags, callerId, now)]
        && users == old(users)[callerId := UM.WithQuestions(old(users)[callerId], 1)]
        && answers == old(answers) && notifications == old(notifications)
        && nextId == old(nextId) + 1
    {
      var auth := Auth(callerId);
      if auth.Failure? {
        return Failure(auth.error);
      }
      if !QuestionRoutes.QuestionValid(title, description, tags) {
        return Failure(Invalid);
      }
      var question := QM.NewQuestion(title, description, tags, callerId, now);
      if !QM.SchemaAccepts(question) {
        return Failure(Invalid);
      }
      var id := nextId;
      QM.NewQuestionDefaults(title, description, tags, callerId, now);
      QuestionAdded(questions, answers, notifications, users, nextId, question);
      var account := UM.WithQuestions(users[callerId], 1);
      Reframed(questions[id := question], answers, notifications, users, nextId + 1,
               notifications, users[callerId := account], nextId + 1);
      questions := questions[id := question];
      nextId := nextId + 1;
      users := users[callerId := account];
      r := Success(id);
    }

    /** `updateQuestion`: validation, existence, owner or admin, then
        `title || question.title` and the like, and `save`. */
    method UpdateQuestion(callerId: UserId, id: Id, title: string, description: string, tags: seq<string>)
      returns (r: Outcome)
      requires Valid()
      modifies this
      ensures Valid()
      ensures old(Auth(callerId)).Failure? ==> r == Err(old(Auth(callerId)).error) && unchanged(this)
      ensures old(Auth(callerId)).Success? && !QuestionRoutes.QuestionValid(title, description, tags) ==>
        r == Err(Invalid) && unchanged(this)
      ensures (old(Auth(callerId)).Success? && QuestionRoutes.QuestionValid(title, description, tags)
               && id !in old(questions)) ==> r == Err(NotFound) && unchanged(this)
      ensures (old(Auth(callerId)).Success? && QuestionRoutes.QuestionValid(title, description, tags)
               && id in old(questions) && !OwnerOrAdmin(old(questions)[id].author, old(Auth(callerId)).value)) ==>
        r == Err(Forbidden) && unchanged(this)
      ensures r.Ok? <==>
        (&& old(Auth(callerId)).Success? && QuestionRoutes.QuestionValid(title, description, tags)
         && id in old(questions) && OwnerOrAdmin(old(questions)[id].author, old(Auth(callerId)).value)
         && QM.SchemaAccepts(Edited(old(questions)[id], title, description, tags)))
      ensures r.Err? ==> unchanged(this)
      ensures r.Ok? ==>
        && questions == old(questions)[id := Edited(old(questions)[id], title, description, tags)]
        && answers == old(answers) && notifications == old(notifications)
        && users == old(users) && nextId == old(nextId)
    {
      var auth := Auth(callerId);
      if auth.Failure? {
        return Err(auth.error);
      }
      if !QuestionRoutes.QuestionValid(title, description, tags) {
        return Err(Invalid);
      }
      if id !in questions {
        return Err(NotFound);
      }
      if !OwnerOrAdmin(questions[id].author, auth.value) {
        return Err(Forbidden);
      }
      var edited := Edited(questions[id], title, description, tags);
      if !QM.SchemaAccepts(edited) {
        return Err(Invalid);
      }
      QuestionReplaced(questions, answers, notifications, users, nextId, id, edited);
      questions := questions[id := edited];
      r := Ok;
    }

    /** `deleteQuestion`: existence, owner or admin, then the cascade and a
        decrement of the deleting caller's `questionsCount`. */
    method DeleteQuestion(callerId: UserId, id: Id) returns (r: Outcome)
      requires Valid()
      modifies this
      ensures Valid()
      ensures old(Auth(callerId)).Failure? ==> r == Err(old(Auth(callerId)).error) && unchanged(this)
      ensures old(Auth(callerId)).Success? && id !in old(questions) ==> r == Err(NotFound) && unchanged(this)
      ensures (old(Auth(callerId)).Success? && id in old(questions)
               && !OwnerOrAdmin(old(questions)[id].author, old(Auth(callerId)).value)) ==>
        r == Err(Forbidden) && unchanged(this)
      ensures r.Ok? <==>
        (old(Auth(callerId)).Success? && id in old(questions)
         && OwnerOrAdmin(old(questions)[id].author, old(Auth(callerId)).value))
      ensures r.Ok? ==>
        && questions == old(questions) - {id}
        && answers == AnswersWithout(old(answers), id)
        && notifications == NotificationsOffQuestion(old(notifications), id)
        && users == old(users)[callerId := UM.WithQuestions(old(users)[callerId], -1)]
        && nextId == old(nextId)
    {
      var auth := Auth(callerId);
      if auth.Failure? {
        return Err(auth.error);
      }
      if id !in questions {
        return Err(NotFound);
      }
      if !OwnerOrAdmin(questions[id].author, auth.value) {
        return Err(Forbidden);
      }
      QuestionDeleted(questions, answers, notifications, users, nextId, id);
      var account := UM.WithQuestions(users[callerId], -1);
      Reframed(questions - {id}, AnswersWithout(answers, id), notifications, users, nextId,
               NotificationsOffQuestion(notifications, id), users[callerId := account], nextId);
      answers := AnswersWithout(answers, id);
      notifications := NotificationsOffQuestion(notifications, id);
      questions := questions - {id};
      users := users[callerId := account];
      r := Ok;
    }

    /** `voteQuestion`: existence, no vote on one's own question, then
        `addVote`. The vote type is not validated here: an unknown type is
        recorded as a successful vote that changes nothing. */
    method VoteQuestion(callerId: UserId, id: Id, voteType: string) returns (r: Result<int>)
      requires Valid()
      modifies this
      ensures Valid()
      ensures old(Auth(callerId)).Failure? ==> r == Failure(old(Auth(callerId)).error) && unchanged(this)
      ensures old(Auth(callerId)).Success? && id !in old(questions) ==> r == Failure(NotFound) && unchanged(this)
      ensures old(Auth(callerId)).Success? && id in old(questions) && old(questions)[id].author == callerId ==>
        r == Failure(SelfVote) && unchanged(this)
      ensures r.Success? <==> old(Auth(callerId)).Success? && id in old(questions) && old(questions)[id].author != callerId
      ensures r.Success? ==>
        && questions == old(questions)[id := QM.Voted(old(questions)[id], callerId, voteType)]
        && r.value == questions[id].voteCount
        && answers == old(answers) && notifications == old(notifications)
        && users == old(users) && nextId == old(nextId)
    {
      var auth := Auth(callerId);
      if auth.Failure? {
        return Failure(auth.error);
      }
      if id !in questions {
        return Failure(NotFound);
      }
      var question := new QM.Question.Load(questions[id]);
      if question.author == callerId {
        return Failure(SelfVote);
      }
      VoteLedger.CastConsistent(questions[id].votes, questions[id].voteCount, questions[id].author, callerId, voteType);
      question.AddVote(callerId, voteType);
      QuestionReplaced(questions, answers, notifications, users, nextId, id, question.Record());
      questions := questions[id := question.Record()];
      r := Success(question.voteCount);
    }

    /** `acceptAnswer`: only the question's author; the answer must exist but
        need not belong to this question. The previously accepted answer, if
        it still exists, is unaccepted; the new one is accepted, the pointer
        set, and the answer's author notified, even when that is the caller.
        The acceptance is applied to the answer as stored after the unaccept. */
    method AcceptAnswer(callerId: UserId, id: Id, answerId: Id, now: Time) returns (r: Outcome)
      requires Valid()
      modifies this
      ensures Valid()
      ensures old(Auth(callerId)).Failure? ==> r == Err(old(Auth(callerId)).error) && unchanged(this)
      ensures old(Auth(callerId)).Success? && id !in old(questions) ==> r == Err(NotFound) && unchanged(this)
      ensures old(Auth(callerId)).Success? && id in old(questions) && old(questions)[id].author != callerId ==>
        r == Err(Forbidden) && unchanged(this)
      ensures (old(Auth(callerId)).Success? && id in old(questions) && old(questions)[id].author == callerId
               && answerId !in old(answers)) ==> r == Err(NotFound) && unchanged(this)
      ensures r.Ok? <==>
        (old(Auth(callerId)).Success? && id in old(questions)
         && old(questions)[id].author == callerId && answerId in old(answers))
      ensures r.Ok? ==>
        && answers == AcceptedIn(old(answers), old(questions)[id].acceptedAnswer, answerId, callerId, now)
        && questions == old(questions)[id := old(questions)[id].(acceptedAnswer := Some(answerId))]
        && notifications == old(notifications)[old(nextId) :=
             AcceptNotice(old(answers)[answerId].author, callerId, old(questions)[id].title, id, answerId, now)]
        && old(nextId) !in old(notifications)
        && users == old(users) && nextId == old(nextId) + 1
      ensures r.Ok? ==> questions[id].acceptedAnswer == Some(answerId) && answers[answerId].isAccepted
      ensures (r.Ok? && old(questions)[id].acceptedAnswer.Some? && old(questions)[id].acceptedAnswer.value in old(answers)
               && old(questions)[id].acceptedAnswer.value != answerId) ==>
        !answers[old(questions)[id].acceptedAnswer.value].isAccepted
    {
      var auth := Auth(callerId);
      if auth.Failure? {
        return Err(auth.error);
      }
      if id !in questions {
        return Err(NotFound);
      }
      if questions[id].author != callerId {
        return Err(Forbidden);
      }
      if answerId !in answers {
        return Err(NotFound);
      }
      AcceptedInEffect(answers, questions[id].acceptedAnswer, answerId, callerId, now);
      ApplyAcceptance(callerId, id, answerId, now);
      r := Ok;
    }

    /** `acceptAnswer`'s writes once its checks have passed. */
    method ApplyAcceptance(callerId: UserId, id: Id, answerId: Id, now: Time)
      requires Valid() && id in questions && answerId in answers
      modifies this
      ensures Valid()
      ensures answers == AcceptedIn(old(answers), old(questions)[id].acceptedAnswer, answerId, callerId, now)
      ensures questions == old(questions)[id := old(questions)[id].(acceptedAnswer := Some(answerId))]
      ensures notifications == old(notifications)[old(nextId) :=
                AcceptNotice(old(answers)[answerId].author, callerId, old(questions)[id].title, id, answerId, now)]
      ensures old(nextId) !in old(notifications)
      ensures users == old(users) && nextId == old(nextId) + 1
    {
      var question := questions[id];
      var notice := AcceptNotice(answers[answerId].author, callerId, question.title, id, answerId, now);
      AcceptKeeps(questions, answers, notifications, users, nextId, id, answerId, callerId, now, notice);
      answers := AcceptedIn(answers, question.acceptedAnswer, answerId, callerId, now);
      questions := questions[id := question.(acceptedAnswer := Some(answerId))];
      notifications := notifications[nextId := notice];
      nextId := nextId + 1;
    }

    // ---------------------------------------------------------------
    // answerController

    /** `createAnswer`: validation, the question must exist, the caller must
        not have answered it yet; the new answer is appended to
        `question.answers`, the caller's `answersCount` raised, and the
        question's author notified unless the caller is that author. */
    method CreateAnswer(callerId: UserId, questionId: Id, content: string, now: Time) returns (r: Result<Id>)
      requires Valid()
      modifies this
      ensures Valid()
      ensures old(Auth(callerId)).Failure? ==> r == Failure(old(Auth(callerId)).error) && unchanged(this)
      ensures old(Auth(callerId)).Success? && !AnswerRoutes.ContentValid(content) ==> r == Failure(Invalid) && unchanged(this)
      ensures (old(Auth(callerId)).Success? && AnswerRoutes.ContentValid(content) && questionId !in old(questions)) ==>
        r == Failure(NotFound) && unchanged(this)
      ensures (old(Auth(callerId)).Success? && AnswerRoutes.ContentValid(content) && questionId in old(questions)
               && HasAnswered(old(answers), questionId, callerId)) ==>
        r == Failure(AlreadyAnswered) && unchanged(this)
      ensures r.Success? <==>
        (old(Auth(callerId)).Success? && AnswerRoutes.ContentValid(content) && questionId in old(questions)
         && !HasAnswered(old(answers), questionId, callerId))
      ensures r.Success? ==>
        && r.value == old(nextId) && r.value !in old(answers)
        && answers == old(answers)[r.value := AM.NewAnswer(content, callerId, questionId, now)]
        && questions == old(questions)[questionId := old(questions)[questionId].(
             answers := old(questions)[questionId].answers + [r.value])]
        && users == old(users)[callerId := UM.WithAnswers(old(users)[callerId], 1)]
      ensures r.Success? && old(questions)[questionId].author == callerId ==>
        notifications == old(notifications) && nextId == old(nextId) + 1
      ensures r.Success? && old(questions)[questionId].author != callerId ==>
        && notifications == old(notifications)[old(nextId) + 1 := AnswerNotice(
             old(questions)[questionId].author, callerId, old(users)[callerId].username,
             old(questions)[questionId].title, questionId, r.value, now)]
        && old(nextId) + 1 !in old(notifications)
        && nextId == old(nextId) + 2
    {
      var auth := Auth(callerId);
      if auth.Failure? {
        return Failure(auth.error);
      }
      if !AnswerRoutes.ContentValid(content) {
        return Failure(Invalid);
      }
      if questionId !in questions {
        return Failure(NotFound);
      }
      if HasAnswered(answers, questionId, callerId) {
        return Failure(AlreadyAnswered);
      }
      var aid := InsertAnswer(callerId, questionId, content, now);
      r := Success(aid);
    }

    /** `createAnswer`'s writes once its checks have passed. */
    method InsertAnswer(callerId: UserId, questionId: Id, content: string, now: Time) returns (aid: Id)
      requires Valid() && callerId in users && questionId in questions
      requires !HasAnswered(answers, questionId, callerId)
      modifies this
      ensures Valid()
      ensures aid == old(nextId) && aid !in old(answers)
      ensures answers == old(answers)[aid := AM.NewAnswer(content, callerId, questionId, now)]
      ensures questions == old(questions)[questionId := old(questions)[questionId].(
                answers := old(questions)[questionId].answers + [aid])]
      ensures users == old(users)[callerId := UM.WithAnswers(old(users)[callerId], 1)]
      ensures old(questions)[questionId].author == callerId ==>
        notifications == old(notifications) && nextId == old(nextId) + 1
      ensures old(questions)[questionId].author != callerId ==>
        && notifications == old(notifications)[old(nextId) + 1 := AnswerNotice(
             old(questions)[questionId].author, callerId, old(users)[callerId].username,
             old(questions)[questionId].title, questionId, aid, now)]
        && old(nextId) + 1 !in old(notifications)
        && nextId == old(nextId) + 2
    {
      aid := nextId;
      var question := questions[questionId];
      var answer := AM.NewAnswer(content, callerId, questionId, now);
      var notify := question.author != callerId;
      var notice := AnswerNotice(question.author, callerId, users[callerId].username, question.title, questionId, aid, now);
      answers := answers[aid := answer];
      questions := questions[questionId := question.(answers := question.answers + [aid])];
      users := users[callerId := UM.WithAnswers(users[callerId], 1)];
      notifications := if notify then notifications[aid + 1 := notice] else notifications;
      nextId := if notify then aid + 2 else aid + 1;
      CreateAnswerKeeps(old(questions), old(answers), old(notifications), old(users), aid, answer, callerId, notify, notice,
                        questions, answers, notifications, users, nextId);
    }

    /** `updateAnswer`: validation, existence, owner or admin; only `content` changes. */
    method UpdateAnswer(callerId: UserId, id: Id, content: string) returns (r: Outcome)
      requires Valid()
      modifies this
      ensures Valid()
      ensures old(Auth(callerId)).Failure? ==> r == Err(old(Auth(callerId)).error) && unchanged(this)
      ensures old(Auth(callerId)).Success? && !AnswerRoutes.ContentValid(content) ==> r == Err(Invalid) && unchanged(this)
      ensures (old(Auth(callerId)).Success? && AnswerRoutes.ContentValid(content) && id !in old(answers)) ==>
        r == Err(NotFound) && unchanged(this)
      ensures (old(Auth(callerId)).Success? && AnswerRoutes.ContentValid(content) && id in old(answers)
               && !OwnerOrAdmin(old(answers)[id].author, old(Auth(callerId)).value)) ==>
        r == Err(Forbidden) && unchanged(this)
      ensures r.Ok? <==>
        (old(Auth(callerId)).Success? && AnswerRoutes.ContentValid(content) && id in old(answers)
         && OwnerOrAdmin(old(answers)[id].author, old(Auth(callerId)).value))
      ensures r.Ok? ==>
        && answers == old(answers)[id := old(answers)[id].(content := content)]
        && questions == old(questions) && notifications == old(notifications)
        && users == old(users) && nextId == old(nextId)
    {
      var auth := Auth(callerId);
      if auth.Failure? {
        return Err(auth.error);
      }
      if !AnswerRoutes.ContentValid(content) {
        return Err(Invalid);
      }
      if id !in answers {
        return Err(NotFound);
      }
      var answer := new AM.Answer.Load(answers[id]);
      if !OwnerOrAdmin(answer.author, auth.value) {
        return Err(Forbidden);
      }
      answer.content := content;
      AnswerReplaced(questions, answers, notifications, users, nextId, id, answer.Record());
      answers := answers[id := answer.Record()];
      r := Ok;
    }

    /** `deleteAnswer`: existence, owner or admin; `$pull` from the question's
        list, clear `acceptedAnswer` exactly when it is this answer, delete the
        answer's notifications and the answer, and decrement the deleting
        caller's `answersCount`. */
    method DeleteAnswer(callerId: UserId, id: Id) returns (r: Outcome)
      requires Valid()
      modifies this
      ensures Valid()
      ensures old(Auth(callerId)).Failure? ==> r == Err(old(Auth(callerId)).error) && unchanged(this)
      ensures old(Auth(callerId)).Success? && id !in old(answers) ==> r == Err(NotFound) && unchanged(this)
      ensures (old(Auth(callerId)).Success? && id in old(answers)
               && !OwnerOrAdmin(old(answers)[id].author, old(Auth(callerId)).value)) ==>
        r == Err(Forbidden) && unchanged(this)
      ensures r.Ok? <==>
        (old(Auth(callerId)).Success? && id in old(answers)
         && OwnerOrAdmin(old(answers)[id].author, old(Auth(callerId)).value))
      ensures r.Ok? ==>
        && questions == old(questions)[old(answers)[id].question := Pulled(old(questions)[old(answers)[id].question], id)]
        && answers == old(answers) - {id}
        && notifications == NotificationsOffAnswer(old(notifications), id)
        && users == old(users)[callerId := UM.WithAnswers(old(users)[callerId], -1)]
        && nextId == old(nextId)
    {
      var auth := Auth(callerId);
      if auth.Failure? {
        return Err(auth.error);
      }
      if id !in answers {
        return Err(NotFound);
      }
      if !OwnerOrAdmin(answers[id].author, auth.value) {
        return Err(Forbidden);
      }
      RemoveAnswer(callerId, id);
      r := Ok;
    }

    /** `deleteAnswer`'s writes once its checks have passed. */
    method RemoveAnswer(callerId: UserId, id: Id)
      requires Valid() && id in answers && callerId in users
      modifies this
      ensures Valid()
      ensures questions == old(questions)[old(answers)[id].question := Pulled(old(questions)[old(answers)[id].question], id)]
      ensures answers == old(answers) - {id}
      ensures notifications == NotificationsOffAnswer(old(notifications), id)
      ensures users == old(users)[callerId := UM.WithAnswers(old(users)[callerId], -1)]
      ensures nextId == old(nextId)
    {
      var qid := answers[id].question;
      DeleteAnswerKeeps(questions, answers, notifications, users, nextId, id, callerId);
      questions := questions[qid := Pulled(questions[qid], id)];
      notifications := NotificationsOffAnswer(notifications, id);
      answers := answers - {id};
      users := users[callerId := UM.WithAnswers(users[callerId], -1)];
    }

    /** `voteAnswer`: existence, no vote on one's own answer, then `addVote`. */
    method VoteAnswer(callerId: UserId, id: Id, voteType: string) returns (r: Result<int>)
      requires Valid()
      modifies this
      ensures Valid()
      ensures old(Auth(callerId)).Failure? ==> r == Failure(old(Auth(callerId)).error) && unchanged(this)
      ensures old(Auth(callerId)).Success? && id !in old(answers) ==> r == Failure(NotFound) && unchanged(this)
      ensures old(Auth(callerId)).Success? && id in old(answers) && old(answers)[id].author == callerId ==>
        r == Failure(SelfVote) && unchanged(this)
      ensures r.Success? <==> old(Auth(callerId)).Success? && id in old(answers) && old(answers)[id].author != callerId
      ensures r.Success? ==>
        && answers == old(answers)[id := AM.Voted(old(answers)[id], callerId, voteType)]
        && r.value == answers[id].voteCount
        && questions == old(questions) && notifications == old(notifications)
        && users == old(users) && nextId == old(nextId)
    {
      var auth := Auth(callerId);
      if auth.Failure? {
        return Failure(auth.error);
      }
      if id !in answers {
        return Failure(NotFound);
      }
      var answer := new AM.Answer.Load(answers[id]);
      if answer.author == callerId {
        return Failure(SelfVote);
      }
      AM.VotedSound(answers[id], callerId, voteType);
      answer.AddVote(callerId, voteType);
      AnswerReplaced(questions, answers, notifications, users, nextId, id, answer.Record());
      answers := answers[id := answer.Record()];
      r := Success(answer.voteCount);
    }

    // ---------------------------------------------------------------
    // adminController (all behind `adminAuth`; none reads the validators)

    /** `toggleUserBan`: the target must exist and not be an admin; the ban
        flag flips, and an "Account Banned" alert is created only when the
        result is banned. */
    method ToggleUserBan(callerId: UserId, target: UserId, reason: Option<string>, now: Time) returns (r: Outcome)
      requires Valid()
      modifies this
      ensures Valid()
      ensures old(AdminAuth(callerId)).Failure? ==> r == Err(old(AdminAuth(callerId)).error) && unchanged(this)
      ensures old(AdminAuth(callerId)).Success? && target !in old(users) ==> r == Err(NotFound) && unchanged(this)
      ensures old(AdminAuth(callerId)).Success? && target in old(users) && old(users)[target].role == "admin" ==>
        r == Err(CannotBanAdmin) && unchanged(this)
      ensures r.Ok? <==> old(AdminAuth(callerId)).Success? && target in old(users) && old(users)[target].role != "admin"
      ensures r.Ok? ==>
        && users == old(users)[target := UM.BanToggled(old(users)[target], callerId, now, reason)]
        && (users[target].isBanned ==>
              && notifications == old(notifications)[old(nextId) := BanNotice(target, callerId, reason, now)]
              && old(nextId) !in old(notifications)
              && nextId == old(nextId) + 1)
        && (!users[target].isBanned ==> notifications == old(notifications) && nextId == old(nextId))
        && questions == old(questions) && answers == old(answers)
    {
      var auth := AdminAuth(callerId);
      if auth.Failure? {
        return Err(auth.error);
      }
      if target !in users {
        return Err(NotFound);
      }
      var user := users[target];
      if user.role == "admin" {
        return Err(CannotBanAdmin);
      }
      user := UM.BanToggled(user, callerId, now, reason);
      Reframed(questions, answers, notifications, users, nextId, notifications, users[target := user], nextId);
      users := users[target := user];
      if user.isBanned {
        var notice := BanNotice(target, callerId, reason, now);
        Reframed(questions, answers, notifications, users, nextId, notifications[nextId := notice], users, nextId + 1);
        notifications := notifications[nextId := notice];
        nextId := nextId + 1;
      }
      r := Ok;
    }

    /** `moderateQuestion`: sets the status and the moderation fields and
        notifies the author. A status outside the schema's enum fails `save`
        and changes nothing; an absent status unsets the field, and the
        notice then reads "has been undefined". */
    method ModerateQuestion(callerId: UserId, id: Id, status: Option<string>, reason: Option<string>, now: Time) returns (r: Outcome)
      requires Valid()
      modifies this
      ensures Valid()
      ensures old(AdminAuth(callerId)).Failure? ==> r == Err(old(AdminAuth(callerId)).error) && unchanged(this)
      ensures old(AdminAuth(callerId)).Success? && id !in old(questions) ==> r == Err(NotFound) && unchanged(this)
      ensures old(AdminAuth(callerId)).Success? && id in old(questions) && QM.AssignedStatus(status).None? ==>
        r == Err(Invalid) && unchanged(this)
      ensures r.Ok? <==> old(AdminAuth(callerId)).Success? && id in old(questions) && QM.AssignedStatus(status).Some?
      ensures r.Ok? ==>
        var q := old(questions)[id];
        && questions == old(questions)[id := QM.Moderated(q, QM.AssignedStatus(status).value, callerId, now, reason)]
        && notifications == old(notifications)[old(nextId) :=
             QuestionModeratedNotice(q.author, callerId, q.title, status, reason, id, now)]
        && old(nextId) !in old(notifications)
        && answers == old(answers) && users == old(users) && nextId == old(nextId) + 1
    {
      var auth := AdminAuth(callerId);
      if auth.Failure? {
        return Err(auth.error);
      }
      if id !in questions {
        return Err(NotFound);
      }
      var parsed := QM.AssignedStatus(status);
      if parsed.None? {
        return Err(Invalid);
      }
      var question := questions[id];
      var moderated := QM.Moderated(question, parsed.value, callerId, now, reason);
      var notice := QuestionModeratedNotice(question.author, callerId, question.title, status, reason, id, now);
      QuestionReplaced(questions, answers, notifications, users, nextId, id, moderated);
      Reframed(questions[id := moderated], answers, notifications, users, nextId,
               notifications[nextId := notice], users, nextId + 1);
      questions := questions[id := moderated];
      notifications := notifications[nextId := notice];
      nextId := nextId + 1;
      r := Ok;
    }

    /** `moderateAnswer`: sets the moderation fields, leaving content, votes
        and acceptance alone, and notifies the answer's author. */
    method ModerateAnswer(callerId: UserId, id: Id, reason: Option<string>, now: Time) returns (r: Outcome)
      requires Valid()
      modifies this
      ensures Valid()
      ensures old(AdminAuth(callerId)).Failure? ==> r == Err(old(AdminAuth(callerId)).error) && unchanged(this)
      ensures old(AdminAuth(callerId)).Success? && id !in old(answers) ==> r == Err(NotFound) && unchanged(this)
      ensures r.Ok? <==> old(AdminAuth(callerId)).Success? && id in old(answers)
      ensures r.Ok? ==>
        var a := old(answers)[id];
        && answers == old(answers)[id := AM.Moderated(a, callerId, now, reason)]
        && notifications == old(notifications)[old(nextId) := AnswerModeratedNotice(a.author, callerId, reason, id, now)]
        && old(nextId) !in old(notifications)
        && questions == old(questions) && users == old(users) && nextId == old(nextId) + 1
    {
      var auth := AdminAuth(callerId);
      if auth.Failure? {
        return Err(auth.error);
      }
      if id !in answers {
        return Err(NotFound);
      }
      var answer := answers[id];
      var moderated := AM.Moderated(answer, callerId, now, reason);
      AnswerReplaced(questions, answers, notifications, users, nextId, id, moderated);
      var notice := AnswerModeratedNotice(answer.author, callerId, reason, id, now);
      Reframed(questions, answers[id := moderated], notifications, users, nextId,
               notifications[nextId := notice], users, nextId + 1);
      answers := answers[id := moderated];
      notifications := notifications[nextId := notice];
      nextId := nextId + 1;
      r := Ok;
    }

    /** `sendAlert`: one alert per account that is not banned, in
        `User.find` order (ascending ids), inserted by one `insertMany`,
        which fails as a whole if the schema rejects an empty title or
        message. Returns the number of recipients. */
    method SendAlert(callerId: UserId, title: string, message: string, now: Time) returns (r: Result<nat>)
      requires Valid()
      modifies this
      ensures Valid()
      ensures old(AdminAuth(callerId)).Failure? ==> r == Failure(old(AdminAuth(callerId)).error) && unchanged(this)
      ensures var rs := Queries.AlertRecipients(old(users), old(nextId));
        old(AdminAuth(callerId)).Success? && rs != [] && (title == "" || message == "") ==>
        r == Failure(Invalid) && unchanged(this)
      ensures var rs := Queries.AlertRecipients(old(users), old(nextId));
        r.Success? <==> old(AdminAuth(callerId)).Success? && (rs == [] || (title != "" && message != ""))
      ensures r.Success? ==>
        var rs := Queries.AlertRecipients(old(users), old(nextId));
        && r.value == |rs|
        && notifications == old(notifications) + AlertBatch(rs, old(nextId), callerId, title, message, now)
        && (forall i :: i in AlertBatch(rs, old(nextId), callerId, title, message, now) ==> i !in old(notifications))
        && nextId == old(nextId) + |rs|
        && questions == old(questions) && answers == old(answers) && users == old(users)
    {
      var auth := AdminAuth(callerId);
      if auth.Failure? {
        return Failure(auth.error);
      }
      var recipients := Queries.AlertRecipients(users, nextId);
      if recipients != [] && (title == "" || message == "") {
        return Failure(Invalid);
      }
      var batch := AlertBatch(recipients, nextId, callerId, title, message, now);
      Reframed(questions, answers, notifications, users, nextId, notifications + batch, users, nextId + |recipients|);
      notifications := notifications + batch;
      nextId := nextId + |recipients|;
      r := Success(|recipients|);
    }

    // ---------------------------------------------------------------
    // notificationController

    /** `markAsRead`: existence, the caller must be the recipient, then `markAsRead`. */
    method MarkAsRead(callerId: UserId, id: Id, now: Time) returns (r: Outcome)
      requires Valid()
      modifies this
      ensures Valid()
      ensures old(Auth(callerId)).Failure? ==> r == Err(old(Auth(callerId)).error) && unchanged(this)
      ensures old(Auth(callerId)).Success? && id !in old(notifications) ==> r == Err(NotFound) && unchanged(this)
      ensures old(Auth(callerId)).Success? && id in old(notifications) && old(notifications)[id].recipient != callerId ==>
        r == Err(Forbidden) && unchanged(this)
      ensures r.Ok? <==> old(Auth(callerId)).Success? && id in old(notifications) && old(notifications)[id].recipient == callerId
      ensures r.Ok? ==>
        && notifications == old(notifications)[id := NM.Read(old(notifications)[id], now)]
        && questions == old(questions) && answers == old(answers)
        && users == old(users) && nextId == old(nextId)
    {
      var auth := Auth(callerId);
      if auth.Failure? {
        return Err(auth.error);
      }
      if id !in notifications {
        return Err(NotFound);
      }
      var notification := new NM.Notification.Load(notifications[id]);
      if notification.recipient != callerId {
        return Err(Forbidden);
      }
      notification.MarkAsRead(now);
      notifications := notifications[id := notification.Record()];
      r := Ok;
    }

    /** `markAllAsRead`: every unread notification of the caller, and no other. */
    method MarkAllAsRead(callerId: UserId, now: Time) returns (r: Outcome)
      requires Valid()
      modifies this
      ensures Valid()
      ensures old(Auth(callerId)).Failure? ==> r == Err(old(Auth(callerId)).error) && unchanged(this)
      ensures r.Ok? <==> old(Auth(callerId)).Success?
      ensures r.Ok? ==>
        && notifications == AllRead(old(notifications), callerId, now)
        && questions == old(questions) && answers == old(answers)
        && users == old(users) && nextId == old(nextId)
    {
      var auth := Auth(callerId);
      if auth.Failure? {
        return Err(auth.error);
      }
      notifications := AllRead(notifications, callerId, now);
      r := Ok;
    }

    /** `deleteNotification`: existence, the caller must be the recipient,
        then exactly that notification is removed. */
    method DeleteNotification(callerId: UserId, id: Id) returns (r: Outcome)
      requires Valid()
      modifies this
      ensures Valid()
      ensures old(Auth(callerId)).Failure? ==> r == Err(old(Auth(callerId)).error) && unchanged(this)
      ensures old(Auth(callerId)).Success? && id !in old(notifications) ==> r == Err(NotFound) && unchanged(this)
      ensures old(Auth(callerId)).Success? && id in old(notifications) && old(notifications)[id].recipient != callerId ==>
        r == Err(Forbidden) && unchanged(this)
      ensures r.Ok? <==> old(Auth(callerId)).Success? && id in old(notifications) && old(notifications)[id].recipient == callerId
      ensures r.Ok? ==>
        && notifications == old(notifications) - {id}
        && questions == old(questions) && answers == old(answers)
        && users == old(users) && nextId == old(nextId)
    {
      var auth := Auth(callerId);
      if auth.Failure? {
        return Err(auth.error);
      }
      if id !in notifications {
        return Err(NotFound);
      }
      if notifications[id].recipient != callerId {
        return Err(Forbidden);
      }
      notifications := notifications - {id};
      r := Ok;
    }
  }
}

/** The read-only endpoints: `getQuestions`, `getAnswers`, `getNotifications`,
    `getUnreadCount`, `getModerationQueue`, `getAllUsers`, and the recipient
    list of `sendAlert`. Each is a filter, a sort key chosen by a switch, and
    skip/limit paging over a collection whose ids are all below `bound`.
    Query-string defaults are applied to absent parameters. */
module Queries {
  import opened Common
  import opened Seqs
  import opened Listing
  import opened Text
  import QM = QuestionModel
  import AM = AnswerModel
  import NM = NotificationModel
  import UM = UserModel

  /** The response's `{ items, totalPages, currentPage, total }`; `totalPages`
      is `None` where the source sends `null` (a limit of 0). */
  datatype Page = Page(items: seq<Id>, totalPages: Option<nat>, currentPage: nat, total: nat)

  function Default<T>(o: Option<T>, d: T): T {
    if o.Some? then o.value else d
  }

  /** A page below 1 makes `skip` negative, which MongoDB rejects. */
  predicate PagingOk(page: Option<nat>) {
    page.None? || page.value >= 1
  }

  /** A page of a whole listing: consecutive items from `(page - 1) * limit`,
      at most `limit` of them or all of them when `limit` is 0, with the
      listing's size and page count. */
  function PageOf(all: seq<Id>, page: nat, limit: nat): (p: Page)
    requires page >= 1
    ensures p.total == |all| && p.currentPage == page
    ensures p.totalPages.None? <==> limit == 0
    ensures p.totalPages.Some? ==>
      p.totalPages.value * limit >= |all| && (p.totalPages.value == 0 || (p.totalPages.value - 1) * limit < |all|)
    ensures limit >= 1 ==> |p.items| <= limit
    ensures limit == 0 ==> p.items == all
    ensures forall i :: 0 <= i < |p.items| ==> Skip(page, limit) + i < |all| && p.items[i] == all[Skip(page, limit) + i]
    ensures forall x :: x in p.items ==> x in all
    ensures NoDup(all) ==> NoDup(p.items)
  {
    var items := Paginate(all, page, limit);
    var n := TotalPages(|all|, limit);
    Page(items, n, page, |all|)
  }

  /** Whatever the limit, every item of a listing is returned on some page
      within `totalPages`. */
  lemma ListedOnSomePage(all: seq<Id>, limit: nat, k: Id) returns (page: nat, slot: nat)
    requires k in all
    ensures page >= 1
    ensures PageOf(all, 1, limit).totalPages.Some? ==> page <= PageOf(all, 1, limit).totalPages.value
    ensures slot < |PageOf(all, page, limit).items| && PageOf(all, page, limit).items[slot] == k
  {
    var i :| 0 <= i < |all| && all[i] == k;
    page, slot := EveryItemOnAPage(all, limit, i);
    assert PageOf(all, page, limit).items == Paginate(all, page, limit);
  }

  // ---------------------------------------------------------------------
  // getQuestions

  datatype QuestionsQuery = QuestionsQuery(
    page: Option<nat>, limit: Option<nat>, sort: Option<string>, tag: Option<string>, status: Option<string>)

  /** The `find` filter: the status (default "active"), the lowercased tag
      when one is given and non-empty, and no answers for "unanswered". */
  predicate QuestionMatches(q: QM.QuestionRec, sort: string, tag: Option<string>, status: string) {
    && q.status.Some? && QM.StatusName(q.status.value) == status
    && (tag.Some? && tag.value != "" ==> Lower(tag.value) in q.tags)
    && (sort == "unanswered" ==> q.answers == [])
  }

  /** The sort switch: "oldest" ascending by creation, "votes" by
      `voteCount`, "views" by `views`, anything else newest first. */
  function QuestionRank(q: QM.QuestionRec, sort: string): Rank {
    if sort == "oldest" then (-q.createdAt, 0)
    else if sort == "votes" then (q.voteCount, 0)
    else if sort == "views" then (q.views, 0)
    else (q.createdAt, 0)
  }

  function QuestionListing(qs: map<Id, QM.QuestionRec>, bound: nat, sort: string, tag: Option<string>, status: string): (r: seq<Id>)
    ensures forall k :: k in r <==> k in qs && k < bound && QuestionMatches(qs[k], sort, tag, status)
    ensures NoDup(r)
  {
    Query(qs, bound, QuestionFilter(sort, tag, status), QuestionKey(qs, sort))
  }

  function QuestionFilter(sort: string, tag: Option<string>, status: string): QM.QuestionRec -> bool {
    (q: QM.QuestionRec) => QuestionMatches(q, sort, tag, status)
  }

  function QuestionKey(qs: map<Id, QM.QuestionRec>, sort: string): nat -> Rank {
    (k: nat) => if k in qs then QuestionRank(qs[k], sort) else (0, 0)
  }

  /** The listing is ordered by the chosen sort key, from the largest. */
  lemma QuestionsInSortOrder(qs: map<Id, QM.QuestionRec>, bound: nat, sort: string, tag: Option<string>, status: string,
                             i: nat, j: nat)
    requires i < j < |QuestionListing(qs, bound, sort, tag, status)|
    ensures var r := QuestionListing(qs, bound, sort, tag, status);
      r[i] in qs && r[j] in qs && Outranks(QuestionRank(qs[r[i]], sort), QuestionRank(qs[r[j]], sort))
  {
    var r := QuestionListing(qs, bound, sort, tag, status);
    assert r[i] in r && r[j] in r;
    assert Outranks(QuestionKey(qs, sort)(r[i]), QuestionKey(qs, sort)(r[j]));
  }

  /** The whole listing `getQuestions` pages through, under the query's defaults. */
  function QuestionsAll(qs: map<Id, QM.QuestionRec>, bound: nat, query: QuestionsQuery): seq<Id> {
    QuestionListing(qs, bound, Default(query.sort, "newest"), query.tag, Default(query.status, "active"))
  }

  /** What `getQuestions` returns: a page of at most `limit` distinct
      questions (every one when `limit` is 0), each of the requested status
      (by default "active") and unanswered when so sorted. */
  function GetQuestions(qs: map<Id, QM.QuestionRec>, bound: nat, query: QuestionsQuery): (p: Page)
    requires PagingOk(query.page)
    ensures Default(query.limit, 10) >= 1 ==> |p.items| <= Default(query.limit, 10)
    ensures Default(query.limit, 10) == 0 ==> p.items == QuestionsAll(qs, bound, query)
    ensures NoDup(p.items)
    ensures forall x :: x in p.items ==>
      && x in qs && qs[x].status.Some? && QM.StatusName(qs[x].status.value) == Default(query.status, "active")
      && (Default(query.sort, "newest") == "unanswered" ==> qs[x].answers == [])
  {
    PageOf(QuestionsAll(qs, bound, query), Default(query.page, 1), Default(query.limit, 10))
  }

  /** No matching question is missed: it sits at index `i` of the whole
      listing, so asking for page `i / limit + 1`, which is within
      `totalPages`, returns it at position `i % limit` (with no limit, the
      first page holds it at position `i`). */
  lemma GetQuestionsListing(qs: map<Id, QM.QuestionRec>, bound: nat, query: QuestionsQuery, k: Id)
    returns (i: nat, page: nat, slot: nat)
    requires PagingOk(query.page)
    requires k in qs && k < bound
    requires QuestionMatches(qs[k], Default(query.sort, "newest"), query.tag, Default(query.status, "active"))
    ensures i < |QuestionsAll(qs, bound, query)| && QuestionsAll(qs, bound, query)[i] == k
    ensures Default(query.limit, 10) >= 1 ==>
      page == i / Default(query.limit, 10) + 1 && slot == i % Default(query.limit, 10)
    ensures Default(query.limit, 10) == 0 ==> page == 1 && slot == i
    ensures page >= 1
    ensures GetQuestions(qs, bound, query).totalPages.Some? ==> page <= GetQuestions(qs, bound, query).totalPages.value
    ensures slot < |GetQuestions(qs, bound, query.(page := Some(page))).items|
    ensures GetQuestions(qs, bound, query.(page := Some(page))).items[slot] == k
  {
    var limit := Default(query.limit, 10);
    var all := QuestionsAll(qs, bound, query);
    assert k in all;
    i :| 0 <= i < |all| && all[i] == k;
    page, slot := EveryItemOnAPage(all, limit, i);
    var first := PageOf(all, Default(query.page, 1), limit);
    assert GetQuestions(qs, bound, query) == first;
    assert first.totalPages == TotalPages(|all|, limit);
    var chosen := PageOf(all, page, limit);
    assert GetQuestions(qs, bound, query.(page := Some(page))) == chosen;
    assert chosen.items == Paginate(all, page, limit);
  }

  predicate AllBelowBound<T>(m: map<nat, T>, bound: nat) {
    forall k :: k in m ==> k < bound
  }

  // ---------------------------------------------------------------------
  // getAnswers

  /** The sort switch: "newest", "oldest", and otherwise (including the
      default "votes") by `voteCount` and then newest first. */
  function AnswerRank(a: AM.AnswerRec, sort: string): Rank {
    if sort == "newest" then (a.createdAt, 0)
    else if sort == "oldest" then (-a.createdAt, 0)
    else (a.voteCount, a.createdAt)
  }

  /** `Answer.find({ question: questionId }).sort(...)`. */
  function GetAnswers(ans: map<Id, AM.AnswerRec>, bound: nat, questionId: Id, sort: Option<string>): (r: seq<Id>)
    ensures forall k :: k in r <==> k in ans && k < bound && ans[k].question == questionId
    ensures NoDup(r)
    ensures forall i, j :: 0 <= i < j < |r| ==>
      Outranks(AnswerRank(ans[r[i]], Default(sort, "votes")), AnswerRank(ans[r[j]], Default(sort, "votes")))
  {
    var s := Default(sort, "votes");
    var key := (k: nat) => if k in ans then AnswerRank(ans[k], s) else (0, 0);
    var r := Query(ans, bound, (a: AM.AnswerRec) => a.question == questionId, key);
    assert forall i :: 0 <= i < |r| ==> r[i] in r;
    r
  }

  /** Under the default sort, a higher-voted answer of the question is listed
      before a lower-voted one, and equal votes put the newer first. */
  lemma AnswersByVotes(ans: map<Id, AM.AnswerRec>, bound: nat, questionId: Id, i: nat, j: nat)
    requires i < j < |GetAnswers(ans, bound, questionId, None)|
    ensures var r := GetAnswers(ans, bound, questionId, None);
      ans[r[i]].voteCount > ans[r[j]].voteCount
      || (ans[r[i]].voteCount == ans[r[j]].voteCount && ans[r[i]].createdAt >= ans[r[j]].createdAt)
  {
  }

  // ---------------------------------------------------------------------
  // getNotifications / getUnreadCount

  datatype Inbox = Inbox(page: Page, unreadCount: nat)

  predicate InboxMatches(n: NM.NotificationRec, recipient: UserId, unreadOnly: Option<string>) {
    n.recipient == recipient && (unreadOnly == Some("true") ==> !n.isRead)
  }

  function InboxListing(ns: map<Id, NM.NotificationRec>, bound: nat, recipient: UserId, unreadOnly: Option<string>): (r: seq<Id>)
    ensures forall k :: k in r <==> k in ns && k < bound && InboxMatches(ns[k], recipient, unreadOnly)
    ensures NoDup(r)
  {
    Query(ns, bound, (n: NM.NotificationRec) => InboxMatches(n, recipient, unreadOnly), NewestKey(ns))
  }

  function NewestKey(ns: map<Id, NM.NotificationRec>): nat -> Rank {
    (k: nat) => if k in ns then (ns[k].createdAt, 0) else (0, 0)
  }

  /** The inbox lists newest first (`sort({ createdAt: -1 })`). */
  lemma InboxNewestFirst(ns: map<Id, NM.NotificationRec>, bound: nat, recipient: UserId, unreadOnly: Option<string>,
                         i: nat, j: nat)
    requires i < j < |InboxListing(ns, bound, recipient, unreadOnly)|
    ensures var r := InboxListing(ns, bound, recipient, unreadOnly);
      r[i] in ns && r[j] in ns && ns[r[i]].createdAt >= ns[r[j]].createdAt
  {
    var r := InboxListing(ns, bound, recipient, unreadOnly);
    assert r[i] in r && r[j] in r;
    assert Outranks(NewestKey(ns)(r[i]), NewestKey(ns)(r[j]));
  }

  /** `getUnreadCount`, also returned by `getNotifications`: the caller's
      unread notifications, whatever the page or filter. */
  function UnreadCount(ns: map<Id, NM.NotificationRec>, recipient: UserId): nat {
    |UnreadIds(ns, recipient)|
  }

  function UnreadIds(ns: map<Id, NM.NotificationRec>, recipient: UserId): set<Id> {
    set n | n in ns && ns[n].recipient == recipient && !ns[n].isRead
  }

  function GetNotifications(ns: map<Id, NM.NotificationRec>, bound: nat, recipient: UserId,
                            page: Option<nat>, limit: Option<nat>, unreadOnly: Option<string>): Inbox
    requires PagingOk(page)
  {
    Inbox(PageOf(InboxListing(ns, bound, recipient, unreadOnly), Default(page, 1), Default(limit, 20)),
          UnreadCount(ns, recipient))
  }

  /** With `unreadOnly=true` the listing's total is the unread count. */
  lemma UnreadCountMatchesListing(ns: map<Id, NM.NotificationRec>, bound: nat, recipient: UserId,
                                  page: Option<nat>, limit: Option<nat>)
    requires PagingOk(page) && AllBelowBound(ns, bound)
    ensures GetNotifications(ns, bound, recipient, page, limit, Some("true")).page.total
      == GetNotifications(ns, bound, recipient, page, limit, Some("true")).unreadCount
  {
    var unread := InboxListing(ns, bound, recipient, Some("true"));
    var s := UnreadIds(ns, recipient);
    var u := Elems(unread);
    assert u == s by {
      forall x | x in s ensures x in u {
        assert InboxMatches(ns[x], recipient, Some("true"));
      }
    }
    NoDupCard(unread);
    assert |u| == |unread|;
    assert UnreadCount(ns, recipient) == |s|;
    assert GetNotifications(ns, bound, recipient, page, limit, Some("true")).page.total == |unread|;
  }

  /** Without the filter the total counts read ones too and is never
      smaller than the unread count. */
  lemma UnreadCountAtMostTotal(ns: map<Id, NM.NotificationRec>, bound: nat, recipient: UserId,
                               page: Option<nat>, limit: Option<nat>)
    requires PagingOk(page) && AllBelowBound(ns, bound)
    ensures GetNotifications(ns, bound, recipient, page, limit, None).page.total
      >= GetNotifications(ns, bound, recipient, page, limit, None).unreadCount
  {
    var every := InboxListing(ns, bound, recipient, None);
    var s := UnreadIds(ns, recipient);
    var e := Elems(every);
    assert s <= e by {
      forall x | x in s ensures x in e {
        assert InboxMatches(ns[x], recipient, None);
      }
    }
    NoDupCard(every);
    SubsetCard(s, e);
    assert GetNotifications(ns, bound, recipient, page, limit, None).page.total == |every|;
  }

  lemma SubsetCard(s: set<Id>, e: set<Id>)
    requires s <= e
    ensures |s| <= |e|
  {
    assert e == s + (e - s);
  }

  /** Every listed notification is the caller's, newest first. */
  lemma InboxOnlyCallers(ns: map<Id, NM.NotificationRec>, bound: nat, recipient: UserId,
                         page: Option<nat>, limit: Option<nat>, unreadOnly: Option<string>)
    requires PagingOk(page)
    ensures var p := GetNotifications(ns, bound, recipient, page, limit, unreadOnly).page;
      forall x :: x in p.items ==>
        && x in ns && ns[x].recipient == recipient
        && (unreadOnly == Some("true") ==> !ns[x].isRead)
  {
  }

  // ---------------------------------------------------------------------
  // getModerationQueue

  datatype Queue = QuestionQueue(questions: Page) | AnswerQueue(answers: Page)

  function QueuePage(r: Queue): Page {
    if r.QuestionQueue? then r.questions else r.answers
  }

  /** `Question.find({ status: 'active' }).sort({ createdAt: -1 })`. */
  function ActiveQuestions(qs: map<Id, QM.QuestionRec>, bound: nat): (r: seq<Id>)
    ensures forall k :: k in r <==> k in qs && k < bound && qs[k].status == Some(QM.Active)
    ensures NoDup(r)
    ensures forall i, j :: 0 <= i < j < |r| ==> r[i] in qs && r[j] in qs && qs[r[i]].createdAt >= qs[r[j]].createdAt
  {
    var r := Query(qs, bound, IsActive, QuestionsCreated(qs));
    forall i, j | 0 <= i < j < |r| ensures r[i] in qs && r[j] in qs && qs[r[i]].createdAt >= qs[r[j]].createdAt {
      assert r[i] in r && r[j] in r;
      assert Outranks(QuestionsCreated(qs)(r[i]), QuestionsCreated(qs)(r[j]));
    }
    r
  }

  function IsActive(q: QM.QuestionRec): bool {
    q.status == Some(QM.Active)
  }

  function QuestionsCreated(qs: map<Id, QM.QuestionRec>): nat -> Rank {
    (k: nat) => if k in qs then (qs[k].createdAt, 0) else (0, 0)
  }

  /** `Answer.find(query).sort({ createdAt: -1 })`, where the query is
      `{ isModerated: false }` for type "answers" and empty for any other
      type but "questions". */
  function QueueAnswers(ans: map<Id, AM.AnswerRec>, bound: nat, t: string): (r: seq<Id>)
    ensures forall k :: k in r <==> k in ans && k < bound && (t == "answers" ==> !ans[k].isModerated)
    ensures NoDup(r)
    ensures forall i, j :: 0 <= i < j < |r| ==> r[i] in ans && r[j] in ans && ans[r[i]].createdAt >= ans[r[j]].createdAt
  {
    var r := Query(ans, bound, QueueFilter(t), AnswersCreated(ans));
    forall i, j | 0 <= i < j < |r| ensures r[i] in ans && r[j] in ans && ans[r[i]].createdAt >= ans[r[j]].createdAt {
      assert r[i] in r && r[j] in r;
      assert Outranks(AnswersCreated(ans)(r[i]), AnswersCreated(ans)(r[j]));
    }
    r
  }

  function QueueFilter(t: string): AM.AnswerRec -> bool {
    (a: AM.AnswerRec) => t != "answers" || !a.isModerated
  }

  function AnswersCreated(ans: map<Id, AM.AnswerRec>): nat -> Rank {
    (k: nat) => if k in ans then (ans[k].createdAt, 0) else (0, 0)
  }

  function ModerationQueue(qs: map<Id, QM.QuestionRec>, ans: map<Id, AM.AnswerRec>, bound: nat,
                           kind: Option<string>, page: Option<nat>, limit: Option<nat>): Queue
    requires PagingOk(page)
  {
    var t := Default(kind, "questions");
    if t == "questions" then QuestionQueue(PageOf(ActiveQuestions(qs, bound), Default(page, 1), Default(limit, 20)))
    else AnswerQueue(PageOf(QueueAnswers(ans, bound, t), Default(page, 1), Default(limit, 20)))
  }

  /** The type (default "questions") picks the listing: active questions, or
      answers, unmoderated ones only for type "answers". */
  lemma ModerationQueueContents(qs: map<Id, QM.QuestionRec>, ans: map<Id, AM.AnswerRec>, bound: nat,
                                kind: Option<string>, page: Option<nat>, limit: Option<nat>)
    requires PagingOk(page)
    ensures ModerationQueue(qs, ans, bound, kind, page, limit).QuestionQueue? <==> Default(kind, "questions") == "questions"
    ensures Default(kind, "questions") == "questions" ==>
      QueuePage(ModerationQueue(qs, ans, bound, kind, page, limit))
        == PageOf(ActiveQuestions(qs, bound), Default(page, 1), Default(limit, 20))
    ensures Default(kind, "questions") != "questions" ==>
      QueuePage(ModerationQueue(qs, ans, bound, kind, page, limit))
        == PageOf(QueueAnswers(ans, bound, Default(kind, "questions")), Default(page, 1), Default(limit, 20))
  {
  }

  /** A queued item is never missed: some page within `totalPages` lists it. */
  lemma ModerationQueueComplete(qs: map<Id, QM.QuestionRec>, ans: map<Id, AM.AnswerRec>, bound: nat,
                                kind: Option<string>, limit: Option<nat>, k: Id) returns (page: nat, slot: nat)
    requires Default(kind, "questions") == "questions" ==> k in qs && k < bound && qs[k].status == Some(QM.Active)
    requires Default(kind, "questions") != "questions" ==>
      k in ans && k < bound && (kind == Some("answers") ==> !ans[k].isModerated)
    ensures page >= 1
    ensures QueuePage(ModerationQueue(qs, ans, bound, kind, None, limit)).totalPages.Some? ==>
      page <= QueuePage(ModerationQueue(qs, ans, bound, kind, None, limit)).totalPages.value
    ensures slot < |QueuePage(ModerationQueue(qs, ans, bound, kind, Some(page), limit)).items|
    ensures QueuePage(ModerationQueue(qs, ans, bound, kind, Some(page), limit)).items[slot] == k
  {
    var t, l := Default(kind, "questions"), Default(limit, 20);
    var all := if t == "questions" then ActiveQuestions(qs, bound) else QueueAnswers(ans, bound, t);
    assert k in all;
    page, slot := ListedOnSomePage(all, l, k);
    assert QueuePage(ModerationQueue(qs, ans, bound, kind, None, limit)) == PageOf(all, 1, l);
    assert QueuePage(ModerationQueue(qs, ans, bound, kind, Some(page), limit)) == PageOf(all, page, l);
  }

  // ---------------------------------------------------------------------
  // getAllUsers and sendAlert's recipients

  /** `if (role) query.role = role`; `banned` filters only on "true" or "false". */
  predicate UserMatches(u: UM.UserRec, role: Option<string>, banned: Option<string>) {
    && (role.Some? && role.value != "" ==> u.role == role.value)
    && (banned == Some("true") ==> u.isBanned)
    && (banned == Some("false") ==> !u.isBanned)
  }

  /** `User.find(query).sort({ createdAt: -1 })`. */
  function UsersListing(us: map<UserId, UM.UserRec>, bound: nat, role: Option<string>, banned: Option<string>): (r: seq<UserId>)
    ensures forall k :: k in r <==> k in us && k < bound && UserMatches(us[k], role, banned)
    ensures NoDup(r)
    ensures forall i, j :: 0 <= i < j < |r| ==> r[i] in us && r[j] in us && us[r[i]].createdAt >= us[r[j]].createdAt
  {
    var r := Query(us, bound, UserFilter(role, banned), UsersCreated(us));
    forall i, j | 0 <= i < j < |r| ensures r[i] in us && r[j] in us && us[r[i]].createdAt >= us[r[j]].createdAt {
      assert r[i] in r && r[j] in r;
      assert Outranks(UsersCreated(us)(r[i]), UsersCreated(us)(r[j]));
    }
    r
  }

  function UserFilter(role: Option<string>, banned: Option<string>): UM.UserRec -> bool {
    (u: UM.UserRec) => UserMatches(u, role, banned)
  }

  function UsersCreated(us: map<UserId, UM.UserRec>): nat -> Rank {
    (k: nat) => if k in us then (us[k].createdAt, 0) else (0, 0)
  }

  /** A page of matching users, newest first, and the count of all matches. */
  function GetAllUsers(us: map<UserId, UM.UserRec>, bound: nat, page: Option<nat>, limit: Option<nat>,
                       role: Option<string>, banned: Option<string>): (p: Page)
    requires PagingOk(page)
    ensures forall x :: x in p.items ==> x in us && x < bound && UserMatches(us[x], role, banned)
    ensures NoDup(p.items)
    ensures p.total == |UsersListing(us, bound, role, banned)|
  {
    PageOf(UsersListing(us, bound, role, banned), Default(page, 1), Default(limit, 20))
  }

  /** A page of users is newest first. */
  lemma GetAllUsersNewestFirst(us: map<UserId, UM.UserRec>, bound: nat, page: Option<nat>, limit: Option<nat>,
                               role: Option<string>, banned: Option<string>, i: nat, j: nat)
    requires PagingOk(page) && i < j < |GetAllUsers(us, bound, page, limit, role, banned).items|
    ensures GetAllUsers(us, bound, page, limit, role, banned).items[i] in us
    ensures GetAllUsers(us, bound, page, limit, role, banned).items[j] in us
    ensures us[GetAllUsers(us, bound, page, limit, role, banned).items[i]].createdAt
      >= us[GetAllUsers(us, bound, page, limit, role, banned).items[j]].createdAt
  {
    var all := UsersListing(us, bound, role, banned);
    var p, l := Default(page, 1), Default(limit, 20);
    PageItem(all, p, l, i);
    PageItem(all, p, l, j);
  }

  lemma PageItem(all: seq<Id>, page: nat, limit: nat, i: nat)
    requires page >= 1 && i < |PageOf(all, page, limit).items|
    ensures Skip(page, limit) + i < |all| && PageOf(all, page, limit).items[i] == all[Skip(page, limit) + i]
  {
  }

  /** A matching user is never missed: some page within `totalPages` lists it. */
  lemma GetAllUsersComplete(us: map<UserId, UM.UserRec>, bound: nat, limit: Option<nat>,
                            role: Option<string>, banned: Option<string>, k: UserId) returns (page: nat, slot: nat)
    requires k in us && k < bound && UserMatches(us[k], role, banned)
    ensures page >= 1
    ensures GetAllUsers(us, bound, None, limit, role, banned).totalPages.Some? ==>
      page <= GetAllUsers(us, bound, None, limit, role, banned).totalPages.value
    ensures slot < |GetAllUsers(us, bound, Some(page), limit, role, banned).items|
    ensures GetAllUsers(us, bound, Some(page), limit, role, banned).items[slot] == k
  {
    page, slot := ListedOnSomePage(UsersListing(us, bound, role, banned), Default(limit, 20), k);
  }

  /** A `banned` value other than "true" or "false" filters nothing. */
  lemma BannedFilterIgnoresOtherValues(u: UM.UserRec, role: Option<string>, banned: string)
    requires banned != "true" && banned != "false"
    ensures UserMatches(u, role, Some(banned)) == UserMatches(u, role, None)
  {
  }

  /** `User.find({ isBanned: false })`, in ascending id order. */
  function AlertRecipients(us: map<UserId, UM.UserRec>, bound: nat): (r: seq<UserId>)
    ensures forall u :: u in r <==> u in us && u < bound && !us[u].isBanned
    ensures NoDup(r)
  {
    Select(KeysBelow(us, bound), us, (u: UM.UserRec) => !u.isBanned)
  }
}

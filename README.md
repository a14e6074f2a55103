# Stackit content-consistency core in Dafny

Stackit is a question-and-answer site: an Express/Mongoose backend and a
React frontend. This project models the part of it that keeps the stored
content consistent, and proves properties of that model:

- **Vote ledgers.** Questions, answers and comments each keep `upvotes` and
  `downvotes` lists of user ids and a derived `voteCount`. Module
  `VoteLedger` defines `addVote`/`removeVote` once, as `Cast`/`Retract`.
  `QuestionModel`, `AnswerModel` and `CommentModel` wrap them in classes
  that mirror the Mongoose documents and update their fields in place.
- **Acceptance.** `AnswerModel` covers `acceptAnswer`/`unacceptAnswer`.
  The `Controllers` module covers the controller that moves the accepted
  answer of a question.
- **Store orchestration.** `Controllers.Store` is one class over maps from
  ObjectId to question, answer, notification and user records. Each handler
  of the four controllers is a method. It authenticates the caller the way
  the `auth`/`adminAuth` middleware does, runs the controller's checks in
  the controller's order, returns an `Error` value where the controller
  answers with an HTTP error, and applies the controller's writes. Every
  handler keeps the store invariant `Valid()`. The invariant says:
  - ids are below the next fresh id;
  - every vote ledger is consistent and excludes its author;
  - an answer and its question point at each other;
  - each author has at most one answer per question.

  It does not say that the accepted pointer names an answer of the same
  question, because `acceptAnswer` does not maintain that (see "Left out").
- **Counters.** `TagModel` covers `usageCount`. `NotificationModel` covers
  the read state.
- **Read endpoints.** `Listing` and `Queries` model the filter, sort and
  pagination that the read endpoints build.
- **Input validators.** The express-validator chains of the route files are
  predicates over strings, in `QuestionRoutes`, `AnswerRoutes`,
  `AdminRoutes` and `AuthRoutes`.
- **Frontend helpers.**
  - `AskQuestion` models the tag picker and submit guard of the "Ask a
    question" page.
  - `QuestionCard` models what a question card shows: the markup-stripped,
    150-character description preview and the answer-count, "Solved" and
    "edited" conditions. `CardAfterWrites` follows a stored question's card
    through accepting, adding and deleting answers.

`Common`, `Seqs` and `Text` hold the shared definitions. These are ids,
`Option`/`Result`, the error kinds, sequence filtering, and ASCII models of
`toLowerCase` and `trim`.

Inputs the model takes as parameters:
- `new Date()` is a `now: Time` parameter, an integer that orders instants.
- Fresh ObjectIds come from the store's `nextId` counter.
- The caller is the user id the token resolved to. `Store.Auth` then looks
  the account up as the middleware does.

## Model

| member | source | states |
|---|---|---|
| Text.Lower | frontend2/src/pages/AskQuestion.jsx:30 | `toLowerCase` keeps the length and position by position lowers each ASCII capital, leaving spaces spaces and other characters as they are |
| Text.Trim | backend/models/Question.js:4-9 | `trim` returns the slice between the leading and trailing white space; it is empty exactly when the input is all white space, and otherwise starts and ends on a non-space |
| Text.TrimIdempotent | backend/models/Question.js:4-9 | trimming twice is trimming once |
| Text.NormalizeIdempotent | frontend2/src/pages/AskQuestion.jsx:30 | lowercasing then trimming, as the tag picker and the tag schema do, is idempotent |
| Seqs.Without | backend/models/Question.js:89 | `filter(id => id !== u)` keeps exactly the elements other than `u`, losing exactly `u`'s occurrences |
| Seqs.WithoutCount | backend/models/Question.js:109-110 | filtering out `u` keeps every other element's multiplicity and leaves none of `u` |
| Seqs.WithoutAtIndex | frontend2/src/pages/AskQuestion.jsx:37-39 | in a duplicate-free list, filtering out the element at `i` removes just position `i` and keeps the rest in order |
| VoteLedger.CastUpvote | backend/models/Question.js:87-93 | after an upvote the voter is an upvoter and not a downvoter, pushed once unless already present |
| VoteLedger.CastDownvote | backend/models/Question.js:94-100 | after a downvote the voter is a downvoter and not an upvoter, pushed once unless already present |
| VoteLedger.CastExactlyOnce | backend/models/Answer.js:78-93 | on well-formed lists the voter ends exactly once in the requested list and nowhere in the other |
| VoteLedger.CastIdempotent | backend/models/Question.js:89-92 | casting the same vote twice gives the lists of casting it once |
| VoteLedger.CastOthersUnchanged | backend/models/Question.js:86-101 | every other voter keeps its count in both lists |
| VoteLedger.CastUnknownType | backend/models/Question.js:86-101 | a vote type other than "upvote"/"downvote" changes neither list |
| VoteLedger.CastWellFormed | backend/models/Question.js:86-105 | duplicate-free, disjoint lists stay so after any vote |
| VoteLedger.CastExcludes | backend/controllers/questionController.js:242-246 | a vote by someone other than the author keeps the author out of both lists |
| VoteLedger.CastScore | backend/models/Question.js:74-76 | how one vote moves `calculateVoteCount`: +1 for a new upvote, +2 when it replaces a downvote, 0 when repeated, and symmetrically for downvotes |
| VoteLedger.RetractClears | backend/models/Question.js:108-113 | after `removeVote(u)`, `u` is in neither list and every other voter keeps its entries |
| VoteLedger.RetractWellFormed | backend/models/Question.js:108-113 | removing a vote keeps the lists well formed |
| VoteLedger.RetractScore | backend/models/Question.js:108-113 | removing a vote takes back exactly `u`'s one vote from the count |
| VoteLedger.RetractIdempotent | backend/models/Question.js:108-113 | removing twice is removing once |
| VoteLedger.NeverBothFlags | backend/models/Comment.js:65-69 | `hasUserVoted` never reports both flags on well-formed lists |
| VoteLedger.CastConsistent | backend/models/Question.js:86-105 | a vote by a non-author, with the count recomputed, keeps the ledger consistent |
| VoteLedger.RetractConsistent | backend/models/Question.js:108-113 | a removal, with the count recomputed, keeps the ledger consistent |
| VoteLedger.ReplayWellFormed | backend/models/Comment.js:72-91 | lists built from empty by any sequence of `addVote` calls are well formed |
| QuestionModel.ParseStatus | backend/models/Question.js:50-54 | the status `enum` accepts a string only if it names that status |
| QuestionModel.ParseStatusName | backend/models/Question.js:50-54 | each of the four statuses is accepted under its own name |
| QuestionModel.AssignedStatus | backend/controllers/adminController.js:150-156 | assigning the body's status: a string outside the enum fails `save`, an absent status passes and unsets the field, and an accepted string names its status |
| QuestionModel.StoredTags | backend/models/Question.js:14-18 | each tag is stored lowercased and trimmed, position by position |
| QuestionModel.NewQuestionDefaults | backend/models/Question.js:3-71 | a new question has consistent empty votes, zero count and views, no answers, no accepted answer, status set to active, is unmoderated, and has lowercase tags |
| QuestionModel.Moderated | backend/controllers/adminController.js:150-154 | moderation sets the (possibly unset) status, flag, moderator, time and reason and no other field |
| QuestionModel.Question.Load | backend/controllers/questionController.js:264 | a loaded document holds exactly the stored record |
| QuestionModel.Question.AddVote | backend/models/Question.js:86-105 | the document's new record is the `Cast` of the old one and `voteCount` is the list difference |
| QuestionModel.Question.RemoveVote | backend/models/Question.js:108-113 | the new record is the `Retract` of the old one and `voteCount` is the list difference |
| AnswerModel.NewAnswerDefaults | backend/models/Answer.js:28-35 | a new answer is unaccepted, unmoderated, with consistent empty votes and zero count |
| AnswerModel.AcceptedOnlyAcceptance | backend/models/Answer.js:108-121 | accept and unaccept change only the three acceptance fields; accept sets the flag, unaccept clears it |
| AnswerModel.UnacceptUndoesAccept | backend/models/Answer.js:108-121 | unaccepting undoes an acceptance exactly and returns to a new answer's acceptance state |
| AnswerModel.AcceptIdempotent | backend/models/Answer.js:108-113 | accepting again only replaces the acceptor and time |
| AnswerModel.VotedSound | backend/models/Answer.js:78-97 | a non-author's vote keeps the answer's vote fields consistent |
| AnswerModel.UnvotedSound | backend/models/Answer.js:100-105 | removing a vote keeps them consistent |
| AnswerModel.AcceptanceSound | backend/models/Answer.js:108-121 | acceptance leaves the vote fields consistent |
| AnswerModel.Moderated | backend/controllers/adminController.js:191-194 | answer moderation sets the moderation fields and keeps content, votes and acceptance |
| AnswerModel.SaveChanged | backend/models/Answer.js:112 | `save` of a loaded copy writes a path only when the copy's new value differs from what was loaded |
| AnswerModel.SavedAcceptance | backend/controllers/questionController.js:281-291 | the stored answer after `acceptAnswer` on a copy: only the acceptance fields can move, and the flag is set unless the copy was loaded already accepted |
| AnswerModel.SavedAcceptanceWhenFresh | backend/models/Answer.js:108-113 | with an up-to-date copy the save is the plain acceptance |
| AnswerModel.ReacceptClearsFlag | backend/controllers/questionController.js:281-291 | re-accepting the accepted answer stores it unaccepted (see Findings) |
| AnswerModel.Answer.Load | backend/controllers/questionController.js:275 | a loaded document holds exactly the stored record |
| AnswerModel.Answer.AddVote | backend/models/Answer.js:78-97 | the new record is the `Cast` of the old one and `voteCount` is the list difference |
| AnswerModel.Answer.RemoveVote | backend/models/Answer.js:100-105 | the new record is the `Retract` of the old one |
| AnswerModel.Answer.AcceptAnswer | backend/models/Answer.js:108-113 | the new record is the old one accepted by the caller at `now` |
| AnswerModel.Answer.UnacceptAnswer | backend/models/Answer.js:116-121 | the new record is the old one unaccepted |
| CommentModel.VotedAllFromNew | backend/models/Comment.js:72-91 | on a new comment, any run of votes builds exactly the replayed lists and the matching count, and never reports both flags |
| CommentModel.AuthorCanVote | backend/models/Comment.js:72-91 | there is no self-vote guard: the author's own upvote is recorded |
| CommentModel.Comment.Load | backend/models/Comment.js:3-57 | a loaded document holds exactly the stored record |
| CommentModel.Comment.AddVote | backend/models/Comment.js:72-91 | the new record is the `Cast` of the old one and `voteCount` is the list difference |
| TagModel.IncrementedCount | backend/models/Tag.js:42-45 | incrementing raises the count by exactly one and changes nothing else |
| TagModel.DecrementedCount | backend/models/Tag.js:48-53 | decrementing never goes below zero, stays at zero, otherwise subtracts one, and changes nothing else |
| TagModel.DecrementUndoesIncrement | backend/models/Tag.js:42-53 | a decrement undoes an increment on a non-negative count |
| TagModel.NegativeCountNotRestored | backend/models/Tag.js:48-53 | on a negative count, increment-then-decrement does not restore it |
| TagModel.NewTagDefaults | backend/models/Tag.js:4-18 | a new tag has count zero and a name already lowercased and trimmed |
| TagModel.Tag.Load | backend/models/Tag.js:3-39 | a loaded document holds exactly the stored record |
| TagModel.Tag.IncrementUsage | backend/models/Tag.js:42-45 | the new record is the old one incremented |
| TagModel.Tag.DecrementUsage | backend/models/Tag.js:48-53 | the new record is the old one decremented with the floor |
| NotificationModel.ParseType | backend/models/Notification.js:13-17 | the type `enum` accepts a string only if it names that type |
| NotificationModel.ParseTypeExact | backend/models/Notification.js:13-17 | exactly the seven type names are accepted, each as its own type |
| NotificationModel.NewIsUnread | backend/models/Notification.js:38-44 | a new notification is unread with no read time |
| NotificationModel.ReadThenUnread | backend/models/Notification.js:53-64 | read then unread gives back the unread notification, and a new one exactly |
| NotificationModel.ReadIdempotent | backend/models/Notification.js:53-57 | reading twice is reading once at the later time |
| NotificationModel.Notification.Load | backend/controllers/notificationController.js:49 | a loaded document holds exactly the stored record |
| NotificationModel.Notification.MarkAsRead | backend/models/Notification.js:53-57 | the new record is the old one read at `now` |
| NotificationModel.Notification.MarkAsUnread | backend/models/Notification.js:60-64 | the new record is the old one unread |
| UserModel.AsCaller | backend/middleware/auth.js:16-26 | the request's user carries the account's id, and it is an admin exactly when the role is "admin" |
| UserModel.BanToggled | backend/controllers/adminController.js:109-112 | the flag flips and the admin is recorded; ban time and reason are set when banned and cleared when not; nothing else moves |
| UserModel.ToggleTwice | backend/controllers/adminController.js:109-112 | toggling twice restores the flag, and an unbanned account ends with no ban time |
| Listing.KeysBelow | backend/controllers/questionController.js:59 | the stored ids below the bound, each once, ascending |
| Listing.Select | backend/controllers/questionController.js:59 | `find(query)` keeps exactly the ids whose document matches, without duplicates |
| Listing.Insert | backend/controllers/questionController.js:62 | inserting into a listing sorted by a descending key keeps it sorted and adds exactly the element |
| Listing.SortDesc | backend/controllers/questionController.js:62 | `.sort(key)` returns a permutation sorted by the key, largest first |
| Listing.NoDupPermutation | backend/controllers/questionController.js:62 | sorting a duplicate-free listing keeps it duplicate-free |
| Listing.Query | backend/controllers/questionController.js:59-65 | `find(...).sort(...)` lists exactly the matching documents, once each, in key order |
| Listing.Window | backend/controllers/questionController.js:63-64 | `.skip(s).limit(l)` returns the items from index `s` in order, at most `l` of them, or all the rest when `l` is 0 |
| Listing.Paginate | backend/controllers/questionController.js:63-64 | a page is the run of items after `(page - 1) * limit`: at most `limit` of them, the whole listing when `limit` is 0, without duplicates |
| Listing.TotalPages | backend/controllers/questionController.js:71 | `Math.ceil(total / limit)`: the pages cover the total, with no empty page at the end; no page count (JSON `null`) when `limit` is 0 |
| Listing.PageWithinTotal | backend/controllers/questionController.js:71 | whenever there is a page count, the page holding any item is within it |
| Listing.EveryItemOnAPage | backend/controllers/questionController.js:63-71 | every item appears on page `k / limit + 1` at slot `k % limit`, within `totalPages`, or on page 1 at slot `k` when `limit` is 0 |
| Queries.PageOf | backend/controllers/notificationController.js:20-33 | the response's page: its total is the listing's size, `totalPages` is the ceiling (or `null` for limit 0), and its items are consecutive distinct items of the listing, at most `limit` of them or all for limit 0 |
| Queries.ListedOnSomePage | backend/controllers/notificationController.js:20-33 | for any limit, every item of a listing is returned on some page within `totalPages` |
| Queries.QuestionListing | backend/controllers/questionController.js:21-54 | the listing holds exactly the questions of the status, with the tag and (for "unanswered") without answers |
| Queries.QuestionsInSortOrder | backend/controllers/questionController.js:38-57 | the listing is ordered by the sort switch's key, largest first |
| Queries.GetQuestions | backend/controllers/questionController.js:10-79 | a page has at most `limit` (default 10) distinct questions, all of them for limit 0, each of the status (default "active") and unanswered when so sorted |
| Queries.GetQuestionsListing | backend/controllers/questionController.js:10-79 | no matching question is missed: it is on page `i / limit + 1` (page 1 for limit 0), within `totalPages`, at its slot |
| Queries.GetAnswers | backend/controllers/answerController.js:10-40 | exactly the question's answers, once each, ordered by the sort switch (default by votes then newest) |
| Queries.AnswersByVotes | backend/controllers/answerController.js:16-28 | under the default sort a higher-voted answer comes first, and equal votes put the newer first |
| Queries.InboxListing | backend/controllers/notificationController.js:11-14 | exactly the caller's notifications, only the unread ones when `unreadOnly` is "true" |
| Queries.InboxNewestFirst | backend/controllers/notificationController.js:20 | the inbox lists newest first |
| Queries.InboxOnlyCallers | backend/controllers/notificationController.js:11-22 | every listed notification is the caller's, and unread under the filter |
| Queries.UnreadCountMatchesListing | backend/controllers/notificationController.js:25-29 | with `unreadOnly=true` the total equals the unread count |
| Queries.UnreadCountAtMostTotal | backend/controllers/notificationController.js:117-122 | without the filter the unread count never exceeds the total |
| Queries.ActiveQuestions | backend/controllers/adminController.js:258-268 | exactly the active questions, once each, newest first |
| Queries.QueueAnswers | backend/controllers/adminController.js:257-276 | exactly the answers, once each, newest first, and only the unmoderated ones for type "answers" |
| Queries.ModerationQueueContents | backend/controllers/adminController.js:255-287 | "questions" (the default) pages through the active questions; any other type pages through the answers, only unmoderated ones for "answers" |
| Queries.ModerationQueueComplete | backend/controllers/adminController.js:264-287 | every queued question or answer is returned on some page within `totalPages` |
| Queries.GetAllUsers | backend/controllers/adminController.js:57-91 | a page of distinct users, each matching the role and banned filters, with the total of all matches |
| Queries.UsersListing | backend/controllers/adminController.js:68-74 | exactly the users matching the role and banned filters, once each, newest first |
| Queries.GetAllUsersNewestFirst | backend/controllers/adminController.js:72-76 | a page of users is ordered newest first |
| Queries.GetAllUsersComplete | backend/controllers/adminController.js:72-86 | every matching user is returned on some page within `totalPages` |
| Queries.BannedFilterIgnoresOtherValues | backend/controllers/adminController.js:69-70 | a `banned` value other than "true"/"false" filters nothing |
| Queries.AlertRecipients | backend/controllers/adminController.js:227 | exactly the non-banned users, each once |
| QuestionRoutes.ValidTagStoredLowercase | backend/routes/questions.js:27-31 | a valid tag has no spaces, so storing it only lowercases it, and the result is still valid |
| QuestionRoutes.ValidQuestionSaves | backend/routes/questions.js:17-32 | a request passing the chain, with a title that is not blank, builds a question the schema accepts |
| QuestionRoutes.BlankTitlePassesValidator | backend/routes/questions.js:18-20 | the chain measures the raw title: ten spaces pass it, but the schema then rejects the question |
| AnswerRoutes.ValidContentSaves | backend/routes/answers.js:16-20 | valid content (20 characters or more) always satisfies the schema; 19 or fewer are rejected |
| AnswerRoutes.VoteTypeRecorded | backend/routes/answers.js:22-26 | the vote rule accepts exactly the types that `addVote` records |
| AdminRoutes.StatusValidMatchesSchema | backend/routes/admin.js:36-38 | the status rule accepts exactly the strings the Question status `enum` accepts |
| AdminRoutes.ValidAlertSaves | backend/routes/admin.js:20-27 | an alert passing the chain is one the Notification schema accepts |
| AdminRoutes.QuestionModerationStricter | backend/routes/admin.js:29-42 | question moderation checks the reason as the other two routes do, and the status too |
| AuthRoutes.RegisterPasswordLogsIn | backend/routes/auth.js:24-35 | a registrable password passes the login rule; "a" passes login but not registration |
| AuthRoutes.ProfileMatchesRegister | backend/routes/auth.js:38-44 | an absent username passes the profile rule; a present one passes exactly when it passes registration |
| AuthRoutes.ValidUsernameUntrimmed | backend/routes/auth.js:16-20 | a valid username has no spaces, so trimming keeps it |
| AskQuestion.AddTag | frontend2/src/pages/AskQuestion.jsx:29-35 | an accepted tag is appended cleaned and the text box emptied; otherwise nothing changes |
| AskQuestion.RemoveTag | frontend2/src/pages/AskQuestion.jsx:37-39 | the tags after removal are exactly the other tags |
| AskQuestion.CanSubmit | frontend2/src/pages/AskQuestion.jsx:49-57 | submission goes ahead exactly when there is a tag and the description is not all white space |
| AskQuestion.CleanIdempotent | frontend2/src/pages/AskQuestion.jsx:30 | cleaning a cleaned tag changes nothing |
| AskQuestion.AddTagKeepsWellFormed | frontend2/src/pages/AskQuestion.jsx:29-35 | adding keeps the list at most five, duplicate-free, every entry clean and non-empty |
| AskQuestion.RemoveTagKeepsWellFormed | frontend2/src/pages/AskQuestion.jsx:37-39 | removing keeps the list well formed |
| AskQuestion.BlankNotAdded | frontend2/src/pages/AskQuestion.jsx:30-31 | white-space-only input is never added |
| AskQuestion.AddTagAppends | frontend2/src/pages/AskQuestion.jsx:31-32 | an add appends at the end and keeps the earlier order, and changes the state exactly when the picker accepts the tag |
| AskQuestion.RemoveTagAt | frontend2/src/pages/AskQuestion.jsx:37-39 | removing drops just that entry and keeps the others in order |
| AskQuestion.RemoveAbsent | frontend2/src/pages/AskQuestion.jsx:37-39 | removing an absent tag changes nothing |
| AskQuestion.RemoveUndoesAdd | frontend2/src/pages/AskQuestion.jsx:29-39 | removing the tag just added restores the list |
| AskQuestion.RunKeepsWellFormed | frontend2/src/pages/AskQuestion.jsx:29-39 | any sequence of adds and removes keeps the list well formed |
| AskQuestion.ReachableWellFormed | frontend2/src/pages/AskQuestion.jsx:29-39 | from the empty page, no reachable tag list has more than five tags, a duplicate or an uncleaned tag |
| QuestionCard.CloseFrom | frontend2/src/components/QuestionCard.jsx:47 | finds the first `>` at or after a position, or reports that there is none |
| QuestionCard.StripTags | frontend2/src/components/QuestionCard.jsx:47 | the stripped text is never longer than the description |
| QuestionCard.PreviewOf | frontend2/src/components/QuestionCard.jsx:47-48 | the preview is a prefix of the stripped text of at most 150 characters, the whole of it when short enough, and the ellipsis shows exactly when the raw description exceeds 150 |
| QuestionCard.AnswerCount | frontend2/src/components/QuestionCard.jsx:21 | the count is 0 when `answers` is missing and the list's length otherwise |
| QuestionCard.StripTagsNoSpan | frontend2/src/components/QuestionCard.jsx:47 | no `<`…`>` span survives stripping |
| QuestionCard.NoCloseStrips | frontend2/src/components/QuestionCard.jsx:47 | text without `>` is left as it is, so a `<` with no later `>` is kept |
| QuestionCard.NoOpenStrips | frontend2/src/components/QuestionCard.jsx:47 | text without `<` is only truncated |
| QuestionCard.NoSpanStrips | frontend2/src/components/QuestionCard.jsx:47 | text with no `<`…`>` span is left as it is |
| QuestionCard.StripTagsIdempotent | frontend2/src/components/QuestionCard.jsx:47 | stripping twice is stripping once |
| QuestionCard.StripTagsKeepsPlain | frontend2/src/components/QuestionCard.jsx:47 | text without `<` is kept as it is in front of whatever follows |
| QuestionCard.StripTagsDropsSpan | frontend2/src/components/QuestionCard.jsx:47 | a `<`, the following text up to the next `>`, and that `>` are removed, and the text before and after is kept |
| QuestionCard.CutImpliesEllipsis | frontend2/src/components/QuestionCard.jsx:47-48 | whenever text is cut off, the ellipsis shows |
| QuestionCard.EllipsisWithoutCut | frontend2/src/components/QuestionCard.jsx:47-48 | the converse fails: a 151-character description that is mostly markup shows "x..." |
| CardAfterWrites.SolvedAfterAccept | frontend2/src/components/QuestionCard.jsx:38-42 | once `acceptAnswer` sets the pointer, the card shows "Solved" with the same answer count |
| CardAfterWrites.CountAfterAnswerAdded | frontend2/src/components/QuestionCard.jsx:21 | once `createAnswer` pushes an answer, the card counts one more and the badge is unchanged |
| CardAfterWrites.CardAfterAnswerDeleted | backend/controllers/answerController.js:168-178 | after `deleteAnswer` on a consistent store the card counts one answer fewer, and shows "Solved" exactly when another answer is still accepted |
| Controllers.AnswersWithout | backend/controllers/questionController.js:210-211 | `Answer.deleteMany({ question: id })` removes exactly that question's answers and keeps the others as they were |
| Controllers.NotificationsOffQuestion | backend/controllers/questionController.js:213-215 | removes exactly the notifications about that question |
| Controllers.NotificationsOffAnswer | backend/controllers/answerController.js:181 | removes exactly the notifications about that answer |
| Controllers.AllRead | backend/controllers/notificationController.js:77-80 | marks every unread notification of the recipient read at `now` and leaves all others unchanged |
| Controllers.AllReadLeavesNoneUnread | backend/controllers/notificationController.js:77-80 | afterwards the recipient has no unread notification |
| Controllers.AlertBatch | backend/controllers/adminController.js:230-239 | one alert per recipient, under consecutive fresh ids |
| Controllers.AlertBatchExactlyOne | backend/controllers/adminController.js:227-239 | each recipient gets exactly one alert, and a user not listed gets none |
| Controllers.QuestionReplaced | backend/controllers/questionController.js:103-104 | rewriting a question with the same answer list and a sound ledger keeps the store invariant |
| Controllers.AnswerReplaced | backend/controllers/answerController.js:136-138 | rewriting an answer with the same question, author and a sound ledger keeps the invariant |
| Controllers.QuestionAdded | backend/controllers/questionController.js:125-130 | adding a question with no answers keeps the invariant |
| Controllers.LinkedAfterAnswerAdded | backend/controllers/answerController.js:80-81 | inserting an answer and pushing its id onto its question keeps the two-way link |
| Controllers.AnswerAdded | backend/controllers/answerController.js:71-86 | adding an answer by an author not yet answering keeps the invariant |
| Controllers.QuestionDeleted | backend/controllers/questionController.js:209-215 | deleting a question with its answers keeps the invariant |
| Controllers.LinkedAfterQuestionDeleted | backend/controllers/questionController.js:209-211 | the link survives deleting a question with its answers |
| Controllers.AnswerDeleted | backend/controllers/answerController.js:169-183 | pulling the id, clearing the pointer and deleting the answer keeps the invariant |
| Controllers.LinkedAfterAnswerDeleted | backend/controllers/answerController.js:169-183 | the link survives deleting an answer |
| Controllers.AcceptedInEffect | backend/controllers/questionController.js:280-291 | after accepting, the chosen answer is accepted by the caller at `now`, a different previous one is unaccepted, and every other answer is untouched |
| Controllers.AcceptKeeps | backend/controllers/questionController.js:280-303 | the acceptance writes keep the invariant |
| Controllers.AcceptAcrossQuestions | backend/controllers/questionController.js:275-303 | accepting another question's answer keeps the invariant, yet leaves the pointer on an answer the question does not list |
| Controllers.CrossAcceptInstance | backend/controllers/questionController.js:261-303 | a consistent store exists where a question's author can accept the answer of a different question |
| Controllers.Pulled | backend/controllers/answerController.js:169-178 | the question loses exactly that answer id, and its pointer is cleared exactly when it named that answer |
| Controllers.DeleteAnswerKeeps | backend/controllers/answerController.js:169-188 | `deleteAnswer`'s writes keep the invariant |
| Controllers.CreateAnswerKeeps | backend/controllers/answerController.js:71-100 | `createAnswer`'s writes keep the invariant |
| Controllers.EditedFields | backend/controllers/questionController.js:175-177 | a falsy title or description keeps the old one; given values replace them, the title trimmed; tags are replaced by their stored forms; nothing else moves |
| Controllers.EditedIdempotent | backend/controllers/questionController.js:175-177 | applying the same edit twice is applying it once |
| Controllers.Store.Auth | backend/middleware/auth.js:6-32 | success exactly for an existing, unbanned account; an unknown account is Unauthorized and a banned one Forbidden |
| Controllers.Store.AdminAuth | backend/middleware/auth.js:34-46 | success exactly for an authenticated admin; otherwise the `auth` error, or Forbidden for a non-admin |
| Controllers.Store.GetQuestion | backend/controllers/questionController.js:84-111 | a missing question is NotFound; otherwise `views` rises by exactly one and nothing else changes |
| Controllers.Store.CreateQuestion | backend/controllers/questionController.js:116-150 | after authentication and validation, stores the new question under a fresh id and raises the caller's `questionsCount`; every failure changes nothing |
| Controllers.Store.UpdateQuestion | backend/controllers/questionController.js:155-191 | Invalid, NotFound or Forbidden change nothing; only the author or an admin edits, with the falsy-keeps-old rule |
| Controllers.Store.DeleteQuestion | backend/controllers/questionController.js:196-227 | the author or an admin removes the question, its answers and its notifications, and the *deleter's* `questionsCount` drops by one |
| Controllers.Store.VoteQuestion | backend/controllers/questionController.js:232-256 | NotFound or SelfVote change nothing; otherwise exactly the voted question changes and the new count is returned |
| Controllers.Store.AcceptAnswer | backend/controllers/questionController.js:261-312 | only the author accepts (others get Forbidden); success accepts the answer, unaccepts the previous one, sets the pointer, and adds one "accept" notice to the answer's author; every failure changes nothing |
| Controllers.Store.ApplyAcceptance | backend/controllers/questionController.js:280-303 | the acceptance writes, keeping the invariant |
| Controllers.Store.CreateAnswer | backend/controllers/answerController.js:45-113 | Invalid, NotFound and AlreadyAnswered change nothing; success appends the id to the question, raises `answersCount`, and notifies the question's author exactly when someone else answered |
| Controllers.Store.InsertAnswer | backend/controllers/answerController.js:71-100 | `createAnswer`'s writes, keeping the invariant |
| Controllers.Store.UpdateAnswer | backend/controllers/answerController.js:118-150 | only the author or an admin may update, and only `content` changes |
| Controllers.Store.DeleteAnswer | backend/controllers/answerController.js:155-195 | the author or an admin removes the answer and its notifications, pulls it from its question, clears a pointer naming it, and lowers the *deleter's* `answersCount` |
| Controllers.Store.RemoveAnswer | backend/controllers/answerController.js:169-188 | `deleteAnswer`'s writes, keeping the invariant |
| Controllers.Store.VoteAnswer | backend/controllers/answerController.js:200-224 | NotFound or SelfVote change nothing; otherwise exactly the voted answer changes |
| Controllers.Store.ToggleUserBan | backend/controllers/adminController.js:96-136 | an admin target is CannotBanAdmin with no change; otherwise the ban toggles, and an "Account Banned" alert is added exactly when the result is banned |
| Controllers.Store.ModerateQuestion | backend/controllers/adminController.js:141-177 | sets the status and moderation fields and adds exactly one moderation notice to the author; a status outside the enum is Invalid with no change; an absent status unsets the field and the notice reads "has been undefined" |
| Controllers.Store.ModerateAnswer | backend/controllers/adminController.js:182-217 | sets the moderation fields only and adds one notice to the author |
| Controllers.Store.SendAlert | backend/controllers/adminController.js:222-248 | adds one alert per non-banned user under fresh ids and returns their number |
| Controllers.Store.MarkAsRead | backend/controllers/notificationController.js:47-70 | NotFound or Forbidden for a non-recipient change nothing; otherwise exactly that notification is read |
| Controllers.Store.MarkAllAsRead | backend/controllers/notificationController.js:75-87 | every unread notification of the caller becomes read and all others are unchanged |
| Controllers.Store.DeleteNotification | backend/controllers/notificationController.js:92-112 | the recipient removes exactly that notification; anyone else gets Forbidden |

## Left out

- JWT signing and verification, cookies, HTTP status codes, response
  bodies and `populate`. These are foreign code or rendering. A handler
  takes the resolved user id and reports an `Error` value.
- The regex `search` of `getQuestions` and `getAllUsers`. Regex semantics
  over user input are outside the model, so no search filter is applied.
- `isEmail` and `isMongoId`. These are library checks whose definitions are
  not part of this model. The `acceptAnswerValidation` chain is therefore
  not modelled.
- The `link` field of notifications. It is text built from ObjectIds,
  which the model keeps as integers.
- `getAnswer`, `getDashboardStats` and the auth controller. Their
  controllers are not part of this model, or they only count documents.
- Queries.PagingOk: a page below 1 gives a negative `skip`, which MongoDB
  rejects, so the handler answers 500. That is the error path left out
  above, so the listing functions require page 1 or later. Non-numeric
  and negative `page` or `limit` strings are not modelled either: the
  parameters are natural numbers.
- Queries.GetQuestionsListing, Queries.ModerationQueueComplete,
  Queries.GetAllUsersComplete and Queries.ListedOnSomePage: they hold for
  the model's fixed order among documents with equal sort keys.
  `Listing.SortDesc` is a stable insertion sort, which keeps ties in
  ascending id order. MongoDB leaves the order of ties unspecified, and it
  may differ between the queries for two pages. When keys tie, the program
  can then skip or repeat an item across pages.
- Controllers.Consistent: does not include the acceptance invariant (the
  pointer names an accepted answer of that question). `acceptAnswer`
  (backend/controllers/questionController.js:275) never checks
  `answer.question`. `Controllers.AcceptAcrossQuestions` and
  `Controllers.CrossAcceptInstance` show that a consistent store can point
  a question at another question's answer.
- Controllers.Store.ModerateQuestion: the store keeps the status as
  written, so an unset status does not match `{ status: 'active' }`. A
  document loaded afterwards reads the schema default, which the model
  does not show.
- Concurrency, partial failure and the 500 "Server error" path. Each
  handler is one atomic step, as if every `await` succeeded.
- The legacy CommonJS schemas and `server.js`. They hold no logic.
- Tag documents and comments in the store. No shown controller creates or
  updates them. Their document methods are modelled in `TagModel` and
  `CommentModel`.
- Controllers.Store: the multi-document handlers apply the record
  functions directly rather than loading document objects. Only the vote
  and view handlers go through `Load`/`Record`. Aliasing between document
  copies is not modelled, apart from the acceptance finding below.
- Text.Lower: lowers ASCII letters only. JavaScript's `toLowerCase` also
  lowers other Unicode letters.
- String lengths: they count characters. JavaScript counts UTF-16 code
  units, and the two differ outside the Basic Multilingual Plane.
- QuestionModel.QuestionRec: has no `updatedAt`. The backend never reads
  it. `QuestionCard.CardQuestion` carries it for the "edited" label.
- Controllers.Store.UpdateQuestion: tags are always present after the
  validator's `isArray`, so the `tags ? … : question.tags` fallback is not
  modelled.
- Controllers.Store.VoteQuestion and Controllers.Store.VoteAnswer: they do
  not check `voteValidation`, because the controllers never read its
  result. An unknown vote type then changes no list. The same holds for
  the admin handlers and their chains.
- Controllers.Store.SendAlert: does not model the notification `type`
  `enum` check of `insertMany`, because the type is always "alert".
- The page's network submit, toasts and navigation in AskQuestion.jsx.
  Only the guard is modelled.
- Dates in QuestionCard: compared as integers. The frontend compares the
  JSON strings.

## Findings

| source | as written | input that shows it | evidently intended | confidence | as-written member | corrected member |
|---|---|---|---|---|---|---|
| backend/controllers/questionController.js:275-291 | `answer` and `previousAnswer` are two copies of one document when the author re-accepts the answer already accepted. `unacceptAnswer` saves the cleared fields. Then `acceptAnswer` on the older copy sets `isAccepted = true`, which that copy already held, so `save` does not write it. | A question whose `acceptedAnswer` is answer A, with A accepted; its author calls accept-answer with A again | A stays accepted (or the call is a no-op), in line with the question's pointer | moderate; not executed | AnswerModel.ReacceptClearsFlag | Controllers.AcceptedInEffect |

The as-written half models Mongoose's changed-path saving with
`AnswerModel.SaveChanged` and `AnswerModel.SavedAcceptance`. The question
then still points at A, and the card shows "Solved", while A is stored
unaccepted. The rest of the model uses the corrected
`Controllers.AcceptedIn`. There the acceptance is applied to the answer as
it stands after the unaccept, so `Controllers.Store.AcceptAnswer` ensures
that the chosen answer is accepted.

/** The fields of a User document that the controllers read and write: role,
    ban state and the question and answer counters. */
module UserModel {
  import opened Common

  /** A stored user document. */
  datatype UserRec = UserRec(
    username: string,
    role: string,
    isBanned: bool,
    bannedBy: Option<UserId>,
    bannedAt: Option<Time>,
    banReason: Option<string>,
    questionsCount: int,
    answersCount: int,
    createdAt: Time)

  /** The caller `auth` attaches to the request for account `id`. */
  function AsCaller(id: UserId, u: UserRec): (c: Caller)
    ensures c.id == id && (IsAdmin(c) <==> u.role == "admin")
  {
    Caller(id, u.username, u.role)
  }

  /** `toggleUserBan`'s field updates by the admin `admin` at `now`: the flag flips;
      the time and reason are set when the result is banned and cleared
      (`null`) when it is not. An absent reason stays absent. */
  function BanToggled(u: UserRec, admin: UserId, now: Time, reason: Option<string>): (r: UserRec)
    ensures r.isBanned == !u.isBanned && r.bannedBy == Some(admin)
    ensures !r.isBanned ==> r.bannedAt == None && r.banReason == None
    ensures r.isBanned ==> r.bannedAt == Some(now) && r.banReason == reason
    ensures r.(isBanned := u.isBanned, bannedBy := u.bannedBy, bannedAt := u.bannedAt, banReason := u.banReason) == u
  {
    var banned := !u.isBanned;
    u.(isBanned := banned, bannedBy := Some(admin),
       bannedAt := if banned then Some(now) else None,
       banReason := if banned then reason else None)
  }

  /** Toggling twice restores the flag; an account that was not banned ends
      with no ban time again. */
  lemma ToggleTwice(u: UserRec, admin: UserId, admin': UserId, t: Time, t': Time, reason: Option<string>, reason': Option<string>)
    ensures BanToggled(BanToggled(u, admin, t, reason), admin', t', reason').isBanned == u.isBanned
    ensures !u.isBanned ==> BanToggled(BanToggled(u, admin, t, reason), admin', t', reason').bannedAt == None
  {
  }

  /** `$inc` on a counter. */
  function WithQuestions(u: UserRec, delta: int): UserRec {
    u.(questionsCount := u.questionsCount + delta)
  }

  function WithAnswers(u: UserRec, delta: int): UserRec {
    u.(answersCount := u.answersCount + delta)
  }
}

/** The auth routes: verifying a login code and updating one's profile. */
module AuthRoutes {
  import opened Wrappers
  import opened Dates
  import opened Store

  /** How long a login code stays valid: five minutes. */
  const CodeLifetime: int := 5 * 60 * 1000

  /** The code's age exceeds its lifetime; a missing sent-at time counts as
      the epoch. */
  predicate Expired(sentAt: Option<Instant>, now: Instant) {
    now - sentAt.GetOr(0) > CodeLifetime
  }

  lemma ExpiryBoundary(sentAt: Instant, now: Instant)
    ensures now - sentAt == CodeLifetime ==> !Expired(Some(sentAt), now)
    ensures now - sentAt == CodeLifetime + 1 ==> Expired(Some(sentAt), now)
    ensures now > CodeLifetime ==> Expired(None, now)
  {
  }

  function CodeMatch(u: User): (string, Option<string>) {
    (u.telegramId, u.verificationToken)
  }

  /** The checks of POST /verify-code: a six-character code (400), a user
      with that telegram id holding that code (400), and a code that has not
      expired (400). On success the position of the user. */
  function VerifyCheck(users: seq<User>, code: string, telegramId: string, now: Instant): (r: Reply<int>)
    ensures r.Ok? ==> (r.status == 200 && |code| == 6 && 0 <= r.body < |users| &&
      users[r.body].telegramId == telegramId && users[r.body].verificationToken == Some(code) &&
      !Expired(users[r.body].verificationSentAt, now))
    ensures |code| != 6 ==> r == Fail(400)
    ensures (forall i :: 0 <= i < |users| ==> users[i].telegramId != telegramId || users[i].verificationToken != Some(code)) ==>
      r == Fail(400)
    ensures r.Fail? ==> r.status == 400
  {
    if |code| != 6 then Fail(400)
    else
      var i := IndexOf(users, CodeMatch, (telegramId, Some(code)));
      if i < 0 then Fail(400)
      else if Expired(users[i].verificationSentAt, now) then Fail(400)
      else Ok(200, i)
  }

  /** The user after a successful verification: verified, code cleared. */
  function Verified(u: User): User {
    u.(isVerified := true, verificationToken := None)
  }

  /** POST /verify-code. Issuing the session token is left out. */
  method VerifyCode(db: Db, code: string, telegramId: string, now: Instant) returns (status: int, user: Option<User>)
    requires db.Valid()
    modifies db
    ensures db.Valid()
    ensures var r := VerifyCheck(old(db.tables.users), code, telegramId, now);
      status == r.status &&
      (r.Fail? ==> db.tables == old(db.tables) && user.None?) &&
      (r.Ok? ==> (user == Some(Verified(old(db.tables.users)[r.body])) &&
        db.tables == old(db.tables).(users := old(db.tables.users)[r.body := Verified(old(db.tables.users)[r.body])])))
  {
    var check := VerifyCheck(db.tables.users, code, telegramId, now);
    if check.Fail? {
      return check.status, None;
    }
    var i := check.body;
    var updated := Verified(db.tables.users[i]);
    UniqueUpdate(db.tables.users, UserKey, i, updated);
    UniqueUpdate(db.tables.users, TelegramKey, i, updated);
    db.tables := db.tables.(users := db.tables.users[i := updated]);
    return 200, Some(updated);
  }

  /** Conversely, with telegram ids unique, the holder of an unexpired
      six-character code is let through. */
  lemma VerifyAccepts(users: seq<User>, code: string, i: int, now: Instant)
    requires Unique(users, TelegramKey) && 0 <= i < |users| && |code| == 6
    requires users[i].verificationToken == Some(code) && !Expired(users[i].verificationSentAt, now)
    ensures VerifyCheck(users, code, users[i].telegramId, now) == Ok(200, i)
  {
    assert CodeMatch(users[i]) == (users[i].telegramId, Some(code));
  }

  /** A code verifies at most once: after a successful verification the same
      code and telegram id are refused, however soon they are sent again. */
  lemma CodeIsSingleUse(users: seq<User>, code: string, telegramId: string, now: Instant, later: Instant)
    requires Unique(users, TelegramKey)
    requires VerifyCheck(users, code, telegramId, now).Ok?
    ensures var i := VerifyCheck(users, code, telegramId, now).body;
      VerifyCheck(users[i := Verified(users[i])], code, telegramId, later) == Fail(400)
  {
  }

  /** The profile fields after `field || undefined` is handed to the update. */
  function PatchProfile(u: User, email: Option<string>, firstName: Option<string>, lastName: Option<string>): (r: User)
    ensures r.id == u.id && r.telegramId == u.telegramId && r.isVerified == u.isVerified
    ensures r.verificationToken == u.verificationToken && r.verificationSentAt == u.verificationSentAt
    ensures Falsy(email) ==> r.email == u.email
    ensures !Falsy(email) ==> r.email == email
    ensures Falsy(firstName) ==> r.firstName == u.firstName
    ensures !Falsy(firstName) ==> r.firstName == firstName
    ensures Falsy(lastName) ==> r.lastName == u.lastName
    ensures !Falsy(lastName) ==> r.lastName == lastName
  {
    u.(email := OrKeepOpt(u.email, email), firstName := OrKeepOpt(u.firstName, firstName),
       lastName := OrKeepOpt(u.lastName, lastName))
  }

  /** Sending nothing (or only empty strings) changes nothing, and a patch
      applied twice has the effect of one. */
  lemma PatchProfileIdempotent(u: User, email: Option<string>, firstName: Option<string>, lastName: Option<string>)
    ensures PatchProfile(u, None, None, None) == u
    ensures PatchProfile(PatchProfile(u, email, firstName, lastName), email, firstName, lastName) ==
      PatchProfile(u, email, firstName, lastName)
  {
  }

  /** PUT /profile. Updating a user that does not exist raises a not-found
      error, which the handler turns into 500. */
  method UpdateProfile(db: Db, callerId: Id, email: Option<string>, firstName: Option<string>, lastName: Option<string>)
    returns (status: int, user: Option<User>)
    requires db.Valid()
    modifies db
    ensures db.Valid()
    ensures var i := IndexOf(old(db.tables.users), UserKey, callerId);
      (i < 0 ==> status == 500 && user.None? && db.tables == old(db.tables)) &&
      (0 <= i ==> (status == 200 && user == Some(PatchProfile(old(db.tables.users)[i], email, firstName, lastName)) &&
        db.tables == old(db.tables).(users := old(db.tables.users)[i := user.value])))
  {
    var i := IndexOf(db.tables.users, UserKey, callerId);
    if i < 0 {
      return 500, None;
    }
    var updated := PatchProfile(db.tables.users[i], email, firstName, lastName);
    UniqueUpdate(db.tables.users, UserKey, i, updated);
    UniqueUpdate(db.tables.users, TelegramKey, i, updated);
    db.tables := db.tables.(users := db.tables.users[i := updated]);
    return 200, Some(updated);
  }
}

/** The `users` and `sessions` collections and the operations of `UserDao` on
    them, each an atomic state transition of the pair. */
module UserDao {
  import opened Common

  /** The message of the exception thrown for a duplicate registration. */
  const DuplicateUserMessage: string := "Throwed in addUser method"

  /** The message of the exception thrown for null preferences. */
  const NullPreferencesMessage: string := "UserPreferences cannot be set to null"

  /** A user's preference document: an open key-to-value mapping. */
  type Preferences = map<string, string>

  /** A user document. A stored user may have no `preferences` field. */
  datatype User = User(name: string, email: Email, hashedpw: string, preferences: Option<Preferences>)

  /** A session document: the user it belongs to and its token. */
  datatype Session = Session(userId: string, jwt: string)

  /** The two collections: users keyed by `email`, sessions keyed by
      `user_id`. Keying sessions by `user_id` is the one-session-per-user
      invariant that the upsert in `createUserSession` maintains. */
  datatype UserDb = UserDb(users: map<Email, User>, sessions: map<string, Session>)

  /** Every document carries the key it is stored under. */
  predicate Valid(db: UserDb) {
    && (forall e :: e in db.users ==> db.users[e].email == e)
    && (forall u :: u in db.sessions ==> db.sessions[u].userId == u)
  }

  // ---------------------------------------------------------------------
  // Reads
  // ---------------------------------------------------------------------

  /** `getUser`: the user whose email is `email`, or `None`. */
  function GetUser(db: UserDb, email: Email): (r: Option<User>)
    requires Valid(db)
    ensures r.Some? <==> email in db.users
    ensures r.Some? ==> r.value.email == email && r.value == db.users[email]
  {
    if email in db.users then Some(db.users[email]) else None
  }

  /** `getUserSession`: the session whose `user_id` is `userId`, or `None`. */
  function GetUserSession(db: UserDb, userId: string): (r: Option<Session>)
    requires Valid(db)
    ensures r.Some? <==> userId in db.sessions
    ensures r.Some? ==> r.value.userId == userId && r.value == db.sessions[userId]
  {
    if userId in db.sessions then Some(db.sessions[userId]) else None
  }

  // ---------------------------------------------------------------------
  // Writes
  // ---------------------------------------------------------------------

  /** `addUser`: insert the user. A duplicate email becomes
      `IncorrectDaoOperation`; any other write error is swallowed, so every
      path that does not throw returns true. `otherWriteError` says whether
      the server rejects the insert for a reason other than a duplicate key;
      in that case nothing is stored. */
  function AddUser(db: UserDb, user: User, otherWriteError: bool): (out: (UserDb, Result<bool>))
    requires Valid(db)
    ensures Valid(out.0)
    ensures out.0.sessions == db.sessions
    ensures out.1.Ok? ==> out.1.value
    ensures user.email in db.users <==> out.1 == Err(IncorrectDaoOperation(DuplicateUserMessage))
    ensures user.email !in db.users ==> out.1 == Ok(true)
    ensures user.email in db.users ==> out.0 == db
    ensures user.email !in db.users && otherWriteError ==> out.0 == db
    ensures user.email !in db.users && !otherWriteError ==>
              out.0.users.Keys == db.users.Keys + {user.email} && out.0.users[user.email] == user
    ensures forall e :: e in db.users ==> e in out.0.users && out.0.users[e] == db.users[e]
    ensures forall e :: e in out.0.users && e != user.email ==> e in db.users
  {
    if user.email in db.users then
      (db, Err(IncorrectDaoOperation(DuplicateUserMessage)))
    else if otherWriteError then
      (db, Ok(true))
    else
      (db.(users := db.users[user.email := user]), Ok(true))
  }

  /** `createUserSession`: upsert on `user_id`, setting the token. Always true;
      afterwards the user's one session holds `jwt` and no other session or
      user changed. */
  function CreateUserSession(db: UserDb, userId: string, jwt: string): (out: (UserDb, bool))
    requires Valid(db)
    ensures Valid(out.0)
    ensures out.1
    ensures GetUserSession(out.0, userId) == Some(Session(userId, jwt))
    ensures out.0.users == db.users
    ensures out.0.sessions.Keys == db.sessions.Keys + {userId}
    ensures forall u :: u in db.sessions && u != userId ==> out.0.sessions[u] == db.sessions[u]
  {
    var sessions :=
      if userId in db.sessions then db.sessions[userId := db.sessions[userId].(jwt := jwt)]
      else db.sessions[userId := Session(userId, jwt)];
    (db.(sessions := sessions), true)
  }

  /** `deleteUserSessions`: `deleteOne` on `user_id`, returning whether the
      server acknowledged it, whether or not a session existed (a missing
      session is only logged). The delete is applied either way; only the
      reply depends on acknowledgement. */
  function DeleteUserSessions(db: UserDb, userId: string, acknowledged: bool): (out: (UserDb, bool))
    requires Valid(db)
    ensures Valid(out.0)
    ensures out.1 == acknowledged
    ensures GetUserSession(out.0, userId).None?
    ensures out.0.users == db.users
    ensures out.0.sessions.Keys == db.sessions.Keys - {userId}
    ensures forall u :: u in out.0.sessions ==> out.0.sessions[u] == db.sessions[u]
  {
    var (sessions, res) := DeleteOneByKey(db.sessions, userId, acknowledged);
    // A deleted count below one is only logged.
    (db.(sessions := sessions), res.wasAcknowledged)
  }

  /** `deleteUser`: delete the sessions whose `user_id` is the email first;
      only if that was acknowledged, delete the user and return whether that
      delete was acknowledged. Neither step fails because nothing was there. */
  function DeleteUser(db: UserDb, email: Email, sessionsAcknowledged: bool, userAcknowledged: bool): (out: (UserDb, bool))
    requires Valid(db)
    ensures Valid(out.0)
    ensures GetUserSession(out.0, email).None?
    ensures out.0.sessions.Keys == db.sessions.Keys - {email}
    ensures forall u :: u in out.0.sessions ==> out.0.sessions[u] == db.sessions[u]
    ensures !sessionsAcknowledged ==> !out.1 && out.0.users == db.users
    ensures sessionsAcknowledged ==> out.1 == userAcknowledged && GetUser(out.0, email).None?
    ensures sessionsAcknowledged ==> out.0.users.Keys == db.users.Keys - {email}
    ensures forall e :: e in out.0.users ==> out.0.users[e] == db.users[e]
  {
    var (afterSessions, sessionsDeleted) := DeleteUserSessions(db, email, sessionsAcknowledged);
    if sessionsDeleted then
      var (users, res) := DeleteOneByKey(afterSessions.users, email, userAcknowledged);
      // A deleted count below one is only logged.
      (afterSessions.(users := users), res.wasAcknowledged)
    else
      (afterSessions, false)
  }

  /** The driver's `updateOne` with filter `{email}` and update
      `$set {preferences}`: the document counts as modified only when its
      preferences differ from the new value. */
  function SetPreferences(db: UserDb, email: Email, prefs: Preferences): (out: (UserDb, UpdateResult))
    requires Valid(db)
    ensures Valid(out.0)
    ensures out.1.matchedCount == 1 <==> email in db.users
    ensures out.1.modifiedCount == 1 <==> email in db.users && db.users[email].preferences != Some(prefs)
    ensures out.1.modifiedCount <= out.1.matchedCount <= 1
    ensures out.1.modifiedCount == 0 ==> out.0 == db
    ensures out.0.sessions == db.sessions && out.0.users.Keys == db.users.Keys
    ensures forall e :: e in db.users && e != email ==> out.0.users[e] == db.users[e]
    ensures email in db.users ==> out.0.users[email] == db.users[email].(preferences := Some(prefs))
  {
    if email in db.users then
      var before := db.users[email];
      var after := before.(preferences := Some(prefs));
      (db.(users := db.users[email := after]), UpdateResult(1, if after != before then 1 else 0))
    else
      (db, UpdateResult(0, 0))
  }

  /** `updateUserPreferences`: null preferences are rejected. Otherwise the
      user's preferences are replaced wholesale, never merged; the result is
      false both when no user matched and when the value was already the
      same, and true otherwise. `None` stands for a null argument. */
  function UpdateUserPreferences(db: UserDb, email: Email, prefs: Option<Preferences>): (out: (UserDb, Result<bool>))
    requires Valid(db)
    ensures Valid(out.0)
    ensures prefs.None? ==> out == (db, Err(IncorrectDaoOperation(NullPreferencesMessage)))
    ensures prefs.Some? ==> out.1.Ok?
    ensures prefs.Some? ==> (out.1.value <==> email in db.users && db.users[email].preferences != prefs)
    ensures out.1 != Ok(true) ==> out.0 == db
    ensures out.0.sessions == db.sessions && out.0.users.Keys == db.users.Keys
    ensures out.1 == Ok(true) ==>
              out.0.users[email] == User(db.users[email].name, email, db.users[email].hashedpw, prefs)
    ensures forall e :: e in db.users && e != email ==> out.0.users[e] == db.users[e]
  {
    if prefs.None? then
      (db, Err(IncorrectDaoOperation(NullPreferencesMessage)))
    else
      var (updated, res) := SetPreferences(db, email, prefs.value);
      if res.modifiedCount < 1 then
        // Logged: no user matched, or the preferences were already these.
        (updated, Ok(false))
      else
        (updated, Ok(true))
  }

  // ---------------------------------------------------------------------
  // Properties relating several calls
  // ---------------------------------------------------------------------

  /** A user registered under a new email is found by that email. */
  lemma AddUserThenGet(db: UserDb, user: User)
    requires Valid(db) && user.email !in db.users
    ensures AddUser(db, user, false).1 == Ok(true)
    ensures GetUser(AddUser(db, user, false).0, user.email) == Some(user)
  {
  }

  /** Registering a second user with the same email throws, and the first
      user is the one user left under that email. */
  lemma AddUserTwice(db: UserDb, first: User, second: User, otherWriteError: bool)
    requires Valid(db) && first.email !in db.users && second.email == first.email
    ensures var once := AddUser(db, first, false).0;
            && AddUser(once, second, otherWriteError).1 == Err(IncorrectDaoOperation(DuplicateUserMessage))
            && GetUser(AddUser(once, second, otherWriteError).0, first.email) == Some(first)
  {
  }

  /** Two sessions created one after the other for the same user leave only
      the second token. */
  lemma CreateSessionTwice(db: UserDb, userId: string, a: string, b: string)
    requires Valid(db)
    ensures var once := CreateUserSession(db, userId, a).0;
            GetUserSession(CreateUserSession(once, userId, b).0, userId) == Some(Session(userId, b))
  {
  }

  /** Deleting a user that had no session still succeeds when both deletes
      are acknowledged, and leaves neither user nor session. */
  lemma DeleteUserWithoutSession(db: UserDb, email: Email)
    requires Valid(db) && email !in db.sessions
    ensures DeleteUser(db, email, true, true).1
    ensures GetUser(DeleteUser(db, email, true, true).0, email).None?
    ensures DeleteUser(db, email, true, true).0.sessions == db.sessions
  {
  }

  /** After a successful update the user reads back exactly the new
      preferences: keys only in the old preferences are gone. */
  lemma UpdatePreferencesThenGet(db: UserDb, email: Email, prefs: Preferences)
    requires Valid(db) && email in db.users
    ensures var after := UpdateUserPreferences(db, email, Some(prefs)).0;
            GetUser(after, email).Some? && GetUser(after, email).value.preferences == Some(prefs)
  {
  }

  /** Repeating the same preference update reports false and changes nothing. */
  lemma UpdatePreferencesTwice(db: UserDb, email: Email, prefs: Preferences)
    requires Valid(db)
    ensures var once := UpdateUserPreferences(db, email, Some(prefs)).0;
            UpdateUserPreferences(once, email, Some(prefs)) == (once, Ok(false))
  {
  }
}

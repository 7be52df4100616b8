/**
 * `server/config/passport.js`: the two login strategies and the session
 * codec.  bcrypt's comparison is a parameter `compare(plain, hash)`; the
 * OAuth handshake is reduced to the Google profile's display name and
 * first email.  A query's `rows[0]` has no ORDER BY behind it; the model
 * takes the lowest matching id.
 */
module Passport {
  import opened Schema
  import opened Listing

  /** `req.user`: a whole `users` row together with its id. */
  datatype Account = Account(id: int, user: User)

  /** How a verify callback ends: `done(null, user)`, `done(null, false, {message})` or `done(err)`. */
  datatype Verdict = Accepted(account: Account) | Rejected(message: string) | Failed

  /** `WHERE username = $1 OR email = $1`: the login identifier may be either. */
  predicate Identifies(u: User, identifier: string) {
    u.username == identifier || u.email == identifier
  }

  /** The row `rows[0]` of a lookup over `keys`: the lowest id in range, if any. */
  function FirstOf(keys: set<int>, n: int): (r: Option<int>)
    ensures r.Some? ==> r.value in keys && 0 <= r.value < n
    ensures r.Some? ==> forall k :: k in keys && 0 <= k < n ==> r.value <= k
    ensures r.None? <==> forall k :: k in keys ==> !(0 <= k < n)
  {
    var ids := Asc(keys, n);
    if ids == [] then None
    else
      assert forall i :: 0 < i < |ids| ==> ids[0] < ids[i];
      Some(ids[0])
  }

  /** The ids whose username or email equals `identifier`. */
  function LoginMatches(users: map<int, User>, identifier: string): set<int>
  {
    set id | id in users && Identifies(users[id], identifier)
  }

  /**
   * The LocalStrategy verify callback.  No matching row: "User not found".
   * A stored hash the password does not match: "Invalid password".  A row
   * without a hash (a Google account) makes bcrypt throw: `Failed`.
   */
  function LocalVerify(db: Tables, identifier: string, password: string, compare: (string, string) -> bool)
    : (v: Verdict)
    requires db.Valid()
    ensures v.Accepted? ==>
      && v.account.id in db.users && v.account.user == db.users[v.account.id]
      && Identifies(v.account.user, identifier)
      && v.account.user.password.Some? && compare(password, v.account.user.password.value)
    ensures v == Rejected("User not found") <==> forall id :: id in db.users ==> !Identifies(db.users[id], identifier)
    ensures v == Rejected("Invalid password") ==> (exists id :: id in db.users && Identifies(db.users[id], identifier) &&
                                                    db.users[id].password.Some? && !compare(password, db.users[id].password.value))
    ensures v.Failed? ==> exists id :: id in db.users && Identifies(db.users[id], identifier) && db.users[id].password.None?
    ensures v.Rejected? ==> v.message in {"User not found", "Invalid password"}
  {
    var matches := LoginMatches(db.users, identifier);
    assert forall id :: id in db.users && Identifies(db.users[id], identifier) ==> id in matches;
    var first := FirstOf(matches, db.nextUserId);
    if first.None? then Rejected("User not found")
    else
      var id := first.value;
      var u := db.users[id];
      match u.password
      case None => Failed
      case Some(h) => if compare(password, h) then Accepted(Account(id, u)) else Rejected("Invalid password")
  }

  /** The ids whose email equals `email`. */
  function EmailMatches(users: map<int, User>, email: string): set<int>
  {
    set id | id in users && users[id].email == email
  }

  /** The row a Google login creates: display name as username, the email, no password, no profile. */
  function GoogleUser(displayName: string, email: string): (u: User)
    ensures u.username == displayName && u.email == email && u.password.None?
  {
    User(displayName, email, None, None, None, None, None)
  }

  /** No two accounts share an email. */
  ghost predicate UniqueEmails(users: map<int, User>) {
    forall a, b :: a in users && b in users && a != b ==> users[a].email != users[b].email
  }

  /** The GoogleStrategy verify callback on a snapshot: find the account by email, or insert one. */
  function GoogleLogin(db: Tables, displayName: string, email: string): (result: (Tables, Account))
    requires db.Valid()
    ensures result.0.Valid()
    ensures result.1.id in result.0.users && result.0.users[result.1.id] == result.1.user
    ensures result.1.user.email == email
    ensures (exists id :: id in db.users && db.users[id].email == email) ==> result.0 == db
    ensures (forall id :: id in db.users ==> db.users[id].email != email) ==>
      && result.1 == Account(db.nextUserId, GoogleUser(displayName, email))
      && result.0 == db.(users := db.users[db.nextUserId := result.1.user], nextUserId := db.nextUserId + 1)
  {
    var matches := EmailMatches(db.users, email);
    assert forall id :: id in db.users && db.users[id].email == email ==> id in matches;
    var first := FirstOf(matches, db.nextUserId);
    if first.Some? then (db, Account(first.value, db.users[first.value]))
    else
      var id := db.nextUserId;
      var u := GoogleUser(displayName, email);
      (db.(users := db.users[id := u], nextUserId := id + 1), Account(id, u))
  }

  /**
   * A second Google login with the same email inserts nothing and returns
   * the same account, on any store: both look up the lowest matching id.
   */
  lemma {:induction false} GoogleLoginIdempotent(db: Tables, displayName: string, otherName: string, email: string)
    requires db.Valid()
    ensures var (db1, a1) := GoogleLogin(db, displayName, email);
      GoogleLogin(db1, otherName, email) == (db1, a1)
  {
    var (db1, a1) := GoogleLogin(db, displayName, email);
    assert db1.users[a1.id].email == email;
  }

  /** Find-or-create by email keeps emails unique. */
  lemma GoogleLoginKeepsEmailsUnique(db: Tables, displayName: string, email: string)
    requires db.Valid() && UniqueEmails(db.users)
    ensures UniqueEmails(GoogleLogin(db, displayName, email).0.users)
  {
  }

  /**
   * Nothing checks the display name against existing usernames: a Google
   * user whose name is already taken is still inserted under it.
   */
  lemma GoogleLoginMayDuplicateUsername()
    ensures var db := Tables(map[1 := User("ann", "ann@one", Some("h"), None, None, None, None)],
                             map[], map[], {}, {}, {}, 2, 1, 1);
      var (db', a) := GoogleLogin(db, "ann", "ann@two");
      a.id == 2 && 1 in db'.users && db'.users[1].username == db'.users[2].username
      && !UniqueAccounts(db'.users)
  {
    var db := Tables(map[1 := User("ann", "ann@one", Some("h"), None, None, None, None)],
                     map[], map[], {}, {}, {}, 2, 1, 1);
    var (db', a) := GoogleLogin(db, "ann", "ann@two");
    assert db.users[1].email != "ann@two";
    assert db'.users[1].username == db'.users[2].username;
  }

  /** The GoogleStrategy verify callback: find-or-create, updating the store in place. */
  method GoogleVerify(db: Store, displayName: string, email: string) returns (account: Account)
    requires db.Valid()
    modifies db`users, db`nextUserId
    ensures (db.View(), account) == GoogleLogin(old(db.View()), displayName, email)
    ensures db.Valid()
  {
    var first := FirstOf(EmailMatches(db.users, email), db.nextUserId);
    if first.Some? {
      account := Account(first.value, db.users[first.value]);
    } else {
      account := Account(db.nextUserId, GoogleUser(displayName, email));
      db.users := db.users[db.nextUserId := account.user];
      db.nextUserId := db.nextUserId + 1;
    }
  }

  /** `serializeUser`: the session keeps only the user id. */
  function Serialize(account: Account): (sid: int)
    ensures sid == account.id
  {
    account.id
  }

  /** `deserializeUser`: the row with that id, or nothing if it is gone. */
  function Deserialize(db: Tables, sid: int): (a: Option<Account>)
    ensures a.Some? <==> sid in db.users
    ensures a.Some? ==> a.value == Account(sid, db.users[sid])
  {
    if sid in db.users then Some(Account(sid, db.users[sid])) else None
  }

  /** A stored account survives the session round trip unchanged. */
  lemma SessionRoundTrip(db: Tables, account: Account)
    requires account.id in db.users && db.users[account.id] == account.user
    ensures Deserialize(db, Serialize(account)) == Some(account)
  {
  }

  /** What a local login accepts, the session gives back on the next request of an unchanged store. */
  lemma LocalLoginSession(db: Tables, identifier: string, password: string, compare: (string, string) -> bool)
    requires db.Valid() && LocalVerify(db, identifier, password, compare).Accepted?
    ensures var a := LocalVerify(db, identifier, password, compare).account;
      Deserialize(db, Serialize(a)) == Some(a)
  {
  }
}

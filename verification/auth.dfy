/**
 * `server/routes/auth.js`: local sign-up, sign-in and the session check.
 * bcrypt's hash is a parameter `hash`.  A body field is `None` when it is
 * missing or null; the session is the id that `serializeUser` stored, if
 * any.
 */
module Auth {
  import opened Schema
  import opened Passport

  /** The columns `INSERT ... RETURNING id, username, email` sends back. */
  datatype AccountRow = AccountRow(id: int, username: string, email: string)

  /** A user row with its password column removed, as sign-in answers. */
  datatype SafeUser = SafeUser(
    id: int, username: string, email: string, realName: Option<string>, avatarUrl: Option<string>,
    dateOfBirth: Option<int>, bio: Option<string>)

  /** `const { password, ...safeUser } = req.user`. */
  function Safe(a: Account): (s: SafeUser)
    ensures s.id == a.id && s.username == a.user.username && s.email == a.user.email
    ensures s.realName == a.user.realName && s.avatarUrl == a.user.avatarUrl
    ensures s.dateOfBirth == a.user.dateOfBirth && s.bio == a.user.bio
  {
    SafeUser(a.id, a.user.username, a.user.email, a.user.realName, a.user.avatarUrl, a.user.dateOfBirth, a.user.bio)
  }

  /** A body field JavaScript treats as truthy: present and not the empty string. */
  predicate Present(field: Option<string>) {
    field.Some? && field.value != ""
  }

  /** `SELECT * FROM users WHERE email = $1 OR username = $2` finds a row. */
  predicate Taken(users: map<int, User>, username: string, email: string) {
    exists id :: id in users && (users[id].email == email || users[id].username == username)
  }

  /** The row sign-up inserts: the given username and email, the hashed password, no profile. */
  function NewAccount(username: string, email: string, hashed: string): (u: User)
    ensures u.username == username && u.email == email && u.password == Some(hashed)
    ensures u.realName.None? && u.avatarUrl.None? && u.dateOfBirth.None? && u.bio.None?
  {
    User(username, email, Some(hashed), None, None, None, None)
  }

  /**
   * `POST /signup`.  400 "Missing fields" when a field is missing or
   * empty; 400 "Email or username already in use" when any row shares the
   * email or the username; otherwise one row is inserted, the new user is
   * logged in, and 201 carries only its id, username and email.
   */
  method Signup(db: Store, username: Option<string>, email: Option<string>, password: Option<string>,
                hash: string -> string)
    returns (r: Response<AccountRow>, session: Option<int>)
    requires db.Valid()
    modifies db`users, db`nextUserId
    ensures db.Valid()
    ensures !Present(username) || !Present(email) || !Present(password) ==>
      r == BadRequest("Missing fields") && session.None? && unchanged(db)
    ensures Present(username) && Present(email) && Present(password) &&
            Taken(old(db.users), username.value, email.value) ==>
      r == BadRequest("Email or username already in use") && session.None? && unchanged(db)
    ensures Present(username) && Present(email) && Present(password) &&
            !Taken(old(db.users), username.value, email.value) ==>
      && r == Created(AccountRow(old(db.nextUserId), username.value, email.value))
      && session == Some(old(db.nextUserId))
      && old(db.nextUserId) !in old(db.users)
      && db.users == old(db.users)[old(db.nextUserId) := NewAccount(username.value, email.value, hash(password.value))]
      && db.nextUserId == old(db.nextUserId) + 1
    ensures UniqueAccounts(old(db.users)) ==> UniqueAccounts(db.users)
  {
    if !Present(username) || !Present(email) || !Present(password) {
      return BadRequest("Missing fields"), None;
    }
    if Taken(db.users, username.value, email.value) {
      return BadRequest("Email or username already in use"), None;
    }
    var id := db.nextUserId;
    db.users := db.users[id := NewAccount(username.value, email.value, hash(password.value))];
    db.nextUserId := id + 1;
    r, session := Created(AccountRow(id, username.value, email.value)), Some(id);
  }

  /**
   * `POST /signin`: the local strategy decides; a rejection is passport's
   * 401, a thrown error the default 500, and an accepted user is answered
   * without its password column.
   */
  function Signin(db: Tables, identifier: string, password: string, compare: (string, string) -> bool)
    : (r: Response<SafeUser>)
    requires db.Valid()
    ensures r.Ok? <==> LocalVerify(db, identifier, password, compare).Accepted?
    ensures r.Ok? ==> r.body == Safe(LocalVerify(db, identifier, password, compare).account)
    ensures r.Ok? ==> r.body.id in db.users && Identifies(db.users[r.body.id], identifier)
    ensures LocalVerify(db, identifier, password, compare).Rejected? ==> r == Unauthorized("Unauthorized")
  {
    match LocalVerify(db, identifier, password, compare)
    case Accepted(a) => Ok(Safe(a))
    case Rejected(_) => Unauthorized("Unauthorized")
    case Failed => ServerError("Internal Server Error")
  }

  /** A password sign-in can never succeed for an account made by Google login, which has no hash. */
  lemma GoogleAccountsCannotSignIn(db: Tables, identifier: string, password: string, compare: (string, string) -> bool)
    requires db.Valid()
    requires forall id :: id in db.users && Identifies(db.users[id], identifier) ==> db.users[id].password.None?
    ensures !Signin(db, identifier, password, compare).Ok?
  {
  }

  /**
   * `GET /check` as written: `req.user`, which `deserializeUser` filled
   * with `SELECT *`, or null.  The whole row goes out, password hash included.
   */
  function Check(db: Tables, session: Option<int>): (r: Response<Option<Account>>)
    ensures r.Ok?
    ensures session.None? ==> r.body.None?
    ensures session.Some? ==> r.body == Deserialize(db, session.value)
  {
    if session.None? then Ok(None) else Ok(Deserialize(db, session.value))
  }

  /** The check route hands the stored password hash to the client. */
  lemma CheckSendsPasswordHash()
    ensures var db := Tables(map[1 := User("ann", "ann@one", Some("$2b$10$h"), None, None, None, None)],
                             map[], map[], {}, {}, {}, 2, 1, 1);
      var r := Check(db, Some(1));
      r.body.Some? && r.body.value.user.password == Some("$2b$10$h")
  {
    var db := Tables(map[1 := User("ann", "ann@one", Some("$2b$10$h"), None, None, None, None)],
                     map[], map[], {}, {}, {}, 2, 1, 1);
    assert Deserialize(db, 1) == Some(Account(1, db.users[1]));
  }

  /** `GET /check` as sign-in evidently intends it: the session user without the password column. */
  function SafeCheck(db: Tables, session: Option<int>): (r: Response<Option<SafeUser>>)
    ensures r.Ok?
    ensures r.body.Some? <==> session.Some? && session.value in db.users
    ensures r.body.Some? ==> r.body.value == Safe(Account(session.value, db.users[session.value]))
  {
    match Check(db, session).body
    case None => Ok(None)
    case Some(a) => Ok(Some(Safe(a)))
  }

  /** After a sign-in, the check reports exactly the user that sign-in answered with. */
  lemma SigninThenCheck(db: Tables, identifier: string, password: string, compare: (string, string) -> bool)
    requires db.Valid() && Signin(db, identifier, password, compare).Ok?
    ensures var a := LocalVerify(db, identifier, password, compare).account;
      SafeCheck(db, Some(Serialize(a))) == Ok(Some(Signin(db, identifier, password, compare).body))
  {
    var a := LocalVerify(db, identifier, password, compare).account;
    SessionRoundTrip(db, a);
  }

  /** After a sign-up, the check reports the new user with an empty profile. */
  method SignupThenCheck(db: Store, username: string, email: string, password: string, hash: string -> string)
    returns (r: Response<AccountRow>, answer: Response<Option<SafeUser>>)
    requires db.Valid() && username != "" && email != "" && password != ""
    requires !Taken(db.users, username, email)
    modifies db`users, db`nextUserId
    ensures r.Created?
    ensures answer == Ok(Some(SafeUser(r.body.id, username, email, None, None, None, None)))
  {
    var session;
    r, session := Signup(db, Some(username), Some(email), Some(password), hash);
    answer := SafeCheck(db.View(), session);
  }
}

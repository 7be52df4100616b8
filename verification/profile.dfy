/**
 * `server/routes/profile.js`: two handlers that overwrite the four
 * profile columns of one `users` row.  Neither compares `:id` with the
 * requester, so any signed-in user may rewrite any profile.  A field the
 * body leaves out arrives as `undefined` and is written as NULL.
 */
module Profile {
  import opened Schema

  /** The request body's `real_name`, `avatar_url`, `date_of_birth` and `bio`. */
  datatype ProfileFields = ProfileFields(
    realName: Option<string>, avatarUrl: Option<string>, dateOfBirth: Option<int>, bio: Option<string>)

  /** The row after `SET real_name = $1, avatar_url = $2, date_of_birth = $3, bio = $4`. */
  function WithProfile(u: User, f: ProfileFields): (v: User)
    ensures v.username == u.username && v.email == u.email && v.password == u.password
    ensures v.realName == f.realName && v.avatarUrl == f.avatarUrl
    ensures v.dateOfBirth == f.dateOfBirth && v.bio == f.bio
  {
    u.(realName := f.realName, avatarUrl := f.avatarUrl, dateOfBirth := f.dateOfBirth, bio := f.bio)
  }

  /** `UPDATE users SET ... WHERE id = $5`: an unknown id updates no row. */
  function SetProfile(users: map<int, User>, id: int, f: ProfileFields): (users': map<int, User>)
    ensures users'.Keys == users.Keys
    ensures id in users ==> users'[id] == WithProfile(users[id], f)
    ensures forall other :: other in users && other != id ==> users'[other] == users[other]
  {
    if id in users then users[id := WithProfile(users[id], f)] else users
  }

  /** Sending the same update twice leaves the table as sending it once. */
  lemma SetProfileIdempotent(users: map<int, User>, id: int, f: ProfileFields)
    ensures SetProfile(SetProfile(users, id, f), id, f) == SetProfile(users, id, f)
  {
    var once := SetProfile(users, id, f);
    assert forall k :: k in once ==> SetProfile(once, id, f)[k] == once[k];
  }

  /** Of two updates of the same profile, the later one wins entirely. */
  lemma LastUpdateWins(users: map<int, User>, id: int, f: ProfileFields, g: ProfileFields)
    ensures SetProfile(SetProfile(users, id, f), id, g) == SetProfile(users, id, g)
  {
    var both := SetProfile(SetProfile(users, id, f), id, g);
    assert forall k :: k in both ==> both[k] == SetProfile(users, id, g)[k];
  }

  /** A profile update cannot make two accounts share a username or an email. */
  lemma SetProfileKeepsAccountsUnique(users: map<int, User>, id: int, f: ProfileFields)
    requires UniqueAccounts(users)
    ensures UniqueAccounts(SetProfile(users, id, f))
  {
    var users' := SetProfile(users, id, f);
    forall a, b | a in users' && b in users' && a != b
      ensures users'[a].username != users'[b].username && users'[a].email != users'[b].email
    {
      assert users'[a].username == users[a].username && users'[a].email == users[a].email;
      assert users'[b].username == users[b].username && users'[b].email == users[b].email;
    }
  }

  /** `POST /profile/:id`: writes the four columns and answers 200 whether or not the id exists. */
  method UpdateProfile(db: Store, requester: int, id: int, f: ProfileFields) returns (r: Response<string>)
    modifies db`users
    ensures r == Ok("Profile updated")
    ensures db.users == SetProfile(old(db.users), id, f)
  {
    db.users := SetProfile(db.users, id, f);
    r := Ok("Profile updated");
  }

  /**
   * `PUT /edit/profile/:id`: the same update, answering with the updated
   * row (`RETURNING *`), or with no user when no row has that id.
   */
  method EditProfile(db: Store, requester: int, id: int, f: ProfileFields) returns (r: Response<Option<User>>)
    modifies db`users
    ensures db.users == SetProfile(old(db.users), id, f)
    ensures id in old(db.users) ==> r == Ok(Some(WithProfile(old(db.users)[id], f)))
    ensures id !in old(db.users) ==> r == Ok(None) && db.users == old(db.users)
  {
    db.users := SetProfile(db.users, id, f);
    r := if id in db.users then Ok(Some(db.users[id])) else Ok(None);
  }

  /** A signed-in user who does not own the profile still rewrites it. */
  method StrangerEditsProfile(db: Store, requester: int, id: int, f: ProfileFields) returns (r: Response<Option<User>>)
    requires requester != id && id in db.users
    modifies db`users
    ensures r.Ok? && r.body.Some?
    ensures id in db.users && db.users[id].realName == f.realName && db.users[id].bio == f.bio
    ensures db.users[id].username == old(db.users[id].username)
  {
    r := EditProfile(db, requester, id, f);
  }
}

/**
 * The user table of app/users/user.server.ts: records keyed by their
 * (unique) username, with the bcrypt hash of the password and an
 * auto-incremented id.
 */
module UserServer {
  import opened Wrappers
  import JsString
  import Bcrypt
  import AuthValidations

  /** A stored user; `password` holds the hash. */
  datatype User = User(id: nat, username: string, password: string)

  /** `Omit<User, "hashedPassword">`: what a successful login hands back. */
  datatype PublicUser = PublicUser(id: nat, username: string)

  type Users = map<string, User>

  /** Every record sits under its own username and ids identify records. */
  ghost predicate WellFormed(users: Users) {
    (forall k :: k in users ==> users[k].username == k) &&
    UniqueIds(users)
  }

  ghost predicate UniqueIds(users: Users) {
    forall a, b :: a in users && b in users && users[a].id == users[b].id ==> a == b
  }

  /** `getUserByUsername`: an exact match on the stored username, no normalisation of its own. */
  function GetUserByUsername(users: Users, username: string): (r: Option<User>)
    requires WellFormed(users)
    ensures r.Some? ==> r.value in users.Values && r.value.username == username
    ensures r.None? ==> forall k :: k in users ==> users[k].username != username
  {
    if username in users then Some(users[username]) else None
  }

  /** `getUserById`: the one record with that id, if any. */
  function GetUserById(users: Users, id: nat): (r: Option<User>)
    requires UniqueIds(users)
    ensures r.Some? <==> exists k :: k in users && users[k].id == id
    ensures r.Some? ==> r.value in users.Values && r.value.id == id
  {
    if exists k :: k in users && users[k].id == id then
      var k :| k in users && users[k].id == id;
      Some(users[k])
    else None
  }

  function WithoutPassword(u: User): PublicUser {
    PublicUser(u.id, u.username)
  }

  /**
   * `verifyLogin`: no record with that exact username, or an empty stored
   * hash, or a password that does not compare equal to the hash, gives
   * nothing; otherwise the record without its password.
   */
  function VerifyLogin(users: Users, username: string, password: string): (r: Option<PublicUser>)
    requires WellFormed(users)
    ensures username !in users ==> r.None?
    ensures username in users && users[username].password == "" ==> r.None?
    ensures username in users && !Bcrypt.Compare(password, users[username].password) ==> r.None?
    ensures username in users && users[username].password != "" && Bcrypt.Compare(password, users[username].password) ==>
      r == Some(WithoutPassword(users[username]))
    ensures r.Some? ==> username in users && r.value.id == users[username].id && r.value.username == username
  {
    match GetUserByUsername(users, username)
    case None => None
    case Some(u) =>
      if u.password == "" then None
      else if !Bcrypt.Compare(password, u.password) then None
      else Some(WithoutPassword(u))
  }

  lemma InsertKeepsWellFormed(users: Users, key: string, u: User)
    requires WellFormed(users) && u.username == key && key !in users
    requires forall k :: k in users ==> users[k].id != u.id
    ensures WellFormed(users[key := u])
  {
  }

  /** The table after `createUser` stored a new record with the given id. */
  function Inserted(users: Users, id: nat, username: string, password: string): Users {
    var key := AuthValidations.NormalizeUsername(username);
    users[key := User(id, key, Bcrypt.Hash(JsString.Trim(password)))]
  }

  /**
   * A user created with `password` can log in with exactly the trimmed
   * password under the normalised username, and gets back the new record
   * without its hash.
   */
  lemma {:induction false} CreatedUserVerifies(users: Users, id: nat, username: string, password: string, attempt: string)
    requires WellFormed(users)
    requires AuthValidations.NormalizeUsername(username) !in users
    requires forall k :: k in users ==> users[k].id != id
    ensures WellFormed(Inserted(users, id, username, password))
    ensures var key := AuthValidations.NormalizeUsername(username);
      VerifyLogin(Inserted(users, id, username, password), key, attempt) ==
        if attempt == JsString.Trim(password) then Some(PublicUser(id, key)) else None
  {
    var key := AuthValidations.NormalizeUsername(username);
    var u := User(id, key, Bcrypt.Hash(JsString.Trim(password)));
    InsertKeepsWellFormed(users, key, u);
    var t := users[key := u];
    assert GetUserByUsername(t, key) == Some(u);
    Bcrypt.CompareHash(JsString.Trim(password), attempt);
    if attempt == JsString.Trim(password) {
      assert VerifyLogin(t, key, attempt) == Some(PublicUser(id, key));
    } else {
      assert !Bcrypt.Compare(attempt, u.password);
    }
  }

  class UserTable {
    var users: Users
    var nextId: nat

    ghost predicate Valid()
      reads this
    {
      WellFormed(users) && nextId >= 1 &&
      forall k :: k in users ==> 1 <= users[k].id < nextId
    }

    constructor ()
      ensures Valid() && users == map[] && nextId == 1
    {
      users := map[];
      nextId := 1;
    }

    /**
     * `createUser`: stores the lower-cased, trimmed username with the hash of
     * the trimmed password under a fresh id. The username is unique in the
     * table, so creating one that exists fails and changes nothing.
     */
    method CreateUser(username: string, password: string) returns (r: Option<User>)
      requires Valid()
      modifies this
      ensures Valid()
      ensures var key := AuthValidations.NormalizeUsername(username);
        if key in old(users) then
          r.None? && users == old(users) && nextId == old(nextId)
        else
          r == Some(User(old(nextId), key, Bcrypt.Hash(JsString.Trim(password)))) &&
          users == Inserted(old(users), old(nextId), username, password) &&
          nextId == old(nextId) + 1
    {
      var key := AuthValidations.NormalizeUsername(username);
      if key in users {
        return None;
      }
      var user := User(nextId, key, Bcrypt.Hash(JsString.Trim(password)));
      InsertKeepsWellFormed(users, key, user);
      users := users[key := user];
      nextId := nextId + 1;
      r := Some(user);
    }

    /** `deleteUserByUsername`: removes exactly the record with that username; a missing one fails and changes nothing. */
    method DeleteUserByUsername(username: string) returns (r: Option<User>)
      requires Valid()
      modifies this
      ensures Valid() && nextId == old(nextId)
      ensures username in old(users) ==> r == Some(old(users)[username]) && users == old(users) - {username}
      ensures username !in old(users) ==> r.None? && users == old(users)
    {
      if username !in users {
        return None;
      }
      r := Some(users[username]);
      users := users - {username};
    }
  }
}

/**
 * The user registry handlers: signup, lookup by id, profile update and
 * delete. Password hashing is a parameter standing for bcrypt.
 *
 * updateUser reads `user.Name` where the field is `name`, which throws on
 * every request that passes its checks. It is modelled as written, and
 * `UpdateUserIntended` states and proves the field-wise update it means.
 */
module UserController {
  import opened Schema
  import opened Database

  /** The signup request body. */
  datatype Signup = Signup(
    username: Option<string>,
    email: Option<string>,
    password: Option<string>,
    firstName: Option<string>,
    middleName: Option<string>,
    lastName: Option<string>,
    avatar: Option<string>,
    bio: Option<string>,
    teams: seq<TeamId>)

  /**
   * `User.findOne({$or: [{email}, {username}]})` finds a user: some stored
   * user has the given email or the given username. An absent field matches no user.
   */
  predicate Taken(users: map<UserId, User>, email: Option<string>, username: Option<string>) {
    exists k :: k in users &&
      ((email.Some? && users[k].email == email.value) || (username.Some? && users[k].username == username.value))
  }

  /**
   * The record `new User(data)` builds after the name parts are filled in,
   * or None when its save fails because a required field is missing or empty.
   */
  function NewUser(s: Signup, hashed: string): (r: Option<User>)
    ensures r.Some? <==> Truthy(s.username) && Truthy(s.email) && hashed != ""
    ensures r.Some? ==> UserValid(r.value)
    ensures r.Some? ==> r.value.username == s.username.value && r.value.email == s.email.value
    ensures r.Some? ==> r.value.password == hashed
  {
    if Truthy(s.username) && Truthy(s.email) && hashed != "" then
      Some(User(Name(s.firstName, OrElse(s.middleName, Some("")), OrElse(s.lastName, Some(""))),
                s.username.value, s.email.value, hashed, s.avatar, s.bio, s.teams))
    else
      None
  }

  /**
   * Inserting a user whose username and email no stored user has keeps
   * usernames and emails unique.
   */
  lemma InsertKeepsUnique(users: map<UserId, User>, id: UserId, u: User)
    requires UniqueAccounts(users) && id !in users
    requires !Taken(users, Some(u.email), Some(u.username))
    ensures UniqueAccounts(users[id := u])
  {
    var users' := users[id := u];
    forall a, b | a in users' && b in users' && a != b
      ensures users'[a].username != users'[b].username && users'[a].email != users'[b].email
    {
      if a == id {
        assert b in users;
      } else if b == id {
        assert a in users;
      }
    }
  }

  /**
   * createUser: checks in order the username-or-email presence (400), a
   * clash with a stored user (400), the password (500) and the first name
   * (400); the save then fails (500) on a missing username or email.
   */
  method CreateUser(db: Db, s: Signup, hash: string -> string) returns (status: int, id: UserId)
    requires db.Valid()
    modifies db
    ensures db.Valid()
    ensures db.teams == old(db.teams) && db.files == old(db.files)
    ensures status == 400 || status == 500 || status == 201
    ensures !Truthy(s.username) && !Truthy(s.email) ==> status == 400
    ensures Truthy(s.username) || Truthy(s.email) ==>
      (Taken(old(db.users), s.email, s.username) ==> status == 400) &&
      (!Taken(old(db.users), s.email, s.username) ==>
        (!Truthy(s.password) ==> status == 500) &&
        (Truthy(s.password) && !Truthy(s.firstName) ==> status == 400) &&
        (Truthy(s.password) && Truthy(s.firstName) ==>
          (status == 201 <==> NewUser(s, hash(s.password.value)).Some?) &&
          (status == 500 <==> NewUser(s, hash(s.password.value)).None?)))
    ensures status == 201 ==>
      id == old(db.nextId) && id !in old(db.users) &&
      db.users == old(db.users)[id := NewUser(s, hash(s.password.value)).value] &&
      db.users[id].password == hash(s.password.value) &&
      db.users[id].name == Name(s.firstName, OrElse(s.middleName, Some("")), OrElse(s.lastName, Some("")))
    ensures status != 201 ==> db.users == old(db.users) && db.nextId == old(db.nextId)
  {
    id := 0;
    if !Truthy(s.username) && !Truthy(s.email) {
      return 400, id;
    }
    if Taken(db.users, s.email, s.username) {
      return 400, id;
    }
    if !Truthy(s.password) {
      return 500, id;
    }
    var hashed := hash(s.password.value);
    if !Truthy(s.firstName) {
      return 400, id;
    }
    var record := NewUser(s, hashed);
    if record.None? {
      return 500, id;
    }
    InsertKeepsUnique(db.users, db.nextId, record.value);
    id := db.nextId;
    db.users := db.users[id := record.value];
    db.nextId := id + 1;
    status := 201;
  }

  /** getUserById: 404 for an id not in the store, else the stored record. */
  method GetUserById(db: Db, id: UserId) returns (status: int, user: Option<User>)
    ensures status == 404 || status == 200
    ensures status == 404 <==> id !in db.users
    ensures status == 200 ==> user == Some(db.users[id])
    ensures status == 404 ==> user.None?
  {
    if id !in db.users {
      return 404, None;
    }
    return 200, Some(db.users[id]);
  }

  /** The profile update request body. */
  datatype ProfileUpdate = ProfileUpdate(
    firstName: Option<string>,
    middleName: Option<string>,
    lastName: Option<string>,
    username: Option<string>,
    email: Option<string>,
    avatar: Option<string>,
    bio: Option<string>)

  /** The email is being changed to one some stored user already holds. */
  predicate EmailClash(users: map<UserId, User>, id: UserId, email: Option<string>)
    requires id in users
  {
    Truthy(email) && email.value != users[id].email && exists k :: k in users && users[k].email == email.value
  }

  /** The username is being changed to one some stored user already holds. */
  predicate UsernameClash(users: map<UserId, User>, id: UserId, username: Option<string>)
    requires id in users
  {
    Truthy(username) && username.value != users[id].username &&
      exists k :: k in users && users[k].username == username.value
  }

  /**
   * updateUser as written: after the two clash checks it reads
   * `user.Name.first_name`, and `Name` is not a field of the schema, so
   * the request ends in the handler's 500 and nothing is saved.
   */
  method UpdateUser(db: Db, id: UserId, p: ProfileUpdate) returns (status: int)
    ensures status == 404 || status == 400 || status == 500
    ensures status == 404 <==> id !in db.users
    ensures id in db.users ==>
      (status == 400 <==> EmailClash(db.users, id, p.email) || UsernameClash(db.users, id, p.username))
  {
    if id !in db.users {
      return 404;
    }
    if EmailClash(db.users, id, p.email) {
      return 400;
    }
    if UsernameClash(db.users, id, p.username) {
      return 400;
    }
    return 500;
  }

  /** `value || fallback` where the fallback is a required string field. */
  function Prefer(value: Option<string>, fallback: string): (r: string)
    ensures Truthy(value) ==> r == value.value
    ensures !Truthy(value) ==> r == fallback
    ensures fallback != "" ==> r != ""
  {
    if Truthy(value) then value.value else fallback
  }

  /** The record updateUser means to save: each field takes the new value when given and non-empty. */
  function Updated(u: User, p: ProfileUpdate): (r: User)
    ensures UserValid(u) ==> UserValid(r)
    ensures r.password == u.password && r.teams == u.teams
    ensures r.username == (if Truthy(p.username) then p.username.value else u.username)
    ensures r.email == (if Truthy(p.email) then p.email.value else u.email)
    ensures r.name.first == (if Truthy(p.firstName) then p.firstName else u.name.first)
    ensures r.name.middle == (if Truthy(p.middleName) then p.middleName else u.name.middle)
    ensures r.name.last == (if Truthy(p.lastName) then p.lastName else u.name.last)
    ensures r.avatar == (if Truthy(p.avatar) then p.avatar else u.avatar)
    ensures r.bio == (if Truthy(p.bio) then p.bio else u.bio)
  {
    u.(name := Name(OrElse(p.firstName, u.name.first), OrElse(p.middleName, u.name.middle),
                    OrElse(p.lastName, u.name.last)),
       username := Prefer(p.username, u.username),
       email := Prefer(p.email, u.email),
       avatar := OrElse(p.avatar, u.avatar),
       bio := OrElse(p.bio, u.bio))
  }

  /** An update that passes both clash checks keeps usernames and emails unique. */
  lemma UpdateKeepsUnique(users: map<UserId, User>, id: UserId, p: ProfileUpdate)
    requires UniqueAccounts(users) && id in users
    requires !EmailClash(users, id, p.email) && !UsernameClash(users, id, p.username)
    ensures UniqueAccounts(users[id := Updated(users[id], p)])
  {
    var users' := users[id := Updated(users[id], p)];
    forall a, b | a in users' && b in users' && a != b
      ensures users'[a].username != users'[b].username && users'[a].email != users'[b].email
    {
      if a == id {
        assert b in users && users'[b] == users[b];
      } else if b == id {
        assert a in users && users'[a] == users[a];
      }
    }
  }

  /** updateUser as evidently intended: the same checks, then the field-wise update is saved. */
  method UpdateUserIntended(db: Db, id: UserId, p: ProfileUpdate) returns (status: int)
    requires db.Valid()
    modifies db
    ensures db.Valid()
    ensures db.teams == old(db.teams) && db.files == old(db.files) && db.nextId == old(db.nextId)
    ensures status == 404 || status == 400 || status == 200
    ensures status == 404 <==> id !in old(db.users)
    ensures id in old(db.users) ==>
      (status == 400 <==> EmailClash(old(db.users), id, p.email) || UsernameClash(old(db.users), id, p.username))
    ensures status == 200 ==> db.users == old(db.users)[id := Updated(old(db.users)[id], p)]
    ensures status != 200 ==> db.users == old(db.users)
  {
    if id !in db.users {
      return 404;
    }
    if EmailClash(db.users, id, p.email) || UsernameClash(db.users, id, p.username) {
      return 400;
    }
    UpdateKeepsUnique(db.users, id, p);
    db.users := db.users[id := Updated(db.users[id], p)];
    status := 200;
  }

  /**
   * deleteUser: removes the user record only; team member records and file
   * access entries that name the user are kept.
   */
  method DeleteUser(db: Db, id: UserId) returns (status: int)
    requires db.Valid()
    modifies db
    ensures db.Valid()
    ensures db.teams == old(db.teams) && db.files == old(db.files) && db.nextId == old(db.nextId)
    ensures status == 404 <==> id !in old(db.users)
    ensures status == 200 <==> id in old(db.users)
    ensures status == 200 ==> db.users == old(db.users) - {id}
    ensures status == 404 ==> db.users == old(db.users)
  {
    if id !in db.users {
      return 404;
    }
    db.users := db.users - {id};
    status := 200;
  }
}

/** The authentication services of app/services/auth.py: login by username
    or e-mail with a password check, and registration under unique e-mail
    and username. */
module AuthService {

  import opened Common
  import opened Collections
  import opened UserModel
  import opened Database

  /** `User.find_one({"$or": [{"username": login}, {"email": login}]})`: the
      first stored user whose username or e-mail is `login`. */
  function FindLogin(users: seq<User>, login: string): (r: Option<User>)
    ensures r.Some? ==> r.value in users && (r.value.username == login || r.value.email == login)
    ensures r.None? <==> forall u :: u in users ==> u.username != login && u.email != login
    ensures r.Some? ==> r.value == users[LoginIndex(users, login)]
  {
    if users == [] then None
    else if users[0].username == login || users[0].email == login then Some(users[0])
    else
      assert forall u :: u in users <==> u == users[0] || u in users[1..];
      FindLogin(users[1..], login)
  }

  /** The position of the first user whose username or e-mail is `login`,
      or -1 when there is none. */
  function LoginIndex(users: seq<User>, login: string): (i: int)
    ensures -1 <= i < |users|
    ensures i >= 0 ==> && (users[i].username == login || users[i].email == login)
                       && forall j :: 0 <= j < i ==> users[j].username != login && users[j].email != login
    ensures i == -1 ==> forall u :: u in users ==> u.username != login && u.email != login
  {
    if users == [] then -1
    else if users[0].username == login || users[0].email == login then 0
    else
      assert forall u :: u in users <==> u == users[0] || u in users[1..];
      var i := LoginIndex(users[1..], login);
      if i == -1 then -1 else i + 1
  }

  /** `authenticate_user`: None when no user has `login` as username or
      e-mail, None when the password does not verify against the stored
      hash, and the matched user otherwise. */
  function AuthenticateUser(db: Db, login: string, password: string): (r: Option<User>)
    reads db
    ensures r.Some? ==> && r.value in db.users
                        && (r.value.username == login || r.value.email == login)
                        && Verify(password, r.value.hashedPassword)
    ensures (forall u :: u in db.users ==> u.username != login && u.email != login) ==> r.None?
    ensures r.Some? ==> r == FindLogin(db.users, login)
    ensures r.Some? <==> (&& FindLogin(db.users, login).Some?
                          && Verify(password, FindLogin(db.users, login).value.hashedPassword))
  {
    match FindLogin(db.users, login)
    case None => None
    case Some(user) => if Verify(password, user.hashedPassword) then Some(user) else None
  }

  /** The lookup finds the one user that has the login as username or as
      e-mail. */
  lemma {:induction false} FindLoginUnique(users: seq<User>, login: string, u: User)
    requires u in users && (u.username == login || u.email == login)
    requires forall v :: v in users && v != u ==> v.username != login && v.email != login
    ensures FindLogin(users, login) == Some(u)
  {
    var found := FindLogin(users, login).value;
    assert found in users;
  }

  /** A user logs in with their username, or with their e-mail, and a
      password that verifies against the stored hash; with any other
      password they do not. Under the unique indexes the only other user
      the lookup could match is one whose e-mail is this username, or whose
      username is this e-mail, which the lemma excludes. */
  lemma LoginByUsernameOrEmail(db: Db, u: User, login: string, password: string)
    requires db.Valid() && u in db.users
    requires login == u.username || login == u.email
    requires login == u.username ==> forall v :: v in db.users && v != u ==> v.email != login
    requires login == u.email ==> forall v :: v in db.users && v != u ==> v.username != login
    ensures AuthenticateUser(db, login, password) == if Verify(password, u.hashedPassword) then Some(u) else None
  {
    forall v | v in db.users && v != u ensures v.username != login && v.email != login {
      OtherUsersDiffer(db, u, v);
    }
    FindLoginUnique(db.users, login, u);
  }

  /** Under the unique indexes, the only user that can share a login with
      `u` is one whose e-mail is `u`'s username or whose username is `u`'s
      e-mail. */
  lemma OtherUsersDiffer(db: Db, u: User, v: User)
    requires db.Valid() && u in db.users && v in db.users && v != u
    ensures v.username != u.username && v.email != u.email
  {
    if v.username == u.username {
      DistinctKeyedEqual(db.users, UserName, v, u);
    }
    if v.email == u.email {
      DistinctKeyedEqual(db.users, UserEmail, v, u);
    }
  }

  /** The user `create_user` stores for a body. */
  function NewUser(data: UserCreate, id: Id, now: int): (u: User)
    ensures u.id == id && u.email == data.email && u.username == data.username
    ensures u.fullName == data.fullName && u.isActive == data.isActive && !u.isSuperuser
    ensures Verify(data.password, u.hashedPassword) && u.hashedPassword != data.password
    ensures u.createdAt == now && u.updatedAt == now
  {
    HashProperties(data.password, data.password);
    User(id, data.email, data.username, Hash(data.password), data.fullName, data.isActive, false, now, now)
  }

  /** `create_user`: Conflict when the e-mail is taken, checked first, then
      Conflict when the username is taken; otherwise exactly one user is
      added, with the hash of the password in place of the password. */
  method CreateUser(db: Db, data: UserCreate, id: Id, now: int) returns (r: Result<User>)
    requires db.Valid() && id !in KeySet(db.users, UserId)
    modifies db
    ensures db.Valid()
    ensures data.email in KeySet(old(db.users), UserEmail) ==>
              r == Err(Conflict("Email already registered"))
    ensures data.email !in KeySet(old(db.users), UserEmail) && data.username in KeySet(old(db.users), UserName) ==>
              r == Err(Conflict("Username already taken"))
    ensures data.email !in KeySet(old(db.users), UserEmail) && data.username !in KeySet(old(db.users), UserName) ==>
              r == Ok(NewUser(data, id, now))
    ensures r.Ok? ==> db.users == old(db.users) + [r.value]
    ensures r.Err? ==> db.users == old(db.users)
    ensures db.forms == old(db.forms) && db.questions == old(db.questions)
    ensures db.responses == old(db.responses) && db.answers == old(db.answers)
  {
    if FirstBy(db.users, UserEmail, data.email).Some? {
      return Err(Conflict("Email already registered"));
    }
    if FirstBy(db.users, UserName, data.username).Some? {
      return Err(Conflict("Username already taken"));
    }
    var user := NewUser(data, id, now);
    AppendDistinct(db.users, UserId, user);
    AppendDistinct(db.users, UserEmail, user);
    AppendDistinct(db.users, UserName, user);
    db.users := db.users + [user];
    r := Ok(user);
  }

  /** Registration then login: a user just registered under a fresh e-mail
      and username logs in with that username and password, unless an
      earlier user has that username as e-mail. */
  lemma RegisteredUserLogsIn(db: Db, data: UserCreate, id: Id, now: int)
    requires db.Valid() && db.users != [] && db.users[|db.users| - 1] == NewUser(data, id, now)
    requires forall v :: v in db.users[..|db.users| - 1] ==> v.email != data.username
    ensures AuthenticateUser(db, data.username, data.password) == Some(NewUser(data, id, now))
  {
    var u := NewUser(data, id, now);
    var n := |db.users| - 1;
    forall v | v in db.users && v != u ensures v.email != data.username {
      var k :| 0 <= k < |db.users| && db.users[k] == v;
      assert k != n;
      assert v in db.users[..n];
    }
    assert u in db.users;
    LoginByUsernameOrEmail(db, u, data.username, data.password);
  }
}

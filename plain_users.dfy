/** The user service under backend/: usernames are checked by trimmed
    length only and passwords are stored and compared as given. */
module PlainUsers {
  import opened Outcomes
  import opened Text
  import opened UserRules
  import opened UserTable

  /** registerAsync: first_name, last_name, username and password checks in
      that order (validateName and validateUsername are the same trimmed
      length rule), then the duplicate check, then one insert. */
  function Register(db: UserDb, req: Registration): (s: Registered)
    ensures s.result.Err? ==> s.db == db
    ensures s.result.Ok? ==>
              s.db.nextId == db.nextId + 1 && |s.db.users| == |db.users| + 1
              && s.db.users[..|db.users|] == db.users
              && s.result.value == ProfileOf(s.db.users[|db.users|])
              && req.firstName.Some? && req.lastName.Some? && req.username.Some? && req.password.Some?
              && s.db.users[|db.users|].id == db.nextId
              && s.db.users[|db.users|].firstName == req.firstName.value
              && s.db.users[|db.users|].lastName == req.lastName.value
              && s.db.users[|db.users|].username == req.username.value
              && Some(s.db.users[|db.users|].password) == req.password
  {
    if !TrimmedAtLeast3(req.firstName) then Registered(Err(InvalidFirstName), db)
    else if !TrimmedAtLeast3(req.lastName) then Registered(Err(InvalidLastName), db)
    else if !TrimmedAtLeast3(req.username) then Registered(Err(InvalidUsername), db)
    else if !ValidPassword(req.password) then Registered(Err(InvalidPassword), db)
    else if Lookup(db.users, req.username.value).Some? then Registered(Err(UserExists), db)
    else
      var u := User(db.nextId, req.firstName.value, req.lastName.value, req.username.value,
                    req.password.value);
      Registered(Ok(ProfileOf(u)), UserDb(db.users + [u], db.nextId + 1))
  }

  /** loginAsync: an invalid username is refused before any lookup; then
      `!user || user.password !== password` gives one 401 refusal. */
  function Login(users: seq<User>, username: Option<string>, password: Option<string>): (r: Result<User>)
    ensures r.Ok? ==> r.value in users && username.Some? && r.value.username == username.value
  {
    if !TrimmedAtLeast3(username) then Err(InvalidUsername)
    else match Lookup(users, username.value)
    case None => Err(BadCredentials)
    case Some(u) => if password != Some(u.password) then Err(BadCredentials) else Ok(u)
  }

  /** What a registration does: the first failing field check wins (all
      400), an existing username is refused, a refusal writes nothing, and
      success appends one row holding the submitted password unchanged. */
  lemma RegisterOutcome(db: UserDb, req: Registration)
    requires Valid(db)
    ensures var s := Register(db, req);
      (s.result.Err? ==> s.db == db && Status(s.result.kind) == 400)
      && (!TrimmedAtLeast3(req.firstName) ==> s.result == Err(InvalidFirstName))
      && (TrimmedAtLeast3(req.firstName) && !TrimmedAtLeast3(req.lastName) ==> s.result == Err(InvalidLastName))
      && ((TrimmedAtLeast3(req.firstName) && TrimmedAtLeast3(req.lastName) && !TrimmedAtLeast3(req.username))
          ==> s.result == Err(InvalidUsername))
      && ((TrimmedAtLeast3(req.firstName) && TrimmedAtLeast3(req.lastName) && TrimmedAtLeast3(req.username)
           && !ValidPassword(req.password))
          ==> s.result == Err(InvalidPassword))
      && ((TrimmedAtLeast3(req.firstName) && TrimmedAtLeast3(req.lastName) && TrimmedAtLeast3(req.username)
           && ValidPassword(req.password) && (exists u :: u in db.users && u.username == req.username.value))
          ==> s.result == Err(UserExists))
      && (s.result.Ok? <==>
            TrimmedAtLeast3(req.firstName) && TrimmedAtLeast3(req.lastName) && TrimmedAtLeast3(req.username)
            && ValidPassword(req.password) && forall u :: u in db.users ==> u.username != req.username.value)
      && (s.result.Ok? ==>
            var u := s.db.users[|s.db.users| - 1];
            s.db.users == db.users + [u]
            && u.id == db.nextId && s.db.nextId == db.nextId + 1
            && u.firstName == req.firstName.value && u.lastName == req.lastName.value
            && u.username == req.username.value
            && Some(u.password) == req.password
            && s.result.value == ProfileOf(u)
            && Valid(s.db))
  {
    var s := Register(db, req);
    if s.result.Ok? {
      var u := s.db.users[|s.db.users| - 1];
      InsertFresh(db, u);
    }
  }

  /** Login returns the user exactly when a row with that username exists
      and its stored password equals the one given; an unknown user and a
      wrong password get the same 401 refusal. */
  lemma LoginOutcome(users: seq<User>, username: Option<string>, password: Option<string>)
    requires UniqueUsernames(users)
    ensures var r := Login(users, username, password);
      (!TrimmedAtLeast3(username) ==> r == Err(InvalidUsername))
      && (r.Ok? <==>
            TrimmedAtLeast3(username)
            && exists u :: u in users && u.username == username.value && Some(u.password) == password)
      && (r.Ok? ==> r.value in users && r.value.username == username.value)
      && (TrimmedAtLeast3(username) && r.Err? ==> r == Err(BadCredentials) && Status(r.kind) == 401)
  {
    if TrimmedAtLeast3(username) && exists u :: u in users && u.username == username.value && Some(u.password) == password {
      var u :| u in users && u.username == username.value && Some(u.password) == password;
      LookupUnique(users, u);
    }
  }

  /** Registering and then logging in with the same username and password
      returns the new row. */
  lemma RegisterThenLogin(db: UserDb, req: Registration)
    requires Valid(db)
    requires Register(db, req).result.Ok?
    ensures var s := Register(db, req);
      Login(s.db.users, req.username, req.password).Ok?
      && Login(s.db.users, req.username, req.password).value.id == s.result.value.id
  {
    var s := Register(db, req);
    var u := s.db.users[|s.db.users| - 1];
    InsertFresh(db, u);
  }

  /** The service with the `users` table as its fields. */
  class UserService {
    var users: seq<User>
    var nextId: int

    function State(): UserDb
      reads this
    {
      UserDb(users, nextId)
    }

    constructor ()
      ensures State() == UserDb([], 1) && UserTable.Valid(State())
    {
      users, nextId := [], 1;
    }

    method RegisterUser(req: Registration) returns (r: Result<Profile>)
      modifies this
      ensures Registered(r, State()) == Register(old(State()), req)
    {
      if !TrimmedAtLeast3(req.firstName) {
        return Err(InvalidFirstName);
      }
      if !TrimmedAtLeast3(req.lastName) {
        return Err(InvalidLastName);
      }
      if !TrimmedAtLeast3(req.username) {
        return Err(InvalidUsername);
      }
      if !ValidPassword(req.password) {
        return Err(InvalidPassword);
      }
      var existing := Lookup(users, req.username.value);
      if existing.Some? {
        return Err(UserExists);
      }
      var u := User(nextId, req.firstName.value, req.lastName.value, req.username.value, req.password.value);
      users := users + [u];
      nextId := nextId + 1;
      return Ok(ProfileOf(u));
    }

    method LoginUser(username: Option<string>, password: Option<string>) returns (r: Result<User>)
      ensures r == Login(users, username, password)
    {
      if !TrimmedAtLeast3(username) {
        return Err(InvalidUsername);
      }
      var user := Lookup(users, username.value);
      if user.None? || password != Some(user.value.password) {
        return Err(BadCredentials);
      }
      return Ok(user.value);
    }
  }
}

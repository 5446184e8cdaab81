/** The user service under src/: usernames are email addresses and
    passwords are stored as bcrypt hashes. bcrypt is a foreign call, so
    `hash` and `compare` are parameters: `hash(p)` is what
    `bcrypt.hash(p, 10)` returned, `compare(p, h)` what `bcrypt.compare`
    answers. */
module HashedUsers {
  import opened Outcomes
  import opened Text
  import opened UserRules
  import opened UserTable

  /** registerAsync: first_name, last_name, email and password checks in
      that order, then the duplicate check, then one insert of the hashed
      password. */
  function Register(db: UserDb, req: Registration, hash: string -> string): (s: Registered)
    ensures s.result.Err? ==> s.db == db
    ensures s.result.Ok? ==>
              s.db.nextId == db.nextId + 1 && |s.db.users| == |db.users| + 1
              && s.db.users[..|db.users|] == db.users
              && s.result.value == ProfileOf(s.db.users[|db.users|])
              && req.firstName.Some? && req.lastName.Some? && req.username.Some? && req.password.Some?
              && s.db.users[|db.users|].id == db.nextId
              && s.db.users[|db.users|].firstName == req.firstName.value
              && s.db.users[|db.users|].lastName == req.lastName.value
              && s.db.users[|db.users|].username == req.username.value
              && s.db.users[|db.users|].password == hash(req.password.value)
  {
    if !TrimmedAtLeast3(req.firstName) then Registered(Err(InvalidFirstName), db)
    else if !TrimmedAtLeast3(req.lastName) then Registered(Err(InvalidLastName), db)
    else if !ValidEmail(req.username) then Registered(Err(InvalidEmail), db)
    else if !ValidPassword(req.password) then Registered(Err(InvalidPassword), db)
    else if Lookup(db.users, req.username.value).Some? then Registered(Err(UserExists), db)
    else
      var u := User(db.nextId, req.firstName.value, req.lastName.value, req.username.value,
                    hash(req.password.value));
      Registered(Ok(ProfileOf(u)), UserDb(db.users + [u], db.nextId + 1))
  }

  /** loginAsync: an invalid email is refused before any lookup; an unknown
      user and a wrong password are refused alike. */
  function Login(users: seq<User>, username: Option<string>, password: string,
                 compare: (string, string) -> bool): (r: Result<User>)
    ensures r.Ok? ==> r.value in users && username.Some? && r.value.username == username.value
  {
    if !ValidEmail(username) then Err(InvalidEmail)
    else match Lookup(users, username.value)
    case None => Err(BadCredentials)
    case Some(u) => if compare(password, u.password) then Ok(u) else Err(BadCredentials)
  }

  /** What a registration does: the first failing field check wins (all
      400), an existing username is refused, a refusal writes nothing, and
      success appends one row holding hash(password) and returns the row
      without its password. */
  lemma RegisterOutcome(db: UserDb, req: Registration, hash: string -> string)
    requires Valid(db)
    ensures var s := Register(db, req, hash);
      (s.result.Err? ==> s.db == db && Status(s.result.kind) == 400)
      && (!TrimmedAtLeast3(req.firstName) ==> s.result == Err(InvalidFirstName))
      && (TrimmedAtLeast3(req.firstName) && !TrimmedAtLeast3(req.lastName) ==> s.result == Err(InvalidLastName))
      && ((TrimmedAtLeast3(req.firstName) && TrimmedAtLeast3(req.lastName) && !ValidEmail(req.username))
          ==> s.result == Err(InvalidEmail))
      && ((TrimmedAtLeast3(req.firstName) && TrimmedAtLeast3(req.lastName) && ValidEmail(req.username)
           && !ValidPassword(req.password))
          ==> s.result == Err(InvalidPassword))
      && ((TrimmedAtLeast3(req.firstName) && TrimmedAtLeast3(req.lastName) && ValidEmail(req.username)
           && ValidPassword(req.password) && (exists u :: u in db.users && u.username == req.username.value))
          ==> s.result == Err(UserExists))
      && (s.result.Ok? <==>
            TrimmedAtLeast3(req.firstName) && TrimmedAtLeast3(req.lastName) && ValidEmail(req.username)
            && ValidPassword(req.password) && forall u :: u in db.users ==> u.username != req.username.value)
      && (s.result.Ok? ==>
            var u := s.db.users[|s.db.users| - 1];
            s.db.users == db.users + [u]
            && u.id == db.nextId && s.db.nextId == db.nextId + 1
            && u.firstName == req.firstName.value && u.lastName == req.lastName.value
            && u.username == req.username.value
            && u.password == hash(req.password.value)
            && s.result.value == ProfileOf(u)
            && Valid(s.db))
  {
    var s := Register(db, req, hash);
    if s.result.Ok? {
      var u := s.db.users[|s.db.users| - 1];
      InsertFresh(db, u);
    }
  }

  /** Login succeeds exactly for a registered email whose stored hash
      matches, returning that user's row; every other well-formed attempt
      gets the same 401 refusal, so a caller cannot tell an unknown user
      from a wrong password. */
  lemma LoginOutcome(users: seq<User>, username: Option<string>, password: string,
                     compare: (string, string) -> bool)
    requires UniqueUsernames(users)
    ensures var r := Login(users, username, password, compare);
      (!ValidEmail(username) ==> r == Err(InvalidEmail))
      && (r.Ok? <==>
            ValidEmail(username)
            && exists u :: u in users && u.username == username.value && compare(password, u.password))
      && (r.Ok? ==> r.value in users && r.value.username == username.value)
      && (ValidEmail(username) && r.Err? ==> r == Err(BadCredentials) && Status(r.kind) == 401)
  {
    var r := Login(users, username, password, compare);
    if ValidEmail(username) && exists u :: u in users && u.username == username.value && compare(password, u.password) {
      var u :| u in users && u.username == username.value && compare(password, u.password);
      LookupUnique(users, u);
    }
  }

  /** Registering and then logging in with the same email and password
      returns the new row, provided compare recognises the hash it is given. */
  lemma RegisterThenLogin(db: UserDb, req: Registration, hash: string -> string,
                          compare: (string, string) -> bool)
    requires Valid(db)
    requires Register(db, req, hash).result.Ok?
    requires compare(req.password.value, hash(req.password.value))
    ensures var s := Register(db, req, hash);
      Login(s.db.users, req.username, req.password.value, compare).Ok?
      && Login(s.db.users, req.username, req.password.value, compare).value.id == s.result.value.id
  {
    var s := Register(db, req, hash);
    var u := s.db.users[|s.db.users| - 1];
    InsertFresh(db, u);
  }

  /** The service with the `users` table as its fields. */
  class UserService {
    var users: seq<User>
    var nextId: int

    function State(): UserDb
      reads this
    {
      UserDb(users, nextId)
    }

    constructor ()
      ensures State() == UserDb([], 1) && UserTable.Valid(State())
    {
      users, nextId := [], 1;
    }

    method RegisterUser(req: Registration, hash: string -> string) returns (r: Result<Profile>)
      modifies this
      ensures Registered(r, State()) == Register(old(State()), req, hash)
    {
      if !TrimmedAtLeast3(req.firstName) {
        return Err(InvalidFirstName);
      }
      if !TrimmedAtLeast3(req.lastName) {
        return Err(InvalidLastName);
      }
      if !ValidEmail(req.username) {
        return Err(InvalidEmail);
      }
      if !ValidPassword(req.password) {
        return Err(InvalidPassword);
      }
      var existing := Lookup(users, req.username.value);
      if existing.Some? {
        return Err(UserExists);
      }
      var hashed := hash(req.password.value);
      var u := User(nextId, req.firstName.value, req.lastName.value, req.username.value, hashed);
      users := users + [u];
      nextId := nextId + 1;
      return Ok(ProfileOf(u));
    }

    method LoginUser(username: Option<string>, password: string, compare: (string, string) -> bool)
      returns (r: Result<User>)
      ensures r == Login(users, username, password, compare)
    {
      if !ValidEmail(username) {
        return Err(InvalidEmail);
      }
      var user := Lookup(users, username.value);
      if user.None? {
        return Err(BadCredentials);
      }
      var isMatch := compare(password, user.value.password);
      if !isMatch {
        return Err(BadCredentials);
      }
      return Ok(user.value);
    }
  }
}

/** The `users` table the two user services share: rows, lookup by
    username (`getUserByUsernameAsync`) and the row insert
    (`createUserAsync`). */
module UserTable {
  import opened Outcomes

  /** A row of `users`; `password` holds whatever the service stored. */
  datatype User = User(id: int, firstName: string, lastName: string, username: string, password: string)

  /** What `createUserAsync` returns: the row without its password. */
  datatype Profile = Profile(id: int, firstName: string, lastName: string, username: string)

  /** A registration request body; any field may be absent or not a string. */
  datatype Registration = Registration(
    firstName: Option<string>, lastName: Option<string>,
    username: Option<string>, password: Option<string>)

  /** The table and the next id its SERIAL column hands out. */
  datatype UserDb = UserDb(users: seq<User>, nextId: int)

  /** The outcome of a registration: what it returns and the table after it. */
  datatype Registered = Registered(result: Result<Profile>, db: UserDb)

  function ProfileOf(u: User): Profile {
    Profile(u.id, u.firstName, u.lastName, u.username)
  }

  /** `SELECT * FROM users WHERE username = $1`, first row or null. */
  function Lookup(users: seq<User>, username: string): (r: Option<User>)
    ensures r.Some? ==> r.value in users && r.value.username == username
    ensures r.None? <==> forall u :: u in users ==> u.username != username
  {
    if users == [] then None
    else if users[0].username == username then Some(users[0])
    else Lookup(users[1..], username)
  }

  /** No two rows share a username. */
  predicate UniqueUsernames(users: seq<User>) {
    forall i, j :: 0 <= i < j < |users| ==> users[i].username != users[j].username
  }

  /** Facts every registration keeps: ids are positive and below the
      counter, and usernames are unique. */
  predicate Valid(db: UserDb) {
    db.nextId >= 1
    && (forall u :: u in db.users ==> 1 <= u.id < db.nextId)
    && UniqueUsernames(db.users)
  }

  /** With unique usernames, the row Lookup finds is the only row with that
      username. */
  lemma LookupUnique(users: seq<User>, u: User)
    requires UniqueUsernames(users)
    requires u in users
    ensures Lookup(users, u.username) == Some(u)
  {
    var k :| 0 <= k < |users| && users[k] == u;
    var found := Lookup(users, u.username);
    var j :| 0 <= j < |users| && users[j] == found.value;
    assert j == k;
  }

  /** Appending a row whose username is new keeps the table valid, and that
      row is what a later lookup of its username finds. */
  lemma {:induction false} InsertFresh(db: UserDb, u: User)
    requires Valid(db)
    requires Lookup(db.users, u.username).None?
    requires u.id == db.nextId
    ensures Valid(UserDb(db.users + [u], db.nextId + 1))
    ensures Lookup(db.users + [u], u.username) == Some(u)
  {
    var users := db.users + [u];
    assert forall i :: 0 <= i < |db.users| ==> db.users[i] in db.users;
    assert UniqueUsernames(users);
    LookupUnique(users, u);
  }
}

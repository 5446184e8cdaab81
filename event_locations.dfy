/** EventLocationService: read-only lookups over the `event_locations`
    table, filtered by the owning user. */
module EventLocations {
  import opened Outcomes

  /** A row of `event_locations` (the columns the service's callers use). */
  datatype Location = Location(id: int, name: string, fullAddress: string, maxCapacity: int, idCreatorUser: int)

  /** The id column is the table's primary key. */
  predicate UniqueIds(table: seq<Location>) {
    forall i, j :: 0 <= i < j < |table| ==> table[i].id != table[j].id
  }

  /** `SELECT * FROM event_locations WHERE id = $1`, `rows[0]`: the first
      row with that id, or nothing. */
  function FindById(table: seq<Location>, id: int): (r: Option<Location>)
    ensures r.Some? ==> r.value in table && r.value.id == id
    ensures r.None? <==> forall l :: l in table ==> l.id != id
  {
    if table == [] then None
    else if table[0].id == id then Some(table[0])
    else FindById(table[1..], id)
  }

  /** The capacity lookup of the event service,
      `SELECT max_capacity FROM event_locations WHERE id = $1`, as a map:
      an id is present iff a row has it, and maps to that row's
      max_capacity. */
  function Capacities(table: seq<Location>): (m: map<int, int>)
    ensures forall id :: id in m <==> FindById(table, id).Some?
    ensures forall id :: id in m ==> m[id] == FindById(table, id).value.maxCapacity
  {
    if table == [] then map[]
    else Capacities(table[1..])[table[0].id := table[0].maxCapacity]
  }

  /** findAllByUser / getAllByUser: `SELECT * FROM event_locations WHERE
      id_creator_user = $1`, kept in table order. */
  function GetAllByUser(table: seq<Location>, userId: int): (r: seq<Location>)
    ensures |r| <= |table|
    ensures forall l :: l in r <==> l in table && l.idCreatorUser == userId
  {
    if table == [] then []
    else if table[0].idCreatorUser == userId then [table[0]] + GetAllByUser(table[1..], userId)
    else GetAllByUser(table[1..], userId)
  }

  /** getByIdIfOwned: the location when it exists and `userId` created it;
      null both when it is missing and when someone else owns it. */
  function GetByIdIfOwned(table: seq<Location>, id: int, userId: int): (r: Option<Location>)
    ensures r.Some? <==> FindById(table, id).Some? && FindById(table, id).value.idCreatorUser == userId
    ensures r.Some? ==> r == FindById(table, id) && r.value in table
  {
    match FindById(table, id)
    case None => None
    case Some(l) => if l.idCreatorUser != userId then None else Some(l)
  }

  /** With unique ids, the row FindById finds is the only row with that id. */
  lemma FindByIdUnique(table: seq<Location>, l: Location)
    requires UniqueIds(table)
    requires l in table
    ensures FindById(table, l.id) == Some(l)
  {
    var k :| 0 <= k < |table| && table[k] == l;
    var found := FindById(table, l.id);
    var j :| 0 <= j < |table| && table[j] == found.value;
    assert j == k;
  }

  /** The two lookups agree: every location listed for a user is also what
      getByIdIfOwned returns to that user for its id, and a location that
      getByIdIfOwned returns is listed. */
  lemma OwnedLookupsAgree(table: seq<Location>, userId: int, id: int)
    requires UniqueIds(table)
    ensures forall l :: l in GetAllByUser(table, userId) ==> GetByIdIfOwned(table, l.id, userId) == Some(l)
    ensures GetByIdIfOwned(table, id, userId).Some? ==>
      GetByIdIfOwned(table, id, userId).value in GetAllByUser(table, userId)
  {
    forall l | l in GetAllByUser(table, userId)
      ensures GetByIdIfOwned(table, l.id, userId) == Some(l)
    {
      FindByIdUnique(table, l);
    }
  }

  /** A non-owner learns nothing: whether the location is missing or owned
      by someone else, the answer is the same null. */
  lemma NonOwnerSeesAbsence(table: seq<Location>, id: int, userId: int)
    requires forall l :: l in table && l.id == id ==> l.idCreatorUser != userId
    ensures GetByIdIfOwned(table, id, userId) == None
  {
  }
}

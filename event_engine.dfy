/** The event lifecycle and enrollment engine of EventService: create,
    update and delete behind the validation, capacity and ownership guards,
    and the enroll/unenroll state machine per (user, event) pair. Every
    pipeline ends in at most one store write.

    The pipelines are first stated as functions over a value `Db` (the
    tables the repository reads and writes); class EventService runs them
    step by step against its own fields and is proved to agree with them. */
module EventEngine {
  import opened Outcomes
  import opened EventRules
  import opened EnrollmentRows
  import opened Text
  import EventLocations

  /** The repository's tables as the engine sees them: events by id,
      max_capacity by event_location id, the enrollment rows, and the next
      id the `events` SERIAL column hands out. */
  datatype Db = Db(
    events: map<int, Event>,
    capacity: map<int, int>,
    rows: seq<Enrollment>,
    nextId: int)

  /** The outcome of one service call: what it returns and the tables after it. */
  datatype Step<T> = Step(result: Result<T>, db: Db)

  /** Structural facts every operation keeps: ids come from the SERIAL
      counter (positive, never reused), enrollment rows only mention ids
      already handed out, and no (user, event) pair has two rows. */
  predicate Valid(db: Db) {
    db.nextId >= 1
    && (forall id :: id in db.events ==> 1 <= id < db.nextId)
    && (forall x :: x in db.rows ==> x.idEvent < db.nextId)
    && Distinct(db.rows)
  }

  /** Every stored event fits the capacity of its location. */
  predicate WithinCapacity(db: Db) {
    forall id :: id in db.events ==>
      db.events[id].idEventLocation in db.capacity
      && db.events[id].maxAssistance <= db.capacity[db.events[id].idEventLocation]
  }

  /** No stored event has more enrollment rows than its max_assistance. */
  predicate WithinAttendance(db: Db) {
    forall id :: id in db.events ==> CountFor(db.rows, id) <= db.events[id].maxAssistance
  }

  // ---------------------------------------------------------------------
  // The five pipelines

  /** createEventAsync: validation, capacity guard, creator := acting user,
      one insert. The result is the new id with the stored row. */
  function Create(db: Db, d: Draft, userId: int): (s: Step<(int, Event)>)
    ensures s.result.Err? ==> s.db == db
    ensures s.result.Ok? ==>
              s.result.value.0 == db.nextId
              && s.db == db.(events := db.events[db.nextId := s.result.value.1], nextId := db.nextId + 1)
  {
    match FirstFailure(d)
    case Some(k) => Step(Err(k), db)
    case None =>
      match CheckCapacity(db.capacity, d.idEventLocation.value, d.maxAssistance.value)
      case Some(k) => Step(Err(k), db)
      case None =>
        var e := NewRecord(d.(idCreatorUser := Some(userId)));
        Step(Ok((db.nextId, e)), db.(events := db.events[db.nextId := e], nextId := db.nextId + 1))
  }

  /** updateEventAsync: id present, validation, ownership guard, capacity
      guard, one UPDATE of the eight editable columns. */
  function Update(db: Db, d: Draft, userId: int): (s: Step<(int, Event)>)
    ensures s.result.Err? ==> s.db == db
    ensures s.result.Ok? ==>
              s.result.value.0 in db.events
              && s.db == db.(events := db.events[s.result.value.0 := s.result.value.1])
  {
    if Falsy(d.id) then Step(Err(MissingId), db)
    else match FirstFailure(d)
    case Some(k) => Step(Err(k), db)
    case None =>
      match OwnedEvent(db.events, d.id.value, userId)
      case Err(k) => Step(Err(k), db)
      case Ok(current) =>
        match CheckCapacity(db.capacity, d.idEventLocation.value, d.maxAssistance.value)
        case Some(k) => Step(Err(k), db)
        case None =>
          var e := Revised(current, d);
          Step(Ok((d.id.value, e)), db.(events := db.events[d.id.value := e]))
  }

  /** deleteEventAsync: ownership guard, one DELETE; returns the deleted row. */
  function Delete(db: Db, eventId: int, userId: int): (s: Step<Event>)
    ensures s.result.Err? ==> s.db == db
    ensures s.result.Ok? ==> eventId in db.events && s.db == db.(events := db.events - {eventId})
  {
    match OwnedEvent(db.events, eventId, userId)
    case Err(k) => Step(Err(k), db)
    case Ok(e) => Step(Ok(e), db.(events := db.events - {eventId}))
  }

  /** enrollUser at instant `now`: existence, not yet started, enabled, not
      already enrolled, a seat left; then one row is appended. */
  function Enroll(db: Db, eventId: int, userId: int, now: int): (s: Step<Enrollment>)
    ensures s.result.Err? ==> s.db == db
    ensures s.result.Ok? ==>
              s.result.value == Enrollment(userId, eventId, now)
              && s.db == db.(rows := db.rows + [s.result.value])
              && Find(db.rows, userId, eventId).None?
  {
    if eventId !in db.events then Step(Err(EventNotFound), db)
    else
      var e := db.events[eventId];
      if e.startDate <= now then Step(Err(AlreadyStarted), db)
      else if !e.enabledForEnrollment then Step(Err(EnrollmentClosed), db)
      else if Find(db.rows, userId, eventId).Some? then Step(Err(AlreadyEnrolled), db)
      else if CountFor(db.rows, eventId) >= e.maxAssistance then Step(Err(CapacityFull), db)
      else
        var x := Enrollment(userId, eventId, now);
        Step(Ok(x), db.(rows := db.rows + [x]))
  }

  /** unenrollUser at instant `now`: existence, not yet started, enrolled;
      then the pair's rows are deleted and the first of them returned. */
  function Unenroll(db: Db, eventId: int, userId: int, now: int): (s: Step<Enrollment>)
    ensures s.result.Err? ==> s.db == db
    ensures s.result.Ok? ==>
              s.result.value in db.rows && Matches(s.result.value, userId, eventId)
              && s.db == db.(rows := Without(db.rows, userId, eventId))
  {
    if eventId !in db.events then Step(Err(EventNotFound), db)
    else if db.events[eventId].startDate <= now then Step(Err(AlreadyStarted), db)
    else match Find(db.rows, userId, eventId)
    case None => Step(Err(NotEnrolled), db)
    case Some(x) => Step(Ok(x), db.(rows := Without(db.rows, userId, eventId)))
  }

  // ---------------------------------------------------------------------
  // Create

  /** What a create call does: it fails with the first failing field, then
      with an unknown location, then with an event larger than its location,
      always with status 400, and writes nothing when it fails; on success it
      inserts exactly one row, under a fresh id, holding the draft's columns
      with the acting user as creator. */
  lemma CreateOutcome(db: Db, d: Draft, userId: int)
    requires Valid(db)
    ensures var s := Create(db, d, userId);
      (s.result.Err? ==> s.db == db && Status(s.result.kind) == 400)
      && (FirstFailure(d).Some? ==> s.result == Err(FirstFailure(d).value))
      && (FirstFailure(d).None? && d.idEventLocation.value !in db.capacity ==> s.result == Err(UnknownLocation))
      && ((FirstFailure(d).None? && d.idEventLocation.value in db.capacity
           && d.maxAssistance.value > db.capacity[d.idEventLocation.value])
          ==> s.result == Err(CapacityExceeded))
      && (s.result.Ok? <==>
            FirstFailure(d).None? && d.idEventLocation.value in db.capacity
            && d.maxAssistance.value <= db.capacity[d.idEventLocation.value])
      && (s.result.Ok? ==>
            var (id, e) := s.result.value;
            id !in db.events && s.db.events == db.events[id := e]
            && s.db.rows == db.rows && s.db.capacity == db.capacity
            && e.idCreatorUser == userId
            && e.name == d.name.value && e.description == d.description.value
            && e.startDate == d.startDate && e.durationInMinutes == d.durationInMinutes
            && e.price == d.price && e.enabledForEnrollment == d.enabledForEnrollment
            && e.maxAssistance == d.maxAssistance.value && e.maxAssistance > 0
            && e.idEventLocation == d.idEventLocation.value
            && e.maxAssistance <= db.capacity[e.idEventLocation])
  {
  }

  /** Create keeps every invariant: a fresh id has no enrollment rows yet,
      so the new event starts with count zero. */
  lemma CreatePreserves(db: Db, d: Draft, userId: int)
    requires Valid(db) && WithinCapacity(db) && WithinAttendance(db)
    ensures var db' := Create(db, d, userId).db;
      Valid(db') && WithinCapacity(db') && WithinAttendance(db')
  {
    var s := Create(db, d, userId);
    if s.result.Ok? {
      assert CountFor(db.rows, db.nextId) == 0;
    }
  }

  /** The capacity map is the `event_locations` table read through
      getMaxCapacityByEventLocationId: with it, the capacity guard passes
      iff the location row exists and max_assistance is at most that row's
      max_capacity. */
  lemma CapacityGuardReadsLocations(table: seq<EventLocations.Location>, location: int, maxAssistance: int)
    ensures var found := EventLocations.FindById(table, location);
      CheckCapacity(EventLocations.Capacities(table), location, maxAssistance).None?
      <==> found.Some? && maxAssistance <= found.value.maxCapacity
    ensures EventLocations.FindById(table, location).None? ==>
      CheckCapacity(EventLocations.Capacities(table), location, maxAssistance) == Some(UnknownLocation)
  {
  }

  // ---------------------------------------------------------------------
  // Update

  /** What an update call does: a falsy id is reported before anything else;
      a missing event and a foreign event are both refused with status 404;
      capacity is re-checked on every update, after ownership, with status
      400; nothing is written on any refusal; on success only the row under
      the draft's id changes: it takes the draft's columns and keeps its
      creator. */
  lemma UpdateOutcome(db: Db, d: Draft, userId: int)
    ensures var s := Update(db, d, userId);
      (s.result.Err? ==> s.db == db)
      && (s.result.Err? ==>
            Status(s.result.kind) == (if s.result.kind in {EventNotFound, NotOwner} then 404 else 400))
      && (Falsy(d.id) ==> s.result == Err(MissingId))
      && (!Falsy(d.id) && FirstFailure(d).Some? ==> s.result == Err(FirstFailure(d).value))
      && (!Falsy(d.id) && FirstFailure(d).None? && d.id.value !in db.events ==> s.result == Err(EventNotFound))
      && ((!Falsy(d.id) && FirstFailure(d).None? && d.id.value in db.events
           && db.events[d.id.value].idCreatorUser != userId) ==> s.result == Err(NotOwner))
      && ((!Falsy(d.id) && FirstFailure(d).None? && d.id.value in db.events
           && db.events[d.id.value].idCreatorUser == userId && d.idEventLocation.value !in db.capacity)
          ==> s.result == Err(UnknownLocation))
      && ((!Falsy(d.id) && FirstFailure(d).None? && d.id.value in db.events
           && db.events[d.id.value].idCreatorUser == userId && d.idEventLocation.value in db.capacity
           && d.maxAssistance.value > db.capacity[d.idEventLocation.value])
          ==> s.result == Err(CapacityExceeded))
      && (s.result.Ok? <==>
            !Falsy(d.id) && FirstFailure(d).None? && d.id.value in db.events
            && db.events[d.id.value].idCreatorUser == userId
            && CheckCapacity(db.capacity, d.idEventLocation.value, d.maxAssistance.value).None?)
      && (s.result.Ok? ==>
            var (id, e) := s.result.value;
            id == d.id.value && s.db.events == db.events[id := e]
            && s.db.rows == db.rows && s.db.capacity == db.capacity && s.db.nextId == db.nextId
            && e.idCreatorUser == db.events[id].idCreatorUser == userId
            && e.name == d.name.value && e.description == d.description.value
            && e.startDate == d.startDate && e.durationInMinutes == d.durationInMinutes
            && e.price == d.price && e.enabledForEnrollment == d.enabledForEnrollment
            && e.maxAssistance == d.maxAssistance.value && e.idEventLocation == d.idEventLocation.value
            && e.maxAssistance <= db.capacity[e.idEventLocation])
  {
  }

  /** Update keeps the structural invariant and the capacity invariant. */
  lemma UpdatePreserves(db: Db, d: Draft, userId: int)
    requires Valid(db) && WithinCapacity(db)
    ensures var db' := Update(db, d, userId).db;
      Valid(db') && WithinCapacity(db')
  {
  }

  /** Update does NOT keep the attendance invariant: it never compares the
      new max_assistance with the event's enrollment count, so an owner can
      lower max_assistance below the number of rows already enrolled. */
  lemma UpdateCanBreakAttendance(db: Db, d: Draft, userId: int)
    requires Update(db, d, userId).result.Ok?
    requires CountFor(db.rows, d.id.value) > d.maxAssistance.value
    ensures !WithinAttendance(Update(db, d, userId).db)
  {
    var s := Update(db, d, userId);
    assert d.id.value in s.db.events;
  }

  /** The situation above is reachable from a state that satisfies every
      invariant: one event of max_assistance 2 with two enrolled users,
      updated by its creator to max_assistance 1. */
  lemma UpdateOverfillExample()
    ensures var e := Event("Conference", "Annual", 10, None, None, true, 2, 7, 3);
      var db := Db(map[1 := e], map[3 := 5], [Enrollment(20, 1, 0), Enrollment(21, 1, 0)], 2);
      var d := Draft(Some(1), Some("Conference"), Some("Annual"), 10, None, None, true, Some(1), Some(3), None);
      Valid(db) && WithinCapacity(db) && WithinAttendance(db)
      && Update(db, d, 7).result.Ok? && !WithinAttendance(Update(db, d, 7).db)
  {
    var e := Event("Conference", "Annual", 10, None, None, true, 2, 7, 3);
    var db := Db(map[1 := e], map[3 := 5], [Enrollment(20, 1, 0), Enrollment(21, 1, 0)], 2);
    var d := Draft(Some(1), Some("Conference"), Some("Annual"), 10, None, None, true, Some(1), Some(3), None);
    OverfillStateValid(db, e);
    OverfillUpdateAccepted(db, e, d);
    UpdateCanBreakAttendance(db, d, 7);
  }

  lemma OverfillStateValid(db: Db, e: Event)
    requires e == Event("Conference", "Annual", 10, None, None, true, 2, 7, 3)
    requires db == Db(map[1 := e], map[3 := 5], [Enrollment(20, 1, 0), Enrollment(21, 1, 0)], 2)
    ensures Valid(db) && WithinCapacity(db) && WithinAttendance(db) && CountFor(db.rows, 1) == 2
  {
    OverfillRowsCounted(db.rows);
  }

  lemma OverfillUpdateAccepted(db: Db, e: Event, d: Draft)
    requires e == Event("Conference", "Annual", 10, None, None, true, 2, 7, 3)
    requires db == Db(map[1 := e], map[3 := 5], [Enrollment(20, 1, 0), Enrollment(21, 1, 0)], 2)
    requires d == Draft(Some(1), Some("Conference"), Some("Annual"), 10, None, None, true, Some(1), Some(3), None)
    ensures Update(db, d, 7).result.Ok?
  {
    OverfillDraftAccepted(d, "Conference", "Annual");
    assert OwnedEvent(db.events, 1, 7) == Ok(e);
    assert CheckCapacity(db.capacity, 3, 1).None?;
  }

  lemma OverfillDraftAccepted(d: Draft, name: string, description: string)
    requires |name| >= 3 && !IsSpace(name[0]) && !IsSpace(name[|name| - 1])
    requires |description| >= 3 && !IsSpace(description[0]) && !IsSpace(description[|description| - 1])
    requires d == Draft(Some(1), Some(name), Some(description), 10, None, None, true, Some(1), Some(3), None)
    ensures FirstFailure(d).None?
  {
    UnpaddedPasses(name);
    UnpaddedPasses(description);
  }

  lemma OverfillRowsCounted(rows: seq<Enrollment>)
    requires rows == [Enrollment(20, 1, 0), Enrollment(21, 1, 0)]
    ensures Distinct(rows) && CountFor(rows, 1) == 2
  {
    var x2 := Enrollment(21, 1, 0);
    assert rows[1..] == [x2] && [x2][1..] == [];
    assert CountFor([x2], 1) == 1;
  }

  // ---------------------------------------------------------------------
  // Delete

  /** What a delete call does: only the creator can delete; a missing event
      and a foreign event both give 404 and leave the tables alone; success
      removes exactly that event and returns its row. */
  lemma DeleteOutcome(db: Db, eventId: int, userId: int)
    ensures var s := Delete(db, eventId, userId);
      (s.result.Ok? <==> eventId in db.events && db.events[eventId].idCreatorUser == userId)
      && (s.result.Err? ==> s.db == db && Status(s.result.kind) == 404)
      && (s.result.Ok? ==>
            s.result.value == db.events[eventId]
            && eventId !in s.db.events
            && (forall id :: id in db.events && id != eventId ==> id in s.db.events && s.db.events[id] == db.events[id])
            && s.db.events.Keys == db.events.Keys - {eventId}
            && s.db.rows == db.rows && s.db.capacity == db.capacity)
  {
  }

  /** Delete keeps every invariant. */
  lemma DeletePreserves(db: Db, eventId: int, userId: int)
    requires Valid(db) && WithinCapacity(db) && WithinAttendance(db)
    ensures var db' := Delete(db, eventId, userId).db;
      Valid(db') && WithinCapacity(db') && WithinAttendance(db')
  {
  }

  // ---------------------------------------------------------------------
  // Enroll

  /** What an enroll call does: the checks run in order (existence 404,
      start_date <= now, disabled, already enrolled, no seat left, all 400)
      and a refusal writes nothing; success appends exactly the row
      (userId, eventId, now), after which the count is at most max_assistance. */
  lemma EnrollOutcome(db: Db, eventId: int, userId: int, now: int)
    ensures var s := Enroll(db, eventId, userId, now);
      (s.result.Err? ==> s.db == db)
      && (s.result.Err? ==> Status(s.result.kind) == (if s.result.kind == EventNotFound then 404 else 400))
      && (eventId !in db.events ==> s.result == Err(EventNotFound))
      && (eventId in db.events && db.events[eventId].startDate <= now ==> s.result == Err(AlreadyStarted))
      && ((eventId in db.events && now < db.events[eventId].startDate
           && !db.events[eventId].enabledForEnrollment)
          ==> s.result == Err(EnrollmentClosed))
      && ((eventId in db.events && now < db.events[eventId].startDate
           && db.events[eventId].enabledForEnrollment && Find(db.rows, userId, eventId).Some?)
          ==> s.result == Err(AlreadyEnrolled))
      && ((eventId in db.events && now < db.events[eventId].startDate
           && db.events[eventId].enabledForEnrollment && Find(db.rows, userId, eventId).None?
           && CountFor(db.rows, eventId) >= db.events[eventId].maxAssistance)
          ==> s.result == Err(CapacityFull))
      && (s.result.Ok? <==>
            eventId in db.events && now < db.events[eventId].startDate
            && db.events[eventId].enabledForEnrollment
            && Find(db.rows, userId, eventId).None?
            && CountFor(db.rows, eventId) < db.events[eventId].maxAssistance)
      && (s.result.Ok? ==>
            s.result.value == Enrollment(userId, eventId, now)
            && s.db == db.(rows := db.rows + [Enrollment(userId, eventId, now)])
            && CountFor(s.db.rows, eventId) == CountFor(db.rows, eventId) + 1
            && CountFor(s.db.rows, eventId) <= s.db.events[eventId].maxAssistance)
  {
    var s := Enroll(db, eventId, userId, now);
    if s.result.Ok? {
      CountAppend(db.rows, Enrollment(userId, eventId, now), eventId);
    }
  }

  /** Enroll keeps every invariant, the attendance bound included: only the
      target event's count grows, and only when a seat was left. */
  lemma EnrollPreserves(db: Db, eventId: int, userId: int, now: int)
    requires Valid(db) && WithinCapacity(db) && WithinAttendance(db)
    ensures var db' := Enroll(db, eventId, userId, now).db;
      Valid(db') && WithinCapacity(db') && WithinAttendance(db')
  {
    var s := Enroll(db, eventId, userId, now);
    if s.result.Ok? {
      var x := Enrollment(userId, eventId, now);
      DistinctAppend(db.rows, x);
      forall id | id in s.db.events
        ensures CountFor(s.db.rows, id) <= s.db.events[id].maxAssistance
      {
        CountAppend(db.rows, x, id);
      }
    }
  }

  /** A disabled event refuses every enrollment that reaches the enabled
      check, whatever its rows and count, because that check precedes the
      duplicate and capacity checks. */
  lemma DisabledRefusesRegardlessOfCount(db: Db, eventId: int, userId: int, now: int, rows: seq<Enrollment>)
    requires eventId in db.events && now < db.events[eventId].startDate
    requires !db.events[eventId].enabledForEnrollment
    ensures Enroll(db.(rows := rows), eventId, userId, now).result == Err(EnrollmentClosed)
  {
  }

  /** Enrolling twice in a row at the same instant: the second call is
      refused as already enrolled, leaves the tables as the first call left
      them, and the pair has exactly one row. */
  lemma {:induction false} EnrollTwice(db: Db, eventId: int, userId: int, now: int)
    requires Valid(db)
    requires Enroll(db, eventId, userId, now).result.Ok?
    ensures var db1 := Enroll(db, eventId, userId, now).db;
      Enroll(db1, eventId, userId, now) == Step(Err(AlreadyEnrolled), db1)
      && Distinct(db1.rows)
      && Without(db1.rows, userId, eventId) == db.rows
      && |db1.rows| == |db.rows| + 1
  {
    var x := Enrollment(userId, eventId, now);
    var db1 := Enroll(db, eventId, userId, now).db;
    assert x in db1.rows;
    DistinctAppend(db.rows, x);
    WithoutAppended(db.rows, x);
  }

  // ---------------------------------------------------------------------
  // Unenroll

  /** What an unenroll call does: existence (404), start_date <= now (400)
      and not enrolled (400) are refused in that order without writing;
      success deletes only that pair's row, returns it, and lowers that
      event's count by one. */
  lemma UnenrollOutcome(db: Db, eventId: int, userId: int, now: int)
    requires Valid(db)
    ensures var s := Unenroll(db, eventId, userId, now);
      (s.result.Err? ==> s.db == db)
      && (s.result.Err? ==> Status(s.result.kind) == (if s.result.kind == EventNotFound then 404 else 400))
      && ((eventId in db.events && now < db.events[eventId].startDate && Find(db.rows, userId, eventId).None?)
          ==> s.result == Err(NotEnrolled))
      && (eventId !in db.events ==> s.result == Err(EventNotFound))
      && (eventId in db.events && db.events[eventId].startDate <= now ==> s.result == Err(AlreadyStarted))
      && (s.result.Ok? <==>
            eventId in db.events && now < db.events[eventId].startDate
            && Find(db.rows, userId, eventId).Some?)
      && (s.result.Ok? ==>
            Matches(s.result.value, userId, eventId) && s.result.value in db.rows
            && s.db.events == db.events && s.db.capacity == db.capacity && s.db.nextId == db.nextId
            && (forall x :: x in s.db.rows <==> x in db.rows && !Matches(x, userId, eventId))
            && CountFor(s.db.rows, eventId) == CountFor(db.rows, eventId) - 1)
  {
    var s := Unenroll(db, eventId, userId, now);
    if s.result.Ok? {
      CountWithoutPresent(db.rows, userId, eventId);
    }
  }

  /** Unenroll keeps every invariant. */
  lemma UnenrollPreserves(db: Db, eventId: int, userId: int, now: int)
    requires Valid(db) && WithinCapacity(db) && WithinAttendance(db)
    ensures var db' := Unenroll(db, eventId, userId, now).db;
      Valid(db') && WithinCapacity(db') && WithinAttendance(db')
  {
    var s := Unenroll(db, eventId, userId, now);
    if s.result.Ok? {
      DistinctWithout(db.rows, userId, eventId);
      forall id | id in s.db.events
        ensures CountFor(s.db.rows, id) <= s.db.events[id].maxAssistance
      {
        CountWithoutLe(db.rows, userId, eventId, id);
      }
    }
  }

  /** Unenrolling without having enrolled is refused and changes nothing. */
  lemma UnenrollWithoutEnroll(db: Db, eventId: int, userId: int, now: int)
    requires eventId in db.events && now < db.events[eventId].startDate
    requires forall x :: x in db.rows ==> !Matches(x, userId, eventId)
    ensures Unenroll(db, eventId, userId, now) == Step(Err(NotEnrolled), db)
  {
  }

  /** Enroll then unenroll at the same instant restores the tables exactly. */
  lemma EnrollUnenrollRoundTrip(db: Db, eventId: int, userId: int, now: int)
    requires Enroll(db, eventId, userId, now).result.Ok?
    ensures var db1 := Enroll(db, eventId, userId, now).db;
      Unenroll(db1, eventId, userId, now) == Step(Ok(Enrollment(userId, eventId, now)), db)
  {
    var x := Enrollment(userId, eventId, now);
    WithoutAppended(db.rows, x);
    assert Find(db.rows + [x], userId, eventId) == Some(x) by {
      FindAppendedFresh(db.rows, x);
    }
  }

  /** Scenario: an event of max_assistance 2 with no enrollments accepts two
      users and refuses the third with CapacityFull. */
  lemma ThirdUserFindsNoSeat(db: Db, eventId: int, now: int)
    requires Valid(db) && db.rows == []
    requires eventId in db.events && now < db.events[eventId].startDate
    requires db.events[eventId].enabledForEnrollment && db.events[eventId].maxAssistance == 2
    ensures var s1 := Enroll(db, eventId, 1, now);
      var s2 := Enroll(s1.db, eventId, 2, now);
      var s3 := Enroll(s2.db, eventId, 3, now);
      s1.result.Ok? && s2.result.Ok? && s3.result == Err(CapacityFull)
      && CountFor(s2.db.rows, eventId) == 2
  {
    var x1, x2 := Enrollment(1, eventId, now), Enrollment(2, eventId, now);
    var s1 := Enroll(db, eventId, 1, now);
    assert s1.db.rows == [x1];
    assert [x1][1..] == [];
    assert CountFor([x1], eventId) == 1;
    var s2 := Enroll(s1.db, eventId, 2, now);
    assert [x1] + [x2] == [x1, x2];
    assert s2.db.rows == [x1, x2];
    assert [x1, x2][1..] == [x2];
    assert CountFor([x1, x2], eventId) == 1 + CountFor([x2], eventId);
    assert CountFor([x1, x2], eventId) == 2;
    assert Find([x1, x2], 3, eventId).None?;
  }

  // ---------------------------------------------------------------------
  // The service object

  /** EventService with its repository's tables as fields. Each method runs
      the guards in the source's order and touches the tables only in its
      final write. */
  class EventService {
    var events: map<int, Event>
    var capacity: map<int, int>
    var rows: seq<Enrollment>
    var nextId: int

    function State(): Db
      reads this
    {
      Db(events, capacity, rows, nextId)
    }

    /** Empty event and enrollment tables over the given locations. */
    constructor (locations: map<int, int>)
      ensures State() == Db(map[], locations, [], 1)
      ensures Valid(State()) && WithinCapacity(State()) && WithinAttendance(State())
    {
      events, capacity, rows, nextId := map[], locations, [], 1;
    }

    method CreateEvent(d: Draft, userId: int) returns (r: Result<(int, Event)>)
      modifies this
      ensures Step(r, State()) == Create(old(State()), d, userId)
    {
      var failure := FirstFailure(d);
      if failure.Some? {
        return Err(failure.value);
      }
      var verdict := CheckCapacity(capacity, d.idEventLocation.value, d.maxAssistance.value);
      if verdict.Some? {
        return Err(verdict.value);
      }
      var draft := d.(idCreatorUser := Some(userId));
      var e := NewRecord(draft);
      var id := nextId;
      events := events[id := e];
      nextId := nextId + 1;
      return Ok((id, e));
    }

    method UpdateEvent(d: Draft, userId: int) returns (r: Result<(int, Event)>)
      modifies this
      ensures Step(r, State()) == Update(old(State()), d, userId)
    {
      if Falsy(d.id) {
        return Err(MissingId);
      }
      var failure := FirstFailure(d);
      if failure.Some? {
        return Err(failure.value);
      }
      var existing := OwnedEvent(events, d.id.value, userId);
      if existing.Err? {
        return Err(existing.kind);
      }
      var verdict := CheckCapacity(capacity, d.idEventLocation.value, d.maxAssistance.value);
      if verdict.Some? {
        return Err(verdict.value);
      }
      var e := Revised(existing.value, d);
      events := events[d.id.value := e];
      return Ok((d.id.value, e));
    }

    method DeleteEvent(eventId: int, userId: int) returns (r: Result<Event>)
      modifies this
      ensures Step(r, State()) == Delete(old(State()), eventId, userId)
    {
      var existing := OwnedEvent(events, eventId, userId);
      if existing.Err? {
        return Err(existing.kind);
      }
      events := events - {eventId};
      return Ok(existing.value);
    }

    method EnrollUser(eventId: int, userId: int, now: int) returns (r: Result<Enrollment>)
      modifies this
      ensures Step(r, State()) == Enroll(old(State()), eventId, userId, now)
    {
      if eventId !in events {
        return Err(EventNotFound);
      }
      var e := events[eventId];
      if e.startDate <= now {
        return Err(AlreadyStarted);
      }
      if !e.enabledForEnrollment {
        return Err(EnrollmentClosed);
      }
      var enrolled := Find(rows, userId, eventId);
      if enrolled.Some? {
        return Err(AlreadyEnrolled);
      }
      var count := CountFor(rows, eventId);
      if count >= e.maxAssistance {
        return Err(CapacityFull);
      }
      var x := Enrollment(userId, eventId, now);
      rows := rows + [x];
      return Ok(x);
    }

    method UnenrollUser(eventId: int, userId: int, now: int) returns (r: Result<Enrollment>)
      modifies this
      ensures Step(r, State()) == Unenroll(old(State()), eventId, userId, now)
    {
      if eventId !in events {
        return Err(EventNotFound);
      }
      if events[eventId].startDate <= now {
        return Err(AlreadyStarted);
      }
      var enrolled := Find(rows, userId, eventId);
      if enrolled.None? {
        return Err(NotEnrolled);
      }
      rows := Without(rows, userId, eventId);
      return Ok(enrolled.value);
    }
  }
}

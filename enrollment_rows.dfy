/** The `event_enrollments` table as a sequence of rows, and the four
    queries the enrollment engine sends it: isUserEnrolled,
    getEnrollmentCount, enrollUserToEvent (an append) and
    unenrollUserFromEvent (a delete of every matching row). */
module EnrollmentRows {
  import opened Outcomes

  /** A row of `event_enrollments`. */
  datatype Enrollment = Enrollment(idUser: int, idEvent: int, registeredAt: int)

  predicate Matches(r: Enrollment, userId: int, eventId: int) {
    r.idUser == userId && r.idEvent == eventId
  }

  /** The first row for the pair (userId, eventId), if any; isUserEnrolled
      is `Find(...).Some?`, and the row unenrollUserFromEvent returns is
      the one found. */
  function Find(rows: seq<Enrollment>, userId: int, eventId: int): (r: Option<Enrollment>)
    ensures r.Some? ==> r.value in rows && Matches(r.value, userId, eventId)
    ensures r.None? <==> forall x :: x in rows ==> !Matches(x, userId, eventId)
  {
    if rows == [] then None
    else if Matches(rows[0], userId, eventId) then Some(rows[0])
    else Find(rows[1..], userId, eventId)
  }

  /** `SELECT COUNT(*) FROM event_enrollments WHERE id_event = $1`. */
  function CountFor(rows: seq<Enrollment>, eventId: int): (n: nat)
    ensures n <= |rows|
    ensures n == 0 <==> forall x :: x in rows ==> x.idEvent != eventId
  {
    if rows == [] then 0
    else (if rows[0].idEvent == eventId then 1 else 0) + CountFor(rows[1..], eventId)
  }

  /** `DELETE FROM event_enrollments WHERE id_user = $1 AND id_event = $2`:
      every row of the pair goes, every other row stays, in order. */
  function Without(rows: seq<Enrollment>, userId: int, eventId: int): (r: seq<Enrollment>)
    ensures |r| <= |rows|
    ensures forall x :: x in r <==> x in rows && !Matches(x, userId, eventId)
  {
    if rows == [] then []
    else if Matches(rows[0], userId, eventId) then Without(rows[1..], userId, eventId)
    else [rows[0]] + Without(rows[1..], userId, eventId)
  }

  /** No two rows share a (user, event) pair. */
  predicate Distinct(rows: seq<Enrollment>) {
    rows == [] || (Find(rows[1..], rows[0].idUser, rows[0].idEvent).None? && Distinct(rows[1..]))
  }

  /** Appending a row adds one to the count of its own event only. */
  lemma {:induction false} CountAppend(rows: seq<Enrollment>, x: Enrollment, eventId: int)
    ensures CountFor(rows + [x], eventId) == CountFor(rows, eventId) + (if x.idEvent == eventId then 1 else 0)
  {
    if rows != [] {
      assert (rows + [x])[1..] == rows[1..] + [x];
      CountAppend(rows[1..], x, eventId);
    }
  }

  /** Deleting a pair that has no row changes nothing. */
  lemma {:induction false} WithoutAbsent(rows: seq<Enrollment>, userId: int, eventId: int)
    requires Find(rows, userId, eventId).None?
    ensures Without(rows, userId, eventId) == rows
  {
    if rows != [] {
      assert rows[0] in rows;
      WithoutAbsent(rows[1..], userId, eventId);
    }
  }

  /** Deleting a pair leaves the count of every other event alone. */
  lemma {:induction false} CountWithoutOther(rows: seq<Enrollment>, userId: int, eventId: int, other: int)
    requires other != eventId
    ensures CountFor(Without(rows, userId, eventId), other) == CountFor(rows, other)
  {
    if rows != [] {
      CountWithoutOther(rows[1..], userId, eventId, other);
      if !Matches(rows[0], userId, eventId) {
        assert ([rows[0]] + Without(rows[1..], userId, eventId))[1..] == Without(rows[1..], userId, eventId);
      }
    }
  }

  /** Deleting a pair never raises any count. */
  lemma {:induction false} CountWithoutLe(rows: seq<Enrollment>, userId: int, eventId: int, e: int)
    ensures CountFor(Without(rows, userId, eventId), e) <= CountFor(rows, e)
  {
    if rows != [] {
      CountWithoutLe(rows[1..], userId, eventId, e);
      if !Matches(rows[0], userId, eventId) {
        assert ([rows[0]] + Without(rows[1..], userId, eventId))[1..] == Without(rows[1..], userId, eventId);
      }
    }
  }

  /** In a table without duplicate pairs, deleting an existing pair lowers
      the count of its event by exactly one. */
  lemma {:induction false} CountWithoutPresent(rows: seq<Enrollment>, userId: int, eventId: int)
    requires Distinct(rows)
    requires Find(rows, userId, eventId).Some?
    ensures CountFor(Without(rows, userId, eventId), eventId) == CountFor(rows, eventId) - 1
  {
    if Matches(rows[0], userId, eventId) {
      WithoutAbsent(rows[1..], userId, eventId);
    } else {
      CountWithoutPresent(rows[1..], userId, eventId);
      assert ([rows[0]] + Without(rows[1..], userId, eventId))[1..] == Without(rows[1..], userId, eventId);
    }
  }

  /** Appending a row whose pair is new keeps the table free of duplicates. */
  lemma {:induction false} DistinctAppend(rows: seq<Enrollment>, x: Enrollment)
    requires Distinct(rows)
    requires Find(rows, x.idUser, x.idEvent).None?
    ensures Distinct(rows + [x])
  {
    if rows == [] {
      assert [x][1..] == [];
    } else {
      assert (rows + [x])[1..] == rows[1..] + [x];
      assert rows[0] in rows;
      DistinctAppend(rows[1..], x);
      assert Find(rows[1..] + [x], rows[0].idUser, rows[0].idEvent).None?;
    }
  }

  /** Deleting a pair keeps the table free of duplicates. */
  lemma {:induction false} DistinctWithout(rows: seq<Enrollment>, userId: int, eventId: int)
    requires Distinct(rows)
    ensures Distinct(Without(rows, userId, eventId))
  {
    if rows != [] {
      DistinctWithout(rows[1..], userId, eventId);
      if !Matches(rows[0], userId, eventId) {
        var rest := Without(rows[1..], userId, eventId);
        assert ([rows[0]] + rest)[1..] == rest;
        assert Find(rest, rows[0].idUser, rows[0].idEvent).None?;
      }
    }
  }

  /** Deleting the pair of a freshly appended row restores the table it
      was appended to. */
  lemma {:induction false} WithoutAppended(rows: seq<Enrollment>, x: Enrollment)
    requires Find(rows, x.idUser, x.idEvent).None?
    ensures Without(rows + [x], x.idUser, x.idEvent) == rows
  {
    if rows == [] {
      assert [x][1..] == [];
    } else {
      assert (rows + [x])[1..] == rows[1..] + [x];
      assert rows[0] in rows;
      WithoutAppended(rows[1..], x);
    }
  }

  /** After inserting a pair that had no row, isUserEnrolled finds the new row. */
  lemma {:induction false} FindAppendedFresh(rows: seq<Enrollment>, x: Enrollment)
    requires Find(rows, x.idUser, x.idEvent).None?
    ensures Find(rows + [x], x.idUser, x.idEvent) == Some(x)
  {
    if rows == [] {
      assert [x][1..] == [];
    } else {
      assert (rows + [x])[1..] == rows[1..] + [x];
      assert rows[0] in rows;
      FindAppendedFresh(rows[1..], x);
    }
  }
}

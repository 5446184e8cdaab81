/** The pure guards in front of every event write: field validation in a
    fixed first-failure-wins order, the location capacity guard and the
    ownership guard. */
module EventRules {
  import opened Outcomes
  import opened Text

  /** An event payload as submitted by a client. A field the client may
      leave out, or whose JavaScript falsiness matters, is an Option. */
  datatype Draft = Draft(
    id: Option<int>,
    name: Option<string>,
    description: Option<string>,
    startDate: int,
    durationInMinutes: Option<int>,
    price: Option<int>,
    enabledForEnrollment: bool,
    maxAssistance: Option<int>,
    idEventLocation: Option<int>,
    idCreatorUser: Option<int>)

  /** A row of the `events` table (its id is the key it is stored under). */
  datatype Event = Event(
    name: string,
    description: string,
    startDate: int,
    durationInMinutes: Option<int>,
    price: Option<int>,
    enabledForEnrollment: bool,
    maxAssistance: int,
    idCreatorUser: int,
    idEventLocation: int)

  /** `!x` on a number: absent or zero. */
  predicate Falsy(x: Option<int>) {
    x.None? || x.value == 0
  }

  /** `x < 0` on a possibly absent number: an absent value compares false. */
  predicate Negative(x: Option<int>) {
    x.Some? && x.value < 0
  }

  /** The six field checks, in the order the services run them. */
  const FieldOrder: seq<Kind> :=
    [InvalidName, InvalidDescription, NegativePrice, NegativeDuration,
     InvalidMaxAssistance, MissingLocation]

  /** Whether draft `d` fails the field check reported as `k`. */
  predicate Fails(d: Draft, k: Kind) {
    match k
    case InvalidName => !TrimmedAtLeast3(d.name)
    case InvalidDescription => !TrimmedAtLeast3(d.description)
    case NegativePrice => Negative(d.price)
    case NegativeDuration => Negative(d.durationInMinutes)
    case InvalidMaxAssistance => Falsy(d.maxAssistance) || Negative(d.maxAssistance)
    case MissingLocation => Falsy(d.idEventLocation)
    case _ => false
  }

  /** The field validation shared by create and update: the first check
      that fails, in FieldOrder, or None when every check passes. */
  function FirstFailure(d: Draft): (r: Option<Kind>)
    ensures r.Some? ==> r.value in FieldOrder && Fails(d, r.value)
    ensures r.None? <==> forall k :: k in FieldOrder ==> !Fails(d, k)
  {
    if Fails(d, InvalidName) then Some(InvalidName)
    else if Fails(d, InvalidDescription) then Some(InvalidDescription)
    else if Fails(d, NegativePrice) then Some(NegativePrice)
    else if Fails(d, NegativeDuration) then Some(NegativeDuration)
    else if Fails(d, InvalidMaxAssistance) then Some(InvalidMaxAssistance)
    else if Fails(d, MissingLocation) then Some(MissingLocation)
    else None
  }

  /** First failure wins: FirstFailure reports the earliest check in
      FieldOrder that the draft fails, and accepts exactly the drafts that
      fail none. */
  lemma FirstFailureWins(d: Draft)
    ensures FirstFailure(d).None? <==> forall i :: 0 <= i < |FieldOrder| ==> !Fails(d, FieldOrder[i])
    ensures FirstFailure(d).Some? ==>
      exists i :: 0 <= i < |FieldOrder| && FirstFailure(d).value == FieldOrder[i] && Fails(d, FieldOrder[i])
        && forall j :: 0 <= j < i ==> !Fails(d, FieldOrder[j])
  {
    var k := if !Fails(d, InvalidName) then
               if !Fails(d, InvalidDescription) then
                 if !Fails(d, NegativePrice) then
                   if !Fails(d, NegativeDuration) then
                     if !Fails(d, InvalidMaxAssistance) then
                       if !Fails(d, MissingLocation) then 6 else 5
                     else 4
                   else 3
                 else 2
               else 1
             else 0;
    // k is the position of the first failing check (6 when none fails)
    assert forall j :: 0 <= j < k ==> !Fails(d, FieldOrder[j]);
    if k < 6 {
      assert FirstFailure(d) == Some(FieldOrder[k]) && Fails(d, FieldOrder[k]);
    }
  }

  /** A draft that passes validation carries everything a row needs. */
  lemma AcceptedDraftIsComplete(d: Draft)
    requires FirstFailure(d).None?
    ensures d.name.Some? && Utf16Length(Trim(d.name.value)) >= 3
    ensures d.description.Some? && Utf16Length(Trim(d.description.value)) >= 3
    ensures d.price.None? || d.price.value >= 0
    ensures d.durationInMinutes.None? || d.durationInMinutes.value >= 0
    ensures d.maxAssistance.Some? && d.maxAssistance.value > 0
    ensures d.idEventLocation.Some? && d.idEventLocation.value != 0
  {
    assert !Fails(d, FieldOrder[0]) && !Fails(d, FieldOrder[1]) && !Fails(d, FieldOrder[2]);
    assert !Fails(d, FieldOrder[3]) && !Fails(d, FieldOrder[4]) && !Fails(d, FieldOrder[5]);
  }

  /** The name check runs first: a missing or short name is reported as
      such whatever else is wrong with the draft. */
  lemma NameCheckedFirst(d: Draft)
    requires d.name.None? || Utf16Length(Trim(d.name.value)) < 3
    ensures FirstFailure(d) == Some(InvalidName)
  {
  }

  /** Absent price and duration are accepted; only negative values fail. */
  lemma AbsentPriceAndDurationAccepted(d: Draft)
    requires TrimmedAtLeast3(d.name) && TrimmedAtLeast3(d.description)
    requires d.price.None? && d.durationInMinutes.None?
    requires d.maxAssistance.Some? && d.maxAssistance.value > 0
    requires d.idEventLocation.Some? && d.idEventLocation.value != 0
    ensures FirstFailure(d).None?
  {
  }

  /** A zero, absent or negative max_assistance fails once the earlier
      fields pass. */
  lemma NonPositiveMaxAssistanceRejected(d: Draft)
    requires TrimmedAtLeast3(d.name) && TrimmedAtLeast3(d.description)
    requires !Negative(d.price) && !Negative(d.durationInMinutes)
    requires d.maxAssistance.None? || d.maxAssistance.value <= 0
    ensures FirstFailure(d) == Some(InvalidMaxAssistance)
  {
  }

  /** The capacity guard: the location must exist in `capacity`
      (event_location id to max_capacity) and max_assistance must not
      exceed its capacity. */
  function CheckCapacity(capacity: map<int, int>, location: int, maxAssistance: int): (r: Option<Kind>)
    ensures r.None? <==> location in capacity && maxAssistance <= capacity[location]
    ensures r == Some(UnknownLocation) <==> location !in capacity
    ensures r == Some(CapacityExceeded) <==> location in capacity && maxAssistance > capacity[location]
  {
    if location !in capacity then Some(UnknownLocation)
    else if maxAssistance > capacity[location] then Some(CapacityExceeded)
    else None
  }

  /** The ownership guard of update and delete: the stored event when it
      exists and `userId` created it. Both refusals carry status 404. */
  function OwnedEvent(events: map<int, Event>, id: int, userId: int): (r: Result<Event>)
    ensures r.Ok? <==> id in events && events[id].idCreatorUser == userId
    ensures r.Ok? ==> r.value == events[id]
    ensures r.Err? ==> Status(r.kind) == 404
    ensures r == Err(EventNotFound) <==> id !in events
  {
    if id !in events then Err(EventNotFound)
    else if events[id].idCreatorUser != userId then Err(NotOwner)
    else Ok(events[id])
  }

  /** The row `insertEvent` writes: every column comes from the draft,
      including the id_creator_user that createEventAsync has just written
      into it. */
  function NewRecord(d: Draft): (e: Event)
    requires FirstFailure(d).None? && d.idCreatorUser.Some?
    ensures e.idCreatorUser == d.idCreatorUser.value
    ensures e.name == d.name.value && e.description == d.description.value
    ensures e.startDate == d.startDate
    ensures e.durationInMinutes == d.durationInMinutes && e.price == d.price
    ensures e.enabledForEnrollment == d.enabledForEnrollment
    ensures e.maxAssistance == d.maxAssistance.value && e.maxAssistance > 0
    ensures e.idEventLocation == d.idEventLocation.value && e.idEventLocation != 0
  {
    AcceptedDraftIsComplete(d);
    Event(d.name.value, d.description.value, d.startDate, d.durationInMinutes, d.price,
          d.enabledForEnrollment, d.maxAssistance.value, d.idCreatorUser.value, d.idEventLocation.value)
  }

  /** The row after `updateEvent`: the UPDATE sets eight columns from the
      draft and never touches id_creator_user. */
  function Revised(current: Event, d: Draft): (e: Event)
    requires FirstFailure(d).None?
    ensures e.idCreatorUser == current.idCreatorUser
    ensures e.name == d.name.value && e.description == d.description.value
    ensures e.startDate == d.startDate
    ensures e.durationInMinutes == d.durationInMinutes && e.price == d.price
    ensures e.enabledForEnrollment == d.enabledForEnrollment
    ensures e.maxAssistance == d.maxAssistance.value && e.maxAssistance > 0
    ensures e.idEventLocation == d.idEventLocation.value && e.idEventLocation != 0
  {
    AcceptedDraftIsComplete(d);
    current.(name := d.name.value, description := d.description.value, startDate := d.startDate,
             durationInMinutes := d.durationInMinutes, price := d.price,
             enabledForEnrollment := d.enabledForEnrollment, maxAssistance := d.maxAssistance.value,
             idEventLocation := d.idEventLocation.value)
  }
}

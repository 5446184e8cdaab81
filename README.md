# Event lifecycle and enrollment engine — a Dafny model

This project models the core of an event-listing and enrollment backend. Organizers create events at a location with a fixed capacity. Users then enroll in those events, or withdraw, before the event starts. The model covers:

- **EventService** (`createEventAsync`, `updateEventAsync`, `deleteEventAsync`, `enrollUser`, `unenrollUser`). Each call runs a fixed chain of guards. The first guard that fails decides the rejection. A call writes to the store at most once, at the end:
  - field validation, in the order name, description, price, duration, max_assistance, id_event_location;
  - the capacity guard: the location must exist, and `max_assistance` must not exceed its `max_capacity`;
  - the ownership guard (`id_creator_user === userId`);
  - the enrollment state machine: existence, `start_date <= now`, enabled flag, duplicate pair, live count.
- **UserService**, in its two variants:
  - the one under `src/`: email usernames and bcrypt hashes;
  - the one under `backend/`: trimmed-length usernames and plain-text passwords.
- **EventLocationService**: lookups that only return what the caller owns.

Modules:

| module | file | models |
|---|---|---|
| `Outcomes` | outcomes.dfy | the rejection kinds thrown by the services, and their HTTP status |
| `Text` | text.dfy | JavaScript `trim` and the "trimmed length ≥ 3" rule |
| `EventRules` | event_rules.dfy | the event draft, the stored row, field validation, the capacity and ownership guards |
| `EnrollmentRows` | enrollment_rows.dfy | the `event_enrollments` table and its queries: `isUserEnrolled`, `getEnrollmentCount`, `enrollUserToEvent`, `unenrollUserFromEvent` |
| `EventEngine` | event_engine.dfy | the five pipelines as functions over the tables, the lemmas about them, and class `EventService` |
| `UserRules` | user_rules.dfy | `validatePassword` and `validateEmail` |
| `UserTable` | user_table.dfy | the `users` table, `getUserByUsernameAsync` and `createUserAsync` |
| `HashedUsers` | hashed_users.dfy | src/services/user-service.js |
| `PlainUsers` | plain_users.dfy | backend/src/services/user-service.js |
| `EventLocations` | event_locations.dfy | backend/src/services/event-location-service.js |

Each service pipeline is written twice:

- as a function over a value holding the tables (`EventEngine.Create`, `HashedUsers.Register`, …), which returns the result together with the tables after the call;
- as a class method that runs the same guards step by step against the class's fields. Its `ensures` ties the method's result and new state to that function.

The properties are lemmas about the functions.

The two `event-service.js` files contain the same code. The `src/` copy adds comment lines, so its line numbers are higher by 3 for `createEventAsync`, 4 to 5 for `updateEventAsync`, 6 to 7 for `deleteEventAsync`, 8 for `enrollUser` and 9 for `unenrollUser`. Only `backend/src/repositories/event-repository.js` defines the enrollment queries that `enrollUser` and `unenrollUser` call. `src/repositories/event-repository.js` has no `isUserEnrolled`, `getEnrollmentCount`, `enrollUserToEvent` or `unenrollUserFromEvent`. So the store modelled here is the backend repository. The rows below cite the backend copy or the src copy interchangeably.

JavaScript values are typed as follows:

- A body field that may be absent is an `Option`.
- `!x` on a number is "absent or 0". As a result, an event id 0, a location id 0 and a `max_assistance` of 0 are all treated as missing.
- `x < 0` on an absent value is false. So an absent price or duration passes validation.
- A length is JavaScript's `.length`: UTF-16 code units (`Text.Utf16Length`). A character above U+FFFF counts two, so two emoji pass the three-character rules.
- Time is an integer instant. `now` is a parameter of enroll and unenroll, because the clock is input from outside.
- bcrypt is a foreign call. It appears as two function parameters: `hash(p)` stands for `bcrypt.hash(p, 10)` and `compare(p, h)` for `bcrypt.compare`.

Two behaviours of the code are worth stating up front:

- A missing event and an event owned by someone else both get status 404, so a caller cannot tell them apart by status. The two messages differ, though ("Evento no encontrado." / "No tiene permiso …"), so the rejections are two kinds, `EventNotFound` and `NotOwner`.
- `updateEventAsync` never compares the new `max_assistance` with the current enrollment count. As a result, "count ≤ max_assistance" is kept by create, delete, enroll and unenroll, but not by update (`EventEngine.UpdateCanBreakAttendance`, `EventEngine.UpdateOverfillExample`).

## Model

| member | source | states |
|---|---|---|
| `Outcomes.Status` | backend/src/services/event-service.js:72-78 | every rejection is 400, 401 or 404; 404 exactly for a missing or foreign event, 401 exactly for a failed login |
| `Text.Trim` | src/services/user-service.js:14-16 | `trim()` returns the slice of the input between its first and last non-whitespace characters; everything cut off is whitespace |
| `Text.Utf16Length` | backend/src/services/user-service.js:14-16 | JavaScript's `.length` counts UTF-16 code units: at least the number of characters and at most twice it |
| `Text.TrimmedAtLeast3` | backend/src/services/user-service.js:6-12 | `x.trim().length >= 3` on a present string: it holds for every string whose trim keeps three characters, and only for strings of at least two characters |
| `Text.TrimmedAtLeast3Iff` | backend/src/services/user-service.js:6-12 | a value passes the trimmed-length rule iff some stretch that starts and ends with a non-whitespace character spans at least three code units |
| `Text.TrimKeepsStretch` | backend/src/services/user-service.js:6-12 | the trim keeps every stretch between two non-whitespace characters |
| `Text.TrimmedAtLeast3Bmp` | backend/src/services/event-service.js:16-21 | for text without characters above U+FFFF, the rule means two non-whitespace characters at least two positions apart |
| `Text.UnpaddedPasses` | backend/src/services/event-service.js:16-18 | three or more characters with no whitespace at either end pass the rule |
| `EventRules.FirstFailure` | backend/src/services/event-service.js:16-33 | the reported check is one of the six and the draft fails it; no report iff the draft fails none of them |
| `EventRules.FirstFailureWins` | backend/src/services/event-service.js:16-33 | validation reports the earliest failing check in the order name, description, price, duration, max_assistance, location, and accepts exactly the drafts that fail none |
| `EventRules.AcceptedDraftIsComplete` | backend/src/services/event-service.js:16-33 | an accepted draft has name and description of trimmed length ≥ 3, non-negative price and duration when present, max_assistance > 0 and a non-zero location |
| `EventRules.NameCheckedFirst` | src/services/event-service.js:19-21 | a missing or short name is reported as such whatever else is wrong |
| `EventRules.AbsentPriceAndDurationAccepted` | src/services/event-service.js:25-30 | a missing price or duration is not rejected; only a negative one is |
| `EventRules.NonPositiveMaxAssistanceRejected` | src/services/event-service.js:31-33 | a max_assistance that is 0, missing or negative is rejected once the earlier fields pass |
| `EventRules.CheckCapacity` | backend/src/services/event-service.js:35-41 | passes iff the location exists and max_assistance ≤ its capacity (equality accepted); an unknown location and an oversized event are the two refusals |
| `EventRules.OwnedEvent` | backend/src/services/event-service.js:72-78 | returns the stored event iff it exists and the caller created it; both refusals are 404, and `EventNotFound` exactly when the id is absent |
| `EventRules.NewRecord` | backend/src/services/event-service.js:43-45 | the inserted row takes every column from the draft: the creator written into it just before the insert, and name, description, start_date, duration, price, the enabled flag, max_assistance and location from the draft |
| `EventRules.Revised` | backend/src/repositories/event-repository.js:196-221 | the UPDATE keeps id_creator_user and takes name, description, start_date, duration, price, the enabled flag, max_assistance and location from the draft |
| `EnrollmentRows.Find` | backend/src/repositories/event-repository.js:300-316 | finds a row of the pair iff the table has one |
| `EnrollmentRows.Without` | backend/src/repositories/event-repository.js:282-298 | the DELETE keeps exactly the rows that do not belong to the pair |
| `EnrollmentRows.CountAppend` | backend/src/repositories/event-repository.js:264-280 | inserting an enrollment raises the count of its own event by one and no other count |
| `EnrollmentRows.CountFor` | backend/src/repositories/event-repository.js:318-334 | the count never exceeds the table size, and it is 0 iff no row mentions the event |
| `EnrollmentRows.WithoutAbsent` | backend/src/repositories/event-repository.js:282-298 | deleting a pair that has no row changes nothing |
| `EnrollmentRows.CountWithoutOther` | backend/src/repositories/event-repository.js:282-298 | deleting a pair leaves other events' counts unchanged |
| `EnrollmentRows.CountWithoutLe` | backend/src/repositories/event-repository.js:282-298 | deleting a pair never raises a count |
| `EnrollmentRows.CountWithoutPresent` | backend/src/repositories/event-repository.js:282-298 | without duplicate pairs, deleting an enrolled pair lowers its event's count by exactly one |
| `EnrollmentRows.DistinctAppend` | backend/src/services/event-service.js:118-128 | inserting only after the duplicate check keeps at most one row per (user, event) |
| `EnrollmentRows.DistinctWithout` | backend/src/repositories/event-repository.js:282-298 | deleting a pair keeps at most one row per (user, event) |
| `EnrollmentRows.WithoutAppended` | backend/src/repositories/event-repository.js:264-298 | deleting the pair of a freshly inserted row restores the table |
| `EnrollmentRows.FindAppendedFresh` | backend/src/repositories/event-repository.js:300-316 | after inserting a new pair, isUserEnrolled finds that row |
| `EventEngine.Create` | backend/src/services/event-service.js:14-47 | a refusal leaves the tables alone; success adds one event under the next serial id and touches nothing else |
| `EventEngine.CreateOutcome` | backend/src/services/event-service.js:14-47 | create fails with the first failing field, then an unknown location, then an oversized event (CapacityExceeded), all 400, writing nothing; success inserts one row under a fresh id holding every column of the draft, with creator = acting user and max_assistance ≤ capacity |
| `EventEngine.CapacityGuardReadsLocations` | backend/src/repositories/event-repository.js:149-162 | with the capacity map read from `event_locations`, the guard passes iff the location row exists and max_assistance ≤ its max_capacity; a missing row is UnknownLocation |
| `EventEngine.CreatePreserves` | src/services/event-service.js:38-49 | create keeps the id, distinct-pair, capacity and attendance invariants |
| `EventEngine.Update` | backend/src/services/event-service.js:49-90 | a refusal leaves the tables alone; success rewrites one existing event and nothing else |
| `EventEngine.UpdateOutcome` | backend/src/services/event-service.js:49-90 | a missing id is rejected first, then invalid fields; missing and foreign events give 404; after ownership, an unknown location and an oversized event give UnknownLocation and CapacityExceeded (400); a refusal writes nothing; success rewrites only that row with the draft's columns and never changes its creator |
| `EventEngine.UpdatePreserves` | src/services/event-service.js:84-94 | update keeps the id invariant and "every event fits its location's capacity" |
| `EventEngine.UpdateCanBreakAttendance` | src/services/event-service.js:53-95 | a successful update that lowers max_assistance below the enrollment count leaves an event over its attendance bound |
| `EventEngine.UpdateOverfillExample` | src/services/event-service.js:69-93 | that happens from a state meeting every invariant: two enrolled users, max_assistance updated from 2 to 1 |
| `EventEngine.Delete` | backend/src/services/event-service.js:92-104 | a refusal leaves the tables alone; success removes one existing event and nothing else |
| `EventEngine.DeleteOutcome` | backend/src/services/event-service.js:92-104 | delete succeeds iff the event exists and the caller created it; otherwise 404 and nothing changes; success removes exactly that event and returns its row |
| `EventEngine.DeletePreserves` | src/services/event-service.js:98-111 | delete keeps every invariant |
| `EventEngine.Enroll` | backend/src/services/event-service.js:106-129 | a refusal leaves the tables alone; success appends exactly the row (user, event, now), for a pair that had none |
| `EventEngine.EnrollOutcome` | backend/src/services/event-service.js:106-129 | once the earlier checks pass: a missing event gives EventNotFound (404), a started one AlreadyStarted, a disabled one EnrollmentClosed, an existing pair AlreadyEnrolled whatever the count, a full event CapacityFull (all 400); a refusal writes nothing; success appends exactly (user, event, now), and afterwards count ≤ max_assistance |
| `EventEngine.EnrollPreserves` | src/services/event-service.js:131-136 | enroll keeps every invariant, including count ≤ max_assistance for every event |
| `EventEngine.DisabledRefusesRegardlessOfCount` | backend/src/services/event-service.js:114-126 | a disabled, not-yet-started event refuses with EnrollmentClosed whatever the enrollment rows are |
| `EventEngine.EnrollTwice` | backend/src/services/event-service.js:118-128 | a second enroll of the same pair is refused as already enrolled and changes nothing; the pair has exactly one row |
| `EventEngine.Unenroll` | backend/src/services/event-service.js:131-145 | a refusal leaves the tables alone; success deletes the pair's rows and returns one of them, a row of that pair |
| `EventEngine.UnenrollOutcome` | backend/src/services/event-service.js:131-145 | unenroll checks existence (404), start ≤ now and not enrolled (400), in that order, writing nothing on refusal; success removes only that pair's row and lowers its count by one |
| `EventEngine.UnenrollPreserves` | src/services/event-service.js:140-154 | unenroll keeps every invariant |
| `EventEngine.UnenrollWithoutEnroll` | backend/src/services/event-service.js:139-142 | unenroll without an enrollment gives NotEnrolled and leaves the store unchanged |
| `EventEngine.EnrollUnenrollRoundTrip` | src/services/event-service.js:114-154 | enroll followed by unenroll at the same instant returns the enrollment row and restores the tables exactly |
| `EventEngine.ThirdUserFindsNoSeat` | src/services/event-service.js:131-134 | with max_assistance 2 and no enrollments, two users get in and the third is refused as full |
| `EventEngine.EventService.constructor` | backend/src/services/event-service.js:3-4 | a service over empty event and enrollment tables meets every invariant |
| `EventEngine.EventService.CreateEvent` | backend/src/services/event-service.js:14-47 | the step-by-step create returns what `Create` returns and leaves the tables `Create` describes |
| `EventEngine.EventService.UpdateEvent` | backend/src/services/event-service.js:49-90 | the step-by-step update agrees with `Update` |
| `EventEngine.EventService.DeleteEvent` | backend/src/services/event-service.js:92-104 | the step-by-step delete agrees with `Delete` |
| `EventEngine.EventService.EnrollUser` | backend/src/services/event-service.js:106-129 | the step-by-step enroll agrees with `Enroll` |
| `EventEngine.EventService.UnenrollUser` | backend/src/services/event-service.js:131-145 | the step-by-step unenroll agrees with `Unenroll` |
| `UserRules.ValidPassword` | src/services/user-service.js:18-20 | `password.length >= 3` in code units: every string of three characters passes, and none shorter than two |
| `UserRules.AstralCharactersCountTwice` | backend/src/services/user-service.js:6-16 | two emoji pass the name rule and an emoji plus one letter passes the password rule; "ab" fails |
| `UserRules.PasswordCountsWhitespace` | src/services/user-service.js:14-20 | the password rule counts whitespace and the name rule does not: "   " is a valid password and an invalid name |
| `UserRules.IndexOf` | src/services/user-service.js:9-12 | the position of the first occurrence of a character, or the length when absent |
| `UserRules.ValidEmail` | src/services/user-service.js:9-12 | an accepted email is present, has at least five characters and contains '@' |
| `UserRules.ValidEmailIffShape` | src/services/user-service.js:9-12 | validateEmail accepts exactly A@B.C with A, B, C non-empty and free of whitespace and '@' (B may contain dots) |
| `UserRules.ValidEmailHasShape` | src/services/user-service.js:9-12 | every accepted email splits as A@B.C |
| `UserRules.ShapeIsValidEmail` | src/services/user-service.js:9-12 | every A@B.C is accepted |
| `UserTable.Lookup` | backend/src/repositories/user-repository.js:26-41 | finds a row with that username iff the table has one |
| `UserTable.LookupUnique` | backend/src/repositories/user-repository.js:26-41 | with unique usernames, the lookup returns the only row with that username |
| `UserTable.InsertFresh` | backend/src/services/user-service.js:32-42 | inserting after the duplicate check keeps usernames unique, and the new row is what its username now looks up to |
| `HashedUsers.Register` | src/services/user-service.js:22-51 | a refusal leaves the table alone; success appends one row under the next id holding the request's first_name, last_name, username and hash(password), and returns its profile |
| `HashedUsers.Login` | src/services/user-service.js:53-68 | a successful login returns a stored row with the given username |
| `HashedUsers.RegisterOutcome` | src/services/user-service.js:22-51 | checks first_name, last_name, email and password in that order (400), then rejects an existing username; a refusal writes nothing; success appends one row under the next id holding the request's first_name, last_name, username and hash(password), and returns it without the password |
| `HashedUsers.LoginOutcome` | src/services/user-service.js:53-68 | an invalid email is 400 before any lookup; login returns the row iff the user exists and compare accepts the stored hash; an unknown user and a wrong password get the same 401 |
| `HashedUsers.RegisterThenLogin` | src/services/user-service.js:41-65 | logging in with the email and password just registered returns the new user |
| `HashedUsers.UserService.constructor` | src/services/user-service.js:6-7 | a service over an empty users table |
| `HashedUsers.UserService.RegisterUser` | src/services/user-service.js:22-51 | the step-by-step registration agrees with `Register` |
| `HashedUsers.UserService.LoginUser` | src/services/user-service.js:53-68 | the step-by-step login agrees with `Login` |
| `PlainUsers.Register` | backend/src/services/user-service.js:18-45 | a refusal leaves the table alone; success appends one row under the next id holding the request's first_name, last_name, username and password unchanged, and returns its profile |
| `PlainUsers.Login` | backend/src/services/user-service.js:47-58 | a successful login returns a stored row with the given username |
| `PlainUsers.RegisterOutcome` | backend/src/services/user-service.js:18-45 | checks first_name, last_name, username (trimmed length) and password in that order (400), then rejects an existing username; a refusal writes nothing; success appends one row under the next id holding the request's first_name, last_name, username and the submitted password unchanged |
| `PlainUsers.LoginOutcome` | backend/src/services/user-service.js:47-58 | a short username is 400 before any lookup; login returns the row iff the user exists and its stored password equals the given one; both failures are the same 401 |
| `PlainUsers.RegisterThenLogin` | backend/src/services/user-service.js:18-58 | logging in with the username and password just registered returns the new user |
| `PlainUsers.UserService.constructor` | backend/src/services/user-service.js:3-4 | a service over an empty users table |
| `PlainUsers.UserService.RegisterUser` | backend/src/services/user-service.js:18-45 | the step-by-step registration agrees with `Register` |
| `PlainUsers.UserService.LoginUser` | backend/src/services/user-service.js:47-58 | the step-by-step login agrees with `Login` |
| `EventLocations.FindById` | backend/src/repositories/event-location-repository.js:21-34 | finds a row with that id iff the table has one |
| `EventLocations.Capacities` | backend/src/repositories/event-repository.js:149-162 | max_capacity by location id: an id is present iff a location row has it, and maps to that row's max_capacity |
| `EventLocations.GetAllByUser` | backend/src/services/event-location-service.js:6-8 | lists exactly the locations whose id_creator_user is the caller |
| `EventLocations.GetByIdIfOwned` | backend/src/services/event-location-service.js:10-14 | returns the location, unchanged, iff it exists and the caller created it; null otherwise |
| `EventLocations.FindByIdUnique` | backend/src/repositories/event-location-repository.js:21-34 | with unique ids, findById returns the only row with that id |
| `EventLocations.OwnedLookupsAgree` | backend/src/services/event-location-service.js:6-14 | a location is listed for a user iff getByIdIfOwned returns it to that user |
| `EventLocations.NonOwnerSeesAbsence` | backend/src/services/event-location-service.js:12 | a non-owner gets the same null as for a missing location |

## Left out

- `getByFiltersAsync` and `getByIdAsync` of EventService are pass-throughs to repository queries. The model does not include them, nor the JOIN and `json_build_object` shaping of those queries, nor the name filter, nor their `ORDER BY start_date DESC`. The ownership guard reads the events table directly.
- `countUsersRegisteredToEvent` is called by neither service. Its two copies also name different tables (`event_registrations` and `event_enrollments`).
- The `src/` copy of `enrollUser` and `unenrollUser` would fail at run time on the missing repository methods. The model follows the backend repository instead.
- SQL and `pg` connection handling, and database failures: the store is in memory and every query and write succeeds. Most repository methods rethrow a failure, which would surface as a 500. `getByIdAsync` instead catches every failure and returns null (backend/src/repositories/event-repository.js:142-146). A failed existence or ownership lookup in update, delete, enroll or unenroll therefore becomes the 404 "Evento no encontrado". The model does not capture that path. `getByIdAsync` also joins users, locations and provinces, so an event whose joined rows are missing would read as not found; the model reads the events table directly. Column types and constraints that the database may enforce are not part of this model: NOT NULL, foreign keys, any cascade from events to enrollments, any unique constraint on usernames or enrollment pairs.
- `createEventAsync` writes the acting user into the caller's `eventData.id_creator_user` in place (backend/src/services/event-service.js:43), before the insert and even when the insert then fails. The model works on a copy of the draft, so the caller never sees that change.
- Location capacities are fixed: no modelled operation changes `Db.capacity`, because event locations are only read here. `WithinCapacity` is preserved only under that assumption. An edit of a location's `max_capacity` elsewhere could break it.
- Concurrency: calls run one at a time. The window between the count check and the insert in `enrollUser` is therefore not modelled.
- Date parsing: `start_date` is an integer instant and `now` is a parameter. The registration timestamp is that same `now`, not the database's `NOW()`.
- bcrypt, JSON web tokens, Express controllers and middleware, and the React Native frontend.
- JavaScript values of the wrong type: a non-string name or description would make `.trim()` throw, and strings would be coerced to numbers in comparisons. Fractional price and duration are also out, as is an absent `start_date` or `enabled_for_enrollment`. Fields are typed: integers, strings and booleans, with `Option` where absence matters.
- `HashedUsers.Login`: the password is a string. With an absent password, `bcrypt.compare` would throw (a 500), and that path is not modelled.
- The rejection messages are represented by their kinds, not by their text.

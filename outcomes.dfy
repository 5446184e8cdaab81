/** Values shared by every service: optional fields, the closed set of
    rejection kinds the services throw, and the status each one carries. */
module Outcomes {

  /** A field that may be absent (undefined or null in a request body). */
  datatype Option<+T> = None | Some(value: T)

  /** One constructor per rejection cause in the services; a cause thrown
      from several places with slightly different messages is one kind. */
  datatype Kind =
    // event draft validation (status 400)
    | InvalidName | InvalidDescription | NegativePrice | NegativeDuration
    | InvalidMaxAssistance | MissingLocation
    // capacity guard (status 400)
    | UnknownLocation | CapacityExceeded
    // update without an id (status 400)
    | MissingId
    // ownership guard (status 404, two different messages)
    | EventNotFound | NotOwner
    // enrollment engine (status 400)
    | AlreadyStarted | EnrollmentClosed | AlreadyEnrolled | CapacityFull | NotEnrolled
    // user registration and login (status 400)
    | InvalidFirstName | InvalidLastName | InvalidEmail | InvalidUsername | InvalidPassword
    | UserExists
    // login failure, one message for every cause (status 401)
    | BadCredentials

  /** The HTTP status attached to each kind of rejection. */
  function Status(k: Kind): (code: int)
    ensures code in {400, 401, 404}
    ensures code == 404 <==> k == EventNotFound || k == NotOwner
    ensures code == 401 <==> k == BadCredentials
  {
    match k
    case EventNotFound | NotOwner => 404
    case BadCredentials => 401
    case _ => 400
  }

  /** What a service call returns: a value or the rejection it threw. */
  datatype Result<+T> = Ok(value: T) | Err(kind: Kind)
}

/** Values shared by both controllers: optional values, the error kinds a
    request can be refused with, and the HTTP status each kind is answered with. */
module Common {

  /** An absent or present value (an omitted request field, a failed lookup). */
  datatype Option<+T> = None | Some(value: T)

  /** Point lookup in a table: `None` when the key has no row. */
  function Lookup<K, V>(m: map<K, V>, k: K): (r: Option<V>)
  {
    if k in m then Some(m[k]) else None
  }

  /** The reasons a controller answers with an error instead of performing its
      mutation. The last three are exceptions that escape the handler. */
  datatype ErrorKind =
    | ValidationFails    // "Validation fails"
    | MeetupNotFound     // "Meetup not found."
    | NotOwner           // "Can only update your meetups." / "Not authorized."
    | PastMeetup         // "Can't update past meetups." / "Can't delete past meetups." / "Can't subscribe in past meetups."
    | DateInvalid        // "Meetup date invalid"
    | OwnMeetup          // "Can't subscribe in your meetups."
    | AlreadySubscribed  // "You already subscribe in this meetup."
    | TimeClash          // "Can't subscribe to two meetups at the same time"
    | SubscriberMissing  // the subscriber's own row is gone: destructuring `null` throws
    | QueryRejected      // the database refuses a listing query with a negative OFFSET
    | SchemaTypeError    // calling a method the validation library does not have throws

  /** The exceptions that escape a handler, as opposed to the refusals the
      handler answers itself. */
  predicate Uncaught(e: ErrorKind)
  {
    e.SubscriberMissing? || e.QueryRejected? || e.SchemaTypeError?
  }

  /** The HTTP status each refusal is answered with. The handlers set 400 and
      401 themselves. For an escaping exception the model assumes 500, the
      usual answer to an unhandled error; the application's error handling is
      not part of this model. */
  function Status(e: ErrorKind): (code: int)
    ensures code == 500 <==> Uncaught(e)
    ensures code == 400 <==> e in {ValidationFails, MeetupNotFound, TimeClash}
    ensures code == 401 <==> e in {NotOwner, PastMeetup, DateInvalid, OwnMeetup, AlreadySubscribed}
  {
    match e
    case ValidationFails => 400
    case MeetupNotFound => 400
    case TimeClash => 400
    case NotOwner => 401
    case PastMeetup => 401
    case DateInvalid => 401
    case OwnMeetup => 401
    case AlreadySubscribed => 401
    case SubscriberMissing => 500
    case QueryRejected => 500
    case SchemaTypeError => 500
  }

  /** The answer of a read-only operation. */
  datatype Result<+T> = Ok(value: T) | Err(error: ErrorKind)

  function Min(a: int, b: int): (m: int) { if a <= b then a else b }
}

/** The slot records that both copies of the booking endpoints read and write,
    the replies their handlers send, and the invariants a slot is meant to keep. */
module SlotModel {

  datatype Option<T> = None | Some(value: T) {
    /** The wrapped value, or `default` when there is none (JavaScript's `x || default`
        for the values the model admits). */
    function GetOr(default: T): T {
      match this
      case Some(v) => v
      case None => default
    }
  }

  /** One reservation: `{name, phone}`. */
  datatype Attendee = Attendee(name: string, phone: string)

  /** A stored slot record `{id, theme, type, datetime, capacity, booked, attendees}`.
      `datetime` is the slot's instant as a totally ordered key; `kind` is the record's
      `type` field. `booked` and `attendees` are `None` when a stored record lacks them. */
  datatype Slot = Slot(
    id: string,
    theme: string,
    kind: string,
    datetime: int,
    capacity: int,
    booked: Option<int>,
    attendees: Option<seq<Attendee>>)

  /** `s.booked || 0`: a missing count is read as no booking. */
  function Booked(s: Slot): int {
    s.booked.GetOr(0)
  }

  /** `s.attendees || []`. */
  function AttendeeList(s: Slot): seq<Attendee> {
    s.attendees.GetOr([])
  }

  /** `s.capacity - (s.booked || 0)`: the seats still free. */
  function Left(s: Slot): int {
    s.capacity - Booked(s)
  }

  /** The capacity invariant: the slot is not oversold. */
  predicate WithinCapacity(s: Slot) {
    0 <= Booked(s) <= s.capacity
  }

  /** The attendee invariant: one recorded attendee per booking. */
  predicate CountsAttendees(s: Slot) {
    Booked(s) == |AttendeeList(s)|
  }

  predicate AllWithinCapacity(slots: seq<Slot>) {
    forall i :: 0 <= i < |slots| ==> WithinCapacity(slots[i])
  }

  predicate AllCountAttendees(slots: seq<Slot>) {
    forall i :: 0 <= i < |slots| ==> CountsAttendees(slots[i])
  }

  /** What a successful reply's JSON body carries. */
  datatype Payload =
    | SlotList(slots: seq<Slot>)   // `{ slots }`
    | Created(slot: Slot)          // `{ message, slot }`
    | Message                      // `{ message }` only

  /** A handler's response: the status code, and for 405 the `Allow` header if one is set. */
  datatype Reply =
    | Ok(payload: Payload)
    | BadRequest
    | NotFound
    | MethodNotAllowed(allow: Option<string>)
    | Conflict
  {
    function Status(): int {
      match this
      case Ok(_) => 200
      case BadRequest => 400
      case NotFound => 404
      case MethodNotAllowed(_) => 405
      case Conflict => 409
    }
  }

  lemma ConcatAssoc(a: seq<Slot>, b: seq<Slot>, c: seq<Slot>)
    ensures a + (b + c) == (a + b) + c
  {
  }

  /** A handler's reply together with the collection as it stands afterwards. */
  datatype Outcome = Outcome(reply: Reply, slots: seq<Slot>)
}

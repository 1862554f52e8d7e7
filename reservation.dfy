/** The reserve handler shared by both copies: validation, then lookup by id, then the
    capacity check, then one more booking. The two copies differ in whether the attendee
    is recorded and in the 405 reply. */
module Reservation {
  import opened SlotModel

  /** The top-level copy records `{name, phone}`; the nested copy only counts. */
  datatype Variant = TopLevel | Nested {
    predicate RecordsAttendee() {
      TopLevel?
    }
    /** The `Allow` header of the 405 reply. */
    function Allow(): Option<string> {
      if TopLevel? then Some("POST") else None
    }
  }

  /** The body of a reserve request; an absent or empty field is `""`. */
  datatype ReserveBody = ReserveBody(slotId: string, name: string, phone: string)

  /** Passes `if (!slotId || !name || !phone)`. */
  predicate Complete(body: ReserveBody) {
    body.slotId != "" && body.name != "" && body.phone != ""
  }

  /** `slots.findIndex(s => s.id === id)`: the first position with that id, or -1. */
  function FindIndex(slots: seq<Slot>, id: string): (r: int)
    ensures -1 <= r < |slots|
    ensures r == -1 <==> forall i :: 0 <= i < |slots| ==> slots[i].id != id
    ensures 0 <= r ==> slots[r].id == id && forall i :: 0 <= i < r ==> slots[i].id != id
  {
    if slots == [] then -1
    else if slots[0].id == id then 0
    else
      var k := FindIndex(slots[1..], id);
      assert forall i :: 1 <= i < |slots| ==> slots[i] == slots[1..][i - 1];
      if k == -1 then -1 else k + 1
  }

  /** The slot after one more booking: `booked` grows by one and, in the top-level copy,
      the attendee goes at the end of the list; nothing else of the record changes. */
  function BookSeat(s: Slot, guest: Attendee, variant: Variant): (t: Slot)
    ensures Booked(t) == Booked(s) + 1 && Left(t) == Left(s) - 1
    ensures t.(booked := s.booked, attendees := s.attendees) == s
    ensures variant.RecordsAttendee() ==> AttendeeList(t) == AttendeeList(s) + [guest]
    ensures !variant.RecordsAttendee() ==> t.attendees == s.attendees
  {
    var booked := s.(booked := Some(Booked(s) + 1));
    if variant.RecordsAttendee() then booked.(attendees := Some(AttendeeList(s) + [guest]))
    else booked
  }

  /** The reserve operation once the method is known to be POST. A missing field is
      reported before the collection is consulted, an unknown id before the capacity,
      and every refusal leaves the collection as it was. On success only the first slot
      with the id changes, and it keeps its position. */
  function Reserve(slots: seq<Slot>, body: ReserveBody, variant: Variant): (o: Outcome)
    ensures o.reply == BadRequest <==> !Complete(body)
    ensures o.reply == NotFound <==> Complete(body) && FindIndex(slots, body.slotId) == -1
    ensures o.reply == Conflict <==>
      Complete(body) && FindIndex(slots, body.slotId) >= 0 && Left(slots[FindIndex(slots, body.slotId)]) <= 0
    ensures o.reply.Ok? || o.reply == BadRequest || o.reply == NotFound || o.reply == Conflict
    ensures !o.reply.Ok? ==> o.slots == slots
    ensures o.reply.Ok? ==>
      var i := FindIndex(slots, body.slotId);
      && o.reply == Ok(Message)
      && |o.slots| == |slots|
      && o.slots[i] == BookSeat(slots[i], Attendee(body.name, body.phone), variant)
      && forall j :: 0 <= j < |slots| && j != i ==> o.slots[j] == slots[j]
  {
    if !Complete(body) then Outcome(BadRequest, slots)
    else
      var i := FindIndex(slots, body.slotId);
      if i == -1 then Outcome(NotFound, slots)
      else if Left(slots[i]) <= 0 then Outcome(Conflict, slots)
      else Outcome(Ok(Message), slots[i := BookSeat(slots[i], Attendee(body.name, body.phone), variant)])
  }

  /** The whole reserve handler: any HTTP method (`verb`) other than POST is refused first. */
  function ReserveEndpoint(slots: seq<Slot>, verb: string, body: ReserveBody, variant: Variant): (o: Outcome)
    ensures verb != "POST" ==> o == Outcome(MethodNotAllowed(variant.Allow()), slots)
    ensures verb == "POST" ==> o == Reserve(slots, body, variant)
  {
    if verb != "POST" then Outcome(MethodNotAllowed(variant.Allow()), slots)
    else Reserve(slots, body, variant)
  }

  /** The capacity invariant: a reserve never oversells, in either copy, and the remaining
      count reported after a booking is not negative. */
  lemma ReserveKeepsCapacity(slots: seq<Slot>, body: ReserveBody, variant: Variant)
    requires AllWithinCapacity(slots)
    ensures AllWithinCapacity(Reserve(slots, body, variant).slots)
    ensures var o := Reserve(slots, body, variant);
      o.reply.Ok? ==> Left(o.slots[FindIndex(slots, body.slotId)]) >= 0
  {
    var o := Reserve(slots, body, variant);
    if o.reply.Ok? {
      var i := FindIndex(slots, body.slotId);
      forall j | 0 <= j < |o.slots| ensures WithinCapacity(o.slots[j]) {
        if j != i {
          assert o.slots[j] == slots[j];
        }
      }
    }
  }

  /** The top-level copy keeps one attendee per booking. */
  lemma TopLevelReserveKeepsAttendeeCount(slots: seq<Slot>, body: ReserveBody)
    requires AllCountAttendees(slots)
    ensures AllCountAttendees(Reserve(slots, body, TopLevel).slots)
  {
    var o := Reserve(slots, body, TopLevel);
    if o.reply.Ok? {
      var i := FindIndex(slots, body.slotId);
      forall j | 0 <= j < |o.slots| ensures CountsAttendees(o.slots[j]) {
        if j != i {
          assert o.slots[j] == slots[j];
        }
      }
    }
  }

  /** The nested copy does not: after a successful reserve on a slot whose count matched
      its attendees, the count is one more than the attendees recorded. */
  lemma NestedReserveBreaksAttendeeCount(slots: seq<Slot>, body: ReserveBody)
    requires Complete(body) && FindIndex(slots, body.slotId) >= 0
    requires CountsAttendees(slots[FindIndex(slots, body.slotId)])
    ensures var o := Reserve(slots, body, Nested);
      o.reply.Ok? ==> Booked(o.slots[FindIndex(slots, body.slotId)])
                      == |AttendeeList(o.slots[FindIndex(slots, body.slotId)])| + 1
  {
  }

  /** The first position of an id stays where it was when only the slot there changes
      and keeps its id. */
  lemma {:induction false} FindIndexAfterUpdate(slots: seq<Slot>, id: string, t: Slot)
    requires 0 <= FindIndex(slots, id) && t.id == id
    ensures FindIndex(slots[FindIndex(slots, id) := t], id) == FindIndex(slots, id)
  {
    var i := FindIndex(slots, id);
    var updated := slots[i := t];
    var k := FindIndex(updated, id);
    assert updated[i].id == id;
  }

  /** The result of sending one reserve request per guest, all for the same slot. */
  datatype Run = Run(slots: seq<Slot>, successes: nat)

  function ReserveEach(slots: seq<Slot>, slotId: string, guests: seq<Attendee>, variant: Variant): Run
    decreases |guests|
  {
    if guests == [] then Run(slots, 0)
    else
      var o := Reserve(slots, ReserveBody(slotId, guests[0].name, guests[0].phone), variant);
      var rest := ReserveEach(o.slots, slotId, guests[1..], variant);
      Run(rest.slots, rest.successes + if o.reply.Ok? then 1 else 0)
  }

  function Min(a: int, b: int): int {
    if a <= b then a else b
  }

  /** The slot after booking `guests` one after the other. */
  function BookAll(s: Slot, guests: seq<Attendee>, variant: Variant): (t: Slot)
    decreases |guests|
  {
    if guests == [] then s else BookAll(BookSeat(s, guests[0], variant), guests[1..], variant)
  }

  /** Booking k guests adds k to `booked`, appends exactly those guests in the top-level
      copy, and changes nothing else of the record. */
  lemma {:induction false} BookAllEffect(s: Slot, guests: seq<Attendee>, variant: Variant)
    decreases |guests|
    ensures var t := BookAll(s, guests, variant);
      && Booked(t) == Booked(s) + |guests|
      && t.(booked := s.booked, attendees := s.attendees) == s
      && (variant.RecordsAttendee() ==> AttendeeList(t) == AttendeeList(s) + guests)
      && (!variant.RecordsAttendee() ==> t.attendees == s.attendees)
  {
    if guests != [] {
      BookAllEffect(BookSeat(s, guests[0], variant), guests[1..], variant);
      assert guests == [guests[0]] + guests[1..];
    }
  }

  /** One complete request for a slot that exists: a booking if a seat is left, else 409. */
  lemma ReserveStep(slots: seq<Slot>, slotId: string, g: Attendee, variant: Variant)
    requires slotId != "" && g.name != "" && g.phone != ""
    requires 0 <= FindIndex(slots, slotId)
    ensures var i := FindIndex(slots, slotId);
      Reserve(slots, ReserveBody(slotId, g.name, g.phone), variant)
      == if Left(slots[i]) > 0 then Outcome(Ok(Message), slots[i := BookSeat(slots[i], g, variant)])
         else Outcome(Conflict, slots)
  {
  }

  /** The final collection and success count of sending `guests` one by one for the slot
      at position `i`, as the sequential-reserve property states them. */
  predicate ReservedInTurn(slots: seq<Slot>, i: int, guests: seq<Attendee>, variant: Variant, run: Run)
    requires 0 <= i < |slots|
  {
    && run.successes == Min(|guests|, Left(slots[i]))
    && run.slots == slots[i := BookAll(slots[i], guests[..run.successes], variant)]
  }

  /** N sequential reserves on a slot with L seats left succeed exactly min(N, L) times:
      the first min(N, L) guests get a seat in order, the others are refused with 409,
      and no other slot changes. */
  lemma {:induction false} SequentialReserves(slots: seq<Slot>, slotId: string, guests: seq<Attendee>, variant: Variant)
    requires slotId != ""
    requires forall g :: g in guests ==> g.name != "" && g.phone != ""
    requires 0 <= FindIndex(slots, slotId)
    requires WithinCapacity(slots[FindIndex(slots, slotId)])
    decreases |guests|, 1
    ensures ReservedInTurn(slots, FindIndex(slots, slotId), guests, variant, ReserveEach(slots, slotId, guests, variant))
  {
    var i := FindIndex(slots, slotId);
    if guests == [] {
      assert slots[i := slots[i]] == slots;
    } else if Left(slots[i]) > 0 {
      SequentialReservesWithSeat(slots, slotId, guests, variant);
    } else {
      SequentialReservesWhenFull(slots, slotId, guests, variant);
    }
  }

  lemma {:induction false} SequentialReservesWithSeat(slots: seq<Slot>, slotId: string, guests: seq<Attendee>, variant: Variant)
    requires slotId != "" && guests != []
    requires forall g :: g in guests ==> g.name != "" && g.phone != ""
    requires 0 <= FindIndex(slots, slotId)
    requires WithinCapacity(slots[FindIndex(slots, slotId)]) && Left(slots[FindIndex(slots, slotId)]) > 0
    decreases |guests|, 0
    ensures ReservedInTurn(slots, FindIndex(slots, slotId), guests, variant, ReserveEach(slots, slotId, guests, variant))
  {
    var i := FindIndex(slots, slotId);
    var g := guests[0];
    assert g in guests;
    assert forall x :: x in guests[1..] ==> x in guests;
    var o := Reserve(slots, ReserveBody(slotId, g.name, g.phone), variant);
    ReserveStep(slots, slotId, g, variant);
    var t := BookSeat(slots[i], g, variant);
    assert o == Outcome(Ok(Message), slots[i := t]);
    var rest := ReserveEach(o.slots, slotId, guests[1..], variant);
    assert ReserveEach(slots, slotId, guests, variant) == Run(rest.slots, rest.successes + 1);
    FindIndexAfterUpdate(slots, slotId, t);
    SequentialReserves(o.slots, slotId, guests[1..], variant);
    TurnWithSeat(slots, i, guests, variant, rest);
  }

  /** Bookkeeping of one successful turn followed by the remaining guests. */
  lemma TurnWithSeat(slots: seq<Slot>, i: int, guests: seq<Attendee>, variant: Variant, rest: Run)
    requires 0 <= i < |slots| && guests != [] && Left(slots[i]) > 0
    requires ReservedInTurn(slots[i := BookSeat(slots[i], guests[0], variant)], i, guests[1..], variant, rest)
    ensures ReservedInTurn(slots, i, guests, variant, Run(rest.slots, rest.successes + 1))
  {
    var t := BookSeat(slots[i], guests[0], variant);
    var k := rest.successes;
    var booked := guests[..k + 1];
    assert booked[0] == guests[0];
    assert booked[1..] == guests[1..][..k];
    var final := BookAll(t, booked[1..], variant);
    assert BookAll(slots[i], booked, variant) == final;
    assert slots[i := t][i := final] == slots[i := final];
  }

  lemma {:induction false} SequentialReservesWhenFull(slots: seq<Slot>, slotId: string, guests: seq<Attendee>, variant: Variant)
    requires slotId != "" && guests != []
    requires forall g :: g in guests ==> g.name != "" && g.phone != ""
    requires 0 <= FindIndex(slots, slotId)
    requires WithinCapacity(slots[FindIndex(slots, slotId)]) && Left(slots[FindIndex(slots, slotId)]) <= 0
    decreases |guests|, 0
    ensures ReservedInTurn(slots, FindIndex(slots, slotId), guests, variant, ReserveEach(slots, slotId, guests, variant))
  {
    var i := FindIndex(slots, slotId);
    var g := guests[0];
    assert g in guests;
    assert forall x :: x in guests[1..] ==> x in guests;
    ReserveStep(slots, slotId, g, variant);
    assert Reserve(slots, ReserveBody(slotId, g.name, g.phone), variant) == Outcome(Conflict, slots);
    var rest := ReserveEach(slots, slotId, guests[1..], variant);
    assert ReserveEach(slots, slotId, guests, variant) == rest;
    SequentialReserves(slots, slotId, guests[1..], variant);
    assert slots[i := slots[i]] == slots;
  }

  /** Two reserves in a row on a slot with one seat and no booking: the first is
      accepted, the second is refused with 409. */
  lemma SingleSeatTakesOneReservation(slots: seq<Slot>, slotId: string, first: Attendee, second: Attendee, variant: Variant)
    requires slotId != "" && first.name != "" && first.phone != "" && second.name != "" && second.phone != ""
    requires 0 <= FindIndex(slots, slotId)
    requires slots[FindIndex(slots, slotId)].capacity == 1 && Booked(slots[FindIndex(slots, slotId)]) == 0
    ensures var o1 := Reserve(slots, ReserveBody(slotId, first.name, first.phone), variant);
      var o2 := Reserve(o1.slots, ReserveBody(slotId, second.name, second.phone), variant);
      o1.reply.Status() == 200 && o2.reply.Status() == 409 && o2.slots == o1.slots
  {
    var o1 := Reserve(slots, ReserveBody(slotId, first.name, first.phone), variant);
    FindIndexAfterUpdate(slots, slotId, o1.slots[FindIndex(slots, slotId)]);
    assert o1.slots == slots[FindIndex(slots, slotId) := o1.slots[FindIndex(slots, slotId)]];
  }

  /** An empty collection (the nested copy's absent key) answers every complete request with 404. */
  lemma EmptyCollectionFindsNothing(body: ReserveBody, variant: Variant)
    requires Complete(body)
    ensures Reserve([], body, variant) == Outcome(NotFound, [])
  {
  }

  /** One call of the reserve endpoint: the HTTP method and the body. */
  datatype ReserveCall = ReserveCall(verb: string, body: ReserveBody)

  /** The replies of a run of reserve calls and the collection it leaves behind. */
  datatype Trace = Trace(replies: seq<Reply>, slots: seq<Slot>)

  /** Reserve calls handled one after the other, each on the collection the previous one
      wrote back. */
  function ReserveRun(slots: seq<Slot>, calls: seq<ReserveCall>, variant: Variant): (t: Trace)
    ensures |t.replies| == |calls|
    ensures calls != [] ==> t.replies[0] == ReserveEndpoint(slots, calls[0].verb, calls[0].body, variant).reply
    decreases |calls|
  {
    if calls == [] then Trace([], slots)
    else
      var o := ReserveEndpoint(slots, calls[0].verb, calls[0].body, variant);
      var rest := ReserveRun(o.slots, calls[1..], variant);
      Trace([o.reply] + rest.replies, rest.slots)
  }

  /** A store that only the reserve handler ever touches (the top-level reserve file's own
      in-process array, which no publish reaches) stays empty: every call is refused, with
      405, 400 or 404, and no call ever books a seat. */
  lemma {:induction false} ReserveOnlyStoreStaysEmpty(calls: seq<ReserveCall>, variant: Variant)
    ensures var t := ReserveRun([], calls, variant);
      && t.slots == []
      && forall k :: 0 <= k < |calls| ==>
        t.replies[k] == (if calls[k].verb != "POST" then MethodNotAllowed(variant.Allow())
                         else if Complete(calls[k].body) then NotFound
                         else BadRequest)
    decreases |calls|
  {
    if calls != [] {
      var o := ReserveEndpoint([], calls[0].verb, calls[0].body, variant);
      assert o.slots == [];
      ReserveOnlyStoreStaysEmpty(calls[1..], variant);
      var rest := ReserveRun([], calls[1..], variant);
      var t := ReserveRun([], calls, variant);
      assert t.replies == [o.reply] + rest.replies;
      forall k | 1 <= k < |calls|
        ensures t.replies[k] == rest.replies[k - 1] && calls[k] == calls[1..][k - 1]
      {
      }
    }
  }
}

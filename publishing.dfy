/** The POST branch of both slot endpoints: validate the body, then append a fresh slot. */
module SlotPublishing {
  import opened SlotModel

  const DefaultTheme: string := "Séance Ardu Coaching"
  const DefaultKind: string := "individuel"

  /** The fields of a publish request that reach the collection. An absent or empty
      text field is `""`; an absent or empty `datetime` or `capacity` is `None`. */
  datatype PublishBody = PublishBody(
    theme: string,
    kind: string,
    datetime: Option<int>,
    capacity: Option<int>)

  /** Passes `if (!datetime || !capacity)`: a datetime is given and the capacity is given
      and not 0. Nothing else about the capacity is checked. */
  predicate Accepted(body: PublishBody) {
    body.datetime.Some? && body.capacity.Some? && body.capacity.value != 0
  }

  /** The record a publish builds: the generated id, the defaults for a missing theme
      or type, the given instant and capacity, no booking and no attendee. */
  function NewSlot(id: string, body: PublishBody): (s: Slot)
    requires Accepted(body)
    ensures s.id == id && s.datetime == body.datetime.value && s.capacity == body.capacity.value
    ensures s.theme == (if body.theme == "" then DefaultTheme else body.theme) && s.theme != ""
    ensures s.kind == (if body.kind == "" then DefaultKind else body.kind) && s.kind != ""
    ensures Booked(s) == 0 && AttendeeList(s) == [] && CountsAttendees(s)
    ensures WithinCapacity(s) <==> s.capacity > 0
  {
    Slot(id,
         if body.theme == "" then DefaultTheme else body.theme,
         if body.kind == "" then DefaultKind else body.kind,
         body.datetime.value,
         body.capacity.value,
         Some(0),
         Some([]))
  }

  /** The publish operation on the collection read from storage. */
  function Publish(slots: seq<Slot>, body: PublishBody, id: string): (o: Outcome)
    ensures !Accepted(body) ==> o == Outcome(BadRequest, slots)
    ensures Accepted(body) ==> o.reply.Ok? && o.reply.payload.Created?
    ensures o.reply.Ok? ==> |o.slots| == |slots| + 1 && o.slots[..|slots|] == slots
    ensures o.reply.Ok? ==> o.slots[|slots|] == o.reply.payload.slot == NewSlot(id, body)
  {
    if !Accepted(body) then Outcome(BadRequest, slots)
    else
      var slot := NewSlot(id, body);
      Outcome(Ok(Created(slot)), slots + [slot])
  }

  /** Publishing a slot with a positive capacity keeps every slot within capacity and
      with one attendee per booking; a zero or negative capacity, which the handler
      accepts, gives a slot that is oversold from the start. */
  lemma PublishKeepsInvariants(slots: seq<Slot>, body: PublishBody, id: string)
    requires AllWithinCapacity(slots) && AllCountAttendees(slots)
    ensures var o := Publish(slots, body, id);
      AllCountAttendees(o.slots)
      && (AllWithinCapacity(o.slots) <==> !Accepted(body) || body.capacity.value > 0)
  {
    var o := Publish(slots, body, id);
    if Accepted(body) {
      assert o.slots[|slots|] == NewSlot(id, body);
      forall i | 0 <= i < |slots| ensures o.slots[i] == slots[i] {
        assert o.slots[..|slots|][i] == o.slots[i];
      }
    }
  }
}

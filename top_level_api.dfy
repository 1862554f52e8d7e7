/** The top-level copy of the endpoints (api/slots.js and api/reserve.js). The collection
    lives under the KV key `slots` when a KV store is configured, otherwise in the
    handler file's own in-process array. Each handler reads the whole collection,
    changes it and writes the whole collection back. */
module TopLevelApi {
  import opened SlotModel
  import opened SlotListing
  import opened SlotPublishing
  import opened SlotRemoval
  import opened Reservation
  import opened SlotsHandler

  class SlotStore {
    /** The stored collection. An absent KV key reads as `[]`, which every handler here
        treats exactly like a stored empty collection. */
    var slots: seq<Slot>
    /** True when no KV store is configured and `slots` is the in-process array. */
    const inMemory: bool

    /** The in-process array starts empty. */
    constructor (inMemory: bool)
      ensures this.inMemory == inMemory && slots == []
    {
      this.inMemory := inMemory;
      slots := [];
    }

    /** The slots handler. GET sorts the array it read in place, so in memory mode the
        stored collection itself ends up sorted; in KV mode the sorted copy is not written. */
    method HandleSlotsRequest(req: SlotsRequest, freshId: string) returns (r: Reply)
      modifies this
      ensures Outcome(r, slots) == HandleSlots(old(slots), req, freshId, inMemory)
      ensures !r.Ok? ==> slots == old(slots)
    {
      if req.verb == "GET" {
        var current := slots;
        current := SortByDatetime(current);
        if inMemory {
          slots := current;
        }
        return Ok(SlotList(current));
      }
      if req.verb == "POST" {
        if !Accepted(req.body) {
          return BadRequest;
        }
        var current := slots;
        var slot := NewSlot(freshId, req.body);
        current := current + [slot];
        slots := current;
        return Ok(Created(slot));
      }
      if req.verb == "DELETE" {
        if req.id == "" {
          return BadRequest;
        }
        var current := slots;
        slots := RemoveId(current, req.id);
        return Ok(Message);
      }
      return MethodNotAllowed(Some(AllowedMethods));
    }

    /** The reserve handler: the slot at the first position with the id gets one more
        booking and the attendee at the end of its list, then the array is written back. */
    method HandleReserveRequest(verb: string, body: ReserveBody) returns (r: Reply)
      modifies this
      ensures Outcome(r, slots) == ReserveEndpoint(old(slots), verb, body, TopLevel)
      ensures AllWithinCapacity(old(slots)) ==> AllWithinCapacity(slots)
      ensures AllCountAttendees(old(slots)) ==> AllCountAttendees(slots)
    {
      if verb != "POST" {
        return MethodNotAllowed(Some("POST"));
      }
      if body.slotId == "" || body.name == "" || body.phone == "" {
        return BadRequest;
      }
      var current := slots;
      var idx := FindIndex(current, body.slotId);
      if idx == -1 {
        return NotFound;
      }
      var s := current[idx];
      var left := s.capacity - Booked(s);
      if left <= 0 {
        return Conflict;
      }
      s := s.(booked := Some(Booked(s) + 1));
      s := s.(attendees := Some(AttendeeList(s) + [Attendee(body.name, body.phone)]));
      current := current[idx := s];
      slots := current;
      r := Ok(Message);
      if AllWithinCapacity(old(slots)) {
        ReserveKeepsCapacity(old(slots), body, TopLevel);
      }
      if AllCountAttendees(old(slots)) {
        TopLevelReserveKeepsAttendeeCount(old(slots), body);
      }
    }
  }
}

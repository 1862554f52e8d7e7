/** The nested copy of the endpoints (api/api/slots.js and api/api/reserve.js), over the
    KV store only. The key `slots` may be absent: the slots handler reads it as `[]`,
    the reserve handler reads it as `null` and then treats that as `[]`. */
module NestedApi {
  import opened SlotModel
  import opened SlotListing
  import opened SlotPublishing
  import opened SlotRemoval
  import opened Reservation
  import opened SlotsHandler

  class KvSlotStore {
    /** The value under the key `slots`, or `None` while the key is absent. */
    var stored: Option<seq<Slot>>

    /** Nothing has been stored yet. */
    constructor ()
      ensures stored == None
    {
      stored := None;
    }

    /** The collection as both handlers read it. */
    function Collection(): seq<Slot>
      reads this
    {
      stored.GetOr([])
    }

    /** The slots handler. GET sorts a fresh copy and writes nothing; POST and DELETE write
        the whole collection back, so a DELETE on an absent key stores `[]`. */
    method HandleSlotsRequest(req: SlotsRequest, freshId: string) returns (r: Reply)
      modifies this
      ensures r == HandleSlots(old(Collection()), req, freshId, false).reply
      ensures stored == if r.Ok? && req.verb != "GET"
                        then Some(HandleSlots(old(Collection()), req, freshId, false).slots)
                        else old(stored)
    {
      if req.verb == "GET" {
        var current := Collection();
        current := SortByDatetime(current);
        return Ok(SlotList(current));
      }
      if req.verb == "POST" {
        if !Accepted(req.body) {
          return BadRequest;
        }
        var current := Collection();
        var slot := NewSlot(freshId, req.body);
        current := current + [slot];
        stored := Some(current);
        return Ok(Created(slot));
      }
      if req.verb == "DELETE" {
        if req.id == "" {
          return BadRequest;
        }
        var current := Collection();
        stored := Some(RemoveId(current, req.id));
        return Ok(Message);
      }
      return MethodNotAllowed(Some(AllowedMethods));
    }

    /** The reserve handler: one more booking on the first slot with the id and no
        attendee recorded; no `Allow` header on the 405 reply. An absent key is written
        only by a successful reserve, and that cannot happen on an absent key. */
    method HandleReserveRequest(verb: string, body: ReserveBody) returns (r: Reply)
      modifies this
      ensures r == ReserveEndpoint(old(Collection()), verb, body, Nested).reply
      ensures stored == if r.Ok? then Some(ReserveEndpoint(old(Collection()), verb, body, Nested).slots)
                        else old(stored)
      ensures old(stored) == None ==> stored == None && r != Ok(Message)
      ensures AllWithinCapacity(old(Collection())) ==> AllWithinCapacity(Collection())
    {
      if verb != "POST" {
        return MethodNotAllowed(None);
      }
      if body.slotId == "" || body.name == "" || body.phone == "" {
        return BadRequest;
      }
      var current := match stored case Some(v) => v case None => [];
      var idx := FindIndex(current, body.slotId);
      if idx == -1 {
        return NotFound;
      }
      var s := current[idx];
      var left := s.capacity - Booked(s);
      if left <= 0 {
        return Conflict;
      }
      s := s.(booked := Some(Booked(s) + 1));
      current := current[idx := s];
      stored := Some(current);
      r := Ok(Message);
      if AllWithinCapacity(old(Collection())) {
        ReserveKeepsCapacity(old(Collection()), body, Nested);
      }
    }
  }
}

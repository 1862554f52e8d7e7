/** The slots endpoint as both copies dispatch it: GET lists, POST publishes, DELETE
    removes, anything else is refused with 405. */
module SlotsHandler {
  import opened SlotModel
  import opened SlotListing
  import opened SlotPublishing
  import opened SlotRemoval

  const AllowedMethods: string := "GET,POST,DELETE"

  /** What the handler reads from a request: the HTTP method (`verb`), the JSON body of a
      POST and the `id` query parameter of a DELETE (`""` when absent). */
  datatype SlotsRequest = SlotsRequest(verb: string, body: PublishBody, id: string)

  /** The slots endpoint on the collection read from storage. `sortsStored` says whether
      GET's in-place sort reaches the stored collection (it does when the collection is the
      in-process array itself). `freshId` is the id the handler generates for a POST. */
  function HandleSlots(slots: seq<Slot>, req: SlotsRequest, freshId: string, sortsStored: bool): (o: Outcome)
    ensures req.verb == "GET" ==>
      o.reply == Ok(SlotList(SortByDatetime(slots)))
      && o.slots == (if sortsStored then SortByDatetime(slots) else slots)
    ensures req.verb == "POST" ==> o == Publish(slots, req.body, freshId)
    ensures req.verb == "DELETE" ==> o == Delete(slots, req.id)
    ensures req.verb != "GET" && req.verb != "POST" && req.verb != "DELETE" ==>
      o == Outcome(MethodNotAllowed(Some(AllowedMethods)), slots)
    ensures !o.reply.Ok? ==> o.slots == slots
  {
    if req.verb == "GET" then
      var sorted := SortByDatetime(slots);
      Outcome(Ok(SlotList(sorted)), if sortsStored then sorted else slots)
    else if req.verb == "POST" then Publish(slots, req.body, freshId)
    else if req.verb == "DELETE" then Delete(slots, req.id)
    else Outcome(MethodNotAllowed(Some(AllowedMethods)), slots)
  }

  /** A GET returns every stored slot once, earliest first; slots at the same instant keep
      their stored order; and a second GET returns the same listing, whether or not the
      first one reordered the stored collection. */
  lemma ListIsOrderedPermutation(slots: seq<Slot>, sortsStored: bool, d: int)
    ensures var first := HandleSlots(slots, SlotsRequest("GET", PublishBody("", "", None, None), ""), "", sortsStored);
      var second := HandleSlots(first.slots, SlotsRequest("GET", PublishBody("", "", None, None), ""), "", sortsStored);
      && first.reply.payload.SlotList?
      && SortedByDatetime(first.reply.payload.slots)
      && multiset(first.reply.payload.slots) == multiset(slots)
      && AtInstant(first.reply.payload.slots, d) == AtInstant(slots, d)
      && second.reply == first.reply
  {
    SortIsStable(slots, d);
    SortIdempotent(slots);
  }

  /** A published slot shows up in the next listing. */
  lemma PublishedSlotIsListed(slots: seq<Slot>, body: PublishBody, freshId: string, sortsStored: bool)
    requires Accepted(body)
    ensures var posted := HandleSlots(slots, SlotsRequest("POST", body, ""), freshId, sortsStored);
      var listed := HandleSlots(posted.slots, SlotsRequest("GET", body, ""), freshId, sortsStored);
      posted.reply == Ok(Created(NewSlot(freshId, body)))
      && NewSlot(freshId, body) in listed.reply.payload.slots
  {
    var posted := HandleSlots(slots, SlotsRequest("POST", body, ""), freshId, sortsStored);
    assert posted.slots[|slots|] == NewSlot(freshId, body);
    assert NewSlot(freshId, body) in multiset(posted.slots);
  }

  /** A rejected publish creates nothing: the next listing is what it would have been. */
  lemma RejectedPublishIsNotListed(slots: seq<Slot>, body: PublishBody, freshId: string, sortsStored: bool)
    requires !Accepted(body)
    ensures var posted := HandleSlots(slots, SlotsRequest("POST", body, ""), freshId, sortsStored);
      posted.reply.Status() == 400 && posted.slots == slots
  {
  }

  /** After a delete, no listed slot carries the id, and every other slot is still listed. */
  lemma DeletedIdIsNotListed(slots: seq<Slot>, id: string, sortsStored: bool)
    requires id != ""
    ensures var deleted := HandleSlots(slots, SlotsRequest("DELETE", PublishBody("", "", None, None), id), "", sortsStored);
      var listed := HandleSlots(deleted.slots, SlotsRequest("GET", PublishBody("", "", None, None), ""), "", sortsStored);
      && deleted.reply.Status() == 200
      && forall x :: x in listed.reply.payload.slots <==> x in slots && x.id != id
  {
    var deleted := HandleSlots(slots, SlotsRequest("DELETE", PublishBody("", "", None, None), id), "", sortsStored);
    var sorted := SortByDatetime(deleted.slots);
    forall x ensures x in sorted <==> x in deleted.slots {
      assert x in sorted <==> x in multiset(sorted);
    }
  }

  /** Publishing slot A and then an earlier slot B lists B before A. */
  lemma LaterPublishedEarlierSlotListsFirst(a: PublishBody, b: PublishBody, idA: string, idB: string)
    requires Accepted(a) && Accepted(b) && b.datetime.value < a.datetime.value
    ensures var one := HandleSlots([], SlotsRequest("POST", a, ""), idA, false);
      var two := HandleSlots(one.slots, SlotsRequest("POST", b, ""), idB, false);
      var listed := HandleSlots(two.slots, SlotsRequest("GET", a, ""), "", false);
      listed.reply.payload.slots == [NewSlot(idB, b), NewSlot(idA, a)]
  {
    var sa, sb := NewSlot(idA, a), NewSlot(idB, b);
    assert [sa, sb][..1] == [sa];
    assert [sa][..0] == [];
  }
}

# Slot booking endpoints of the Ardu Coaching app, modelled in Dafny

The app's backend keeps one collection of bookable slots
`{id, theme, type, datetime, capacity, booked, attendees}`. Coaches publish slots and
clients reserve seats. Every handler reads the whole collection, changes it, and writes
the whole collection back, either to the KV key `slots` or to an in-process array.
The handlers exist in two copies:

- the top-level copy, `api/slots.js` and `api/reserve.js`: KV when configured, otherwise
  an in-process array; reserve records the attendee;
- the nested copy, `api/api/slots.js` and `api/api/reserve.js`: KV only; reserve only
  counts the booking.

The model is organised as follows:

- `SlotModel` (slot_model.dfy): the slot record, the replies (status 200, 400, 404, 405,
  409 and the `Allow` header), and the two slot invariants: `0 <= booked <= capacity`,
  and `booked` equal to the number of attendees. A record that lacks `booked` or `attendees` reads as 0 or
  `[]`, as `s.booked || 0` and `s.attendees || []` do.
- `SlotListing` (listing.dfy): GET's `slots.sort` by `datetime`. The sort is stable, and
  it is proved sorted, a permutation, order-preserving among slots at the same instant,
  and the identity on sorted input.
- `SlotPublishing` (publishing.dfy): POST's validation and the new record with its defaults.
- `SlotRemoval` (removal.dfy): DELETE's `filter` by id.
- `Reservation` (reservation.dfy): the reserve handler as a function of the collection,
  for both copies (the `Variant`). It carries the error order, the frame, the invariants,
  and the result that N sequential reserves give exactly min(N, seats left) successes.
- `SlotsHandler` (slots_handler.dfy): the slots endpoint's dispatch on the HTTP method,
  and properties of request sequences (publish then list, delete then list, list twice).
- `TopLevelApi.SlotStore` (top_level_api.dfy) and `NestedApi.KvSlotStore`
  (nested_api.dfy): the stored collection as a field, with one imperative method per
  handler file. Each method is proved against the functions above.

Modelling choices:

- `datetime` is an `int` that stands for the parsed instant.
- A text field that is absent or empty is `""`, since both are falsy in JavaScript.
  An absent `datetime` or `capacity` is `None`.
- The generated id is a parameter, `freshId`.
- In memory mode, GET's in-place sort reorders the stored array itself. `SlotStore.inMemory`
  captures this. In KV mode, the sorted copy is never written back.
- The nested store keeps an absent key as `None`. The slots handler reads it as `[]`. The
  reserve handler reads it as `null` and then uses `[]` in its place. A DELETE on an absent
  key stores `[]`.
- Each top-level file declares its own `MEM_SLOTS`. In memory mode, api/reserve.js
  therefore works on a different array from api/slots.js, and a reserve never finds a slot
  published through the other file. `SlotStore` models one stored collection; in memory
  mode a deployment is modelled by two `SlotStore` objects, one per file, and the reserve
  file's object is only ever passed to `HandleReserveRequest`. The consequence is proved as
  `Reservation.ReserveOnlyStoreStaysEmpty`: such a store stays `[]`, and every reserve on it
  is refused (405, 400 or 404). In KV mode, both top-level files share one object.
- Both copies keep the collection under the same KV key `slots` (api/slots.js:13,26;
  api/api/slots.js:31,51 and api/api/reserve.js:30,40). When both copies are deployed on one
  KV store, a `SlotStore(false)` object and a `KvSlotStore` object stand for one shared
  value; the nested store's absent key is the top-level store's `[]`.

Behaviour of the code that the model keeps:

- capacity is only checked to be truthy, so a negative capacity is accepted. Such a slot
  violates `booked <= capacity` from the start (`SlotPublishing.PublishKeepsInvariants`).
- DELETE answers 200 whether or not the id existed.
- GET has no "upcoming only" filter.
- The nested reserve does not record attendees, so `booked` equal to the number of attendees breaks there
  (`Reservation.NestedReserveBreaksAttendeeCount`).
- The nested reserve's 405 reply carries no `Allow` header.
- Reserve is a plain read-check-write with no concurrency control. The model is
  sequential, one handler call at a time.

## Model

| member | source | states |
|---|---|---|
| SlotListing.SortByDatetime | api/slots.js:49-52 | the GET listing is sorted ascending by `datetime` and is a permutation (same multiset) of the stored slots |
| SlotListing.InsertKeepsSorted | api/slots.js:50 | inserting a slot after every slot not later than it keeps a sorted collection sorted |
| SlotListing.SortIsStable | api/slots.js:50 | slots scheduled at the same instant appear in the listing in their stored order (the sort is stable) |
| SlotListing.SortKeepsSorted | api/api/slots.js:32 | sorting an already sorted collection returns it unchanged |
| SlotListing.SortIdempotent | api/api/slots.js:31-33 | sorting the listing again yields the same listing |
| SlotPublishing.NewSlot | api/slots.js:62-71 | the new record has the generated id, the given datetime and capacity, theme 'Séance Ardu Coaching' and type 'individuel' when those are missing, `booked = 0` and no attendee; it is within capacity exactly when the capacity is positive |
| SlotPublishing.Publish | api/slots.js:55-73 | a missing datetime or a missing or zero capacity gives 400 and leaves the collection unchanged; otherwise the reply carries the new slot, which is appended at the end, and all earlier slots are kept as they were |
| SlotPublishing.PublishKeepsInvariants | api/api/slots.js:38-51 | publishing keeps `booked` equal to the number of attendees for every slot, and keeps every slot within capacity exactly when the request is rejected or its capacity is positive |
| SlotRemoval.RemoveId | api/slots.js:90 | the filtered collection holds exactly the stored slots whose id differs, each as many times as before, and no slot with the id |
| SlotRemoval.Delete | api/slots.js:86-92 | a missing id gives 400 and no change; any other id gives 200 and writes back the filtered collection `RemoveId`, which removes every slot carrying it, whether or not one existed |
| SlotRemoval.RemoveIdAppend | api/api/slots.js:69 | the filter keeps the remaining slots in their stored order (it distributes over concatenation) |
| SlotRemoval.RemoveIdUnchangedIff | api/api/slots.js:68-71 | a delete leaves the collection unchanged exactly when no slot carries the id |
| SlotRemoval.RemoveIdOfAbsent | api/slots.js:89-91 | deleting an id that no slot carries writes back the same collection |
| SlotRemoval.RemoveIdIdempotent | api/slots.js:89-92 | deleting the same id twice gives the same collection as deleting it once |
| SlotRemoval.RemoveIdCommutes | api/api/slots.js:69 | deleting two ids gives the same collection in either order |
| Reservation.FindIndex | api/reserve.js:50 | the result is -1 exactly when no slot has the id, and otherwise it is the first position holding the id |
| Reservation.BookSeat | api/reserve.js:57-59 | after a booking, `booked` is one more (a missing count is read as 0) and the seats left are one fewer. The top-level copy appends `{name, phone}` at the end of the attendees (a missing list is read as `[]`); the nested copy leaves them alone. No other field changes |
| Reservation.Reserve | api/reserve.js:46-61 | 400 exactly when slotId, name or phone is missing, whatever the collection. 404 exactly when the fields are present and no slot has the id. 409 exactly when the first such slot has `capacity - booked <= 0`. Every refusal leaves the collection unchanged. On success, only the first slot with the id is rebooked, it keeps its position, and every other slot is identical |
| Reservation.ReserveEndpoint | api/api/reserve.js:24-40 | a method other than POST gives 405 and no change, with `Allow: POST` in the top-level copy and no header in the nested copy; a POST behaves as Reserve |
| Reservation.ReserveKeepsCapacity | api/reserve.js:54-59 | if every slot had `0 <= booked <= capacity` before a reserve, every slot still does after it, in both copies, and the remaining count `capacity - booked` of the booked slot is not negative |
| Reservation.TopLevelReserveKeepsAttendeeCount | api/reserve.js:57-60 | in the top-level copy, `booked` equal to the number of attendees for every slot is preserved by a reserve |
| Reservation.NestedReserveBreaksAttendeeCount | api/api/reserve.js:38-40 | in the nested copy, a successful reserve on a slot whose count matched its attendees leaves `booked` one more than the number of attendees |
| Reservation.FindIndexAfterUpdate | api/reserve.js:60 | writing the rebooked slot back at its position keeps it the first slot with that id |
| Reservation.BookAllEffect | api/reserve.js:57-59 | booking k guests one after the other adds k to `booked`. The top-level copy appends exactly those guests in order; the nested copy leaves the attendees alone |
| Reservation.SequentialReserves | api/reserve.js:54-57 | N sequential complete reserves on a slot with L seats left succeed exactly min(N, L) times. The first min(N, L) guests get the seats in order, and every other slot is unchanged |
| Reservation.SingleSeatTakesOneReservation | api/api/reserve.js:35-38 | two reserves in a row on a slot with capacity 1 and no booking: the first returns 200, the second returns 409 and changes nothing |
| Reservation.ReserveOnlyStoreStaysEmpty | api/reserve.js:5-17 | a store written only by the reserve handler and starting empty (the top-level reserve file's own in-process array) stays empty through any run of reserve calls, and each call is answered 405 when not a POST, 400 when a field is missing, and 404 otherwise; no call ever succeeds |
| Reservation.EmptyCollectionFindsNothing | api/api/reserve.js:30-32 | on an empty collection (the nested copy's absent key), every complete reserve returns 404 and writes nothing |
| SlotsHandler.HandleSlots | api/api/slots.js:28-75 | GET returns the sorted collection and changes the stored order only when the stored collection is the in-process array. POST behaves as Publish, DELETE as Delete. Any other method gives 405 with `Allow: GET,POST,DELETE`. No error changes the collection |
| SlotsHandler.ListIsOrderedPermutation | api/api/slots.js:30-33 | a GET lists every stored slot once, earliest first, with slots at the same instant in stored order. A second GET returns the same listing |
| SlotsHandler.PublishedSlotIsListed | api/api/slots.js:40-51 | after a successful publish, the next GET lists the new slot |
| SlotsHandler.RejectedPublishIsNotListed | api/api/slots.js:38 | a publish without datetime or capacity returns 400 and leaves the collection unchanged |
| SlotsHandler.DeletedIdIsNotListed | api/api/slots.js:64-71 | after a delete, the next GET lists exactly the previously stored slots whose id differs |
| SlotsHandler.LaterPublishedEarlierSlotListsFirst | api/slots.js:48-73 | publishing slot A and then a slot B scheduled before it, GET lists [B, A] |
| TopLevelApi.SlotStore.constructor | api/slots.js:6 | the in-process collection starts empty |
| TopLevelApi.SlotStore.HandleSlotsRequest | api/slots.js:46-96 | the slots handler's reply and the new stored collection are those of HandleSlots, with GET reordering the store only in memory mode; every error leaves the store unchanged |
| TopLevelApi.SlotStore.HandleReserveRequest | api/reserve.js:42-61 | the reserve handler's reply and new stored collection are those of ReserveEndpoint for the top-level copy. The store keeps `0 <= booked <= capacity` and `booked` equal to the number of attendees whenever it held them before |
| NestedApi.KvSlotStore.constructor | api/api/slots.js:10 | the KV key starts absent |
| NestedApi.KvSlotStore.HandleSlotsRequest | api/api/slots.js:28-75 | the reply is that of HandleSlots on the stored collection, with an absent key read as `[]`. GET writes nothing. A successful POST or DELETE stores the new collection, so a DELETE on an absent key stores `[]`. Errors write nothing |
| NestedApi.KvSlotStore.HandleReserveRequest | api/api/reserve.js:24-40 | the reply is that of ReserveEndpoint for the nested copy, with an absent key read as `[]`. Only a success writes. An absent key stays absent and never yields 200. The store stays within capacity |

## Left out

- Storage transport: the KV HTTP calls and the JSON encoding of the collection. Storage is a
  value that is read and replaced whole, and the model has no storage failure. In the
  top-level copy a failed KV read or write throws and ends in the 500 handler
  (api/slots.js:16,34; api/reserve.js:12,30). The nested copy never checks the KV reply: the
  response of its write is discarded, so a failed write still answers 200
  (api/api/slots.js:12-17,51,70; api/api/reserve.js:10-15,40), and a read whose reply has no
  `result` comes back as `[]` or `null` (api/api/slots.js:10; api/api/reserve.js:8), so a
  POST after such a read writes back a collection holding only the new slot. Neither
  failure path is modelled.
- Notifications: the broadcast on publish, the coach and client texts on reserve, and the
  swallowing of their errors. They do not affect the status or the collection.
- Date parsing and formatting (`new Date`, `toLocaleString`): `datetime` is an integer
  instant, and unparseable dates are not modelled.
- `Number(capacity)` coercion: capacity is an integer. A capacity given as the string "0"
  passes the truthiness check in JavaScript but is not representable in this model.
- Id generation (`uid()`, based on `Math.random` and `Date.now`): the id is a parameter,
  and its uniqueness is not assumed.
- Concurrency: the lost update when two handler calls interleave between their read and
  their write. The model runs one handler call at a time.
- In-place mutation of the slot object in reserve: the model replaces the record at its
  position instead. The outcome is the same, because the whole array is written back and
  no other reference to the object is used.
- api/health.js and api/sms.js: a storage diagnostic and a texting wrapper, with no
  decision logic.
- Response plumbing: message texts, the `Cache-Control` header, logging, and the 500
  catch-all.

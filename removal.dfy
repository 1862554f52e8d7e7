/** The DELETE branch of both slot endpoints: `slots.filter(s => s.id !== id)`. */
module SlotRemoval {
  import opened SlotModel

  /** The stored slots whose id is not `id`, in their stored order. */
  function RemoveId(slots: seq<Slot>, id: string): (r: seq<Slot>)
    ensures |r| <= |slots|
    ensures forall x :: x in r <==> x in slots && x.id != id
    ensures forall x :: multiset(r)[x] == if x.id == id then 0 else multiset(slots)[x]
  {
    if slots == [] then []
    else
      assert slots == [slots[0]] + slots[1..];
      (if slots[0].id == id then [] else [slots[0]]) + RemoveId(slots[1..], id)
  }

  /** The delete operation: 400 without an id, otherwise the filtered collection and 200,
      whether or not a slot had that id. */
  function Delete(slots: seq<Slot>, id: string): (o: Outcome)
    ensures id == "" ==> o == Outcome(BadRequest, slots)
    ensures id != "" ==> o == Outcome(Ok(Message), RemoveId(slots, id))
    ensures forall x :: x in o.slots <==> x in slots && (id == "" || x.id != id)
  {
    if id == "" then Outcome(BadRequest, slots)
    else Outcome(Ok(Message), RemoveId(slots, id))
  }

  /** The filter keeps the relative order: it distributes over concatenation. */
  lemma {:induction false} RemoveIdAppend(a: seq<Slot>, b: seq<Slot>, id: string)
    ensures RemoveId(a + b, id) == RemoveId(a, id) + RemoveId(b, id)
  {
    if a == [] {
      assert a + b == b;
    } else {
      var head := if a[0].id == id then [] else [a[0]];
      assert (a + b)[0] == a[0] && (a + b)[1..] == a[1..] + b;
      RemoveIdAppend(a[1..], b, id);
      assert RemoveId(a + b, id) == head + (RemoveId(a[1..], id) + RemoveId(b, id));
      ConcatAssoc(head, RemoveId(a[1..], id), RemoveId(b, id));
    }
  }

  /** A delete leaves the collection as it was exactly when no slot carries the id. */
  lemma {:induction false} RemoveIdUnchangedIff(slots: seq<Slot>, id: string)
    ensures RemoveId(slots, id) == slots <==> forall i :: 0 <= i < |slots| ==> slots[i].id != id
  {
    if forall i :: 0 <= i < |slots| ==> slots[i].id != id {
      RemoveIdOfAbsent(slots, id);
    } else {
      var i :| 0 <= i < |slots| && slots[i].id == id;
      assert slots[i] in slots && slots[i] !in RemoveId(slots, id);
    }
  }

  lemma {:induction false} RemoveIdOfAbsent(slots: seq<Slot>, id: string)
    requires forall i :: 0 <= i < |slots| ==> slots[i].id != id
    ensures RemoveId(slots, id) == slots
  {
    if slots != [] {
      assert slots[0].id != id;
      RemoveIdOfAbsent(slots[1..], id);
      assert slots == [slots[0]] + slots[1..];
    }
  }

  /** Deleting twice is deleting once. */
  lemma {:induction false} RemoveIdIdempotent(slots: seq<Slot>, id: string)
    ensures RemoveId(RemoveId(slots, id), id) == RemoveId(slots, id)
  {
    var r := RemoveId(slots, id);
    RemoveIdUnchangedIff(r, id);
    assert forall i :: 0 <= i < |r| ==> r[i] in r;
  }

  /** Two deletes of different ids give the same collection in either order. */
  lemma {:induction false} RemoveIdCommutes(slots: seq<Slot>, a: string, b: string)
    ensures RemoveId(RemoveId(slots, a), b) == RemoveId(RemoveId(slots, b), a)
  {
    if slots != [] {
      var x := slots[0];
      var ra := RemoveId(slots[1..], a);
      var rb := RemoveId(slots[1..], b);
      var ha := if x.id == a then [] else [x];
      var hb := if x.id == b then [] else [x];
      var both := if x.id == a || x.id == b then [] else [x];
      assert RemoveId(slots, a) == ha + ra && RemoveId(slots, b) == hb + rb;
      RemoveIdAppend(ha, ra, b);
      RemoveIdAppend(hb, rb, a);
      RemoveIdSingle(x, a);
      RemoveIdSingle(x, b);
      assert RemoveId(ha, b) == both && RemoveId(hb, a) == both;
      RemoveIdCommutes(slots[1..], a, b);
    }
  }

  lemma RemoveIdSingle(x: Slot, id: string)
    ensures RemoveId([x], id) == if x.id == id then [] else [x]
  {
    assert [x][1..] == [];
  }
}

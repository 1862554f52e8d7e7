/** The GET branch of both slot endpoints: the stored collection sorted ascending by
    `datetime` with `Array.prototype.sort`, which is stable. */
module SlotListing {
  import opened SlotModel

  predicate SortedByDatetime(slots: seq<Slot>) {
    forall i, j :: 0 <= i < j < |slots| ==> slots[i].datetime <= slots[j].datetime
  }

  /** The slots scheduled at instant `d`, in the order they appear. */
  function AtInstant(slots: seq<Slot>, d: int): (r: seq<Slot>)
    ensures forall x :: x in r ==> x in slots && x.datetime == d
  {
    if slots == [] then []
    else (if slots[0].datetime == d then [slots[0]] else []) + AtInstant(slots[1..], d)
  }

  /** Puts `s` into `sorted` after every slot that is not later than it. */
  function InsertByDatetime(sorted: seq<Slot>, s: Slot): (r: seq<Slot>)
    ensures multiset(r) == multiset(sorted) + multiset{s}
    ensures r[0] == s || (sorted != [] && r[0] == sorted[0])
  {
    if sorted == [] then [s]
    else if s.datetime < sorted[0].datetime then [s] + sorted
    else
      assert sorted == [sorted[0]] + sorted[1..];
      [sorted[0]] + InsertByDatetime(sorted[1..], s)
  }

  /** Inserting into a sorted collection keeps it sorted. */
  lemma {:induction false} InsertKeepsSorted(sorted: seq<Slot>, s: Slot)
    requires SortedByDatetime(sorted)
    ensures SortedByDatetime(InsertByDatetime(sorted, s))
  {
    if sorted != [] && s.datetime >= sorted[0].datetime {
      SortedTail(sorted);
      var rest := InsertByDatetime(sorted[1..], s);
      InsertKeepsSorted(sorted[1..], s);
      assert InsertByDatetime(sorted, s) == [sorted[0]] + rest;
      ConsSorted(sorted[0], rest);
    }
  }

  /** A slot not later than the first of a sorted collection can go in front of it. */
  lemma ConsSorted(a: Slot, rest: seq<Slot>)
    requires SortedByDatetime(rest) && rest != [] && a.datetime <= rest[0].datetime
    ensures SortedByDatetime([a] + rest)
  {
    var r := [a] + rest;
    forall i, j | 0 <= i < j < |r| ensures r[i].datetime <= r[j].datetime {
      assert r[j] == rest[j - 1];
      if i > 0 {
        assert r[i] == rest[i - 1];
      } else {
        assert rest[0].datetime <= rest[j - 1].datetime;
      }
    }
  }

  /** `slots.sort((a, b) => a.datetime - b.datetime)`: a stable sort, here an insertion
      sort that inserts each slot after the earlier ones with the same instant. */
  function SortByDatetime(slots: seq<Slot>): (r: seq<Slot>)
    ensures SortedByDatetime(r)
    ensures multiset(r) == multiset(slots)
  {
    if slots == [] then []
    else
      var n := |slots| - 1;
      assert slots == slots[..n] + [slots[n]];
      var sorted := SortByDatetime(slots[..n]);
      InsertKeepsSorted(sorted, slots[n]);
      InsertByDatetime(sorted, slots[n])
  }

  lemma {:induction false} AtInstantAppend(a: seq<Slot>, b: seq<Slot>, d: int)
    ensures AtInstant(a + b, d) == AtInstant(a, d) + AtInstant(b, d)
  {
    if a == [] {
      assert a + b == b;
    } else {
      var head := if a[0].datetime == d then [a[0]] else [];
      assert (a + b)[0] == a[0] && (a + b)[1..] == a[1..] + b;
      AtInstantAppend(a[1..], b, d);
      assert AtInstant(a + b, d) == head + (AtInstant(a[1..], d) + AtInstant(b, d));
      ConcatAssoc(head, AtInstant(a[1..], d), AtInstant(b, d));
    }
  }

  lemma {:induction false} AtInstantNone(slots: seq<Slot>, d: int)
    requires forall i :: 0 <= i < |slots| ==> slots[i].datetime != d
    ensures AtInstant(slots, d) == []
  {
    if slots != [] {
      AtInstantNone(slots[1..], d);
    }
  }

  lemma SortedTail(sorted: seq<Slot>)
    requires SortedByDatetime(sorted) && sorted != []
    ensures SortedByDatetime(sorted[1..])
    ensures forall i :: 0 <= i < |sorted| ==> sorted[0].datetime <= sorted[i].datetime
  {
    var tail := sorted[1..];
    forall i, j | 0 <= i < j < |tail| ensures tail[i].datetime <= tail[j].datetime {
      assert tail[i] == sorted[i + 1] && tail[j] == sorted[j + 1];
    }
  }

  /** Inserting `s` adds it after the slots already at its instant and changes no other instant. */
  lemma {:induction false} InsertAtInstant(sorted: seq<Slot>, s: Slot, d: int)
    requires SortedByDatetime(sorted)
    ensures AtInstant(InsertByDatetime(sorted, s), d)
         == AtInstant(sorted, d) + (if s.datetime == d then [s] else [])
  {
    var mine := if s.datetime == d then [s] else [];
    if sorted == [] {
      assert AtInstant([s], d) == mine + AtInstant([s][1..], d);
    } else {
      SortedTail(sorted);
      if s.datetime < sorted[0].datetime {
        InsertFirstAtInstant(sorted, s, d);
      } else {
        InsertAtInstant(sorted[1..], s, d);
        InsertLaterAtInstant(sorted, s, d);
      }
    }
  }

  lemma InsertLaterAtInstant(sorted: seq<Slot>, s: Slot, d: int)
    requires sorted != [] && s.datetime >= sorted[0].datetime
    requires AtInstant(InsertByDatetime(sorted[1..], s), d)
          == AtInstant(sorted[1..], d) + (if s.datetime == d then [s] else [])
    ensures AtInstant(InsertByDatetime(sorted, s), d)
         == AtInstant(sorted, d) + (if s.datetime == d then [s] else [])
  {
    var head := if sorted[0].datetime == d then [sorted[0]] else [];
    var mine := if s.datetime == d then [s] else [];
    var rest := InsertByDatetime(sorted[1..], s);
    var earlier := AtInstant(sorted[1..], d);
    assert InsertByDatetime(sorted, s) == [sorted[0]] + rest;
    assert ([sorted[0]] + rest)[1..] == rest;
    assert AtInstant([sorted[0]] + rest, d) == head + (earlier + mine);
    assert AtInstant(sorted, d) == head + earlier;
    ConcatAssoc(head, earlier, mine);
  }

  lemma InsertFirstAtInstant(sorted: seq<Slot>, s: Slot, d: int)
    requires sorted != [] && s.datetime < sorted[0].datetime
    requires forall i :: 0 <= i < |sorted| ==> sorted[0].datetime <= sorted[i].datetime
    ensures AtInstant([s] + sorted, d) == AtInstant(sorted, d) + (if s.datetime == d then [s] else [])
  {
    assert ([s] + sorted)[1..] == sorted;
    if s.datetime == d {
      AtInstantNone(sorted, d);
    }
  }

  lemma AtInstantSingle(x: Slot, d: int)
    ensures AtInstant([x], d) == if x.datetime == d then [x] else []
  {
    assert [x][1..] == [];
  }

  /** Stability: the slots that share an instant keep their stored order in the listing. */
  lemma {:induction false} SortIsStable(slots: seq<Slot>, d: int)
    ensures AtInstant(SortByDatetime(slots), d) == AtInstant(slots, d)
  {
    if slots != [] {
      var n := |slots| - 1;
      var prefix, last := slots[..n], slots[n];
      var mine := if last.datetime == d then [last] else [];
      assert slots == prefix + [last];
      SortIsStable(prefix, d);
      assert SortByDatetime(slots) == InsertByDatetime(SortByDatetime(prefix), last);
      InsertAtInstant(SortByDatetime(prefix), last, d);
      AtInstantAppend(prefix, [last], d);
      AtInstantSingle(last, d);
      assert AtInstant(SortByDatetime(slots), d) == AtInstant(prefix, d) + mine;
    }
  }

  /** A slot no earlier than every sorted slot goes at the end. */
  lemma {:induction false} InsertLatest(sorted: seq<Slot>, s: Slot)
    requires forall i :: 0 <= i < |sorted| ==> sorted[i].datetime <= s.datetime
    ensures InsertByDatetime(sorted, s) == sorted + [s]
  {
    if sorted != [] {
      InsertLatest(sorted[1..], s);
      assert sorted == [sorted[0]] + sorted[1..];
    }
  }

  /** Sorting an already sorted collection leaves it as it is, so listing twice gives
      the same sequence. */
  lemma {:induction false} SortKeepsSorted(slots: seq<Slot>)
    requires SortedByDatetime(slots)
    ensures SortByDatetime(slots) == slots
  {
    if slots != [] {
      var n := |slots| - 1;
      assert slots == slots[..n] + [slots[n]];
      SortKeepsSorted(slots[..n]);
      InsertLatest(slots[..n], slots[n]);
    }
  }

  /** Sorting twice is sorting once. */
  lemma SortIdempotent(slots: seq<Slot>)
    ensures SortByDatetime(SortByDatetime(slots)) == SortByDatetime(slots)
  {
    SortKeepsSorted(SortByDatetime(slots));
  }
}

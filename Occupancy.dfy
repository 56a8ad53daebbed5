/** The cross-collection invariant the coordinator maintains: every
    reservation holds exactly one room of the hotel it names, so a hotel's
    occupied count (total minus available) equals the number of
    reservations that name it. The coordinator's create and cancel keep it;
    deleting a hotel that still has reservations breaks it, because the
    source neither cascades nor forbids that delete. */
module Occupancy {
  import opened Collections
  import opened Hotels
  import opened Reservations

  /** The reservation object names hotel `hid`. */
  predicate Names(e: Entry, hid: Value) {
    e.Dict? && Get(e.fields, HotelIdKey) == hid
  }

  /** Number of reservation objects that name hotel `hid`. */
  function CountFor(es: seq<Entry>, hid: Value): nat
    decreases |es|
  {
    if es == [] then 0 else (if Names(es[0], hid) then 1 else 0) + CountFor(es[1..], hid)
  }

  /** No two objects share an id. */
  predicate UniqueIds(es: seq<Entry>) {
    forall i, j :: 0 <= i < j < |es| && es[i].Dict? && es[j].Dict? ==>
      Get(es[i].fields, IdKey) != Get(es[j].fields, IdKey)
  }

  /** Each hotel's occupied count is the number of reservations naming it. */
  ghost predicate Balanced(hotels: FileState, reservations: FileState) {
    forall hid :: OccupiedIn(hotels, hid) == CountFor(LoadLenient(reservations), hid)
  }

  /** The ledger invariant: consistent room counters, reservations under
      distinct numeric ids, and rooms balanced against reservations. */
  ghost predicate LedgerValid(hotels: FileState, reservations: FileState) {
    && AllConsistent(hotels)
    && IdsNumeric(LoadLenient(reservations))
    && UniqueIds(LoadLenient(reservations))
    && Balanced(hotels, reservations)
  }

  // ---------------------------------------------------------------------
  // Counting

  lemma {:induction false} CountForAppend(a: seq<Entry>, b: seq<Entry>, hid: Value)
    ensures CountFor(a + b, hid) == CountFor(a, hid) + CountFor(b, hid)
    decreases |a|
  {
    if a == [] {
      assert a + b == b;
    } else {
      assert (a + b)[1..] == a[1..] + b;
      CountForAppend(a[1..], b, hid);
    }
  }

  /** Filtering out an id no object carries drops only non-objects, which
      name no hotel. */
  lemma {:induction false} CountForFilterNoMatch(es: seq<Entry>, key: Value, hid: Value)
    requires forall i :: 0 <= i < |es| ==> !Matches(es[i], key)
    ensures CountFor(FilterOutId(es, key), hid) == CountFor(es, hid)
    decreases |es|
  {
    if es != [] {
      assert forall i :: 0 <= i < |es[1..]| ==> es[1..][i] == es[i + 1];
      CountForFilterNoMatch(es[1..], key, hid);
      var tail := FilterOutId(es[1..], key);
      if Kept(es[0], key) {
        assert FilterOutId(es, key) == [es[0]] + tail;
        assert ([es[0]] + tail)[0] == es[0];
        assert ([es[0]] + tail)[1..] == tail;
        assert CountFor([es[0]] + tail, hid) == (if Names(es[0], hid) then 1 else 0) + CountFor(tail, hid);
      } else {
        assert FilterOutId(es, key) == tail;
        assert !Names(es[0], hid);
      }
    }
  }

  /** Filtering keeps ids distinct. */
  lemma {:induction false} FilterKeepsUniqueIds(es: seq<Entry>, key: Value)
    requires UniqueIds(es)
    ensures UniqueIds(FilterOutId(es, key))
    decreases |es|
  {
    if es != [] {
      var rest := es[1..];
      assert forall i :: 0 <= i < |rest| ==> rest[i] == es[i + 1];
      FilterKeepsUniqueIds(rest, key);
      var tail := FilterOutId(rest, key);
      if Kept(es[0], key) {
        var r := [es[0]] + tail;
        assert FilterOutId(es, key) == r;
        forall i, j | 0 <= i < j < |r| && r[i].Dict? && r[j].Dict?
          ensures Get(r[i].fields, IdKey) != Get(r[j].fields, IdKey)
        {
          if i == 0 {
            assert r[j] == tail[j - 1];
            assert r[j] in rest;
            var k :| 0 <= k < |rest| && rest[k] == r[j];
            assert es[k + 1] == r[j];
          } else {
            assert r[i] == tail[i - 1] && r[j] == tail[j - 1];
          }
        }
      }
    }
  }

  /** Filtering keeps ids numeric. */
  lemma FilterKeepsIdsNumeric(es: seq<Entry>, key: Value)
    requires IdsNumeric(es)
    ensures IdsNumeric(FilterOutId(es, key))
  {
    var r := FilterOutId(es, key);
    forall i | 0 <= i < |r|
      ensures NumericId(r[i])
    {
      assert r[i] in es;
    }
  }

  // ---------------------------------------------------------------------
  // The coordinator keeps the ledger invariant

  /** An empty store satisfies the invariant. */
  lemma EmptyLedgerIsValid()
    ensures LedgerValid(Missing, Missing)
  {
    forall hid
      ensures OccupiedIn(Missing, hid) == CountFor(LoadLenient(Missing), hid)
    {
    }
  }

  /** A hotel `create` with a non-negative room count keeps the ledger
      invariant when the hotel ids are numeric: the new hotel is found under
      its id with every room available, and every other lookup is unchanged. */
  lemma HotelCreateKeepsLedger(hotels: FileState, reservations: FileState,
                               nombre: string, estado: string, habitaciones: int)
    requires LedgerValid(hotels, reservations)
    requires IdsNumeric(LoadLenient(hotels))
    requires habitaciones >= 0
    ensures var g := AppendNew(hotels, HotelFields(nombre, estado, habitaciones, habitaciones));
      var newId := Int(NextId(LoadLenient(hotels)));
      && LedgerValid(g, reservations)
      && AvailableIn(g, newId) == habitaciones
      && OccupiedIn(g, newId) == 0
  {
    var es := LoadLenient(hotels);
    var newId := Int(NextId(es));
    var x := Dict(HotelFields(nombre, estado, habitaciones, habitaciones)[IdKey := newId]);
    var g := AppendNew(hotels, HotelFields(nombre, estado, habitaciones, habitaciones));
    assert g == Entries(es + [x]);
    NewHotelIsFound(es, x, newId);
    assert Lookup(hotels, newId) == map[];
    assert AllConsistent(g) by {
      assert RoomsConsistent(x);
      assert forall i :: 0 <= i < |es| ==> (es + [x])[i] == es[i];
    }
    forall hid | hid != newId
      ensures OccupiedIn(g, hid) == OccupiedIn(hotels, hid)
    {
      LookupAfterAppendOther(hotels, x, hid);
    }
  }

  /** An object appended under an id no earlier object carries is what a
      lookup of that id finds. */
  lemma NewHotelIsFound(es: seq<Entry>, x: Entry, newId: Value)
    requires IdsNumeric(es)
    requires newId == Int(NextId(es))
    requires x.Dict? && Get(x.fields, IdKey) == newId
    ensures Lookup(Entries(es + [x]), newId) == x.fields
    ensures Lookup(Entries(es), newId) == map[]
  {
    NextIdIsFresh(es);
    FirstMatchIsAppended(es, x.fields, newId);
  }

  /** Appending an object under the next id keeps ids numeric and distinct. */
  lemma AppendFreshKeepsIds(es: seq<Entry>, fields: Record)
    requires IdsNumeric(es) && UniqueIds(es)
    requires Get(fields, IdKey) == Int(NextId(es))
    ensures IdsNumeric(es + [Dict(fields)]) && UniqueIds(es + [Dict(fields)])
  {
    var es' := es + [Dict(fields)];
    NextIdIsFresh(es);
    assert forall i :: 0 <= i < |es| ==> es'[i] == es[i];
    assert forall i :: 0 <= i < |es| ==> !Matches(es[i], Get(fields, IdKey));
  }

  /** A reservation `create` keeps the ledger invariant: on success the
      hotel's occupied count and its reservation count both grow by one. */
  lemma CreateKeepsLedger(customers: FileState, hotels: FileState, reservations: FileState,
                          customerId: Value, hotelId: Value)
    requires LedgerValid(hotels, reservations)
    ensures var e := CreateSpec(customers, hotels, reservations, customerId, hotelId);
      LedgerValid(e.hotels, e.reservations)
    ensures var e := CreateSpec(customers, hotels, reservations, customerId, hotelId);
      e.outcome.Success? ==>
        && OccupiedIn(e.hotels, hotelId) == OccupiedIn(hotels, hotelId) + 1
        && CountFor(LoadLenient(e.reservations), hotelId) == CountFor(LoadLenient(reservations), hotelId) + 1
  {
    var e := CreateSpec(customers, hotels, reservations, customerId, hotelId);
    if e.outcome.Success? {
      var es := LoadLenient(reservations);
      var fields := ReservationFields(customerId, hotelId)[IdKey := Int(NextId(es))];
      var es' := es + [Dict(fields)];
      assert e.reservations == Entries(es');
      assert LoadLenient(e.reservations) == es';
      ReservePreservesConsistency(hotels, hotelId);
      ReserveRoomEffect(hotels, hotelId);
      AppendFreshKeepsIds(es, fields);
      forall hid
        ensures OccupiedIn(e.hotels, hid) == CountFor(es', hid)
      {
        CountForAppend(es, [Dict(fields)], hid);
        assert OccupiedIn(hotels, hid) == CountFor(es, hid);
        if hid != hotelId {
          assert Lookup(e.hotels, hid) == Lookup(hotels, hid);
        }
      }
      CountForAppend(es, [Dict(fields)], hotelId);
      assert CountFor([Dict(fields)], hotelId) == 1 by {
        assert Names(Dict(fields), hotelId);
        assert [Dict(fields)][1..] == [];
      }
    }
  }

  /** With distinct ids, the first object with id `key` is the only one. */
  lemma OnlyMatch(es: seq<Entry>, key: Value, i: nat)
    requires UniqueIds(es)
    requires FindFirst(es, key) == Some(i)
    ensures forall j :: 0 <= j < |es| && j != i ==> !Matches(es[j], key)
  {
  }

  /** Filtering out the id of `x` removes `x` itself. */
  lemma {:induction false} FilterAroundMatch(before: seq<Entry>, x: Entry, after: seq<Entry>, key: Value)
    requires Matches(x, key)
    ensures FilterOutId(before + [x] + after, key) == FilterOutId(before, key) + FilterOutId(after, key)
  {
    FilterOutIdAppend(before + [x], after, key);
    FilterOutIdAppend(before, [x], key);
    assert FilterOutId([x], key) == [] by {
      assert [x][1..] == [];
    }
  }

  /** Filtering out the id of `x`, which nothing around it carries, removes
      exactly `x`, so only the hotel `x` names loses one reservation. */
  lemma CountAroundOnlyMatch(before: seq<Entry>, x: Entry, after: seq<Entry>, key: Value, hid: Value)
    requires forall j :: 0 <= j < |before| ==> !Matches(before[j], key)
    requires forall j :: 0 <= j < |after| ==> !Matches(after[j], key)
    requires Matches(x, key)
    ensures CountFor(FilterOutId(before + [x] + after, key), hid)
         == CountFor(before + [x] + after, hid) - (if Names(x, hid) then 1 else 0)
  {
    FilterAroundMatch(before, x, after, key);
    var fb, fa := FilterOutId(before, key), FilterOutId(after, key);
    CountForAppend(fb, fa, hid);
    CountForFilterNoMatch(before, key, hid);
    CountForFilterNoMatch(after, key, hid);
    CountForAppend(before + [x], after, hid);
    CountForAppend(before, [x], hid);
    assert CountFor([x], hid) == if Names(x, hid) then 1 else 0 by {
      assert [x][1..] == [];
    }
  }

  /** Removing the only object with id `key` lowers the count of the hotel
      it names by one and leaves every other count alone. */
  lemma CountAfterRemovingUniqueMatch(es: seq<Entry>, key: Value, i: nat, hid: Value)
    requires UniqueIds(es)
    requires FindFirst(es, key) == Some(i)
    ensures CountFor(FilterOutId(es, key), hid) == CountFor(es, hid) - (if Names(es[i], hid) then 1 else 0)
  {
    OnlyMatch(es, key, i);
    var before, after := es[..i], es[i + 1..];
    assert forall j :: 0 <= j < |after| ==> after[j] == es[i + 1 + j];
    assert es == before + [es[i]] + after;
    CountAroundOnlyMatch(before, es[i], after, key, hid);
  }

  /** A reservation `cancel` keeps the ledger invariant: on success the
      hotel's occupied count and its reservation count both shrink by one. */
  lemma CancelKeepsLedger(hotels: FileState, reservations: FileState, key: Value)
    requires LedgerValid(hotels, reservations)
    ensures var e := CancelSpec(hotels, reservations, key);
      LedgerValid(e.hotels, e.reservations)
    ensures var e := CancelSpec(hotels, reservations, key);
      e.outcome.Success? ==>
        var hotelId := Lookup(reservations, key)[HotelIdKey];
        && OccupiedIn(e.hotels, hotelId) == OccupiedIn(hotels, hotelId) - 1
        && CountFor(LoadLenient(e.reservations), hotelId) == CountFor(LoadLenient(reservations), hotelId) - 1
  {
    var e := CancelSpec(hotels, reservations, key);
    if e.outcome.Success? {
      var es := reservations.entries;
      var i := FindFirst(es, key).value;
      var hotelId := es[i].fields[HotelIdKey];
      assert e.hotels == CancelReservationSpec(hotels, hotelId).file;
      CancelPreservesConsistency(hotels, hotelId);
      CancelReservationEffect(hotels, hotelId);
      var kept := FilterOutId(es, key);
      assert LoadLenient(e.reservations) == kept;
      FilterKeepsIdsNumeric(es, key);
      FilterKeepsUniqueIds(es, key);
      forall hid
        ensures OccupiedIn(e.hotels, hid) == CountFor(kept, hid)
      {
        CountAfterRemovingUniqueMatch(es, key, i, hid);
        assert OccupiedIn(hotels, hid) == CountFor(es, hid);
        if hid != hotelId {
          assert Lookup(e.hotels, hid) == Lookup(hotels, hid);
        }
      }
      CountAfterRemovingUniqueMatch(es, key, i, hotelId);
      assert Names(es[i], hotelId);
    }
  }

  /** Under the invariant, cancelling a recorded reservation (an object with
      its hotel and customer ids) always succeeds: its hotel has a room out. */
  lemma RecordedReservationCancels(hotels: FileState, reservations: FileState, key: Value)
    requires LedgerValid(hotels, reservations)
    requires Found(reservations, key)
    requires var found := Lookup(reservations, key);
      found != map[] && HotelIdKey in found && CustomerIdKey in found
    ensures CancelSpec(hotels, reservations, key).outcome.Success?
  {
    var es := reservations.entries;
    var i := FindFirst(es, key).value;
    var hotelId := es[i].fields[HotelIdKey];
    assert CountFor(es, hotelId) > 0 by {
      CountForAppend(es[..i], es[i..], hotelId);
      assert es == es[..i] + es[i..];
      assert es[i..][0] == es[i];
    }
    assert OccupiedIn(hotels, hotelId) > 0;
    LookupIsFirstMatch(hotels, hotelId);
    CancelReservationEffect(hotels, hotelId);
    if Found(hotels, hotelId) {
      assert RoomsConsistent(hotels.entries[FindFirst(hotels.entries, hotelId).value]);
    }
  }

  /** Deleting a hotel that still has a reservation leaves that reservation
      orphaned and the invariant broken. */
  lemma DeleteHotelCanOrphanReservation()
    ensures var h := Dict(map[IdKey := Int(1)] + HotelFields("H", "S", 1, 0));
      var r := Dict(map[IdKey := Int(1)] + ReservationFields(Int(1), Int(1)));
      && LedgerValid(Entries([h]), Entries([r]))
      && DeleteById(Entries([h]), Int(1)) == Step(Success, Entries([]))
      && !LedgerValid(Entries([]), Entries([r]))
  {
    var h := Dict(map[IdKey := Int(1)] + HotelFields("H", "S", 1, 0));
    var r := Dict(map[IdKey := Int(1)] + ReservationFields(Int(1), Int(1)));
    assert FindFirst([h], Int(1)) == Some(0) by { assert Matches(h, Int(1)); }
    assert Lookup(Entries([h]), Int(1)) == h.fields;
    forall hid
      ensures OccupiedIn(Entries([h]), hid) == CountFor([r], hid)
    {
      assert [r][1..] == [];
      if hid != Int(1) {
        assert !Matches(h, hid);
        assert FindFirst([h], hid).None?;
      }
    }
    assert FilterOutId([h], Int(1)) == [] by { assert [h][1..] == []; }
    assert CountFor([r], Int(1)) == 1 by { assert [r][1..] == []; }
    assert OccupiedIn(Entries([]), Int(1)) == 0;
  }
}

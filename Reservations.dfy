/** The reservation coordinator: a reservation links a customer to a hotel
    and holds one of the hotel's rooms. Creating one checks the customer,
    then the hotel, then takes a room, and only then appends the record;
    cancelling one gives the room back before removing the record. */
module Reservations {
  import opened Collections
  import opened Hotels
  import opened Customers

  const CustomerIdKey: string := "customer_id"
  const HotelIdKey: string := "hotel_id"

  /** The object a reservation `create` appends, before the id is added. */
  function ReservationFields(customerId: Value, hotelId: Value): Record {
    map[CustomerIdKey := customerId, HotelIdKey := hotelId]
  }

  /** The outcome of a coordinator operation with the two files it may write. */
  datatype Effect = Effect(outcome: Outcome, hotels: FileState, reservations: FileState)

  /** `Reservation.create`: look up the customer, then the hotel (a `{}`
      answer stops it), reserve a room (its failure or exception stops it),
      and append `{id, customer_id, hotel_id}` under the next id. */
  function CreateSpec(customers: FileState, hotels: FileState, reservations: FileState,
                      customerId: Value, hotelId: Value): Effect
  {
    if Lookup(customers, customerId) == map[] then Effect(Failure, hotels, reservations)
    else if Lookup(hotels, hotelId) == map[] then Effect(Failure, hotels, reservations)
    else
      var s := ReserveRoomSpec(hotels, hotelId);
      if !s.outcome.Success? then Effect(s.outcome, hotels, reservations)
      else Effect(Success, s.file, AppendNew(reservations, ReservationFields(customerId, hotelId)))
  }

  /** `Reservation.cancel`: find the first reservation with id `key` (a
      missing or empty one stops it), read its hotel and customer ids (a
      missing one raises KeyError), give the room back (its failure or
      exception stops it), and only then drop every reservation with that id. */
  function CancelSpec(hotels: FileState, reservations: FileState, key: Value): Effect {
    match LoadStrict(reservations)
    case None => Effect(Failure, hotels, reservations)
    case Some(es) =>
      match FindFirst(es, key)
      case None => Effect(Failure, hotels, reservations)
      case Some(i) =>
        var found := es[i].fields;
        if found == map[] then Effect(Failure, hotels, reservations)
        else if HotelIdKey !in found || CustomerIdKey !in found then Effect(Raised(KeyError), hotels, reservations)
        else
          var s := CancelReservationSpec(hotels, found[HotelIdKey]);
          if !s.outcome.Success? then Effect(s.outcome, hotels, reservations)
          else Effect(Success, s.file, Entries(FilterOutId(es, key)))
  }

  // ---------------------------------------------------------------------
  // Load policy

  /** A file that is missing, blank, not JSON or not a list is read as an
      empty list by every `create`, which then writes a one-object list with
      id 1; every other operation fails on it and writes nothing. */
  lemma UnreadableFilePolicy(f: FileState, other: FileState, key: Value, fields: Record,
                             nombre: Option<string>, estado: Option<string>, habitaciones: Option<int>,
                             email: Option<string>, telefono: Option<string>)
    requires !f.Entries?
    ensures AppendNew(f, fields) == Entries([Dict(fields[IdKey := Int(1)])])
    ensures Lookup(f, key) == map[]
    ensures DeleteById(f, key) == Step(Failure, f)
    ensures Hotels.ModifySpec(f, key, nombre, estado, habitaciones) == Step(Failure, f)
    ensures Customers.ModifySpec(f, key, nombre, email, telefono) == Step(Failure, f)
    ensures ReserveRoomSpec(f, key) == Step(Failure, f)
    ensures CancelReservationSpec(f, key) == Step(Failure, f)
    ensures CancelSpec(other, f, key) == Effect(Failure, other, f)
  {
    assert !HasDict([]);
  }

  // ---------------------------------------------------------------------
  // Properties of create

  /** A missing customer stops a create before anything is written; so does
      a missing hotel; so does a hotel whose available count is zero or
      negative, which leaves both files
      as they were. */
  lemma CreateFailsWithoutAnyWrite(customers: FileState, hotels: FileState, reservations: FileState,
                                   customerId: Value, hotelId: Value)
    ensures !Found(customers, customerId) ==>
      CreateSpec(customers, hotels, reservations, customerId, hotelId) == Effect(Failure, hotels, reservations)
    ensures !Found(hotels, hotelId) ==>
      CreateSpec(customers, hotels, reservations, customerId, hotelId) == Effect(Failure, hotels, reservations)
    ensures (exists a :: GetInt(Lookup(hotels, hotelId), Disponibles) == Some(a) && a <= 0) ==>
      CreateSpec(customers, hotels, reservations, customerId, hotelId) == Effect(Failure, hotels, reservations)
  {
    LookupIsFirstMatch(customers, customerId);
    LookupIsFirstMatch(hotels, hotelId);
    ReserveRoomEffect(hotels, hotelId);
  }

  /** A create succeeds exactly when the customer and the hotel are found
      (as non-empty objects) and the hotel has a room; then the hotels file
      is what the reservation wrote (that hotel has one room fewer, every
      other lookup is unchanged), and the reservations file is the old list
      (an unreadable file counting as empty) with `{id, customer_id,
      hotel_id}` appended under an id no earlier reservation carries when
      the ids are numeric. */
  lemma CreateEffect(customers: FileState, hotels: FileState, reservations: FileState,
                     customerId: Value, hotelId: Value)
    ensures var e := CreateSpec(customers, hotels, reservations, customerId, hotelId);
      && (e.outcome.Success? <==>
          && Lookup(customers, customerId) != map[]
          && Lookup(hotels, hotelId) != map[]
          && exists a :: GetInt(Lookup(hotels, hotelId), Disponibles) == Some(a) && a > 0)
      && (e.outcome.Success? ==>
          var es := LoadLenient(reservations);
          var newId := NextId(es);
          && e.hotels == ReserveRoomSpec(hotels, hotelId).file
          && AvailableIn(e.hotels, hotelId) == AvailableIn(hotels, hotelId) - 1
          && (forall other :: other != hotelId ==> Lookup(e.hotels, other) == Lookup(hotels, other))
          && e.reservations == Entries(es + [Dict(map[IdKey := Int(newId), CustomerIdKey := customerId, HotelIdKey := hotelId])])
          && (IdsNumeric(es) ==> forall i :: 0 <= i < |es| ==> !Matches(es[i], Int(newId))))
      && (!e.outcome.Success? ==> e.hotels == hotels && e.reservations == reservations)
  {
    var e := CreateSpec(customers, hotels, reservations, customerId, hotelId);
    LookupIsFirstMatch(hotels, hotelId);
    ReserveRoomEffect(hotels, hotelId);
    var es := LoadLenient(reservations);
    if IdsNumeric(es) {
      NextIdIsFresh(es);
    }
    assert ReservationFields(customerId, hotelId)[IdKey := Int(NextId(es))]
        == map[IdKey := Int(NextId(es)), CustomerIdKey := customerId, HotelIdKey := hotelId];
  }

  // ---------------------------------------------------------------------
  // Properties of cancel

  /** A cancel succeeds exactly when the first reservation with that id is
      a non-empty object holding both ids and its hotel gives a room back.
      With no such reservation it fails and writes nothing; when the hotel
      refuses to give a room back, the reservation stays; on success the
      hotel named by the first such reservation regains exactly one room,
      every other hotel lookup is unchanged, and no reservation with that id
      remains. */
  lemma CancelEffect(hotels: FileState, reservations: FileState, key: Value)
    ensures var e := CancelSpec(hotels, reservations, key);
      && (!Found(reservations, key) ==> e == Effect(Failure, hotels, reservations))
      && (e.outcome.Success? <==>
          var found := Lookup(reservations, key);
          && Found(reservations, key) && found != map[]
          && HotelIdKey in found && CustomerIdKey in found
          && CancelReservationSpec(hotels, found[HotelIdKey]).outcome.Success?)
      && (!e.outcome.Success? ==> e.hotels == hotels && e.reservations == reservations)
      && (e.outcome.Success? ==>
          var found := Lookup(reservations, key);
          && Found(reservations, key)
          && HotelIdKey in found && CustomerIdKey in found
          && CancelReservationSpec(hotels, found[HotelIdKey]).outcome.Success?
          && e.hotels == CancelReservationSpec(hotels, found[HotelIdKey]).file
          && AvailableIn(e.hotels, found[HotelIdKey]) == AvailableIn(hotels, found[HotelIdKey]) + 1
          && (forall other :: other != found[HotelIdKey] ==> Lookup(e.hotels, other) == Lookup(hotels, other))
          && e.reservations == Entries(FilterOutId(reservations.entries, key))
          && !Found(e.reservations, key))
  {
    var e := CancelSpec(hotels, reservations, key);
    if e.outcome.Success? {
      var found := Lookup(reservations, key);
      CancelReservationEffect(hotels, found[HotelIdKey]);
      var kept := FilterOutId(reservations.entries, key);
      assert forall j :: 0 <= j < |kept| ==> kept[j] in kept;
    }
  }

  /** A successful create followed by a cancel of the reservation it made
      restores both files exactly, when the hotels keep 0 <= available <=
      total and the reservations file is a list of objects with numeric ids. */
  lemma CreateThenCancelRestores(customers: FileState, hotels: FileState, reservations: FileState,
                                 customerId: Value, hotelId: Value)
    requires AllConsistent(hotels)
    requires reservations.Entries? && IdsNumeric(reservations.entries)
    requires forall i :: 0 <= i < |reservations.entries| ==> reservations.entries[i].Dict?
    requires CreateSpec(customers, hotels, reservations, customerId, hotelId).outcome.Success?
    ensures var e := CreateSpec(customers, hotels, reservations, customerId, hotelId);
      var newId := Int(NextId(reservations.entries));
      CancelSpec(e.hotels, e.reservations, newId) == Effect(Success, hotels, reservations)
  {
    var e := CreateSpec(customers, hotels, reservations, customerId, hotelId);
    var es := reservations.entries;
    var newId := Int(NextId(es));
    var fields := ReservationFields(customerId, hotelId)[IdKey := newId];
    var es' := es + [Dict(fields)];
    var s := ReserveRoomSpec(hotels, hotelId);
    assert e == Effect(Success, s.file, Entries(es'));
    NextIdIsFresh(es);
    FirstMatchIsAppended(es, fields, newId);
    assert fields != map[] && fields[HotelIdKey] == hotelId && CustomerIdKey in fields;
    // Giving the room back undoes taking it.
    ReserveThenCancelRestores(hotels, hotelId);
    assert CancelReservationSpec(s.file, hotelId) == Step(Success, hotels);
    // Removing the new reservation leaves the earlier list.
    FilterOutIdAppend(es, [Dict(fields)], newId);
    assert FilterOutId([Dict(fields)], newId) == [];
    FilterOutIdUnchanged(es, newId);
    assert FilterOutId(es', newId) == es;
  }

  /** An object appended after a list with no match is the list's first match. */
  lemma FirstMatchIsAppended(es: seq<Entry>, fields: Record, key: Value)
    requires forall i :: 0 <= i < |es| ==> !Matches(es[i], key)
    requires Get(fields, IdKey) == key
    ensures FindFirst(es + [Dict(fields)], key) == Some(|es|)
  {
    var es' := es + [Dict(fields)];
    assert Matches(es'[|es|], key);
    assert forall i :: 0 <= i < |es| ==> es'[i] == es[i];
  }

  // ---------------------------------------------------------------------
  // The reservation object

  /** A reservation as the program holds it: the customer and hotel it
      links, and the id it looks itself up by (`Null` until `Create`). */
  class Reservation {
    var id: Value
    var customerId: Value
    var hotelId: Value

    constructor (customerId: Value, hotelId: Value, id: Value)
      ensures this.id == id && this.customerId == customerId && this.hotelId == hotelId
    {
      this.id := id;
      this.customerId := customerId;
      this.hotelId := hotelId;
    }

    /** Checks the customer, then the hotel, takes a room and appends this
        reservation under the next id. */
    method Create(store: Store) returns (r: Outcome)
      modifies this`id, store`hotels, store`reservations
      ensures Effect(r, store.hotels, store.reservations)
           == CreateSpec(old(store.customers), old(store.hotels), old(store.reservations), customerId, hotelId)
      ensures id == if r.Success? then Int(NextId(LoadLenient(old(store.reservations)))) else old(id)
    {
      var customer := new Customer("", "", "", customerId);
      var customerInfo := customer.DisplayInfo(store);
      if customerInfo == map[] {
        return Failure;
      }
      var hotel := new Hotel("", "", 0, hotelId);
      var hotelInfo := hotel.DisplayInfo(store);
      if hotelInfo == map[] {
        return Failure;
      }
      var reserved := hotel.ReserveRoom(store);
      if !reserved.Success? {
        return reserved;
      }
      var reservations := LoadLenient(store.reservations);
      id := Int(NextId(reservations));
      var record := ReservationFields(customerId, hotelId)[IdKey := id];
      reservations := reservations + [Dict(record)];
      store.reservations := Entries(reservations);
      r := Success;
    }

    /** Finds this reservation, gives its room back, and only then removes it. */
    method Cancel(store: Store) returns (r: Outcome)
      modifies store`hotels, store`reservations
      ensures Effect(r, store.hotels, store.reservations)
           == CancelSpec(old(store.hotels), old(store.reservations), id)
    {
      if !store.reservations.Entries? {
        return Failure;
      }
      var reservations := store.reservations.entries;
      var found: Option<Record> := None;
      ghost var at := 0;
      for i := 0 to |reservations|
        invariant forall j :: 0 <= j < i ==> !Matches(reservations[j], id)
        invariant found.None?
      {
        if Matches(reservations[i], id) {
          assert FindFirst(reservations, id) == Some(i);
          found, at := Some(reservations[i].fields), i;
          break;
        }
      }
      assert found.Some? ==> FindFirst(reservations, id) == Some(at) && found.value == reservations[at].fields;
      assert found.None? ==> FindFirst(reservations, id).None?;
      if found.None? || found.value == map[] {
        return Failure;
      }
      var reservation := found.value;
      if HotelIdKey !in reservation {
        return Raised(KeyError);
      }
      var hotel := new Hotel("", "", 0, reservation[HotelIdKey]);
      if CustomerIdKey !in reservation {
        return Raised(KeyError);
      }
      var released := hotel.CancelReservation(store);
      if !released.Success? {
        return released;
      }
      reservations := FilterOutId(reservations, id);
      store.reservations := Entries(reservations);
      r := Success;
    }
  }
}

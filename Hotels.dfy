/** The hotel ledger: hotel records in the hotels collection, and the
    room-availability counter that reservations decrement and cancellations
    increment. */
module Hotels {
  import opened Collections

  const Estado: string := "estado"
  const Habitaciones: string := "habitaciones"
  const Disponibles: string := "habitaciones_disponibles"

  /** The object a hotel `create` appends, before the id is added. */
  function HotelFields(nombre: string, estado: string, habitaciones: int, disponibles: int): Record {
    map[Nombre := Str(nombre), Estado := Str(estado),
        Habitaciones := Int(habitaciones), Disponibles := Int(disponibles)]
  }

  /** A hotel object that holds both counters as integers with
      0 <= available <= total, as `create` writes them. */
  predicate RoomsConsistent(e: Entry) {
    e.Dict? ==>
      && Habitaciones in e.fields && e.fields[Habitaciones].Int?
      && Disponibles in e.fields && e.fields[Disponibles].Int?
      && 0 <= e.fields[Disponibles].n <= e.fields[Habitaciones].n
  }

  /** Every hotel object in the file keeps 0 <= available <= total. */
  predicate AllConsistent(f: FileState) {
    f.Entries? ==> forall i :: 0 <= i < |f.entries| ==> RoomsConsistent(f.entries[i])
  }

  /** The available-room count of the hotel a lookup finds (0 when absent or not a number). */
  function AvailableIn(f: FileState, key: Value): int {
    var a := GetInt(Lookup(f, key), Disponibles);
    if a.Some? then a.value else 0
  }

  /** The occupied-room count `total - available` of the hotel a lookup finds. */
  function OccupiedIn(f: FileState, key: Value): int {
    var t := GetInt(Lookup(f, key), Habitaciones);
    (if t.Some? then t.value else 0) - AvailableIn(f, key)
  }

  // ---------------------------------------------------------------------
  // Specifications of the operations

  /** `reserve_room`: on the first hotel with id `key`, take one room when
      one is available. */
  function ReserveRoomSpec(f: FileState, key: Value): Step {
    match LoadStrict(f)
    case None => Step(Failure, f)
    case Some(es) =>
      match FindFirst(es, key)
      case None => Step(Failure, f)
      case Some(i) =>
        var m := es[i].fields;
        match GetInt(m, Disponibles)
        case None => Step(Raised(TypeError), f)
        case Some(a) =>
          if a > 0 then Step(Success, Entries(es[i := Dict(m[Disponibles := Int(a - 1)])]))
          else Step(Failure, f)
  }

  /** `cancel_reservation`: on the first hotel with id `key`, give back one
      room when fewer than the total are available. */
  function CancelReservationSpec(f: FileState, key: Value): Step {
    match LoadStrict(f)
    case None => Step(Failure, f)
    case Some(es) =>
      match FindFirst(es, key)
      case None => Step(Failure, f)
      case Some(i) =>
        var m := es[i].fields;
        var a := GetInt(m, Disponibles);
        var t := GetInt(m, Habitaciones);
        if a.None? || t.None? then Step(Raised(TypeError), f)
        else if a.value < t.value then Step(Success, Entries(es[i := Dict(m[Disponibles := Int(a.value + 1)])]))
        else Step(Failure, f)
  }

  /** The first hotel object with the given fields replaced; a new total
      keeps the occupied count `total - available`. None where the
      subtraction raises. */
  function Modified(m: Record, nombre: Option<string>, estado: Option<string>, habitaciones: Option<int>): Option<Record> {
    var named := SetIfGiven(SetIfGiven(m, Nombre, nombre), Estado, estado);
    if habitaciones.None? then Some(named)
    else
      var t := GetInt(m, Habitaciones);
      var a := GetInt(m, Disponibles);
      if t.None? || a.None? then None
      else
        var occupied := t.value - a.value;
        Some(named[Habitaciones := Int(habitaciones.value)][Disponibles := Int(habitaciones.value - occupied)])
  }

  /** `modify_info` on the hotels collection. */
  function ModifySpec(f: FileState, key: Value, nombre: Option<string>, estado: Option<string>, habitaciones: Option<int>): Step {
    match LoadStrict(f)
    case None => Step(Failure, f)
    case Some(es) =>
      match FindFirst(es, key)
      case None => Step(Failure, f)
      case Some(i) =>
        match Modified(es[i].fields, nombre, estado, habitaciones)
        case None => Step(Raised(TypeError), f)
        case Some(m) => Step(Success, Entries(es[i := Dict(m)]))
  }

  // ---------------------------------------------------------------------
  // Properties of the room counter

  /** A reservation succeeds exactly when the first matching hotel has a
      positive integer count; it then lowers that count by one and changes
      nothing else. It raises TypeError exactly when that hotel's available
      count is not a number; it returns False exactly for a count <= 0, a
      missing hotel or an unreadable file. Anything but success writes nothing. */
  lemma ReserveRoomEffect(f: FileState, key: Value)
    ensures var s := ReserveRoomSpec(f, key);
      && (s.outcome.Success? <==>
          Found(f, key) && exists a :: GetInt(Lookup(f, key), Disponibles) == Some(a) && a > 0)
      && (s.outcome.Success? ==>
          var i := FindFirst(f.entries, key).value;
          && s.file.Entries? && |s.file.entries| == |f.entries|
          && (forall j :: 0 <= j < |f.entries| && j != i ==> s.file.entries[j] == f.entries[j])
          && s.file.entries[i].fields == f.entries[i].fields[Disponibles := Int(AvailableIn(f, key) - 1)]
          && AvailableIn(s.file, key) == AvailableIn(f, key) - 1
          && OccupiedIn(s.file, key) == OccupiedIn(f, key) + 1
          && forall other :: other != key ==> Lookup(s.file, other) == Lookup(f, other))
      && (s.outcome == Raised(TypeError) <==> Found(f, key) && GetInt(Lookup(f, key), Disponibles).None?)
      && (s.outcome == Failure <==>
          !Found(f, key) || exists a :: GetInt(Lookup(f, key), Disponibles) == Some(a) && a <= 0)
      && (!s.outcome.Success? ==> s.file == f)
  {
    var s := ReserveRoomSpec(f, key);
    if Found(f, key) {
      var i := FindFirst(f.entries, key).value;
      if s.outcome.Success? {
        LookupAfterUpdate(f.entries, key, i, s.file.entries[i].fields);
      }
    }
  }

  /** A cancellation succeeds exactly when the first matching hotel has
      integer counts with available < total; it then raises the available
      count by one and changes nothing else. It raises TypeError exactly when
      one of that hotel's counters is not a number; it returns False exactly
      for available >= total, a missing hotel or an unreadable file. Anything but success
      writes nothing. */
  lemma CancelReservationEffect(f: FileState, key: Value)
    ensures var s := CancelReservationSpec(f, key);
      && (s.outcome.Success? <==>
          Found(f, key) && exists a, t :: GetInt(Lookup(f, key), Disponibles) == Some(a)
                                     && GetInt(Lookup(f, key), Habitaciones) == Some(t) && a < t)
      && (s.outcome.Success? ==>
          var i := FindFirst(f.entries, key).value;
          && s.file.Entries? && |s.file.entries| == |f.entries|
          && (forall j :: 0 <= j < |f.entries| && j != i ==> s.file.entries[j] == f.entries[j])
          && s.file.entries[i].fields == f.entries[i].fields[Disponibles := Int(AvailableIn(f, key) + 1)]
          && AvailableIn(s.file, key) == AvailableIn(f, key) + 1
          && OccupiedIn(s.file, key) == OccupiedIn(f, key) - 1
          && forall other :: other != key ==> Lookup(s.file, other) == Lookup(f, other))
      && (s.outcome == Raised(TypeError) <==>
          Found(f, key) && (GetInt(Lookup(f, key), Disponibles).None? || GetInt(Lookup(f, key), Habitaciones).None?))
      && (s.outcome == Failure <==>
          !Found(f, key) || exists a, t :: GetInt(Lookup(f, key), Disponibles) == Some(a)
                                     && GetInt(Lookup(f, key), Habitaciones) == Some(t) && a >= t)
      && (!s.outcome.Success? ==> s.file == f)
  {
    var s := CancelReservationSpec(f, key);
    if Found(f, key) {
      var i := FindFirst(f.entries, key).value;
      if s.outcome.Success? {
        LookupAfterUpdate(f.entries, key, i, s.file.entries[i].fields);
      }
    }
  }

  /** Reserving keeps every hotel within 0 <= available <= total. */
  lemma ReservePreservesConsistency(f: FileState, key: Value)
    requires AllConsistent(f)
    ensures AllConsistent(ReserveRoomSpec(f, key).file)
  {
    var s := ReserveRoomSpec(f, key);
    if s.outcome.Success? {
      var i := FindFirst(f.entries, key).value;
      assert RoomsConsistent(f.entries[i]);
      assert RoomsConsistent(s.file.entries[i]);
    }
  }

  /** Cancelling keeps every hotel within 0 <= available <= total. */
  lemma CancelPreservesConsistency(f: FileState, key: Value)
    requires AllConsistent(f)
    ensures AllConsistent(CancelReservationSpec(f, key).file)
  {
    var s := CancelReservationSpec(f, key);
    if s.outcome.Success? {
      var i := FindFirst(f.entries, key).value;
      assert RoomsConsistent(f.entries[i]);
      assert RoomsConsistent(s.file.entries[i]);
    }
  }

  /** A successful reservation followed by a cancellation on the same hotel
      restores the file exactly, when the hotel's counters were consistent. */
  lemma ReserveThenCancelRestores(f: FileState, key: Value)
    requires AllConsistent(f)
    requires ReserveRoomSpec(f, key).outcome.Success?
    ensures CancelReservationSpec(ReserveRoomSpec(f, key).file, key) == Step(Success, f)
  {
    var es := f.entries;
    var i := FindFirst(es, key).value;
    var m := es[i].fields;
    var a := GetInt(m, Disponibles).value;
    var m' := m[Disponibles := Int(a - 1)];
    FindFirstAfterUpdate(es, key, i, m');
    assert RoomsConsistent(es[i]);
    assert m'[Disponibles := Int(a)] == m;
    assert es[i := Dict(m')][i := Dict(m)] == es;
  }

  /** A successful cancellation followed by a reservation on the same hotel
      restores the file exactly. */
  lemma CancelThenReserveRestores(f: FileState, key: Value)
    requires AllConsistent(f)
    requires CancelReservationSpec(f, key).outcome.Success?
    ensures ReserveRoomSpec(CancelReservationSpec(f, key).file, key) == Step(Success, f)
  {
    var es := f.entries;
    var i := FindFirst(es, key).value;
    var m := es[i].fields;
    var a := GetInt(m, Disponibles).value;
    var t := GetInt(m, Habitaciones).value;
    var m' := m[Disponibles := Int(a + 1)];
    FindFirstAfterUpdate(es, key, i, m');
    assert RoomsConsistent(es[i]);
    assert m'[Disponibles := Int(a)] == m;
    assert es[i := Dict(m')][i := Dict(m)] == es;
  }

  // ---------------------------------------------------------------------
  // Properties of modify

  /** What `Modified` does to one hotel object: it fails only on a new total
      meeting a counter that is not a number, and otherwise sets the given
      fields, adds no other key and keeps the occupied count. */
  lemma ModifiedFields(m: Record, nombre: Option<string>, estado: Option<string>, habitaciones: Option<int>)
    ensures var r := Modified(m, nombre, estado, habitaciones);
      && (r.None? <==> habitaciones.Some? && (GetInt(m, Habitaciones).None? || GetInt(m, Disponibles).None?))
      && (r.Some? ==>
          var n := r.value;
          && n.Keys == m.Keys + (if nombre.Some? then {Nombre} else {}) + (if estado.Some? then {Estado} else {})
                      + (if habitaciones.Some? then {Habitaciones, Disponibles} else {})
          && Get(n, IdKey) == Get(m, IdKey)
          && (forall k :: k in m && k !in {Nombre, Estado, Habitaciones, Disponibles} ==> k in n && n[k] == m[k])
          && Get(n, Nombre) == (if nombre.Some? then Str(nombre.value) else Get(m, Nombre))
          && Get(n, Estado) == (if estado.Some? then Str(estado.value) else Get(m, Estado))
          && (habitaciones.None? ==>
                Get(n, Habitaciones) == Get(m, Habitaciones) && Get(n, Disponibles) == Get(m, Disponibles))
          && (habitaciones.Some? ==>
                && GetInt(n, Habitaciones) == Some(habitaciones.value)
                && GetInt(n, Habitaciones).value - GetInt(n, Disponibles).value
                   == GetInt(m, Habitaciones).value - GetInt(m, Disponibles).value))
  {
    var named := SetIfGiven(SetIfGiven(m, Nombre, nombre), Estado, estado);
    assert GetInt(named, Habitaciones) == GetInt(m, Habitaciones);
    assert GetInt(named, Disponibles) == GetInt(m, Disponibles);
  }

  /** A modify succeeds exactly when the hotel is found and, if a new total
      is given, both stored counters are numbers; a new total meeting a
      counter that is not a number raises TypeError. A successful modify
      rewrites only the first matching hotel; in it, only the given fields
      change or appear (the id never does), and a new total keeps the occupied count.
      A missing hotel or unreadable file writes nothing. */
  lemma ModifyEffect(f: FileState, key: Value, nombre: Option<string>, estado: Option<string>, habitaciones: Option<int>)
    ensures var s := ModifySpec(f, key, nombre, estado, habitaciones);
      var counters := GetInt(Lookup(f, key), Habitaciones).Some? && GetInt(Lookup(f, key), Disponibles).Some?;
      && (s.outcome.Success? <==> Found(f, key) && (habitaciones.None? || counters))
      && (s.outcome == Raised(TypeError) <==> Found(f, key) && habitaciones.Some? && !counters)
      && (!Found(f, key) ==> s == Step(Failure, f))
      && (!s.outcome.Success? ==> s.file == f)
      && (s.outcome.Success? ==>
          var i := FindFirst(f.entries, key).value;
          var old_ := f.entries[i].fields;
          var new_ := s.file.entries[i].fields;
          && s.file.Entries? && |s.file.entries| == |f.entries|
          && (forall j :: 0 <= j < |f.entries| && j != i ==> s.file.entries[j] == f.entries[j])
          && Get(new_, IdKey) == Get(old_, IdKey)
          && new_.Keys == old_.Keys + (if nombre.Some? then {Nombre} else {}) + (if estado.Some? then {Estado} else {})
                          + (if habitaciones.Some? then {Habitaciones, Disponibles} else {})
          && (forall k :: k in old_ && k !in {Nombre, Estado, Habitaciones, Disponibles} ==> k in new_ && new_[k] == old_[k])
          && Get(new_, Nombre) == (if nombre.Some? then Str(nombre.value) else Get(old_, Nombre))
          && Get(new_, Estado) == (if estado.Some? then Str(estado.value) else Get(old_, Estado))
          && (habitaciones.None? ==>
                Get(new_, Habitaciones) == Get(old_, Habitaciones) && Get(new_, Disponibles) == Get(old_, Disponibles))
          && (habitaciones.Some? ==>
                && GetInt(new_, Habitaciones) == Some(habitaciones.value)
                && GetInt(new_, Habitaciones).value - GetInt(new_, Disponibles).value
                   == GetInt(old_, Habitaciones).value - GetInt(old_, Disponibles).value))
  {
    if Found(f, key) {
      var i := FindFirst(f.entries, key).value;
      assert Lookup(f, key) == f.entries[i].fields;
      ModifiedFields(f.entries[i].fields, nombre, estado, habitaciones);
    }
  }

  /** Shrinking the total below the occupied count makes the available count
      negative: modify does not guard it. */
  lemma ModifyCanMakeAvailabilityNegative()
    ensures var f := Entries([Dict(map[IdKey := Int(1)] + HotelFields("H", "S", 10, 2))]);
      var s := ModifySpec(f, Int(1), None, None, Some(5));
      && AllConsistent(f)
      && s.outcome.Success?
      && GetInt(s.file.entries[0].fields, Disponibles) == Some(-3)
      && !AllConsistent(s.file)
  {
    var f := Entries([Dict(map[IdKey := Int(1)] + HotelFields("H", "S", 10, 2))]);
    assert Matches(f.entries[0], Int(1));
    assert FindFirst(f.entries, Int(1)) == Some(0);
    var s := ModifySpec(f, Int(1), None, None, Some(5));
    assert !RoomsConsistent(s.file.entries[0]);
  }

  /** A new total no smaller than the occupied count keeps every hotel
      within 0 <= available <= total. */
  lemma ModifyPreservesConsistencyWhenRoomsSuffice(
    f: FileState, key: Value, nombre: Option<string>, estado: Option<string>, habitaciones: Option<int>)
    requires AllConsistent(f)
    requires habitaciones.Some? && Found(f, key) ==>
      var m := f.entries[FindFirst(f.entries, key).value].fields;
      habitaciones.value >= GetInt(m, Habitaciones).value - GetInt(m, Disponibles).value
    ensures AllConsistent(ModifySpec(f, key, nombre, estado, habitaciones).file)
  {
    var s := ModifySpec(f, key, nombre, estado, habitaciones);
    if s.outcome.Success? {
      var i := FindFirst(f.entries, key).value;
      assert RoomsConsistent(f.entries[i]);
      assert RoomsConsistent(s.file.entries[i]);
    }
  }

  // ---------------------------------------------------------------------
  // The hotel object

  /** A hotel as the program holds it: the fields of one record plus the id
      it looks itself up by (`Null` until `Create` assigns one). */
  class Hotel {
    var id: Value
    var nombre: string
    var estado: string
    var habitaciones: int
    var disponibles: int

    /** A new hotel starts with every room available. */
    constructor (nombre: string, estado: string, habitaciones: int, id: Value)
      ensures this.id == id && this.nombre == nombre && this.estado == estado
      ensures this.habitaciones == habitaciones && this.disponibles == habitaciones
    {
      this.id := id;
      this.nombre := nombre;
      this.estado := estado;
      this.habitaciones := habitaciones;
      this.disponibles := habitaciones;
    }

    /** Appends this hotel under the next id, treating an unreadable file as empty. */
    method Create(store: Store)
      modifies this`id, store`hotels
      ensures id == Int(NextId(LoadLenient(old(store.hotels))))
      ensures store.hotels == AppendNew(old(store.hotels), HotelFields(nombre, estado, habitaciones, disponibles))
    {
      var hotels := LoadLenient(store.hotels);
      id := Int(NextId(hotels));
      var record := HotelFields(nombre, estado, habitaciones, disponibles)[IdKey := id];
      hotels := hotels + [Dict(record)];
      store.hotels := Entries(hotels);
    }

    /** Removes every hotel object with this id (and every non-object entry). */
    method Delete(store: Store) returns (ok: bool)
      modifies store`hotels
      ensures Step(if ok then Success else Failure, store.hotels) == DeleteById(old(store.hotels), id)
    {
      if !store.hotels.Entries? {
        return false;
      }
      var hotels := store.hotels.entries;
      var kept := FilterOutId(hotels, id);
      if |kept| == |hotels| {
        return false;
      }
      store.hotels := Entries(kept);
      ok := true;
    }

    /** The first hotel object with this id, or `{}`. */
    method DisplayInfo(store: Store) returns (info: Record)
      ensures info == Lookup(store.hotels, id)
    {
      if !store.hotels.Entries? {
        return map[];
      }
      var hotels := store.hotels.entries;
      for i := 0 to |hotels|
        invariant forall j :: 0 <= j < i ==> !Matches(hotels[j], id)
      {
        if Matches(hotels[i], id) {
          assert FindFirst(hotels, id) == Some(i);
          return hotels[i].fields;
        }
      }
      info := map[];
    }

    /** The body of the loop once the hotel is found: sets the given fields
      on the record `m` and on this object; a new total keeps the occupied
      count. None where the subtraction raises. */
    method ApplyModify(m: Record, newNombre: Option<string>, newEstado: Option<string>, newHabitaciones: Option<int>)
      returns (res: Option<Record>)
      modifies this`nombre, this`estado, this`habitaciones, this`disponibles
      ensures res == Modified(m, newNombre, newEstado, newHabitaciones)
      ensures nombre == if newNombre.Some? then newNombre.value else old(nombre)
      ensures estado == if newEstado.Some? then newEstado.value else old(estado)
      ensures res.Some? && newHabitaciones.Some? ==>
        habitaciones == newHabitaciones.value
        && disponibles == newHabitaciones.value - (GetInt(m, Habitaciones).value - GetInt(m, Disponibles).value)
      ensures !(res.Some? && newHabitaciones.Some?) ==>
        habitaciones == old(habitaciones) && disponibles == old(disponibles)
    {
      var hotel := m;
      if newNombre.Some? {
        hotel := hotel[Nombre := Str(newNombre.value)];
        nombre := newNombre.value;
      }
      if newEstado.Some? {
        hotel := hotel[Estado := Str(newEstado.value)];
        estado := newEstado.value;
      }
      assert hotel == SetIfGiven(SetIfGiven(m, Nombre, newNombre), Estado, newEstado);
      if newHabitaciones.Some? {
        var oldTotal := GetInt(hotel, Habitaciones);
        var oldDisponibles := GetInt(hotel, Disponibles);
        assert oldTotal == GetInt(m, Habitaciones) && oldDisponibles == GetInt(m, Disponibles);
        if oldTotal.None? || oldDisponibles.None? {
          return None;
        }
        var ocupadas := oldTotal.value - oldDisponibles.value;
        var nuevas := newHabitaciones.value - ocupadas;
        hotel := hotel[Habitaciones := Int(newHabitaciones.value)][Disponibles := Int(nuevas)];
        habitaciones := newHabitaciones.value;
        disponibles := nuevas;
      }
      res := Some(hotel);
    }

    /** Updates the given fields of the first hotel with this id and of this
      object; a new total keeps the occupied count. */
    method ModifyInfo(store: Store, newNombre: Option<string>, newEstado: Option<string>, newHabitaciones: Option<int>)
      returns (r: Outcome)
      modifies this`nombre, this`estado, this`habitaciones, this`disponibles, store`hotels
      ensures Step(r, store.hotels) == ModifySpec(old(store.hotels), id, newNombre, newEstado, newHabitaciones)
      ensures nombre == if Found(old(store.hotels), id) && newNombre.Some? then newNombre.value else old(nombre)
      ensures estado == if Found(old(store.hotels), id) && newEstado.Some? then newEstado.value else old(estado)
      ensures r.Success? && newHabitaciones.Some? ==>
        habitaciones == newHabitaciones.value && disponibles == newHabitaciones.value - old(OccupiedIn(store.hotels, id))
      ensures !(r.Success? && newHabitaciones.Some?) ==>
        habitaciones == old(habitaciones) && disponibles == old(disponibles)
    {
      if !store.hotels.Entries? {
        return Failure;
      }
      var hotels := store.hotels.entries;
      var found := false;
      for i := 0 to |hotels|
        invariant forall j :: 0 <= j < i ==> !Matches(hotels[j], id)
        invariant hotels == store.hotels.entries
        invariant nombre == old(nombre) && estado == old(estado)
      {
        if Matches(hotels[i], id) {
          assert FindFirst(hotels, id) == Some(i);
          assert Found(old(store.hotels), id) && Lookup(old(store.hotels), id) == hotels[i].fields;
          var m := ApplyModify(hotels[i].fields, newNombre, newEstado, newHabitaciones);
          if m.None? {
            return Raised(TypeError);
          }
          hotels := hotels[i := Dict(m.value)];
          found := true;
          break;
        }
      }
      if !found {
        return Failure;
      }
      store.hotels := Entries(hotels);
      r := Success;
    }

    /** Takes one room of the first hotel with this id when one is available. */
    method ReserveRoom(store: Store) returns (r: Outcome)
      modifies this`disponibles, store`hotels
      ensures Step(r, store.hotels) == ReserveRoomSpec(old(store.hotels), id)
      ensures disponibles == if r.Success? then AvailableIn(store.hotels, id) else old(disponibles)
    {
      if !store.hotels.Entries? {
        return Failure;
      }
      var hotels := store.hotels.entries;
      var found := false;
      for i := 0 to |hotels|
        invariant forall j :: 0 <= j < i ==> !Matches(hotels[j], id)
        invariant hotels == store.hotels.entries
      {
        if Matches(hotels[i], id) {
          assert FindFirst(hotels, id) == Some(i);
          var available := GetInt(hotels[i].fields, Disponibles);
          if available.None? {
            return Raised(TypeError);
          }
          if available.value > 0 {
            var m := hotels[i].fields[Disponibles := Int(available.value - 1)];
            FindFirstAfterUpdate(hotels, id, i, m);
            hotels := hotels[i := Dict(m)];
            disponibles := available.value - 1;
            found := true;
          } else {
            return Failure;
          }
          break;
        }
      }
      if !found {
        return Failure;
      }
      store.hotels := Entries(hotels);
      r := Success;
    }

    /** Gives back one room of the first hotel with this id when fewer than
        its total are available. */
    method CancelReservation(store: Store) returns (r: Outcome)
      modifies this`disponibles, store`hotels
      ensures Step(r, store.hotels) == CancelReservationSpec(old(store.hotels), id)
      ensures disponibles == if r.Success? then AvailableIn(store.hotels, id) else old(disponibles)
    {
      if !store.hotels.Entries? {
        return Failure;
      }
      var hotels := store.hotels.entries;
      var found := false;
      for i := 0 to |hotels|
        invariant forall j :: 0 <= j < i ==> !Matches(hotels[j], id)
        invariant hotels == store.hotels.entries
      {
        if Matches(hotels[i], id) {
          assert FindFirst(hotels, id) == Some(i);
          var available := GetInt(hotels[i].fields, Disponibles);
          var total := GetInt(hotels[i].fields, Habitaciones);
          if available.None? || total.None? {
            return Raised(TypeError);
          }
          if available.value < total.value {
            var m := hotels[i].fields[Disponibles := Int(available.value + 1)];
            FindFirstAfterUpdate(hotels, id, i, m);
            hotels := hotels[i := Dict(m)];
            disponibles := available.value + 1;
            found := true;
          } else {
            return Failure;
          }
          break;
        }
      }
      if !found {
        return Failure;
      }
      store.hotels := Entries(hotels);
      r := Success;
    }
  }
}

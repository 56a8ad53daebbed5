/** The customer ledger: customer records (name, email, phone) in the
    customers collection. It has no counters, so no operation raises. */
module Customers {
  import opened Collections

  const Email: string := "email"
  const Telefono: string := "telefono"

  /** The object a customer `create` appends, before the id is added. */
  function CustomerFields(nombre: string, email: string, telefono: string): Record {
    map[Nombre := Str(nombre), Email := Str(email), Telefono := Str(telefono)]
  }

  /** `modify_info` on the customers collection: set the given fields of the
      first customer with id `key`. */
  function ModifySpec(f: FileState, key: Value, nombre: Option<string>, email: Option<string>, telefono: Option<string>): Step {
    match LoadStrict(f)
    case None => Step(Failure, f)
    case Some(es) =>
      match FindFirst(es, key)
      case None => Step(Failure, f)
      case Some(i) =>
        var m := SetIfGiven(SetIfGiven(SetIfGiven(es[i].fields, Nombre, nombre), Email, email), Telefono, telefono);
        Step(Success, Entries(es[i := Dict(m)]))
  }

  /** A modify succeeds exactly when the file is a list holding a customer
      with id `key`; it then rewrites only the first such customer, in which
      only the given fields change or appear, and otherwise it writes nothing. */
  lemma ModifyEffect(f: FileState, key: Value, nombre: Option<string>, email: Option<string>, telefono: Option<string>)
    ensures var s := ModifySpec(f, key, nombre, email, telefono);
      && (s.outcome.Success? <==> Found(f, key))
      && (!s.outcome.Success? ==> s == Step(Failure, f))
      && (s.outcome.Success? ==>
          var i := FindFirst(f.entries, key).value;
          var old_ := f.entries[i].fields;
          var new_ := s.file.entries[i].fields;
          && s.file.Entries? && |s.file.entries| == |f.entries|
          && (forall j :: 0 <= j < |f.entries| && j != i ==> s.file.entries[j] == f.entries[j])
          && new_.Keys == old_.Keys + (if nombre.Some? then {Nombre} else {}) + (if email.Some? then {Email} else {})
                          + (if telefono.Some? then {Telefono} else {})
          && (forall k :: k in old_ && k !in {Nombre, Email, Telefono} ==> k in new_ && new_[k] == old_[k])
          && Get(new_, Nombre) == (if nombre.Some? then Str(nombre.value) else Get(old_, Nombre))
          && Get(new_, Email) == (if email.Some? then Str(email.value) else Get(old_, Email))
          && Get(new_, Telefono) == (if telefono.Some? then Str(telefono.value) else Get(old_, Telefono))
          && Lookup(s.file, key) == new_)
  {
    var s := ModifySpec(f, key, nombre, email, telefono);
    if s.outcome.Success? {
      var i := FindFirst(f.entries, key).value;
      FindFirstAfterUpdate(f.entries, key, i, s.file.entries[i].fields);
    }
  }

  /** A customer as the program holds it: the fields of one record plus the
      id it looks itself up by (`Null` until `Create` assigns one). */
  class Customer {
    var id: Value
    var nombre: string
    var email: string
    var telefono: string

    constructor (nombre: string, email: string, telefono: string, id: Value)
      ensures this.id == id && this.nombre == nombre && this.email == email && this.telefono == telefono
    {
      this.id := id;
      this.nombre := nombre;
      this.email := email;
      this.telefono := telefono;
    }

    /** Appends this customer under the next id, treating an unreadable file as empty. */
    method Create(store: Store)
      modifies this`id, store`customers
      ensures id == Int(NextId(LoadLenient(old(store.customers))))
      ensures store.customers == AppendNew(old(store.customers), CustomerFields(nombre, email, telefono))
    {
      var customers := LoadLenient(store.customers);
      id := Int(NextId(customers));
      var record := CustomerFields(nombre, email, telefono)[IdKey := id];
      customers := customers + [Dict(record)];
      store.customers := Entries(customers);
    }

    /** Removes every customer object with this id (and every non-object entry). */
    method Delete(store: Store) returns (ok: bool)
      modifies store`customers
      ensures Step(if ok then Success else Failure, store.customers) == DeleteById(old(store.customers), id)
    {
      if !store.customers.Entries? {
        return false;
      }
      var customers := store.customers.entries;
      var kept := FilterOutId(customers, id);
      if |kept| == |customers| {
        return false;
      }
      store.customers := Entries(kept);
      ok := true;
    }

    /** The first customer object with this id, or `{}`. */
    method DisplayInfo(store: Store) returns (info: Record)
      ensures info == Lookup(store.customers, id)
    {
      if !store.customers.Entries? {
        return map[];
      }
      var customers := store.customers.entries;
      for i := 0 to |customers|
        invariant forall j :: 0 <= j < i ==> !Matches(customers[j], id)
      {
        if Matches(customers[i], id) {
          assert FindFirst(customers, id) == Some(i);
          return customers[i].fields;
        }
      }
      info := map[];
    }

    /** Updates the given fields of the first customer with this id and of this object. */
    method ModifyInfo(store: Store, newNombre: Option<string>, newEmail: Option<string>, newTelefono: Option<string>)
      returns (ok: bool)
      modifies this`nombre, this`email, this`telefono, store`customers
      ensures Step(if ok then Success else Failure, store.customers)
           == ModifySpec(old(store.customers), id, newNombre, newEmail, newTelefono)
      ensures nombre == if ok && newNombre.Some? then newNombre.value else old(nombre)
      ensures email == if ok && newEmail.Some? then newEmail.value else old(email)
      ensures telefono == if ok && newTelefono.Some? then newTelefono.value else old(telefono)
    {
      if !store.customers.Entries? {
        return false;
      }
      var customers := store.customers.entries;
      var found := false;
      for i := 0 to |customers|
        invariant forall j :: 0 <= j < i ==> !Matches(customers[j], id)
        invariant customers == store.customers.entries
        invariant nombre == old(nombre) && email == old(email) && telefono == old(telefono)
      {
        if Matches(customers[i], id) {
          assert FindFirst(customers, id) == Some(i);
          var m := customers[i].fields;
          if newNombre.Some? {
            m := m[Nombre := Str(newNombre.value)];
            nombre := newNombre.value;
          }
          if newEmail.Some? {
            m := m[Email := Str(newEmail.value)];
            email := newEmail.value;
          }
          if newTelefono.Some? {
            m := m[Telefono := Str(newTelefono.value)];
            telefono := newTelefono.value;
          }
          customers := customers[i := Dict(m)];
          found := true;
          break;
        }
      }
      if !found {
        return false;
      }
      store.customers := Entries(customers);
      ok := true;
    }
  }
}

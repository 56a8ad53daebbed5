/** The record store shared by the three ledgers: each collection is one file
    holding a JSON list of flat objects, read whole and written back whole.
    The file system is replaced by a `Store` object whose fields are the
    three files; JSON text is abstracted into `FileState`. */
module Collections {

  datatype Option<T> = None | Some(value: T)

  /** A field value: JSON null, an integer or a string. `Get` reads a
      missing key as `Null`, as Python's `dict.get` returns `None`. */
  datatype Value = Null | Int(n: int) | Str(s: string)

  type Record = map<string, Value>

  /** One element of a loaded JSON list: an object, or any other JSON value. */
  datatype Entry = Dict(fields: Record) | Junk

  /** What reading a collection file finds: no file, only whitespace, text
      that is not JSON, JSON that is not a list, or a list. */
  datatype FileState = Missing | Blank | Unparsable | NotAList | Entries(entries: seq<Entry>)

  /** Exceptions that escape an operation (the source only catches I/O errors). */
  datatype Fault = TypeError | KeyError

  /** An operation returns True, returns False, or raises. */
  datatype Outcome = Success | Failure | Raised(fault: Fault)

  /** An operation's outcome together with the collection file afterwards. */
  datatype Step = Step(outcome: Outcome, file: FileState)

  /** The storage directory: one file per collection. */
  class Store {
    var hotels: FileState
    var customers: FileState
    var reservations: FileState

    constructor ()
      ensures hotels == Missing && customers == Missing && reservations == Missing
    {
      hotels, customers, reservations := Missing, Missing, Missing;
    }
  }

  const IdKey: string := "id"
  /** The name field that both hotel and customer records carry. */
  const Nombre: string := "nombre"

  /** `m.get(k)` */
  function Get(m: Record, k: string): Value {
    if k in m then m[k] else Null
  }

  /** `m.get(k, 0)` where the result takes part in integer arithmetic or an
      integer comparison: None when Python would raise a TypeError there. */
  function GetInt(m: Record, k: string): Option<int> {
    if k !in m then Some(0) else if m[k].Int? then Some(m[k].n) else None
  }

  /** `m[k] = v` when `v` is not None. */
  function SetIfGiven(m: Record, k: string, v: Option<string>): Record {
    if v.Some? then m[k := Str(v.value)] else m
  }

  /** `isinstance(e, dict) and e.get('id') == key` */
  predicate Matches(e: Entry, key: Value) {
    e.Dict? && Get(e.fields, IdKey) == key
  }

  /** `isinstance(e, dict) and e.get('id') != key`: what a delete keeps. */
  predicate Kept(e: Entry, key: Value) {
    e.Dict? && Get(e.fields, IdKey) != key
  }

  // ---------------------------------------------------------------------
  // Loading

  /** The load used by `create`: every unreadable file reads as an empty list. */
  function LoadLenient(f: FileState): seq<Entry> {
    if f.Entries? then f.entries else []
  }

  /** The load used by every other operation: an unreadable file is a failure. */
  function LoadStrict(f: FileState): Option<seq<Entry>> {
    if f.Entries? then Some(f.entries) else None
  }

  // ---------------------------------------------------------------------
  // Identifier allocation

  predicate HasDict(es: seq<Entry>) {
    exists i :: 0 <= i < |es| && es[i].Dict?
  }

  /** The object's `id` is absent or an integer, so `e.get('id', 0)` is a number. */
  predicate NumericId(e: Entry) {
    e.Dict? ==> GetInt(e.fields, IdKey).Some?
  }

  predicate IdsNumeric(es: seq<Entry>) {
    forall i :: 0 <= i < |es| ==> NumericId(es[i])
  }

  /** `e.get('id', 0)` for an object whose id is numeric. */
  function IdOf(e: Entry): int {
    if e.Dict? && GetInt(e.fields, IdKey).Some? then GetInt(e.fields, IdKey).value else 0
  }

  /** `max(e.get('id', 0) for e in es if isinstance(e, dict))` where it does not raise. */
  function MaxId(es: seq<Entry>): (r: int)
    requires HasDict(es) && IdsNumeric(es)
    ensures forall i :: 0 <= i < |es| && es[i].Dict? ==> IdOf(es[i]) <= r
    ensures exists i :: 0 <= i < |es| && es[i].Dict? && IdOf(es[i]) == r
    decreases |es|
  {
    var rest := es[1..];
    assert forall i :: 0 <= i < |rest| ==> rest[i] == es[i + 1];
    if !HasDict(rest) then
      assert es[0].Dict?;
      IdOf(es[0])
    else if es[0].Dict? && MaxId(rest) <= IdOf(es[0]) then
      IdOf(es[0])
    else
      MaxId(rest)
  }

  /** The id a `create` assigns: 1 when there is no object or when `max`
      or the `+ 1` raises (an object whose id is null or a string), and the
      largest id plus one otherwise. */
  function NextId(es: seq<Entry>): (r: int)
    ensures !(HasDict(es) && IdsNumeric(es)) ==> r == 1
    ensures HasDict(es) && IdsNumeric(es) ==>
      && (forall i :: 0 <= i < |es| && es[i].Dict? ==> IdOf(es[i]) < r)
      && (exists i :: 0 <= i < |es| && es[i].Dict? && IdOf(es[i]) == r - 1)
  {
    if HasDict(es) && IdsNumeric(es) then MaxId(es) + 1 else 1
  }

  /** When every id is numeric, the allocated id is carried by no object. */
  lemma NextIdIsFresh(es: seq<Entry>)
    requires IdsNumeric(es)
    ensures forall i :: 0 <= i < |es| ==> !Matches(es[i], Int(NextId(es)))
  {
    forall i | 0 <= i < |es|
      ensures !Matches(es[i], Int(NextId(es)))
    {
      assert NumericId(es[i]);
    }
  }

  /** One object whose id is a string makes the allocator fall back to 1,
      even when an object with id 1 already exists. */
  lemma NextIdFallbackCanCollide()
    ensures var es := [Dict(map[IdKey := Int(1)]), Dict(map[IdKey := Str("x")])];
      NextId(es) == 1 && Matches(es[0], Int(NextId(es)))
  {
    var es := [Dict(map[IdKey := Int(1)]), Dict(map[IdKey := Str("x")])];
    assert !NumericId(es[1]);
  }

  /** The appended record of a `create`: the caller's fields plus the next id. */
  function AppendNew(f: FileState, fields: Record): FileState {
    var es := LoadLenient(f);
    Entries(es + [Dict(fields[IdKey := Int(NextId(es))])])
  }

  /** A `create` keeps every earlier entry in place and appends one object
      carrying the allocated id, which no earlier object carries when the
      ids are numeric; an unreadable file yields a one-object list with id 1. */
  lemma AppendNewAppendsOne(f: FileState, fields: Record)
    ensures var es := LoadLenient(f); var g := AppendNew(f, fields);
      && g.Entries? && |g.entries| == |es| + 1
      && g.entries[..|es|] == es
      && g.entries[|es|] == Dict(fields[IdKey := Int(NextId(es))])
      && (IdsNumeric(es) ==> forall i :: 0 <= i < |es| ==> !Matches(es[i], Get(g.entries[|es|].fields, IdKey)))
      && (!f.Entries? ==> g == Entries([Dict(fields[IdKey := Int(1)])]))
  {
    var es := LoadLenient(f);
    if IdsNumeric(es) {
      NextIdIsFresh(es);
    }
  }

  // ---------------------------------------------------------------------
  // First-match lookup

  /** The index of the first object whose id equals `key`. */
  function FindFirst(es: seq<Entry>, key: Value): (r: Option<nat>)
    ensures r.Some? ==> r.value < |es| && Matches(es[r.value], key)
    ensures r.Some? ==> forall j :: 0 <= j < r.value ==> !Matches(es[j], key)
    ensures r.None? ==> forall j :: 0 <= j < |es| ==> !Matches(es[j], key)
    decreases |es|
  {
    if es == [] then None
    else if Matches(es[0], key) then Some(0)
    else match FindFirst(es[1..], key)
      case None => None
      case Some(k) => Some(k + 1)
  }

  /** Replacing the first match by another object with the same id keeps it
      the first match. */
  lemma FindFirstAfterUpdate(es: seq<Entry>, key: Value, i: nat, m: Record)
    requires FindFirst(es, key) == Some(i)
    requires Get(m, IdKey) == key
    ensures FindFirst(es[i := Dict(m)], key) == Some(i)
  {
    var es' := es[i := Dict(m)];
    assert Matches(es'[i], key);
    assert forall j :: 0 <= j < i ==> es'[j] == es[j];
  }

  /** Rewriting one object without changing its id leaves every lookup of
      another id where it was. */
  lemma LookupAfterUpdate(es: seq<Entry>, key: Value, i: nat, m: Record)
    requires FindFirst(es, key) == Some(i)
    requires Get(m, IdKey) == key
    ensures Lookup(Entries(es[i := Dict(m)]), key) == m
    ensures forall other :: other != key ==> Lookup(Entries(es[i := Dict(m)]), other) == Lookup(Entries(es), other)
  {
    var es' := es[i := Dict(m)];
    FindFirstAfterUpdate(es, key, i, m);
    forall other | other != key
      ensures Lookup(Entries(es'), other) == Lookup(Entries(es), other)
    {
      assert forall j :: 0 <= j < |es| ==> (Matches(es'[j], other) <==> Matches(es[j], other));
      var r, r' := FindFirst(es, other), FindFirst(es', other);
      if r.Some? && r'.Some? {
        assert r.value == r'.value;
      }
    }
  }

  /** Appending an object that does not carry `key` leaves the first match where it was. */
  lemma {:induction false} FindFirstAppendOther(es: seq<Entry>, x: Entry, key: Value)
    requires !Matches(x, key)
    ensures FindFirst(es + [x], key) == FindFirst(es, key)
    decreases |es|
  {
    if es == [] {
      assert [x][1..] == [];
    } else {
      assert (es + [x])[1..] == es[1..] + [x];
      FindFirstAppendOther(es[1..], x, key);
    }
  }

  /** What a `display_info` returns: the first matching object, or `{}` when
      the file is unreadable or nothing matches. */
  function Lookup(f: FileState, key: Value): Record {
    match LoadStrict(f)
    case None => map[]
    case Some(es) =>
      match FindFirst(es, key)
      case None => map[]
      case Some(i) => es[i].fields
  }

  /** Appending an object that does not carry `key` to the loaded list
      leaves the lookup of `key` as it was. */
  lemma LookupAfterAppendOther(f: FileState, x: Entry, key: Value)
    requires !Matches(x, key)
    ensures Lookup(Entries(LoadLenient(f) + [x]), key) == Lookup(f, key)
  {
    FindFirstAppendOther(LoadLenient(f), x, key);
  }

  /** The file reads as a list holding an object with id `key`. */
  predicate Found(f: FileState, key: Value) {
    f.Entries? && FindFirst(f.entries, key).Some?
  }

  /** A lookup returns exactly the first object whose id is `key`; `{}` means
      an unreadable file, no match, or a match that is itself `{}`. */
  lemma LookupIsFirstMatch(f: FileState, key: Value)
    ensures Found(f, key) ==>
      exists i :: 0 <= i < |f.entries| && Matches(f.entries[i], key) && Lookup(f, key) == f.entries[i].fields
        && forall j :: 0 <= j < i ==> !Matches(f.entries[j], key)
    ensures !Found(f, key) ==> Lookup(f, key) == map[]
    ensures Lookup(f, key) != map[] ==> Found(f, key)
  {
    if Found(f, key) {
      var i := FindFirst(f.entries, key).value;
      assert Lookup(f, key) == f.entries[i].fields;
    }
  }

  // ---------------------------------------------------------------------
  // Delete-by-id filter

  /** `[e for e in es if isinstance(e, dict) and e.get('id') != key]` */
  function FilterOutId(es: seq<Entry>, key: Value): (r: seq<Entry>)
    ensures |r| <= |es|
    ensures forall e :: e in r ==> e in es && Kept(e, key)
    ensures forall i :: 0 <= i < |es| && Kept(es[i], key) ==> es[i] in r
    decreases |es|
  {
    if es == [] then []
    else
      assert forall i :: 1 <= i < |es| ==> es[i] == es[1..][i - 1];
      (if Kept(es[0], key) then [es[0]] else []) + FilterOutId(es[1..], key)
  }

  /** The filter keeps order: filtering a concatenation concatenates the filtered parts. */
  lemma {:induction false} FilterOutIdAppend(a: seq<Entry>, b: seq<Entry>, key: Value)
    ensures FilterOutId(a + b, key) == FilterOutId(a, key) + FilterOutId(b, key)
    decreases |a|
  {
    if a == [] {
      assert a + b == b;
    } else {
      assert (a + b)[1..] == a[1..] + b;
      FilterOutIdAppend(a[1..], b, key);
    }
  }

  /** The filter removes nothing exactly when every entry is an object whose
      id differs from `key`, and then it returns the list unchanged. */
  lemma {:induction false} FilterOutIdUnchanged(es: seq<Entry>, key: Value)
    ensures |FilterOutId(es, key)| == |es| <==> forall i :: 0 <= i < |es| ==> Kept(es[i], key)
    ensures |FilterOutId(es, key)| == |es| ==> FilterOutId(es, key) == es
    decreases |es|
  {
    if es != [] {
      FilterOutIdUnchanged(es[1..], key);
      assert forall i :: 1 <= i < |es| ==> es[i] == es[1..][i - 1];
      if !Kept(es[0], key) {
        assert |FilterOutId(es, key)| == |FilterOutId(es[1..], key)|;
      }
    }
  }

  /** What a `delete` does: unreadable file or nothing removed -> False and no
      write; otherwise the filtered list is written. */
  function DeleteById(f: FileState, key: Value): Step {
    match LoadStrict(f)
    case None => Step(Failure, f)
    case Some(es) =>
      var kept := FilterOutId(es, key);
      if |kept| == |es| then Step(Failure, f) else Step(Success, Entries(kept))
  }

  /** A delete succeeds exactly when the file is a list with some entry that
      is not an object with a different id (a match, or a non-object); on
      success the file holds the surviving objects in their order, and on
      failure it is untouched. */
  lemma DeleteByIdSucceedsIff(f: FileState, key: Value)
    ensures DeleteById(f, key).outcome.Success? <==>
      f.Entries? && exists i :: 0 <= i < |f.entries| && !Kept(f.entries[i], key)
    ensures DeleteById(f, key).outcome.Success? ==> DeleteById(f, key).file == Entries(FilterOutId(f.entries, key))
    ensures !DeleteById(f, key).outcome.Success? ==> DeleteById(f, key) == Step(Failure, f)
  {
    if f.Entries? {
      FilterOutIdUnchanged(f.entries, key);
    }
  }

  /** A delete also drops non-object entries, so it reports success on a
      list that holds no object with the requested id. */
  lemma DeleteSucceedsOnJunkAlone()
    ensures var f := Entries([Junk, Dict(map[IdKey := Int(1)])]);
      && !Found(f, Int(5))
      && DeleteById(f, Int(5)) == Step(Success, Entries([Dict(map[IdKey := Int(1)])]))
  {
    var es := [Junk, Dict(map[IdKey := Int(1)])];
    assert Get(es[1].fields, IdKey) == Int(1);
    assert FilterOutId(es[1..][1..], Int(5)) == [];
    assert FilterOutId(es[1..], Int(5)) == [es[1]];
    assert FilterOutId(es, Int(5)) == [es[1]];
    assert !Matches(es[0], Int(5)) && !Matches(es[1], Int(5));
  }
}

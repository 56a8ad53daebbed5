# Hotel reservation ledger in Dafny

This project models the record ledger of a small hotel-management program.
The program keeps three collections: hotels, customers and reservations.
Each collection is a JSON file holding a list of flat objects. Every
operation reads the whole file, changes the list in memory, and writes the
whole list back.

- **Hotels** have a name (`nombre`), a state (`estado`), a total room count
  (`habitaciones`) and a free room count (`habitaciones_disponibles`). They
  support create, delete, display, modify, reserve-a-room and
  give-a-room-back.
- **Customers** have a name, an email and a phone number. They support
  create, delete, display and modify.
- **Reservations** link a customer id to a hotel id. Creating one checks the
  customer, then the hotel, then takes a room, and only then appends the
  record. Cancelling one gives the room back first, then removes the record.

How the model is built:

- The file system is a `Store` object with one `FileState` per collection.
  A file is missing, blank, unparsable, valid JSON but not a list, or a list
  of entries. An entry is an object (`Dict`) or any other JSON value
  (`Junk`).
- The program's three classes are Dafny classes with the same fields. Their
  methods use the same loops (first match, `break`, found flag). Each method
  is proved equal to a pure specification function, such as
  `ReserveRoomSpec` or `CancelSpec`.
- The lemmas about those functions state what the program promises:
  - how new ids are allocated;
  - two load policies: `create` treats an unreadable file as an empty list,
    and every other operation fails on it without writing;
  - the room counter's guards and round trips;
  - what modify and delete change and what they keep;
  - the order of steps in reservation create and cancel.
- A ledger invariant ties the collections together: each hotel's occupied
  count (`total - available`) equals the number of reservations naming that
  hotel. Every reservation operation keeps it. Deleting a hotel can break it.
- An operation returns True (`Success`), returns False (`Failure`), or raises
  an exception the program does not catch (`Raised(TypeError)` or
  `Raised(KeyError)`).
- Field values are JSON null, integers or strings.
- A lookup key is any field value. The program builds a hotel object from
  whatever `hotel_id` a stored reservation holds, so the key is not always an
  integer.

Two behaviours of the code are worth stating on their own:

- **Next id.** Ids that are null or strings are not skipped: `max` or the
  `+ 1` raises `TypeError`, and the handler keeps id 1, which can collide
  with an existing id (`NextIdFallbackCanCollide`).
- **Delete.** The delete filter keeps only objects whose id differs. So it
  also drops entries that are not objects, and it reports success when it
  drops only those (`DeleteSucceedsOnJunkAlone`).

## Model

| member | source | states |
|---|---|---|
| Collections.Store.constructor | 6.2Prueba.py:24 | A fresh storage directory has none of the three collection files. |
| Collections.MaxId | 6.2Prueba.py:60-63 | Every object's id is at most the result, and some object's id equals it. |
| Collections.NextId | 6.2Prueba.py:57-68 | The result is 1 when no entry is an object or some object's id is not a number. Otherwise it is one more than the largest id, so it exceeds every id. |
| Collections.NextIdIsFresh | 6.2Prueba.py:57-68 | When every id is a number, no existing object carries the allocated id. |
| Collections.NextIdFallbackCanCollide | 6.2Prueba.py:65-68 | The list `[{id:1}, {id:"x"}]` gets id 1, which an object already has. |
| Collections.AppendNewAppendsOne | 6.2Prueba.py:39-80 | Create keeps every earlier entry in place and appends one object: the given fields plus the allocated id. With numeric ids that id is new. An unreadable file becomes a one-object list with id 1. |
| Collections.FindFirst | 6.2Prueba.py:151-164 | The result is the index of an object whose id equals the key, and no earlier object matches. None means no object matches. |
| Collections.FindFirstAfterUpdate | 6.2Prueba.py:194-216 | Rewriting the first match with an object of the same id keeps it the first match. |
| Collections.LookupAfterUpdate | 6.2Prueba.py:254-273 | After that rewrite, a lookup of the key returns the new object and a lookup of any other key is unchanged. |
| Collections.FindFirstAppendOther | 6.2Prueba.py:77 | Appending an object that does not carry the key leaves the first match of the key where it was. |
| Collections.LookupAfterAppendOther | 6.2Prueba.py:70-80 | Appending such an object to the loaded list leaves every lookup of the key as it was. |
| Collections.LookupIsFirstMatch | 6.2Prueba.py:130-168 | Display returns the first object with the id. It returns `{}` when the file is unreadable or no object matches. A non-empty answer means the object was found. |
| Collections.FilterOutId | 6.2Prueba.py:111-115 | The filter returns only objects with a different id, all taken from the input. It keeps every such object, and it never grows the list. |
| Collections.FilterOutIdAppend | 6.2Prueba.py:112-115 | The filter keeps order: filtering a concatenation concatenates the filtered parts. |
| Collections.FilterOutIdUnchanged | 6.2Prueba.py:111-118 | The filter removes nothing exactly when every entry is an object with a different id. It then returns the list unchanged. |
| Collections.DeleteByIdSucceedsIff | 6.2Prueba.py:90-128 | Delete succeeds exactly when the file is a list with an entry the filter drops. On success the surviving objects are written in order. On failure nothing is written. |
| Collections.DeleteSucceedsOnJunkAlone | 6.2Prueba.py:111-124 | Deleting id 5 from `[7, {id:1}]` succeeds although no object has id 5, and it writes `[{id:1}]`. |
| Hotels.ReserveRoomEffect | 6.2Prueba.py:232-281 | Reserve succeeds exactly when the first matching hotel's free count is a positive number. It then lowers that count by one, raises the occupied count by one, and changes nothing else. It raises TypeError exactly when the found hotel's free count is not a number; it returns False, and raises no other error, exactly for a count <= 0, a missing hotel or an unreadable file. Anything but success writes nothing. |
| Hotels.CancelReservationEffect | 6.2Prueba.py:283-333 | Give-back succeeds exactly when both counts are numbers and free < total. It then raises the free count by one, lowers the occupied count by one, and changes nothing else. It raises TypeError exactly when either count of the found hotel is not a number; it returns False, and raises no other error, exactly for free >= total, a missing hotel or an unreadable file. Anything but success writes nothing. |
| Hotels.ReservePreservesConsistency | 6.2Prueba.py:257-260 | Reserving keeps 0 <= free <= total for every hotel. |
| Hotels.CancelPreservesConsistency | 6.2Prueba.py:308-312 | Giving a room back keeps 0 <= free <= total for every hotel. |
| Hotels.ReserveThenCancelRestores | 6.2Prueba.py:232-333 | When every hotel keeps 0 <= free <= total, a successful reserve followed by a give-back restores the hotels file exactly. |
| Hotels.CancelThenReserveRestores | 6.2Prueba.py:232-333 | When every hotel keeps 0 <= free <= total, a successful give-back followed by a reserve restores the hotels file exactly. |
| Hotels.ModifiedFields | 6.2Prueba.py:197-213 | Rewriting one hotel record fails only on a new total meeting a counter that is not a number. Otherwise it sets the given fields, adds no other key, keeps the id and every other field, and keeps the occupied count. |
| Hotels.ModifyEffect | 6.2Prueba.py:170-230 | Modify succeeds exactly when the hotel is found and, if a new total is given, both stored counters are numbers. A new total meeting a counter that is not a number raises TypeError. A missing hotel or unreadable file writes nothing. Modify rewrites only the first matching hotel, and in it only the given fields change or are added (both counters when a total is given); no other key appears and the id is kept. A new total keeps the occupied count. |
| Hotels.ModifyCanMakeAvailabilityNegative | 6.2Prueba.py:203-214 | Setting the total of a 10-room hotel with 2 free rooms to 5 succeeds and writes -3 free rooms, which breaks 0 <= free. |
| Hotels.ModifyPreservesConsistencyWhenRoomsSuffice | 6.2Prueba.py:203-214 | A new total no smaller than the occupied count keeps 0 <= free <= total. |
| Hotels.Hotel.constructor | 6.2Prueba.py:26-32 | A new hotel object starts with every room free. |
| Hotels.Hotel.Create | 6.2Prueba.py:34-88 | The object takes the next id from the leniently loaded list. The file becomes that list plus the hotel's record. |
| Hotels.Hotel.Delete | 6.2Prueba.py:90-128 | Result and new file are those of delete-by-id. |
| Hotels.Hotel.DisplayInfo | 6.2Prueba.py:130-168 | The result is the lookup of the object's id. |
| Hotels.Hotel.ApplyModify | 6.2Prueba.py:197-213 | On the found record, the result is the record with the given name and state set and, for a new total, the total set and the free count recomputed so that the occupied count is kept; no result where a new total is given and a stored counter is not a number. The object takes the given name and state, and the new total and free count only when the record is produced. |
| Hotels.Hotel.ModifyInfo | 6.2Prueba.py:170-230 | The outcome and the file match the modify specification. The object takes the new name and state once the hotel is found. It takes the new total and the recomputed free count only on success. |
| Hotels.Hotel.ReserveRoom | 6.2Prueba.py:232-281 | The outcome and the file match the reserve specification. On success the object's free count is the stored one. |
| Hotels.Hotel.CancelReservation | 6.2Prueba.py:283-333 | The outcome and the file match the give-back specification. On success the object's free count is the stored one. |
| Customers.ModifyEffect | 6.2Prueba.py:478-530 | Modify succeeds exactly when a customer with the id is found. It rewrites only the first match, and in it only the given fields change or are added; no other key appears. Otherwise nothing is written. |
| Customers.Customer.constructor | 6.2Prueba.py:339-344 | The object holds the given fields and id. |
| Customers.Customer.Create | 6.2Prueba.py:346-397 | The object takes the next id from the leniently loaded list. The file becomes that list plus the customer's record. |
| Customers.Customer.Delete | 6.2Prueba.py:399-438 | Result and new file are those of delete-by-id. |
| Customers.Customer.DisplayInfo | 6.2Prueba.py:440-476 | The result is the lookup of the object's id. |
| Customers.Customer.ModifyInfo | 6.2Prueba.py:478-530 | Result and file match the modify specification. The object's fields change only on success, and only the given ones. |
| Reservations.UnreadableFilePolicy | 6.2Prueba.py:39-55 | On an unreadable file, create writes a one-object list with id 1. Display returns `{}`. Every other operation fails without writing. |
| Reservations.CreateFailsWithoutAnyWrite | 6.2Prueba.py:542-559 | A missing customer, a missing hotel, or a hotel whose free count is 0 or negative stops create before anything is written. |
| Reservations.CreateEffect | 6.2Prueba.py:542-610 | Create succeeds exactly when the customer and the hotel are found and the hotel has a free room. The hotels file is then what the reservation of a room wrote: that hotel has one room fewer and every other lookup is unchanged. `{id, customer_id, hotel_id}` is appended under the next id. Otherwise neither file changes. |
| Reservations.CancelEffect | 6.2Prueba.py:612-664 | Cancel succeeds exactly when the first reservation with the id is a non-empty object holding both ids and its hotel gives a room back. A missing reservation fails and writes nothing. Whenever the hotel's give-back fails, the reservation stays. On success the hotels file is what the give-back wrote (the named hotel regains one room, every other lookup is unchanged) and no reservation with the id remains. |
| Reservations.CreateThenCancelRestores | 6.2Prueba.py:542-664 | When every hotel keeps 0 <= free <= total and the reservations file is a readable list made only of objects with numeric ids, a successful create followed by a cancel of the new reservation restores both files exactly. |
| Reservations.FirstMatchIsAppended | 6.2Prueba.py:635-640 | An object appended after a list with no match is the list's first match. |
| Reservations.Reservation.constructor | 6.2Prueba.py:536-540 | The object holds the given customer id, hotel id and id. |
| Reservations.Reservation.Create | 6.2Prueba.py:542-610 | The outcome and both files match the create specification. The object takes the next id only on success. |
| Reservations.Reservation.Cancel | 6.2Prueba.py:612-664 | The outcome and both files match the cancel specification, including the KeyError when the record lacks a hotel or customer id. |
| Occupancy.CountForAppend | 6.2Prueba.py:599 | The number of reservations naming a hotel adds up over a concatenation. |
| Occupancy.CountForFilterNoMatch | 6.2Prueba.py:652-654 | Filtering out an id no object carries leaves every hotel's reservation count alone. |
| Occupancy.FilterKeepsUniqueIds | 6.2Prueba.py:652-654 | Filtering keeps reservation ids distinct. |
| Occupancy.FilterKeepsIdsNumeric | 6.2Prueba.py:652-654 | Filtering keeps reservation ids numeric. |
| Occupancy.EmptyLedgerIsValid | 6.2Prueba.py:24 | An empty storage directory satisfies the ledger invariant. |
| Occupancy.HotelCreateKeepsLedger | 6.2Prueba.py:34-88 | With numeric hotel ids and a total of at least 0 rooms, creating a hotel keeps the invariant. The new hotel is found with every room free and none occupied. |
| Occupancy.NewHotelIsFound | 6.2Prueba.py:57-80 | With numeric ids, a lookup of the new id finds the appended object and found nothing before the append. |
| Occupancy.CreateKeepsLedger | 6.2Prueba.py:542-610 | Reservation create keeps the invariant. On success the hotel's occupied count and its reservation count both grow by one. |
| Occupancy.OnlyMatch | 6.2Prueba.py:635-654 | With distinct ids, the first reservation with an id is the only one. |
| Occupancy.FilterAroundMatch | 6.2Prueba.py:652-654 | Filtering out the id of one object removes that object and filters the parts around it. |
| Occupancy.CountAroundOnlyMatch | 6.2Prueba.py:646-654 | Removing the only object with the id lowers the count of the hotel it names by one. |
| Occupancy.CountAfterRemovingUniqueMatch | 6.2Prueba.py:646-654 | The same, for the first match in a list with distinct ids. |
| Occupancy.CancelKeepsLedger | 6.2Prueba.py:612-664 | Reservation cancel keeps the invariant. On success the hotel's occupied count and its reservation count both shrink by one. |
| Occupancy.RecordedReservationCancels | 6.2Prueba.py:635-660 | Under the invariant, cancelling a stored reservation that holds its hotel and customer ids always succeeds. |
| Occupancy.DeleteHotelCanOrphanReservation | 6.2Prueba.py:90-128 | Deleting a hotel that a reservation names succeeds and breaks the invariant: delete neither cascades nor refuses. |
| Scenarios.Book | test_hotel_system.py:516-524 | On an empty store, creating a 50-room hotel, a customer and a reservation gives each id 1 and takes one room. |
| Scenarios.Amend | test_hotel_system.py:529-535 | Renaming the hotel and changing the customer's email change only those fields. |
| Scenarios.Release | test_hotel_system.py:537-539 | Cancelling the reservation gives the room back and empties the reservations list. |
| Scenarios.FullWorkflow | test_hotel_system.py:516-539 | The hotel shows 49 free rooms while booked and 50 after the cancel. Lookups return the new name and email. |

## Left out

- JSON text is not modelled. Parsing, serialization, indentation and the
  `ensure_ascii` setting are abstracted into `FileState`.
- File-system errors are not modelled (`IOError` and `OSError`, which every
  operation catches: display then returns `{}`, every other operation
  False), and neither is creating the output directory. In the model,
  create always succeeds.
- Console output is not modelled. Every `print` only reports.
- The class-level `output_dir` is not modelled. Changing it (as the tests
  do) only picks another directory, which the `Store` stands for.
- Concurrent processes and a crash between read and write are not modelled:
  each operation is one atomic step on the store.
- Field values that are floats, booleans, lists or nested objects are not
  modelled. Nor is Python's `True == 1` / `1 == 1.0` equality between them.
- Hotels.CancelReservationSpec: raises TypeError whenever either counter
  is not an integer. Python compares two string counters without raising
  and fails only at the `+ 1`, or returns False when the comparison is false.
- Hotels.Hotel.ReserveRoom: drops the `customer_id` parameter, which only
  feeds a printed message.
- Hotels.Hotel.CancelReservation: drops the `customer_id` parameter, which
  only feeds a printed message.
- The `__main__` demonstration script is not part of this model. It creates
  two hotels and two customers, changes a room total, and deletes a customer
  and a hotel. Only the operations it calls are modelled, not that
  sequence. `Scenarios.FullWorkflow` follows the end-to-end test instead.
- The older `6.2.py` is not part of this model.

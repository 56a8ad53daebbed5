/** A client of the three ledgers: the end-to-end workflow the test suite
    runs against an empty storage directory, driven through the objects'
    methods and checked against their contracts. */
module Scenarios {
  import opened Collections
  import opened Hotels
  import opened Customers
  import opened Reservations

  /** The hotel record of the workflow with `available` rooms free. */
  function GrandHotel(nombre: string, available: int): Record {
    HotelFields(nombre, "California", 50, available)[IdKey := Int(1)]
  }

  /** The customer record of the workflow. */
  function Alice(email: string): Record {
    CustomerFields("Alice Johnson", email, "555-0001")[IdKey := Int(1)]
  }

  /** The single reservation of the workflow. */
  function Booking(): Record {
    ReservationFields(Int(1), Int(1))[IdKey := Int(1)]
  }

  /** On an empty store: create a 50-room hotel and a customer, then book a
      room for the customer; everything gets id 1 and one room is taken. */
  method Book(store: Store) returns (hotel: Hotel, customer: Customer, reservation: Reservation)
    requires store.hotels == Missing && store.customers == Missing && store.reservations == Missing
    modifies store
    ensures fresh(hotel) && fresh(customer) && fresh(reservation)
    ensures hotel.id == Int(1) && customer.id == Int(1) && reservation.id == Int(1)
    ensures store.hotels == Entries([Dict(GrandHotel("Grand Hotel", 49))])
    ensures store.customers == Entries([Dict(Alice("alice@email.com"))])
    ensures store.reservations == Entries([Dict(Booking())])
  {
    hotel := new Hotel("Grand Hotel", "California", 50, Null);
    hotel.Create(store);
    assert !HasDict([]);
    var h0 := GrandHotel("Grand Hotel", 50);
    assert store.hotels == Entries([Dict(h0)]);
    assert FindFirst([Dict(h0)], Int(1)) == Some(0) by { assert Matches(Dict(h0), Int(1)); }

    customer := new Customer("Alice Johnson", "alice@email.com", "555-0001", Null);
    customer.Create(store);
    var c0 := Alice("alice@email.com");
    assert store.customers == Entries([Dict(c0)]);
    assert FindFirst([Dict(c0)], Int(1)) == Some(0) by { assert Matches(Dict(c0), Int(1)); }

    reservation := new Reservation(customer.id, hotel.id, Null);
    var created := reservation.Create(store);
    assert h0[Disponibles := Int(49)] == GrandHotel("Grand Hotel", 49);
  }

  /** Rename the booked hotel and change the customer's email. */
  method Amend(store: Store, hotel: Hotel, customer: Customer)
    requires hotel.id == Int(1) && customer.id == Int(1)
    requires store.hotels == Entries([Dict(GrandHotel("Grand Hotel", 49))])
    requires store.customers == Entries([Dict(Alice("alice@email.com"))])
    modifies store`hotels, store`customers, hotel, customer
    ensures hotel.id == Int(1) && customer.id == Int(1)
    ensures store.hotels == Entries([Dict(GrandHotel("Grand Palace Hotel", 49))])
    ensures store.customers == Entries([Dict(Alice("alice.johnson@email.com"))])
  {
    var h := GrandHotel("Grand Hotel", 49);
    assert FindFirst([Dict(h)], Int(1)) == Some(0) by { assert Matches(Dict(h), Int(1)); }
    var renamed := hotel.ModifyInfo(store, Some("Grand Palace Hotel"), None, None);
    assert h[Nombre := Str("Grand Palace Hotel")] == GrandHotel("Grand Palace Hotel", 49);

    var c := Alice("alice@email.com");
    assert FindFirst([Dict(c)], Int(1)) == Some(0) by { assert Matches(Dict(c), Int(1)); }
    var changed := customer.ModifyInfo(store, None, Some("alice.johnson@email.com"), None);
    assert c[Email := Str("alice.johnson@email.com")] == Alice("alice.johnson@email.com");
  }

  /** Cancel the booking: the room goes back and the reservation disappears. */
  method Release(store: Store, reservation: Reservation)
    requires reservation.id == Int(1)
    requires store.hotels == Entries([Dict(GrandHotel("Grand Palace Hotel", 49))])
    requires store.reservations == Entries([Dict(Booking())])
    modifies store`hotels, store`reservations
    ensures store.hotels == Entries([Dict(GrandHotel("Grand Palace Hotel", 50))])
    ensures store.reservations == Entries([])
  {
    var h := GrandHotel("Grand Palace Hotel", 49);
    assert FindFirst([Dict(h)], Int(1)) == Some(0) by { assert Matches(Dict(h), Int(1)); }
    assert FindFirst([Dict(Booking())], Int(1)) == Some(0) by { assert Matches(Dict(Booking()), Int(1)); }
    var cancelled := reservation.Cancel(store);
    assert h[Disponibles := Int(50)] == GrandHotel("Grand Palace Hotel", 50);
    assert FilterOutId([Dict(Booking())], Int(1)) == [] by { assert [Dict(Booking())][1..] == []; }
  }

  /** The whole workflow: the hotel shows 49 free rooms while the booking
      stands, the new name and email are what a lookup returns, and the
      hotel shows 50 free rooms again after the cancellation. */
  method FullWorkflow() returns (booked: int, released: int, hotelName: Value, email: Value)
    ensures booked == 49 && released == 50
    ensures hotelName == Str("Grand Palace Hotel") && email == Str("alice.johnson@email.com")
  {
    var store := new Store();
    var hotel, customer, reservation := Book(store);
    var h := GrandHotel("Grand Hotel", 49);
    assert FindFirst([Dict(h)], Int(1)) == Some(0) by { assert Matches(Dict(h), Int(1)); }
    var info := hotel.DisplayInfo(store);
    booked := GetInt(info, Disponibles).value;

    Amend(store, hotel, customer);
    h := GrandHotel("Grand Palace Hotel", 49);
    assert FindFirst([Dict(h)], Int(1)) == Some(0) by { assert Matches(Dict(h), Int(1)); }
    info := hotel.DisplayInfo(store);
    hotelName := Get(info, Nombre);
    var c := Alice("alice.johnson@email.com");
    assert FindFirst([Dict(c)], Int(1)) == Some(0) by { assert Matches(Dict(c), Int(1)); }
    var customerInfo := customer.DisplayInfo(store);
    email := Get(customerInfo, Email);

    Release(store, reservation);
    h := GrandHotel("Grand Palace Hotel", 50);
    assert FindFirst([Dict(h)], Int(1)) == Some(0) by { assert Matches(Dict(h), Int(1)); }
    info := hotel.DisplayInfo(store);
    released := GetInt(info, Disponibles).value;
  }
}

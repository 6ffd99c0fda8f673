/**
 * The controller actions that change the database, as the methods of one
 * object whose fields are the tables. Every id comes from one counter,
 * `nextId`, standing in for the tables' auto-increment keys. Each action is
 * proved against the rule functions of the other modules: a refused request
 * leaves every table as it was, an accepted one changes the tables exactly
 * as the matching function says.
 */
module Controllers {
  import opened Schema
  import opened SoftDelete
  import opened BookingRules
  import opened PaymentRules
  import opened HotelRules
  import opened ReviewRules
  import opened Cascades

  /** Every key of `m` is below `n`. */
  predicate KeysBelow<V>(m: map<Id, V>, n: nat) {
    forall k :: k in m ==> k < n
  }

  /**
   * What the schema and the actions keep: keys come from the counter `n`,
   * each detail and each payment belongs to a booking row (deleted or not), a
   * booking has at most one payment, and no detail ends before it starts.
   */
  ghost predicate Consistent(t: Tables, n: nat) {
    && KeysBelow(t.hotels, n) && KeysBelow(t.bookings, n) && KeysBelow(t.details, n)
    && KeysBelow(t.payments, n) && KeysBelow(t.reviews, n)
    && (forall k :: k in t.details ==> t.details[k].val.bookingId in t.bookings)
    && (forall p :: p in t.payments ==> t.payments[p].bookingId in t.bookings)
    && OnePaymentPerBooking(t.payments)
    && WellFormedDetails(t.details)
  }

  /** Every row of `u` is a row of `t` for the same booking and the same dates. */
  predicate DetailsKept(t: Table<BookingDetail>, u: Table<BookingDetail>) {
    forall k :: k in u ==>
      && k in t
      && u[k].val.bookingId == t[k].val.bookingId
      && u[k].val.dateIn == t[k].val.dateIn && u[k].val.dateOut == t[k].val.dateOut
  }

  /** Every payment of `u` is a payment of `t` for the same booking. */
  predicate PaymentsKept(t: map<Id, Payment>, u: map<Id, Payment>) {
    forall p :: p in u ==> p in t && u[p].bookingId == t[p].bookingId
  }

  /**
   * An action that adds no key, drops no booking row and moves no detail or
   * payment to another booking keeps the tables consistent.
   */
  lemma StaysConsistent(t: Tables, u: Tables, n: nat)
    requires Consistent(t, n)
    requires u.hotels.Keys <= t.hotels.Keys && u.bookings.Keys == t.bookings.Keys && u.reviews.Keys <= t.reviews.Keys
    requires DetailsKept(t.details, u.details) && PaymentsKept(t.payments, u.payments)
    ensures Consistent(u, n)
  {
  }

  /**
   * The details of a new booking `b` fit the table: their keys follow the
   * existing ones, each belongs to a booking row, and each ends no earlier
   * than it starts.
   */
  lemma NewRowsFit(details: Table<BookingDetail>, bookings: Table<Booking>, b: Id, booked: seq<Id>, dateIn: int, dateOut: int)
    requires KeysBelow(details, b + 1) && WellFormedDetails(details)
    requires forall k :: k in details ==> details[k].val.bookingId in bookings
    requires b in bookings && dateIn <= dateOut
    ensures var nd := details + NewDetails(b + 1, b, booked, dateIn, dateOut);
            && details.Keys <= nd.Keys
            && KeysBelow(nd, b + 1 + |booked|)
            && WellFormedDetails(nd)
            && (forall k :: k in nd ==> nd[k].val.bookingId in bookings)
  {
    var added := NewDetails(b + 1, b, booked, dateIn, dateOut);
    NewDetailsKeys(b + 1, b, booked, dateIn, dateOut);
    forall k | k in added
      ensures added[k].val.bookingId == b && added[k].val.dateIn == dateIn && added[k].val.dateOut == dateOut
    {
      NewDetailsAt(b + 1, b, booked, dateIn, dateOut, k - (b + 1));
    }
  }

  /** A new booking `b`, to which no earlier detail belongs, has one live detail per booked room. */
  lemma NewDetailCount(details: Table<BookingDetail>, b: Id, booked: seq<Id>, dateIn: int, dateOut: int)
    requires forall k :: k in details ==> k < b + 1 && details[k].val.bookingId < b
    ensures |DetailsOf(details + NewDetails(b + 1, b, booked, dateIn, dateOut), b)| == |booked|
  {
    NewBookingDetails(details, b + 1, b, booked, dateIn, dateOut);
  }

  /** The tables once booking `store` has saved the row of booking `b`, with a zero total. */
  function Inserted(t: Tables, b: Id, caller: Caller, req: BookingRequest): Tables
  {
    t.(bookings := t.bookings[b := Row(NewBooking(caller, req, 0), false)])
  }

  /**
   * The tables once booking `store` has saved everything for booking `b`:
   * the row with its total, one detail per room of `booked` under the keys
   * after `b`, and the unpaid payment under the key after those.
   */
  function Stored(t: Tables, b: Id, caller: Caller, req: BookingRequest, booked: seq<Id>, days: int): Tables
  {
    var total := TotalPrice(t.rooms, t.categories, booked, days);
    t.(bookings := t.bookings[b := Row(NewBooking(caller, req, total), false)],
       details := t.details + NewDetails(b + 1, b, booked, req.dateIn, req.dateOut),
       payments := t.payments[b + 1 + |booked| := Payment(b, total, 0)])
  }

  /**
   * The saves of a new booking `b` keep the tables consistent: its details
   * and its payment take the next keys, and the booking has one detail per
   * booked room.
   */
  lemma BookingSaved(t: Tables, b: Id, caller: Caller, req: BookingRequest, booked: seq<Id>, days: int)
    requires Consistent(t, b + 1)
    requires b in t.bookings && req.dateIn <= req.dateOut
    requires forall k :: k in t.details ==> t.details[k].val.bookingId < b
    requires forall q :: q in t.payments ==> t.payments[q].bookingId < b
    ensures var u := Stored(t, b, caller, req, booked, days);
            Consistent(u, b + 2 + |booked|) && |DetailsOf(u.details, b)| == |booked|
  {
    var total := TotalPrice(t.rooms, t.categories, booked, days);
    var nd := t.details + NewDetails(b + 1, b, booked, req.dateIn, req.dateOut);
    var bs := t.bookings[b := Row(NewBooking(caller, req, total), false)];
    var ps := t.payments[b + 1 + |booked| := Payment(b, total, 0)];
    var u := Stored(t, b, caller, req, booked, days);
    var n := b + 2 + |booked|;
    assert forall k :: k in t.details ==> t.details[k].val.bookingId in bs;
    NewRowsFit(t.details, bs, b, booked, req.dateIn, req.dateOut);
    NewDetailCount(t.details, b, booked, req.dateIn, req.dateOut);
    PaymentAdded(t.payments, bs, b, b + 1 + |booked|, Payment(b, total, 0));
    assert u.hotels == t.hotels && u.reviews == t.reviews;
    assert u.bookings == bs && u.details == nd && u.payments == ps;
    assert KeysBelow(u.hotels, n) && KeysBelow(u.reviews, n) && KeysBelow(u.bookings, n);
    assert KeysBelow(u.details, n) && KeysBelow(u.payments, n);
    assert forall k :: k in u.details ==> u.details[k].val.bookingId in u.bookings;
    assert forall q :: q in u.payments ==> u.payments[q].bookingId in u.bookings;
    assert OnePaymentPerBooking(u.payments) && WellFormedDetails(u.details);
  }

  /**
   * A booking row saved under the next key keeps the tables consistent, and
   * no detail or payment belongs to it yet.
   */
  lemma BookingInserted(t: Tables, n: nat, caller: Caller, req: BookingRequest)
    requires Consistent(t, n)
    ensures Consistent(Inserted(t, n, caller, req), n + 1)
    ensures n !in t.bookings
    ensures forall k :: k in t.details ==> t.details[k].val.bookingId < n
    ensures forall q :: q in t.payments ==> t.payments[q].bookingId < n
  {
    var u := Inserted(t, n, caller, req);
    assert u.hotels == t.hotels && u.reviews == t.reviews && u.details == t.details && u.payments == t.payments;
    assert t.bookings.Keys <= u.bookings.Keys;
  }

  /** Saving the full booking over its first row is the same as saving it at once. */
  lemma StoredOverInserted(t: Tables, b: Id, caller: Caller, req: BookingRequest, booked: seq<Id>, days: int)
    ensures Stored(Inserted(t, b, caller, req), b, caller, req, booked, days) == Stored(t, b, caller, req, booked, days)
  {
    var total := TotalPrice(t.rooms, t.categories, booked, days);
    UpdateTwice(t.bookings, b, Row(NewBooking(caller, req, 0), false), Row(NewBooking(caller, req, total), false));
  }

  /** A payment for a booking `b` that has none, under a fresh key `p`. */
  lemma PaymentAdded(payments: map<Id, Payment>, bookings: Table<Booking>, b: Id, p: Id, payment: Payment)
    requires OnePaymentPerBooking(payments) && KeysBelow(payments, b + 1) && b < p
    requires forall q :: q in payments ==> payments[q].bookingId < b && payments[q].bookingId in bookings
    requires payment.bookingId == b && b in bookings
    ensures var ps := payments[p := payment];
            && OnePaymentPerBooking(ps) && KeysBelow(ps, p + 1)
            && forall q :: q in ps ==> ps[q].bookingId in bookings
  {
  }

  /** A second save of the same row wins over the first. */
  lemma UpdateTwice<V>(m: map<Id, V>, k: Id, x: V, y: V)
    ensures m[k := x][k := y] == m[k := y]
  {
  }

  class Db {
    var hotels: Table<Hotel>
    var hotelImages: Table<HotelImage>
    var categories: Table<Category>
    var categoryImages: Table<CategoryImage>
    var rooms: Table<Room>
    var bookings: Table<Booking>
    var details: Table<BookingDetail>
    var payments: map<Id, Payment>
    var reviews: Table<Review>
    var replies: Table<Reply>
    var nextId: nat

    /** All the tables as one value. */
    function State(): Tables
      reads this
    {
      Tables(hotels, hotelImages, categories, categoryImages, rooms, bookings, details, payments, reviews, replies)
    }

    /** The tables are consistent with the counter. */
    ghost predicate Valid()
      reads this
    {
      Consistent(State(), nextId)
    }

    /** An empty database. */
    constructor ()
      ensures Valid()
      ensures State() == Tables(map[], map[], map[], map[], map[], map[], map[], map[], map[], map[])
    {
      hotels, hotelImages, categories, categoryImages, rooms := map[], map[], map[], map[], map[];
      bookings, details, payments, reviews, replies := map[], map[], map[], map[], map[];
      nextId := 0;
    }

    /**
     * Booking `store`. A refused request stores nothing. Otherwise the
     * booking row is saved with a zero total; if a requested room is missing
     * or its category is deleted the request fails there and the booking row
     * stays behind. Otherwise each booked room gets an 'unpaid' detail, the
     * booking its total, and a payment row is created for that total.
     */
    method StoreBooking(caller: Caller, req: BookingRequest) returns (r: Check)
      requires Valid()
      modifies this
      ensures Valid()
      ensures var check := CheckBookingRequest(old(hotels), old(rooms), old(details), caller, req);
              && (check.Fail? ==> r == check && State() == old(State()) && nextId == old(nextId))
              && (check.Pass? ==> r == RoomsCheck(old(rooms), old(categories), req.roomIds, req.hotelId))
              && (check.Pass? && r.Fail? ==>
                    State() == Inserted(old(State()), old(nextId), caller, req) && nextId == old(nextId) + 1)
      ensures var b := old(nextId);
              r.Pass? ==>
                var booked := RoomsToBook(req.roomIds, req.roomCount);
                && State() == Stored(old(State()), b, caller, req, booked, StayDays(req.dateIn, req.dateOut))
                && nextId == b + 2 + |booked|
                && |DetailsOf(details, b)| == |booked|
    {
      r := CheckBookingRequest(hotels, rooms, details, caller, req);
      if r.Pass? {
        r := PlaceBooking(caller, req, RoomsToBook(req.roomIds, req.roomCount), StayDays(req.dateIn, req.dateOut));
      }
    }

    /**
     * The saves of booking `store` once its checks have passed, for the rooms
     * `booked` and a stay of `days` days.
     */
    method PlaceBooking(caller: Caller, req: BookingRequest, booked: seq<Id>, days: int) returns (r: Check)
      requires Valid()
      requires forall i :: 0 <= i < |req.roomIds| ==> Live(rooms, req.roomIds[i])
      requires req.dateIn <= req.dateOut
      modifies this
      ensures Valid()
      ensures r == RoomsCheck(old(rooms), old(categories), req.roomIds, req.hotelId)
      ensures r.Fail? ==> State() == Inserted(old(State()), old(nextId), caller, req) && nextId == old(nextId) + 1
      ensures r.Pass? ==>
                && State() == Stored(old(State()), old(nextId), caller, req, booked, days)
                && nextId == old(nextId) + 2 + |booked|
                && |DetailsOf(details, old(nextId))| == |booked|
    {
      ghost var t0 := State();
      var b := nextId;
      bookings := bookings[b := Row(NewBooking(caller, req, 0), false)];
      nextId := b + 1;
      ghost var t1 := State();
      assert t1 == Inserted(t0, b, caller, req);
      BookingInserted(t0, b, caller, req);
      r := ScanRooms(rooms, categories, req.roomIds, req.hotelId);
      if r.Fail? {
        return;
      }
      AddBookingRows(caller, req, b, booked, days);
      StoredOverInserted(t0, b, caller, req, booked, days);
      assert State() == Stored(t1, b, caller, req, booked, days);
    }

    /**
     * The `foreach` of booking `store` and what follows it: one detail per
     * booked room, the booking's total, and the payment.
     */
    method AddBookingRows(caller: Caller, req: BookingRequest, b: Id, booked: seq<Id>, days: int)
      requires Valid()
      requires b + 1 == nextId && b in bookings && req.dateIn <= req.dateOut
      requires forall k :: k in details ==> details[k].val.bookingId < b
      requires forall q :: q in payments ==> payments[q].bookingId < b
      modifies this
      ensures Valid()
      ensures State() == Stored(old(State()), b, caller, req, booked, days)
      ensures nextId == b + 2 + |booked|
      ensures |DetailsOf(details, b)| == |booked|
    {
      ghost var t := State();
      var newDetails, total := CreateDetails(details, b + 1, b, booked, req.dateIn, req.dateOut, rooms, categories, days);
      bookings := bookings[b := Row(NewBooking(caller, req, total), false)];
      details := newDetails;
      payments := payments[b + 1 + |booked| := Payment(b, total, 0)];
      nextId := b + 2 + |booked|;
      BookingSaved(t, b, caller, req, booked, days);
    }

    /**
     * `acceptBooking`: once the checks pass, the booking and each of its
     * live details become 'accepted'.
     */
    method AcceptBooking(caller: Caller, id: Id) returns (r: Check)
      requires Valid()
      modifies this
      ensures Valid()
      ensures nextId == old(nextId)
      ensures r == CheckPendingDecision(old(hotels), old(bookings), caller, id)
      ensures r.Fail? ==> State() == old(State())
      ensures r.Pass? ==>
                State() == old(State()).(bookings := old(bookings)[id := Row(old(bookings)[id].val.(status := Accepted), false)],
                                         details := SetStatus(old(details), DetailsOf(old(details), id), Accepted, false))
    {
      r := CheckPendingDecision(hotels, bookings, caller, id);
      if r.Fail? {
        return;
      }
      bookings := bookings[id := Row(bookings[id].val.(status := Accepted), false)];
      details := MarkDetails(details, DetailsOf(details, id), Accepted, false);
      StaysConsistent(old(State()), State(), nextId);
    }

    /**
     * `rejectBooking`: once the checks pass, the booking becomes 'rejected'
     * and each of its live details becomes 'rejected' and is deleted.
     */
    method RejectBooking(caller: Caller, id: Id) returns (r: Check)
      requires Valid()
      modifies this
      ensures Valid()
      ensures nextId == old(nextId)
      ensures r == CheckPendingDecision(old(hotels), old(bookings), caller, id)
      ensures r.Fail? ==> State() == old(State())
      ensures r.Pass? ==>
                State() == old(State()).(bookings := old(bookings)[id := Row(old(bookings)[id].val.(status := Rejected), false)],
                                         details := SetStatus(old(details), DetailsOf(old(details), id), Rejected, true))
    {
      r := CheckPendingDecision(hotels, bookings, caller, id);
      if r.Fail? {
        return;
      }
      bookings := bookings[id := Row(bookings[id].val.(status := Rejected), false)];
      details := MarkDetails(details, DetailsOf(details, id), Rejected, true);
      StaysConsistent(old(State()), State(), nextId);
    }

    /**
     * Payment `update`. After the checks the new status is saved whatever it
     * is; a status other than 1 then fails the request with the payment
     * changed. A status of 1 makes the booking 'pending' and paid; a deleted
     * hotel then fails the request (its owner cannot be read) with those
     * saves done; otherwise the booking's details are confirmed.
     */
    method UpdatePayment(caller: Caller, b: Id, status: int) returns (r: Check)
      requires Valid()
      modifies this
      ensures Valid()
      ensures nextId == old(nextId)
      ensures var t := old(State());
              var check := CheckPaymentUpdate(t.bookings, t.payments, caller, b);
              if check.Fail? then r == check && State() == t
              else
                var p := PaymentOf(t.payments, b).value;
                var paid := t.payments[p := t.payments[p].(paymentStatus := status)];
                var booking := t.bookings[b := Row(t.bookings[b].val.(status := Pending, isPayment := true), false)];
                if status != PaymentDone then
                  r == Fail(PaymentNotUpdated) && State() == t.(payments := paid)
                else if !Live(t.hotels, t.bookings[b].val.hotelId) then
                  r == Fail(BrokenReference) && State() == t.(payments := paid, bookings := booking)
                else
                  r == Pass && State() == t.(payments := paid, bookings := booking,
                                             details := Confirmed(t.details, DetailsOf(t.details, b)))
    {
      if !Live(bookings, b) {
        return Fail(ValidationError);
      }
      if bookings[b].val.userId != caller.id {
        return Fail(Forbidden);
      }
      if !exists p :: p in payments && payments[p].bookingId == b {
        return Fail(NotFound);
      }
      var p :| p in payments && payments[p].bookingId == b;
      PaymentOfUnique(payments, p);
      if payments[p].paymentStatus == PaymentDone {
        return Fail(PaymentAlreadyDone);
      }
      payments := payments[p := payments[p].(paymentStatus := status)];
      StaysConsistent(old(State()), State(), nextId);
      if status != PaymentDone {
        return Fail(PaymentNotUpdated);
      }
      ghost var paid := State();
      bookings := bookings[b := Row(bookings[b].val.(status := Pending, isPayment := true), false)];
      StaysConsistent(paid, State(), nextId);
      if !Live(hotels, bookings[b].val.hotelId) {
        return Fail(BrokenReference);
      }
      ghost var booked := State();
      details := PurgeDuplicates(details, DetailsOf(details, b));
      ConfirmedKeepsSlots(booked.details, DetailsOf(booked.details, b));
      StaysConsistent(booked, State(), nextId);
      r := Pass;
    }

    /**
     * Payment `deleteByBookingId`: the booking's payment is removed for good,
     * and the booking has no payment left.
     */
    method DeletePaymentOfBooking(b: Id) returns (r: Check)
      requires Valid()
      modifies this
      ensures Valid()
      ensures nextId == old(nextId)
      ensures PaymentOf(old(payments), b).Err? ==> r == Fail(NotFound) && State() == old(State())
      ensures PaymentOf(old(payments), b).Ok? ==>
                r == Pass && State() == old(State()).(payments := old(payments) - {PaymentOf(old(payments), b).value})
      ensures forall p :: p in payments ==> p in old(payments) && payments[p] == old(payments)[p]
      ensures r.Pass? ==> forall p :: p in payments ==> payments[p].bookingId != b
    {
      if !exists p :: p in payments && payments[p].bookingId == b {
        return Fail(NotFound);
      }
      var p :| p in payments && payments[p].bookingId == b;
      PaymentOfUnique(payments, p);
      payments := payments - {p};
      StaysConsistent(old(State()), State(), nextId);
      r := Pass;
    }

    /** Payment `destroy`: the payment with this id is removed for good. */
    method DestroyPayment(id: Id) returns (r: Check)
      requires Valid()
      modifies this
      ensures Valid()
      ensures nextId == old(nextId)
      ensures r.Pass? <==> id in old(payments)
      ensures r.Fail? ==> r == Fail(NotFound) && State() == old(State())
      ensures r.Pass? ==> State() == old(State()).(payments := old(payments) - {id})
    {
      if id !in payments {
        return Fail(NotFound);
      }
      payments := payments - {id};
      StaysConsistent(old(State()), State(), nextId);
      r := Pass;
    }

    /** The category cascade of a delete: the categories, then their live rooms and images. */
    method MarkCategories(cs: set<Id>)
      requires Valid()
      modifies this
      ensures Valid()
      ensures nextId == old(nextId)
      ensures State() == DeleteCategories(old(State()), cs)
    {
      var rs := Children(rooms, CategoryOfRoom, cs, false);
      var imgs := Children(categoryImages, CategoryOfImage, cs, false);
      categories := MarkAll(categories, cs, true);
      rooms := MarkAll(rooms, rs, true);
      categoryImages := MarkAll(categoryImages, imgs, true);
      StaysConsistent(old(State()), State(), nextId);
    }

    /** The category cascade of a restore: the categories, then their trashed rooms and images. */
    method UnmarkCategories(cs: set<Id>)
      requires Valid()
      modifies this
      ensures Valid()
      ensures nextId == old(nextId)
      ensures State() == RestoreCategories(old(State()), cs)
    {
      var rs := Children(rooms, CategoryOfRoom, cs, true);
      var imgs := Children(categoryImages, CategoryOfImage, cs, true);
      categories := MarkAll(categories, cs, false);
      rooms := MarkAll(rooms, rs, false);
      categoryImages := MarkAll(categoryImages, imgs, false);
      StaysConsistent(old(State()), State(), nextId);
    }

    /** Category `destroy`: the category, its live rooms and its live images. */
    method DestroyCategory(caller: Caller, id: Id) returns (r: Check)
      requires Valid()
      modifies this
      ensures Valid()
      ensures nextId == old(nextId)
      ensures r == CheckCategory(old(State()), caller, id, false)
      ensures r.Fail? ==> State() == old(State())
      ensures r.Pass? ==> State() == DeleteCategories(old(State()), {id})
    {
      r := CheckCategory(State(), caller, id, false);
      if r.Pass? {
        MarkCategories({id});
      }
    }

    /** Category `restore`: the category, its trashed rooms and its trashed images. */
    method RestoreCategory(caller: Caller, id: Id) returns (r: Check)
      requires Valid()
      modifies this
      ensures Valid()
      ensures nextId == old(nextId)
      ensures r == CheckCategory(old(State()), caller, id, true)
      ensures r.Fail? ==> State() == old(State())
      ensures r.Pass? ==> State() == RestoreCategories(old(State()), {id})
    {
      r := CheckCategory(State(), caller, id, true);
      if r.Pass? {
        UnmarkCategories({id});
      }
    }

    /** `deleteCategoryByHotelId`: every live category of the hotel, with its live rooms and images. */
    method DeleteCategoriesOfHotel(caller: Caller, h: Id) returns (r: Check)
      requires Valid()
      modifies this
      ensures Valid()
      ensures nextId == old(nextId)
      ensures r == CheckHotelCategories(old(State()), caller, h, false)
      ensures r.Fail? ==> State() == old(State())
      ensures r.Pass? ==> State() == DeleteCategories(old(State()), Children(old(categories), HotelOfCategory, {h}, false))
    {
      r := CheckHotelCategories(State(), caller, h, false);
      if r.Pass? {
        MarkCategories(Children(categories, HotelOfCategory, {h}, false));
      }
    }

    /** `restoreByHotelId`: every trashed category of the hotel, with its trashed rooms and images. */
    method RestoreCategoriesOfHotel(caller: Caller, h: Id) returns (r: Check)
      requires Valid()
      modifies this
      ensures Valid()
      ensures nextId == old(nextId)
      ensures r == CheckHotelCategories(old(State()), caller, h, true)
      ensures r.Fail? ==> State() == old(State())
      ensures r.Pass? ==> State() == RestoreCategories(old(State()), Children(old(categories), HotelOfCategory, {h}, true))
    {
      r := CheckHotelCategories(State(), caller, h, true);
      if r.Pass? {
        UnmarkCategories(Children(categories, HotelOfCategory, {h}, true));
      }
    }

    /** `updatePriceByCategoryId`: the category's price, and nothing else. */
    method UpdateCategoryPrice(caller: Caller, id: Id, price: int) returns (r: Check)
      requires Valid()
      modifies this
      ensures Valid()
      ensures nextId == old(nextId)
      ensures r == CheckPriceUpdate(old(State()), caller, id, price)
      ensures r.Fail? ==> State() == old(State())
      ensures r.Pass? ==>
                State() == old(State()).(categories := old(categories)[id := Row(old(categories)[id].val.(price := price), false)])
    {
      r := CheckPriceUpdate(State(), caller, id, price);
      if r.Pass? {
        categories := categories[id := Row(categories[id].val.(price := price), false)];
        StaysConsistent(old(State()), State(), nextId);
      }
    }

    /** Hotel `store`: a new hotel with the next id. */
    method StoreHotel(caller: Caller, info: HotelInfo, checkOut: int, now: int) returns (r: Check, id: Id)
      requires Valid()
      modifies this
      ensures Valid()
      ensures r == CheckNewHotel(old(hotels), caller, info)
      ensures r.Fail? ==> State() == old(State()) && nextId == old(nextId)
      ensures r.Pass? ==>
                && id == old(nextId) && id !in old(hotels)
                && State() == old(State()).(hotels := old(hotels)[id := Row(NewHotel(caller, info, checkOut, now), false)])
                && nextId == old(nextId) + 1
    {
      r := CheckNewHotel(hotels, caller, info);
      id := nextId;
      if r.Pass? {
        hotels := hotels[id := Row(NewHotel(caller, info, checkOut, now), false)];
        nextId := nextId + 1;
      }
    }

    /** Hotel `update`: every descriptive field is replaced; creator, rating and check-in/out stay. */
    method UpdateHotel(caller: Caller, id: Id, info: HotelInfo) returns (r: Check)
      requires Valid()
      modifies this
      ensures Valid()
      ensures nextId == old(nextId)
      ensures r == CheckHotelUpdate(old(hotels), caller, id, info)
      ensures r.Fail? ==> State() == old(State())
      ensures r.Pass? ==> State() == old(State()).(hotels := old(hotels)[id := Row(old(hotels)[id].val.(info := info), false)])
    {
      r := CheckHotelUpdate(hotels, caller, id, info);
      if r.Pass? {
        hotels := hotels[id := Row(hotels[id].val.(info := info), false)];
        StaysConsistent(old(State()), State(), nextId);
      }
    }

    /** The hotel's own part of its cascades: the hotel row, the images `imgs` and the bookings `bs`. */
    method MarkHotelRows(id: Id, imgs: set<Id>, bs: set<Id>, flag: bool)
      requires Valid()
      modifies this
      ensures Valid()
      ensures nextId == old(nextId)
      ensures State() == old(State()).(hotels := WithDeleted(old(hotels), {id}, flag),
                                       hotelImages := WithDeleted(old(hotelImages), imgs, flag),
                                       bookings := WithDeleted(old(bookings), bs, flag))
    {
      hotels := MarkAll(hotels, {id}, flag);
      hotelImages := MarkAll(hotelImages, imgs, flag);
      bookings := MarkAll(bookings, bs, flag);
      StaysConsistent(old(State()), State(), nextId);
    }

    /** Hotel `destroy`: the hotel and everything its delete cascade reaches. */
    method DestroyHotel(caller: Caller, id: Id) returns (r: Check)
      requires Valid()
      modifies this
      ensures Valid()
      ensures nextId == old(nextId)
      ensures r == CheckHotel(old(State()), caller, id, false)
      ensures r.Fail? ==> State() == old(State())
      ensures r.Pass? ==> State() == DestroyHotelTables(old(State()), id)
    {
      r := CheckHotel(State(), caller, id, false);
      if r.Fail? {
        return;
      }
      var bs := Children(bookings, HotelOfBooking, {id}, false);
      var rs := Children(reviews, BookingOfReview, bs, false);
      var imgs := Children(hotelImages, HotelOfImage, {id}, false);
      MarkCategories(Children(categories, HotelOfCategory, {id}, false));
      MarkReviews(rs);
      MarkHotelRows(id, imgs, bs, true);
    }

    /** Hotel `restore`: the hotel and everything its restore cascade reaches. */
    method RestoreHotel(caller: Caller, id: Id) returns (r: Check)
      requires Valid()
      modifies this
      ensures Valid()
      ensures nextId == old(nextId)
      ensures r == CheckHotel(old(State()), caller, id, true)
      ensures r.Fail? ==> State() == old(State())
      ensures r.Pass? ==> State() == RestoreHotelTables(old(State()), id)
    {
      r := CheckHotel(State(), caller, id, true);
      if r.Fail? {
        return;
      }
      var bs := Children(bookings, HotelOfBooking, {id}, true);
      var rs := Children(reviews, BookingOfReview, bs, true);
      var imgs := Children(hotelImages, HotelOfImage, {id}, true);
      UnmarkCategories(Children(categories, HotelOfCategory, {id}, true));
      UnmarkReviews(rs);
      MarkHotelRows(id, imgs, bs, false);
    }

    /** Review `store`: a new review with the next id. */
    method StoreReview(caller: Caller, bookingId: Id, title: string, content: string, rating: int) returns (r: Check, id: Id)
      requires Valid()
      modifies this
      ensures Valid()
      ensures r == CheckNewReview(old(bookings), old(reviews), bookingId, title, content, rating)
      ensures r.Fail? ==> State() == old(State()) && nextId == old(nextId)
      ensures r.Pass? ==>
                && id == old(nextId) && id !in old(reviews)
                && State() == old(State()).(reviews := old(reviews)[id := Row(NewReview(caller, bookingId, content, rating), false)])
                && nextId == old(nextId) + 1
    {
      r := CheckNewReview(bookings, reviews, bookingId, title, content, rating);
      id := nextId;
      if r.Pass? {
        reviews := reviews[id := Row(NewReview(caller, bookingId, content, rating), false)];
        nextId := nextId + 1;
      }
    }

    /** Review `update`: title, content and rating of a live review, whoever asks. */
    method UpdateReview(id: Id, title: string, content: string, rating: int) returns (r: Check)
      requires Valid()
      modifies this
      ensures Valid()
      ensures nextId == old(nextId)
      ensures r.Pass? <==> ReviewUpdateValid(title, content) && Live(old(reviews), id)
      ensures !ReviewUpdateValid(title, content) ==> r == Fail(ValidationError)
      ensures r.Fail? ==> State() == old(State())
      ensures r.Pass? ==>
                State() == old(State()).(reviews := old(reviews)[id := Row(old(reviews)[id].val.(title := title, content := content, rating := rating), false)])
    {
      if !ReviewUpdateValid(title, content) {
        return Fail(ValidationError);
      }
      if !Live(reviews, id) {
        return Fail(NotFound);
      }
      reviews := reviews[id := Row(reviews[id].val.(title := title, content := content, rating := rating), false)];
      StaysConsistent(old(State()), State(), nextId);
      r := Pass;
    }

    /** The review cascade of a delete: the reviews, then their live replies. */
    method MarkReviews(rs: set<Id>)
      requires Valid()
      modifies this
      ensures Valid()
      ensures nextId == old(nextId)
      ensures State() == DeleteReviews(old(State()), rs)
    {
      var ps := Children(replies, ReviewOfReply, rs, false);
      reviews := MarkAll(reviews, rs, true);
      replies := MarkAll(replies, ps, true);
      StaysConsistent(old(State()), State(), nextId);
    }

    /** The review cascade of a restore: the reviews, then their trashed replies. */
    method UnmarkReviews(rs: set<Id>)
      requires Valid()
      modifies this
      ensures Valid()
      ensures nextId == old(nextId)
      ensures State() == RestoreReviews(old(State()), rs)
    {
      var ps := Children(replies, ReviewOfReply, rs, true);
      reviews := MarkAll(reviews, rs, false);
      replies := MarkAll(replies, ps, false);
      StaysConsistent(old(State()), State(), nextId);
    }

    /** Review `destroy`: a live review and its live replies. */
    method DestroyReview(id: Id) returns (r: Check)
      requires Valid()
      modifies this
      ensures Valid()
      ensures nextId == old(nextId)
      ensures r.Pass? <==> Live(old(reviews), id)
      ensures r.Fail? ==> r == Fail(NotFound) && State() == old(State())
      ensures r.Pass? ==> State() == DeleteReviews(old(State()), {id})
    {
      if !Live(reviews, id) {
        return Fail(NotFound);
      }
      MarkReviews({id});
      r := Pass;
    }

    /** Review `restore`: a trashed review and its trashed replies. */
    method RestoreReview(id: Id) returns (r: Check)
      requires Valid()
      modifies this
      ensures Valid()
      ensures nextId == old(nextId)
      ensures r.Pass? <==> Trashed(old(reviews), id)
      ensures r.Fail? ==> r == Fail(NotFound) && State() == old(State())
      ensures r.Pass? ==> State() == RestoreReviews(old(State()), {id})
    {
      if !Trashed(reviews, id) {
        return Fail(NotFound);
      }
      UnmarkReviews({id});
      r := Pass;
    }

    /** Review `deleteByHotelId`: the live reviews of the hotel's live bookings, with their live replies. */
    method DeleteReviewsOfHotel(h: Id) returns (r: Check)
      requires Valid()
      modifies this
      ensures Valid()
      ensures nextId == old(nextId)
      ensures var found := ReviewsOfHotel(old(reviews), old(bookings), h);
              if found.Err? then r == Fail(found.error) && State() == old(State())
              else r == Pass && State() == DeleteReviews(old(State()), found.value)
    {
      var found := ReviewsOfHotel(reviews, bookings, h);
      if found.Err? {
        return Fail(found.error);
      }
      MarkReviews(found.value);
      r := Pass;
    }

    /** Review `deleteByUserId`: the user's live reviews, with their live replies. */
    method DeleteReviewsOfUser(u: Id) returns (r: Check)
      requires Valid()
      modifies this
      ensures Valid()
      ensures nextId == old(nextId)
      ensures var found := ReviewsOfUser(old(reviews), u);
              if found.Err? then r == Fail(found.error) && State() == old(State())
              else r == Pass && State() == DeleteReviews(old(State()), found.value)
    {
      var found := ReviewsOfUser(reviews, u);
      if found.Err? {
        return Fail(found.error);
      }
      MarkReviews(found.value);
      r := Pass;
    }
  }
}

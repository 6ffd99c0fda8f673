/**
 * The booking rules of `BookingController::store`: who may book, the length of
 * a stay, the date-conflict test, which requested rooms become booking
 * details, and the price of a booking. Also the decision shared by
 * `acceptBooking` and `rejectBooking`.
 */
module BookingRules {
  import opened Schema
  import opened SoftDelete

  const SecondsPerDay: int := 86400
  const MinStayDays: int := 1
  const MaxStayDays: int := 7

  /** The stay length in whole days: the difference in seconds divided by 86400, rounded down. */
  function StayDays(dateIn: int, dateOut: int): (days: int)
    ensures days * SecondsPerDay <= dateOut - dateIn < (days + 1) * SecondsPerDay
  {
    (dateOut - dateIn) / SecondsPerDay
  }

  /**
   * The stay-length rule: 1 <= days <= 7. A stay of exactly one day and one of
   * exactly seven days are both accepted; anything from eight whole days on is not.
   */
  predicate StayAccepted(dateIn: int, dateOut: int): (ok: bool)
    ensures ok <==> SecondsPerDay <= dateOut - dateIn < (MaxStayDays + 1) * SecondsPerDay
  {
    MinStayDays <= StayDays(dateIn, dateOut) <= MaxStayDays
  }

  /**
   * The three-way date test of the conflict query: the detail starts inside
   * [checkIn, checkOut], or ends inside it, or spans all of it.
   */
  predicate DatesClash(d: BookingDetail, checkIn: int, checkOut: int) {
    || (checkIn <= d.dateIn && d.dateIn <= checkOut)
    || (checkIn <= d.dateOut && d.dateOut <= checkOut)
    || (d.dateIn <= checkIn && d.dateOut >= checkOut)
  }

  /** Closed-interval overlap, the test the availability search uses. */
  predicate Overlaps(aIn: int, aOut: int, bIn: int, bOut: int) {
    aIn <= bOut && aOut >= bIn
  }

  /** For well-formed intervals the three-way test is exactly closed-interval overlap. */
  lemma DatesClashIsOverlap(d: BookingDetail, checkIn: int, checkOut: int)
    requires d.dateIn <= d.dateOut && checkIn <= checkOut
    ensures DatesClash(d, checkIn, checkOut) <==> Overlaps(d.dateIn, d.dateOut, checkIn, checkOut)
  {
  }

  /** The details whose dates are well formed, as every stored detail is. */
  predicate WellFormedDetails(details: Table<BookingDetail>) {
    forall k :: k in details ==> details[k].val.dateIn <= details[k].val.dateOut
  }

  /** The request body of `store`. */
  datatype BookingRequest = BookingRequest(hotelId: Id, roomCount: int, dateIn: int, dateOut: int, roomIds: seq<Id>)

  /** The validator: the hotel exists and is not deleted, and so is every requested room (at least one). */
  predicate RequestValid(hotels: Table<Hotel>, rooms: Table<Room>, req: BookingRequest) {
    && Live(hotels, req.hotelId)
    && |req.roomIds| > 0
    && forall i :: 0 <= i < |req.roomIds| ==> Live(rooms, req.roomIds[i])
  }

  /**
   * Detail `k` makes the conflict query find a row for room `roomId`: it is not
   * deleted, its status is not 'unpaid', and its dates clash with the request.
   */
  predicate BlocksRequest(details: Table<BookingDetail>, k: Id, roomId: Id, checkIn: int, checkOut: int) {
    && Live(details, k)
    && details[k].val.roomId == roomId
    && DatesClash(details[k].val, checkIn, checkOut)
    && details[k].val.status != Unpaid
  }

  /**
   * The conflict query. It passes the whole list of room ids to a single
   * `where('room_id', …)`, and the query builder binds only the first element
   * of such a list: only the first requested room is checked.
   */
  predicate FirstRoomConflict(details: Table<BookingDetail>, req: BookingRequest)
    requires |req.roomIds| > 0
  {
    exists k :: k in details && BlocksRequest(details, k, req.roomIds[0], req.dateIn, req.dateOut)
  }

  /**
   * Everything `store` checks before it saves the booking row, in the order it
   * checks it. A refused request stores nothing.
   */
  function CheckBookingRequest(hotels: Table<Hotel>, rooms: Table<Room>, details: Table<BookingDetail>,
                               caller: Caller, req: BookingRequest): (r: Check)
    ensures caller.role != UserRole ==> r == Fail(Forbidden)
    ensures caller.role == UserRole && !RequestValid(hotels, rooms, req) ==> r == Fail(ValidationError)
    ensures r.Pass? <==>
              && caller.role == UserRole
              && RequestValid(hotels, rooms, req)
              && req.roomCount <= |req.roomIds|
              && MinStayDays <= StayDays(req.dateIn, req.dateOut) <= MaxStayDays
              && !FirstRoomConflict(details, req)
    ensures r.Pass? && WellFormedDetails(details) ==>
              forall k :: Live(details, k) && details[k].val.roomId == req.roomIds[0] && details[k].val.status != Unpaid ==>
                !Overlaps(details[k].val.dateIn, details[k].val.dateOut, req.dateIn, req.dateOut)
  {
    // Roles 'hotel' and 'admin' may not book.
    if caller.role != UserRole then Fail(Forbidden)
    else if !RequestValid(hotels, rooms, req) then Fail(ValidationError)
    else if req.roomCount > |req.roomIds| then Fail(RoomCountTooLarge)
    else if !StayAccepted(req.dateIn, req.dateOut) then Fail(StayLengthRefused)
    else if FirstRoomConflict(details, req) then Fail(DatesUnavailable)
    else
      assert forall k :: k in details && details[k].val.dateIn <= details[k].val.dateOut ==>
               (DatesClash(details[k].val, req.dateIn, req.dateOut) <==>
                Overlaps(details[k].val.dateIn, details[k].val.dateOut, req.dateIn, req.dateOut));
      Pass
  }

  /**
   * A room later in the request may already be held by a pending booking over
   * the same dates and still the request passes the conflict test.
   */
  lemma OnlyFirstRoomChecked()
    ensures
      var info := HotelInfo("h", "a", "0123456789", "e", "", 1, 0, 1, "", "", 2, "c", "n", 10);
      var hotels := map[1 := Row(Hotel(5, info, 0, 0, 0), false)];
      var rooms := map[10 := Row(Room(3, "r1"), false), 11 := Row(Room(3, "r2"), false)];
      var details := map[20 := Row(BookingDetail(2, 11, 0, SecondsPerDay, Pending), false)];
      var req := BookingRequest(1, 2, 0, SecondsPerDay, [10, 11]);
      && CheckBookingRequest(hotels, rooms, details, Caller(7, UserRole), req) == Pass
      && BlocksRequest(details, 20, req.roomIds[1], req.dateIn, req.dateOut)
  {
  }

  /**
   * After saving the booking, `store` looks every requested room up and
   * refuses the rest of the work unless the room's category is not deleted
   * and belongs to the requested hotel.
   */
  predicate RoomsInHotel(rooms: Table<Room>, categories: Table<Category>, roomIds: seq<Id>, hotelId: Id) {
    forall i :: 0 <= i < |roomIds| ==>
      && Live(rooms, roomIds[i])
      && Live(categories, rooms[roomIds[i]].val.categoryId)
      && categories[rooms[roomIds[i]].val.categoryId].val.hotelId == hotelId
  }

  /**
   * The room check after the booking is saved, room by room in request
   * order: a room whose category is deleted makes the code read a property of
   * null, and a room of another hotel answers "room not found". Either way the
   * booking row stays.
   */
  function RoomsCheck(rooms: Table<Room>, categories: Table<Category>, roomIds: seq<Id>, hotelId: Id): (r: Check)
    requires forall i :: 0 <= i < |roomIds| ==> Live(rooms, roomIds[i])
    ensures r.Pass? <==> RoomsInHotel(rooms, categories, roomIds, hotelId)
    ensures r.Fail? ==> r.error == BrokenReference || r.error == RoomNotFound
    ensures r == Fail(BrokenReference) ==> exists i :: 0 <= i < |roomIds| && !Live(categories, rooms[roomIds[i]].val.categoryId)
    decreases |roomIds|
  {
    if roomIds == [] then Pass
    else
      assert Live(rooms, roomIds[0]);
      var c := rooms[roomIds[0]].val.categoryId;
      if !Live(categories, c) then Fail(BrokenReference)
      else if categories[c].val.hotelId != hotelId then Fail(RoomNotFound)
      else
        var rest := RoomsCheck(rooms, categories, roomIds[1..], hotelId);
        assert forall i :: 1 <= i < |roomIds| ==> roomIds[i] == roomIds[1..][i - 1];
        rest
  }

  /** The `foreach` over the requested rooms that returns at the first bad one. */
  method ScanRooms(rooms: Table<Room>, categories: Table<Category>, roomIds: seq<Id>, hotelId: Id) returns (r: Check)
    requires forall i :: 0 <= i < |roomIds| ==> Live(rooms, roomIds[i])
    ensures r == RoomsCheck(rooms, categories, roomIds, hotelId)
  {
    var i := 0;
    while i < |roomIds|
      invariant 0 <= i <= |roomIds|
      invariant RoomsCheck(rooms, categories, roomIds, hotelId) == RoomsCheck(rooms, categories, roomIds[i..], hotelId)
    {
      var c := rooms[roomIds[i]].val.categoryId;
      if !Live(categories, c) {
        return Fail(BrokenReference);
      }
      if categories[c].val.hotelId != hotelId {
        return Fail(RoomNotFound);
      }
      assert roomIds[i..][1..] == roomIds[i + 1..];
      i := i + 1;
    }
    return Pass;
  }

  /**
   * `array_slice($roomIds, 0, $roomCount)`: the rooms that get a booking
   * detail. A negative count stops that many elements before the end.
   */
  function RoomsToBook(roomIds: seq<Id>, roomCount: int): (r: seq<Id>)
    requires roomCount <= |roomIds|
    ensures |r| <= |roomIds| && r == roomIds[..|r|]
    ensures roomCount >= 0 ==> |r| == roomCount
    ensures roomCount < 0 ==> |r| == if |roomIds| + roomCount > 0 then |roomIds| + roomCount else 0
  {
    var len := if roomCount >= 0 then roomCount
               else if |roomIds| + roomCount > 0 then |roomIds| + roomCount
               else 0;
    roomIds[..len]
  }

  /** The price per night of a room: the price of its category. */
  function RoomPrice(rooms: Table<Room>, categories: Table<Category>, roomId: Id): int {
    if roomId in rooms && rooms[roomId].val.categoryId in categories
    then categories[rooms[roomId].val.categoryId].val.price
    else 0
  }

  /** `total_amount`: the running sum, room after room, of price times days. */
  function TotalPrice(rooms: Table<Room>, categories: Table<Category>, ids: seq<Id>, days: int): int
    decreases |ids|
  {
    if ids == [] then 0
    else TotalPrice(rooms, categories, ids[..|ids| - 1], days) + RoomPrice(rooms, categories, ids[|ids| - 1]) * days
  }

  /**
   * When every booked room has the same price, the total is "price * days *
   * room count", as the comment at the summation says.
   */
  lemma {:induction false} TotalPriceUniform(rooms: Table<Room>, categories: Table<Category>, ids: seq<Id>,
                                             days: int, price: int)
    requires forall i :: 0 <= i < |ids| ==> RoomPrice(rooms, categories, ids[i]) == price
    ensures TotalPrice(rooms, categories, ids, days) == price * days * |ids|
    decreases |ids|
  {
    if ids != [] {
      var init := ids[..|ids| - 1];
      TotalPriceUniform(rooms, categories, init, days, price);
      assert price * days * |ids| == price * days * |init| + price * days;
    }
  }

  /** With prices that are not negative (the validator's number pattern) the total is not negative either. */
  lemma {:induction false} TotalPriceNonNegative(rooms: Table<Room>, categories: Table<Category>, ids: seq<Id>, days: int)
    requires days >= 0
    requires forall c :: c in categories ==> categories[c].val.price >= 0
    ensures TotalPrice(rooms, categories, ids, days) >= 0
    decreases |ids|
  {
    if ids != [] {
      TotalPriceNonNegative(rooms, categories, ids[..|ids| - 1], days);
      var p := RoomPrice(rooms, categories, ids[|ids| - 1]);
      assert p >= 0;
      assert p * days >= 0;
    }
  }

  /** The ids of the live details of a booking: `$booking->bookingDetail`. */
  function DetailsOf(details: Table<BookingDetail>, bookingId: Id): (r: set<Id>)
    ensures forall k :: k in r <==> Live(details, k) && details[k].val.bookingId == bookingId
  {
    set k | k in details && Live(details, k) && details[k].val.bookingId == bookingId
  }

  /** The detail rows created for booking `bookingId`, one per room, with ids from `start` on. */
  function NewDetails(start: Id, bookingId: Id, roomIds: seq<Id>, dateIn: int, dateOut: int): Table<BookingDetail>
    decreases |roomIds|
  {
    if roomIds == [] then map[]
    else
      var n := |roomIds| - 1;
      NewDetails(start, bookingId, roomIds[..n], dateIn, dateOut)[start + n := Row(BookingDetail(bookingId, roomIds[n], dateIn, dateOut, Unpaid), false)]
  }

  /** The new detail rows take the keys from `start` on, one per room. */
  lemma {:induction false} NewDetailsKeys(start: Id, bookingId: Id, roomIds: seq<Id>, dateIn: int, dateOut: int)
    ensures var r := NewDetails(start, bookingId, roomIds, dateIn, dateOut);
            && (forall k :: k in r <==> start <= k < start + |roomIds|)
            && |r| == |roomIds|
    decreases |roomIds|
  {
    if roomIds != [] {
      var n := |roomIds| - 1;
      NewDetailsKeys(start, bookingId, roomIds[..n], dateIn, dateOut);
    }
  }

  /** The i-th new detail reserves the i-th booked room for the request's dates, unpaid. */
  lemma {:induction false} NewDetailsAt(start: Id, bookingId: Id, roomIds: seq<Id>, dateIn: int, dateOut: int, i: nat)
    requires i < |roomIds|
    ensures start + i in NewDetails(start, bookingId, roomIds, dateIn, dateOut)
    ensures NewDetails(start, bookingId, roomIds, dateIn, dateOut)[start + i]
            == Row(BookingDetail(bookingId, roomIds[i], dateIn, dateOut, Unpaid), false)
    decreases |roomIds|
  {
    var n := |roomIds| - 1;
    if i < n {
      NewDetailsAt(start, bookingId, roomIds[..n], dateIn, dateOut, i);
      assert roomIds[..n][i] == roomIds[i];
    }
  }

  /** The live details of a new booking are exactly the new detail rows. */
  lemma NewBookingDetailIds(details: Table<BookingDetail>, start: Id, bookingId: Id, booked: seq<Id>, dateIn: int, dateOut: int)
    requires forall k :: k in details ==> k < start && details[k].val.bookingId != bookingId
    ensures DetailsOf(details + NewDetails(start, bookingId, booked, dateIn, dateOut), bookingId)
            == NewDetails(start, bookingId, booked, dateIn, dateOut).Keys
  {
    var added := NewDetails(start, bookingId, booked, dateIn, dateOut);
    var t := details + added;
    NewDetailsKeys(start, bookingId, booked, dateIn, dateOut);
    forall k | k in added
      ensures t[k] == added[k] && Live(t, k) && t[k].val.bookingId == bookingId
    {
      NewDetailsAt(start, bookingId, booked, dateIn, dateOut, k - start);
    }
  }

  /**
   * A new booking, whose id no earlier detail refers to, ends up with exactly
   * one live detail per booked room: the i-th booked room gets the i-th new
   * detail, carrying the request's dates and the status 'unpaid'.
   */
  lemma NewBookingDetails(details: Table<BookingDetail>, start: Id, bookingId: Id, booked: seq<Id>, dateIn: int, dateOut: int)
    requires forall k :: k in details ==> k < start && details[k].val.bookingId != bookingId
    ensures var t := details + NewDetails(start, bookingId, booked, dateIn, dateOut);
            && |DetailsOf(t, bookingId)| == |booked|
            && (forall i :: 0 <= i < |booked| ==>
                  start + i in DetailsOf(t, bookingId)
                  && t[start + i].val == BookingDetail(bookingId, booked[i], dateIn, dateOut, Unpaid))
  {
    var added := NewDetails(start, bookingId, booked, dateIn, dateOut);
    NewBookingDetailIds(details, start, bookingId, booked, dateIn, dateOut);
    NewDetailsKeys(start, bookingId, booked, dateIn, dateOut);
    assert |added.Keys| == |added| == |booked|;
    forall i | 0 <= i < |booked|
      ensures start + i in added
      ensures (details + added)[start + i].val == BookingDetail(bookingId, booked[i], dateIn, dateOut, Unpaid)
    {
      NewDetailsAt(start, bookingId, booked, dateIn, dateOut, i);
    }
  }

  /** Adding one row to the new rows is adding it to the whole table. */
  lemma UnionUpdate(a: Table<BookingDetail>, b: Table<BookingDetail>, k: Id, v: Row<BookingDetail>)
    ensures a + b[k := v] == (a + b)[k := v]
  {
    var lhs := a + b[k := v];
    var rhs := (a + b)[k := v];
    assert lhs.Keys == rhs.Keys;
    forall j | j in lhs ensures lhs[j] == rhs[j] {
      if j != k && j in b {
        assert lhs[j] == b[j];
      }
    }
  }

  /** The detail for the next booked room extends the table by one row. */
  lemma AddDetail(details: Table<BookingDetail>, start: Id, bookingId: Id, booked: seq<Id>, dateIn: int, dateOut: int, i: nat)
    requires i < |booked|
    ensures (details + NewDetails(start, bookingId, booked[..i], dateIn, dateOut))[start + i := Row(BookingDetail(bookingId, booked[i], dateIn, dateOut, Unpaid), false)]
            == details + NewDetails(start, bookingId, booked[..i + 1], dateIn, dateOut)
  {
    var row := Row(BookingDetail(bookingId, booked[i], dateIn, dateOut, Unpaid), false);
    var added := NewDetails(start, bookingId, booked[..i], dateIn, dateOut);
    assert booked[..i + 1][..i] == booked[..i];
    assert NewDetails(start, bookingId, booked[..i + 1], dateIn, dateOut) == added[start + i := row];
    UnionUpdate(details, added, start + i, row);
  }

  /** The running total after one more room. */
  lemma AddPrice(rooms: Table<Room>, categories: Table<Category>, booked: seq<Id>, days: int, i: nat)
    requires i < |booked|
    ensures TotalPrice(rooms, categories, booked[..i + 1], days)
            == TotalPrice(rooms, categories, booked[..i], days) + RoomPrice(rooms, categories, booked[i]) * days
  {
    assert booked[..i + 1][..i] == booked[..i];
  }

  /**
   * The `foreach` of `store` over the booked rooms: each gets a detail row
   * with the next id, and the running total grows by the room's price times
   * the days.
   */
  method CreateDetails(details: Table<BookingDetail>, start: Id, bookingId: Id, booked: seq<Id>,
                       dateIn: int, dateOut: int, rooms: Table<Room>, categories: Table<Category>, days: int)
    returns (r: Table<BookingDetail>, total: int)
    ensures r == details + NewDetails(start, bookingId, booked, dateIn, dateOut)
    ensures total == TotalPrice(rooms, categories, booked, days)
  {
    r := details;
    total := 0;
    var i := 0;
    assert booked[..0] == [];
    assert details + map[] == details;
    while i < |booked|
      invariant 0 <= i <= |booked|
      invariant r == details + NewDetails(start, bookingId, booked[..i], dateIn, dateOut)
      invariant total == TotalPrice(rooms, categories, booked[..i], days)
    {
      AddDetail(details, start, bookingId, booked, dateIn, dateOut, i);
      AddPrice(rooms, categories, booked, days, i);
      r := r[start + i := Row(BookingDetail(bookingId, booked[i], dateIn, dateOut, Unpaid), false)];
      total := total + RoomPrice(rooms, categories, booked[i]) * days;
      i := i + 1;
    }
    assert booked[..i] == booked;
  }

  /**
   * The details `ks` with status `s`, and deleted too when `trash`: the
   * `foreach` of `acceptBooking` (save) and of `rejectBooking` (save, then delete).
   */
  function SetStatus(details: Table<BookingDetail>, ks: set<Id>, s: Status, trash: bool): Table<BookingDetail> {
    map k | k in details :: if k in ks then Row(details[k].val.(status := s), trash || details[k].deleted) else details[k]
  }

  /** The loop that sets the status of the details `ks` one at a time. */
  method MarkDetails(details: Table<BookingDetail>, ks: set<Id>, s: Status, trash: bool) returns (r: Table<BookingDetail>)
    requires ks <= details.Keys
    ensures r == SetStatus(details, ks, s, trash)
  {
    r := details;
    var todo := ks;
    while todo != {}
      invariant todo <= ks
      invariant r == SetStatus(details, ks - todo, s, trash)
      decreases todo
    {
      var k :| k in todo;
      r := r[k := Row(r[k].val.(status := s), trash || r[k].deleted)];
      todo := todo - {k};
    }
  }

  /**
   * After `acceptBooking` the booking has the same live details as before,
   * all 'accepted'; the details of other bookings are as they were.
   */
  lemma AcceptMarksDetails(details: Table<BookingDetail>, b: Id)
    ensures var r := SetStatus(details, DetailsOf(details, b), Accepted, false);
            && DetailsOf(r, b) == DetailsOf(details, b)
            && (forall k :: k in DetailsOf(r, b) ==> r[k].val == details[k].val.(status := Accepted))
            && (forall k :: k in details && k !in DetailsOf(details, b) ==> k in r && r[k] == details[k])
  {
    var r := SetStatus(details, DetailsOf(details, b), Accepted, false);
    assert forall k :: k in r <==> k in details;
  }

  /**
   * After `rejectBooking` the booking has no live detail left: each of its
   * former details is deleted and 'rejected'; the booking row itself stays.
   */
  lemma RejectRemovesDetails(details: Table<BookingDetail>, b: Id)
    ensures var r := SetStatus(details, DetailsOf(details, b), Rejected, true);
            && DetailsOf(r, b) == {}
            && (forall k :: k in DetailsOf(details, b) ==> Trashed(r, k) && r[k].val.status == Rejected)
            && (forall k :: k in details && k !in DetailsOf(details, b) ==> k in r && r[k] == details[k])
  {
    var r := SetStatus(details, DetailsOf(details, b), Rejected, true);
    assert forall k :: k !in DetailsOf(r, b);
  }

  /** The booking row `store` saves, before `total_amount` is known. */
  function NewBooking(caller: Caller, req: BookingRequest, total: int): Booking {
    Booking(caller.id, req.hotelId, req.roomCount, total, Unpaid, false, req.dateIn, req.dateOut)
  }

  /**
   * The checks `acceptBooking` and `rejectBooking` share: a hotel-role caller,
   * a booking that is not deleted, its hotel created by the caller, and the
   * booking still 'pending'. (A deleted hotel makes the code read a property of
   * null, which fails the request.)
   */
  function CheckPendingDecision(hotels: Table<Hotel>, bookings: Table<Booking>, caller: Caller, id: Id): (r: Check)
    ensures caller.role != HotelRole ==> r == Fail(Forbidden)
    ensures r.Pass? <==>
              && caller.role == HotelRole
              && Live(bookings, id)
              && Live(hotels, bookings[id].val.hotelId)
              && hotels[bookings[id].val.hotelId].val.createdBy == caller.id
              && bookings[id].val.status == Pending
  {
    if caller.role != HotelRole then Fail(Forbidden)
    else if !Live(bookings, id) then Fail(NotFound)
    else if !Live(hotels, bookings[id].val.hotelId) then Fail(BrokenReference)
    else if hotels[bookings[id].val.hotelId].val.createdBy != caller.id then Fail(Forbidden)
    else if bookings[id].val.status != Pending then Fail(NotFound)
    else Pass
  }
}

/**
 * The availability searches of `CategoryController`: which rooms of a hotel
 * are free over a date range, grouped by category, and how many rooms of one
 * category are free. Both are read-only queries over the tables.
 */
module Availability {
  import opened Schema
  import opened SoftDelete
  import opened Ordering
  import opened BookingRules

  /** The live categories of a hotel: `Category::where('hotel_id', …)`. */
  function HotelCategories(categories: Table<Category>, hotelId: Id): (r: set<Id>)
    ensures forall c :: c in r <==> Live(categories, c) && categories[c].val.hotelId == hotelId
  {
    set c | c in categories && Live(categories, c) && categories[c].val.hotelId == hotelId
  }

  /** The live rooms of those categories: `Room::whereIn('category_id', …)`. */
  function HotelRooms(categories: Table<Category>, rooms: Table<Room>, hotelId: Id): (r: set<Id>)
    ensures forall k :: k in r <==> Live(rooms, k) && rooms[k].val.categoryId in HotelCategories(categories, hotelId)
  {
    set k | k in rooms && Live(rooms, k) && rooms[k].val.categoryId in HotelCategories(categories, hotelId)
  }

  /** A detail holds its room over [dateIn, dateOut]: the closed ranges meet and it is not 'unpaid'. */
  predicate Holds(d: BookingDetail, dateIn: int, dateOut: int) {
    Overlaps(d.dateIn, d.dateOut, dateIn, dateOut) && d.status != Unpaid
  }

  /** The rooms among `roomIds` that some live detail holds over the range: `$roomBooked`. */
  function BlockedRooms(details: Table<BookingDetail>, roomIds: set<Id>, dateIn: int, dateOut: int): (r: set<Id>)
    ensures forall x :: x in r <==>
              x in roomIds && exists k :: Live(details, k) && details[k].val.roomId == x && Holds(details[k].val, dateIn, dateOut)
  {
    set k | k in details && Live(details, k) && details[k].val.roomId in roomIds && Holds(details[k].val, dateIn, dateOut)
      :: details[k].val.roomId
  }

  /** The hotel's rooms that no live, non-'unpaid' detail holds over the range. */
  function AvailableRooms(categories: Table<Category>, rooms: Table<Room>, details: Table<BookingDetail>,
                          hotelId: Id, dateIn: int, dateOut: int): (r: set<Id>)
    ensures forall x :: x in r <==>
              && x in HotelRooms(categories, rooms, hotelId)
              && !exists k :: Live(details, k) && details[k].val.roomId == x && Holds(details[k].val, dateIn, dateOut)
  {
    var hotelRooms := HotelRooms(categories, rooms, hotelId);
    hotelRooms - BlockedRooms(details, hotelRooms, dateIn, dateOut)
  }

  /**
   * `exists()` on the conflict query: some live detail of one of the hotel's
   * rooms holds it over the range. The search computes the same answer
   * whichever way this comes out.
   */
  predicate AnyConflict(categories: Table<Category>, rooms: Table<Room>, details: Table<BookingDetail>,
                        hotelId: Id, dateIn: int, dateOut: int) {
    exists k :: k in details && Live(details, k) && details[k].val.roomId in HotelRooms(categories, rooms, hotelId)
                && Holds(details[k].val, dateIn, dateOut)
  }

  /** With no conflict, every room of the hotel is available. */
  lemma NoConflictAllAvailable(categories: Table<Category>, rooms: Table<Room>, details: Table<BookingDetail>,
                               hotelId: Id, dateIn: int, dateOut: int)
    requires !AnyConflict(categories, rooms, details, hotelId, dateIn, dateOut)
    ensures AvailableRooms(categories, rooms, details, hotelId, dateIn, dateOut) == HotelRooms(categories, rooms, hotelId)
  {
  }

  /**
   * A request `store` accepts leaves its first room available over its own
   * dates: the booking conflict test and the search agree on that room.
   */
  lemma AcceptedRequestFirstRoomAvailable(hotels: Table<Hotel>, categories: Table<Category>, rooms: Table<Room>,
                                          details: Table<BookingDetail>, caller: Caller, req: BookingRequest)
    requires WellFormedDetails(details)
    requires CheckBookingRequest(hotels, rooms, details, caller, req) == Pass
    requires req.roomIds[0] in HotelRooms(categories, rooms, req.hotelId)
    ensures req.roomIds[0] in AvailableRooms(categories, rooms, details, req.hotelId, req.dateIn, req.dateOut)
  {
  }

  /** The live rooms of category `c` that are not in `blocked`: one `roomIDPerDisplay` entry. */
  function CategoryRooms(rooms: Table<Room>, c: Id, blocked: set<Id>): (r: set<Id>)
    ensures forall k :: k in r <==> Live(rooms, k) && rooms[k].val.categoryId == c && k !in blocked
  {
    set k | k in rooms && Live(rooms, k) && rooms[k].val.categoryId == c && k !in blocked
  }

  /** One category of the answer, with its free-room count and the ids of its free rooms. */
  datatype CategoryOffer = CategoryOffer(categoryId: Id, roomCount: int, roomIds: set<Id>)

  /** The ids, each once, in the order of their first occurrence: `unique('id')`. */
  function Dedupe(s: seq<Id>): (r: seq<Id>)
    ensures Distinct(r)
    ensures forall x :: x in r <==> x in s
    decreases |s|
  {
    if s == [] then []
    else
      var init := s[..|s| - 1];
      var rest := Dedupe(init);
      assert forall x :: x in s <==> x in init || x == s[|s| - 1];
      if s[|s| - 1] in rest then rest else rest + [s[|s| - 1]]
  }

  /** The category of each room, in order: `$roomAvailable->map(fn => $item->category)`. */
  function CategoriesOf(rooms: Table<Room>, s: seq<Id>): (r: seq<Id>)
    requires forall i :: 0 <= i < |s| ==> s[i] in rooms
    ensures |r| == |s|
    ensures forall i :: 0 <= i < |s| ==> r[i] == rooms[s[i]].val.categoryId
    decreases |s|
  {
    if s == [] then [] else [rooms[s[0]].val.categoryId] + CategoriesOf(rooms, s[1..])
  }

  /** The offers for a list of categories, one per category, in that order. */
  function Offers(rooms: Table<Room>, cats: seq<Id>, blocked: set<Id>): (r: seq<CategoryOffer>)
    ensures |r| == |cats|
    ensures forall i :: 0 <= i < |r| ==>
              && r[i].categoryId == cats[i]
              && r[i].roomIds == CategoryRooms(rooms, cats[i], blocked)
              && r[i].roomCount == |r[i].roomIds|
    decreases |cats|
  {
    if cats == [] then []
    else
      var ids := CategoryRooms(rooms, cats[0], blocked);
      [CategoryOffer(cats[0], |ids|, ids)] + Offers(rooms, cats[1..], blocked)
  }

  /**
   * The answer of the hotel search: the categories of the available rooms,
   * each once, in the order the room rows come (taken as ascending id), each
   * with its free rooms and their count.
   */
  ghost function HotelOffers(categories: Table<Category>, rooms: Table<Room>, details: Table<BookingDetail>,
                             hotelId: Id, dateIn: int, dateOut: int): seq<CategoryOffer>
  {
    var hotelRooms := HotelRooms(categories, rooms, hotelId);
    var blocked := BlockedRooms(details, hotelRooms, dateIn, dateOut);
    var avail := hotelRooms - blocked;
    var ordered := SortAsc(avail, IdKey(avail));
    Offers(rooms, Dedupe(CategoriesOf(rooms, ordered)), blocked)
  }

  /**
   * `getCategoryByCheckInCheckOutHotel`: the request needs `dateOut` after
   * `dateIn` and a stay of at most 7 whole days; the search then answers
   * with the offers, the same whether or not a conflict exists.
   */
  ghost function SearchByHotel(categories: Table<Category>, rooms: Table<Room>, details: Table<BookingDetail>,
                               hotelId: Id, dateIn: int, dateOut: int): (r: Result<seq<CategoryOffer>>)
    ensures r == Err(ValidationError) <==> dateOut <= dateIn
    ensures r == Err(StayTooLong) <==> dateIn < dateOut && StayDays(dateIn, dateOut) > MaxStayDays
    ensures r.Ok? <==> dateIn < dateOut && StayDays(dateIn, dateOut) <= MaxStayDays
  {
    if dateOut <= dateIn then Err(ValidationError)
    else if StayDays(dateIn, dateOut) > MaxStayDays then Err(StayTooLong)
    else Ok(HotelOffers(categories, rooms, details, hotelId, dateIn, dateOut))
  }

  /**
   * Every offered category has free rooms, its room ids are exactly the
   * available rooms of that category, and its count is their number.
   */
  lemma HotelOffersExact(categories: Table<Category>, rooms: Table<Room>, details: Table<BookingDetail>,
                         hotelId: Id, dateIn: int, dateOut: int)
    ensures var offers := HotelOffers(categories, rooms, details, hotelId, dateIn, dateOut);
            var avail := AvailableRooms(categories, rooms, details, hotelId, dateIn, dateOut);
            forall i :: 0 <= i < |offers| ==>
              && offers[i].roomCount == |offers[i].roomIds| > 0
              && forall x :: x in offers[i].roomIds <==> x in avail && rooms[x].val.categoryId == offers[i].categoryId
  {
    var hotelRooms := HotelRooms(categories, rooms, hotelId);
    var blocked := BlockedRooms(details, hotelRooms, dateIn, dateOut);
    var avail := hotelRooms - blocked;
    assert AvailableRooms(categories, rooms, details, hotelId, dateIn, dateOut) == avail;
    var ordered := SortAsc(avail, IdKey(avail));
    var cats := Dedupe(CategoriesOf(rooms, ordered));
    assert HotelOffers(categories, rooms, details, hotelId, dateIn, dateOut) == Offers(rooms, cats, blocked);
    OffersExact(categories, rooms, hotelId, blocked, ordered, cats);
  }

  /**
   * Offers for categories of rooms listed in `ordered`, all of them free
   * rooms of the hotel, are non-empty and hold exactly the free rooms of
   * their category.
   */
  lemma OffersExact(categories: Table<Category>, rooms: Table<Room>, hotelId: Id, blocked: set<Id>,
                    ordered: seq<Id>, cats: seq<Id>)
    requires forall i :: 0 <= i < |ordered| ==> ordered[i] in HotelRooms(categories, rooms, hotelId) - blocked
    requires forall i :: 0 <= i < |ordered| ==> ordered[i] in rooms
    requires forall c :: c in cats ==> c in CategoriesOf(rooms, ordered)
    ensures var offers := Offers(rooms, cats, blocked);
            forall i :: 0 <= i < |offers| ==>
              && offers[i].roomCount == |offers[i].roomIds| > 0
              && forall x :: x in offers[i].roomIds <==>
                   x in HotelRooms(categories, rooms, hotelId) - blocked && rooms[x].val.categoryId == offers[i].categoryId
  {
    var offers := Offers(rooms, cats, blocked);
    var catsOfRooms := CategoriesOf(rooms, ordered);
    forall i | 0 <= i < |offers|
      ensures offers[i].roomCount == |offers[i].roomIds| > 0
      ensures forall x :: x in offers[i].roomIds <==>
                x in HotelRooms(categories, rooms, hotelId) - blocked && rooms[x].val.categoryId == offers[i].categoryId
    {
      var c := cats[i];
      assert c in catsOfRooms;
      var j :| 0 <= j < |catsOfRooms| && catsOfRooms[j] == c;
      var x0 := ordered[j];
      assert rooms[x0].val.categoryId == c;
      CategoryOfferExact(categories, rooms, hotelId, blocked, c);
      assert x0 in offers[i].roomIds;
    }
  }

  /** The free rooms of one of the hotel's categories are the available rooms of that category. */
  lemma CategoryOfferExact(categories: Table<Category>, rooms: Table<Room>, hotelId: Id, blocked: set<Id>, c: Id)
    requires c in HotelCategories(categories, hotelId)
    ensures forall x :: x in CategoryRooms(rooms, c, blocked) <==>
              x in HotelRooms(categories, rooms, hotelId) - blocked && rooms[x].val.categoryId == c
  {
  }

  /** No category is offered twice, and every available room is offered under its category. */
  lemma HotelOffersCover(categories: Table<Category>, rooms: Table<Room>, details: Table<BookingDetail>,
                         hotelId: Id, dateIn: int, dateOut: int)
    ensures var offers := HotelOffers(categories, rooms, details, hotelId, dateIn, dateOut);
            var avail := AvailableRooms(categories, rooms, details, hotelId, dateIn, dateOut);
            && (forall i, j :: 0 <= i < j < |offers| ==> offers[i].categoryId != offers[j].categoryId)
            && (forall x :: x in avail ==> exists i :: 0 <= i < |offers| && offers[i].categoryId == rooms[x].val.categoryId
                                                      && x in offers[i].roomIds)
  {
    var hotelRooms := HotelRooms(categories, rooms, hotelId);
    var blocked := BlockedRooms(details, hotelRooms, dateIn, dateOut);
    var avail := hotelRooms - blocked;
    assert AvailableRooms(categories, rooms, details, hotelId, dateIn, dateOut) == avail;
    var ordered := SortAsc(avail, IdKey(avail));
    var cats := Dedupe(CategoriesOf(rooms, ordered));
    assert HotelOffers(categories, rooms, details, hotelId, dateIn, dateOut) == Offers(rooms, cats, blocked);
    OffersCover(rooms, blocked, avail, ordered, cats);
  }

  /**
   * Offers for distinct categories are for distinct categories, and they
   * take in every room of `avail` when `ordered` lists those rooms and
   * `cats` holds the category of each.
   */
  lemma OffersCover(rooms: Table<Room>, blocked: set<Id>, avail: set<Id>, ordered: seq<Id>, cats: seq<Id>)
    requires forall x :: x in avail ==> Live(rooms, x) && x !in blocked && x in ordered
    requires forall i :: 0 <= i < |ordered| ==> ordered[i] in rooms
    requires forall c :: c in CategoriesOf(rooms, ordered) ==> c in cats
    requires Distinct(cats)
    ensures var offers := Offers(rooms, cats, blocked);
            && (forall i, j :: 0 <= i < j < |offers| ==> offers[i].categoryId != offers[j].categoryId)
            && (forall x :: x in avail ==> exists i :: 0 <= i < |offers| && offers[i].categoryId == rooms[x].val.categoryId
                                                      && x in offers[i].roomIds)
  {
    var offers := Offers(rooms, cats, blocked);
    var catsOfRooms := CategoriesOf(rooms, ordered);
    assert forall i :: 0 <= i < |offers| ==> offers[i].categoryId == cats[i];
    forall x | x in avail
      ensures exists i :: 0 <= i < |offers| && offers[i].categoryId == rooms[x].val.categoryId && x in offers[i].roomIds
    {
      assert x in ordered;
      var j :| 0 <= j < |ordered| && ordered[j] == x;
      var c := catsOfRooms[j];
      assert c == rooms[x].val.categoryId && c in cats;
      var i :| 0 <= i < |cats| && cats[i] == c;
      assert offers[i].roomIds == CategoryRooms(rooms, c, blocked);
      assert x in CategoryRooms(rooms, c, blocked);
    }
  }

  /**
   * A detail blocks a room in the category search when it covers the whole
   * query range, whatever its status: `date_in <= dateIn` and `date_out >= dateOut`.
   */
  predicate Covers(d: BookingDetail, dateIn: int, dateOut: int) {
    d.dateIn <= dateIn && d.dateOut >= dateOut
  }

  /** The live rooms of the category that no live detail covers. */
  function FreeInCategory(rooms: Table<Room>, details: Table<BookingDetail>, categoryId: Id,
                          dateIn: int, dateOut: int): (r: set<Id>)
    ensures forall x :: x in r <==>
              && Live(rooms, x) && rooms[x].val.categoryId == categoryId
              && !exists k :: Live(details, k) && details[k].val.roomId == x && Covers(details[k].val, dateIn, dateOut)
  {
    var catRooms := set k | k in rooms && Live(rooms, k) && rooms[k].val.categoryId == categoryId;
    var booked := set k | k in details && Live(details, k) && details[k].val.roomId in catRooms
                                 && Covers(details[k].val, dateIn, dateOut) :: details[k].val.roomId;
    catRooms - booked
  }

  /** `getCategoryByCheckInCheckOut`: the number of free rooms of a category, once `dateOut` is after `dateIn`. */
  function CategoryAvailableCount(rooms: Table<Room>, details: Table<BookingDetail>, categoryId: Id,
                                  dateIn: int, dateOut: int): (r: Result<nat>)
    ensures r.Err? <==> dateOut <= dateIn
    ensures r.Ok? ==> r.value == |FreeInCategory(rooms, details, categoryId, dateIn, dateOut)|
  {
    if dateOut <= dateIn then Err(ValidationError)
    else Ok(|FreeInCategory(rooms, details, categoryId, dateIn, dateOut)|)
  }

  /**
   * The two searches disagree. A pending detail that overlaps the range
   * without covering it takes its room out of the hotel search but not out
   * of the category count.
   */
  lemma PartialOverlapDisagrees()
    ensures
      var cats := map[1 := Row(Category(9, "c", 10), false)];
      var rooms := map[2 := Row(Room(1, "r"), false)];
      var partial := map[3 := Row(BookingDetail(4, 2, 0, 2 * SecondsPerDay, Pending), false)];
      && 2 !in AvailableRooms(cats, rooms, partial, 9, SecondsPerDay, 3 * SecondsPerDay)
      && CategoryAvailableCount(rooms, partial, 1, SecondsPerDay, 3 * SecondsPerDay) == Ok(1)
  {
    var rooms := map[2 := Row(Room(1, "r"), false)];
    var partial := map[3 := Row(BookingDetail(4, 2, 0, 2 * SecondsPerDay, Pending), false)];
    assert Live(partial, 3) && partial[3].val.roomId == 2 && Holds(partial[3].val, SecondsPerDay, 3 * SecondsPerDay);
    assert FreeInCategory(rooms, partial, 1, SecondsPerDay, 3 * SecondsPerDay) == {2};
  }

  /**
   * An 'unpaid' detail that covers the range does the opposite: the hotel
   * search still offers the room, the category count does not.
   */
  lemma UnpaidCoverDisagrees()
    ensures
      var cats := map[1 := Row(Category(9, "c", 10), false)];
      var rooms := map[2 := Row(Room(1, "r"), false)];
      var covering := map[3 := Row(BookingDetail(4, 2, 0, 3 * SecondsPerDay, Unpaid), false)];
      && 2 in AvailableRooms(cats, rooms, covering, 9, SecondsPerDay, 3 * SecondsPerDay)
      && CategoryAvailableCount(rooms, covering, 1, SecondsPerDay, 3 * SecondsPerDay) == Ok(0)
  {
    var cats := map[1 := Row(Category(9, "c", 10), false)];
    var rooms := map[2 := Row(Room(1, "r"), false)];
    var covering := map[3 := Row(BookingDetail(4, 2, 0, 3 * SecondsPerDay, Unpaid), false)];
    var none := FreeInCategory(rooms, covering, 1, SecondsPerDay, 3 * SecondsPerDay);
    assert Live(covering, 3) && covering[3].val.roomId == 2 && Covers(covering[3].val, SecondsPerDay, 3 * SecondsPerDay);
    assert forall x :: x in none ==> x == 2;
    assert none == {};
    assert 2 in HotelRooms(cats, rooms, 9);
  }
}

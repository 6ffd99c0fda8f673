/**
 * The rules of `HotelController`: the search validators and filters by
 * price, rating and guests, the "top booked" list, and the checks `store`
 * and `update` make before they save a hotel.
 */
module HotelRules {
  import opened Schema
  import opened SoftDelete
  import opened Ordering

  /** Rows per page of the searches (`paginate(20)`). */
  const PerPage: nat := 20

  /** Entries of the "top booked" list (`limit(6)`). */
  const TopCount: nat := 6

  /**
   * `orderBy(column, 'asc')->paginate(20)` over the rows `ids`: the page
   * lists rows of `ids`, each once, in ascending order of the column. Page
   * `page` holds the sorted rows from (page - 1) * 20 on, twenty of them
   * unless the listing ends first; a page below 1 is page 1.
   */
  ghost function ListBy(ids: set<Id>, key: map<Id, int>, page: int): (r: seq<Id>)
    requires ids <= key.Keys
    ensures forall i :: 0 <= i < |r| ==> r[i] in ids
    ensures Distinct(r)
    ensures forall i, j :: 0 <= i < j < |r| ==> key[r[i]] <= key[r[j]]
    ensures IsPage(r, SortAsc(ids, key), page, PerPage)
    ensures page <= 1 && |ids| <= PerPage ==> forall x :: x in ids ==> x in r
  {
    var sorted := SortAsc(ids, key);
    var r := PageOf(sorted, page, PerPage);
    PageKeepsOrder(sorted, page, PerPage, key);
    assert page <= 1 && |ids| <= PerPage ==> r == sorted by {
      if page <= 1 && |ids| <= PerPage {
        assert IsPage(r, sorted, page, PerPage) && PageStartOf(page, PerPage) == 0;
      }
    }
    r
  }

  /** Every row of `ids` is listed on some page: the page of its position in the sorted listing. */
  lemma ListByComplete(ids: set<Id>, key: map<Id, int>, x: Id)
    requires ids <= key.Keys
    requires x in ids
    ensures exists page :: page >= 1 && x in ListBy(ids, key, page)
  {
    var sorted := SortAsc(ids, key);
    var page := PageOfCovers(sorted, PerPage, x);
    assert ListBy(ids, key, page) == PageOf(sorted, page, PerPage);
  }

  /** The live hotels: `Hotel::…` queries skip deleted ones. */
  function LiveHotels(hotels: Table<Hotel>): (r: set<Id>)
    ensures forall h :: h in r <==> Live(hotels, h)
  {
    set h | h in hotels && Live(hotels, h)
  }

  /**
   * The checks of `getHotelByPrice`, in their order. The last one, "both
   * zero", can never fire: equal prices are refused just before it.
   */
  function ValidatePriceRange(minPrice: int, maxPrice: int): (r: Check)
    ensures r.Pass? <==> 0 <= minPrice < maxPrice
    ensures r != Fail(BothPricesZero)
    ensures minPrice > maxPrice ==> r == Fail(MinAboveMax)
  {
    if minPrice > maxPrice then Fail(MinAboveMax)
    else if minPrice < 0 || maxPrice < 0 then Fail(NegativePrice)
    else if minPrice == maxPrice then Fail(SamePrices)
    else if minPrice == 0 && maxPrice == 0 then Fail(BothPricesZero)
    else Pass
  }

  function PriceKey(hotels: Table<Hotel>): (key: map<Id, int>)
    ensures key.Keys == hotels.Keys
    ensures forall h :: h in hotels ==> key[h] == hotels[h].val.info.price
  {
    map h | h in hotels :: hotels[h].val.info.price
  }

  /** The live hotels priced within [minPrice, maxPrice]: `whereBetween('price', …)`. */
  function PricedWithin(hotels: Table<Hotel>, minPrice: int, maxPrice: int): (r: set<Id>)
    ensures forall h :: h in r <==> Live(hotels, h) && minPrice <= hotels[h].val.info.price <= maxPrice
  {
    set h | h in hotels && Live(hotels, h) && minPrice <= hotels[h].val.info.price <= maxPrice
  }

  /** `getHotelByPrice`: the live hotels priced within [minPrice, maxPrice], cheapest first. */
  ghost function HotelsByPrice(hotels: Table<Hotel>, minPrice: int, maxPrice: int, page: int): (r: Result<seq<Id>>)
    ensures r.Ok? <==> 0 <= minPrice < maxPrice
    ensures r.Ok? ==>
              && (forall i :: 0 <= i < |r.value| ==>
                    Live(hotels, r.value[i]) && minPrice <= hotels[r.value[i]].val.info.price <= maxPrice)
              && (forall i, j :: 0 <= i < j < |r.value| ==>
                    hotels[r.value[i]].val.info.price <= hotels[r.value[j]].val.info.price)
  {
    match ValidatePriceRange(minPrice, maxPrice)
    case Fail(e) => Err(e)
    case Pass =>
      Ok(ListBy(PricedWithin(hotels, minPrice, maxPrice), PriceKey(hotels), page))
  }

  function RatingKey(hotels: Table<Hotel>): (key: map<Id, int>)
    ensures key.Keys == hotels.Keys
    ensures forall h :: h in hotels ==> key[h] == hotels[h].val.rating
  {
    map h | h in hotels :: hotels[h].val.rating
  }

  /** The live hotels rated at least `rating`: `where('rating', '>=', …)`. */
  function RatedAtLeast(hotels: Table<Hotel>, rating: int): (r: set<Id>)
    ensures forall h :: h in r <==> Live(hotels, h) && hotels[h].val.rating >= rating
  {
    set h | h in hotels && Live(hotels, h) && hotels[h].val.rating >= rating
  }

  /** `getHotelByRating`: a rating in 0..5, answered with the live hotels rated at least that, lowest first. */
  ghost function HotelsByRating(hotels: Table<Hotel>, rating: int, page: int): (r: Result<seq<Id>>)
    ensures r == Err(RatingBelowZero) <==> rating < 0
    ensures r == Err(RatingAboveFive) <==> rating > 5
    ensures r.Ok? <==> 0 <= rating <= 5
    ensures r.Ok? ==>
              && (forall i :: 0 <= i < |r.value| ==> Live(hotels, r.value[i]) && hotels[r.value[i]].val.rating >= rating)
              && (forall i, j :: 0 <= i < j < |r.value| ==>
                    hotels[r.value[i]].val.rating <= hotels[r.value[j]].val.rating)
  {
    if rating < 0 then Err(RatingBelowZero)
    else if rating > 5 then Err(RatingAboveFive)
    else
      Ok(ListBy(RatedAtLeast(hotels, rating), RatingKey(hotels), page))
  }

  function GuestsKey(hotels: Table<Hotel>): (key: map<Id, int>)
    ensures key.Keys == hotels.Keys
    ensures forall h :: h in hotels ==> key[h] == hotels[h].val.info.guests
  {
    map h | h in hotels :: hotels[h].val.info.guests
  }

  /** The live hotels taking at least `guests` guests: `where('guests', '>=', …)`. */
  function TakingAtLeast(hotels: Table<Hotel>, guests: int): (r: set<Id>)
    ensures forall h :: h in r <==> Live(hotels, h) && hotels[h].val.info.guests >= guests
  {
    set h | h in hotels && Live(hotels, h) && hotels[h].val.info.guests >= guests
  }

  /** `getHotelByGuests`: a guest number that is not negative, answered with the live hotels taking at least that many. */
  ghost function HotelsByGuests(hotels: Table<Hotel>, guests: int, page: int): (r: Result<seq<Id>>)
    ensures r.Err? <==> guests < 0
    ensures r.Err? ==> r.error == NegativeGuests
    ensures r.Ok? ==>
              && (forall i :: 0 <= i < |r.value| ==> Live(hotels, r.value[i]) && hotels[r.value[i]].val.info.guests >= guests)
              && (forall i, j :: 0 <= i < j < |r.value| ==>
                    hotels[r.value[i]].val.info.guests <= hotels[r.value[j]].val.info.guests)
  {
    if guests < 0 then Err(NegativeGuests)
    else
      Ok(ListBy(TakingAtLeast(hotels, guests), GuestsKey(hotels), page))
  }

  /** Every live hotel priced within an accepted range is listed on some page of the price search. */
  lemma HotelsByPriceComplete(hotels: Table<Hotel>, minPrice: int, maxPrice: int, h: Id)
    requires 0 <= minPrice < maxPrice
    requires Live(hotels, h) && minPrice <= hotels[h].val.info.price <= maxPrice
    ensures exists page :: page >= 1 && HotelsByPrice(hotels, minPrice, maxPrice, page).Ok?
                           && h in HotelsByPrice(hotels, minPrice, maxPrice, page).value
  {
    ListByComplete(PricedWithin(hotels, minPrice, maxPrice), PriceKey(hotels), h);
    var page :| page >= 1 && h in ListBy(PricedWithin(hotels, minPrice, maxPrice), PriceKey(hotels), page);
    assert HotelsByPrice(hotels, minPrice, maxPrice, page) == Ok(ListBy(PricedWithin(hotels, minPrice, maxPrice), PriceKey(hotels), page));
  }

  /** Every live hotel rated at least an accepted rating is listed on some page of the rating search. */
  lemma HotelsByRatingComplete(hotels: Table<Hotel>, rating: int, h: Id)
    requires 0 <= rating <= 5
    requires Live(hotels, h) && hotels[h].val.rating >= rating
    ensures exists page :: page >= 1 && HotelsByRating(hotels, rating, page).Ok?
                           && h in HotelsByRating(hotels, rating, page).value
  {
    ListByComplete(RatedAtLeast(hotels, rating), RatingKey(hotels), h);
    var page :| page >= 1 && h in ListBy(RatedAtLeast(hotels, rating), RatingKey(hotels), page);
    assert HotelsByRating(hotels, rating, page) == Ok(ListBy(RatedAtLeast(hotels, rating), RatingKey(hotels), page));
  }

  /** Every live hotel taking at least an accepted guest number is listed on some page of the guest search. */
  lemma HotelsByGuestsComplete(hotels: Table<Hotel>, guests: int, h: Id)
    requires guests >= 0
    requires Live(hotels, h) && hotels[h].val.info.guests >= guests
    ensures exists page :: page >= 1 && HotelsByGuests(hotels, guests, page).Ok?
                           && h in HotelsByGuests(hotels, guests, page).value
  {
    ListByComplete(TakingAtLeast(hotels, guests), GuestsKey(hotels), h);
    var page :| page >= 1 && h in ListBy(TakingAtLeast(hotels, guests), GuestsKey(hotels), page);
    assert HotelsByGuests(hotels, guests, page) == Ok(ListBy(TakingAtLeast(hotels, guests), GuestsKey(hotels), page));
  }

  /** The number of live bookings of hotel `h`: `count(*)` of its group. */
  function BookingCount(bookings: Table<Booking>, h: Id): nat {
    |set k | k in bookings && Live(bookings, k) && bookings[k].val.hotelId == h|
  }

  /** The hotels with at least one live booking: the groups of `groupBy('hotel_id')`. */
  function BookedHotels(bookings: Table<Booking>): (r: set<Id>)
    ensures forall h :: h in r <==> exists k :: Live(bookings, k) && bookings[k].val.hotelId == h
  {
    set k | k in bookings && Live(bookings, k) :: bookings[k].val.hotelId
  }

  /** Sorting by this key lists the most booked hotels first. */
  function CountKey(bookings: Table<Booking>): (key: map<Id, int>)
    ensures key.Keys == BookedHotels(bookings)
    ensures forall h :: h in key ==> key[h] == -(BookingCount(bookings, h) as int)
  {
    map h | h in BookedHotels(bookings) :: -(BookingCount(bookings, h) as int)
  }

  /** One entry of the "top booked" list; `hotelFound` is false where the hotel lookup finds no live hotel. */
  datatype TopEntry = TopEntry(hotelId: Id, total: nat, hotelFound: bool)

  /** The hotel ids of the groups with the most live bookings, at most six, most booked first. */
  ghost function TopHotels(bookings: Table<Booking>): (r: seq<Id>)
    ensures |r| == if |BookedHotels(bookings)| < TopCount then |BookedHotels(bookings)| else TopCount
    ensures forall i :: 0 <= i < |r| ==> r[i] in BookedHotels(bookings)
    ensures Distinct(r)
    ensures forall i, j :: 0 <= i < j < |r| ==> BookingCount(bookings, r[i]) >= BookingCount(bookings, r[j])
  {
    Take(SortAsc(BookedHotels(bookings), CountKey(bookings)), TopCount)
  }

  /**
   * `getHotelTopBooked`: the six hotels with the most live bookings, most
   * booked first, each with the hotel the lookup finds, if it is live.
   */
  ghost function TopBooked(hotels: Table<Hotel>, bookings: Table<Booking>): (r: seq<TopEntry>)
    ensures |r| == if |BookedHotels(bookings)| < TopCount then |BookedHotels(bookings)| else TopCount
    ensures forall i :: 0 <= i < |r| ==>
              && r[i].hotelId in BookedHotels(bookings)
              && r[i].total == BookingCount(bookings, r[i].hotelId)
              && (r[i].hotelFound <==> Live(hotels, r[i].hotelId))
    ensures forall i, j :: 0 <= i < j < |r| ==> r[i].hotelId != r[j].hotelId && r[i].total >= r[j].total
  {
    var ordered := TopHotels(bookings);
    Entries(hotels, bookings, ordered)
  }

  /** One entry per hotel id, in the same order. */
  function Entries(hotels: Table<Hotel>, bookings: Table<Booking>, ids: seq<Id>): (r: seq<TopEntry>)
    ensures |r| == |ids|
    ensures forall i :: 0 <= i < |r| ==> r[i] == TopEntry(ids[i], BookingCount(bookings, ids[i]), Live(hotels, ids[i]))
  {
    if ids == [] then []
    else [TopEntry(ids[0], BookingCount(bookings, ids[0]), Live(hotels, ids[0]))] + Entries(hotels, bookings, ids[1..])
  }

  /**
   * The `foreach` of `getHotelTopBooked` over the grouped rows: for each
   * hotel id in turn, its booking count and whether the hotel lookup finds
   * a live hotel.
   */
  method LookupTop(hotels: Table<Hotel>, bookings: Table<Booking>, ids: seq<Id>) returns (r: seq<TopEntry>)
    ensures r == Entries(hotels, bookings, ids)
  {
    r := [];
    var i := 0;
    while i < |ids|
      invariant 0 <= i <= |ids|
      invariant |r| == i
      invariant forall j :: 0 <= j < i ==> r[j] == TopEntry(ids[j], BookingCount(bookings, ids[j]), Live(hotels, ids[j]))
    {
      r := r + [TopEntry(ids[i], BookingCount(bookings, ids[i]), Live(hotels, ids[i]))];
      i := i + 1;
    }
  }

  /** No hotel left out of the list has more live bookings than any hotel in it. */
  lemma TopHotelsAreTop(bookings: Table<Booking>, h: Id)
    requires h in BookedHotels(bookings)
    requires h !in TopHotels(bookings)
    ensures forall i :: 0 <= i < |TopHotels(bookings)| ==> BookingCount(bookings, TopHotels(bookings)[i]) >= BookingCount(bookings, h)
  {
    var key := CountKey(bookings);
    var sorted := SortAsc(BookedHotels(bookings), key);
    var top := TopHotels(bookings);
    assert top == Take(sorted, TopCount);
    var j :| 0 <= j < |sorted| && sorted[j] == h;
    assert j >= |top|;
    forall i | 0 <= i < |top| ensures BookingCount(bookings, top[i]) >= BookingCount(bookings, h) {
      assert key[sorted[i]] <= key[sorted[j]];
    }
  }

  /** A character the hotline pattern `[0-9\s\-\+\(\)]` admits. */
  predicate HotlineChar(c: char) {
    || '0' <= c <= '9'
    || c == ' ' || c == '-' || c == '+' || c == '(' || c == ')'
    || 9 <= c as int <= 13
  }

  /** The hotline rule: at least 10 characters, each a digit, a white-space character, '-', '+', '(' or ')'. */
  predicate HotlineValid(hotline: string) {
    |hotline| >= 10 && forall i :: 0 <= i < |hotline| ==> HotlineChar(hotline[i])
  }

  /**
   * The validator of `store`: the required text fields are not blank, and
   * the hotline is not blank and has its form.
   */
  predicate StoreInfoValid(info: HotelInfo) {
    && !Blank(info.name)
    && !Blank(info.address)
    && !Blank(info.email)
    && !Blank(info.amenities)
    && !Blank(info.safetyHygiene)
    && !Blank(info.city)
    && !Blank(info.nation)
    && !Blank(info.hotline) && HotlineValid(info.hotline)
  }

  /**
   * The validator of `update`: nothing is required, and the hotline rule
   * skips a blank hotline, so only a hotline with some content must have its form.
   */
  predicate UpdateInfoValid(info: HotelInfo) {
    Blank(info.hotline) || HotlineValid(info.hotline)
  }

  /** Some live hotel other than `except` already has this hotline. */
  predicate HotlineTakenBy(hotels: Table<Hotel>, hotline: string, except: Id, hasExcept: bool) {
    exists h :: h in hotels && Live(hotels, h) && (!hasExcept || h != except) && hotels[h].val.info.hotline == hotline
  }

  /** Some live hotel other than `except` already has this email. */
  predicate EmailTakenBy(hotels: Table<Hotel>, email: string, except: Id, hasExcept: bool) {
    exists h :: h in hotels && Live(hotels, h) && (!hasExcept || h != except) && hotels[h].val.info.email == email
  }

  /** Everything `store` checks before it saves a hotel, in its order. */
  function CheckNewHotel(hotels: Table<Hotel>, caller: Caller, info: HotelInfo): (r: Check)
    ensures r.Pass? <==>
              && caller.role == HotelRole
              && StoreInfoValid(info)
              && !HotlineTakenBy(hotels, info.hotline, 0, false)
              && !EmailTakenBy(hotels, info.email, 0, false)
    ensures caller.role != HotelRole ==> r == Fail(Forbidden)
  {
    if caller.role != HotelRole then Fail(Forbidden)
    else if !StoreInfoValid(info) then Fail(ValidationError)
    else if HotlineTakenBy(hotels, info.hotline, 0, false) then Fail(HotlineTaken)
    else if EmailTakenBy(hotels, info.email, 0, false) then Fail(EmailTaken)
    else Pass
  }

  /** The hotel `store` saves: created by the caller, checked in "now", rated 0. */
  function NewHotel(caller: Caller, info: HotelInfo, checkOut: int, now: int): Hotel {
    Hotel(caller.id, info, 0, now, checkOut)
  }

  /**
   * Everything `update` checks, in its order: the validator, a live hotel,
   * the caller its creator (whatever the caller's role), and hotline and
   * email not used by another live hotel.
   */
  function CheckHotelUpdate(hotels: Table<Hotel>, caller: Caller, id: Id, info: HotelInfo): (r: Check)
    ensures r.Pass? <==>
              && UpdateInfoValid(info)
              && Live(hotels, id)
              && hotels[id].val.createdBy == caller.id
              && !HotlineTakenBy(hotels, info.hotline, id, true)
              && !EmailTakenBy(hotels, info.email, id, true)
  {
    if !UpdateInfoValid(info) then Fail(ValidationError)
    else if !Live(hotels, id) then Fail(NotFound)
    else if hotels[id].val.createdBy != caller.id then Fail(Forbidden)
    else if HotlineTakenBy(hotels, info.hotline, id, true) then Fail(HotlineTaken)
    else if EmailTakenBy(hotels, info.email, id, true) then Fail(EmailTaken)
    else Pass
  }

  /** No two live hotels share a hotline or an email. */
  predicate UniqueContacts(hotels: Table<Hotel>) {
    forall a, b :: a in hotels && b in hotels && Live(hotels, a) && Live(hotels, b) && a != b ==>
      hotels[a].val.info.hotline != hotels[b].val.info.hotline && hotels[a].val.info.email != hotels[b].val.info.email
  }

  /** A hotel `store` accepts keeps hotlines and emails unique among live hotels. */
  lemma NewHotelKeepsContactsUnique(hotels: Table<Hotel>, caller: Caller, info: HotelInfo, checkOut: int, now: int, id: Id)
    requires UniqueContacts(hotels)
    requires id !in hotels
    requires CheckNewHotel(hotels, caller, info) == Pass
    ensures UniqueContacts(hotels[id := Row(NewHotel(caller, info, checkOut, now), false)])
  {
    var t := hotels[id := Row(NewHotel(caller, info, checkOut, now), false)];
    forall a, b | Live(t, a) && Live(t, b) && a != b
      ensures t[a].val.info.hotline != t[b].val.info.hotline && t[a].val.info.email != t[b].val.info.email
    {
      if a == id {
        assert Live(hotels, b);
      } else if b == id {
        assert Live(hotels, a);
      }
    }
  }

  /** An update `update` accepts keeps hotlines and emails unique among live hotels. */
  lemma UpdateKeepsContactsUnique(hotels: Table<Hotel>, caller: Caller, id: Id, info: HotelInfo)
    requires UniqueContacts(hotels)
    requires CheckHotelUpdate(hotels, caller, id, info) == Pass
    ensures UniqueContacts(hotels[id := Row(hotels[id].val.(info := info), false)])
  {
    var t := hotels[id := Row(hotels[id].val.(info := info), false)];
    forall a, b | Live(t, a) && Live(t, b) && a != b
      ensures t[a].val.info.hotline != t[b].val.info.hotline && t[a].val.info.email != t[b].val.info.email
    {
      if a == id {
        assert Live(hotels, b);
      } else if b == id {
        assert Live(hotels, a);
      } else {
        assert Live(hotels, a) && Live(hotels, b);
      }
    }
  }

  /**
   * Uniqueness is checked among live hotels only, so restoring a deleted
   * hotel can bring back a second hotel with the same hotline.
   */
  lemma RestoreCanDuplicateHotline()
    ensures
      var info := HotelInfo("a", "b", "0123456789", "x@y", "", 1, 0, 1, "wifi", "clean", 2, "c", "n", 10);
      var hotels := map[1 := Row(Hotel(5, info, 0, 0, 0), true)];
      var info2 := info.(email := "z@y");
      && CheckNewHotel(hotels, Caller(6, HotelRole), info2) == Pass
      && !UniqueContacts(hotels[2 := Row(NewHotel(Caller(6, HotelRole), info2, 0, 0), false)][1 := Row(Hotel(5, info, 0, 0, 0), false)])
  {
    var info := HotelInfo("a", "b", "0123456789", "x@y", "", 1, 0, 1, "wifi", "clean", 2, "c", "n", 10);
    var info2 := info.(email := "z@y");
    var t := map[1 := Row(Hotel(5, info, 0, 0, 0), true)][2 := Row(NewHotel(Caller(6, HotelRole), info2, 0, 0), false)][1 := Row(Hotel(5, info, 0, 0, 0), false)];
    assert Live(t, 1) && Live(t, 2);
    assert !Blank(info.name) by { assert !TrimmedChar(info.name[0]); }
    assert !Blank(info.address) by { assert !TrimmedChar(info.address[0]); }
    assert !Blank(info.hotline) by { assert !TrimmedChar(info.hotline[0]); }
    assert !Blank(info2.email) by { assert !TrimmedChar(info2.email[0]); }
    assert !Blank(info.amenities) by { assert !TrimmedChar(info.amenities[0]); }
    assert !Blank(info.safetyHygiene) by { assert !TrimmedChar(info.safetyHygiene[0]); }
    assert !Blank(info.city) by { assert !TrimmedChar(info.city[0]); }
    assert !Blank(info.nation) by { assert !TrimmedChar(info.nation[0]); }
    assert HotlineValid(info.hotline) by {
      assert forall i :: 0 <= i < |info.hotline| ==> '0' <= info.hotline[i] <= '9';
    }
  }
}

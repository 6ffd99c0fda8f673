/**
 * The soft-delete and restore cascades of the category, hotel and review
 * controllers, as functions from the tables before to the tables after.
 * A delete cascade marks the live children it finds; a restore cascade
 * clears the mark of the trashed children it finds. Booking details and
 * payments are never part of a cascade.
 */
module Cascades {
  import opened Schema
  import opened SoftDelete

  /** Every table the controllers touch. Payments have no soft delete. */
  datatype Tables = Tables(
    hotels: Table<Hotel>,
    hotelImages: Table<HotelImage>,
    categories: Table<Category>,
    categoryImages: Table<CategoryImage>,
    rooms: Table<Room>,
    bookings: Table<Booking>,
    details: Table<BookingDetail>,
    payments: map<Id, Payment>,
    reviews: Table<Review>,
    replies: Table<Reply>)

  // The foreign keys the relations follow.
  function HotelOfCategory(c: Category): Id { c.hotelId }
  function CategoryOfRoom(r: Room): Id { r.categoryId }
  function CategoryOfImage(i: CategoryImage): Id { i.categoryId }
  function HotelOfImage(i: HotelImage): Id { i.hotelId }
  function HotelOfBooking(b: Booking): Id { b.hotelId }
  function BookingOfReview(r: Review): Id { r.bookingId }
  function ReviewOfReply(r: Reply): Id { r.reviewId }

  /**
   * The rows of `m` whose parent is in `ps`: the live ones (`$parent->child`)
   * or, with `trashed`, the deleted ones (`$parent->child()->onlyTrashed()`).
   */
  function Children<T>(m: Table<T>, parent: T -> Id, ps: set<Id>, trashed: bool): (r: set<Id>)
    ensures forall k :: k in r <==> k in m && m[k].deleted == trashed && parent(m[k].val) in ps
  {
    set k | k in m && m[k].deleted == trashed && parent(m[k].val) in ps
  }

  /**
   * Deleting the categories `cs` (all live): each category, then its live
   * rooms, then its live images.
   */
  function DeleteCategories(t: Tables, cs: set<Id>): (r: Tables)
    ensures forall c :: c in cs && c in t.categories ==> Trashed(r.categories, c)
    ensures r.rooms.Keys == t.rooms.Keys && forall k :: k in t.rooms ==>
              && r.rooms[k].val == t.rooms[k].val
              && (r.rooms[k].deleted <==> t.rooms[k].deleted || t.rooms[k].val.categoryId in cs)
    ensures r.categoryImages.Keys == t.categoryImages.Keys && forall k :: k in t.categoryImages ==>
              && r.categoryImages[k].val == t.categoryImages[k].val
              && (r.categoryImages[k].deleted <==> t.categoryImages[k].deleted || t.categoryImages[k].val.categoryId in cs)
    ensures r.(categories := t.categories, rooms := t.rooms, categoryImages := t.categoryImages) == t
  {
    t.(categories := WithDeleted(t.categories, cs, true),
       rooms := WithDeleted(t.rooms, Children(t.rooms, CategoryOfRoom, cs, false), true),
       categoryImages := WithDeleted(t.categoryImages, Children(t.categoryImages, CategoryOfImage, cs, false), true))
  }

  /**
   * Restoring the trashed categories `cs`: each category, then those of its
   * rooms and images that are trashed, however they came to be.
   */
  function RestoreCategories(t: Tables, cs: set<Id>): (r: Tables)
    ensures forall c :: c in cs && c in t.categories ==> Live(r.categories, c)
    ensures r.rooms.Keys == t.rooms.Keys && forall k :: k in t.rooms ==>
              && r.rooms[k].val == t.rooms[k].val
              && (r.rooms[k].deleted <==> t.rooms[k].deleted && t.rooms[k].val.categoryId !in cs)
    ensures r.categoryImages.Keys == t.categoryImages.Keys && forall k :: k in t.categoryImages ==>
              && r.categoryImages[k].val == t.categoryImages[k].val
              && (r.categoryImages[k].deleted <==> t.categoryImages[k].deleted && t.categoryImages[k].val.categoryId !in cs)
    ensures r.(categories := t.categories, rooms := t.rooms, categoryImages := t.categoryImages) == t
  {
    t.(categories := WithDeleted(t.categories, cs, false),
       rooms := WithDeleted(t.rooms, Children(t.rooms, CategoryOfRoom, cs, true), false),
       categoryImages := WithDeleted(t.categoryImages, Children(t.categoryImages, CategoryOfImage, cs, true), false))
  }

  /** Deleting the reviews `rs` (all live) and their live replies. */
  function DeleteReviews(t: Tables, rs: set<Id>): (r: Tables)
    ensures forall k :: k in rs && k in t.reviews ==> Trashed(r.reviews, k)
    ensures r.replies.Keys == t.replies.Keys && forall k :: k in t.replies ==>
              && r.replies[k].val == t.replies[k].val
              && (r.replies[k].deleted <==> t.replies[k].deleted || t.replies[k].val.reviewId in rs)
    ensures r.(reviews := t.reviews, replies := t.replies) == t
  {
    t.(reviews := WithDeleted(t.reviews, rs, true),
       replies := WithDeleted(t.replies, Children(t.replies, ReviewOfReply, rs, false), true))
  }

  /** Restoring the trashed reviews `rs` and their trashed replies. */
  function RestoreReviews(t: Tables, rs: set<Id>): (r: Tables)
    ensures forall k :: k in rs && k in t.reviews ==> Live(r.reviews, k)
    ensures r.replies.Keys == t.replies.Keys && forall k :: k in t.replies ==>
              && r.replies[k].val == t.replies[k].val
              && (r.replies[k].deleted <==> t.replies[k].deleted && t.replies[k].val.reviewId !in rs)
    ensures r.(reviews := t.reviews, replies := t.replies) == t
  {
    t.(reviews := WithDeleted(t.reviews, rs, false),
       replies := WithDeleted(t.replies, Children(t.replies, ReviewOfReply, rs, true), false))
  }

  /**
   * Hotel `destroy`: the hotel, its live categories with their live rooms
   * and images, its live hotel images, its live bookings, and the live
   * reviews of those bookings with their live replies.
   */
  function DestroyHotelTables(t: Tables, h: Id): Tables {
    var cs := Children(t.categories, HotelOfCategory, {h}, false);
    var bs := Children(t.bookings, HotelOfBooking, {h}, false);
    var rs := Children(t.reviews, BookingOfReview, bs, false);
    var t1 := DeleteReviews(DeleteCategories(t, cs), rs);
    t1.(hotels := WithDeleted(t.hotels, {h}, true),
        hotelImages := WithDeleted(t.hotelImages, Children(t.hotelImages, HotelOfImage, {h}, false), true),
        bookings := WithDeleted(t.bookings, bs, true))
  }

  /**
   * Hotel `restore`: the hotel, its trashed categories with their trashed
   * rooms and images, its trashed hotel images, its trashed bookings, and
   * the trashed reviews of those bookings with their trashed replies.
   */
  function RestoreHotelTables(t: Tables, h: Id): Tables {
    var cs := Children(t.categories, HotelOfCategory, {h}, true);
    var bs := Children(t.bookings, HotelOfBooking, {h}, true);
    var rs := Children(t.reviews, BookingOfReview, bs, true);
    var t1 := RestoreReviews(RestoreCategories(t, cs), rs);
    t1.(hotels := WithDeleted(t.hotels, {h}, false),
        hotelImages := WithDeleted(t.hotelImages, Children(t.hotelImages, HotelOfImage, {h}, true), false),
        bookings := WithDeleted(t.bookings, bs, false))
  }

  /** The caller created the hotel, and the hotel is not deleted: `Hotel::where('created_by', …)->find(…)`. */
  predicate OwnsHotel(hotels: Table<Hotel>, caller: Caller, h: Id) {
    Live(hotels, h) && hotels[h].val.createdBy == caller.id
  }

  /**
   * The checks of category `destroy` (with `trashed` false) and `restore`
   * (with `trashed` true): the category is found among the live, or the
   * trashed, rows; the caller has the 'hotel' role and owns the category's
   * hotel.
   */
  function CheckCategory(t: Tables, caller: Caller, id: Id, trashed: bool): (r: Check)
    ensures r.Pass? <==>
              && id in t.categories && t.categories[id].deleted == trashed
              && caller.role == HotelRole
              && OwnsHotel(t.hotels, caller, t.categories[id].val.hotelId)
    ensures !(id in t.categories && t.categories[id].deleted == trashed) ==> r == Fail(NotFound)
  {
    if !(id in t.categories && t.categories[id].deleted == trashed) then Fail(NotFound)
    else if caller.role != HotelRole then Fail(Forbidden)
    else if !OwnsHotel(t.hotels, caller, t.categories[id].val.hotelId) then Fail(Forbidden)
    else Pass
  }

  /**
   * The checks of `deleteCategoryByHotelId` and `restoreByHotelId`: the hotel
   * has at least one category of the kind the action handles (looked up
   * first, so an empty answer wins over a missing permission), and the
   * caller has the 'hotel' role and owns the hotel.
   */
  function CheckHotelCategories(t: Tables, caller: Caller, h: Id, trashed: bool): (r: Check)
    ensures r.Pass? <==>
              && Children(t.categories, HotelOfCategory, {h}, trashed) != {}
              && caller.role == HotelRole
              && OwnsHotel(t.hotels, caller, h)
    ensures Children(t.categories, HotelOfCategory, {h}, trashed) == {} ==> r == Fail(NotFound)
  {
    if Children(t.categories, HotelOfCategory, {h}, trashed) == {} then Fail(NotFound)
    else if caller.role != HotelRole then Fail(Forbidden)
    else if !OwnsHotel(t.hotels, caller, h) then Fail(Forbidden)
    else Pass
  }

  /**
   * The checks of `updatePriceByCategoryId`: a price matching the number
   * pattern (so not negative), a live category, and — for a 'hotel' caller
   * only — ownership of its hotel. Callers of the other roles are not stopped.
   */
  function CheckPriceUpdate(t: Tables, caller: Caller, id: Id, price: int): (r: Check)
    ensures r.Pass? <==>
              && price >= 0
              && Live(t.categories, id)
              && (caller.role == HotelRole ==> OwnsHotel(t.hotels, caller, t.categories[id].val.hotelId))
  {
    if price < 0 then Fail(ValidationError)
    else if !Live(t.categories, id) then Fail(NotFound)
    else if caller.role == HotelRole && !OwnsHotel(t.hotels, caller, t.categories[id].val.hotelId) then Fail(Forbidden)
    else Pass
  }

  /**
   * The checks of hotel `destroy` (with `trashed` false) and `restore` (with
   * `trashed` true): the hotel is found among the live, or the trashed, rows
   * and the caller created it. The role is not checked.
   */
  function CheckHotel(t: Tables, caller: Caller, id: Id, trashed: bool): (r: Check)
    ensures r.Pass? <==> id in t.hotels && t.hotels[id].deleted == trashed && t.hotels[id].val.createdBy == caller.id
    ensures !(id in t.hotels && t.hotels[id].deleted == trashed) ==> r == Fail(NotFound)
  {
    if !(id in t.hotels && t.hotels[id].deleted == trashed) then Fail(NotFound)
    else if t.hotels[id].val.createdBy != caller.id then Fail(Forbidden)
    else Pass
  }

  /** Marking the live rows `ks` deleted and then restoring the same rows gives the table back. */
  lemma MarkThenUnmark<T>(m: Table<T>, ks: set<Id>)
    requires forall k :: k in ks ==> !Trashed(m, k)
    ensures WithDeleted(WithDeleted(m, ks, true), ks, false) == m
  {
    var m2 := WithDeleted(WithDeleted(m, ks, true), ks, false);
    assert forall k :: k in m ==> m2[k] == m[k];
  }

  /** The categories `cs` are live, and none of their rooms or images is trashed. */
  predicate CategoriesAllLive(t: Tables, cs: set<Id>) {
    && (forall c :: c in cs ==> !Trashed(t.categories, c))
    && Children(t.rooms, CategoryOfRoom, cs, true) == {}
    && Children(t.categoryImages, CategoryOfImage, cs, true) == {}
  }

  /** Category `restore` undoes category `destroy` when nothing under the categories was deleted before. */
  lemma RestoreUndoesDeleteCategories(t: Tables, cs: set<Id>)
    requires CategoriesAllLive(t, cs)
    ensures RestoreCategories(DeleteCategories(t, cs), cs) == t
  {
    var t1 := DeleteCategories(t, cs);
    assert Children(t1.rooms, CategoryOfRoom, cs, true) == Children(t.rooms, CategoryOfRoom, cs, false);
    assert Children(t1.categoryImages, CategoryOfImage, cs, true) == Children(t.categoryImages, CategoryOfImage, cs, false);
    MarkThenUnmark(t.categories, cs);
    MarkThenUnmark(t.rooms, Children(t.rooms, CategoryOfRoom, cs, false));
    MarkThenUnmark(t.categoryImages, Children(t.categoryImages, CategoryOfImage, cs, false));
  }

  /**
   * A room deleted on its own stays deleted through a category delete and
   * comes back with the category's restore: the round trip is not the identity.
   */
  lemma RestoreCategoriesRevivesRooms(t: Tables, cs: set<Id>)
    ensures var t2 := RestoreCategories(DeleteCategories(t, cs), cs);
            forall k :: k in t2.rooms && t2.rooms[k].val.categoryId in cs ==> !t2.rooms[k].deleted
  {
  }

  /** Review `restore` undoes review `destroy` when none of the replies was deleted before. */
  lemma RestoreUndoesDeleteReviews(t: Tables, rs: set<Id>)
    requires forall k :: k in rs ==> !Trashed(t.reviews, k)
    requires forall k :: k in t.replies && t.replies[k].val.reviewId in rs ==> !t.replies[k].deleted
    ensures RestoreReviews(DeleteReviews(t, rs), rs) == t
  {
    var t1 := DeleteReviews(t, rs);
    assert Children(t1.replies, ReviewOfReply, rs, true) == Children(t.replies, ReviewOfReply, rs, false);
    MarkThenUnmark(t.reviews, rs);
    MarkThenUnmark(t.replies, Children(t.replies, ReviewOfReply, rs, false));
  }

  /** The hotel is live and nothing its cascades reach is trashed. */
  predicate HotelAllLive(t: Tables, h: Id) {
    var cs := Children(t.categories, HotelOfCategory, {h}, false);
    var bs := Children(t.bookings, HotelOfBooking, {h}, false);
    var rs := Children(t.reviews, BookingOfReview, bs, false);
    && Live(t.hotels, h)
    && Children(t.categories, HotelOfCategory, {h}, true) == {}
    && CategoriesAllLive(t, cs)
    && Children(t.hotelImages, HotelOfImage, {h}, true) == {}
    && Children(t.bookings, HotelOfBooking, {h}, true) == {}
    && Children(t.reviews, BookingOfReview, bs, true) == {}
    && Children(t.replies, ReviewOfReply, rs, true) == {}
  }

  /** Deleting the live children of `ps` when none is trashed leaves exactly those children trashed. */
  lemma DeletedChildren<T>(m: Table<T>, parent: T -> Id, ps: set<Id>)
    requires Children(m, parent, ps, true) == {}
    ensures Children(WithDeleted(m, Children(m, parent, ps, false), true), parent, ps, true) == Children(m, parent, ps, false)
  {
    var live := Children(m, parent, ps, false);
    var m1 := WithDeleted(m, live, true);
    assert forall k :: k in m ==> (k in Children(m1, parent, ps, true) <==> k in live);
  }

  /** The categories, rooms and images that hotel `restore` finds after `destroy` are those `destroy` deleted. */
  lemma RestoreUndoesDestroyCategories(t: Tables, h: Id)
    requires HotelAllLive(t, h)
    ensures var cs := Children(t.categories, HotelOfCategory, {h}, false);
            var t2 := RestoreHotelTables(DestroyHotelTables(t, h), h);
            && t2.categories == t.categories && t2.rooms == t.rooms && t2.categoryImages == t.categoryImages
  {
    var cs := Children(t.categories, HotelOfCategory, {h}, false);
    var t1 := DestroyHotelTables(t, h);
    DeletedChildren(t.categories, HotelOfCategory, {h});
    assert Children(t1.categories, HotelOfCategory, {h}, true) == cs;
    var tc := DeleteCategories(t, cs);
    assert tc.categories == t1.categories && tc.rooms == t1.rooms && tc.categoryImages == t1.categoryImages;
    RestoreUndoesDeleteCategories(t, cs);
  }

  /** The bookings, reviews and replies that hotel `restore` finds after `destroy` are those `destroy` deleted. */
  lemma RestoreUndoesDestroyBookings(t: Tables, h: Id)
    requires HotelAllLive(t, h)
    ensures var t2 := RestoreHotelTables(DestroyHotelTables(t, h), h);
            && t2.bookings == t.bookings && t2.reviews == t.reviews && t2.replies == t.replies
  {
    var bs := Children(t.bookings, HotelOfBooking, {h}, false);
    var rs := Children(t.reviews, BookingOfReview, bs, false);
    var t1 := DestroyHotelTables(t, h);
    DeletedChildren(t.bookings, HotelOfBooking, {h});
    assert Children(t1.bookings, HotelOfBooking, {h}, true) == bs;
    DeletedChildren(t.reviews, BookingOfReview, bs);
    assert Children(t1.reviews, BookingOfReview, bs, true) == rs;
    var tr := DeleteReviews(t, rs);
    assert tr.reviews == t1.reviews && tr.replies == t1.replies;
    RestoreUndoesDeleteReviews(t, rs);
    MarkThenUnmark(t.bookings, bs);
  }

  /**
   * Hotel `restore` undoes hotel `destroy` when the hotel was live and
   * nothing under it was trashed: the restore brings back all the trashed
   * children it finds, and those are exactly the ones `destroy` deleted.
   */
  lemma RestoreUndoesDestroy(t: Tables, h: Id)
    requires HotelAllLive(t, h)
    ensures RestoreHotelTables(DestroyHotelTables(t, h), h) == t
  {
    RestoreUndoesDestroyCategories(t, h);
    RestoreUndoesDestroyBookings(t, h);
    var t1 := DestroyHotelTables(t, h);
    DeletedChildren(t.hotelImages, HotelOfImage, {h});
    MarkThenUnmark(t.hotels, {h});
    MarkThenUnmark(t.hotelImages, Children(t.hotelImages, HotelOfImage, {h}, false));
  }

  /**
   * After `destroy` and `restore` every category and every booking of the
   * hotel is live, including those deleted before the hotel was: the round
   * trip changes the tables whenever one of them was trashed beforehand.
   */
  lemma DestroyRestoreRevives(t: Tables, h: Id)
    requires Live(t.hotels, h)
    ensures var t2 := RestoreHotelTables(DestroyHotelTables(t, h), h);
            && Live(t2.hotels, h)
            && (forall c :: c in t2.categories && t2.categories[c].val.hotelId == h ==> !t2.categories[c].deleted)
            && (forall b :: b in t2.bookings && t2.bookings[b].val.hotelId == h ==> !t2.bookings[b].deleted)
  {
  }
}

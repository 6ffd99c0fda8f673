/**
 * The rules of `ReviewController`: when a review may be written, which
 * reviews the by-hotel and by-user actions select, and what the paged
 * by-hotel listing returns.
 */
module ReviewRules {
  import opened Schema
  import opened SoftDelete
  import opened Ordering

  /** Rows per page of the review listing (`paginate(10)`). */
  const ReviewsPerPage: nat := 10

  /** A live review of booking `b` exists: `Review::where('booking_id', …)->exists()`. */
  predicate HasLiveReview(reviews: Table<Review>, b: Id) {
    exists k :: k in reviews && Live(reviews, k) && reviews[k].val.bookingId == b
  }

  /**
   * Everything `store` checks, in its order: the validator (a live booking,
   * a title and a content, a rating from 1 to 5), the booking 'accepted', and
   * no live review of that booking yet.
   */
  function CheckNewReview(bookings: Table<Booking>, reviews: Table<Review>, bookingId: Id,
                          title: string, content: string, rating: int): (r: Check)
    ensures r.Pass? <==>
              && Live(bookings, bookingId)
              && !Blank(title) && !Blank(content)
              && 1 <= rating <= 5
              && bookings[bookingId].val.status == Accepted
              && !HasLiveReview(reviews, bookingId)
    ensures r == Fail(ReviewExists) ==> HasLiveReview(reviews, bookingId)
  {
    if !Live(bookings, bookingId) || Blank(title) || Blank(content) || !(1 <= rating <= 5) then Fail(ValidationError)
    else if bookings[bookingId].val.status != Accepted then Fail(BookingNotCompleted)
    else if HasLiveReview(reviews, bookingId) then Fail(ReviewExists)
    else Pass
  }

  /** The review `store` saves: by the caller, with the literal title "title" whatever was sent. */
  function NewReview(caller: Caller, bookingId: Id, content: string, rating: int): Review {
    Review(caller.id, bookingId, "title", content, rating)
  }

  /** No booking has two live reviews. */
  predicate OneReviewPerBooking(reviews: Table<Review>) {
    forall a, b :: a in reviews && b in reviews && Live(reviews, a) && Live(reviews, b) && a != b ==>
      reviews[a].val.bookingId != reviews[b].val.bookingId
  }

  /** A review `store` accepts keeps one live review per booking. */
  lemma NewReviewKeepsOnePerBooking(bookings: Table<Booking>, reviews: Table<Review>, caller: Caller, bookingId: Id,
                                    title: string, content: string, rating: int, id: Id)
    requires OneReviewPerBooking(reviews)
    requires id !in reviews
    requires CheckNewReview(bookings, reviews, bookingId, title, content, rating) == Pass
    ensures OneReviewPerBooking(reviews[id := Row(NewReview(caller, bookingId, content, rating), false)])
  {
    var t := reviews[id := Row(NewReview(caller, bookingId, content, rating), false)];
    forall a, b | a in t && b in t && Live(t, a) && Live(t, b) && a != b
      ensures t[a].val.bookingId != t[b].val.bookingId
    {
      if a == id {
        assert Live(reviews, b);
      } else if b == id {
        assert Live(reviews, a);
      }
    }
  }

  /**
   * The one-review rule looks at live reviews only: a booking whose review
   * was deleted can be reviewed again, and restoring the old review then
   * leaves the booking with two.
   */
  lemma RestoreCanGiveTwoReviews()
    ensures
      var bookings := map[1 := Row(Booking(7, 3, 1, 100, Accepted, true, 0, 86400), false)];
      var reviews := map[2 := Row(Review(7, 1, "title", "ok", 4), true)];
      && CheckNewReview(bookings, reviews, 1, "t", "good", 5) == Pass
      && !OneReviewPerBooking(reviews[3 := Row(NewReview(Caller(7, UserRole), 1, "good", 5), false)][2 := Row(Review(7, 1, "title", "ok", 4), false)])
  {
    var t := map[2 := Row(Review(7, 1, "title", "ok", 4), true)][3 := Row(NewReview(Caller(7, UserRole), 1, "good", 5), false)][2 := Row(Review(7, 1, "title", "ok", 4), false)];
    assert Live(t, 2) && Live(t, 3);
    assert !Blank("t") by { assert !TrimmedChar("t"[0]); }
    assert !Blank("good") by { assert !TrimmedChar("good"[0]); }
  }

  /** `update`'s validator: a title and a content that are not blank. The rating is not checked, nor is the caller. */
  predicate ReviewUpdateValid(title: string, content: string) {
    !Blank(title) && !Blank(content)
  }

  /** Some live review points at a booking that is not live: reading its hotel fails. */
  predicate OrphanReview(reviews: Table<Review>, bookings: Table<Booking>) {
    exists k :: k in reviews && Live(reviews, k) && !Live(bookings, reviews[k].val.bookingId)
  }

  /**
   * The reviews `deleteByHotelId` deletes: every live review whose live
   * booking belongs to the hotel. The filter reads the booking of every live
   * review, so one orphan review fails the request; no match answers "not found".
   */
  function ReviewsOfHotel(reviews: Table<Review>, bookings: Table<Booking>, hotelId: Id): (r: Result<set<Id>>)
    ensures r == Err(BrokenReference) <==> OrphanReview(reviews, bookings)
    ensures r.Ok? ==> r.value != {} && forall k :: k in r.value <==>
              Live(reviews, k) && Live(bookings, reviews[k].val.bookingId)
              && bookings[reviews[k].val.bookingId].val.hotelId == hotelId
    ensures r == Err(NotFound) <==>
              !OrphanReview(reviews, bookings)
              && forall k :: k in reviews && Live(reviews, k) ==> bookings[reviews[k].val.bookingId].val.hotelId != hotelId
  {
    if OrphanReview(reviews, bookings) then Err(BrokenReference)
    else
      var found := set k | k in reviews && Live(reviews, k) && bookings[reviews[k].val.bookingId].val.hotelId == hotelId;
      assert forall k :: k in reviews && Live(reviews, k) && bookings[reviews[k].val.bookingId].val.hotelId == hotelId ==> k in found;
      if found == {} then Err(NotFound) else Ok(found)
  }

  /** The reviews `deleteByUserId` deletes: every live review written by the user; none answers "not found". */
  function ReviewsOfUser(reviews: Table<Review>, userId: Id): (r: Result<set<Id>>)
    ensures r.Err? <==> forall k :: k in reviews && Live(reviews, k) ==> reviews[k].val.userId != userId
    ensures r.Err? ==> r.error == NotFound
    ensures r.Ok? ==> r.value != {} && forall k :: k in r.value <==> Live(reviews, k) && reviews[k].val.userId == userId
  {
    var found := set k | k in reviews && Live(reviews, k) && reviews[k].val.userId == userId;
    assert forall k :: k in reviews && Live(reviews, k) && reviews[k].val.userId == userId ==> k in found;
    if found == {} then Err(NotFound) else Ok(found)
  }

  /** `getReviewByBookingId`: the live reviews of a booking; none answers "not found". */
  function ReviewsOfBooking(reviews: Table<Review>, bookingId: Id): (r: Result<set<Id>>)
    ensures r.Err? <==> !HasLiveReview(reviews, bookingId)
    ensures r.Ok? ==> forall k :: k in r.value <==> Live(reviews, k) && reviews[k].val.bookingId == bookingId
  {
    var found := set k | k in reviews && Live(reviews, k) && reviews[k].val.bookingId == bookingId;
    assert forall k :: k in reviews && Live(reviews, k) && reviews[k].val.bookingId == bookingId ==> k in found;
    if found == {} then Err(NotFound) else Ok(found)
  }

  /** The live reviews in ascending id order, the order the listing takes. */
  ghost function ReviewsById(reviews: Table<Review>): (r: seq<Id>)
    ensures forall i :: 0 <= i < |r| ==> Live(reviews, r[i])
    ensures forall k :: Live(reviews, k) ==> k in r
    ensures Distinct(r)
    ensures forall i, j :: 0 <= i < j < |r| ==> r[i] < r[j]
  {
    var live := LiveIn(reviews, reviews.Keys);
    var key := IdKey(live);
    var r := SortAsc(live, key);
    assert forall i :: 0 <= i < |r| ==> key[r[i]] == r[i];
    r
  }

  /**
   * `$review->filter(…)`: the reviews of `s` whose booking belongs to the
   * hotel, in the order of `s`; without repeats when `s` has none.
   */
  function OfHotel(reviews: Table<Review>, bookings: Table<Booking>, s: seq<Id>, hotelId: Id): (r: seq<Id>)
    requires forall i :: 0 <= i < |s| ==> s[i] in reviews && reviews[s[i]].val.bookingId in bookings
    ensures forall x :: x in r <==> x in s && bookings[reviews[x].val.bookingId].val.hotelId == hotelId
    ensures Distinct(s) ==> Distinct(r)
    ensures Ascending(s) ==> Ascending(r)
    decreases |s|
  {
    if s == [] then []
    else
      var rest := OfHotel(reviews, bookings, s[1..], hotelId);
      assert forall x :: x in s <==> x == s[0] || x in s[1..];
      var r := if bookings[reviews[s[0]].val.bookingId].val.hotelId == hotelId then [s[0]] + rest else rest;
      assert Distinct(s) ==> Distinct(r) by {
        if Distinct(s) {
          assert Distinct(s[1..]);
          assert s[0] !in s[1..];
          forall i, j | 0 <= i < j < |r| ensures r[i] != r[j] {
            if r != rest && i == 0 {
              assert r[j] == rest[j - 1];
            } else if r != rest {
              assert r[i] == rest[i - 1] && r[j] == rest[j - 1];
            }
          }
        }
      }
      assert Ascending(s) ==> Ascending(r) by {
        if Ascending(s) {
          assert Ascending(s[1..]);
          forall i, j | 0 <= i < j < |r| ensures r[i] < r[j] {
            if r != rest && i == 0 {
              assert r[j] == rest[j - 1] && r[j] in s[1..];
            } else if r != rest {
              assert r[i] == rest[i - 1] && r[j] == rest[j - 1];
            }
          }
        }
      }
      r
  }

  /**
   * One page of the live reviews, ten to a page, in id order:
   * `Review::paginate(10)`. Page `page` holds the listed reviews from
   * (page - 1) * 10 on, ten of them unless the listing ends first.
   */
  ghost function ReviewPage(reviews: Table<Review>, page: int): (r: seq<Id>)
    ensures forall i :: 0 <= i < |r| ==> Live(reviews, r[i])
    ensures IsPage(r, ReviewsById(reviews), page, ReviewsPerPage)
  {
    var sorted := ReviewsById(reviews);
    PageOf(sorted, page, ReviewsPerPage)
  }

  /** Every live review is on some page of the listing: the page of its position. */
  lemma ReviewPageComplete(reviews: Table<Review>, x: Id)
    requires Live(reviews, x)
    ensures exists page :: page >= 1 && x in ReviewPage(reviews, page)
  {
    var sorted := ReviewsById(reviews);
    var page := PageOfCovers(sorted, ReviewsPerPage, x);
    assert ReviewPage(reviews, page) == PageOf(sorted, page, ReviewsPerPage);
  }

  /** A page of the listing is in ascending id order, so without repeats. */
  lemma PageAscending(reviews: Table<Review>, page: int)
    ensures Ascending(ReviewPage(reviews, page))
  {
    var sorted := ReviewsById(reviews);
    assert Ascending(sorted);
    PageKeepsAscending(sorted, page, ReviewsPerPage);
  }

  /**
   * `getReviewByHotelId`: takes one page of ten live reviews, whichever
   * hotel they are of, and keeps those of the hotel. A review on the page
   * whose booking is not live fails the request; an empty result answers
   * "not found".
   */
  ghost function ReviewPageForHotel(reviews: Table<Review>, bookings: Table<Booking>, hotelId: Id, page: int): (r: Result<seq<Id>>)
    ensures r == Err(BrokenReference) <==> exists x :: x in ReviewPage(reviews, page) && !Live(bookings, reviews[x].val.bookingId)
    ensures r.Ok? ==> r.value != [] && forall x :: x in r.value <==>
              && x in ReviewPage(reviews, page)
              && Live(bookings, reviews[x].val.bookingId)
              && bookings[reviews[x].val.bookingId].val.hotelId == hotelId
    ensures r.Ok? ==> Ascending(r.value)
  {
    var onPage := ReviewPage(reviews, page);
    PageAscending(reviews, page);
    if exists x :: x in onPage && !Live(bookings, reviews[x].val.bookingId) then Err(BrokenReference)
    else
      var found := OfHotel(reviews, bookings, onPage, hotelId);
      if found == [] then Err(NotFound) else Ok(found)
  }

  /** A set whose members all occur in a sequence is no larger than the sequence. */
  lemma {:induction false} SetWithinSeq(s: seq<Id>, S: set<Id>)
    requires forall x :: x in S ==> x in s
    ensures |S| <= |s|
    decreases |s|
  {
    if s != [] {
      var rest := S - {s[0]};
      SetWithinSeq(s[1..], rest);
      assert S <= rest + {s[0]};
    }
  }

  /** In a listing of strictly ascending ids, a smaller id stands at an earlier position. */
  lemma IndexBelow(s: seq<Id>, a: nat, b: nat)
    requires forall i, j :: 0 <= i < j < |s| ==> s[i] < s[j]
    requires a < |s| && b < |s| && s[a] < s[b]
    ensures a < b
  {
  }

  /** A live review has at least as many listed before it as there are live reviews with smaller ids. */
  lemma PositionInListing(reviews: Table<Review>, x: Id) returns (j: nat)
    requires Live(reviews, x)
    ensures j < |ReviewsById(reviews)| && ReviewsById(reviews)[j] == x
    ensures |set k | k in reviews && Live(reviews, k) && k < x| <= j
  {
    var sorted := ReviewsById(reviews);
    var before := set k | k in reviews && Live(reviews, k) && k < x;
    j :| 0 <= j < |sorted| && sorted[j] == x;
    forall k | k in before ensures k in sorted[..j] {
      var m :| 0 <= m < |sorted| && sorted[m] == k;
      IndexBelow(sorted, m, j);
      assert sorted[..j][m] == k;
    }
    SetWithinSeq(sorted[..j], before);
  }

  /**
   * The first page never lists a review that has ten live reviews with
   * smaller ids before it, even when it is the hotel's only review: the
   * listing filters the page, not the table.
   */
  lemma FirstPageMissesLaterReviews(reviews: Table<Review>, bookings: Table<Booking>, hotelId: Id, x: Id)
    requires Live(reviews, x)
    requires |set k | k in reviews && Live(reviews, k) && k < x| >= ReviewsPerPage
    ensures x !in ReviewPage(reviews, 1)
    ensures ReviewPageForHotel(reviews, bookings, hotelId, 1).Ok? ==> x !in ReviewPageForHotel(reviews, bookings, hotelId, 1).value
  {
    var j := PositionInListing(reviews, x);
    var sorted := ReviewsById(reviews);
    var onPage := ReviewPage(reviews, 1);
    assert |onPage| <= ReviewsPerPage <= j;
    forall i | 0 <= i < |onPage| ensures onPage[i] != x {
      assert onPage[i] == sorted[i];
    }
  }
}

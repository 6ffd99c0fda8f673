# Hotel booking rules, modelled in Dafny

This project models the booking core of a Laravel hotel-booking API. It covers:

- **Booking creation.** Who may book, the stay length in whole days, the date-conflict test, which requested rooms become booking details, the total price and the payment.
- **The two availability searches.** The search by hotel and the free-room count of one category.
- **The booking and payment state machine.**
  - Confirming a payment moves the booking from 'unpaid' to 'pending'.
  - The hotel then moves a 'pending' booking to 'accepted' or 'rejected'.
  - Confirming also purges duplicate booking details.
- **The soft-delete and restore cascades.** A cascade starts at a hotel, a category or a review and reaches rooms, images, bookings, reviews and replies.
- **The hotel search validators and the "top booked" list.**
- **The review rules.**

The database is one class, `Controllers.Db`, with one field per table. Each table is a map from row id to row, and each row carries a `deleted` flag for soft delete. Each controller action is a method of that class, and the caller is an explicit `(id, role)` argument.

The rules behind the actions are pure functions in their own modules:

- `BookingRules`: booking creation, and the checks of accept and reject;
- `Availability`: the availability searches;
- `PaymentRules`: payment lookup and confirmation;
- `Cascades`: the delete and restore cascades;
- `HotelRules`: the hotel searches and the hotel store and update checks;
- `ReviewRules`: the review rules.

Loops of the controllers are methods with loop invariants, each proved against the function that specifies it:

- the detail loop of `store`: `BookingRules.CreateDetails`;
- the status loops of accept and reject: `BookingRules.MarkDetails`;
- the purge loop of payment `update`: `PaymentRules.PurgeDuplicates`;
- every `foreach … delete()` / `restore()`: `SoftDelete.MarkAll`.

The class keeps an invariant, `Valid()`. It says that:

- row ids stay below the id counter;
- every detail and every payment points at an existing booking;
- no booking has two payments (the unique index on `booking_id`);
- every detail has `date_in <= date_out`.

Every action keeps this invariant. Where the code and its comments disagree, the model follows the code:

- A stay of exactly 1 day and a stay of exactly 7 days are both accepted, although the comment says "greater than 1 … less than 7".
- The conflict query of `store` binds only the first requested room id.

## Model

| member | source | states |
|---|---|---|
| SoftDelete.MarkAll | app/Http/Controllers/API/CategoryController.php:183-190 | deleting (or restoring) rows one at a time in a loop gives the table in which exactly the rows of the set carry the new mark; values and keys are unchanged |
| SoftDelete.DeleteThenRestore | app/Http/Controllers/API/CategoryController.php:179-281 | deleting the live rows of a set and then restoring its trashed rows leaves every row of the set live; that gives the table back if and only if none of them was trashed before |
| Ordering.SortAsc | app/Http/Controllers/API/HotelController.php:475 | `orderBy(…, 'asc')` lists every id of the set exactly once, in ascending key order |
| Ordering.Take | app/Http/Controllers/API/HotelController.php:619 | `limit(n)` keeps the first n rows, or all of them when there are fewer |
| Ordering.PageOf | app/Http/Controllers/API/HotelController.php:475 | a page holds at most the page size; its i-th row is the listing's row at the page's start plus i; a page that starts inside the listing is full unless it is the last one |
| Ordering.PageStartIs | app/Http/Controllers/API/HotelController.php:475 | page p starts after (p-1) times the page size rows; a page below 1 is page 1 |
| Ordering.PageKeepsAscending | app/Http/Controllers/API/ReviewController.php:149 | a page of a listing in strictly ascending order is itself in that order |
| Ordering.PageKeepsOrder | app/Http/Controllers/API/HotelController.php:475 | a page of a listing without repeats in ascending key order is itself without repeats and in that order |
| Ordering.PageOfCovers | app/Http/Controllers/API/HotelController.php:475 | every row of a listing is on some page numbered 1 or more |
| BookingRules.StayDays | app/Http/Controllers/API/BookingController.php:92-95 | the day count is the floor of the second difference divided by 86400: days*86400 <= out-in < (days+1)*86400 |
| BookingRules.StayAccepted | app/Http/Controllers/API/BookingController.php:91-99 | a stay is accepted if and only if 86400 <= out-in < 8*86400, so 1 and 7 whole days are both accepted |
| BookingRules.DatesClashIsOverlap | app/Http/Controllers/API/BookingController.php:107-113 | for well-formed intervals, the three-way whereBetween/orWhere test of the conflict query is exactly closed-interval overlap, the test of the hotel search |
| BookingRules.CheckBookingRequest | app/Http/Controllers/API/BookingController.php:44-119 | roles 'hotel' and 'admin' are refused; an invalid request fails validation; the request passes if and only if the caller is a user, the hotel and all rooms are live, room_count <= the number of room ids, 1 <= days <= 7, and no live non-'unpaid' detail of the first room clashes; on a pass, no such detail of that room overlaps the stay |
| BookingRules.OnlyFirstRoomChecked | app/Http/Controllers/API/BookingController.php:106-115 | a request passes even though a pending detail holds its second room over the same dates |
| BookingRules.RoomsCheck | app/Http/Controllers/API/BookingController.php:130-143 | the room check passes if and only if every requested room has a live category of the requested hotel; otherwise it fails as "room not found", or as a null read when some room's category is deleted |
| BookingRules.ScanRooms | app/Http/Controllers/API/BookingController.php:135-140 | the loop over the requested rooms, which returns at the first bad room, answers as RoomsCheck |
| BookingRules.RoomsToBook | app/Http/Controllers/API/BookingController.php:147 | `array_slice(ids, 0, count)` is a prefix of the ids: count rooms when count >= 0, and for a negative count that many fewer than all |
| BookingRules.TotalPriceUniform | app/Http/Controllers/API/BookingController.php:157-158 | when every booked room has the same price, the total is price * days * number of rooms |
| BookingRules.TotalPriceNonNegative | app/Http/Controllers/API/BookingController.php:145-163 | with prices that are not negative and a non-negative day count, the total is not negative |
| BookingRules.NewDetailsKeys | app/Http/Controllers/API/BookingController.php:149-155 | the new detail rows take exactly the keys start .. start+n-1, one per booked room |
| BookingRules.NewDetailsAt | app/Http/Controllers/API/BookingController.php:149-155 | the i-th new detail is for the i-th booked room, with the request's dates, status 'unpaid' and not deleted |
| BookingRules.NewBookingDetailIds | app/Http/Controllers/API/BookingController.php:149-155 | the live details of a new booking are exactly the new detail rows |
| BookingRules.NewBookingDetails | app/Http/Controllers/API/BookingController.php:147-155 | a new booking has exactly one live detail per booked room, the i-th for the i-th room, with the request's dates and 'unpaid' |
| BookingRules.CreateDetails | app/Http/Controllers/API/BookingController.php:145-161 | the detail loop adds exactly the new detail rows and accumulates the total price of the booked rooms |
| BookingRules.MarkDetails | app/Http/Controllers/API/BookingController.php:558-564 | the loop over a booking's details sets each one's status, and deletes it too on reject; no other row changes |
| BookingRules.AcceptMarksDetails | app/Http/Controllers/API/BookingController.php:500-509 | after accept, the booking has the same live details, all 'accepted'; every other detail is unchanged |
| BookingRules.RejectRemovesDetails | app/Http/Controllers/API/BookingController.php:553-564 | after reject, the booking has no live detail; each former detail is trashed and 'rejected'; every other detail is unchanged |
| BookingRules.CheckPendingDecision | app/Http/Controllers/API/BookingController.php:475-498 | a caller who is not a hotel is refused; accept and reject pass if and only if the caller has the hotel role, the booking is live, its hotel is live and created by the caller, and the booking is 'pending' |
| Availability.BlockedRooms | app/Http/Controllers/API/CategoryController.php:512-520 | a room is blocked if and only if it is one of the hotel's rooms and a live detail of it overlaps the closed range with a status other than 'unpaid' |
| Availability.AvailableRooms | app/Http/Controllers/API/CategoryController.php:489-527 | the available rooms are exactly the hotel's live rooms that no such detail holds |
| Availability.NoConflictAllAvailable | app/Http/Controllers/API/CategoryController.php:567-585 | when the conflict query finds nothing, every room of the hotel is available, so both branches agree |
| Availability.AcceptedRequestFirstRoomAvailable | app/Http/Controllers/API/CategoryController.php:496-504 | the first room of a booking request that `store` accepts is available to the hotel search over the same dates |
| Availability.Dedupe | app/Http/Controllers/API/CategoryController.php:530-532 | `unique('id')` keeps each id once and keeps every id that occurs |
| Availability.Offers | app/Http/Controllers/API/CategoryController.php:536-551 | one offer per category, in order, holding the category's free rooms and their count |
| Availability.SearchByHotel | app/Http/Controllers/API/CategoryController.php:467-508 | date_out not after date_in fails validation; a stay of more than 7 whole days is refused; otherwise the offers are returned |
| Availability.HotelOffersExact | app/Http/Controllers/API/CategoryController.php:529-557 | every offered category has at least one room, its room ids are exactly the available rooms of that category, and its count is their number |
| Availability.OffersExact | app/Http/Controllers/API/CategoryController.php:535-551 | offers for categories of free hotel rooms are non-empty and hold exactly the free rooms of their category |
| Availability.CategoryOfferExact | app/Http/Controllers/API/CategoryController.php:538-550 | the free rooms of one of the hotel's categories are exactly the hotel's free rooms of that category |
| Availability.HotelOffersCover | app/Http/Controllers/API/CategoryController.php:529-551 | no category is offered twice, and every available room is offered under its own category |
| Availability.OffersCover | app/Http/Controllers/API/CategoryController.php:530-551 | offers for distinct categories that include every free room's category are distinct and include every free room |
| Availability.FreeInCategory | app/Http/Controllers/API/CategoryController.php:431-448 | a room is free in the category count if and only if it is a live room of the category and no live detail covers the whole range, whatever its status |
| Availability.CategoryAvailableCount | app/Http/Controllers/API/CategoryController.php:414-465 | date_out not after date_in fails; otherwise the answer is the number of free rooms of the category |
| Availability.PartialOverlapDisagrees | app/Http/Controllers/API/CategoryController.php:435-438 | a pending detail that overlaps the range without covering it removes its room from the hotel search but not from the category count |
| Availability.UnpaidCoverDisagrees | app/Http/Controllers/API/CategoryController.php:435-438 | an 'unpaid' detail that covers the range leaves its room in the hotel search but removes it from the category count |
| Cascades.DeleteCategories | app/Http/Controllers/API/CategoryController.php:179-190 | the categories become trashed; a room or category image is trashed afterwards if and only if it was trashed before or belongs to one of them; nothing else changes |
| Cascades.RestoreCategories | app/Http/Controllers/API/CategoryController.php:268-281 | the categories become live; a room or image stays trashed if and only if it was trashed and belongs to none of them; nothing else changes |
| Cascades.DeleteReviews | app/Http/Controllers/API/ReviewController.php:115-120 | the reviews become trashed, with every reply to them; nothing else changes |
| Cascades.RestoreReviews | app/Http/Controllers/API/ReviewController.php:134-139 | the reviews become live, with every trashed reply to them; nothing else changes |
| Cascades.CheckCategory | app/Http/Controllers/API/CategoryController.php:162-176 | destroy (live category) and restore (trashed category) pass if and only if the category is found, the caller has the hotel role and owns the category's live hotel; a missing category answers "not found" |
| Cascades.CheckHotelCategories | app/Http/Controllers/API/CategoryController.php:200-216 | the by-hotel delete and restore pass if and only if the hotel has such categories and the caller is its owning hotel user; no category answers "not found" first |
| Cascades.CheckPriceUpdate | app/Http/Controllers/API/CategoryController.php:345-365 | the price update passes if and only if the price is not negative, the category is live, and a hotel-role caller owns its hotel; callers of other roles are not stopped |
| Cascades.CheckHotel | app/Http/Controllers/API/HotelController.php:221-229 | hotel destroy and restore pass if and only if the hotel is found (live, or trashed) and the caller created it; the role is not checked |
| Cascades.RestoreUndoesDeleteCategories | app/Http/Controllers/API/CategoryController.php:160-287 | restore after destroy gives the tables back when nothing under the categories was trashed before |
| Cascades.RestoreCategoriesRevivesRooms | app/Http/Controllers/API/CategoryController.php:268-281 | after destroy and restore, every room of the categories is live, even one that was deleted on its own before |
| Cascades.RestoreUndoesDeleteReviews | app/Http/Controllers/API/ReviewController.php:108-144 | review restore after destroy gives the tables back when none of the replies was trashed before |
| Cascades.RestoreUndoesDestroyCategories | app/Http/Controllers/API/HotelController.php:263-359 | when the hotel is live and nothing under it is trashed, restore after destroy gives the categories, rooms and category images back unchanged |
| Cascades.RestoreUndoesDestroyBookings | app/Http/Controllers/API/HotelController.php:280-378 | when the hotel is live and nothing under it is trashed, restore after destroy gives the bookings, reviews and replies back unchanged |
| Cascades.RestoreUndoesDestroy | app/Http/Controllers/API/HotelController.php:219-385 | hotel restore after destroy gives the tables back when the hotel was live and nothing under it was trashed |
| Cascades.DestroyRestoreRevives | app/Http/Controllers/API/HotelController.php:315-378 | after destroy and restore, every category and every booking of the hotel is live, including those deleted before the hotel was |
| HotelRules.ListBy | app/Http/Controllers/API/HotelController.php:475 | a page lists matching hotels, each once, in ascending order of the column; page p holds the sorted rows from (p-1)*20 on, twenty of them unless the listing ends first; the first page lists all of them when there are at most 20 |
| HotelRules.ListByComplete | app/Http/Controllers/API/HotelController.php:475 | every matching hotel is listed on some page |
| HotelRules.ValidatePriceRange | app/Http/Controllers/API/HotelController.php:459-473 | the price range is accepted if and only if 0 <= min < max; min > max answers "min above max"; the "both zero" error is never reached |
| HotelRules.HotelsByPrice | app/Http/Controllers/API/HotelController.php:447-486 | answers if and only if 0 <= min < max, with live hotels priced within [min, max], cheapest first |
| HotelRules.PricedWithin | app/Http/Controllers/API/HotelController.php:475 | a hotel matches if and only if it is live and its price lies within [min, max] |
| HotelRules.HotelsByPriceComplete | app/Http/Controllers/API/HotelController.php:447-486 | for a valid range, every live hotel priced within it is answered on some page |
| HotelRules.HotelsByRating | app/Http/Controllers/API/HotelController.php:517-548 | a rating below 0 and one above 5 are refused, each with its own error; otherwise live hotels rated at least that are listed, lowest first |
| HotelRules.RatedAtLeast | app/Http/Controllers/API/HotelController.php:537 | a hotel matches if and only if it is live and rated at least the given rating |
| HotelRules.HotelsByRatingComplete | app/Http/Controllers/API/HotelController.php:517-548 | for a rating in 0..5, every live hotel rated at least that is answered on some page |
| HotelRules.HotelsByGuests | app/Http/Controllers/API/HotelController.php:488-515 | a negative guest number is refused; otherwise live hotels taking at least that many guests are listed, fewest first |
| HotelRules.TakingAtLeast | app/Http/Controllers/API/HotelController.php:504 | a hotel matches if and only if it is live and takes at least the given number of guests |
| HotelRules.HotelsByGuestsComplete | app/Http/Controllers/API/HotelController.php:488-515 | for a guest number of 0 or more, every live hotel taking at least that many is answered on some page |
| HotelRules.TopHotels | app/Http/Controllers/API/HotelController.php:619 | at most six hotels with live bookings, each once, in descending order of their live-booking count |
| HotelRules.TopBooked | app/Http/Controllers/API/HotelController.php:616-636 | one entry per top hotel, with its booking count, and the hotel found if and only if it is live; distinct hotels, counts not increasing |
| HotelRules.LookupTop | app/Http/Controllers/API/HotelController.php:621-624 | the lookup loop gives, for each hotel id in order, its live-booking count and whether the hotel lookup finds a live hotel |
| HotelRules.TopHotelsAreTop | app/Http/Controllers/API/HotelController.php:619 | no booked hotel left out of the list has more live bookings than any hotel in it |
| HotelRules.CheckNewHotel | app/Http/Controllers/API/HotelController.php:65-111 | hotel store passes if and only if the caller has the hotel role, the request is valid (every required text field non-blank once trimmed, the hotline non-blank and matching the pattern), and no live hotel has the hotline or the email; other roles are refused |
| HotelRules.CheckHotelUpdate | app/Http/Controllers/API/HotelController.php:145-190 | hotel update passes if and only if the hotline is blank, or matches the pattern and has at least 10 characters (no other field is checked), the hotel is live, the caller created it, and no other live hotel has the hotline or the email |
| HotelRules.NewHotelKeepsContactsUnique | app/Http/Controllers/API/HotelController.php:104-111 | a hotel that store accepts keeps hotlines and emails unique among live hotels |
| HotelRules.UpdateKeepsContactsUnique | app/Http/Controllers/API/HotelController.php:183-190 | an update that passes keeps hotlines and emails unique among live hotels |
| HotelRules.RestoreCanDuplicateHotline | app/Http/Controllers/API/HotelController.php:104-106 | uniqueness is checked among live hotels only, so a restored hotel can share a hotline with a newer one |
| PaymentRules.PaymentOf | app/Http/Controllers/API/PaymentController.php:159-168 | the lookup finds a payment of the booking if and only if one exists; otherwise it answers "not found" |
| PaymentRules.PaymentOfUnique | database/migrations/2023_04_21_150623_create_payment_table.php:17 | with `booking_id` unique, the lookup finds the booking's one payment |
| PaymentRules.CheckPaymentUpdate | app/Http/Controllers/API/PaymentController.php:64-89 | payment update passes if and only if the booking is live, the caller booked it, and it has a payment not already at status 1 |
| PaymentRules.Purged | app/Http/Controllers/API/PaymentController.php:130-135 | a row is purged if and only if it has the same room, date_in and date_out as another detail of the booking |
| PaymentRules.ConfirmStep | app/Http/Controllers/API/PaymentController.php:127-138 | one pass of the loop takes the confirmed table one detail further |
| PaymentRules.PurgePass | app/Http/Controllers/API/PaymentController.php:128-137 | one pass force-deletes the other rows of the detail's slot, then saves the detail as 'pending' if its row is still there |
| PaymentRules.PurgeDuplicates | app/Http/Controllers/API/PaymentController.php:127-138 | the loop over the booking's details, in any order, gives the confirmed table: purged rows gone, the surviving details 'pending' |
| PaymentRules.DistinctSlotSurvives | app/Http/Controllers/API/PaymentController.php:131-135 | a row whose slot no other detail of the booking shares survives unchanged, except that a detail of the booking becomes 'pending'; so overlapping but not identical details survive |
| PaymentRules.ConfirmedHasNoDuplicates | app/Http/Controllers/API/PaymentController.php:127-138 | after confirmation, the surviving details of the booking are 'pending', and no other surviving row shares the slot of one of them |
| PaymentRules.SameRoomTwiceLosesBoth | app/Http/Controllers/API/PaymentController.php:127-138 | a booking that names the same room twice for the same dates loses both details on confirmation |
| ReviewRules.CheckNewReview | app/Http/Controllers/API/ReviewController.php:40-62 | review store passes if and only if the booking is live and 'accepted', title and content are non-blank once trimmed, the rating is in 1..5, and the booking has no live review |
| ReviewRules.NewReviewKeepsOnePerBooking | app/Http/Controllers/API/ReviewController.php:60-72 | a review that store accepts keeps one live review per booking |
| ReviewRules.RestoreCanGiveTwoReviews | app/Http/Controllers/API/ReviewController.php:60-62 | the one-review rule looks at live reviews only, so a restored review can give a booking two |
| ReviewRules.ReviewsOfHotel | app/Http/Controllers/API/ReviewController.php:165-191 | by-hotel delete selects exactly the live reviews whose live booking belongs to the hotel; a live review with a deleted booking fails the request; no match answers "not found" |
| ReviewRules.ReviewsOfUser | app/Http/Controllers/API/ReviewController.php:234-262 | by-user delete selects exactly the user's live reviews; none answers "not found" |
| ReviewRules.ReviewsOfBooking | app/Http/Controllers/API/ReviewController.php:220-232 | the booking's live reviews; none answers "not found" |
| ReviewRules.ReviewsById | app/Http/Controllers/API/ReviewController.php:149 | the listing holds every live review once, in ascending id order |
| ReviewRules.OfHotel | app/Http/Controllers/API/ReviewController.php:154-156 | the filter keeps exactly the reviews of the page whose booking belongs to the hotel, in the page's order: without repeats when the page has none, ascending when the page is |
| ReviewRules.ReviewPage | app/Http/Controllers/API/ReviewController.php:149 | a page holds only live reviews: those of the id-ordered listing from (page-1)*10 on, ten of them unless the listing ends first |
| ReviewRules.PageAscending | app/Http/Controllers/API/ReviewController.php:149 | every page of the review listing is in strictly ascending id order |
| ReviewRules.ReviewPageComplete | app/Http/Controllers/API/ReviewController.php:149 | every live review is on some page |
| ReviewRules.ReviewPageForHotel | app/Http/Controllers/API/ReviewController.php:146-162 | fails if and only if a review on the page has a booking that is not live; an answer is never empty and holds exactly the reviews of the page whose live booking belongs to the hotel, in ascending id order without repeats |
| ReviewRules.PositionInListing | app/Http/Controllers/API/ReviewController.php:149 | a live review stands in the listing behind at least as many reviews as there are live reviews with smaller ids |
| ReviewRules.FirstPageMissesLaterReviews | app/Http/Controllers/API/ReviewController.php:149-156 | a review with ten live reviews of smaller id is never on the first page, so the hotel's first-page answer never holds it, even when it is the hotel's only review |
| Controllers.BookingInserted | app/Http/Controllers/API/BookingController.php:121 | saving the booking row under the next id keeps the tables consistent; no detail or payment belongs to it yet |
| Controllers.BookingSaved | app/Http/Controllers/API/BookingController.php:145-170 | saving the details, the total and the payment keeps the tables consistent, and the booking has exactly one detail per booked room |
| Controllers.Db.StoreBooking | app/Http/Controllers/API/BookingController.php:44-171 | a refused request stores nothing; a failed room check leaves the booking row with total 0 and no details or payment; otherwise the booking, its details and its payment are saved with the total price |
| Controllers.Db.PlaceBooking | app/Http/Controllers/API/BookingController.php:121-170 | the saves after the checks: the booking row first, then the room check, then the details, the total and the payment |
| Controllers.Db.AddBookingRows | app/Http/Controllers/API/BookingController.php:145-170 | the details, the total and the payment are saved under the next ids, and the booking ends with one detail per booked room |
| Controllers.Db.AcceptBooking | app/Http/Controllers/API/BookingController.php:473-510 | on a pass, the booking and its live details become 'accepted'; otherwise nothing changes |
| Controllers.Db.RejectBooking | app/Http/Controllers/API/BookingController.php:526-565 | on a pass, the booking becomes 'rejected' and its live details become 'rejected' and deleted; otherwise nothing changes |
| Controllers.Db.UpdatePayment | app/Http/Controllers/API/PaymentController.php:60-143 | a failed check changes nothing; the new payment status is saved whatever it is; a status other than 1 then fails; status 1 makes the booking 'pending' and paid, and confirms its details unless the hotel is deleted |
| Controllers.Db.DeletePaymentOfBooking | app/Http/Controllers/API/PaymentController.php:170-183 | the booking's payment is removed, and the booking has none left; no payment answers "not found" and changes nothing |
| Controllers.Db.DestroyPayment | app/Http/Controllers/API/PaymentController.php:145-157 | the payment with this id is removed; a missing id answers "not found" and changes nothing |
| Controllers.Db.MarkCategories | app/Http/Controllers/API/CategoryController.php:179-190 | the new tables are DeleteCategories of the old ones |
| Controllers.Db.UnmarkCategories | app/Http/Controllers/API/CategoryController.php:268-281 | the new tables are RestoreCategories of the old ones |
| Controllers.Db.DestroyCategory | app/Http/Controllers/API/CategoryController.php:160-196 | on a pass, the category with its live rooms and images is deleted; otherwise nothing changes |
| Controllers.Db.RestoreCategory | app/Http/Controllers/API/CategoryController.php:249-287 | on a pass, the category with its trashed rooms and images is restored; otherwise nothing changes |
| Controllers.Db.DeleteCategoriesOfHotel | app/Http/Controllers/API/CategoryController.php:198-247 | on a pass, every live category of the hotel is deleted with its live rooms and images |
| Controllers.Db.RestoreCategoriesOfHotel | app/Http/Controllers/API/CategoryController.php:289-340 | on a pass, every trashed category of the hotel is restored with its trashed rooms and images |
| Controllers.Db.UpdateCategoryPrice | app/Http/Controllers/API/CategoryController.php:342-375 | on a pass, only the category's price changes |
| Controllers.Db.StoreHotel | app/Http/Controllers/API/HotelController.php:65-143 | on a pass, a new live hotel is created by the caller under a fresh id; otherwise nothing changes |
| Controllers.Db.UpdateHotel | app/Http/Controllers/API/HotelController.php:145-217 | on a pass, the descriptive fields are replaced, and creator, rating and check-in/out stay |
| Controllers.Db.MarkHotelRows | app/Http/Controllers/API/HotelController.php:263-282 | the hotel row, the given hotel images and the given bookings get the new mark; nothing else changes |
| Controllers.Db.DestroyHotel | app/Http/Controllers/API/HotelController.php:219-300 | on a pass, the tables become DestroyHotelTables of the old ones; otherwise nothing changes |
| Controllers.Db.RestoreHotel | app/Http/Controllers/API/HotelController.php:303-385 | on a pass, the tables become RestoreHotelTables of the old ones; otherwise nothing changes |
| Controllers.Db.StoreReview | app/Http/Controllers/API/ReviewController.php:37-75 | on a pass, a new live review by the caller, titled "title", is created under a fresh id; otherwise nothing changes |
| Controllers.Db.UpdateReview | app/Http/Controllers/API/ReviewController.php:78-106 | passes if and only if title and content are non-blank once trimmed and the review is live; then only its title, content and rating change |
| Controllers.Db.MarkReviews | app/Http/Controllers/API/ReviewController.php:115-120 | the new tables are DeleteReviews of the old ones |
| Controllers.Db.UnmarkReviews | app/Http/Controllers/API/ReviewController.php:134-139 | the new tables are RestoreReviews of the old ones |
| Controllers.Db.DestroyReview | app/Http/Controllers/API/ReviewController.php:108-125 | passes if and only if the review is live; then it is deleted with its live replies |
| Controllers.Db.RestoreReview | app/Http/Controllers/API/ReviewController.php:127-144 | passes if and only if the review is trashed; then it is restored with its trashed replies |
| Controllers.Db.DeleteReviewsOfHotel | app/Http/Controllers/API/ReviewController.php:165-191 | deletes exactly the reviews ReviewsOfHotel selects, with their live replies, or fails as it does and changes nothing |
| Controllers.Db.DeleteReviewsOfUser | app/Http/Controllers/API/ReviewController.php:234-262 | deletes exactly the reviews ReviewsOfUser selects, with their live replies, or fails as it does and changes nothing |

## Left out

- Authentication: `Auth::user`, the token lookup and the role middleware are replaced by an explicit caller argument.
- Notifications, the hard-coded Stripe QR URL, JSON and response shaping, Resource classes and pagination metadata are left out. These are outputs outside the tables.
- Transactions and concurrency: each request runs atomically and alone.
- Date parsing and the clock: dates are integer seconds. `date_booking` and the hotel's `check_in` ("now") are parameters or left out.
- Floating point: prices and amounts are integers.
- The `LIKE` searches (by name, city, amenities, safety and hygiene) and `getHotelNearby` are left out. They depend on database collation.
- The every-minute scheduler and the console command are left out.
- RoomController, CategoryImageController and UserController are left out. They are single-row CRUD with the same ownership checks.
- The unrouted booking `update` and `destroy` and the booking list endpoints are left out.
- Review `restoreByHotelId` and `restoreByUserId` are left out. They mirror the two delete actions over trashed reviews.
- The email-format rule of the hotel validators is not modelled. The fields are checked for being non-blank and the hotline against its pattern (`StoreInfoValid`, `UpdateInfoValid`).
- Ratings are integers. Review store (app/Http/Controllers/API/ReviewController.php:45) and the rating search (app/Http/Controllers/API/HotelController.php:521) accept any number, decimals included, and compare it as such.
- Hotel store copies description, check_out, guests and price without a validation rule (app/Http/Controllers/API/HotelController.php:113-125), and hotel update copies every field (app/Http/Controllers/API/HotelController.php:168-203). A key missing from the request raises an error there; `HotelInfo` always holds every field, so that failure is not modelled.
- The route middleware of `updatePriceByCategoryId` is left out. The model admits every role that the method itself does not stop.
- BookingRules.CheckBookingRequest, Controllers.Db.StoreBooking: the request always carries `description` and a list of room ids. In the source, a request without `description` (which has no rule, app/Http/Controllers/API/BookingController.php:57) fails when it is read at line 82, and a single `room_id` value instead of a list fails at `count` on line 77. Both failures come before any save. The model cannot express either request, so it does not model those failures.
- Controllers.Db.StoreBooking: the response reads `bookingDetail()->first()->room->category`. That read fails after the saves when no detail was created: a room_count of 0, or a negative room_count of minus the number of room ids or less, which `array_slice` turns into an empty slice. The model reports success there, with the saves done.
- Controllers.Db.DestroyHotel: a booking's `review` relation is one-to-one in the source. The model deletes every live review of the hotel's bookings, which is the same whenever a booking has at most one live review.
- HotelRules.HotlineTakenBy, HotelRules.EmailTakenBy: hotline and email are compared exactly, as under a binary collation. The source's `where(…)->exists()` compares under the database collation, which may ignore case and trailing spaces, so it can refuse a hotline or email that the model lets through.
- HotelRules.ListBy, HotelRules.TopHotels: rows with equal keys are listed in one fixed order, the same on every page. SQL promises no order among ties under `orderBy` with `LIMIT`/`OFFSET`. So `ListByComplete`, `HotelsByPriceComplete`, `HotelsByRatingComplete` and `HotelsByGuestsComplete` hold only under that assumption, and so does which of several tied hotels `TopHotels` keeps.
- ReviewRules.ReviewsById: `Review::paginate(10)` has no `orderBy`, so the database may return reviews in any order. The model takes ascending id order; `ReviewPage`, `ReviewPageForHotel` and `FirstPageMissesLaterReviews` depend on that choice.
- Availability.HotelOffers: the database returns room rows in an unspecified order. The model takes ascending id order, which fixes the order of the categories in the answer.
- Row ids come from one counter shared by all tables. Only uniqueness within each table matters to the source.
- Status columns are taken to be non-null with default 'unpaid'. The booking-detail migration is not part of this model.
- A new hotel's rating is taken to be 0. The hotel migration is not part of this model.

/**
 * The tables of the hotel-booking API: one record type per entity, the roles
 * of the callers, the status strings of bookings and their details, and the
 * errors the controllers answer with.
 *
 * Every table is a map from row id to row. Dates are integer seconds, prices
 * and amounts are integers.
 */
module Schema {

  type Id = nat

  /** The `role` column of a user: 'user', 'hotel' or 'admin'. */
  datatype Role = UserRole | HotelRole | AdminRole

  /** The authenticated user making a request. */
  datatype Caller = Caller(id: Id, role: Role)

  /**
   * The `status` strings of a booking and of a booking detail. The column is
   * taken to be non-null, starting at 'unpaid'.
   */
  datatype Status = Unpaid | Pending | Accepted | Rejected

  /** The fields of a hotel that `store` and `update` copy from the request. */
  datatype HotelInfo = HotelInfo(
    name: string,
    address: string,
    hotline: string,
    email: string,
    description: string,
    roomTotal: int,
    parkingSlot: int,
    bathrooms: int,
    amenities: string,
    safetyHygiene: string,
    guests: int,
    city: string,
    nation: string,
    price: int)

  datatype Hotel = Hotel(createdBy: Id, info: HotelInfo, rating: int, checkIn: int, checkOut: int)

  datatype HotelImage = HotelImage(hotelId: Id)

  /** A room class of a hotel; `price` is the price of one room for one night. */
  datatype Category = Category(hotelId: Id, name: string, price: int)

  datatype CategoryImage = CategoryImage(categoryId: Id)

  datatype Room = Room(categoryId: Id, name: string)

  datatype Booking = Booking(
    userId: Id,
    hotelId: Id,
    roomCount: int,
    totalAmount: int,
    status: Status,
    isPayment: bool,
    dateIn: int,
    dateOut: int)

  /** One reserved room of a booking. */
  datatype BookingDetail = BookingDetail(bookingId: Id, roomId: Id, dateIn: int, dateOut: int, status: Status)

  /** `paymentStatus` is 1 once the payment succeeded. */
  datatype Payment = Payment(bookingId: Id, totalAmount: int, paymentStatus: int)

  datatype Review = Review(userId: Id, bookingId: Id, title: string, content: string, rating: int)

  datatype Reply = Reply(reviewId: Id)

  /** The error answers of the controllers, named after their messages. */
  datatype Error =
    | ValidationError
    | NotFound
    | Forbidden
    | RoomCountTooLarge
    | StayLengthRefused
    | DatesUnavailable
    | RoomNotFound
    | NoBookingDetail
    | BrokenReference
    | PaymentAlreadyDone
    | PaymentNotUpdated
    | StayTooLong
    | MinAboveMax
    | NegativePrice
    | SamePrices
    | BothPricesZero
    | NegativeGuests
    | RatingBelowZero
    | RatingAboveFive
    | HotlineTaken
    | EmailTaken
    | BookingNotCompleted
    | ReviewExists

  /** A character PHP's `trim` strips: space, tab, line feed, carriage return, NUL or vertical tab. */
  predicate TrimmedChar(c: char) {
    c == ' ' || c == '\t' || c == '\n' || c == '\r' || c == '\0' || c as int == 11
  }

  /**
   * A string that is empty once trimmed. The validator's `required` rule
   * refuses it, and rules that are not implicit (`regex`, `min`, `email`)
   * skip it as absent.
   */
  predicate Blank(s: string) {
    forall i :: 0 <= i < |s| ==> TrimmedChar(s[i])
  }

  datatype Result<T> = Ok(value: T) | Err(error: Error)

  /** The answer of an action that returns no value. */
  datatype Check = Pass | Fail(error: Error)
}

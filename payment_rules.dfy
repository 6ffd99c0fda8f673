/**
 * The rules of `PaymentController`: which payment belongs to a booking, who
 * may confirm it, and what confirming does to the booking's details — each
 * becomes 'pending', and every other detail row for the same room and the
 * same dates is removed for good.
 */
module PaymentRules {
  import opened Schema
  import opened SoftDelete

  /** The `payment_status` value that means "paid". */
  const PaymentDone: int := 1

  /** The unique index on `booking_id`: no booking has two payments. */
  predicate OnePaymentPerBooking(payments: map<Id, Payment>) {
    forall a, b :: a in payments && b in payments && a != b ==> payments[a].bookingId != payments[b].bookingId
  }

  /**
   * `Payment::where('booking_id', b)->first()`: a payment of the booking, or
   * "not found". There is at most one (`PaymentOfUnique`).
   */
  ghost function PaymentOf(payments: map<Id, Payment>, b: Id): (r: Result<Id>)
    ensures r.Ok? <==> exists p :: p in payments && payments[p].bookingId == b
    ensures r.Ok? ==> r.value in payments && payments[r.value].bookingId == b
    ensures r.Err? ==> r.error == NotFound
  {
    var found := set p | p in payments && payments[p].bookingId == b;
    if found == {} then
      assert forall p :: p in payments && payments[p].bookingId == b ==> p in found;
      Err(NotFound)
    else
      var p :| p in found;
      Ok(p)
  }

  /** With one payment per booking, the lookup finds that payment. */
  lemma PaymentOfUnique(payments: map<Id, Payment>, p: Id)
    requires OnePaymentPerBooking(payments)
    requires p in payments
    ensures PaymentOf(payments, payments[p].bookingId) == Ok(p)
  {
  }

  /**
   * What `update` checks before it saves anything: a live booking, booked by
   * the caller, with a payment that is not already paid.
   */
  ghost function CheckPaymentUpdate(bookings: Table<Booking>, payments: map<Id, Payment>, caller: Caller, b: Id): (r: Check)
    ensures r.Pass? <==>
              && Live(bookings, b)
              && bookings[b].val.userId == caller.id
              && PaymentOf(payments, b).Ok?
              && payments[PaymentOf(payments, b).value].paymentStatus != PaymentDone
    ensures r == Fail(PaymentAlreadyDone) ==> PaymentOf(payments, b).Ok?
  {
    if !Live(bookings, b) then Fail(ValidationError)
    else if bookings[b].val.userId != caller.id then Fail(Forbidden)
    else if PaymentOf(payments, b).Err? then Fail(NotFound)
    else if payments[PaymentOf(payments, b).value].paymentStatus == PaymentDone then Fail(PaymentAlreadyDone)
    else Pass
  }

  /** Same room, same check-in, same check-out: the purge's match. */
  predicate SameSlot(a: BookingDetail, b: BookingDetail) {
    a.roomId == b.roomId && a.dateIn == b.dateIn && a.dateOut == b.dateOut
  }

  /**
   * The rows the purge removes: every row, trashed or not, that shares its
   * slot with a detail of `mine` other than itself.
   */
  function Purged(details: Table<BookingDetail>, mine: set<Id>): (r: set<Id>)
    ensures forall j :: j in r <==>
              j in details && exists k :: k in mine && k in details && k != j && SameSlot(details[j].val, details[k].val)
  {
    set j | j in details && exists k :: k in mine && k in details && k != j && SameSlot(details[j].val, details[k].val)
  }

  /** The details after confirmation: the purged rows are gone and the surviving rows of `mine` are 'pending'. */
  function Confirmed(details: Table<BookingDetail>, mine: set<Id>): Table<BookingDetail> {
    map j | j in details && j !in Purged(details, mine) ::
      if j in mine then Row(details[j].val.(status := Pending), details[j].deleted) else details[j]
  }

  /**
   * One pass of the loop for detail `k`, whose row as loaded is `d`: remove
   * every other row with `d`'s slot, then save `k` as 'pending' — which
   * changes nothing when `k`'s own row was removed by an earlier pass.
   */
  function PurgeStep(r: Table<BookingDetail>, k: Id, d: BookingDetail): Table<BookingDetail> {
    var kept := map j | j in r && (j == k || !SameSlot(r[j].val, d)) :: r[j];
    if k in kept then kept[k := Row(kept[k].val.(status := Pending), kept[k].deleted)] else kept
  }

  /** Adding detail `k` to `done` adds the other rows of `k`'s slot to the purged ones. */
  lemma PurgedStep(details: Table<BookingDetail>, done: set<Id>, k: Id)
    requires k in details && k !in done
    ensures forall j :: j in Purged(details, done + {k}) <==>
              j in Purged(details, done) || (j in details && j != k && SameSlot(details[j].val, details[k].val))
  {
  }

  /** Confirmation changes no row's slot. */
  lemma ConfirmedKeepsSlots(details: Table<BookingDetail>, done: set<Id>)
    ensures var r := Confirmed(details, done);
            forall j :: j in r ==>
              && j in details && r[j].deleted == details[j].deleted
              && r[j].val == if j in done then details[j].val.(status := Pending) else details[j].val
  {
  }

  /** A pass keeps the rows that the confirmation with one more detail keeps. */
  lemma ConfirmStepKeys(details: Table<BookingDetail>, done: set<Id>, k: Id)
    requires k in details && k !in done
    ensures PurgeStep(Confirmed(details, done), k, details[k].val).Keys == Confirmed(details, done + {k}).Keys
  {
    var r := Confirmed(details, done);
    var lhs := PurgeStep(r, k, details[k].val);
    var rhs := Confirmed(details, done + {k});
    PurgedStep(details, done, k);
    ConfirmedKeepsSlots(details, done);
    assert lhs.Keys <= r.Keys <= details.Keys && rhs.Keys <= details.Keys;
    forall j | j in details ensures j in lhs <==> j in rhs {
      if j != k && j in r {
        assert SameSlot(r[j].val, details[k].val) <==> SameSlot(details[j].val, details[k].val);
      }
    }
  }

  /** A pass gives each row it keeps the value the confirmation with one more detail gives it. */
  lemma ConfirmStepValues(details: Table<BookingDetail>, done: set<Id>, k: Id)
    requires k in details && k !in done
    ensures var lhs := PurgeStep(Confirmed(details, done), k, details[k].val);
            var rhs := Confirmed(details, done + {k});
            forall j :: j in lhs && j in rhs ==> lhs[j] == rhs[j]
  {
    var r := Confirmed(details, done);
    var lhs := PurgeStep(r, k, details[k].val);
    var rhs := Confirmed(details, done + {k});
    ConfirmedKeepsSlots(details, done);
    forall j | j in lhs && j in rhs ensures lhs[j] == rhs[j] {
      assert j in r;
      if j == k {
        assert lhs[k] == Row(r[k].val.(status := Pending), r[k].deleted);
      } else {
        assert lhs[j] == r[j];
      }
    }
  }

  /** A pass for a further detail of the booking takes the confirmed table one detail further. */
  lemma ConfirmStep(details: Table<BookingDetail>, done: set<Id>, k: Id)
    requires k in details && k !in done
    ensures PurgeStep(Confirmed(details, done), k, details[k].val) == Confirmed(details, done + {k})
  {
    ConfirmStepKeys(details, done, k);
    ConfirmStepValues(details, done, k);
  }

  /**
   * The body of the loop for detail `k`, whose row as loaded is `d`: the
   * `forceDelete` of the other rows with `d`'s slot, then the `save()` of `k`
   * as 'pending', which updates nothing once `k`'s row is gone.
   */
  method PurgePass(before: Table<BookingDetail>, k: Id, d: BookingDetail) returns (r: Table<BookingDetail>)
    ensures r == PurgeStep(before, k, d)
  {
    r := map j | j in before && (j == k || !SameSlot(before[j].val, d)) :: before[j];
    if k in r {
      r := r[k := Row(r[k].val.(status := Pending), r[k].deleted)];
    }
  }

  /**
   * The loop of `update` over the booking's details `mine`, as loaded before
   * the loop: one pass per detail. The outcome does not depend on the order
   * in which the details come.
   */
  method PurgeDuplicates(details: Table<BookingDetail>, mine: set<Id>) returns (r: Table<BookingDetail>)
    requires mine <= details.Keys
    ensures r == Confirmed(details, mine)
  {
    r := details;
    var todo := mine;
    ghost var done: set<Id> := {};
    assert details == Confirmed(details, done);
    while todo != {}
      invariant done + todo == mine && done !! todo
      invariant r == Confirmed(details, done)
      decreases todo
    {
      var k :| k in todo;
      r := PurgePass(r, k, details[k].val);
      ConfirmStep(details, done, k);
      done := done + {k};
      todo := todo - {k};
    }
  }

  /**
   * A row that shares its slot with no other detail of `mine` survives:
   * overlapping but not identical dates, another room, or no detail of the
   * booking at all. It changes only by becoming 'pending' when it is one of `mine`.
   */
  lemma DistinctSlotSurvives(details: Table<BookingDetail>, mine: set<Id>, j: Id)
    requires j in details
    requires forall k :: k in mine && k in details && k != j ==> !SameSlot(details[j].val, details[k].val)
    ensures j in Confirmed(details, mine)
    ensures Confirmed(details, mine)[j].val == if j in mine then details[j].val.(status := Pending) else details[j].val
    ensures Confirmed(details, mine)[j].deleted == details[j].deleted
  {
  }

  /**
   * After confirmation the surviving details of `mine` are 'pending', and no
   * other surviving row has the slot of one of them.
   */
  lemma ConfirmedHasNoDuplicates(details: Table<BookingDetail>, mine: set<Id>)
    ensures var c := Confirmed(details, mine);
            && (forall k :: k in c && k in mine ==> c[k].val.status == Pending)
            && (forall j, k :: j in c && k in c && k in mine && j != k ==> !SameSlot(c[j].val, c[k].val))
  {
    var c := Confirmed(details, mine);
    forall j, k | j in c && k in c && k in mine && j != k
      ensures !SameSlot(c[j].val, c[k].val)
    {
      assert j !in Purged(details, mine);
    }
  }

  /**
   * A booking that names the same room twice for the same dates loses both
   * details on confirmation: each pass removes the other one.
   */
  lemma SameRoomTwiceLosesBoth()
    ensures var d := BookingDetail(5, 2, 0, 86400, Unpaid);
            Confirmed(map[1 := Row(d, false), 2 := Row(d, false)], {1, 2}) == map[]
  {
    var d := BookingDetail(5, 2, 0, 86400, Unpaid);
    var details := map[1 := Row(d, false), 2 := Row(d, false)];
    assert 1 in Purged(details, {1, 2}) && 2 in Purged(details, {1, 2});
  }
}

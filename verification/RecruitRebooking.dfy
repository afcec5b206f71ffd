/** Bookings that take over a time of the slots held so far, and what rebooking leaves of them. */
module RecruitRebooking {
  import opened Options
  import opened Rows
  import opened Counting
  import opened RecruitData
  import opened RecruitForm
  import opened RecruitBooking
  import opened RecruitBookingLaws

  // ----- which times are taken over -----

  /** The first row of the table that the applicant holds. */
  ghost predicate IsFirstHeld(slots: seq<Slot>, applicant: Id, k: nat) {
    && k < |slots| && slots[k].applicant == Some(applicant)
    && forall i :: 0 <= i < k ==> slots[i].applicant != Some(applicant)
  }

  lemma FirstHeldUpTo(slots: seq<Slot>, applicant: Id, j: nat) returns (k: nat)
    requires j < |slots| && slots[j].applicant == Some(applicant)
    ensures IsFirstHeld(slots, applicant, k)
    decreases j
  {
    if i :| 0 <= i < j && slots[i].applicant == Some(applicant) {
      k := FirstHeldUpTo(slots, applicant, i);
    } else {
      k := j;
    }
  }

  lemma SomeFirstHeld(slots: seq<Slot>, applicant: Id) returns (k: nat)
    requires HeldKeys(slots, applicant) != {}
    ensures IsFirstHeld(slots, applicant, k)
  {
    var key :| key in HeldKeys(slots, applicant);
    var slot :| slot in slots && slot.applicant == Some(applicant) && KeyOf(slot) == key;
    var j :| 0 <= j < |slots| && slots[j] == slot;
    k := FirstHeldUpTo(slots, applicant, j);
  }

  function GivenOr(given: Option<Instant>, held: Instant): Instant {
    if given.Some? then given.value else held
  }

  /** With one time given, booking is booking at that time and the other time of the first held slot. */
  lemma OneTimeTakenOver(cfg: Config, db: Database, recruitId: Id, applicant: Id, k: nat,
                         start: Option<Instant>, end: Option<Instant>, now: Instant, calendarOk: bool)
    requires IsFirstHeld(db.slots, applicant, k) && (start.Some? || end.Some?)
    ensures BookSlot(cfg, db, recruitId, applicant, start, end, now, calendarOk)
         == BookSlot(cfg, db, recruitId, applicant, Some(GivenOr(start, db.slots[k].start)),
                     Some(GivenOr(end, db.slots[k].end)), now, calendarOk)
  {
    FirstFound(db.slots, HeldBy(applicant), k);
  }

  /** Without a slot to take it over from, a missing time is an error. */
  lemma NothingToTakeOver(cfg: Config, db: Database, recruitId: Id, applicant: Id,
                          start: Option<Instant>, end: Option<Instant>, now: Instant, calendarOk: bool)
    requires HeldKeys(db.slots, applicant) == {} && (start.None? || end.None?)
    ensures BookSlot(cfg, db, recruitId, applicant, start, end, now, calendarOk) == (db, Refused(MissingTime))
  {
    HoldsNoSlot(db.slots, applicant);
  }

  /**
   With both times taken over from slots at one time, booking reports the same slot exactly when the applicant is
   settled; otherwise it is booking at that time.
  */
  lemma BothTimesTakenOver(cfg: Config, db: Database, recruitId: Id, applicant: Id, start: Instant, end: Instant,
                           now: Instant, calendarOk: bool)
    requires UniqueSlots(db.slots) && HeldAt(db.slots, applicant, start, end) && HeldKeys(db.slots, applicant) != {}
    ensures BookSlot(cfg, db, recruitId, applicant, None, None, now, calendarOk).1 == SameSlot
       <==> Settled(cfg, db, recruitId, applicant)
    ensures BookSlot(cfg, db, recruitId, applicant, None, None, now, calendarOk)
         == if Settled(cfg, db, recruitId, applicant) then (db, SameSlot)
            else BookSlot(cfg, db, recruitId, applicant, Some(start), Some(end), now, calendarOk)
  {
    var k := SomeFirstHeld(db.slots, applicant);
    assert db.slots[k] in db.slots;
    TimesOfFirstHeld(cfg, db, recruitId, applicant, k, now, calendarOk);
    if Settled(cfg, db, recruitId, applicant) {
      SettledReportsSameSlot(cfg, db, recruitId, applicant, now, calendarOk);
    } else if BookSlot(cfg, db, recruitId, applicant, None, None, now, calendarOk).1 == SameSlot {
      SameSlotIsSettled(cfg, db, recruitId, applicant, now, calendarOk, start, end);
    }
  }

  lemma TimesOfFirstHeld(cfg: Config, db: Database, recruitId: Id, applicant: Id, k: nat, now: Instant,
                         calendarOk: bool)
    requires IsFirstHeld(db.slots, applicant, k)
    ensures var booking := BookSlot(cfg, db, recruitId, applicant, None, None, now, calendarOk);
      || booking.1 == SameSlot
      || booking
        == BookSlot(cfg, db, recruitId, applicant, Some(db.slots[k].start), Some(db.slots[k].end), now, calendarOk)
  {
    FirstFound(db.slots, HeldBy(applicant), k);
  }

  lemma SettledReportsSameSlot(cfg: Config, db: Database, recruitId: Id, applicant: Id, now: Instant, calendarOk: bool)
    requires UniqueSlots(db.slots) && Settled(cfg, db, recruitId, applicant) && HeldKeys(db.slots, applicant) != {}
    ensures BookSlot(cfg, db, recruitId, applicant, None, None, now, calendarOk) == (db, SameSlot)
  {
    var start, end :| IsBooking(cfg, db, recruitId, applicant, start, end);
    BookingIsAtOneTime(cfg, db, recruitId, applicant, start, end);
    RebookTest(db.slots, applicant, Wanted(cfg, db, recruitId, applicant), start, end);
  }

  // ----- what rebooking leaves -----

  /**
   Rebooking with slots at one time: a settled applicant keeps them, one who can book at that time holds the wanted
   roles there, and anybody else holds nothing.
  */
  lemma RebookingHolds(cfg: Config, db: Database, recruitId: Id, applicant: Id, start: Instant, end: Instant,
                       now: Instant, calendarOk: bool)
    requires UniqueSlots(db.slots) && NotInterviewed(db.slots, applicant)
    requires HeldAt(db.slots, applicant, start, end) && HeldKeys(db.slots, applicant) != {}
    ensures HeldKeys(RebookSlot(cfg, db, recruitId, applicant, now, calendarOk).slots, applicant)
         == if Settled(cfg, db, recruitId, applicant) then HeldKeys(db.slots, applicant)
            else if CanBookAt(cfg, db, recruitId, applicant, start, end, now, calendarOk)
            then KeysAt(Wanted(cfg, db, recruitId, applicant), start, end) else {}
  {
    BothTimesTakenOver(cfg, db, recruitId, applicant, start, end, now, calendarOk);
    BookingSucceeds(cfg, db, recruitId, applicant, start, end, now, calendarOk);
    BookKeepsTable(cfg, db, recruitId, applicant, Some(start), Some(end), now, calendarOk);
    CancelKeys(db.slots, applicant);
    if CanBookAt(cfg, db, recruitId, applicant, start, end, now, calendarOk) {
      BookedHolds(cfg, db, recruitId, applicant, start, end, now, calendarOk);
    }
  }

  lemma BookedHolds(cfg: Config, db: Database, recruitId: Id, applicant: Id, start: Instant, end: Instant,
                    now: Instant, calendarOk: bool)
    requires UniqueSlots(db.slots) && NotInterviewed(db.slots, applicant)
    requires CanBookAt(cfg, db, recruitId, applicant, start, end, now, calendarOk)
    ensures HeldKeys(BookSlot(cfg, db, recruitId, applicant, Some(start), Some(end), now, calendarOk).0.slots,
                     applicant)
         == KeysAt(Wanted(cfg, db, recruitId, applicant), start, end)
  {
    BookingSucceeds(cfg, db, recruitId, applicant, start, end, now, calendarOk);
    BookedByTransaction(cfg, db, recruitId, applicant, Some(start), Some(end), now, calendarOk);
    TransactionCommits(db.slots, applicant, Wanted(cfg, db, recruitId, applicant), start, end, calendarOk);
    CancelKeys(db.slots, applicant);
  }

  /** So something is held after rebooking exactly when something was, and it was the booking or can be booked anew. */
  lemma RebookKeepsSomething(cfg: Config, db: Database, recruitId: Id, applicant: Id, start: Instant, end: Instant,
                             now: Instant, calendarOk: bool)
    requires UniqueSlots(db.slots) && NotInterviewed(db.slots, applicant) && HeldAt(db.slots, applicant, start, end)
    ensures HeldKeys(RebookSlot(cfg, db, recruitId, applicant, now, calendarOk).slots, applicant) != {}
       <==> && HeldKeys(db.slots, applicant) != {}
            && (Settled(cfg, db, recruitId, applicant)
                || CanBookAt(cfg, db, recruitId, applicant, start, end, now, calendarOk))
  {
    if HeldKeys(db.slots, applicant) == {} {
      RebookLeavesSettled(cfg, db, recruitId, applicant, now, calendarOk);
    } else {
      RebookingHolds(cfg, db, recruitId, applicant, start, end, now, calendarOk);
      var wanted := Wanted(cfg, db, recruitId, applicant);
      if CanBookAt(cfg, db, recruitId, applicant, start, end, now, calendarOk) {
        assert SelectedRoleIds(db, applicant)[0] in wanted;
        assert (SelectedRoleIds(db, applicant)[0], start, end) in KeysAt(wanted, start, end);
      }
    }
  }

  // ----- row by row -----

  /**
   A committed booking gives the applicant a free or own slot of a wanted role at the time, and takes other own slots
   away.
  */
  function RowIfBooked(slot: Slot, applicant: Id, roleIds: seq<Id>, start: Instant, end: Instant): Slot {
    var isOwn := slot.applicant == Some(applicant) && slot.interviewAt.None?;
    if (slot.applicant.None? || isOwn) && slot.role in roleIds && slot.start == start && slot.end == end
    then Slot(slot.id, slot.start, slot.end, slot.role, Some(applicant), slot.interviewAt)
    else if isOwn then Slot(slot.id, slot.start, slot.end, slot.role, None, slot.interviewAt)
    else slot
  }

  /** Every row after a booking at given times, whether it succeeds or not. */
  lemma RowAfterBooking(cfg: Config, db: Database, recruitId: Id, applicant: Id, start: Instant, end: Instant,
                        now: Instant, calendarOk: bool, i: nat)
    requires UniqueSlots(db.slots) && i < |db.slots|
    ensures var after := BookSlot(cfg, db, recruitId, applicant, Some(start), Some(end), now, calendarOk).0;
      && |after.slots| == |db.slots|
      && after.slots[i]
         == if CanBookAt(cfg, db, recruitId, applicant, start, end, now, calendarOk)
            then RowIfBooked(db.slots[i], applicant, Wanted(cfg, db, recruitId, applicant), start, end) else db.slots[i]
  {
    BookingSucceeds(cfg, db, recruitId, applicant, start, end, now, calendarOk);
    BookKeepsTable(cfg, db, recruitId, applicant, Some(start), Some(end), now, calendarOk);
    if CanBookAt(cfg, db, recruitId, applicant, start, end, now, calendarOk) {
      BookedByTransaction(cfg, db, recruitId, applicant, Some(start), Some(end), now, calendarOk);
      RowAfterTransaction(db.slots, applicant, Wanted(cfg, db, recruitId, applicant), start, end, calendarOk, i);
    }
  }

  lemma RowAfterTransaction(slots: seq<Slot>, applicant: Id, roleIds: seq<Id>, start: Instant, end: Instant,
                            calendarOk: bool, i: nat)
    requires i < |slots| && Transaction(slots, applicant, roleIds, start, end, calendarOk).1 == Booked
    ensures var after := Transaction(slots, applicant, roleIds, start, end, calendarOk).0;
      |after| == |slots| && after[i] == RowIfBooked(slots[i], applicant, roleIds, start, end)
  {
  }

  /** Cancelling frees the applicant's slots that were not used, and changes no other row. */
  lemma RowAfterCancelling(slots: seq<Slot>, applicant: Id, i: nat)
    requires i < |slots|
    ensures Cancelled(slots, applicant)[i]
         == if slots[i].applicant == Some(applicant) && slots[i].interviewAt.None?
            then Slot(slots[i].id, slots[i].start, slots[i].end, slots[i].role, None, None) else slots[i]
  {
  }
}

/** Applicants who were interviewed: what booking, rebooking and cancelling do with their slots. */
module RecruitInterviews {
  import opened Options
  import opened Rows
  import opened RecruitData
  import opened RecruitForm
  import opened RecruitBooking
  import opened RecruitBookingLaws

  // ----- marks -----

  /** Free slots carry no interview, and of one applicant's slots either all are marked as interviewed or none is. */
  ghost predicate CleanSlots(slots: seq<Slot>) {
    && (forall slot :: slot in slots && slot.applicant.None? ==> slot.interviewAt.None?)
    && (forall slot, other ::
          slot in slots && other in slots && slot.applicant.Some? && slot.applicant == other.applicant ==>
          (slot.interviewAt.None? <==> other.interviewAt.None?))
  }

  lemma CancelKeepsClean(slots: seq<Slot>, applicant: Id)
    requires CleanSlots(slots)
    ensures CleanSlots(Cancelled(slots, applicant))
    ensures NotInterviewed(slots, applicant) || Cancelled(slots, applicant) == slots
  {
  }

  lemma TransactionKeepsClean(slots: seq<Slot>, applicant: Id, roleIds: seq<Id>, start: Instant, end: Instant,
                              calendarOk: bool)
    requires CleanSlots(slots) && NotInterviewed(slots, applicant)
    ensures CleanSlots(Transaction(slots, applicant, roleIds, start, end, calendarOk).0)
    ensures NotInterviewed(Transaction(slots, applicant, roleIds, start, end, calendarOk).0, applicant)
  {
  }

  /** A booking never counts as interviewed by itself. */
  lemma BookKeepsClean(cfg: Config, db: Database, recruitId: Id, applicant: Id,
                       start: Option<Instant>, end: Option<Instant>, now: Instant, calendarOk: bool)
    requires CleanSlots(db.slots) && NotInterviewed(db.slots, applicant)
    ensures var after := BookSlot(cfg, db, recruitId, applicant, start, end, now, calendarOk).0;
      CleanSlots(after.slots) && NotInterviewed(after.slots, applicant)
  {
    if Precheck(cfg, db, recruitId, applicant, start, end, now).None? {
      var selected := Find(db.slots, HeldBy(applicant));
      TransactionKeepsClean(db.slots, applicant, Wanted(cfg, db, recruitId, applicant),
                            StartOf(selected, start).value, EndOf(selected, end).value, calendarOk);
    }
  }

  lemma RebookKeepsClean(cfg: Config, db: Database, recruitId: Id, applicant: Id, now: Instant, calendarOk: bool)
    requires CleanSlots(db.slots) && NotInterviewed(db.slots, applicant)
    ensures CleanSlots(RebookSlot(cfg, db, recruitId, applicant, now, calendarOk).slots)
  {
    BookKeepsClean(cfg, db, recruitId, applicant, None, None, now, calendarOk);
    CancelKeepsClean(BookSlot(cfg, db, recruitId, applicant, None, None, now, calendarOk).0.slots, applicant);
  }

  // ----- bookings after an interview -----

  /** An interviewed slot survives the cancellation, and the same role is claimed again at another time. */
  lemma InterviewedSlotStays(slots: seq<Slot>, applicant: Id, roleIds: seq<Id>, start: Instant, end: Instant,
                             calendarOk: bool, used: Slot)
    requires UniqueSlots(slots)
    requires used in slots && used.applicant == Some(applicant) && used.interviewAt.Some? && used.role in roleIds
    requires Transaction(slots, applicant, roleIds, start, end, calendarOk).1 == Booked
    ensures var held := HeldKeys(Transaction(slots, applicant, roleIds, start, end, calendarOk).0, applicant);
      KeyOf(used) in held && (used.role, start, end) in held && KeyOf(used) != (used.role, start, end)
  {
    TransactionCommits(slots, applicant, roleIds, start, end, calendarOk);
    var cancelled := Cancelled(slots, applicant);
    var k :| 0 <= k < |slots| && slots[k] == used;
    assert cancelled[k] == used && used in cancelled;
    assert KeyOf(used) in HeldKeys(cancelled, applicant);
    assert (used.role, start, end) in KeysAt(roleIds, start, end);
    assert Obtainable(slots, applicant, used.role, start, end);
    var other :| other in slots && KeyOf(other) == (used.role, start, end)
      && (other.applicant.None? || Cancellable(applicant)(other));
    var j :| 0 <= j < |slots| && slots[j] == other;
    assert j != k;
    assert KeyOf(slots[j]) != KeyOf(slots[k]);
  }

  lemma NotSettledWithTwoTimes(cfg: Config, db: Database, recruitId: Id, applicant: Id, key: Key, key': Key)
    requires key in HeldKeys(db.slots, applicant) && key' in HeldKeys(db.slots, applicant)
    requires key.0 == key'.0 && key != key'
    ensures !Settled(cfg, db, recruitId, applicant)
  {
  }

  /** For a settled applicant a committed booking ends settled exactly when no held slot was marked as interviewed. */
  lemma BookingAfterInterview(cfg: Config, db: Database, recruitId: Id, applicant: Id,
                              start: Option<Instant>, end: Option<Instant>, now: Instant, calendarOk: bool)
    requires UniqueSlots(db.slots) && Settled(cfg, db, recruitId, applicant)
    requires BookSlot(cfg, db, recruitId, applicant, start, end, now, calendarOk).1 == Booked
    ensures Settled(cfg, BookSlot(cfg, db, recruitId, applicant, start, end, now, calendarOk).0, recruitId, applicant)
       <==> NotInterviewed(db.slots, applicant)
  {
    if NotInterviewed(db.slots, applicant) {
      BookedIsSettled(cfg, db, recruitId, applicant, start, end, now, calendarOk);
    } else {
      InterviewedEndsUnsettled(cfg, db, recruitId, applicant, start, end, now, calendarOk);
    }
  }

  lemma InterviewedEndsUnsettled(cfg: Config, db: Database, recruitId: Id, applicant: Id,
                                 start: Option<Instant>, end: Option<Instant>, now: Instant, calendarOk: bool)
    requires UniqueSlots(db.slots) && Settled(cfg, db, recruitId, applicant) && !NotInterviewed(db.slots, applicant)
    requires BookSlot(cfg, db, recruitId, applicant, start, end, now, calendarOk).1 == Booked
    ensures !Settled(cfg, BookSlot(cfg, db, recruitId, applicant, start, end, now, calendarOk).0, recruitId, applicant)
  {
    var used :| used in db.slots && used.applicant == Some(applicant) && used.interviewAt.Some?;
    var selected, wanted := Find(db.slots, HeldBy(applicant)), Wanted(cfg, db, recruitId, applicant);
    UsedRoleIsWanted(cfg, db, recruitId, applicant, used);
    BookedByTransaction(cfg, db, recruitId, applicant, start, end, now, calendarOk);
    var s, e := StartOf(selected, start).value, EndOf(selected, end).value;
    InterviewedSlotStays(db.slots, applicant, wanted, s, e, calendarOk, used);
    var after := db.(slots := Transaction(db.slots, applicant, wanted, s, e, calendarOk).0);
    NotSettledWithTwoTimes(cfg, after, recruitId, applicant, KeyOf(used), (used.role, s, e));
  }

  lemma UsedRoleIsWanted(cfg: Config, db: Database, recruitId: Id, applicant: Id, used: Slot)
    requires Settled(cfg, db, recruitId, applicant)
    requires used in db.slots && used.applicant == Some(applicant)
    ensures used.role in Wanted(cfg, db, recruitId, applicant)
  {
    assert KeyOf(used) in HeldKeys(db.slots, applicant);
    var start, end :| IsBooking(cfg, db, recruitId, applicant, start, end);
  }

  ghost predicate AllInterviewed(slots: seq<Slot>, applicant: Id) {
    forall slot :: slot in slots && slot.applicant == Some(applicant) ==> slot.interviewAt.Some?
  }

  lemma InterviewedSlotsStay(slots: seq<Slot>, applicant: Id)
    requires AllInterviewed(slots, applicant)
    ensures Cancelled(slots, applicant) == slots
  {
    forall i | 0 <= i < |slots| ensures Cancelled(slots, applicant)[i] == slots[i] {
      assert slots[i] in slots;
    }
  }

  /** Nothing can be cancelled, so a second slot for a role at the same time would have the same key. */
  lemma HeldRolesAreNotObtainable(slots: seq<Slot>, applicant: Id, held: Slot)
    requires UniqueSlots(slots) && held in slots && held.applicant == Some(applicant) && held.interviewAt.Some?
    ensures !Obtainable(slots, applicant, held.role, held.start, held.end)
  {
    var k :| 0 <= k < |slots| && slots[k] == held;
    forall slot | slot in slots && KeyOf(slot) == KeyOf(held) ensures slot == held {
      var i :| 0 <= i < |slots| && slots[i] == slot;
      assert i == k;
    }
  }

  /** A rebooking that commits adds slots to the interviewed ones, and the result is no booking. */
  lemma CommittedRebookingIsUnsettled(cfg: Config, db: Database, recruitId: Id, applicant: Id, now: Instant,
                                      calendarOk: bool, held: Slot)
    requires UniqueSlots(db.slots) && AllInterviewed(db.slots, applicant)
    requires held in db.slots && held.applicant == Some(applicant)
    requires HeldAt(db.slots, applicant, held.start, held.end)
    requires BookSlot(cfg, db, recruitId, applicant, None, None, now, calendarOk).1 == Booked
    ensures !Settled(cfg, BookSlot(cfg, db, recruitId, applicant, None, None, now, calendarOk).0, recruitId, applicant)
  {
    var selected, wanted := Find(db.slots, HeldBy(applicant)), Wanted(cfg, db, recruitId, applicant);
    BookedByTransaction(cfg, db, recruitId, applicant, None, None, now, calendarOk);
    assert selected[0] in selected;
    CommittedSlotsAreMixed(db.slots, applicant, wanted, calendarOk, held);
    var after := db.(slots := Transaction(db.slots, applicant, wanted, held.start, held.end, calendarOk).0);
    FormFrame(cfg, db, after, recruitId, applicant);
    UnwantedSlotIsUnsettled(cfg, after, recruitId, applicant, held);
  }

  lemma CommittedSlotsAreMixed(slots: seq<Slot>, applicant: Id, roleIds: seq<Id>, calendarOk: bool, held: Slot)
    requires UniqueSlots(slots) && AllInterviewed(slots, applicant)
    requires held in slots && held.applicant == Some(applicant)
    requires Transaction(slots, applicant, roleIds, held.start, held.end, calendarOk).1 == Booked
    ensures held.role !in roleIds
    ensures KeyOf(held) in HeldKeys(Transaction(slots, applicant, roleIds, held.start, held.end, calendarOk).0,
                                    applicant)
  {
    InterviewedSlotsStay(slots, applicant);
    TransactionCommits(slots, applicant, roleIds, held.start, held.end, calendarOk);
    HeldRolesAreNotObtainable(slots, applicant, held);
    assert KeyOf(held) in HeldKeys(slots, applicant);
  }

  lemma UnwantedSlotIsUnsettled(cfg: Config, db: Database, recruitId: Id, applicant: Id, held: Slot)
    requires KeyOf(held) in HeldKeys(db.slots, applicant) && held.role !in Wanted(cfg, db, recruitId, applicant)
    ensures !Settled(cfg, db, recruitId, applicant)
  {
    forall start, end ensures !IsBooking(cfg, db, recruitId, applicant, start, end) {
      assert KeyOf(held) !in KeysAt(Wanted(cfg, db, recruitId, applicant), start, end);
    }
  }

  /**
   Once all held slots were used, rebooking repairs nothing: the applicant is settled afterwards exactly when the held
   slots already were the booking of the wanted roles with completed forms, and then nothing changes.
  */
  lemma RebookAfterInterview(cfg: Config, db: Database, recruitId: Id, applicant: Id, now: Instant, calendarOk: bool,
                             held: Slot)
    requires UniqueSlots(db.slots) && AllInterviewed(db.slots, applicant)
    requires held in db.slots && held.applicant == Some(applicant)
    requires HeldAt(db.slots, applicant, held.start, held.end)
    ensures Settled(cfg, RebookSlot(cfg, db, recruitId, applicant, now, calendarOk), recruitId, applicant)
       <==> Settled(cfg, db, recruitId, applicant)
    ensures Settled(cfg, db, recruitId, applicant) ==> RebookSlot(cfg, db, recruitId, applicant, now, calendarOk) == db
  {
    if Settled(cfg, db, recruitId, applicant) {
      RebookLeavesSettled(cfg, db, recruitId, applicant, now, calendarOk);
    } else if BookSlot(cfg, db, recruitId, applicant, None, None, now, calendarOk).1 == Booked {
      CommittedRebookingIsUnsettled(cfg, db, recruitId, applicant, now, calendarOk, held);
    } else {
      BookKeepsTable(cfg, db, recruitId, applicant, None, None, now, calendarOk);
      InterviewedSlotsStay(db.slots, applicant);
    }
  }
}

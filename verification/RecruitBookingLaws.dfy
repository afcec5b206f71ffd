/** What booking, rebooking and cancelling guarantee. */
module RecruitBookingLaws {
  import opened Options
  import opened Rows
  import opened Counting
  import opened RecruitData
  import opened RecruitForm
  import opened RecruitBooking

  // ----- one transaction -----

  /** The applicant can have this role's slot: it is free, or will be once the applicant's own booking is cancelled. */
  ghost predicate Obtainable(slots: seq<Slot>, applicant: Id, roleId: Id, start: Instant, end: Instant) {
    exists slot :: slot in slots && KeyOf(slot) == (roleId, start, end)
      && (slot.applicant.None? || Cancellable(applicant)(slot))
  }

  lemma FreeAfterCancel(slots: seq<Slot>, applicant: Id, roleIds: seq<Id>, start: Instant, end: Instant)
    ensures KeysAt(roleIds, start, end) <= FreeKeys(Cancelled(slots, applicant), roleIds, start, end)
       <==> forall roleId :: roleId in roleIds ==> Obtainable(slots, applicant, roleId, start, end)
  {
    var after := Cancelled(slots, applicant);
    forall roleId | roleId in roleIds
      ensures (roleId, start, end) in FreeKeys(after, roleIds, start, end)
         <==> Obtainable(slots, applicant, roleId, start, end)
    {
      if Obtainable(slots, applicant, roleId, start, end) {
        var slot :| slot in slots && KeyOf(slot) == (roleId, start, end)
          && (slot.applicant.None? || Cancellable(applicant)(slot));
        var i :| 0 <= i < |slots| && slots[i] == slot;
        assert after[i] in after && FreeAt(roleIds, start, end)(after[i]);
      }
      if (roleId, start, end) in FreeKeys(after, roleIds, start, end) {
        var slot :| slot in after && FreeAt(roleIds, start, end)(slot) && KeyOf(slot) == (roleId, start, end);
        var i :| 0 <= i < |after| && after[i] == slot;
        assert slots[i] in slots && KeyOf(slots[i]) == (roleId, start, end);
      }
    }
    forall roleId | roleId in roleIds ensures (roleId, start, end) in KeysAt(roleIds, start, end) {
    }
  }

  lemma UniqueInTable(slots: seq<Slot>, slots': seq<Slot>)
    requires UniqueSlots(slots) && SameSlotTable(slots, slots')
    ensures UniqueSlots(slots')
  {
  }

  /**
   The transaction commits exactly when no role repeats and each has an obtainable slot; the applicant then holds
   those slots besides any that could not be cancelled. Otherwise the table is as before.
  */
  lemma TransactionCommits(slots: seq<Slot>, applicant: Id, roleIds: seq<Id>, start: Instant, end: Instant,
                           calendarOk: bool)
    requires UniqueSlots(slots)
    ensures var (after, booking) := Transaction(slots, applicant, roleIds, start, end, calendarOk);
      && (booking == Booked <==>
            calendarOk && Distinct(roleIds) && forall roleId :: roleId in roleIds ==>
              Obtainable(slots, applicant, roleId, start, end))
      && (booking == Booked ==>
            HeldKeys(after, applicant)
              == HeldKeys(Cancelled(slots, applicant), applicant) + KeysAt(roleIds, start, end))
      && (booking != Booked ==> booking.Refused? && after == slots)
      && SameSlotTable(slots, after)
      && UniqueSlots(after)
      && (forall other :: other != applicant ==> HeldKeys(after, other) == HeldKeys(slots, other))
  {
    var (after, booking) := Transaction(slots, applicant, roleIds, start, end, calendarOk);
    var cancelled := Cancelled(slots, applicant);
    CancelKeys(slots, applicant);
    UniqueInTable(slots, cancelled);
    ClaimKeys(cancelled, applicant, roleIds, start, end);
    CountOfFreeSlots(cancelled, roleIds, start, end);
    FreeAfterCancel(slots, applicant, roleIds, start, end);
    UniqueInTable(cancelled, Claimed(cancelled, applicant, roleIds, start, end));
  }

  /** Rows that another applicant holds. */
  ghost predicate OthersKept(slots: seq<Slot>, slots': seq<Slot>, applicant: Id) {
    && |slots'| == |slots|
    && forall i :: 0 <= i < |slots| && slots[i].applicant.Some? && slots[i].applicant != Some(applicant) ==>
      slots'[i] == slots[i]
  }

  lemma TransactionKeepsOthers(slots: seq<Slot>, applicant: Id, roleIds: seq<Id>, start: Instant, end: Instant,
                               calendarOk: bool)
    ensures OthersKept(slots, Cancelled(slots, applicant), applicant)
    ensures OthersKept(slots, Transaction(slots, applicant, roleIds, start, end, calendarOk).0, applicant)
  {
  }

  /** Whatever the outcome, booking and rebooking never touch a row that another applicant holds. */
  lemma OthersKeepTheirRows(cfg: Config, db: Database, recruitId: Id, applicant: Id,
                            start: Option<Instant>, end: Option<Instant>, now: Instant, calendarOk: bool)
    ensures OthersKept(db.slots, BookSlot(cfg, db, recruitId, applicant, start, end, now, calendarOk).0.slots,
                       applicant)
    ensures OthersKept(db.slots, RebookSlot(cfg, db, recruitId, applicant, now, calendarOk).slots, applicant)
  {
    BookKeepsOthers(cfg, db, recruitId, applicant, start, end, now, calendarOk);
    BookKeepsOthers(cfg, db, recruitId, applicant, None, None, now, calendarOk);
    var (rebooked, booking) := BookSlot(cfg, db, recruitId, applicant, None, None, now, calendarOk);
    TransactionKeepsOthers(rebooked.slots, applicant, [], 0, 0, calendarOk);
  }

  lemma BookKeepsOthers(cfg: Config, db: Database, recruitId: Id, applicant: Id,
                        start: Option<Instant>, end: Option<Instant>, now: Instant, calendarOk: bool)
    ensures OthersKept(db.slots, BookSlot(cfg, db, recruitId, applicant, start, end, now, calendarOk).0.slots,
                       applicant)
  {
  }

  /**
   A role is selected, every needed form is filled in, the slot starts late enough, the calendar accepts, and every
   wanted role, none of them twice, has a slot at these times that is free or the applicant's own.
  */
  ghost predicate CanBookAt(cfg: Config, db: Database, recruitId: Id, applicant: Id, start: Instant, end: Instant,
                            now: Instant, calendarOk: bool)
  {
    && SelectedRoleIds(db, applicant) != []
    && (forall c :: c in FormCollections(cfg, db, recruitId, applicant) ==> IsFilledIn(cfg, db.answers, applicant, c))
    && StartsInTime(start, now, cfg.leadTimeHours)
    && calendarOk
    && Distinct(Wanted(cfg, db, recruitId, applicant))
    && forall roleId :: roleId in Wanted(cfg, db, recruitId, applicant) ==>
         Obtainable(db.slots, applicant, roleId, start, end)
  }

  /** A booking at given times succeeds exactly under these conditions. */
  lemma BookingSucceeds(cfg: Config, db: Database, recruitId: Id, applicant: Id, start: Instant, end: Instant,
                        now: Instant, calendarOk: bool)
    requires UniqueSlots(db.slots)
    ensures BookSlot(cfg, db, recruitId, applicant, Some(start), Some(end), now, calendarOk).1 == Booked
       <==> CanBookAt(cfg, db, recruitId, applicant, start, end, now, calendarOk)
  {
    LeadTime(start, now, cfg.leadTimeHours);
    FormIsCompleted(cfg, db, recruitId, applicant);
    TransactionCommits(db.slots, applicant, Wanted(cfg, db, recruitId, applicant), start, end, calendarOk);
  }

  /** Why a booking at given times is refused: the first of these reasons that applies. */
  lemma BookingIsRefused(cfg: Config, db: Database, recruitId: Id, applicant: Id, start: Instant, end: Instant,
                         now: Instant, calendarOk: bool)
    requires UniqueSlots(db.slots)
    ensures var booking := BookSlot(cfg, db, recruitId, applicant, Some(start), Some(end), now, calendarOk).1;
      var selects := SelectedRoleIds(db, applicant) != [];
      var open := exists c ::
        c in FormCollections(cfg, db, recruitId, applicant) && !IsFilledIn(cfg, db.answers, applicant, c);
      var early := StartsInTime(start, now, cfg.leadTimeHours);
      var wanted := Wanted(cfg, db, recruitId, applicant);
      var available := Distinct(wanted) && forall roleId :: roleId in wanted ==>
        Obtainable(db.slots, applicant, roleId, start, end);
      && booking != SameSlot && booking != Refused(MissingTime)
      && (booking == Refused(NoSelectedRoles) <==> !selects)
      && (booking == Refused(FormsIncomplete) <==> selects && open)
      && (booking == Refused(TooLate) <==> selects && !open && !early)
      && (booking == Refused(NotAvailable) <==> selects && !open && early && !available)
      && (booking == Refused(CalendarFailed) <==> selects && !open && early && available && !calendarOk)
  {
    LeadTime(start, now, cfg.leadTimeHours);
    FormIsCompleted(cfg, db, recruitId, applicant);
    var wanted := Wanted(cfg, db, recruitId, applicant);
    TransactionCommits(db.slots, applicant, wanted, start, end, calendarOk);
    TransactionCommits(db.slots, applicant, wanted, start, end, true);
  }

  /** Somebody who selected a mandatory interview role wants it twice and cannot book at all. */
  lemma MandatorySelectionBlocksBooking(cfg: Config, db: Database, recruitId: Id, applicant: Id, roleId: Id,
                                        start: Option<Instant>, end: Option<Instant>, now: Instant, calendarOk: bool)
    requires UniqueSlots(db.slots)
    requires roleId in MandatoryInterviewRoleIds(cfg, recruitId) && roleId in SelectedRoleIds(db, applicant)
    ensures BookSlot(cfg, db, recruitId, applicant, start, end, now, calendarOk).1 != Booked
  {
    var held, wanted := Find(db.slots, HeldBy(applicant)), Wanted(cfg, db, recruitId, applicant);
    var mandatory, selected := MandatoryInterviewRoleIds(cfg, recruitId), SelectedRoleIds(db, applicant);
    var i :| 0 <= i < |mandatory| && mandatory[i] == roleId;
    var j :| 0 <= j < |selected| && selected[j] == roleId;
    assert wanted[i] == wanted[|mandatory| + j];
    if Precheck(cfg, db, recruitId, applicant, start, end, now).None? {
      TransactionCommits(db.slots, applicant, wanted, StartOf(held, start).value, EndOf(held, end).value, calendarOk);
    }
  }

  // ----- settled applicants -----

  /** The applicant holds one slot for every wanted role, all at one time, and was allowed to. */
  ghost predicate IsBooking(cfg: Config, db: Database, recruitId: Id, applicant: Id, start: Instant, end: Instant) {
    && HeldKeys(db.slots, applicant) == KeysAt(Wanted(cfg, db, recruitId, applicant), start, end)
    && Distinct(Wanted(cfg, db, recruitId, applicant))
    && SelectedRoleIds(db, applicant) != []
    && IsFormCompleted(cfg, db, recruitId, applicant)
  }

  /** No slot at all, or a complete booking. */
  ghost predicate Settled(cfg: Config, db: Database, recruitId: Id, applicant: Id) {
    || HeldKeys(db.slots, applicant) == {}
    || exists start, end :: IsBooking(cfg, db, recruitId, applicant, start, end)
  }

  ghost predicate HeldAt(slots: seq<Slot>, applicant: Id, start: Instant, end: Instant) {
    forall slot :: slot in slots && slot.applicant == Some(applicant) ==> slot.start == start && slot.end == end
  }

  function HeldForRole(applicant: Id, roleId: Id): Slot -> bool {
    (slot: Slot) => slot.applicant == Some(applicant) && slot.role == roleId
  }

  lemma RowsOfRole(slots: seq<Slot>, applicant: Id, roleId: Id, start: Instant, end: Instant)
    requires UniqueSlots(slots) && HeldAt(slots, applicant, start, end)
    requires (roleId, start, end) in HeldKeys(slots, applicant)
    ensures |Find(slots, HeldForRole(applicant, roleId))| == 1
  {
    var found := Find(slots, HeldForRole(applicant, roleId));
    var slot :| slot in slots && slot.applicant == Some(applicant) && KeyOf(slot) == (roleId, start, end);
    assert slot in found;
    RolesAreDistinct(slots, HeldForRole(applicant, roleId), start, end);
    var roles := Column(found, RoleOf());
    forall k | 0 <= k < |found| ensures roles[k] == roleId {
      assert found[k] in found;
    }
    var i :| 0 <= i < |found| && found[i] == slot;
    assert Members(roles) == {roleId};
    MemberCount(roles);
  }

  /** In a complete booking every wanted role has exactly one row of the applicant, and there are no others. */
  lemma OneSlotPerRole(cfg: Config, db: Database, recruitId: Id, applicant: Id, start: Instant, end: Instant)
    requires UniqueSlots(db.slots)
    requires IsBooking(cfg, db, recruitId, applicant, start, end)
    ensures HeldAt(db.slots, applicant, start, end)
    ensures |Find(db.slots, HeldBy(applicant))| == |Wanted(cfg, db, recruitId, applicant)|
    ensures forall roleId :: roleId in Wanted(cfg, db, recruitId, applicant) ==>
      |Find(db.slots, HeldForRole(applicant, roleId))| == 1
  {
    var wanted := Wanted(cfg, db, recruitId, applicant);
    BookingIsAtOneTime(cfg, db, recruitId, applicant, start, end);
    assert wanted != [];
    RebookTest(db.slots, applicant, wanted, start, end);
    forall roleId | roleId in wanted ensures |Find(db.slots, HeldForRole(applicant, roleId))| == 1 {
      assert (roleId, start, end) in KeysAt(wanted, start, end);
      RowsOfRole(db.slots, applicant, roleId, start, end);
    }
  }

  lemma BookingIsAtOneTime(cfg: Config, db: Database, recruitId: Id, applicant: Id, start: Instant, end: Instant)
    requires IsBooking(cfg, db, recruitId, applicant, start, end)
    ensures HeldAt(db.slots, applicant, start, end)
    ensures HeldKeys(db.slots, applicant) != {}
  {
    forall slot | slot in db.slots && slot.applicant == Some(applicant) ensures slot.start == start && slot.end == end {
      assert KeyOf(slot) in HeldKeys(db.slots, applicant);
    }
    var selected := SelectedRoleIds(db, applicant);
    assert selected[0] in Wanted(cfg, db, recruitId, applicant);
    assert (selected[0], start, end) in KeysAt(Wanted(cfg, db, recruitId, applicant), start, end);
  }

  lemma SettledIsAtOneTime(cfg: Config, db: Database, recruitId: Id, applicant: Id)
    requires Settled(cfg, db, recruitId, applicant)
    ensures exists start, end :: HeldAt(db.slots, applicant, start, end)
  {
    if HeldKeys(db.slots, applicant) == {} {
      forall slot | slot in db.slots
        ensures slot.applicant == Some(applicant) ==> KeyOf(slot) in HeldKeys(db.slots, applicant)
      {
      }
      assert HeldAt(db.slots, applicant, 0, 0);
    } else {
      var start, end :| IsBooking(cfg, db, recruitId, applicant, start, end);
      BookingIsAtOneTime(cfg, db, recruitId, applicant, start, end);
    }
  }

  /** Being settled depends on the held slots, the selected roles and which questions are answered. */
  lemma SettledFrame(cfg: Config, db: Database, db': Database, recruitId: Id, applicant: Id)
    requires HeldKeys(db'.slots, applicant) == HeldKeys(db.slots, applicant)
    requires SelectedRoleIds(db', applicant) == SelectedRoleIds(db, applicant)
    requires forall question :: Answered(db'.answers, applicant, question) == Answered(db.answers, applicant, question)
    ensures Settled(cfg, db, recruitId, applicant) ==> Settled(cfg, db', recruitId, applicant)
    ensures IsFormCompleted(cfg, db', recruitId, applicant) == IsFormCompleted(cfg, db, recruitId, applicant)
  {
    assert LeftJoin(cfg.questions, db'.answers, applicant) == LeftJoin(cfg.questions, db.answers, applicant);
    assert IsFormCompleted(cfg, db', recruitId, applicant) == IsFormCompleted(cfg, db, recruitId, applicant);
    if Settled(cfg, db, recruitId, applicant) && HeldKeys(db.slots, applicant) != {} {
      var start, end :| IsBooking(cfg, db, recruitId, applicant, start, end);
      assert IsBooking(cfg, db', recruitId, applicant, start, end);
    }
  }

  // ----- bookSlot and rebookSlot keep everyone settled -----

  ghost predicate OnlySlotsChanged(db: Database, db': Database) {
    db' == db.(slots := db'.slots)
  }

  /** A committed booking is complete as soon as cancelling has released everything. */
  lemma BookedIsSettled(cfg: Config, db: Database, recruitId: Id, applicant: Id,
                        start: Option<Instant>, end: Option<Instant>, now: Instant, calendarOk: bool)
    requires UniqueSlots(db.slots) && NotInterviewed(db.slots, applicant)
    requires BookSlot(cfg, db, recruitId, applicant, start, end, now, calendarOk).1 == Booked
    ensures Settled(cfg, BookSlot(cfg, db, recruitId, applicant, start, end, now, calendarOk).0, recruitId, applicant)
  {
    var selected, wanted := Find(db.slots, HeldBy(applicant)), Wanted(cfg, db, recruitId, applicant);
    BookedByTransaction(cfg, db, recruitId, applicant, start, end, now, calendarOk);
    CommittedIsSettled(cfg, db, recruitId, applicant, StartOf(selected, start).value, EndOf(selected, end).value,
                       calendarOk);
  }

  lemma CommittedIsSettled(cfg: Config, db: Database, recruitId: Id, applicant: Id, start: Instant, end: Instant,
                           calendarOk: bool)
    requires UniqueSlots(db.slots) && NotInterviewed(db.slots, applicant)
    requires SelectedRoleIds(db, applicant) != [] && IsFormCompleted(cfg, db, recruitId, applicant)
    requires Transaction(db.slots, applicant, Wanted(cfg, db, recruitId, applicant), start, end, calendarOk).1 == Booked
    ensures var slots := Transaction(db.slots, applicant, Wanted(cfg, db, recruitId, applicant), start, end,
                                     calendarOk).0;
      Settled(cfg, db.(slots := slots), recruitId, applicant)
  {
    var wanted := Wanted(cfg, db, recruitId, applicant);
    var after := db.(slots := Transaction(db.slots, applicant, wanted, start, end, calendarOk).0);
    TransactionCommits(db.slots, applicant, wanted, start, end, calendarOk);
    CancelKeys(db.slots, applicant);
    FormFrame(cfg, db, after, recruitId, applicant);
    assert IsBooking(cfg, after, recruitId, applicant, start, end);
  }

  lemma FormFrame(cfg: Config, db: Database, db': Database, recruitId: Id, applicant: Id)
    requires OnlySlotsChanged(db, db')
    ensures Wanted(cfg, db', recruitId, applicant) == Wanted(cfg, db, recruitId, applicant)
    ensures SelectedRoleIds(db', applicant) == SelectedRoleIds(db, applicant)
    ensures IsFormCompleted(cfg, db', recruitId, applicant) == IsFormCompleted(cfg, db, recruitId, applicant)
  {
  }

  lemma BookKeepsTable(cfg: Config, db: Database, recruitId: Id, applicant: Id,
                       start: Option<Instant>, end: Option<Instant>, now: Instant, calendarOk: bool)
    ensures var (after, booking) := BookSlot(cfg, db, recruitId, applicant, start, end, now, calendarOk);
      && OnlySlotsChanged(db, after)
      && (booking != Booked ==> after == db)
      && SameSlotTable(db.slots, after.slots)
      && (UniqueSlots(db.slots) ==> UniqueSlots(after.slots))
      && (forall other :: other != applicant ==> HeldKeys(after.slots, other) == HeldKeys(db.slots, other))
  {
    var selected, wanted := Find(db.slots, HeldBy(applicant)), Wanted(cfg, db, recruitId, applicant);
    if Precheck(cfg, db, recruitId, applicant, start, end, now).None? {
      var start, end := StartOf(selected, start).value, EndOf(selected, end).value;
      TransactionKeepsTable(db.slots, applicant, wanted, start, end, calendarOk);
      if UniqueSlots(db.slots) {
        UniqueInTable(db.slots, Transaction(db.slots, applicant, wanted, start, end, calendarOk).0);
      }
    }
  }

  /** The transaction changes who holds the slots, not the slots, and only for this applicant. */
  lemma TransactionKeepsTable(slots: seq<Slot>, applicant: Id, roleIds: seq<Id>, start: Instant, end: Instant,
                              calendarOk: bool)
    ensures var (after, booking) := Transaction(slots, applicant, roleIds, start, end, calendarOk);
      && (booking != Booked ==> after == slots)
      && SameSlotTable(slots, after)
      && (forall other :: other != applicant ==> HeldKeys(after, other) == HeldKeys(slots, other))
  {
    CancelKeys(slots, applicant);
    ClaimKeys(Cancelled(slots, applicant), applicant, roleIds, start, end);
  }

  /** Booking keeps an applicant settled who has not been interviewed. */
  lemma BookKeepsSettled(cfg: Config, db: Database, recruitId: Id, applicant: Id,
                         start: Option<Instant>, end: Option<Instant>, now: Instant, calendarOk: bool)
    requires UniqueSlots(db.slots) && NotInterviewed(db.slots, applicant)
    requires Settled(cfg, db, recruitId, applicant)
    ensures Settled(cfg, BookSlot(cfg, db, recruitId, applicant, start, end, now, calendarOk).0, recruitId, applicant)
  {
    BookKeepsTable(cfg, db, recruitId, applicant, start, end, now, calendarOk);
    if BookSlot(cfg, db, recruitId, applicant, start, end, now, calendarOk).1 == Booked {
      BookedIsSettled(cfg, db, recruitId, applicant, start, end, now, calendarOk);
    }
  }

  /** When `bookSlot` reports the same slot for a rebooking, the held slots are the booking of the wanted roles. */
  lemma SameSlotIsSettled(cfg: Config, db: Database, recruitId: Id, applicant: Id, now: Instant, calendarOk: bool,
                          start: Instant, end: Instant)
    requires UniqueSlots(db.slots) && HeldAt(db.slots, applicant, start, end)
    requires BookSlot(cfg, db, recruitId, applicant, None, None, now, calendarOk).1 == SameSlot
    ensures Settled(cfg, db, recruitId, applicant)
  {
    RebookTest(db.slots, applicant, Wanted(cfg, db, recruitId, applicant), start, end);
    assert IsBooking(cfg, db, recruitId, applicant, start, end);
  }

  /** Rebooking settles an applicant from any state in which the held slots are at one time and not yet used. */
  lemma RebookSettles(cfg: Config, db: Database, recruitId: Id, applicant: Id, now: Instant, calendarOk: bool)
    requires UniqueSlots(db.slots) && NotInterviewed(db.slots, applicant)
    requires exists start, end :: HeldAt(db.slots, applicant, start, end)
    ensures var after := RebookSlot(cfg, db, recruitId, applicant, now, calendarOk);
      && Settled(cfg, after, recruitId, applicant)
      && OnlySlotsChanged(db, after)
      && SameSlotTable(db.slots, after.slots)
      && UniqueSlots(after.slots)
      && (forall other :: other != applicant ==> HeldKeys(after.slots, other) == HeldKeys(db.slots, other))
  {
    BookKeepsTable(cfg, db, recruitId, applicant, None, None, now, calendarOk);
    CancelKeys(db.slots, applicant);
    UniqueInTable(db.slots, Cancelled(db.slots, applicant));
    match BookSlot(cfg, db, recruitId, applicant, None, None, now, calendarOk).1
    case SameSlot =>
      var start, end :| HeldAt(db.slots, applicant, start, end);
      SameSlotIsSettled(cfg, db, recruitId, applicant, now, calendarOk, start, end);
    case Booked =>
      BookedIsSettled(cfg, db, recruitId, applicant, None, None, now, calendarOk);
    case Refused(_) =>
  }

  /** A settled applicant can be rebooked at any time, even too late for a new booking, without any change. */
  lemma RebookLeavesSettled(cfg: Config, db: Database, recruitId: Id, applicant: Id, now: Instant, calendarOk: bool)
    requires UniqueSlots(db.slots) && Settled(cfg, db, recruitId, applicant)
    ensures RebookSlot(cfg, db, recruitId, applicant, now, calendarOk) == db
  {
    if HeldKeys(db.slots, applicant) == {} {
      HoldsNoSlot(db.slots, applicant);
    } else {
      var start, end :| IsBooking(cfg, db, recruitId, applicant, start, end);
      BookingIsAtOneTime(cfg, db, recruitId, applicant, start, end);
      RebookTest(db.slots, applicant, Wanted(cfg, db, recruitId, applicant), start, end);
    }
  }

  lemma HoldsNoSlot(slots: seq<Slot>, applicant: Id)
    requires HeldKeys(slots, applicant) == {}
    ensures Find(slots, HeldBy(applicant)) == [] && Cancelled(slots, applicant) == slots
  {
    forall slot | slot in slots ensures slot.applicant != Some(applicant) {
      assert slot.applicant == Some(applicant) ==> KeyOf(slot) in HeldKeys(slots, applicant);
    }
    FindAllOrNothing(slots, HeldBy(applicant));
    forall i | 0 <= i < |slots| ensures Cancelled(slots, applicant)[i] == slots[i] {
      assert slots[i] in slots;
    }
  }

  lemma BookedByTransaction(cfg: Config, db: Database, recruitId: Id, applicant: Id,
                            start: Option<Instant>, end: Option<Instant>, now: Instant, calendarOk: bool)
    requires BookSlot(cfg, db, recruitId, applicant, start, end, now, calendarOk).1 == Booked
    ensures var selected, wanted := Find(db.slots, HeldBy(applicant)), Wanted(cfg, db, recruitId, applicant);
      && StartOf(selected, start).Some? && EndOf(selected, end).Some?
      && var (slots, booking) := Transaction(db.slots, applicant, wanted, StartOf(selected, start).value,
                                             EndOf(selected, end).value, calendarOk);
         booking == Booked
           && BookSlot(cfg, db, recruitId, applicant, start, end, now, calendarOk).0 == db.(slots := slots)
    ensures SelectedRoleIds(db, applicant) != [] && IsFormCompleted(cfg, db, recruitId, applicant)
  {
  }
}

/** The list of interview slots: grouping by reference id and the availability shown for each group. */
module RecruitAvailability {
  import opened Options
  import opened Rows
  import opened Counting
  import opened StableSort
  import opened RecruitData
  import opened RecruitForm
  import opened RecruitBooking
  import opened RecruitBookingLaws
  import SlotRef

  function InRecruit(cfg: Config, recruitId: Id): Slot -> bool {
    (slot: Slot) => exists role :: role in cfg.roles && role.id == slot.role && role.recruitId == recruitId
  }

  function WithRef(ref: string): Slot -> bool {
    (slot: Slot) => SlotRef.RefId(slot.start, slot.end) == ref
  }

  function StartTime(): Slot -> int {
    (slot: Slot) => slot.start
  }

  /** The slots of a recruitment by start time, and of those the group with this reference id. */
  function Group(cfg: Config, db: Database, recruitId: Id, ref: string): seq<Slot> {
    Find(SortBy(Find(db.slots, InRecruit(cfg, recruitId)), StartTime()), WithRef(ref))
  }

  /** `isSlotAvailable`; without requested roles the answer is undefined, unless it is too late anyway. */
  function IsSlotAvailable(group: seq<Slot>, requested: Option<seq<Id>>, now: Instant,
                           leadTimeHours: real): Option<bool>
    requires group != []
  {
    if !IsValidLeadTime(group[0].start, now, leadTimeHours) then Some(false)
    else match requested
      case None => None
      case Some(roleIds) =>
        Some(forall roleId :: roleId in roleIds ==>
          exists slot :: slot in group && slot.applicant.None? && slot.role == roleId)
  }

  /** The availability that `getSlots` shows an applicant for a group. */
  function ShownAvailability(cfg: Config, db: Database, recruitId: Id, applicant: Id, ref: string,
                             now: Instant): Option<bool>
    requires Group(cfg, db, recruitId, ref) != []
  {
    IsSlotAvailable(Group(cfg, db, recruitId, ref),
                    Some(SelectedRoleIds(db, applicant) + MandatoryInterviewRoleIds(cfg, recruitId)), now,
                        cfg.leadTimeHours)
  }

  function Given(date: SlotRef.RefDate): Option<Instant> {
    if date.At? then Some(date.time) else None
  }

  /**
   Why `bookSlot` fails with an invalid date: it is no missing one, its difference to the present satisfies no lead
   time, and the database refuses it.
  */
  function RefusalOfInvalidDate(cfg: Config, db: Database, recruitId: Id, applicant: Id, times: SlotRef.RefTimes,
                                now: Instant): Refusal
    requires times.start.Invalid? || times.end.Invalid?
  {
    var selectedSlots := Find(db.slots, HeldBy(applicant));
    if (times.start.Missing? || times.end.Missing?) && selectedSlots == [] then MissingTime
    else if SelectedRoleIds(db, applicant) == [] then NoSelectedRoles
    else if !IsFormCompleted(cfg, db, recruitId, applicant) then FormsIncomplete
    else if times.start.Invalid? then TooLate
    else
      var start := if times.start.At? then times.start.time else selectedSlots[0].start;
      if IsValidLeadTime(start, now, cfg.leadTimeHours) then InvalidTime else TooLate
  }

  /** Booking a group as the controller does, with the times read back from its reference id. */
  function BookGroup(cfg: Config, db: Database, recruitId: Id, applicant: Id, ref: string, now: Instant,
                     calendarOk: bool)
    : (Database, Booking)
  {
    var times := SlotRef.FromRefId(ref);
    if times.start.Invalid? || times.end.Invalid?
    then (db, Refused(RefusalOfInvalidDate(cfg, db, recruitId, applicant, times, now)))
    else BookSlot(cfg, db, recruitId, applicant, Given(times.start), Given(times.end), now, calendarOk)
  }

  predicate IsTimed(slot: Slot) {
    SlotRef.IsTime(slot.start) && SlotRef.IsTime(slot.end)
  }

  predicate IsMinuteAligned(slot: Slot) {
    && 0 <= slot.start <= SlotRef.MAX_TIME && slot.start % SlotRef.MINUTE == 0
    && 0 <= slot.end <= SlotRef.MAX_TIME && slot.end % SlotRef.MINUTE == 0
  }

  lemma GroupMembers(cfg: Config, db: Database, recruitId: Id, ref: string)
    ensures forall slot ::
      slot in Group(cfg, db, recruitId, ref) <==>
        slot in db.slots && InRecruit(cfg, recruitId)(slot) && WithRef(ref)(slot)
  {
    SortMembers(Find(db.slots, InRecruit(cfg, recruitId)), StartTime());
  }

  lemma AlignedMinutes(t: Instant, t': Instant)
    requires t % SlotRef.MINUTE == 0 && t' % SlotRef.MINUTE == 0
    ensures SlotRef.FloorToMinute(t) == t
    ensures SlotRef.Minutes(t) == SlotRef.Minutes(t') <==> t == t'
  {
  }

  ghost predicate IsAlignedGroup(cfg: Config, db: Database, recruitId: Id, ref: string) {
    forall slot :: slot in Group(cfg, db, recruitId, ref) ==> IsMinuteAligned(slot)
  }

  /** A group on full minutes consists of the slots of the recruitment at one time. */
  lemma GroupTime(cfg: Config, db: Database, recruitId: Id, ref: string, base: Slot, slot: Slot)
    requires IsAlignedGroup(cfg, db, recruitId, ref)
    requires base in Group(cfg, db, recruitId, ref) && slot in db.slots && InRecruit(cfg, recruitId)(slot)
    ensures slot in Group(cfg, db, recruitId, ref) <==> slot.start == base.start && slot.end == base.end
  {
    GroupMembers(cfg, db, recruitId, ref);
    if slot in Group(cfg, db, recruitId, ref) {
      SlotRef.SameGroup(slot.start, slot.end, base.start, base.end);
      AlignedMinutes(slot.start, base.start);
      AlignedMinutes(slot.end, base.end);
    }
  }

  /** A slot of a wanted role at this time that the applicant already holds. */
  ghost predicate HoldsWantedAt(cfg: Config, db: Database, recruitId: Id, applicant: Id, start: Instant, end: Instant) {
    exists slot :: slot in db.slots && slot.applicant == Some(applicant) && slot.start == start && slot.end == end
      && slot.role in Wanted(cfg, db, recruitId, applicant)
  }

  /** Slots are unique, the group is on full minutes, and the applicant wants roles of this recruitment. */
  ghost predicate CanReadGroup(cfg: Config, db: Database, recruitId: Id, applicant: Id, ref: string) {
    && UniqueSlots(db.slots)
    && IsAlignedGroup(cfg, db, recruitId, ref)
    && forall roleId :: roleId in Wanted(cfg, db, recruitId, applicant) ==>
         exists role :: role in cfg.roles && role.id == roleId && role.recruitId == recruitId
  }

  /** What the list does not look at: a role is selected, no role is wanted twice, and the forms are filled in. */
  ghost predicate IsReady(cfg: Config, db: Database, recruitId: Id, applicant: Id) {
    && SelectedRoleIds(db, applicant) != []
    && Distinct(Wanted(cfg, db, recruitId, applicant))
    && forall c :: c in FormCollections(cfg, db, recruitId, applicant) ==> IsFilledIn(cfg, db.answers, applicant, c)
  }

  /**
   Booking any listed group succeeds exactly when its times are not before the epoch and the floored times can be
   booked, whether or not the slots of the group start and end there.
  */
  lemma BookGroupCommits(cfg: Config, db: Database, recruitId: Id, applicant: Id, ref: string, now: Instant,
                         calendarOk: bool, base: Slot)
    requires UniqueSlots(db.slots)
    requires base in Group(cfg, db, recruitId, ref) && IsTimed(base)
    ensures BookGroup(cfg, db, recruitId, applicant, ref, now, calendarOk).1 == Booked
       <==> && base.start >= 0 && base.end >= 0
            && IsReady(cfg, db, recruitId, applicant) && calendarOk
            && var start, end := SlotRef.FloorToMinute(base.start), SlotRef.FloorToMinute(base.end);
               CanBeGiven(cfg, db, recruitId, applicant, start, end, now)
  {
    GroupMembers(cfg, db, recruitId, ref);
    SlotRef.TimesOfRefId(base.start, base.end);
    if base.start >= 0 && base.end >= 0 {
      var start, end := SlotRef.FloorToMinute(base.start), SlotRef.FloorToMinute(base.end);
      BookingSucceeds(cfg, db, recruitId, applicant, start, end, now, calendarOk);
    }
  }

  /** The lead time holds and every wanted role has a slot that is free or the applicant's own. */
  ghost predicate CanBeGiven(cfg: Config, db: Database, recruitId: Id, applicant: Id, start: Instant, end: Instant,
                             now: Instant) {
    && StartsInTime(start, now, cfg.leadTimeHours)
    && forall roleId :: roleId in Wanted(cfg, db, recruitId, applicant) ==>
      Obtainable(db.slots, applicant, roleId, start, end)
  }

  /** The reference id of a group gives back the times of one of its slots exactly when that slot is on full minutes. */
  lemma UnalignedGroupIsElsewhere(cfg: Config, db: Database, recruitId: Id, ref: string, slot: Slot)
    requires slot in Group(cfg, db, recruitId, ref)
    requires 0 <= slot.start <= SlotRef.MAX_TIME && 0 <= slot.end <= SlotRef.MAX_TIME
    ensures SlotRef.FromRefId(ref) == SlotRef.RefTimes(SlotRef.At(slot.start), SlotRef.At(slot.end))
       <==> slot.start % SlotRef.MINUTE == 0 && slot.end % SlotRef.MINUTE == 0
  {
    GroupMembers(cfg, db, recruitId, ref);
    SlotRef.RefIdIsExact(slot.start, slot.end);
  }

  ghost predicate HasFreeSlot(group: seq<Slot>, roleId: Id) {
    exists slot :: slot in group && slot.applicant.None? && slot.role == roleId
  }

  lemma ShownAsAvailable(cfg: Config, db: Database, recruitId: Id, applicant: Id, ref: string, now: Instant)
    requires Group(cfg, db, recruitId, ref) != []
    ensures ShownAvailability(cfg, db, recruitId, applicant, ref, now) == Some(true)
       <==> && StartsInTime(Group(cfg, db, recruitId, ref)[0].start, now, cfg.leadTimeHours)
            && forall roleId :: roleId in Wanted(cfg, db, recruitId, applicant) ==>
              HasFreeSlot(Group(cfg, db, recruitId, ref), roleId)
  {
    LeadTime(Group(cfg, db, recruitId, ref)[0].start, now, cfg.leadTimeHours);
    var requested := SelectedRoleIds(db, applicant) + MandatoryInterviewRoleIds(cfg, recruitId);
    assert forall roleId :: roleId in requested <==> roleId in Wanted(cfg, db, recruitId, applicant);
  }

  /**
   A group on full minutes is shown as available to an applicant who is ready exactly when it can be booked at that
   moment and the applicant holds no slot of a wanted role at its time: such a slot is not free, but the booking
   releases it.
  */
  lemma AvailabilityAgreesWithBooking(cfg: Config, db: Database, recruitId: Id, applicant: Id, ref: string,
                                      now: Instant)
    requires CanReadGroup(cfg, db, recruitId, applicant, ref)
    requires Group(cfg, db, recruitId, ref) != []
    ensures var base, booking := Group(cfg, db, recruitId, ref)[0],
        BookGroup(cfg, db, recruitId, applicant, ref, now, true).1;
      ShownAvailability(cfg, db, recruitId, applicant, ref, now) == Some(true) && IsReady(cfg, db, recruitId, applicant)
      <==> booking == Booked && !HoldsWantedAt(cfg, db, recruitId, applicant, base.start, base.end)
  {
    var base := Group(cfg, db, recruitId, ref)[0];
    assert base in Group(cfg, db, recruitId, ref);
    AlignedGroupCommits(cfg, db, recruitId, applicant, ref, now, base);
    ShownAsAvailable(cfg, db, recruitId, applicant, ref, now);
    forall roleId | roleId in Wanted(cfg, db, recruitId, applicant)
      ensures HasFreeSlot(Group(cfg, db, recruitId, ref), roleId)
        <==> CanBeClaimed(db.slots, applicant, roleId, base.start, base.end)
    {
      FreeInGroup(cfg, db, recruitId, applicant, ref, base, roleId);
    }
  }

  lemma AlignedGroupCommits(cfg: Config, db: Database, recruitId: Id, applicant: Id, ref: string, now: Instant,
                            base: Slot)
    requires CanReadGroup(cfg, db, recruitId, applicant, ref)
    requires base in Group(cfg, db, recruitId, ref)
    ensures BookGroup(cfg, db, recruitId, applicant, ref, now, true).1 == Booked
       <==> IsReady(cfg, db, recruitId, applicant)
            && CanBeGiven(cfg, db, recruitId, applicant, base.start, base.end, now)
  {
    AlignedMinutes(base.start, base.start);
    AlignedMinutes(base.end, base.end);
    BookGroupCommits(cfg, db, recruitId, applicant, ref, now, true, base);
  }

  /**
   In any table of unique slots, a group that is shown as available cannot be booked exactly when it lies before the
   epoch, the applicant is not ready,
       or at the floored times the lead time is missed or a wanted role is not obtainable.
  */
  lemma ShownButNotBookable(cfg: Config, db: Database, recruitId: Id, applicant: Id, ref: string, now: Instant)
    requires UniqueSlots(db.slots) && Group(cfg, db, recruitId, ref) != [] && IsTimed(Group(cfg, db, recruitId, ref)[0])
    requires ShownAvailability(cfg, db, recruitId, applicant, ref, now) == Some(true)
    ensures var base := Group(cfg, db, recruitId, ref)[0];
      var start, end := SlotRef.FloorToMinute(base.start), SlotRef.FloorToMinute(base.end);
      BookGroup(cfg, db, recruitId, applicant, ref, now, true).1 != Booked
      <==> || base.start < 0 || base.end < 0
           || !IsReady(cfg, db, recruitId, applicant)
           || !StartsInTime(start, now, cfg.leadTimeHours)
           || exists roleId :: roleId in Wanted(cfg, db, recruitId, applicant)
                && !Obtainable(db.slots, applicant, roleId, start, end)
  {
    var base := Group(cfg, db, recruitId, ref)[0];
    assert base in Group(cfg, db, recruitId, ref);
    BookGroupCommits(cfg, db, recruitId, applicant, ref, now, true, base);
  }

  /** Obtainable without releasing anything that the applicant holds. */
  ghost predicate CanBeClaimed(slots: seq<Slot>, applicant: Id, roleId: Id, start: Instant, end: Instant) {
    Obtainable(slots, applicant, roleId, start, end) && (roleId, start, end) !in HeldKeys(slots, applicant)
  }

  lemma FreeInGroup(cfg: Config, db: Database, recruitId: Id, applicant: Id, ref: string, base: Slot, roleId: Id)
    requires CanReadGroup(cfg, db, recruitId, applicant, ref)
    requires base in Group(cfg, db, recruitId, ref) && roleId in Wanted(cfg, db, recruitId, applicant)
    ensures HasFreeSlot(Group(cfg, db, recruitId, ref), roleId)
       <==> CanBeClaimed(db.slots, applicant, roleId, base.start, base.end)
  {
    var group := Group(cfg, db, recruitId, ref);
    GroupMembers(cfg, db, recruitId, ref);
    if slot :| slot in group && slot.applicant.None? && slot.role == roleId {
      GroupTime(cfg, db, recruitId, ref, base, slot);
      assert slot in db.slots && KeyOf(slot) == (roleId, base.start, base.end);
      FreeKeyIsNotHeld(db.slots, applicant, slot);
    }
    if CanBeClaimed(db.slots, applicant, roleId, base.start, base.end) {
      var slot :| slot in db.slots && KeyOf(slot) == (roleId, base.start, base.end)
        && (slot.applicant.None? || Cancellable(applicant)(slot));
      assert InRecruit(cfg, recruitId)(slot);
      GroupTime(cfg, db, recruitId, ref, base, slot);
    }
  }

  lemma FreeKeyIsNotHeld(slots: seq<Slot>, applicant: Id, free: Slot)
    requires UniqueSlots(slots) && free in slots && free.applicant.None?
    ensures KeyOf(free) !in HeldKeys(slots, applicant)
  {
    var k :| 0 <= k < |slots| && slots[k] == free;
    forall slot | slot in slots && KeyOf(slot) == KeyOf(free) ensures slot == free {
      var i :| 0 <= i < |slots| && slots[i] == slot;
      assert i == k;
    }
  }

  // ----- what else the list and its reference ids answer -----

  /** The answer for a group and a list of requested roles, or without one. */
  lemma AvailabilityAnswers(group: seq<Slot>, requested: Option<seq<Id>>, now: Instant, leadTimeHours: real)
    requires group != []
    ensures var available := IsSlotAvailable(group, requested, now, leadTimeHours);
      && (available == None <==> requested.None? && StartsInTime(group[0].start, now, leadTimeHours))
      && (available == Some(true) <==>
            && requested.Some? && StartsInTime(group[0].start, now, leadTimeHours)
            && forall roleId :: roleId in requested.value ==> HasFreeSlot(group, roleId))
  {
    LeadTime(group[0].start, now, leadTimeHours);
  }

  function AscendingStart(): (Slot, Slot) -> bool {
    (slot: Slot, other: Slot) => slot.start <= other.start
  }

  /** The lead time is that of the earliest slot of the group. */
  lemma GroupIsByStart(cfg: Config, db: Database, recruitId: Id, ref: string, i: nat)
    requires i < |Group(cfg, db, recruitId, ref)|
    ensures Group(cfg, db, recruitId, ref)[0].start <= Group(cfg, db, recruitId, ref)[i].start
  {
    var listed := Find(db.slots, InRecruit(cfg, recruitId));
    SortOrders(listed, StartTime());
    var sorted := SortBy(listed, StartTime());
    forall i, j | 0 <= i < j < |sorted| ensures AscendingStart()(sorted[i], sorted[j]) {
      assert StartTime()(sorted[i]) <= StartTime()(sorted[j]);
    }
    FindKeepsPairs(sorted, WithRef(ref), AscendingStart());
    if i > 0 {
      assert AscendingStart()(Group(cfg, db, recruitId, ref)[0], Group(cfg, db, recruitId, ref)[i]);
    }
  }

  /** A group is the slots of this recruitment's roles that start and end in the same minutes. */
  lemma GroupIsByMinute(cfg: Config, db: Database, recruitId: Id, ref: string, base: Slot, slot: Slot)
    requires base in Group(cfg, db, recruitId, ref)
    ensures slot in Group(cfg, db, recruitId, ref)
       <==> && slot in db.slots
            && (exists role :: role in cfg.roles && role.id == slot.role && role.recruitId == recruitId)
            && slot.start / 60000 == base.start / 60000 && slot.end / 60000 == base.end / 60000
  {
    GroupMembers(cfg, db, recruitId, ref);
    SlotRef.SameGroup(slot.start, slot.end, base.start, base.end);
  }

  /** An invalid date never changes anything; what is answered depends on the checks that come before its use. */
  lemma InvalidDateIsRefused(cfg: Config, db: Database, recruitId: Id, applicant: Id, ref: string, now: Instant,
                             calendarOk: bool)
    requires SlotRef.FromRefId(ref).start.Invalid? || SlotRef.FromRefId(ref).end.Invalid?
    ensures var (after, booking) := BookGroup(cfg, db, recruitId, applicant, ref, now, calendarOk);
      var times, selects := SlotRef.FromRefId(ref), SelectedRoleIds(db, applicant) != [];
      var isMissing := times.end.Missing? && HeldKeys(db.slots, applicant) == {};
      var open := exists c ::
        c in FormCollections(cfg, db, recruitId, applicant) && !IsFilledIn(cfg, db.answers, applicant, c);
      var isLate := times.start.Invalid? || !StartsInTime(times.start.time, now, cfg.leadTimeHours);
      && after == db
      && (booking == Refused(MissingTime) <==> isMissing)
      && (booking == Refused(NoSelectedRoles) <==> !isMissing && !selects)
      && (booking == Refused(FormsIncomplete) <==> !isMissing && selects && open)
      && (booking == Refused(TooLate) <==> !isMissing && selects && !open && isLate)
      && (booking == Refused(InvalidTime) <==> !isMissing && selects && !open && !isLate)
  {
    FormIsCompleted(cfg, db, recruitId, applicant);
    var times, held := SlotRef.FromRefId(ref), Find(db.slots, HeldBy(applicant));
    if times.start.At? {
      LeadTime(times.start.time, now, cfg.leadTimeHours);
    }
    if held != [] {
      assert held[0] in held && KeyOf(held[0]) in HeldKeys(db.slots, applicant);
    }
  }
}

/** Interview booking: `cancelSlot`, `bookSlot` and `rebookSlot` on the slot table. */
module RecruitBooking {
  import opened Options
  import opened Rows
  import opened Counting
  import opened RecruitData
  import opened RecruitForm

  const HOUR := 3600000

  // ----- the updates of the slot table -----

  function HeldBy(applicant: Id): Slot -> bool {
    (slot: Slot) => slot.applicant == Some(applicant)
  }

  function Cancellable(applicant: Id): Slot -> bool {
    (slot: Slot) => slot.applicant == Some(applicant) && slot.interviewAt.None?
  }

  function Release(): Slot -> Slot {
    (slot: Slot) => slot.(applicant := None)
  }

  function FreeAt(roleIds: seq<Id>, start: Instant, end: Instant): Slot -> bool {
    (slot: Slot) => slot.role in roleIds && slot.start == start && slot.end == end && slot.applicant.None?
  }

  function AssignTo(applicant: Id): Slot -> Slot {
    (slot: Slot) => slot.(applicant := Some(applicant))
  }

  /** `cancelSlot`: slots already marked as interviewed are kept. */
  function Cancelled(slots: seq<Slot>, applicant: Id): (result: seq<Slot>)
    ensures |result| == |slots|
  {
    Updated(slots, Cancellable(applicant), Release())
  }

  function Claimed(slots: seq<Slot>, applicant: Id, roleIds: seq<Id>, start: Instant, end: Instant): (result: seq<Slot>)
    ensures |result| == |slots|
  {
    Updated(slots, FreeAt(roleIds, start, end), AssignTo(applicant))
  }

  // ----- the decisions of bookSlot -----

  /** dayjs truncates a difference towards zero. */
  function Truncated(n: int, unit: int): int
    requires unit > 0
  {
    if n >= 0 then n / unit else -(-n / unit)
  }

  /** The configured number of hours need not be whole. */
  predicate IsValidLeadTime(start: Instant, now: Instant, leadTimeHours: real) {
    Truncated(start - now, HOUR) as real >= leadTimeHours
  }

  function Ceiling(x: real): int {
    -((-x).Floor)
  }

  ghost predicate StartsInTime(start: Instant, now: Instant, leadTimeHours: real) {
    var hours := Ceiling(leadTimeHours);
    if hours > 0 then now + hours * HOUR <= start else now + (hours - 1) * HOUR < start
  }

  /**
   The lead time counts in full hours, rounded up; when it is zero or less, slots that began less than an hour too
   early are admitted as well.
  */
  lemma LeadTime(start: Instant, now: Instant, leadTimeHours: real)
    ensures IsValidLeadTime(start, now, leadTimeHours) <==> StartsInTime(start, now, leadTimeHours)
  {
    var n := Truncated(start - now, HOUR);
    assert n as real >= leadTimeHours <==> n >= Ceiling(leadTimeHours);
  }

  datatype Refusal =
    | MissingTime | NoSelectedRoles | FormsIncomplete | TooLate | InvalidTime | NotAvailable | CalendarFailed

  datatype Booking = SameSlot | Booked | Refused(reason: Refusal)

  /**
   The role part of `isRebookSameSlot`. Dates are compared by identity there, so the test can only succeed
   when both times were taken over from the selected slots.
  */
  predicate IsRebookSameSlot(slots: seq<Slot>, roleIds: seq<Id>, timesTakenOver: bool) {
    && timesTakenOver
    && roleIds != []
    && |slots| == |roleIds|
    && forall slot :: slot in slots ==> slot.role in roleIds
  }

  function StartOf(slots: seq<Slot>, given: Option<Instant>): Option<Instant> {
    if given.Some? then given else if slots == [] then None else Some(slots[0].start)
  }

  function EndOf(slots: seq<Slot>, given: Option<Instant>): Option<Instant> {
    if given.Some? then given else if slots == [] then None else Some(slots[0].end)
  }

  /** The checks before the transaction; `None` lets it begin. */
  function Precheck(cfg: Config, db: Database, recruitId: Id, applicant: Id, start: Option<Instant>,
                    end: Option<Instant>, now: Instant)
    : Option<Booking>
  {
    var selectedSlots := Find(db.slots, HeldBy(applicant));
    var roleIds := Wanted(cfg, db, recruitId, applicant);
    if StartOf(selectedSlots, start).None? || EndOf(selectedSlots, end).None? then Some(Refused(MissingTime))
    else if SelectedRoleIds(db, applicant) == [] then Some(Refused(NoSelectedRoles))
    else if !IsFormCompleted(cfg, db, recruitId, applicant) then Some(Refused(FormsIncomplete))
    else if IsRebookSameSlot(selectedSlots, roleIds, start.None? && end.None?) then Some(SameSlot)
    else if !IsValidLeadTime(StartOf(selectedSlots, start).value, now, cfg.leadTimeHours) then Some(Refused(TooLate))
    else None
  }

  /** The transaction: cancel, claim, compare the count, create the calendar event; an error restores the table. */
  function Transaction(slots: seq<Slot>, applicant: Id, roleIds: seq<Id>, start: Instant, end: Instant,
                       calendarOk: bool)
    : (seq<Slot>, Booking)
  {
    var cancelled := Cancelled(slots, applicant);
    if |Find(cancelled, FreeAt(roleIds, start, end))| != |roleIds| then (slots, Refused(NotAvailable))
    else if !calendarOk then (slots, Refused(CalendarFailed))
    else (Claimed(cancelled, applicant, roleIds, start, end), Booked)
  }

  /** `bookSlot`; omitted times default to those of the first selected slot. */
  function BookSlot(cfg: Config, db: Database, recruitId: Id, applicant: Id,
                    start: Option<Instant>, end: Option<Instant>, now: Instant, calendarOk: bool)
    : (Database, Booking)
  {
    var selectedSlots := Find(db.slots, HeldBy(applicant));
    match Precheck(cfg, db, recruitId, applicant, start, end, now)
    case Some(booking) => (db, booking)
    case None =>
      var (slots, booking) := Transaction(db.slots, applicant, Wanted(cfg, db, recruitId, applicant),
                                          StartOf(selectedSlots, start).value, EndOf(selectedSlots, end).value,
                                              calendarOk);
      (db.(slots := slots), booking)
  }

  /** `rebookSlot`: an applicant who cannot keep the booking loses it. */
  function RebookSlot(cfg: Config, db: Database, recruitId: Id, applicant: Id, now: Instant,
                      calendarOk: bool): Database {
    var (rebooked, booking) := BookSlot(cfg, db, recruitId, applicant, None, None, now, calendarOk);
    if booking.Refused? then rebooked.(slots := Cancelled(rebooked.slots, applicant)) else rebooked
  }

  // ----- what the tables say about a booking -----

  type Key = (Id, Instant, Instant)

  function KeyOf(slot: Slot): Key {
    (slot.role, slot.start, slot.end)
  }

  /** Nothing in the services enforces that a role has one slot per time; `addSlot` has to be used that way. */
  ghost predicate UniqueSlots(slots: seq<Slot>) {
    forall i, j :: 0 <= i < j < |slots| ==> KeyOf(slots[i]) != KeyOf(slots[j])
  }

  ghost function HeldKeys(slots: seq<Slot>, applicant: Id): set<Key> {
    set slot | slot in slots && slot.applicant == Some(applicant) :: KeyOf(slot)
  }

  ghost function KeysAt(roleIds: seq<Id>, start: Instant, end: Instant): set<Key> {
    set roleId | roleId in roleIds :: (roleId, start, end)
  }

  ghost predicate NotInterviewed(slots: seq<Slot>, applicant: Id) {
    forall slot :: slot in slots && slot.applicant == Some(applicant) ==> slot.interviewAt.None?
  }

  ghost predicate SameSlotTable(slots: seq<Slot>, slots': seq<Slot>) {
    |slots'| == |slots| && forall i :: 0 <= i < |slots| ==> KeyOf(slots'[i]) == KeyOf(slots[i])
  }

  lemma CancelKeys(slots: seq<Slot>, applicant: Id)
    ensures SameSlotTable(slots, Cancelled(slots, applicant))
    ensures forall other :: other != applicant ==>
      HeldKeys(Cancelled(slots, applicant), other) == HeldKeys(slots, other)
    ensures NotInterviewed(slots, applicant) ==> HeldKeys(Cancelled(slots, applicant), applicant) == {}
  {
  }

  ghost function FreeKeys(slots: seq<Slot>, roleIds: seq<Id>, start: Instant, end: Instant): set<Key> {
    set slot | slot in slots && FreeAt(roleIds, start, end)(slot) :: KeyOf(slot)
  }

  lemma ClaimKeys(slots: seq<Slot>, applicant: Id, roleIds: seq<Id>, start: Instant, end: Instant)
    ensures var after := Claimed(slots, applicant, roleIds, start, end);
      && SameSlotTable(slots, after)
      && (forall other :: other != applicant ==> HeldKeys(after, other) == HeldKeys(slots, other))
      && HeldKeys(after, applicant) == HeldKeys(slots, applicant) + FreeKeys(slots, roleIds, start, end)
  {
  }

  // ----- the two counting tests -----

  function RoleOf(): Slot -> Id {
    (slot: Slot) => slot.role
  }

  /** Slots at one time have different roles. */
  lemma RolesAreDistinct(slots: seq<Slot>, where: Slot -> bool, start: Instant, end: Instant)
    requires UniqueSlots(slots)
    requires forall slot :: slot in slots && where(slot) ==> slot.start == start && slot.end == end
    ensures Distinct(Column(Find(slots, where), RoleOf()))
  {
  }

  /** `affected === roleIds.length` says that no role repeats and that each has a free slot at the time. */
  lemma CountOfFreeSlots(slots: seq<Slot>, roleIds: seq<Id>, start: Instant, end: Instant)
    requires UniqueSlots(slots)
    ensures |Find(slots, FreeAt(roleIds, start, end))| == |roleIds|
       <==> Distinct(roleIds) && KeysAt(roleIds, start, end) <= FreeKeys(slots, roleIds, start, end)
    ensures FreeKeys(slots, roleIds, start, end) <= KeysAt(roleIds, start, end)
  {
    var found := Find(slots, FreeAt(roleIds, start, end));
    var roles := Column(found, RoleOf());
    RolesAreDistinct(slots, FreeAt(roleIds, start, end), start, end);
    forall roleId | roleId in roles ensures roleId in roleIds {
      var i :| 0 <= i < |roles| && roles[i] == roleId;
      assert found[i] in found;
    }
    Pigeonhole(roles, roleIds);
    forall roleId | roleId in roleIds
      ensures roleId in roles <==> (roleId, start, end) in FreeKeys(slots, roleIds, start, end)
    {
      if roleId in roles {
        var i :| 0 <= i < |roles| && roles[i] == roleId;
        assert found[i] in found && KeyOf(found[i]) == (roleId, start, end);
      }
      if (roleId, start, end) in FreeKeys(slots, roleIds, start, end) {
        var slot :| slot in slots && FreeAt(roleIds, start, end)(slot) && KeyOf(slot) == (roleId, start, end);
        assert slot in found;
        var i :| 0 <= i < |found| && found[i] == slot;
        assert roles[i] == roleId;
      }
    }
    forall roleId | roleId in roleIds ensures (roleId, start, end) in KeysAt(roleIds, start, end) {
    }
  }

  /** The length-plus-membership test decides whether the held roles are, as a set, the requested ones. */
  lemma RebookTest(slots: seq<Slot>, applicant: Id, roleIds: seq<Id>, start: Instant, end: Instant)
    requires UniqueSlots(slots)
    requires forall slot :: slot in slots && slot.applicant == Some(applicant) ==>
      slot.start == start && slot.end == end
    ensures IsRebookSameSlot(Find(slots, HeldBy(applicant)), roleIds, true)
       <==> roleIds != [] && Distinct(roleIds) && HeldKeys(slots, applicant) == KeysAt(roleIds, start, end)
  {
    var found := Find(slots, HeldBy(applicant));
    var roles := Column(found, RoleOf());
    RolesAreDistinct(slots, HeldBy(applicant), start, end);
    forall roleId
      ensures roleId in roles <==> (roleId, start, end) in HeldKeys(slots, applicant)
    {
      if roleId in roles {
        var i :| 0 <= i < |roles| && roles[i] == roleId;
        assert found[i] in found && KeyOf(found[i]) == (roleId, start, end);
      }
      if (roleId, start, end) in HeldKeys(slots, applicant) {
        var slot :| slot in slots && slot.applicant == Some(applicant) && KeyOf(slot) == (roleId, start, end);
        assert slot in found;
        var i :| 0 <= i < |found| && found[i] == slot;
        assert roles[i] == roleId;
      }
    }
    forall roleId
      ensures roleId in roleIds <==> (roleId, start, end) in KeysAt(roleIds, start, end)
    {
    }
    assert (forall slot :: slot in found ==> slot.role in roleIds)
       <==> (forall roleId :: roleId in roles ==> roleId in roleIds) by {
      forall slot | slot in found ensures slot.role in roles {
        var i :| 0 <= i < |found| && found[i] == slot;
        assert roles[i] == slot.role;
      }
    }
    if forall roleId :: roleId in roles ==> roleId in roleIds {
      Pigeonhole(roles, roleIds);
    }
    SameKeys(slots, applicant, roleIds, start, end);
  }

  lemma SameKeys(slots: seq<Slot>, applicant: Id, roleIds: seq<Id>, start: Instant, end: Instant)
    requires forall slot :: slot in slots && slot.applicant == Some(applicant) ==>
      slot.start == start && slot.end == end
    ensures HeldKeys(slots, applicant) == KeysAt(roleIds, start, end)
       <==> forall roleId :: (roleId, start, end) in HeldKeys(slots, applicant) <==> roleId in roleIds
  {
  }
}

/** Slot administration: adding and removing slots, marking them as interviewed. */
module RecruitSlots {
  import opened Options
  import opened Rows
  import opened Counting
  import opened RecruitData
  import opened RecruitBooking
  import opened RecruitBookingLaws
  import opened RecruitInterviews

  function NewSlots(start: Instant, end: Instant, roleIds: seq<Id>, nextId: Id): (slots: seq<Slot>)
    ensures |slots| == |roleIds|
  {
    seq(|roleIds|, i requires 0 <= i < |roleIds| => Slot(nextId + i, start, end, roleIds[i], None, None))
  }

  /** `addSlot`. */
  function AddSlot(db: Database, start: Instant, end: Instant, roleIds: seq<Id>): Database {
    db.(slots := db.slots + NewSlots(start, end, roleIds, db.nextId), nextId := db.nextId + |roleIds|)
  }

  function SlotsAt(roleIds: seq<Id>, start: Instant, end: Instant): Slot -> bool {
    (slot: Slot) => slot.role in roleIds && slot.start == start && slot.end == end
  }

  function SlotsNotAt(roleIds: seq<Id>, start: Instant, end: Instant): Slot -> bool {
    (slot: Slot) => !(slot.role in roleIds && slot.start == start && slot.end == end)
  }

  /** `removeSlot`: a conflict as soon as one of the slots is booked. */
  function RemoveSlot(slots: seq<Slot>, start: Instant, end: Instant, roleIds: seq<Id>): (seq<Slot>, bool) {
    if exists slot :: slot in Find(slots, SlotsAt(roleIds, start, end)) && slot.applicant.Some? then (slots, false)
    else (Find(slots, SlotsNotAt(roleIds, start, end)), true)
  }

  function Interviewed(applicant: Id): Slot -> bool {
    (slot: Slot) => slot.applicant == Some(applicant) && slot.interviewAt.Some?
  }

  function SetInterview(at: Option<Instant>): Slot -> Slot {
    (slot: Slot) => slot.(interviewAt := at)
  }

  /** `markApplicantSlotsAsInterviewed`: a conflict when a slot is marked already. */
  function MarkInterviewed(slots: seq<Slot>, applicant: Id, at: Instant): (seq<Slot>, bool) {
    if Find(slots, Interviewed(applicant)) != [] then (slots, false)
    else (Updated(slots, HeldBy(applicant), SetInterview(Some(at))), true)
  }

  /** `unmarkApplicantSlotsAsInterviewed`: a conflict when a slot is not marked. */
  function UnmarkInterviewed(slots: seq<Slot>, applicant: Id): (seq<Slot>, bool) {
    if Find(slots, Cancellable(applicant)) != [] then (slots, false)
    else (Updated(slots, HeldBy(applicant), SetInterview(None)), true)
  }

  /** What keeps slots unique when some are added. */
  ghost predicate AreNewKeys(slots: seq<Slot>, start: Instant, end: Instant, roleIds: seq<Id>) {
    Distinct(roleIds) && forall slot :: slot in slots ==> KeyOf(slot) !in KeysAt(roleIds, start, end)
  }

  /** Adding slots keeps them unique exactly when the keys are new; nobody's held slots change. */
  lemma AddKeepsSlots(db: Database, start: Instant, end: Instant, roleIds: seq<Id>)
    requires UniqueSlots(db.slots)
    ensures UniqueSlots(AddSlot(db, start, end, roleIds).slots) <==> AreNewKeys(db.slots, start, end, roleIds)
    ensures forall applicant ::
      HeldKeys(AddSlot(db, start, end, roleIds).slots, applicant) == HeldKeys(db.slots, applicant)
    ensures CleanSlots(db.slots) ==> CleanSlots(AddSlot(db, start, end, roleIds).slots)
  {
    var added := NewSlots(start, end, roleIds, db.nextId);
    var after := db.slots + added;
    assert forall slot :: slot in after <==> slot in db.slots || slot in added;
    forall applicant: Id ensures HeldKeys(after, applicant) == HeldKeys(db.slots, applicant) {
      forall slot | slot in after && slot.applicant == Some(applicant) ensures slot in db.slots {
      }
    }
    if UniqueSlots(after) {
      forall i, j | 0 <= i < j < |roleIds| ensures roleIds[i] != roleIds[j] {
        assert KeyOf(after[|db.slots| + i]) != KeyOf(after[|db.slots| + j]);
      }
      forall slot | slot in db.slots ensures KeyOf(slot) !in KeysAt(roleIds, start, end) {
        var i :| 0 <= i < |db.slots| && db.slots[i] == slot;
        forall k | 0 <= k < |roleIds| ensures KeyOf(slot) != (roleIds[k], start, end) {
          assert KeyOf(after[i]) != KeyOf(after[|db.slots| + k]);
        }
      }
    }
    if AreNewKeys(db.slots, start, end, roleIds) {
      forall i, j | 0 <= i < j < |after| ensures KeyOf(after[i]) != KeyOf(after[j]) {
        if |db.slots| <= j {
          var role := roleIds[j - |db.slots|];
          assert KeyOf(after[j]) == (role, start, end) && (role, start, end) in KeysAt(roleIds, start, end);
          assert i < |db.slots| ==> after[i] in db.slots;
        }
      }
    }
  }

  lemma RemoveKeepsSlots(slots: seq<Slot>, start: Instant, end: Instant, roleIds: seq<Id>)
    requires UniqueSlots(slots)
    ensures UniqueSlots(RemoveSlot(slots, start, end, roleIds).0)
    ensures forall applicant ::
      HeldKeys(RemoveSlot(slots, start, end, roleIds).0, applicant) == HeldKeys(slots, applicant)
    ensures CleanSlots(slots) ==> CleanSlots(RemoveSlot(slots, start, end, roleIds).0)
  {
    var (after, removed) := RemoveSlot(slots, start, end, roleIds);
    if removed {
      FindKeepsPairs(slots, SlotsNotAt(roleIds, start, end), (a: Slot, b: Slot) => KeyOf(a) != KeyOf(b));
      forall applicant: Id ensures HeldKeys(after, applicant) == HeldKeys(slots, applicant) {
        forall slot | slot in slots && slot.applicant == Some(applicant) ensures slot in after {
          assert slot !in Find(slots, SlotsAt(roleIds, start, end));
        }
      }
    }
  }

  lemma MarkKeepsSlots(slots: seq<Slot>, applicant: Id, at: Option<Instant>)
    requires UniqueSlots(slots)
    ensures var after := Updated(slots, HeldBy(applicant), SetInterview(at));
      && UniqueSlots(after)
      && (forall other :: HeldKeys(after, other) == HeldKeys(slots, other))
      && (CleanSlots(slots) ==> CleanSlots(after))
  {
  }

  lemma SlotsElsewhere(slots: seq<Slot>, start: Instant, end: Instant, roleIds: seq<Id>)
    requires AreNewKeys(slots, start, end, roleIds)
    ensures Find(slots, SlotsAt(roleIds, start, end)) == [] && Find(slots, SlotsNotAt(roleIds, start, end)) == slots
  {
    forall slot | slot in slots ensures !SlotsAt(roleIds, start, end)(slot) {
      assert slot.role in roleIds ==> (slot.role, start, end) in KeysAt(roleIds, start, end);
    }
    FindAllOrNothing(slots, SlotsAt(roleIds, start, end));
    FindAllOrNothing(slots, SlotsNotAt(roleIds, start, end));
  }

  lemma SlotsHere(start: Instant, end: Instant, roleIds: seq<Id>, nextId: Id)
    ensures var added := NewSlots(start, end, roleIds, nextId);
      Find(added, SlotsAt(roleIds, start, end)) == added && Find(added, SlotsNotAt(roleIds, start, end)) == []
  {
    var added := NewSlots(start, end, roleIds, nextId);
    FindAllOrNothing(added, SlotsAt(roleIds, start, end));
    FindAllOrNothing(added, SlotsNotAt(roleIds, start, end));
  }

  /** Removing takes back an addition, provided the added keys were new. */
  lemma AddThenRemove(db: Database, start: Instant, end: Instant, roleIds: seq<Id>)
    requires AreNewKeys(db.slots, start, end, roleIds)
    ensures RemoveSlot(AddSlot(db, start, end, roleIds).slots, start, end, roleIds) == (db.slots, true)
  {
    var added := NewSlots(start, end, roleIds, db.nextId);
    SlotsElsewhere(db.slots, start, end, roleIds);
    SlotsHere(start, end, roleIds, db.nextId);
    FindConcat(db.slots, added, SlotsAt(roleIds, start, end));
    FindConcat(db.slots, added, SlotsNotAt(roleIds, start, end));
    assert Find(db.slots + added, SlotsAt(roleIds, start, end)) == added;
    assert Find(db.slots + added, SlotsNotAt(roleIds, start, end)) == db.slots;
  }

  lemma MarksRemoved(slots: seq<Slot>, applicant: Id, at: Instant)
    requires NotInterviewed(slots, applicant)
    ensures var marked := Updated(slots, HeldBy(applicant), SetInterview(Some(at)));
      && Find(marked, Cancellable(applicant)) == []
      && Updated(marked, HeldBy(applicant), SetInterview(None)) == slots
  {
    var marked := Updated(slots, HeldBy(applicant), SetInterview(Some(at)));
    var unmarked := Updated(marked, HeldBy(applicant), SetInterview(None));
    forall i | 0 <= i < |slots| ensures unmarked[i] == slots[i] && !Cancellable(applicant)(marked[i]) {
      assert slots[i] in slots;
    }
    FindAllOrNothing(marked, Cancellable(applicant));
  }

  /** Unmarking takes back a mark. */
  lemma MarkThenUnmark(slots: seq<Slot>, applicant: Id, at: Instant)
    requires MarkInterviewed(slots, applicant, at).1
    ensures UnmarkInterviewed(MarkInterviewed(slots, applicant, at).0, applicant) == (slots, true)
  {
    forall slot | slot in slots && slot.applicant == Some(applicant) ensures slot.interviewAt.None? {
      assert slot !in Find(slots, Interviewed(applicant));
    }
    MarksRemoved(slots, applicant, at);
  }

  // ----- what each request does -----

  /** The slots that are added: one per role, free and not interviewed, under new ids, behind the others. */
  lemma AddedSlots(db: Database, start: Instant, end: Instant, roleIds: seq<Id>)
    ensures var after, n := AddSlot(db, start, end, roleIds), |db.slots|;
      && |after.slots| == n + |roleIds| && after.slots[..n] == db.slots && after.nextId == db.nextId + |roleIds|
      && (forall i :: 0 <= i < |roleIds| ==>
            && KeyOf(after.slots[n + i]) == (roleIds[i], start, end) && after.slots[n + i].id == db.nextId + i
            && after.slots[n + i].applicant.None? && after.slots[n + i].interviewAt.None?)
      && after.roles == db.roles && after.answers == db.answers
  {
  }

  ghost function KeyOutside(keys: set<Key>): Slot -> bool {
    (slot: Slot) => KeyOf(slot) !in keys
  }

  /**
   Slots are removed exactly when none of these roles at this time is booked; then precisely they are gone, and the
   others stay in their order. Otherwise nothing changes.
  */
  lemma RemovalOutcome(slots: seq<Slot>, start: Instant, end: Instant, roleIds: seq<Id>)
    ensures var (after, removed) := RemoveSlot(slots, start, end, roleIds);
      && (removed
         <==> forall slot :: slot in slots && KeyOf(slot) in KeysAt(roleIds, start, end) ==> slot.applicant.None?)
      && after == if removed then Find(slots, KeyOutside(KeysAt(roleIds, start, end))) else slots
  {
    forall slot: Slot ensures KeyOf(slot) in KeysAt(roleIds, start, end) <==> SlotsAt(roleIds, start, end)(slot) {
      assert slot.role in roleIds ==> (slot.role, start, end) in KeysAt(roleIds, start, end);
    }
    SameFound(slots, SlotsNotAt(roleIds, start, end), KeyOutside(KeysAt(roleIds, start, end)));
  }

  ghost predicate HasState(slots: seq<Slot>, applicant: Id, isInterviewed: bool) {
    forall slot :: slot in slots && slot.applicant == Some(applicant) ==> slot.interviewAt.Some? == isInterviewed
  }

  ghost predicate InterviewsSet(slots: seq<Slot>, slots': seq<Slot>, applicant: Id, at: Option<Instant>) {
    && |slots'| == |slots|
    && forall i :: 0 <= i < |slots| ==>
         slots'[i] == if slots[i].applicant != Some(applicant) then slots[i]
                      else Slot(slots[i].id, slots[i].start, slots[i].end, slots[i].role, slots[i].applicant, at)
  }

  /** Marking succeeds exactly when none of the applicant's slots is marked, and then marks precisely them. */
  lemma MarkOutcome(slots: seq<Slot>, applicant: Id, at: Instant)
    ensures var (after, marked) := MarkInterviewed(slots, applicant, at);
      && (marked <==> HasState(slots, applicant, false))
      && (if marked then InterviewsSet(slots, after, applicant, Some(at)) else after == slots)
  {
    var found := Find(slots, Interviewed(applicant));
    assert found != [] ==> found[0] in found;
  }

  /** Unmarking succeeds exactly when all of the applicant's slots are marked, and then unmarks precisely them. */
  lemma UnmarkOutcome(slots: seq<Slot>, applicant: Id)
    ensures var (after, unmarked) := UnmarkInterviewed(slots, applicant);
      && (unmarked <==> HasState(slots, applicant, true))
      && (if unmarked then InterviewsSet(slots, after, applicant, None) else after == slots)
  {
    var found := Find(slots, Cancellable(applicant));
    assert found != [] ==> found[0] in found;
  }
}

/**
 When the number of updated rows tells whether every requested role got its slot, for tables with any slots at all.
*/
module RecruitCount {
  import opened Options
  import opened Rows
  import opened Counting
  import opened RecruitData
  import opened RecruitBooking

  function FreeSlotOf(roleId: Id, start: Instant, end: Instant): Slot -> bool {
    FreeAt([roleId], start, end)
  }

  ghost predicate HasFreeSlot(slots: seq<Slot>, roleId: Id, start: Instant, end: Instant) {
    exists slot :: slot in slots && FreeSlotOf(roleId, start, end)(slot)
  }

  function FreeRoles(slots: seq<Slot>, roleIds: seq<Id>, start: Instant, end: Instant): seq<Id> {
    Column(Find(slots, FreeAt(roleIds, start, end)), RoleOf())
  }

  lemma FreeRolesAreRequested(slots: seq<Slot>, roleIds: seq<Id>, start: Instant, end: Instant)
    ensures forall roleId :: roleId in FreeRoles(slots, roleIds, start, end) <==>
      roleId in roleIds && HasFreeSlot(slots, roleId, start, end)
  {
    var found, roles := Find(slots, FreeAt(roleIds, start, end)), FreeRoles(slots, roleIds, start, end);
    forall roleId
      ensures roleId in roles <==> roleId in roleIds && HasFreeSlot(slots, roleId, start, end)
    {
      if roleId in roles {
        var i :| 0 <= i < |roles| && roles[i] == roleId;
        assert found[i] in found && FreeSlotOf(roleId, start, end)(found[i]);
      }
      if roleId in roleIds && HasFreeSlot(slots, roleId, start, end) {
        var slot :| slot in slots && FreeSlotOf(roleId, start, end)(slot);
        assert slot in found;
        var i :| 0 <= i < |found| && found[i] == slot;
        assert roles[i] == roleId;
      }
    }
  }

  /**
   When as many rows are updated as roles were requested, every role got a slot exactly if no two of the rows are of one
   role.
  */
  lemma CountCoversRoles(slots: seq<Slot>, roleIds: seq<Id>, start: Instant, end: Instant)
    requires Distinct(roleIds) && |Find(slots, FreeAt(roleIds, start, end))| == |roleIds|
    ensures (forall roleId :: roleId in roleIds ==> HasFreeSlot(slots, roleId, start, end))
       <==> Distinct(FreeRoles(slots, roleIds, start, end))
  {
    var roles := FreeRoles(slots, roleIds, start, end);
    FreeRolesAreRequested(slots, roleIds, start, end);
    if Distinct(roles) {
      Pigeonhole(roles, roleIds);
    }
    if forall roleId :: roleId in roleIds ==> HasFreeSlot(slots, roleId, start, end) {
      Pigeonhole(roleIds, roles);
    }
  }

  /** The test of `bookSlot` is right for every list of distinct roles at this time. */
  ghost predicate CountIsRight(slots: seq<Slot>, start: Instant, end: Instant) {
    forall roleIds: seq<Id> :: Distinct(roleIds) ==>
      (|Find(slots, FreeAt(roleIds, start, end))| == |roleIds|
       <==> forall roleId :: roleId in roleIds ==> HasFreeSlot(slots, roleId, start, end))
  }

  ghost predicate IsFreeAt(slot: Slot, start: Instant, end: Instant) {
    slot.start == start && slot.end == end && slot.applicant.None?
  }

  /** What somebody who adds slots can check: no two free slots of one role at this time. */
  ghost predicate FreeSlotsDiffer(slots: seq<Slot>, start: Instant, end: Instant) {
    forall i, j :: 0 <= i < j < |slots| && IsFreeAt(slots[i], start, end) && IsFreeAt(slots[j], start, end) ==>
      slots[i].role != slots[j].role
  }

  lemma FreeRolesAreDistinct(slots: seq<Slot>, roleIds: seq<Id>, start: Instant, end: Instant)
    requires FreeSlotsDiffer(slots, start, end)
    ensures Distinct(FreeRoles(slots, roleIds, start, end))
  {
    var where := FreeAt(roleIds, start, end);
    var found := Find(slots, where);
    var differ := (a: Slot, b: Slot) => where(a) && where(b) ==> a.role != b.role;
    FindKeepsPairs(slots, where, differ);
    forall i, j | 0 <= i < j < |found|
      ensures FreeRoles(slots, roleIds, start, end)[i] != FreeRoles(slots, roleIds, start, end)[j]
    {
      assert differ(found[i], found[j]) && found[i] in found && found[j] in found;
    }
  }

  function AboveAll(slots: seq<Slot>): (id: Id)
    ensures forall slot :: slot in slots ==> slot.role < id
  {
    if slots == [] then 0
    else
      var above, last := AboveAll(slots[..|slots| - 1]), slots[|slots| - 1];
      assert forall slot :: slot in slots ==> slot in slots[..|slots| - 1] || slot == last;
      if last.role < above then above else last.role + 1
  }

  /** One role, and as many unknown ones as it has superfluous free slots. */
  function FoolingRequest(slots: seq<Slot>, roleId: Id, count: nat): (roleIds: seq<Id>)
    ensures |roleIds| == 1 + count
  {
    [roleId] + seq(count, k => AboveAll(slots) + k)
  }

  lemma FoolingRequestIsDistinct(slots: seq<Slot>, slot: Slot, count: nat)
    requires slot in slots
    ensures Distinct(FoolingRequest(slots, slot.role, count))
  {
    var roleIds := FoolingRequest(slots, slot.role, count);
    forall i, j | 0 <= i < j < |roleIds| ensures roleIds[i] != roleIds[j] {
      assert roleIds[j] == AboveAll(slots) + (j - 1);
    }
  }

  /** Two free slots of one role at one time: a request exists whose count is right although a role has no slot. */
  lemma DuplicatesFoolTheCount(slots: seq<Slot>, i: nat, j: nat, start: Instant, end: Instant)
    requires i < j < |slots| && IsFreeAt(slots[i], start, end) && IsFreeAt(slots[j], start, end)
    requires slots[i].role == slots[j].role
    ensures exists roleIds: seq<Id> ::
      && Distinct(roleIds) && |Find(slots, FreeAt(roleIds, start, end))| == |roleIds|
      && exists roleId :: roleId in roleIds && !HasFreeSlot(slots, roleId, start, end)
  {
    var roleId := slots[i].role;
    var free := Find(slots, FreeSlotOf(roleId, start, end));
    TwoFound(slots, FreeSlotOf(roleId, start, end), i, j);
    var roleIds := FoolingRequest(slots, roleId, |free| - 1);
    FoolingRequestIsDistinct(slots, slots[i], |free| - 1);
    forall slot | slot in slots
      ensures FreeAt(roleIds, start, end)(slot) <==> FreeSlotOf(roleId, start, end)(slot)
    {
      assert slot.role < AboveAll(slots);
      assert roleIds[0] == roleId;
    }
    SameFound(slots, FreeAt(roleIds, start, end), FreeSlotOf(roleId, start, end));
    assert roleIds[1] == AboveAll(slots) && roleIds[1] in roleIds;
  }

  /** The count is right for every request at a time exactly when no two free slots of that time are of one role. */
  lemma CountIsRightWithoutDuplicates(slots: seq<Slot>, start: Instant, end: Instant)
    ensures CountIsRight(slots, start, end) <==> FreeSlotsDiffer(slots, start, end)
  {
    if FreeSlotsDiffer(slots, start, end) {
      forall roleIds: seq<Id> | Distinct(roleIds)
        ensures |Find(slots, FreeAt(roleIds, start, end))| == |roleIds|
           <==> forall roleId :: roleId in roleIds ==> HasFreeSlot(slots, roleId, start, end)
      {
        FreeRolesAreRequested(slots, roleIds, start, end);
        FreeRolesAreDistinct(slots, roleIds, start, end);
        Pigeonhole(FreeRoles(slots, roleIds, start, end), roleIds);
      }
    } else {
      var i, j :| 0 <= i < j < |slots| && IsFreeAt(slots[i], start, end) && IsFreeAt(slots[j], start, end)
        && slots[i].role == slots[j].role;
      DuplicatesFoolTheCount(slots, i, j, start, end);
    }
  }

  /** A witness: role 2 has no slot, and the transaction commits with the two slots of role 1. */
  lemma TwoSlotsForOneRole()
    ensures var slots := [Slot(1, 0, 60000, 1, None, None), Slot(2, 0, 60000, 1, None, None)];
      var (after, booking) := Transaction(slots, 7, [1, 2], 0, 60000, true);
      booking == Booked && forall slot :: slot in after ==> slot.role == 1
  {
    var slots := [Slot(1, 0, 60000, 1, None, None), Slot(2, 0, 60000, 1, None, None)];
    assert Cancelled(slots, 7) == slots;
    FindAllOrNothing(slots, FreeAt([1, 2], 0, 60000));
  }
}

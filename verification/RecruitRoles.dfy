/** Role selection: `selectRoles` reuses an applicant's rows in rank order. */
module RecruitRoles {
  import opened Options
  import opened Rows
  import opened Counting
  import opened StableSort
  import opened RecruitData

  function Rank(): ApplicantRole -> int {
    (row: ApplicantRole) => row.rank
  }

  /** The applicant's rows, ordered by rank. */
  function SelectedByRank(roles: seq<ApplicantRole>, applicant: Id): seq<ApplicantRole> {
    SortBy(Find(roles, OfApplicant(applicant)), Rank())
  }

  /** These are the applicant's rows, each as often as in the table, by ascending rank. */
  lemma RowsByRank(roles: seq<ApplicantRole>, applicant: Id)
    ensures multiset(SelectedByRank(roles, applicant)) == multiset(Find(roles, OfApplicant(applicant)))
    ensures forall row :: row in SelectedByRank(roles, applicant) <==> row in roles && row.applicant == applicant
    ensures forall i, j :: 0 <= i < j < |SelectedByRank(roles, applicant)| ==>
      SelectedByRank(roles, applicant)[i].rank <= SelectedByRank(roles, applicant)[j].rank
  {
    var own, selected := Find(roles, OfApplicant(applicant)), SelectedByRank(roles, applicant);
    SortMembers(own, Rank());
    SortOrders(own, Rank());
    forall i, j | 0 <= i < j < |selected| ensures selected[i].rank <= selected[j].rank {
      assert Rank()(selected[i]) <= Rank()(selected[j]);
    }
  }

  /** The row at a rank: the old row of that rank with a new role, keeping its offer, or a new row. */
  function RowAt(selected: seq<ApplicantRole>, applicant: Id, roleIds: seq<Id>, rank: nat, nextId: Id): ApplicantRole
    requires rank < |roleIds|
  {
    if rank < |selected| then selected[rank].(rank := rank, applicant := applicant, role := roleIds[rank])
    else ApplicantRole(nextId + rank, applicant, roleIds[rank], rank, None, false, None)
  }

  function Reconciled(selected: seq<ApplicantRole>, applicant: Id, roleIds: seq<Id>,
                      nextId: Id): (rows: seq<ApplicantRole>)
    ensures |rows| == |roleIds|
  {
    seq(|roleIds|, rank requires 0 <= rank < |roleIds| => RowAt(selected, applicant, roleIds, rank, nextId))
  }

  /**
   The transaction of `selectRoles`; a repeated role violates the unique key (applicant, role) and changes nothing.
  */
  function SelectRoles(db: Database, applicant: Id, roleIds: seq<Id>): Option<Database> {
    if !Distinct(roleIds) then None
    else
      var rows := Reconciled(SelectedByRank(db.roles, applicant), applicant, roleIds, db.nextId);
      Some(db.(roles := Find(db.roles, OfOthers(applicant)) + rows, nextId := db.nextId + |roleIds|))
  }

  /** `selectedRoles.map(...)` and the assignments to the row objects, one rank after the other. */
  method Reconcile(selected: seq<ApplicantRole>, applicant: Id, roleIds: seq<Id>, nextId: Id)
    returns (rows: seq<ApplicantRole>)
    ensures rows == Reconciled(selected, applicant, roleIds, nextId)
  {
    rows := [];
    for rank := 0 to |roleIds|
      invariant |rows| == rank
      invariant forall i :: 0 <= i < rank ==> rows[i] == RowAt(selected, applicant, roleIds, i, nextId)
    {
      var role := if rank < |selected| then selected[rank]
        else ApplicantRole(nextId + rank, applicant, roleIds[rank], rank, None, false, None);
      role := role.(rank := rank);
      role := role.(applicant := applicant);
      role := role.(role := roleIds[rank]);
      rows := rows + [role];
    }
  }

  ghost predicate SpellsRoles(before: seq<ApplicantRole>, after: seq<ApplicantRole>, roleIds: seq<Id>, nextId: Id) {
    && |after| == |roleIds|
    && (forall i :: 0 <= i < |roleIds| ==> after[i].role == roleIds[i] && after[i].rank == i)
    && (forall i :: 0 <= i < |roleIds| && i < |before| ==> after[i] == before[i].(rank := i, role := roleIds[i]))
    && (forall i :: |before| <= i < |roleIds| ==>
          && after[i].id == nextId + i && after[i].offerExpireAt.None?
          && after[i].offerResponseAt.None? && !after[i].offerAccepted)
  }

  /**
   After a selection the applicant's rows by rank spell the requested roles with ranks 0, 1, ...; the first rows keep
   their ids and offers, the others are new; every other applicant's rows are untouched.
  */
  lemma SelectionIsSpelled(db: Database, applicant: Id, roleIds: seq<Id>)
    requires Distinct(roleIds)
    ensures var after := SelectRoles(db, applicant, roleIds).value;
      && SpellsRoles(SelectedByRank(db.roles, applicant), SelectedByRank(after.roles, applicant), roleIds, db.nextId)
      && SelectedRoleIds(after, applicant) == roleIds
      && Find(after.roles, OfOthers(applicant)) == Find(db.roles, OfOthers(applicant))
      && (forall other :: other != applicant ==> SelectedRoleIds(after, other) == SelectedRoleIds(db, other))
      && after.slots == db.slots && after.answers == db.answers
  {
    OwnSelectionIsSpelled(db, applicant, roleIds);
    forall other | other != applicant
      ensures SelectedRoleIds(SelectRoles(db, applicant, roleIds).value, other) == SelectedRoleIds(db, other)
    {
      OthersSelectionStays(db, applicant, roleIds, other);
    }
  }

  lemma OwnSelectionIsSpelled(db: Database, applicant: Id, roleIds: seq<Id>)
    requires Distinct(roleIds)
    ensures var after := SelectRoles(db, applicant, roleIds).value;
      && SpellsRoles(SelectedByRank(db.roles, applicant), SelectedByRank(after.roles, applicant), roleIds, db.nextId)
      && SelectedRoleIds(after, applicant) == roleIds
      && Find(after.roles, OfOthers(applicant)) == Find(db.roles, OfOthers(applicant))
  {
    var rows := Reconciled(SelectedByRank(db.roles, applicant), applicant, roleIds, db.nextId);
    ReconciledRows(db, applicant, roleIds);
    RowsAfterSelection(Find(db.roles, OfOthers(applicant)), rows, applicant);
    RowsAreRead(SelectRoles(db, applicant, roleIds).value, applicant, rows, roleIds);
  }

  /** Rows with ascending ranks are read back in their order, and with their roles. */
  lemma RowsAreRead(db: Database, applicant: Id, rows: seq<ApplicantRole>, roleIds: seq<Id>)
    requires Find(db.roles, OfApplicant(applicant)) == rows && |rows| == |roleIds|
    requires forall i :: 0 <= i < |rows| ==> rows[i].role == roleIds[i] && rows[i].rank == i
    ensures SelectedByRank(db.roles, applicant) == rows
    ensures SelectedRoleIds(db, applicant) == roleIds
  {
    SortOfSorted(rows, Rank());
  }

  lemma OthersSelectionStays(db: Database, applicant: Id, roleIds: seq<Id>, other: Id)
    requires Distinct(roleIds) && other != applicant
    ensures SelectedRoleIds(SelectRoles(db, applicant, roleIds).value, other) == SelectedRoleIds(db, other)
  {
    var rows := Reconciled(SelectedByRank(db.roles, applicant), applicant, roleIds, db.nextId);
    ReconciledRows(db, applicant, roleIds);
    OthersAfterSelection(db, rows, applicant, other);
  }

  lemma OthersAfterSelection(db: Database, rows: seq<ApplicantRole>, applicant: Id, other: Id)
    requires other != applicant
    requires forall row :: row in rows ==> row.applicant == applicant
    ensures Find(Find(db.roles, OfOthers(applicant)) + rows, OfApplicant(other)) == Find(db.roles, OfApplicant(other))
  {
    FindConcat(Find(db.roles, OfOthers(applicant)), rows, OfApplicant(other));
    FindAllOrNothing(rows, OfApplicant(other));
    FindWithin(db.roles, OfOthers(applicant), OfApplicant(other));
  }

  lemma ReconciledRows(db: Database, applicant: Id, roleIds: seq<Id>)
    ensures var rows := Reconciled(SelectedByRank(db.roles, applicant), applicant, roleIds, db.nextId);
      && (forall row :: row in rows ==> row.applicant == applicant)
      && SpellsRoles(SelectedByRank(db.roles, applicant), rows, roleIds, db.nextId)
    ensures forall row :: row in SelectedByRank(db.roles, applicant) ==> row.applicant == applicant && row in db.roles
  {
    SortMembers(Find(db.roles, OfApplicant(applicant)), Rank());
    var before := SelectedByRank(db.roles, applicant);
    forall i | 0 <= i < |before| ensures before[i].applicant == applicant {
      assert before[i] in before;
    }
  }

  lemma RowsAfterSelection(others: seq<ApplicantRole>, rows: seq<ApplicantRole>, applicant: Id)
    requires forall row :: row in others ==> row.applicant != applicant
    requires forall row :: row in rows ==> row.applicant == applicant
    ensures Find(others + rows, OfApplicant(applicant)) == rows
    ensures Find(others + rows, OfOthers(applicant)) == others
  {
    FindConcat(others, rows, OfApplicant(applicant));
    FindConcat(others, rows, OfOthers(applicant));
    FindAllOrNothing(others, OfApplicant(applicant));
    FindAllOrNothing(rows, OfApplicant(applicant));
    FindAllOrNothing(others, OfOthers(applicant));
    FindAllOrNothing(rows, OfOthers(applicant));
  }

  /** Ids, and the pairs of applicant and role, are unique keys of the table. */
  ghost predicate UniqueRoles(roles: seq<ApplicantRole>) {
    forall i, j :: 0 <= i < j < |roles| ==> roles[i].id != roles[j].id && !SameRole(roles[i], roles[j])
  }

  ghost predicate SameRole(row: ApplicantRole, other: ApplicantRole) {
    row.applicant == other.applicant && row.role == other.role
  }

  lemma SelectedIdsDiffer(roles: seq<ApplicantRole>, applicant: Id)
    requires UniqueRoles(roles)
    ensures forall i, j :: 0 <= i < j < |SelectedByRank(roles, applicant)| ==>
      SelectedByRank(roles, applicant)[i].id != SelectedByRank(roles, applicant)[j].id
  {
    var differ := (a: ApplicantRole, b: ApplicantRole) => a.id != b.id;
    FindKeepsPairs(roles, OfApplicant(applicant), differ);
    SortKeepsPairs(Find(roles, OfApplicant(applicant)), Rank(), differ);
    var selected := SelectedByRank(roles, applicant);
    forall i, j | 0 <= i < j < |selected| ensures selected[i].id != selected[j].id {
      assert differ(selected[i], selected[j]);
    }
  }

  lemma OthersAreUnique(roles: seq<ApplicantRole>, applicant: Id)
    requires UniqueRoles(roles)
    ensures UniqueRoles(Find(roles, OfOthers(applicant)))
  {
    FindKeepsPairs(roles, OfOthers(applicant), (a: ApplicantRole, b: ApplicantRole) => a.id != b.id);
    FindKeepsPairs(roles, OfOthers(applicant),
                   (a: ApplicantRole, b: ApplicantRole) => !(a.applicant == b.applicant && a.role == b.role));
    var others := Find(roles, OfOthers(applicant));
    forall i, j | 0 <= i < j < |others| ensures others[i].id != others[j].id && !SameRole(others[i], others[j]) {
    }
  }

  lemma DifferentApplicants(roles: seq<ApplicantRole>, row: ApplicantRole, other: ApplicantRole)
    requires UniqueRoles(roles) && row in roles && other in roles && row.applicant != other.applicant
    ensures row.id != other.id
  {
  }

  /** The keys of a row written by a selection: the id of a row of the applicant, or a new one. */
  lemma ReconciledKeys(db: Database, applicant: Id, roleIds: seq<Id>, i: nat)
    requires i < |roleIds|
    ensures var before := SelectedByRank(db.roles, applicant);
      var row := Reconciled(before, applicant, roleIds, db.nextId)[i];
      && row.applicant == applicant && row.role == roleIds[i]
      && row.id == (if i < |before| then before[i].id else db.nextId + i)
      && (i < |before| ==> before[i] in db.roles && before[i].applicant == applicant)
  {
    ReconciledRows(db, applicant, roleIds);
    var before := SelectedByRank(db.roles, applicant);
    assert i < |before| ==> before[i] in before;
  }

  lemma ReconciledAreUnique(db: Database, applicant: Id, roleIds: seq<Id>)
    requires UniqueRoles(db.roles) && forall row :: row in db.roles ==> row.id < db.nextId
    requires Distinct(roleIds)
    ensures UniqueRoles(Reconciled(SelectedByRank(db.roles, applicant), applicant, roleIds, db.nextId))
  {
    var rows := Reconciled(SelectedByRank(db.roles, applicant), applicant, roleIds, db.nextId);
    SelectedIdsDiffer(db.roles, applicant);
    forall i, j | 0 <= i < j < |rows| ensures rows[i].id != rows[j].id && !SameRole(rows[i], rows[j]) {
      ReconciledKeys(db, applicant, roleIds, i);
      ReconciledKeys(db, applicant, roleIds, j);
    }
  }

  /** A selection keeps the keys of the table unique. */
  lemma SelectionKeepsUnique(db: Database, applicant: Id, roleIds: seq<Id>)
    requires UniqueRoles(db.roles) && forall row :: row in db.roles ==> row.id < db.nextId
    requires Distinct(roleIds)
    ensures UniqueRoles(SelectRoles(db, applicant, roleIds).value.roles)
    ensures forall row :: row in SelectRoles(db, applicant, roleIds).value.roles ==> row.id < db.nextId + |roleIds|
  {
    var before, others := SelectedByRank(db.roles, applicant), Find(db.roles, OfOthers(applicant));
    var rows := Reconciled(before, applicant, roleIds, db.nextId);
    OthersAreUnique(db.roles, applicant);
    ReconciledAreUnique(db, applicant, roleIds);
    forall row | row in rows ensures row.id < db.nextId + |roleIds| {
      var i :| 0 <= i < |rows| && rows[i] == row;
      ReconciledKeys(db, applicant, roleIds, i);
    }
    forall i, j | 0 <= i < |others| && 0 <= j < |rows|
      ensures others[i].id != rows[j].id && !SameRole(others[i], rows[j]) {
      OtherKeysDiffer(db, applicant, roleIds, others[i], j);
    }
    UniqueConcat(others, rows);
  }

  lemma OtherKeysDiffer(db: Database, applicant: Id, roleIds: seq<Id>, other: ApplicantRole, j: nat)
    requires UniqueRoles(db.roles) && forall row :: row in db.roles ==> row.id < db.nextId
    requires other in Find(db.roles, OfOthers(applicant)) && j < |roleIds|
    ensures var row := Reconciled(SelectedByRank(db.roles, applicant), applicant, roleIds, db.nextId)[j];
      other.id != row.id && !SameRole(other, row)
  {
    var before := SelectedByRank(db.roles, applicant);
    ReconciledKeys(db, applicant, roleIds, j);
    if j < |before| {
      DifferentApplicants(db.roles, other, before[j]);
    }
  }

  lemma UniqueConcat(first: seq<ApplicantRole>, second: seq<ApplicantRole>)
    requires UniqueRoles(first) && UniqueRoles(second)
    requires forall i, j :: 0 <= i < |first| && 0 <= j < |second| ==>
      first[i].id != second[j].id && !SameRole(first[i], second[j])
    ensures UniqueRoles(first + second)
  {
  }

  /** With unique keys an applicant wants no role twice exactly when no mandatory interview role was selected. */
  lemma WantedIsDistinct(cfg: Config, db: Database, recruitId: Id, applicant: Id)
    requires forall i, j :: 0 <= i < j < |cfg.roles| ==> cfg.roles[i].id != cfg.roles[j].id
    requires UniqueRoles(db.roles)
    ensures Distinct(Wanted(cfg, db, recruitId, applicant))
       <==> forall roleId :: roleId in MandatoryInterviewRoleIds(cfg, recruitId) ==>
         roleId !in SelectedRoleIds(db, applicant)
  {
    var mandatory, selected := MandatoryInterviewRoleIds(cfg, recruitId), SelectedRoleIds(db, applicant);
    MandatoryIsDistinct(cfg, recruitId);
    SelectedIsDistinct(db, applicant);
    DistinctConcat(mandatory, selected);
  }

  lemma MandatoryIsDistinct(cfg: Config, recruitId: Id)
    requires forall i, j :: 0 <= i < j < |cfg.roles| ==> cfg.roles[i].id != cfg.roles[j].id
    ensures Distinct(MandatoryInterviewRoleIds(cfg, recruitId))
  {
    var where := (role: Role) => role.recruitId == recruitId && role.mandatory && role.collection.None?;
    var found := Find(cfg.roles, where);
    FindKeepsPairs(cfg.roles, where, (a: Role, b: Role) => a.id != b.id);
    forall i, j | 0 <= i < j < |found|
      ensures MandatoryInterviewRoleIds(cfg, recruitId)[i] != MandatoryInterviewRoleIds(cfg, recruitId)[j]
    {
      assert found[i].id != found[j].id;
    }
  }

  lemma SelectedIsDistinct(db: Database, applicant: Id)
    requires UniqueRoles(db.roles)
    ensures Distinct(SelectedRoleIds(db, applicant))
  {
    var found := Find(db.roles, OfApplicant(applicant));
    var differ := (a: ApplicantRole, b: ApplicantRole) => !(a.applicant == b.applicant && a.role == b.role);
    FindKeepsPairs(db.roles, OfApplicant(applicant), differ);
    forall i, j | 0 <= i < j < |found| ensures SelectedRoleIds(db, applicant)[i] != SelectedRoleIds(db, applicant)[j] {
      assert differ(found[i], found[j]) && found[i] in found && found[j] in found;
    }
  }

  lemma DistinctConcat(first: seq<Id>, second: seq<Id>)
    requires Distinct(first) && Distinct(second)
    ensures Distinct(first + second) <==> forall id :: id in first ==> id !in second
  {
    var all := first + second;
    if Distinct(all) {
      forall id | id in first ensures id !in second {
        var i :| 0 <= i < |first| && first[i] == id;
        forall j | 0 <= j < |second| ensures second[j] != id {
          assert all[i] != all[|first| + j];
        }
      }
    }
    if forall id :: id in first ==> id !in second {
      forall i, j | 0 <= i < j < |all| ensures all[i] != all[j] {
        assert i < |first| ==> all[i] in first;
        assert |first| <= j ==> all[j] in second;
      }
    }
  }

  /**
   An offer stays with its row, not with its role: after a selection the row of rank i, with its offer, belongs to the
   role selected at rank i, and it is gone when fewer roles were selected. So the offer stays with its own role exactly
   when that role is selected at the same rank again.
  */
  lemma OffersFollowRanks(db: Database, applicant: Id, roleIds: seq<Id>, i: nat)
    requires UniqueRoles(db.roles) && forall row :: row in db.roles ==> row.id < db.nextId
    requires Distinct(roleIds) && i < |SelectedByRank(db.roles, applicant)|
    ensures var row, after := SelectedByRank(db.roles, applicant)[i], SelectRoles(db, applicant, roleIds).value;
      && (forall row' :: row' in after.roles && row'.id == row.id <==>
            i < |roleIds| && row' == row.(rank := i, role := roleIds[i]))
      && ((exists row' :: row' in after.roles && row'.id == row.id && row'.role == row.role) <==>
            i < |roleIds| && roleIds[i] == row.role)
  {
    var before, others := SelectedByRank(db.roles, applicant), Find(db.roles, OfOthers(applicant));
    var rows := Reconciled(before, applicant, roleIds, db.nextId);
    var row, after := before[i], SelectRoles(db, applicant, roleIds).value;
    assert row in before;
    ReconciledRows(db, applicant, roleIds);
    SelectedIdsDiffer(db.roles, applicant);
    forall row' | row' in others ensures row'.id != row.id {
      DifferentApplicants(db.roles, row', row);
    }
    forall j | 0 <= j < |rows| && j != i ensures rows[j].id != row.id {
      ReconciledKeys(db, applicant, roleIds, j);
    }
    if i < |roleIds| {
      assert rows[i] == row.(rank := i, role := roleIds[i]) && rows[i] in after.roles;
    }
  }
}

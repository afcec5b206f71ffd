/** What the requests of a recruitment do to its tables, told from the tables before and the request. */
module RecruitEffects {
  import opened Options
  import opened Rows
  import opened Counting
  import opened RecruitData
  import opened RecruitForm
  import opened RecruitBooking
  import opened RecruitBookingLaws
  import opened RecruitRebooking
  import opened RecruitSlots
  import opened RecruitRoles
  import opened RecruitOffers
  import opened RecruitRun

  // ----- selections and answers -----

  /** From the opening to the closing of the registration, both included, and if the database takes the rows. */
  ghost predicate IsAccepted(cfg: Config, applicant: Id, now: Instant, dbAccepts: bool)
    requires applicant in cfg.recruitOf && cfg.recruitOf[applicant] in cfg.settings
  {
    var setting := cfg.settings[cfg.recruitOf[applicant]];
    setting.openWhen <= now && now <= setting.closeWhen && dbAccepts
  }

  /** The table differs in what concerns this applicant's slots only by a rebooking of the changed tables. */
  ghost predicate IsRebooked(cfg: Config, changed: Database, after: Database, applicant: Id, later: Instant,
                             calendarOk: bool)
    requires applicant in cfg.recruitOf
  {
    after == RebookSlot(cfg, changed, cfg.recruitOf[applicant], applicant, later, calendarOk)
  }

  /** A selection outside the registration, of a role twice, or refused by the database, changes nothing at all. */
  lemma RefusedSelection(cfg: Config, db: Database, step: Step)
    requires IsKnown(cfg, step.request) && step.request.SelectRoles?
    requires !IsAccepted(cfg, step.request.applicant, step.now, step.request.dbAccepts)
      || !Distinct(step.request.roleIds)
    ensures Apply(cfg, db, step) == db
  {
  }

  /** Rank by rank, the applicant's rows spell the list; what the other applicants selected is as before. */
  ghost predicate StoresSelection(db: Database, db': Database, applicant: Id, roleIds: seq<Id>) {
    && SelectedRoleIds(db', applicant) == roleIds
    && SpellsRoles(SelectedByRank(db.roles, applicant), SelectedByRank(db'.roles, applicant), roleIds, db.nextId)
    && Find(db'.roles, OfOthers(applicant)) == Find(db.roles, OfOthers(applicant))
    && forall other :: other != applicant ==> SelectedRoleIds(db', other) == SelectedRoleIds(db, other)
  }

  /** Any other selection is stored, for this applicant only, and the booking is renewed for it. */
  lemma SelectionTakesEffect(cfg: Config, db: Database, step: Step)
    requires IsKnown(cfg, step.request) && step.request.SelectRoles?
    requires IsAccepted(cfg, step.request.applicant, step.now, step.request.dbAccepts) && Distinct(step.request.roleIds)
    ensures var a, after := step.request.applicant, Apply(cfg, db, step);
      && StoresSelection(db, after, a, step.request.roleIds)
      && IsRebooked(cfg, db.(roles := after.roles, nextId := after.nextId), after, a, step.later,
                    step.request.calendarOk)
  {
    var a := step.request.applicant;
    var changed := RecruitRoles.SelectRoles(db, a, step.request.roleIds).value;
    StoredSelectionIs(cfg, db, step.request, step.now, changed);
    RebookChangesSlotsOnly(cfg, changed, cfg.recruitOf[a], a, step.later, step.request.calendarOk);
    SameSelection(db, changed, Apply(cfg, db, step), a, step.request.roleIds);
  }

  lemma StoredSelectionIs(cfg: Config, db: Database, request: Request, now: Instant, changed: Database)
    requires IsKnown(cfg, request) && request.SelectRoles?
    requires IsAccepted(cfg, request.applicant, now, request.dbAccepts) && Distinct(request.roleIds)
    requires RecruitRoles.SelectRoles(db, request.applicant, request.roleIds) == Some(changed)
    ensures StoredSelection(cfg, db, request, now) == Some(changed)
    ensures StoresSelection(db, changed, request.applicant, request.roleIds)
    ensures changed == db.(roles := changed.roles, nextId := changed.nextId)
  {
    SelectionIsSpelled(db, request.applicant, request.roleIds);
  }

  lemma SameSelection(db: Database, changed: Database, after: Database, applicant: Id, roleIds: seq<Id>)
    requires StoresSelection(db, changed, applicant, roleIds) && after.roles == changed.roles
    ensures StoresSelection(db, after, applicant, roleIds)
  {
    forall other ensures SelectedRoleIds(after, other) == SelectedRoleIds(changed, other) {
    }
  }

  /**
   A batch outside the registration, one that keeps two answers to a question, or one refused by the database, does
   nothing.
  */
  lemma RefusedAnswers(cfg: Config, db: Database, step: Step)
    requires IsKnown(cfg, step.request) && step.request.AnswerForm?
    requires !IsAccepted(cfg, step.request.applicant, step.now, step.request.dbAccepts)
          || FindsTwice(step.request.batch, HasTwoUnitsLeft())
    ensures Apply(cfg, db, step) == db
  {
    RefusedBatch(db.answers, step.request.applicant, step.request.batch);
  }

  /** Any other batch is stored for this applicant only, and the booking is renewed for it. */
  lemma AnswersTakeEffect(cfg: Config, db: Database, step: Step)
    requires IsKnown(cfg, step.request) && step.request.AnswerForm?
    requires IsAccepted(cfg, step.request.applicant, step.now, step.request.dbAccepts)
    requires !FindsTwice(step.request.batch, HasTwoUnitsLeft())
    ensures var a, batch, after := step.request.applicant, step.request.batch, Apply(cfg, db, step);
      && StoresBatch(db.answers, after.answers, a, batch)
      && IsRebooked(cfg, db.(answers := after.answers), after, a, step.later, step.request.calendarOk)
  {
    var a, batch := step.request.applicant, step.request.batch;
    StoredBatch(db.answers, a, batch);
    var answers := UpdatedAnswers(db.answers, a, batch).value;
    StoredAnswersAre(cfg, db, step.request, step.now, answers);
    RebookChangesSlotsOnly(cfg, db.(answers := answers), cfg.recruitOf[a], a, step.later, step.request.calendarOk);
  }

  lemma StoredBatch(answers: Answers, applicant: Id, batch: seq<AnswerItem>)
    requires !FindsTwice(batch, HasTwoUnitsLeft())
    ensures var after := UpdatedAnswers(answers, applicant, batch);
      after.Some? && StoresBatch(answers, after.value, applicant, batch)
  {
    RefusedBatch(answers, applicant, batch);
    forall key: (Id, Id)
      ensures StoresKey(answers, UpdatedAnswers(answers, applicant, batch).value, applicant, batch, key)
    {
      BatchStoresKey(answers, applicant, batch, key);
    }
  }

  lemma StoredAnswersAre(cfg: Config, db: Database, request: Request, now: Instant, answers: Answers)
    requires IsKnown(cfg, request) && request.AnswerForm?
    requires IsAccepted(cfg, request.applicant, now, request.dbAccepts)
    requires UpdatedAnswers(db.answers, request.applicant, request.batch) == Some(answers)
    ensures StoredAnswers(cfg, db, request, now) == Some(db.(answers := answers))
  {
  }

  // ----- bookings and interviews -----

  ghost predicate OnlySlotRowsChanged(db: Database, db': Database) {
    && |db'.slots| == |db.slots|
    && db'.roles == db.roles && db'.answers == db.answers && db'.nextId == db.nextId
  }

  /** A booking at given times, row by row. */
  lemma BookTakesEffect(cfg: Config, db: Database, step: Step, i: nat)
    requires IsKnown(cfg, step.request) && step.request.Book? && step.request.start.Some? && step.request.end.Some?
    requires UniqueSlots(db.slots) && i < |db.slots|
    ensures var Book(a, start, end, calendarOk) := step.request;
      var recruitId, after := cfg.recruitOf[a], Apply(cfg, db, step);
      && OnlySlotRowsChanged(db, after)
      && after.slots[i]
         == if CanBookAt(cfg, db, recruitId, a, start.value, end.value, step.later, calendarOk)
            then RowIfBooked(db.slots[i], a, Wanted(cfg, db, recruitId, a), start.value, end.value) else db.slots[i]
  {
    var Book(a, start, end, calendarOk) := step.request;
    BookKeepsTable(cfg, db, cfg.recruitOf[a], a, start, end, step.later, calendarOk);
    RowAfterBooking(cfg, db, cfg.recruitOf[a], a, start.value, end.value, step.later, calendarOk, i);
  }

  lemma CancelTakesEffect(cfg: Config, db: Database, step: Step, i: nat)
    requires IsKnown(cfg, step.request) && step.request.Cancel? && i < |db.slots|
    ensures var slot, after := db.slots[i], Apply(cfg, db, step);
      && OnlySlotRowsChanged(db, after)
      && after.slots[i]
         == if slot.applicant == Some(step.request.applicant) && slot.interviewAt.None?
            then Slot(slot.id, slot.start, slot.end, slot.role, None, None) else slot
  {
    RowAfterCancelling(db.slots, step.request.applicant, i);
  }

  lemma MarksTakeEffect(cfg: Config, db: Database, step: Step)
    requires IsKnown(cfg, step.request) && (step.request.Mark? || step.request.Unmark?)
    ensures var a, isMark, after := step.request.applicant, step.request.Mark?, Apply(cfg, db, step);
      && OnlySlotRowsChanged(db, after)
      && if HasState(db.slots, a, !isMark)
         then InterviewsSet(db.slots, after.slots, a, if isMark then Some(step.later) else None)
         else after.slots == db.slots
  {
    MarkOutcome(db.slots, step.request.applicant, step.later);
    UnmarkOutcome(db.slots, step.request.applicant);
  }

  // ----- offers -----

  /** The rows with one of them answered or offered anew: those of other applicants and roles are as before. */
  ghost predicate RowIs(roles: seq<ApplicantRole>, roles': seq<ApplicantRole>, applicant: Id, roleId: Id,
                        responseAt: Option<Instant>, accepted: bool, expireAt: ApplicantRole -> Option<Instant>)
  {
    && |roles'| == |roles|
    && forall i :: 0 <= i < |roles| ==>
         var row := roles[i];
         roles'[i] == if row.applicant == applicant && row.role == roleId
                      then ApplicantRole(row.id, row.applicant, row.role, row.rank, responseAt, accepted, expireAt(row))
                      else row
  }

  ghost function SameExpiry(): ApplicantRole -> Option<Instant> {
    (row: ApplicantRole) => row.offerExpireAt
  }

  ghost function NewExpiry(expireAt: Option<Instant>): ApplicantRole -> Option<Instant> {
    (row: ApplicantRole) => expireAt
  }

  lemma OneRowIs(roles: seq<ApplicantRole>, roles': seq<ApplicantRole>, k: nat, responseAt: Option<Instant>,
                 accepted: bool, expireAt: ApplicantRole -> Option<Instant>)
    requires UniqueRoles(roles) && k < |roles|
    requires roles'
      == roles[k := ApplicantRole(roles[k].id, roles[k].applicant, roles[k].role, roles[k].rank, responseAt,
                                                accepted, expireAt(roles[k]))]
    ensures RowIs(roles, roles', roles[k].applicant, roles[k].role, responseAt, accepted, expireAt)
  {
    forall i | 0 <= i < |roles| && i != k ensures !SameRole(roles[i], roles[k]) {
      assert if i < k then !SameRole(roles[i], roles[k]) else !SameRole(roles[k], roles[i]);
    }
  }

  /** A decision is recorded in the row of the role if it is open, offered and not expired, and nowhere else. */
  lemma DecideTakesEffect(cfg: Config, db: Database, step: Step)
    requires IsKnown(cfg, step.request) && step.request.Decide? && step.now <= step.later
    requires UniqueRoles(db.roles) && AtMostOneAccepted(db.roles)
    ensures var Decide(a, roleId, accepted) := step.request;
      var after, announceWhen := Apply(cfg, db, step), cfg.settings[cfg.recruitOf[a]].announceWhen;
      && after == db.(roles := after.roles)
      && if announceWhen <= step.now && !(accepted && HasAccepted(db.roles, a))
            && IsOfferedUntil(db.roles, a, roleId, step.later)
         then RowIs(db.roles, after.roles, a, roleId, Some(step.later), accepted, SameExpiry())
         else after.roles == db.roles
  {
    var Decide(a, roleId, accepted) := step.request;
    var setting := SettingOf(cfg, a);
    DecisionOutcome(setting, db.roles, a, roleId, accepted, step.now, step.later);
    DecisionKeepsOffers(setting, db.roles, a, roleId, accepted, step.now, step.later);
    var (roles, decision) := DecideOffer(setting, db.roles, a, roleId, accepted, step.now, step.later);
    if decision == Decided {
      var k :| 0 <= k < |db.roles| && db.roles[k].applicant == a && db.roles[k].role == roleId
        && roles == db.roles[k := db.roles[k].(offerAccepted := accepted, offerResponseAt := Some(step.later))];
      OneRowIs(db.roles, roles, k, Some(step.later), accepted, SameExpiry());
    }
  }

  /** An offer is made or withdrawn in the row of the role if the applicant selected it, and nowhere else. */
  lemma OfferTakesEffect(cfg: Config, db: Database, step: Step)
    requires IsKnown(cfg, step.request) && step.request.Offer?
    requires UniqueRoles(db.roles) && AtMostOneAccepted(db.roles)
    ensures var Offer(a, roleId, expireAt) := step.request;
      var after := Apply(cfg, db, step);
      && after == db.(roles := after.roles)
      && RowIs(db.roles, after.roles, a, roleId, None, false, NewExpiry(expireAt))
  {
    var Offer(a, roleId, expireAt) := step.request;
    OfferOutcome(db.roles, a, roleId, expireAt);
    OfferKeepsOffers(db.roles, a, roleId, expireAt);
    var (roles, found) := OfferRole(db.roles, a, roleId, expireAt);
    if found {
      var k :| 0 <= k < |db.roles| && db.roles[k].applicant == a && db.roles[k].role == roleId
        && roles == db.roles[k := db.roles[k].(offerExpireAt := expireAt, offerResponseAt := None,
                                               offerAccepted := false)];
      OneRowIs(db.roles, roles, k, None, false, NewExpiry(expireAt));
    } else {
      forall i | 0 <= i < |db.roles| ensures !(db.roles[i].applicant == a && db.roles[i].role == roleId) {
        assert db.roles[i] in db.roles;
      }
    }
  }
}

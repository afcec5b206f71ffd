/** Whole recruitments: every request that changes a table, served one after the other while the clock advances. */
module RecruitRun {
  import opened Options
  import opened Rows
  import opened Counting
  import opened RecruitData
  import opened RecruitForm
  import opened RecruitBooking
  import opened RecruitBookingLaws
  import opened RecruitRebooking
  import opened RecruitInterviews
  import opened RecruitSlots
  import opened RecruitRoles
  import opened RecruitOffers

  /**
   `dbAccepts` is false when a constraint of the database rejects the transaction, `calendarOk` when the calendar fails.
  */
  datatype Request =
    | SelectRoles(applicant: Id, roleIds: seq<Id>, dbAccepts: bool, calendarOk: bool)
    | AnswerForm(applicant: Id, batch: seq<AnswerItem>, dbAccepts: bool, calendarOk: bool)
    | Book(applicant: Id, start: Option<Instant>, end: Option<Instant>, calendarOk: bool)
    | Cancel(applicant: Id)
    | Mark(applicant: Id)
    | Unmark(applicant: Id)
    | Decide(applicant: Id, roleId: Id, accepted: bool)
    | Offer(applicant: Id, roleId: Id, expireAt: Option<Instant>)
    | AddSlots(from: Instant, to: Instant, roleIds: seq<Id>)
    | RemoveSlots(from: Instant, to: Instant, roleIds: seq<Id>)

  /** A request with two readings of the clock: when it is admitted and when it takes effect. */
  datatype Step = Step(request: Request, now: Instant, later: Instant)

  /** Every applicant's recruitment has a setting whose dates passed `validateDateOrder`. */
  ghost predicate WellFormed(cfg: Config) {
    forall applicant :: applicant in cfg.recruitOf ==>
      && cfg.recruitOf[applicant] in cfg.settings
      && var setting := cfg.settings[cfg.recruitOf[applicant]];
         IsDateOrder(setting.openWhen, setting.closeWhen, setting.announceWhen)
  }

  function SettingOf(cfg: Config, applicant: Id): Setting
    requires applicant in cfg.recruitOf && cfg.recruitOf[applicant] in cfg.settings
  {
    cfg.settings[cfg.recruitOf[applicant]]
  }

  predicate IsKnown(cfg: Config, request: Request) {
    !request.AddSlots? && !request.RemoveSlots? ==>
      request.applicant in cfg.recruitOf && cfg.recruitOf[request.applicant] in cfg.settings
  }

  /** What the transaction of a selection stores, if registration is open and the database accepts it. */
  function StoredSelection(cfg: Config, db: Database, request: Request, now: Instant): Option<Database>
    requires request.SelectRoles? && IsKnown(cfg, request)
  {
    if !IsRegistrationOpen(SettingOf(cfg, request.applicant), now) || !request.dbAccepts then None
    else RecruitRoles.SelectRoles(db, request.applicant, request.roleIds)
  }

  function StoredAnswers(cfg: Config, db: Database, request: Request, now: Instant): Option<Database>
    requires request.AnswerForm? && IsKnown(cfg, request)
  {
    if !IsRegistrationOpen(SettingOf(cfg, request.applicant), now) || !request.dbAccepts then None
    else match UpdatedAnswers(db.answers, request.applicant, request.batch)
      case None => None
      case Some(answers) => Some(db.(answers := answers))
  }

  /** Once a change is stored, the booking is renewed. */
  function Rebooked(cfg: Config, db: Database, stored: Option<Database>, applicant: Id, later: Instant,
                    calendarOk: bool): Database
    requires applicant in cfg.recruitOf
  {
    match stored
    case None => db
    case Some(changed) => RebookSlot(cfg, changed, cfg.recruitOf[applicant], applicant, later, calendarOk)
  }

  function SelectAndRebook(cfg: Config, db: Database, request: Request, now: Instant, later: Instant): Database
    requires request.SelectRoles? && IsKnown(cfg, request)
  {
    Rebooked(cfg, db, StoredSelection(cfg, db, request, now), request.applicant, later, request.calendarOk)
  }

  function AnswerAndRebook(cfg: Config, db: Database, request: Request, now: Instant, later: Instant): Database
    requires request.AnswerForm? && IsKnown(cfg, request)
  {
    Rebooked(cfg, db, StoredAnswers(cfg, db, request, now), request.applicant, later, request.calendarOk)
  }

  function Apply(cfg: Config, db: Database, step: Step): Database
    requires IsKnown(cfg, step.request)
  {
    match step.request
    case SelectRoles(_, _, _, _) => SelectAndRebook(cfg, db, step.request, step.now, step.later)
    case AnswerForm(_, _, _, _) => AnswerAndRebook(cfg, db, step.request, step.now, step.later)
    case Book(a, start, end, calendarOk) => BookSlot(cfg, db, cfg.recruitOf[a], a, start, end, step.later, calendarOk).0
    case Cancel(a) => db.(slots := Cancelled(db.slots, a))
    case Mark(a) => db.(slots := MarkInterviewed(db.slots, a, step.later).0)
    case Unmark(a) => db.(slots := UnmarkInterviewed(db.slots, a).0)
    case Decide(a, roleId, accepted) =>
      db.(roles := DecideOffer(SettingOf(cfg, a), db.roles, a, roleId, accepted, step.now, step.later).0)
    case Offer(a, roleId, expireAt) => db.(roles := OfferRole(db.roles, a, roleId, expireAt).0)
    case AddSlots(from, to, roleIds) => AddSlot(db, from, to, roleIds)
    case RemoveSlots(from, to, roleIds) => db.(slots := RemoveSlot(db.slots, from, to, roleIds).0)
  }

  /**
   The used slots are the booking of these roles, one slot for each mandatory and each of these, with all forms filled
   in.
  */
  ghost predicate FitsUsedSlots(cfg: Config, db: Database, applicant: Id, roleIds: seq<Id>)
    requires applicant in cfg.recruitOf
  {
    var recruitId := cfg.recruitOf[applicant];
    var wanted := MandatoryInterviewRoleIds(cfg, recruitId) + roleIds;
    && roleIds != [] && Distinct(wanted)
    && (exists start, end :: HeldKeys(db.slots, applicant) == KeysAt(wanted, start, end))
    && forall c :: c in FormsFor(cfg, recruitId, roleIds) ==> IsFilledIn(cfg, db.answers, applicant, c)
  }

  /** After the batch every form that the applicant needs is filled in. */
  ghost predicate CompletesForms(cfg: Config, db: Database, applicant: Id, batch: seq<AnswerItem>)
    requires applicant in cfg.recruitOf
  {
    forall c :: c in FormCollections(cfg, db, cfg.recruitOf[applicant], applicant) ==>
      WillBeFilledIn(cfg, db.answers, applicant, batch, c)
  }

  /** The booking is possible with a time that is not given taken over from the first slot that the applicant holds. */
  ghost predicate CanBookTaking(cfg: Config, db: Database, applicant: Id, start: Option<Instant>, end: Option<Instant>,
                                now: Instant, calendarOk: bool)
    requires applicant in cfg.recruitOf
  {
    exists k: nat :: IsFirstHeld(db.slots, applicant, k)
      && CanBookAt(cfg, db, cfg.recruitOf[applicant], applicant, GivenOr(start, db.slots[k].start),
                   GivenOr(end, db.slots[k].end), now, calendarOk)
  }

  /** What has to be checked before a request so that it leaves every booking complete. */
  ghost predicate KeepsBookings(cfg: Config, db: Database, step: Step)
    requires IsKnown(cfg, step.request)
  {
    match step.request
    case SelectRoles(a, roleIds, _, _) =>
      || StoredSelection(cfg, db, step.request, step.now).None?
      || NotInterviewed(db.slots, a)
      || FitsUsedSlots(cfg, db, a, roleIds)
    case AnswerForm(a, batch, _, _) =>
      || StoredAnswers(cfg, db, step.request, step.now).None?
      || NotInterviewed(db.slots, a)
      || CompletesForms(cfg, db, a, batch)
    case Book(a, start, end, calendarOk) =>
      || NotInterviewed(db.slots, a)
      || (start.None? && end.None?)
      || !CanBookTaking(cfg, db, a, start, end, step.later, calendarOk)
    case AddSlots(from, to, roleIds) => AreNewKeys(db.slots, from, to, roleIds)
    case _ => true
  }

  // ----- the two invariants -----

  ghost predicate EveryoneSettled(cfg: Config, db: Database) {
    && UniqueSlots(db.slots)
    && CleanSlots(db.slots)
    && forall applicant :: applicant in cfg.recruitOf ==> Settled(cfg, db, cfg.recruitOf[applicant], applicant)
  }

  ghost predicate ProperOffers(cfg: Config, db: Database, clock: Instant) {
    && UniqueRoles(db.roles)
    && AtMostOneAccepted(db.roles)
    && forall row :: row in db.roles ==>
         && row.id < db.nextId
         && row.applicant in cfg.recruitOf && cfg.recruitOf[row.applicant] in cfg.settings
         && ProperResponse(SettingOf(cfg, row.applicant), row, clock)
  }

  lemma EmptyTables(cfg: Config, clock: Instant)
    ensures EveryoneSettled(cfg, Database([], [], map[], 0)) && ProperOffers(cfg, Database([], [], map[], 0), clock)
  {
  }

  // ----- bookings -----

  lemma RebookChangesSlotsOnly(cfg: Config, db: Database, recruitId: Id, applicant: Id, now: Instant, calendarOk: bool)
    ensures OnlySlotsChanged(db, RebookSlot(cfg, db, recruitId, applicant, now, calendarOk))
  {
    BookKeepsTable(cfg, db, recruitId, applicant, None, None, now, calendarOk);
  }

  /** Tables in which only one applicant's roles or answers changed. */
  ghost predicate IsOwnChange(db: Database, changed: Database, applicant: Id) {
    && changed.slots == db.slots
    && (forall other :: other != applicant ==> SelectedRoleIds(changed, other) == SelectedRoleIds(db, other))
    && (forall other, question :: other != applicant ==>
          (Answered(changed.answers, other, question) <==> Answered(db.answers, other, question)))
  }

  lemma RebookBeforeInterview(cfg: Config, db: Database, changed: Database, applicant: Id, now: Instant,
                              calendarOk: bool)
    requires EveryoneSettled(cfg, db) && applicant in cfg.recruitOf && NotInterviewed(db.slots, applicant)
    requires IsOwnChange(db, changed, applicant)
    ensures EveryoneSettled(cfg, RebookSlot(cfg, changed, cfg.recruitOf[applicant], applicant, now, calendarOk))
  {
    var recruitId := cfg.recruitOf[applicant];
    SettledIsAtOneTime(cfg, db, recruitId, applicant);
    RebookSettles(cfg, changed, recruitId, applicant, now, calendarOk);
    RebookKeepsClean(cfg, changed, recruitId, applicant, now, calendarOk);
    var after := RebookSlot(cfg, changed, recruitId, applicant, now, calendarOk);
    forall other | other in cfg.recruitOf ensures Settled(cfg, after, cfg.recruitOf[other], other) {
      if other != applicant {
        SettledFrame(cfg, db, after, cfg.recruitOf[other], other);
      }
    }
  }

  lemma RebookInterviewed(cfg: Config, db: Database, changed: Database, applicant: Id, now: Instant, calendarOk: bool)
    requires EveryoneSettled(cfg, db) && applicant in cfg.recruitOf && !NotInterviewed(db.slots, applicant)
    requires IsOwnChange(db, changed, applicant)
    ensures EveryoneSettled(cfg, RebookSlot(cfg, changed, cfg.recruitOf[applicant], applicant, now, calendarOk))
       <==> Settled(cfg, changed, cfg.recruitOf[applicant], applicant)
  {
    var recruitId := cfg.recruitOf[applicant];
    var held :| held in db.slots && held.applicant == Some(applicant) && held.interviewAt.Some?;
    SettledIsAtOneTime(cfg, db, recruitId, applicant);
    RebookAfterInterview(cfg, changed, recruitId, applicant, now, calendarOk, held);
    if Settled(cfg, changed, recruitId, applicant) {
      forall other | other in cfg.recruitOf ensures Settled(cfg, changed, cfg.recruitOf[other], other) {
        if other != applicant {
          SettledFrame(cfg, db, changed, cfg.recruitOf[other], other);
        }
      }
    }
  }

  /**
   A change of one applicant's roles or answers, followed by a rebooking, leaves everyone settled exactly when it is
   made before the interview or the used slots are a booking of the changed roles and forms.
  */
  lemma RebookAfterChange(cfg: Config, db: Database, changed: Database, applicant: Id, now: Instant, calendarOk: bool)
    requires EveryoneSettled(cfg, db) && applicant in cfg.recruitOf && IsOwnChange(db, changed, applicant)
    ensures EveryoneSettled(cfg, RebookSlot(cfg, changed, cfg.recruitOf[applicant], applicant, now, calendarOk))
       <==> NotInterviewed(db.slots, applicant) || Settled(cfg, changed, cfg.recruitOf[applicant], applicant)
  {
    if NotInterviewed(db.slots, applicant) {
      RebookBeforeInterview(cfg, db, changed, applicant, now, calendarOk);
    } else {
      RebookInterviewed(cfg, db, changed, applicant, now, calendarOk);
    }
  }

  /** A change of the slot table that leaves all held slots as they are. */
  lemma SlotsFrame(cfg: Config, db: Database, after: Database)
    requires EveryoneSettled(cfg, db)
    requires UniqueSlots(after.slots) && CleanSlots(after.slots)
    requires forall applicant :: HeldKeys(after.slots, applicant) == HeldKeys(db.slots, applicant)
    requires after.answers == db.answers
    requires forall applicant :: SelectedRoleIds(after, applicant) == SelectedRoleIds(db, applicant)
    ensures EveryoneSettled(cfg, after)
  {
    forall applicant | applicant in cfg.recruitOf ensures Settled(cfg, after, cfg.recruitOf[applicant], applicant) {
      SettledFrame(cfg, db, after, cfg.recruitOf[applicant], applicant);
    }
  }

  /** Being settled after a selection, told from the tables before it and the selected roles. */
  lemma SettledSelection(cfg: Config, db: Database, applicant: Id, roleIds: seq<Id>)
    requires applicant in cfg.recruitOf && Distinct(roleIds) && HeldKeys(db.slots, applicant) != {}
    ensures Settled(cfg, RecruitRoles.SelectRoles(db, applicant, roleIds).value, cfg.recruitOf[applicant], applicant)
       <==> FitsUsedSlots(cfg, db, applicant, roleIds)
  {
    var recruitId, selected := cfg.recruitOf[applicant], RecruitRoles.SelectRoles(db, applicant, roleIds).value;
    var wanted := MandatoryInterviewRoleIds(cfg, recruitId) + roleIds;
    SelectionIsSpelled(db, applicant, roleIds);
    FormIsCompleted(cfg, selected, recruitId, applicant);
    assert Wanted(cfg, selected, recruitId, applicant) == wanted;
    if FitsUsedSlots(cfg, db, applicant, roleIds) {
      var start, end :| HeldKeys(db.slots, applicant) == KeysAt(wanted, start, end);
      assert IsBooking(cfg, selected, recruitId, applicant, start, end);
    }
  }

  /** Being settled after a batch, told from the tables before it and the batch. */
  lemma SettledAnswers(cfg: Config, db: Database, applicant: Id, batch: seq<AnswerItem>)
    requires applicant in cfg.recruitOf && UpdatedAnswers(db.answers, applicant, batch).Some?
    requires Settled(cfg, db, cfg.recruitOf[applicant], applicant) && HeldKeys(db.slots, applicant) != {}
    ensures Settled(cfg, db.(answers := UpdatedAnswers(db.answers, applicant, batch).value), cfg.recruitOf[applicant],
                    applicant)
       <==> CompletesForms(cfg, db, applicant, batch)
  {
    var recruitId := cfg.recruitOf[applicant];
    var changed := db.(answers := UpdatedAnswers(db.answers, applicant, batch).value);
    FormIsCompleted(cfg, changed, recruitId, applicant);
    forall c ensures IsFilledIn(cfg, changed.answers, applicant, c)
                <==> WillBeFilledIn(cfg, db.answers, applicant, batch, c) {
      FilledInAfterBatch(cfg, db.answers, applicant, batch, c);
    }
    var start, end :| IsBooking(cfg, db, recruitId, applicant, start, end);
    if CompletesForms(cfg, db, applicant, batch) {
      assert IsBooking(cfg, changed, recruitId, applicant, start, end);
    }
  }

  lemma HoldsUsedSlot(slots: seq<Slot>, applicant: Id)
    requires !NotInterviewed(slots, applicant)
    ensures HeldKeys(slots, applicant) != {}
  {
    var used :| used in slots && used.applicant == Some(applicant) && used.interviewAt.Some?;
    assert KeyOf(used) in HeldKeys(slots, applicant);
  }

  lemma SelectKeepsSettled(cfg: Config, db: Database, step: Step)
    requires EveryoneSettled(cfg, db) && IsKnown(cfg, step.request) && step.request.SelectRoles?
    ensures EveryoneSettled(cfg, Apply(cfg, db, step)) <==> KeepsBookings(cfg, db, step)
  {
    var request := step.request;
    match StoredSelection(cfg, db, request, step.now)
    case None =>
    case Some(selected) =>
      SelectionIsSpelled(db, request.applicant, request.roleIds);
      RebookAfterChange(cfg, db, selected, request.applicant, step.later, request.calendarOk);
      if !NotInterviewed(db.slots, request.applicant) {
        HoldsUsedSlot(db.slots, request.applicant);
        SettledSelection(cfg, db, request.applicant, request.roleIds);
      }
  }

  lemma AnswerKeepsSettled(cfg: Config, db: Database, step: Step)
    requires EveryoneSettled(cfg, db) && IsKnown(cfg, step.request) && step.request.AnswerForm?
    ensures EveryoneSettled(cfg, Apply(cfg, db, step)) <==> KeepsBookings(cfg, db, step)
  {
    var request := step.request;
    match StoredAnswers(cfg, db, request, step.now)
    case None =>
    case Some(changed) =>
      OnlyOwnAnswersChange(db.answers, request.applicant, request.batch);
      RebookAfterChange(cfg, db, changed, request.applicant, step.later, request.calendarOk);
      if !NotInterviewed(db.slots, request.applicant) {
        HoldsUsedSlot(db.slots, request.applicant);
        SettledAnswers(cfg, db, request.applicant, request.batch);
      }
  }

  lemma OnlyOwnAnswersChange(answers: Answers, applicant: Id, batch: seq<AnswerItem>)
    requires UpdatedAnswers(answers, applicant, batch).Some?
    ensures forall other, question :: other != applicant ==>
      Answered(UpdatedAnswers(answers, applicant, batch).value, other, question) == Answered(answers, other, question)
  {
  }

  lemma CancelKeepsSettled(cfg: Config, db: Database, applicant: Id)
    requires EveryoneSettled(cfg, db)
    ensures EveryoneSettled(cfg, db.(slots := Cancelled(db.slots, applicant)))
  {
    var after := db.(slots := Cancelled(db.slots, applicant));
    CancelKeys(db.slots, applicant);
    CancelKeepsClean(db.slots, applicant);
    UniqueInTable(db.slots, after.slots);
    forall other | other in cfg.recruitOf ensures Settled(cfg, after, cfg.recruitOf[other], other) {
      if other != applicant {
        SettledFrame(cfg, db, after, cfg.recruitOf[other], other);
      }
    }
  }

  lemma BookKeepsEveryoneSettled(cfg: Config, db: Database, step: Step)
    requires EveryoneSettled(cfg, db) && IsKnown(cfg, step.request) && step.request.Book?
    ensures EveryoneSettled(cfg, Apply(cfg, db, step)) <==> KeepsBookings(cfg, db, step)
  {
    var Book(a, start, end, calendarOk) := step.request;
    var recruitId, after := cfg.recruitOf[a], Apply(cfg, db, step);
    BookKeepsTable(cfg, db, recruitId, a, start, end, step.later, calendarOk);
    if NotInterviewed(db.slots, a) {
      BookKeepsSettled(cfg, db, recruitId, a, start, end, step.later, calendarOk);
      BookKeepsClean(cfg, db, recruitId, a, start, end, step.later, calendarOk);
      forall other | other in cfg.recruitOf ensures Settled(cfg, after, cfg.recruitOf[other], other) {
        if other != a {
          SettledFrame(cfg, db, after, cfg.recruitOf[other], other);
        }
      }
    } else {
      BookInterviewed(cfg, db, a, start, end, step.later, calendarOk);
    }
  }

  lemma BookInterviewed(cfg: Config, db: Database, applicant: Id, start: Option<Instant>, end: Option<Instant>,
                        now: Instant, calendarOk: bool)
    requires EveryoneSettled(cfg, db) && applicant in cfg.recruitOf && !NotInterviewed(db.slots, applicant)
    ensures EveryoneSettled(cfg, BookSlot(cfg, db, cfg.recruitOf[applicant], applicant, start, end, now, calendarOk).0)
       <==> (start.None? && end.None?) || !CanBookTaking(cfg, db, applicant, start, end, now, calendarOk)
  {
    var recruitId := cfg.recruitOf[applicant];
    HoldsUsedSlot(db.slots, applicant);
    BookKeepsTable(cfg, db, recruitId, applicant, start, end, now, calendarOk);
    if start.None? && end.None? {
      SettledReportsSameSlot(cfg, db, recruitId, applicant, now, calendarOk);
    } else {
      var k := SomeFirstHeld(db.slots, applicant);
      var s, e := GivenOr(start, db.slots[k].start), GivenOr(end, db.slots[k].end);
      OneTimeTakenOver(cfg, db, recruitId, applicant, k, start, end, now, calendarOk);
      BookInterviewedAt(cfg, db, applicant, s, e, now, calendarOk);
      OneFirstHeld(db.slots, applicant, k);
      assert CanBookTaking(cfg, db, applicant, start, end, now, calendarOk)
        <==> CanBookAt(cfg, db, recruitId, applicant, s, e, now, calendarOk);
    }
  }

  lemma OneFirstHeld(slots: seq<Slot>, applicant: Id, k: nat)
    requires IsFirstHeld(slots, applicant, k)
    ensures forall i: nat :: IsFirstHeld(slots, applicant, i) ==> i == k
  {
  }

  lemma BookInterviewedAt(cfg: Config, db: Database, applicant: Id, start: Instant, end: Instant, now: Instant,
                          calendarOk: bool)
    requires EveryoneSettled(cfg, db) && applicant in cfg.recruitOf && !NotInterviewed(db.slots, applicant)
    ensures EveryoneSettled(cfg, BookSlot(cfg, db, cfg.recruitOf[applicant], applicant, Some(start), Some(end), now,
                                          calendarOk).0)
       <==> !CanBookAt(cfg, db, cfg.recruitOf[applicant], applicant, start, end, now, calendarOk)
  {
    var recruitId := cfg.recruitOf[applicant];
    BookKeepsTable(cfg, db, recruitId, applicant, Some(start), Some(end), now, calendarOk);
    BookingSucceeds(cfg, db, recruitId, applicant, start, end, now, calendarOk);
    if CanBookAt(cfg, db, recruitId, applicant, start, end, now, calendarOk) {
      BookingAfterInterview(cfg, db, recruitId, applicant, Some(start), Some(end), now, calendarOk);
    }
  }

  lemma MarkKeepsSettled(cfg: Config, db: Database, applicant: Id, at: Option<Instant>)
    requires EveryoneSettled(cfg, db)
    ensures EveryoneSettled(cfg, db.(slots := Updated(db.slots, HeldBy(applicant), SetInterview(at))))
  {
    MarkKeepsSlots(db.slots, applicant, at);
    SlotsFrame(cfg, db, db.(slots := Updated(db.slots, HeldBy(applicant), SetInterview(at))));
  }

  lemma AddKeepsSettled(cfg: Config, db: Database, from: Instant, to: Instant, roleIds: seq<Id>)
    requires EveryoneSettled(cfg, db)
    ensures EveryoneSettled(cfg, AddSlot(db, from, to, roleIds)) <==> AreNewKeys(db.slots, from, to, roleIds)
  {
    AddKeepsSlots(db, from, to, roleIds);
    if AreNewKeys(db.slots, from, to, roleIds) {
      SlotsFrame(cfg, db, AddSlot(db, from, to, roleIds));
    }
  }

  lemma RemoveKeepsSettled(cfg: Config, db: Database, from: Instant, to: Instant, roleIds: seq<Id>)
    requires EveryoneSettled(cfg, db)
    ensures EveryoneSettled(cfg, db.(slots := RemoveSlot(db.slots, from, to, roleIds).0))
  {
    RemoveKeepsSlots(db.slots, from, to, roleIds);
    SlotsFrame(cfg, db, db.(slots := RemoveSlot(db.slots, from, to, roleIds).0));
  }

  /** Decisions and offers change neither slots nor answers nor which roles are selected. */
  lemma OfferStepKeepsSettled(cfg: Config, db: Database, step: Step)
    requires EveryoneSettled(cfg, db) && IsKnown(cfg, step.request) && (step.request.Decide? || step.request.Offer?)
    ensures EveryoneSettled(cfg, Apply(cfg, db, step))
  {
    var after := Apply(cfg, db, step);
    OfferStepFrame(cfg, db, step);
    forall applicant: Id ensures SelectedRoleIds(after, applicant) == SelectedRoleIds(db, applicant) {
      SelectedFrame(db.roles, after.roles, applicant);
    }
    SlotsFrame(cfg, db, after);
  }

  lemma OfferStepFrame(cfg: Config, db: Database, step: Step)
    requires IsKnown(cfg, step.request) && (step.request.Decide? || step.request.Offer?)
    ensures var after := Apply(cfg, db, step);
      && after.slots == db.slots && after.answers == db.answers && |after.roles| == |db.roles|
      && forall i :: 0 <= i < |db.roles| ==>
           after.roles[i].applicant == db.roles[i].applicant && after.roles[i].role == db.roles[i].role
  {
  }

  /** Exactly the requests that pass the check leave every applicant with a complete booking or with none. */
  lemma StepKeepsSettled(cfg: Config, db: Database, step: Step)
    requires EveryoneSettled(cfg, db) && IsKnown(cfg, step.request)
    ensures EveryoneSettled(cfg, Apply(cfg, db, step)) <==> KeepsBookings(cfg, db, step)
  {
    match step.request
    case SelectRoles(_, _, _, _) => SelectKeepsSettled(cfg, db, step);
    case AnswerForm(_, _, _, _) => AnswerKeepsSettled(cfg, db, step);
    case Book(_, _, _, _) => BookKeepsEveryoneSettled(cfg, db, step);
    case Cancel(a) => CancelKeepsSettled(cfg, db, a);
    case Mark(a) => MarkKeepsSettled(cfg, db, a, Some(step.later));
    case Unmark(a) => MarkKeepsSettled(cfg, db, a, None);
    case Decide(_, _, _) => OfferStepKeepsSettled(cfg, db, step);
    case Offer(_, _, _) => OfferStepKeepsSettled(cfg, db, step);
    case AddSlots(from, to, roleIds) => AddKeepsSettled(cfg, db, from, to, roleIds);
    case RemoveSlots(from, to, roleIds) => RemoveKeepsSettled(cfg, db, from, to, roleIds);
  }

  // ----- offers -----

  /** While registration is open nobody can have responded: responses come after the announcement. */
  lemma NoResponseWhileOpen(cfg: Config, db: Database, clock: Instant, applicant: Id, now: Instant, row: ApplicantRole)
    requires WellFormed(cfg) && ProperOffers(cfg, db, clock) && clock <= now
    requires applicant in cfg.recruitOf && IsRegistrationOpen(SettingOf(cfg, applicant), now)
    requires row in db.roles && row.applicant == applicant
    ensures row.offerResponseAt.None? && !row.offerAccepted
  {
  }

  /** A selection made while registration is open. */
  lemma SelectionKeepsOffers(cfg: Config, db: Database, clock: Instant, applicant: Id, roleIds: seq<Id>, now: Instant)
    requires WellFormed(cfg) && ProperOffers(cfg, db, clock) && clock <= now
    requires applicant in cfg.recruitOf && IsRegistrationOpen(SettingOf(cfg, applicant), now)
    requires Distinct(roleIds)
    ensures ProperOffers(cfg, RecruitRoles.SelectRoles(db, applicant, roleIds).value, clock)
    ensures RespondedRowsStay(db.roles, RecruitRoles.SelectRoles(db, applicant, roleIds).value.roles)
  {
    var before, others := SelectedByRank(db.roles, applicant), Find(db.roles, OfOthers(applicant));
    var rows := Reconciled(before, applicant, roleIds, db.nextId);
    var after := RecruitRoles.SelectRoles(db, applicant, roleIds).value;
    SelectionKeepsUnique(db, applicant, roleIds);
    ReconciledRows(db, applicant, roleIds);
    SelectedRowsAreOpen(cfg, db, clock, applicant, roleIds, now);
    assert forall row :: row in after.roles <==> row in others || row in rows;
    OthersStayAccepted(db.roles, others, rows, applicant);
    forall row | row in db.roles && row.offerResponseAt.Some? ensures row in after.roles {
      if row.applicant == applicant {
        NoResponseWhileOpen(cfg, db, clock, applicant, now, row);
      }
    }
  }

  lemma SelectedRowsAreOpen(cfg: Config, db: Database, clock: Instant, applicant: Id, roleIds: seq<Id>, now: Instant)
    requires WellFormed(cfg) && ProperOffers(cfg, db, clock) && clock <= now
    requires applicant in cfg.recruitOf && IsRegistrationOpen(SettingOf(cfg, applicant), now)
    ensures forall row :: row in Reconciled(SelectedByRank(db.roles, applicant), applicant, roleIds, db.nextId) ==>
      row.applicant == applicant && row.offerResponseAt.None? && !row.offerAccepted
  {
    var before := SelectedByRank(db.roles, applicant);
    var rows := Reconciled(before, applicant, roleIds, db.nextId);
    ReconciledRows(db, applicant, roleIds);
    forall row | row in rows ensures row.applicant == applicant && row.offerResponseAt.None? && !row.offerAccepted {
      var i :| 0 <= i < |rows| && rows[i] == row;
      if i < |before| {
        assert before[i] in before;
        NoResponseWhileOpen(cfg, db, clock, applicant, now, before[i]);
      }
    }
  }

  lemma OthersStayAccepted(roles: seq<ApplicantRole>, others: seq<ApplicantRole>, rows: seq<ApplicantRole>,
                           applicant: Id)
    requires AtMostOneAccepted(roles) && others == Find(roles, OfOthers(applicant))
    requires forall row :: row in rows ==> !row.offerAccepted
    ensures AtMostOneAccepted(others + rows)
  {
    FindKeepsPairs(roles, OfOthers(applicant),
                   (a: ApplicantRole, b: ApplicantRole) => !(a.applicant == b.applicant && a.offerAccepted
                                                             && b.offerAccepted));
    var all := others + rows;
    forall i, j | 0 <= i < j < |all| && all[i].applicant == all[j].applicant
      ensures !(all[i].offerAccepted && all[j].offerAccepted) {
      if |others| <= j {
        assert all[j] in rows;
      }
    }
  }

  lemma ClockAdvances(cfg: Config, db: Database, clock: Instant, later: Instant)
    requires ProperOffers(cfg, db, clock) && clock <= later
    ensures ProperOffers(cfg, db, later)
  {
  }

  lemma OneRowKeepsOffers(cfg: Config, db: Database, roles: seq<ApplicantRole>, clock: Instant, k: nat)
    requires ProperOffers(cfg, db, clock)
    requires k < |db.roles| && |roles| == |db.roles| && roles == db.roles[k := roles[k]]
    requires roles[k].id == db.roles[k].id && SameRole(roles[k], db.roles[k])
    requires AtMostOneAccepted(roles)
    requires db.roles[k].applicant in cfg.recruitOf && cfg.recruitOf[db.roles[k].applicant] in cfg.settings ==>
      ProperResponse(SettingOf(cfg, db.roles[k].applicant), roles[k], clock)
    ensures ProperOffers(cfg, db.(roles := roles), clock)
    ensures RespondedRowsStay(db.roles, roles)
  {
    RowReplaced(db.roles, roles, k);
    forall row | row in roles ensures row == roles[k] || row in db.roles {
    }
    assert db.roles[k] in db.roles;
  }

  lemma DecideKeepsOffers(cfg: Config, db: Database, clock: Instant, step: Step)
    requires ProperOffers(cfg, db, clock) && clock <= step.now <= step.later && IsKnown(cfg, step.request)
    requires step.request.Decide?
    ensures ProperOffers(cfg, Apply(cfg, db, step), step.later)
    ensures RespondedRowsStay(db.roles, Apply(cfg, db, step).roles)
  {
    var Decide(a, roleId, accepted) := step.request;
    var setting := SettingOf(cfg, a);
    ClockAdvances(cfg, db, clock, step.later);
    DecisionKeepsOffers(setting, db.roles, a, roleId, accepted, step.now, step.later);
    var (roles, decision) := DecideOffer(setting, db.roles, a, roleId, accepted, step.now, step.later);
    if decision == Decided {
      var k :| 0 <= k < |db.roles| && db.roles[k].applicant == a && db.roles[k].role == roleId
        && db.roles[k].offerExpireAt.Some? && setting.announceWhen <= step.later <= db.roles[k].offerExpireAt.value
        && roles == db.roles[k := db.roles[k].(offerAccepted := accepted, offerResponseAt := Some(step.later))];
      OneRowKeepsOffers(cfg, db, roles, step.later, k);
    }
  }

  lemma OfferKeepsOffersInRun(cfg: Config, db: Database, clock: Instant, step: Step)
    requires ProperOffers(cfg, db, clock) && clock <= step.now <= step.later && IsKnown(cfg, step.request)
    requires step.request.Offer?
    ensures ProperOffers(cfg, Apply(cfg, db, step), step.later)
    ensures RespondedRowsStay(db.roles, Apply(cfg, db, step).roles)
  {
    var Offer(a, roleId, expireAt) := step.request;
    ClockAdvances(cfg, db, clock, step.later);
    OfferedRowKeepsOffers(cfg, db, a, roleId, expireAt, step.later);
    OfferStepIs(cfg, db, step);
  }

  lemma OfferStepIs(cfg: Config, db: Database, step: Step)
    requires IsKnown(cfg, step.request) && step.request.Offer?
    ensures Apply(cfg, db, step)
         == db.(roles := OfferRole(db.roles, step.request.applicant, step.request.roleId, step.request.expireAt).0)
  {
  }

  lemma OfferedRowKeepsOffers(cfg: Config, db: Database, applicant: Id, roleId: Id, expireAt: Option<Instant>,
                              clock: Instant)
    requires ProperOffers(cfg, db, clock)
    ensures var roles := OfferRole(db.roles, applicant, roleId, expireAt).0;
      && ProperOffers(cfg, db.(roles := roles), clock)
      && RespondedRowsStay(db.roles, roles)
  {
    OfferKeepsOffers(db.roles, applicant, roleId, expireAt);
    var (roles, found) := OfferRole(db.roles, applicant, roleId, expireAt);
    if found {
      var k :| 0 <= k < |db.roles| && db.roles[k].applicant == applicant && db.roles[k].role == roleId
        && roles == db.roles[k := db.roles[k].(offerExpireAt := expireAt, offerResponseAt := None,
                                               offerAccepted := false)];
      OneRowKeepsOffers(cfg, db, roles, clock, k);
    }
  }

  lemma RowReplaced(roles: seq<ApplicantRole>, roles': seq<ApplicantRole>, k: nat)
    requires k < |roles| && |roles'| == |roles| && roles' == roles[k := roles'[k]]
    requires roles'[k].id == roles[k].id && SameRole(roles'[k], roles[k])
    ensures UniqueRoles(roles) ==> UniqueRoles(roles')
    ensures RespondedRowsStay(roles, roles')
  {
    forall row | row in roles
      ensures exists row' ::
        row' in roles' && row'.id == row.id && row'.applicant == row.applicant && row'.role == row.role
    {
      var i :| 0 <= i < |roles| && roles[i] == row;
      assert roles'[i] in roles';
    }
  }

  lemma {:induction false} SelectedFrame(roles: seq<ApplicantRole>, roles': seq<ApplicantRole>, applicant: Id)
    requires |roles'| == |roles|
    requires forall i :: 0 <= i < |roles| ==> SameRole(roles'[i], roles[i])
    ensures Column(Find(roles', OfApplicant(applicant)), (row: ApplicantRole) => row.role)
         == Column(Find(roles, OfApplicant(applicant)), (row: ApplicantRole) => row.role)
  {
    if roles == [] {
    } else {
      SelectedFrame(roles[..|roles| - 1], roles'[..|roles| - 1], applicant);
      assert SameRole(roles'[|roles| - 1], roles[|roles| - 1]);
    }
  }

  /** Every request keeps the offers proper, and no row with a response is removed or given to another role. */
  lemma StepKeepsOffers(cfg: Config, db: Database, clock: Instant, step: Step)
    requires WellFormed(cfg) && ProperOffers(cfg, db, clock)
    requires clock <= step.now <= step.later && IsKnown(cfg, step.request)
    ensures ProperOffers(cfg, Apply(cfg, db, step), step.later)
    ensures RespondedRowsStay(db.roles, Apply(cfg, db, step).roles)
  {
    ClockAdvances(cfg, db, clock, step.later);
    match step.request {
      case SelectRoles(_, _, _, _) => SelectKeepsOffers(cfg, db, clock, step);
      case AnswerForm(_, _, _, _) => AnswerKeepsRoles(cfg, db, step);
      case Book(a, start, end, calendarOk) =>
        BookKeepsTable(cfg, db, cfg.recruitOf[a], a, start, end, step.later, calendarOk);
      case Decide(_, _, _) => DecideKeepsOffers(cfg, db, clock, step);
      case Offer(_, _, _) => OfferKeepsOffersInRun(cfg, db, clock, step);
      case _ =>
    }
  }

  lemma AnswerKeepsRoles(cfg: Config, db: Database, step: Step)
    requires IsKnown(cfg, step.request) && step.request.AnswerForm?
    ensures Apply(cfg, db, step).roles == db.roles && Apply(cfg, db, step).nextId == db.nextId
  {
    var request := step.request;
    match StoredAnswers(cfg, db, request, step.now)
    case None =>
    case Some(changed) =>
      RebookChangesSlotsOnly(cfg, changed, cfg.recruitOf[request.applicant], request.applicant, step.later,
                             request.calendarOk);
  }

  lemma SelectKeepsOffers(cfg: Config, db: Database, clock: Instant, step: Step)
    requires WellFormed(cfg) && ProperOffers(cfg, db, clock) && clock <= step.now <= step.later
    requires IsKnown(cfg, step.request) && step.request.SelectRoles?
    ensures ProperOffers(cfg, Apply(cfg, db, step), step.later)
    ensures RespondedRowsStay(db.roles, Apply(cfg, db, step).roles)
  {
    var request, a := step.request, step.request.applicant;
    ClockAdvances(cfg, db, clock, step.later);
    match StoredSelection(cfg, db, request, step.now) {
      case None =>
      case Some(selected) =>
        SelectionKeepsOffers(cfg, db, clock, a, request.roleIds, step.now);
        ClockAdvances(cfg, selected, clock, step.later);
        RebookChangesSlotsOnly(cfg, selected, cfg.recruitOf[a], a, step.later, request.calendarOk);
    }
  }

  // ----- whole runs -----

  predicate AllKnown(cfg: Config, steps: seq<Step>) {
    forall step :: step in steps ==> IsKnown(cfg, step.request)
  }

  /** The tables after the first `n` requests. */
  function State(cfg: Config, initial: Database, steps: seq<Step>, n: nat): Database
    requires n <= |steps| && AllKnown(cfg, steps)
  {
    if n == 0 then initial else Apply(cfg, State(cfg, initial, steps, n - 1), steps[n - 1])
  }

  lemma NextState(cfg: Config, initial: Database, steps: seq<Step>, n: nat)
    requires n < |steps| && AllKnown(cfg, steps)
    ensures State(cfg, initial, steps, n + 1) == Apply(cfg, State(cfg, initial, steps, n), steps[n])
  {
  }

  // ----- bookings in runs -----

  ghost predicate SettledAt(cfg: Config, initial: Database, steps: seq<Step>, n: nat)
    requires n <= |steps| && AllKnown(cfg, steps)
  {
    EveryoneSettled(cfg, State(cfg, initial, steps, n))
  }

  ghost predicate KeepsBookingsAt(cfg: Config, initial: Database, steps: seq<Step>, n: nat)
    requires n < |steps| && AllKnown(cfg, steps)
  {
    KeepsBookings(cfg, State(cfg, initial, steps, n), steps[n])
  }

  lemma NextIsSettled(cfg: Config, initial: Database, steps: seq<Step>, n: nat)
    requires n < |steps| && AllKnown(cfg, steps) && SettledAt(cfg, initial, steps, n)
    ensures SettledAt(cfg, initial, steps, n + 1) <==> KeepsBookingsAt(cfg, initial, steps, n)
  {
    StepKeepsSettled(cfg, State(cfg, initial, steps, n), steps[n]);
    NextState(cfg, initial, steps, n);
  }

  ghost predicate SettledUpTo(cfg: Config, initial: Database, steps: seq<Step>, n: nat)
    requires n <= |steps| && AllKnown(cfg, steps)
  {
    SettledAt(cfg, initial, steps, n) && (n > 0 ==> SettledUpTo(cfg, initial, steps, n - 1))
  }

  /** The first `n` requests pass the check. */
  ghost predicate KeepBookingsUpTo(cfg: Config, initial: Database, steps: seq<Step>, n: nat)
    requires n <= |steps| && AllKnown(cfg, steps)
  {
    n > 0 ==> KeepsBookingsAt(cfg, initial, steps, n - 1) && KeepBookingsUpTo(cfg, initial, steps, n - 1)
  }

  lemma SettledAtStart(cfg: Config, initial: Database, steps: seq<Step>)
    requires AllKnown(cfg, steps) && EveryoneSettled(cfg, initial)
    ensures SettledUpTo(cfg, initial, steps, 0)
  {
    assert SettledAt(cfg, initial, steps, 0);
  }

  lemma SettledUpToNext(cfg: Config, initial: Database, steps: seq<Step>, n: nat)
    requires n < |steps| && AllKnown(cfg, steps)
    requires SettledUpTo(cfg, initial, steps, n) <==> KeepBookingsUpTo(cfg, initial, steps, n)
    ensures SettledUpTo(cfg, initial, steps, n + 1) <==> KeepBookingsUpTo(cfg, initial, steps, n + 1)
  {
    if SettledUpTo(cfg, initial, steps, n) {
      NextIsSettled(cfg, initial, steps, n);
    }
  }

  /** Everyone is settled throughout a run exactly when each of its requests passes the check. */
  lemma {:induction false} RunsStaySettled(cfg: Config, initial: Database, steps: seq<Step>, n: nat)
    requires n <= |steps| && AllKnown(cfg, steps) && EveryoneSettled(cfg, initial)
    ensures SettledUpTo(cfg, initial, steps, n) <==> KeepBookingsUpTo(cfg, initial, steps, n)
  {
    if n == 0 {
      SettledAtStart(cfg, initial, steps);
    } else {
      RunsStaySettled(cfg, initial, steps, n - 1);
      SettledUpToNext(cfg, initial, steps, n - 1);
    }
  }

  /**
   After any number of requests that pass the check, an applicant who holds a slot holds exactly one for each mandatory
   and each selected role, all at one time, with all forms completed.
  */
  lemma BookingsAreComplete(cfg: Config, initial: Database, steps: seq<Step>, n: nat, applicant: Id)
    requires n <= |steps| && AllKnown(cfg, steps) && EveryoneSettled(cfg, initial)
    requires KeepBookingsUpTo(cfg, initial, steps, n) && applicant in cfg.recruitOf
    ensures var db := State(cfg, initial, steps, n);
      var held, wanted := Find(db.slots, HeldBy(applicant)), Wanted(cfg, db, cfg.recruitOf[applicant], applicant);
      held != [] ==>
        && |held| == |wanted|
        && (forall roleId :: roleId in wanted ==> |Find(db.slots, HeldForRole(applicant, roleId))| == 1)
        && (forall slot :: slot in held ==> slot.start == held[0].start && slot.end == held[0].end)
        && IsFormCompleted(cfg, db, cfg.recruitOf[applicant], applicant)
        && SelectedRoleIds(db, applicant) != []
  {
    RunsStaySettled(cfg, initial, steps, n);
    assert SettledAt(cfg, initial, steps, n);
    var db := State(cfg, initial, steps, n);
    var held, recruitId := Find(db.slots, HeldBy(applicant)), cfg.recruitOf[applicant];
    if held != [] {
      assert held[0] in held;
      assert KeyOf(held[0]) in HeldKeys(db.slots, applicant);
      var start, end :| IsBooking(cfg, db, recruitId, applicant, start, end);
      OneSlotPerRole(cfg, db, recruitId, applicant, start, end);
    }
  }

  // ----- offers in runs -----

  function Clock(begin: Instant, steps: seq<Step>, n: nat): Instant
    requires n <= |steps|
  {
    if n == 0 then begin else steps[n - 1].later
  }

  /** The clock does not run backwards. */
  ghost predicate IsInTime(begin: Instant, steps: seq<Step>) {
    forall n: nat :: n < |steps| ==> Clock(begin, steps, n) <= steps[n].now <= steps[n].later
  }

  ghost predicate ProperAt(cfg: Config, initial: Database, begin: Instant, steps: seq<Step>, n: nat)
    requires n <= |steps| && AllKnown(cfg, steps)
  {
    ProperOffers(cfg, State(cfg, initial, steps, n), Clock(begin, steps, n))
  }

  lemma NextIsProper(cfg: Config, initial: Database, begin: Instant, steps: seq<Step>, n: nat)
    requires WellFormed(cfg) && n < |steps| && AllKnown(cfg, steps) && IsInTime(begin, steps)
    requires ProperAt(cfg, initial, begin, steps, n)
    ensures ProperAt(cfg, initial, begin, steps, n + 1)
    ensures RespondedRowsStay(State(cfg, initial, steps, n).roles, State(cfg, initial, steps, n + 1).roles)
  {
    StepKeepsOffers(cfg, State(cfg, initial, steps, n), Clock(begin, steps, n), steps[n]);
    NextState(cfg, initial, steps, n);
  }

  lemma ProperAtStart(cfg: Config, initial: Database, begin: Instant, steps: seq<Step>)
    requires AllKnown(cfg, steps) && ProperOffers(cfg, initial, begin)
    ensures ProperAt(cfg, initial, begin, steps, 0)
  {
  }

  /** Offers stay proper in every run, whatever happens to the bookings. */
  lemma {:induction false} RunsStayProper(cfg: Config, initial: Database, begin: Instant, steps: seq<Step>, n: nat)
    requires WellFormed(cfg) && n <= |steps| && AllKnown(cfg, steps) && IsInTime(begin, steps)
    requires ProperOffers(cfg, initial, begin)
    ensures ProperAt(cfg, initial, begin, steps, n)
  {
    if n == 0 {
      ProperAtStart(cfg, initial, begin, steps);
    } else {
      RunsStayProper(cfg, initial, begin, steps, n - 1);
      NextIsProper(cfg, initial, begin, steps, n - 1);
    }
  }

  /**
   In any run every applicant has accepted at most one role, accepted rows and responses carry proper times,
   and the next request leaves a row that has a response with its applicant and role.
  */
  lemma OffersAreProper(cfg: Config, initial: Database, begin: Instant, steps: seq<Step>, n: nat)
    requires WellFormed(cfg) && n <= |steps| && AllKnown(cfg, steps) && IsInTime(begin, steps)
    requires ProperOffers(cfg, initial, begin)
    ensures var db := State(cfg, initial, steps, n);
      && AtMostOneAccepted(db.roles)
      && (forall row :: row in db.roles ==>
            && (row.offerAccepted ==> row.offerResponseAt.Some?)
            && (row.offerResponseAt.Some? ==>
              row.offerExpireAt.Some? && row.offerResponseAt.value <= row.offerExpireAt.value))
      && (n < |steps| ==> RespondedRowsStay(db.roles, State(cfg, initial, steps, n + 1).roles))
  {
    RunsStayProper(cfg, initial, begin, steps, n);
    if n < |steps| {
      NextIsProper(cfg, initial, begin, steps, n);
    }
  }
}

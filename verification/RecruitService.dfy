/** The recruitment services as they run: one row after the other, with a snapshot restored when a transaction fails. */
module RecruitService {
  import opened Options
  import opened Rows
  import opened Counting
  import opened RecruitData
  import opened RecruitForm
  import opened RecruitBooking
  import opened RecruitSlots
  import opened RecruitRoles
  import opened RecruitOffers
  import opened RecruitRun

  class Service {
    const cfg: Config
    var slots: seq<Slot>
    var roles: seq<ApplicantRole>
    var answers: Answers
    var nextId: Id

    ghost function Db(): Database
      reads this
    {
      Database(slots, roles, answers, nextId)
    }

    constructor (cfg: Config)
      ensures this.cfg == cfg && Db() == Database([], [], map[], 0)
    {
      this.cfg, slots, roles, answers, nextId := cfg, [], [], map[], 0;
    }

    // ----- interview slots -----

    /** Tells whether a slot was released. */
    method CancelSlot(applicant: Id) returns (cancelled: bool)
      modifies this`slots
      ensures slots == Cancelled(old(slots), applicant)
      ensures cancelled <==> exists slot :: slot in old(slots) && Cancellable(applicant)(slot)
    {
      var affected;
      slots, affected := Update(slots, Cancellable(applicant), Release());
      cancelled := affected > 0;
      assert affected > 0 ==> Find(old(slots), Cancellable(applicant))[0] in Find(old(slots), Cancellable(applicant));
    }

    method BookSlot(recruitId: Id, applicant: Id, start: Option<Instant>, end: Option<Instant>, now: Instant,
                    calendarOk: bool)
      returns (booking: Booking)
      modifies this`slots
      ensures (Db(), booking)
        == RecruitBooking.BookSlot(cfg, old(Db()), recruitId, applicant, start, end, now, calendarOk)
    {
      var db := Database(slots, roles, answers, nextId);
      var selectedSlots := Find(slots, HeldBy(applicant));
      var selectedRoleIds := SelectedRoleIds(db, applicant);
      var roleIds := MandatoryInterviewRoleIds(cfg, recruitId) + selectedRoleIds;
      var startWhen, endWhen := StartOf(selectedSlots, start), EndOf(selectedSlots, end);
      if startWhen.None? || endWhen.None? {
        return Refused(MissingTime);
      }
      if |selectedRoleIds| == 0 {
        return Refused(NoSelectedRoles);
      }
      if !IsFormCompleted(cfg, db, recruitId, applicant) {
        return Refused(FormsIncomplete);
      }
      if IsRebookSameSlot(selectedSlots, roleIds, start.None? && end.None?) {
        return SameSlot;
      }
      if !IsValidLeadTime(startWhen.value, now, cfg.leadTimeHours) {
        return Refused(TooLate);
      }
      booking := Book(applicant, roleIds, startWhen.value, endWhen.value, calendarOk);
    }

    /** The transaction: an error restores the slots as they were when it began. */
    method Book(applicant: Id, roleIds: seq<Id>, start: Instant, end: Instant, calendarOk: bool)
      returns (booking: Booking)
      modifies this`slots
      ensures (slots, booking) == Transaction(old(slots), applicant, roleIds, start, end, calendarOk)
    {
      var snapshot, affected := slots, 0;
      var _ := CancelSlot(applicant);
      slots, affected := Update(slots, FreeAt(roleIds, start, end), AssignTo(applicant));
      if affected != |roleIds| {
        slots := snapshot;
        return Refused(NotAvailable);
      }
      if !calendarOk {
        slots := snapshot;
        return Refused(CalendarFailed);
      }
      booking := Booked;
    }

    method RebookSlot(recruitId: Id, applicant: Id, now: Instant, calendarOk: bool)
      modifies this`slots
      ensures Db() == RecruitBooking.RebookSlot(cfg, old(Db()), recruitId, applicant, now, calendarOk)
    {
      var booking := BookSlot(recruitId, applicant, None, None, now, calendarOk);
      if booking.Refused? {
        var _ := CancelSlot(applicant);
      }
    }

    method AddSlot(start: Instant, end: Instant, roleIds: seq<Id>)
      modifies this`slots, this`nextId
      ensures Db() == RecruitSlots.AddSlot(old(Db()), start, end, roleIds)
    {
      for i := 0 to |roleIds|
        invariant slots == old(slots) + NewSlots(start, end, roleIds, old(nextId))[..i]
        invariant nextId == old(nextId) + i
      {
        slots, nextId := slots + [Slot(nextId, start, end, roleIds[i], None, None)], nextId + 1;
      }
    }

    method RemoveSlot(start: Instant, end: Instant, roleIds: seq<Id>) returns (removed: bool)
      modifies this`slots
      ensures (slots, removed) == RecruitSlots.RemoveSlot(old(slots), start, end, roleIds)
    {
      removed := !exists slot :: slot in Find(slots, SlotsAt(roleIds, start, end)) && slot.applicant.Some?;
      if removed {
        slots := Find(slots, SlotsNotAt(roleIds, start, end));
      }
    }

    /** Without an instant the marks are removed. The result is `None` when the slots are in that state already. */
    method SetInterviewed(applicant: Id, at: Option<Instant>) returns (affected: Option<nat>)
      modifies this`slots
      ensures (slots, affected.Some?)
           == if at.Some? then MarkInterviewed(old(slots), applicant, at.value)
             else UnmarkInterviewed(old(slots), applicant)
      ensures affected.Some? ==> affected.value == |Find(old(slots), HeldBy(applicant))|
    {
      var existing := Find(slots, if at.Some? then Interviewed(applicant) else Cancellable(applicant));
      if |existing| > 0 {
        return None;
      }
      var count;
      slots, count := Update(slots, HeldBy(applicant), SetInterview(at));
      affected := Some(count);
    }

    // ----- roles, forms and offers -----

    /** False when the registration is closed or the database refuses the rows. */
    method SelectRoles(applicant: Id, roleIds: seq<Id>, now: Instant, later: Instant, dbAccepts: bool, calendarOk: bool)
      returns (selected: bool)
      requires IsKnown(cfg, Request.SelectRoles(applicant, roleIds, dbAccepts, calendarOk))
      modifies this
      ensures Db()
        == SelectAndRebook(cfg, old(Db()), Request.SelectRoles(applicant, roleIds, dbAccepts, calendarOk), now, later)
      ensures selected <==> IsRegistrationOpen(SettingOf(cfg, applicant), now) && dbAccepts && Distinct(roleIds)
    {
      if !IsRegistrationOpen(SettingOf(cfg, applicant), now) {
        return false;
      }
      selected := SaveRoles(applicant, roleIds, dbAccepts);
      if selected {
        RebookSlot(cfg.recruitOf[applicant], applicant, later, calendarOk);
      }
    }

    /** The transaction: a refused row restores all rows. */
    method SaveRoles(applicant: Id, roleIds: seq<Id>, dbAccepts: bool) returns (saved: bool)
      modifies this`roles, this`nextId
      ensures saved <==> dbAccepts && RecruitRoles.SelectRoles(old(Db()), applicant, roleIds).Some?
      ensures Db() == if saved then RecruitRoles.SelectRoles(old(Db()), applicant, roleIds).value else old(Db())
    {
      var snapshot, snapshotId := roles, nextId;
      var updatedRoles := Reconcile(SelectedByRank(roles, applicant), applicant, roleIds, nextId);
      roles, nextId := Find(roles, OfOthers(applicant)) + updatedRoles, nextId + |roleIds|;
      saved := dbAccepts && Distinct(roleIds);
      if !saved {
        roles, nextId := snapshot, snapshotId;
      }
    }

    method UpdateFormAnswers(applicant: Id, batch: seq<AnswerItem>, now: Instant, later: Instant, dbAccepts: bool,
                             calendarOk: bool)
      returns (stored: bool)
      requires IsKnown(cfg, AnswerForm(applicant, batch, dbAccepts, calendarOk))
      modifies this
      ensures Db() == AnswerAndRebook(cfg, old(Db()), AnswerForm(applicant, batch, dbAccepts, calendarOk), now, later)
      ensures stored <==>
        && IsRegistrationOpen(SettingOf(cfg, applicant), now) && dbAccepts
        && UpdatedAnswers(old(answers), applicant, batch).Some?
    {
      if !IsRegistrationOpen(SettingOf(cfg, applicant), now) {
        return false;
      }
      stored := StoreAnswers(applicant, batch, dbAccepts);
      if stored {
        RebookSlot(cfg.recruitOf[applicant], applicant, later, calendarOk);
      }
    }

    /** The transaction: one upsert, which must not meet a question twice, and one deletion. */
    method StoreAnswers(applicant: Id, batch: seq<AnswerItem>, dbAccepts: bool) returns (stored: bool)
      modifies this`answers
      ensures stored <==> dbAccepts && UpdatedAnswers(old(answers), applicant, batch).Some?
      ensures answers == if stored then UpdatedAnswers(old(answers), applicant, batch).value else old(answers)
    {
      var snapshot := answers;
      var kept, dropped := GroupAnswers(batch);
      stored := dbAccepts && Distinct(Column(kept, QuestionOf()));
      Upsert(applicant, kept);
      var toBeDeleted := set item | item in dropped
        && (applicant, item.question) in snapshot :: (applicant, item.question);
      answers := if stored then answers - toBeDeleted else snapshot;
    }

    method Upsert(applicant: Id, items: seq<AnswerItem>)
      modifies this`answers
      ensures answers == Upserted(old(answers), applicant, items)
    {
      for i := 0 to |items|
        invariant answers == Upserted(old(answers), applicant, items[..i])
      {
        assert items[..i + 1][..i] == items[..i];
        answers := answers[(applicant, items[i].question) := items[i].answer];
      }
      assert items[..|items|] == items;
    }

    method DecideOffer(applicant: Id, roleId: Id, accepted: bool, now: Instant, today: Instant)
      returns (decision: Decision)
      requires applicant in cfg.recruitOf && cfg.recruitOf[applicant] in cfg.settings
      modifies this`roles
      ensures (roles, decision)
        == RecruitOffers.DecideOffer(SettingOf(cfg, applicant), old(roles), applicant, roleId, accepted, now, today)
    {
      if !IsAnnounced(SettingOf(cfg, applicant), now) {
        return NotAnnounced;
      }
      if accepted && |Find(roles, AcceptedBy(applicant))| > 0 {
        return AlreadyAccepted;
      }
      var found := Find(roles, ForRole(applicant, roleId));
      if found == [] {
        return RoleNotFound;
      }
      decision := CheckOffer(found[0].offerExpireAt, today);
      if decision == Decided {
        var affected;
        roles, affected := Update(roles, WithId(found[0].id), Respond(accepted, today));
      }
    }

    method OfferRole(applicant: Id, roleId: Id, expireAt: Option<Instant>) returns (offered: bool)
      modifies this`roles
      ensures (roles, offered) == RecruitOffers.OfferRole(old(roles), applicant, roleId, expireAt)
    {
      var found := Find(roles, ForRole(applicant, roleId));
      offered := found != [];
      if offered {
        var affected;
        roles, affected := Update(roles, WithId(found[0].id), MakeOffer(expireAt));
      }
    }

    // ----- all requests -----

    /** Serving a request keeps everyone settled exactly if it passes the check, and the offers proper in any case. */
    method Serve(step: Step, ghost clock: Instant)
      requires IsKnown(cfg, step.request)
      modifies this
      ensures Db() == Apply(cfg, old(Db()), step)
      ensures EveryoneSettled(cfg, old(Db())) ==>
        (EveryoneSettled(cfg, Db()) <==> KeepsBookings(cfg, old(Db()), step))
      ensures WellFormed(cfg) && ProperOffers(cfg, old(Db()), clock) && clock <= step.now <= step.later ==>
        ProperOffers(cfg, Db(), step.later) && RespondedRowsStay(old(roles), roles)
    {
      ghost var db := Db();
      Dispatch(step);
      if EveryoneSettled(cfg, db) {
        StepKeepsSettled(cfg, db, step);
      }
      if WellFormed(cfg) && ProperOffers(cfg, db, clock) && clock <= step.now <= step.later {
        StepKeepsOffers(cfg, db, clock, step);
      }
    }

    method Dispatch(step: Step)
      requires IsKnown(cfg, step.request)
      modifies this
      ensures Db() == Apply(cfg, old(Db()), step)
    {
      match step.request {
        case SelectRoles(a, roleIds, dbAccepts, calendarOk) =>
          var _ := SelectRoles(a, roleIds, step.now, step.later, dbAccepts, calendarOk);
        case AnswerForm(a, batch, dbAccepts, calendarOk) =>
          var _ := UpdateFormAnswers(a, batch, step.now, step.later, dbAccepts, calendarOk);
        case Book(a, start, end, calendarOk) =>
          var _ := BookSlot(cfg.recruitOf[a], a, start, end, step.later, calendarOk);
        case Cancel(a) => var _ := CancelSlot(a);
        case Decide(a, roleId, accepted) => var _ := DecideOffer(a, roleId, accepted, step.now, step.later);
        case Offer(a, roleId, expireAt) => var _ := OfferRole(a, roleId, expireAt);
        case _ => Administer(step);
      }
    }

    method Administer(step: Step)
      requires step.request.Mark? || step.request.Unmark? || step.request.AddSlots? || step.request.RemoveSlots?
      requires IsKnown(cfg, step.request)
      modifies this
      ensures Db() == Apply(cfg, old(Db()), step)
    {
      if step.request.Mark? || step.request.Unmark? {
        var _ := SetInterviewed(step.request.applicant, if step.request.Mark? then Some(step.later) else None);
      } else if step.request.AddSlots? {
        AddSlot(step.request.from, step.request.to, step.request.roleIds);
      } else {
        var _ := RemoveSlot(step.request.from, step.request.to, step.request.roleIds);
      }
    }
  }

  /** `Object.groupBy(questionAnswers, ...)`. */
  method GroupAnswers(batch: seq<AnswerItem>) returns (kept: seq<AnswerItem>, dropped: seq<AnswerItem>)
    ensures kept == Find(batch, Kept()) && dropped == Find(batch, Dropped())
  {
    kept, dropped := [], [];
    for i := 0 to |batch|
      invariant kept == Find(batch[..i], Kept()) && dropped == Find(batch[..i], Dropped())
    {
      assert batch[..i + 1][..i] == batch[..i];
      if ShouldAnswerBeDeleted(Some(batch[i].answer)) {
        dropped := dropped + [batch[i]];
      } else {
        kept := kept + [batch[i]];
      }
    }
    assert batch[..|batch|] == batch;
  }
}

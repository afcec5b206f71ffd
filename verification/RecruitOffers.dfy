/** Offers: making one, deciding on one, and what an applicant is shown. */
module RecruitOffers {
  import opened Options
  import opened Rows
  import opened RecruitData
  import opened RecruitRoles

  // ----- the recruitment windows -----

  /** `validateDateOrder`. */
  predicate IsDateOrder(openWhen: Instant, closeWhen: Instant, announceWhen: Instant) {
    openWhen < closeWhen < announceWhen
  }

  predicate IsRegistrationOpen(setting: Setting, now: Instant) {
    setting.openWhen <= now <= setting.closeWhen
  }

  predicate IsAnnounced(setting: Setting, now: Instant) {
    now >= setting.announceWhen
  }

  // ----- offers -----

  datatype OfferResponse = Tba | Pending | Accepted | Declined | Rejected

  /** `determineOfferResponse`. */
  function DetermineOfferResponse(row: ApplicantRole, isAnnounced: bool, isModerator: bool,
                                  now: Instant): OfferResponse {
    if !isAnnounced && !isModerator then Tba
    else if row.offerResponseAt.Some? || row.offerAccepted then if row.offerAccepted then Accepted else Declined
    else if row.offerExpireAt.Some? then if now < row.offerExpireAt.value then Pending else Declined
    else if !isAnnounced && isModerator then Tba else Rejected
  }

  datatype Decision = Decided | NotAnnounced | AlreadyAccepted | RoleNotFound | NotOffered | Expired

  function ForRole(applicant: Id, roleId: Id): ApplicantRole -> bool {
    (row: ApplicantRole) => row.applicant == applicant && row.role == roleId
  }

  function AcceptedBy(applicant: Id): ApplicantRole -> bool {
    (row: ApplicantRole) => row.applicant == applicant && row.offerAccepted
  }

  function WithId(id: Id): ApplicantRole -> bool {
    (row: ApplicantRole) => row.id == id
  }

  function Respond(accepted: bool, at: Instant): ApplicantRole -> ApplicantRole {
    (row: ApplicantRole) => row.(offerAccepted := accepted, offerResponseAt := Some(at))
  }

  function MakeOffer(expireAt: Option<Instant>): ApplicantRole -> ApplicantRole {
    (row: ApplicantRole) => row.(offerExpireAt := expireAt, offerResponseAt := None, offerAccepted := false)
  }

  /** `checkApplicantOfferOrThrow`. */
  function CheckOffer(expireAt: Option<Instant>, today: Instant): Decision {
    if expireAt.None? then NotOffered else if expireAt.value < today then Expired else Decided
  }

  /**
   `decideRecruitApplicantOffer`: the checks in the order of the controller. The announcement is checked at `now`
   and the expiry at `today`, a later reading of the clock, which is also the time recorded.
  */
  function DecideOffer(setting: Setting, roles: seq<ApplicantRole>, applicant: Id, roleId: Id, accepted: bool,
                       now: Instant, today: Instant)
    : (seq<ApplicantRole>, Decision)
  {
    var found := Find(roles, ForRole(applicant, roleId));
    if !IsAnnounced(setting, now) then (roles, NotAnnounced)
    else if accepted && |Find(roles, AcceptedBy(applicant))| > 0 then (roles, AlreadyAccepted)
    else if found == [] then (roles, RoleNotFound)
    else
      var decision := CheckOffer(found[0].offerExpireAt, today);
      if decision == Decided then (Updated(roles, WithId(found[0].id), Respond(accepted, today)), Decided)
        else (roles, decision)
  }

  /** `offerApplicant`; without an expiry the offer is withdrawn. The result is false when the role was not selected. */
  function OfferRole(roles: seq<ApplicantRole>, applicant: Id, roleId: Id,
                     expireAt: Option<Instant>): (seq<ApplicantRole>, bool) {
    var found := Find(roles, ForRole(applicant, roleId));
    if found == [] then (roles, false) else (Updated(roles, WithId(found[0].id), MakeOffer(expireAt)), true)
  }

  /**
   An offer without response is shown as pending exactly while it can be answered, except at the very instant it
   expires.
  */
  lemma PendingOffersCanBeAnswered(row: ApplicantRole, isModerator: bool, now: Instant)
    requires row.offerResponseAt.None? && !row.offerAccepted
    ensures DetermineOfferResponse(row, true, isModerator, now) == Pending
       <==> CheckOffer(row.offerExpireAt, now) == Decided && row.offerExpireAt != Some(now)
  {
  }

  function RowOf(roles: seq<ApplicantRole>, applicant: Id, roleId: Id): (row: ApplicantRole)
    requires Find(roles, ForRole(applicant, roleId)) != []
    ensures row in roles && row.applicant == applicant && row.role == roleId
  {
    var found := Find(roles, ForRole(applicant, roleId));
    assert found[0] in found;
    found[0]
  }

  // ----- what the table always satisfies -----

  ghost predicate AtMostOneAccepted(roles: seq<ApplicantRole>) {
    forall i, j :: 0 <= i < j < |roles| && roles[i].applicant == roles[j].applicant ==>
      !(roles[i].offerAccepted && roles[j].offerAccepted)
  }

  /**
   An accepted row has a response, and a response was given after the announcement and not after the offer expired.
  */
  ghost predicate ProperResponse(setting: Setting, row: ApplicantRole, clock: Instant) {
    && (row.offerAccepted ==> row.offerResponseAt.Some?)
    && (row.offerResponseAt.Some? ==>
          && row.offerExpireAt.Some?
          && setting.announceWhen <= row.offerResponseAt.value <= row.offerExpireAt.value
          && row.offerResponseAt.value <= clock)
  }

  /** A row with a response is still there, for the same applicant and role. */
  ghost predicate RespondedRowsStay(roles: seq<ApplicantRole>, roles': seq<ApplicantRole>) {
    forall row :: row in roles && row.offerResponseAt.Some? ==>
      exists row' :: row' in roles' && row'.id == row.id && row'.applicant == row.applicant && row'.role == row.role
  }

  lemma {:induction false} FoundAt(roles: seq<ApplicantRole>, where: ApplicantRole -> bool) returns (k: nat)
    requires Find(roles, where) != []
    ensures k < |roles| && roles[k] == Find(roles, where)[0]
  {
    assert Find(roles, where)[0] in roles;
    k :| k < |roles| && roles[k] == Find(roles, where)[0];
  }

  /** Updating by the id of one row changes that row only. */
  lemma OneRowChanges(roles: seq<ApplicantRole>, k: nat, change: ApplicantRole -> ApplicantRole)
    requires UniqueRoles(roles) && k < |roles|
    ensures Updated(roles, WithId(roles[k].id), change) == roles[k := change(roles[k])]
  {
  }

  lemma DecisionKeepsOffers(setting: Setting, roles: seq<ApplicantRole>, applicant: Id, roleId: Id, accepted: bool,
                            now: Instant, today: Instant)
    requires UniqueRoles(roles) && AtMostOneAccepted(roles) && now <= today
    ensures var (after, decision) := DecideOffer(setting, roles, applicant, roleId, accepted, now, today);
      && (decision != Decided ==> after == roles)
      && (decision == Decided ==> exists k ::
            && 0 <= k < |roles| && roles[k].applicant == applicant && roles[k].role == roleId
            && roles[k].offerExpireAt.Some? && setting.announceWhen <= today <= roles[k].offerExpireAt.value
            && after == roles[k := roles[k].(offerAccepted := accepted, offerResponseAt := Some(today))])
      && AtMostOneAccepted(after)
  {
    var (after, decision) := DecideOffer(setting, roles, applicant, roleId, accepted, now, today);
    if decision == Decided {
      var k := FoundAt(roles, ForRole(applicant, roleId));
      assert ForRole(applicant, roleId)(roles[k]) by {
        assert roles[k] in Find(roles, ForRole(applicant, roleId));
      }
      OneRowChanges(roles, k, Respond(accepted, today));
      if accepted {
        assert forall row :: row in roles && row.applicant == applicant ==> !AcceptedBy(applicant)(row);
      }
    }
  }

  lemma OfferKeepsOffers(roles: seq<ApplicantRole>, applicant: Id, roleId: Id, expireAt: Option<Instant>)
    requires UniqueRoles(roles) && AtMostOneAccepted(roles)
    ensures var (after, found) := OfferRole(roles, applicant, roleId, expireAt);
      && (!found ==> after == roles)
      && (found ==> exists k ::
            && 0 <= k < |roles| && roles[k].applicant == applicant && roles[k].role == roleId
            && after == roles[k := roles[k].(offerExpireAt := expireAt, offerResponseAt := None,
                                             offerAccepted := false)])
      && AtMostOneAccepted(after)
  {
    var (after, found) := OfferRole(roles, applicant, roleId, expireAt);
    if found {
      var k := FoundAt(roles, ForRole(applicant, roleId));
      assert ForRole(applicant, roleId)(roles[k]) by {
        assert roles[k] in Find(roles, ForRole(applicant, roleId));
      }
      OneRowChanges(roles, k, MakeOffer(expireAt));
    }
  }

  // ----- when a decision is recorded, and why not -----

  ghost predicate HasRow(roles: seq<ApplicantRole>, applicant: Id, roleId: Id) {
    exists row :: row in roles && row.applicant == applicant && row.role == roleId
  }

  ghost predicate IsOffered(roles: seq<ApplicantRole>, applicant: Id, roleId: Id) {
    exists row :: row in roles && row.applicant == applicant && row.role == roleId && row.offerExpireAt.Some?
  }

  /** Offered, and not expired before this instant. */
  ghost predicate IsOfferedUntil(roles: seq<ApplicantRole>, applicant: Id, roleId: Id, today: Instant) {
    exists row :: row in roles && row.applicant == applicant && row.role == roleId
      && row.offerExpireAt.Some? && today <= row.offerExpireAt.value
  }

  ghost predicate HasAccepted(roles: seq<ApplicantRole>, applicant: Id) {
    exists row :: row in roles && row.applicant == applicant && row.offerAccepted
  }

  lemma OneRowPerRole(roles: seq<ApplicantRole>, row: ApplicantRole, other: ApplicantRole)
    requires UniqueRoles(roles) && row in roles && other in roles && SameRole(row, other)
    ensures row == other
  {
    var i :| 0 <= i < |roles| && roles[i] == row;
    var j :| 0 <= j < |roles| && roles[j] == other;
    assert i == j;
  }

  /** The answer to a decision: the first refusal that applies, where only an acceptance minds an earlier one. */
  lemma DecisionOutcome(setting: Setting, roles: seq<ApplicantRole>, applicant: Id, roleId: Id, accepted: bool,
                        now: Instant, today: Instant)
    requires UniqueRoles(roles)
    ensures var decision := DecideOffer(setting, roles, applicant, roleId, accepted, now, today).1;
      var open := setting.announceWhen <= now && !(accepted && HasAccepted(roles, applicant));
      && (decision == NotAnnounced <==> now < setting.announceWhen)
      && (decision == AlreadyAccepted <==>
            setting.announceWhen <= now && accepted && HasAccepted(roles, applicant))
      && (decision == RoleNotFound <==> open && !HasRow(roles, applicant, roleId))
      && (decision == NotOffered <==> open && HasRow(roles, applicant, roleId) && !IsOffered(roles, applicant, roleId))
      && (decision == Expired <==>
            open && IsOffered(roles, applicant, roleId) && !IsOfferedUntil(roles, applicant, roleId, today))
      && (decision == Decided <==> open && IsOfferedUntil(roles, applicant, roleId, today))
  {
    var found, taken := Find(roles, ForRole(applicant, roleId)), Find(roles, AcceptedBy(applicant));
    assert HasAccepted(roles, applicant) <==> |taken| > 0 by {
      assert |taken| > 0 ==> taken[0] in taken;
    }
    if found != [] {
      assert found[0] in found;
      forall row | row in roles && row.applicant == applicant && row.role == roleId ensures row == found[0] {
        OneRowPerRole(roles, row, found[0]);
      }
    }
  }

  /** An offer is made exactly when the applicant selected the role. */
  lemma OfferOutcome(roles: seq<ApplicantRole>, applicant: Id, roleId: Id, expireAt: Option<Instant>)
    ensures OfferRole(roles, applicant, roleId, expireAt).1 <==> HasRow(roles, applicant, roleId)
  {
    var found := Find(roles, ForRole(applicant, roleId));
    assert found != [] ==> found[0] in found;
  }

  // ----- what an applicant is shown afterwards -----

  /**
   What is shown for a row: nothing to applicants before the announcement, then its answer or what became of its offer.
  */
  lemma ResponseIsShown(row: ApplicantRole, isAnnounced: bool, isModerator: bool, now: Instant)
    ensures var shown := DetermineOfferResponse(row, isAnnounced, isModerator, now);
      var visible, answered := isAnnounced || isModerator, row.offerResponseAt.Some? || row.offerAccepted;
      && (shown == Accepted <==> visible && row.offerAccepted)
      && (shown == Pending <==> visible && !answered && row.offerExpireAt.Some? && now < row.offerExpireAt.value)
      && (shown == Declined <==>
            && visible && !row.offerAccepted
            && (answered || (row.offerExpireAt.Some? && row.offerExpireAt.value <= now)))
      && (shown == Rejected <==> isAnnounced && !answered && row.offerExpireAt.None?)
      && (shown == Tba <==> !visible || (!isAnnounced && !answered && row.offerExpireAt.None?))
  {
  }

  /**
   Before the announcement an applicant sees the same for every row; a moderator sees whether there is an offer or a
   response.
  */
  lemma NothingIsShownBeforeAnnouncement(row: ApplicantRole, now: Instant)
    ensures DetermineOfferResponse(row, false, false, now) == Tba
    ensures DetermineOfferResponse(row, false, true, now) == Tba
       <==> row.offerExpireAt.None? && row.offerResponseAt.None? && !row.offerAccepted
    ensures forall isModerator :: DetermineOfferResponse(row, true, isModerator, now) != Tba
  {
  }

  /** The row of an applicant and a role, once the row at `k` was changed in its offer only. */
  lemma ChangedRow(roles: seq<ApplicantRole>, k: nat, row: ApplicantRole)
    requires UniqueRoles(roles) && k < |roles| && SameRole(row, roles[k])
    ensures Find(roles[k := row], ForRole(row.applicant, row.role)) != []
    ensures RowOf(roles[k := row], row.applicant, row.role) == row
  {
    var after := roles[k := row];
    assert after[k] in after;
    forall i | 0 <= i < |after| && i != k ensures !SameRole(after[i], row) {
      assert if i < k then !SameRole(roles[i], roles[k]) else !SameRole(roles[k], roles[i]);
    }
    var i :| 0 <= i < |after| && after[i] == RowOf(after, row.applicant, row.role);
  }

  /** A recorded decision is what everybody is shown from then on. */
  lemma DecisionIsShown(setting: Setting, roles: seq<ApplicantRole>, applicant: Id, roleId: Id, accepted: bool,
                        now: Instant, today: Instant,
                        isModerator: bool, later: Instant)
    requires UniqueRoles(roles) && AtMostOneAccepted(roles) && now <= today <= later
    requires DecideOffer(setting, roles, applicant, roleId, accepted, now, today).1 == Decided
    ensures var after := DecideOffer(setting, roles, applicant, roleId, accepted, now, today).0;
      && Find(after, ForRole(applicant, roleId)) != []
      && DetermineOfferResponse(RowOf(after, applicant, roleId), IsAnnounced(setting, later), isModerator, later)
         == if accepted then Accepted else Declined
  {
    DecisionKeepsOffers(setting, roles, applicant, roleId, accepted, now, today);
    var after := DecideOffer(setting, roles, applicant, roleId, accepted, now, today).0;
    var k :| 0 <= k < |roles| && roles[k].applicant == applicant && roles[k].role == roleId
      && setting.announceWhen <= today
      && after == roles[k := roles[k].(offerAccepted := accepted, offerResponseAt := Some(today))];
    ChangedRow(roles, k, after[k]);
  }

  /** After the announcement an offer is shown as pending until it expires, and a withdrawn one as a rejection. */
  lemma OfferIsShown(roles: seq<ApplicantRole>, applicant: Id, roleId: Id, expireAt: Option<Instant>,
                     isModerator: bool, later: Instant)
    requires UniqueRoles(roles) && AtMostOneAccepted(roles) && OfferRole(roles, applicant, roleId, expireAt).1
    ensures var after := OfferRole(roles, applicant, roleId, expireAt).0;
      && Find(after, ForRole(applicant, roleId)) != []
      && DetermineOfferResponse(RowOf(after, applicant, roleId), true, isModerator, later)
         == if expireAt.None? then Rejected else if later < expireAt.value then Pending else Declined
  {
    OfferKeepsOffers(roles, applicant, roleId, expireAt);
    var after := OfferRole(roles, applicant, roleId, expireAt).0;
    var k :| 0 <= k < |roles| && roles[k].applicant == applicant && roles[k].role == roleId
      && after == roles[k := roles[k].(offerExpireAt := expireAt, offerResponseAt := None, offerAccepted := false)];
    ChangedRow(roles, k, after[k]);
  }
}

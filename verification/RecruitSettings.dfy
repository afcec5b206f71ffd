/** Recruitment settings: creating and updating them keeps the dates in order and at most one setting active. */
module RecruitSettings {
  import opened Options
  import opened Rows
  import opened RecruitData
  import RecruitOffers
  import RecruitRun

  /** The fields of a request that concern dates and activation; in a creation all dates are given. */
  datatype CreateRequest = CreateRequest(openWhen: Instant, closeWhen: Instant, announceWhen: Instant,
                                         isActive: Option<bool>)
  datatype UpdateRequest = UpdateRequest(
    openWhen: Option<Instant>, closeWhen: Option<Instant>, announceWhen: Option<Instant>, isActive: Option<bool>)

  /** `StoreFailed`: the database refused the row that was to be saved. */
  datatype Outcome = Saved(setting: Setting) | NotFound | BadDateOrder | StoreFailed

  predicate IsOrdered(setting: Setting) {
    RecruitOffers.IsDateOrder(setting.openWhen, setting.closeWhen, setting.announceWhen)
  }

  function GetOrElse<T>(given: Option<T>, stored: T): T {
    if given.Some? then given.value else stored
  }

  function Active(): Setting -> bool {
    (setting: Setting) => setting.isActive
  }

  function Deactivate(): Setting -> Setting {
    (setting: Setting) => setting.(isActive := false)
  }

  function HasId(id: Id): Setting -> bool {
    (setting: Setting) => setting.id == id
  }

  function Replace(saved: Setting): Setting -> Setting {
    (setting: Setting) => saved
  }

  /** `applyToEntity`. */
  function Applied(setting: Setting, request: UpdateRequest): Setting {
    setting.(openWhen := GetOrElse(request.openWhen, setting.openWhen),
             closeWhen := GetOrElse(request.closeWhen, setting.closeWhen),
             announceWhen := GetOrElse(request.announceWhen, setting.announceWhen),
             isActive := GetOrElse(request.isActive, setting.isActive))
  }

  function Deactivated(settings: seq<Setting>, needed: bool): (result: seq<Setting>)
    ensures |result| == |settings|
  {
    if needed then Updated(settings, Active(), Deactivate()) else settings
  }

  function Created(settings: seq<Setting>, id: Id, request: CreateRequest, dbAccepts: bool): (seq<Setting>, Outcome) {
    var setting := Setting(id, request.openWhen, request.closeWhen, request.announceWhen,
                           GetOrElse(request.isActive, false));
    if !IsOrdered(setting) then (settings, BadDateOrder)
    else
      var others := Deactivated(settings, setting.isActive);
      if dbAccepts then (others + [setting], Saved(setting)) else (others, StoreFailed)
  }

  /** Dates are only checked when the request brings one along, and the other settings are deactivated before saving. */
  function Changed(settings: seq<Setting>, id: Id, request: UpdateRequest, dbAccepts: bool): (seq<Setting>, Outcome) {
    var found := Find(settings, HasId(id));
    if found == [] then (settings, NotFound)
    else
      var setting := Applied(found[0], request);
      var given := request.openWhen.Some? || request.closeWhen.Some? || request.announceWhen.Some?;
      if given && !IsOrdered(setting) then (settings, BadDateOrder)
      else
        var others := Deactivated(settings, request.isActive == Some(true));
        if dbAccepts then (Updated(others, HasId(id), Replace(setting)), Saved(setting)) else (others, StoreFailed)
  }

  class SettingService {
    var settings: seq<Setting>
    var nextId: Id

    constructor ()
      ensures settings == [] && nextId == 0
    {
      settings, nextId := [], 0;
    }

    method DeactivateOtherSettings()
      modifies this`settings
      ensures settings == Deactivated(old(settings), true)
    {
      var affected;
      settings, affected := Rows.Update(settings, Active(), Deactivate());
    }

    method Create(request: CreateRequest, dbAccepts: bool) returns (outcome: Outcome)
      modifies this
      ensures (settings, outcome) == Created(old(settings), old(nextId), request, dbAccepts)
      ensures nextId == old(nextId) + 1
    {
      var setting := Setting(nextId, request.openWhen, request.closeWhen, request.announceWhen,
                             GetOrElse(request.isActive, false));
      nextId := nextId + 1;
      if !IsOrdered(setting) {
        return BadDateOrder;
      }
      if setting.isActive {
        DeactivateOtherSettings();
      }
      if !dbAccepts {
        return StoreFailed;
      }
      settings := settings + [setting];
      outcome := Saved(setting);
    }

    method Update(id: Id, request: UpdateRequest, dbAccepts: bool) returns (outcome: Outcome)
      modifies this`settings
      ensures (settings, outcome) == Changed(old(settings), id, request, dbAccepts)
    {
      var found := Find(settings, HasId(id));
      if found == [] {
        return NotFound;
      }
      var setting := Applied(found[0], request);
      if (request.openWhen.Some? || request.closeWhen.Some? || request.announceWhen.Some?) && !IsOrdered(setting) {
        return BadDateOrder;
      }
      if request.isActive == Some(true) {
        DeactivateOtherSettings();
      }
      if !dbAccepts {
        return StoreFailed;
      }
      var affected;
      settings, affected := Rows.Update(settings, HasId(id), Replace(setting));
      outcome := Saved(setting);
    }
  }

  // ----- what the table always satisfies -----

  ghost predicate UniqueIds(settings: seq<Setting>) {
    forall i, j :: 0 <= i < j < |settings| ==> settings[i].id != settings[j].id
  }

  ghost predicate AtMostOneActive(settings: seq<Setting>) {
    forall i, j :: 0 <= i < j < |settings| ==> !(settings[i].isActive && settings[j].isActive)
  }

  ghost predicate Proper(settings: seq<Setting>) {
    && UniqueIds(settings)
    && AtMostOneActive(settings)
    && forall setting :: setting in settings ==> IsOrdered(setting)
  }

  /** `getCurrentSetting` would return this one, and nothing else. */
  ghost predicate IsCurrent(settings: seq<Setting>, setting: Setting) {
    Find(settings, Active()) == [setting]
  }

  lemma DeactivationKeepsProper(settings: seq<Setting>, needed: bool)
    requires Proper(settings)
    ensures Proper(Deactivated(settings, needed))
    ensures needed ==> forall setting :: setting in Deactivated(settings, needed) ==> !setting.isActive
    ensures forall i :: 0 <= i < |settings| ==>
      Deactivated(settings, needed)[i].id == settings[i].id && IsOrdered(Deactivated(settings, needed)[i])
  {
    var after := Deactivated(settings, needed);
    forall i | 0 <= i < |settings| ensures after[i].id == settings[i].id && IsOrdered(after[i]) {
      assert settings[i] in settings;
    }
  }

  lemma {:induction false} OnlyActive(settings: seq<Setting>, k: nat)
    requires k < |settings| && settings[k].isActive && AtMostOneActive(settings)
    ensures IsCurrent(settings, settings[k])
  {
    var front, last := settings[..|settings| - 1], settings[|settings| - 1];
    if k < |front| {
      OnlyActive(front, k);
      assert front[k] == settings[k];
    } else {
      forall setting | setting in front ensures !setting.isActive {
        var i :| 0 <= i < |front| && front[i] == setting;
        assert settings[i] == setting;
      }
      FindAllOrNothing(front, Active());
    }
  }

  /** A creation keeps the table proper whatever its outcome, and a saved active setting is the current one. */
  lemma CreateKeepsProper(settings: seq<Setting>, id: Id, request: CreateRequest, dbAccepts: bool)
    requires Proper(settings) && forall setting :: setting in settings ==> setting.id < id
    ensures var (after, outcome) := Created(settings, id, request, dbAccepts);
      && Proper(after)
      && (forall setting :: setting in after ==> setting.id <= id)
      && (outcome.Saved? && outcome.setting.isActive ==> IsCurrent(after, outcome.setting))
      && (outcome.NotFound? || outcome.BadDateOrder? ==> after == settings)
  {
    var (after, outcome) := Created(settings, id, request, dbAccepts);
    var active := GetOrElse(request.isActive, false);
    DeactivationKeepsProper(settings, active);
    var others := Deactivated(settings, active);
    forall setting | setting in others ensures setting.id < id {
      var i :| 0 <= i < |others| && others[i] == setting;
      assert settings[i] in settings;
    }
    if outcome.Saved? {
      AppendKeepsProper(others, outcome.setting);
    }
  }

  lemma AppendKeepsProper(settings: seq<Setting>, setting: Setting)
    requires Proper(settings) && IsOrdered(setting)
    requires forall other :: other in settings ==> other.id < setting.id && !(setting.isActive && other.isActive)
    ensures Proper(settings + [setting])
    ensures setting.isActive ==> IsCurrent(settings + [setting], setting)
  {
    var after := settings + [setting];
    forall i | 0 <= i < |settings| ensures settings[i].id < setting.id && !(setting.isActive && settings[i].isActive) {
      assert settings[i] in settings;
    }
    if setting.isActive {
      OnlyActive(after, |settings|);
    }
  }

  /** An update does the same, and when it succeeds it stores the setting that it returns. */
  lemma UpdateKeepsProper(settings: seq<Setting>, id: Id, request: UpdateRequest, dbAccepts: bool)
    requires Proper(settings)
    ensures var (after, outcome) := Changed(settings, id, request, dbAccepts);
      && Proper(after)
      && |after| == |settings|
      && (forall i :: 0 <= i < |settings| ==> after[i].id == settings[i].id)
      && (outcome.Saved? ==> outcome.setting in after && outcome.setting.id == id)
      && (outcome.Saved? && outcome.setting.isActive ==> IsCurrent(after, outcome.setting))
      && (outcome.NotFound? || outcome.BadDateOrder? ==> after == settings)
  {
    var (after, outcome) := Changed(settings, id, request, dbAccepts);
    var needed := request.isActive == Some(true);
    DeactivationKeepsProper(settings, needed);
    if outcome.Saved? {
      var k := StoredAt(settings, id, request);
      var others := Deactivated(settings, needed);
      forall i | 0 <= i < |others| && needed ensures !others[i].isActive {
        assert others[i] in others;
      }
      ReplacementKeepsProper(others, k, outcome.setting);
      if outcome.setting.isActive {
        OnlyActive(after, k);
      }
    }
  }

  /** The row that a successful update replaces. */
  lemma StoredAt(settings: seq<Setting>, id: Id, request: UpdateRequest) returns (k: nat)
    requires Proper(settings) && Changed(settings, id, request, true).1.Saved?
    ensures k < |settings| && settings[k].id == id
    ensures var (after, outcome) := Changed(settings, id, request, true);
      && outcome.setting == Applied(settings[k], request) && IsOrdered(outcome.setting)
      && after == Deactivated(settings, request.isActive == Some(true))[k := outcome.setting]
  {
    var found, needed := Find(settings, HasId(id)), request.isActive == Some(true);
    assert found[0] in found;
    k :| 0 <= k < |settings| && settings[k] == found[0];
    DeactivationKeepsProper(settings, needed);
    OneRowReplaced(Deactivated(settings, needed), k, Applied(settings[k], request));
  }

  lemma OneRowReplaced(settings: seq<Setting>, k: nat, setting: Setting)
    requires UniqueIds(settings) && k < |settings|
    ensures Updated(settings, HasId(settings[k].id), Replace(setting)) == settings[k := setting]
  {
  }

  lemma ReplacementKeepsProper(settings: seq<Setting>, k: nat, setting: Setting)
    requires Proper(settings) && k < |settings| && setting.id == settings[k].id && IsOrdered(setting)
    requires setting.isActive ==> settings[k].isActive || forall i :: 0 <= i < |settings| ==> !settings[i].isActive
    ensures Proper(settings[k := setting])
  {
  }

  // ----- whole runs -----

  datatype Request =
    | Create(create: CreateRequest, dbAccepts: bool)
    | Change(id: Id, change: UpdateRequest, dbAccepts: bool)

  /** The table after the requests; a creation takes its position as id, so no id is used twice. */
  function Table(requests: seq<Request>): seq<Setting> {
    if requests == [] then [] else
      var before := Table(requests[..|requests| - 1]);
      match requests[|requests| - 1]
      case Create(create, dbAccepts) => Created(before, |requests|, create, dbAccepts).0
      case Change(id, change, dbAccepts) => Changed(before, id, change, dbAccepts).0
  }

  /**
   After any creations and updates, failed ones included, the dates are in order and at most one setting is active.
  */
  lemma {:induction false} TableIsProper(requests: seq<Request>)
    ensures Proper(Table(requests))
    ensures forall setting :: setting in Table(requests) ==> setting.id <= |requests|
  {
    if requests == [] {
    } else {
      var front := requests[..|requests| - 1];
      TableIsProper(front);
      match requests[|requests| - 1]
      case Create(create, dbAccepts) => CreateKeepsProper(Table(front), |requests|, create, dbAccepts);
      case Change(id, change, dbAccepts) =>
        UpdateKeepsProper(Table(front), id, change, dbAccepts);
        forall setting | setting in Table(requests) ensures setting.id <= |requests| {
          var i :| 0 <= i < |Table(requests)| && Table(requests)[i] == setting;
          assert Table(front)[i] in Table(front);
        }
    }
  }

  /** Settings written by these requests are what the recruitment runs rely on. */
  lemma SettingsMakeRunsWellFormed(requests: seq<Request>, cfg: Config)
    requires forall applicant :: applicant in cfg.recruitOf ==> cfg.recruitOf[applicant] in cfg.settings
    requires forall id :: id in cfg.settings ==> cfg.settings[id] in Table(requests)
    ensures RecruitRun.WellFormed(cfg)
  {
    TableIsProper(requests);
  }

  // ----- settings after a failure -----

  /** Whether an update gets as far as saving: the setting exists, and dates that come with the request are in order. */
  predicate ReachesSave(settings: seq<Setting>, id: Id, request: UpdateRequest) {
    var found := Find(settings, HasId(id));
    && found != []
    && (request.openWhen.Some? || request.closeWhen.Some? || request.announceWhen.Some? ==>
      IsOrdered(Applied(found[0], request)))
  }

  lemma NoneStaysActive(settings: seq<Setting>)
    ensures Find(Deactivated(settings, true), Active()) == []
  {
    var after := Deactivated(settings, true);
    forall setting | setting in after ensures !setting.isActive {
      var i :| 0 <= i < |after| && after[i] == setting;
    }
    FindAllOrNothing(after, Active());
  }

  /**
   Deactivating and saving are no transaction: when the row cannot be saved, no setting is active afterwards exactly if
   none was before, or the request was an activation of an existing setting with dates in order.
  */
  lemma FailedUpdateLeavesNoneActive(settings: seq<Setting>, id: Id, request: UpdateRequest)
    ensures Find(Changed(settings, id, request, false).0, Active()) == []
       <==> Find(settings, Active()) == [] || (request.isActive == Some(true) && ReachesSave(settings, id, request))
  {
    NoneStaysActive(settings);
  }

  /** A creation that cannot be saved does the same whenever it is active and its dates are in order. */
  lemma FailedCreationLeavesNoneActive(settings: seq<Setting>, id: Id, request: CreateRequest)
    ensures Find(Created(settings, id, request, false).0, Active()) == []
       <==> || Find(settings, Active()) == []
            || (request.isActive == Some(true)
                && RecruitOffers.IsDateOrder(request.openWhen, request.closeWhen, request.announceWhen))
  {
    NoneStaysActive(settings);
  }

  /** A witness: the only active setting is lost when activating another one cannot be saved. */
  lemma ActiveSettingIsLost()
    ensures var settings := [Setting(1, 0, 1, 2, true), Setting(2, 0, 1, 2, false)];
      Find(Changed(settings, 2, UpdateRequest(None, None, None, Some(true)), false).0, Active()) == []
  {
    var settings, request := [Setting(1, 0, 1, 2, true), Setting(2, 0, 1, 2, false)],
        UpdateRequest(None, None, None, Some(true));
    assert settings[1] in Find(settings, HasId(2));
    FailedUpdateLeavesNoneActive(settings, 2, request);
  }

  // ----- what is stored, and when not -----

  ghost predicate IsStored(settings: seq<Setting>, id: Id) {
    exists setting :: setting in settings && setting.id == id
  }

  /** Every row after an update of one setting or none. */
  ghost predicate RowsAre(settings: seq<Setting>, settings': seq<Setting>, deactivates: bool, saved: Option<Setting>) {
    && |settings'| == |settings|
    && forall i :: 0 <= i < |settings| ==>
         settings'[i] == if saved.Some? && settings[i].id == saved.value.id then saved.value
                         else Setting(settings[i].id, settings[i].openWhen, settings[i].closeWhen,
                                      settings[i].announceWhen,
                                      settings[i].isActive && !deactivates)
  }

  /** The fields of a setting after a request: what it brings along, and what was stored for the rest. */
  ghost predicate IsMerged(setting: Setting, stored: Setting, request: UpdateRequest) {
    && setting.id == stored.id
    && setting.openWhen == (if request.openWhen.Some? then request.openWhen.value else stored.openWhen)
    && setting.closeWhen == (if request.closeWhen.Some? then request.closeWhen.value else stored.closeWhen)
    && setting.announceWhen == (if request.announceWhen.Some? then request.announceWhen.value else stored.announceWhen)
    && setting.isActive == (if request.isActive.Some? then request.isActive.value else stored.isActive)
  }

  /** The request brings a date along, and the dates that result are not in order. */
  ghost predicate BringsDisorder(merged: Setting, request: UpdateRequest) {
    && (request.openWhen.Some? || request.closeWhen.Some? || request.announceWhen.Some?)
    && !(merged.openWhen < merged.closeWhen < merged.announceWhen)
  }

  /** The outcome of an update of a setting that exists, and the rows it leaves. */
  lemma UpdateOutcome(settings: seq<Setting>, k: nat, merged: Setting, request: UpdateRequest, dbAccepts: bool)
    requires UniqueIds(settings) && k < |settings| && IsMerged(merged, settings[k], request)
    ensures var (after, outcome) := Changed(settings, settings[k].id, request, dbAccepts);
      var deactivates := request.isActive == Some(true);
      && (outcome == BadDateOrder <==> BringsDisorder(merged, request))
      && (outcome == Saved(merged) <==> !BringsDisorder(merged, request) && dbAccepts)
      && (outcome == StoreFailed <==> !BringsDisorder(merged, request) && !dbAccepts)
      && (if outcome == Saved(merged) then RowsAre(settings, after, deactivates, Some(merged))
          else if outcome == StoreFailed then RowsAre(settings, after, deactivates, None) else after == settings)
  {
    var deactivates := request.isActive == Some(true);
    FoundSetting(settings, k);
    DeactivatedRows(settings, deactivates);
    SavedRows(settings, Deactivated(settings, deactivates), merged, deactivates);
  }

  lemma FoundSetting(settings: seq<Setting>, k: nat)
    requires UniqueIds(settings) && k < |settings|
    ensures Find(settings, HasId(settings[k].id)) != [] && Find(settings, HasId(settings[k].id))[0] == settings[k]
  {
    FirstFound(settings, HasId(settings[k].id), k);
  }

  lemma DeactivatedRows(settings: seq<Setting>, deactivates: bool)
    ensures RowsAre(settings, Deactivated(settings, deactivates), deactivates, None)
  {
  }

  lemma SavedRows(settings: seq<Setting>, others: seq<Setting>, saved: Setting, deactivates: bool)
    requires RowsAre(settings, others, deactivates, None)
    ensures RowsAre(settings, Updated(others, HasId(saved.id), Replace(saved)), deactivates, Some(saved))
  {
  }

  lemma UnknownSetting(settings: seq<Setting>, id: Id, request: UpdateRequest, dbAccepts: bool)
    ensures Changed(settings, id, request, dbAccepts).1 == NotFound <==> !IsStored(settings, id)
    ensures !IsStored(settings, id) ==> Changed(settings, id, request, dbAccepts).0 == settings
  {
    var found := Find(settings, HasId(id));
    assert found != [] ==> found[0] in found;
  }

  /**
   The outcome of a creation, and the rows it leaves: the new one with the fields of the request, inactive by default.
  */
  lemma CreationOutcome(settings: seq<Setting>, id: Id, request: CreateRequest, dbAccepts: bool)
    ensures var (after, outcome) := Created(settings, id, request, dbAccepts);
      var activates := request.isActive == Some(true);
      var created := Setting(id, request.openWhen, request.closeWhen, request.announceWhen, activates);
      var inOrder := request.openWhen < request.closeWhen < request.announceWhen;
      && outcome == (if !inOrder then BadDateOrder else if dbAccepts then Saved(created) else StoreFailed)
      && (!inOrder ==> after == settings)
      && (inOrder && !dbAccepts ==> RowsAre(settings, after, activates, None))
      && (inOrder && dbAccepts ==>
            && |after| == |settings| + 1 && after[|settings|] == created
            && RowsAre(settings, after[..|settings|], activates, None))
  {
    DeactivatedRows(settings, request.isActive == Some(true));
  }
}

/** The recruitment tables. Roles, questions and settings stay fixed while applicants act. */
module RecruitData {
  import opened Options
  import opened Rows
  import opened Texts

  datatype Role = Role(id: Id, recruitId: Id, mandatory: bool, collection: Option<Id>)
  datatype Question = Question(id: Id, collection: Id)
  datatype Setting = Setting(id: Id, openWhen: Instant, closeWhen: Instant, announceWhen: Instant, isActive: bool)

  datatype Config = Config(
    roles: seq<Role>,
    questions: seq<Question>,
    settings: map<Id, Setting>,
    recruitOf: map<Id, Id>,
    leadTimeHours: real)

  datatype Slot = Slot(
    id: Id, start: Instant, end: Instant, role: Id, applicant: Option<Id>, interviewAt: Option<Instant>)

  datatype ApplicantRole = ApplicantRole(
    id: Id, applicant: Id, role: Id, rank: int,
    offerResponseAt: Option<Instant>, offerAccepted: bool, offerExpireAt: Option<Instant>)

  /** Answers are unique per applicant and question, so the table is a map from such pairs. */
  type Answers = map<(Id, Id), Text>

  /** `nextId` is above every id in use: ids generated by the services are fresh. */
  datatype Database = Database(slots: seq<Slot>, roles: seq<ApplicantRole>, answers: Answers, nextId: Id)

  function OfApplicant(applicant: Id): ApplicantRole -> bool {
    (row: ApplicantRole) => row.applicant == applicant
  }

  function OfOthers(applicant: Id): ApplicantRole -> bool {
    (row: ApplicantRole) => row.applicant != applicant
  }

  /** `getSelectedRoleIds`. */
  function SelectedRoleIds(db: Database, applicant: Id): seq<Id> {
    Column(Find(db.roles, OfApplicant(applicant)), (row: ApplicantRole) => row.role)
  }

  /** `getMandatoryInterviewRoleIds`: the mandatory roles without a form. */
  function MandatoryInterviewRoleIds(cfg: Config, recruitId: Id): seq<Id> {
    Column(Find(cfg.roles, (role: Role) => role.recruitId == recruitId && role.mandatory && role.collection.None?),
           (role: Role) => role.id)
  }

  /** The roles for which an applicant needs an interview slot. */
  function Wanted(cfg: Config, db: Database, recruitId: Id, applicant: Id): seq<Id> {
    MandatoryInterviewRoleIds(cfg, recruitId) + SelectedRoleIds(db, applicant)
  }

  /** The mandatory interview roles are the mandatory roles of the recruitment that have no form. */
  lemma MandatoryInterviewRoles(cfg: Config, recruitId: Id, roleId: Id)
    ensures roleId in MandatoryInterviewRoleIds(cfg, recruitId)
       <==> exists role :: role in cfg.roles && role.id == roleId && role.recruitId == recruitId && role.mandatory
              && role.collection.None?
  {
    var where := (role: Role) => role.recruitId == recruitId && role.mandatory && role.collection.None?;
    var found := Find(cfg.roles, where);
    assert MandatoryInterviewRoleIds(cfg, recruitId) == Column(found, (role: Role) => role.id);
    if roleId in MandatoryInterviewRoleIds(cfg, recruitId) {
      var i :| 0 <= i < |found| && found[i].id == roleId;
      assert found[i] in found;
    }
    if role :| role in cfg.roles && role.id == roleId && where(role) {
      var i :| 0 <= i < |found| && found[i] == role;
      assert MandatoryInterviewRoleIds(cfg, recruitId)[i] == roleId;
    }
  }

  /** The selected roles are those of the applicant's rows. */
  lemma SelectedRoles(db: Database, applicant: Id, roleId: Id)
    ensures roleId in SelectedRoleIds(db, applicant)
       <==> exists row :: row in db.roles && row.applicant == applicant && row.role == roleId
  {
    var found := Find(db.roles, OfApplicant(applicant));
    if roleId in SelectedRoleIds(db, applicant) {
      var i :| 0 <= i < |found| && found[i].role == roleId;
      assert found[i] in found;
    }
    if row :| row in db.roles && row.applicant == applicant && row.role == roleId {
      var i :| 0 <= i < |found| && found[i] == row;
      assert SelectedRoleIds(db, applicant)[i] == roleId;
    }
  }
}

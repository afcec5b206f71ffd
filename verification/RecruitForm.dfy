/** Form answers: when one is kept, how a batch is stored, and when a form counts as completed. */
module RecruitForm {
  import opened Options
  import opened Rows
  import opened Counting
  import opened Texts
  import opened RecruitData

  // ----- which answers are kept -----

  /** `text.replaceAll(unit, '')`. */
  function Without(text: Text, unit: CodeUnit): Text {
    Find(text, (c: CodeUnit) => c != unit)
  }

  /** `shouldAnswerBeDeleted`: nothing is left after removing every copy of the first code unit. */
  predicate ShouldAnswerBeDeleted(answer: Option<Text>) {
    match answer
    case None => true
    case Some(text) =>
      var trimmed := Trim(text);
      |if trimmed == [] then [] else Without(trimmed, trimmed[0])| == 0
  }

  ghost predicate HasTwoUnits(text: Text) {
    exists i, j :: 0 <= i < j < |text| && text[i] != text[j]
  }

  /** An answer is kept exactly when its trimmed text contains two different code units. */
  lemma KeptAnswers(answer: Text)
    ensures !ShouldAnswerBeDeleted(Some(answer)) <==> HasTwoUnits(Trim(answer))
    ensures !ShouldAnswerBeDeleted(Some(answer)) ==> answer != []
  {
    var trimmed := Trim(answer);
    if trimmed != [] {
      var rest := Without(trimmed, trimmed[0]);
      if rest != [] {
        assert rest[0] in trimmed;
        var j :| 0 <= j < |trimmed| && trimmed[j] == rest[0];
        assert trimmed[0] != trimmed[j];
      }
      if HasTwoUnits(trimmed) {
        var i, j :| 0 <= i < j < |trimmed| && trimmed[i] != trimmed[j];
        assert trimmed[i] in rest || trimmed[j] in rest;
      }
    }
  }

  // ----- completion -----

  /**
   A row of the questions joined with the applicant's non-empty answers; `answered` says that `rfa.id` is not null.
  */
  datatype JoinRow = JoinRow(collection: Id, answered: bool)

  predicate Answered(answers: Answers, applicant: Id, question: Id) {
    (applicant, question) in answers && answers[(applicant, question)] != []
  }

  function LeftJoin(questions: seq<Question>, answers: Answers, applicant: Id): seq<JoinRow> {
    Column(questions, (q: Question) => JoinRow(q.collection, Answered(answers, applicant, q.id)))
  }

  function InCollection(collection: Id): JoinRow -> bool {
    (row: JoinRow) => row.collection == collection
  }

  function AnsweredIn(collection: Id): JoinRow -> bool {
    (row: JoinRow) => row.collection == collection && row.answered
  }

  /** `count(rfq.id) = count(rfa.id)` in the group of a collection. */
  predicate CountsAreEqual(rows: seq<JoinRow>, collection: Id) {
    |Find(rows, InCollection(collection))| == |Find(rows, AnsweredIn(collection))|
  }

  /** `getCompletionMap`: one entry per group of joined rows, so none for a collection without questions. */
  function CompletionMap(cfg: Config, answers: Answers, applicant: Option<Id>, collections: seq<Id>)
    : Option<map<Id, bool>>
  {
    if collections == [] || applicant.None? then None else
      var rows := LeftJoin(cfg.questions, answers, applicant.value);
      Some(map c | c in collections && Find(rows, InCollection(c)) != [] :: CountsAreEqual(rows, c))
  }

  function RoleCollection(cfg: Config, roleId: Id): Option<Id> {
    var found := Find(cfg.roles, (role: Role) => role.id == roleId);
    if found == [] then None else found[0].collection
  }

  function Present(ids: seq<Option<Id>>): (present: seq<Id>)
    ensures forall id :: id in present <==> Some(id) in ids
  {
    if ids == [] then [] else
      assert forall id :: id in ids <==> id == ids[0] || id in ids[1..];
      (if ids[0].Some? then [ids[0].value] else []) + Present(ids[1..])
  }

  /** The forms of the mandatory roles and of these roles. */
  function FormsFor(cfg: Config, recruitId: Id, roleIds: seq<Id>): seq<Id> {
    Present(Column(Find(cfg.roles, (role: Role) => role.recruitId == recruitId && role.mandatory),
                   (role: Role) => role.collection)
            + Column(roleIds, roleId => RoleCollection(cfg, roleId)))
  }

  /** The forms of the mandatory roles and of the applicant's selected roles. */
  function FormCollections(cfg: Config, db: Database, recruitId: Id, applicant: Id): seq<Id> {
    FormsFor(cfg, recruitId, SelectedRoleIds(db, applicant))
  }

  /** `isApplicantFormCompleted`; a collection that the map does not mention counts as not completed. */
  predicate IsFormCompleted(cfg: Config, db: Database, recruitId: Id, applicant: Id) {
    var collections := FormCollections(cfg, db, recruitId, applicant);
    var completions := CompletionMap(cfg, db.answers, Some(applicant), collections);
    forall c :: c in collections ==> completions.Some? && c in completions.value && completions.value[c]
  }

  /** The form has questions and each of them a stored, non-empty answer. */
  ghost predicate IsFilledIn(cfg: Config, answers: Answers, applicant: Id, collection: Id) {
    && (exists q :: q in cfg.questions && q.collection == collection)
    && (forall q :: q in cfg.questions && q.collection == collection ==>
          (applicant, q.id) in answers && |answers[(applicant, q.id)]| > 0)
  }

  lemma JoinedRows(cfg: Config, answers: Answers, applicant: Id, collection: Id)
    ensures var rows := LeftJoin(cfg.questions, answers, applicant);
      && (Find(rows, InCollection(collection)) != [] <==> exists q :: q in cfg.questions && q.collection == collection)
      && (CountsAreEqual(rows, collection)
          <==> forall q :: q in cfg.questions && q.collection == collection ==> Answered(answers, applicant, q.id))
  {
    var rows := LeftJoin(cfg.questions, answers, applicant);
    CountsAgree(rows, InCollection(collection), AnsweredIn(collection));
    forall q | q in cfg.questions ensures JoinRow(q.collection, Answered(answers, applicant, q.id)) in rows {
      var i :| 0 <= i < |cfg.questions| && cfg.questions[i] == q;
      assert rows[i] == JoinRow(q.collection, Answered(answers, applicant, q.id));
    }
    forall row | row in rows
      ensures exists q :: q in cfg.questions && row == JoinRow(q.collection, Answered(answers, applicant, q.id))
    {
      var i :| 0 <= i < |rows| && rows[i] == row;
      assert cfg.questions[i] in cfg.questions;
    }
    if Find(rows, InCollection(collection)) != [] {
      assert Find(rows, InCollection(collection))[0] in rows;
    }
  }

  /** The two counts decide completion: every form the applicant needs has questions, and none of them is open. */
  lemma FormIsCompleted(cfg: Config, db: Database, recruitId: Id, applicant: Id)
    ensures IsFormCompleted(cfg, db, recruitId, applicant)
       <==> forall c :: c in FormCollections(cfg, db, recruitId, applicant) ==>
         IsFilledIn(cfg, db.answers, applicant, c)
  {
    forall c | c in FormCollections(cfg, db, recruitId, applicant)
      ensures var completions := CompletionMap(cfg, db.answers, Some(applicant),
                                               FormCollections(cfg, db, recruitId, applicant));
        (completions.Some? && c in completions.value && completions.value[c])
           <==> IsFilledIn(cfg, db.answers, applicant, c)
    {
      JoinedRows(cfg, db.answers, applicant, c);
    }
  }

  ghost predicate NeedsForm(cfg: Config, db: Database, recruitId: Id, applicant: Id, collection: Id) {
    exists role :: role in cfg.roles && role.collection == Some(collection)
      && ((role.recruitId == recruitId && role.mandatory) || role.id in SelectedRoleIds(db, applicant))
  }

  lemma CollectionOfRole(cfg: Config, role: Role)
    requires forall i, j :: 0 <= i < j < |cfg.roles| ==> cfg.roles[i].id != cfg.roles[j].id
    requires role in cfg.roles
    ensures RoleCollection(cfg, role.id) == role.collection
  {
    var found := Find(cfg.roles, (other: Role) => other.id == role.id);
    assert role in found && found[0] in found;
    var i :| 0 <= i < |cfg.roles| && cfg.roles[i] == role;
    var j :| 0 <= j < |cfg.roles| && cfg.roles[j] == found[0];
    assert i == j;
  }

  /** The forms asked for are those of the mandatory roles of the recruitment and of the selected roles. */
  lemma NeededForms(cfg: Config, db: Database, recruitId: Id, applicant: Id, collection: Id)
    requires forall i, j :: 0 <= i < j < |cfg.roles| ==> cfg.roles[i].id != cfg.roles[j].id
    ensures collection in FormCollections(cfg, db, recruitId, applicant)
       <==> NeedsForm(cfg, db, recruitId, applicant, collection)
  {
    var mandatory := Find(cfg.roles, (role: Role) => role.recruitId == recruitId && role.mandatory);
    var selected := SelectedRoleIds(db, applicant);
    var ofMandatory := Column(mandatory, (role: Role) => role.collection);
    var ofSelected := Column(selected, roleId => RoleCollection(cfg, roleId));
    assert FormCollections(cfg, db, recruitId, applicant) == Present(ofMandatory + ofSelected);
    if Some(collection) in ofMandatory {
      var i :| 0 <= i < |ofMandatory| && ofMandatory[i] == Some(collection);
      assert mandatory[i] in mandatory;
    }
    if Some(collection) in ofSelected {
      var i :| 0 <= i < |ofSelected| && ofSelected[i] == Some(collection);
      var found := Find(cfg.roles, (role: Role) => role.id == selected[i]);
      assert found[0] in found && selected[i] in selected;
    }
    if NeedsForm(cfg, db, recruitId, applicant, collection) {
      var role :| role in cfg.roles && role.collection == Some(collection)
        && ((role.recruitId == recruitId && role.mandatory) || role.id in selected);
      FormIsAskedFor(cfg, role, mandatory, selected, recruitId);
    }
  }

  lemma FormIsAskedFor(cfg: Config, role: Role, mandatory: seq<Role>, selected: seq<Id>, recruitId: Id)
    requires forall i, j :: 0 <= i < j < |cfg.roles| ==> cfg.roles[i].id != cfg.roles[j].id
    requires role in cfg.roles && (role in mandatory || role.id in selected)
    ensures role.collection in Column(mandatory, (role: Role) => role.collection)
         || role.collection in Column(selected, roleId => RoleCollection(cfg, roleId))
  {
    if role in mandatory {
      var i :| 0 <= i < |mandatory| && mandatory[i] == role;
      assert Column(mandatory, (role: Role) => role.collection)[i] == role.collection;
    } else {
      var i :| 0 <= i < |selected| && selected[i] == role.id;
      CollectionOfRole(cfg, role);
      assert Column(selected, roleId => RoleCollection(cfg, roleId))[i] == role.collection;
    }
  }

  // ----- storing a batch -----

  datatype AnswerItem = AnswerItem(question: Id, answer: Text)

  function Kept(): AnswerItem -> bool {
    (item: AnswerItem) => !ShouldAnswerBeDeleted(Some(item.answer))
  }

  function Dropped(): AnswerItem -> bool {
    (item: AnswerItem) => ShouldAnswerBeDeleted(Some(item.answer))
  }

  function QuestionOf(): AnswerItem -> Id {
    (item: AnswerItem) => item.question
  }

  /** `upsert` with the conflict path (applicant, question). */
  function Upserted(answers: Answers, applicant: Id, items: seq<AnswerItem>): (result: Answers)
    ensures forall key :: key !in (set item | item in items :: (applicant, item.question)) ==>
      (key in result <==> key in answers) && (key in answers ==> result[key] == answers[key])
    ensures forall item :: item in items ==> (applicant, item.question) in result
  {
    if items == [] then answers else
      var last := items[|items| - 1];
      Upserted(answers, applicant, items[..|items| - 1])[(applicant, last.question) := last.answer]
  }

  /** The answers that existed before the batch and are dropped by it. */
  function ToBeDeleted(answers: Answers, applicant: Id, items: seq<AnswerItem>): set<(Id, Id)> {
    set item | item in items && (applicant, item.question) in answers :: (applicant, item.question)
  }

  /**
   One `INSERT ... ON CONFLICT` must not meet a question twice; otherwise the transaction fails and changes nothing.
  */
  function UpdatedAnswers(answers: Answers, applicant: Id, batch: seq<AnswerItem>): Option<Answers> {
    var kept := Find(batch, Kept());
    if !Distinct(Column(kept, QuestionOf())) then None
    else Some(Upserted(answers, applicant, kept) - ToBeDeleted(answers, applicant, Find(batch, Dropped())))
  }

  lemma {:induction false} UpsertStores(answers: Answers, applicant: Id, items: seq<AnswerItem>)
    requires Distinct(Column(items, QuestionOf()))
    ensures forall item :: item in items ==>
      Upserted(answers, applicant, items)[(applicant, item.question)] == item.answer
  {
    if items == [] {
    } else {
      var front, last := items[..|items| - 1], items[|items| - 1];
      var questions := Column(items, QuestionOf());
      assert Column(front, QuestionOf()) == questions[..|items| - 1];
      UpsertStores(answers, applicant, front);
      forall item | item in items
        ensures Upserted(answers, applicant, items)[(applicant, item.question)] == item.answer
      {
        if item != last {
          assert item in front;
          var i :| 0 <= i < |front| && front[i] == item;
          assert questions[i] != questions[|items| - 1];
        }
      }
    }
  }

  /**
   A batch on distinct questions stores the kept texts as sent, clears the others, and leaves every other answer alone.
  */
  lemma BatchIsStored(answers: Answers, applicant: Id, batch: seq<AnswerItem>)
    requires Distinct(Column(batch, QuestionOf()))
    ensures UpdatedAnswers(answers, applicant, batch).Some?
    ensures var after := UpdatedAnswers(answers, applicant, batch).value;
      && (forall item :: item in batch ==>
            && (Answered(after, applicant, item.question) <==> HasTwoUnits(Trim(item.answer)))
            && (Answered(after, applicant, item.question) ==> after[(applicant, item.question)] == item.answer))
      && (forall key :: key !in (set item | item in batch :: (applicant, item.question)) ==>
            && (key in after <==> key in answers)
            && (key in answers ==> after[key] == answers[key]))
  {
    var kept, dropped := Find(batch, Kept()), Find(batch, Dropped());
    DistinctQuestions(batch);
    UpsertStores(answers, applicant, kept);
    var after := UpdatedAnswers(answers, applicant, batch).value;
    forall item | item in batch
      ensures Answered(after, applicant, item.question) <==> HasTwoUnits(Trim(item.answer))
      ensures Answered(after, applicant, item.question) ==> after[(applicant, item.question)] == item.answer
    {
      KeptAnswers(item.answer);
      BatchItem(answers, applicant, batch, item);
    }
  }

  /** Equal questions mean equal items, and the items to keep are distinct too. */
  lemma DistinctQuestions(batch: seq<AnswerItem>)
    requires Distinct(Column(batch, QuestionOf()))
    ensures forall item, item' :: item in batch && item' in batch && item.question == item'.question ==> item == item'
    ensures Distinct(Column(Find(batch, Kept()), QuestionOf()))
  {
  }

  lemma BatchItem(answers: Answers, applicant: Id, batch: seq<AnswerItem>, item: AnswerItem)
    requires Distinct(Column(batch, QuestionOf()))
    requires UpdatedAnswers(answers, applicant, batch).Some?
    requires item in batch
    ensures var after := UpdatedAnswers(answers, applicant, batch).value;
      && ((applicant, item.question) in after <==> !ShouldAnswerBeDeleted(Some(item.answer)))
      && ((applicant, item.question) in after ==> after[(applicant, item.question)] == item.answer)
  {
    var kept, dropped := Find(batch, Kept()), Find(batch, Dropped());
    var key := (applicant, item.question);
    DistinctQuestions(batch);
    UpsertStores(answers, applicant, kept);
    if ShouldAnswerBeDeleted(Some(item.answer)) {
      assert item in dropped;
      forall other | other in kept ensures other.question != item.question {
        assert other in batch;
      }
      assert key !in (set other | other in kept :: (applicant, other.question));
    } else {
      assert item in kept;
      forall other | other in dropped ensures other.question != item.question {
        assert other in batch;
      }
      assert key !in ToBeDeleted(answers, applicant, dropped);
    }
  }

  // ----- what a batch answers -----

  ghost predicate Drops(batch: seq<AnswerItem>, question: Id) {
    exists item :: item in batch && item.question == question && !HasTwoUnits(Trim(item.answer))
  }

  ghost predicate Keeps(batch: seq<AnswerItem>, question: Id) {
    exists item :: item in batch && item.question == question && HasTwoUnits(Trim(item.answer))
  }

  /** Whether a question will count as answered: a dropped answer is deleted last, but only if there was one before. */
  ghost predicate WillBeAnswered(answers: Answers, applicant: Id, batch: seq<AnswerItem>, question: Id) {
    if Drops(batch, question) && (applicant, question) in answers then false
    else Keeps(batch, question) || Answered(answers, applicant, question)
  }

  /** For any batch that is stored, also one with a question that it keeps and drops. */
  lemma AnsweredAfterBatch(answers: Answers, applicant: Id, batch: seq<AnswerItem>, question: Id)
    requires UpdatedAnswers(answers, applicant, batch).Some?
    ensures Answered(UpdatedAnswers(answers, applicant, batch).value, applicant, question)
       <==> WillBeAnswered(answers, applicant, batch, question)
  {
    var kept, dropped, key := Find(batch, Kept()), Find(batch, Dropped()), (applicant, question);
    UpsertStores(answers, applicant, kept);
    KeptQuestions(batch, question);
    assert key in ToBeDeleted(answers, applicant, dropped) <==> Drops(batch, question) && key in answers;
    if Keeps(batch, question) {
      var item :| item in kept && item.question == question;
      KeptAnswers(item.answer);
      assert item in batch;
    }
  }

  lemma KeptQuestions(batch: seq<AnswerItem>, question: Id)
    ensures Keeps(batch, question) <==> exists item :: item in Find(batch, Kept()) && item.question == question
    ensures Drops(batch, question) <==> exists item :: item in Find(batch, Dropped()) && item.question == question
    ensures forall item :: item in Find(batch, Kept()) ==> item in batch && !ShouldAnswerBeDeleted(Some(item.answer))
  {
    forall item | item in batch
      ensures item in Find(batch, Kept()) <==> HasTwoUnits(Trim(item.answer))
      ensures item in Find(batch, Dropped()) <==> !HasTwoUnits(Trim(item.answer))
    {
      KeptAnswers(item.answer);
    }
  }

  /** The text stored for a question: that of the item to keep, or else the text from before. */
  ghost predicate IsStoredText(answers: Answers, after: Answers, key: (Id, Id), batch: seq<AnswerItem>) {
    && key in after
    && if Keeps(batch, key.1)
       then exists item :: item in batch && item.question == key.1 && HasTwoUnits(Trim(item.answer))
                           && after[key] == item.answer
       else key in answers && after[key] == answers[key]
  }

  /** What a stored batch leaves under a key: nothing if it drops an old answer, and the answers of others as before. */
  ghost predicate StoresKey(answers: Answers, after: Answers, applicant: Id, batch: seq<AnswerItem>, key: (Id, Id)) {
    if key.0 != applicant then (key in after <==> key in answers) && (key in answers ==> after[key] == answers[key])
    else if key in answers && Drops(batch, key.1) then key !in after
    else if key in answers || Keeps(batch, key.1) then IsStoredText(answers, after, key, batch)
    else key !in after
  }

  ghost predicate StoresBatch(answers: Answers, after: Answers, applicant: Id, batch: seq<AnswerItem>) {
    forall key: (Id, Id) :: StoresKey(answers, after, applicant, batch, key)
  }

  lemma BatchStoresKey(answers: Answers, applicant: Id, batch: seq<AnswerItem>, key: (Id, Id))
    requires UpdatedAnswers(answers, applicant, batch).Some?
    ensures StoresKey(answers, UpdatedAnswers(answers, applicant, batch).value, applicant, batch, key)
  {
    var kept := Find(batch, Kept());
    UpsertStores(answers, applicant, kept);
    KeptQuestions(batch, key.1);
    if key.0 == applicant && Keeps(batch, key.1) {
      var item :| item in kept && item.question == key.1;
      KeptAnswers(item.answer);
    }
  }

  /** The form has questions, and each of them will count as answered after the batch. */
  ghost predicate WillBeFilledIn(cfg: Config, answers: Answers, applicant: Id, batch: seq<AnswerItem>, collection: Id) {
    && (exists q :: q in cfg.questions && q.collection == collection)
    && (forall q :: q in cfg.questions && q.collection == collection ==>
          WillBeAnswered(answers, applicant, batch, q.id))
  }

  lemma FilledInAfterBatch(cfg: Config, answers: Answers, applicant: Id, batch: seq<AnswerItem>, collection: Id)
    requires UpdatedAnswers(answers, applicant, batch).Some?
    ensures IsFilledIn(cfg, UpdatedAnswers(answers, applicant, batch).value, applicant, collection)
       <==> WillBeFilledIn(cfg, answers, applicant, batch, collection)
  {
    var after := UpdatedAnswers(answers, applicant, batch).value;
    forall q | q in cfg.questions
      ensures WillBeAnswered(answers, applicant, batch, q.id) <==> Answered(after, applicant, q.id)
    {
      AnsweredAfterBatch(answers, applicant, batch, q.id);
    }
  }

  ghost predicate FindsTwice(batch: seq<AnswerItem>, where: AnswerItem -> bool) {
    exists i, j :: 0 <= i < j < |batch| && where(batch[i]) && where(batch[j]) && batch[i].question == batch[j].question
  }

  ghost function HasTwoUnitsLeft(): AnswerItem -> bool {
    (item: AnswerItem) => HasTwoUnits(Trim(item.answer))
  }

  /** A batch is refused exactly when it keeps two answers to one question. */
  lemma RefusedBatch(answers: Answers, applicant: Id, batch: seq<AnswerItem>)
    ensures UpdatedAnswers(answers, applicant, batch).None? <==> FindsTwice(batch, HasTwoUnitsLeft())
  {
    forall item: AnswerItem ensures Kept()(item) <==> HasTwoUnitsLeft()(item) {
      KeptAnswers(item.answer);
    }
    DistinctFound(batch, Kept());
  }

  lemma DistinctFound(batch: seq<AnswerItem>, where: AnswerItem -> bool)
    ensures Distinct(Column(Find(batch, where), QuestionOf())) <==> !FindsTwice(batch, where)
  {
    var found := Find(batch, where);
    if FindsTwice(batch, where) {
      var i, j :| 0 <= i < j < |batch| && where(batch[i]) && where(batch[j]) && batch[i].question == batch[j].question;
      FoundTwice(batch, where, i, j);
    } else {
      var differ := (a: AnswerItem, b: AnswerItem) => !(where(a) && where(b) && a.question == b.question);
      FindKeepsPairs(batch, where, differ);
      forall i, j | 0 <= i < j < |found| ensures Column(found, QuestionOf())[i] != Column(found, QuestionOf())[j] {
        assert differ(found[i], found[j]) && found[i] in found && found[j] in found;
      }
    }
  }

  lemma FoundTwice(batch: seq<AnswerItem>, where: AnswerItem -> bool, i: nat, j: nat)
    requires i < j < |batch| && where(batch[i]) && where(batch[j]) && batch[i].question == batch[j].question
    ensures !Distinct(Column(Find(batch, where), QuestionOf()))
  {
    var found, same := Find(batch, where), (item: AnswerItem) => where(item) && item.question == batch[i].question;
    TwoFound(batch, same, i, j);
    FindWithin(batch, where, same);
    if Distinct(Column(found, QuestionOf())) {
      forall k, l | 0 <= k < l < |found| ensures !(same(found[k]) && same(found[l])) {
        assert Column(found, QuestionOf())[k] != Column(found, QuestionOf())[l];
      }
      AtMostOneFound(found, same);
    }
  }
}

/** The question services of app/services/question.py: creation under a
    form, the ordered listing, partial update, deletion and reordering. */
module QuestionService {

  import opened Common
  import opened Collections
  import opened FormModel
  import opened QuestionModel
  import opened QuestionSchema
  import opened Database

  /** `Question(form=form, **question_data.model_dump())`: the document built
      from a validated body. `model_dump` passes `options` explicitly, so the
      document's own options validator runs on it, whatever the body did. */
  function BuildQuestion(formId: Id, data: QuestionCreate, id: Id, now: int): (r: Result<Question>)
    ensures r.Ok? <==> OptionsRule(data.questionType, data.options)
    ensures r.Err? ==> r.error == Unprocessable(TypeName(data.questionType) + " requires options")
    ensures r.Ok? ==> && r.value.id == id && r.value.form == formId
                      && r.value.title == data.title && r.value.description == data.description
                      && r.value.questionType == data.questionType
                      && r.value.isRequired == data.isRequired && r.value.order == data.order
                      && r.value.options == data.options
                      && r.value.minLength == data.minLength && r.value.maxLength == data.maxLength
                      && r.value.minValue == data.minValue && r.value.maxValue == data.maxValue
                      && r.value.createdAt == now && r.value.updatedAt == now
    ensures r.Ok? && BoundsOk(data) ==> FieldBounds(r.value)
  {
    match ValidateOptions(Some(data.questionType), data.options)
    case Err(e) => Err(e)
    case Ok(options) =>
      Ok(Question(id, formId, data.title, data.description, data.questionType, data.isRequired,
                  data.order, options, data.minLength, data.maxLength, data.minValue, data.maxValue,
                  now, now))
  }

  /** A body the intended request validation accepts always builds. */
  lemma WellFormedBuilds(formId: Id, input: QuestionCreateInput, id: Id, now: int)
    requires ValidateCreate(input).Some?
    ensures BuildQuestion(formId, ValidateCreate(input).value, id, now).Ok?
    ensures FieldBounds(BuildQuestion(formId, ValidateCreate(input).value, id, now).value)
  {
  }

  /** What `create_question` answers: NotFound when the form is missing; a
      500 when the document's options validator refuses the body, since
      nothing handles the validation error it raises; otherwise the built
      question. */
  function CreateOutcome(forms: seq<Form>, formId: Id, data: QuestionCreate, id: Id, now: int)
    : (r: Result<Question>)
    ensures formId !in KeySet(forms, FormId) <==> r == Err(NotFound("Form not found"))
    ensures formId in KeySet(forms, FormId) && !OptionsRule(data.questionType, data.options) ==>
              r == Err(ServerError("Internal Server Error"))
    ensures r.Ok? <==> formId in KeySet(forms, FormId) && OptionsRule(data.questionType, data.options)
    ensures r.Ok? ==> BuildQuestion(formId, data, id, now) == r
  {
    if FirstBy(forms, FormId, formId).None? then Err(NotFound("Form not found"))
    else
      match BuildQuestion(formId, data, id, now)
      case Err(_) => Err(ServerError("Internal Server Error"))
      case Ok(q) => Ok(q)
  }

  /** The body the written request validation lets through (a choice type
      without options) is stopped only when the document is built, and then
      as a 500 instead of the 422 that the intended validation gives. */
  lemma OmittedOptionsRejectedLate(forms: seq<Form>, formId: Id, id: Id, now: int)
    requires formId in KeySet(forms, FormId)
    ensures var input := QuestionCreateInput("Choose one", Unset, MultipleChoice, Set(true), Unset,
                                             Unset, Unset, Unset, Unset, Unset);
            && ValidateCreate(input).None?
            && ValidateCreateAsWritten(input).Some?
            && BuildQuestion(formId, ValidateCreateAsWritten(input).value, id, now)
               == Err(Unprocessable("multiple_choice requires options"))
            && CreateOutcome(forms, formId, ValidateCreateAsWritten(input).value, id, now)
               == Err(ServerError("Internal Server Error"))
  {
    OmittedOptionsAccepted();
  }

  /** `create_question`: NotFound when the form is missing; a 500 when the
      document's options validator refuses the body; otherwise exactly one
      question of that form is added. */
  method CreateQuestion(db: Db, formId: Id, data: QuestionCreate, id: Id, now: int)
    returns (r: Result<Question>)
    requires db.Valid() && BoundsOk(data) && id !in KeySet(db.questions, QuestionId)
    modifies db
    ensures db.Valid()
    ensures formId !in KeySet(old(db.forms), FormId) ==> r == Err(NotFound("Form not found"))
    ensures r == CreateOutcome(old(db.forms), formId, data, id, now)
    ensures r.Ok? ==> db.questions == old(db.questions) + [r.value]
    ensures r.Ok? ==> FieldBounds(r.value) && OptionsRule(r.value.questionType, r.value.options)
    ensures r.Err? ==> db.questions == old(db.questions)
    ensures db.forms == old(db.forms) && db.responses == old(db.responses)
    ensures db.answers == old(db.answers) && db.users == old(db.users)
  {
    if FindForm(db, formId).None? {
      return Err(NotFound("Form not found"));
    }
    var built := BuildQuestion(formId, data, id, now);
    if built.Err? {
      return Err(ServerError("Internal Server Error"));
    }
    AddQuestionPreserves(db.forms, db.questions, db.responses, db.users, built.value);
    db.questions := db.questions + [built.value];
    r := built;
  }

  /** `get_form_questions`: the form's questions, by ascending `order`, each
      rebuilt as a `QuestionResponse`. That schema demands `order >= 0`, which
      a reorder request may have broken, and the resulting validation error
      is not handled. */
  function GetFormQuestions(db: Db, formId: Id): (r: Result<seq<Question>>)
    reads db
    ensures r.Err? <==> exists q :: q in db.questions && q.form == formId && q.order < 0
    ensures r.Err? ==> r.error == ServerError("Internal Server Error")
    ensures r.Ok? ==> forall q :: q in r.value <==> q in db.questions && q.form == formId
    ensures r.Ok? ==> multiset(r.value) == multiset(Select(db.questions, QuestionForm, formId))
    ensures r.Ok? ==> forall i, j :: 0 <= i < j < |r.value| ==> 0 <= r.value[i].order <= r.value[j].order
  {
    var mine := Select(db.questions, QuestionForm, formId);
    SortByCorrect(mine, QuestionOrder);
    var r := SortBy(mine, QuestionOrder);
    forall q ensures q in r <==> q in db.questions && q.form == formId {
      assert q in r <==> q in multiset(r);
      assert q in mine <==> q in multiset(mine);
    }
    assert forall i, j :: 0 <= i < j < |r| ==> QuestionOrder(r[i]) <= QuestionOrder(r[j]);
    if exists q :: q in r && q.order < 0 then Err(ServerError("Internal Server Error")) else Ok(r)
  }

  /** `Question.get(id)`. */
  function FindQuestion(db: Db, id: Id): (r: Option<Question>)
    reads db
    ensures r.Some? ==> r.value in db.questions && r.value.id == id
    ensures r.None? <==> id !in KeySet(db.questions, QuestionId)
  {
    FirstBy(db.questions, QuestionId, id)
  }

  /** The question after `question.set(update_data)`: the supplied fields
      take their values, the others keep theirs, and `updated_at` moves to
      `now` only when a field was supplied. There is no type to supply. */
  function ApplyQuestionUpdate(q: Question, u: QuestionUpdate, now: int): (g: Question)
    ensures g.id == q.id && g.form == q.form && g.questionType == q.questionType
    ensures g.createdAt == q.createdAt
    ensures QuestionSchema.NoFieldSet(u) ==> g == q
    ensures !QuestionSchema.NoFieldSet(u) ==> g.updatedAt == now
    ensures g.title == Updated(u.title, q.title) && g.description == Updated(u.description, q.description)
    ensures g.isRequired == Updated(u.isRequired, q.isRequired) && g.order == Updated(u.order, q.order)
    ensures g.options == Updated(u.options, q.options)
    ensures g.minLength == Updated(u.minLength, q.minLength)
    ensures g.maxLength == Updated(u.maxLength, q.maxLength)
    ensures g.minValue == Updated(u.minValue, q.minValue)
    ensures g.maxValue == Updated(u.maxValue, q.maxValue)
  {
    if QuestionSchema.NoFieldSet(u) then q
    else
      q.(title := Updated(u.title, q.title),
         description := Updated(u.description, q.description),
         isRequired := Updated(u.isRequired, q.isRequired),
         order := Updated(u.order, q.order),
         options := Updated(u.options, q.options),
         minLength := Updated(u.minLength, q.minLength),
         maxLength := Updated(u.maxLength, q.maxLength),
         minValue := Updated(u.minValue, q.minValue),
         maxValue := Updated(u.maxValue, q.maxValue),
         updatedAt := now)
  }

  /** An update whose supplied fields meet the QuestionUpdate bounds keeps a
      question within the field bounds, and applying it twice is applying
      it once. */
  lemma QuestionUpdateProperties(q: Question, u: QuestionUpdate, now: int)
    ensures FieldBounds(q) && UpdateWellFormed(u) ==> FieldBounds(ApplyQuestionUpdate(q, u, now))
    ensures ApplyQuestionUpdate(ApplyQuestionUpdate(q, u, now), u, now) == ApplyQuestionUpdate(q, u, now)
  {
  }

  /** The options rule is not re-checked on update: supplying an empty
      option list empties a multiple-choice question's options. */
  lemma UpdateSkipsOptionsRule(q: Question, now: int)
    requires q.questionType == MultipleChoice
    ensures var u := QuestionUpdate(Unset, Unset, Unset, Unset, Set(Some([])), Unset, Unset, Unset, Unset);
            UpdateWellFormed(u) && !OptionsRule(q.questionType, ApplyQuestionUpdate(q, u, now).options)
  {
  }

  /** `update_question`: NotFound for an unknown id; otherwise that one
      question is replaced by its updated version. */
  method UpdateQuestion(db: Db, questionId: Id, update: QuestionUpdate, now: int) returns (r: Result<Question>)
    requires db.Valid()
    modifies db
    ensures db.Valid()
    ensures old(FindQuestion(db, questionId)).None? <==> r == Err(NotFound("Question not found"))
    ensures old(FindQuestion(db, questionId)).Some? ==>
              r == Ok(ApplyQuestionUpdate(old(FindQuestion(db, questionId)).value, update, now))
    ensures |db.questions| == |old(db.questions)|
    ensures forall k :: 0 <= k < |db.questions| ==>
              db.questions[k] == if old(db.questions[k]).id == questionId then r.value else old(db.questions[k])
    ensures db.forms == old(db.forms) && db.responses == old(db.responses)
    ensures db.answers == old(db.answers) && db.users == old(db.users)
  {
    if FindQuestion(db, questionId).None? {
      assert forall k :: 0 <= k < |db.questions| ==> db.questions[k].id != questionId by {
        forall k | 0 <= k < |db.questions| ensures db.questions[k].id != questionId {
          assert db.questions[k] in db.questions;
        }
      }
      return Err(NotFound("Question not found"));
    }
    var i := IndexBy(db.questions, QuestionId, questionId);
    var g := ApplyQuestionUpdate(db.questions[i], update, now);
    FirstByFinds(db.questions, QuestionId, db.questions[i]);
    forall k | 0 <= k < |db.questions| && db.questions[k].id == questionId ensures k == i {
      assert !(k < i) && !(i < k);
    }
    SameQuestionKeysPreserve(db.forms, db.questions, db.questions[i := g], db.responses, db.users);
    db.questions := db.questions[i := g];
    r := Ok(g);
  }

  /** `delete_question`: NotFound for an unknown id; otherwise exactly that
      question is removed. The question's form is not consulted and its
      answers stay. */
  method DeleteQuestion(db: Db, questionId: Id) returns (r: Result<bool>)
    requires db.Valid()
    modifies db
    ensures db.Valid()
    ensures questionId !in KeySet(old(db.questions), QuestionId) <==> r == Err(NotFound("Question not found"))
    ensures r.Ok? ==> r.value
    ensures r.Err? ==> db.questions == old(db.questions)
    ensures r.Ok? ==> db.questions == Reject(old(db.questions), QuestionId, questionId)
    ensures r.Ok? ==> |db.questions| == |old(db.questions)| - 1
    ensures KeySet(db.questions, QuestionId) == KeySet(old(db.questions), QuestionId) - {questionId}
    ensures db.forms == old(db.forms) && db.responses == old(db.responses)
    ensures db.answers == old(db.answers) && db.users == old(db.users)
  {
    if FindQuestion(db, questionId).None? {
      return Err(NotFound("Question not found"));
    }
    RejectPresent(db.questions, QuestionId, questionId);
    RemoveQuestionPreserves(db.forms, db.questions, db.responses, db.users, questionId);
    db.questions := Reject(db.questions, QuestionId, questionId);
    r := Ok(true);
  }

  /** One `{question_id, order}` item of a reorder request. */
  datatype OrderEntry = OrderEntry(questionId: Id, order: int)

  function OrderEntryId(e: OrderEntry): Id { e.questionId }

  /** `{item["question_id"]: item["order"] for item in question_orders}`. */
  function OrderMap(entries: seq<OrderEntry>): (m: map<Id, int>)
    ensures m.Keys == KeySet(entries, OrderEntryId)
  {
    if entries == [] then map[]
    else
      var last := entries[|entries| - 1];
      var init := entries[..|entries| - 1];
      assert entries == init + [last];
      KeySetAppend(init, OrderEntryId, last);
      OrderMap(init)[last.questionId := last.order]
  }

  /** In the map, the last entry for an id wins. */
  lemma {:induction false} OrderMapLastWins(entries: seq<OrderEntry>, id: Id)
    requires id in OrderMap(entries)
    ensures LastBy(entries, OrderEntryId, id).Some?
    ensures OrderMap(entries)[id] == LastBy(entries, OrderEntryId, id).value.order
  {
    var last := entries[|entries| - 1];
    if last.questionId != id {
      OrderMapLastWins(entries[..|entries| - 1], id);
    }
  }

  /** What `reorder_questions` does to one question: a question of the form
      whose id is in the map takes its new order and `updated_at`; every
      other question is left alone. */
  function Reordered(q: Question, formId: Id, m: map<Id, int>, now: int): (g: Question)
    ensures g.id == q.id && g.form == q.form
    ensures q.form == formId && q.id in m ==> g == q.(order := m[q.id], updatedAt := now)
    ensures !(q.form == formId && q.id in m) ==> g == q
  {
    if q.form == formId && q.id in m then q.(order := m[q.id], updatedAt := now) else q
  }

  /** `reorder_questions`: builds the last-wins order map, then updates in
      place the form's questions it names, and returns all of the form's
      questions. Ids of other forms' questions are ignored. */
  method ReorderQuestions(db: Db, formId: Id, entries: seq<OrderEntry>, now: int) returns (r: seq<Question>)
    requires db.Valid()
    modifies db
    ensures db.Valid()
    ensures |db.questions| == |old(db.questions)|
    ensures forall k :: 0 <= k < |db.questions| ==>
              db.questions[k] == Reordered(old(db.questions[k]), formId, OrderMap(entries), now)
    ensures r == Select(db.questions, QuestionForm, formId)
    ensures db.forms == old(db.forms) && db.responses == old(db.responses)
    ensures db.answers == old(db.answers) && db.users == old(db.users)
  {
    var orderMap := OrderMap(entries);
    ghost var before := db.questions;
    for k := 0 to |db.questions|
      invariant |db.questions| == |before|
      invariant forall j :: 0 <= j < k ==> db.questions[j] == Reordered(before[j], formId, orderMap, now)
      invariant forall j :: k <= j < |before| ==> db.questions[j] == before[j]
      invariant db.forms == old(db.forms) && db.responses == old(db.responses)
      invariant db.answers == old(db.answers) && db.users == old(db.users)
    {
      var q := db.questions[k];
      if q.form == formId && q.id in orderMap {
        db.questions := db.questions[k := q.(order := orderMap[q.id], updatedAt := now)];
      }
    }
    SameQuestionKeysPreserve(db.forms, before, db.questions, db.responses, db.users);
    r := Select(db.questions, QuestionForm, formId);
  }

  /** After a reorder, a question of the form named in the request carries
      the order of the last entry naming it, and every other question is
      unchanged. */
  lemma ReorderedLastEntryWins(q: Question, formId: Id, entries: seq<OrderEntry>, now: int)
    ensures q.form == formId && q.id in KeySet(entries, OrderEntryId) ==>
              Reordered(q, formId, OrderMap(entries), now).order
                == LastBy(entries, OrderEntryId, q.id).value.order
    ensures q.form != formId || q.id !in KeySet(entries, OrderEntryId) ==>
              Reordered(q, formId, OrderMap(entries), now) == q
  {
    if q.form == formId && q.id in KeySet(entries, OrderEntryId) {
      OrderMapLastWins(entries, q.id);
    }
  }
}

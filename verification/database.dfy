/** The document store the services work on: one collection per document
    class, each in insertion (natural) order, with the integrity the
    services maintain between them. */
module Database {

  import opened Common
  import opened Collections
  import opened FormModel
  import opened QuestionModel
  import opened AnswerModel
  import opened UserModel

  /** The integrity of the store:
      - ids are unique in every collection, and so are user e-mails and
        usernames (the unique indexes of the User document);
      - every question and every response belongs to a stored form
        (answers may outlive their response: a form deletion keeps them);
      - each form's `responseCount` equals its number of stored responses. */
  predicate StoreInvariant(
    forms: seq<Form>, questions: seq<Question>, responses: seq<FormResponse>, users: seq<User>)
  {
    && DistinctBy(forms, FormId)
    && DistinctBy(questions, QuestionId)
    && DistinctBy(responses, ResponseId)
    && DistinctBy(users, UserId)
    && DistinctBy(users, UserEmail)
    && DistinctBy(users, UserName)
    && (forall q :: q in questions ==> q.form in KeySet(forms, FormId))
    && (forall r :: r in responses ==> r.form in KeySet(forms, FormId))
    && (forall f :: f in forms ==> f.responseCount == |Select(responses, ResponseForm, f.id)|)
  }

  class Db {
    var forms: seq<Form>
    var questions: seq<Question>
    var responses: seq<FormResponse>
    var answers: seq<Answer>
    var users: seq<User>

    ghost predicate Valid()
      reads this
    {
      StoreInvariant(forms, questions, responses, users)
    }

    /** An empty store. */
    constructor ()
      ensures Valid()
      ensures forms == [] && questions == [] && responses == [] && answers == [] && users == []
    {
      forms, questions, responses, answers, users := [], [], [], [], [];
    }
  }

  /** `Form.get(id)`. */
  function FindForm(db: Db, id: Id): (r: Option<Form>)
    reads db
    ensures r.Some? ==> r.value in db.forms && r.value.id == id
    ensures r.None? <==> id !in KeySet(db.forms, FormId)
  {
    FirstBy(db.forms, FormId, id)
  }

  /** Appending a new form whose counter is 0 keeps the store consistent. */
  lemma AddFormPreserves(
    forms: seq<Form>, questions: seq<Question>, responses: seq<FormResponse>, users: seq<User>, f: Form)
    requires StoreInvariant(forms, questions, responses, users)
    requires f.id !in KeySet(forms, FormId) && f.responseCount == 0
    ensures StoreInvariant(forms + [f], questions, responses, users)
  {
    AppendDistinct(forms, FormId, f);
    assert f.id !in KeySet(responses, ResponseForm);
    SelectAbsent(responses, ResponseForm, f.id);
  }

  /** Replacing a form by one with the same id and counter keeps the store
      consistent. */
  lemma ReplaceFormPreserves(
    forms: seq<Form>, questions: seq<Question>, responses: seq<FormResponse>, users: seq<User>,
    i: nat, g: Form)
    requires StoreInvariant(forms, questions, responses, users)
    requires i < |forms| && g.id == forms[i].id && g.responseCount == forms[i].responseCount
    ensures StoreInvariant(forms[i := g], questions, responses, users)
  {
    ReplaceDistinct(forms, FormId, i, g);
    forall f | f in forms[i := g] ensures f.responseCount == |Select(responses, ResponseForm, f.id)| {
      var j :| 0 <= j < |forms| && forms[i := g][j] == f;
      assert j != i ==> f == forms[j];
    }
  }

  /** Removing a form with its questions and responses keeps the store
      consistent, and leaves every other form's questions and responses as
      they were. */
  lemma DeleteFormPreserves(
    forms: seq<Form>, questions: seq<Question>, responses: seq<FormResponse>, users: seq<User>, id: Id)
    requires StoreInvariant(forms, questions, responses, users)
    ensures StoreInvariant(
              Reject(forms, FormId, id), Reject(questions, QuestionForm, id),
              Reject(responses, ResponseForm, id), users)
  {
    var forms', questions', responses' :=
      Reject(forms, FormId, id), Reject(questions, QuestionForm, id), Reject(responses, ResponseForm, id);
    RejectDistinct(forms, FormId, id, FormId);
    RejectDistinct(questions, QuestionForm, id, QuestionId);
    RejectDistinct(responses, ResponseForm, id, ResponseId);
    forall q | q in questions' ensures q.form in KeySet(forms', FormId) {
      var f :| f in forms && f.id == q.form;
      assert f in forms';
    }
    forall r | r in responses' ensures r.form in KeySet(forms', FormId) {
      var f :| f in forms && f.id == r.form;
      assert f in forms';
    }
    forall f | f in forms' ensures f.responseCount == |Select(responses', ResponseForm, f.id)| {
      SelectReject(responses, ResponseForm, id, f.id);
    }
  }

  /** Adding a response to a stored form and incrementing that form's counter
      keeps the store consistent. */
  lemma AddResponsePreserves(
    forms: seq<Form>, questions: seq<Question>, responses: seq<FormResponse>, users: seq<User>,
    i: nat, r: FormResponse)
    requires StoreInvariant(forms, questions, responses, users)
    requires i < |forms| && r.form == forms[i].id && r.id !in KeySet(responses, ResponseId)
    ensures StoreInvariant(
              forms[i := forms[i].(responseCount := forms[i].responseCount + 1)],
              questions, responses + [r], users)
  {
    var g := forms[i].(responseCount := forms[i].responseCount + 1);
    var forms' := forms[i := g];
    ReplaceDistinct(forms, FormId, i, g);
    AppendDistinct(responses, ResponseId, r);
    forall f | f in forms' ensures f.responseCount == |Select(responses + [r], ResponseForm, f.id)| {
      SelectAppend(responses, [r], ResponseForm, f.id);
      var j :| 0 <= j < |forms| && forms'[j] == f;
      if j != i {
        assert f == forms[j] && forms[j].id != forms[i].id;
      }
    }
    forall x | x in responses + [r] ensures x.form in KeySet(forms', FormId) {
      if x == r {
        assert forms'[i] in forms';
      } else {
        assert x in responses;
      }
    }
  }
  /** Appending a question of a stored form under a new id keeps the store
      consistent. */
  lemma AddQuestionPreserves(
    forms: seq<Form>, questions: seq<Question>, responses: seq<FormResponse>, users: seq<User>, q: Question)
    requires StoreInvariant(forms, questions, responses, users)
    requires q.id !in KeySet(questions, QuestionId) && q.form in KeySet(forms, FormId)
    ensures StoreInvariant(forms, questions + [q], responses, users)
  {
    AppendDistinct(questions, QuestionId, q);
  }

  /** Rewriting questions position by position, keeping each one's id and
      form, keeps the store consistent. */
  lemma SameQuestionKeysPreserve(
    forms: seq<Form>, questions: seq<Question>, questions': seq<Question>,
    responses: seq<FormResponse>, users: seq<User>)
    requires StoreInvariant(forms, questions, responses, users)
    requires |questions'| == |questions|
    requires forall k :: 0 <= k < |questions| ==>
               questions'[k].id == questions[k].id && questions'[k].form == questions[k].form
    ensures StoreInvariant(forms, questions', responses, users)
  {
    forall q | q in questions' ensures q.form in KeySet(forms, FormId) {
      var k :| 0 <= k < |questions'| && questions'[k] == q;
      assert questions[k] in questions;
    }
  }

  /** Deleting the question with a given id keeps the store consistent. */
  lemma RemoveQuestionPreserves(
    forms: seq<Form>, questions: seq<Question>, responses: seq<FormResponse>, users: seq<User>, id: Id)
    requires StoreInvariant(forms, questions, responses, users)
    ensures StoreInvariant(forms, Reject(questions, QuestionId, id), responses, users)
  {
    RejectDistinct(questions, QuestionId, id, QuestionId);
  }
}

/** The submission services of app/services/answer.py: recording a form
    response with its answers, listing a form's responses and reading one
    response back with its answers. */
module AnswerService {

  import opened Common
  import opened Collections
  import opened FormModel
  import opened QuestionModel
  import opened AnswerModel
  import opened Database
  import opened AnswerValidation

  /** The checks `submit_form_response` runs before writing anything, in
      their order: the form exists, it accepts responses, a respondent is
      present when it requires authentication, and the answers validate
      against the form's questions. The form's `is_active` flag is not
      consulted. */
  function SubmissionCheck(forms: seq<Form>, questions: seq<Question>, formId: Id,
                           entries: seq<AnswerIn>, respondent: Option<Id>): (r: Result<Form>)
    ensures formId !in KeySet(forms, FormId) <==> r == Err(NotFound("Form not found"))
    ensures r.Ok? ==> r.value in forms && r.value.id == formId
    ensures formId in KeySet(forms, FormId) ==>
              var form := FirstBy(forms, FormId, formId).value;
              var errors := ValidationErrors(Select(questions, QuestionForm, formId), entries);
              r == if !form.acceptsResponses then Err(Forbidden("Form is not accepting responses"))
                   else if form.requiresAuth && respondent.None? then Err(Forbidden("Authentication required"))
                   else if errors != [] then Err(BadRequest("Invalid answers: " + JoinMessages(errors)))
                   else Ok(form)
    ensures r.Ok? <==>
              && formId in KeySet(forms, FormId)
              && FirstBy(forms, FormId, formId).value.acceptsResponses
              && (FirstBy(forms, FormId, formId).value.requiresAuth ==> respondent.Some?)
              && ValidationErrors(Select(questions, QuestionForm, formId), entries) == []
  {
    match FirstBy(forms, FormId, formId)
    case None => Err(NotFound("Form not found"))
    case Some(form) =>
      if !form.acceptsResponses then Err(Forbidden("Form is not accepting responses"))
      else if form.requiresAuth && respondent.None? then Err(Forbidden("Authentication required"))
      else
        var errors := ValidationErrors(Select(questions, QuestionForm, formId), entries);
        if errors != [] then Err(BadRequest("Invalid answers: " + JoinMessages(errors)))
        else Ok(form)
  }

  /** Authentication is checked before the answers: an anonymous submission
      to a form that requires authentication is refused as such, whatever
      its answers. */
  lemma AuthCheckedBeforeAnswers(forms: seq<Form>, questions: seq<Question>, formId: Id,
                                 entries: seq<AnswerIn>)
    requires formId in KeySet(forms, FormId)
    requires FirstBy(forms, FormId, formId).value.acceptsResponses
    requires FirstBy(forms, FormId, formId).value.requiresAuth
    ensures SubmissionCheck(forms, questions, formId, entries, None) == Err(Forbidden("Authentication required"))
  {
  }

  /** A form that is not active still takes submissions: only
      `accepts_responses` and `requires_auth` gate them. */
  lemma InactiveFormAccepts(forms: seq<Form>, questions: seq<Question>, f: Form,
                            entries: seq<AnswerIn>, respondent: Option<Id>)
    requires DistinctBy(forms, FormId) && f in forms
    requires !f.isActive && f.acceptsResponses && !f.requiresAuth
    requires ValidationErrors(Select(questions, QuestionForm, f.id), entries) == []
    ensures SubmissionCheck(forms, questions, f.id, entries, respondent) == Ok(f)
  {
    FirstByFinds(forms, FormId, f);
  }

  /** `metadata.get(key) if metadata else None`. */
  function MetadataValue(metadata: map<string, string>, key: string): (r: Option<string>)
    ensures r.Some? <==> key in metadata
    ensures r.Some? ==> r.value == metadata[key]
  {
    if key in metadata then Some(metadata[key]) else None
  }

  /** The answers stored for a submission, one per submitted entry, in
      submission order, each attached to the response. */
  function AnswerRecords(entries: seq<AnswerIn>, responseId: Id, now: int): (r: seq<Answer>)
    ensures |r| == |entries|
    ensures forall i :: 0 <= i < |r| ==>
              r[i] == Answer(entries[i].questionId, Some(responseId), entries[i].value, now)
  {
    if entries == [] then []
    else
      var last := entries[|entries| - 1];
      AnswerRecords(entries[..|entries| - 1], responseId, now)
        + [Answer(last.questionId, Some(responseId), last.value, now)]
  }

  /** The stored response of a successful submission. */
  function NewResponse(formId: Id, respondent: Option<Id>, metadata: map<string, string>,
                       responseId: Id, now: int): (r: FormResponse)
    ensures r.id == responseId && r.form == formId && r.respondent == respondent
    ensures r.submittedAt == now && r.isComplete && r.isValid
    ensures r.ipAddress == MetadataValue(metadata, "ip_address")
    ensures r.userAgent == MetadataValue(metadata, "user_agent")
  {
    FormResponse(responseId, formId, respondent, now, MetadataValue(metadata, "ip_address"),
                 MetadataValue(metadata, "user_agent"), true, true)
  }

  /** `submit_form_response`: when a check fails, its error and no change;
      otherwise one response, one answer per submitted entry and a response
      counter one higher on that form. */
  method SubmitFormResponse(db: Db, formId: Id, entries: seq<AnswerIn>, respondent: Option<Id>,
                            metadata: map<string, string>, responseId: Id, now: int)
    returns (r: Result<FormResponse>)
    requires db.Valid() && responseId !in KeySet(db.responses, ResponseId)
    modifies db
    ensures db.Valid()
    ensures var check := old(SubmissionCheck(db.forms, db.questions, formId, entries, respondent));
            check.Err? ==> (&& r == Err(check.error)
                            && db.forms == old(db.forms) && db.responses == old(db.responses)
                            && db.answers == old(db.answers))
    ensures var check := old(SubmissionCheck(db.forms, db.questions, formId, entries, respondent));
            check.Ok? ==> (&& r == Ok(NewResponse(formId, respondent, metadata, responseId, now))
                           && db.responses == old(db.responses) + [r.value]
                           && db.answers == old(db.answers) + AnswerRecords(entries, responseId, now))
    ensures |db.forms| == |old(db.forms)|
    ensures r.Ok? ==> forall k :: 0 <= k < |db.forms| ==>
              db.forms[k] == if old(db.forms[k]).id == formId
                             then old(db.forms[k]).(responseCount := old(db.forms[k]).responseCount + 1)
                             else old(db.forms[k])
    ensures db.questions == old(db.questions) && db.users == old(db.users)
  {
    ghost var check := SubmissionCheck(db.forms, db.questions, formId, entries, respondent);
    var found := FindForm(db, formId);
    if found.None? {
      return Err(NotFound("Form not found"));
    }
    var form := found.value;
    if !form.acceptsResponses {
      return Err(Forbidden("Form is not accepting responses"));
    }
    if form.requiresAuth && respondent.None? {
      return Err(Forbidden("Authentication required"));
    }
    var ok, errors := ValidateAnswers(Select(db.questions, QuestionForm, formId), entries);
    if !ok {
      assert check == Err(BadRequest("Invalid answers: " + JoinMessages(errors)));
      return Err(BadRequest("Invalid answers: " + JoinMessages(errors)));
    }
    assert check == Ok(form);

    var response := NewResponse(formId, respondent, metadata, responseId, now);
    RecordSubmission(db, form, response, entries);
    r := Ok(response);
  }

  /** The writes of a submission that passed its checks: the response is
      saved, then its answers, then the form's counter is incremented. */
  method RecordSubmission(db: Db, form: Form, response: FormResponse, entries: seq<AnswerIn>)
    requires db.Valid() && form in db.forms && response.form == form.id
    requires response.id !in KeySet(db.responses, ResponseId)
    modifies db
    ensures db.Valid()
    ensures db.responses == old(db.responses) + [response]
    ensures db.answers == old(db.answers) + AnswerRecords(entries, response.id, response.submittedAt)
    ensures |db.forms| == |old(db.forms)|
    ensures forall k :: 0 <= k < |db.forms| ==>
              db.forms[k] == if old(db.forms[k]).id == form.id
                             then old(db.forms[k]).(responseCount := old(db.forms[k]).responseCount + 1)
                             else old(db.forms[k])
    ensures db.questions == old(db.questions) && db.users == old(db.users)
  {
    var i := IndexBy(db.forms, FormId, form.id);
    FirstByFinds(db.forms, FormId, form);
    AddResponsePreserves(db.forms, db.questions, db.responses, db.users, i, response);
    db.responses := db.responses + [response];
    SaveAnswers(db, entries, response.id, response.submittedAt);
    db.forms := db.forms[i := form.(responseCount := form.responseCount + 1)];
  }

  /** The loop of `submit_form_response` that stores one answer per
      submitted entry. */
  method SaveAnswers(db: Db, entries: seq<AnswerIn>, responseId: Id, now: int)
    modifies db
    ensures db.answers == old(db.answers) + AnswerRecords(entries, responseId, now)
    ensures db.forms == old(db.forms) && db.responses == old(db.responses)
    ensures db.questions == old(db.questions) && db.users == old(db.users)
  {
    for j := 0 to |entries|
      invariant db.answers == old(db.answers) + AnswerRecords(entries[..j], responseId, now)
      invariant db.forms == old(db.forms) && db.responses == old(db.responses)
      invariant db.questions == old(db.questions) && db.users == old(db.users)
    {
      assert entries[..j + 1][..j] == entries[..j];
      db.answers := db.answers + [Answer(entries[j].questionId, Some(responseId), entries[j].value, now)];
    }
    assert entries[..|entries|] == entries;
  }

  /** `get_form_responses`: the form's responses, newest first, after
      skipping `skip` of them, at most `limit` of them (0 meaning no limit). */
  function GetFormResponses(db: Db, formId: Id, skip: nat, limit: nat): (r: seq<FormResponse>)
    reads db
    ensures forall x :: x in r ==> x in db.responses && x.form == formId
    ensures forall i, j :: 0 <= i < j < |r| ==> r[i].submittedAt >= r[j].submittedAt
    ensures var n := |Select(db.responses, ResponseForm, formId)|;
            |r| == if skip >= n then 0 else if limit == 0 || skip + limit > n then n - skip else limit
    ensures skip == 0 && limit == 0 ==>
              multiset(r) == multiset(Select(db.responses, ResponseForm, formId))
    ensures exists s :: && multiset(s) == multiset(Select(db.responses, ResponseForm, formId))
                        && SortedBy(s, NewestResponseFirst)
                        && r == Window(s, skip, limit)
  {
    var mine := Select(db.responses, ResponseForm, formId);
    SortedPage(mine, NewestResponseFirst, skip, limit);
    SortByCorrect(mine, NewestResponseFirst);
    var r := Window(SortBy(mine, NewestResponseFirst), skip, limit);
    assert forall i, j :: 0 <= i < j < |r| ==> NewestResponseFirst(r[i]) <= NewestResponseFirst(r[j]);
    r
  }

  /** What `get_response_details` returns. */
  datatype ResponseDetails = ResponseDetails(response: FormResponse, answers: seq<Answer>)

  /** `get_response_details`: NotFound for an unknown id; otherwise the
      response and every answer attached to it, in store order. */
  function GetResponseDetails(db: Db, responseId: Id): (r: Result<ResponseDetails>)
    reads db
    ensures responseId !in KeySet(db.responses, ResponseId) <==> r == Err(NotFound("Response not found"))
    ensures r.Ok? ==> r.value.response in db.responses && r.value.response.id == responseId
    ensures r.Ok? ==> forall a :: a in r.value.answers <==> a in db.answers && a.formResponse == Some(responseId)
    ensures r.Ok? ==> forall a :: multiset(r.value.answers)[a] ==
                        if a.formResponse == Some(responseId) then multiset(db.answers)[a] else 0
  {
    match FirstBy(db.responses, ResponseId, responseId)
    case None => Err(NotFound("Response not found"))
    case Some(response) =>
      SelectCounts(db.answers, AnswerResponse, Some(response.id));
      Ok(ResponseDetails(response, Select(db.answers, AnswerResponse, Some(response.id))))
  }

  /** Every element of the collection has key `k`: selecting `k` keeps it all. */
  lemma {:induction false} SelectAllAnswers(s: seq<Answer>, k: Option<Id>)
    requires forall i :: 0 <= i < |s| ==> s[i].formResponse == k
    ensures Select(s, AnswerResponse, k) == s
  {
    if s != [] {
      var init := s[..|s| - 1];
      var last := s[|s| - 1];
      assert s == init + [last];
      assert AnswerResponse(last) == k;
      forall i | 0 <= i < |init| ensures init[i].formResponse == k {
        assert init[i] == s[i];
      }
      SelectAllAnswers(init, k);
      assert Select(s, AnswerResponse, k) == Select(init, AnswerResponse, k) + [last];
    }
  }

  /** A response appended under a fresh id is the one found by that id. */
  lemma FreshResponseFound(responses: seq<FormResponse>, response: FormResponse)
    requires response.id !in KeySet(responses, ResponseId)
    ensures FirstBy(responses + [response], ResponseId, response.id) == Some(response)
  {
    var all := responses + [response];
    assert response in all;
    var found := FirstBy(all, ResponseId, response.id).value;
    assert found in responses ==> response.id in KeySet(responses, ResponseId);
  }

  /** Round trip: right after a successful submission under a fresh id, the
      details of that response are the stored response and one answer per
      submitted entry, carrying that entry's question id and value, in
      submission order. */
  lemma SubmissionReadBack(
    db: Db, responses: seq<FormResponse>, answers: seq<Answer>, response: FormResponse,
    entries: seq<AnswerIn>, now: int)
    requires response.id !in KeySet(responses, ResponseId)
    requires Some(response.id) !in KeySet(answers, AnswerResponse)
    requires db.responses == responses + [response]
    requires db.answers == answers + AnswerRecords(entries, response.id, now)
    ensures GetResponseDetails(db, response.id) == Ok(ResponseDetails(response, AnswerRecords(entries, response.id, now)))
  {
    FreshResponseFound(responses, response);
    var records := AnswerRecords(entries, response.id, now);
    SelectAppend(answers, records, AnswerResponse, Some(response.id));
    SelectAbsent(answers, AnswerResponse, Some(response.id));
    SelectAllAnswers(records, Some(response.id));
    assert FirstBy(db.responses, ResponseId, response.id) == Some(response);
    assert Select(db.answers, AnswerResponse, Some(response.id)) == records;
  }
}

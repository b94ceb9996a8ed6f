/** The form services of app/services/form.py: creation, the owner's
    listing, the ownership guard, partial update, cascade deletion and the
    response statistics. */
module FormService {

  import opened Common
  import opened Collections
  import opened FormModel
  import opened QuestionModel
  import opened AnswerModel
  import opened Database

  /** `create_form`: stores a new form owned by `owner`, with no responses. */
  method CreateForm(db: Db, data: FormCreate, owner: Id, id: Id, now: int) returns (form: Form)
    requires db.Valid() && id !in KeySet(db.forms, FormId)
    modifies db
    ensures db.Valid()
    ensures form.id == id && form.owner == owner && form.responseCount == 0
    ensures form.title == data.title && form.description == data.description
    ensures form.isActive == data.isActive && form.acceptsResponses == data.acceptsResponses
    ensures form.requiresAuth == data.requiresAuth
    ensures form.createdAt == now && form.updatedAt == now
    ensures db.forms == old(db.forms) + [form]
    ensures db.questions == old(db.questions) && db.responses == old(db.responses)
    ensures db.answers == old(db.answers) && db.users == old(db.users)
  {
    form := Form(id, data.title, data.description, owner, data.isActive, data.acceptsResponses,
                 data.requiresAuth, now, now, 0);
    AddFormPreserves(db.forms, db.questions, db.responses, db.users, form);
    db.forms := db.forms + [form];
  }

  /** `get_user_forms`: the user's forms, newest first, after skipping
      `skip` of them, at most `limit` of them (0 meaning no limit). */
  function GetUserForms(db: Db, user: Id, skip: nat, limit: nat): (r: seq<Form>)
    reads db
    ensures forall f :: f in r ==> f in db.forms && f.owner == user
    ensures forall i, j :: 0 <= i < j < |r| ==> r[i].createdAt >= r[j].createdAt
    ensures var n := |Select(db.forms, FormOwner, user)|;
            |r| == if skip >= n then 0 else if limit == 0 || skip + limit > n then n - skip else limit
    ensures skip == 0 && limit == 0 ==> multiset(r) == multiset(Select(db.forms, FormOwner, user))
    ensures exists s :: && multiset(s) == multiset(Select(db.forms, FormOwner, user))
                        && SortedBy(s, NewestFormFirst)
                        && r == Window(s, skip, limit)
  {
    var owned := Select(db.forms, FormOwner, user);
    SortedPage(owned, NewestFormFirst, skip, limit);
    SortByCorrect(owned, NewestFormFirst);
    var r := Window(SortBy(owned, NewestFormFirst), skip, limit);
    assert forall i, j :: 0 <= i < j < |r| ==> NewestFormFirst(r[i]) <= NewestFormFirst(r[j]);
    r
  }

  /** `get_form_by_id`: NotFound when no form has the id; Forbidden when a
      user is given who does not own it; no ownership check without a user. */
  function GetFormById(db: Db, formId: Id, user: Option<Id>): (r: Result<Form>)
    reads db
    requires db.Valid()
    ensures formId !in KeySet(db.forms, FormId) ==> r == Err(NotFound("Form not found"))
    ensures forall f :: f in db.forms && f.id == formId ==>
              r == if user.Some? && f.owner != user.value then Err(Forbidden("Access denied")) else Ok(f)
  {
    match FindForm(db, formId)
    case None => Err(NotFound("Form not found"))
    case Some(f) =>
      assert forall g :: g in db.forms && g.id == formId ==> g == f by {
        forall g | g in db.forms && g.id == formId ensures g == f {
          DistinctKeyedEqual(db.forms, FormId, g, f);
        }
      }
      if user.Some? && f.owner != user.value then Err(Forbidden("Access denied")) else Ok(f)
  }

  /** The form after `form.set(update_data)`: the supplied fields take their
      new values, the others keep theirs, and `updated_at` moves to `now` only
      when at least one field was supplied. */
  function ApplyFormUpdate(f: Form, u: FormUpdate, now: int): (g: Form)
    ensures g.id == f.id && g.owner == f.owner && g.createdAt == f.createdAt
    ensures g.responseCount == f.responseCount
    ensures NoFieldSet(u) ==> g == f
    ensures !NoFieldSet(u) ==> g.updatedAt == now
    ensures g.title == Updated(u.title, f.title) && g.description == Updated(u.description, f.description)
    ensures g.isActive == Updated(u.isActive, f.isActive)
    ensures g.acceptsResponses == Updated(u.acceptsResponses, f.acceptsResponses)
    ensures g.requiresAuth == Updated(u.requiresAuth, f.requiresAuth)
  {
    if NoFieldSet(u) then f
    else
      f.(title := Updated(u.title, f.title),
         description := Updated(u.description, f.description),
         isActive := Updated(u.isActive, f.isActive),
         acceptsResponses := Updated(u.acceptsResponses, f.acceptsResponses),
         requiresAuth := Updated(u.requiresAuth, f.requiresAuth),
         updatedAt := now)
  }

  /** Applying the same update twice is applying it once. */
  lemma FormUpdateIdempotent(f: Form, u: FormUpdate, now: int)
    ensures ApplyFormUpdate(ApplyFormUpdate(f, u, now), u, now) == ApplyFormUpdate(f, u, now)
  {
  }

  /** `update_form`: the ownership guard first, then the partial update of
      that one form. */
  method UpdateForm(db: Db, formId: Id, update: FormUpdate, user: Id, now: int) returns (r: Result<Form>)
    requires db.Valid()
    modifies db
    ensures db.Valid()
    ensures old(GetFormById(db, formId, Some(user))).Err? ==>
              r == old(GetFormById(db, formId, Some(user))) && db.forms == old(db.forms)
    ensures old(GetFormById(db, formId, Some(user))).Ok? ==>
              r == Ok(ApplyFormUpdate(old(GetFormById(db, formId, Some(user))).value, update, now))
    ensures |db.forms| == |old(db.forms)|
    ensures r.Ok? ==> forall k :: 0 <= k < |db.forms| ==>
              db.forms[k] == if old(db.forms[k]).id == formId then r.value else old(db.forms[k])
    ensures db.questions == old(db.questions) && db.responses == old(db.responses)
    ensures db.answers == old(db.answers) && db.users == old(db.users)
  {
    var guard := GetFormById(db, formId, Some(user));
    if guard.Err? {
      return guard;
    }
    var i := IndexBy(db.forms, FormId, formId);
    var g := ApplyFormUpdate(db.forms[i], update, now);
    forall k | 0 <= k < |db.forms| && db.forms[k].id == formId ensures k == i {
      DistinctKeyedEqual(db.forms, FormId, db.forms[k], db.forms[i]);
      assert !(k < i) && !(i < k);
    }
    ReplaceFormPreserves(db.forms, db.questions, db.responses, db.users, i, g);
    db.forms := db.forms[i := g];
    r := Ok(g);
  }

  /** `delete_form`: the ownership guard, then the form's questions, its
      responses and the form itself are removed. Answers are kept. */
  method DeleteForm(db: Db, formId: Id, user: Id) returns (r: Result<bool>)
    requires db.Valid()
    modifies db
    ensures db.Valid()
    ensures var guard := old(GetFormById(db, formId, Some(user)));
            guard.Err? ==> (r == Err(guard.error) && db.forms == old(db.forms)
                            && db.questions == old(db.questions) && db.responses == old(db.responses))
    ensures old(GetFormById(db, formId, Some(user))).Ok? ==> r == Ok(true)
    ensures r.Ok? ==> r.value
    ensures r.Ok? ==> db.forms == Reject(old(db.forms), FormId, formId)
    ensures r.Ok? ==> db.questions == Reject(old(db.questions), QuestionForm, formId)
    ensures r.Ok? ==> db.responses == Reject(old(db.responses), ResponseForm, formId)
    ensures forall g :: g != formId ==>
              Select(db.questions, QuestionForm, g) == Select(old(db.questions), QuestionForm, g)
              && Select(db.responses, ResponseForm, g) == Select(old(db.responses), ResponseForm, g)
    ensures db.answers == old(db.answers) && db.users == old(db.users)
  {
    var guard := GetFormById(db, formId, Some(user));
    if guard.Err? {
      return Err(guard.error);
    }
    DeleteFormPreserves(db.forms, db.questions, db.responses, db.users, formId);
    forall g | g != formId
      ensures Select(Reject(db.questions, QuestionForm, formId), QuestionForm, g)
                == Select(db.questions, QuestionForm, g)
      ensures Select(Reject(db.responses, ResponseForm, formId), ResponseForm, g)
                == Select(db.responses, ResponseForm, g)
    {
      SelectReject(db.questions, QuestionForm, formId, g);
      SelectReject(db.responses, ResponseForm, formId, g);
    }
    db.questions := Reject(db.questions, QuestionForm, formId);
    db.responses := Reject(db.responses, ResponseForm, formId);
    db.forms := Reject(db.forms, FormId, formId);
    r := Ok(true);
  }

  /** The statistics `get_form_stats` returns; the completion figures are
      placeholders. */
  datatype FormStats = FormStats(
    totalResponses: nat,
    recentResponses: nat,
    completionRate: real,
    averageCompletionTime: Option<real>)

  /** The responses submitted at or after `since`. */
  function SubmittedSince(responses: seq<FormResponse>, since: int): (r: seq<FormResponse>)
    ensures |r| <= |responses|
    ensures forall x :: x in r <==> x in responses && x.submittedAt >= since
    ensures forall x :: multiset(r)[x] == if x.submittedAt >= since then multiset(responses)[x] else 0
  {
    if responses == [] then []
    else
      var last := responses[|responses| - 1];
      var init := responses[..|responses| - 1];
      assert responses == init + [last];
      assert forall x :: x in responses <==> x in init || x == last;
      SubmittedSince(init, since) + (if last.submittedAt >= since then [last] else [])
  }

  /** `get_form_stats`: NotFound for a missing form; otherwise the number of
      its responses and of those submitted in the last seven days before
      `now`. */
  function GetFormStats(db: Db, formId: Id, now: int): (r: Result<FormStats>)
    reads db
    ensures formId !in KeySet(db.forms, FormId) <==> r == Err(NotFound("Form not found"))
    ensures r.Ok? ==> r.value.totalResponses == |Select(db.responses, ResponseForm, formId)|
    ensures r.Ok? ==> (r.value.recentResponses ==
                       |SubmittedSince(Select(db.responses, ResponseForm, formId), now - SevenDays)|)
    ensures r.Ok? ==> r.value.recentResponses <= r.value.totalResponses
    ensures r.Ok? ==> r.value.completionRate == 1.0 && r.value.averageCompletionTime.None?
  {
    match FindForm(db, formId)
    case None => Err(NotFound("Form not found"))
    case Some(f) =>
      var mine := Select(db.responses, ResponseForm, f.id);
      Ok(FormStats(|mine|, |SubmittedSince(mine, now - SevenDays)|, 1.0, None))
  }

  /** In a consistent store the total of the statistics is the form's own
      response counter. */
  lemma StatsMatchCounter(db: Db, f: Form, now: int)
    requires db.Valid() && f in db.forms
    ensures GetFormStats(db, f.id, now) == Ok(GetFormStats(db, f.id, now).value)
    ensures GetFormStats(db, f.id, now).value.totalResponses == f.responseCount
  {
    assert f.id in KeySet(db.forms, FormId);
  }
}

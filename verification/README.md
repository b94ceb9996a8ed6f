# Forms API core, modelled in Dafny

This project models the core of a forms backend built on FastAPI and
Beanie/MongoDB. Owners create forms and add typed questions to them. The
public submits responses, which are validated against the questions and
stored as one FormResponse plus one Answer per entry. Users register with a
unique e-mail and username, and log in with either one.

The document store is `Database.Db`: one class holding the forms, questions,
responses, answers and users as sequences, each in insertion order.
MongoDB promises no order for an unsorted query; reading a collection in
insertion order is a choice of this model (see "Left out"). `Db.Valid()` is the integrity the services keep:

- ids are unique in every collection;
- user e-mails and usernames are unique;
- every question and every response belongs to a stored form;
- every form's `responseCount` equals its number of stored responses.

Each service is a Dafny method when it changes the store and a function when
it only reads it. Store-changing methods state their whole new state. Lemmas
about the specification functions state what the services promise across
calls.

Module layout, one file each:

- `Common`: ids, `Option`, `Result`, HTTP errors, `Field` (a body field that was supplied or left unset).
- `Collections`: filtering, deleting, first or last match by key, stable sort, and skip/limit paging.
- The document and body types: `QuestionModel`, `QuestionSchema`, `FormModel`, `AnswerModel`, `UserModel`.
- `Database`: the store and the lemmas that show each kind of write keeps it consistent.
- The services: `AnswerValidation`, `AnswerService`, `FormService`, `QuestionService`, `AuthService`.

Ids, the clock (`now`, in seconds) and, for submissions, the request
metadata are parameters supplied by the caller. A new id must be fresh,
as MongoDB ObjectIds are.

## Model

| member | source | states |
|---|---|---|
| QuestionModel.ParseType | app/models/question.py:14-23 | a parsed type carries exactly the value it was parsed from |
| QuestionModel.EightTypes | app/models/question.py:14-23 | there are exactly eight distinct question types, and each type's value parses back to it |
| QuestionModel.ValidateOptions | app/models/question.py:51-71 | rejects exactly a multiple_choice, checkbox or dropdown question whose options are None or empty, with "<type> requires options"; every other value passes unchanged |
| QuestionSchema.ValidateCreateAsWritten | app/schemas/question.py:26-40 | as written: an accepted body is the body with its defaults and within the bounds; the options validator runs only on options the client supplied |
| QuestionSchema.ValidateCreate | app/schemas/question.py:12-40 | as intended: a body is accepted iff, with its defaults (not required, order 0, no options), it is within the bounds and meets the options rule; an accepted body is exactly the body with its defaults |
| QuestionSchema.AsWrittenDiffersOnlyOnOmittedOptions | app/schemas/question.py:29-40 | the two validations differ exactly on an in-bounds choice-type body with options left out, which only the written one accepts |
| QuestionSchema.OmittedOptionsAccepted | app/schemas/question.py:29-40 | the body of the missing-options test passes the written validation with no options and fails the intended one |
| QuestionSchema.ValidatedPassesModelValidator | app/models/question.py:51-71 | a body the intended validation accepts also passes the document's options validator |
| AnswerValidation.ValidAnswerType | app/services/answer.py:75-102 | a None value is valid iff the question is optional; a present valid value has its type's shape |
| AnswerValidation.ShapeRules | app/services/answer.py:89-102 | per type: text, date and the two single-choice types take any string; number takes int or float; email takes a string containing '@'; checkbox takes a list |
| AnswerValidation.OptionsAndConstraintsIgnored | app/services/answer.py:75-102 | the type check does not depend on a question's options or its length and value constraints |
| AnswerValidation.ValidateAnswers | app/services/answer.py:20-72 | the reported errors are exactly the required-field errors in question order followed by the per-entry errors in submission order; ok iff there are none |
| AnswerValidation.CollectRequired | app/services/answer.py:45-54 | the loop over the questions, reading the id-to-entry map, yields exactly the required-field errors in question order |
| AnswerValidation.CollectEntryErrors | app/services/answer.py:56-70 | the loop over the entries, reading the id-to-question map, yields exactly the per-entry errors in submission order |
| AnswerValidation.MissingByMap | app/services/answer.py:48-52 | the required-field test read off the answer map is missing, None or "" for the last entry with that id |
| AnswerValidation.LastEntryWins | app/services/answer.py:43 | the value looked up for a question id is that of the last entry with that id |
| AnswerValidation.RequiredErrorsFirst | app/services/answer.py:45-72 | every required-field error precedes every per-entry error |
| AnswerValidation.EntryErrorsAppend | app/services/answer.py:57-70 | per-entry errors are produced entry by entry, so a concatenation's errors are the concatenation of the errors |
| AnswerValidation.EntryErrorsAt | app/services/answer.py:57-70 | every entry, duplicates included, contributes its own check at its own position |
| AnswerValidation.EntryError | app/services/answer.py:57-70 | an unknown question id gives "Invalid question ID" and no type check; a known one gives a type error iff the value has the wrong shape |
| AnswerValidation.RequiredErrorExactlyOnce | app/services/answer.py:46-54 | a required question with a title of its own gets exactly one "is required" error when its last value is missing, None or "", and none otherwise |
| AnswerValidation.MissingIsReported | app/services/answer.py:46-54 | every missing required question is reported |
| AnswerValidation.NullRequiredReportedTwice | app/services/answer.py:46-70 | a required question answered None is reported both as required and for its type |
| AnswerService.SubmissionCheck | app/services/answer.py:124-141 | the submission checks in order: NotFound, then Forbidden for a form not accepting responses, then Forbidden for a missing respondent, then BadRequest listing the validation errors; for a stored form the result is fixed case by case, the first failing check deciding it; success iff all four pass |
| AnswerService.AuthCheckedBeforeAnswers | app/services/answer.py:131-141 | an anonymous submission to a form that requires authentication is refused as such whatever its answers |
| AnswerService.InactiveFormAccepts | app/services/answer.py:124-141 | `is_active` is not consulted: an inactive form that accepts responses takes a valid submission |
| AnswerService.MetadataValue | app/services/answer.py:148-149 | a metadata value is present exactly when its key is |
| AnswerService.NewResponse | app/services/answer.py:143-150 | the stored response is complete and valid, and carries the form, the respondent, the time and the ip_address and user_agent metadata |
| AnswerService.AnswerRecords | app/services/answer.py:154-161 | one answer per submitted entry, in order, each attached to the response |
| AnswerService.SubmitFormResponse | app/services/answer.py:105-167 | a failed check returns its error and changes nothing; success adds the response and one answer per entry, and raises that form's counter by one, keeping the store consistent |
| AnswerService.RecordSubmission | app/services/answer.py:143-165 | the writes of an accepted submission: response, answers, counter, keeping the store consistent |
| AnswerService.SaveAnswers | app/services/answer.py:154-161 | the loop that appends one answer per entry and changes nothing else |
| AnswerService.GetFormResponses | app/services/answer.py:170-190 | only that form's responses, newest first; the page is the skip/limit window of some newest-first arrangement of exactly the form's responses, so it starts after the `skip` newest |
| AnswerService.GetResponseDetails | app/services/answer.py:193-216 | NotFound "Response not found" iff the id is unknown; otherwise that response and exactly the answers attached to it, each stored copy once |
| AnswerService.SubmissionReadBack | app/services/answer.py:143-216 | after a submission under a fresh id, its details are the stored response and exactly the submitted entries in order |
| FormService.CreateForm | app/services/form.py:17-36 | exactly one form is added, owned by the caller, with the body's fields and no responses |
| FormService.GetUserForms | app/services/form.py:39-57 | only the user's forms, newest first; the page is the skip/limit window of some newest-first arrangement of exactly the user's forms, so it starts after the `skip` newest |
| FormService.GetFormById | app/services/form.py:60-86 | NotFound for an unknown id; Forbidden "Access denied" when a given user is not the owner; the form otherwise, with no check without a user |
| FormService.ApplyFormUpdate | app/services/form.py:107-111 | supplied fields take their values and the others keep theirs; id, owner, creation time and counter never change; `updated_at` moves only when a field was supplied |
| FormService.FormUpdateIdempotent | app/services/form.py:107-111 | applying an update twice is applying it once |
| FormService.UpdateForm | app/services/form.py:89-113 | the guard's error and no change, or exactly that form replaced by its update, keeping the store consistent |
| FormService.DeleteForm | app/services/form.py:116-138 | the guard's error with no change; when the guard passes, always `True`, with the form and all its questions and responses removed; other forms' questions and responses and all answers stay |
| FormService.SubmittedSince | app/services/form.py:160-165 | exactly the responses submitted at or after the cut-off, each with its multiplicity, so its length is the recent count |
| FormService.GetFormStats | app/services/form.py:141-171 | NotFound iff the form is missing; otherwise the total and the last-seven-days count of its responses, recent ≤ total, rate 1.0 and no average time |
| FormService.StatsMatchCounter | app/services/form.py:141-158 | in a consistent store the total equals the form's response counter |
| QuestionService.BuildQuestion | app/services/question.py:33-37 | the document copies the body; its constructor raises a validation error with "<type> requires options" iff the options rule fails, and the document is within the field bounds when the body is |
| QuestionService.WellFormedBuilds | app/services/question.py:33-37 | a body the intended validation accepts always builds, within the field bounds |
| QuestionService.OmittedOptionsRejectedLate | app/services/question.py:33-37 | the test's missing-options body is refused by the intended validation (a 422), but the written validation accepts it and it is refused only when the document is built, so `create_question` answers 500 |
| QuestionService.CreateOutcome | app/services/question.py:14-40 | NotFound iff the form is missing; a 500 for a stored form when the document's options validator refuses the body, its validation error being unhandled; otherwise the built question |
| QuestionService.CreateQuestion | app/services/question.py:14-40 | answers `CreateOutcome`; on success exactly one question of that form is added, within the bounds and meeting the options rule; on any error nothing changes |
| QuestionService.GetFormQuestions | app/services/question.py:43-75 | a 500 error iff a question of the form has a negative `order`, which `QuestionResponse` refuses; otherwise exactly the form's questions, as a permutation, in non-decreasing `order` |
| QuestionService.FindQuestion | app/services/question.py:92-94 | finds a question with that id iff one is stored |
| QuestionService.ApplyQuestionUpdate | app/services/question.py:96-100 | supplied fields take their values and the others keep theirs; id, form, type and creation time never change; `updated_at` moves only when a field was supplied |
| QuestionService.QuestionUpdateProperties | app/schemas/question.py:43-53 | an update within the QuestionUpdate bounds keeps a question within the field bounds, and applying it twice is applying it once |
| QuestionService.UpdateSkipsOptionsRule | app/services/question.py:96-100 | an update may empty a choice question's options: the options rule is not re-checked |
| QuestionService.UpdateQuestion | app/services/question.py:78-102 | NotFound "Question not found" iff the id is unknown; otherwise exactly that question is replaced by its update, keeping the store consistent |
| QuestionService.DeleteQuestion | app/services/question.py:105-120 | NotFound iff the id is unknown; otherwise exactly that question is removed, with no form check, answers kept |
| QuestionService.OrderMap | app/services/question.py:138-139 | the map's keys are exactly the ids named in the request |
| QuestionService.OrderMapLastWins | app/services/question.py:138-139 | a later entry for the same id overrides an earlier one |
| QuestionService.Reordered | app/services/question.py:146-150 | a question of the form named in the map takes the new order and `updated_at`; any other question is unchanged |
| QuestionService.ReorderQuestions | app/services/question.py:123-152 | every stored question becomes its reordered self and nothing else changes; returns exactly the form's questions |
| QuestionService.ReorderedLastEntryWins | app/services/question.py:138-150 | a reordered question of the form carries the order of the last entry naming it; ids of other forms are ignored |
| UserModel.HashProperties | app/services/auth.py:41-42 | a password verifies against its own hash and only against it, and a hash is never the password |
| AuthService.FindLogin | app/services/auth.py:31-36 | the user at the first position whose username or e-mail is the login string (`LoginIndex`), or None iff there is none |
| AuthService.LoginIndex | app/services/auth.py:31-36 | the position of a user answering to the login with no earlier user answering to it, or -1 when none does |
| AuthService.AuthenticateUser | app/services/auth.py:16-44 | None when no user matches or the password does not verify; otherwise exactly the user `FindLogin` picks (the first match), and only when its hash verifies |
| AuthService.FindLoginUnique | app/services/auth.py:31-36 | when exactly one user has the login as username or e-mail, the lookup finds that user |
| AuthService.LoginByUsernameOrEmail | app/services/auth.py:31-44 | a user logs in by username or by e-mail with a password that verifies, and not with one that does not |
| AuthService.OtherUsersDiffer | app/services/auth.py:61-72 | in a consistent store no two users share an e-mail or a username |
| AuthService.NewUser | app/services/auth.py:75-81 | the stored user copies the body, is not a superuser, and stores a hash that verifies the password and is not the password |
| AuthService.CreateUser | app/services/auth.py:47-84 | Conflict "Email already registered" first, then Conflict "Username already taken"; otherwise exactly one user is added, keeping e-mails and usernames unique |
| AuthService.RegisteredUserLogsIn | app/services/auth.py:16-84 | a user just registered logs in with that username and password |
| Database.FindForm | app/services/form.py:78-80 | finds a form with that id iff one is stored |
| Database.AddFormPreserves | app/services/form.py:31-35 | adding a new form with no responses keeps the store consistent |
| Database.ReplaceFormPreserves | app/services/form.py:107-111 | replacing a form by one with the same id and counter keeps the store consistent |
| Database.DeleteFormPreserves | app/services/form.py:127-136 | the cascade deletion keeps the store consistent |
| Database.AddResponsePreserves | app/services/answer.py:143-165 | a new response together with its form's counter increment keeps the store consistent |
| Database.AddQuestionPreserves | app/services/question.py:34-38 | a new question of a stored form keeps the store consistent |
| Database.SameQuestionKeysPreserve | app/services/question.py:96-100 | rewriting questions without changing their ids or forms keeps the store consistent |
| Database.RemoveQuestionPreserves | app/services/question.py:115-119 | deleting a question keeps the store consistent |
| Collections.SortByCorrect | app/services/question.py:53-55 | the sort used for listings returns a permutation of its input, sorted by the key |
| Collections.Window | app/services/form.py:55-57 | `skip`/`limit` paging: the elements from position `skip`, at most `limit` of them, with 0 meaning no limit |
| Collections.SortedPage | app/services/answer.py:185-188 | a page of a sorted listing is sorted, drawn from the listing, and all of it with no skip and no limit |
| Collections.LastBy | app/services/answer.py:42-43 | a dict built by comprehension holds, for each key, the element at the last position with that key (`LastIndexBy`), and None iff no element has it |
| Collections.LastIndexBy | app/services/answer.py:42-43 | the position of an element with the key after which no element has it, or -1 iff none has it |
| Collections.FirstBy | app/services/question.py:92 | `find_one`/`get`: the element at the first position with the key (`IndexBy`), or None iff no element has it |
| Collections.IndexBy | app/services/question.py:92 | the position of an element with the key and no earlier one with it, or -1 iff none has it |
| Collections.SelectCounts | app/services/answer.py:210-212 | a `find` by key returns every stored copy of each matching element, and nothing else |
| Collections.KeyMap | app/services/answer.py:42-43 | `{key(x): x for x in s}`: its keys are exactly the keys in the collection, and each maps to the last element with that key |
| Collections.RejectPresent | app/services/question.py:119 | deleting a present unique id removes exactly one element and exactly that id |

## Left out

- HTTP routing, JWT handling, the OAuth2 password form and the dependency that loads the current user are not modelled. Services take the acting user's id, or `None`, directly.
- Persistence, awaits and concurrency are not modelled. Each service runs to completion on the store, so the lost-update race on `response_count` is left out. That race exists because the form is read, incremented and saved as a whole document.
- bcrypt is a foreign library. `UserModel.Hash` stands for it as an injective function that never returns the password.
- Pydantic coercion of request bodies is not modelled. Answer values arrive already tagged as string, list, int, float, datetime or None, so JSON booleans are not modelled.
- Floats are modelled as `real`, and timestamps as integer seconds.
- The ordering of documents with equal sort keys is left to MongoDB. The model fixes one choice: a stable sort over insertion order.
- MongoDB does not promise an order for an unsorted `find` or for which document `find_one` returns. The model reads every collection in insertion order. That choice fixes three things the source leaves open: the order of the required-field errors (the question lookup in app/services/answer.py:37-39 is unsorted), the order of the list `reorder_questions` returns, and which user the login lookup picks when two match.
- After a reorder has stored a negative order, the document model's own `order >= 0` bound may also refuse that question when it is loaded back. Only the refusal in `get_form_questions`, where `QuestionResponse` is built, is modelled; the other reads of such a question succeed in the model.
- An explicit JSON null sent for a non-nullable field in an update body (title, is_required, order and the like) is not modelled. Only "supplied" and "not supplied" are.
- The orders a reorder request stores are not checked against `order >= 0`, in the source as in the model. So `order >= 0` is not part of the store's consistency.
- A reorder request item lacking `question_id` or `order` makes the source fail with a key error. The model takes typed `{question_id, order}` items instead.
- Answer, FormResponse and Question records carry no links to full documents. They store the id of the form, question or response they refer to.
- Answers have no id, since nothing in the core reads one back.
- The 422 answers produced by request validation are modelled as `None` from `QuestionSchema.ValidateCreate`. Their detail text is not modelled.
- The "<type> requires options" message renders the type by its value (`multiple_choice`), as the `str`-based enum formats. The exact text may differ across Python versions.
- The routers' extra checks are outside the core and not modelled. One example is the ownership check before a question is updated or deleted.

## Findings

| source | as written | input that shows it | evidently intended | confidence | as-written member | corrected member |
|---|---|---|---|---|---|---|
| app/schemas/question.py:29-40 | `@validator('options')` has no `always=True`, so Pydantic does not run it when the client leaves options out, and the body is accepted. The document's own validator then refuses it while the question is being created, as an unhandled validation error rather than a 422 | `{"title": "Choose one", "question_type": "multiple_choice", "is_required": true}` (tests/integration/test_questions.py:114-146 expects 422) | a choice-type body without options is refused by request validation with a 422 | medium, not executed | QuestionSchema.ValidateCreateAsWritten, QuestionSchema.OmittedOptionsAccepted, QuestionService.OmittedOptionsRejectedLate | QuestionSchema.ValidateCreate |

/** Validation of a submission's answers against a form's questions
    (`validate_answer_type` and `validate_answers` of app/services/answer.py). */
module AnswerValidation {

  import opened Common
  import opened Collections
  import opened QuestionModel
  import opened AnswerModel

  /** `validate_answer_type`: an absent value is acceptable exactly when the
      question is optional; otherwise the value must have the type's shape.
      The options of a choice question and the length and value constraints
      are not consulted. */
  function ValidAnswerType(q: Question, v: Value): (ok: bool)
    ensures v == Null ==> (ok <==> !q.isRequired)
    ensures ok && v != Null ==> match q.questionType
                                case Checkbox => v.StrList?
                                case Number => v.Int? || v.Float?
                                case _ => v.Str?
  {
    if v == Null then !q.isRequired
    else
      match q.questionType
      case ShortText => v.Str?
      case LongText => v.Str?
      case Number => v.Int? || v.Float?
      case Email => v.Str? && '@' in v.s
      case Date => v.Str?
      case MultipleChoice => v.Str?
      case Checkbox => v.StrList?
      case Dropdown => v.Str?
  }

  /** The shape rules per type, for a present value. */
  lemma ShapeRules(q: Question, v: Value)
    requires v != Null
    ensures q.questionType in {ShortText, LongText, Date, MultipleChoice, Dropdown} ==>
              (ValidAnswerType(q, v) <==> v.Str?)
    ensures q.questionType == Number ==> (ValidAnswerType(q, v) <==> v.Int? || v.Float?)
    ensures q.questionType == Email ==> (ValidAnswerType(q, v) <==> v.Str? && '@' in v.s)
    ensures q.questionType == Checkbox ==> (ValidAnswerType(q, v) <==> v.StrList?)
  {
  }

  /** A choice answer is not checked against the question's options, and the
      stored constraints are never enforced. */
  lemma OptionsAndConstraintsIgnored(q: Question, v: Value, options: Option<seq<string>>,
                                      minLength: Option<int>, maxLength: Option<int>,
                                      minValue: Option<real>, maxValue: Option<real>)
    ensures ValidAnswerType(q, v) == ValidAnswerType(
              q.(options := options, minLength := minLength, maxLength := maxLength,
                 minValue := minValue, maxValue := maxValue), v)
  {
  }

  /** One validation error; `Message` renders the text the service reports. */
  datatype ValidationError =
    | Required(title: string)
    | InvalidQuestionId(id: Id)
    | InvalidAnswerType(title: string)

  function Message(e: ValidationError): string
  {
    match e
    case Required(title) => "Question '" + title + "' is required"
    case InvalidQuestionId(id) => "Invalid question ID: " + id
    case InvalidAnswerType(title) => "Invalid answer type for '" + title + "'"
  }

  /** `", ".join(...)` of the error messages. */
  function JoinMessages(errors: seq<ValidationError>): string
  {
    if errors == [] then ""
    else if |errors| == 1 then Message(errors[0])
    else Message(errors[0]) + ", " + JoinMessages(errors[1..])
  }

  /** `answer_map[q_id]`: the value of the last entry for that question id. */
  function LastValue(answers: seq<AnswerIn>, id: Id): Option<Value>
  {
    match LastBy(answers, EntryQuestion, id)
    case None => None
    case Some(a) => Some(a.value)
  }

  /** The required-field test on the last value submitted for `q`: missing,
      None or the empty string. */
  predicate MissingRequired(q: Question, answers: seq<AnswerIn>)
  {
    q.isRequired && LastValue(answers, q.id) in {None, Some(Null), Some(Str(""))}
  }

  /** The required-field errors, one per missing required question, in
      question order. */
  function RequiredErrors(questions: seq<Question>, answers: seq<AnswerIn>): seq<ValidationError>
  {
    if questions == [] then []
    else
      var q := questions[|questions| - 1];
      RequiredErrors(questions[..|questions| - 1], answers)
        + (if MissingRequired(q, answers) then [Required(q.title)] else [])
  }

  /** The check of one submitted entry against `question_map`. */
  function EntryError(questions: seq<Question>, a: AnswerIn): (r: seq<ValidationError>)
    ensures a.questionId !in KeySet(questions, QuestionId) ==> r == [InvalidQuestionId(a.questionId)]
    ensures a.questionId in KeySet(questions, QuestionId) ==>
              var q := LastBy(questions, QuestionId, a.questionId).value;
              r == if ValidAnswerType(q, a.value) then [] else [InvalidAnswerType(q.title)]
  {
    match LastBy(questions, QuestionId, a.questionId)
    case None => [InvalidQuestionId(a.questionId)]
    case Some(q) => if ValidAnswerType(q, a.value) then [] else [InvalidAnswerType(q.title)]
  }

  /** The per-entry errors, in submission order. */
  function EntryErrors(questions: seq<Question>, answers: seq<AnswerIn>): seq<ValidationError>
  {
    if answers == [] then []
    else EntryErrors(questions, answers[..|answers| - 1]) + EntryError(questions, answers[|answers| - 1])
  }

  /** Everything `validate_answers` reports, in the order it reports it. */
  function ValidationErrors(questions: seq<Question>, answers: seq<AnswerIn>): seq<ValidationError>
  {
    RequiredErrors(questions, answers) + EntryErrors(questions, answers)
  }

  /** The required-field test read off the map built by comprehension. */
  lemma MissingByMap(q: Question, answers: seq<AnswerIn>)
    ensures var m := KeyMap(answers, EntryQuestion);
            MissingRequired(q, answers) <==>
              q.isRequired && (q.id !in m || m[q.id].value == Null || m[q.id].value == Str(""))
  {
  }

  /** One more question adds its own required-field error, if any. */
  lemma RequiredStep(questions: seq<Question>, answers: seq<AnswerIn>, i: nat)
    requires i < |questions|
    ensures RequiredErrors(questions[..i + 1], answers) ==
              RequiredErrors(questions[..i], answers)
                + (if MissingRequired(questions[i], answers) then [Required(questions[i].title)] else [])
  {
    assert questions[..i + 1][..i] == questions[..i];
  }

  /** `validate_answers`, given the form's questions in store order: builds
      the id-to-question and id-to-entry maps, then collects the
      required-field errors and the per-entry errors in two loops. */
  method ValidateAnswers(questions: seq<Question>, answers: seq<AnswerIn>)
    returns (ok: bool, errors: seq<ValidationError>)
    ensures errors == ValidationErrors(questions, answers)
    ensures ok <==> errors == []
  {
    var questionMap := KeyMap(questions, QuestionId);
    var answerMap := KeyMap(answers, EntryQuestion);
    var required := CollectRequired(questions, answers, answerMap);
    var invalid := CollectEntryErrors(questions, answers, questionMap);
    errors := required + invalid;
    ok := |errors| == 0;
  }

  /** The first loop of `validate_answers`: one error per required question
      whose entry in the answer map is missing, None or empty. */
  method CollectRequired(questions: seq<Question>, answers: seq<AnswerIn>, answerMap: map<Id, AnswerIn>)
    returns (errors: seq<ValidationError>)
    requires answerMap == KeyMap(answers, EntryQuestion)
    ensures errors == RequiredErrors(questions, answers)
  {
    errors := [];
    for i := 0 to |questions|
      invariant errors == RequiredErrors(questions[..i], answers)
    {
      var q := questions[i];
      RequiredStep(questions, answers, i);
      MissingByMap(q, answers);
      if q.isRequired && (q.id !in answerMap || answerMap[q.id].value == Null || answerMap[q.id].value == Str("")) {
        errors := errors + [Required(q.title)];
      }
    }
    assert questions[..|questions|] == questions;
  }

  /** The second loop of `validate_answers`: for each entry in submission
      order, an unknown question id or a value of the wrong type. */
  method CollectEntryErrors(questions: seq<Question>, answers: seq<AnswerIn>, questionMap: map<Id, Question>)
    returns (errors: seq<ValidationError>)
    requires questionMap == KeyMap(questions, QuestionId)
    ensures errors == EntryErrors(questions, answers)
  {
    errors := [];
    for i := 0 to |answers|
      invariant errors == EntryErrors(questions, answers[..i])
    {
      var a := answers[i];
      assert answers[..i + 1][..i] == answers[..i];
      assert EntryErrors(questions, answers[..i + 1])
               == EntryErrors(questions, answers[..i]) + EntryError(questions, a);
      if a.questionId !in questionMap {
        errors := errors + [InvalidQuestionId(a.questionId)];
      } else {
        var q := questionMap[a.questionId];
        if !ValidAnswerType(q, a.value) {
          errors := errors + [InvalidAnswerType(q.title)];
        }
      }
    }
    assert answers[..|answers|] == answers;
  }

  /** A later entry for the same question id shadows every earlier one: the
      value looked up is that of the last entry for the id. */
  lemma {:induction false} LastEntryWins(answers: seq<AnswerIn>, k: nat)
    requires k < |answers|
    requires forall j :: k < j < |answers| ==> answers[j].questionId != answers[k].questionId
    ensures LastValue(answers, answers[k].questionId) == Some(answers[k].value)
  {
    if k < |answers| - 1 {
      var init := answers[..|answers| - 1];
      assert init[k] == answers[k];
      LastEntryWins(init, k);
    }
  }

  /** The required-field errors come first, then only per-entry errors. */
  lemma {:induction false} RequiredErrorsFirst(questions: seq<Question>, answers: seq<AnswerIn>)
    ensures var errors := ValidationErrors(questions, answers);
            forall i :: 0 <= i < |errors| ==>
              (errors[i].Required? <==> i < |RequiredErrors(questions, answers)|)
  {
    AllRequired(questions, answers);
    NoneRequired(questions, answers);
  }

  lemma {:induction false} AllRequired(questions: seq<Question>, answers: seq<AnswerIn>)
    ensures forall e :: e in RequiredErrors(questions, answers) ==> e.Required?
  {
    if questions != [] {
      AllRequired(questions[..|questions| - 1], answers);
    }
  }

  lemma {:induction false} NoneRequired(questions: seq<Question>, answers: seq<AnswerIn>)
    ensures forall e :: e in EntryErrors(questions, answers) ==> !e.Required?
  {
    if answers != [] {
      NoneRequired(questions, answers[..|answers| - 1]);
    }
  }

  /** Per-entry errors are produced entry by entry in submission order, so the
      errors of a concatenation are the concatenation of the errors. */
  lemma {:induction false} EntryErrorsAppend(questions: seq<Question>, a: seq<AnswerIn>, b: seq<AnswerIn>)
    ensures EntryErrors(questions, a + b) == EntryErrors(questions, a) + EntryErrors(questions, b)
  {
    if b == [] {
      assert a + b == a;
    } else {
      var b' := b[..|b| - 1];
      assert (a + b)[..|a + b| - 1] == a + b';
      EntryErrorsAppend(questions, a, b');
    }
  }

  /** Every submitted entry, duplicates included, contributes its own check
      at its own position. */
  lemma EntryErrorsAt(questions: seq<Question>, answers: seq<AnswerIn>, k: nat)
    requires k < |answers|
    ensures EntryErrors(questions, answers) ==
              EntryErrors(questions, answers[..k]) + EntryError(questions, answers[k])
              + EntryErrors(questions, answers[k + 1..])
  {
    assert answers == answers[..k] + [answers[k]] + answers[k + 1..];
    EntryErrorsAppend(questions, answers[..k] + [answers[k]], answers[k + 1..]);
    EntryErrorsAppend(questions, answers[..k], [answers[k]]);
    assert EntryErrors(questions, [answers[k]]) == EntryError(questions, answers[k]) by {
      assert [answers[k]][..0] == [];
    }
  }

  lemma {:induction false} NoRequiredErrorFor(questions: seq<Question>, answers: seq<AnswerIn>, title: string)
    requires forall j :: 0 <= j < |questions| ==> questions[j].title != title
    ensures multiset(RequiredErrors(questions, answers))[Required(title)] == 0
  {
    if questions != [] {
      NoRequiredErrorFor(questions[..|questions| - 1], answers, title);
    }
  }

  /** A question whose title no other question shares gets exactly one
      "is required" error when its last submitted value is missing, None or
      "", and none otherwise. */
  lemma {:induction false} RequiredErrorExactlyOnce(questions: seq<Question>, answers: seq<AnswerIn>, k: nat)
    requires k < |questions|
    requires forall j :: 0 <= j < |questions| && j != k ==> questions[j].title != questions[k].title
    ensures multiset(RequiredErrors(questions, answers))[Required(questions[k].title)] ==
              if MissingRequired(questions[k], answers) then 1 else 0
  {
    var n := |questions| - 1;
    var init := questions[..n];
    if k == n {
      NoRequiredErrorFor(init, answers, questions[k].title);
    } else {
      assert init[k] == questions[k];
      RequiredErrorExactlyOnce(init, answers, k);
    }
  }

  /** Every missing required question is reported. */
  lemma {:induction false} MissingIsReported(questions: seq<Question>, answers: seq<AnswerIn>, q: Question)
    requires q in questions && MissingRequired(q, answers)
    ensures Required(q.title) in RequiredErrors(questions, answers)
  {
    var n := |questions| - 1;
    if questions[n] != q {
      assert q in questions[..n];
      MissingIsReported(questions[..n], answers, q);
    }
  }

  /** A required question answered with None, as the last entry for its id,
      is reported twice: once as required and once for its type. */
  lemma NullRequiredReportedTwice(questions: seq<Question>, answers: seq<AnswerIn>, k: nat, q: Question)
    requires DistinctBy(questions, QuestionId) && q in questions && q.isRequired
    requires k < |answers| && answers[k] == AnswerIn(q.id, Null)
    requires forall j :: k < j < |answers| ==> answers[j].questionId != q.id
    ensures Required(q.title) in ValidationErrors(questions, answers)
    ensures InvalidAnswerType(q.title) in ValidationErrors(questions, answers)
  {
    LastEntryWins(answers, k);
    MissingIsReported(questions, answers, q);
    EntryErrorsAt(questions, answers, k);
    assert q.id in KeySet(questions, QuestionId);
    DistinctKeyedEqual(questions, QuestionId, LastBy(questions, QuestionId, q.id).value, q);
    assert EntryError(questions, answers[k]) == [InvalidAnswerType(q.title)];
  }
}

/** The Answer and FormResponse documents (app/models/answer.py) and the
    submitted answer entries (app/schemas/answer.py). */
module AnswerModel {

  import opened Common

  /** The polymorphic answer value `Union[str, List[str], int, float,
      datetime, None]`, as a tagged variant. */
  datatype Value =
    | Str(s: string)
    | StrList(items: seq<string>)
    | Int(i: int)
    | Float(x: real)
    | DateTime(t: int)
    | Null

  /** One `{question_id, value}` entry of a submission. */
  datatype AnswerIn = AnswerIn(questionId: Id, value: Value)

  /** A stored answer: the question it answers, the id of its FormResponse
      (None when not attached to one) and the value. */
  datatype Answer = Answer(
    question: Id,
    formResponse: Option<Id>,
    value: Value,
    createdAt: int)

  /** A stored submission. */
  datatype FormResponse = FormResponse(
    id: Id,
    form: Id,
    respondent: Option<Id>,
    submittedAt: int,
    ipAddress: Option<string>,
    userAgent: Option<string>,
    isComplete: bool,
    isValid: bool)

  /** Keys of the answer and response collections. */
  function EntryQuestion(a: AnswerIn): Id { a.questionId }
  function AnswerResponse(a: Answer): Option<Id> { a.formResponse }
  function ResponseId(r: FormResponse): Id { r.id }
  function ResponseForm(r: FormResponse): Id { r.form }

  /** Sort key of `sort(-FormResponse.submitted_at)`: newest first. */
  function NewestResponseFirst(r: FormResponse): int { -r.submittedAt }
}

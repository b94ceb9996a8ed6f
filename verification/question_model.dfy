/** The Question document (app/models/question.py): the eight question
    types, the stored fields with their bounds, and the options rule. */
module QuestionModel {

  import opened Common

  /** The question types a form may use. */
  datatype QuestionType =
    | ShortText | LongText | MultipleChoice | Checkbox | Dropdown | Number | Date | Email

  /** Every question type, in declaration order. */
  const AllQuestionTypes: seq<QuestionType> :=
    [ShortText, LongText, MultipleChoice, Checkbox, Dropdown, Number, Date, Email]

  /** The string value each type carries on the wire. */
  function TypeName(t: QuestionType): string
  {
    match t
    case ShortText => "short_text"
    case LongText => "long_text"
    case MultipleChoice => "multiple_choice"
    case Checkbox => "checkbox"
    case Dropdown => "dropdown"
    case Number => "number"
    case Date => "date"
    case Email => "email"
  }

  /** `QuestionType(name)`: the type whose value is `name`, if any. */
  function ParseType(name: string): (r: Option<QuestionType>)
    ensures r.Some? ==> TypeName(r.value) == name
  {
    if name == "short_text" then Some(ShortText)
    else if name == "long_text" then Some(LongText)
    else if name == "multiple_choice" then Some(MultipleChoice)
    else if name == "checkbox" then Some(Checkbox)
    else if name == "dropdown" then Some(Dropdown)
    else if name == "number" then Some(Number)
    else if name == "date" then Some(Date)
    else if name == "email" then Some(Email)
    else None
  }

  /** There are exactly eight types, each listed once, and parsing a type's
      value gives the type back. */
  lemma EightTypes()
    ensures |AllQuestionTypes| == 8
    ensures forall i, j :: 0 <= i < j < 8 ==> AllQuestionTypes[i] != AllQuestionTypes[j]
    ensures forall t :: t in AllQuestionTypes && ParseType(TypeName(t)) == Some(t)
  {
    forall t ensures t in AllQuestionTypes && ParseType(TypeName(t)) == Some(t) {
      match t
      case ShortText => assert AllQuestionTypes[0] == t;
      case LongText => assert AllQuestionTypes[1] == t;
      case MultipleChoice => assert AllQuestionTypes[2] == t;
      case Checkbox => assert AllQuestionTypes[3] == t;
      case Dropdown => assert AllQuestionTypes[4] == t;
      case Number => assert AllQuestionTypes[5] == t;
      case Date => assert AllQuestionTypes[6] == t;
      case Email => assert AllQuestionTypes[7] == t;
    }
  }

  /** The choice types, whose questions must list their options. */
  predicate NeedsOptions(t: QuestionType)
  {
    t == MultipleChoice || t == Checkbox || t == Dropdown
  }

  /** Python's truthiness test `not v` on an optional list. */
  predicate Falsy(v: Option<seq<string>>)
  {
    v.None? || v.value == []
  }

  /** `validate_options`: `questionType` is None when the type field did not
      validate (it is then absent from `values`). Rejects a choice type whose
      options are None or empty; passes every other value through unchanged. */
  function ValidateOptions(questionType: Option<QuestionType>, v: Option<seq<string>>)
    : (r: Result<Option<seq<string>>>)
    ensures r.Ok? ==> r.value == v
    ensures r.Err? <==> questionType.Some? && NeedsOptions(questionType.value) && Falsy(v)
    ensures r.Err? ==> r.error == Unprocessable(TypeName(questionType.value) + " requires options")
  {
    if questionType.Some? && NeedsOptions(questionType.value) && Falsy(v) then
      Err(Unprocessable(TypeName(questionType.value) + " requires options"))
    else
      Ok(v)
  }

  /** A stored question. `order`, `minLength` and `maxLength` are Python ints. */
  datatype Question = Question(
    id: Id,
    form: Id,
    title: string,
    description: Option<string>,
    questionType: QuestionType,
    isRequired: bool,
    order: int,
    options: Option<seq<string>>,
    minLength: Option<int>,
    maxLength: Option<int>,
    minValue: Option<real>,
    maxValue: Option<real>,
    createdAt: int,
    updatedAt: int)

  /** The field constraints: title of 1 to 500 characters, description of at
      most 1000, order at least 0, min_length at least 0, max_length at least 1. */
  predicate TitleOk(title: string) { 1 <= |title| <= 500 }
  predicate DescriptionOk(d: Option<string>) { d.None? || |d.value| <= 1000 }
  predicate OrderOk(order: int) { order >= 0 }
  predicate MinLengthOk(m: Option<int>) { m.None? || m.value >= 0 }
  predicate MaxLengthOk(m: Option<int>) { m.None? || m.value >= 1 }

  predicate FieldBounds(q: Question)
  {
    TitleOk(q.title) && DescriptionOk(q.description) && OrderOk(q.order)
    && MinLengthOk(q.minLength) && MaxLengthOk(q.maxLength)
  }

  /** A question the options rule accepts. */
  predicate OptionsRule(t: QuestionType, options: Option<seq<string>>)
  {
    NeedsOptions(t) ==> !Falsy(options)
  }

  /** Keys of the question collection. */
  function QuestionId(q: Question): Id { q.id }
  function QuestionForm(q: Question): Id { q.form }
  function QuestionOrder(q: Question): int { q.order }
}

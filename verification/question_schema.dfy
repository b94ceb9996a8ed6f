/** The request bodies for questions (app/schemas/question.py): the
    QuestionCreate body with its defaults, bounds and options validator, and
    the QuestionUpdate body, which has no question type. */
module QuestionSchema {

  import opened Common
  import opened QuestionModel

  /** A QuestionCreate body as received; a field the client left out is
      Unset. The title and the type have no default and are always present. */
  datatype QuestionCreateInput = QuestionCreateInput(
    title: string,
    description: Field<Option<string>>,
    questionType: QuestionType,
    isRequired: Field<bool>,
    order: Field<int>,
    options: Field<Option<seq<string>>>,
    minLength: Field<Option<int>>,
    maxLength: Field<Option<int>>,
    minValue: Field<Option<real>>,
    maxValue: Field<Option<real>>)

  /** A QuestionCreate after validation, every default filled in. */
  datatype QuestionCreate = QuestionCreate(
    title: string,
    description: Option<string>,
    questionType: QuestionType,
    isRequired: bool,
    order: int,
    options: Option<seq<string>>,
    minLength: Option<int>,
    maxLength: Option<int>,
    minValue: Option<real>,
    maxValue: Option<real>)

  /** The `QuestionBase` field constraints. */
  predicate BoundsOk(c: QuestionCreate)
  {
    TitleOk(c.title) && DescriptionOk(c.description) && OrderOk(c.order)
    && MinLengthOk(c.minLength) && MaxLengthOk(c.maxLength)
  }

  /** What a creation request that should be accepted looks like. */
  predicate WellFormed(c: QuestionCreate)
  {
    BoundsOk(c) && OptionsRule(c.questionType, c.options)
  }

  /** The defaults of `QuestionBase`: no description, not required, order 0,
      no options and no constraints. */
  function WithDefaults(input: QuestionCreateInput): QuestionCreate
  {
    QuestionCreate(
      input.title,
      Updated(input.description, None),
      input.questionType,
      Updated(input.isRequired, false),
      Updated(input.order, 0),
      Updated(input.options, None),
      Updated(input.minLength, None),
      Updated(input.maxLength, None),
      Updated(input.minValue, None),
      Updated(input.maxValue, None))
  }

  /** Request validation as the code is written: the `@validator('options')`
      hook has no `always=True`, so Pydantic runs it only on an options value
      the client supplied, never on the default. None means a 422 answer. */
  function ValidateCreateAsWritten(input: QuestionCreateInput): (r: Option<QuestionCreate>)
    ensures r.Some? ==> r.value == WithDefaults(input) && BoundsOk(r.value)
  {
    var c := WithDefaults(input);
    if !BoundsOk(c) then None
    else if input.options.Set? && ValidateOptions(Some(input.questionType), input.options.value).Err? then None
    else Some(c)
  }

  /** Request validation as intended: the options rule also applies when the
      client leaves options out, so every accepted body is well formed. */
  function ValidateCreate(input: QuestionCreateInput): (r: Option<QuestionCreate>)
    ensures r.Some? <==> WellFormed(WithDefaults(input))
    ensures r.Some? ==> r.value == WithDefaults(input)
    ensures r.Some? ==> r.value.title == input.title && r.value.questionType == input.questionType
    ensures r.Some? && input.isRequired.Unset? ==> !r.value.isRequired
    ensures r.Some? && input.order.Unset? ==> r.value.order == 0
    ensures r.Some? && input.options.Unset? ==> r.value.options.None? && !NeedsOptions(input.questionType)
    ensures r.Some? && input.options.Set? ==> r.value.options == input.options.value
  {
    var c := WithDefaults(input);
    if !BoundsOk(c) then None
    else if ValidateOptions(Some(input.questionType), c.options).Err? then None
    else Some(c)
  }

  /** The two validations differ on exactly one kind of body: a choice type
      whose options were left out, which only the written one accepts. */
  lemma AsWrittenDiffersOnlyOnOmittedOptions(input: QuestionCreateInput)
    ensures ValidateCreateAsWritten(input) != ValidateCreate(input) <==>
              input.options.Unset? && NeedsOptions(input.questionType) && BoundsOk(WithDefaults(input))
    ensures ValidateCreateAsWritten(input) != ValidateCreate(input) ==>
              ValidateCreateAsWritten(input).Some? && ValidateCreate(input).None?
  {
  }

  /** The body of the failing test for a multiple-choice question without
      options: the written validation accepts it with no options at all. */
  lemma OmittedOptionsAccepted()
    ensures var input := QuestionCreateInput("Choose one", Unset, MultipleChoice, Set(true), Unset,
                                             Unset, Unset, Unset, Unset, Unset);
            && ValidateCreateAsWritten(input).Some?
            && !OptionsRule(MultipleChoice, ValidateCreateAsWritten(input).value.options)
            && ValidateCreate(input).None?
  {
  }

  /** A body the intended validation accepts also passes the document's own
      options validator when the Question is built from it. */
  lemma ValidatedPassesModelValidator(input: QuestionCreateInput)
    requires ValidateCreate(input).Some?
    ensures var c := ValidateCreate(input).value;
            ValidateOptions(Some(c.questionType), c.options) == Ok(c.options)
  {
  }

  /** A QuestionUpdate body: every field optional, and no question type. */
  datatype QuestionUpdate = QuestionUpdate(
    title: Field<string>,
    description: Field<Option<string>>,
    isRequired: Field<bool>,
    order: Field<int>,
    options: Field<Option<seq<string>>>,
    minLength: Field<Option<int>>,
    maxLength: Field<Option<int>>,
    minValue: Field<Option<real>>,
    maxValue: Field<Option<real>>)

  /** The `QuestionUpdate` field constraints, on the supplied fields. */
  predicate UpdateWellFormed(u: QuestionUpdate)
  {
    (u.title.Set? ==> TitleOk(u.title.value))
    && (u.description.Set? ==> DescriptionOk(u.description.value))
    && (u.order.Set? ==> OrderOk(u.order.value))
    && (u.minLength.Set? ==> MinLengthOk(u.minLength.value))
    && (u.maxLength.Set? ==> MaxLengthOk(u.maxLength.value))
  }

  /** `model_dump(exclude_unset=True)` is empty. */
  predicate NoFieldSet(u: QuestionUpdate)
  {
    u.title.Unset? && u.description.Unset? && u.isRequired.Unset? && u.order.Unset?
    && u.options.Unset? && u.minLength.Unset? && u.maxLength.Unset?
    && u.minValue.Unset? && u.maxValue.Unset?
  }
}

/** The Form document (app/models/form.py) and the bodies that create and
    update it (app/schemas/form.py). */
module FormModel {

  import opened Common

  /** A stored form. `responseCount` is the denormalised number of
      submissions; timestamps are `now` values. */
  datatype Form = Form(
    id: Id,
    title: string,
    description: Option<string>,
    owner: Id,
    isActive: bool,
    acceptsResponses: bool,
    requiresAuth: bool,
    createdAt: int,
    updatedAt: int,
    responseCount: int)

  /** A validated FormCreate body (defaults already filled in). */
  datatype FormCreate = FormCreate(
    title: string,
    description: Option<string>,
    isActive: bool,
    acceptsResponses: bool,
    requiresAuth: bool)

  /** A FormUpdate body: every field optional. */
  datatype FormUpdate = FormUpdate(
    title: Field<string>,
    description: Field<Option<string>>,
    isActive: Field<bool>,
    acceptsResponses: Field<bool>,
    requiresAuth: Field<bool>)

  /** `model_dump(exclude_unset=True)` is empty. */
  predicate NoFieldSet(u: FormUpdate)
  {
    u.title.Unset? && u.description.Unset? && u.isActive.Unset?
    && u.acceptsResponses.Unset? && u.requiresAuth.Unset?
  }

  /** Keys of the form collection. */
  function FormId(f: Form): Id { f.id }
  function FormOwner(f: Form): Id { f.owner }

  /** Sort key of `sort(-Form.created_at)`: newest first. */
  function NewestFormFirst(f: Form): int { -f.createdAt }
}

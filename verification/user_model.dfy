/** The User document (app/models/user.py), the registration body
    (app/schemas/user.py) and the password hashing the services rely on. */
module UserModel {

  import opened Common

  /** A stored user; `email` and `username` carry unique indexes. */
  datatype User = User(
    id: Id,
    email: string,
    username: string,
    hashedPassword: string,
    fullName: Option<string>,
    isActive: bool,
    isSuperuser: bool,
    createdAt: int,
    updatedAt: int)

  /** A validated UserCreate body. */
  datatype UserCreate = UserCreate(
    email: string,
    username: string,
    fullName: Option<string>,
    password: string,
    isActive: bool)

  /** Stand-in for bcrypt's `get_password_hash`: an injective function whose
      result is never the clear password. */
  function Hash(password: string): (h: string)
    ensures |h| == |password| + 4
  {
    "$2b$" + password
  }

  /** Stand-in for `verify_password`. */
  predicate Verify(password: string, hashed: string)
  {
    hashed == Hash(password)
  }

  /** A password verifies against its own hash and only against it, and the
      stored hash never equals the clear password. */
  lemma HashProperties(p: string, q: string)
    ensures Verify(p, Hash(p))
    ensures Verify(p, Hash(q)) <==> p == q
    ensures Hash(p) != p
  {
    if Hash(p) == Hash(q) {
      assert p == Hash(p)[4..] && q == Hash(q)[4..];
    }
  }

  /** Keys of the user collection. */
  function UserId(u: User): Id { u.id }
  function UserEmail(u: User): string { u.email }
  function UserName(u: User): string { u.username }
}

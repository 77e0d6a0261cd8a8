/**
 * The user document and the user collection: required fields, the role enumeration with its
 * default, the unique email index, and lookups by email and by id.
 */
module UserModel {
  import opened Wrappers
  import opened Collections
  import opened ResourceModel

  /** The two roles the schema's enumeration admits. */
  datatype Role = Student | Admin

  /** The stored spelling of a role. */
  function RoleName(r: Role): string
  {
    match r
    case Student => "student"
    case Admin => "admin"
  }

  /** The enumeration check: the role a string names, if any. */
  function ParseRole(s: string): (r: Option<Role>)
    ensures r.Some? ==> RoleName(r.value) == s
    ensures r.None? ==> s != "student" && s != "admin"
  {
    if s == "student" then Some(Student)
    else if s == "admin" then Some(Admin)
    else None
  }

  /** Naming a role and reading it back gives the role. */
  lemma RoleRoundTrip(r: Role)
    ensures ParseRole(RoleName(r)) == Some(r)
  {
  }

  /** A stored user. `password` is the password as given (the schema has no hashing hook); `createdAt`/`updatedAt` are
      the automatic timestamps. */
  datatype User = User(
    id: UserId,
    name: string,
    email: string,
    password: string,
    role: Role,
    department: string,
    semester: int,
    createdAt: Time,
    updatedAt: Time)

  /** The schema's required strings are non-empty (a required string refuses ""). The role is
      an enumeration member by construction, and the semester is present by construction. */
  predicate UserHasRequiredFields(u: User)
  {
    u.name != "" && u.email != "" && u.password != "" && u.department != ""
  }

  type Users = seq<User>

  /** The unique index on email. */
  predicate EmailsUnique(users: Users)
  {
    forall i, j :: 0 <= i < j < |users| ==> users[i].email != users[j].email
  }

  predicate UserIdsUnique(users: Users)
  {
    forall i, j :: 0 <= i < j < |users| ==> users[i].id != users[j].id
  }

  /** The collection invariant the handlers keep. */
  predicate UsersValid(users: Users)
  {
    && EmailsUnique(users) && UserIdsUnique(users)
    && forall i :: 0 <= i < |users| ==> UserHasRequiredFields(users[i])
  }

  /** `User.findOne({email})`: the first user with the email, or -1. */
  function FindByEmail(users: Users, email: string): int
  {
    FindFirst((u: User) => u.email, users, email)
  }

  /** `User.findById(id)`: the position of the user with the id, or -1. */
  function FindUser(users: Users, id: UserId): int
  {
    FindFirst((u: User) => u.id, users, id)
  }

  /** With unique emails, the user found by an email is the only one holding it. */
  lemma FindByEmailUnique(users: Users, email: string, i: nat)
    requires EmailsUnique(users) && i < |users| && users[i].email == email
    ensures FindByEmail(users, email) == i
  {
  }
}

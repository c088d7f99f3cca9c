/** The roles of backend/src/auth/role.enum.ts and the strings that name them
    in request bodies, the user table and token claims. */
module Roles {
  import opened Wrappers

  datatype Role = Librarian | Admin | Student | PendingLibrarian

  /** The string value each enum member carries. */
  function Name(r: Role): string {
    match r
    case Librarian => "librarian"
    case Admin => "admin"
    case Student => "student"
    case PendingLibrarian => "pending-librarian"
  }

  /** `allowedRoles.includes(s as Role)`: `allowedRoles` lists all four roles,
      so a string is allowed exactly when it is the (case-sensitive) name of one. */
  function Parse(s: string): (r: Option<Role>)
    ensures r.Some? ==> Name(r.value) == s
    ensures r.None? ==> forall x: Role :: Name(x) != s
  {
    if s == "librarian" then Some(Librarian)
    else if s == "admin" then Some(Admin)
    else if s == "student" then Some(Student)
    else if s == "pending-librarian" then Some(PendingLibrarian)
    else None
  }

  /** Every role's name parses back to that role, so names are distinct. */
  lemma ParseName(r: Role)
    ensures Parse(Name(r)) == Some(r)
  {
  }
}

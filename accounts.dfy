/** The role lifecycle of `UsersService` (backend/src/users/users.service.ts):
    registration, login checks, librarian approval and rejection, blocking
    students, and editing one's own profile, over the user table. */
module Accounts {
  import opened Wrappers
  import opened Roles

  type UserId = nat

  /** A stored password: the bcrypt digest of `secret`. By convention in this
      model only `Hash` builds one and only `Compare` looks inside; a `Digest`
      stands for the hash, not for the plain text the request carried. */
  datatype Digest = Digest(secret: string)

  /** `bcrypt.hash` (its salt and cost are left out). */
  function Hash(plain: string): Digest {
    Digest(plain)
  }

  /** `bcrypt.compare`: true exactly when `plain` is what was hashed. */
  predicate Compare(plain: string, d: Digest) {
    plain == d.secret
  }

  datatype User = User(fullName: string, email: string, password: Digest, role: Role, active: bool)

  datatype Error =
    | CannotRegisterAdmin
    | EmailExists
    | InvalidCredentials
    | NotApproved
    | NoPendingLibrarian
    | UserNotFound
    | NotAStudent

  /** `register` either stores a user or answers with the invalid-role message. */
  datatype Registration = Registered(id: UserId) | InvalidRole

  /** The token payload signed by `login` and `updateMyInfo`; the token itself is left out. */
  datatype Claims = Claims(id: UserId, email: string, role: Role, fullName: string)

  function ClaimsOf(id: UserId, u: User): Claims {
    Claims(id, u.email, u.role, u.fullName)
  }

  /** The role a successful registration stores. */
  function RegisteredRole(requested: Role): Role {
    if requested == Librarian then PendingLibrarian else requested
  }

  /** A JavaScript-truthy optional string: present and not empty. */
  predicate Provided(s: Option<string>) {
    s.Some? && s.value != ""
  }

  class UserTable {
    var users: map<UserId, User>
    var nextId: UserId             // the next generated user id

    /** Ids are below `nextId` and no two users share an email. */
    ghost predicate Valid()
      reads this
    {
      (forall id :: id in users ==> id < nextId) &&
      (forall i, j :: i in users && j in users && users[i].email == users[j].email ==> i == j)
    }

    ghost predicate EmailTaken(email: string)
      reads this
    {
      exists id :: id in users && users[id].email == email
    }

    constructor ()
      ensures Valid() && users == map[] && nextId == 0
    {
      users := map[];
      nextId := 0;
    }

    /** `register`. */
    method Register(fullName: string, email: string, password: string, role: string) returns (r: Result<Registration, Error>)
      requires Valid()
      modifies this
      ensures Valid()
      ensures role == "admin" ==> r == Err(CannotRegisterAdmin)
      ensures role != "admin" && Parse(role).None? ==> r == Ok(InvalidRole)
      ensures role != "admin" && Parse(role).Some? && old(EmailTaken(email)) ==> r == Err(EmailExists)
      ensures role != "admin" && Parse(role).Some? && !old(EmailTaken(email)) ==>
        r == Ok(Registered(old(nextId))) && old(nextId) !in old(users) && nextId == old(nextId) + 1 &&
        users == old(users)[old(nextId) := User(fullName, email, Hash(password), RegisteredRole(Parse(role).value), true)]
      ensures !(r.Ok? && r.value.Registered?) ==> users == old(users) && nextId == old(nextId)
      ensures r.Ok? && r.value.Registered? ==>
        var u := users[r.value.id];
        u.role != Librarian && u.role != Admin && u.password == Hash(password) &&
        (Parse(role).value == Librarian ==> u.role == PendingLibrarian)
    {
      if role == "admin" { return Err(CannotRegisterAdmin); }
      var parsed := Parse(role);
      if parsed.None? { return Ok(InvalidRole); }
      if exists id :: id in users && users[id].email == email { return Err(EmailExists); }
      var id := nextId;
      users := users[id := User(fullName, email, Hash(password), RegisteredRole(parsed.value), true)];
      nextId := nextId + 1;
      r := Ok(Registered(id));
    }

    /** `login`: the checks before the token is signed. The `active` flag is not consulted. */
    method Login(email: string, password: string) returns (r: Result<Claims, Error>)
      requires Valid()
      ensures !EmailTaken(email) ==> r == Err(InvalidCredentials)
      ensures forall id :: id in users && users[id].email == email ==>
        r == if !Compare(password, users[id].password) then Err(InvalidCredentials)
             else if users[id].role == PendingLibrarian then Err(NotApproved)
             else Ok(ClaimsOf(id, users[id]))
    {
      if !exists id :: id in users && users[id].email == email { return Err(InvalidCredentials); }
      var id :| id in users && users[id].email == email;
      var u := users[id];
      if !Compare(password, u.password) { return Err(InvalidCredentials); }
      if u.role == PendingLibrarian { return Err(NotApproved); }
      r := Ok(ClaimsOf(id, u));
    }

    /** `approveLibrarian`: a pending librarian becomes a librarian. */
    method ApproveLibrarian(id: UserId) returns (r: Result<UserId, Error>)
      requires Valid()
      modifies this
      ensures Valid() && nextId == old(nextId)
      ensures id in old(users) && old(users[id].role) == PendingLibrarian ==>
        r == Ok(id) && users == old(users)[id := old(users[id]).(role := Librarian)]
      ensures !(id in old(users) && old(users[id].role) == PendingLibrarian) ==>
        r == Err(NoPendingLibrarian) && users == old(users)
    {
      if id !in users || users[id].role != PendingLibrarian { return Err(NoPendingLibrarian); }
      users := users[id := users[id].(role := Librarian)];
      r := Ok(id);
    }

    /** `rejectLibrarian`: a pending librarian is deleted. */
    method RejectLibrarian(id: UserId) returns (r: Result<UserId, Error>)
      requires Valid()
      modifies this
      ensures Valid() && nextId == old(nextId)
      ensures id in old(users) && old(users[id].role) == PendingLibrarian ==>
        r == Ok(id) && users == old(users) - {id}
      ensures !(id in old(users) && old(users[id].role) == PendingLibrarian) ==>
        r == Err(NoPendingLibrarian) && users == old(users)
    {
      if id !in users || users[id].role != PendingLibrarian { return Err(NoPendingLibrarian); }
      users := users - {id};
      r := Ok(id);
    }

    /** `updateActiveStatus`: block or unblock a student. */
    method UpdateActiveStatus(id: UserId, active: bool) returns (r: Result<User, Error>)
      requires Valid()
      modifies this
      ensures Valid() && nextId == old(nextId)
      ensures id !in old(users) ==> r == Err(UserNotFound)
      ensures id in old(users) && old(users[id].role) != Student ==> r == Err(NotAStudent)
      ensures r.Err? ==> users == old(users)
      ensures id in old(users) && old(users[id].role) == Student ==>
        r == Ok(old(users[id]).(active := active)) && users == old(users)[id := r.value]
    {
      if id !in users { return Err(UserNotFound); }
      if users[id].role != Student { return Err(NotAStudent); }
      users := users[id := users[id].(active := active)];
      r := Ok(users[id]);
    }

    /** `updateMyInfo`: only a non-empty name or password replaces the stored one. */
    method UpdateMyInfo(id: UserId, fullName: Option<string>, password: Option<string>) returns (r: Result<Claims, Error>)
      requires Valid()
      modifies this
      ensures Valid() && nextId == old(nextId)
      ensures id !in old(users) ==> r == Err(UserNotFound) && users == old(users)
      ensures id in old(users) ==>
        var u := old(users[id]);
        var updated := User(if Provided(fullName) then fullName.value else u.fullName,
                            u.email,
                            if Provided(password) then Hash(password.value) else u.password,
                            u.role,
                            u.active);
        users == old(users)[id := updated] && r == Ok(ClaimsOf(id, updated))
    {
      if id !in users { return Err(UserNotFound); }
      var u := users[id];
      if Provided(fullName) {
        u := u.(fullName := fullName.value);
      }
      if Provided(password) {
        u := u.(password := Hash(password.value));
      }
      users := users[id := u];
      r := Ok(ClaimsOf(id, u));
    }
  }
}

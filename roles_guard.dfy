/** The decision taken by `RolesGuard.canActivate` (backend/src/auth/roles.guard.ts). */
module RolesGuard {
  import opened Wrappers
  import opened Roles

  /** The authenticated user attached to the request; `role` is the raw claim string. */
  datatype Caller = Caller(role: string)

  /** `canActivate` either returns a boolean or throws `UnauthorizedException`. */
  datatype Outcome = Returns(allowed: bool) | ThrowsUnauthorized

  /** The metadata lookup `handlerRoles || classRoles`. `None` is a missing
      `@Roles` decorator; a present list, even an empty one, is truthy and wins. */
  function RequiredRoles(handler: Option<seq<Role>>, cls: Option<seq<Role>>): Option<seq<Role>> {
    if handler.Some? then handler else cls
  }

  /** `roles.some((role) => userRole === role)`. */
  function AnyMatches(roles: seq<Role>, userRole: string): (b: bool)
    ensures b <==> exists i :: 0 <= i < |roles| && Name(roles[i]) == userRole
  {
    if roles == [] then false
    else Name(roles[0]) == userRole || AnyMatches(roles[1..], userRole)
  }

  function CanActivate(handler: Option<seq<Role>>, cls: Option<seq<Role>>, user: Option<Caller>): (o: Outcome)
    ensures o != Returns(false)
    ensures user.None? ==> o == ThrowsUnauthorized
    ensures user.Some? && handler.None? && cls.None? ==> o == Returns(true)
    ensures o == Returns(true) <==>
      user.Some? &&
      (RequiredRoles(handler, cls).None? ||
       exists i :: 0 <= i < |RequiredRoles(handler, cls).value| &&
                   Name(RequiredRoles(handler, cls).value[i]) == user.value.role)
  {
    var required := RequiredRoles(handler, cls);
    if user.None? then ThrowsUnauthorized
    else if required.None? then Returns(true)
    else if AnyMatches(required.value, user.value.role) then Returns(true)
    else ThrowsUnauthorized
  }

  /** Roles declared on the handler decide alone: whatever the class declares is ignored. */
  lemma HandlerRolesTakePrecedence(handler: seq<Role>, cls1: Option<seq<Role>>, cls2: Option<seq<Role>>, user: Option<Caller>)
    ensures CanActivate(Some(handler), cls1, user) == CanActivate(Some(handler), cls2, user)
  {
  }

  /** Class-level roles apply exactly when the handler declares none. */
  lemma ClassRolesApplyWithoutHandlerRoles(cls: seq<Role>, user: Caller)
    ensures CanActivate(None, Some(cls), Some(user)) == CanActivate(Some(cls), None, Some(user))
  {
  }

  /** An empty handler-level list is truthy, so it is used, and nobody matches it. */
  lemma EmptyRoleListDenies(cls: Option<seq<Role>>, user: Caller)
    ensures CanActivate(Some([]), cls, Some(user)) == ThrowsUnauthorized
  {
  }

  /** A caller whose role string is not one of the four names never passes a
      role check (but still passes a route that declares no roles). */
  lemma UnknownRoleDenied(handler: Option<seq<Role>>, cls: Option<seq<Role>>, user: Caller)
    requires Parse(user.role).None?
    requires RequiredRoles(handler, cls).Some?
    ensures CanActivate(handler, cls, Some(user)) == ThrowsUnauthorized
  {
  }
}

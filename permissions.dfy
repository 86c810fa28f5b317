/** The three custom permission classes and the framework classes they are
    combined with, as predicates over the request method, the requester
    and (for the object-level check) the author of the object. */
module Permissions {
  import opened Roles

  datatype Method = Get | Head | Options | Post | Put | Patch | Delete

  /** `SAFE_METHODS`. */
  predicate IsSafe(m: Method) { m == Get || m == Head || m == Options }

  /** The requester: nobody, or a stored user with its id. */
  datatype Actor = Anonymous | Member(id: nat, account: Account)

  /** The framework's `IsAuthenticated`. */
  predicate IsAuthenticated(a: Actor) { a.Member? }

  /** The framework's `IsAuthenticatedOrReadOnly`. */
  predicate IsAuthenticatedOrReadOnly(m: Method, a: Actor) { IsSafe(m) || a.Member? }

  /** `IsAdministrator.has_permission`: consulted only after
      `IsAuthenticated`, so its requester is always a stored user. */
  predicate IsAdministrator(u: Account)
  {
    IsAdmin(u) || u.isSuperuser || u.isStaff
  }

  /** `IsAuthorOrIsStaffPermission.has_object_permission`. For an anonymous
      requester and an unsafe method the source's disjunction reaches
      `is_moderator`, which an anonymous user lacks; `IsAuthenticatedOrReadOnly`
      always rejects that request first, hence the precondition. */
  predicate IsAuthorOrIsStaff(m: Method, a: Actor, author: nat)
    requires IsSafe(m) || a.Member?
  {
    IsSafe(m)
    || a.id == author
    || a.account.isStaff
    || a.account.isSuperuser
    || IsModerator(a.account)
  }

  /** `IsAdminOnly.has_permission`. */
  predicate IsAdminOnly(m: Method, a: Actor)
  {
    IsSafe(m) || (a.Member? && IsAdmin(a.account))
  }

  /** `IsAdministrator` grants exactly the admin role, the superuser flag
      and the staff flag; it takes no method, so the method is irrelevant. */
  lemma AdministratorGrants(u: Account)
    ensures IsAdministrator(u) <==> u.role == Admin || u.isSuperuser || u.isStaff
  {
    ExactlyOneRole(u);
  }

  /** Safe methods always pass the object-level author check. */
  lemma AuthorCheckGrantsSafe(m: Method, a: Actor, author: nat)
    requires IsSafe(m)
    ensures IsAuthorOrIsStaff(m, a, author)
  {
  }

  /** The author, a moderator, a staff member and a superuser may all use
      any method on a review or comment; nobody else may use an unsafe one. */
  lemma AuthorCheckGrants(m: Method, id: nat, u: Account, author: nat)
    ensures IsAuthorOrIsStaff(m, Member(id, u), author)
        <==> IsSafe(m) || id == author || u.role == Moderator || u.isStaff || u.isSuperuser
  {
    ExactlyOneRole(u);
  }

  /** The admin role alone does not let a user change someone else's review
      or comment: admin is not one of the disjuncts. */
  lemma AdminRoleAloneCannotEditOthers(m: Method, id: nat, u: Account, author: nat)
    requires !IsSafe(m) && u.role == Admin && !u.isStaff && !u.isSuperuser && id != author
    ensures !IsAuthorOrIsStaff(m, Member(id, u), author)
  {
  }

  /** Reads pass `IsAdminOnly` for everyone, anonymous requesters included. */
  lemma AdminOnlyGrantsSafe(m: Method, a: Actor)
    requires IsSafe(m)
    ensures IsAdminOnly(m, a)
  {
  }

  /** Writes pass `IsAdminOnly` exactly for authenticated admins: the staff
      and superuser flags do not help. */
  lemma AdminOnlyWrites(m: Method, a: Actor)
    requires !IsSafe(m)
    ensures IsAdminOnly(m, a) <==> a.Member? && a.account.role == Admin
  {
    if a.Member? {
      ExactlyOneRole(a.account);
    }
  }

  /** Turning an unsafe request into a safe one never turns a grant into a
      denial, for any of the three classes or the two framework classes. */
  lemma SafeIsMonotone(unsafe: Method, safe: Method, a: Actor, author: nat)
    requires !IsSafe(unsafe) && IsSafe(safe)
    ensures IsAuthenticatedOrReadOnly(unsafe, a) ==> IsAuthenticatedOrReadOnly(safe, a)
    ensures IsAdminOnly(unsafe, a) ==> IsAdminOnly(safe, a)
    ensures a.Member? && IsAuthorOrIsStaff(unsafe, a, author) ==> IsAuthorOrIsStaff(safe, a, author)
  {
  }
}

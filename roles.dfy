/** The user model: the closed set of roles, the account record and the
    role accessors `is_user`, `is_moderator` and `is_admin`. */
module Roles {
  import opened Wrappers

  /** The three members of `UserRoles`, in the order of `User.ROLES`. */
  datatype Role = User | Moderator | Admin

  const RoleMaxLength: nat := 16
  const UsernameMaxLength: nat := 150
  const EmailMaxLength: nat := 254
  const PersonalNameMaxLength: nat := 150
  const BioMaxLength: nat := 256

  /** The string stored in the `role` column for each role. */
  function RoleName(r: Role): (s: string)
    ensures 0 < |s| <= RoleMaxLength
  {
    match r
    case User => "user"
    case Moderator => "moderator"
    case Admin => "admin"
  }

  /** The `choices=ROLES` check: a role string is accepted only when it is
      the name of one of the three roles, and then it names that role. */
  function ParseRole(s: string): (r: Option<Role>)
    ensures r.Some? ==> RoleName(r.value) == s
    ensures r.None? ==> forall q: Role :: RoleName(q) != s
  {
    if s == "user" then Some(User)
    else if s == "moderator" then Some(Moderator)
    else if s == "admin" then Some(Admin)
    else None
  }

  /** Every role survives a print-and-parse round trip. */
  lemma ParseRoleName(r: Role)
    ensures ParseRole(RoleName(r)) == Some(r)
  {
  }

  /** A stored user: the fields the API reads or writes, plus the two
      framework flags the permission classes consult. */
  datatype Account = Account(
    username: string,
    email: string,
    firstName: string,
    lastName: string,
    bio: string,
    role: Role,
    isStaff: bool,
    isSuperuser: bool)

  /** `is_user`, `is_moderator`, `is_admin`: string comparisons on the role column. */
  predicate IsUser(a: Account) { RoleName(a.role) == "user" }
  predicate IsModerator(a: Account) { RoleName(a.role) == "moderator" }
  predicate IsAdmin(a: Account) { RoleName(a.role) == "admin" }

  /** Each accessor holds exactly for its own role, and for every account
      exactly one of them holds. */
  lemma ExactlyOneRole(a: Account)
    ensures IsUser(a) <==> a.role == User
    ensures IsModerator(a) <==> a.role == Moderator
    ensures IsAdmin(a) <==> a.role == Admin
    ensures (IsUser(a) && !IsModerator(a) && !IsAdmin(a))
         || (!IsUser(a) && IsModerator(a) && !IsAdmin(a))
         || (!IsUser(a) && !IsModerator(a) && IsAdmin(a))
  {
  }

  /** Users `u` and `v` are both stored and share a username. */
  ghost predicate SameUsername(users: map<nat, Account>, u: nat, v: nat)
  {
    u in users && v in users && users[u].username == users[v].username
  }

  /** Users `u` and `v` are both stored and share an email. */
  ghost predicate SameEmail(users: map<nat, Account>, u: nat, v: nat)
  {
    u in users && v in users && users[u].email == users[v].email
  }

  /** The constraints of the user table: usernames and emails are unique
      and an email is never blank. */
  ghost predicate UsersValid(users: map<nat, Account>)
  {
    && (forall u :: u in users ==> |users[u].email| > 0)
    && (forall u, v :: SameUsername(users, u, v) ==> u == v)
    && (forall u, v :: SameEmail(users, u, v) ==> u == v)
  }

  /** Storing `a` under `id` keeps the user table's constraints when its
      email is not blank and no other user has its username or its email. */
  lemma StoreAccountKeepsUsers(users: map<nat, Account>, id: nat, a: Account)
    requires UsersValid(users) && |a.email| > 0
    requires forall u :: u in users && u != id ==> users[u].username != a.username && users[u].email != a.email
    ensures UsersValid(users[id := a])
  {
    var r := users[id := a];
    forall u, v | SameUsername(r, u, v) ensures u == v {
      if u != id && v != id {
        assert SameUsername(users, u, v);
      }
    }
    forall u, v | SameEmail(r, u, v) ensures u == v {
      if u != id && v != id {
        assert SameEmail(users, u, v);
      }
    }
  }

  /** Removing a user keeps the user table's constraints. */
  lemma RemoveAccountKeepsUsers(users: map<nat, Account>, id: nat)
    requires UsersValid(users)
    ensures UsersValid(users - {id})
  {
    var r := users - {id};
    forall u, v | SameUsername(r, u, v) ensures u == v {
      assert SameUsername(users, u, v);
    }
    forall u, v | SameEmail(r, u, v) ensures u == v {
      assert SameEmail(users, u, v);
    }
  }

  /** The role a new user gets when none is given. */
  const DefaultRole: Role := User

  /** A user record as created from a username and an email alone: the
      default role, no framework privileges and empty optional fields. */
  function NewAccount(username: string, email: string): (a: Account)
    ensures a.username == username && a.email == email
    ensures IsUser(a) && !a.isStaff && !a.isSuperuser
    ensures a.firstName == [] && a.lastName == [] && a.bio == []
  {
    Account(username, email, [], [], [], DefaultRole, false, false)
  }
}

/** A small Option type for lookups that may find nothing. */
module Maybe {
  datatype Option<+T> = None | Some(value: T)
}

/**
 The closed role enumeration of the account schema and the fixed rank table
 `RoleLevels` that the role-change rule compares: user 1, admin 2,
 superadmin 3.
 */
module Roles {
  import opened Maybe

  datatype Role = User | Admin | Superadmin

  /** The rank of a role in the hierarchy. */
  function Level(r: Role): (n: int)
    ensures 1 <= n <= 3
    ensures n == 1 <==> r == User
    ensures n == 3 <==> r == Superadmin
  {
    match r
    case User => 1
    case Admin => 2
    case Superadmin => 3
  }

  /** The string under which a role is stored and sent over the wire. */
  function Name(r: Role): (s: string)
    ensures |s| > 0
  {
    match r
    case User => "user"
    case Admin => "admin"
    case Superadmin => "superadmin"
  }

  /** The role named by a request string, if it is a key of the rank table;
      any other string (including "") names no role. */
  function ParseRole(s: string): (r: Option<Role>)
    ensures r.Some? <==> s == "user" || s == "admin" || s == "superadmin"
    ensures r.Some? ==> Name(r.value) == s
  {
    if s == "user" then Some(User)
    else if s == "admin" then Some(Admin)
    else if s == "superadmin" then Some(Superadmin)
    else None
  }

  /** Every role is named by its own string and by no other role's. */
  lemma ParseName(r: Role)
    ensures ParseRole(Name(r)) == Some(r)
  {
  }

  /** Ranks are distinct, so the rank table orders the roles totally. */
  lemma LevelInjective(a: Role, b: Role)
    requires Level(a) == Level(b)
    ensures a == b
  {
  }
}

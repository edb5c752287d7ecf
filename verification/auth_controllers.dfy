/**
 The account controllers: registration with its referral credit, login, and
 the role change guarded by the rank hierarchy. Registration and the role
 change take the store and return their reply together with the store after
 the call; login only reads the store and returns its reply.

 A request field the handlers test with `!field` is "missing" here when it is
 the empty string. The password hash, the password comparison and the clock
 are parameters.
 */
module AuthControllers {
  import opened Maybe
  import opened Roles
  import opened Users
  import Text

  datatype Response<R> = Response(reply: R, store: Store)

  /** The credit both parties of a referral receive. */
  const ReferralBonus: int := 10

  /** The public part of an account returned after registration (no password). */
  datatype Profile = Profile(
    id: nat, email: string, role: Role, name: string,
    username: string, credit: int, amount: real)

  function PublicProfile(s: Store, i: nat): (p: Profile)
    requires i < |s|
    ensures p.id == i && p.email == s[i].email && p.username == s[i].username
    ensures p.role == s[i].role && p.credit == s[i].credit && p.name == s[i].name
    ensures p.amount == s[i].amount
  {
    Profile(i, s[i].email, s[i].role, s[i].name, s[i].username, s[i].credit, s[i].amount)
  }

  // ---------------------------------------------------------------------
  // Registration
  // ---------------------------------------------------------------------

  /** The generated username: first token of the name, then the timestamp
      in decimal. */
  function Username(name: string, now: nat): (u: string)
    ensures u != ""
    ensures Text.FirstToken(name) <= u
    ensures Text.AllDigits(u[|Text.FirstToken(name)|..])
    ensures Text.ParseDecimal(u[|Text.FirstToken(name)|..]) == now
  {
    var u := Text.FirstToken(name) + Text.Decimal(now);
    assert u[|Text.FirstToken(name)|..] == Text.Decimal(now);
    Text.DecimalRoundTrip(now);
    u
  }

  /** Two registrations under the same name at different instants get
      different usernames. */
  lemma UsernameDistinctTimes(name: string, t1: nat, t2: nat)
    requires t1 != t2
    ensures Username(name, t1) != Username(name, t2)
  {
  }

  /** The referral rule's guard, on the store right after the newcomer at
      `newcomer` was created: a non-empty code, not the newcomer's own
      username, that some account holds. */
  predicate Referred(s: Store, newcomer: nat, refer: string)
    requires newcomer < |s|
  {
    refer != "" && refer != s[newcomer].username && HasUsername(s, refer)
  }

  /** `r` is `s` with the referral bonus added to the credit of the two
      distinct accounts `k` and `n`, and nothing else changed. */
  predicate BonusPaid(s: Store, r: Store, k: int, n: int) {
    && |r| == |s| && 0 <= k < |s| && 0 <= n < |s| && k != n
    && r[k] == s[k].(credit := s[k].credit + ReferralBonus)
    && r[n] == s[n].(credit := s[n].credit + ReferralBonus)
    && forall j :: 0 <= j < |s| && j != k && j != n ==> r[j] == s[j]
  }

  /** The referral step run after the newcomer is created: when the guard
      holds, the inviter (the first account with username `refer`) and the
      newcomer each gain the bonus; otherwise nothing changes. */
  function ApplyReferral(s: Store, newcomer: nat, refer: string): (r: Store)
    requires newcomer < |s|
    ensures Referred(s, newcomer, refer) ==>
              exists k :: FirstWithUsername(s, refer, k) && BonusPaid(s, r, k, newcomer)
    ensures !Referred(s, newcomer, refer) ==> r == s
    ensures Valid(s) ==> Valid(r)
  {
    if refer == "" || refer == s[newcomer].username then s
    else match FindByUsername(s, refer)
      case None => s
      case Some(k) =>
        AddCredit(AddCredit(s, k, ReferralBonus), newcomer, ReferralBonus)
  }

  /** A paid referral adds exactly twice the bonus to the total credit in
      the store; an unpaid one adds nothing. */
  lemma ReferralTotalCredit(s: Store, newcomer: nat, refer: string)
    requires newcomer < |s|
    ensures TotalCredit(ApplyReferral(s, newcomer, refer)) ==
              TotalCredit(s) + (if Referred(s, newcomer, refer) then 2 * ReferralBonus else 0)
  {
    if Referred(s, newcomer, refer) {
      var k := FindByUsername(s, refer).value;
      TotalCreditAdd(s, k, ReferralBonus);
      TotalCreditAdd(AddCredit(s, k, ReferralBonus), newcomer, ReferralBonus);
    }
  }

  datatype RegisterReply =
    | MissingParameters          // 400: name, email or password missing
    | UserAlreadyExists          // 400: the email is taken
    | InternalError              // 500: `create` refused the record
    | Registered(profile: Profile)  // 201

  /** The record registration asks `create` for. */
  function Requested(name: string, email: string, password: string, now: nat, hash: string -> string): NewAccount {
    NewAccount(name, email, hash(password), Username(name, now))
  }

  /** `Register`: check the required fields and the email, create the
      account with a generated username and the hashed password, then apply
      the referral rule. */
  function Register(s: Store, name: string, email: string, password: string, refer: string,
                    now: nat, hash: string -> string): (r: Response<RegisterReply>)
    ensures r.reply == MissingParameters <==> name == "" || email == "" || password == ""
    ensures r.reply == UserAlreadyExists <==>
              name != "" && email != "" && password != "" && HasEmail(s, email)
    ensures r.reply == InternalError <==>
              && name != "" && email != "" && password != "" && !HasEmail(s, email)
              && (hash(password) == "" || HasUsername(s, Username(name, now)))
    ensures !r.reply.Registered? ==> r.store == s
    ensures r.reply.Registered? ==>
              var created := s + [Fresh(Requested(name, email, password, now, hash))];
              && |r.store| == |s| + 1
              && r.reply.profile == PublicProfile(r.store, |s|)
              && (refer != "" && refer != Username(name, now) && HasUsername(s, refer) ==>
                    exists k :: FirstWithUsername(s, refer, k) && BonusPaid(created, r.store, k, |s|))
              && (!(refer != "" && refer != Username(name, now) && HasUsername(s, refer)) ==>
                    r.store == created)
    ensures Valid(s) ==> Valid(r.store)
  {
    if name == "" || email == "" || password == "" then Response(MissingParameters, s)
    else if FindByEmail(s, email).Some? then Response(UserAlreadyExists, s)
    else
      var f := Requested(name, email, password, now, hash);
      match Create(s, f)
      case CreateFailed(_) => Response(InternalError, s)
      case Created(s1) =>
        ReferredAfterCreate(s, f, refer);
        var s2 := ApplyReferral(s1, |s|, refer);
        Response(Registered(PublicProfile(s2, |s|)), s2)
  }

  /** On the store right after `create`, the referral guard reads the same as
      on the store before it, and finds the same inviter. */
  lemma ReferredAfterCreate(s: Store, f: NewAccount, refer: string)
    ensures Referred(s + [Fresh(f)], |s|, refer) <==>
              refer != "" && refer != f.username && HasUsername(s, refer)
    ensures forall k :: FirstWithUsername(s + [Fresh(f)], refer, k) && refer != f.username ==>
              FirstWithUsername(s, refer, k)
  {
    var c := s + [Fresh(f)];
    if refer != f.username && HasUsername(c, refer) {
      var i :| 0 <= i < |c| && c[i].username == refer;
      assert i < |s| && s[i].username == refer;
    }
    if HasUsername(s, refer) {
      var i :| 0 <= i < |s| && s[i].username == refer;
      assert c[i].username == refer;
    }
    forall k | FirstWithUsername(c, refer, k) && refer != f.username
      ensures FirstWithUsername(s, refer, k)
    {
      assert c[|s|].username == f.username;
      assert k < |s|;
      forall j | 0 <= j < k ensures s[j].username != refer {
        assert c[j] == s[j];
      }
    }
  }

  /** For a code that some account held before the call, the guard against
      self-referral never decides anything: a registration that succeeds has
      a username different from it, because creation refuses a username
      that is already taken. */
  lemma SelfReferralGuardRedundant(s: Store, name: string, email: string, password: string,
                                   refer: string, now: nat, hash: string -> string)
    requires HasUsername(s, refer)
    ensures Register(s, name, email, password, refer, now, hash).reply.Registered? ==>
              refer != Username(name, now)
  {
  }

  /** For the newcomer's own username as code, the guard is what blocks
      payment: the inviter lookup on the store after creation finds the
      newcomer itself, yet no credit changes and the newcomer keeps 0. */
  lemma GuardBlocksSelfReferral(s: Store, name: string, email: string, password: string,
                                now: nat, hash: string -> string)
    ensures var r := Register(s, name, email, password, Username(name, now), now, hash);
            r.reply.Registered? ==>
              && FirstWithUsername(r.store, Username(name, now), |s|)
              && r.store == s + [Fresh(Requested(name, email, password, now, hash))]
              && r.store[|s|].credit == 0
  {
  }

  /** A successful registration adds twice the bonus to the total credit when
      the referral is paid and nothing otherwise; a failed one changes nothing. */
  lemma RegisterTotalCredit(s: Store, name: string, email: string, password: string,
                            refer: string, now: nat, hash: string -> string)
    ensures var r := Register(s, name, email, password, refer, now, hash);
            TotalCredit(r.store) == TotalCredit(s) +
              (if r.reply.Registered? && refer != "" && refer != Username(name, now) && HasUsername(s, refer)
               then 2 * ReferralBonus else 0)
  {
    var r := Register(s, name, email, password, refer, now, hash);
    if r.reply.Registered? {
      var f := Requested(name, email, password, now, hash);
      var c := s + [Fresh(f)];
      TotalCreditAppend(s, Fresh(f));
      ReferredAfterCreate(s, f, refer);
      ReferralTotalCredit(c, |s|, refer);
    }
  }

  /** Registering an email that a registration has just taken is refused,
      and the second attempt changes nothing. */
  lemma DuplicateEmailRejected(s: Store, name: string, email: string, password: string,
                               refer: string, now: nat, hash: string -> string,
                               name2: string, password2: string, refer2: string, now2: nat)
    requires Register(s, name, email, password, refer, now, hash).reply.Registered?
    requires name2 != "" && password2 != ""
    ensures var s1 := Register(s, name, email, password, refer, now, hash).store;
            Register(s1, name2, email, password2, refer2, now2, hash) == Response(UserAlreadyExists, s1)
  {
    var s1 := Register(s, name, email, password, refer, now, hash).store;
    assert s1[|s|].email == email;
  }

  // ---------------------------------------------------------------------
  // Login
  // ---------------------------------------------------------------------

  /** The public part of an account returned after login. */
  datatype LoginProfile = LoginProfile(id: nat, email: string, role: Role, name: string)

  datatype LoginReply =
    | LoginMissingParameters     // 400
    | InvalidCredentials         // 401: unknown email or wrong password alike
    | LoggedIn(profile: LoginProfile)  // 200

  /** `Login`: find the account by email and compare the password with its
      stored hash using `matches` (plain password, stored hash). */
  function Login(s: Store, email: string, password: string, matches: (string, string) -> bool): (r: LoginReply)
    ensures r == LoginMissingParameters <==> email == "" || password == ""
    ensures r.LoggedIn? <==>
              email != "" && password != "" &&
              exists i :: FirstWithEmail(s, email, i) && matches(password, s[i].password)
    ensures r.LoggedIn? ==>
              FirstWithEmail(s, email, r.profile.id) &&
              r.profile == LoginProfile(r.profile.id, email, s[r.profile.id].role, s[r.profile.id].name)
  {
    if email == "" || password == "" then LoginMissingParameters
    else match FindByEmail(s, email)
      case None => InvalidCredentials
      case Some(i) =>
        if matches(password, s[i].password) then LoggedIn(LoginProfile(i, s[i].email, s[i].role, s[i].name))
        else InvalidCredentials
  }

  /** Logging in with the credentials just registered succeeds, as the new
      account, whenever the comparison accepts a password against its own
      hash. */
  lemma LoginAfterRegister(s: Store, name: string, email: string, password: string,
                           refer: string, now: nat, hash: string -> string,
                           matches: (string, string) -> bool)
    requires Register(s, name, email, password, refer, now, hash).reply.Registered?
    requires matches(password, hash(password))
    ensures var s1 := Register(s, name, email, password, refer, now, hash).store;
            Login(s1, email, password, matches) == LoggedIn(LoginProfile(|s|, email, User, name))
  {
    var s1 := Register(s, name, email, password, refer, now, hash).store;
    assert FirstWithEmail(s1, email, |s|);
  }

  // ---------------------------------------------------------------------
  // Role change
  // ---------------------------------------------------------------------

  datatype ChangeRoleReply =
    | ChangeBadRequest     // 400: email or newRole missing
    | InvalidRole          // 400: newRole is not a key of the rank table
    | TargetNotFound       // 404
    | AboveHierarchy       // 403: the target outranks the requester
    | AboveOwnLevel        // 403: the requested role outranks the requester
    | RoleChanged          // 200
    | Unhandled            // the handler throws before reaching its try block

  /** The hierarchy rule: a requester may change a target ranked no higher
      than themself to a role ranked no higher than themself. */
  function Authorize(requester: Role, target: Role, requested: Role): (d: ChangeRoleReply)
    ensures d in {AboveHierarchy, AboveOwnLevel, RoleChanged}
    ensures d == RoleChanged ==> Level(target) <= Level(requester) && Level(requested) <= Level(requester)
    ensures d == AboveHierarchy <==> Level(target) > Level(requester)
  {
    if Level(target) > Level(requester) then AboveHierarchy
    else if Level(requested) > Level(requester) then AboveOwnLevel
    else RoleChanged
  }

  /** No false denials: inside the requester's own rank every change is
      allowed, including granting their own role. */
  lemma AuthorizeAllowsWithinRank(requester: Role, target: Role, requested: Role)
    requires Level(target) <= Level(requester) && Level(requested) <= Level(requester)
    ensures Authorize(requester, target, requested) == RoleChanged
  {
  }

  /** A requester ranked higher is never denied what a lower one is allowed. */
  lemma AuthorizeMonotonic(low: Role, high: Role, target: Role, requested: Role)
    requires Level(low) <= Level(high)
    requires Authorize(low, target, requested) == RoleChanged
    ensures Authorize(high, target, requested) == RoleChanged
  {
  }

  /** A plain user can only ever set a plain user to user; a superadmin is
      never denied. */
  lemma AuthorizeExtremes(target: Role, requested: Role)
    ensures Authorize(User, target, requested) == RoleChanged <==> target == User && requested == User
    ensures Authorize(Superadmin, target, requested) == RoleChanged
  {
  }

  /** `Change_Role` with the rank-table check on `newRole` as intended: check
      the fields, check the role name, find the target, apply the hierarchy
      rule and on success overwrite only the target's role. */
  function ChangeRole(s: Store, requester: Role, email: string, newRole: string): (r: Response<ChangeRoleReply>)
    ensures r.reply == ChangeBadRequest <==> email == "" || newRole == ""
    ensures r.reply == InvalidRole <==> email != "" && newRole != "" && ParseRole(newRole).None?
    ensures r.reply == TargetNotFound <==> email != "" && ParseRole(newRole).Some? && !HasEmail(s, email)
    ensures forall i :: FirstWithEmail(s, email, i) && email != "" && ParseRole(newRole).Some? ==>
              r.reply == Authorize(requester, s[i].role, ParseRole(newRole).value)
    ensures r.reply != RoleChanged ==> r.store == s
    ensures r.reply == RoleChanged ==>
              exists i :: FirstWithEmail(s, email, i) && r.store == SetRole(s, i, ParseRole(newRole).value)
    ensures r.reply != Unhandled
    ensures Valid(s) ==> Valid(r.store)
  {
    if email == "" || newRole == "" then Response(ChangeBadRequest, s)
    else match ParseRole(newRole)
      case None => Response(InvalidRole, s)
      case Some(role) =>
        match FindByEmail(s, email)
        case None => Response(TargetNotFound, s)
        case Some(i) =>
          var d := Authorize(requester, s[i].role, role);
          if d == RoleChanged then
            Response(RoleChanged, SetRole(s, i, role))
          else Response(d, s)
  }

  /** In a valid store, a change the rank rule permits on the account holding
      `email` succeeds and changes that account's role and nothing else. */
  lemma ChangeRoleAllowed(s: Store, requester: Role, email: string, newRole: string, i: nat)
    requires Valid(s) && i < |s| && s[i].email == email
    requires ParseRole(newRole).Some?
    requires Level(s[i].role) <= Level(requester) && Level(ParseRole(newRole).value) <= Level(requester)
    ensures ChangeRole(s, requester, email, newRole) == Response(RoleChanged, SetRole(s, i, ParseRole(newRole).value))
  {
    EmailIsFirst(s, email, i);
  }

  /** In a valid store, asking for a role above one's own rank is always
      refused and changes nothing, whoever the target is. */
  lemma ChangeRoleNeverEscalates(s: Store, requester: Role, email: string, newRole: string, i: nat)
    requires Valid(s) && i < |s| && s[i].email == email
    requires ParseRole(newRole).Some? && Level(ParseRole(newRole).value) > Level(requester)
    ensures var r := ChangeRole(s, requester, email, newRole);
            r.reply in {AboveHierarchy, AboveOwnLevel} && r.store == s
  {
    EmailIsFirst(s, email, i);
  }

  /** Repeating a successful role change succeeds again and changes nothing
      more. */
  lemma ChangeRoleIdempotent(s: Store, requester: Role, email: string, newRole: string)
    requires ChangeRole(s, requester, email, newRole).reply == RoleChanged
    ensures var s1 := ChangeRole(s, requester, email, newRole).store;
            ChangeRole(s1, requester, email, newRole) == Response(RoleChanged, s1)
  {
    var s1 := ChangeRole(s, requester, email, newRole).store;
    var role := ParseRole(newRole).value;
    var i :| FirstWithEmail(s, email, i) && s1 == SetRole(s, i, role);
    assert FirstWithEmail(s1, email, i);
    assert Level(s1[i].role) <= Level(requester);
  }

  /** `Change_Role` as written: the role-name check reads `ROLE_LEVELS`, a
      name declared nowhere, so once both fields are present the handler
      throws before its try block and never reaches the store. */
  function ChangeRoleAsWritten(s: Store, requester: Role, email: string, newRole: string): (r: Response<ChangeRoleReply>)
    ensures r.store == s
    ensures r.reply == ChangeBadRequest <==> email == "" || newRole == ""
    ensures r.reply in {ChangeBadRequest, Unhandled}
  {
    if email == "" || newRole == "" then Response(ChangeBadRequest, s)
    else Response(Unhandled, s)
  }

  /** The discrepancy: a superadmin promoting a user to admin is refused by
      the code as written and granted by the intended rule. */
  lemma RoleLevelsTypoBlocksChange()
    ensures var s := [Account("Ann", "ann@x", "h", User, "Ann1", 0, 0.0)];
            && ChangeRoleAsWritten(s, Superadmin, "ann@x", "admin").reply == Unhandled
            && ChangeRole(s, Superadmin, "ann@x", "admin") ==
                 Response(RoleChanged, [Account("Ann", "ann@x", "h", Admin, "Ann1", 0, 0.0)])
  {
    var s := [Account("Ann", "ann@x", "h", User, "Ann1", 0, 0.0)];
    assert FirstWithEmail(s, "ann@x", 0);
  }

  /** The worked examples of the hierarchy rule, and an admin granting admin. */
  lemma HierarchyExamples()
    ensures Authorize(Admin, Superadmin, Admin) == AboveHierarchy
    ensures Authorize(Admin, User, Superadmin) == AboveOwnLevel
    ensures Authorize(Superadmin, User, Admin) == RoleChanged
    ensures Authorize(Admin, User, Admin) == RoleChanged
  {
  }
}

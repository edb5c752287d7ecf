/**
 The `User` collection: the account record of the schema, an in-memory store
 standing for the collection, and the store primitives the controllers use
 (`findOne` by email or username, `create` with schema defaults and
 validation, and the per-record `save` of a changed role or credit).

 The store is a sequence in insertion order; an account's position is its
 identity. `findOne` returns the first match, and `create` appends.
 */
module Users {
  import opened Maybe
  import opened Roles

  datatype Account = Account(
    name: string,
    email: string,
    password: string,   // the stored (hashed) secret
    role: Role,
    username: string,
    credit: int,
    amount: real)

  type Store = seq<Account>

  /** The fields a caller passes to `create`; the rest take schema defaults. */
  datatype NewAccount = NewAccount(name: string, email: string, password: string, username: string)

  /** `required: true` on a string field rejects a missing or empty value. */
  predicate HasRequired(a: Account) {
    a.name != "" && a.email != "" && a.password != "" && a.username != ""
  }

  predicate EmailsUnique(s: Store) {
    forall i, j :: 0 <= i < j < |s| ==> s[i].email != s[j].email
  }

  predicate UsernamesUnique(s: Store) {
    forall i, j :: 0 <= i < j < |s| ==> s[i].username != s[j].username
  }

  /** What the schema and its unique indexes guarantee of every stored
      collection, plus the non-negativity of the two counters. */
  predicate Valid(s: Store) {
    && EmailsUnique(s)
    && UsernamesUnique(s)
    && forall i :: 0 <= i < |s| ==> HasRequired(s[i]) && s[i].credit >= 0 && s[i].amount >= 0.0
  }

  predicate HasEmail(s: Store, email: string) {
    exists i :: 0 <= i < |s| && s[i].email == email
  }

  predicate HasUsername(s: Store, username: string) {
    exists i :: 0 <= i < |s| && s[i].username == username
  }

  /** `i` is the account `findOne({ email })` returns. */
  predicate FirstWithEmail(s: Store, email: string, i: int) {
    && 0 <= i < |s|
    && s[i].email == email
    && forall j :: 0 <= j < i ==> s[j].email != email
  }

  /** `i` is the account `findOne({ username })` returns. */
  predicate FirstWithUsername(s: Store, username: string, i: int) {
    && 0 <= i < |s|
    && s[i].username == username
    && forall j :: 0 <= j < i ==> s[j].username != username
  }

  /** `findOne({ email })`. */
  function FindByEmail(s: Store, email: string): (r: Option<nat>)
    ensures r.Some? ==> FirstWithEmail(s, email, r.value)
    ensures r.None? <==> !HasEmail(s, email)
    decreases |s|
  {
    if |s| == 0 then None
    else if s[0].email == email then Some(0)
    else match FindByEmail(s[1..], email)
      case None => None
      case Some(i) => Some(i + 1)
  }

  /** `findOne({ username })`. */
  function FindByUsername(s: Store, username: string): (r: Option<nat>)
    ensures r.Some? ==> FirstWithUsername(s, username, r.value)
    ensures r.None? <==> !HasUsername(s, username)
    decreases |s|
  {
    if |s| == 0 then None
    else if s[0].username == username then Some(0)
    else match FindByUsername(s[1..], username)
      case None => None
      case Some(i) => Some(i + 1)
  }

  /** In a valid store the account holding an email is the first one with it. */
  lemma EmailIsFirst(s: Store, email: string, i: int)
    requires Valid(s)
    requires 0 <= i < |s| && s[i].email == email
    ensures FirstWithEmail(s, email, i)
  {
  }

  /** In a valid store the account holding a username is the first one with it. */
  lemma UsernameIsFirst(s: Store, username: string, i: int)
    requires Valid(s)
    requires 0 <= i < |s| && s[i].username == username
    ensures FirstWithUsername(s, username, i)
  {
  }

  /** The record `create` builds: the given fields and the schema defaults
      (role user, credit 0, Amount 0). */
  function Fresh(f: NewAccount): (a: Account)
    ensures a.role == User && a.credit == 0 && a.amount == 0.0
    ensures a.name == f.name && a.email == f.email && a.password == f.password && a.username == f.username
  {
    Account(f.name, f.email, f.password, User, f.username, 0, 0.0)
  }

  datatype CreateError =
    | ValidationFailed   // a required field is missing
    | DuplicateKey       // the email or username unique index is violated

  datatype CreateResult = Created(store: Store) | CreateFailed(error: CreateError)

  /** `User.create(fields)`: validate the required fields, then insert,
      which the unique indexes on email and username may refuse. */
  function Create(s: Store, f: NewAccount): (r: CreateResult)
    ensures r.CreateFailed? && r.error == ValidationFailed <==>
              f.name == "" || f.email == "" || f.password == "" || f.username == ""
    ensures r.Created? <==>
              && f.name != "" && f.email != "" && f.password != "" && f.username != ""
              && !HasEmail(s, f.email) && !HasUsername(s, f.username)
    ensures r.Created? ==>
              && |r.store| == |s| + 1
              && r.store[..|s|] == s
              && r.store[|s|] == Fresh(f)
    ensures r.Created? && Valid(s) ==> Valid(r.store)
  {
    if f.name == "" || f.email == "" || f.password == "" || f.username == "" then
      CreateFailed(ValidationFailed)
    else if FindByEmail(s, f.email).Some? || FindByUsername(s, f.username).Some? then
      CreateFailed(DuplicateKey)
    else
      var s' := s + [Fresh(f)];
      assert s'[..|s|] == s;
      Created(s')
  }

  /** `account.credit += delta; account.save()` on the account at `i`. */
  function AddCredit(s: Store, i: nat, delta: int): (r: Store)
    requires i < |s|
    ensures |r| == |s|
    ensures r[i].credit == s[i].credit + delta
    ensures r[i] == s[i].(credit := r[i].credit)
    ensures forall j :: 0 <= j < |s| && j != i ==> r[j] == s[j]
  {
    s[i := s[i].(credit := s[i].credit + delta)]
  }

  /** `account.role = role; account.save()` on the account at `i`. */
  function SetRole(s: Store, i: nat, role: Role): (r: Store)
    requires i < |s|
    ensures |r| == |s|
    ensures r[i].role == role
    ensures r[i] == s[i].(role := role)
    ensures forall j :: 0 <= j < |s| && j != i ==> r[j] == s[j]
  {
    s[i := s[i].(role := role)]
  }

  /** A role change keeps every schema guarantee: it touches no unique or
      required field and no counter. */
  lemma SetRolePreservesValid(s: Store, i: nat, role: Role)
    requires Valid(s) && i < |s|
    ensures Valid(SetRole(s, i, role))
  {
  }

  /** A non-negative credit increment keeps every schema guarantee. */
  lemma AddCreditPreservesValid(s: Store, i: nat, delta: nat)
    requires Valid(s) && i < |s|
    ensures Valid(AddCredit(s, i, delta))
  {
  }

  /** The sum of all accounts' credit. */
  function TotalCredit(s: Store): int
    decreases |s|
  {
    if |s| == 0 then 0 else TotalCredit(s[..|s| - 1]) + s[|s| - 1].credit
  }

  /** Appending an account adds its credit to the total. */
  lemma TotalCreditAppend(s: Store, a: Account)
    ensures TotalCredit(s + [a]) == TotalCredit(s) + a.credit
  {
    assert (s + [a])[..|s|] == s;
  }

  /** Changing one account's credit by `delta` changes the total by `delta`. */
  lemma {:induction false} TotalCreditAdd(s: Store, i: nat, delta: int)
    requires i < |s|
    ensures TotalCredit(AddCredit(s, i, delta)) == TotalCredit(s) + delta
    decreases |s|
  {
    var r := AddCredit(s, i, delta);
    var n := |s| - 1;
    if i == n {
      assert r[..n] == s[..n];
    } else {
      assert r[..n] == AddCredit(s[..n], i, delta);
      TotalCreditAdd(s[..n], i, delta);
    }
  }
}

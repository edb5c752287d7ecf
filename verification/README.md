# Shecan account store, modelled in Dafny

This project models the account logic of the Shecan backend, a small
referral-and-credit service. Users register, optionally with a referral code
(another user's username) that credits both parties. They log in. An admin or
superadmin can change another user's role within a three-level hierarchy
(user 1 < admin 2 < superadmin 3).

The MongoDB `User` collection is an in-memory store: a sequence of `Account`
records in insertion order. An account's position is its `_id`. `findOne`
returns the first match, and `create` appends after validating the required
fields and the unique email and username. Every operation is a pure function
of the store. Registration and the role change return a reply and the store
after the call. Login only reads the store and returns a reply.

Modules:

- `Text` (`text.dfy`): the username's parts. `FirstToken` is the first
  space-separated token of a name. `Decimal` renders a timestamp in decimal.
- `Maybe`, `Roles` (`roles.dfy`): the closed role enum of the schema, the rank
  table `RoleLevels`, and the check that a request string names a role.
- `Users` (`users.dfy`): the account schema with its defaults, required
  fields and unique indexes (`Valid`), plus `findOne`, `create` and the
  per-record saves of a role or a credit change.
- `AuthControllers` (`auth_controllers.dfy`): `Register` with the referral
  step, `Login`, and `ChangeRole` with its hierarchy rule.
- `Referrals` (`referrals.dfy`): many registrations in sequence that carry
  the same code.

A request field that the handlers test with `!field` counts as missing when
it is the empty string. The requester of a role change is given by role, and
that role is the closed enum. The route in `backend/Routes.js:16` also admits a
`'manager'` requester, which has no rank. The schema's enum never stores such
a role, so the model has no such requester. As written, such a requester's
rank is `undefined`. Both rank comparisons (backend/AuthControllers.js:120 and
124) are then false, so a manager would be allowed any role change on any
target. Closing the enum hides that behaviour.

## Model

| member | source | states |
|---|---|---|
| Roles.Level | backend/AuthControllers.js:5-9 | Every role has a rank from 1 to 3; only user ranks 1 and only superadmin ranks 3. |
| Roles.LevelInjective | backend/AuthControllers.js:5-9 | Distinct roles have distinct ranks, so the table is a strict total order. |
| Roles.ParseRole | backend/AuthControllers.js:105-107 | A request string names a role exactly when it is "user", "admin" or "superadmin", and the named role's stored name is that string. |
| Roles.ParseName | backend/Users.js:17-21 | Each enum value's stored name parses back to that value. |
| Text.FirstToken | backend/AuthControllers.js:33 | The first token of a name is a space-free prefix that ends at the name's end or just before a space. |
| Text.FirstTokenUnique | backend/AuthControllers.js:33 | Any prefix with those three properties is the first token, so they define it completely. |
| Text.FirstTokenOfFullName | backend/AuthControllers.js:33 | For a name "First Rest" with a space-free first part, the first token is "First". |
| Text.Decimal | backend/AuthControllers.js:33 | A timestamp renders as a non-empty string of digits with no leading zero unless the value is 0. |
| Text.DecimalRoundTrip | backend/AuthControllers.js:33 | Reading back the rendered digits gives the timestamp. |
| Text.DecimalInjective | backend/AuthControllers.js:33 | Distinct timestamps render as distinct strings. |
| Users.FindByEmail | backend/AuthControllers.js:27 | The lookup by email returns the first account with that email, and returns nothing exactly when no account has it. |
| Users.FindByUsername | backend/AuthControllers.js:39 | The lookup by username returns the first account with that username, and returns nothing exactly when no account has it. |
| Users.EmailIsFirst | backend/Users.js:8-12 | Because emails are unique in a valid store, any account holding an email is the one the lookup finds. |
| Users.UsernameIsFirst | backend/Users.js:22-26 | Because usernames are unique in a valid store, any account holding a username is the one the lookup finds. |
| Users.Fresh | backend/Users.js:17-34 | A created account has the given name, email, password and username, role user, credit 0 and Amount 0. |
| Users.Create | backend/Users.js:3-35 | Creation fails validation exactly when name, email, password or username is empty. It succeeds exactly when all four are present and neither the email nor the username is taken. On success it appends the fresh record, leaves every existing account alone, and keeps the store valid. |
| Users.AddCredit | backend/AuthControllers.js:42-45 | Adding credit changes only that account's credit, by exactly the delta. |
| Users.SetRole | backend/AuthControllers.js:130-131 | Saving a new role changes only that account's role. |
| Users.SetRolePreservesValid | backend/AuthControllers.js:130-131 | A role change keeps emails and usernames unique and keeps required fields and counters valid. |
| Users.AddCreditPreservesValid | backend/AuthControllers.js:42-45 | A non-negative credit increment keeps the store valid. |
| Users.TotalCreditAppend | backend/AuthControllers.js:34 | Creating an account adds its credit to the store's total credit. |
| Users.TotalCreditAdd | backend/AuthControllers.js:42-45 | Changing one account's credit by a delta changes the total by exactly that delta. |
| AuthControllers.PublicProfile | backend/AuthControllers.js:50-60 | The registration reply carries the account's id, email, role, name, username, credit and Amount, and no password. |
| AuthControllers.Username | backend/AuthControllers.js:33 | A generated username is non-empty and is the name's first token followed only by digits, and those digits read back as the timestamp. |
| AuthControllers.UsernameDistinctTimes | backend/AuthControllers.js:33 | The same name registered at two different instants gets two different usernames. |
| AuthControllers.ApplyReferral | backend/AuthControllers.js:38-48 | When the code is non-empty, is not the newcomer's username and names an account, the first such account and the newcomer each gain exactly 10 credit and nothing else changes. Otherwise the store is unchanged. Validity is kept. |
| AuthControllers.ReferralTotalCredit | backend/AuthControllers.js:38-48 | A paid referral raises the total credit by exactly 20, and an unpaid one leaves it unchanged. |
| AuthControllers.ReferredAfterCreate | backend/AuthControllers.js:38-40 | Looking up the inviter after the newcomer is created gives the same answer, and the same account, as looking it up before. |
| AuthControllers.Register | backend/AuthControllers.js:20-66 | A missing name, email or password gives a 400 error. A taken email gives "already exists". A create refusal gives 500. None of these errors changes the store. On success exactly one account is added with the defaults and the generated username. With a valid referral that account and the inviter each gain 10 credit; otherwise no credit changes. No other account changes, and the store stays valid. |
| AuthControllers.SelfReferralGuardRedundant | backend/AuthControllers.js:38 | If a registration succeeds with a code that some account held before the call, the code differs from the new username. For such codes the self-referral guard never decides the outcome. |
| AuthControllers.GuardBlocksSelfReferral | backend/AuthControllers.js:38-40 | If a registration succeeds with its own new username as the code, the lookup after creation finds the new account itself. The guard is then what blocks payment: no credit changes and the new account keeps credit 0. |
| AuthControllers.RegisterTotalCredit | backend/AuthControllers.js:33-48 | Each registration raises the total credit by exactly 20 when the referral is paid and by 0 otherwise. |
| AuthControllers.DuplicateEmailRejected | backend/AuthControllers.js:27-30 | After one registration succeeds, a second registration with the same email is refused and changes nothing. |
| AuthControllers.Login | backend/AuthControllers.js:68-98 | Missing fields give a 400 error. Login succeeds exactly when the account with that email exists and the password matches its stored hash. The reply then identifies that account. An unknown email and a wrong password give the same reply. |
| AuthControllers.LoginAfterRegister | backend/AuthControllers.js:68-93 | Logging in with just-registered credentials succeeds as the new account with role user, provided the comparison accepts a password against its own hash. |
| AuthControllers.Authorize | backend/AuthControllers.js:117-126 | The rule denies "above hierarchy" exactly when the target outranks the requester. It allows only when neither the target nor the requested role outranks the requester. |
| AuthControllers.AuthorizeAllowsWithinRank | backend/AuthControllers.js:120-130 | It never denies falsely: a target and a requested role both within the requester's rank are allowed, including the requester's own role. |
| AuthControllers.AuthorizeMonotonic | backend/AuthControllers.js:120-126 | A higher-ranked requester is allowed everything a lower-ranked one is. |
| AuthControllers.AuthorizeExtremes | backend/AuthControllers.js:117-126 | A user may only set a user to user, and a superadmin is never denied. |
| AuthControllers.HierarchyExamples | backend/AuthControllers.js:117-126 | An admin cannot touch a superadmin or grant superadmin. A superadmin may make a user an admin. An admin may make a user an admin. |
| AuthControllers.ChangeRole | backend/AuthControllers.js:100-139 | A missing field gives bad-request. A non-role gives invalid-role whatever the requester or store. An unknown email gives not-found. Otherwise the hierarchy rule decides for the first account with that email. Every refusal leaves the store unchanged. On success only that account's role changes, the handler never throws, and the store stays valid. |
| AuthControllers.ChangeRoleAllowed | backend/AuthControllers.js:112-133 | In a valid store, a permitted change to the account with the email succeeds and sets only that account's role. |
| AuthControllers.ChangeRoleNeverEscalates | backend/AuthControllers.js:118-126 | In a valid store, a request for a role above the requester's rank is refused with a 403 and changes nothing. |
| AuthControllers.ChangeRoleIdempotent | backend/AuthControllers.js:130-133 | Repeating a successful role change succeeds again and leaves the store as it is. |
| AuthControllers.ChangeRoleAsWritten | backend/AuthControllers.js:101-107 | As written, the handler answers bad-request when a field is missing and otherwise throws at the role-name check. It never changes the store. |
| AuthControllers.RoleLevelsTypoBlocksChange | backend/AuthControllers.js:105 | Example: a superadmin's permitted promotion of a user to admin throws as written but succeeds under the intended check. |
| Referrals.RegisterAll | backend/AuthControllers.js:20-66 | A run of registrations adds exactly one account per successful registration. |
| Referrals.RegisterPaysInviter | backend/AuthControllers.js:38-47 | In a valid store, a registration carrying an existing user's code raises that user's credit by exactly 10 if it succeeds and by 0 if not. That user keeps its username, and the store stays valid. |
| Referrals.InviterCreditCountsRegistrations | backend/AuthControllers.js:38-47 | N successful sequential registrations with the same valid code raise the inviter's credit by exactly 10 × N, so no increment is lost. |

## Left out

- Password hashing and comparison (bcrypt) are function parameters: `hash` for `Register` and `matches` for `Login`. The model assumes nothing about them beyond being functions.
- Token signing (`GenerateToken`, JWT) is left out. Replies carry the profile but no token.
- `Date.now()` is the parameter `now`, a natural number of milliseconds.
- The MongoDB persistence calls are the abstract store. A failure of the database itself (a dropped connection, a failed `save`) is not modelled. The only 500 reply modelled is `create` refusing the record.
- The two credit saves of a referral form one atomic step here. The lost-update race between concurrent registrations that read the same inviter is a concurrency concern and is not modelled. `Referrals.InviterCreditCountsRegistrations` covers sequential runs only.
- Request fields are strings; "missing" is the empty string. JavaScript values of other types (numbers, objects, `null`) in the request body are not modelled. Neither is the use of an object as a query value in `findOne`.
- `Amount` is a `real` that no modelled operation changes. Floating-point behaviour of JavaScript numbers is not modelled, and `credit` is an unbounded integer.
- `getAllUsers` and `AllUsers` (backend/AuthControllers.js:141-159) are plain queries with no logic and are left out.
- Express routing and middleware are left out. This covers `protect`, the coarse `authorization` gate and `isAdmin`, whose source is not part of this model.
- Server startup (backend/index.js) and the React front end are left out.
- AuthControllers.ChangeRoleAsWritten: models the thrown error only as the reply `Unhandled`. What Express and Node then do with the rejected promise (no response, or a process exit) is not modelled.

## Findings

| source | as written | input that shows it | evidently intended | confidence | as-written member | corrected member |
|---|---|---|---|---|---|---|
| backend/AuthControllers.js:105 | The role-name check reads `ROLE_LEVELS`, an identifier declared nowhere; the rank table is `RoleLevels` (line 5). The check runs before the `try` block, so it throws for every request that has both fields. | A superadmin sets the role of the user `ann@x` to `admin` (`RoleLevelsTypoBlocksChange`). | Reject `newRole` unless it is a key of `RoleLevels`, then apply the hierarchy rule. | high; not executed | AuthControllers.ChangeRoleAsWritten | AuthControllers.ChangeRole |

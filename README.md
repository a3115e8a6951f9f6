# User-identity store of the study-ninja backend, in Dafny

This project models the user-identity core of the NestJS backend:

- `AuthService` keeps its own in-memory array of users. It registers users (unique email, hashed password, id `users.length + 1`), validates credentials (find by email, compare the hash, strip the password) and builds the login response around a signed token.
- `UserService` holds the business rules over an injected repository. It refuses a duplicate email before creating, hashes the password on create (and on update only when a truthy password is supplied), and turns a null or `false` answer of the repository into a not-found error.
- `UserRepository` is the wrapper over the ORM table. `findById`, `findByEmail` and `findAll` return only id, email and name, while `findByEmailWithPassword` returns the whole record; `update` merges the supplied fields; `delete` reports whether a record existed; `existsByEmail` tests for an email.

Layout:

- `results.dfy` (module `Results`): `Option` for `null` returns, `Result` for thrown exceptions, `Outcome` for `Promise<void>`.
- `crypto.dfy` (module `Crypto`): bcrypt and the JWT service as values holding functions. Only two facts are assumed, and only where a contract says so. `Bcrypt.Sound()`: a password matches its own hash. `JwtService.Sound()`: a signed token decodes to its payload. The hash is not assumed injective.
- `entity.dfy` (module `Entity`): the `User` record and the password-free `PublicUser` projection.
- `auth_service.dfy` (module `Auth`): the class `AuthService`, whose `users` field is a `seq<User>` that `Register` extends. The pure functions `IndexOfEmail`, `Validated` and `Registered` specify the methods and carry the lemmas.
- `user_repository.dfy` (module `Repository`): the class `UserRepository` over a `map<int, User>` table, with `nextId` as the auto-increment counter. `Valid()` holds four facts. Every record sits under its own id. The counter is at least 1. Every key lies between 1 and `nextId - 1`, so ids start at 1 and a new id is never one already used. Emails are unique, as the `unique: true` column (apps/backend/src/users/user.entity.ts:9) demands.
- `user_service.dfy` (module `Service`): the class `UserService`, holding a reference to the repository it modifies.

Where the program's tests or declared interfaces and its code differ, the code is followed:

- `login(user)` signs `{ email, sub: user.id, name: user.name }` of whatever it is given. It neither validates nor throws "Invalid credentials", although one unit test (apps/backend/src/auth/auth.service.spec.ts:57-80) expects it to. Its only caller, the login route (apps/backend/src/auth/auth.controller.ts:23-26), passes the raw request body `{ email, password }` with no guard in between. So the shipped route issues a token for any credentials, with `sub` and `name` undefined, and echoes the plaintext password back in `user`. `Login` models the service method on its declared argument shape; the route's call and the intended validating login are modelled beside it (see Findings).
- `UserService.create`, `update` and `findByEmail` return the full record, hash included, as the code does. The repository's `findById`, `findByEmail` and `findAll`, `AuthService.register` and `AuthService.validateUser` return the password-free view.
- An `update` whose password is the empty string passes `""` through unhashed (the `if (updateData.password)` test), so the repository stores it as given.

## Model

| member | source | states |
|---|---|---|
| `Auth.IndexOfEmail` | apps/backend/src/auth/auth.service.ts:14 | `users.find` by exact email: the index returned holds that email and no earlier record does; `None` exactly when no record has it |
| `Auth.Validated` | apps/backend/src/auth/auth.service.ts:13-20 | a result is always the password-free view of a record with that email whose stored hash matches; with distinct emails every matching record is returned; an unknown email gives `None` |
| `Auth.Registered` | apps/backend/src/auth/auth.service.ts:30-46 | fails exactly when the email is already present, leaving the array unchanged; otherwise appends exactly `{id: length + 1, email, hash(password), name}` after the untouched old records and returns `{id, email, name}`; keeps ids sequential and emails distinct |
| `Auth.SequentialIdsUnique` | apps/backend/src/auth/auth.service.ts:38-43 | ids assigned as `length + 1` on an append-only array are pairwise distinct |
| `Auth.RegisterThenValidate` | apps/backend/src/auth/auth.service.ts:13-46 | after a successful registration, validating with the same email and password returns exactly the user that registration returned |
| `Auth.RegisterSameEmailTwice` | apps/backend/src/auth/auth.service.ts:30-34 | a second registration with an email just registered is rejected and changes nothing, whatever its password and name |
| `Auth.AuthService.constructor` | apps/backend/src/auth/auth.service.ts:9-11 | the service starts with an empty user array and the given hashing and signing services |
| `Auth.AuthService.Find` | apps/backend/src/auth/auth.service.ts:14 | the linear scan returns the index of the first record with that email, as `IndexOfEmail` specifies |
| `Auth.AuthService.ValidateUser` | apps/backend/src/auth/auth.service.ts:13-20 | returns what `Validated` specifies over the current array and does not change it |
| `Auth.AuthService.Login` | apps/backend/src/auth/auth.service.ts:22-28 | returns the user unchanged with a token that decodes to `{email, sub: id, name}`; it reads no user array |
| `Auth.AuthService.LoginAsCalled` | apps/backend/src/auth/auth.controller.ts:23-26 | `login` applied to the route's body `{ email, password }`: the token decodes to `{ email, sub: undefined, name: undefined }` and the body, password included, is handed back |
| `Auth.AuthService.LoginAsCalledIgnoresCredentials` | apps/backend/src/auth/auth.service.ts:22-28 | for every user array and every body that does not validate against it, exactly when `LoginWithCredentials` fails with `InvalidCredentials`, the route's login still issues a token with no subject and echoes the plaintext password |
| `Auth.AuthService.LoginWithCredentials` | apps/backend/src/auth/auth.service.spec.ts:57-80 | fails with `InvalidCredentials` exactly when validation fails; otherwise returns the `login` response for the validated user, whose token decodes to the id of a stored user with that email and a matching hash |
| `Auth.AuthService.Register` | apps/backend/src/auth/auth.service.ts:30-46 | the result and new array are those of `Registered`, and the invariant (sequential ids, distinct emails) is kept |
| `Entity.Public` | apps/backend/src/auth/auth.service.ts:16 | the password strip `{ password, ...result }` (also line 44) and the `select` of id, email and name (apps/backend/src/users/repositories/user.repository.ts:26,33,45): id, email and name are kept, and the result has no password field |
| `Repository.Merge` | apps/backend/src/users/repositories/user.repository.ts:55 | `Object.assign` keeps the id, takes each supplied field and keeps each field not supplied |
| `Repository.MergeIdempotent` | apps/backend/src/users/repositories/user.repository.ts:55 | assigning the same fields twice is the same as once, and assigning no fields changes nothing |
| `Repository.UserRepository.constructor` | apps/backend/src/users/repositories/user.repository.ts:9-12 | the table starts empty with the id sequence at 1 |
| `Repository.UserRepository.OnlyHolder` | apps/backend/src/users/user.entity.ts:9 | under the unique constraint, a record found with an email is the only one holding it |
| `Repository.UserRepository.Locate` | apps/backend/src/users/repositories/user.repository.ts:37-41 | the `where: { email }` scan returns a key holding that email, and `None` exactly when no record holds it |
| `Repository.UserRepository.Create` | apps/backend/src/users/repositories/user.repository.ts:14-17 | a duplicate email is refused with nothing written; otherwise the record is stored under a fresh id, one not in the table before, and returned |
| `Repository.UserRepository.FindById` | apps/backend/src/users/repositories/user.repository.ts:23-28 | present exactly when the id is stored, and then id, email and name of that record only |
| `Repository.UserRepository.FindByEmail` | apps/backend/src/users/repositories/user.repository.ts:30-35 | `None` exactly when no record has the email; otherwise the password-free view of the record holding it |
| `Repository.UserRepository.FindByEmailWithPassword` | apps/backend/src/users/repositories/user.repository.ts:37-41 | `None` exactly when no record has the email; otherwise that whole record, hash included |
| `Repository.UserRepository.FindAll` | apps/backend/src/users/repositories/user.repository.ts:43-47 | every element is the password-free view of a stored record, every stored record appears, and no record appears twice |
| `Repository.UserRepository.Update` | apps/backend/src/users/repositories/user.repository.ts:49-57 | a missing id gives `None` with no change; an email held by another record is refused by the unique constraint with no change; otherwise exactly the supplied fields are overwritten, the id and other records are kept, and the merged record is returned |
| `Repository.UserRepository.Delete` | apps/backend/src/users/repositories/user.repository.ts:59-67 | returns whether the id was stored, and removes that record and no other |
| `Repository.UserRepository.ExistsByEmail` | apps/backend/src/users/repositories/user.repository.ts:69-72 | true exactly when some stored record has that email |
| `Service.UserService.constructor` | apps/backend/src/users/user.service.ts:14-17 | the service holds the injected repository and the hashing library |
| `Service.Truthy` | apps/backend/src/users/user.service.ts:58 | the `if (updateData.password)` test: false exactly for an absent password and for the empty string |
| `Service.UserService.HashPassword` | apps/backend/src/users/user.service.ts:88-90 | the hash produced is one the password itself matches |
| `Service.UserService.ValidatePassword` | apps/backend/src/users/user.service.ts:79-85 | a password validates against its own hash |
| `Service.UserService.UpdateData` | apps/backend/src/users/user.service.ts:57-60 | the copy sent to the repository keeps email and name, passes an absent or empty password through, and replaces a truthy password by a hash it matches |
| `Service.UserService.Create` | apps/backend/src/users/user.service.ts:19-34 | `BadRequest` with the repository untouched when the email exists; otherwise the record `{email, hash(password), name}` is stored under a fresh id and returned, the id sequence advances by one, and the password validates against it |
| `Service.UserService.FindAll` | apps/backend/src/users/user.service.ts:36-39 | the repository's listing: each stored record once, password-free |
| `Service.UserService.FindOne` | apps/backend/src/users/user.service.ts:41-48 | the password-free record when the id is stored, `NotFound` exactly when it is not |
| `Service.UserService.FindByEmail` | apps/backend/src/users/user.service.ts:50-53 | the whole record holding that email, hash included, or `None` exactly when there is none |
| `Service.UserService.Update` | apps/backend/src/users/user.service.ts:55-69 | `NotFound` with no change exactly for a missing id; the id sequence never moves; an email held by another record is refused by the unique constraint and passed on as a store error with nothing stored; otherwise the record merged with the prepared copy is stored and returned, and a truthy new password validates against the stored hash |
| `Service.UserService.Remove` | apps/backend/src/users/user.service.ts:71-77 | `NotFound` exactly when the id was not stored; the record is removed and the id sequence stays, so a later `FindOne` gives `NotFound`, a second `Remove` fails and the id is never handed out again |

## Left out

- Auth.AuthService.Login: the argument is narrowed to the declared `AuthenticatedUser` shape `{ id, email, name }` (apps/backend/src/auth/interfaces/auth-request.interface.ts:3-7,13-16). The shipped route passes the body `{ email, password }` instead and gets back a token with `sub` and `name` undefined and its own password echoed; that call is modelled separately as `LoginAsCalled`, not by `Login`.
- Salting and the cost factor of bcrypt are left out. The hash is a fixed function of the password, and only "a password matches its own hash" is assumed. So the model cannot state that an old password stops validating after an update.
- JWT signing is reduced to `sign`/`verify` with the round-trip assumption. Issued-at and expiry claims, the secret and the guard that checks tokens are not modelled.
- Database failures other than the unique violation (connection loss, timeouts, any other rejected ORM call) are not modelled: every repository call succeeds unless it hits the unique constraint, so `UserService.remove` always gives success or `NotFound` and `UserService.create` on a free email always succeeds.
- The database's collation is not modelled: emails are compared exactly and case-sensitively, both by `where: { email }` and by the `unique: true` constraint; a case-insensitive collation would change both.
- Async calls are modelled as sequential calls. The race between the email check and the insert in `register` and `create` is a concurrency matter and is not modelled; the repository's unique constraint is what the model relies on.
- Query building, `select` handling and the mechanics of `save` in the ORM are left out. The table is a map, the auto-increment counter is `nextId`, and the finders scan keys in ascending order. `UserRepository.save` is not used by the services and is not modelled.
- `Repository.UserRepository.FindAll`: the ORM promises no order for `find()`, so no order is stated.
- Controllers, modules, dependency-injection wiring, guards, `ParseIntPipe`, DTO validation decorators and the mapping of errors to HTTP statuses are framework glue and are not modelled.
- `LocalStrategy` and `JwtStrategy` are not part of this model.
- `AppService.getHealth` (wall-clock time) and the frontend pages are not part of this model.
- Explicit `undefined` fields in an update DTO are not distinguished from absent ones. `Object.assign` would copy an explicit `undefined`; the model treats both as "not supplied".

## Findings

| source | as written | input that shows it | evidently intended | confidence | as-written member | corrected member |
|---|---|---|---|---|---|---|
| apps/backend/src/auth/auth.controller.ts:23-26 | the login route hands the raw body `{ email, password }` to `login` (apps/backend/src/auth/auth.service.ts:22-28), which signs it without validating: a token with `sub` and `name` undefined, and the plaintext password echoed in `user` | any user array and a body that does not validate against it, e.g. no registered users and body `{ email: "a@x.com", password: "wrong" }`: a token is issued | validate the credentials, reject with "Invalid credentials" when they fail, otherwise sign `{ email, sub: id, name }` of the validated user (apps/backend/src/auth/auth.service.spec.ts:57-80) | high, not executed | `Auth.AuthService.LoginAsCalled`, `Auth.AuthService.LoginAsCalledIgnoresCredentials` | `Auth.AuthService.LoginWithCredentials` |

# Authentication service model

A Dafny model of `AuthService`, the core of a small NestJS authentication
service. It keeps users in an in-memory list. `signup` registers a user under
a username not yet taken and stores an argon2 hash of the password. `login`
checks a password against the stored hash. Both return a signed JWT
together with an expiry two minutes after issue, and pass `expiresIn = 120000`
(milliseconds) to the signer.

The model has two modules:

- `Auth` (`auth_service.dfy`) holds the record types and the two exceptions
  (`Conflict`, `Unauthorized`) as an `AuthError` result. It also holds the
  lookup `FindFirst` (the source's `users.find(u => u.username === username)`),
  the token function `CreateAccessToken`, and the class `AuthService`. That
  class has a `users: seq<User>` field, which `Signup` reassigns, and
  `FindUser` and `Login`, which only read it.
- `AuthScenarios` (`auth_scenarios.dfy`) holds client methods: signup followed
  by login, a duplicate signup, and the two login failures. They are proved
  from the service's contracts and the lookup lemmas, plus stated assumptions
  about the hashing library.

The foreign libraries and the environment become inputs:

- argon2 is a `PasswordHasher` value with two function fields. `hash` takes
  the random salt it would draw as an explicit `Salt` argument. `verify` is a
  check we know nothing about.
- The JWT library is a `JwtService` value whose `sign` maps a payload and its
  options to an opaque string.
- Both libraries are handed to the `AuthService` constructor, the way the
  source injects `JwtService`.
- The clock (`moment()`) is a millisecond timestamp `now` passed to each
  operation.

Notes on the source as written:

- The guard `if (!user)` in `login` (src/auth/auth.service.ts:53) tests the
  request body, not the looked-up record, so it never fires. When no record
  matches, reading `existingUser.password` at line 56 throws. The catch-all at
  lines 62-65 turns that into the same Unauthorized exception. The model
  implements this effective behaviour, so an absent user gives Unauthorized.
  A comment in `Login` marks the spot.
- The Conflict message at line 22 ends in a stray `}`
  (`... already exists}`). `ConflictMessage` reproduces it verbatim.

## Model

| member | source | states |
|---|---|---|
| `Auth.FindFirst` | src/auth/auth.service.ts:35-37 | the result is absent exactly when no record has the username (exact, case-sensitive match); otherwise it is the record at the first index whose username matches |
| `Auth.CreateAccessToken` | src/auth/auth.service.ts:39-48 | the returned expiry is `now` + 120000 ms (two minutes); the signer gets the payload `{sub: username}` and `expiresIn` equal to expiry − now, which is 120000 |
| `Auth.AuthService.FindUser` | src/auth/auth.service.ts:35-37 | over the current user list: absent exactly when no record has the username (exact, case-sensitive match), otherwise the first matching record; it only reads the object |
| `Auth.FindAppendedRecord` | src/auth/auth.service.ts:31-36 | after a record with a username not yet present is appended, looking up that username returns the new record |
| `Auth.FindUnaffectedByAppend` | src/auth/auth.service.ts:31-36 | appending a record leaves the lookup of every other username unchanged |
| `Auth.AppendFreshKeepsUnique` | src/auth/auth.service.ts:20-31 | appending a record whose username is absent keeps all usernames in the store distinct |
| `Auth.FindStoredRecord` | src/auth/auth.service.ts:35-37 | when usernames are unique, looking up any stored record's username returns that record |
| `Auth.AuthService.constructor` | src/auth/auth.service.ts:15-17 | the service starts with an empty user list and keeps the injected JWT service |
| `Auth.AuthService.Signup` | src/auth/auth.service.ts:19-33 | a taken username fails with Conflict and its message, leaving `users` unchanged; a fresh one appends exactly one record at the end, with username, first and last name copied and the password replaced by its hash, leaves the earlier records as they were, and returns the token for the username; afterwards `findUser` returns the new record; username uniqueness is preserved |
| `Auth.AuthService.Login` | src/auth/auth.service.ts:50-67 | succeeds exactly when a record with the username exists and argon2 verifies the password against its stored hash, returning the token for the supplied username; every failure is the same Unauthorized error with the same message; `users` is not modified |
| `AuthScenarios.SignupThenLogin` | src/auth/auth.service.ts:19-61 | if argon2 accepts a password against its own hash, signing up a fresh username and then logging in with the same password both succeed, and exactly one record is added |
| `AuthScenarios.DuplicateSignup` | src/auth/auth.service.ts:19-33 | on a new service, a second signup with the same username fails with Conflict, whatever its other fields; only the first record is stored |
| `AuthScenarios.LoginFailuresIndistinguishable` | src/auth/auth.service.ts:50-66 | with one user stored, a wrong password and an unknown username give the identical Unauthorized error, and the right password gets a token |

## Left out

- argon2 internals: salting, memory-hardness and constant-time comparison. `hash` and `verify` are opaque inputs. That two hashes of one password differ under different salts is a property of the library, so it is not stated.
- The scenario methods assume that `verify` accepts a hash of the same password and rejects every other password. A real hash could collide, so this is an idealisation.
- JWT signing: the model only fixes the arguments passed to `sign`. What `exp` claim the signed string carries is not modelled, and neither is token verification or the expiry check on later requests. The signer's unit for a numeric `expiresIn` is not modelled either: the model passes the number 120000, a count of milliseconds, and does not say how long the signed token itself stays valid. The real signer also embeds the signing time, so its output depends on when it is called; in the model every token for one username is the same string.
- Signup, Login, CreateAccessToken: `hash` and `sign` never fail in the model. In the source, a rejected `argon2.hash` in `signup` propagates as an error other than Conflict, returns no token and leaves `users` unchanged. A throwing `sign` in `signup` also propagates, after the push. A throwing `sign` in `login` is inside the `try` and becomes Unauthorized, where the model's `Login` returns Success.
- `moment` date objects: replaced by integer millisecond timestamps. `AddMinutes` and `Diff` stand in for `add("2", "minutes")`, whose string `"2"` moment converts to the number 2, and for `diff`.
- Asynchrony and concurrency: `signup` awaits the hash between the duplicate check and the push. Concurrent signups of one username could both pass the check. The model treats each operation as one atomic step.
- Errors thrown by the hashing library inside `login`: the catch-all would also report them as Unauthorized. The model's `verify` returns a boolean and has no error path.
- `src/auth/auth.controller.ts` only forwards HTTP requests to the service. `src/auth/auth.module.ts` is dependency wiring plus the hardcoded JWT secret. Neither is part of this model.
- The DTO and entity files are not part of this model. `User`, `SignupDto` and `LoginDto` are records of strings with the fields the service uses.

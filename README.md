# Registration, login and the bearer-token gate of the TaskManager identity service

This project models the part of the TaskManager service that decides who may
register, who may log in, and which requests may go on as an authenticated
user. It covers three pieces of the Go code:

- `AuthServiceImpl` (`userExists`, `RegisterUser`, `LoginUser`).
- `UserServiceImpl` (`CreateUser` and the operations that hand straight to the repository).
- The `AuthRequired` middleware.

The services run against the `UserRepository` contract. Here that contract is
met by an in-memory users table (`Store.UserStore`). The table behaves as the
PostgreSQL table behind gorm does:

- ids are assigned on insert, from 1 upward;
- a unique index on id, email and username refuses duplicates;
- deleting a user only marks its row (gorm's soft delete), so lookups skip it while the unique indexes still see it;
- each repository operation can be configured to fail with a backend error, as the test doubles of the repository do.

Hashing and tokens are abstract:

- `Utils.Hasher` is a pair of function values (hash, compare);
- `Utils.TokenCodec` is a pair of function values (generate, validate), both taking the current time as an argument.

What the services rely on is stated as ghost predicates and required only where used:

- `SoundHasher`: a hash is accepted for its password and never equals it;
- `HidesPlaintext`: a hash never equals its input;
- `RoundTrips`: a token validates to its user id until it expires.

Each service operation is a function over a table value (`Table`), which is
where the lemmas live. Each is also a method on a class that calls the
repository's methods one by one, as the Go code does, and is proved to agree
with its function. The access gate is a pure function of the header and the
validator's answer.

Files: `errors.dfy` (results and error values), `models.dfy` (the user value and
the mutable `*models.User` struct), `utils.dfy` (hasher and token codec),
`store.dfy` (the users table and the repository), `auth_service.dfy`,
`user_service.dfy`, `jwt_auth.dfy` (the middleware), `scenarios.dfy`
(properties spanning several operations).

The Go code behaves as follows in cases a reader might not expect:

- During registration, a lookup that fails with an error counts as "no conflict" (`auth_service.go:32-44`), and registration goes on.
- A unique-index refusal at insert time is returned as the store's own error (`auth_service.go:68-71`), with no "already taken" wording.
- `RegisterUser` does not reject empty usernames or emails: the lookup for an empty value is skipped (`auth_service.go:32`, `38`).
- Registration never reports a failed lookup as such; the only outcomes of the check are the two "taken" messages and going on (`auth_service.go:31-45`).
- Two tests stub "not found" as a plain error (`user_service_test.go:70-71` and `89-93`). Under `user_service.go:45` that plain error is fatal and gives "unexpected error checking email: not found"; `UserServices.OtherLookupErrorIsFatal` states this outcome.

## Model

| member | source | states |
|---|---|---|
| Store.FindLive | internal/repositories/user_repository.go:54-72 | the position returned holds a live row with the key, and no earlier row is a live match; None only when no row is a live match |
| Store.FindId | internal/repositories/user_repository.go:84-91 | finds the row, deleted or not, that holds an id, or reports that none does |
| Store.Taken | internal/models/User.go:6-9 | true exactly when some other row has the same value in the given unique column |
| Store.Clash | internal/models/User.go:6-9 | no clash exactly when `u` differs from every other row in id, email and username; a reported column really is shared |
| Store.Lookup | internal/repositories/user_repository.go:44-72 | a failing operation returns its backend error; success exactly when a live user has the key; record-not-found exactly when none does; under the invariant the user found is the only live match |
| Store.Append | internal/models/User.go:6-9 | appends exactly when no row shares id, email or username, leaves the table unchanged otherwise, and keeps the invariant |
| Store.Replace | internal/repositories/user_repository.go:84-91 | overwriting a row with a compatible user of the same id changes only that row and keeps the invariant |
| Store.Insert | internal/repositories/user_repository.go:35-42 | CreateUser succeeds exactly when the operation works and the user, with id zero replaced by the next id, fits every unique index; on success one live row is appended; on failure nothing changes; the invariant is kept |
| Store.Save | internal/repositories/user_repository.go:84-91 | UpdateUser (gorm Save) keeps the id it was given and stores the user live; the id of a stored row overwrites that row in place, any other id adds exactly one row; rows with another id are kept; a failure changes nothing; the invariant is kept |
| Store.SaveAccepted | internal/repositories/user_repository.go:84-91 | on a valid table, Save succeeds exactly when its operation works and no row of another id holds the email or the username |
| Store.Delete | internal/repositories/user_repository.go:93-100 | a failed or empty lookup gives "user not found"; success marks exactly one live row with the id deleted, so a lookup by the id finds nothing, and leaves every other row as it was; the invariant is kept |
| Store.DeletedIdGone | internal/repositories/user_repository.go:93-100 | once the row is marked, no live row has its id |
| Store.LiveUsers | internal/repositories/user_repository.go:74-82 | lists each user as many times as a live row holds it, so exactly the live users |
| Store.All | internal/repositories/user_repository.go:74-82 | GetAllUsers fails exactly when its operation fails, and otherwise lists each live row's user once per row |
| Store.UserStore.constructor | internal/repositories/user_repository.go:28-33 | a new store is empty, valid and hands out id 1 first |
| Store.UserStore.Find | internal/repositories/user_repository.go:54-72 | the scan returns the first live match, as FindLive defines it |
| Store.UserStore.Get | internal/repositories/user_repository.go:44-72 | a lookup returns what Lookup gives for the current table |
| Store.UserStore.GetUserByID | internal/repositories/user_repository.go:44-52 | returns Lookup by id |
| Store.UserStore.GetUserByEmail | internal/repositories/user_repository.go:54-62 | returns Lookup by email |
| Store.UserStore.GetUserByUsername | internal/repositories/user_repository.go:64-72 | returns Lookup by username |
| Store.UserStore.GetAllUsers | internal/repositories/user_repository.go:74-82 | returns All for the current table |
| Store.UserStore.CreateUser | internal/repositories/user_repository.go:35-42 | the table becomes Insert's table; on success the caller's struct gets the assigned id and is returned; on failure the struct is untouched; validity is kept |
| Store.UserStore.UpdateUser | internal/repositories/user_repository.go:84-91 | the table becomes Save's table; on success the struct is returned with its id; validity is kept |
| Store.UserStore.DeleteUser | internal/repositories/user_repository.go:93-100 | the table and the result are Delete's; validity is kept |
| Models.UserRecord.constructor | internal/models/User.go:6-11 | a struct holds the id, email, username and password it was built with |
| AuthServices.RegistrationConflict | internal/services/auth_service.go:31-45 | "Username already taken" exactly when the username is non-empty and a working lookup finds it; "Email already registered" exactly when that is not so and the email is non-empty and found; otherwise no conflict, including when a lookup fails |
| AuthServices.Register | internal/services/auth_service.go:48-80 | a conflict or a hash failure returns its error with the table unchanged; the table changes only by one new live row with the username, the email and the hash; past the check and the hash, the table is the insert's, a refused insert's error comes back unchanged, and a stored user stays stored when the token codec fails, whose error is returned; success returns the stored user and a token generated for its id with the 24-hour lifetime; the invariant is kept |
| AuthServices.Login | internal/services/auth_service.go:83-108 | success returns a stored live user with the email (if given) or else the username, whose stored hash accepts the password, with a token generated for its id; every failure is the uniform credentials error or "Failed to generate token"; "Failed to generate token" only when the user was found and accepted and the codec failed; with no identifier it is the uniform error |
| AuthServices.LoginSucceeds | internal/services/auth_service.go:83-108 | a user found by the email, or else by the username, whose password is accepted and for whom a token is generated, gets Ok with that user and token |
| AuthServices.AppendedUserFound | internal/repositories/user_repository.go:54-72 | a user appended beside compatible rows is what a working lookup by its username or email returns |
| AuthServices.RegisterFreshUser | internal/services/auth_service.go:48-80 | with no row holding the username or the email, a working hash and store, registration stores the user under the next id and returns it with its token, or returns the codec's error with the user still stored |
| AuthServices.RegisterThenLogin | internal/services/auth_service_test.go:29-42 | after a successful registration, logging in with the username and password returns the same user |
| AuthServices.RegisterThenLoginByEmail | internal/services/auth_service.go:87-88 | the same, logging in with the email |
| AuthServices.RegisterTakenUsernameFails | internal/services/auth_service.go:50-71 | registering a username any row already holds fails and leaves the table unchanged, whichever lookups fail |
| AuthServices.RegisterTakenEmailFails | internal/services/auth_service.go:50-71 | the same for an email any row already holds |
| AuthServices.LoginHidesUnknownUser | internal/services/auth_service.go:93-100 | an unknown username and a known username with a wrong password give the identical error |
| AuthServices.LoginFailsUniformly | internal/services/auth_service.go:87-100 | login gives the uniform error exactly when there is no identifier, the lookup does not find a user, or the password check fails |
| AuthServices.AuthService.constructor | internal/services/auth_service.go:24-28 | the service holds the store, hasher and codec it is given |
| AuthServices.AuthService.UserExists | internal/services/auth_service.go:31-45 | calling the repository's lookups gives RegistrationConflict of the current table |
| AuthServices.AuthService.RegisterUser | internal/services/auth_service.go:48-80 | the store's new table and the result are Register's; validity is kept |
| AuthServices.AuthService.LoginUser | internal/services/auth_service.go:83-108 | returns Login of the current table and changes nothing |
| UserServices.CreateConflict | internal/services/user_service.go:41-56 | email found gives "email already taken"; a failing email lookup gives "unexpected error checking email: " and its text; "username already taken" exactly when the email is not found and the username is; a failing username lookup after record-not-found for the email gives "unexpected error checking username: " and its text; no conflict exactly when both lookups report record-not-found |
| UserServices.Create | internal/services/user_service.go:41-66 | a failed check or hash leaves table and struct untouched and returns that error; once hashed, the struct holds the hash whatever the insert does, and the table and result are the insert's; on failure the table is unchanged; on success exactly one live row holding the struct is appended; the invariant is kept |
| UserServices.CreateStoresHash | internal/services/user_service_test.go:81-102 | with a hash that never returns its input, a created user's stored password differs from the plaintext and is its hash, and earlier rows are unchanged |
| UserServices.PrecedenceDiffers | internal/services/user_service.go:43-51 | when both values are taken, registration reports the username but CreateUser reports the email |
| UserServices.OtherLookupErrorIsFatal | internal/services/user_service.go:45-48 | an email lookup failing with a plain "not found" error ends CreateUser with "unexpected error checking email: not found", touching nothing |
| UserServices.UserService.constructor | internal/services/user_service.go:33-38 | the service holds the store and hash function it is given |
| UserServices.UserService.CreateUser | internal/services/user_service.go:41-66 | the store's new table, the caller's struct and the result are Create's; on success the caller's struct itself is returned |
| UserServices.UserService.GetUserByID | internal/services/user_service.go:69-71 | returns exactly the repository's lookup by id and changes nothing |
| UserServices.UserService.GetUserByEmail | internal/services/user_service.go:74-76 | returns exactly the repository's lookup by email and changes nothing |
| UserServices.UserService.GetUserByUsername | internal/services/user_service.go:79-81 | returns exactly the repository's lookup by username and changes nothing |
| UserServices.UserService.GetAllUsers | internal/services/user_service.go:84-86 | returns exactly the repository's list and changes nothing |
| UserServices.UserService.UpdateUser | internal/services/user_service.go:89-91 | has exactly the repository's Save effect and result |
| UserServices.UserService.DeleteUser | internal/services/user_service.go:94-96 | has exactly the repository's Delete effect and result |
| Middleware.TrimPrefix | internal/middleware/jwt_auth.go:23 | with the prefix present, prefix plus the result is the input; otherwise the input is returned unchanged |
| Middleware.AuthRequired | internal/middleware/jwt_auth.go:12-39 | every rejection has status 401 and one of the two messages |
| Middleware.EmptyHeaderRejected | internal/middleware/jwt_auth.go:16-20 | an empty header is rejected as missing, whatever the validator would answer |
| Middleware.BearerTokenExtracted | internal/middleware/jwt_auth.go:22-23 | for a header `Bearer t` the validator receives exactly `t` |
| Middleware.UnprefixedHeaderPassedWhole | internal/middleware/jwt_auth.go:23 | a header without the prefix goes to the validator unchanged |
| Middleware.OnePrefixRemoved | internal/middleware/jwt_auth.go:23 | `Bearer Bearer x` yields `Bearer x` |
| Middleware.BareBearerValidated | internal/middleware/jwt_auth.go:16-31 | the header `Bearer ` is not missing; the empty string goes to the validator |
| Middleware.GateDecision | internal/middleware/jwt_auth.go:26-37 | the request goes on with user id `id` exactly when the header is non-empty and the validator returns `id`; every validator error gives the one "Invalid or expired token" rejection |
| Middleware.HeaderIsPrefixedToken | internal/middleware/jwt_auth.go:23 | a header is either `Bearer ` followed by the token handed on, or is that token |
| Scenarios.RegisteredTokenOpensGate | internal/middleware/jwt_auth.go:22-37 | a registration's token, sent as a bearer header before it expires, lets the request through as the new user; no header is rejected as missing |
| Scenarios.LoginTokenOpensGate | internal/middleware/jwt_auth.go:22-37 | a login's token, sent as a bearer header before it expires, lets the request through as that user |
| Scenarios.DeletedUsernameBlocksRegistration | internal/services/auth_service.go:31-71 | after a user is deleted, its username passes the registration check but the insert is refused by the username index and that error is returned with the table unchanged |

## Left out

- Hashing (bcrypt) and token signing, parsing and expiry checks (HS256 JWT) are abstract function values. Only the assumptions stated by `SoundHasher`, `HidesPlaintext` and `RoundTrips` are used. The codec's internal error kinds are not modelled.
- The clock (`time.Now`) is an explicit `now` argument in seconds. Token lifetimes are in seconds, not nanoseconds.
- Ids are unbounded naturals. The 64-bit `uint`, and the `float64` decoding of `user_id` in the token, are not modelled.
- `gorm.Model`'s `CreatedAt` and `UpdatedAt` are not modelled, and `DeletedAt` is reduced to a deleted mark. A saved struct is taken to carry no deletion time.
- The store's failure injection is fixed when the store is built; the failure texts are free strings.
- `log.Println` calls and the gin context writes are not modelled. The context writes become the returned outcome.
- Concurrent registrations racing between the check and the insert are out of scope. The model is sequential; the insert-time uniqueness check stands in for the database constraint.
- The controllers, configuration, routing and the `pkg/utils` wrappers are not part of this model.
- LiveUsers and All: the order of the list is not stated. `Find` without an `ORDER BY` promises no order; the contracts fix each user's multiplicity only.

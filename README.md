# IMF gadgets service: routes and helpers

A Dafny model of the request handling of a small Express service. Operatives
sign up and log in (`/auth/signup`, `/auth/login`). Authenticated operatives
list, create, update and decommission field gadgets (`/gadgets`). Anyone can
start a gadget's self-destruct sequence.

The model consists of:

- `GadgetHelpers` (`gadget_helpers.dfy`): the random helpers and the status
  list. `Math.random()` is an injected exact real `Draw` in [0, 1).
  `Math.floor` is `.Floor`.
- `GadgetRoutes` (`gadget_routes.dfy`): a `GadgetStore` class that holds the
  gadget table. Its methods are the five handlers, each returning a `Reply`
  (status code, body). The GET filter and the `successProbability`
  decoration are pure functions over the table (`FindMany`, `Decorate`). The
  row changes of PATCH and DELETE are pure functions too (`Patch`,
  `Decommissioned`), and the methods are proved against them.
- `AuthRoutes` (`auth_routes.dfy`): a `UserStore` class whose `Signup`
  inserts into the user table. `Login` is a pure function of the table.
  bcrypt becomes an abstract `Hasher` (`hash(password, salt)`,
  `compare(password, hash)`), assumed `Sound`: a password matches its own
  hash. The JWT becomes its claims `Token(userId, iat, exp)` with
  `exp = iat + 3600`.
- `Scenarios` (`scenarios.dfy`): client walk-throughs on fresh stores. They
  follow sign-up, login and a gadget's life to decommissioning twice.

Modelling assumptions:

- The persistence client is an in-memory table. The gadget table is a
  sequence of rows with distinct ids, and its order is the order `findMany`
  returns. New ids come from a counter, standing in for the generated ids.
- A per-request flag `storeUp` says whether the client's call succeeds. A
  failing call throws, and the handler's `catch` answers it.
- The authentication middleware is a boolean `authenticated`. A refused
  request gets 401 with an opaque `Unauthorized` body.
- An `undefined` field in a PATCH body is `None`. The client skips it, so the
  stored value is kept.
- `new Date()` is the injected `now` (milliseconds). The JWT issue time is the
  injected `now` in seconds.
- Where the intended behaviour and the code differ, the model follows the
  code:
  - The two login failures share the code 400 but carry different messages
    ("Invalid credentials" vs "Invalid Password"), so they are not
    indistinguishable to a caller.
  - POST /gadgets answers 200, although the route's own API comment
    (src/routes/gadgetRoutes.js:98) says 201.
  - The status a gadget is created with is not validated.
  - Nothing keeps `decommissionedAt` in step with the status. A PATCH can
    re-activate a decommissioned gadget and keep the timestamp
    (`ReactivationKeepsTimestamp`). A gadget created as "Decommissioned" has
    no timestamp.
  - Every failure of the sign-up insert answers 400 "user already exists",
    including a store outage.
- The self-destruct route is not authenticated, unlike its sibling routes. It
  does not look up the id. The model keeps this asymmetry as an open question
  about the intended access control.

## Model

| member | source | states |
|---|---|---|
| `GadgetHelpers.RandomProbability` | src/utils/gadgetHelpers.js:1 | the probability is an integer in [0, 100] for every draw in [0, 1) |
| `GadgetHelpers.RandomProbabilityReaches` | src/utils/gadgetHelpers.js:1 | every integer in [0, 100] is produced by some draw |
| `GadgetHelpers.CodenameIndex` | src/utils/gadgetHelpers.js:5 | `floor(r * codenames.length)` is a valid index into the pool, in [0, 3] |
| `GadgetHelpers.RandomCodename` | src/utils/gadgetHelpers.js:3-6 | the codename is always one of "The Nightingale", "The Kraken", "Shadow Blade", "Ghost" |
| `GadgetHelpers.RandomCodenameReaches` | src/utils/gadgetHelpers.js:3-6 | every codename of the pool is produced by some draw |
| `GadgetHelpers.ConfirmationCode` | src/utils/gadgetHelpers.js:8-9 | the code is an integer in [100000, 999999] |
| `GadgetHelpers.ConfirmationCodeReaches` | src/utils/gadgetHelpers.js:8-9 | every six-digit code is produced by some draw |
| `GadgetHelpers.DigitCountOfRange` | src/utils/gadgetHelpers.js:8-9 | a number in [10^(k-1), 10^k) has exactly k decimal digits |
| `GadgetHelpers.ConfirmationCodeHasSixDigits` | src/utils/gadgetHelpers.js:8-9 | the confirmation code always has six decimal digits |
| `GadgetHelpers.IsValidStatus` | src/utils/gadgetHelpers.js:11-16 | `validStatuses.includes(s)`: a string is valid iff it equals, by exact string equality, an entry of the four-string list; a valid status is never the empty string |
| `GadgetHelpers.ValidStatusesAreFourDistinct` | src/utils/gadgetHelpers.js:11-16 | the status list holds exactly four pairwise-distinct strings |
| `GadgetHelpers.IsValidStatusExactly` | src/utils/gadgetHelpers.js:11-16 | a string is a valid status iff it equals one of the four exactly |
| `GadgetHelpers.IsValidStatusCaseSensitive` | src/utils/gadgetHelpers.js:11-16 | lower-case, upper-case and empty spellings are not valid statuses |
| `GadgetRoutes.IsFilter` | src/routes/gadgetRoutes.js:62-67 | a query status is a filter iff it is present and not the empty string (JavaScript truthiness of the string) |
| `GadgetRoutes.WithStatus` | src/routes/gadgetRoutes.js:66-68 | the filtered rows are exactly the stored rows whose status equals the filter, and no more rows than stored |
| `GadgetRoutes.WithStatusAppend` | src/routes/gadgetRoutes.js:66-68 | filtering keeps table order: the filter of a concatenation is the concatenation of the filters |
| `GadgetRoutes.WithStatusAllOrNone` | src/routes/gadgetRoutes.js:66-68 | with no row of that status the result is empty; with every row of it, the whole table |
| `GadgetRoutes.FindMany` | src/routes/gadgetRoutes.js:62-68 | an absent or empty filter returns the whole table; a truthy one returns exactly the rows with that status |
| `GadgetRoutes.Decorate` | src/routes/gadgetRoutes.js:69-72 | same length and order as the rows, each element keeps its stored row and gets a probability in [0, 100] |
| `GadgetRoutes.GadgetStore.List` | src/routes/gadgetRoutes.js:59-77 | 401 without authentication; 400 for a truthy filter that is not exactly a valid status, whatever the table and store state; 500 on a store failure; otherwise 200 with every row (no filter) or exactly the matching rows (filter), each with a probability in [0, 100]; the table is not changed |
| `GadgetRoutes.GadgetStore.Create` | src/routes/gadgetRoutes.js:103-117 | on success exactly one row is appended with a fresh id, a pool codename, the request's status verbatim and no timestamp, answered 200 with that row; 401 or 500 leave the table unchanged |
| `GadgetRoutes.IndexOf` | src/routes/gadgetRoutes.js:158-160 | the lookup finds a row with the id, or reports none when no row has it |
| `GadgetRoutes.IndexOfDistinct` | src/routes/gadgetRoutes.js:193-195 | with distinct ids, looking up a row's id finds that very row |
| `GadgetRoutes.Patch` | src/routes/gadgetRoutes.js:156-161 | supplied fields are replaced, absent fields keep their stored values, the id and timestamp never change |
| `GadgetRoutes.PatchNothing` | src/routes/gadgetRoutes.js:160 | a PATCH with no fields leaves the row as it was |
| `GadgetRoutes.PatchIdempotent` | src/routes/gadgetRoutes.js:160 | applying the same PATCH twice equals applying it once |
| `GadgetRoutes.ReplaceKeepsDistinctIds` | src/routes/gadgetRoutes.js:158-161 | rewriting one row without changing its id keeps ids distinct |
| `GadgetRoutes.GadgetStore.Update` | src/routes/gadgetRoutes.js:154-166 | 401 without authentication; 500 for an unknown id or a store failure with the table unchanged; otherwise only the row with that id is patched and returned with 200 |
| `GadgetRoutes.Decommissioned` | src/routes/gadgetRoutes.js:193-196 | the row keeps its id and name, its status becomes "Decommissioned" and its timestamp the current time, whatever the prior status |
| `GadgetRoutes.DecommissionedTwice` | src/routes/gadgetRoutes.js:193-196 | decommissioning twice still gives status "Decommissioned" and keeps only the later timestamp |
| `GadgetRoutes.ReactivationKeepsTimestamp` | src/routes/gadgetRoutes.js:158-161 | a status PATCH after decommissioning changes the status but leaves the decommission timestamp |
| `GadgetRoutes.GadgetStore.Decommission` | src/routes/gadgetRoutes.js:190-201 | 401 without authentication; 500 for an unknown id or a store failure with the table unchanged; otherwise only that row is decommissioned, returned with 200, and still found under its id |
| `GadgetRoutes.GadgetStore.SelfDestruct` | src/routes/gadgetRoutes.js:225-236 | no authentication and no store access: always 200 with the fixed message and a six-digit code in [100000, 999999] |
| `AuthRoutes.FindUser` | src/routes/authRoutes.js:94-96 | the lookup returns a stored user with that username, or none when no stored user has it |
| `AuthRoutes.FindUserUnique` | src/routes/authRoutes.js:94-96 | with unique usernames the lookup returns the one user of that name |
| `AuthRoutes.AppendKeepsUnique` | src/routes/authRoutes.js:45-47 | inserting a user whose username is new keeps usernames unique |
| `AuthRoutes.Login` | src/routes/authRoutes.js:90-110 | 500 on a store failure; 400 "Invalid credentials" for an unknown username; 400 "Invalid Password" when the password does not match; 500 when the secret is unset; otherwise 200 with a token for that user's id expiring 3600 s after issue; 200 exactly when a stored user matches and the secret is set |
| `AuthRoutes.CredentialFailuresShareCode` | src/routes/authRoutes.js:97-101 | an unknown username and a wrong password both answer 400, with different bodies |
| `AuthRoutes.UserStore.Signup` | src/routes/authRoutes.js:40-52 | a fresh username appends exactly one user with a fresh id and `hash(password, salt)` as its password, answered 201; an existing username or a store failure answers 400 and leaves the table unchanged; usernames stay unique |
| `AuthRoutes.SignupTwiceRejected` | src/routes/authRoutes.js:44-51 | after signing up a username, it is found in the table, so a second sign-up of it fails |
| `AuthRoutes.SignupThenLogin` | src/routes/authRoutes.js:42-106 | logging in with the credentials just signed up with gives 200 and a token for the new user's id expiring one hour after issue |
| `Scenarios.SignupLoginAndGadgetLifecycle` | src/routes/gadgetRoutes.js:59-201 | sign-up 201, login 200 with a one-hour token, empty list 200, create 200 with a pool name and status "Available", decommission twice both 200 with status "Decommissioned" |
| `Scenarios.FilterCaseMatters` | src/routes/gadgetRoutes.js:59-64 | the filter "available" answers 400 whatever the table holds; an unauthenticated request answers 401 |
| `Scenarios.SelfDestructTwice` | src/routes/gadgetRoutes.js:225-236 | two self-destruct requests both answer 200 with six-digit codes and leave the table unchanged |

## Left out

- HTTP, Express routing, JSON serialisation and async/await are not modelled. A request is a method call and a response is a `Reply`.
- The catch-all route in `src/server.js`, process start-up and the API documentation (`src/swagger.js`) are not part of this model.
- The authentication middleware (`src/middleware/auth.js`) is not part of this model. Token verification and expiry are not modelled: a request is authenticated or not.
- The persistence client (`src/db/index.js`) and its schema are not part of this model. The model assumes that any status string is accepted on create and update, and that no field of the schema has a default value the routes rely on.
- bcrypt's salting and cost factor are not modelled, and neither are JWT signing and encoding. They are the abstract `Hasher` and `Token`.
- A bcrypt failure during sign-up is not modelled. It happens outside the `try` block, so it escapes the handler.
- Floating-point behaviour of `Math.random()` and `Math.floor` is not modelled: draws are exact reals.
- JSON `null`, non-string values and an absent `status` on POST /gadgets are not modelled: `GadgetStore.Create` always receives a string status, and what the persistence client does with an undefined one depends on its schema, which is not part of this model. This includes a repeated `status` query parameter, which arrives as an array.
- A PATCH or DELETE on a gadget id that is not well-formed is not modelled separately. Ids are numbers, and any unknown id fails with 500, as a failing lookup does.
- Concurrent requests are not modelled. Every handler runs to completion on its own.

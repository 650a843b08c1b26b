# Session authentication core of node-auth1-project, in Dafny

This project models the authentication layer of a small Express API:

- the four gate stages of `api/auth/auth-middleware.js`: `restricted`, `checkUsernameFree`, `checkUsernameExists` and `checkPasswordLength`;
- the three routes of `api/auth/auth-router.js`: `POST /register`, `POST /login` and `GET /logout`.

Each stage either lets the request through (`Step.Proceed`, the model of `next()`) or stops it with one fixed `{status, message}` descriptor (`Step.Reject`, the model of `next(err)`). A route runs its stages in order and answers with the first rejection. When every stage passes, it runs its handler.

The model keeps the shapes of the source:

- The user table is a class, `UsersModel.UserStore`, with a row sequence and an id counter.
- `req.session` is a class, `Http.Session`, whose `user` field is the bound user.
- `req` is a class, `Http.Request`, with its body and the candidate `user` that `checkUsernameExists` writes.
- `restricted`, `checkUsernameFree` and `checkPasswordLength` only read, so they are functions.
- `checkUsernameExists` and the three routes change state, so they are methods.

Modules:

- `UsersModel`: the user row and the table. `findBy({username})` is an order-preserving filter, and `add` appends a row with a fresh id.
- `Bcrypt`: hashing kept abstract. `Hasher` is a pair `hash(plaintext, salt)` and `compare(plaintext, stored)`. `Sound` is the one property the core relies on: every plaintext verifies against its own hash, and a hash differs from its plaintext.
- `JsString`: `String.prototype.trim`, with the exact ECMAScript whitespace and line-terminator set, and `length` measured in UTF-16 code units. A character above U+FFFF counts as two.
- `Http`: the descriptor, response, body, session and request shapes.
- `AuthMiddleware`: the four stages and their descriptors.
- `AuthRouter`: the three routes.
- `AuthExamples`: the `sue` walk-through modelled on the router's doc comments, the padded password `"  ab  "`, and a password of two emoji.

The register route answers 201, as the code at `api/auth/auth-router.js:74` does. The doc comment at line 13 says 200.

The doc comment's example answer `"user_id": 2` (`api/auth/auth-router.js:15`) assumes one user already exists. The walk-through starts from an empty table, so sue receives id 1.

## Model

| member | source | states |
|---|---|---|
| `UsersModel.FindBy` | api/auth/auth-middleware.js:32 | the lookup returns exactly the rows with the given username, no more rows than the table has, and is empty iff no row has that username |
| `UsersModel.FindByHeadIndex` | api/auth/auth-middleware.js:54-56 | `result[0]` of a non-empty lookup sits at some position of the table, has the username, and no earlier row has it: it is the first match |
| `UsersModel.UniqueUsernamesSingleMatch` | api/auth/auth-middleware.js:54-56 | while usernames are unique, a lookup finds at most one row, so the candidate user is the only one with that name |
| `UsersModel.UserStore.Add` | api/auth/auth-router.js:72-73 | `User.add` appends exactly one row, with the given username and stored password and an id no existing row has; earlier rows are unchanged and ids stay distinct |
| `JsString.LeadingWhitespace` | api/auth/auth-middleware.js:76 | counts the whitespace prefix that `trim` removes: every counted character is whitespace, and the next one is not |
| `JsString.TrailingWhitespace` | api/auth/auth-middleware.js:76 | counts the whitespace suffix that `trim` removes: every counted character is whitespace, and the one before is not |
| `JsString.Trim` | api/auth/auth-middleware.js:76 | `trim()` yields the piece of the string that starts after its leading whitespace; only whitespace is cut from either end, and the result neither starts nor ends with whitespace |
| `JsString.Utf16Length` | api/auth/auth-middleware.js:76 | `.length` counts UTF-16 code units: at least one and at most two per character |
| `JsString.Utf16LengthOfChar` | api/auth/auth-middleware.js:76 | one code unit per character up to U+FFFF, two (a surrogate pair) above |
| `JsString.Utf16LengthCountsAstral` | api/auth/auth-middleware.js:76 | `.length` is the number of characters plus the number of positions holding a character above U+FFFF |
| `JsString.Utf16LengthOfBmp` | api/auth/auth-middleware.js:76 | for a string with no character above U+FFFF, `.length` is the number of characters |
| `JsString.Utf16LengthAppend` | api/auth/auth-middleware.js:76 | `.length` of a concatenation is the sum of the two lengths |
| `JsString.TrimmedLengthExceeds` | api/auth/auth-middleware.js:76 | `s.trim().length > n`, in UTF-16 code units, iff `s` has two non-whitespace characters such that the stretch from the first to the second measures more than `n` code units |
| `AuthMiddleware.Restricted` | api/auth/auth-middleware.js:12-21 | passes iff the session has a bound user; otherwise rejects with exactly 401 "You shall not pass!" |
| `AuthMiddleware.CheckUsernameFree` | api/auth/auth-middleware.js:31-42 | passes iff no stored row has the request's username; otherwise rejects with 422 "Username taken" |
| `AuthMiddleware.CheckUsernameExists` | api/auth/auth-middleware.js:52-64 | passes iff some row has the request's username, and then sets `req.user` to the first such row; otherwise rejects with 401 "Invalid credentials" and leaves `req.user` as it was; changes nothing but `req` |
| `AuthMiddleware.CheckPasswordLength` | api/auth/auth-middleware.js:74-84 | passes iff the password is present and its trimmed length, in UTF-16 code units, is greater than 3; a missing, empty or short password (e.g. `"  ab  "`) is rejected with 422 "Password must be longer than 3 chars" |
| `AuthRouter.Register` | api/auth/auth-router.js:68-81 | a taken username gives 422 "Username taken" even when the password is also bad; a free username with a bad password gives the password descriptor; either rejection leaves the table unchanged. Otherwise exactly one row is appended with the username and the hash of the password, never the plaintext, and the password verifies against that hash. The answer is 201 with `{user_id, username}` only. Unique usernames and distinct ids are preserved |
| `AuthRouter.Login` | api/auth/auth-router.js:83-100 | an unknown username gives 401 "Invalid credentials" and changes nothing. For a known one, the first match becomes `req.user`. A password that verifies binds the session to that user and answers 200 "Welcome {username}!". A wrong password answers the same 401 descriptor as an unknown username, and the session is unchanged. A missing password makes the comparison throw (`Fault`). Any new binding is a stored user, and `restricted` then passes |
| `AuthRouter.Logout` | api/auth/auth-router.js:102-122 | with no bound user: "no session", nothing changes. With one whose destruction succeeds: "logged out", the cookie is expired, no user stays bound, and `restricted` rejects with 401. With one whose destruction fails: "no session", and the binding stays |
| `Http.Session.Destroy` | api/auth/auth-router.js:105-106 | `session.destroy` reports the store's failure; on success it removes the bound user, and on failure it leaves the binding as it was |
| `AuthExamples.PaddedShortPasswordRejected` | api/auth/auth-middleware.js:74-84 | `"  ab  "` trims to `"ab"` and is rejected with the password descriptor |
| `AuthExamples.AstralPasswordAccepted` | api/auth/auth-middleware.js:76 | two emoji are two characters but four code units, so the password passes |
| `AuthExamples.RegisterSueTwice` | api/auth/auth-router.js:9-30 | registering sue/1234 into an empty table answers 201 `{user_id: 1, username: "sue"}`; registering sue again answers 422 "Username taken" and adds nothing |
| `AuthExamples.LoginSue` | api/auth/auth-router.js:33-63 | after that registration, sue/1234 logs in with 200 "Welcome sue!"; a second request with a wrong password answers 401 "Invalid credentials"; logging out answers 200 "logged out" and clears the cookie; logging out again answers 200 "no session" |

## Left out

- Express routing, `req`/`res`/`next` plumbing and the application's error handler are not part of this model. `Http.ErrorResponse` takes a rejection to its status with a `{message}` body. A thrown exception becomes the generic `Fault` response.
- bcrypt internals are left out: the cost factor 8, salt generation and the comparison algorithm. `Bcrypt.Hasher` keeps only `hash`, `compare` and the `Sound` round trip. The randomness of `hashSync` is the `salt` parameter of `Register`.
- `users/users-model` is not part of this model. `findBy` is modelled as a filter over the row sequence and `add` as an append with the next id. Ids start at 1, like an autoincrement key.
- A failing `User.add` is left out; the register handler forwards it with `next(err)` at api/auth/auth-router.js:78-79.
- A failing `User.findBy` is left out. It is called at api/auth/auth-middleware.js:32 and 54, inside `async` middleware with no `try`/`catch`. Its failure never reaches `next` and leaves the request without a response.
- The one thrown fault modelled is the login `catch` at api/auth/auth-router.js:97-98. It fires when the password is missing, because bcrypt's comparison throws on a non-string, and the model answers it with `Fault`.
- Request bodies are modelled as a string `username` and an optional string `password`.
  - A missing username is left out, because what the store's query does with it is not visible here.
  - A truthy non-string password, such as the number `12345`, is left out. At `/register` it makes `password.trim()` throw inside the `async` middleware at api/auth/auth-middleware.js:76, so the request gets no response. That crash lies outside the responses the model describes. At `/login` only `checkUsernameExists` runs first (api/auth/auth-router.js:83). The password then reaches bcrypt's comparison at api/auth/auth-router.js:86, which throws, and the `catch` at :97-98 forwards the error. That is the same `Fault` the model returns for a missing password.
- AuthMiddleware.CheckPasswordLength: a password holding an unpaired surrogate code unit, which a JSON body can carry, cannot be represented. The model's characters are Unicode scalar values; every other string is measured in UTF-16 code units, as JavaScript does.
- Session and cookie transport are left out. The literal `Set-Cookie` header of a completed logout becomes the `clearsCookie` flag of the response.
- `Http.Session.Destroy` models the server-side binding only: a failed destroy leaves it as it was, and the request-local deletion of `req.session` is not modelled.
- Asynchronous execution and concurrent requests are left out. The routes run one at a time, so `Register` preserving unique usernames does not cover the race between two concurrent registrations of the same name.
- The unused destructuring of `req.session.user` in logout (api/auth/auth-router.js:104) has no effect and is not modelled.

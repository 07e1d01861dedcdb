# Message board backend, modelled in Dafny

The system is a small HTTP backend for a message board. Users register with a
username, a nickname and a password. Logging in sets a session cookie that
carries a signed bearer token naming the user's id. Authenticated users write
posts, and only a post's author may change or delete it. Anyone may read the
list of posts or a single post, each shown with its author. The model shows
the author through the user's public view; see "## Left out".

The model covers the two routers and the tables they work on:

- `http.dfy` (module `Http`): the `Result` and `Option` values the handlers
  return, the `Set-Cookie` directive, and a `Response` object whose cookie list
  the handlers append to.
- `config.dfy` (module `Config`): the cookie settings and the token lifetime.
- `models.dfy` (module `Models`): the two tables, the request bodies and their
  validation bounds, the public projection of a user (no password), and the
  uniqueness and well-formedness invariants of the tables.
- `security.dfy` (module `Security`): the token signer and the password hasher
  as an abstract `Codec`. `Sound(codec)` states the two facts the routers rely
  on: a token decodes to its own subject, and a password verifies against its
  own digest. The module also holds the decimal rendering of a user id that
  travels in the token, with its round trip.
- `store.dfy` (module `Store`): the database as a `Database` class. It holds
  both tables, the id sequences and a logical clock for the timestamps. Its
  methods update the tables in place and keep `Valid()`: ids match keys,
  names are unique, every post's author exists, and `created_at <= updated_at`.
- `auth.dfy` (module `Auth`): identity resolution from the cookie, and the
  register, login, logout and "me" endpoints.
- `board.dfy` (module `Board`): listing, reading, creating, updating and
  deleting posts.
- `scenario.dfy` (module `Scenario`): client sessions against the model with
  a concrete sound codec. Alice registers, a duplicate name is refused, and
  wrong credentials are answered the same way for an unknown user and a wrong
  password. Alice logs in and out, and writes a post. Bob joins without
  breaking Alice's session and is refused when he edits or deletes her post.
  Alice then edits and deletes it.

The framework answers in a fixed order, and the handlers follow it. The
dependency that resolves the user runs first (401). Body validation comes next
(422). Then the handler's own checks run: 404 for a missing post comes before
403 for a caller who is not the author. Registration checks the username
before the nickname.

## Model

| member | source | states |
|---|---|---|
| Models.PublicViewIgnoresPassword | app/models.py:30 | The public view of a user keeps id, username and nickname and cannot depend on the password |
| Models.UserNamed | app/routers/auth.py:45 | With unique usernames, the lookup by username finds a stored row with that name exactly when the name is taken |
| Models.UserNamedFindsRow | app/models.py:8 | Because usernames are unique, looking up a stored user's username yields that very row |
| Models.StoredUserUnderOwnId | app/models.py:7 | A stored user row sits under its own primary key |
| Security.DecimalString | app/routers/auth.py:75 | The subject `str(user.id)` is a non-empty run of digits with no leading zero |
| Security.ParseDecimal | app/routers/auth.py:26 | A subject names an id exactly when it is a non-empty run of decimal digits |
| Security.DigitsValueOfDecimal | app/routers/auth.py:75 | The digits written for an id denote that id |
| Security.DecimalRoundTrip | app/routers/auth.py:75 | The subject written at login parses back to the same user id |
| Store.Database.constructor | app/models.py:6-26 | An empty database satisfies every table invariant |
| Store.Database.InsertUser | app/routers/auth.py:57-61 | A new user row goes under a fresh id with a new timestamp; the invariants, including unique names, are kept; posts are untouched |
| Store.Database.InsertPost | app/routers/board.py:22-26 | A new post goes under a fresh id with equal created and updated stamps; the invariants are kept; users are untouched |
| Store.Database.SavePost | app/routers/board.py:63-66 | Only title, content and a strictly later `updated_at` change, on that post only |
| Store.Database.DeletePost | app/routers/board.py:80 | Exactly that post is removed; every other row is kept |
| Auth.StripBearer | app/routers/auth.py:21-23 | A value with the "Bearer " prefix loses exactly that prefix; any other value is used as it is |
| Auth.StripCookieValue | app/routers/auth.py:80 | Stripping the cookie value login writes gives back exactly the token |
| Auth.LookupSubject | app/routers/auth.py:26 | A found user is stored and its id is the one the subject names; a stored id is always found |
| Auth.CurrentUser | app/routers/auth.py:11-39 | A missing or empty cookie is 401 "Not authenticated"; any other failure is 401 "Invalid authentication credentials"; success exactly when the token decodes to a subject naming a stored user, and the user returned is that one |
| Auth.RejectionsIndistinguishable | app/routers/auth.py:27-39 | A token that does not decode and a token naming no user get the same 401 |
| Auth.CurrentUserAsWritten | app/routers/auth.py:26-33 | As written, a decodable token whose subject reads as an id with no stored user is answered 404 by the ORM's exception handler; a subject that does not read as an id is an unhandled 500; those are its only non-401 failures; it agrees with `CurrentUser` on success and on every 401 |
| Auth.UnknownSubjectIsNotFound | app/routers/auth.py:26-33 | A valid token for user 1, with no user 1 stored, is 404 as written and 401 as intended |
| Auth.NonNumericSubjectIsServerError | app/routers/auth.py:26-34 | A valid token whose subject is "abc" is 500 as written and 401 as intended |
| Auth.SessionSurvivesRegistration | app/routers/auth.py:26 | Adding a user under a fresh id does not change whom an existing session authenticates |
| Auth.SessionCookieAuthenticates | app/routers/auth.py:75-86 | With a sound codec, the cookie login sets for a stored user authenticates exactly that user |
| Auth.LogoutMatchesLogin | app/routers/auth.py:78-98 | Login's cookie is HttpOnly and lives `minutes*60` seconds; logout's deletion has the same name, path, domain, secure and samesite, an empty value and max-age 0 |
| Auth.Register | app/routers/auth.py:42-62 | 422, then 400 for a taken username, then 400 for a taken nickname; success exactly when valid and both are free; only the digest is stored; the reply is the public view; a failure changes nothing |
| Auth.Authenticate | app/routers/auth.py:67-68 | Success means a stored row with that username whose digest verifies the password; an unknown name or a failed verification is the same None |
| Auth.StoredPasswordAuthenticates | app/routers/auth.py:67-68 | With a sound hasher, a stored user presenting the password whose digest was stored passes |
| Auth.Login | app/routers/auth.py:65-88 | Bad credentials are 401 with no cookie; success appends exactly the session cookie for that user |
| Auth.Logout | app/routers/auth.py:91-99 | Always succeeds and appends exactly the clearing cookie |
| Auth.Me | app/routers/auth.py:102-104 | Passes the resolver's rejection through unchanged (always a 401); otherwise the public view of exactly the resolved user |
| Board.SortedIds | app/routers/board.py:12-13 | Every id exactly once, in strictly ascending order |
| Board.GetPosts | app/routers/board.py:10-14 | Every post is listed, each once, each with its own author's public view; nothing else is listed |
| Board.GetPost | app/routers/board.py:43-48 | 404 exactly when the id is absent, Ok exactly when present; the Ok value carries that post's id, title, content and both timestamps and its author's public view |
| Board.GetPostAgreesWithGetPosts | app/routers/board.py:43-48 | A post found by id is in the listing, and a listed post with that id is what the single read returns |
| Board.CreatePost | app/routers/board.py:17-40 | 401, then 422, unchanged; an insert failure is 500 with the error text, unchanged; otherwise the post is stored under the next id (the id counter advances by one) with the caller as author, and a re-fetch failure is still 500 |
| Board.UpdatePost | app/routers/board.py:51-67 | 401, 422, 404, then 403, each leaving the store unchanged; the author's update replaces title and content on that post only and advances `updated_at`; the id counter is unchanged |
| Board.DeletePost | app/routers/board.py:70-81 | 401, 404, then 403, each leaving the store unchanged; the author's delete removes exactly that post and changes no counter or clock |

## Left out

- Token signing and password hashing are an abstract `Codec`. `Sound` states
  the facts the routers use. HS256, the secret key and bcrypt are not modelled.
- A tampered or foreign token is one that `decode` rejects. Token expiry is not
  modelled: `Sound` makes every issued token decode, so
  `Auth.SessionCookieAuthenticates` describes a cookie presented before its
  token expires.
- Timestamps come from a logical clock that ticks on every write. Wall-clock
  time and time zones are not modelled.
- The database is in-memory maps. SQL, the ORM, `prefetch_related`, async
  execution and concurrent requests are not modelled. A uniqueness race
  between two registrations cannot occur in this model.
- Board.GetPosts: the source's query has no ORDER BY, so its order is whatever
  the database returns. The model fixes ascending id order. The contract
  states coverage and uniqueness as well as the order.
- `Auth.ObjectMissing` stands for the ORM's not-found text. The exact wording
  depends on the ORM version.
- Validation errors are reported as 422 with one fixed detail. The framework's
  structured error body is not modelled.
- The `WWW-Authenticate: Bearer` header on the 401 replies is not modelled.
- Python's `int()` also accepts signs, spaces and underscores when the
  subject is read back as an id. The model's subject parser accepts decimal
  digits only. Tokens issued by login always carry plain digits.
- Auth.CurrentUserAsWritten: a subject such as "+1" or " 1" that `int()`
  accepts but the model's parser rejects is a 500 in the model. In the
  source it is read as an id, so it gets a 404 or a success.
- The nested author in a post reply is modelled as the author's public view.
  This is a modelling choice. The post schema in app/models.py:34 is built
  with no exclusions, and only the user schema (app/models.py:30) drops the
  password. So a post reply may carry the author's full row, the password
  digest included, or no author at all. The model does not capture that
  possible digest exposure. Which shape the library produces depends on when
  the ORM resolves relations, and that is outside the source.
- The diagnostic prints in `create_post` are not modelled.
- Storage faults in `create_post` are an input, `StoreFault`. A re-fetch that
  finds nothing yields the framework's text for the inner exception,
  re-wrapped by the handler.
- Starlette's serialisation of the `Set-Cookie` header is not modelled.
- app/schemas.py (the login body) and app/core/security.py are not part of
  this model. The login body is modelled as `LoginRequest`.
- main.py (application wiring, CORS, database start-up) is not part of this
  model.

## Findings

| source | as written | input that shows it | evidently intended | confidence | as-written member | corrected member |
|---|---|---|---|---|---|---|
| app/routers/auth.py:26-33 | `User.get` raises when no row has the id, and only token errors are caught, so the `if not user` branch is never reached; the ORM's exception handler registered in main.py:21-27 answers 404 | a validly signed session token whose subject is an id with no stored user (for example, after the user row is gone) | 401 "Invalid authentication credentials" | medium, not executed | Auth.UnknownSubjectIsNotFound | Auth.RejectionsIndistinguishable |
| app/routers/auth.py:26-34 | the subject goes to `User.get(id=...)`; a subject that is not a number fails the id conversion with an error that is neither the caught token error nor the ORM's not-found error, so the request ends in an unhandled 500 | a validly signed token (the default secret in app/core/config.py:7 is a literal) whose subject is "abc" | 401 "Invalid authentication credentials" | medium, not executed | Auth.NonNumericSubjectIsServerError | Auth.RejectionsIndistinguishable |

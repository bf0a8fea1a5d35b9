# Account and token authentication of the scoring service

This project models, in Dafny, the account and authentication logic of a small
Flask service that puts a pre-trained classifier behind HTTP. It covers:

- the **user table** (`User`: id, username, password hash) with registration
  (`POST /api/users`) and lookup by id (`GET /api/users/<id>`);
- the **password hasher** the table relies on (hash with a random salt, verify);
- the **token service**: `generate_auth_token` signs `{id}` with an expiry of
  issue time + `expiration` (600 by default), `verify_auth_token` refuses
  expired and badly signed tokens and otherwise looks the encoded id up;
- the **authentication gate** (`verify_password`, the callback of the HTTP
  Basic-auth extension): the supplied identifier is tried as a token first,
  then as a username whose stored hash must verify the supplied password; on
  success the user is bound to the request (`g.user`);
- the **token endpoint** (`GET /api/token`) behind the gate.

Files:

- `wrappers.dfy` — `Option`.
- `decimal.dfy` — canonical decimal numerals and reading them back.
- `serializer.dfy` — a stand-in for the timed JSON web signature serializer:
  token text `<iat>,<exp>.<id>.<signature>`, a signature that is a
  deterministic function of key and signed text and injective in the text,
  and `Loads`, which splits off the signature at the last `.`, checks it,
  decodes the claims and only then compares the expiry time with the clock
  (`exp < now` is expired), the order the library follows. `Loads` keeps the
  library's two failure kinds, `Expired` and `BadSignature`, apart.
- `passwords.dfy` — a stand-in for the salted hasher: the digest is a
  symbolic term of salt and secret, so exactly the hashed secret verifies.
- `app.dfy` — the application: `User` with `HashPassword`, `VerifyPassword`
  and `GenerateAuthToken` (default expiration 600); the table as the rows in
  id order plus the next id; `Register` (the decision of `new_user`) and the
  class `UserStore` whose `NewUser` method changes the rows in place;
  `GetUser`; `VerifyAuthToken`; `Authenticate` (the decision of the gate) and
  the method `VerifyPassword` that binds `RequestGlobals.user`; `TokenReply`
  and the method `GetAuthToken`.

The clock (`now`, whole seconds) and the hasher's salt are parameters.
`filter_by(username=...).first()` is the earliest matching row; the username
column has no uniqueness constraint, so the absence of duplicate usernames is
proved as an invariant of registration (`WellFormed`, `UsernamesStayUnique`).

Registration rejects only a username or password that is absent (`None`,
app.py:71), so empty strings are accepted; a missing user id answers 400
(app.py:86-87); and the gate does not distinguish an expired token from a
badly signed one (app.py:47-50, 58): both fall through to the username path,
though the serializer itself tells them apart.

## Model

| member | source | states |
|---|---|---|
| `PasswordContext.Encrypt` | app.py:33 | the hash carries the drawn salt, verifies the hashed password, and verifies no other password |
| `PasswordContext.SaltedHashesDiffer` | app.py:33 | hashing one password under two salts gives two different hashes that both verify it |
| `App.User.HashPassword` | app.py:32-33 | setting the hash keeps id and username, and afterwards exactly the given password verifies |
| `App.User.VerifyPassword` | app.py:35-36 | a password verifies exactly when the stored hash is a hash of it under some salt; a row without a hash verifies nothing |
| `App.FindById` | app.py:85 | the lookup by id returns a stored row with that id, and None exactly when no row has it |
| `App.FindByUsername` | app.py:60 | the lookup by username returns a stored row with that username, and None exactly when no row has it |
| `App.FindByIdOfStored` | app.py:51 | with distinct ids, a stored row is what the lookup by its id returns |
| `App.FindByUsernameOfStored` | app.py:60 | with distinct usernames, a stored row is what the lookup by its username returns |
| `App.Register` | app.py:67-80 | a missing username or password, or a taken username, gives 400 and leaves the table unchanged; otherwise exactly one row is appended with that username, a fresh id and a hash that verifies the password, earlier rows are unchanged, the reply is 201 with the username and the new id; the table invariant is preserved |
| `App.UserStore.NewUser` | app.py:67-80 | the endpoint's in-place update of the rows and next id is the one `Register` describes, and keeps the store valid |
| `App.UserStore.constructor` | app.py:143-144 | a new store is valid and empty |
| `App.ReplayKeepsWellFormed` | app.py:73-78 | any sequence of registrations keeps ids distinct and fresh, every row hashed, and usernames distinct |
| `App.UsernamesStayUnique` | app.py:73-78 | from the empty table, no sequence of registrations stores two rows with one username |
| `App.GetUser` | app.py:83-88 | 400 exactly when no row has the id; otherwise 200 with the username of a row that has it |
| `App.GetUserOfStored` | app.py:83-88 | for a stored user the reply is 200 with that user's username |
| `Serializer.LoadsDumps` | app.py:39-40 | loading a token gives back the claims it was issued with, or Expired once the expiry time is past |
| `Serializer.LoadsValidIff` | app.py:44-46 | a token loads as valid with claims c exactly when it is the signed dump of c and the clock is not past c's expiry |
| `Serializer.LoadsExpiredIff` | app.py:46-48 | a token is refused as expired with claims c exactly when it is the signed dump of c and the clock is past c's expiry |
| `Serializer.LoadsOnlyDumps` | app.py:46-50 | every token that is not refused as badly signed is the signed dump of the claims it carries |
| `Serializer.LoadsRejectsForgedSignature` | app.py:49-50 | a signed text with any other signature than its own is refused as badly signed |
| `Serializer.SignInjective` | app.py:39-40 | under one key, two different signed texts never share a signature |
| `App.User.GenerateAuthToken` | app.py:38-40 | the issued token loads, at its issue time, as valid with the user's id and expiry issue time + expiration (600 by default); `App.IssuedTokenRoundTrip` carries this to every later time |
| `App.VerifyAuthToken` | app.py:42-52 | a token never yields a user that is not stored |
| `App.VerifyWellSignedToken` | app.py:42-52 | a well-signed unexpired token yields the row under the id it encodes, or None when there is no such row |
| `App.VerifyExpiredToken` | app.py:47-48 | an expired token yields no user |
| `App.VerifyForgedToken` | app.py:49-50 | a badly signed token yields no user |
| `App.VerifiedTokenWasSigned` | app.py:42-52 | a token that yields a user is the signed dump of unexpired claims whose id is that user's |
| `App.IssuedTokenRoundTrip` | app.py:38-52 | a token issued to a stored user with expiration e yields that same user at every time up to issue time + e, and no user after it |
| `App.Authenticate` | app.py:54-64 | the gate only admits stored users, and a live token decides the outcome before any username lookup |
| `App.GateAcceptsLiveToken` | app.py:56-58 | a live token for a stored user authenticates that user whatever password is supplied |
| `App.GateFallbackIff` | app.py:58-62 | when the identifier is not a live token, the gate admits a user exactly when it is stored under that username and its hash verifies the password |
| `App.GateRefusesBadCredentials` | app.py:58-62 | without a live token and without a matching row whose hash verifies the password, the gate refuses |
| `App.GateAdmitsRegisteredUser` | app.py:58-80 | after a successful registration the new user authenticates with its password and with no other (when the username is not itself a live token) |
| `App.VerifyPassword` | app.py:54-64 | the gate returns true exactly when `Authenticate` admits someone, binds that user on success, and leaves the request's identity untouched on failure |
| `App.TokenReplyRoundTrip` | app.py:91-95 | the token endpoint answers 401 exactly when the gate refuses; otherwise 200, duration 600, and a token that authenticates the same user, with any password, at every time up to issue + 600 |
| `App.TokenReply` | app.py:91-95 | 401 exactly when the gate refuses; otherwise 200 with a token body of duration 600; `App.TokenReplyRoundTrip` proves the token authenticates the same user |
| `App.GetAuthToken` | app.py:91-95 | the endpoint's reply is the one `TokenReply` describes; the bound identity is the authenticated user on success and untouched on refusal |

## Left out

- `FindZen` and `xgb_predict.py`: floating-point feature parsing and a call into a pickled scikit-learn model, with a catch-all error handler; no algorithmic content to model.
- The hasher's internals: the salted SHA-crypt scheme, its constant-time comparison and the randomness of the salt. The salt is a parameter and the digest a symbolic term; the model assumes, rather than proves, that a digest reveals nothing.
- The serializer's internals: JSON, base64 and HMAC-SHA512 are replaced by decimal text and a stand-in signature. The stand-in is not a secure MAC; the model proves no unforgeability, only what follows from checking a signature that is determined by key and text.
- A signed payload without an `id` key (a `KeyError`, hence a 500) and a negative or non-integer expiry header cannot be written in the stand-in token format; `expiration` is a natural number.
- Serializer.Loads: an expiry header of 0 is treated like any other value, so a token issued at time 0 with expiration 0 is accepted at time 0; a serializer version that refuses a zero expiry as not an IntDate would refuse that one token, and `App.IssuedTokenRoundTrip` and `App.GateAcceptsLiveToken` do not model that refusal.
- The in-place assignment in `User.hash_password` on a not-yet-stored object is a record update on a `User` value; only the table is a mutable object.
- How SQLite picks a new id: the store counts up from 1, but the contracts promise only that the id is fresh.
- Persistence: commit-on-teardown, table creation, and the unenforced 32/64 column lengths.
- The check-then-insert race between concurrent registrations: the store is modelled as sequential.
- HTTP plumbing: routing, `abort`, `jsonify`, the absolute URL of the Location header (modelled as the new user's id), a request without a JSON body or with non-string fields, Basic-auth header decoding, the TLS context, `os.chdir` and `app.run`.

# Remix Jokes: login, registration and sessions, in Dafny

This project models the authentication core of the Remix Jokes application:

- the login route's `action`: it reads `loginType`, `username`, `password` and `redirectTo` from the form. It checks their types, then their lengths, then logs the user in, registers a new user, or refuses the login type. Each path ends in a 400 payload `{ fieldErrors, fields, formError }` or in a redirect that sets a session cookie. The three validators sit beside it.
- the session service: `register`, `login`, `getUserId`, `requireUserId`, `createUserSession`, `getUser`, `logout`, and the cookie options with their 30-day maximum age.
- the two record-building helpers `getFromForm` and `queryParser`.

Modules, one per source file, plus two helper modules:

- `Wrappers` (wrappers.dfy): `Option`, which stands for `null`/`undefined`, and `Result`.
- `Forms` (forms.dfy): a form's entries, `formData.get`, and `getFromForm` as a loop that fills a record.
- `Query` (query.dfy): `queryParser` as a loop over search-parameter entries. A later value for a key overwrites an earlier one.
- `Db` (db.dfy): the user table behind the database client. It is a class `UserStore` holding a map from username to `(id, passwordHash)`. Ids are kept unique.
- `Session` (session.dfy): app/utils/session.server.ts.
- `Login` (login.tsx's logic, in login.dfy): the validators, `CheckForm` (type and length checks), `Decide` (the action's decision as a function of the user table), and `Action`, the method on the store that is proved to do what `Decide` says.

Hashing is a value `Hasher` holding two functions, `hash(password, salt)` and `compare(password, hash)`. Where a property needs it, it is assumed `Sound`: a password always verifies against a hash of itself. The cookie codec stays abstract. A `Request` carries its URL's pathname and the payload its cookie decodes to. A `Response` carries its `Location` and what its `Set-Cookie` header asks for (`Commit(payload)`, `Destroy` or nothing). A thrown redirect, the un-awaited Promise of one, or a database error is the `Throw` case of an `Outcome`.

Behaviour the code has that a reader might not expect:

- `getUser` returns the lookup's `null` when the session's user id matches no row. Only a lookup that throws leads to `logout` (app/utils/session.server.ts:106-114).
- `getUserId` drops the empty string as well as non-strings, because `!userId` is true for it (app/utils/session.server.ts:71).
- Empty strings pass both length validators, because `username && …` is falsy for them (app/routes/login.tsx:29 and :35).
- `queryParser` stores no key `__proto__`. Its accumulator is the plain literal `{}`, and `Object.assign` sets that key through the inherited prototype setter, which ignores a string (app/tools/queryParser.ts:8-9).

## Findings

| source | as written | input that shows it | evidently intended | confidence | as-written member | corrected member |
|---|---|---|---|---|---|---|
| app/routes/login.tsx:85-106 | `validateUrl` (app/routes/login.tsx:40-44) is defined but never called. Both redirects go to the submitted `redirectTo` as it stands | a registration form with `redirectTo=http://evil.example` redirects to `http://evil.example` | the post-login target passes through `validateUrl`, so it is always on the allow-list | medium, not executed | `Login.RedirectTargetNotValidated`, `Login.OpenRedirectExample` | `Login.DecideValidated`, `Login.ValidatedRedirectExample` |
| app/utils/session.server.ts:113 | `throw logout(request)` with no `await`, although `logout` is `async` (:117). What is thrown is a Promise, not the redirect Response | a session `{userId: "u"}` whose user lookup throws | `throw await logout(request)`, which throws the logout redirect | high, not executed | `Session.GetUser`, `Session.UnawaitedLogoutIsNotARedirect` | `Session.GetUserAwaited` |

The action and `getUser` keep the code's behaviour. The corrected members sit beside them, with the intended property proved.

## Model

| member | source | states |
|---|---|---|
| Forms.Get | app/tools/getFromForm.ts:6 | `formData.get(name)` is null exactly when no entry has that name; otherwise it is the value of the first entry with that name |
| Forms.GetFromForm | app/tools/getFromForm.ts:1-9 | the record's keys are exactly the listed field names (none for no names), and each key holds `formData.get` of that name, null for a missing field; so the record meets `IsFieldRecord`, which the three lemmas below are about |
| Forms.FieldRecordUnique | app/tools/getFromForm.ts:5-8 | the field names alone determine the record |
| Forms.RepeatedFieldName | app/tools/getFromForm.ts:5-6 | listing a name again writes the same value again, so the record for the longer list is the record for the shorter one |
| Forms.NoFieldNames | app/tools/getFromForm.ts:5-8 | with no field names the record is empty |
| Query.QueryParser | app/tools/queryParser.ts:3-11 | the record's keys are exactly the keys of the entries other than `__proto__`, and each key holds the value of its last entry |
| Query.LastWinsStep | app/tools/queryParser.ts:8-9 | one `Object.assign` of an entry keeps "keys of the entries other than `__proto__`, last value wins" for the longer list; an entry with key `__proto__` leaves the record unchanged |
| Query.ProtoKeyDropped | app/tools/queryParser.ts:8-9 | the entries of `?__proto__=x&a=1` give exactly the record `{a: "1"}` |
| Query.LastWinsUnique | app/tools/queryParser.ts:7-10 | the entries determine the record |
| Query.LastWinsValuesVerbatim | app/tools/queryParser.ts:5-8 | every value is text taken verbatim from an entry with that key, never a number, although the declared type allows one |
| Query.NoEntries | app/tools/queryParser.ts:7-10 | with no entries the record is empty |
| Db.FindByUsername | app/utils/session.server.ts:31-33 | a lookup by username finds the row exactly when the username is in the table |
| Db.FindById | app/utils/session.server.ts:107-110 | a lookup by id finds a user exactly when some row has that id, and the result is that row's `{id, username}` |
| Db.AddKeepsIdsUnique | app/utils/session.server.ts:21-23 | a row added under a new username with an unused id keeps every id unique |
| Db.UserStore.Create | app/utils/session.server.ts:21-23 | creating a user fails, changing nothing, on a taken username or id; otherwise it adds exactly that row and keeps ids unique |
| Session.ThirtyDaysInSeconds | app/utils/session.server.ts:7-12 | the maximum age is 60·60·24·30 = 2,592,000 seconds |
| Session.Storage | app/utils/session.server.ts:47-62 | loading fails with "SESSION_SECRET must be set" exactly when the secret is unset or empty; otherwise the cookie is `RJ_session`, HTTP-only, `lax`, path `/`, signed with that one secret, secure only in production, with max-age 2,592,000 |
| Session.Register | app/utils/session.server.ts:19-25 | on success exactly one user is added, holding the new id and `hash(password, salt)`, every other user is unchanged, and the result is `{id, username}` of the new record; a database error leaves the table unchanged |
| Session.Login | app/utils/session.server.ts:27-45 | the result is `{id, username}` exactly when the username exists and the password verifies against its stored hash, otherwise null; an unknown username gives null |
| Session.LoginAfterRegister | app/utils/session.server.ts:19-44 | with a sound hasher, logging in with the password just registered returns the new identity |
| Session.GetUserId | app/utils/session.server.ts:68-75 | the result is the session's `userId` exactly when it is a non-empty string, otherwise null |
| Session.RequireUserId | app/utils/session.server.ts:77-87 | returns the user id when there is one; otherwise throws a redirect to `/login?` plus the serialised `redirectTo` pair, whose target defaults to the request's pathname |
| Session.CreateUserSession | app/utils/session.server.ts:89-97 | redirects to `redirectTo` exactly and commits a fresh session whose only entry is `userId` |
| Session.SessionHandle.Set | app/utils/session.server.ts:91 | `session.set` updates that one key of the handle's payload in place |
| Session.Logout | app/utils/session.server.ts:117-124 | redirects to `/login` and expires the session cookie |
| Session.GetUser | app/utils/session.server.ts:99-115 | null without a lookup when there is no user id; throws exactly when the lookup fails, and then throws the un-awaited Promise of the logout redirect, not the redirect; otherwise returns the lookup's result, null when no row has the id |
| Session.GetUserAwaited | app/utils/session.server.ts:112-124 | with `throw await logout(request)`, a failing lookup throws the logout redirect itself, and every other outcome is that of `getUser` |
| Session.UnawaitedLogoutIsNotARedirect | app/utils/session.server.ts:112-117 | for a session `{userId: "u"}` whose lookup fails, `getUser` throws a Promise, which is not a Response, while the awaited version throws the `/login` redirect that destroys the session |
| Login.ValidateUsername | app/routes/login.tsx:28-32 | the error "Usernames must be at least three characters long" is reported exactly for a non-empty username shorter than 3; the empty string passes |
| Login.ValidatePassword | app/routes/login.tsx:34-38 | the error "Passwords must be at least six characters long" is reported exactly for a non-empty password shorter than 6; the empty string passes |
| Login.ValidateUrl | app/routes/login.tsx:40-44 | the result is always on the allow-list `/jokes`, `/`, `https://remix.run`; it equals the input exactly when the input is on it, and is `/jokes` otherwise |
| Login.ValidateUrlExamples | app/routes/login.tsx:40-44 | `http://evil.example` becomes `/jokes`; `/` and `/jokes` pass unchanged |
| Login.ValidateUrlIdempotent | app/routes/login.tsx:40-44 | applying `validateUrl` twice is applying it once |
| Login.ReadForm | app/routes/login.tsx:47-54 | the four values destructured from `getFromForm` are `formData.get` of each name |
| Login.CheckForm | app/routes/login.tsx:55-73 | any field that is not a string rejects the form with "Form not submitted correctly." and null errors and fields; otherwise the form goes on exactly when both lengths pass, and a rejection carries both field errors, the fields and a null form error |
| Login.Decide | app/routes/login.tsx:46-113 | only an accepted form with login type `register` can change the user table, and a change comes with a redirect that commits a session for the new id; every redirect goes to the submitted `redirectTo` as it stands |
| Login.Action | app/routes/login.tsx:46-113 | the action's result and the user table afterwards are the ones `Decide` gives for the form and the table before |
| Login.MalformedForm | app/routes/login.tsx:55-65 | a non-string field gives only the form error "Form not submitted correctly.", with null field errors and fields, and the table is untouched |
| Login.InvalidFields | app/routes/login.tsx:66-73 | a length error gives the field errors and the fields with a null form error, and the table is untouched |
| Login.LoginFailuresIndistinguishable | app/routes/login.tsx:74-84 | an unknown username and a wrong password give the same "Username/Password combination is incorrect" answer, and the table is untouched |
| Login.LoginSucceeds | app/routes/login.tsx:74-85 | logging in with an existing username and a password that verifies against its stored hash redirects to `redirectTo` with a session for that user's id, and the table is untouched |
| Login.RegisterTakenUsername | app/routes/login.tsx:87-97 | registering a taken username gives "User with username <name> already exists" and creates nobody |
| Login.RegisterAddsOneUser | app/routes/login.tsx:87-106 | a successful registration adds exactly one user with the new id and a hash of the password, changes no other user, keeps ids unique, and redirects with a session for the new id |
| Login.RegisterThenLogin | app/routes/login.tsx:74-106 | with a sound hasher, registering and then logging in with the same credentials starts a session for the new user |
| Login.UnknownLoginType | app/routes/login.tsx:108-112 | a login type other than `login` and `register` gives "Login type invalid", and the table is untouched |
| Login.RedirectTargetNotValidated | app/routes/login.tsx:85-106 | every successful answer redirects to the submitted `redirectTo` text exactly, even off the allow-list where `validateUrl` would have answered differently |
| Login.OpenRedirectExample | app/routes/login.tsx:98-106 | registering `alice` with `redirectTo=http://evil.example` redirects there, though `validateUrl` maps it to `/jokes` |
| Login.DecideValidated | app/routes/login.tsx:40-44 | with `validateUrl` applied to `redirectTo`, the action gives the same answers and the same table, and every redirect goes to a destination on the allow-list |
| Login.ValidatedRedirectExample | app/routes/login.tsx:40-44 | with `validateUrl` applied, registering `alice` with `redirectTo=http://evil.example` redirects to `/jokes` |

## Left out

- The `LoginRoute` component, `links` and `meta` of app/routes/login.tsx, and app/root.tsx, app/routes/_index.tsx, app/routes/jokes.tsx: markup and stylesheet links, with no logic.
- bcrypt internals: the cost factor 10 and the random salt. The salt is a parameter; `hash` and `compare` are function parameters, constrained only by `Sound` where a property needs it.
- Cookie signing, encryption and decoding (`createCookieSessionStorage`, `getSession`, `commitSession`, `destroySession`) are library code. A request carries its decoded payload (`getUserSession` is that field), and a response carries the payload to commit or the intent to destroy.
- `URLSearchParams` serialisation (the application/x-www-form-urlencoded serializer, section 5.2 of the WHATWG URL Standard) is the `serialize` parameter of `RequireUserId`. `new URL(...)` parsing is replaced by the request's `pathname` and by the entries given to `QueryParser`.
- The id the database generates for a new user is the `newId` parameter. A database fault in a lookup is modelled only in `getUser` (the `lookupFails` parameter). Elsewhere only the unique constraints of `create` fail, and the action answers them with `Failed(DatabaseError)`.
- The action's "Something went wrong trying to create a new user." branch cannot be taken: `register` either returns an object or throws. The model has no such branch.
- `badRequest` comes from app/utils/request.server, which is not part of this model. Its payload is modelled; the 400 status is implied by the `BadRequest` case.
- The `Location` of a redirect whose `redirectTo` is not text is JavaScript's string conversion (`"null"`, `"[object File]"`, in `Forms.Stringify`). React Router's `redirect` is not part of this model: it trims surrounding whitespace from the target, and it throws a TypeError for a target holding CR, LF, NUL or a character above U+00FF, which in the register branch happens after the user is created. The model's `Location` is the target as it stands, and it never throws there.
- Login.ValidateUsername: lengths count Unicode scalar values, not UTF-16 code units as JavaScript's `length` does. A character outside the Basic Multilingual Plane counts 1 here and 2 in JavaScript, so `"😀a"` is too short here but passes in the source.
- Login.ValidatePassword: lengths count Unicode scalar values, not UTF-16 code units. A password with characters outside the Basic Multilingual Plane can be too short here and pass in the source.
- Login.CheckForm: its length check inherits the same difference from the two validators.
- Forms.GetFromForm: the field name `__proto__` is kept as a key here. In the source, `Object.assign` sets it through the prototype setter, which replaces the record's prototype with the value (null or a File) and creates no own key. The action only reads the four fixed names `loginType`, `password`, `username` and `redirectTo`.
- `async`/`await` other than the un-awaited `logout` in `getUser`, `console.log` (app/routes/login.tsx:76) and `request.formData()`. Concurrency is not modelled: two registrations racing between `findFirst` and `create` show up only as the `create` failure.

# Script Shelf server core, modelled in Dafny

Script Shelf stores code snippets for registered users behind a small REST API,
and ships a browser extension that pastes a stored snippet into the page. This
project models three pieces of it as pure functions and proves properties of
them:

- the API server's handlers (register, login, create/list/update/delete
  snippet) as transitions `(database, environment, request) -> (response, database')`
  over an in-memory copy of the `users` and `snippets` tables
  (`Server.Handle` and the per-route functions in `server.dfy`);
- the `auth` middleware that guards the snippet routes (`Auth.Guard`);
- the content script's PASTE_SNIPPET handler, which splices the snippet code
  into the focused text field over its selection (`PasteSnippet.OnMessage`).

Layout:

| file | module | what it holds |
|---|---|---|
| js.dfy | Js | `Option`, JSON body values, JavaScript truthiness, the driver's `undefined`-to-NULL rule, `String.prototype.substring` |
| crypto.dfy | Crypto | bcrypt and jsonwebtoken as function values, and the assumptions made about them (`Sound`) |
| tables.dfy | Tables | the two tables, the constraints the handlers maintain (`Valid`), and the row-level effect of every SQL statement the handlers issue |
| http.dfy | Http | responses and headers |
| auth.dfy | Auth | the guard and its properties |
| server.dfy | Server | the route handlers and the dispatcher |
| server_properties.dfy | ServerProperties | properties relating several calls: constraint preservation, per-user isolation, register/login/guard round trip, create/delete/list interplay, update idempotence |
| content.dfy | PasteSnippet | the extension's paste handler and its splice properties |

Environment. Everything a handler takes from outside the database is an
explicit parameter: `Server.Env` carries the crypto functions, the salt that
`bcrypt.genSalt(10)` would draw, and the time `created_at` defaults to. The
crypto functions are uninterpreted and take string passwords only (bcrypt
rejects any other value, and the handlers answer 500); `Crypto.Sound` states
the assumptions the proofs use: a password matches its own hash under any salt,
verifying a signed payload returns it, and a signed token is a non-empty string.

The list is ordered by `created_at DESC` only; create rejects any falsy title
or code; a successful login answers 200 with `{ token }`.

## Model

| member | source | states |
|---|---|---|
| Server.RegisterUser | server/index.js:29-56 | A falsy email or password gives 400 "Please enter all fields" and an unchanged store; an email already present gives 400 "User already exists" and an unchanged store; a truthy password that is not a string gives 500 "Server error" (bcrypt rejects it) and an unchanged store; otherwise the answer is 201 with the new id and email, and exactly one user is appended whose email is the request's, whose id comes from the sequence, and whose stored hash is the hash of the password under the drawn salt |
| Server.LoginUser | server/index.js:64-111 | Never changes the store; a falsy field gives 400 "Please enter all fields"; for a registered email, a truthy password that is not a string gives 500 "Server error" (bcrypt rejects it); 200 happens exactly when the password is a string and the user found by email has a hash it matches, and then the token is the signature of a payload holding exactly that user's id; every other failure (unknown email, or a string password that does not match) is the same 400 "Invalid credentials" |
| Server.CreateSnippetFor | server/index.js:120-136 | A falsy title or code gives 400 and inserts nothing; otherwise 201 with one appended row owned by the caller, carrying the given title and code, a missing language as NULL, `is_public` true exactly when the input is boolean true or the string 'true', and the current time as `created_at` |
| Server.ListSnippetsFor | server/index.js:158-164 | Answers 200 with exactly the caller's rows (a permutation of them, so none missing, none repeated, none of another user), ordered by `created_at` non-increasing; the store is unchanged |
| Server.UpdateSnippetFor | server/index.js:172-204 | With no row matching both id and caller the answer is 404 and nothing changes; otherwise 200 with the revised matching row, and the new table is the old one with every matching row revised (title, code, language replaced, `is_public` replaced only when provided) and every other row untouched |
| Server.DeleteSnippetFor | server/index.js:229-242 | With no row matching id and caller the answer is 404 and nothing changes; otherwise 200 "Snippet deleted" and the remaining rows are exactly the old rows that do not match |
| Server.Handle | server/index.js:29-247 | Routes each request, with the guard in front of every snippet route: a request the guard refuses answers 401 and leaves the store unchanged; login and list never change the store |
| Auth.Guard | server/middleware/auth.js:4-25 | Exactly one of calling `next` or sending a response happens; a missing or empty `x-auth-token` gives 401 "No token, authorization denied"; a token verification rejects gives 401 "Token is not valid"; a verified token calls `next` with `req.user` set to the decoded payload's user |
| Auth.OnlyTokenHeaderMatters | server/middleware/auth.js:6 | Two requests that agree on the `x-auth-token` header get the same decision, whatever their other headers |
| Auth.FailuresIndistinguishable | server/middleware/auth.js:22-24 | Any two tokens that fail verification (bad signature, expiry, anything) produce identical effects, the 401 "Token is not valid" |
| Auth.AcceptsSignedToken | server/middleware/auth.js:15-21 | A token signed by the server passes the guard and yields exactly the signed user |
| Tables.FindUser | server/index.js:73-82 | The email lookup finds a user exactly when some user has that email, and the user found has it |
| Tables.OwnedBy | server/index.js:160-161 | The `user_id` filter keeps exactly the rows owned by the user |
| Tables.RemoveMatching | server/index.js:234-239 | The DELETE keeps exactly the rows failing the id/user filter, and removes at least one row exactly when some row passes it |
| Tables.Apply | server/index.js:182-190 | The SET clause keeps a row's id, owner and `created_at`, replaces title, code and language, and replaces `is_public` only when the clause carries it |
| Tables.ApplyIdempotent | server/index.js:182-190 | Applying the same SET clause twice gives the row one application gives |
| Tables.RunUpdate | server/index.js:182-190 | The UPDATE rewrites exactly the rows passing the id/user filter, leaves all others as they were, and RETURNING yields rows only when some row passes the filter, each one a new row that passes it |
| Tables.SortNewestFirst | server/index.js:161 | `ORDER BY created_at DESC` yields a permutation of its input in non-increasing `created_at` order |
| Tables.InsertByCreated | server/index.js:161 | Inserting into a newest-first sequence keeps it newest-first and adds exactly the one row |
| Js.Substring | chrome-extension/content.js:11 | `substring` returns the slice between its indices, in whichever order they come, when both are in range |
| Js.ToParam | server/index.js:133-134 | A query parameter never stores `undefined`: a missing value becomes NULL and any other value is kept |
| Server.Requested | server/index.js:173-190 | The SET clause an update sends: title, code and language as query parameters (a missing one becomes NULL), and `is_public` present exactly when the body carries it, then as `true` exactly for boolean true or the string 'true' |
| ServerProperties.HandlePreservesValid | server/index.js:29-247 | Every request keeps the table constraints: user ids and emails unique, snippet ids unique, and every id below its sequence's next value |
| ServerProperties.RegisterPreservesValid | server/index.js:41-51 | Registration keeps emails and user ids unique |
| ServerProperties.CreatePreservesValid | server/index.js:132-135 | Creating a snippet keeps snippet ids unique |
| ServerProperties.UpdatePreservesValid | server/index.js:182-190 | Updating never changes an id, so ids stay unique |
| ServerProperties.DeletePreservesValid | server/index.js:234-237 | Deleting keeps snippet ids unique |
| ServerProperties.RemoveMatchingKeepsIdsUnique | server/index.js:234-237 | The rows left by a DELETE keep unique ids |
| ServerProperties.OtherUsersRowsUntouched | server/index.js:120-237 | Whatever the request, the rows of every user the request does not act for are exactly as before |
| ServerProperties.OwnedBySameWhereOwned | server/index.js:182-190 | Changes confined to rows another user owns do not change a user's rows |
| ServerProperties.OwnedByRemoveOther | server/index.js:234-237 | Deleting for one caller never removes another user's rows |
| ServerProperties.OwnedByAppendOther | server/index.js:132-135 | Inserting a row for one caller does not change another user's rows |
| ServerProperties.ForeignRowIsNotFound | server/index.js:182-202 | Updating or deleting a row owned by someone else answers 404 and changes nothing |
| ServerProperties.RetryCannotRescue | server/index.js:194-199 | The retry without `is_public` uses the same id/user filter, so after a first statement that matched nothing it matches nothing either |
| ServerProperties.CreatedSnippetIsListed | server/index.js:132-164 | A snippet just created appears in its owner's list |
| ServerProperties.UpdatedSnippetIsListed | server/index.js:182-204 | After a successful update, the row the response returns is in the caller's list, so the list shows the revised title, code, language and visibility |
| ServerProperties.DeletedSnippetIsNotListed | server/index.js:229-242 | After a delete the caller's list holds no row with the deleted id |
| ServerProperties.DeleteTwice | server/index.js:234-241 | A second identical delete answers 404 and changes nothing |
| ServerProperties.UpdateIdempotent | server/index.js:172-204 | Sending the same update twice leaves the table as one send does |
| ServerProperties.FindUserAppended | server/index.js:73-82 | After appending a user with a fresh email, the email lookup finds that user |
| ServerProperties.RegisterThenLogin | server/index.js:48-109 | Registering and then logging in with the same credentials succeeds, and the returned token passes the guard as the newly registered user |
| ServerProperties.LoginTokenNamesUser | server/index.js:92-109 | A successful login's token verifies to a payload holding exactly the found user's id, and the guard yields that id |
| ServerProperties.LoginFailuresLookAlike | server/index.js:77-89 | An unknown email and a known email with a wrong string password give identical responses and stores (the two log lines differ) |
| ServerProperties.NonStringPasswordTellsAccountsApart | server/index.js:77-89 | A truthy non-string password answers 400 "Invalid credentials" for an unknown email but 500 "Server error" for a registered one, so the answer reveals whether an account exists |
| ServerProperties.EmailRegisteredOnce | server/index.js:37-43 | After a successful registration, registering the same email again answers 400 "User already exists" and adds no user |
| PasteSnippet.Splice | chrome-extension/content.js:7-11 | For an in-range selection the result keeps the text before the selection start, then holds exactly the code, then the text from the selection end; its length is the old length minus the selection plus the code |
| PasteSnippet.OnMessage | chrome-extension/content.js:1-19 | Nothing happens unless the action is PASTE_SNIPPET; for an INPUT or TEXTAREA the string assigned to `value` is `val[..start] + code + val[end..]`; a content-editable element gets an insertText, anything else a clipboard write |
| PasteSnippet.CollapsedSelectionInserts | chrome-extension/content.js:11 | A collapsed selection deletes nothing: removing the inserted code gives back the old value, and the length grows by the code's length |
| PasteSnippet.SpliceUndo | chrome-extension/content.js:11 | Splicing the replaced text back over the inserted code restores the original value |
| PasteSnippet.NoSelectionPrepends | chrome-extension/content.js:7-11 | A field whose selection indices are null gets the code prepended to its value |
| PasteSnippet.SelectionPastEndAppends | chrome-extension/content.js:11 | Selection indices at or past the end of the value append the code |

## Left out

- Postgres itself, the connection pool, and every 500 "Server error" path other than bcrypt rejecting a non-string password: the tables are in memory and statements cannot fail.
- Concurrency: each request is modelled as one atomic transition and requests as sequential. Two concurrent registrations of one email can both pass the SELECT (server/index.js:37) before either INSERT (server/index.js:48); the model cannot show that race, and `Valid`'s unique emails hold only for sequential requests.
- Logging: `console.log` and `console.error` are dropped. The two login failures log different lines (server/index.js:78 and 87), so `LoginFailuresLookAlike` covers the response and the store only.
- The `column "is_public"` catch-and-retry branches of create and update (server/index.js:139-153 and 207-224), which branch on a database error message; the table always has the column. The in-try retry of update (server/index.js:194-199) is modelled, and `RetryCannotRescue` shows it reuses the same filter.
- Postgres's conversion of parameters to column types: body values are stored and compared as the JSON values they are (only `undefined` becomes NULL), and JavaScript numbers are integers here (NaN and -0 are not modelled). A path id that is not an integer, which makes Postgres raise and the handler answer 500, is not modelled: the id is a natural number.
- bcrypt and JWT internals, the secret, the one-year expiry and the clock it is checked against: they are function values with the assumptions in `Crypto.Sound`. Expired and badly signed tokens are both "verification rejects". The throw inside the asynchronous `jwt.sign` callback is not modelled: signing always succeeds.
- Auth.Guard: a verified payload always has the `{ user: { id } }` shape login signs; a payload of another shape, which would crash the handlers at `req.user.id`, is not modelled.
- Tables.SortNewestFirst: Postgres leaves the order of rows with equal `created_at` unspecified; the model fixes one, and the contracts promise only the non-increasing order.
- Foreign keys between `snippets.user_id` and `users.id`, and `NOT NULL` constraints: the handlers do not check them and the model does not enforce them, so an update that sets title or code to NULL is stored as such.
- PasteSnippet.OnMessage: JavaScript indexes strings by UTF-16 code units, the model by Unicode scalar values, so outside the Basic Multilingual Plane the indices differ (for "😀x" with the caret at 2 the browser yields "😀Cx", the model "😀xC"). Assigning `value` also runs the browser's value sanitisation, which the model does not: an `<input type=text>` strips line breaks, an `<input type=number>` turns a non-number into "", and a TEXTAREA normalises CRLF to LF; the model states only the string assigned.
- The content script's DOM side effects beyond setting the value: `execCommand('insertText')`, the clipboard write and its alert appear only as effect tags. A non-string `code` (JavaScript would convert it to a string) is not modelled.
- The React client, the Cucumber/Selenium steps, the VS Code extension, and the extension's popup and background scripts: presentation and HTTP-client plumbing.

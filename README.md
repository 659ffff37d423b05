# Login service: a Dafny model of its register, login and token logic

The repository holds two near-duplicate Express services, `index.js` and
`server.js`. Each offers three endpoints over one user list:

- `/register` appends a user;
- `/login` checks a password and issues a signed token;
- `/protected` checks a bearer token.

This project models what the handlers decide, for both services side by
side, because their observable contracts differ:

- `index.js` rejects an empty or absent username or password; `server.js`
  checks neither.
- `index.js` stores a registration date with every user; `server.js` does not.
- `index.js` answers "Incorrect username" and "Incorrect password";
  `server.js` gives one message for both.
- `index.js` catches a failing bcrypt call and answers 500; in `server.js` the
  awaited call rejects with no `catch`, so the handler sends nothing
  (under Express 4; Express 5 would pass the rejection to its default error
  handler, which answers 500).

Modules, one per component:

- `Js` (js.dfy): the JavaScript semantics the handlers rely on. These are
  truthiness of an absent-or-string request field, `Array.prototype.find`
  (first match), and `String.prototype.split` on a one-character separator.
  The handlers never call `join`; `Join` is there to pin down what `Split`
  computes, and the two are proved inverse to each other.
- `Auth` (auth.dfy): the shared request, reply and claims types. It also holds
  `Crypto`, a bundle of the library calls (`bcrypt.hash`, `bcrypt.compare`,
  `jwt.sign`, `jwt.verify`) passed in as uninterpreted functions, and
  `TokenSegment`, the expression `authorization?.split(" ")[1]`.
- `IndexApp` (index_app.dfy) and `ServerApp` (server_app.dfy): the handlers of
  each service.

The user list that `loadUsers()` returns is the `users` field of a class
`UserStore`. Its method `Register` changes that field in place, as the source's
`users.push` does. It is proved equal to the pure function `Registration`, and
the lemmas are proved about that function. Login and the protected endpoint only
read, so they are functions. `Login` returns nothing but a reply, so it cannot
change the list.

Nothing is assumed about the library functions. Where a property needs one, it
is a hypothesis of the lemma that states the property. For example,
`RegisterLoginAccess` assumes that bcrypt accepts the password it hashed and that
the issued token verifies.

## Model

| member | source | states |
|---|---|---|
| `Js.Find` | index.js:46 | `find` gives undefined exactly when no element satisfies the predicate, and otherwise an element of the list that satisfies it |
| `Js.FindReturnsFirst` | index.js:81 | `find` returns the element at the first index that satisfies the predicate |
| `Js.Split` | index.js:104 | `split(" ")` always gives at least one part, and no part contains the separator |
| `Js.JoinSplit` | index.js:104 | joining the parts of a split with the separator gives back the original header |
| `Js.SplitJoin` | index.js:104 | splitting the join of separator-free parts gives back exactly those parts, so split and join are inverse |
| `Auth.TokenSegment` | index.js:104 | an absent header has no token segment, and a segment never contains a space |
| `Auth.TokenSegmentOfHeader` | index.js:104 | for any space-free first word, the token is the space-free word after the first space, whatever follows a further space; the scheme word is not checked |
| `Auth.TokenSegmentOfBearer` | server.js:59 | `"<scheme> <token>"` yields `<token>` for any space-free scheme word |
| `Auth.TokenSegmentShape` | index.js:104 | conversely, a header that yields a token is a space-free word, one space, the token, then nothing or a space-led remainder |
| `Auth.TokenSegmentNeedsSpace` | index.js:104-105 | a header yields a segment exactly when it contains a space |
| `Auth.TokenSegmentDoubleSpace` | index.js:104-105 | two spaces after the scheme word give an empty segment |
| `IndexApp.Lookup` | index.js:46 | the lookup by `===` finds nothing exactly when no record has the name, and otherwise a stored record with that name |
| `IndexApp.LookupFirst` | index.js:81 | the lookup returns the first record with the name |
| `IndexApp.Registration` | index.js:35-67 | absent or empty field (`Js.Present` false): 400 "Username and password are required", list unchanged. Name taken (case-sensitive): 400 "User already exists", list unchanged. Hash rejected: 500, list unchanged. Otherwise: 201, with exactly `{username, hash, registrationDate}` appended after the unchanged earlier records. Distinct usernames stay distinct |
| `IndexApp.UserStore.Register` | index.js:43-62 | the in-place `push` leaves the list and reply that `Registration` gives. The list is either unchanged or extended by one record with 201. Distinct usernames stay distinct |
| `IndexApp.UserStore.constructor` | index.js:43 | the store holds the loaded list |
| `IndexApp.RegisterTwice` | index.js:46-49 | after a successful registration, registering the same name again gives 400 and leaves the list as it is. The list then holds the name exactly once, in the new last record, whatever it held before; distinct usernames stay distinct |
| `IndexApp.Decide` | index.js:70-95 | the login stages: validation fails exactly on an empty or absent field (`Js.Present` false); the user is unknown exactly when no record has the name; success only for a known name, with token `sign(username)` |
| `IndexApp.Login` | index.js:70-100 | login always answers. 400 "Username and password are required" exactly on an empty or absent field (`Js.Present` false). 400 "Incorrect username" exactly when the name is unknown. A token is only issued with 200, only for a known name, and is `sign(username)` |
| `IndexApp.LoginChecksFirstRecord` | index.js:81-95 | for a known name, the comparison with the first matching record's hash decides: true gives 200 and `sign(username)`, false gives 400 "Incorrect password", rejection gives 500 |
| `IndexApp.Protected` | index.js:103-116 | /protected always answers 200 or 401. 401 "Token missing" exactly when the segment is absent or empty (`Js.Present` false). For a present token: 200 with its decoded claims exactly when it verifies, 401 "Invalid token" exactly when it does not |
| `IndexApp.ProtectedAnyScheme` | index.js:104-115 | for any scheme word, a non-empty space-free token and any space-separated remainder after it: 200 with the claims when verification succeeds, 401 "Invalid token" when it fails |
| `IndexApp.ProtectedTokenMissing` | index.js:104-107 | a header with no space, or with two spaces before the token, gives 401 "Token missing" |
| `IndexApp.RegisterLoginAccess` | index.js:35-116 | registering a new name gives 201, logging in with the same credentials gives 200 and its token, and `Bearer <token>` gives 200 with the claims. This holds given that bcrypt accepts its own hash, that the token has no space, and that it verifies |
| `ServerApp.Lookup` | server.js:32 | the lookup by `===` (where `undefined === undefined`) finds nothing exactly when no record has the name, and otherwise a stored record with that name |
| `ServerApp.LookupFirst` | server.js:47 | the lookup returns the first record with the name |
| `ServerApp.Registration` | server.js:28-40 | no field is checked. Name taken: 400, list unchanged. Absent password or rejected hash: nothing sent, list unchanged. Otherwise: 201, with exactly `{username, hash}` appended after the unchanged records. Distinct usernames stay distinct |
| `ServerApp.UserStore.Register` | server.js:30-39 | the in-place `push` leaves the list and reply that `Registration` gives. The list is either unchanged or extended by one record with 201. Distinct usernames stay distinct |
| `ServerApp.UserStore.constructor` | server.js:30 | the store holds the loaded list |
| `ServerApp.RegisterWithoutName` | server.js:29-36 | an empty or absent username is registered like any other. A second attempt with it, even without a password, gives 400 |
| `ServerApp.Decide` | server.js:43-53 | the login stages have no validation stage. The user is unknown exactly when no record has the name. An absent password for a known name is a rejected comparison. Success only for a known name with a password, with token `sign(username)` |
| `ServerApp.Login` | server.js:43-55 | every 400 reply is the one message "Nesprávné jméno nebo heslo", so an unknown name and a wrong password cannot be told apart. An unknown name always gets it. 200 only for a known name, with token `sign(username)` |
| `ServerApp.LoginChecksFirstRecord` | server.js:47-54 | for a known name, the comparison with the first matching record's hash decides: true gives 200 and `sign(username)`, false gives the same 400 as an unknown name, rejection sends nothing |
| `ServerApp.Protected` | server.js:58-68 | /protected always answers 200 or 401. 401 "Token chybí" exactly when the segment is absent or empty (`Js.Present` false). For a present token: 200 with its decoded claims exactly when it verifies, 401 "Neplatný token" exactly when it does not |
| `ServerApp.ProtectedAnyScheme` | server.js:59-67 | for any scheme word, a non-empty space-free token and any space-separated remainder after it: 200 with the claims when verification succeeds, 401 "Neplatný token" when it fails |
| `ServerApp.RegisterLoginAccess` | server.js:28-68 | register, login, then `Bearer <token>`: 201, then 200 with `sign(username)`, then 200 with the claims, under the same hypotheses as in index.js |

## Left out

- `loadUsers` / `saveUsers` (index.js:16-32, server.js:14-25) are left out. They read and write `users.txt` and parse and print JSON. The model hands the loaded list to the handlers and keeps the changed list in memory, so a failed write is not modelled. In index.js the write error is caught and logged (index.js:27-31), and the 201 is then sent anyway (index.js:62). In server.js the write has no `try` (server.js:24), so a failed write throws, the handler stops, and no 201 is sent.
- Request fields are modelled as absent or a string. Other JSON values (numbers, booleans, objects), and their JavaScript truthiness, are not modelled.
- bcrypt is left out behind `hash` and `compare`: uninterpreted functions that may reject. The random salt is not modelled: each call is given its own function, which can stand for a fresh salt. The cost factor 10 is not modelled either.
- `jwt.sign` and `jwt.verify` are left out behind uninterpreted functions. The signing secret and its insecure default `"default_secret"`, the 1-hour expiry, the clock and signature checking all sit inside `verify`. `sign` ignores the clock too: it depends on the username only, whereas `jwt.sign` writes the issue time (`iat`) into each token, so in the model two logins of the same user get the same token.
- `new Date().toISOString()` (index.js:56) is the parameter `now`.
- Express, CORS, body parsing, `app.listen`, the `PORT` setting and `console` logging are left out. Node's handling of header whitespace is left out too: the header reaches `TokenSegment` as given.
- In server.js a rejected bcrypt call (server.js:35, server.js:50) is modelled only as "no reply". This assumes Express 4, which leaves a rejected async handler alone; Express 5 passes it to its default error handler, which answers 500, and the source does not say which version it runs on. The rejection is unhandled, and since Node 15 an unhandled rejection ends the process by default. So a `/register` or `/login` request without a password may take the whole service down, depending on the Node version. The model does not capture this, nor what the framework does with the unanswered request.
- Concurrent requests are left out: two registrations interleaving their read-modify-write can lose one.
- `IndexApp.Login`: a `jwt.sign` that throws (index.js:94, inside the `try` whose `catch` at index.js:96-99 answers 500) is not modelled: `sign` is total, so the 500 reply comes only from a rejected comparison.

# Authentication example: access gate, user directory and login endpoint

This project models the core of a Next.js authentication example in Dafny and
proves properties of the model. The core has three parts.

- **The access gate** (`middleware.ts`) classifies each request path by prefix.
  - A path under none of `/api/restrict`, `/pages/restrict` or `/actions/restrict`
    passes untouched.
  - A restricted path with a valid session token goes on. The gate sets its `x-user`
    request header to `encodeURIComponent(JSON.stringify({ sub, email, role }))`.
  - A restricted path without a token is refused. API paths (under `/api/restrict`)
    get `401` with the JSON body `{"error":"Unauthorized"}`. Pages are redirected
    (`307`) to `/pages/auth/signin?callbackUrl=` followed by the encoded request URL.
- **The user directory** (`user-login.ts`) is a module-level array of user records,
  seeded with two users.
  - `userLogin` finds a user by e-mail and password.
  - `getUser` finds a user by e-mail.
  - `userAdd` pushes a new user whose password is empty.
  - In the model this is the class `UserDirectory.Directory`. Its `records` field is
    a `seq`, and its search methods are linear-search loops.
- **The login endpoint** (`POST /api/auth/login`, `route.ts`) issues tokens.
  - Bad credentials give `401 {"error":"Invalid credentials"}`.
  - A missing signing secret gives `500 {"error":"Server misconfigured"}`.
  - Otherwise it gives `{token}`: the payload `{ sub, name, email, role }` signed with
    a 60-second lifetime.

The gate's output relies on the standard functions it calls. Those are modelled
from their definitions:

- `encodeURIComponent` and `decodeURIComponent` (ECMA-262, sections 19.2.6.2–19.2.6.5),
  over UTF-8 as RFC 3629 defines it. See `uri_component.dfy`.
- `JSON.stringify` (ECMA-262, section 25.5.2) for flat objects of strings and `null`,
  with a reader in the manner of `JSON.parse`. See `json_text.dfy`.

This makes it possible to state the gate's main promise: the handler behind a
restricted path reads, from `x-user`, exactly the claims of the verified token,
whatever `x-user` header the client sent (`AccessGate.RestrictedHandlerSeesTokenClaims`).

The sign-in redirect carries the full request URL. `middleware.ts:34` encodes
`req.url`, which is the absolute URL with its origin, not only the path.
`SignInLocation` encodes `Url(req)`, and `RedirectCallback` proves that decoding the
callback gives it back.

Files:

| file | contents |
|---|---|
| `wrappers.dfy` | `Option` |
| `hex_digits.dfy` | hexadecimal digits of both cases |
| `uri_component.dfy` | UTF-8, percent-encoding, the decoder, the round trip |
| `json_text.dfy` | JSON text of flat objects, its reader, the round trip, last-key-wins lookup |
| `access_gate.dfy` | the gate and its security properties |
| `user_directory.dfy` | the user directory class and its search / append properties |
| `login_route.dfy` | the login endpoint |

## Model

| member | source | states |
|---|---|---|
| AccessGate.Middleware | next-09-auth/next-autenticacao/src/middleware.ts:5-43 | The request passes untouched iff its path is not restricted. It goes on with new headers iff the path is restricted and a token is present. It is answered with 401, `content-type: application/json` and the `{error:"Unauthorized"}` body iff the path is restricted, there is no token, and it is an API path. It is redirected with 307 to the sign-in location iff the path is restricted, there is no token, and it is not an API path. With new headers, `x-user` holds the encoded claims and every other header is unchanged, both in presence and in value. |
| AccessGate.SomeStartsWith | next-09-auth/next-autenticacao/src/middleware.ts:8-15 | `prefixes.some(p => path.startsWith(p))` is true iff some prefix in the list is a prefix of the path. |
| AccessGate.ApiCallIsRestricted | next-09-auth/next-autenticacao/src/middleware.ts:15-18 | Every API-style path is also restricted, so the API/page distinction only matters behind the gate. |
| AccessGate.OpenPathKeepsHeaders | next-09-auth/next-autenticacao/src/middleware.ts:14-15 | On an open path, the handler receives the client's headers unchanged, whatever the token. |
| AccessGate.RestrictedHandlerSeesTokenClaims | next-09-auth/next-autenticacao/src/middleware.ts:37-42 | If a handler behind a restricted path is reached at all, a token was present, and decoding its `x-user` header gives exactly that token's claims. This holds whatever headers the client sent. |
| AccessGate.UserHeaderRoundTrip | next-09-auth/next-autenticacao/src/middleware.ts:37-40 | Reading the header the way a handler does (`api/restrict/ola/[slug]/route.ts`, line 9), with `JSON.parse(decodeURIComponent(h))` and then `sub`, `email` and `role`, gives back the claims the gate wrote. This covers claims that are undefined (omitted from the JSON) or `null`. |
| AccessGate.RedirectCallback | next-09-auth/next-autenticacao/src/middleware.ts:32-34 | For a restricted page without a token, the redirect goes to `origin + "/pages/auth/signin?callbackUrl=" + cb`. Decoding `cb` gives the absolute request URL, and `cb` holds only unescaped characters, `%` and hexadecimal digits. |
| AccessGate.UnauthorizedBodyText | next-09-auth/next-autenticacao/src/middleware.ts:26-29 | The 401 body is exactly the text `{"error":"Unauthorized"}`. |
| AccessGate.ScenarioOpenRoot | next-09-auth/next-autenticacao/src/middleware.ts:14-15 | A request for `/` passes untouched, with or without a token. |
| AccessGate.ScenarioApiWithoutToken | next-09-auth/next-autenticacao/src/middleware.ts:23-30 | `/api/restrict/ola/Brasil` without a token is answered with 401, the JSON content type and the unauthorized body. |
| UriComponent.Utf8 | next-09-auth/next-autenticacao/src/middleware.ts:40 | The UTF-8 form of a character is 1 to 4 bytes long, and it is a single byte exactly for characters below U+0080. |
| UriComponent.DecodeEncode | next-09-auth/next-autenticacao/src/middleware.ts:40 | `decodeURIComponent(encodeURIComponent(s)) == s` for every string of Unicode scalar values. |
| UriComponent.EncodeChars | next-09-auth/next-autenticacao/src/middleware.ts:34 | The encoded text contains only unescaped characters, `%` and hexadecimal digits. |
| UriComponent.NoSeparators | next-09-auth/next-autenticacao/src/middleware.ts:34 | No `&`, `=`, `#`, `?` or space appears in the encoded text, so nothing in the URL can end the `callbackUrl` parameter early. |
| UriComponent.SlashEncoded | next-09-auth/next-autenticacao/src/middleware.ts:34 | `/` is written as `%2F`, with upper-case hexadecimal digits. |
| UriComponent.NonAsciiEncoded | next-09-auth/next-autenticacao/src/middleware.ts:40 | A non-ASCII character such as `á` is written as the escapes of its UTF-8 bytes, `%C3%A1`. The same holds for a non-ASCII `email` or `role` claim written into `x-user`. |
| UriComponent.EncodeSegment | next-09-auth/next-autenticacao/src/middleware.ts:34 | A slash followed by a segment of unescaped characters is written as `%2F` followed by the segment unchanged. |
| UriComponent.EncodeAppend | next-09-auth/next-autenticacao/src/middleware.ts:34 | Encoding distributes over concatenation. |
| UriComponent.EncodeUnreserved | next-09-auth/next-autenticacao/src/middleware.ts:34 | A string made only of letters, digits and `-_.!~*'()` is its own encoding. |
| JsonText.ParseQuoted | next-09-auth/next-autenticacao/src/middleware.ts:40 | Reading an escaped string literal back gives the original string and the text after the closing quote. |
| JsonText.ParseObjectText | next-09-auth/next-autenticacao/src/middleware.ts:40 | `JSON.parse(JSON.stringify(o))` gives back the members of `o`, in order. |
| JsonText.Lookup | next-09-auth/next-autenticacao/src/middleware.ts:40 | Reading a key of the parsed `x-user` object (as `user?.email` does in `api/restrict/ola/[slug]/route.ts`, line 10) finds a value iff some member has that key. |
| JsonText.LookupAppend | next-09-auth/next-autenticacao/src/middleware.ts:40 | When keys repeat in the parsed object, the later member wins, as it does in `JSON.parse`. |
| JsonText.EscapePlain | next-09-auth/next-autenticacao/src/middleware.ts:26 | A string with no quote, no backslash and no control character is written unchanged between the quotes. |
| JsonText.SingleMemberText | next-09-auth/next-autenticacao/src/middleware.ts:26 | A one-member object whose key and value need no escaping is written as `{"k":"v"}`. |
| UserDirectory.FirstMatch | next-09-auth/next-autenticacao/src/app/actions/user-login.ts:10 | `find` gives the index of a matching record with no match before it, or nothing when no record matches. |
| UserDirectory.LoginResult | next-09-auth/next-autenticacao/src/app/actions/user-login.ts:5-17 | `userLogin` gives nothing when the e-mail or the password is empty. It gives a user iff some record has both that e-mail and that password, and then the user is the first such record without its password. |
| UserDirectory.UserByEmail | next-09-auth/next-autenticacao/src/app/actions/user-login.ts:19-31 | `getUser` gives nothing for an empty e-mail. It gives a user iff some record has that e-mail, and then the user is the first such record without its password. |
| UserDirectory.Directory.constructor | next-09-auth/next-autenticacao/src/app/actions/user-login.ts:41-44 | The directory starts as the two seeded users. |
| UserDirectory.Directory.Login | next-09-auth/next-autenticacao/src/app/actions/user-login.ts:5-17 | The linear search returns what `LoginResult` specifies for the current records. |
| UserDirectory.Directory.GetUser | next-09-auth/next-autenticacao/src/app/actions/user-login.ts:19-31 | The linear search returns what `UserByEmail` specifies for the current records. |
| UserDirectory.Directory.Add | next-09-auth/next-autenticacao/src/app/actions/user-login.ts:33-39 | `userAdd` appends one record with the empty password, leaves the earlier records unchanged, returns its public fields, and keeps the directory reachable. |
| UserDirectory.FirstMatchAppend | next-09-auth/next-autenticacao/src/app/actions/user-login.ts:33-39 | After a push, `find` returns the earlier match if there is one, otherwise the pushed record if it matches. |
| UserDirectory.AddThenGetUser | next-09-auth/next-autenticacao/src/app/actions/user-login.ts:19-39 | After `userAdd` with a non-empty e-mail, `getUser` of that e-mail finds either the earlier user with that e-mail or the one just added. |
| UserDirectory.AddLeavesLogin | next-09-auth/next-autenticacao/src/app/actions/user-login.ts:5-39 | A record with the empty password never changes what `userLogin` returns. |
| UserDirectory.LoginOnlySeeded | next-09-auth/next-autenticacao/src/app/actions/user-login.ts:5-44 | In every directory the program can reach, `userLogin` answers exactly as it does for the two seeded users. Added users can never log in. |
| UserDirectory.SeedLogins | next-09-auth/next-autenticacao/src/app/actions/user-login.ts:41-44 | The seeded credentials log in as the seeded users, and an empty password is refused. |
| LoginRoute.Post | deploy-to-vercel/next-autenticacao/src/app/api/auth/login/route.ts:5-34 | Failed credentials give 401 "Invalid credentials", whatever the secret. With valid credentials, a missing or empty secret gives 500 "Server misconfigured". A token is issued iff the credentials are valid and the secret is usable, and then the status is 200 and the token is the signer applied to `{sub: id, name, email, role}`, the secret and 60 seconds. No other status is possible. |
| LoginRoute.PostSignsOnlyMatchingRecord | deploy-to-vercel/next-autenticacao/src/app/api/auth/login/route.ts:8-31 | When the endpoint uses `userLogin`, a token is issued only for a non-empty password and a record whose e-mail and password equal the request's, and it signs that record's public fields. |
| LoginRoute.PostSignsOnlySeeded | deploy-to-vercel/next-autenticacao/src/app/api/auth/login/route.ts:8-31 | In every reachable directory, only the two seeded users can ever receive a token. |

## Left out

- Session-token verification (`getToken` with `NEXTAUTH_SECRET`, `middleware.ts:21`) belongs to the token library. Its verdict is the `token` argument of `Middleware`: `None` models `getToken` returning null, which happens for a missing or invalid token.
- A `getToken` call that throws is left out. The gate has no `try`/`catch` around it, so the error leaves `middleware` instead of being treated as a missing token.
- JWT signing (`encode`, `route.ts:27-31`) belongs to the token library. It is the function-valued argument `encode` of `Post`.
- Reading the request body (`request.json()`, `route.ts:6`) is left out. `Post` takes the result of `userLogin` as its argument. A body that is not JSON, or whose fields are not strings, is not modelled. `LoginRoute.PostSignsOnlyMatchingRecord` composes `Post` with the directory's `LoginResult`.
- The `config.matcher` list (`middleware.ts:46-48`) is routing configuration for the framework. The model applies the gate to every path. A path such as `/api/restrictions` starts with a restricted prefix but lies outside the matcher. The framework would not run the gate for it, while the model classifies it as restricted.
- `new URL(..., req.url)` (`middleware.ts:34`): the model resolves the relative location against the request's origin by string concatenation, `origin + "/pages/auth/signin?callbackUrl=" + …`. The URL parser's normalisation is not modelled. The parser normalises the origin. It also re-escapes `'` in the query of an `http`/`https` URL, because `encodeURIComponent` leaves `'` unescaped. For a request URL containing `'`, the real `Location` header therefore has `%27` where `SignInLocation` keeps `'`. Both forms decode to the same URL.
- Header names are taken as already lower-case, as the `Headers` object keeps them. Case folding is not modelled.
- UriComponent.Encode and UriComponent.Decode work only on strings of Unicode scalar values. A lone surrogate, for which `encodeURIComponent` throws `URIError`, cannot occur in a Dafny `string`, so that error path is not modelled.
- `JsonText.ParseObject` reads the whitespace-free flat objects of strings and `null` that `JSON.stringify` writes here. Whitespace, numbers, booleans, arrays and nested objects, which `JSON.parse` also accepts, are not read.
- `userAdd` takes its identifier from the clock (`new Date().getTime().toString()`, `user-login.ts:34`). In the model it is the `id` parameter of `Directory.Add`.
- The `async`/`Promise` wrapping of the directory functions and of the gate is not modelled.
- The GitHub / OAuth sign-in flow, `requireUser`, the `obterData` server action and the UI pages are outside this model.

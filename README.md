# A verified model of a small file- and text-sharing server

The server (`server.js`, a single Bun script) keeps uploaded files in one directory and
text notes in another, and guards both behind a password login. A login creates an
in-memory session bound to the client's ip and user agent. The server hands out the
session id in an `HttpOnly` cookie, and later requests must present it. Two routes
serve notes without a session: a note marked open can be read at `/txt/<name>` without a session, and an open
note named `<base>.html` is served as HTML at `/h/<base>`. Every caller-supplied name
passes through one sanitizer before the server builds a path from it. At startup the
server picks its port and whether to use TLS.

The model has one Dafny module per concern:

- `Strings`: JavaScript's `startsWith`, `endsWith`, `includes` and `split`, and the
  truthiness of an optional header value.
- `Sanitizer`: the three steps of `sanitize`. Unsafe characters become `_`, `..`
  tokens are deleted without overlap, and the result is cut to 100 characters.
- `Headers`: the client ip and user agent, the session id that the `sid=` regex
  extracts from the Cookie header, the Accept check, and the Set-Cookie value.
- `Sessions`: the session table as a class. `Login` inserts, `Auth` checks and
  slides the expiry, and `Sweep` is the cleanup timer's loop.
- `Texts`: the text store as a class holding the metadata map, the metadata file and
  the documents. The public and authenticated reads, the HTML read and the listing
  are pure functions.
- `Uploads`: the upload directory as a class. The 50 MiB guard, the dot-file-free
  listing and the download are pure functions.
- `Router`: the `fetch` handler.
  - `Route` is its ordered chain of tests. The public `/txt/` read falls through when
    the note is not open, the gate comes at line 173, and the chain ends in a 404.
  - `Serve` is one request as a function of the state.
  - `Server.Fetch` is the imperative if-chain calling the store methods. It is proved
    to produce exactly what `Serve` describes.
- `Startup`: the port and TLS decision, with the output of `ss` and the result of
  `certbot` as inputs.

The clock (`Date.now()`) and the fresh session id (`randomUUID()`) are parameters. The
disk is modelled as maps: document name to `{content, open}` and file name to bytes.

Two behaviours of `server.js` are worth knowing before reading the model:

- `auth` never compares a session's `expires` with the clock, so an expired session
  keeps working until the next sweep (`AuthIgnoresExpiry`).
- `.` is a safe character, so `..` survives the first replace and is deleted by the
  second (`TraversalExample`).

## Model

| member | source | states |
|---|---|---|
| Strings.StartsWith | server.js:141 | `startsWith`: the first characters of the string are the prefix |
| Strings.EndsWith | server.js:163 | `endsWith`: the last characters of the string are the suffix |
| Strings.Contains | server.js:147 | `includes`: the needle starts at the first position or occurs in the rest |
| Strings.ContainsIffOccurs | server.js:147 | `includes` (the left-to-right scan) holds exactly when the needle occurs at some offset |
| Strings.Split | server.js:142 | `split('/')` always yields at least one piece, and no piece contains the separator |
| Strings.JoinSplit | server.js:142 | splitting loses nothing: joining the pieces gives the path back |
| Strings.SplitAfterWord | server.js:142 | a separator-free word followed by the separator is the first piece, and the rest splits on its own |
| Strings.SplitWithoutSeparator | server.js:142 | a string without the separator splits into itself alone |
| Sanitizer.IsSafeChar | server.js:93 | the character class `[A-Za-z0-9_.-]`: letters, digits, `_`, `.` and `-` |
| Sanitizer.ReplaceUnsafe | server.js:93 | the first replace keeps the length and maps each character outside `[A-Za-z0-9_.-]` to `_` and every other character to itself |
| Sanitizer.StripDotDot | server.js:93 | the second replace never lengthens its input and leaves no `..` behind |
| Sanitizer.Truncate | server.js:93 | `slice(0, n)` is the first `n` characters, or all of a shorter string |
| Sanitizer.Sanitize | server.js:93 | a sanitized name has only safe characters, at most 100 of them, and no `..` |
| Sanitizer.StripKeepsSafe | server.js:93 | deleting `..` keeps a safe string safe |
| Sanitizer.StripKeepsNonDots | server.js:93 | the second replace deletes only dots: the other characters survive in order |
| Sanitizer.StripRemovesPairs | server.js:93 | dots are deleted two at a time |
| Sanitizer.StripFixedPoints | server.js:93 | the second replace changes a string exactly when it contains `..` |
| Sanitizer.SanitizeFixedPoints | server.js:93 | `sanitize` leaves a name unchanged exactly when it is safe, has no `..` and is at most 100 long |
| Sanitizer.SanitizeIdempotent | server.js:93 | sanitizing twice is sanitizing once |
| Sanitizer.TraversalExample | server.js:93 | `../../x` becomes `__x`: the slashes are replaced, then the dot pairs deleted |
| Sanitizer.DotRunExample | server.js:93 | matches do not overlap: `a...b` becomes `a.b`, and `....` becomes empty |
| Headers.Get | server.js:82 | `headers.get` returns a value exactly when the header is present |
| Headers.OrElse | server.js:85-86 | `v \|\| fallback` gives the value when it is present and non-empty, and the fallback otherwise |
| Headers.ClientIp | server.js:85 | the ip is `x-forwarded-for` when truthy, else `x-real-ip` when truthy, else `unknown`, and never empty |
| Headers.UserAgent | server.js:86 | the user agent is the header when present and non-empty, and the empty string otherwise |
| Headers.SidMatchAt | server.js:82 | the regex matches at an offset when `sid=` starts there and is followed by a character other than `;` |
| Headers.ValueRun | server.js:82 | the capture `[^;]+` is the longest `;`-free prefix and stops at the first `;` |
| Headers.SidFrom | server.js:82 | the regex finds no sid exactly when no offset matches; otherwise it finds the capture at the leftmost match, and that capture is non-empty and free of `;` |
| Headers.CookieSid | server.js:82 | a sid comes only from a present Cookie header, and it is non-empty and free of `;` |
| Headers.ValueRunStopsAtSemicolon | server.js:82 | a `;`-free value followed by `;` or by nothing is captured whole |
| Headers.SidRoundTrip | server.js:82 | a cookie that begins with `sid=<sid>` yields exactly that sid |
| Headers.CookieAttributes | server.js:124 | the cookie attributes `HttpOnly`, `Path=/`, `Max-Age=1800`, `SameSite=Lax`, in that order, then `Secure` under TLS |
| Headers.SetCookie | server.js:124 | the cookie value is `sid=<sid>` followed by `; HttpOnly; Path=/; Max-Age=1800; SameSite=Lax`, then `; Secure` under TLS |
| Headers.WantsJson | server.js:146-147 | the JSON answer is chosen exactly when an Accept header is present and contains `application/json` somewhere |
| Headers.SetCookieRoundTrip | server.js:124 | the Set-Cookie value of a login, read back by the sid regex, yields the same sid |
| Headers.AttributeTextAppend | server.js:124 | the attribute text of two attribute lists is the concatenation of their texts |
| Headers.SetCookieSecureIffTls | server.js:124 | the cookie ends with `; Secure` exactly when the server runs TLS |
| Headers.NamePrefixQuirk | server.js:82 | the regex is not anchored to the cookie name: an earlier `xsid=a` supplies the sid `a` |
| Sessions.Authenticates | server.js:81-87 | `auth` accepts exactly when the cookie yields a sid that is in the table with the presented ip and user agent |
| Sessions.Unexpired | server.js:272 | a sweep keeps the entries whose expiry is not before `now` |
| Sessions.Refreshed | server.js:88 | a successful `auth` keeps the same set of session ids |
| Sessions.SessionRegistry.constructor | server.js:18 | the session table starts empty |
| Sessions.SessionRegistry.Login | server.js:119-123 | on a password match the fresh sid maps to the request's ip, user agent and `now` plus 30 minutes; otherwise the table is unchanged |
| Sessions.SessionRegistry.Auth | server.js:81-90 | the result is the cookie, membership and fingerprint check on the old table; on success only that session's expiry moves, and on failure nothing changes |
| Sessions.SessionRegistry.Sweep | server.js:269-274 | the loop leaves exactly the entries whose expiry is not before `now`, unchanged |
| Sessions.ReturnedCookiePresentsSid | server.js:82 | a browser returning the cookie it was given presents that sid |
| Sessions.LoginThenAuthenticates | server.js:83-87 | right after a login, the new sid authenticates exactly when the ip and user agent match those of the login |
| Sessions.AuthIgnoresExpiry | server.js:81-90 | moving a session's expiry, even into the past, does not change what `auth` decides |
| Sessions.RefreshedStable | server.js:135-136 | a second `auth` right after a successful one accepts again and leaves the table as the first left it |
| Sessions.UnexpiredExactly | server.js:272 | after a sweep an id remains exactly when its expiry is not before `now`, with its entry unchanged |
| Sessions.SweptSessionFails | server.js:269-274 | a session that expired before the sweep no longer authenticates after it |
| Sessions.SweepsCompose | server.js:269-274 | sweeping at an earlier time and then at a later one is the same as sweeping at the later one |
| Texts.FlagOf | server.js:221 | the stored flag is 1 exactly when `open` is true |
| Texts.Negotiate | server.js:146-156 | an Accept naming `application/json` gets the whole stored document; anything else gets its content |
| Texts.IsPublic | server.js:144 | a note is public when its flag is 1 and its document exists |
| Texts.PublicText | server.js:141-158 | the public read answers exactly when the sanitized name's flag is 1 and its document exists, with the negotiated document |
| Texts.HtmlBase | server.js:163 | a trailing `.html` is removed and other names are kept |
| Texts.HtmlKey | server.js:163-164 | the note the HTML route serves always ends in `.html` |
| Texts.PublicHtml | server.js:161-170 | the HTML read yields the content of the open, existing note `<base>.html`, and a 404 otherwise |
| Texts.ReadText | server.js:227-244 | the authenticated read finds exactly the existing documents, regardless of the flag |
| Texts.ListTexts | server.js:247-252 | the listing holds exactly the metadata entries, each with its flag |
| Texts.TextStore.Load | server.js:15 | the metadata starts as the stored metadata file, or empty when there is none |
| Texts.TextStore.Save | server.js:217-224 | the document and flag are written under the sanitized name, and the metadata file becomes the new metadata |
| Texts.TextStore.Delete | server.js:255-262 | the document and the metadata entry are removed, and the metadata file is rewritten |
| Texts.SaveThenRead | server.js:217-244 | after a save, the authenticated read returns the saved document, and the public read answers exactly when it was saved open |
| Texts.DeleteThenRead | server.js:255-262 | after a delete, neither read finds the name and the listing has no entry for it |
| Texts.ListingMatchesMeta | server.js:248 | the listing has exactly one entry per metadata key |
| Texts.HtmlKeyOfBoth | server.js:163 | for a name that does not end in `.html`, the name and the name with `.html` appended both map to the note `<base>.html` |
| Texts.HtmlRouteIgnoresSuffix | server.js:161-170 | `/h/<base>` and `/h/<base>.html` give the same answer when `base` is safe, `<base>.html` has no `..` and fits in 100 characters, and `base` does not itself end in `.html` |
| Texts.SaveThenPublicHtml | server.js:161-170 | saving an open note named `<base>.html` publishes its content on the HTML route |
| Uploads.UploadAccepted | server.js:179 | an upload passes the guard when a file is present and is at most 50 MiB |
| Uploads.ListFiles | server.js:188-198 | the listing holds exactly the files whose names do not start with `.`, each with its size |
| Uploads.Download | server.js:201-206 | a download finds exactly the files stored under the sanitized name, with their bytes |
| Uploads.UploadStore.constructor | server.js:6-12 | the upload directory starts with the files already on disk |
| Uploads.UploadStore.Upload | server.js:176-185 | a missing file or one over 50 MiB is rejected and nothing changes; otherwise the bytes are stored under the sanitized name, replacing any earlier file |
| Uploads.UploadStore.Delete | server.js:209-214 | the file under the sanitized name is gone afterwards, and a missing file is not an error |
| Uploads.UploadLimit | server.js:179 | exactly 50 MiB is accepted, one byte more is rejected, and so is a missing file |
| Uploads.UploadThenList | server.js:182-198 | an upload is listed under its sanitized name with its size unless that name starts with a dot, and it downloads back unchanged |
| Uploads.DeleteIdempotent | server.js:209-214 | a second delete changes nothing; afterwards the file neither downloads nor is listed |
| Startup.SelectListener | server.js:28-76 | TLS is on exactly for port 443; port 8081 is used exactly when port 80 is taken; TLS is on exactly when port 80 is free and either certificates exist or certbot ran with both DOMAIN and EMAIL set and succeeded; otherwise the port is 80 |
| Startup.CertbotSucceeded | server.js:47-61 | certbot counts as succeeded when it exits with code 0 and both certificate files are copied |
| Startup.Port80Taken | server.js:25 | port 80 counts as taken when the `ss` output contains `:80` |
| Startup.StartupListener | server.js:20-76 | from the `ss` output, the certificate check, DOMAIN, EMAIL and certbot's exit code and copy: port 8081 exactly when the output contains `:80`; TLS exactly when that is absent and certificates exist or certbot exited 0 with both files copied |
| Startup.CertbotOnlyWhenNeeded | server.js:31-38 | the certbot outcome matters only when port 80 is free, no certificates exist, and DOMAIN and EMAIL are both set |
| Startup.Port8080CountsAsTaken | server.js:25 | the `:80` substring test also fires on a listener on port 8080 |
| Router.Segment | server.js:142 | the name segment is the third piece of `split('/')`, or empty when there is none, and it never contains `/` |
| Router.SegmentOfRoute | server.js:142 | on `/<word>/<rest>` the name segment is `rest` up to its first `/` |
| Router.Route | server.js:110-173 | the public text read is chosen only when it answers; past the gate the request is refused exactly when `auth` fails |
| Router.ProtectedRoute | server.js:176-264 | every test after the gate picks a handler behind the gate and never the refusal |
| Router.RoutePathsDisjoint | server.js:110-255 | a path with one of the route prefixes is none of the exact paths, and the prefixes exclude one another |
| Router.PrivateTextFallsThrough | server.js:141-173 | a `GET /txt/` that the public read does not answer is refused without a session and reaches the authenticated read with one |
| Router.OpenTextIsPublic | server.js:141-158 | an open note is answered by the public read even for a logged-in caller |
| Router.HtmlNeverGated | server.js:161-170 | a `GET /h/` is always answered by the HTML read, never by the gate |
| Router.ServeAuthenticated | server.js:176-264 | no handler behind the gate touches the session table |
| Router.Serve | server.js:104-265 | one request is the handler the route tests pick, run on the state before the request |
| Router.Handle | server.js:110-264 | each handler's new state and response: login inserts or answers 401, the session check slides or answers 401, the public reads answer from the state, and the handlers behind the gate run after `auth` slides the session |
| Router.HandleKeepsMetaPersisted | server.js:217-262 | every request keeps the metadata file equal to the metadata in memory once it exists |
| Router.LoginInsertsSession | server.js:117-123 | a successful login inserts the fresh id bound to the request's fingerprint |
| Router.AcceptedAuthSlides | server.js:135-173 | an accepted `auth` slides only the presented session's expiry |
| Router.SessionsOtherwiseKept | server.js:110-173 | the index, the public reads, a failed login and every request without an accepted session (other than a login) leave the session table unchanged |
| Router.AuthenticatedFiles | server.js:176-214 | behind the gate, the upload directory changes only by an accepted upload or a file delete |
| Router.AuthenticatedTexts | server.js:217-262 | behind the gate, the text store changes only by a save or a delete, each of which rewrites the metadata file |
| Router.HandleFiles | server.js:176-214 | over the whole handler, the upload directory changes only by an accepted upload or a file delete; an upload answers 400 `Bad Request` exactly when it is not accepted and `OK` otherwise, and a file delete always answers `OK` |
| Router.HandleTexts | server.js:217-262 | over the whole handler, the text store changes only by a save or a delete, and both always answer `OK` |
| Router.HandleKeepsMetaBacked | server.js:217-262 | if every metadata key has a document before a request, it still does after: a save writes both and a delete removes both |
| Router.TextDeleteRoute | server.js:255 | the text delete is chosen only for an authenticated `DELETE`, whatever the public read would say |
| Router.TextDeleteIdempotent | server.js:255-262 | repeating a text delete answers `OK` again and leaves the state as the first delete left it |
| Router.HandleReads | server.js:141-252 | each reading handler answers with the matching read of the state before the request, or with a 404 where that read finds nothing |
| Router.HandleLoginAndCheck | server.js:117-137 | a login answers 200 with the session cookie on a password match and 401 `Unauthorized` without a cookie otherwise; the session check answers `OK` exactly for an accepted session; no other handler sets a cookie |
| Router.AnonymousOnlyLogsIn | server.js:173 | without a valid session a request changes nothing unless it is a login, and every protected request gets a 401 |
| Router.TextPath | server.js:141-142 | a `/txt/<segment>` path names `segment` when the segment contains no `/` |
| Router.LoginStep | server.js:117-131 | after a successful login, the client presenting the new cookie is authenticated, and the documents, the metadata, the metadata file and the upload directory are untouched |
| Router.SaveStep | server.js:217-224 | an authenticated save stores the document under the sanitized name and keeps the client authenticated |
| Router.AnonymousReadStep | server.js:141-173 | an anonymous `GET /txt/` shows an open note, is refused otherwise, and changes nothing |
| Router.PrivateThenPublic | server.js:104-265 | a full walk-through: log in, save a closed note, get an anonymous 401, save it open, and the anonymous read succeeds |
| Router.Server.constructor | server.js:15-18 | the server starts with no sessions, the stored metadata (or none) and the files already on disk |
| Router.Server.Fetch | server.js:104-265 | the if-chain, with its real store calls and its double `auth` in `/auth`, produces exactly the state and response of `Serve` |
| Router.Server.FetchAuthenticated | server.js:176-264 | the chain after the gate produces exactly what `ServeAuthenticated` describes and leaves the sessions alone |

## Left out

- Disk and process I/O are replaced by maps and by inputs. This covers the `fs` calls, `spawn` of `ss` and `certbot`, certificate copying and `console.log`. A filesystem error other than a missing file is not modelled. A name that sanitizes to the empty string (an upload named `..`, say) or to `.` names the directory itself, so the source's write fails; the model instead stores the file under that name, and lists it when the name is empty.
- `Bun.serve`, the TLS handshake and the contents of `/app/index.html` are not modelled. The index response is a marker.
- JSON parsing and serialisation are not modelled. Request bodies arrive parsed; a malformed body or `.meta.json` would throw, and the model has no such case.
- The `content` and `open` fields of a saved note are a string and a boolean. In the source they are arbitrary JSON values, and `open` is judged by truthiness.
- Metadata flags are 0 or 1, as this program writes them. A hand-edited `.meta.json` with other values, or a key such as `__proto__`, is not modelled.
- An upload form field that is a string rather than a file is not modelled. It has no `size` or `name`, and the handler would throw.
- `path` is `url.pathname` as the URL parser returns it: percent escapes are kept (so `/txt/hello%20world` names the note `hello_20world`) and dot segments are already resolved; the parser itself is not modelled. Header names are given in lower case, as `headers.get` treats them case-insensitively.
- This concerns names that reach `sanitize` unescaped, that is upload file names (`file.name`); path segments arrive percent-escaped and so are ASCII. A JavaScript string is a sequence of UTF-16 code units; the model uses one `char` per Unicode scalar value. A character outside the Basic Multilingual Plane is two units in JavaScript and so becomes `__`, where the model gives one `_`. For the same reason `slice(0, 100)` counts UTF-16 units in JavaScript and scalar values here, and a lone surrogate, legal in a JavaScript string, has no Dafny counterpart.
- The listings are sets. The order in which `readdirSync` and `Object.entries` return entries is not modelled, and `readdirSync` is taken to return only files.
- Timer concurrency (`setInterval` running between requests) is not modelled. `Sweep` is one run of the timer, and `Date.now()` is taken once per request. Each request is taken as one atomic step, although the handlers `await` between the gate and their effect (server.js lines 118, 177, 183 and 219), where other requests or the sweep could run.
- `SameSite` is not part of section 4.1 of RFC 6265. It is only written out, as the login handler writes it.

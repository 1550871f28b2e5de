# A verified model of the myp IP-display server

The server is a plain Node.js HTTP server (`src/server.js`). It serves a
page and its static assets. When the page's script `/public/client.js` is
fetched, the server makes a one-time API key and puts it into the script.
A call to `/api/ip` that presents the key gets back the caller's IP address
with every character wrapped in its own `<i>` element. The key is then
deleted, so a second call with it is refused.

This project models, in Dafny:

- **The key store** (`ApiKeys`). The process-wide `apiKeys` map is a class
  `ApiKeyStore` with a `keys: map<string, KeyEntry>` field and the two
  handlers `ServeClientScript` and `ServeApiRequest`. Their specifications
  are pure functions (`Remember`, `Forget`, `ApiAnswer`, `ScriptAnswer`).
  The object invariant is that every entry has `used == false`, because
  nothing in the server ever sets the flag. Over any sequence of calls
  (`After`, `Final`, `Successes`), a key that is not issued again gets at most
  one successful answer. A non-empty key that is in the store gets exactly
  one if it is presented at all.
- **Per-character wrapping** (`Markup`). `WrapChars` gives `<i>c</i>` for
  each character, eight characters per cell. `UnwrapChars` reads the body
  back, and the two are proved inverse in both directions (`UnwrapWrap`,
  `WrapUnwrap`).
- **Caller-IP selection** (`ClientIp`, using `Strings`). JavaScript's
  `split`, `join` and `trim` are written out, with `Split`/`Join` proved
  inverse. The two IPv4 patterns are hand-written predicates. `SelectIp`
  picks the first matching candidate, else the first candidate, else `''`.
- **Static files** (`StaticFiles`). This covers the MIME table with its
  `application/octet-stream` fallback, the allow-list of roots, and the
  200/403/404 answers.
- **Routing** (`Router`) and **the request handler** (`Server.Handle`).
  Routing is the fixed-order if-chain from the URL path to a route and a
  file path.

Node's `path.resolve`, `path.join` and `path.extname`, the file system and
the random key are inputs (`Server.Host`, `freshKey`). Responses are a
datatype `(status, contentType, cacheControl, body)`.

Facts about the code that shape the model:

- Nothing sets `used`, so a key is valid exactly when it is in the map
  (`AuthorizesIffPresent`).
- Every comma-separated `X-Forwarded-For` entry is a candidate, and the peer
  address comes last (`Candidates`).
- The allow-list test is a bare `startsWith` on the string `path.resolve`
  returns, and that call does not resolve symbolic links. The handler is
  modelled with that test; a corrected variant sits beside it (see
  "Findings").
- One static root is the project directory itself. So any file in it is
  allowed, including paths outside `public/` that are resolved from the
  working directory (`Router.OtherPathsRelative`).

## Model

| member | source | states |
|---|---|---|
| ApiKeys.Remember | src/server.js:65 | storing a key marks it present and unused; no other key is added, removed or changed; the all-unused invariant is kept |
| ApiKeys.Forget | src/server.js:88 | deleting removes exactly the presented key; other entries stay as they were; a missing header or an absent key leaves the store unchanged; the invariant is kept |
| ApiKeys.ApiAnswer | src/server.js:80-87 | status is 200 exactly when the header is non-empty and names a present, unused key; a 200 answer is `text/html` and its body is the wrapped IP; every other answer is 403 `Forbidden: Invalid or used API key` |
| ApiKeys.AuthorizesIffPresent | src/server.js:80 | under the invariant, a key authorises exactly when it is non-empty and present, so the `used` flag decides nothing |
| ApiKeys.IsApiKey | src/server.js:64 | a generated key is 32 characters, each a lower-case hexadecimal digit |
| ApiKeys.Truthy | src/server.js:80 | the header counts only when it is present and not empty |
| ApiKeys.Authorizes | src/server.js:80 | a key is accepted when the header counts, names a stored key, and that entry is unused: the negation of the rejection test |
| ApiKeys.ScriptAnswer | src/server.js:66-74 | 200 `application/javascript` exactly when the script was read; its body is the assignment line `window.__API_KEY__ = '<key>';\n` followed by the whole script; otherwise 404 `404 Not Found`; for every well-formed key, the script text assigns back that same key |
| ApiKeys.UpToQuote | src/server.js:72 | the text read up to the first quote is a quote-free prefix followed by a quote |
| ApiKeys.ReadKeyBack | src/server.js:72 | a 32-hex-digit key in `window.__API_KEY__ = '<key>';\n` reads back as itself |
| ApiKeys.ApiKeyStore.constructor | src/server.js:8 | the store starts empty and valid |
| ApiKeys.ApiKeyStore.ServeClientScript | src/server.js:63-75 | the key is stored as unused whether or not the script can be read; the answer is `ScriptAnswer` |
| ApiKeys.ApiKeyStore.ServeApiRequest | src/server.js:78-89 | the answer is computed from the store as found; the presented key is then deleted whatever the answer was |
| ApiKeys.Final | src/server.js:63-89 | after any sequence of issue and consume calls, every entry is still unused |
| ApiKeys.AtMostOneSuccess | src/server.js:78-89 | if a key is not issued again, it gets at most one 200 answer, and none unless it was in the store, however the calls are interleaved |
| ApiKeys.ExactlyOneSuccess | src/server.js:78-89 | a stored key that is not issued again gets exactly one 200 answer in any sequence of calls that presents it at least once, wherever that call comes |
| ApiKeys.IssueThenConsumeTwice | src/server.js:63-89 | a freshly issued key gets one 200 answer with the wrapped IP; it is then absent, and the next use gets the 403 answer |
| ApiKeys.TwoKeysIndependent | src/server.js:63-89 | two distinct issued keys each get exactly one 200 answer; afterwards both are refused |
| ApiKeys.UnknownKeyRefused | src/server.js:80-88 | a missing, empty or never-issued key is refused; deleting an absent key changes nothing |
| Markup.Cell | src/server.js:84 | a cell is eight characters: `<i>`, the character, `</i>` |
| Markup.WrapChars | src/server.js:84 | the body is 8·\|ip\| characters long, and cell i is exactly `<i>` + ip[i] + `</i>` |
| Markup.UnwrapWrap | src/server.js:84 | reading the cells back gives exactly the address, in order |
| Markup.WrapUnwrap | src/server.js:84 | every body that reads back as cells is exactly the wrapping of the address it reads as |
| Markup.WrapInjective | src/server.js:84 | distinct addresses give distinct bodies |
| Markup.WrapCons | src/server.js:84 | wrapping an address with one more leading character puts one more cell in front, leaving the rest of the body as it was |
| Markup.WrapExample | src/server.js:84 | the address `1.2.3.4` becomes the cells of `1`, `.`, `2`, `.`, `3`, `.`, `4`, in that order |
| Strings.Split | src/server.js:101 | at least one piece; no piece contains the separator; joining the pieces gives the input back |
| Strings.SplitJoin | src/server.js:101 | splitting a join of separator-free parts gives back the parts |
| Strings.IsSpace | src/server.js:101 | the characters `trim` removes: the ECMAScript white-space and line-terminator code points |
| Strings.Trim | src/server.js:101 | the result is one contiguous stretch of the input with only white space before and after it; it neither starts nor ends with white space; it is the input when no trimming is needed; it is empty exactly when the input is all white space |
| ClientIp.IsDottedQuad | src/server.js:104 | `/^\d{1,3}(?:\.\d{1,3}){3}$/`: the dot-separated pieces are exactly four groups of one to three ASCII digits |
| ClientIp.IsMappedQuad | src/server.js:105 | `/^::ffff:(\d{1,3}(?:\.\d{1,3}){3})$/`: the lower-case prefix `::ffff:` followed by a dotted quad |
| ClientIp.LooksIpv4 | src/server.js:103-106 | the `find` callback: a present entry matching either pattern; `undefined` never matches |
| ClientIp.Candidates | src/server.js:101-102 | the candidates are the trimmed header pieces in order (none when there is no header), then the peer address last; every header entry is comma-free and trimmed |
| ClientIp.FirstIpv4 | src/server.js:103-106 | the index is that of the first entry matching either pattern, or the list length when none matches |
| ClientIp.SelectIp | src/server.js:103-107 | the result is one of the candidates or `''` |
| ClientIp.SelectsFirstIpv4 | src/server.js:103-106 | the first candidate matching a pattern is the result, with any `::ffff:` prefix left in place |
| ClientIp.FallsBackToFirst | src/server.js:107 | if nothing matches, the result is the first candidate, or `''` when that is undefined |
| ClientIp.FirstPieceWins | src/server.js:103-107 | if the trimmed first header entry matches, it is the result |
| ClientIp.NoHeaderUsesPeer | src/server.js:101-107 | without the header, the peer address is the result whatever its form; `''` when it is undefined |
| ClientIp.HeaderEntryWins | src/server.js:101-107 | if any header entry matches, the result comes from the header, not the peer |
| ClientIp.QuadOfGroups | src/server.js:104 | four groups of 1 to 3 digits joined by dots match the dotted-quad pattern |
| ClientIp.QuadShape | src/server.js:104 | a dotted quad is 7 to 15 characters, all digits or dots |
| ClientIp.AcceptsLargeGroups | src/server.js:104 | the pattern accepts `999.999.999.999`; groups are not range-checked |
| ClientIp.ForwardedExample | src/server.js:101-107 | header `203.0.113.5, 70.41.3.18` with peer `::1` gives `203.0.113.5` |
| ClientIp.PeerExample | src/server.js:101-107 | no header with peer `198.51.100.7` gives `198.51.100.7` |
| StaticFiles.ContentType | src/server.js:51-52 | a table extension gets its table type; every other extension gets `application/octet-stream`; the type is never empty |
| StaticFiles.IsPathAllowedAsWritten | src/server.js:25-27 | `isPathAllowed` as written: some root is a string prefix of the resolved path |
| StaticFiles.IsWithin | src/server.js:25-27 | corrected containment: the root is a prefix that ends where a path component ends |
| StaticFiles.IsPathAllowed | src/server.js:25-27 | corrected allow-list: the resolved path lies within some root |
| StaticFiles.SiblingDirectoryAdmitted | src/server.js:25-27 | the prefix check as written allows `/srv/app-old/secret.txt` under roots `/srv/app/public` and `/srv/app`; the corrected check refuses it |
| StaticFiles.WithinIsStricter | src/server.js:25-27 | the corrected check allows nothing the written check refuses |
| StaticFiles.WithinIffComponents | src/server.js:25-27 | a path is inside a root (with no trailing slash) exactly when the root's `/`-separated components are the path's first components |
| StaticFiles.StaticAnswer | src/server.js:45-58 | 403 `Forbidden` exactly when the prefix test of `isPathAllowed` fails; 200 exactly when it is allowed and the read succeeded, with the read bytes, the table type and the immutable one-year cache header; otherwise 404 `404 Not Found`; only a 200 answer carries the cache header |
| StaticFiles.CorrectedStaticAnswer | src/server.js:136-140 | with the corrected allow-list: 403 exactly when the path lies within no root, and otherwise the same answer as the source |
| StaticFiles.SiblingFileServed | src/server.js:136-141 | the sibling file `/srv/app-old/secret.txt` is sent with status 200 as written, while the corrected branch answers 403 |
| StaticFiles.RefusedIgnoresFiles | src/server.js:136-140 | a path the prefix test refuses gets the same 403 answer whatever the file system holds |
| Router.Classify | src/server.js:110-119 | `/public/client.js` alone goes to the script route and `/api/ip` alone to the API route; every other path goes to the static route with the mapped file |
| Router.MapFile | src/server.js:121-133 | a path that no rule rewrites stays `'.' + pathname`; every rewritten path is joined onto one of the four fixed segments |
| Router.PublicRule | src/server.js:125-126 | `/public/<rest>` maps to `<rest>` under `../public`; the client script is taken by the script route first |
| Router.AssetsRule | src/server.js:127-128 | `/assets/<rest>` maps to `<rest>` under `../assets` |
| Router.IndexFile | src/server.js:122-130 | `/` and `/index.html` both map to `../index.html` |
| Router.RobotsFile | src/server.js:131-132 | `/robots.txt` maps to `../robots.txt` |
| Router.OtherPathsRelative | src/server.js:121-133 | every other path stays relative to the working directory as `'.' + pathname` |
| Server.Handle | src/server.js:94-141 | the script route stores the fresh key and answers `ScriptAnswer`; the API route answers `ApiAnswer` for the selected IP and deletes the key; the static route leaves the store unchanged and answers `StaticAnswer` (the prefix test as written) for the resolved path; the store invariant is kept |

## Left out

- The HTTP listener and response plumbing (`http.createServer`, `writeHead`, `end`, `listen`) are left out. A response is a value.
- The constant security and CORS headers (`sendSecurityHeaders`, `setCORSHeaders`) are left out. They are fixed side effects with no logic.
- The port from `process.env.PORT` and the `console.log` line are left out.
- `fs.readFile` is an input, as a read result. Its callback timing is I/O.
- `Math.random` is left out. The key is the parameter `freshKey`, restricted to 32 lower-case hex digits. That fresh keys never collide is a matter of probability and is not proved. `AtMostOneSuccess` therefore assumes that the key is not issued again.
- `url.parse` is left out. The pathname is a string input, so a request whose parsed pathname is `null` (which the source would turn into `'.null'`) is not modelled.
- `path.resolve`, `path.join` and `path.extname` are abstract functions (`Server.Host`). No claim is made about how `..` is normalised.
- The `try`/`catch` 500 answer is left out. No modelled step throws.
- Concurrency is left out. Node runs the check and the delete in one synchronous call, so nothing can interleave.
- `public/client.js` is left out. It is browser UI code: DOM updates, `fetch`, timers.
- Strings are modelled as sequences of Unicode scalar values. JavaScript's `split('')` splits UTF-16 code units, which differs only for characters outside the Basic Multilingual Plane. Node decodes header values as Latin-1, so those characters cannot reach `WrapChars` from a header.
- A repeated `X-API-Key` or `X-Forwarded-For` header is not modelled separately. Node joins the copies into one string, and the model takes that string.

## Findings

| source | as written | input that shows it | evidently intended | confidence | as-written member | corrected member |
|---|---|---|---|---|---|---|
| src/server.js:25-27 | a path is allowed when some root is a string prefix of it (`resolvedPath.startsWith(root)`), and the roots have no trailing separator | roots `/srv/app/public` and `/srv/app`, resolved path `/srv/app-old/secret.txt` (for example from the URL path `/public/../../app-old/secret.txt`, joined onto `../public` beside `src/`) is allowed and the file is sent | the path must be a root or lie inside one: the prefix must end at a `/` | not executed; medium (whether such a sibling exists depends on the host) | StaticFiles.SiblingFileServed | StaticFiles.CorrectedStaticAnswer |

The as-written half is `SiblingFileServed`, with `SiblingDirectoryAdmitted` for the bare predicate `IsPathAllowedAsWritten`. The corrected half is `CorrectedStaticAnswer` over `IsPathAllowed`. `WithinIffComponents` proves that `IsPathAllowed` is containment by path component.

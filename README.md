# Instagram bio verification: rate limiter and verdict logic

The repository serves one HTTP endpoint, in two near-identical copies: an
app-router route (`app/api/verify/route.ts`) and a pages-router handler
(`app/api/berify-instagram.ts`). Each copy keeps a process-wide table of
per-client request counts and admits at most 100 requests per client per
one-hour window. It then checks that the body names a `username` and a
`code`, opens a headless browser on the user's profile page, and reports
whether the code occurs in the text of the page's `header` element.

This project models that logic in Dafny:

- `Text` is JavaScript's `includes`, proved equal to "occurs at some position".
- `RateLimit` holds the table entry `Rec(count, timestamp)` and the admission
  function `Step`. Its class `Limiter` stands for the module-level `Map`; the
  method `Admit` updates the table in place, field by field, as the source does.
  `Run` replays a sequence of requests. The lemmas about it prove three things:
  counts stay in 1..100, clients that send nothing are untouched, and at a fixed
  instant exactly the first 100 requests of a new client are admitted.
- `Verification` holds the abstract browser outcome (`BrowserRun`), the JSON
  responses, and the verdict `bioContent?.includes(code)`.
- `VerifyRoute` and `BerifyInstagram` each have a client-key function, a
  post-admission decision function `Respond` and a class for the module state.
  The class holds the module's `requestCounts` table and the exported
  handler(s) as methods. Each handler's result also counts the browsers it
  opened (a `chromium.launch` that returned) and its `browser.close` calls.
- `Divergence` proves where the two copies differ.

Time is a parameter `now: int`. Nothing assumes that it increases: when the
clock goes back, the difference is negative and the window counts as open.
The browser is not modelled. Each handler takes a `BrowserRun` value saying
how far the session got.

Three behaviours of the code are worth stating plainly:

- Neither handler releases the browser on every path. A failure in
  `newContext`/`newPage` leaves the browser open in both files. A failure in
  `goto` leaves it open in the pages handler (`Divergence.UnclosedBrowsers`).
- A navigation failure answers 500 only in the pages handler. The app route's
  inner `try` wraps `goto`, so there it becomes `verified: false`
  (`Divergence.NavigationFailureDiverges`).
- The two files fall back to different keys. The app route never reads a
  socket address and falls back to "unknown". The pages handler falls back to
  the socket address and then to `String(undefined)`, which is "undefined".

## Model

| member | source | states |
|---|---|---|
| `Text.Includes` | app/api/verify/route.ts:67 | `s.includes(sub)` is true exactly when `sub` occurs at some position of `s`. The match is exact and case-sensitive. |
| `Verification.Verdict` | app/api/berify-instagram.ts:59-62 | The verdict is undefined exactly when the header text is null. It is `true` exactly when the text is present and the code occurs in it. |
| `Verification.Status` | app/api/verify/route.ts:22-91 | 405 exactly for a refused method, 429 exactly for a rate-limit refusal, 400 exactly for missing fields, 500 exactly for a failure, and 200 exactly for a verdict. |
| `RateLimit.Step` | app/api/verify/route.ts:18-35 | A request is refused exactly when its window is open and its count is already 100. A refusal leaves the table unchanged. An admission into an open window leaves count + 1 with the same window start. An admission of an unseen key, or after the window elapsed, leaves `{1, now}`. The key always exists afterwards. No other key changes. The 1..100 bound is preserved. |
| `RateLimit.Limiter.Admit` | app/api/verify/route.ts:18-35 | The four branches of the in-place update. An unseen key gets `{1, now}` and is admitted. An open window below the limit gets one more count and keeps its timestamp. An open window at the limit is refused and the table is untouched. An elapsed window is reset to `{1, now}`. The result equals `Step`, and the 1..100 bound is preserved. |
| `RateLimit.Limiter.constructor` | app/api/verify/route.ts:10 | The table starts empty. |
| `RateLimit.RunKeepsBounded` | app/api/berify-instagram.ts:22-34 | After any sequence of requests from a bounded table, every stored count is still in 1..100. There is one decision per request. |
| `RateLimit.RunLeavesOthers` | app/api/berify-instagram.ts:20-33 | A client that sends no request in a sequence keeps its entry, or its absence, unchanged. |
| `RateLimit.BurstIntoOpenWindow` | app/api/verify/route.ts:21-28 | Requests at a fixed instant go into an open window holding `c` requests. The i-th is admitted exactly when `c + i < 100`. The count ends at min(c + n, 100) and the window start is unchanged. |
| `RateLimit.FreshBurst` | app/api/verify/route.ts:8-34 | A client the table has never seen sends requests at a fixed instant. Exactly the first 100 are admitted and every later one gets 429. |
| `VerifyRoute.ClientKey` | app/api/verify/route.ts:16 | The key is the `x-forwarded-for` value when that is present and non-empty. Otherwise it is "unknown". It is never empty. |
| `VerifyRoute.Respond` | app/api/verify/route.ts:37-81 | 400 exactly when the parsed body lacks a non-empty username or code. 500 exactly when the body does not parse, or when launch or set-up fails. A 200 verdict in every other case, with these values: `true` exactly when the header text contains the code; `false` on a navigation failure, a header timeout, or text without the code; undefined exactly when the text is null. One launch happens exactly when the fields are complete and launch succeeds. One close happens exactly before each 200. |
| `VerifyRoute.Route.constructor` | app/api/verify/route.ts:10 | The module starts with an empty request-count table. |
| `VerifyRoute.Route.Post` | app/api/verify/route.ts:12-83 | The table changes exactly as `Step` says for the derived key, whatever the body. A request that then gets 400 or 500 has still used its quota. A refused request gets 429 with no browser work. An admitted one is answered by `Respond`. The 1..100 bound is preserved. |
| `VerifyRoute.Route.Get` | app/api/verify/route.ts:86-91 | `GET` answers 405 with no browser work. It cannot touch the table. |
| `BerifyInstagram.ClientKey` | app/api/berify-instagram.ts:18-20 | The key is the forwarded-for value when present and non-empty. Otherwise it is the socket address, even an empty one. With neither, it is "undefined". |
| `BerifyInstagram.Respond` | app/api/berify-instagram.ts:36-74 | 400 exactly when username or code is missing or empty. 500 exactly when launch, set-up or navigation fails. A 200 verdict exactly when the header wait times out (`false`) or the text was read (`true` when it contains the code, undefined when it is null). It launches once after validation unless the launch fails. It closes exactly once before each 200. |
| `BerifyInstagram.Handler.constructor` | app/api/berify-instagram.ts:10 | The module starts with an empty request-count table. |
| `BerifyInstagram.Handler.Handle` | app/api/berify-instagram.ts:12-75 | A non-POST request gets 405 and leaves the table unchanged. A POST changes the table exactly as `Step` says for the derived key, before the body is checked. When refused it gets 429, otherwise `Respond`. The 1..100 bound is preserved. |
| `Divergence.NavigationFailureDiverges` | app/api/berify-instagram.ts:52-73 | The two handlers give the same response to every pair of fields and browser run except one. For complete fields and a navigation failure, the app route answers `verified: false` and the pages handler answers 500. |
| `Divergence.UnclosedBrowsers` | app/api/berify-instagram.ts:44-73 | Each handler launches at most once and closes at most as often as it launches. The app route leaves a browser open exactly on a set-up failure. The pages handler leaves one open exactly on a set-up or navigation failure. |
| `Divergence.UnforwardedClientsShareBucket` | app/api/berify-instagram.ts:18-20 | All clients without a usable forwarding header share one key. It is "unknown" in the app route and, with no socket address, "undefined" in the pages handler. |

## Left out

- Playwright (launch, context, page, `goto`, `waitForSelector`, `$eval`, `close`) is a foreign library. Only how far it got is modelled, as `BrowserRun`. `HeaderTimeout` covers a failed `$eval` as well as a timed-out wait, since both land in the same inner `catch`.
- A `browser.close()` that itself throws is not modelled. Close is assumed to succeed, so the inner `catch` never runs after a successful close.
- Next.js request and response objects, `headers()` and JSON serialisation are framework I/O. A failing `request.json()` (or a body that cannot be destructured) in the app route is the `Unparsable` body. A failing `headers()` call, which would answer 500 before rate limiting, is not modelled.
- The pages handler destructures `req.body` outside any `try`. A missing body throws to the framework, and that path is not modelled: the handler takes the two fields as optional strings.
- Methods other than GET and POST on the app route are answered by the framework, not by this code.
- `Date.now()` is replaced by the parameter `now`. JavaScript numbers are modelled as unbounded integers, which is exact for millisecond timestamps.
- `console.error` logging is output only.
- Concurrency: requests run on one event loop, and their browser phases (launch, navigation, header wait) can overlap. That overlap is not modelled. The rate-limit block has no `await` between reading the table and updating it, so each block runs to completion. The table updates are therefore serialised, and serving one request at a time is exact for the table.
- Fields or headers that are not strings (arrays, numbers) are not modelled, nor is `String()` applied to them. Inputs are optional strings with JavaScript truthiness.
- Strings are sequences of characters. JavaScript compares UTF-16 code units, and no normalisation is done in either case.

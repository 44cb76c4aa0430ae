# Webhook signature check, admin gate and message dismissals — a Dafny model

This project models the four pieces of logic of an Astro/Netlify web backend
that do not simply forward to the hosted Supabase service:

- **TikTok webhook signature verification**
  (`netlify/functions/utils/tiktok-signature.js`). `verifyTikTokSignature`
  parses a `t=…,s=…[,s=…]` header. It recomputes the HMAC-SHA256 of
  `timestamp + "." + rawBody` as lower-case hex. It compares each candidate
  signature in turn with `crypto.timingSafeEqual`, until one matches (several
  are allowed, for key rotation). After a match it checks that the timestamp is fresh. The
  `withTikTokVerification` wrapper turns the verdict into an HTTP response.
  Here the check is an imperative method, `VerifyTikTokSignature`. It calls
  the two methods `ParseSignatureHeader` and `CompareCandidates`, which hold
  the source's two loops, and is proved equal to the function `Verification`.
  The listed properties are lemmas about that function.
- **The admin route gate** (`src/middleware.ts`). The access decision is the
  pure function `Middleware.Gate`. The class `Middleware.Context` holds what the
  handler changes in place: the outgoing cookies and `context.locals`. Its
  method `OnRequest` follows the handler step by step and is proved against
  `Gate`, `LocalsAfter` and `CookieWrites`.
- **Listing active server messages** (`src/pages/index.ts`, GET). The fetched
  messages, minus those the visitor dismissed, modelled as the function
  `Messages.Get`.
- **Dismissing a message** (`src/lib/dismiss.ts`, POST). Input validation and
  the mapping of the insert's answer to a response, including the duplicate-key
  error `23505` being counted as success. Modelled as `Dismiss.Post`.

Helper modules model the JavaScript, Node and ECMAScript behaviour that the
code relies on:
- `JsString`: `split` and `startsWith`, and JavaScript truthiness of strings.
  Its `Join` is not used by the code. It is the inverse of `split`, used only to
  prove `SplitJoin` and `SignedHeaderParses`.
- `JsNumber`: `parseInt(…, 10)` and the decimal rendering of integers.
- `Utf8`: `Buffer.from(text)`.
- `Hex`: `digest('hex')`.

Things from outside the program become parameters:
- HMAC-SHA256 is the parameter `hmac: (key, message) -> digest bytes`. It is
  not implemented.
- The clock is `nowMillis`, the value of `Date.now()`.
- Environment variables are `Option<string>` parameters, where None means
  unset.
- The Supabase calls are inputs. `Backend` holds `setSession`, the `admins`
  lookup and the profile role. The GET handler gets the messages query's answer
  and the dismissals query as a function of `hid`. The POST handler gets the
  insert as a function of the row.

### Behaviour of the code kept as written

- Candidates are compared as the UTF-8 bytes of their text
  (`netlify/functions/utils/tiktok-signature.js:66-68`).
- A candidate whose byte length differs from the expected text's makes
  `timingSafeEqual` throw (:66-73). The `catch` (:99-104) turns this into a
  "Verification error". So a wrong-length candidate placed before the correct
  one stops the loop (`WrongLengthAborts`), and the verdict is then that
  "Verification error" whatever the clock says (`CompareThrewIsVerificationError`).
- A timestamp that `parseInt` cannot read gives NaN (:84-87). Every comparison
  with NaN is false, so it passes the freshness test.
- An absent header throws in `split` (:24), and the `catch` (:99-104) reports a
  "Verification error".
- The wrapper answers 401 for a missing header and 500 for a missing secret
  before it calls the verifier (:116-138).
- A verdict's `error` is the source's literal message text (`ErrorText`).

## Model

| member | source | states |
|---|---|---|
| `TikTokSignature.VerifyTikTokSignature` | netlify/functions/utils/tiktok-signature.js:21-105 | the imperative check (both loops, early returns for the missing fields, the caught exceptions and the mismatch) returns exactly `Verification(...)`, and `valid` holds iff `error` is null |
| `TikTokSignature.ParseSignatureHeader` | netlify/functions/utils/tiktok-signature.js:24-36 | the loop over the comma-separated elements ends with the timestamp `TimestampOf` and the candidates `SignaturesOf` of those elements |
| `TikTokSignature.CompareCandidates` | netlify/functions/utils/tiktok-signature.js:64-73 | the candidate loop, with its `signatureMatched` flag and `break`, ends as `Compare` says: a match, no match, or the exception of the first candidate that is not comparable |
| `TikTokSignature.Verification` | netlify/functions/utils/tiktok-signature.js:21-105 | every verdict has `valid` true exactly when `error` is null |
| `TikTokSignature.TimestampOf` | netlify/functions/utils/tiktok-signature.js:24-36 | the timestamp the header loop ends with; when present the header had an element and the value holds no `=`. Which element decides is stated by `TimestampIsLastT` and `NoTElementNoTimestamp` |
| `TikTokSignature.SignaturesOf` | netlify/functions/utils/tiktok-signature.js:24-36 | the candidates the header loop pushes, at most one per element. Their order and origin are stated by `SignaturesOfConcat` and `SignaturesOfOne` |
| `TikTokSignature.TimestampIsLastT` | netlify/functions/utils/tiktok-signature.js:28-33 | each `t` element overwrites the timestamp, so the value of the last `t` element is the one that counts |
| `TikTokSignature.NoTElementNoTimestamp` | netlify/functions/utils/tiktok-signature.js:25-33 | without a `t` element the timestamp stays null |
| `TikTokSignature.SignaturesOfConcat` | netlify/functions/utils/tiktok-signature.js:28-36 | the signatures of two header parts are those of the first followed by those of the second: header order is kept |
| `TikTokSignature.SignaturesOfOne` | netlify/functions/utils/tiktok-signature.js:31-35 | one element contributes its value when its prefix is `s` and nothing otherwise |
| `TikTokSignature.ParseElementFields` | netlify/functions/utils/tiktok-signature.js:29 | for an element `p=v[=…]` the prefix is `p` and the value is `v`, the text between the first and second `=` |
| `TikTokSignature.MissingTimestampFirst` | netlify/functions/utils/tiktok-signature.js:38-43 | a missing or empty timestamp gives "Missing timestamp", whatever the secret, clock, tolerance or HMAC |
| `TikTokSignature.MissingSignatureSecond` | netlify/functions/utils/tiktok-signature.js:45-50 | a timestamp with no `s` element gives "Missing signature", again without consulting HMAC or clock |
| `TikTokSignature.Compare` | netlify/functions/utils/tiktok-signature.js:64-73 | the candidate loop: a match only if the expected text is among the candidates, an exception only if some candidate is not a string of the expected byte length. Both directions are in `CompareMatchedIff` and `CompareNoMatchIff` |
| `TikTokSignature.CompareMatchedIff` | netlify/functions/utils/tiktok-signature.js:64-73 | the loop stops at a match iff some candidate equals the expected text and every candidate before it is a string of the same UTF-8 byte length |
| `TikTokSignature.CompareNoMatchIff` | netlify/functions/utils/tiktok-signature.js:64-80 | the loop ends without a match and without an exception iff every candidate is comparable and differs from the expected text |
| `TikTokSignature.RotationAccepts` | netlify/functions/utils/tiktok-signature.js:64-73 | the correct signature next to an equal-length garbage one passes, in either order |
| `TikTokSignature.WrongLengthAborts` | netlify/functions/utils/tiktok-signature.js:65-73 | a candidate of another byte length reached first raises the `timingSafeEqual` exception, even if a later candidate is right |
| `TikTokSignature.AbsentHeader` | netlify/functions/utils/tiktok-signature.js:99-104 | an absent header raises in `split` and is caught as a "Verification error" |
| `TikTokSignature.MismatchIgnoresClock` | netlify/functions/utils/tiktok-signature.js:75-80 | with no match the answer is "Signature verification failed" for every clock reading and tolerance |
| `TikTokSignature.CompareThrewIsVerificationError` | netlify/functions/utils/tiktok-signature.js:64-104 | an exception in the candidate loop (an `undefined` candidate or one of another byte length reached before a match) gives "Verification error" with that exception, for every clock reading and tolerance |
| `TikTokSignature.ValidImpliesSigned` | netlify/functions/utils/tiktok-signature.js:21-97 | a valid verdict implies the header was present with a truthy timestamp, hex(HMAC(secret, timestamp.rawBody)) is among its candidates, and the timestamp is not a number or within the tolerance of the clock |
| `TikTokSignature.FreshnessAfterMatch` | netlify/functions/utils/tiktok-signature.js:64-97 | once a candidate matched, the verdict is the outcome of the freshness test on the header's timestamp and nothing else |
| `TikTokSignature.Freshness` | netlify/functions/utils/tiktok-signature.js:82-97 | `valid` iff `error` is null; a NaN timestamp is valid; every failure is "too old" with a difference above the tolerance. The exact window is `FreshnessWindow` |
| `TikTokSignature.FreshnessWindow` | netlify/functions/utils/tiktok-signature.js:82-97 | the freshness test is valid iff abs(current second - t) <= tolerance (boundary included) or t is NaN; a stale t reports the difference and the tolerance |
| `TikTokSignature.FreshnessRejectsStale` | netlify/functions/utils/tiktok-signature.js:83-92 | a parsed timestamp farther than the tolerance from the current second gives "timestamp too old" with that difference |
| `TikTokSignature.SignedHeaderParses` | netlify/functions/utils/tiktok-signature.js:24-36 | the header `t=<n>,s=<hex hmac>` parses to timestamp `<n>` and the single candidate `<hex hmac>` |
| `TikTokSignature.SignedRequestMatches` | netlify/functions/utils/tiktok-signature.js:52-80 | a request signed as hex(HMAC(secret, t + "." + body)) over its exact body passes the signature stage |
| `TikTokSignature.SignedRequestAccepted` | netlify/functions/utils/tiktok-signature.js:52-97 | a correctly signed request within the tolerance is valid |
| `TikTokSignature.SignedStaleRequestRejected` | netlify/functions/utils/tiktok-signature.js:82-92 | the same request outside the tolerance is rejected as too old |
| `TikTokSignature.TamperedBodyRejected` | netlify/functions/utils/tiktok-signature.js:52-80 | a body changed after signing is a signature mismatch whenever HMAC tells the two payloads apart |
| `TikTokSignature.WithTikTokVerification` | netlify/functions/utils/tiktok-signature.js:113-160 | a missing header gives 401, a missing secret 500, an invalid verdict 401 with `details` set to the verifier's error text, a valid one the handler's response unchanged |
| `TikTokSignature.MissingHeaderSkipsVerifier` | netlify/functions/utils/tiktok-signature.js:116-125 | with a missing header the response does not depend on the secret, the clock or the HMAC |
| `TikTokSignature.SignedEventReachesHandler` | netlify/functions/utils/tiktok-signature.js:140-159 | a correctly signed fresh event reaches the handler and its response is returned |
| `JsString.JoinSplit` | netlify/functions/utils/tiktok-signature.js:24 | joining the pieces of `split` gives back the header |
| `JsString.SplitJoin` | netlify/functions/utils/tiktok-signature.js:24 | splitting a join of separator-free pieces gives back those pieces |
| `JsString.SecondPieceText` | netlify/functions/utils/tiktok-signature.js:29 | the second piece of `split('=')` is the text after the first `=` up to the next `=` or the end |
| `JsNumber.ParseIntOfIntToDecimal` | netlify/functions/utils/tiktok-signature.js:84 | `parseInt` of a rendered integer gives that integer back |
| `JsNumber.TrimStartSkipsWhiteSpace` | netlify/functions/utils/tiktok-signature.js:84 | `parseInt` first drops exactly the longest prefix of ECMAScript white space and line terminators |
| `JsNumber.ParseIntIgnoresTrailer` | netlify/functions/utils/tiktok-signature.js:84 | `parseInt` reads an optional minus sign and the leading digits and ignores what follows |
| `Utf8.EncodeInjective` | netlify/functions/utils/tiktok-signature.js:66-68 | the UTF-8 bytes of two texts are equal iff the texts are equal |
| `Hex.DecodeEncode` | netlify/functions/utils/tiktok-signature.js:57-60 | the hex rendering of a digest decodes back to the digest |
| `Hex.EncodeIsAscii` | netlify/functions/utils/tiktok-signature.js:57-68 | the hex text is ASCII, so it has two UTF-8 bytes per digest byte |
| `Middleware.SomeRouteMatchesIff` | src/middleware.ts:21-23 | `isPublicRoute` holds iff the path equals some public route or starts with that route followed by `/` |
| `Middleware.SomePrefixMatchesIff` | src/middleware.ts:104-109 | `isAdminOnlyRoute` and `isModRoute` hold iff some listed route is a plain prefix of the path |
| `Middleware.Gate` | src/middleware.ts:25-122 | the access decision: pass-through iff the path is not gated; master-key access iff gated with a valid master cookie; redirects go only to `/admin/login` or `/unauthorized`; an allowed session is the one `setSession` returned, with admin or moderator rights. The individual cases are `UngatedPassesThrough`, `MasterKeyBypass`, `NoSessionRedirectsToLogin` and `SessionGate`, and `Context.OnRequest` is proved against it |
| `Middleware.CookieWrites` | src/middleware.ts:53-79 | the cookies written are none or exactly the two token cookies, and only on a gated path without a master-key cookie, with the Supabase configuration present, and with an established session whose access token differs from the presented one. When they are written is stated by `RefreshWritesCookies` |
| `Middleware.UngatedPassesThrough` | src/middleware.ts:25-28 | public and non-`/admin` paths get `next()`, with no cookie written |
| `Middleware.GatedExamples` | src/middleware.ts:13-28 | `/admin`, `/administrator`, `/admin/loginx` and `/admin/users/7` are gated: `/admin` is a plain prefix and public routes need a `/` boundary |
| `Middleware.UngatedExamples` | src/middleware.ts:13-28 | `/admin/login`, `/admin/login/reset`, `/clips/12` and `/` are not gated |
| `Middleware.MasterKeyBypass` | src/middleware.ts:30-38 | a non-empty master key equal to the `admin-master-session` cookie opens every gated path, marks a master-key session and sets the session to null |
| `Middleware.NoSessionRedirectsToLogin` | src/middleware.ts:40-84 | missing configuration or no established session redirects a gated path to `/admin/login` |
| `Middleware.SessionGate` | src/middleware.ts:100-131 | with a session, admin-only prefixes need `isAdmin = adminRecord or role admin`, other gated paths need admin or moderator; allowed requests get the session and both roles, others `/unauthorized` |
| `Middleware.ModeratorAccess` | src/middleware.ts:104-122 | a moderator who is not an admin is refused the admin-only prefixes and allowed every other gated path |
| `Middleware.SessionAccessLocals` | src/middleware.ts:124-131 | on allow, locals hold the session, `isAdmin`, `isModerator` and `isMasterKeySession = false` |
| `Middleware.Context.RestoreSession` | src/middleware.ts:48-84 | the session is the one `setSession` returns for the two token cookies (none if a cookie is missing or the call fails), the refreshed tokens are written exactly as `CookieWrites` says, and the locals are untouched |
| `Middleware.RefreshWritesCookies` | src/middleware.ts:53-79 | token cookies are written iff the session returned has an access token other than the presented one, and then hold its two tokens |
| `Middleware.Context.OnRequest` | src/middleware.ts:5-132 | the handler returns `next()` or the redirect that `Gate` decides, assigns the locals `LocalsAfter` gives and writes exactly `CookieWrites` |
| `Messages.Get` | src/pages/index.ts:10-58 | the GET handler: status 200 or 500, 200 iff the body is a message list, which happens only when the messages query returned data, and never longer than the fetched list. The cases are `QueryErrorSkipsLookup`, `NoHidReturnsAll`, `FilteredAnswer` and `NullData` |
| `Messages.Undismissed` | src/pages/index.ts:44-45 | the filter keeps at most the fetched messages. Membership and order are `UndismissedMembers`, `UndismissedConcat` and `UndismissedIsSubsequence` |
| `Messages.QueryErrorSkipsLookup` | src/pages/index.ts:22-27 | a failing messages query answers 500 with its message, whatever the dismissals lookup would answer |
| `Messages.NoHidReturnsAll` | src/pages/index.ts:29-35 | without a non-empty `hid` the fetched messages are returned unchanged, without a lookup |
| `Messages.UndismissedMembers` | src/pages/index.ts:44-45 | a message is kept iff it was fetched and its id is not dismissed |
| `Messages.UndismissedConcat` | src/pages/index.ts:45 | filtering works piecewise, so relative order is unchanged |
| `Messages.UndismissedIsSubsequence` | src/pages/index.ts:45 | the filtered list is a subsequence of the fetched list |
| `Messages.SubsequenceSorted` | src/pages/index.ts:19-20 | dropping messages from a list sorted by priority then recency keeps it sorted |
| `Messages.FilteredAnswer` | src/pages/index.ts:37-50 | with `hid`, the answer is 200 with exactly the fetched messages whose id is no dismissal's `message_id`, in query order, sorted if the input was |
| `Messages.NullData` | src/pages/index.ts:44-45 | null (or failed) dismissals filter nothing; null messages give an empty list |
| `Dismiss.Post` | src/lib/dismiss.ts:9-53 | the POST handler: status 200, 400 or 500; 200 iff the body reports a dismissal; 400 iff a field is falsy; a dismissal counts as already made iff the insert reported an error (which is then 23505). The cases are `MissingFieldRejected`, `InsertOutcomes`, `UnreadableBody` and `DismissIdempotent` |
| `Dismiss.MissingFieldRejected` | src/lib/dismiss.ts:14-19 | a falsy `messageId` (0 included) or `hashedIdentifier` gives 400, whatever the database would do |
| `Dismiss.InsertsExactlyTheRow` | src/lib/dismiss.ts:21-26 | the only row the handler inserts is `{message_id: messageId, hashed_identifier: hashedIdentifier}` |
| `Dismiss.InsertOutcomes` | src/lib/dismiss.ts:28-45 | insert success gives 200; error 23505 gives 200 already-dismissed; any other error gives 500 with its message; an exception gives 500 "Failed to dismiss message" |
| `Dismiss.UnreadableBody` | src/lib/dismiss.ts:46-51 | an unreadable or null body gives 500 "Failed to dismiss message" |
| `Dismiss.DismissIdempotent` | src/lib/dismiss.ts:28-35 | against a table with the unique constraint, dismissing twice succeeds both times (the second as already dismissed) and leaves the table unchanged |

## Left out

- HMAC-SHA256 and SHA-256 (section 2 of RFC 2104, section 6.2 of FIPS 180-4):
  the digest is the parameter `hmac`. `TamperedBodyRejected` therefore assumes
  that HMAC tells the two payloads apart; it cannot prove it.
- The constant-time behaviour of `timingSafeEqual`: only its result and its
  equal-length requirement are modelled.
- `Date.now()`, `process.env` and `import.meta.env` are parameters. The handler
  passed to `withTikTokVerification` is an abstract function.
- Floating point: JSON numbers with a fraction are not represented, and
  integers are exact. So `parseInt` does not round above 2^53, and the "too
  old" message does not switch to exponent form from 10^21 on.
- JavaScript strings holding lone UTF-16 surrogates: a Dafny `char` is a Unicode
  scalar value, so they cannot be represented.
- The exception messages are those of V8 and Node (`ExceptionMessage`). Other
  exceptions, such as an `hmac` failure, are not modelled: the key and message are
  always strings here.
- A `null` header passed to `verifyTikTokSignature` directly. The model's None is
  an `undefined` header, whose message V8 words "Cannot read properties of
  undefined". For `null` it would say "null", but the only caller in the
  repository, the wrapper, rejects every falsy header first.
- Logging (`console.warn`, `console.error`).
- `locals.supabase`, the client object, and the options of the cookies written
  (path, httpOnly, secure, sameSite, maxAge): only cookie names and values are
  kept.
- The middleware's cookie reads happen before its writes, so reading the
  request cookies is the same as reading Astro's cookie store.
- Database ordering and uniqueness. The order of the messages query is an input,
  stated as a precondition of `SubsequenceSorted`. The unique constraint on
  dismissals appears only in the `InsertInto` table of `DismissIdempotent`.
- `netlify/functions/tiktok-webhook.js` (its handlers are stubs that always
  answer 200) and the other files that wrap the Supabase SDK
  (`src/lib/supabase.ts`, `admin-login.ts`, `adminAuth.js`, `auth.ts`,
  `logout.ts`, `server-messages.ts`, `src/pages/api/creator-signup.ts`,
  `src/pages/api/upload/sign.ts`) are not part of this model.

# Route gate of an authenticating gateway, in Dafny

This project models the request gate of a gateway that sits in front of an
application: the part that decides, for each incoming request path, whether
it may skip authentication or must go to the session-cookie verifier.

- `matchPath(pattern, path)` (src/utils/routing.ts) is a wildcard matcher with
  three regimes:
  - **exact**: the pattern has no `*`, and the path with one trailing `/`
    dropped must equal it;
  - **prefix**: `split('**').filter(Boolean)` leaves one fragment with no `*`,
    and the path, with one trailing `/` dropped, must start with it;
  - **segmented walk**: otherwise. The path's non-empty `/`-segments are walked
    with an `offset` counter that retries the same fragment on the next segment
    after a mismatch.
- `protectAppicableroutesMiddleware` (the gate) first looks the raw path up in
  a module-level set of known exempt paths. On a miss it scans the rule list
  with `some(matchPath)`. On a match it remembers the path while the set holds
  fewer than 1000 entries, then lets the request through. Otherwise it hands
  the request to the session-cookie verifier.
- The rule list is src/config/unprotectedRoutes.ts: five exact routes and seven
  `prefix**` routes.
- The header builders of src/utils/fetch.ts turn a decoded token into
  `x-user-*` headers, and a secret into `x-trusted-env-secret`.

Files and modules:

- `js_string.dfy`, module `JsString`: the JavaScript string built-ins the
  matcher uses (`startsWith`, `endsWith`, `replace` with a one-character
  pattern, `split` with a string separator, `filter(Boolean)`), with their
  own properties (split/join round trip, pieces never contain the separator).
- `routing.dfy`, module `Routing`:
  - `Match` is the value `matchPath` returns or the TypeError it throws.
    `MatchPath` and `Walk` are the matcher as the imperative code it is:
    `Walk` is proved equal to `WalkCount`, and `MatchPath` to `Match`.
  - `AnyMatches` and `ScanRules` model `some`.
  - `GateStep` and the class `RouteGate` (its `cache` field is
    `recentUnprotectedRoutes`) model the middleware.
- `routing_properties.dfy`, module `RoutingProperties`: the regimes of the
  matcher, the error condition, the walk against an independent embedding
  definition, and the cache invariants.
- `unprotected_routes.dfy`, module `UnprotectedRoutes`: the configured list
  and end-to-end classifications.
- `fetch.dfy`, module `Fetch`: the header builders.

Behaviour of the code that a reader might not expect:

- The code removes the first `/` anywhere in a walk fragment
  (`replace('/', '')`), not only a leading one.
- `matchPath` is not total. A pattern made only of `**` markers throws a
  TypeError (`TypeErrorIff`), and the gate lets that escape (`Decision.Fault`).
  No configured rule does this (`RulesUseExactOrPrefix`, `ConfiguredDecision`).
- The cache is keyed by the raw request path. Only `matchPath` strips the
  trailing slash, so `/login` and `/login/` are cached separately.

Literal behaviour pinned by the proofs:

- A leading `**` disappears (`LeadingMarkerDropped`), so `**/vendor/**` is the
  prefix test for `/vendor/` (`VendorPattern`).
- `/images/**` matches neither `/images` nor `/images/`
  (`ImagesPrefixExcludesBareDirectory`).
- In the walk, a fragment holding `*` never matches, so `*/folder/**` is false
  for every path (`StarInWalkNeverMatches`, `FolderPatternNeverMatches`).
- A fragment that keeps a `/` after its first one is removed can never match
  either, so `/a/**/b` is always false (`SecondSlashNeverMatches`).

## Model

| member | source | states |
|---|---|---|
| `JsString.FirstIndex` | src/utils/routing.ts:81 | the index found holds the character, and no earlier position does |
| `JsString.StartsWithMeans` | src/utils/routing.ts:84 | `s.startsWith(prefix)` holds iff `s` is `prefix` followed by some text |
| `JsString.EndsWithMeans` | src/utils/routing.ts:51 | `s.endsWith(c)` holds iff `s` is some text followed by `c` |
| `JsString.RemoveFirst` | src/utils/routing.ts:81 | `replace('/', '')` deletes exactly the first occurrence, wherever it is; text without one is unchanged; every other character is kept |
| `JsString.Split` | src/utils/routing.ts:60 | `split` always yields at least one piece |
| `JsString.SplitJoin` | src/utils/routing.ts:60 | joining the pieces of a split with the separator gives back the input |
| `JsString.SplitPiecesAvoidSeparator` | src/utils/routing.ts:60 | no piece of a split contains the separator |
| `JsString.SplitFirstCut` | src/utils/routing.ts:60 | when a split yields a second piece, the input starts with the first piece followed by the separator |
| `JsString.SplitLeftmost` | src/utils/routing.ts:60 | every cut is at the leftmost occurrence: no occurrence of the separator starts inside a piece, not even one running into the separator that ends it |
| `JsString.SplitPiecesAvoidChar` | src/utils/routing.ts:69 | no piece of a split on a one-character separator contains that character |
| `JsString.NonEmpty` | src/utils/routing.ts:69 | `filter(Boolean)` keeps exactly the non-empty strings and never lengthens the list |
| `JsString.NonEmptyAppend` | src/utils/routing.ts:60 | filtering a concatenation filters each part |
| `Routing.StripTrailingSlash` | src/utils/routing.ts:51-53 | a path ending in `/` is the result plus one `/`; any other path is unchanged |
| `Routing.Fragments` | src/utils/routing.ts:60 | every fragment is non-empty and holds no `**` |
| `Routing.Segments` | src/utils/routing.ts:69 | every segment is non-empty and holds no `/` |
| `Routing.WalkCount` | src/utils/routing.ts:71-93 | the callback's count of `true`s never exceeds the number of segments |
| `Routing.Match` | src/utils/routing.ts:48-94 | `matchPath` throws iff the pattern holds `*` and no non-empty fragment remains; the regime lemmas below state its value in each branch |
| `Routing.Walk` | src/utils/routing.ts:68-93 | the loop over segments, with `offset` and the match count, returns the walk's count of `true`s; `0 <= offset <= index`, `index - offset` never decreases, and matches never exceed `index - offset` |
| `Routing.MatchPath` | src/utils/routing.ts:48-94 | returns exactly the outcome of `Match` (boolean or TypeError) |
| `Routing.AnyMatches` | src/utils/routing.ts:22 | the scan is false iff every rule returns false; true only if some rule matches; a TypeError only if some rule throws |
| `Routing.ScanRules` | src/utils/routing.ts:22 | the in-order scan calling `MatchPath` per rule returns what `AnyMatches` states |
| `Routing.Classify` | src/utils/routing.ts:22-29 | the gate delegates iff every rule returns false; it allows only if some rule matches and faults only if some rule throws |
| `Routing.GateStep` | src/utils/routing.ts:15-31 | a cached path is allowed with the cache unchanged; otherwise the decision is `Classify`'s; the cache gains at most the path, and only on an allowed request while below 1000 entries |
| `Routing.RouteGate.constructor` | src/utils/routing.ts:10 | the cache starts empty and satisfies the invariant |
| `Routing.RouteGate.Gate` | src/utils/routing.ts:15-31 | a cached path is allowed with the cache unchanged. Otherwise the decision is the rules' classification, and the path is added iff it is exempt and the cache has fewer than 1000 entries. The invariant is kept and the cache never shrinks |
| `RoutingProperties.ExactRegime` | src/utils/routing.ts:50-58 | a `*`-free pattern matches iff the path is the pattern plus one `/`, or the pattern itself when it does not end in `/` |
| `RoutingProperties.SplitAtMarker` | src/utils/routing.ts:60 | a piece with isolated stars followed by `**` is cut off as the first split piece |
| `RoutingProperties.LeadingMarkerDropped` | src/utils/routing.ts:60 | a leading `**` changes nothing in a pattern already holding `*` |
| `RoutingProperties.PrefixRegime` | src/utils/routing.ts:60-66 | a non-empty `*`-free prefix followed by `**` is a `startsWith` test on the slash-stripped path |
| `RoutingProperties.VendorPattern` | src/utils/routing.ts:44-66 | `**/vendor/**` is the prefix test for `/vendor/` |
| `RoutingProperties.ImagesPrefixExcludesBareDirectory` | src/utils/routing.ts:50-66 | `/images/**` matches neither `/images` nor `/images/` |
| `RoutingProperties.ImagesPrefixExamples` | src/utils/routing.ts:60-66 | `/images/**` matches `/images/cat.png` and not `/img/cat.png` |
| `RoutingProperties.MarkerRunSplitsEmpty` | src/utils/routing.ts:60 | an even run of `*` splits on `**` into empty pieces only |
| `RoutingProperties.NonEmptyIsEmpty` | src/utils/routing.ts:60 | filtering leaves nothing iff every piece is empty |
| `RoutingProperties.OnlyMarkersThrows` | src/utils/routing.ts:60-64 | a pattern made only of `**` markers throws for every path |
| `RoutingProperties.ThrowsOnlyForMarkers` | src/utils/routing.ts:60-64 | a pattern that throws is made only of `**` markers |
| `RoutingProperties.TypeErrorIff` | src/utils/routing.ts:60-64 | `matchPath` throws iff the pattern is a non-empty, even-length run of `*` |
| `RoutingProperties.WalkBound` | src/utils/routing.ts:68-93 | the walk's count is at most the number of segments and at most the number of fragments left, and zero once the fragments run out |
| `RoutingProperties.StarFragmentBlocks` | src/utils/routing.ts:74-93 | with a `*`-holding fragment still ahead, the count falls short of the fragments left |
| `RoutingProperties.WalkFindsEmbedding` | src/utils/routing.ts:68-93 | a walk that matched every fragment yields an order-preserving placement of the fragments on segments that start with them |
| `RoutingProperties.EmbeddingGuidesWalk` | src/utils/routing.ts:68-93 | with `*`-free fragments, any such placement makes the greedy walk match every fragment |
| `RoutingProperties.WalkIffEmbedding` | src/utils/routing.ts:68-93 | the walk accepts iff no fragment holds `*` and the first-slash-stripped fragments embed in order into the segments by prefix |
| `RoutingProperties.SegmentedRegime` | src/utils/routing.ts:60-93 | a pattern reaching the walk matches iff its fragments are `*`-free and embed into the path's segments; a match needs at least as many segments as fragments |
| `RoutingProperties.StarInWalkNeverMatches` | src/utils/routing.ts:83-93 | a pattern whose fragments include one holding `*` matches no path |
| `RoutingProperties.NoPlacementForSlash` | src/utils/routing.ts:80-88 | a fragment still holding `/` after its first one is removed admits no placement on slash-free segments |
| `RoutingProperties.FolderPatternNeverMatches` | src/utils/routing.ts:44-93 | `*/folder/**` matches no path |
| `RoutingProperties.SecondSlashNeverMatches` | src/utils/routing.ts:74-88 | a walk fragment that still holds `/` after its first `/` is removed makes the pattern match no path |
| `RoutingProperties.InteriorSlashPatternNeverMatches` | src/utils/routing.ts:60-93 | `/a/**/b` matches no path |
| `RoutingProperties.FirstHitIndex` | src/utils/routing.ts:22 | a scan that is not false returns what its first non-false rule returned, and every earlier rule returned false |
| `RoutingProperties.FirstHitDecides` | src/utils/routing.ts:22 | a non-false rule preceded only by false rules decides the scan |
| `RoutingProperties.AnyMatchesWithoutFaults` | src/utils/routing.ts:22 | with no marker-only rule, the scan never throws and is true iff some rule matches |
| `RoutingProperties.GateStepKeepsInvariant` | src/utils/routing.ts:18-27 | one call keeps the cache within 1000 and exempt-only, decides as the rules alone do, removes nothing, and adds the path iff it was missing, exempt and there was room |
| `RoutingProperties.GateStepIdempotent` | src/utils/routing.ts:18-26 | a second call for the same path gives the same decision and leaves the cache as the first call left it |
| `RoutingProperties.ReplayClassifies` | src/utils/routing.ts:10-31 | over any sequence of requests each decision is the rules' classification of its path, whatever was cached, and the cache only grows within the invariant |
| `UnprotectedRoutes.RulesShape` | src/config/unprotectedRoutes.ts:4-23 | the first five entries are `*`-free with no trailing `/`; the other seven are a non-empty `*`-free prefix followed by one `**` |
| `UnprotectedRoutes.RulesUseExactOrPrefix` | src/config/unprotectedRoutes.ts:13-20 | every entry is decided by the exact or prefix branch, and none throws |
| `UnprotectedRoutes.ConfiguredDecision` | src/config/unprotectedRoutes.ts:4-23 | the gate allows exactly the paths whose stripped form is an exact entry or starts with a prefix, and delegates all others |
| `UnprotectedRoutes.ExemptViaPrefix` | src/config/unprotectedRoutes.ts:13-20 | a path whose slash-stripped form starts with a configured prefix is allowed |
| `UnprotectedRoutes.ExactEntriesExempt` | src/config/unprotectedRoutes.ts:5-9 | each exact entry is allowed as written and with one trailing `/` |
| `UnprotectedRoutes.LoginTrailingSlashes` | src/utils/routing.ts:51-58 | `/login` matches `/login/` but not `/login//` or `/login/x` |
| `UnprotectedRoutes.ViteClientExempt` | src/config/unprotectedRoutes.ts:13 | `/@vite/client` is allowed |
| `UnprotectedRoutes.ViteSourceExempt` | src/config/unprotectedRoutes.ts:13 | `/@fs/src/main.ts` is allowed |
| `UnprotectedRoutes.ImageExempt` | src/config/unprotectedRoutes.ts:19 | `/images/logo.svg` is allowed |
| `UnprotectedRoutes.FaviconExempt` | src/config/unprotectedRoutes.ts:17 | `/favicon.ico` is allowed |
| `UnprotectedRoutes.BareImagesDelegated` | src/config/unprotectedRoutes.ts:19 | `/images` is delegated to the session verifier |
| `UnprotectedRoutes.GraphqlDelegated` | src/config/unprotectedRoutes.ts:4-23 | `/graphql` is delegated to the session verifier |
| `UnprotectedRoutes.DashboardDelegated` | src/config/unprotectedRoutes.ts:4-23 | `/dashboard` is delegated to the session verifier |
| `Fetch.OptionalField` | src/utils/fetch.ts:6-9 | `token?.key` is the token's field when the token is an object holding the key, and `undefined` in every other case |
| `Fetch.CreateAuthHeaders` | src/utils/fetch.ts:4-11 | exactly the four `x-user-*` keys; each holds its token claim unchanged; for a null or undefined token all four are `undefined` |
| `Fetch.CreateTrustedEnvHeaders` | src/utils/fetch.ts:16-20 | the single key `x-trusted-env-secret` holds the secret unchanged |
| `Fetch.HeaderNamesFollowClaims` | src/utils/fetch.ts:5-10 | one distinct header per claim, in the claims' order, each `x-user-` followed by the claim name (`user_id` becomes `x-user-id`) |
| `Fetch.ClaimsOfHeaders` | src/utils/fetch.ts:5-10 | reading the four claims back from the headers of any token gives each claim's `token?.claim` |
| `Fetch.AuthHeadersRoundTrip` | src/utils/fetch.ts:4-11 | a token with exactly the four claims is recovered from its headers |
| `Fetch.MissingClaimIsUndefined` | src/utils/fetch.ts:6-9 | a missing token or claim still yields its header, holding `undefined` |

## Left out

- src/auth.ts (login, signup, logout, session handlers): network calls to the identity provider, cookies and JSON bodies.
- src/index.ts: framework wiring, route registration, the CSRF middleware and the not-found handler.
- src/services/graphql.ts: it forwards to a service binding, which is network I/O. Its headers are the `Fetch` model.
- `addFirebaseTokenMiddleware`: a library call that stores the token on the context.
- `verifySessionCookieFirebaseAuth` and `next()`: external continuations, represented only by the `Delegate` and `Allow` outcomes. The verifier's own allow/deny decision is not modelled.
- How the framework derives `ctx.req.path` from the URL: the path is a parameter.
- Concurrency across requests: the middleware reaches its cache update without an `await`, so each call is one atomic step of the event loop, and the cache is a plain class field updated by sequential calls.
- Logging.
- `Routing.RouteGate.Gate`: the contract does not state that a cache hit skips the rule scan. That is visible only in the method body, which returns before calling `ScanRules`.
- `Fetch.JsValue`: JavaScript numbers are modelled as `int`, with no floating point. Header values are carried as the token's values and not converted to strings.
- Strings are sequences of `char`. There is no UTF-16 surrogate handling, which the matcher never depends on.

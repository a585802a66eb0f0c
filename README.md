# Redirect middleware — a Dafny model

This project models the core of the ASP.NET Core `RedirectMiddleware`
(`Middleware/RedirectMiddleware.cs`). On each request the middleware checks
whether its cached rule table is stale, starting a background refresh if it
is. It then looks up the request path against the table. On a match it
answers with a redirect; otherwise it passes the request to the next stage.

The model has two parts.

* **Matcher** (pure functions, module `Matcher`, string primitives in
  `Strings`, the rule record in `Models`). `Sanitize` is `path.Replace("//", "/")`.
  `Matches` is the predicate given to `FirstOrDefault`. `FirstMatch` picks the
  first matching rule in table order. `ResolveTarget` computes the target:
  `Replace` with `OrdinalIgnoreCase` for relative rules, `TargetUrl` as is for
  exact rules. `Decide` gives the whole outcome as a `Decision`:
  `Redirect(target, permanent)` or `FallThrough`.
* **Rule cache** (module `Middleware`). The class `RedirectMiddleware` holds
  the fields `redirectData`, `lastFetchedTime` and `cacheDuration`. `IsStale`
  is the test at the start of `Invoke`. `Refresh` is the publish step of
  `UpdateFromSourceAsync`, taken as one atomic step. `Invoke` returns whether
  a refresh is started and the decision made on the current table. Each
  method is proved against pure functions on `CacheState` (`Stale`,
  `Publish`, `FetchedTable`), and the lemmas are about those functions.

Case-insensitive ordinal comparison folds each character with the ASCII
upper-casing function `Strings.Fold` and compares pointwise. Time is a count
of 100 ns ticks, and tick 0 stands for `DateTime.MinValue`.

The model follows the code as written. In four places that behaviour is not
what a reader of the code's names and comments might expect:

* Sanitising is one left-to-right pass, so doubled separators are not fully
  collapsed and a second pass can change the result: `"///"` becomes `"//"`
  (`Matcher.SanitizeNotIdempotent`).
* The comment on `UseRelative` (Models/RedirectData.cs:31) speaks of swapping
  the redirect URL for the target URL and keeping the child path. The code,
  however, replaces **every** case-insensitive occurrence of the redirect URL
  in the path, not only the leading one
  (`MatcherExamples.RelativeReplacesEveryOccurrence`). A null target deletes
  the occurrences. An empty redirect URL makes `Replace` throw; the exception
  is caught and the request falls through.
* If the first matching rule has an empty or null target, the request falls
  through and no later rule is tried, even one that would redirect
  (`Matcher.UnusableFirstMatchStopsScan`).
* The comment at Middleware/RedirectMiddleware.cs:173-174 says the cache is
  updated even when the source is unavailable. What is updated is both
  fields: a failed fetch, or a missing service, publishes a **null** table
  instead of keeping the previous one, and stamps the fetch time
  (`Middleware.FailedRefreshDropsTable`). The cache is then stale at every
  time, so every request starts a new refresh and falls through.

## Model

| member | source | states |
|---|---|---|
| `Models.Rule` | Models/RedirectData.cs:16-34 | a rule has a nullable redirect URL, a nullable target URL, an integer status code and the relative flag |
| `Strings.Equals` | Middleware/RedirectMiddleware.cs:88-92 | `a.Equals(b, cmp)`: equal lengths and every pair of characters at the same position equal under the comparison |
| `Strings.StartsWith` | Middleware/RedirectMiddleware.cs:87-88 | the guarded prefix test: the pattern fits and the prefix of the same length equals it under the comparison |
| `Strings.Replace` | Middleware/RedirectMiddleware.cs:73-100 | `string.Replace(pat, rep, cmp)`: one left-to-right pass that replaces each non-overlapping occurrence of a non-empty pattern and keeps every other character |
| `Strings.Fold` | Middleware/RedirectMiddleware.cs:88-92 | case folding maps each of `a`–`z` to the same letter in upper case (code point minus 32) and leaves every other character unchanged |
| `Strings.CharEqualsIgnoreCaseIff` | Middleware/RedirectMiddleware.cs:88-100 | two characters are equal ignoring case iff they are equal, or are the same ASCII letter in lower and upper case |
| `Strings.EqualsOrdinal` | Middleware/RedirectMiddleware.cs:73 | ordinal pointwise comparison is exactly string equality |
| `Strings.EqualsIgnoreCaseIffFolded` | Middleware/RedirectMiddleware.cs:88-92 | `OrdinalIgnoreCase` equality holds iff the two folded strings are equal |
| `Strings.ReplaceWithoutOccurrence` | Middleware/RedirectMiddleware.cs:100 | `Replace` leaves a string with no occurrence of the pattern unchanged |
| `Strings.ReplaceNoLonger` | Middleware/RedirectMiddleware.cs:73 | a replacement no longer than the pattern never lengthens the string |
| `Matcher.Sanitize` | Middleware/RedirectMiddleware.cs:73 | the sanitised path is the ordinal `Replace` of `//` by `/` over the raw path |
| `Matcher.Matches` | Middleware/RedirectMiddleware.cs:83-94 | a null redirect URL never matches; a relative rule matches on a case-insensitive prefix of the path, guarded by length; an exact rule on case-insensitive equality |
| `Matcher.ResolveTarget` | Middleware/RedirectMiddleware.cs:99-101 | a relative rule's target is the path with every case-insensitive occurrence of its URL replaced by its target URL (null acting as empty), and an empty URL throws; an exact rule's target is its target URL as is, possibly null |
| `Matcher.Apply` | Middleware/RedirectMiddleware.cs:103-111 | a non-empty target gives a redirect, permanent iff the status code is 301; a null or empty target, or a throw, falls through |
| `Matcher.DecideSanitized` | Middleware/RedirectMiddleware.cs:82-114 | no matching rule falls through; otherwise the first match's `Apply` decides |
| `Matcher.Decide` | Middleware/RedirectMiddleware.cs:72-123 | a null path, an empty sanitised path or no table falls through; otherwise the sanitised path is decided against the table |
| `Matcher.SanitizeStep` | Middleware/RedirectMiddleware.cs:73 | one step of the pass: a leading `//` becomes `/` and the pass goes on after it; any other first character is kept |
| `Matcher.SanitizeNoLonger` | Middleware/RedirectMiddleware.cs:73 | the sanitised path is never longer than the raw path |
| `Matcher.SanitizeWithoutDoubleSlash` | Middleware/RedirectMiddleware.cs:73 | a path with no `//` is unchanged |
| `Matcher.SanitizeKeepsOtherCharacters` | Middleware/RedirectMiddleware.cs:73 | sanitising removes only slashes: every other character survives, in order |
| `Matcher.SanitizeEmptyIff` | Middleware/RedirectMiddleware.cs:73-78 | the sanitised path is empty iff the raw path is empty |
| `Matcher.SanitizeExample` | Middleware/RedirectMiddleware.cs:73 | `"/a//b"` sanitises to `"/a/b"` |
| `Matcher.SanitizeNotIdempotent` | Middleware/RedirectMiddleware.cs:73 | `"///"` sanitises to `"//"`, and a second pass would give `"/"` |
| `Matcher.EmptyPathFallsThrough` | Middleware/RedirectMiddleware.cs:72-78 | a null or empty request path always falls through |
| `Matcher.NoTableFallsThrough` | Middleware/RedirectMiddleware.cs:82-123 | with no table (`_redirectData == null`) every request falls through |
| `Matcher.NullRedirectUrlNeverMatches` | Middleware/RedirectMiddleware.cs:84 | a rule with a null redirect URL never matches |
| `Matcher.LongRelativeUrlNeverMatches` | Middleware/RedirectMiddleware.cs:87 | a relative rule whose redirect URL is longer than the path never matches |
| `Matcher.ExactMatchIff` | Middleware/RedirectMiddleware.cs:90-93 | an exact rule matches iff its folded redirect URL equals the folded path |
| `Matcher.RelativeMatchIff` | Middleware/RedirectMiddleware.cs:85-89 | a relative rule matches iff its redirect URL fits in the path and equals, when folded, the folded prefix of the same length |
| `Matcher.FirstMatch` | Middleware/RedirectMiddleware.cs:82-94 | the returned position holds a matching rule and no earlier rule matches; with no position returned, no rule matches |
| `Matcher.FirstMatchUnique` | Middleware/RedirectMiddleware.cs:82-94 | any position that is a first match is the one `FirstOrDefault` selects |
| `Matcher.DecideCons` | Middleware/RedirectMiddleware.cs:82-114 | scanning a table: a matching head rule decides alone; otherwise the rest of the table decides |
| `Matcher.LaterRulesIgnored` | Middleware/RedirectMiddleware.cs:82-94 | once some rule matches, rules appended after the table never change the decision |
| `Matcher.NonMatchingRulesSkipped` | Middleware/RedirectMiddleware.cs:82-94 | rules that do not match can be dropped from the front of the table without changing the decision |
| `Matcher.UnusableFirstMatchStopsScan` | Middleware/RedirectMiddleware.cs:97-106 | if the first match gives no usable target, the request falls through whatever rules follow |
| `Matcher.RedirectIff` | Middleware/RedirectMiddleware.cs:97-111 | a request is redirected to `u`, permanently or not, iff its sanitised path is non-empty, some rule is its first match, that rule gives the non-empty target `u`, and the redirect is permanent iff its status code is 301 |
| `Matcher.FallThroughIff` | Middleware/RedirectMiddleware.cs:78-123 | a request falls through iff its sanitised path is empty or its first match (if any) gives no usable target |
| `Matcher.RelativeTargetKeepsRest` | Middleware/RedirectMiddleware.cs:99-100 | a relative rule whose URL does not occur again after the matched prefix targets its target URL followed by the rest of the path |
| `Matcher.EmptyRelativeUrlFallsThrough` | Middleware/RedirectMiddleware.cs:87-123 | a relative rule with an empty redirect URL matches every path, and as the first match it makes `Replace` throw, so the request falls through |
| `Matcher.ExactTargetAsIs` | Middleware/RedirectMiddleware.cs:99-111 | an exact first match redirects to its target URL unchanged when that is non-null and non-empty, and falls through otherwise |
| `MatcherExamples.ExactCaseInsensitive` | Middleware/RedirectMiddleware.cs:92-109 | `/foo` against an exact rule for `/FOO` with status 301 gives a permanent redirect to `/bar` |
| `MatcherExamples.DoubledSlashMatchesExact` | Middleware/RedirectMiddleware.cs:73-109 | `/a//b` matches an exact rule for `/a/b`; status 302 gives a temporary redirect |
| `MatcherExamples.RelativeSubstitution` | Middleware/RedirectMiddleware.cs:99-100 | `/old/sub/page` with the relative rule `/old -> /new` is redirected to `/new/sub/page` |
| `MatcherExamples.RelativeReplacesEveryOccurrence` | Middleware/RedirectMiddleware.cs:100 | `/old/old` with `/old -> /new` is redirected to `/new/new`: every occurrence is replaced |
| `MatcherExamples.RelativeNullTargetDeletes` | Middleware/RedirectMiddleware.cs:100 | with a null target, `/old/sub` is redirected to `/sub` |
| `MatcherExamples.ExactRuleRedirects` | Middleware/RedirectMiddleware.cs:92-111 | `/a` against the single exact rule `/a -> /b` with status 301 is redirected permanently to `/b` |
| `MatcherExamples.EmptyTargetEndsScan` | Middleware/RedirectMiddleware.cs:97-106 | a first match with an empty target makes `/a` fall through, though the second rule alone would redirect it |
| `Middleware.CacheDuration` | Middleware/RedirectMiddleware.cs:47 | the lifespan is the configured number of minutes, or 5 when none is configured, in ticks |
| `Middleware.Initial` | Middleware/RedirectMiddleware.cs:22-24 | a new cache holds no table, was last fetched at `DateTime.MinValue` and has the configured lifespan |
| `Middleware.Stale` | Middleware/RedirectMiddleware.cs:62 | the cache is stale iff it holds no table or more than the lifespan has passed since the last fetch |
| `Middleware.Publish` | Middleware/RedirectMiddleware.cs:176-180 | the fetched value, null or not, replaces the table, and the fetch time becomes `now` |
| `Middleware.FetchedTable` | Middleware/RedirectMiddleware.cs:135-171 | the local to publish is what the service returned, and null when there is no service or it threw |
| `Middleware.RedirectMiddleware.constructor` | Middleware/RedirectMiddleware.cs:22-47 | a new middleware has no table, last-fetched time `DateTime.MinValue`, and the configured lifespan (5 minutes by default) |
| `Middleware.RedirectMiddleware.IsStale` | Middleware/RedirectMiddleware.cs:62 | the cache is stale iff no table is held or more than the lifespan has passed since the last fetch |
| `Middleware.RedirectMiddleware.Refresh` | Middleware/RedirectMiddleware.cs:131-180 | the table becomes what the fetch returned (null if the service is missing or threw), the last-fetched time becomes `now`, and nothing else changes |
| `Middleware.RedirectMiddleware.Invoke` | Middleware/RedirectMiddleware.cs:58-123 | a request starts a refresh iff the cache is stale, and is decided against the table held when it arrives |
| `Middleware.DefaultDurationIsFiveMinutes` | Middleware/RedirectMiddleware.cs:47 | with no configured lifespan the cache lives 5 minutes |
| `Middleware.InitialIsStale` | Middleware/RedirectMiddleware.cs:22-23 | a new middleware is stale at every time |
| `Middleware.PublishSetsBothFields` | Middleware/RedirectMiddleware.cs:176-180 | publishing sets the table to the fetched value and the time to `now`, and keeps the lifespan |
| `Middleware.PublishForgetsPrevious` | Middleware/RedirectMiddleware.cs:178-179 | the state after a publish does not depend on the table or time it replaces |
| `Middleware.LastPublishWins` | Middleware/RedirectMiddleware.cs:176-180 | of two publishes in a row, only the second is visible |
| `Middleware.FreshAfterPublish` | Middleware/RedirectMiddleware.cs:62 | right after a table is published, the cache is not stale (for a non-negative lifespan) |
| `Middleware.StaleAfterLifespan` | Middleware/RedirectMiddleware.cs:62 | a published table is stale at `now` iff `now` is more than the lifespan after the fetch (strictly greater) |
| `Middleware.StaleAtTwiceLifespan` | Middleware/RedirectMiddleware.cs:62 | a table fetched twice the positive lifespan ago is stale |
| `Middleware.StaleIsMonotone` | Middleware/RedirectMiddleware.cs:62 | a stale cache stays stale as time goes on |
| `Middleware.FailedFetchPublishesNull` | Middleware/RedirectMiddleware.cs:135-171 | the table to publish is null iff the service is missing, it threw, or it returned null |
| `Middleware.FailedRefreshDropsTable` | Middleware/RedirectMiddleware.cs:135-180 | a failed refresh stamps the time but leaves no table, so the cache is stale at every later time and every request falls through |

## Left out

- Asynchrony and locking: the fire-and-forget `async void` refresh, the `volatile` field and the `lock` are not modelled. `Refresh` is one atomic step that the caller applies after `Invoke` reports a refresh. The model does not cover interleavings, or a refresh that completes synchronously before the request has read the table.
- The constructor's initial refresh: it is fire-and-forget too, so the model applies it as a later `Refresh` call.
- The rule service (`Services/IRedirectService.cs`): file reading and JSON deserialisation are replaced by an arbitrary `FetchOutcome` (no service, threw, or returned a possibly null table).
- Null entries in the rule table: a `null` rule makes the predicate throw, and the request then falls through. The model's tables hold no null entries.
- Clock and configuration: `DateTime.UtcNow` becomes the parameter `now`, in ticks. The lifespan is a whole number of minutes, given as an optional integer (5 when absent). Fractional minutes, and the `FormatException` that `double.Parse` throws on a malformed value, are not modelled.
- Strings.Fold: full Unicode `OrdinalIgnoreCase` folding is reduced to ASCII upper-casing, char by char.
- Logging: all log calls carry no decision logic, including the test of the old field at line 153, which only picks a log message.
- HTTP plumbing: `HttpContext`, `Response.Redirect` and the `_next` delegate are replaced by the returned `Decision`.
- Middleware/test.cs (entirely commented out), Program.cs and Pages/Index.cshtml.cs are not part of this model.

# Webshare addon for Stremio: a Dafny model of the access gate and the stream pipeline

The system is a private Stremio addon in two files:

- `addon.js` answers stream requests. It builds a search text from the IMDb id. It searches Webshare, parses `<file>` blocks out of the text response, looks up a playable link for each of the first ten results in turn, and answers one stream entry per link found.
- `server.js` puts a gate in front of the addon. Every request path carries a device token and the device's MAC address. The gate checks the MAC format, the token/MAC pair, and the owner's expiry, then hands the device's stored Webshare session token (`wst`) to the addon. An admin panel adds devices, revokes them, resets expiries and tests Webshare credentials. Adding a device derives the `wst` from Webshare credentials by a salted double SHA-1.

The model is purely functional:

- The database is a value, `Accounts.Store`: users keyed by name, and devices in insertion order.
- Every request to Webshare goes through a parameter `http: Request -> Option<string>`. None stands for a request that throws; the source always catches it.
- Every operation that talks to Webshare returns the requests it made (`Traced`). That makes "no search", "no link lookups" and "only the first ten" statable.
- SHA-1, bcrypt, the fresh uuid and the clock are parameters.

Modules, in dependency order:

- `Wrappers`: `Option` and `Traced`.
- `Text`: `split`, `padStart`, `includes`, decimal digit strings.
- `Mac`: the MAC-address pattern.
- `JsNumbers`: `parseInt`, unary `+` on decimal integers, and `toFixed(0)` of a size in megabytes.
- `Patterns`: JavaScript's `/<tag>(.*?)<\/tag>/` and the global `/<file>[\s\S]*?<\/file>/g`, with exact leftmost-lazy semantics and JavaScript's line terminators.
- `Webshare`: the requests, the search parser and the link lookup.
- `Credentials`: `getWst`.
- `Sequential`: an awaited loop over a sequence that keeps the values its body yields.
- `Addon`: query building, stream entries, the top-ten resolution and the handler.
- `Accounts`: the store and the admin routes.
- `Gate`: the mount-path middleware, its interplay with the admin routes, and a stream request end to end.

In these cases the model follows the code:

- **Gate refusals.** A refused request is answered with status 400, 401 or 403. It is not answered with an empty stream list.
- **Empty links.** A link that resolves to the empty string is dropped as well as a missing one (`if (streamUrl)`).
- **Missing names.** A result without a `<name>` is titled `undefined`.
- **Short series ids.** A series id with fewer than three `:`-separated parts makes the handler throw. The model treats this as a possible input with a `Rejected` outcome, not as a precondition.
- **Salt errors.** `getWst` reports a missing salt as null, like every other failure.

## Model

| member | source | states |
|---|---|---|
| `Mac.MacCheckIsRegex` | server.js:17 | The positional check accepts a string iff the anchored, case-insensitive pattern does. That pattern is two hex digits followed by exactly five groups of `:` and two hex digits. |
| `Mac.MacExamples` | server.js:17 | `AABBCCDDEEFF` is rejected; the mixed-case `aa:BB:cc:DD:ee:FF` is accepted. |
| `Mac.MacUpperExample` | server.js:17 | `AA:BB:CC:DD:EE:FF` is accepted. |
| `Text.Includes` | server.js:76 | True iff the pattern occurs at some position of the text. |
| `Text.Split` | addon.js:60 | Returns at least one part, no part contains the separator, and joining the parts with it gives the text back. |
| `Text.SplitJoin` | addon.js:62 | Splitting a join of separator-free parts recovers exactly those parts: the inverse direction. |
| `Text.SplitFirstPart` | addon.js:60 | The first part is the text up to the first separator, or the whole text when there is none. |
| `Text.PadStart` | addon.js:63 | The result is the input preceded by exactly max(0, width − length) fill characters, with lengths counted in code points. |
| `Patterns.SearchFrom` | addon.js:28 | Finds the leftmost `<tag>…</tag>` match at or after a position; its close is the first close tag after the open, with no line terminator in between unless dot-all. None iff no such match exists. |
| `Patterns.FirstCapture` | addon.js:28-30 | None iff the text has no match. Otherwise it is the text between the tags of the leftmost match. |
| `Patterns.RepeatSearchSound` | addon.js:26 | A global match reports only real matches: they are disjoint and in order of appearance. |
| `Patterns.RepeatSearchComplete` | addon.js:26 | A global match skips no match: every match starts inside some reported one. |
| `Patterns.FileSpanIsMatch` | addon.js:26 | Every span the global search reports is a `<file>…</file>` match of the body. |
| `Patterns.FileMatchText` | addon.js:26 | The text of a `<file>` match begins with `<file>`, ends with `</file>`, and has no `</file>` in between. |
| `Patterns.FileSpansAreBlocks` | addon.js:26 | Every reported span lies inside the body, and its text is a `<file>` block. |
| `Patterns.FileBlocks` | addon.js:26 | Every block starts with `<file>`, ends with `</file>`, and contains no earlier `</file>`. |
| `Patterns.FileBlocksInOrder` | addon.js:26 | The blocks are the texts of disjoint `<file>` matches of the body, in order of appearance. |
| `Patterns.FileBlocksComplete` | addon.js:26 | Every `<file>…</file>` match of the body starts inside one of the blocks. |
| `JsNumbers.ParseInt` | addon.js:31 | `parseInt(s, 10)` is NaN iff no digit follows the leading white space and an optional sign; a negative result needs a `-`. |
| `JsNumbers.ToNumber` | server.js:185 | Unary `+`: blank text is 0, and a negative number needs a `-` in front of its digits. |
| `JsNumbers.ToNumberAccepts` | server.js:185 | Unary `+` gives a number iff the trimmed text is empty or is an optional sign followed by one or more digits; every other text is None: NaN, or a decimal, exponent, hexadecimal or Infinity form the model leaves out. |
| `JsNumbers.ToNumberExamples` | server.js:185 | `+"abc"` and `+"12x"` are NaN. |
| `JsNumbers.ParseIntReadsDecimal` | addon.js:31 | `parseInt` of leading white space, an optional `-`, a decimal rendering and a non-digit tail reads back the signed number. |
| `JsNumbers.ToNumberReadsDecimal` | server.js:185 | Unary `+` of a decimal rendering surrounded by white space is the signed number. |
| `JsNumbers.MegabyteText` | addon.js:75 | `toFixed(0)` of size/2^20: a leading `-` iff the size is negative, then digits with no leading zero whose value is the magnitude in megabytes rounded half up. |
| `Webshare.ParseFile` | addon.js:28-31 | The title is the first `<name>` capture (absent when there is none). The ident is non-empty iff there is a non-empty first `<ident>` capture, and is then that capture. With no `<size>`, or one `parseInt` reads as NaN, the size is 0; otherwise it is what `parseInt` reads from the first capture. |
| `Webshare.KeepIdentified` | addon.js:32 | Keeps a record iff its ident is non-empty; every kept record comes from the input. |
| `Webshare.KeepIdentifiedAppend` | addon.js:32 | Filtering distributes over concatenation, so kept records stay in their relative order. |
| `Webshare.ParseSearch` | addon.js:26-32 | There are no more records than `<file>` blocks; every record has an ident; the record of every block with an ident is among them. |
| `Webshare.ParseSearchPositions` | addon.js:26-32 | The records are, one per block and in the blocks' order of appearance, exactly the records of the `<file>` blocks that have an ident. |
| `Webshare.KeepIdentifiedPositions` | addon.js:32 | The filter keeps, in their original order, exactly the records whose ident is non-empty. |
| `Webshare.SearchWebshare` | addon.js:22-37 | With no token it makes no request and gives no results. Otherwise it makes exactly one search request (limit 50, category video): a failure gives no results and a body gives its parsed records. |
| `Webshare.GetStreamUrl` | addon.js:39-49 | With no ident or no token it makes no request and gives null. Otherwise it makes one file-link request; a failed request gives null and a body gives its first `<link>` capture (null when there is none). |
| `Credentials.GetWst` | server.js:64-84 | With no username or password it gives null and makes no request. Otherwise the first request is the salt request, and the check request follows exactly when a `<salt>` was captured; that request carries sha1(salt + sha1(password)) of the first capture. A token is returned iff the check body contains `<status>OK</status>`, and it is that hash. |
| `Sequential.Collect` | addon.js:72-82 | The loop keeps at most one value per element. |
| `Sequential.CollectStep` | addon.js:72-82 | One more iteration extends the kept values by what the body yields on the next element, and the requests by its requests. |
| `Sequential.CollectAppend` | addon.js:72-82 | Running the loop over `a + b` is running it over `a` then `b`, for both values and requests. |
| `Sequential.CollectSound` | addon.js:72-82 | Every kept value is what the body yielded for some element. |
| `Sequential.CollectComplete` | addon.js:72-82 | Every value the body yields is kept. |
| `Sequential.CollectAllSome` | addon.js:72-82 | When the body yields on every element, the values line up with the elements one to one. |
| `Sequential.CollectOneCallEach` | addon.js:72-82 | When the body makes one request per element, the requests line up with the elements. |
| `Sequential.CollectCount` | addon.js:72-82 | The number of kept values is the number of elements on which the body yields. |
| `Addon.BuildQuery` | addon.js:60-64 | For a movie, the query is the id up to its first `:`. For a series, the query exists iff the id has at least three parts. |
| `Addon.SeriesQuery` | addon.js:62-63 | `imdb:season:episode` gives `imdb Sss Eee`, with season and episode padded to two characters. |
| `Addon.SeriesQueryExtra` | addon.js:62-63 | Parts after the third are ignored: `imdb:season:episode:rest` gives the same query as `imdb:season:episode`. |
| `Addon.PaddedDigits` | addon.js:63 | A season or episode number below 100 becomes exactly two digits of that value. |
| `Addon.PadOneDigit` | addon.js:63 | `padStart(2, '0')` puts one `0` before a single character. |
| `Addon.PadTwoDigits` | addon.js:63 | `padStart(2, '0')` leaves two characters as they are. |
| `Addon.OneDigitSeriesQuery` | addon.js:62-63 | `imdb:s:e` with one-character season and episode gives `imdb S0sE0e`. |
| `Addon.TwoDigitSeriesQuery` | addon.js:62-63 | `imdb:ss:ee` with two-character season and episode keeps them unpadded. |
| `Addon.MovieQueryExample` | addon.js:60 | A colon-free movie id `imdb` is searched for as it is. |
| `Addon.SeasonOneQueryExample` | addon.js:62-63 | For a colon-free `imdb`, `imdb:1:5` is searched for as `imdb S01E05`. |
| `Addon.TwoDigitQueryExample` | addon.js:62-63 | For a colon-free `imdb`, `imdb:11:23` is searched for as `imdb S11E23`, with no padding. |
| `Addon.SizeLabel` | addon.js:75 | Empty iff the size is 0; otherwise it ends with ` MB`. |
| `Addon.DescribeShowsName` | addon.js:78 | A stream title shows the result's name right after `[Webshare] `. |
| `Addon.Describe` | addon.js:75-80 | An entry carries the resolved link as url and `Webshare` as name. Its title is the `[Webshare] ` line with the name (`undefined` when missing), a newline and the size label. |
| `Addon.Attempt` | addon.js:73-74 | One iteration makes exactly the link lookup's requests. It yields an entry iff the link is non-null and non-empty (`if (streamUrl)`), and that entry is described from the link. |
| `Addon.ResolveAppend` | addon.js:72-82 | Resolving `a + b` is resolving `a` then `b`, so entries keep the order of their results. |
| `Addon.ResolveSound` | addon.js:72-82 | Every entry belongs to some result whose link resolved to a non-empty url. It carries that url, the title and the name `Webshare`. |
| `Addon.ResolveComplete` | addon.js:72-82 | Every result whose link resolves to a non-empty url has its entry; failures are dropped silently. |
| `Addon.ResolveAllSucceed` | addon.js:72-82 | When every link resolves, there is exactly one entry per result, in order. |
| `Addon.ResolveCalls` | addon.js:72-73 | Each result gets exactly one file-link request, in order. |
| `Addon.ResolveCount` | addon.js:72-82 | The number of entries equals the number of results whose link resolved to a non-empty url. |
| `Addon.TopResults` | addon.js:72 | `slice(0, 10)` is a prefix of at most ten results, and is exactly ten when there are more. |
| `Addon.Pipeline` | addon.js:66-82 | The pipeline gives at most ten entries; with no token it gives nothing and makes no request. |
| `Addon.PipelineRequests` | addon.js:66-82 | The requests are one search, then one link lookup for each of the first ten results, in order. The eleventh result and later get none. |
| `Addon.TopResultsCalls` | addon.js:71-73 | Resolving the first ten of a list of identified results makes one link request for each of them, in order. |
| `Addon.NoResultsNoLookups` | addon.js:67-69 | An empty search result gives no entries and makes no link lookups. |
| `Addon.AllResolvedShown` | addon.js:71-82 | When every link resolves, each entry carries its result's link and the name `Webshare`, and shows the result's name. |
| `Addon.AllLinksResolve` | addon.js:66-84 | A search with at most ten results whose links all resolve gives exactly one entry per result. |
| `Addon.ResolveTop` | addon.js:71-82 | The awaited loop over `results.slice(0, 10)` computes the sequential resolution of the top ten, both entries and requests. |
| `Addon.StreamHandler` | addon.js:52-85 | With no token: no streams and no requests. A series id that cannot be split is rejected with no request. Otherwise the answer and the requests are the pipeline's for the built query, with at most ten streams. |
| `Accounts.FirstMatch` | server.js:224 | Gives the first device the filter accepts, or None iff no device matches. |
| `Accounts.CalcExpiry` | server.js:99-101 | The expiry is not before now iff the days are not negative, and equals now iff the days are 0. |
| `Accounts.CalcExpiryWholeDays` | server.js:99-101 | The expiry lies a whole number of days (86 400 000 ms each) after now, and that number is `days`. |
| `Accounts.EnsureUser` | server.js:182-186 | An existing user is kept as is. An absent one is created iff the days are a number and the hash is non-empty, with the expiry set that many days from now. |
| `Accounts.AddDeviceWith` | server.js:177-193 | The `/admin/add` route, given `getWst`'s answer as `wst` (`Accounts.AddDevice` passes it in). A missing field or a bad MAC gives 400, leaves the store unchanged and makes no request. Success holds iff the user exists or can be created and the token is fresh. When no user can be created, the store is unchanged and no request is made. Once the user exists, the users are those `EnsureUser` left, even when the device insert then fails, and the requests are those of `getWst`. On success exactly one device is appended, carrying the `wst` answer. Existing users never change. |
| `Accounts.EnsureUserKeepsNames` | server.js:182-186 | Creating a user under a non-empty name with a non-empty hash keeps every stored name and hash non-empty. |
| `Accounts.AppendPreservesValid` | server.js:188-190 | Appending a well-formed device with an unused token keeps the store valid. |
| `Accounts.TestWebshare` | server.js:195-203 | Redirects to the success page iff `getWst` yields a non-empty token, which happens only when Webshare accepted the salted hash; otherwise to the failure page. The requests are those of `getWst`. |
| `Accounts.RevokeDevice` | server.js:205-209 | Always redirects and leaves users untouched. Removes exactly the first device of that user with that MAC, and nothing when there is none. |
| `Accounts.ResetExpiry` | server.js:210-215 | Empty days give 400, and non-numeric days give a failure; both leave the store unchanged. Otherwise only that user's expiry changes, to the given days from now. |
| `Accounts.AddDevicePreservesValid` | server.js:177-193 | Adding keeps the store valid, whatever `getWst` answered: required fields non-empty, tokens unique, device ids well-formed MACs. |
| `Accounts.RevokePreservesValid` | server.js:205-209 | Revoking keeps the store valid. |
| `Accounts.ResetPreservesValid` | server.js:210-215 | Resetting keeps the store valid. |
| `Gate.Status` | server.js:222-228 | Refusals map to 400 for a bad MAC, 401 for an unknown device and 403 for an expired or missing owner. |
| `Gate.DeviceConfig` | server.js:231-233 | A configuration is passed iff the device has a non-empty `wst`, and it carries that token. |
| `Gate.Authorize` | server.js:220-236 | A bad MAC gives 400 whatever the store holds. 401 iff no device holds both that token and that MAC. Otherwise the verdict is pass iff the owner exists and now ≤ expiry, so the expiry instant itself still passes; a pass carries that device's configuration. |
| `Gate.OnlyGrant` | server.js:224 | In a valid store any device holding the token and MAC is the one the lookup finds. |
| `Gate.AuthorizeDevice` | server.js:224-235 | A stored device is admitted with its own configuration while its owner is live, and refused with 403 afterwards. |
| `Gate.AddedDeviceAdmitted` | server.js:188-190 | A device just added passes the gate with the Webshare token `getWst` derived until its owner's expiry, and gets 403 after. |
| `Gate.NewUserExpiry` | server.js:99-101 | A newly created user's device passes exactly up to now + days × 86 400 000 ms. |
| `Gate.RevokedDeviceRefused` | server.js:207 | After a revoke, the revoked device's token gets 401. |
| `Gate.RevokeKeepsOthers` | server.js:207 | After a revoke, every other device gets the verdict it got before. |
| `Gate.ResetReopensAccess` | server.js:213 | After a reset by d days, the user's devices pass exactly up to now + d × 86 400 000 ms and get 403 after. |
| `Gate.ServeStream` | server.js:220-236 | A refused request never reaches Webshare. A device without a Webshare token gets no streams. When a query can be built, an admitted request gets the pipeline's answer for the device's own token, with at most ten streams. An unsplittable series id is rejected with no request. |

## Left out

- HTTP plumbing is not modelled: Express, body-parser, the Stremio SDK router, the manifest and its `idPrefixes` filter, and the JSON round trip of `config` through the route parameters. The handler receives the configuration directly.
- The database connection middleware and its 500 answer are not modelled. `connectDB` keeps the first connection promise, even a rejected one, so after one failed connect every later request gets 500 and nothing is retried.
- The admin dashboard HTML is not modelled. It is string templating.
- `adminAuth` is not modelled; every admin route is taken as authenticated. It decodes a Basic header through `Buffer`. It also splits on `:`, so a password containing `:` is truncated.
- SHA-1, bcrypt, uuid and the clock are parameters, not implementations. A duplicate or empty uuid is allowed and makes the device insert fail.
- Logging (`console.error`) is not modelled.
- Concurrency is not modelled. Two concurrent adds for the same new username race between `findOne` and `create`.
- Timeouts and request cancellation are not modelled. A timeout is the same as a failed request (None).
- Undefined form fields are not modelled: every field is a present string, and "" stands for a missing one. In particular, Mongoose drops `undefined` keys from a filter, so a revoke without a username would match any user's device with that MAC.
- Express's handling of a rejected promise in an async route is not modelled. Such a rejection is the `Failed` outcome, and what the client then sees depends on the Express version.
- `JsNumbers.ToNumber` (used for `+daysValid`) handles decimal integers only. Fractional, exponent, hexadecimal and `Infinity` texts count as not a number, although `+` accepts them.
- `Accounts.CalcExpiry`: the valid Date range (±8.64e15 ms) is not enforced. An expiry outside it would make the Mongoose cast fail, but the model stores it.
- `Webshare.ParseFile`: `parseInt` giving NaN is represented as size 0. Both are falsy in the size label, which is the only use. Sizes are unbounded integers, so precision lost beyond 2^53 is not modelled.
- `JsNumbers.MegabyteText` computes the exact rounding of size/2^20. That matches JavaScript's double arithmetic only while the size is an exactly representable integer, below 2^53.
- `JsNumbers.ToNumberAccepts`: the condition it states is the model's decimal-integer reading. Unary `+` also accepts `1.5`, `1e3`, `0x10` and `Infinity`, which the model reads as None.
- `Text.PadStart`: widths count code points, not UTF-16 code units. So a season or episode containing a character outside the Basic Multilingual Plane (such as U+1F600, two units in JavaScript) is padded, where `padStart(2, '0')` leaves it alone. `split`, `includes`, the MAC check and the tag captures are unaffected, because every separator and pattern is ASCII.
- `Addon.BuildQuery`: for a series id with too few parts the handler throws. The error answer the SDK then produces is not modelled beyond the `Rejected` outcome.

# URL shortener core, modelled in Dafny

This project models the core of a Flask URL shortener and proves properties of the model. The shortener stores each long URL as a row of a `urls` table. It gives the row a short code, which is the base-62 numeral of the row's auto-increment id. Redirects go through a Redis cache, and a redirect logs a click against the code's active row when there is one. The modelled parts are:

- **Codec** (`app/encoder.py`): the 62-character alphabet, `base62_encode` and `base62_decode`. It is modelled both as reference functions and as the source's two loops, with proofs that they agree.
- **Validators** (`app/validators.py`): `validate_url` as an ordered chain of checks, where the first failing check chooses the message. `sanitize_url` is `str.strip`.
  - **UrlParse** models the part of `urllib.parse.urlparse` that the validator looks at, following CPython 3.12.0's `urlsplit`: the scheme, the network location, and its two errors. One is the unbalanced-bracket error. The other is raised by `_check_bracketed_host` for a bracketed host that is neither an IPv6 nor an IPvFuture literal.
  - **IpAddress** models which strings the standard library's `ipaddress` parsers accept as IPv4 and IPv6 addresses, as far as that host check needs.
  - **UrlPattern** writes `URL_REGEX` as predicates.
  - **Text** holds Python's `str.isspace`, `str.strip`, `str.find`, `str.split` and ASCII lower-casing.
  - **Seqs** holds sequence reversal, which the codec and the analytics share.
- **Cache** (`app/cache.py`): the Redis key space as a map. Every call takes a flag saying whether the backend fails. A failure is absorbed: a lookup misses, and a write or delete changes nothing.
- **Models** (`app/models.py`): the `Url` and `ClickLog` records, their column defaults, and their `to_dict` views.
- **Store**: the two tables as sequences in insertion order, with both auto-increment counters. It has four primitives (insert, append a click, bump a counter, deactivate) and the invariant `Valid` that the database keeps between requests.
- **Analytics**: the computations inside `get_analytics`:
  - clamping `page` and `per_page`;
  - the page slice of the newest-first click list and the page count;
  - the per-day click counts, limited to the 30 most recent days.
- **Routes** (`app/routes.py`): the five handlers and the two click helpers. Each is a pure transition of a system made of the database and the cache. A handler takes the request and an environment (clock, base URL, cache faults) and returns the response and the next system.
- **Behaviour**: properties of the whole application.
  - The invariant `Consistent` is `Valid` plus "every cached URL is registered under its code". Every handler preserves it, and so does any sequence of requests.
  - Redirects therefore only ever go to registered URLs.
  - Request scenarios: shorten then redirect; delete then not found; a stale cache entry after a failed delete; an expired code then not found.

As in the source, the cache-hit path of `redirect_short_url` follows the cached URL. It re-checks neither the row's active flag nor its expiry. Only the click counting looks up the active row.

The shorten handler writes a placeholder short code before the id is known. The source's placeholder `"tmp"` is itself a base-62 code, that of id 112865 (see Findings). The model carries both variants:

- `Routes.ShortenAsWritten` uses `"tmp"`;
- `Routes.Shorten` uses `"_tmp"`, which is not a base-62 code.

The application model `Behaviour.Handle`, and the whole-application lemmas about it, take the placeholder as a parameter. They therefore hold of the program as written as well as of the corrected one.

## Model

| member | source | states |
|---|---|---|
| Codec.CharsetAt | app/encoder.py:9-10 | the alphabet has 62 characters, and the character of value `d` is the `d`-th digit, lower-case letter or upper-case letter, in that order |
| Codec.CharsetDistinct | app/encoder.py:9 | no character occurs twice in the alphabet |
| Codec.IsDigitIff | app/encoder.py:9 | a character is in the alphabet exactly when it is an ASCII digit or letter |
| Codec.IndexOf | app/encoder.py:31 | `CHARSET.index(c)` finds a position holding `c`, and finds none exactly for characters outside the alphabet |
| Codec.IndexOfCharset | app/encoder.py:31 | looking up the character at position `d` gives back `d` |
| Codec.Encode | app/encoder.py:13-24 | the code of an id is non-empty, made of alphabet characters, and has no leading zero digit; it is `"0"` exactly for id 0 |
| Codec.EncodeZero | app/encoder.py:17-18 | id 0 is written `"0"` |
| Codec.EncodeChecked | app/encoder.py:15-16 | a negative id is an error, and every other id gets a canonical code that decodes back to it |
| Codec.DecodeFrom | app/encoder.py:29-33 | the decoding loop succeeds exactly when every character is in the alphabet; otherwise the error names a character outside it |
| Codec.Decode | app/encoder.py:27-33 | decoding succeeds exactly on strings over the alphabet |
| Codec.RoundTrip | app/encoder.py:13-33 | decoding the code of `n` gives `n` |
| Codec.EncodeInjective | app/encoder.py:6 | distinct ids get distinct codes |
| Codec.EncodeDecodeCanonical | app/encoder.py:13-33 | every canonical code is the code of the id it decodes to, so encoding is a bijection onto canonical codes |
| Codec.DigitsOfDecode | app/encoder.py:20-33 | a string over the alphabet with no leading zero is the numeral of its decoded value |
| Codec.DigitsSnoc | app/encoder.py:20-24 | the code of a non-zero `v * 62 + d` is the code of `v` followed by digit `d`, which is what one turn of the encoding loop adds |
| Codec.DecodeFromSnoc | app/encoder.py:30-32 | decoding one more character at the end is one more turn of the loop |
| Codec.DecodeLeadingZeros | app/encoder.py:29-33 | leading zero digits do not change the decoded value |
| Codec.DecodeNotInjective | app/encoder.py:29-33 | `""`, `"0"` and `"00"` all decode to 0 |
| Codec.EncodeLength | app/encoder.py:21-24 | a code has at most `k` characters exactly when the id is below `62^k` |
| Codec.SixCharacterCapacity | app/encoder.py:5 | `62^6` is 56,800,235,584, and every id below it has a code of at most six characters |
| Codec.CodeFitsColumn | app/models.py:15 | a code fits the ten-character `short_code` column exactly when the id is below `62^10` |
| Codec.EncodeIterative | app/encoder.py:13-24 | the remainder-collecting loop followed by reversal computes `Encode`, and fails on a negative id |
| Codec.DecodeIterative | app/encoder.py:27-33 | the one-pass loop computes `Decode`, stopping at the first character outside the alphabet |
| Seqs.Reversed | app/encoder.py:24 | `reversed` keeps the length and puts the `k`-th item from the end at position `k` |
| Text.Strip | app/validators.py:36-39 | stripping leaves no white space at either end, never lengthens, and gives the empty string exactly for all-white-space input |
| Text.StripIsInfix | app/validators.py:39 | the stripped string is the infix between a white-space prefix and a white-space suffix |
| Text.StripIdempotent | app/validators.py:58-60 | stripping twice is stripping once |
| Text.TrimmedIsFixed | app/validators.py:58-60 | a string with no white space at either end is its own strip |
| Text.Lower | app/validators.py:24 | lower-casing keeps the length and folds each ASCII upper-case letter |
| Text.FindChar | app/validators.py:44 | `str.find` gives the first position of the character, or none exactly when it does not occur |
| Text.Split | app/validators.py:44 | `str.split` gives at least one piece, no piece holds the separator, and the pieces joined with the separator give back the string |
| Text.SplitJoin | app/validators.py:44 | splitting the join of separator-free pieces gives back exactly those pieces |
| UrlParse.LStripC0 | app/validators.py:44 | `urlsplit` first drops a prefix of C0 controls and spaces and keeps the rest |
| UrlParse.RemoveUnsafe | app/validators.py:44 | `urlsplit` then deletes tab, carriage return and line feed: none is left, a string holding none of them is unchanged, and a single character is kept exactly when it is not one of them |
| UrlParse.RemoveUnsafeAppend | app/validators.py:44 | deleting distributes over concatenation; with the one-character case this makes the result the input with exactly those three characters removed, in order |
| UrlParse.RemoveUnsafeCounts | app/validators.py:44 | every other character occurs in the result exactly as often as in the input |
| UrlParse.NetlocEnd | app/validators.py:44 | the network location ends at the first `/`, `?` or `#`, or at the end of the string |
| UrlParse.NetlocEndAt | app/validators.py:44 | that end is unique: any position with no delimiter before it and a delimiter (or the end) at it is the end |
| UrlParse.SplitScheme | app/validators.py:44-46 | the scheme is the lower-cased text before a colon exactly when that text starts with an ASCII letter and has only scheme characters, and the rest follows the colon; otherwise the scheme is empty and the whole string is the remainder |
| UrlParse.SplitNetloc | app/validators.py:44-49 | without a leading `//` the network location is empty; with one it is the text up to the first `/`, `?` or `#`; the split fails exactly when that text has unbalanced brackets (the IPv6 error) or a bracketed host that is neither an IPv6 nor an IPvFuture literal |
| UrlParse.BracketedHost | app/validators.py:44 | the host checked inside brackets is the text after the first `[` up to the next `]`, or to the end when none follows |
| UrlParse.ColonlessBracketedHostRaises | app/validators.py:44 | a bracketed host with no colon that does not start with `v`, such as `[abc]` or `[1.2.3.4]`, makes `urlparse` raise |
| UrlParse.ColonFreeSplit | app/validators.py:44 | `urlparse` of a URL with no colon and no bracket, such as `"not-a-url"`, does not raise and yields an empty scheme |
| UrlParse.BracketedFullFormAccepted | app/validators.py:44 | an uncompressed IPv6 address in brackets passes both bracket checks |
| UrlParse.UrlSplit | app/validators.py:44 | `urlparse` strips leading controls and spaces, deletes tab, carriage return and line feed, and then gives the scheme and network location of the two splits; it raises exactly when the network-location split does, with the same error |
| IpAddress.NoColonNotIpv6 | app/validators.py:44 | text with no colon is never an IPv6 address |
| IpAddress.Ipv4NotIpv6 | app/validators.py:44 | an IPv4 address is never an IPv6 address, so for a host not starting with `v` the bracket check passes exactly the IPv6 addresses |
| IpAddress.QuadIsIpv4 | app/validators.py:44 | four valid octets joined by dots are an IPv4 address |
| IpAddress.FullFormIsIpv6 | app/validators.py:44 | eight hextets of one to four hex digits joined by colons are an IPv6 address |
| UrlPattern.HostChars | app/validators.py:17-21 | a host matched by the pattern is non-empty and holds only label characters and dots |
| UrlPattern.DottedLabelsChars | app/validators.py:18 | the dotted labels of a domain hold only label characters and dots |
| UrlPattern.DigitGroupsChars | app/validators.py:20 | a dotted quad is non-empty and holds only digits and dots |
| Validators.ValidateUrl | app/validators.py:28-55 | each verdict holds exactly under its own condition, checked in order: missing or all-white-space gives the required message; a stripped URL over 2048 characters gives the length message; then a `urlparse` error propagates as raised, a refused scheme gives the scheme message, an empty network location the domain message, and a failed pattern match the format message; acceptance is the remaining case |
| Validators.ValidateStripped | app/validators.py:41-55 | after stripping, each verdict holds exactly under its condition in the order of the checks: length, `urlparse` error, scheme, network location, pattern; an accepted URL has an allowed scheme and a non-empty network location |
| Validators.AsPair | app/validators.py:28-55 | the returned pair is `(True, "")` exactly for an accepted URL, and a rejection always carries a non-empty message |
| Validators.SanitizeUrl | app/validators.py:58-60 | the sanitized URL has no white space at either end, and is empty exactly for all-white-space input |
| Validators.SanitizeStripped | app/validators.py:58-61 | sanitizing an already stripped URL changes nothing |
| Validators.SanitizeIdempotent | app/validators.py:58-60 | sanitizing is idempotent and never changes the verdict of `validate_url` |
| Validators.MatchesImpliesSplit | app/validators.py:44-53 | a stripped URL that matches the pattern also passes the scheme and domain checks, so those checks only choose the message |
| Validators.SplitOfShape | app/validators.py:15-44 | for a URL shaped as the pattern demands, `urlparse` gives the lower-cased scheme and the host-and-port text |
| Validators.AcceptedExactly | app/validators.py:36-55 | a URL is accepted exactly when its stripped form is non-empty, at most 2048 characters long, and matches the pattern |
| Validators.WrongSchemeRejected | app/validators.py:46-47 | a stripped URL of allowed length whose scheme is neither `http` nor `https` gets the scheme message |
| Validators.ColonFreeRejected | test_api.py:30-33 | a stripped, non-empty URL of at most 2048 characters with no colon and no bracket, such as `"not-a-url"`, is rejected for its scheme |
| Cache.Key | app/cache.py:23-40 | the key of a code is the code behind the prefix `url:` |
| Cache.KeyInjective | app/cache.py:39-40 | two codes share a key exactly when they are equal |
| Cache.Get | app/cache.py:47-60 | a lookup returns the stored URL; it misses exactly when the key is absent or the backend fails |
| Cache.SetWithTtl | app/cache.py:63-69 | a successful write stores the URL with its time-to-live, a failed one changes nothing, and no other key changes |
| Cache.Set | app/cache.py:63-69 | the default time-to-live is 3600 seconds |
| Cache.Invalidate | app/cache.py:72-78 | a successful delete removes the key, a failed one changes nothing, and no other key changes |
| Cache.GetAfterSet | app/cache.py:47-69 | a successful write is read back by the next successful lookup |
| Cache.GetAfterInvalidate | app/cache.py:47-78 | after a successful delete the code misses |
| Cache.OtherCodesUntouched | app/cache.py:63-78 | writing or deleting one code leaves every other code's lookup as it was |
| Cache.FailureIsInvisible | app/cache.py:63-78 | a failed write or delete is invisible to every later lookup |
| Models.NewUrl | app/models.py:14-22 | a new row is active, has no clicks, and is stamped with its insertion time |
| Models.ShortUrl | app/models.py:34 | `short_url` is the base URL, a slash and the code when a base URL is set, and the bare code otherwise |
| Models.ShortUrlInjective | app/models.py:34 | under one base URL, distinct codes give distinct short URLs |
| Models.ToDict | app/models.py:29-40 | the view copies every column |
| Models.ToDictLossless | app/models.py:29-40 | the row can be recovered from its view, and the view's short URL is built from the base URL and the code |
| Models.ClickToDict | app/models.py:59-66 | the click view copies the id, address, user agent, referer and time |
| Models.ClickToDictLossless | app/models.py:59-66 | a click is recovered from its view and the id of its URL |
| Store.FindActive | app/routes.py:98 | the lookup finds the first active row carrying the code, and finds none exactly when no active row carries it |
| Store.ClicksFor | app/routes.py:168 | the clicks of a URL are clicks of the log carrying that URL's id |
| Store.ClicksForSnoc | app/routes.py:227-235 | appending a click extends exactly the selection of its own URL |
| Store.ClicksForComplete | app/routes.py:168 | every click of the log carrying the id is selected |
| Store.ClicksForAppend | app/routes.py:168 | the selection from two logs joined is the two selections joined, so the selected clicks keep log order |
| Store.Insert | app/routes.py:73-80 | an insert appends the new row under the next id and advances that counter; the click log is untouched |
| Store.AppendClick | app/routes.py:229-235 | a click is appended under the next click id; the URL rows are untouched |
| Store.Increment | app/routes.py:238-244 | the counter of one row goes up by one, and nothing else changes |
| Store.Deactivate | app/routes.py:215-216 | one row becomes inactive, and nothing else changes |
| Store.InitialValid | app/models.py:14-22 | the empty database is valid |
| Store.UniqueCodes | app/models.py:15 | in a valid store, distinct rows have distinct ids and distinct codes |
| Store.FindActiveUnique | app/routes.py:98 | in a valid store, the active row a code finds is the only row with that code |
| Store.InsertValid | app/routes.py:73-80 | inserting the row of the next id under that id's code keeps the store valid |
| Store.ClickValid | app/routes.py:142-144 | logging a click on a row and bumping its counter keeps the store valid: counters still equal the number of logged clicks |
| Store.DeactivateValid | app/routes.py:215-216 | deactivating a row keeps the store valid |
| Store.PrimitivesEvolve | app/routes.py:73-235 | every primitive only moves the store forward: rows are never removed, and they keep id, code, URL and times; counters never decrease, and an inactive row stays inactive |
| Store.EvolvesTransitive | app/routes.py:73-244 | moving forward twice is moving forward |
| Analytics.Page | app/routes.py:162-170 | the page is the requested one when at least one, and page 1 when it is absent or below one |
| Analytics.PerPage | app/routes.py:163-170 | the page size is capped at 100, and is 20 when absent or below one |
| Analytics.PagingIdempotent | app/routes.py:162-164 | asking again for the page and size that were granted grants the same |
| Analytics.Slice | app/routes.py:166-171 | a page holds at most `per_page` items, taken in order from the items before it; it is short only at the end of the list |
| Analytics.PageCount | app/routes.py:199 | the page count is 0 for no items, and otherwise the least `n` with `n * per_page` at least the total |
| Analytics.ItemOnItsPage | app/routes.py:166-199 | every item appears on a page within the page count, at the position its index gives |
| Analytics.PageNonEmptyIff | app/routes.py:166-199 | a page holds items exactly when its number is at most the page count |
| Analytics.RecentClicks | app/routes.py:166-194 | `recent_clicks` lists the clicks in reverse log order, the requested page of them; the page is non-empty exactly when it is within the page count |
| Analytics.ClickOnItsPage | app/routes.py:166-194 | every click is listed on the page and at the position its rank from the newest gives |
| Analytics.RecentNewestFirst | app/routes.py:166-169 | when click times never decrease along the log, every page runs from the latest `clicked_at` to the earliest, as `order_by(clicked_at.desc())` asks |
| Analytics.CountOnWitness | app/routes.py:174-180 | a day has a non-zero count only if some click fell on it |
| Analytics.CountOnCounts | app/routes.py:174-180 | every day on which a click fell has a non-zero count |
| Analytics.LatestDay | app/routes.py:181 | the latest day has clicks, and no click is later |
| Analytics.Before | app/routes.py:181-182 | the clicks before a day keep every older day's count and nothing else |
| Analytics.DailyCounts | app/routes.py:174-184 | the breakdown has at most `limit` rows, and is empty exactly when there are no clicks or no rows are allowed |
| Analytics.DailyCountsSound | app/routes.py:174-184 | each row counts all clicks of its day, which has some, and the rows run newest day first with no day twice |
| Analytics.DailyCountsComplete | app/routes.py:181-182 | a day with clicks is left out only when `limit` more recent days fill the breakdown |
| Analytics.Summarise | app/routes.py:186-202 | the report shows the row's view, its click count, the 30-day breakdown and the clamped page of recent clicks; the page lists clicks exactly when it is within the page count, and the breakdown is empty exactly when there are no clicks |
| Routes.RequestedUrl | app/routes.py:54 | an absent `url` member reads as the empty string; a string member gives exactly its stripped text; any other member makes `.strip()` raise |
| Routes.RequestedExpiry | app/routes.py:64-69 | an absent or falsy `expires_at` (null, false or the empty string) means no expiry; a truthy non-string is refused as not a string; a non-empty string is parsed, giving its time, or counts as unparsable exactly when the parser refuses it |
| Routes.Persist | app/routes.py:71-83 | the row is created exactly when the placeholder is free and the next code fits the column and is free; it is then inserted under the next id and written through to the cache; otherwise the request fails with 500 and changes nothing |
| Routes.ShortenWith | app/routes.py:46-89 | a missing, falsy or empty-object body is a 400 "Request body must be JSON"; a row is created exactly when the body is an object whose URL is accepted, whose expiry is usable and which can be persisted; every other outcome changes nothing |
| Routes.ShortenUrl | app/routes.py:56-69 | a rejected URL is a 400 with the validator's message; an unparsable expiry is a 400 with the ISO-8601 message; neither changes anything |
| Routes.ShortenValid | app/routes.py:61-83 | after validation, the row is created exactly when the expiry is usable and the row can be persisted, and it stores the stripped URL and the parsed expiry |
| Routes.GetUrlInfo | app/routes.py:94-103 | the metadata of the active row for the code, or a 404 exactly when there is none |
| Routes.ClientAddress | app/routes.py:231 | the client address when there is a non-empty one, and `"unknown"` exactly when it is missing or empty |
| Routes.Header | app/routes.py:232-233 | a header's value, or the empty string when it is absent |
| Routes.LogClick | app/routes.py:227-235 | one click is appended with the URL id, the address, both headers and the time; the URL rows are untouched |
| Routes.CountClick | app/routes.py:142-144 | a counted click appends one log entry for the row and raises its counter by one, leaving the other rows alone |
| Routes.LogClickAndIncrement | app/routes.py:238-244 | the click is counted exactly when the code has an active row, and nothing changes otherwise |
| Routes.RedirectShortUrl | app/routes.py:108-148 | a redirect answers 302, a 404 "not found" or a 404 "expired"; a "not found" changes nothing |
| Routes.RedirectOnHit | app/routes.py:115-122 | on a cache hit with a non-empty URL the response redirects to the cached URL whatever the row's state; the click is counted exactly when an active row exists; the cache is untouched |
| Routes.RedirectOnMissUnknown | app/routes.py:125-127 | on a miss, a code with no active row is a 404 and nothing changes |
| Routes.RedirectOnMissExpired | app/routes.py:129-134 | on a miss, an expired row is deactivated, its cache entry dropped unless the delete fails, and no click is counted |
| Routes.RedirectOnMissLive | app/routes.py:136-148 | on a miss, a live row is followed, cached unless the write fails, and counted once |
| Routes.GetAnalytics | app/routes.py:153-202 | analytics is a 404 exactly when the code has no active row; otherwise the page size is 1 to 100, and there are at most `per_page` recent clicks and at most 30 daily rows |
| Routes.AnalyticsTotalsAgree | app/routes.py:186-202 | in a valid store `total_clicks` equals the pagination total |
| Routes.DeleteUrl | app/routes.py:207-220 | a delete answers 204 exactly when the code has an active row; it deactivates the row, and drops the cache entry unless the delete fails; otherwise it is a 404 with nothing changed |
| Behaviour.StartConsistent | app/models.py:9-66 | the empty system is consistent |
| Behaviour.RegisteredPersists | app/routes.py:73-244 | a code registered to a URL stays registered as the store moves forward |
| Behaviour.SoundAfterEvolve | app/routes.py:73-244 | a store that moves forward keeps a sound cache sound |
| Behaviour.SoundAfterSet | app/routes.py:136-139 | caching a registered URL under its code keeps the cache sound, whether or not the write fails |
| Behaviour.SoundAfterInvalidate | app/routes.py:215-218 | dropping an entry keeps the cache sound |
| Behaviour.CountClickValid | app/routes.py:238-244 | counting a click keeps the store valid and moves it forward |
| Behaviour.FreshCodeUnused | app/routes.py:75-79 | in a valid store no row carries the code of the next id |
| Behaviour.NoActiveAfterDeactivate | app/routes.py:215-216 | once its active row is deactivated, a code has no active row left |
| Behaviour.InsertPreserves | app/routes.py:73-83 | inserting the next row and caching its URL keeps the system consistent |
| Behaviour.InsertedPreserves | app/routes.py:73-83 | the effect of every successful shorten keeps the system consistent and moves the store forward |
| Behaviour.ShortenPreserves | app/routes.py:46-89 | a shorten, with either placeholder, keeps the system consistent |
| Behaviour.ClickPreserves | app/routes.py:139-144 | counting a click, and caching the row's URL or not, keeps the system consistent |
| Behaviour.DeactivatePreserves | app/routes.py:215-218 | deactivating a row, and dropping a cache entry or not, keeps the system consistent |
| Behaviour.RedirectPreserves | app/routes.py:108-148 | every redirect outcome keeps the system consistent and moves the store forward |
| Behaviour.DeletePreserves | app/routes.py:207-220 | a delete keeps the system consistent and moves the store forward |
| Behaviour.RedirectGoesToRegistered | app/routes.py:115-148 | under a sound cache, a redirect leads to a URL registered under the requested code |
| Behaviour.Handle | app/routes.py:46-220 | the URL map under any placeholder: the info and analytics routes never change the system; a redirect answers a redirect or a 4xx; a delete answers 204 or 404 |
| Behaviour.HandlePreserves | app/routes.py:46-244 | every request, with any placeholder and so also with the source's `"tmp"`, keeps the system consistent and moves the store forward |
| Behaviour.RunPreserves | app/routes.py:46-244 | any sequence of requests, with any placeholder, keeps the system consistent and moves the store forward |
| Behaviour.RedirectsStayRegistered | app/routes.py:108-148 | after any history from the empty system, with any placeholder, a redirect goes to a URL registered under the requested code |
| Behaviour.ShortenRejects | app/routes.py:54-59 | a URL the validator rejects is a 400 with the validator's message, and nothing is written |
| Behaviour.ShortenReachesUrl | app/routes.py:50-57 | a body with a string `url` member reaches validation with the stripped URL, whatever the placeholder |
| Behaviour.ColonFreeRefused | test_api.py:30-33 | shortening a URL with no colon and no bracket, such as `"not-a-url"`, that is non-empty and at most 2048 characters after stripping is a 400 with the scheme message, and nothing is written |
| Behaviour.PlaceholderCollides | app/routes.py:73 | the placeholder `"tmp"` is the code of id 112865 |
| Behaviour.WrittenPlaceholderJams | app/routes.py:73-80 | as written, once the row of id 112865 exists, no shorten request can succeed |
| Behaviour.SafePlaceholderFree | app/routes.py:73 | no row of a valid store carries the placeholder `"_tmp"` |
| Behaviour.ShortenCreates | app/routes.py:54-89 | with the safe placeholder, an accepted URL with a usable expiry always creates the row of the next id, with that id's code, the stripped URL and the expiry, while the code fits the column |
| Behaviour.AfterInsert | app/routes.py:73-83 | after a shorten the new row is the last one, with the next id, its code, the URL and the expiry |
| Behaviour.InsertedIsReachable | app/routes.py:73-98 | the new row is the one its code finds, and the cache holds that URL for the code or nothing |
| Behaviour.RedirectFreshRow | app/routes.py:108-148 | when the cache holds nothing or the row's own URL, following the code of an active, unexpired, unclicked row redirects to its URL, logs one click, raises its count to one and keeps the system consistent |
| Behaviour.RedirectCountsRow | app/routes.py:115-148 | on a hit or a miss, following the code of an active, unexpired row whose cached URL, if any, is its own redirects there and counts the click on that row |
| Behaviour.RedirectAfterInsert | app/routes.py:73-148 | a redirect right after an insert goes to the inserted URL and counts one click |
| Behaviour.ShortenThenRedirect | app/routes.py:46-148 | shortening a URL and then following the new code redirects to that URL and counts one click |
| Behaviour.DeleteThenGone | app/routes.py:94-220 | after a delete, info and analytics answer 404, and so does a redirect when the cache delete went through |
| Behaviour.StaleAfterFailedDelete | app/routes.py:115-122 | when the cache delete fails, a deleted code still redirects to its cached URL, and no click is counted |
| Behaviour.ExpiredThenNotFound | app/routes.py:125-134 | after an "expired" answer whose cache delete went through, the next redirect of that code is a plain 404 that changes nothing |

## Left out

- The browser dashboard, the `index` route, database set-up, configuration and application wiring. They are user interface and plumbing.
- Rate limiting, logging and timing. The limiter module is not part of this model, and the other two have no effect on responses.
- Concurrency: requests are served one at a time. Races between a cache fill and a delete are not modelled.
- Redis connection handling and real-time expiry of entries. An entry records its time-to-live, but nothing ever ages it out.
- Database transactions. A request that raises leaves the state as it was, but an auto-increment value consumed by a rolled-back flush is not modelled as skipped.
- `paginate` and the `GROUP BY` query. They are sequences and slices of the click log.
- Analytics.RecentClicks: lists clicks in reverse insertion order rather than sorting on `clicked_at`. That is one of the orders `ORDER BY clicked_at DESC` allows when click times never decrease along the log (`Analytics.RecentNewestFirst`); clicks in the same second may come in any order there, and this is one of them. A clock that goes back is not modelled: the environment's time is not constrained to grow between requests.
- Dates and times: they are integer seconds on one clock, and the calendar day is the time divided by 86,400. `isoformat()` text is not produced.
  - ISO-8601 parsing is a function the caller supplies.
  - The comparison at `app/routes.py:130` is a strict `<` on integers. In Python it compares a value read from the database with a timezone-aware `now()`, and a naive value there would raise; that is not modelled.
- `urlparse` is modelled only as far as the validator observes it: scheme, network location and the two bracket errors of CPython 3.12.0. Query, fragment, port parsing and the NFKC check for network-location characters are left out. Later 3.12 patch releases replace `_check_bracketed_host` with `_check_bracketed_netloc`, which also looks at the text around the brackets; that variant is not modelled.
- The `ipaddress` parsers are modelled as acceptance predicates only; the integer values they build, and IPv4-mapped or scope-id semantics, are not. Only the bracketed host is checked, as in `urlsplit`.
- UrlParse.RemoveUnsafe: its own contract gives the one-character case and that nothing unsafe is left; that the result is the input with exactly the unsafe characters deleted follows from it with `UrlParse.RemoveUnsafeAppend`, stated separately to keep the function's proof small.
- Store.ClicksFor: its own contract states that only clicks of the URL are selected; that all of them are selected, in log order, is stated by `Store.ClicksForComplete` and `Store.ClicksForAppend`.
- Case-insensitive matching. `URL_REGEX` is case-insensitive and `\d` matches any Unicode digit; the model folds ASCII letters only and takes `\d` as ASCII digits. Likewise, the database's case-insensitive collation of `short_code` is not modelled: codes are compared exactly.
- Header names are looked up exactly, not case-insensitively.
- The cache delete after a soft delete can fail. One reading of the design says the entry is always dropped; the code absorbs the failure. The model follows the code, so the stale redirect of `Behaviour.StaleAfterFailedDelete` is possible.
- `Routes.ShortenAsWritten` and `Routes.Shorten`: their contracts only fix which placeholder they pass to `Routes.ShortenWith`. What holds of them is stated by `Routes.ShortenWith`, `Behaviour.WrittenPlaceholderJams` and `Behaviour.ShortenCreates`.

## Findings

| source | as written | input that shows it | evidently intended | confidence | as-written member | corrected member |
|---|---|---|---|---|---|---|
| app/routes.py:73-80 | a new row is flushed with the placeholder short code `"tmp"` before its real code is set, under a unique index on `short_code`; `"tmp"` is the base-62 code of id 112865 | any shorten request once the row of id 112865 exists (the 112,866th shorten on a fresh database): the flush of the next row collides with code `"tmp"` and raises, so the request and every later one fail with 500 | a placeholder that no base-62 code can equal, such as `"_tmp"`, so that every accepted request creates its row | high; not executed | Behaviour.WrittenPlaceholderJams | Behaviour.ShortenCreates |

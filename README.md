# bandcamp-dl core, modelled in Dafny

This project models the core of `bandcamp-dl`, a tool that synchronizes a
fan's purchased releases from the Bandcamp platform. Four parts are modelled:

- **The download cache** (`cache.dfy`). This is a plain-text file with one
  record per line, in the form `<release_id>| "<title>" (<year>) by <artist>`.
  - A line is read with the regular expression
    `(\w+)\|\s*"((?:[^"\\]*(?:\\.)?)*)" \((\w+)\) by (.*)`, which the model
    rewrites as a matcher by hand.
  - A line is written with `format!`, and the lines are joined with `\n`.
  - Proved: the line round trip, the whole-file round trip, the error cases,
    and every inline case of the module's tests. The test that reads a cache
    file from disk (`src/cache.rs:145-154`) is left out.
- **The fan API client** (`api.dfy`):
  - the seed token of the collection endpoint;
  - the pagination loop, an imperative method proved against a specification
    of the pages it is handed;
  - the choice of a download page's item;
  - the lookup of a format's link;
  - the rewrite of that link into a "stat" URL;
  - the reading of the stat response.
- **The data model** (`data.dfy`): the eight download formats with their
  `Display`, `FromStr` and serde names, and the stat payload of the later
  revision of the response records.
  - The response records in `api.dfy` follow the revision declared in
    `src/api.rs`, which is the one the modelled code uses.
  - `data.dfy` keeps only the stat payload of `src/api/data.rs`, whose
    added `result` field `QualifiedUrlIgnoresResult` is about. The other
    records of that revision differ only in which fields are optional, and
    the modelled code does not use them.
- **The two HTTP middlewares** (`middlewares.dfy`):
  - the token-bucket rate limiter, as a class whose `Handle` updates the
    `until` and `rem` fields;
  - the retry policy for `429 Too Many Requests`, as a class whose `Handle`
    is the source's `for` loop, proved against a recursive specification.

`strings.dfy` holds the parts of Rust's standard library that the code
relies on:
- `str::lines`, `join`, `str::replace` and `split`;
- decimal printing of integers, and `FromStr` for `i32`, `i64` and `u64`,
  each with the error kind Rust reports.

Some of its members are reference readers with no counterpart in the
modelled code, so they have no row below:
- the negative-number branch of the integer parser (`AccumulateDownDigits`),
  which the print-then-parse lemmas for the token's item id and the stat
  URL's nonce rely on;
- `split` and its first-piece lemma (`Split`, `SplitAt`), which read the seed
  token back in `TokenRoundTrip`.

`results.dfy` holds `Option`, `Result` and `collect` into a `Result`.
`errors.dfy` holds the error enumerations of `src/error.rs`.

The effects the code depends on become parameters:
- HTTP replies are a script: the `i`-th reply answers the `i`-th request.
- The clock is a natural number.
- The random nonce is an argument.
- The JSON decoder, the HTML unescaper and the two regular expressions of
  `src/api.rs` are total functions passed in.
- A `HashMap`'s iteration order is a sequence of its keys.

The code behaves as follows where a reader might expect otherwise:
- The stat response's `result` field is never read. There is no re-poll
  when it says `err`: `QualifiedUrl` and `QualifiedUrlIgnoresResult`.
- `include_hidden` is ignored. Hidden items are a TODO in the source:
  `GetAllReleases`.
- The serializer does not escape `"` and the reader does not unescape `\"`.
  A title is stored exactly as given. A title round-trips only when it is
  already in the title group's language: `LineRoundTrips`.
- A failed cache line is named only by `RegexCaptureFail`. A year that is
  not an `i32` gives `ParseIntError`, which does not carry the line.
- `read_download_cache` builds a `HashMap`. The order of the lines is not
  kept.
- When the retry attempts run out, the error is "Timed out on requests".
  While another request waits out a `retry-after`, a request polls every
  100 ms, and each poll uses up one of its attempts.

## Model

| member | source | states |
|---|---|---|
| Results.Collect | src/cache.rs:68 | collecting into a `Result` is `Ok` iff every element is `Ok`, and then it holds every value in order; otherwise it holds the error of the first `Err` |
| Data.Display | src/api.rs:45-59 | the format's name wrapped in parentheses |
| Data.FromStr | src/api.rs:64-80 | success only on one of the eight names, giving a format with that name; every other string is an error |
| Data.Name | src/api/data.rs:35-48 | no contract of its own; `NameInjective` proves the eight names distinct and `FromStrOfName` proves each parses back to its format |
| Data.SerdeTag | src/api/data.rs:9-33 | no contract of its own; `SerdeTagIsName` proves each rename tag equal to the `FromStr` name |
| Data.FromStrOfName | src/api/data.rs:54-70 | parsing a format's name gives that format back |
| Data.NameInjective | src/api/data.rs:57-68 | different formats have different names |
| Data.FromStrOfDisplay | src/api/data.rs:35-70 | parsing the `Display` text of a format fails |
| Data.SerdeTagIsName | src/api/data.rs:9-33 | the serde rename tag of each format is its `FromStr` name, and parses back to the format |
| Strings.NatToStringValue | src/cache.rs:76-81 | the decimal digits of `n` evaluate back to `n` |
| Strings.AccumulateUpDigits | src/cache.rs:50-54 | on a digit string, Rust's checked parse succeeds exactly when the value fits, and gives the value; otherwise `PosOverflow` |
| Strings.AccumulateUpStopsAtNonDigit | src/cache.rs:50-54 | the first non-digit makes the parse fail with `InvalidDigit`, unless an overflow came before it |
| Strings.ParseI32Digits | src/cache.rs:50-54 | `parse::<i32>` of a digit string is its value when that is at most 2^31-1, and `PosOverflow` otherwise |
| Strings.ParseI32OfNatToString | src/cache.rs:76-81 | printing a non-negative `i32` and parsing it back gives the same number |
| Strings.ParseU64OfNatToString | src/middlewares.rs:96-102 | printing a `u64` and parsing it back gives the same number |
| Strings.ParseU64Range | src/middlewares.rs:100 | a `u64` parse yields a number in 0..2^64-1, and rejects a leading `-` with `InvalidDigit` |
| Strings.ParseIntegerOfIntToString | src/api.rs:206 | printing a signed integer within the type's range and parsing it back gives the same number |
| Strings.ParseI32OfIntToString | src/api.rs:353 | printing an `i32` nonce and parsing it back gives the same number |
| Strings.ParseI64OfIntToString | src/api.rs:206 | printing an `i64` item id and parsing it back gives the same number |
| Strings.AccumulateUpBounded | src/middlewares.rs:100 | a successful unsigned parse never exceeds the type's maximum; a first non-digit is `InvalidDigit` |
| Strings.IndexFrom | src/cache.rs:68 | the position of the first `c` at or after `from`, or the end of the text |
| Strings.LinesOfJoin | src/cache.rs:68 | `lines()` of the `\n`-join of non-empty lines free of `\n` and of a final `\r` gives those lines back |
| Strings.ReplaceAllAbsent | src/api.rs:349-350 | `replace` leaves a text without the pattern unchanged |
| Strings.ReplaceAllAtFirst | src/api.rs:349-350 | `replace` keeps the text before the leftmost occurrence, replaces that occurrence and resumes right after it |
| Strings.ReplaceAllLeavesNone | src/api.rs:350 | a replacement that cannot recreate the pattern leaves no occurrence of it |
| Strings.NoOccurrenceAppend | src/api.rs:351-353 | appending text that shares no character with the pattern creates no occurrence of it |
| Cache.WordRunEnd | src/cache.rs:31 | `\w+` from `i` runs exactly to the first character that is not an ASCII word character |
| Cache.SpaceRunEnd | src/cache.rs:31 | `\s*` from `i` runs exactly to the first character that is not ASCII white space |
| Cache.TitleEnd | src/cache.rs:31 | the title group stops on a `"` |
| Cache.TitleEndEscaped | src/cache.rs:31 | the text the title group consumes is in the group's language |
| Cache.TitleEndAt | src/cache.rs:31 | after any text in the title group's language, the group stops at the `"` that follows |
| Cache.TitleSpan | src/cache.rs:31 | the opening and closing quotes of the title lie after the id's separator and in order |
| Cache.MatchAt | src/cache.rs:31 | no contract of its own; `MatchAtShape`, `MatchAtLayout`, `MatchAtIsLayout` and `MatchAtNeedsMarkers` state what an anchored match is |
| Cache.MatchAtPositions | src/cache.rs:31 | an anchored match ends the id at a pipe, opens the title after blanks at a `"`, closes it with `" (`, ends the year at `) by `, and ends the artist at the end of the text or at `\n`; the four captures are the slices between |
| Cache.MatchAtIsLayout | src/cache.rs:31 | every anchored match spans text laid out as id, pipe, blanks, quoted title, ` (`, year, `) by `, artist, followed by the end of the text or `\n`: the converse of `MatchAtLayout` |
| Cache.LeftmostMatch | src/cache.rs:35-37 | no contract of its own; `LeftmostMatchIsMatch`, `LeftmostMatchNone`, `LeftmostMatchShape` and `LeftmostMatchAtStart` state that it is the first anchored match |
| Cache.MatchAtShape | src/cache.rs:31 | every match captures a word id, a title in the group's language, a word year and an artist free of `\n` |
| Cache.LeftmostMatchShape | src/cache.rs:35-37 | the leftmost match has the same shape |
| Cache.LeftmostMatchIsMatch | src/cache.rs:35-37 | a leftmost match is the match anchored at some position `k`, and no earlier position from the search start matches |
| Cache.LeftmostMatchNone | src/cache.rs:35-37 | the search finds nothing iff no position from the search start matches |
| Cache.ParseI32OfWord | src/cache.rs:50-54 | a word that parses as an `i32` gives a value between 0 and 2^31-1 |
| Cache.MatchAtLayout | src/cache.rs:31 | a line laid out as id, pipe, blanks, quoted title, ` (`, year, `) by `, artist, ending at the end of the text or at `\n`, matches with exactly those four captures |
| Cache.ReadLine | src/cache.rs:26-63 | `RegexGroupFail` is never produced; a capture failure carries the line; every release read has the shape that round-trips |
| Cache.ReadLineOfSerialize | src/cache.rs:26-81 | a release with a word id, a title in the group's language, a year of at least 0 and an artist free of `\n` is read back from its own line |
| Cache.ReadLineOfFields | src/cache.rs:26-81 | a line spelled from a word id, a title in the group's language, a word year that parses as an `i32`, and an artist free of `\n`, in the written layout, is read back as exactly those fields |
| Cache.ReadLineOfLayout | src/cache.rs:26-63 | a line in the written layout, with a year that parses, is read field by field |
| Cache.LineSlices | src/cache.rs:76-81 | where each field and each fixed text lies in a written line |
| Cache.SerializeRelease | src/cache.rs:76-81 | no contract of its own; `ReadLineOfSerialize`, `ReadLineCanonical`, `SerializedLineIsPlain` and `GalerieWritten` state what the written line is |
| Cache.LeftmostMatchAtStart | src/cache.rs:35-37 | a match at the first position is the leftmost match |
| Cache.ReadLineOfMatch | src/cache.rs:39-62 | a matched line whose year parses becomes the release of its four captures |
| Cache.ReadLineCanonical | src/cache.rs:26-81 | writing a release that was read, and reading it again, gives the same release |
| Cache.MatchAtNeedsMarkers | src/cache.rs:31 | every match contains a pipe and, later, `) by ` |
| Cache.ReadLineRejects | src/cache.rs:35-37 | a line without a pipe, or without `) by `, fails with `RegexCaptureFail` carrying that line |
| Cache.ReadLineYearError | src/cache.rs:50-54 | a matched line fails iff its year does not parse as an `i32`, and then with that `ParseIntError` |
| Cache.ReadLines | src/cache.rs:68 | all lines read, in order; or the error of the first failing line, with every earlier line read |
| Cache.ToMap | src/cache.rs:70-73 | the keys are exactly the ids; each key maps to a release with that id; a repeated id keeps its last line's release |
| Cache.ToMapStep | src/cache.rs:70-73 | inserting one more line keeps the three properties of `ToMap` |
| Cache.SerializedLineIsPlain | src/cache.rs:76-81 | the line of a storable release is non-empty, holds no `\n` and does not end in `\r` |
| Cache.EmptyCacheRoundTrip | src/cache.rs:67-89 | the empty cache is written as `""`, which reads back as the empty map |
| Cache.ReadSerializedLines | src/cache.rs:67-89 | reading the written lines gives the cache's releases in the iteration order |
| Cache.ToMapOfEntries | src/cache.rs:70-73 | the map built from a cache's entries, each keyed by its own id, is that cache |
| Cache.EntriesIds | src/cache.rs:70-73 | the ids of the entries are the cache's keys |
| Cache.EntryIsLast | src/cache.rs:70-73 | no later entry repeats an entry's id |
| Cache.CacheRoundTrip | src/cache.rs:67-89 | a cache of storable releases keyed by their own ids is read back from its serialization as itself, whatever the iteration order |
| Cache.ReadCacheOneLine | src/cache.rs:67-74 | a text without `\n` is read as its one line: that line's error, or a one-entry map |
| Cache.ReadCache | src/cache.rs:67-74 | no contract of its own; `CacheRoundTrip`, `EmptyCacheRoundTrip`, `ReadCacheOneLine` and the `...Rejected` lemmas state its results |
| Cache.SerializeCache | src/cache.rs:83-89 | no contract of its own; `CacheRoundTrip` proves that reading it back gives the cache, whatever the iteration order |
| Cache.PlainTextEscaped | src/cache.rs:31 | text free of `"` and `\` is in the title group's language |
| Cache.EscapedAppend | src/cache.rs:31 | the title group's language is closed under concatenation |
| Cache.YearText | src/cache.rs:78 | a four-digit year is printed as its four digits |
| Cache.GalerieWritten | src/cache.rs:156-167 | the test release `p199396767`/`Galerie`/2022/`Anomalie` is written as the test line |
| Cache.GalerieRead | src/cache.rs:96-108 | the test line is read as that release |
| Cache.GalerieStorable | src/cache.rs:182-200 | that release has the shape that round-trips |
| Cache.ReadLineOfWritten | src/cache.rs:182-241 | a line written from a release that round-trips reads back as that release |
| Cache.VioletTitleEscaped | src/cache.rs:127-143 | a title holding `\"` twice is in the title group's language |
| Cache.VioletWritten | src/cache.rs:169-180 | the test release with escaped quotes and a non-ASCII artist is written as its test line |
| Cache.VioletStorable | src/cache.rs:222-241 | that release has the shape that round-trips |
| Cache.VioletRead | src/cache.rs:127-143 | its test line is read back with the backslashes kept in the title |
| Cache.MinimalRoundTrip | src/cache.rs:202-220 | the release with id `p0`, empty title and artist, and year 0 round-trips |
| Cache.NoByMarker | src/cache.rs:110-125 | a text with no `)` five or more places before its end does not contain `) by ` |
| Cache.NoSeparatorRejected | src/cache.rs:110-114 | the cache `Hi this is a test` is rejected with `RegexCaptureFail` naming the line |
| Cache.NoArtistRejected | src/cache.rs:115-118 | the test cache that ends right after `by` is rejected with `RegexCaptureFail` naming the line |
| Cache.NoByRejected | src/cache.rs:119-122 | the test cache that stops after `(hello)` is rejected with `RegexCaptureFail` naming the line |
| Api.IntToStringNoColon | src/api.rs:206 | a printed integer holds no `:` |
| Api.TokenFields | src/api.rs:200-207 | the token splits at `:` into the timestamp, the item id, the item type and two empty fields |
| Api.TokenShape | src/api.rs:206 | three colon-free fields in the token's layout split back into those fields |
| Api.TokenTail | src/api.rs:206 | the item type and `::` split into the type and two empty fields |
| Api.TokenRoundTrip | src/api.rs:200-207 | the token's fields read back as the `u64` timestamp, the `i64` item id and the item type |
| Api.GenerateToken | src/api.rs:200-207 | no contract of its own; `TokenFields` and `TokenRoundTrip` prove that its fields read back as the timestamp, item id and item type |
| Api.LastRequestFrom | src/api.rs:274-293 | the first reply at or after `from` that ends the loop |
| Api.LastRequest | src/api.rs:274-293 | the loop's last request, and every earlier reply is a page that says more are available |
| Api.RequestsTokens | src/api.rs:270-292 | there is one request per turn; request 0 carries the seed token, and request `i+1` carries page `i`'s `last_token` |
| Api.Requests | src/api.rs:274-284 | no contract of its own; `RequestsTokens` and `FirstRequest` state which token each request carries |
| Api.RequestUrl | src/api.rs:277-279 | no contract of its own; `RequestUrlNamesCollection` proves that the URL determines the collection name |
| Api.RequestBody | src/api.rs:280-282 | no contract of its own; `RequestBodyNamesToken` proves that, for one fan, the body determines the token |
| Api.RequestUrlNamesCollection | src/api.rs:277-279 | two page requests go to the same URL iff they name the same collection |
| Api.RequestBodyNamesToken | src/api.rs:280-282 | for one fan id, two page bodies are equal iff they carry the same `older_than_token` |
| Api.Collected | src/api.rs:290 | no contract of its own; `CollectedLookup` states which URLs it holds and what each maps to |
| Api.PaginationResult | src/api.rs:264-296 | no contract of its own; `PaginationShape` states its failure cases and `GetWebuiDownloadUrls` is proved to return it |
| Api.GetWebuiDownloadUrls | src/api.rs:264-296 | the requests sent are those of `Requests` up to the last one, and the result is the first failure or the left-to-right union of all pages |
| Api.PaginationStep | src/api.rs:274-293 | one turn: the request sent, the token and the map taken from its page, and the result when the turn is the last |
| Api.CollectedLookup | src/api.rs:290 | a URL is collected iff some page lists it, and it maps to what the last such page says |
| Api.FirstRequest | src/api.rs:270-284 | at least one request is sent, and it carries the seed token |
| Api.PaginationShape | src/api.rs:284-288 | the loop fails iff some requested page failed, and then with that page's error; no partial map is returned |
| Api.GetAllReleases | src/api.rs:236-262 | exactly the `collection_items` pagination, seeded with the token of the first lookup entry, whatever `include_hidden` says |
| Api.DigitalDownloadItemChoice | src/api.rs:313-318 | the item is `None` iff the page lists no digital items, and otherwise the first of them |
| Api.DigitalDownloadItemErrors | src/api.rs:302-313 | a failed request and a missing data blob each give their own error; a decode error comes only after both succeeded |
| Api.DigitalDownloadItem | src/api.rs:298-319 | no contract of its own; `DigitalDownloadItemChoice` and `DigitalDownloadItemErrors` state its outcome in every case |
| Api.UnqualifiedLink | src/api.rs:361-378 | `NoDownloadLinksFound` iff downloads are missing or empty; `RequestedFormatLinkNotFound` iff the format is missing from a non-empty list; otherwise the format's `url` |
| Api.StatUrlIsHttps | src/api.rs:348-353 | the stat URL contains no `http://` |
| Api.StatUrlNonce | src/api.rs:348-353 | the stat URL is the rewritten link, then `&.vrs=1&.rand=`, then text that parses back as the nonce |
| Api.StatUrlOfPlainLink | src/api.rs:348-353 | a link with neither `/download/` nor `http://` is kept, and only the query is appended |
| Api.StatPath | src/api.rs:348-350 | no contract of its own; `StatUrlIsHttps` and `StatUrlOfPlainLink` state what the rewrite does |
| Api.StatUrl | src/api.rs:348-353 | no contract of its own; `StatUrlIsHttps`, `StatUrlNonce` and `StatUrlOfPlainLink` state the URL requested |
| Api.QualifiedUrlCases | src/api.rs:380-395 | `JsonBodyNotFound` iff the wrapper is missing; `NoLinkFound` iff the decoded payload has no `download_url`; a result is always that `download_url` |
| Api.QualifiedUrlIgnoresUrl | src/api.rs:390-394 | the payload's `url` field never changes the outcome |
| Api.QualifiedUrlIgnoresResult | src/api/data.rs:161-166 | the later payload's `result` status never changes the outcome |
| Api.QualifiedUrl | src/api.rs:380-395 | no contract of its own; `QualifiedUrlCases`, `QualifiedUrlIgnoresUrl` and `QualifiedUrlIgnoresResult` state its outcome |
| Api.DigitalDownloadLinkRequests | src/api.rs:321-358 | a missing format fails with no request; otherwise exactly one request goes to the format's stat URL, and a link comes only from its response |
| Api.DigitalDownloadLink | src/api.rs:321-358 | no contract of its own; `DigitalDownloadLinkRequests` states the requests it makes and where its link comes from |
| Middlewares.NewRate | src/middlewares.rs:16-20 | a rate has a positive budget and a positive window |
| Middlewares.Step | src/middlewares.rs:58-73 | an ended window is renewed; a token is taken if one is left; otherwise the request sleeps until the window ends and the state is unchanged |
| Middlewares.StepBounded | src/middlewares.rs:58-73 | with a clock that does not go back, the tokens stay within the budget, the window ends within one window length, and every sleep lies in (0, per] |
| Middlewares.StepRenews | src/middlewares.rs:62-68 | a call after the window has ended proceeds, and opens a new window with one token spent |
| Middlewares.Run | src/middlewares.rs:58-73 | one sleep decision per call |
| Middlewares.WithinWindow | src/middlewares.rs:58-73 | inside one window exactly the first `rem` calls proceed, and each later call sleeps until the window ends |
| Middlewares.WindowBudget | src/middlewares.rs:58-73 | of the calls in a freshly opened window, exactly the first `num` proceed without sleeping |
| Middlewares.RateLimitMiddleware.constructor | src/middlewares.rs:36-47 | a full budget, and a window that ends at the creation time |
| Middlewares.RateLimitMiddleware.Handle | src/middlewares.rs:58-73 | the new fields and the sleep are those of `Step`, and the tokens stay within the budget |
| Middlewares.GetRetryAfter | src/middlewares.rs:96-102 | `Some` iff a `retry-after` header exists, is visible ASCII and parses as a `u64`, and then that number of seconds |
| Middlewares.GetRetryAfterOfNumber | src/middlewares.rs:96-102 | a header holding the decimal digits of `n` gives `n` |
| Middlewares.GetRetryAfterMissing | src/middlewares.rs:96-102 | a missing or empty header gives no delay |
| Middlewares.Attempts | src/middlewares.rs:112-137 | the number of sends lies between those already made and those plus the attempts left |
| Middlewares.Retry | src/middlewares.rs:104-138 | no contract of its own; `RetryMiddleware.Handle` is proved to follow it, and `RetrySendsBounded`, `RetryZero`, `RetryFirstAnswer`, `RetryErrorPropagates` and `RetryAllTooMany` state its outcomes |
| Middlewares.RetryMiddleware.constructor | src/middlewares.rs:89-94 | the flag starts cleared, with the given bound on attempts |
| Middlewares.RetryMiddleware.Handle | src/middlewares.rs:106-138 | the outcome, the sends and the sleeps are those of `Retry`, and the waiting flag is cleared again after each wait |
| Middlewares.ResumeRetries | src/middlewares.rs:123-129 | a 429 adds its back-off to the sleeps and moves on to the next attempt |
| Middlewares.ResumeStops | src/middlewares.rs:118-132 | a downstream error or a response other than 429 ends the loop with that reply |
| Middlewares.ResumeExhausted | src/middlewares.rs:135-137 | with no attempt left, the request times out |
| Middlewares.RetrySendsBounded | src/middlewares.rs:112 | no more than `max_retries` sends are made |
| Middlewares.RetryZero | src/middlewares.rs:112-137 | with `max_retries = 0`, the request times out without a send |
| Middlewares.RetryFirstAnswer | src/middlewares.rs:123-132 | a first reply other than 429 is returned unchanged after one send |
| Middlewares.RetryErrorPropagates | src/middlewares.rs:118-121 | a downstream error is passed on at once, with no retry |
| Middlewares.AttemptsAllTooMany | src/middlewares.rs:112-137 | if every send is answered 429, all attempts are used and the request times out |
| Middlewares.AttemptsOutcome | src/middlewares.rs:112-137 | what the loop returns is the first reply that is not a 429, and every earlier send was answered 429 |
| Middlewares.RetryAllTooMany | src/middlewares.rs:112-137 | a caller whose every send is answered 429 makes `max_retries` sends and times out |

## Left out

- `src/cookies.rs`, `src/cli.rs` and `src/main.rs` are not part of this
  model. They cover credential loading, output and concurrent fan-out.
- `BandcampAPIContext::new` and `get_summary` are left out. They only build
  the HTTP client and decode one response.
- Sending HTTP requests is left out. A collection request is the values its
  URL and JSON body are formatted from, and each reply is a scripted value
  or a function argument.
- `serde_json`, `htmlize::unescape` and the data-blob and stat-wrapper
  regular expressions are functions passed in. The model does not define
  their meaning.
- `SystemTime::now` and `fastrand::i32` become the `timestamp` and `nonce`
  parameters.
- `Instant`, `Duration` and `sleep` become natural numbers. An overflow of
  `Instant + Duration` is not modelled.
- The `Mutex`es and concurrent callers are left out, because both
  middlewares are modelled for one caller at a time.
- Middlewares.RetryMiddleware.Handle: another task setting `is_waiting`
  while a request runs is not modelled. A request that starts while the flag
  is set only polls, until its attempts run out.
- Middlewares.RetryMiddleware.Handle: `max_retries` is an unbounded natural
  number rather than a `u32`.
- Middlewares.RateLimitMiddleware.Handle: the call to the next handler after
  the sleep is left out. Only the state update and the sleep are modelled.
- Middlewares.GetRetryAfter: the header map holds one value per name, with
  its name already in lower case. Repeated headers and case-insensitive
  lookup are not modelled.
- Api.GetWebuiDownloadUrls: it requires a reply that ends the loop, because
  the model covers finite scripts only. A server that always answers
  `more_available = true` makes the source loop forever.
- Api.GetAllReleases: `.unwrap()` on a missing lookup becomes a
  precondition. The lookup entry the source's iteration yields first is the
  `firstKey` parameter.
- The re-poll on a stat `result` of `err`, and the pagination of hidden
  items, are left out. The source has neither.
- The `clap::ValueEnum` derive on `DownloadFormat` is left out, because it
  is command-line glue.
- `DownloadFormat` is modelled once, for both revisions. `src/api.rs` and
  `src/api/data.rs` hold identical copies of it.
- `ParsedFanpageData`, `FanData`, `ItemCache`, `CachedItem` and
  `CollectionData` are left out. The modelled code never uses them.
- The `followers` field of the summary is left out. The source leaves it as
  a TODO.
- Cache.ReadLine: `RegexGroupFail` is declared but never produced. All four
  groups take part in every match.
- The from-file cache test at src/cache.rs:145-154 is left out. It reads a
  data file that is not part of this model.
- Middlewares.NewRate: the two `assert!` panics of `Rate::new`
  (src/middlewares.rs:17-18) become its precondition. The model has no
  panics, so it states only that a rate made this way is valid.
- Strings.Lines: an unterminated last line keeps a final `\r`. That is the
  behaviour of `str::lines` from Rust 1.77 on; earlier versions strip it.
  The toolchain the source builds with is not part of this model.
- Cache.GalerieRead, Cache.VioletRead: the test lines are written as the
  concatenation of their fields and the fixed separators. The text is the
  same as the test's literal.

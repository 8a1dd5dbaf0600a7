# URL shortening service, modelled in Dafny

The service maps long urls to six-character short codes. It creates a
mapping under a freshly drawn code, resolves a code back to its url (counting
each access), points a code at a new url, deletes a code, and reports a
mapping's statistics. Create and update requests carry a url that must be
non-blank and match `^(https?|ftp)://.+$`.

The model has seven modules:

- `Wrappers` (wrappers.dfy): `Option`, standing for Java's `null`.
- `ShortCodes` (short_code.dfy): the 62-symbol alphabet, what a short code
  is, the random source as a stream of draws, and the code that six draws
  produce.
- `Models` (short_url.dfy): the `ShortUrl` entity as a class with setters,
  its value `Record`, the two response shapes and Java `int` arithmetic.
- `UrlRequests` (url_request.dfy): the request's validation constraints,
  with the regular expression under Java semantics.
- `Mappings` (mappings.dfy): what each operation does to the table of rows,
  as functions on maps, and the properties they keep.
- `Services` (short_url_service.dfy): the `ShortUrlService` class over a
  repository table; each method is proved against the `Mappings` function
  for its operation.
- `Scenarios` (scenarios.dfy): clients that run one mapping's life cycle
  through the service's methods.

Modelling choices:

- The random source is a caller-supplied stream `draws: nat -> nat`.
  `nextInt(bound)` returns the next draw modulo `bound`.
- Clock readings (`LocalDateTime.now()`) are an `int` parameter `now`.
- The repository is a map from short code to row. The service may be given
  any table meeting the store invariant: six-symbol generated codes, and
  assigned, distinct ids below the next one. Ids are handed out from a
  counter, as an identity column does.
- `accessCount` is a Java `int`: incrementing it at `2147483647` wraps to
  `-2147483648`.
- `@NotBlank` treats a string as blank when it is null, or when every
  character is at most U+0020 (blank after trimming).
- In the pattern, `.` matches anything but the Java line terminators `\n`,
  `\r`, U+0085, U+2028 and U+2029. `^` and `$` anchor the whole input.

## Model

| member | source | states |
|---|---|---|
| ShortCodes.AlphabetSpelledOut | src/main/java/com/example/ShortenerURL/services/ShortUrlService.java:26 | the alphabet is exactly the service's 62-character literal |
| ShortCodes.AlphabetIsAlphanumeric | src/main/java/com/example/ShortenerURL/services/ShortUrlService.java:26 | the alphabet has 62 symbols; each is a letter or digit; every letter and digit occurs; none repeats |
| ShortCodes.RandomSource.constructor | src/main/java/com/example/ShortenerURL/services/ShortUrlService.java:18 | a new source starts at the first draw of its stream |
| ShortCodes.RandomSource.NextInt | src/main/java/com/example/ShortenerURL/services/ShortUrlService.java:29 | the result lies in [0, bound); it is the next draw modulo bound; the position advances by one |
| ShortCodes.Symbol | src/main/java/com/example/ShortenerURL/services/ShortUrlService.java:29 | the symbol one draw selects is a letter or digit |
| ShortCodes.SymbolIsAlphabetEntry | src/main/java/com/example/ShortenerURL/services/ShortUrlService.java:29 | the symbol for a draw is characters.charAt(draw % 62) |
| ShortCodes.CodeFrom | src/main/java/com/example/ShortenerURL/services/ShortUrlService.java:27-30 | n draws produce n symbols, each a letter or digit |
| ShortCodes.CodeFromAt | src/main/java/com/example/ShortenerURL/services/ShortUrlService.java:28-29 | symbol i of a code comes from draw i, in order |
| ShortCodes.CodeAt | src/main/java/com/example/ShortenerURL/services/ShortUrlService.java:25-32 | one generation yields a short code: six letters or digits |
| Models.Wrap32 | src/main/java/com/example/ShortenerURL/models/ShortUrl.java:37-38 | the result is an int, congruent to the input modulo 2^32, and equal to it when the input is already an int |
| Models.WrapAddOne | src/main/java/com/example/ShortenerURL/services/ShortUrlService.java:58 | wrapping after each increment gives the same value as wrapping once at the end |
| Models.ResponseOf | src/main/java/com/example/ShortenerURL/services/ShortUrlService.java:43-49 | the response carries the row's id, url, short code and both times, and not its count |
| Models.StatsOf | src/main/java/com/example/ShortenerURL/services/ShortUrlService.java:103-110 | the stats response carries every field of the row, the count included |
| Models.ShortUrl.constructor | src/main/java/com/example/ShortenerURL/models/ShortUrl.java:21-38 | the all-arguments constructor sets exactly the six fields given |
| Models.ShortUrl.SetId | src/main/java/com/example/ShortenerURL/models/ShortUrl.java:19-26 | changes the id and no other field |
| Models.ShortUrl.SetUrl | src/main/java/com/example/ShortenerURL/models/ShortUrl.java:19-29 | changes the url and no other field |
| Models.ShortUrl.SetUpdatedAt | src/main/java/com/example/ShortenerURL/models/ShortUrl.java:19-35 | changes updatedAt and no other field |
| Models.ShortUrl.SetAccessCount | src/main/java/com/example/ShortenerURL/models/ShortUrl.java:19-38 | changes accessCount and no other field |
| Mappings.StoreInvariant | src/main/java/com/example/ShortenerURL/models/ShortUrl.java:24-32 | the unique short-code column and the identity column: each row sits under its own code, every id is assigned, below the next one and distinct; UniqueShortCodes and the PreservesInvariant lemmas state it |
| Mappings.Lookup | src/main/java/com/example/ShortenerURL/repositories/ShortUrlRepository.java:14 | finds a row exactly when the code is in the table, and then the row stored under it |
| Mappings.Insert | src/main/java/com/example/ShortenerURL/services/ShortUrlService.java:39-41 | creation adds exactly one row, under the new code, with the given id, url and time, count 0; other rows unchanged |
| Mappings.Touch | src/main/java/com/example/ShortenerURL/services/ShortUrlService.java:57-59 | resolve changes only the found row's count: one more, or IntMin after IntMax; an absent code changes nothing |
| Mappings.Retarget | src/main/java/com/example/ShortenerURL/services/ShortUrlService.java:75-78 | update sets the url and updatedAt of the found row; keeps its id, code, createdAt and count; changes no other row |
| Mappings.Remove | src/main/java/com/example/ShortenerURL/services/ShortUrlService.java:91-92 | delete removes only the row under the code; the table shrinks by one when it was there |
| Mappings.UniqueShortCodes | src/main/java/com/example/ShortenerURL/models/ShortUrl.java:24-32 | two different rows never share a short code or an id |
| Mappings.InsertPreservesInvariant | src/main/java/com/example/ShortenerURL/services/ShortUrlService.java:34-41 | creating under a free short code keeps codes unique and ids distinct, and keeps an ordered table ordered |
| Mappings.SavePreservesInvariant | src/main/java/com/example/ShortenerURL/services/ShortUrlService.java:41 | saving a row keeps the invariant, whether it is written back under its own id or inserted with the next id |
| Mappings.TouchPreservesInvariant | src/main/java/com/example/ShortenerURL/services/ShortUrlService.java:52-59 | resolve keeps the table invariant and the ordering of times |
| Mappings.RetargetPreservesInvariant | src/main/java/com/example/ShortenerURL/services/ShortUrlService.java:70-78 | update keeps the table invariant; the times stay ordered when the clock has not gone back |
| Mappings.RemovePreservesInvariant | src/main/java/com/example/ShortenerURL/services/ShortUrlService.java:89-96 | delete keeps the table invariant and the ordering of times |
| Mappings.ResolveRepeatedly | src/main/java/com/example/ShortenerURL/services/ShortUrlService.java:57-59 | k resolves raise the count by k, in int arithmetic, and change nothing else |
| Mappings.ResolveAbsent | src/main/java/com/example/ShortenerURL/services/ShortUrlService.java:53-55 | resolving an absent code any number of times leaves the table unchanged |
| Mappings.CreateThenResolve | src/main/java/com/example/ShortenerURL/services/ShortUrlService.java:34-68 | a created mapping resolves to its url with count 1 and its creation id and times |
| Mappings.CreateThenResolveTimes | src/main/java/com/example/ShortenerURL/services/ShortUrlService.java:98-111 | after k resolves of a fresh mapping, stats report count k while k fits in an int |
| Mappings.DeleteFinality | src/main/java/com/example/ShortenerURL/services/ShortUrlService.java:89-96 | after a delete the code is absent; resolve, update and a second delete change nothing |
| Mappings.UpdateKeepsIdentity | src/main/java/com/example/ShortenerURL/services/ShortUrlService.java:75-78 | after an update the row has the new url and time, with the same id, code, createdAt and count, for any clock reading; updatedAt does not go back when the clock does not |
| Services.ShortUrlService.constructor | src/main/java/com/example/ShortenerURL/services/ShortUrlService.java:20-22 | the service works over any injected table meeting the store invariant (six-symbol generated codes; assigned, distinct ids below the next one), and keeps it and its next id |
| Services.ShortUrlService.ExistsByShortCode | src/main/java/com/example/ShortenerURL/repositories/ShortUrlRepository.java:12 | true exactly when findByShortCode finds a row |
| Services.ShortUrlService.FindByShortCode | src/main/java/com/example/ShortenerURL/repositories/ShortUrlRepository.java:14 | returns an entity holding the saved row exactly when the code is in the table, and None otherwise |
| Services.ShortUrlService.DeleteByShortCode | src/main/java/com/example/ShortenerURL/repositories/ShortUrlRepository.java:16-17 | the table becomes Remove of the old table; the invariant holds |
| Services.ShortUrlService.Save | src/main/java/com/example/ShortenerURL/repositories/ShortUrlRepository.java:10 | an entity without id gets the next id; the row under its code becomes the entity's value; the invariant holds |
| Services.ShortUrlService.GenerateShortCode | src/main/java/com/example/ShortenerURL/services/ShortUrlService.java:25-32 | the code is CodeAt of the current draw position, hence a short code; exactly six draws are consumed |
| Services.ShortUrlService.DrawFreeCode | src/main/java/com/example/ShortenerURL/services/ShortUrlService.java:36-38 | the do-while loop: the returned code is a short code not in the table and is the code generated from the last six draws consumed; every code generated before it, back to the starting draw position, was in the table |
| Services.ShortUrlService.CreateShortUrl | src/main/java/com/example/ShortenerURL/services/ShortUrlService.java:34-50 | the returned code was not taken; the table becomes Insert of the old one with the next id, the url and now as both times; at least six draws are consumed, the returned code is the one generated from the last six, and every code generated before it was already taken |
| Services.ShortUrlService.RetrieveOriginalUrl | src/main/java/com/example/ShortenerURL/services/ShortUrlService.java:52-68 | the table becomes Touch of the old one; returns the row's response exactly when the code was present, None otherwise |
| Services.ShortUrlService.UpdateShortUrl | src/main/java/com/example/ShortenerURL/services/ShortUrlService.java:70-87 | the table becomes Retarget of the old one; returns the updated row's response exactly when the code was present |
| Services.ShortUrlService.DeleteShortUrl | src/main/java/com/example/ShortenerURL/services/ShortUrlService.java:89-96 | returns true exactly when the code was present; the table becomes Remove of the old one |
| Services.ShortUrlService.GetUrlStats | src/main/java/com/example/ShortenerURL/services/ShortUrlService.java:98-111 | returns the whole row, count included, exactly when the code is present; changes nothing |
| UrlRequests.IsValid | src/main/java/com/example/ShortenerURL/models/UrlRequest.java:7-8 | both constraints together; MatchesUrlPatternIff, PatternExcludesBlank and BlankUrlInvalid state what it accepts |
| UrlRequests.MatchesUrlPattern | src/main/java/com/example/ShortenerURL/models/UrlRequest.java:8 | whole-input match of the pattern; MatchesUrlPatternIff states it as a scheme, "://" and a non-empty line |
| UrlRequests.IsBlank | src/main/java/com/example/ShortenerURL/models/UrlRequest.java:7 | blank after trimming: every character at most U+0020; BlankUrlInvalid and PatternExcludesBlank use it |
| UrlRequests.IsLineTerminator | src/main/java/com/example/ShortenerURL/models/UrlRequest.java:8 | the characters Java's . does not match; LineTerminatorRejected shows one defeats the match |
| UrlRequests.SchemeEnd | src/main/java/com/example/ShortenerURL/models/UrlRequest.java:8 | where a match of the scheme alternative and "://" ends lies within the input |
| UrlRequests.SchemeEndOfScheme | src/main/java/com/example/ShortenerURL/models/UrlRequest.java:8 | each of https, http and ftp followed by "://" is recognised as itself |
| UrlRequests.MatchesUrlPatternIff | src/main/java/com/example/ShortenerURL/models/UrlRequest.java:8 | an input matches exactly when it is a scheme among http, https and ftp, then "://", then at least one character with no line terminator |
| UrlRequests.PatternExcludesBlank | src/main/java/com/example/ShortenerURL/models/UrlRequest.java:7-8 | an input that matches the pattern is never blank |
| UrlRequests.MissingUrlInvalid | src/main/java/com/example/ShortenerURL/models/UrlRequest.java:7 | a missing or null url is invalid |
| UrlRequests.BlankUrlInvalid | src/main/java/com/example/ShortenerURL/models/UrlRequest.java:7 | any blank url is invalid |
| UrlRequests.EmptyUrlInvalid | src/test/java/com/example/urlshortener/controllers/ShortUrlContollerTest.java:60-68 | the empty url is invalid |
| UrlRequests.InvalidUrlRejected | src/test/java/com/example/urlshortener/controllers/ShortUrlContollerTest.java:70-78 | "invalid-url", which has no scheme, is invalid |
| UrlRequests.SchemeAloneRejected | src/main/java/com/example/ShortenerURL/models/UrlRequest.java:8 | "https://" and "ftp://" alone are invalid: .+ needs a character |
| UrlRequests.LineTerminatorRejected | src/main/java/com/example/ShortenerURL/models/UrlRequest.java:8 | a line break after the scheme makes the url invalid |
| UrlRequests.ExampleUrlsValid | src/test/java/com/example/urlshortener/services/ShortUrlServiceTest.java:92 | "https://example.com" and "https://updated.com" are valid |
| UrlRequests.FtpUrlValid | src/main/java/com/example/ShortenerURL/models/UrlRequest.java:8 | an ftp url is valid |
| Scenarios.FreshService | src/main/java/com/example/ShortenerURL/services/ShortUrlService.java:20-22 | a service over an empty repository, with the draw stream k -> k at position 0, has a free first code |
| Scenarios.ResolveThenUpdate | src/test/java/com/example/urlshortener/services/ShortUrlServiceTest.java:56-98 | create, three resolves and an update, then stats: count 3, the new url, the creation id and time, the update's time |
| Scenarios.DeleteTwice | src/test/java/com/example/urlshortener/services/ShortUrlServiceTest.java:109-126 | the first delete of a created code returns true, the second false; the code then no longer resolves |

## Left out

- The HTTP controller, JSON mapping, status codes and Spring wiring are not modelled. Only the validation constraints of UrlRequest are modelled; the controller applies them with @Valid before calling the service.
- The JPA persistence context is not modelled. findByShortCode hands out a fresh entity holding the saved row, not a managed instance shared with the repository. The service saves every entity it changes, so no operation depends on the difference.
- Services.ShortUrlService.CreateShortUrl: requires that some future draw yields a free code (DrawFreeCode has the same requirement). Without that, the do-while loop in the source may run forever. The distribution of java.util.Random is not modelled, only its range.
- Services.ShortUrlService.Save: requires that a new entity's code is free and that a written-back entity keeps its id. The database would otherwise raise a unique-constraint or identity error.
- Services.ShortUrlService.Save: rows are keyed by short code, not by id as JPA's save matches them. So Save also requires the code to be a generated short code, and a written-back entity to keep its short code. Every call in the service meets both.
- Null arguments are not modelled: every url and short code is a string. In the source, createShortUrl(null) and updateShortUrl(code, null) fail at save because the url column is not nullable, and a null short code is simply not found.
- Clock readings are integers supplied by the caller. Nothing forces them to increase, so the ordering createdAt <= updatedAt is proved only where the clock has not gone back.
- Concurrency is not modelled, including a race between existsByShortCode and save in createShortUrl, and the transaction of deleteShortUrl.
- The Long id is unbounded.
- The no-arguments constructor, the getters, and the setters setShortCode and setCreatedAt are not modelled. The service never calls those two setters.
- Services.ShortUrlService.constructor: rows written outside the service with codes of another shape than six letters or digits are not modelled. The source's schema only makes the code unique and non-null, and the service would handle such rows.
- UrlStatsResponse.java is not part of this model. Its shape is taken from the constructor call at src/main/java/com/example/ShortenerURL/services/ShortUrlService.java:103-110.

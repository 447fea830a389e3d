# CourseCompass scraper core, in Dafny

CourseCompass answers "what do people say about this professor and this
course?" by putting together three public sources: a professor rating from
RateMyProfessors, the top discussion threads from the r/UVA subreddit, and
the most-starred GitHub repositories for the course. `ScraperService` does
all of the work. It builds the query texts and scans each response body with
hand-written JSON string handling. It then merges the results with a
14-day cache of earlier answers. This project models that logic as pure
Dafny functions and methods over `seq<char>`, and proves what the service
promises about it.

Modules, in dependency order:

- `Wrappers` (wrappers.dfy): `Option` (a nullable Java reference) and
  `Fetch` (what a fetcher did: returned a value, or threw and the exception
  was swallowed).
- `JavaText` (java_text.dfy): the `java.lang.String` operations the service
  relies on, each with its Java semantics written out:
  - `indexOf` (both overloads);
  - left-to-right, non-overlapping `replace`;
  - `trim` (drops characters up to U+0020);
  - `split(",")`, which drops trailing empty pieces;
  - `String.join`;
  - `Character.isWhitespace` and `Character.isDigit` on one UTF-16 code
    unit.
- `JsonText` (json_text.dfy): `findStringEnd`, `escapeJson` and
  `unescapeJson`. Whether a character is escaped is defined on its own
  terms: an odd run of backslashes before it. The scan is proved to find
  exactly the first quote that is not escaped.
- `Queries` (queries.dfy): the professor-name split into last and first
  name, the rating request document with the escaped search text embedded
  in it, and the GitHub search query.
- `Extraction` (extraction.dfy): the scans of the response bodies:
  - the first `avgRating` number;
  - up to three `title` values;
  - up to three `full_name`/`html_url` pairs;
  - the thread summary.

  A field the scans look for is described by a `FieldSpan` (key, colon,
  opening quote, closing quote) and the predicate `FieldAt`. The scans are
  stated for any key; `ExtractTitles`, `ExtractRepos` and
  `ExtractAvgRating` apply them to the service's fixed keys. The two loops
  are methods with ghost span out-parameters, and their results are pinned
  down completely by those spans.
- `CourseCache` (course_cache.dfy): the cache row, the freshness rule
  (14 days, strict comparison, with instants as nanoseconds) and the
  partial-update rewrite done before a save.
- `Aggregator` (aggregator.dfy): `analyze` as a function of the outcomes
  of the cache lookup, the three fetches, the two clock readings and the
  save.

In these places the model follows the code rather than what one might
expect:

- The first name is the second comma-separated piece only. Any pieces
  after it are dropped.
- The cache lookup in `analyze` is not inside a `try`. A repository error
  there fails the whole call, so `Analyze` returns `Failed` exactly when
  the lookup failed.
- `AnalyzeResponse.java` declares five record components, but the service
  constructs it with six arguments (the sixth is the repository list).
  The model uses the six-field value the service builds. The mismatch is
  left as found.

## Model

| member | source | states |
|---|---|---|
| JsonText.ScanStringEnd | backend/src/main/java/com/coursecompass/service/ScraperService.java:298-313 | from any iteration of the loop whose carried flag agrees with the backslash-parity definition, the result is -1 or an unescaped quote, with no unescaped quote before it |
| JsonText.FindStringEnd | backend/src/main/java/com/coursecompass/service/ScraperService.java:298-313 | the result is -1 or the first quote at or after `start` that an odd backslash run does not escape; -1 exactly when no such quote exists |
| JsonText.EscapeJsonIsCharwise | backend/src/main/java/com/coursecompass/service/ScraperService.java:315-317 | the two sequential whole-string replacements equal escaping each character on its own (backslash to two, quote to backslash-quote) |
| JsonText.EscapedTextClosesAtEnd | backend/src/main/java/com/coursecompass/service/ScraperService.java:298-317 | escaped text followed by a quote, searched from its start, closes exactly at that quote, whatever text precedes or follows |
| JsonText.UnescapeInvertsEscapeWithoutBackslash | backend/src/main/java/com/coursecompass/service/ScraperService.java:315-327 | on text without backslashes, unescaping undoes escaping |
| JsonText.UnescapeDoesNotInvertEscape | backend/src/main/java/com/coursecompass/service/ScraperService.java:315-327 | with a backslash it does not: backslash-n escaped and unescaped comes back as backslash-space |
| JsonText.UnescapeOnePassInvertsEscape | backend/src/main/java/com/coursecompass/service/ScraperService.java:315-327 | the corrected decoder, one left-to-right pass over the same escape pairs, undoes escaping of every text |
| JavaText.IndexOf | backend/src/main/java/com/coursecompass/service/ScraperService.java:218 | `indexOf(String, from)` gives the first occurrence at or after `from`, or -1 exactly when there is none |
| JavaText.IndexOfChar | backend/src/main/java/com/coursecompass/service/ScraperService.java:220-222 | `indexOf(char, from)` gives the first index at or after `from` holding the character, or -1 exactly when there is none |
| JavaText.Trim | backend/src/main/java/com/coursecompass/service/ScraperService.java:94-95 | the result is the input with the leading and trailing characters up to U+0020 removed, and neither of its ends is such a character |
| JavaText.SplitParts | backend/src/main/java/com/coursecompass/service/ScraperService.java:93 | with a first comma at `i` and some other character present, the split's first piece is the text before `i`; a second piece exists exactly when something other than commas follows `i`, and it runs up to the next comma |
| Queries.NamePartsWithoutComma | backend/src/main/java/com/coursecompass/service/ScraperService.java:93-95 | a name without a comma is all last name, trimmed, and the first name is empty |
| Queries.NamePartsOnlyCommas | backend/src/main/java/com/coursecompass/service/ScraperService.java:93-95 | a name made only of commas splits into no pieces, so the whole name becomes the last name |
| Queries.NamePartsAtComma | backend/src/main/java/com/coursecompass/service/ScraperService.java:93-95 | the last name is the trimmed text before the first comma; the first name is the trimmed text up to the next comma, or empty when only commas follow |
| Queries.SearchTextLiteralIsClosed | backend/src/main/java/com/coursecompass/service/ScraperService.java:97-120 | in the rating request, the string literal holding the escaped search text opens right before it and closes right after it, for every professor name |
| Queries.GithubQueryShape | backend/src/main/java/com/coursecompass/service/ScraperService.java:242 | the repository query is a suffix of the untrimmed text, still ends with the qualifier `UVA`, and starts with a visible character |
| Queries.GithubQueryUntrimmed | backend/src/main/java/com/coursecompass/service/ScraperService.java:242 | when the course id starts with a visible character, trimming changes nothing |
| Extraction.FindField | backend/src/main/java/com/coursecompass/service/ScraperService.java:218-225 | the four searches give a span meeting every first-occurrence condition, or None exactly when no such span exists |
| Extraction.FieldAtUnique | backend/src/main/java/com/coursecompass/service/ScraperService.java:218-225 | the key, colon, opening quote and closing quote the searches find are determined by the body and the start |
| Extraction.FindFieldFindsFirst | backend/src/main/java/com/coursecompass/service/ScraperService.java:218-225 | whenever a field sits where the searches look, they return exactly that field |
| Extraction.SkipWhitespace | backend/src/main/java/com/coursecompass/service/ScraperService.java:146-147 | the whitespace loop stops at the first character that is not Java whitespace, or at the end |
| Extraction.SkipNumber | backend/src/main/java/com/coursecompass/service/ScraperService.java:149-150 | the digit loop stops at the first character that is neither a digit nor a dot, or at the end |
| Extraction.LocateNumber | backend/src/main/java/com/coursecompass/service/ScraperService.java:141-152 | None exactly when the key is missing, no colon follows it, or the number run after the whitespace is empty; otherwise a span where the key is the first occurrence, the colon the first after it, only whitespace precedes the run, and the run of digits and dots is maximal |
| Extraction.NumberAtUnique | backend/src/main/java/com/coursecompass/service/ScraperService.java:141-152 | the number span the scan describes is determined by the body and the key |
| Extraction.LocateNumberComplete | backend/src/main/java/com/coursecompass/service/ScraperService.java:141-152 | any number in the expected place is the one the scan returns |
| Extraction.ExtractAvgRating | backend/src/main/java/com/coursecompass/service/ScraperService.java:141-154 | the text handed to the number parser is non-empty and only `Character.isDigit` digits (any Unicode decimal digit of the BMP) and dots; it exists exactly when a number sits in the expected place after the `avgRating` key, and it is that number |
| Extraction.AvgRatingReadsAnyDecimalDigit | backend/src/main/java/com/coursecompass/service/ScraperService.java:149-154 | the digit run mixes scripts: on `"avgRating":4٣` the text handed to the parser is `4٣` (ASCII four, then ARABIC-INDIC DIGIT THREE), which `Double.parseDouble` rejects |
| Extraction.RatingFromResponse | backend/src/main/java/com/coursecompass/service/ScraperService.java:141-154 | a null rating exactly when the call returned and no number sits in the expected place; an exception exactly when the call threw or the number in the expected place does not parse; otherwise the parse of that number |
| Extraction.ScanValues | backend/src/main/java/com/coursecompass/service/ScraperService.java:216-230 | at most three values; the k-th is the unescaped text of the field found from just after the previous one; fewer than three only when no further field exists |
| Extraction.ValuesInOrder | backend/src/main/java/com/coursecompass/service/ScraperService.java:216-230 | each value's key starts after the previous value's closing quote, so the values come in body order and the cursor strictly increases |
| Extraction.ValuesScannedUnique | backend/src/main/java/com/coursecompass/service/ScraperService.java:216-230 | the scan's contract admits exactly one result: any two results meeting it are equal, spans included |
| Extraction.ExtractTitles | backend/src/main/java/com/coursecompass/service/ScraperService.java:215-232 | the title scan: the scan contract for the `title` key, in body order |
| Extraction.FindPair | backend/src/main/java/com/coursecompass/service/ScraperService.java:264-282 | one round of the repository loop finds a name and the address after its closing quote, or None exactly when no name found from the cursor has an address after it |
| Extraction.ScanPairs | backend/src/main/java/com/coursecompass/service/ScraperService.java:262-288 | at most three entries, each the unescaped name, an em dash between spaces, and the unescaped address found from the name's closing quote on; fewer than three only when the next name or its address is missing |
| Extraction.PairsInOrder | backend/src/main/java/com/coursecompass/service/ScraperService.java:262-288 | each address match begins at or after its name's closing quote, and each name starts after the previous address closed |
| Extraction.PairsScannedUnique | backend/src/main/java/com/coursecompass/service/ScraperService.java:262-288 | the repository scan's contract admits exactly one result: any two results meeting it are equal, spans included |
| Extraction.ExtractRepos | backend/src/main/java/com/coursecompass/service/ScraperService.java:261-290 | the repository scan: the pair-scan contract for the `full_name` and `html_url` keys, in body order |
| Extraction.SummarizeTitles | backend/src/main/java/com/coursecompass/service/ScraperService.java:293-296 | the no-threads message exactly when there are no titles; otherwise `Top threads: ` followed by the titles joined with a spaced vertical bar |
| Extraction.SummaryMentionsEveryTitle | backend/src/main/java/com/coursecompass/service/ScraperService.java:293-296 | every title occurs verbatim in the summary |
| Extraction.SummaryAppend | backend/src/main/java/com/coursecompass/service/ScraperService.java:293-296 | one more title extends the summary by the separator and that title |
| CourseCache.IsCacheFresh | backend/src/main/java/com/coursecompass/service/ScraperService.java:164-168 | a row never updated is stale; otherwise it is fresh exactly when it is less than 14 days old |
| CourseCache.FreshnessBoundary | backend/src/main/java/com/coursecompass/service/ScraperService.java:29-29 | a row exactly 14 days old is stale, and one a nanosecond younger is fresh |
| CourseCache.FreshnessIsMonotone | backend/src/main/java/com/coursecompass/service/ScraperService.java:164-168 | a row fresh at some instant was fresh at every earlier instant |
| CourseCache.PersistCache | backend/src/main/java/com/coursecompass/service/ScraperService.java:170-192 | keeps the cached row's identity, sets the names and the update time, replaces rating and summary only with non-null values, and otherwise keeps the cached ones |
| CourseCache.PersistNeverErases | backend/src/main/java/com/coursecompass/service/ScraperService.java:178-183 | a rating or summary the cached row held is still present after persisting |
| CourseCache.PersistIsIdempotent | backend/src/main/java/com/coursecompass/service/ScraperService.java:170-192 | persisting the same analysis twice gives the same row as once |
| CourseCache.PersistedIsFresh | backend/src/main/java/com/coursecompass/service/ScraperService.java:187 | a row just persisted is fresh for exactly 14 days |
| Aggregator.Analyze | backend/src/main/java/com/coursecompass/service/ScraperService.java:37-78 | fails exactly when the lookup fails; a fetched rating wins, otherwise the cached rating; the summary is null exactly when the discussion fetch failed, and then the thread list is empty; a failed repository fetch gives an empty list; a row is stored exactly when the save succeeds, and it is the persisted rewrite of the response |
| Aggregator.ResponseIgnoresClockAndSave | backend/src/main/java/com/coursecompass/service/ScraperService.java:43-59 | the response does not depend on the clock readings or on the save outcome, so cache freshness never changes the final rating |
| Aggregator.FetchersAreIsolated | backend/src/main/java/com/coursecompass/service/ScraperService.java:48-69 | one fetcher failing changes only its own part of the response |
| Aggregator.StoredRowMatchesResponse | backend/src/main/java/com/coursecompass/service/ScraperService.java:75 | the saved row holds the response's rating, the pair and the save time, is fresh, and holds the response's summary when there is one |
| Aggregator.NoRatingExactly | backend/src/main/java/com/coursecompass/service/ScraperService.java:43-59 | the response has no rating exactly when the fetch gave no number and there is no cached rating |
| Aggregator.CachedRatingServesLaterFailure | backend/src/main/java/com/coursecompass/service/ScraperService.java:37-78 | after a successful save, a later analysis in which every fetch fails reports the rating just stored |

## Left out

- Outbound HTTP through Jsoup: request headers, timeouts and `execute()`.
  A fetcher is a `Fetch` outcome. `Analyze` takes the three outcomes as
  inputs; the body scans (`ExtractTitles`, `ExtractRepos`,
  `RatingFromResponse`) model what a successful fetch computes from its
  body.
- `URLEncoder.encode` and the `GITHUB_TOKEN` environment lookup. They are
  library and environment calls that only shape the request URL and
  headers.
- `Double.parseDouble`: floating point. `RatingFromResponse` takes it as a
  parameter, with None standing for the exception.
- `Instant.now()`: the two clock readings are the parameters `checkedAt`
  and `savedAt`. The `DateTimeException` that `Instant.minus` can throw
  at the edge of the instant range is not modelled.
- Java strings are UTF-16 code units; here they are Dafny characters. The
  two agree on every index the scans compute unless the text holds
  supplementary characters.
- The Spring Data repository: the derived query "newest row for this pair"
  and `save`. The lookup is an input `Fetch<Option<CacheEntry>>`, the save
  a boolean outcome. The identifier the database assigns to a new row is
  not modelled.
- The REST controller, the CORS configuration and the browser extension:
  they are web plumbing and DOM code with no logic of the core.

## Findings

| source | as written | input that shows it | evidently intended | confidence | as-written member | corrected member |
|---|---|---|---|---|---|---|
| backend/src/main/java/com/coursecompass/service/ScraperService.java:319-327 | `unescapeJson` applies five whole-string replacements in turn, and replaces `\\` last, so a backslash-n formed by the second backslash of an escaped backslash and the next letter is turned into a space | the JSON text `C:\\new` (that is, `C:\new`) decodes to `C:\ ew`; equally, text holding backslash-n, once escaped by `escapeJson`, comes back as backslash-space | read each escape pair once, left to right, so that decoding undoes escaping | high (not executed) | JsonText.UnescapeDoesNotInvertEscape | JsonText.UnescapeOnePassInvertsEscape |

The title and repository scans keep the code's decoder, `UnescapeJson`,
since they describe what the service returns. `UnescapeOnePass` is the
decoder the round trip asks for, and `UnescapeOnePassReadsPairsOnce`
shows it on `C:\\new`.

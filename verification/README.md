# sun_script_db in Dafny

A model of the logic at the centre of sun_script_db, a searchable database
of dialogue scripts. The repository has two halves.

**Serverless handlers.** Netlify JavaScript and Python functions, Vercel
Python handlers and a Flask app. Each one downloads (or reuses) a SQLite
file, runs a query and shapes the rows into a JSON reply.

**Offline scripts.** These read two progress CSV sheets, match script names
to Google Docs URLs by management number (`B1234`, `PK-002`, …), and report
which numbers still lack a URL as compact ranges.

The model keeps the transformations between the I/O edges:

- **Http (`http.dfy`).** The reply a handler writes: its status code, the
  `success` field, the method dispatch (OPTIONS is 200 with an empty body,
  other methods are 405 in Netlify and 501 in `BaseHTTPRequestHandler`), and
  how a query parameter is read (JavaScript `|| ''` versus Python
  `.get(...).strip()`).
- **Fetcher (`fetcher.dfy`).** The `downloadDatabase` procedure of the
  JavaScript handlers, as a pure function over the cache state and a
  sequence of network outcomes. It covers:
  - the cache-reuse test;
  - the redirect test and the hop bound;
  - `https:` prefixing of a Location, and the throw when a target is not
    an `https:` URL;
  - the size check, and the search of the whole file for `SQLite format 3`
    (`readFileSync` ignores the `start`/`end` options it is given).

  The four variants (stats_v2/search/script_detail, list_scripts and stats)
  are instances of one parameterised procedure.
- **Search (`search.dfy`).** The keyword-search aggregation:
  - grouping rows by script, in order of first appearance;
  - keeping a line iff its lower-cased dialogue contains the lower-cased
    keyword;
  - the uncapped count and the three-line sample;
  - dropping scripts with no kept line;
  - the stable sort by count, then release date.

  It also models both search handlers.
- **Ranking (`ranking.dfy`).** The stable descending sort (an insertion sort)
  shared by the search results, the theme list and the range analysis.
- **Detail (`detail.dfy`).** Per-line `is_match` flags, `match_count`, and
  `match_confidence` as an exact ratio. It also models the three detail
  handlers, with their 400 and 404 paths.
- **Listing (`listing.dfy`).** The per-name diagnostic record of
  list_scripts.js and its handler.
- **DbStats (`stats.dfy`).** The two statistics handlers over their
  downloaders.
- **Api (`api.dfy`).** The Flask app's pieces:
  - keyword validation and result formatting;
  - the theme tally, with its stable count-descending sort;
  - the pagination of `search_dialogues` and `search_scripts`;
  - the 404 of the script details.
- **ManagementIds (`ids.dfy`).** The regexes `^(B\d+)`,
  `^([ABEFHP]K?[-_]?\d+)` and `^([A-Z]+\d+)` as parsers, proved to find the
  longest match.
- **CsvUrls (`csvurls.dfy`).** The CSV loaders of the three URL scripts, the
  two opposite merge priorities, the cell scan of the comprehensive loader,
  and the matching of database names to URLs.
- **MissingRanges (`ranges.dfy`).** The partition of names into B-numbers and
  others, and the ascending numbers. It also covers:
  - compaction into runs (a method with loop invariants), proved to be the
    unique decomposition;
  - the labels and the ten-range display.
- **Basics (`basics.dfy`) and Text (`text.dfy`).** Option/Result, first-seen
  order, JavaScript and Python whitespace, ASCII lower-casing, substring
  search, UTF-16 length, code-point string order, decimal digits, and split
  and join.

**Inputs.** Query results, CSV records, file contents and network answers
are parameters:

- a query is `Rows(...)` or a failure;
- a CSV file is `Missing` or its parsed records, plus whether reading stopped
  on an error;
- the network is the sequence of outcomes of the requests issued, in order;
- the clock is a millisecond count.

## Model

| member | source | states |
|---|---|---|
| Basics.FirstSeen | api/search.py:107-119 | The names of the groups are exactly the names of the rows, each once. |
| Basics.FirstSeenOrder | api/search.py:107-119 | Groups are listed in increasing order of their script's first row. |
| Text.Trim | netlify/functions/list_scripts.js:118 | `trim()`/`strip()` removes a maximal whitespace run from each end (runtime-specific whitespace set), keeps the middle intact, and leaves neither end a space. |
| Text.TrimDropsTrailingSpace | netlify/functions/list_scripts.js:117-119 | A name ending in a space trims to something strictly shorter. |
| Text.TrimOfUntrimmed | api.py:386 | A string with no whitespace at either end is unchanged by strip. |
| Text.Utf16Length | netlify/functions/list_scripts.js:114 | `.length` counts UTF-16 code units: at least one and at most two per character. |
| Text.Utf16LengthOfPart | netlify/functions/list_scripts.js:119 | A substring's `.length` is at most the whole's, with equality only when nothing surrounds it. |
| Text.Lower | netlify/functions/search.js:216 | Lower-casing keeps the length and maps each character by itself (A–Z to a–z). |
| Text.ContainsAt | netlify/functions/search.js:216 | `includes` / `in` holds iff the needle occurs at some offset of the haystack. |
| Text.StrLessIrreflexive | api/search.py:145 | Python string `<` is irreflexive. |
| Text.StrLessTransitive | api/search.py:145 | Python string `<` is transitive. |
| Text.StrLessTotal | api/search.py:145 | Any two distinct strings are ordered one way or the other. |
| Text.DigitRun | extract_urls_from_csv_v2.py:12 | The greedy `\d+` consumes a run of digits that stops at a non-digit or the end. |
| Text.DigitRunIsLongest | extract_urls_from_csv_v2.py:12 | No run of digits at the start is longer than the one consumed. |
| Text.NatToString | netlify/functions/stats_v2.js:23 | A number's decimal text is non-empty, all digits, and has no leading zero unless it is "0". |
| Text.DecimalValueOfNatToString | netlify/functions/stats_v2.js:23 | Reading the decimal text back gives the number. |
| Text.DecimalValueLeadingZero | analyze_missing_urls.py:38 | `int()` ignores a leading zero. |
| Text.Split | api.py:385 | `split(',')` yields at least one piece, none containing the separator. |
| Text.JoinSplit | api.py:385 | Joining the pieces of a split with the separator restores the string. |
| Text.SplitJoin | api.py:385 | Splitting a join of separator-free pieces restores the pieces. |
| Http.Status | netlify/functions/search.js:129-283 | Every reply but the unhandled rejection carries a status code between 200 and 599. |
| Http.SuccessField | netlify/functions/search.js:144-274 | `success` is true exactly on a 200 data reply and false on 400, 404 and 500. |
| Http.DispatchesDifferOnlyInRefusal | netlify/functions/search.js:129-283 | The Netlify and Vercel dispatches agree exactly on GET and OPTIONS: they differ only in refusing other methods (405 against 501). A refused method never runs the handler, and a 200 data reply comes only from a GET. |
| Http.StrippedParamIsEmptyIffBlank | netlify/functions/script_detail.py:71-73 | `.get(key, '').strip()` is empty iff the parameter is absent or all whitespace. Otherwise it lies inside the raw value and neither of its ends is whitespace. |
| Http.FirstValueIsEmptyIffBlank | api/search.py:57-59 | The stripped first `parse_qs` value is empty iff the parameter is absent or its first value is all whitespace. Otherwise it lies inside that value and neither of its ends is whitespace. |
| Fetcher.PrefixedTargetIsHttp | netlify/functions/stats_v2.js:43-54 | Every prefixed redirect target starts with "http". A Location without "http" becomes a requestable `https:` URL, while a plain `http:` Location stays unrequestable. |
| Fetcher.Follow | netlify/functions/stats_v2.js:35-76 | The first request goes to the source, and each later request goes to the previous answer's requestable redirect target. At most hops+1 requests are made. The body written is the first non-redirect answer or the answer after the last allowed hop. A network error writes nothing, and so does a request that is never answered; the two end differently. A redirect whose target is not an `https:` URL throws, and nothing more is requested. |
| Fetcher.Problem | netlify/functions/stats_v2.js:94-125 | A file is rejected as too small iff it is under 1,000,000 bytes. It is rejected as not SQLite iff it is large enough but "SQLite format 3" occurs at no offset of the whole file. Otherwise it is accepted. |
| Fetcher.StampedNamesDiffer | netlify/functions/stats_v2.js:23 | Two downloads by a stamped variant at different times write different files. |
| Fetcher.Download | netlify/functions/stats_v2.js:23-130 | A download always sets `dbPath` and writes the file, and no other file changes. A failed request, a throw or a request never answered leaves an empty file, and each gives its own error. Without validation a written body resolves to the path. With validation it resolves iff `Problem` finds nothing, that is, iff the file holds at least 1,000,000 bytes and the magic somewhere. |
| Fetcher.Ensure | netlify/functions/stats_v2.js:12-23 | A reusable cache is served with no request and no state change; otherwise the call downloads. A resolved path always names a file on disk. |
| Fetcher.EnsureKeepsDiskConsistent | netlify/functions/stats_v2.js:23-76 | A download writes only an answer's whole body or an empty file, so when every answer is recorded whole, every file's bytes number its size. A served database therefore holds at least the header's bytes. |
| Fetcher.MagicAnywhereIsAccepted | netlify/functions/stats_v2.js:111-128 | A body of at least 1,000,000 bytes with "SQLite format 3" at any offset is accepted. The resolved path holds a database only when the body starts with it. |
| Fetcher.UnansweredRequestHangs | netlify/functions/stats_v2.js:35-76 | A request that is never answered, first or after a redirect, leaves the download unsettled: no reply from the handler, and `dbPath` at an empty file. |
| Fetcher.CacheReuseValidating | netlify/functions/stats_v2.js:14-23 | No request is made iff `dbPath` is set, the file exists and it holds more than 1,000,000 bytes. Otherwise a fresh timestamped path is used. |
| Fetcher.ThirdAnswerIsWritten | netlify/functions/stats_v2.js:50-59 | After two redirects, three URLs have been requested and the third answer is written whatever its status. |
| Fetcher.HopBound | netlify/functions/stats_v2.js:35-76 | Two-hop variants issue at most three requests; stats.js issues at most two. |
| Fetcher.StatusNeverInspected | netlify/functions/stats_v2.js:79-129 | Two final answers with the same size and body give the same outcome, whatever their status codes. |
| Fetcher.ExactlyMinBytesIsAcceptedButNeverReused | netlify/functions/stats_v2.js:17-107 | A valid file of exactly 1,000,000 bytes is accepted, yet the next call downloads again. |
| Fetcher.RejectedLargeFileIsServedNextTime | netlify/functions/stats_v2.js:14-125 | A file over 1,000,000 bytes without "SQLite format 3" at any offset is rejected once. The next call then serves it from the cache with no request. |
| Fetcher.SmallFileRejected | netlify/functions/stats_v2.js:97-107 | Any downloaded file under 1,000,000 bytes is rejected as too small. |
| Fetcher.CacheReuseStats | netlify/functions/stats.js:14-19 | stats.js reuses the file iff `dbPath` is set and the file exists, whatever its size. A download writes the fixed name. |
| Fetcher.StatsFollowsOneHopVerbatim | netlify/functions/stats.js:23-36 | For a requestable Location, stats.js follows one redirect to the Location as given and writes the second answer whatever it is. It resolves with no validation. |
| Fetcher.StatsCrashesOnUnrequestableLocation | netlify/functions/stats.js:23-41 | stats.js requests a relative or `http:` Location as given: the request throws, only the source was requested, and the handler gives no response. |
| Fetcher.PlainHttpRedirectCrashes | netlify/functions/stats_v2.js:43-47 | In stats_v2.js a redirect to an `http:` URL throws, while a scheme-less Location is prefixed and followed. |
| Fetcher.StatsServesEmptyFileAfterFailure | netlify/functions/stats.js:14-55 | After a failed request, stats.js serves the empty file left behind on the next call, with no request. |
| Fetcher.ListScriptsNeverValidates | netlify/functions/list_scripts.js:31-66 | list_scripts.js follows a prefixed redirect and resolves with whatever body it wrote. |
| Ranking.KeyLessIrreflexive | api/search.py:145 | No sort key is below itself. |
| Ranking.KeyLessTransitive | api/search.py:145 | The order on (count, date) keys is transitive. |
| Ranking.KeyLessTotal | api/search.py:145 | Any two distinct keys are ordered. |
| Ranking.SortDescending | api/search.py:145 | The sort returns a permutation of its input, in non-increasing key order. Elements with equal keys keep their input order, because the sort is stable. |
| Ranking.SortPutsTiesInRankOrder | netlify/functions/search.js:242-247 | Elements given in increasing rank order keep that order among equal keys after the sort. |
| Ranking.SortKeepsDistinctBy | netlify/functions/search.js:242-247 | Sorting never duplicates an element, so distinct names stay distinct. |
| Search.CharacterOf | api/search.py:129-130 | A character is recorded only when it is neither NULL nor empty. |
| Search.GroupRows | api/search.py:107-130 | The grouping loop gives one entry per script, in first-appearance order. Each entry has the metadata of the script's first row and the kept lines of that script in row order. |
| Search.HitOf | api/search.py:135-141 | `match_count` is the number of kept lines. The sample is the first `min(3, count)` of them. |
| Search.Finalize | api/search.py:133-142 | Finalising never adds entries, and every entry it keeps has at least one match. |
| Search.FinalizeSource | api/search.py:133-142 | Every result entry comes from a group with at least one kept line. |
| Search.FinalizeCovers | api/search.py:133-142 | Every group with a kept line yields a result entry. |
| Search.FinalizeKeepsOrder | api/search.py:134 | Dropping empty groups keeps the others in order. |
| Search.Aggregate | netlify/functions/search.js:242-247 | The results are sorted by match count descending, then release date descending. |
| Search.EntryIsExpected | netlify/functions/search.js:196-238 | Every result entry is the capped entry of one script of the rows, with at least one match. |
| Search.AggregateEntries | netlify/functions/search.js:202-236 | Each result is built from its script's rows: the count is the uncapped number of kept lines, and the sample is the first three kept lines. The characters are the kept lines' truthy characters, deduplicated. The URL, date, title and video URL come from the script's first row. |
| Search.AggregateCovers | netlify/functions/search.js:231-238 | A script has a result iff at least one of its lines is kept. |
| Search.FinalizedInRowOrder | api/search.py:134 | Before sorting, the results follow the order in which their scripts first appear. |
| Search.AggregateNamesDistinct | netlify/functions/search.js:197-212 | No script name appears twice in the results. |
| Search.AggregateTiesInRowOrder | api/search.py:145 | Results with equal count and date stay in the order their scripts first appear, because the sort is stable. |
| Search.UnkeptRowChangesNothing | netlify/functions/search.js:214-226 | A row whose dialogue lacks the keyword changes no result, even when its title or themes matched. This holds even when it is a new script's only row. |
| Search.RespondCountsScripts | netlify/functions/search.js:249-254 | `total_results` is the number of distinct scripts with at least one kept line. |
| Search.SearchJs | netlify/functions/search.js:120-283 | OPTIONS gives 200 and other methods 405, with no download. An empty or missing `q` gives 400, also before any download. A failed download gives 500, and a throw during it an unhandled rejection. A file that is not a database or a failed query is an unhandled rejection. Otherwise the reply is 200 with the aggregation. |
| Search.SearchPy | api/search.py:54-177 | A stripped `q` that is empty gives 400. A failed query gives 500. Otherwise the reply is 200 with the aggregation of the stripped keyword. OPTIONS gives 200 and other methods 501. |
| Search.BlankKeywordSearchedInJs | netlify/functions/search.js:142-153 | A `q` of spaces is not rejected by the JavaScript handler; once a database is served, it is searched for. |
| Search.BlankKeywordRefusedInPy | api/search.py:59-71 | A `q` of spaces is rejected with 400 by the Python handler. |
| Detail.FlaggedIffOccurs | netlify/functions/script_detail.js:263-277 | A line is flagged iff the keyword is non-empty and occurs at some offset of the lower-cased dialogue. A NULL dialogue is never flagged. |
| Detail.CountFlagged | netlify/functions/script_detail.js:261-270 | The match count is at most the number of lines, and is zero iff no line is flagged. |
| Detail.ScanRows | api/script_detail.py:142-158 | The loop produces exactly the flagged lines and the number of flagged lines. |
| Detail.Confidence | netlify/functions/script_detail.js:281-283 | Confidence is `match_count / total` when there is a keyword and at least one line, and 0 otherwise. It always lies in [0, 1]. |
| Detail.Build | netlify/functions/script_detail.js:285-302 | `total_dialogues` is the number of rows, `match_count` counts the flags, and the confidence follows the rule above. |
| Detail.NoKeywordFlagsNothing | netlify/functions/script_detail.js:266-283 | With no keyword, nothing is flagged, and the count and confidence are 0. |
| Detail.ConfidenceIsFraction | api/script_detail.py:160-163 | With a keyword and lines, confidence is 1 iff every line matches and 0 iff none does. |
| Detail.Lookup | netlify/functions/script_detail.js:190-214 | No metadata row gives 404 "script not found". A failed query gives the handler's error reply. Otherwise the reply is the built detail. |
| Detail.DetailJs | netlify/functions/script_detail.js:119-333 | OPTIONS gives 200 and other methods 405. A 400 is returned exactly for an empty or missing `script_name`, before any download and without trimming. A failed download gives 500, and a throw during it an unhandled rejection. A file that is not a database is an unhandled rejection. Otherwise the reply is the lookup with the untrimmed keyword. |
| Detail.DetailPyBody | api/script_detail.py:59-185 | A 400 is returned exactly when the stripped name is empty. Otherwise the reply is the lookup, with a failed query giving 500. |
| Detail.DetailVercel | api/script_detail.py:54-214 | The Vercel handler strips both parameters; OPTIONS gives 200 and other methods 501. |
| Detail.DetailNetlifyPy | netlify/functions/script_detail.py:60-220 | The Netlify Python handler strips both parameters; OPTIONS gives 200 and other methods 405. |
| Detail.BlankKeywordIsNoKeywordInPy | netlify/functions/script_detail.py:73-173 | A keyword of spaces gives the same reply as no keyword. |
| Detail.BlankKeywordFlagsSpacesInJs | netlify/functions/script_detail.js:264-270 | In the JavaScript handler a keyword of one space flags a dialogue containing a space. |
| Detail.BlankNameRejectedOnlyInPy | netlify/functions/script_detail.py:72-84 | A `script_name` of spaces is a 400 in the Python handler and not in the JavaScript one. |
| Listing.DescribeBounds | netlify/functions/list_scripts.js:114-119 | `trimmed_length` is at most `length`, with equality iff trimming changed nothing. |
| Listing.SurroundingSpace | netlify/functions/list_scripts.js:118 | The name is its trim with something before and after it. |
| Listing.EndsWithSpaceShortens | netlify/functions/list_scripts.js:117-119 | `ends_with_space` implies `trimmed_length < length`. |
| Listing.RespondKeepsOrder | netlify/functions/list_scripts.js:110-129 | Record `i` describes name `i`, and every record has `trimmed_length <= length`. |
| Listing.ListJs | netlify/functions/list_scripts.js:74-152 | OPTIONS gives 200 and other methods 405, with no download. A failed download gives 500, and a throw during it an unhandled rejection. A file that is not a database or a failed query is an unhandled rejection. Otherwise the reply is the listing. |
| Listing.ListingAcceptsAnyAnswer | netlify/functions/list_scripts.js:60-66 | Any direct answer, however small, resolves the download. The listing then succeeds iff the body starts with the SQLite header, and is an unhandled rejection otherwise. |
| DbStats.Handle | netlify/functions/stats_v2.js:140-206 | OPTIONS gives 200 and other methods 405, and neither touches the downloader. A GET whose download fails gives 500, and a throw an unhandled rejection. A resolved file that is not a database makes the first query fail. Otherwise the reply is the report of the queries' answer. |
| DbStats.StatsV2Js | netlify/functions/stats_v2.js:132-206 | A failed validating download is a 500 (an unhandled rejection on a throw), and a 200 needs a GET, both counts and a served database. |
| DbStats.StatsJs | netlify/functions/stats.js:64-144 | A failed one-hop download is a 500 (an unhandled rejection on a throw), and a 200 needs a GET, both counts and a served database. |
| DbStats.SmallFileSplitsTheVariants | netlify/functions/stats_v2.js:97-107 | A small direct answer that starts with the SQLite header makes stats_v2.js answer 500, while stats.js reports the counts. |
| DbStats.StatsJsFailsOnEmptyFile | netlify/functions/stats.js:14-55 | After a failed request, stats.js answers 500 once. The next call sends no request, opens the empty file and rejects. |
| DbStats.OnlyGetDownloads | netlify/functions/stats.js:73-79 | Non-GET methods never answer 500 and leave the downloader state unchanged; their status is 200 or 405. |
| Api.Format | api.py:228-238 | Each NULL column among characters, YouTube title and YouTube URL becomes `''` and a present one is kept. The release date doubles as the YouTube date, and name and count are copied. |
| Api.FormatRoundTrip | api.py:228-238 | Formatting loses only the difference between NULL and `''`: with no empty column, reading the formatted row back gives the row. |
| Api.SearchByKeyword | api.py:184-253 | A stripped `q` that is empty gives 400. A failed query gives 500. Otherwise `total_results` equals the number of rows, each formatted in order. |
| Api.BlankKeywordRefused | api.py:184-190 | A `q` of spaces is refused with 400. |
| Api.KeywordRefusedIffBlank | api.py:184-190 | `search_by_keyword` refuses with 400 iff `q` is absent or all whitespace. Otherwise the keyword searched for is non-empty, lies inside `q`, and has no whitespace at either end. |
| Api.KeptAppend | api.py:384-388 | The pieces are handled one by one: the kept themes of a concatenation are those of each part, in order. |
| Api.KeptOne | api.py:386-387 | One piece yields its strip, or nothing when the strip is empty. |
| Api.KeptIsTrimmedPieces | api.py:385-387 | A theme is kept iff it is non-empty and is the strip of some piece. |
| Api.ThemesOfIsTrimmedPieces | api.py:385-387 | A themes string names a theme iff the theme is non-empty and is the strip of one of its comma-separated pieces. |
| Api.MentionsAreThemesInOrder | api.py:383-388 | Each further `themes` string adds its themes after the earlier mentions, in order; an empty string adds none. |
| Api.MentionIffTheme | api.py:383-388 | A theme is mentioned iff some `themes` string names it. |
| Api.Counted | api.py:382-388 | The reference tally has one entry per distinct theme, in first-seen order, with its number of mentions. |
| Api.TallyIsCounted | api.py:382-388 | The dictionary-updating loop computes the reference tally. |
| Api.TotalOfTally | api.py:382-388 | The counts sum to the number of non-empty pieces. |
| Api.ThemeList | api.py:391 | The sorted list is a permutation of the tally, in count-descending order, with ties in tally order. |
| Api.ThemeListCounts | api.py:385-391 | Each listed count is the theme's number of mentions, and is positive. |
| Api.ThemeListTotal | api.py:397 | The listed counts sum to the number of non-empty pieces. |
| Api.ThemeListCovers | api.py:385-397 | A theme is listed iff it is mentioned. |
| Api.ThemeListDistinct | api.py:388-397 | No theme is listed twice. |
| Api.ThemeListTiesInFirstSeenOrder | api.py:391 | Themes with equal counts appear in first-seen order. |
| Api.RepeatedThemeCountsTwice | api.py:373-388 | A theme repeated within one themes string counts twice. |
| Api.ThemesReply | api.py:366-404 | A successful query gives the theme list, and a failed one gives 500. |
| Api.Paginate | api.py:310-324 | The page is the rows from `offset` on, as many as `limit` allows and the result holds (none when `offset` is past the end). `total_count` is the separate count query's answer, and `has_more` holds iff `offset + limit < total_count`. |
| Api.HasMoreIffRowsRemain | api.py:310-324 | When the count is the number of rows, as in `search_dialogues`, `has_more` holds iff rows remain after the page. |
| Api.ScriptsPage | api.py:143-172 | `search_scripts` returns the groups from `offset` on, as many as `limit` allows and the result holds. `total_count` is the number of distinct script names, and `has_more` compares against it. |
| Api.ScriptsPageHidesRows | api.py:145-170 | One script with two groups, a page of one: `has_more` is false although a row remains. |
| Api.ScriptsPageExactWhenNamesDistinct | api.py:145-170 | When every script has one group, `total_count` is the row count and `has_more` holds iff rows remain. |
| Api.GetScriptDetails | api.py:406-479 | No metadata row gives 404. All three queries succeeding gives 200 with the first metadata row. Otherwise the reply is 500. |
| ManagementIds.ExtractB | extract_urls_from_csv_v2.py:10-15 | The ID is a prefix of `B` plus digits that cannot be extended. It is None iff the name does not start with `B` and a digit. |
| ManagementIds.ExtractBIsLongest | extract_urls_from_csv.py:10-16 | Every `B`-plus-digits prefix is found, and none is longer than the one returned. |
| ManagementIds.MatchSeries | extract_urls_comprehensive.py:14 | A match of `[ABEFHP]K?[-_]?\d+` is well formed, a prefix of the name, and ends where the digits end. |
| ManagementIds.MatchSeriesFindsEveryMatch | extract_urls_comprehensive.py:14 | Every match of the first pattern is found, and none is longer than the one returned. |
| ManagementIds.MatchLettered | extract_urls_comprehensive.py:15 | A match of `[A-Z]+\d+` is well formed, a prefix of the name, and ends where the digits end. |
| ManagementIds.MatchLetteredFindsEveryMatch | extract_urls_comprehensive.py:15 | Every match of the second pattern is found, and none is longer than the one returned. |
| ManagementIds.ExtractAny | extract_urls_comprehensive.py:10-22 | The first pattern wins when it matches; otherwise the second pattern's letters and digits are returned. The result is None iff neither pattern matches, and is a prefix of at least two characters. |
| ManagementIds.ExtractAnyFindsSeries | extract_urls_comprehensive.py:18-21 | A name starting with a series ID always yields an ID. |
| ManagementIds.ExtractAnyFindsLettered | extract_urls_comprehensive.py:18-21 | A name starting with letters and digits always yields an ID. |
| ManagementIds.ExtractorsAgreeOnBNumbers | extract_urls_comprehensive.py:10-22 | On a name starting with `B` and a digit, both extractors give the same ID. |
| CsvUrls.Clean | extract_urls_from_csv_v2.py:35-36 | A stripped cell is no longer than the cell and has no whitespace at either end. |
| CsvUrls.StoreKeys | extract_urls_from_csv_v2.py:41 | An ID is in the mapping iff some accepted record carried it. |
| CsvUrls.StoreSource | extract_urls_from_csv_v2.py:41 | Every mapped URL was written by an accepted record with that ID. |
| CsvUrls.StoreLastWins | extract_urls_from_csv_v2.py:41 | The last accepted record for an ID decides its URL. |
| CsvUrls.Pick | extract_urls_from_csv_v2.py:34-41 | A record yields an entry iff it has more fields than the larger column index, the stripped ID is non-empty and starts with `B`, and the stripped URL contains `docs.google.com`. The entry is the stripped pair. |
| CsvUrls.LoadFixed | extract_urls_from_csv_v2.py:49-54 | A missing file gives an empty mapping. |
| CsvUrls.LoadNew | extract_urls_from_csv_v2.py:17-54 | A missing new.csv gives an empty mapping. |
| CsvUrls.Load2019 | extract_urls_from_csv_v2.py:56-93 | A missing 2019 sheet gives an empty mapping. |
| CsvUrls.LoadFixedKeys | extract_urls_from_csv_v2.py:26-41 | An ID is loaded iff some record after the fourth is accepted with that stripped ID. |
| CsvUrls.LoadFixedAccepts | extract_urls_from_csv_v2.py:39-41 | Every loaded ID starts with `B` and every loaded URL contains `docs.google.com`. |
| CsvUrls.LoadFixedLastWins | extract_urls_from_csv_v2.py:41 | The last accepted record for an ID decides its URL. |
| CsvUrls.ReadErrorKeepsEarlierRecords | extract_urls_from_csv_v2.py:49-54 | A read error keeps the entries collected before it. |
| CsvUrls.MergeV2 | extract_urls_from_csv_v2.py:177 | The merge covers the union of the keys, and new.csv wins on conflict. |
| CsvUrls.LoadV1 | extract_urls_from_csv.py:18-53 | A missing file, fewer lines than `skip_rows`, or a read error gives `{}`. Otherwise every record after the skipped raw lines is picked. |
| CsvUrls.LoadV1Keys | extract_urls_from_csv.py:24-40 | An ID is loaded iff reading succeeded and some record is accepted with that stripped ID. |
| CsvUrls.MergeV1 | extract_urls_from_csv.py:124 | The merge covers the union of the keys, and the 2019 sheet wins on conflict. |
| CsvUrls.MergesDisagree | extract_urls_from_csv.py:124 | On a conflicting ID the two scripts' merges pick different URLs. |
| CsvUrls.ScanStep | extract_urls_comprehensive.py:59-70 | Once the ID or the URL is set, later cells never replace it. |
| CsvUrls.ScanNoId | extract_urls_comprehensive.py:62-66 | With no cell yielding an ID, the row has no ID. |
| CsvUrls.ScanTakesLeftmostId | extract_urls_comprehensive.py:59-66 | The row's ID is extracted from the leftmost stripped, non-empty cell that yields one. |
| CsvUrls.ScanNoUrl | extract_urls_comprehensive.py:68-70 | With no cell containing `docs.google.com`, the row has no URL. |
| CsvUrls.ScanTakesLeftmostUrl | extract_urls_comprehensive.py:68-70 | The URL is the leftmost stripped cell containing `docs.google.com`. |
| CsvUrls.ScanFindsOnlyCells | extract_urls_comprehensive.py:59-70 | An ID or URL is found only if some cell provides one. |
| CsvUrls.RowEntry | extract_urls_comprehensive.py:73-75 | A record's entry has an ID of at least two characters and a URL containing `docs.google.com`. |
| CsvUrls.FilePicks | extract_urls_comprehensive.py:37-52 | A missing file contributes nothing. Otherwise the first four records yield nothing and every later record is scanned. |
| CsvUrls.AllPicks | extract_urls_comprehensive.py:33-81 | Every entry gathered over the files is a scanned entry. |
| CsvUrls.LoadAllAccepts | extract_urls_comprehensive.py:73-74 | Every loaded URL contains `docs.google.com`. |
| CsvUrls.TwoFiles | extract_urls_comprehensive.py:26-33 | new.csv is read before the 2019 sheet. |
| CsvUrls.MissingFileSkipped | extract_urls_comprehensive.py:37-39 | A missing new.csv is skipped, and the 2019 sheet is still read. |
| CsvUrls.ComprehensiveLaterFileWins | extract_urls_comprehensive.py:26-29 | The 2019 sheet's last entry for an ID decides its URL, over anything in new.csv. |
| CsvUrls.RowEntryIsLeftmost | extract_urls_comprehensive.py:59-75 | The entry pairs the leftmost ID cell's ID with the leftmost URL cell. |
| CsvUrls.RowWithoutUrlIgnored | extract_urls_comprehensive.py:73 | A record with no URL cell contributes nothing. |
| CsvUrls.Updates | extract_urls_from_csv_v2.py:112-118 | Each update carries a database name, the ID extracted from it, and that ID's mapped URL. |
| CsvUrls.UpdatedIffMatched | extract_urls_from_csv_v2.py:112-118 | A name is updated iff its extracted ID is a key of the mapping. |
| CsvUrls.ApplyUpdates | extract_urls_from_csv_v2.py:121-125 | After the updates, a matched script's URL is the mapped one, and every other script's URL is unchanged. |
| CsvUrls.OnlyBNumberKeysMatch | extract_urls_from_csv.py:67-71 | Only `B`-plus-digits IDs can match in the B-number scripts. |
| CsvUrls.RunV2 | extract_urls_from_csv_v2.py:153-191 | Each update of the v2 script carries the URL of the merged mapping, with new.csv first. |
| CsvUrls.RunV1 | extract_urls_from_csv.py:100-132 | Each update of the older script carries the URL of its merged mapping, where the 2019 sheet wins, for the name's B-number. |
| CsvUrls.RunComprehensive | extract_urls_comprehensive.py:102-118 | Each update carries the URL of the comprehensive mapping for the name's two-pattern ID. |
| MissingRanges.Partition | analyze_missing_urls.py:25-31 | Every name lands in exactly one list. The ids are B-numbers, and the others are exactly the names without one. |
| MissingRanges.PartitionIds | analyze_missing_urls.py:27-29 | An ID is listed iff it is the B-number of some name. |
| MissingRanges.NumberOfPrinted | analyze_missing_urls.py:38 | The ID printed for a number is a B-number, and reading it back gives the number. |
| MissingRanges.LeadingZerosVanish | analyze_missing_urls.py:38 | `B07` and `B7` give the same number. |
| MissingRanges.SortAscending | analyze_missing_urls.py:39 | The sorted numbers are a permutation of the numbers, in ascending order. |
| MissingRanges.SortedBounds | analyze_missing_urls.py:42-43 | `min` and `max` are the first and last sorted numbers. |
| MissingRanges.SortedEndsAreMinMax | analyze_missing_urls.py:42-43 | The first sorted number is below every number and the last above every number, and both are numbers of some ID. |
| MissingRanges.CloseRun | analyze_missing_urls.py:51-56 | A number that is not `prev + 1` closes the open range and opens a new one. |
| MissingRanges.ExtendRun | analyze_missing_urls.py:51-57 | `prev + 1` extends the open range. |
| MissingRanges.FinishRuns | analyze_missing_urls.py:59-63 | Closing the last range decomposes the whole list. |
| MissingRanges.Compact | analyze_missing_urls.py:46-63 | Expanding the ranges gives back the sorted numbers, duplicates included. Each range is consecutive, and no range starts at the previous end plus one. |
| MissingRanges.RangesUnique | analyze_missing_urls.py:46-63 | The decomposition into maximal runs is unique, so the compaction is determined by the numbers. |
| MissingRanges.LabelReadsBack | analyze_missing_urls.py:52-55 | A range's label splits into one or two B-numbers, and they read back as its start and end. |
| MissingRanges.LeadingZeroLabelDiffers | analyze_missing_urls.py:53 | The label of `B0…` drops the zero, so it differs from the ID. |
| MissingRanges.Summarize | analyze_missing_urls.py:65-67 | At most the first ten labels are shown, with a remainder count exactly when there are more. The shown labels and the remainder add up to all of them. |
| MissingRanges.Analyze | analyze_missing_urls.py:22-67 | The counts add up to the number of names, and bounds exist iff some ID is missing. The bounds are the first and last sorted numbers: each is some ID's number and together they cover every number. The ranges decompose the sorted numbers, and the display summarises their labels. |
| MissingRanges.RepeatBreaksRun | analyze_missing_urls.py:50-57 | A duplicate breaks a run: `[5, 5]` gives two `B5` ranges. |

## Left out

- HTTPS, file streams, `fs.existsSync`/`statSync`, SQLite, `urlretrieve` and the database-exists checks. Query results and network answers are parameters, and the filesystem is a map from name to size and bytes.
- SQL semantics are not modelled: `LIKE`, `DISTINCT`, `GROUP BY`, `COUNT`, `ORDER BY`, `LIMIT`/`OFFSET`, `GROUP_CONCAT`, `cursor.rowcount` and the `total_with_urls` count. The rows a query returns are given in the order the query promises.
- CSV parsing is a parameter: a file is its records, plus whether reading stopped on an error.
- Console output, `print` summaries, the samples printed by `main`, and the `debug` field of the 404 in script_detail.js are not modelled.
- `youtube_coverage`, the dialogue and title searches of api.py, and the `details` text of stats_v2.js's 500 body are not modelled.
- `JSON.stringify(name)` and the hex dump in list_scripts.js are not modelled.
- script.js, script_detail_broken.js, debug.js, hello.js, api/test.js and the SQL-only handlers (api/database.py, api/stats.py, netlify/functions/stats.py, check_script_urls.js) are not part of this model.
- Text.Lower: lower-cases ASCII letters only. `toLowerCase` and `.lower()` fold all of Unicode.
- Text.DigitRun: accepts ASCII digits only, while Python's `\d` and `int()` also accept other Unicode decimal digits.
- Ranking.SortDescending: orders release dates by code point. JavaScript's `localeCompare` uses the locale's collation, so search.js may order ties on count differently.
- Search.Aggregate: keeps results in first-appearance order before the sort. A JavaScript object lists integer-like keys first, so a script named by digits alone would move in search.js.
- Search.GroupRows: groups by the name as a Dafny string. search.js keys a plain `{}` object, so a script named `constructor`, `toString`, `__proto__` or another inherited property finds an inherited value, gets no entry, and its first kept line throws a TypeError. A NULL `script_name` becomes the key "null" and shares an entry with a script named "null".
- CsvUrls.Updates: takes the database names as strings. `SELECT DISTINCT script_name` can return NULL, and `re.match` on `None` raises a TypeError before `conn.commit()`, so the script aborts and no update persists (extract_urls_from_csv_v2.py:111-113, extract_urls_from_csv.py:66-68, extract_urls_comprehensive.py:102-103).
- MissingRanges.Partition: takes the names as strings. A NULL `script_name` makes `re.match` raise a TypeError, and the analysis aborts (analyze_missing_urls.py:25-27).
- Search.AggregateEntries: gives `characters` as a first-seen list. The Python handler joins a `set`, whose order is unspecified, and both handlers join with `', '`.
- Detail.Confidence: is an exact ratio, not a floating-point quotient.
- Api.Paginate: takes `limit` and `offset` as naturals. Python's `int()` accepts negative values, and SQLite reads a negative `LIMIT` as no limit. The count is a parameter; only `search_scripts`' count (distinct names) is derived from the rows.
- Fetcher.Requestable: a target is requestable iff it starts with `https:`, case-sensitively. A malformed host after that scheme counts as requestable (its failure is a network error). After a throw the model keeps the empty file and the set `dbPath`; whether the function instance survives is not modelled.
- Fetcher.Problem: `buffer.toString()` of a file longer than the runtime's maximum string length throws inside the 'finish' handler; that throw is not modelled.
- Fetcher.IsDatabase: a file is a database iff it starts with the SQLite header. A corrupt file with a valid header is covered by the query-answer parameter.
- Api.ThemeList: lists themes in the order of the distinct `themes` strings as given. `SELECT DISTINCT` promises no order.
- The per-row `IndexError` and exception handlers of the CSV loaders are not modelled; the length guard rules them out.
- The `if all_urls:` guard in `main` is not modelled, because no update results from an empty mapping anyway.
- Request headers such as the User-Agent, and the case of response header names, are not modelled. A redirect needs a non-empty Location, as JavaScript's truthiness test does.
- The clock reading `Date.now()` is the parameter `now`.

## Findings

| source | as written | input that shows it | evidently intended | confidence | as-written member | corrected member |
|---|---|---|---|---|---|---|
| api.py:145-170 | `search_scripts` pages groups over seven columns but sets `total_count` to `COUNT(DISTINCT script_name)` and compares `has_more` against it | one script whose two rows differ in `themes`, `limit=1`, `offset=0`: one row returned, `has_more` false, one row left | `has_more` true exactly when rows remain, as `search_dialogues` computes it | low, not executed | Api.ScriptsPageHidesRows | Api.HasMoreIffRowsRemain |

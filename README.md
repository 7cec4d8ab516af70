# Qwen model timeline: a verified model

The repository keeps a table of Qwen models published on the Hugging Face
hub and does two things with it. Both are modelled here.

- `update_qwen_models.py` fills in missing update dates. It reads the
  CSV and selects every row whose `update_time` is `-` or empty. For each
  selected model it asks the hub API first and then scrapes the model
  page. It writes a resolved date back into that row and counts each
  model as updated or failed.
  - The API path reads `lastModified`, falling back to `createdAt`. The
    date is the one written in the timestamp; the time zone is not
    converted.
  - The page path runs three stages in order. First come keyword text
    nodes matched against four phrase patterns. Then come `meta` contents
    holding an ISO date. Last is a raw-text scan over four date shapes in
    fixed priority.
- `convert_csv_to_json.py` turns the cleaned CSV into a JSON timeline. It
  keeps the rows that name a model and standardises their update times to
  `YYYY-MM-DD`. It parses sizes such as `7B` and download counts. It sorts
  the models by standardised time, newest first, and computes statistics:
  time range, type and size tallies, download total and average, and how
  many models carry a time and a size.

The Dafny modules follow that structure:

| module | file | what it models |
|---|---|---|
| `Wrappers` | wrappers.dfy | `Option` |
| `Text` | text.dfy | characters, `str.strip`, digit strings, lexicographic order |
| `Calendar` | calendar.dfy | dates, days per month, `strftime("%Y-%m-%d")` |
| `Strptime` | strptime.dfy | `datetime.strptime` for the seven formats the scripts use |
| `IsoTimestamp` | iso_timestamp.dfy | `datetime.fromisoformat` on `YYYY-MM-DD[Thh:mm:ss[.fff]][±hh:mm]` |
| `ApiExtract` | api_extract.dfy | `extract_update_time_from_api` on a decoded reply |
| `HtmlExtract` | html_extract.dfy | `extract_update_time_from_html` on a parsed page |
| `DateReading` | date_reading.dfy | what each date shape the extractor captures reads as |
| `Updater` | updater.dfy | `fetch_model_update_time`, the counters, selection and merge of `update_csv_file` |
| `Convert` | convert.dfy | `standardize_time`, `parse_model_size`, `parse_download_number` |
| `FormatReading` | format_reading.dfy | which date the day-and-month-name formats of `standardize_time` read, and the key they give |
| `Timeline` | timeline.dfy | the row filter, the record built per row, the sort |
| `Statistics` | statistics.dfy | `generate_statistics` |
| `Conversion` | conversion.dfy | `convert_csv_to_json` as a whole |

Modelling choices:

- **Outside inputs.** Network replies, the parsed page and the clock are
  parameters.
  - An API reply is a status and an optional decoded body.
  - A page is its text nodes in document order, the `content` attributes
    of its `meta` tags, and its raw text.
  - A page fetch ends in a page, a `RequestException`, or another
    exception.
  - `datetime.now()` is the date `today`, or the string `now` for
    `generated_date`.
- **Counters and merge.** The counters `updated_count` and `failed_count`
  are fields of the class `Updater.ModelUpdater`. The rows are an
  `array` of column maps that the merge overwrites in place. The
  completion order of the thread pool is a parameter, a permutation of
  the selected tasks. The result is proved not to depend on it.
- **Regular expressions.** Each regex is a recogniser written for its
  one shape.
  - `re.search` takes the leftmost match.
  - `re.findall` takes non-overlapping matches from left to right.
  - `IGNORECASE` lowers ASCII letters.
  - `\s` is the set of characters `str.isspace` accepts.
  - `\d` is an ASCII digit.
- **Tallies.** Python dicts that count become association lists in
  insertion order. The sort is `sorted(..., reverse=True)`: a stable
  insertion sort that keeps equal keys in row order.
- **Numbers.** Sizes are exact decimals of type `real`. Download counts
  follow `int(float(s))`: the literal is read exactly and truncated
  toward zero.

The relative phrase `Updated about 10 hours ago` follows the code, not
the intent its comments state (update_qwen_models.py:82, 104): that such
a page resolves to today's date. In the code, the lazy group `(.+?)\s+ago` stops before
`ago`. So the captured `10 hours` never contains "ago", and the pattern
falls through to the next one (`HtmlExtract.RelativePhraseFallsThrough`).

Likewise, the comment at convert_csv_to_json.py:107 says missing times
sort last. The code sorts newest first, so `9999-99-99` comes before
every real date (`Timeline.MissingTimesFirst`).

## Model

| member | source | states |
|---|---|---|
| Text.StripIdempotent | convert_csv_to_json.py:29-33 | stripping twice is stripping once |
| Calendar.FormatOfIsoText | convert_csv_to_json.py:123 | for a valid date written `YYYY-MM-DD`, formatting its date gives back the text |
| Strptime.Parse | convert_csv_to_json.py:120-123 | a successful strptime parse is a valid calendar date |
| Strptime.ParseFormatRoundTrip | convert_csv_to_json.py:113 | parsing `%Y-%m-%d` inverts formatting for every valid date |
| Strptime.ParseYearLast | update_qwen_models.py:96-97 | a format ending in `%Y` takes its year from the last four digits of the text |
| Strptime.AbbrevMonth | update_qwen_models.py:97 | `%b` names month `k` exactly when the first three letters, ignoring case, are that month's abbreviation |
| IsoTimestamp.FromIsoFormat | update_qwen_models.py:51-52 | a parsed timestamp is a valid date whose formatting is the first ten characters of the text |
| ApiExtract.TimestampDate | update_qwen_models.py:50-52 | a field's date is the first ten characters of its string, ISO shaped |
| ApiExtract.ParsedDateIsWritten | update_qwen_models.py:51-52 | replacing `Z` and parsing keeps the written date: no time-zone shift |
| ApiExtract.ExtractFromApi | update_qwen_models.py:42-66 | a date exactly for status 200 with a body where one of the two fields parses; `lastModified` wins when it parses, `createdAt` only otherwise |
| ApiExtract.ExtractFromApiExample | update_qwen_models.py:47-52 | `2024-01-25T10:00:00Z` gives `2024-01-25` |
| ApiExtract.ExtractFromApiNoTimeZoneShift | update_qwen_models.py:51-52 | `2024-01-25T23:30:00-05:00` gives `2024-01-25`, not the UTC day |
| HtmlExtract.SearchFrom | update_qwen_models.py:113 | the result is the leftmost position where the shape matches, or none anywhere |
| HtmlExtract.FindAll | update_qwen_models.py:126 | empty exactly when there is no match; the first element is the leftmost match |
| HtmlExtract.LazyAgo | update_qwen_models.py:82 | a group found is at least its minimum length, is followed by `\s+ago` and crosses no newline |
| HtmlExtract.LazyAgoShortest | update_qwen_models.py:82 | no `\s+ago` starts between the minimum length and the end of the group found: it is the shortest that serves |
| HtmlExtract.PhraseFrom | update_qwen_models.py:88 | the position found is the first from the start position where the pattern matches; none when it matches at no later position |
| HtmlExtract.PhraseAt | update_qwen_models.py:81-85 | a phrase pattern matching at a position captures a non-empty group |
| HtmlExtract.AboutStart | update_qwen_models.py:82 | the `\s+` after `about` gives back characters until `(.+?)\s+ago` matches: the group starts at the last position of the run from which it can, and none is found only when it can start from no position of the run |
| HtmlExtract.AboutGivesBackSpace | update_qwen_models.py:82 | `Updated about` with three spaces before `ago` at the end of a line captures one space: two spaces are given back |
| HtmlExtract.AboutFirstLineDecides | update_qwen_models.py:82-105 | in `Updated about   ago` followed by a line `Updated about Aug 6 ago` the search stops at the first line, whose one-space group yields no date |
| HtmlExtract.PhraseFromFirst | update_qwen_models.py:88 | the search finds the first position where the pattern matches, however far it is from the start |
| HtmlExtract.SearchPhrase | update_qwen_models.py:88-90 | a capture exactly when the phrase matches at some position, and then the capture of the leftmost such position |
| HtmlExtract.CaptureDate | update_qwen_models.py:92-107 | a stage-1 capture yields a `YYYY-MM-DD` text or nothing |
| HtmlExtract.CandidateDate | update_qwen_models.py:128-144 | an ISO match is returned verbatim; anything else yields a `YYYY-MM-DD` text or nothing |
| HtmlExtract.TextDate | update_qwen_models.py:80-107 | a text node yields a `YYYY-MM-DD` text or nothing |
| HtmlExtract.TextDateFirstPhrase | update_qwen_models.py:87-102 | the four phrase patterns are tried in order and the first that yields a date decides |
| HtmlExtract.TextDateNone | update_qwen_models.py:87-107 | a text node yields nothing exactly when none of the four phrase patterns yields a date |
| HtmlExtract.NodeDate | update_qwen_models.py:76-78 | only a node containing one of the keywords yields a date, and it is a `YYYY-MM-DD` text |
| HtmlExtract.Stage1 | update_qwen_models.py:76-107 | stage 1 yields a `YYYY-MM-DD` text or nothing |
| HtmlExtract.Stage2 | update_qwen_models.py:110-115 | stage 2 yields an ISO-shaped text or nothing |
| HtmlExtract.Stage3 | update_qwen_models.py:118-144 | stage 3 yields an ISO-shaped text or nothing |
| HtmlExtract.ExtractFromHtml | update_qwen_models.py:68-149 | the extractor yields an ISO-shaped text or nothing |
| HtmlExtract.HtmlStageOrder | update_qwen_models.py:75-146 | stage 2 is consulted only when stage 1 yields nothing, stage 3 only when both do |
| HtmlExtract.Stage1FirstWins | update_qwen_models.py:77-105 | the first text node in document order that yields a date decides |
| HtmlExtract.Stage1None | update_qwen_models.py:77-107 | stage 1 yields nothing exactly when no text node yields a date |
| HtmlExtract.KeywordFilterRedundant | update_qwen_models.py:76-78 | selecting nodes by keyword changes nothing: a node's date is that of its stripped text |
| HtmlExtract.Stage3LeftmostIso | update_qwen_models.py:118-131 | an ISO date anywhere in the page beats every other shape, and the leftmost one is returned |
| HtmlExtract.FirstCandidate | update_qwen_models.py:128-144 | the matches of one pattern yield a `YYYY-MM-DD` text or nothing |
| HtmlExtract.FirstCandidateWins | update_qwen_models.py:128-144 | among one pattern's matches the first that yields a date decides; earlier failures are skipped |
| HtmlExtract.FirstCandidateNone | update_qwen_models.py:125-144 | a pattern yields nothing exactly when none of its matches does |
| HtmlExtract.Stage2FirstMeta | update_qwen_models.py:110-115 | the first `meta` content holding an ISO date gives its leftmost one |
| HtmlExtract.RelativePhraseFallsThrough | update_qwen_models.py:82-105 | `Updated about 10 hours ago` captures `10 hours`, and that capture yields no date |
| HtmlExtract.ImpossibleDayRejected | update_qwen_models.py:132-134 | `Feb 30, 2024` matches its shape but raises ValueError, so it is skipped |
| HtmlExtract.MetaDateNotValidated | update_qwen_models.py:110-115 | `2024-13-45` is not a calendar date yet stage 2 returns it |
| DateReading.MonDWithYearReads | update_qwen_models.py:95-97 | `%b %d %Y` over a "Mon D" text completed with a year reads the abbreviated month, the day digits and that year, and fails when the date does not exist or the year has fewer than four digits |
| DateReading.MonDYReads | update_qwen_models.py:99-101 | `%b %d, %Y` over a "Mon D, YYYY" text reads its month, day and year, and fails when the date does not exist |
| DateReading.SlashReads | update_qwen_models.py:140-142 | `%m/%d/%Y` over a "MM/DD/YYYY" text reads its month, day and year, and fails when the date does not exist |
| DateReading.ShapesApart | update_qwen_models.py:93-142 | the capture shapes exclude one another, so at most one branch of each cascade applies |
| DateReading.CaptureMonD | update_qwen_models.py:93-98 | a "Mon D" capture gives that month and day in the current year, or nothing when the date does not exist |
| DateReading.CaptureMonDY | update_qwen_models.py:99-102 | a "Mon D, YYYY" capture gives that date, or nothing when it does not exist |
| DateReading.CaptureNoMonth | update_qwen_models.py:93-107 | a capture of either month shape whose letters abbreviate no month gives nothing and is not read as relative |
| DateReading.CaptureOther | update_qwen_models.py:103-105 | a capture of neither month shape gives today exactly when it contains `ago`, and nothing otherwise |
| DateReading.CandidateMonDY | update_qwen_models.py:132-134 | a "Mon D, YYYY" match gives that date, or nothing when it does not exist |
| DateReading.CandidateMonD | update_qwen_models.py:135-139 | a "Mon D" match gives that month and day in the current year, or nothing when the date does not exist |
| DateReading.CandidateSlash | update_qwen_models.py:140-142 | a "MM/DD/YYYY" match gives that date, or nothing when it does not exist |
| DateReading.CandidateNoMonth | update_qwen_models.py:132-144 | a match of either month shape whose letters abbreviate no month gives nothing |
| DateReading.LastUpdatedAug6 | update_qwen_models.py:81-98 | a page whose one text node reads `Last updated Aug 6`, read on 14 October 2025, is dated `2025-08-06` |
| Updater.Resolve | update_qwen_models.py:151-190 | a truthy API date wins; otherwise the page's date, None for a request error, and a raise exactly for another failure without a truthy API date |
| Updater.ApiSuccessSkipsPage | update_qwen_models.py:156-161 | a truthy API date is returned, the page is not fetched, and `updated_count` alone grows by one |
| Updater.ExactlyOneCounter | update_qwen_models.py:156-190 | a call that returns bumps exactly one counter; one that raises bumps none |
| Updater.ResultIffUpdated | update_qwen_models.py:156-190 | the call returns a date exactly when it counts the model as updated |
| Updater.ModelUpdater.constructor | update_qwen_models.py:34-35 | both counters start at zero |
| Updater.ModelUpdater.FetchModelUpdateTime | update_qwen_models.py:151-190 | the outcome is `Resolve`; the page is fetched only when the API date is not truthy; the counters grow by one bump each |
| Updater.Selection | update_qwen_models.py:202-205 | the selected indices are strictly increasing, each a row to update, each paired with its name |
| Updater.SelectionCovers | update_qwen_models.py:203-205 | every row to update is selected |
| Updater.SelectionIsPending | update_qwen_models.py:202-205 | the selected indices are exactly the rows to update |
| Updater.SelectRows | update_qwen_models.py:202-205 | the loop over the rows builds exactly the selection |
| Updater.MergedRows | update_qwen_models.py:218-225 | the merge keeps the number and order of rows |
| Updater.MergedRow | update_qwen_models.py:218-223 | the merge keeps every column, changes only `update_time`, and leaves a row that was not selected as it was |
| Updater.MergeChangesIffUpdated | update_qwen_models.py:220-225 | a row changes exactly when it was selected and its model was counted as updated, and then it holds the returned date |
| Updater.UpdatedAreChangedRows | update_qwen_models.py:210-225 | the models counted as updated are exactly the rows the merge changes |
| Updater.CountersPartitionSelection | update_qwen_models.py:210-225 | no model is counted twice; the counters cover every selected model when no task raised |
| Updater.ModelUpdater.MergeOne | update_qwen_models.py:218-223 | one completed task replaces row `index` with its merged row and changes no other row; each counter grows by that task's bump |
| Updater.ModelUpdater.UpdateRows | update_qwen_models.py:202-225 | for every completion order the rows end as `MergedRows`, and the counters grow by the updated and failed selections |
| Convert.FirstParse | convert_csv_to_json.py:120-125 | a parse found is a valid date, and none is found exactly when every format fails |
| Convert.FirstParseFirstWins | convert_csv_to_json.py:120-125 | the first format that parses decides |
| Convert.StandardizeTime | convert_csv_to_json.py:104-128 | missing gives `9999-99-99`; otherwise the stripped text, or a valid date written `YYYY-MM-DD` |
| Convert.StandardizeTimeFirstFormat | convert_csv_to_json.py:120-123 | the first of the five formats that parses gives the result |
| Convert.StandardizeTimeUnparsed | convert_csv_to_json.py:127-128 | a time no format parses comes back stripped |
| Convert.StandardizeTimeOfFormat | convert_csv_to_json.py:113 | a `YYYY-MM-DD` date is left as it is |
| Convert.StandardizeMissingTime | convert_csv_to_json.py:106-107 | the missing-time sentinel is a fixed point |
| Convert.StandardizeTimeIdempotent | convert_csv_to_json.py:104-128 | on stripped input, standardising twice is standardising once |
| Convert.StandardizeTimeNotIdempotentOnSpace | convert_csv_to_json.py:106-109 | `" "` standardises to `""`, which standardises to `9999-99-99` |
| Convert.StandardizeDash | convert_csv_to_json.py:106-128 | an ASCII `-` is not missing and comes back unchanged |
| FormatReading.NameDayCommaYearReads | convert_csv_to_json.py:115 | `%B %d, %Y` over "<full month name> <1 or 2 digits>, <4 digits>", in any letter case, reads exactly that month, day and year, and raises when no such date exists |
| FormatReading.DayAbbrevYearReads | convert_csv_to_json.py:116 | `%d %b %Y` over "<1 or 2 digits> <month abbreviation> <4 digits>" reads exactly that day, month and year, and raises when no such date exists |
| FormatReading.DayNameYearReads | convert_csv_to_json.py:117 | `%d %B %Y` over "<1 or 2 digits> <full month name> <4 digits>" reads exactly that day, month and year, and raises when no such date exists |
| FormatReading.AbbrevOfNameFails | convert_csv_to_json.py:114 | `%b` followed by `\s+` fails on a full month name longer than its abbreviation |
| FormatReading.NameOfAbbrevFails | convert_csv_to_json.py:115-117 | `%B` fails on an abbreviation followed by a space when the month's full name is longer |
| FormatReading.KeyOfNameDayCommaYear | convert_csv_to_json.py:113-125 | a valid date written "<full name> <day>, <year>" standardises to that date as `YYYY-MM-DD`: the first two formats fail and `%B %d, %Y` decides (`May`, the one name no longer than its abbreviation, is read by `%b %d, %Y` first) |
| FormatReading.KeyOfDayAbbrevYear | convert_csv_to_json.py:113-125 | a valid date written "<day> <abbreviation> <year>" standardises to that date: the first three formats fail and `%d %b %Y` decides |
| FormatReading.KeyOfDayNameYear | convert_csv_to_json.py:113-125 | a valid date written "<day> <full name> <year>" standardises to that date: the first four formats fail and `%d %B %Y` decides |
| FormatReading.KeyOfMissingDate | convert_csv_to_json.py:113-128 | "<day> <abbreviation> <year>" for a day the month does not have is parsed by no format and comes back as written |
| FormatReading.StandardizeNameDayCommaYear | convert_csv_to_json.py:115 | `January 25, 2024` standardises to `2024-01-25` |
| FormatReading.StandardizeDayAbbrevYear | convert_csv_to_json.py:116 | `25 Jan 2024` standardises to `2024-01-25` |
| FormatReading.StandardizeDayNameYear | convert_csv_to_json.py:117 | `25 January 2024` standardises to `2024-01-25` |
| FormatReading.StandardizeNoSuchDay | convert_csv_to_json.py:113-128 | `31 Sep 2024` comes back unchanged |
| Convert.ParseModelSize | convert_csv_to_json.py:130-142 | none exactly for missing text or text not starting with a digit; otherwise non-negative |
| Convert.ParseModelSizeWhole | convert_csv_to_json.py:138-140 | `7B` gives 7 |
| Convert.ParseModelSizeBareDot | convert_csv_to_json.py:138-140 | a dot with no digit after it is not part of the number: `1.B` gives 1 |
| Convert.ParseModelSizeFraction | convert_csv_to_json.py:138-140 | `a.b` followed by a non-digit gives the decimal `a.b` |
| Convert.ParseDownloadNumber | convert_csv_to_json.py:91-102 | missing or non-numeric text gives 0; a float literal gives its value truncated toward zero |
| Convert.DownloadsWithSeparatorAreZero | convert_csv_to_json.py:98-102 | text holding a `,` is not a float literal and gives 0 |
| Convert.DownloadsOfDigits | convert_csv_to_json.py:100 | a digit string gives its integer |
| Convert.DownloadsTruncateTowardZero | convert_csv_to_json.py:100 | `a.b` and `-a.b` give `a` and `-a` |
| Timeline.RecordOf | convert_csv_to_json.py:36-56 | a record's text fields carry no edge whitespace, its sort key is its standardised time and already standard, its downloads number is read from its downloads text, and its link is the hub page of its name |
| Timeline.CollectModels | convert_csv_to_json.py:28-59 | the loop collects exactly the kept records, in row order |
| Timeline.Kept | convert_csv_to_json.py:36-59 | every row that names a model has its record kept, and every kept record is the record of such a row |
| Timeline.KeptRecordsAreClean | convert_csv_to_json.py:29-56 | a kept name is neither empty nor `nan`, and its sort key is already standard |
| Timeline.SortByTimeDesc | convert_csv_to_json.py:64 | the sort keeps the number of records |
| Timeline.SortPermutes | convert_csv_to_json.py:64 | the sort is a permutation |
| Timeline.SortIsSorted | convert_csv_to_json.py:64 | the sort is non-increasing by standardised time |
| Timeline.SortIsStable | convert_csv_to_json.py:64 | records with equal keys keep their row order |
| Timeline.MissingTimesFirst | convert_csv_to_json.py:64 | a missing time sorts before every `YYYY-MM-DD` date |
| Statistics.Bump | convert_csv_to_json.py:158 | an existing key keeps every position; a new key is appended with count 1 |
| Statistics.TallyLookup | convert_csv_to_json.py:155-158 | a tally holds each key's number of occurrences |
| Statistics.TallyOf | convert_csv_to_json.py:155-158 | a tally's keys are distinct and are exactly the items, and its counts sum to the number of items |
| Statistics.TimesOf | convert_csv_to_json.py:148 | the counted times are exactly the keys of the models whose key is neither `9999-99-99` nor starts with `0`: each counted time is such a model's key, and each such key is counted |
| Statistics.SizesOf | convert_csv_to_json.py:161-165 | the counted sizes are exactly the present non-zero sizes: each is non-zero and some model's size, and each such size is counted |
| Statistics.SizesOfCount | convert_csv_to_json.py:161-165 | a non-zero size occurs among the counted sizes once per model of that size |
| Statistics.SizeCounts | convert_csv_to_json.py:161-165 | `sizes[x]` is the number of models whose size is `x`, for every non-zero `x` |
| Statistics.MinLex | convert_csv_to_json.py:150 | the minimum is a member and below every member |
| Statistics.MaxLex | convert_csv_to_json.py:151 | the maximum is a member and above every member |
| Statistics.CountTypes | convert_csv_to_json.py:155-158 | the loop builds the tally of the model types |
| Statistics.CountSizes | convert_csv_to_json.py:161-165 | the loop builds the tally of the truthy sizes |
| Statistics.GenerateStatistics | convert_csv_to_json.py:144-179 | every statistic is its specification function; the average is total over count, or 0 |
| Statistics.TimeRangeBounds | convert_csv_to_json.py:148-152 | when there are times, both ends are members and some model's key, start ≤ end, and every time lies between them; every model whose key counts makes the range present and lies between its ends |
| Statistics.TimesWithinModelsWithTime | convert_csv_to_json.py:148-177 | the time range considers at most `models_with_time` models |
| Statistics.LeadingZeroTimeNotInRange | convert_csv_to_json.py:148-177 | a time starting with `0` counts for `models_with_time` but not for the range |
| Statistics.TypeCounts | convert_csv_to_json.py:155-158 | the type counts cover every model once, and a type is present exactly when some model has it |
| Statistics.SizeCountsWithinModelsWithSize | convert_csv_to_json.py:161-178 | the size counts sum to at most `models_with_size` |
| Conversion.ConvertCsvToJson | convert_csv_to_json.py:12-89 | none exactly when the file is missing; otherwise the sorted kept models, their count, and statistics over the unsorted models, copied into the metadata |
| Conversion.TimelineModels | convert_csv_to_json.py:28-81 | the timeline is a stable, sorted permutation of the kept models; the type counts add up to its length |

## Left out

- HTTP: the session, headers, timeouts and the JSON decoding of a reply. An API reply is a status and an optional decoded body, and a page fetch an outcome; both are inputs.
- Pacing: `random.uniform` and `time.sleep` carry no functional content.
- Concurrency: the lock and the thread pool. Tasks complete one at a time in a given order, which is any permutation of the selection.
- Network outcomes are given per row index, not looked up by model name; two rows naming the same model may get different outcomes.
- The HTML parser: a page is given as its text nodes, `meta` contents and raw text, and the model does not relate these three to one another.
- The catch-all `except` around the HTML extractor: the modelled extractor cannot raise, so that branch cannot be reached.
- The full `re` engine: only the shapes the scripts use are recognised. Unicode digits for `\d` and full Unicode case folding are not modelled. Likewise `float()` in `parse_download_number` (convert_csv_to_json.py:100) accepts any Unicode decimal digits, so fullwidth `１２３` gives 123 there; `Convert.ReadFloat` reads ASCII digits only, so the model gives 0 for it.
- `datetime.fromisoformat` beyond a date alone, or a date, `T` or space, `hh:mm:ss`, an optional 3- or 6-digit fraction and an optional `±hh:mm` offset: week dates, ordinal dates, compact forms, `hh:mm` alone and offsets with seconds give no date in the model.
- `strptime` locale: English month names only.
- Strftime: years below 1000 are written with four digits. That is what recent Python versions do for `%Y`; older C libraries that write fewer digits are not modelled.
- Convert.ParseModelSize: the result is the exact decimal, not the nearest binary float.
- Convert.ParseDownloadNumber: the literal is read exactly. Float rounding of long digit strings, overflow to infinity, `inf`/`nan` spellings and `_` digit separators are not modelled; those spellings give 0.
- Statistics.GenerateStatistics: `avg_downloads` is an exact rational, not a float.
- pandas: reading the CSV and turning cells into text with `str()` are not modelled; a row is given as the cells' texts, with every cell pandas reads as NaN (an empty cell, or one of its default missing markers such as `NA`, `N/A`, `NULL` or `#N/A`) given as `nan`.
- `csv.DictReader` gives `None` for short rows; rows here are maps from column names to strings.
- Updater.Selection: the selection loop raises KeyError for a row without an `update_time` column (update_qwen_models.py:204), and for a selected row without a `name` column (update_qwen_models.py:205). That crash is not modelled: `HasColumns` and `AllHaveColumns` in the requires of `Selection`, `NeedsUpdate`, `MergedRow` and `ModelUpdater.UpdateRows` exclude such rows.
- File output: writing the CSV and the JSON file.
- `generated_date`: `datetime.now().isoformat()` is the parameter `now`.
- Console output: every `print`, and the `main` and `__main__` entry points.

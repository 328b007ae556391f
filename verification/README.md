# Sri Lanka Holidays API — a Dafny model of the date resolver and the listing

This project models the request-handling core of the Sri Lanka Holidays API. It covers two
revisions of the service.

- The current revision (app.py):
  - the API-key check (`verify_api_key`);
  - the date resolver (`get_holiday_info`), with its cache-aside read of the yearly holiday
    file, its matching loop and its response shape;
  - the `check_holiday` reshaping;
  - the holiday listing (`holidays_list`), with its month, category and format filters.
- The earlier revision (main.py):
  - its date resolver;
  - its `check_holiday`.

A refinement argument relates the two revisions. On the same data, whenever both revisions
answer, they agree on whether the date is a holiday. Each revision can raise where the other
answers:

- the earlier revision raises on a holiday whose first matching record lacks a key it reads
  with `[]` (a KeyError);
- the earlier revision raises when a record with a missing or unparseable date comes before the
  first match, a record the current loop simply skips;
- the current revision raises a TypeError where the earlier one answers when a record comes
  after the earlier revision's first match and is not an object, or has a `start` that is not a
  string, or has a `start` that parses and an `end` that is not a string: the earlier loop stops at the match and never reads it, the current loop reads every
  record.

The first entry of the current revision's `holidays` list describes the record the earlier
revision answers with.

Everything is modelled as pure functions over immutable values.

- A holiday record is a decoded JSON value (`JsonValues.Json`), not a fixed record type. That
  keeps two things visible: the key spelled `categories` in app.py and `catagories` in main.py,
  and records that are not objects at all.
- An exception the source does not catch is an explicit outcome, `Wrappers.Outcome.Raised` with
  the Python exception class. The web framework would turn it into a 500.
- `datetime.strptime(s, "%Y-%m-%d")` is modelled by `Dates.ParseDate`. It follows the lenient
  grammar of Python's `_strptime`:
  - the year is exactly four digits;
  - the month is one or two digits;
  - the day may also be a space and one digit.
- The cache client, the year file and the environment variable are parameters:
  - `Store.Cache` is the cache client. It holds entries, each represented by what `json.loads`
    makes of it, and has flags for failing reads and writes.
  - `Store.YearFile` is the year file. It says whether the resolved path leaves the `json`
    directory, and what loading it yields.
  - `Auth.FallbackKeys` models the `API_KEYS` variable.

For a single match the code reads `single.get("summary")` from a match dict that keeps the title
under `holiday`. So the top-level `holiday` is always null, and the model keeps it so
(`AppResolver.LegacyFieldsMirrorTheMatch`).

Modules, one per file:

| file | module | contents |
|---|---|---|
| `wrappers.dfy` | `Wrappers` | the `Option` and `Outcome` types |
| `seqs.dfy` | `Seqs` | sequence reference definitions (`Filter`, `FirstIndex`) |
| `text.dfy` | `Text` | `str(n)`, `split`/`join`, `lower`, substring search |
| `dates.dfy` | `Dates` | calendar dates, `strptime`, ISO format, `%A`/`%W`/`%B` |
| `json.dfy` | `JsonValues` | decoded JSON values and Python truthiness |
| `records.dfy` | `Records` | reading the date fields of a record |
| `http.dfy` | `Http` | status codes, the result triple, the `check_holiday` reshaping |
| `auth.dfy` | `Auth` | the API-key check |
| `store.dfy` | `Store` | the cache-aside read of a year |
| `resolver.dfy` | `AppResolver` | the current resolver and its `check_holiday` |
| `listing.dfy` | `Listing` | the holiday listing |
| `legacy.dfy` | `LegacyResolver` | the earlier resolver, and the refinement lemmas |

## Model

| member | source | states |
|---|---|---|
| Text.NatToStringRoundTrip | app.py:145 | the decimal spelling of a year used in the cache key reads back as the same number |
| Text.NatToStringInjective | app.py:145 | different years have different decimal spellings |
| Text.JoinSplit | app.py:67 | joining the pieces of `split(",")` with commas gives back the original string |
| Text.SplitPiecesAvoidSeparator | app.py:67 | no piece produced by `split(",")` contains a comma |
| Dates.DaysInMonth | app.py:137-139 | a month has between 28 and 31 days; which dates are valid follows the Gregorian rules `date()` enforces |
| Dates.NextDay | app.py:223 | the successor of a valid date is valid, later, and no later than any other later valid date |
| Dates.EndExcluded | app.py:223 | the half-open test `start <= d < end` never holds for `d == end` |
| Dates.SingleDayInterval | app.py:223 | the interval from a date to its successor holds exactly that date |
| Dates.OrdinalNextDay | app.py:236-238 | the day number used for `%A` and `%W` grows by one from a date to the next |
| Dates.WeekdayNextDay | app.py:236 | the weekday advances by one, modulo 7, from a date to the next |
| Dates.WeekOfYear | app.py:237 | `%W` is within 0..53; it is 0 before the year's first Monday and 1 from a first Monday in the first week |
| Dates.ParseDate | app.py:217-218 | whatever `strptime` accepts is a valid calendar date |
| Dates.ParseIsoFormat | app.py:217-218 | every valid date written in ISO form parses back to itself |
| Dates.ParseExamples | app.py:217-218 | a single-digit month and day parse; 30 February and a string with a time part are rejected |
| Records.ReadDate | app.py:217-219 | reading a date field distinguishes a missing key, a non-string value, an unparseable string and a valid date; a string reads as a date exactly when `strptime` accepts it, and as that date |
| Http.CheckResponse | app.py:348-355 | the status is passed on; a non-200 payload is wrapped without a date; a 200 answer holds only the ISO date and the truth of `is_holiday`, and raises a KeyError exactly when the payload lacks `is_holiday` |
| Auth.FallbackKeys | app.py:67 | the fallback list is never empty, is `[""]` when the variable is unset, joins back to the variable and has no comma in any key |
| Auth.DetailsDistinct | app.py:94-132 | the missing-key, not-configured and invalid-key refusals carry three different detail texts |
| Auth.ScanEntries | app.py:106-110 | a key is found only if some object entry carries it; a non-object first entry ends the scan without a match |
| Auth.PrimaryLookup | app.py:101-114 | the primary lookup raises a TypeError exactly on a truthy number or boolean document, and finds the key exactly when the document is a list with the key listed before any non-object entry |
| Auth.ScanEntriesListed | app.py:106-110 | the primary scan accepts a key exactly when an object entry carries it and every earlier entry is an object |
| Auth.VerifyApiKey | app.py:92-132 | a missing or empty key is refused as missing; an accepted key is the request's non-empty key; every refusal is 401 with the detail text of its reason (`Detail`), so by `DetailsDistinct` the text identifies the refusal; it raises exactly when the stored document is a non-iterable truthy scalar |
| Auth.MissingKeyIgnoresSources | app.py:94-99 | a missing key is refused whatever either key list holds |
| Auth.AcceptedIff | app.py:101-126 | a present key is accepted exactly when the primary list accepts it or the fallback list contains it |
| Auth.RejectionReasons | app.py:116-132 | without a primary match, an all-blank fallback list means "not configured"; otherwise an unlisted key is "invalid" |
| Auth.UnsetEnvironmentRefusesAll | app.py:116-123 | with `API_KEYS` unset and the store unreachable, every key is refused as not configured |
| Auth.PrimaryErrorsAreNoMatch | app.py:101-114 | no client, a failing read and an empty key list all decide the same way |
| Auth.NonObjectEntryHidesLaterKeys | app.py:107-114 | a non-object entry stops the primary scan, so a key listed after it is not found |
| Store.FileNameIsPlain | app.py:170-177 | a year's file name has no separator, is not `.` or `..`, and starts with a digit |
| Store.CacheKey | app.py:145 | the key is `holidays:` followed by decimal digits that read back as the year |
| Store.CacheKeysDistinct | app.py:145 | different years never share a cache key |
| Store.CacheGet | app.py:149-163 | the cache gives data exactly when a client exists, the read does not fail and the entry decodes to a dataset |
| Store.CachePut | app.py:189-195 | the write-back stores the data with a 24-hour lifetime, changes only that key, and does nothing when writing fails |
| Store.FetchYear | app.py:145-211 | a cache hit reads no file; on a miss an escaping path is refused before opening; the file is opened at most once; data read from the file is the file's data; on a miss with a plain path a missing file gives absent data, an undecodable one unparsable data, and a loaded one its data written back with `setex`, with a missing or undecodable file leaving the cache as it was |
| Store.WriteBack | app.py:185-195 | after a miss with a healthy cache, the year is cached with a 24-hour lifetime and the next read is a hit |
| Store.CacheFailureDegradesToFile | app.py:148-166 | an absent, failing or useless cache gives the same data and file reads as no cache |
| Store.OtherYearsUntouched | app.py:188-191 | reading one year never changes what the cache answers for another |
| Store.HitMatchesFileRead | app.py:148-166 | data found in the cache gives the same result as reading that data from the file |
| AppResolver.SpanOf | app.py:215-221 | a record yields an interval exactly when it is well dated; it breaks the loop when it is not an object, when `start` holds a non-string, or when `start` parses and `end` holds a non-string; a missing or unparseable `start` skips the record whatever `end` holds |
| AppResolver.MatchOf | app.py:224-231 | a match dict has exactly the keys id, holiday, type, holiday_start and holiday_end, copying the record's `uid`, `summary`, `categories`, `start` and `end` with `get` (null when absent) |
| AppResolver.Scan | app.py:213-232 | the loop raises a TypeError exactly when some record breaks it |
| AppResolver.ScanSelectsCovering | app.py:213-232 | without breaking records, the matches are those of the covering records, in file order |
| AppResolver.FilterEmptyIff | app.py:223 | no record is selected exactly when no record covers the date |
| AppResolver.DayAndList | app.py:234-242 | the fields of every non-empty answer: the date's weekday name, week number and month name, `is_holiday` true, `count` the number of matches and `holidays` the matches |
| AppResolver.Legacy | app.py:244-256 | the legacy fields copy the match's id, type, start and end, read `summary` for the title, and add the deprecation notice |
| AppResolver.Shape | app.py:234-260 | no matches gives only `is_holiday: false`; otherwise `is_holiday` is true, `count` is the number of matches and `holidays` lists them |
| AppResolver.ShapeDayFields | app.py:235-238 | a non-empty answer carries the weekday name, week number and month name of the date |
| AppResolver.ShapeLegacyKeys | app.py:244-256 | the legacy top-level fields appear for exactly one match and for no other count |
| AppResolver.ShapeLegacyValues | app.py:245-256 | for one match the legacy fields copy the match, reading `summary` for the title |
| AppResolver.Resolve | app.py:135-260 | an invalid date is a 400 that touches nothing; a returned date is the valid request date; every non-200 payload is a single error; every 200 payload has `is_holiday`; the file is opened at most once |
| AppResolver.FileFailuresCarryDate | app.py:173-211 | an escaping path is a 400, a missing file a 404 and an unreadable one a 500, each with the date and without changing the cache |
| AppResolver.BreakingRecordRaises | app.py:215-221 | one breaking record anywhere in the data makes the whole call raise a TypeError |
| AppResolver.ResolvedPayload | app.py:213-258 | with data and no breaking record, the answer is 200 with the payload shaped from the covering records' matches |
| AppResolver.IsHolidayIff | app.py:213-260 | `is_holiday` is true exactly when some well-dated record has `start <= d < end` |
| AppResolver.HolidaysListAllMatches | app.py:234-242 | with matches, `holidays` lists every covering record's match in file order and `count` is their number |
| AppResolver.LegacyFieldsOnlyForOneMatch | app.py:244-256 | the answer has the legacy fields exactly when one record matches |
| AppResolver.LegacyFieldsMirrorTheMatch | app.py:245-256 | for one match the legacy fields repeat its id, type and dates, and the top-level `holiday` is null |
| AppResolver.CacheTransparent | app.py:148-166 | a cached year gives the answer that reading the same data from the file gives |
| AppResolver.InvalidDateIgnoresStores | app.py:137-143 | an invalid date is answered the same whatever the cache and file hold, without touching them |
| AppResolver.February30Refused | app.py:137-143 | 30 February 2024 is refused as an invalid date |
| AppResolver.EndDateExcluded | app.py:223 | a record does not cover its own end date |
| AppResolver.CachedYearReadsNoFile | app.py:148-166 | once a year is cached, any run of requests for it opens no file and leaves the cache unchanged |
| AppResolver.OneFileReadPerYear | app.py:185-191 | with a healthy cache, a run of requests for one uncached year opens the file exactly once |
| AppResolver.CheckHoliday | app.py:348-355 | the status, the cache and whether it raises are those of the resolver |
| AppResolver.CheckHolidayAnswers | app.py:348-355 | a non-200 answer wraps the error payload; on success the answer is the ISO date and whether some record covers it |
| Listing.Labels | app.py:424-426 | a list of strings gives exactly its lower-cased items, a string its lower-cased characters and an object its lower-cased keys; a list holding a non-string raises an AttributeError, and null, a number or a boolean a TypeError |
| Listing.Classify | app.py:416-427 | a record passes exactly when it has `start` and `end`, its start parses, and it meets the month and category filters; a passing record's start is its `start` string; it fails (the loop raises) exactly on a non-string `start` with both keys present, on a category whose labels raise, on a string or list containing both `start` and `end`, and on null, a number or a boolean |
| Listing.SimpleStarts | app.py:415-434 | the `simple` loop returns at most one start per record, none of them already seen |
| Listing.SimpleStartsRaiseIff | app.py:415-447 | the `simple` loop raises exactly when some record fails with an exception the loop does not catch |
| Listing.SimpleStartsDeduplicates | app.py:429-434 | the `simple` output holds every passing start once and nothing else, in order of first appearance |
| Listing.FullEntry | app.py:436-445 | a full entry has exactly the six keys, the record's `start` under both `date` and `start`, and its `summary`, `categories`, `end` and `uid` as name, type, end and id |
| Listing.FullEntries | app.py:415-447 | the `full` loop returns at most one entry per record, each an object |
| Listing.EntriesOf | app.py:437-446 | the reference projection: the full entry of each record, in order |
| Listing.FullEntriesRaiseIff | app.py:415-447 | the `full` loop raises exactly when some record fails with an exception the loop does not catch |
| Listing.FullEntriesSelectListed | app.py:435-447 | the `full` output is the entry of every passing record that has all the keys an entry reads, in file order |
| Listing.ListHolidays | app.py:384-449 | an unknown format is a 400 before the file is read; then an escaping path 400, a missing file 404, an unreadable one 500; a 200 body is only the `holidays` list |
| Listing.SimpleListing | app.py:411-449 | with a readable file, the `simple` listing raises exactly when a record fails, and otherwise lists each passing start once, in order |
| Listing.FullListing | app.py:411-449 | with a readable file, the `full` listing raises exactly when a record fails, and otherwise lists the entry of every listed record |
| Listing.UnknownFormatIgnoresFile | app.py:384-386 | an unknown format gets the same answer whatever the file holds |
| Listing.CategoryIgnoresCase | app.py:424-427 | two categories with the same lower-case form classify every record alike |
| Listing.PublicMatchesCapitalisedLabel | app.py:424-427 | the category "public" finds a record labelled "Public" |
| Listing.MisspelledCategoryKeyUnlisted | app.py:424-446 | a record whose categories sit under `catagories`, the converter's spelling, never matches a category filter and is dropped from the `full` listing by the caught KeyError, though `simple` lists it |
| Listing.UnreadableEndIsListed | app.py:417-419 | only `start` is parsed, so a record whose `end` is not a date is still listed |
| Listing.SharedStartListedOnce | app.py:429-434 | two records with the same start date give that date once in the `simple` listing |
| LegacyResolver.ReadBound | main.py:129-130 | reading a date field succeeds exactly for a valid date string; a missing key is a KeyError and an unparseable string a ValueError |
| LegacyResolver.Probe | main.py:128-132 | a record is read without an exception exactly when it is well dated, and matches exactly when the current loop's cover test holds |
| LegacyResolver.Scan | main.py:128-133 | a found record is in the data and covers the date; when none is found, no record covers it |
| LegacyResolver.ScanRaisesIff | main.py:128-132 | the earlier loop raises exactly when a record with a missing, non-string or unparseable date comes before the first covering record |
| LegacyResolver.ScanFindsFirst | main.py:128-133 | on any data, a record the earlier loop answers with is the first record the current loop selects, and "none" means the current loop selects none |
| LegacyResolver.EarlierRaisesIff | main.py:128-146 | the earlier revision raises exactly when an unreadable record precedes the first match, or the first match lacks a key its answer reads |
| LegacyResolver.ScanFindsFirstCovering | main.py:128-147 | on well-dated data, the earlier loop finds the first record that the current loop selects |
| LegacyResolver.ScanStopsAtMatch | main.py:128-147 | after a match no later record is read, so appending any records leaves the answer unchanged |
| LegacyResolver.Described | main.py:136-146 | the answer for a match raises a KeyError exactly when the record lacks a key read with `[]`; otherwise it has the day fields and the five record fields |
| LegacyResolver.Answer | main.py:133-155 | the payload's `is_holiday` says whether a record was found |
| LegacyResolver.Resolve | main.py:110-155 | an invalid date is a 400; a missing file a 404 with the date; a file that is not JSON raises a ValueError; a 200 payload carries a boolean `is_holiday` |
| LegacyResolver.EscapingPathReadOnlyByEarlier | main.py:117-120 | the earlier revision reads a file whose path leaves the data directory; the current one refuses it as a 400 |
| LegacyResolver.EarlierAnswer | main.py:128-155 | when no unreadable record precedes the first match, the earlier answer is "no holiday" or the description of the first selected record |
| LegacyResolver.EarlierVerdict | main.py:128-155 | on well-dated data the earlier revision says "holiday" exactly when some record is selected, and can raise only a KeyError, and only then |
| LegacyResolver.SameVerdict | main.py:128-155 | on the same well-dated data both revisions answer 200 and agree on `is_holiday`; the earlier one can only raise a KeyError, and only on a holiday |
| LegacyResolver.EarlierMatchFields | main.py:132-146 | a holiday answer of the earlier revision comes from the first covering record, which has every field the answer reads, and copies its uid, summary, catagories, start and end |
| LegacyResolver.EarlierDayFields | main.py:137-139 | a holiday answer of the earlier revision carries the weekday name, week number and month name of the date |
| LegacyResolver.AppFirstHoliday | app.py:224-241 | the first entry of the current `holidays` list is the match of the first selected record |
| LegacyResolver.FirstHolidayIsEarlierMatch | main.py:136-146 | the first current `holidays` entry has the same id, title, start and end as the earlier answer |
| LegacyResolver.SameDayFields | main.py:137-139 | when both revisions answer a holiday, their `day`, `week` and `month` fields agree |
| LegacyResolver.TypeKeysDiffer | main.py:143 | a record that spells the key `catagories` only gets a null type from the current revision and its value from the earlier one |
| LegacyResolver.MissingUidSplitsRevisions | main.py:141 | a selected record without `uid` makes the earlier revision raise a KeyError, while the current one reports a null id |
| LegacyResolver.LaterBreakingRecordSplitsRevisions | app.py:214-221 | a record after the earlier revision's match that is not an object, has a non-string `start`, or has a parsing `start` and a non-string `end` leaves the earlier answer unchanged, since main.py:128-135 returns at the match, while the current loop reads it and raises a TypeError |
| LegacyResolver.TrailingNullSplitsRevisions | main.py:128-147 | for a holiday record of 13 April 2024 followed by `null`, the earlier revision answers 200 with `is_holiday` true and the current one raises a TypeError |
| LegacyResolver.CheckHoliday | main.py:80-87 | the status and whether it raises are those of the earlier resolver |
| LegacyResolver.CheckHolidayAnswers | main.py:80-87 | on success the answer is the ISO date and whether some record covers it |

## Left out

- Web framework routing, headers and query validation: the query bounds are preconditions (years 2021–2026 for the current revision and 2000–3000 for the earlier one; months 1–12; days 1–31).
- Cache client construction and the start-up `ping`: the result is modelled as a parameter, either no client or a client.
- Real file-system access. `resolve()` and `samefile` are an oracle flag, `YearFile.escapes`. Only a link can make the path escape, because the file name is plain (`Store.FileNameIsPlain`).
- A missing `json` directory: `samefile` would then raise. This is not modelled.
- Permission or decoding errors other than `JSONDecodeError` when opening a file: not modelled.
- A year file or a cached value whose top-level value is not a list. A dict would be iterated by its keys (so a cached `{}` gives no matches), and a cached number, boolean or string would raise a TypeError in the matching loop. The model treats a dataset, and a cache entry that is not null, as a list only.
- Floating-point JSON numbers: numbers are integers. No date or key logic inspects them.
- Unicode digits in `strptime` and Unicode case mapping in `lower()`: the model uses ASCII digits and ASCII lower-casing.
- The cache entry's time to live: the model records it as 86400, but nothing models time passing or entries expiring.
- Logging: it has no effect on results.
- The round trip of `json.dumps` followed by `json.loads`: it is taken as exact.
- Concurrency between requests: the multi-request lemmas run requests one after another.
- Other endpoints: the status, version and coverage endpoints, `holiday_info` (which returns the resolver triple unchanged) and the home page. The earlier revision's placeholder holidays endpoint is also left out.
- The data converters and the front-end script: they are outside the request-handling core.

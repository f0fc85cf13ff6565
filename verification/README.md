# Showings: a Dafny model of the title matcher and its validators

This project models the pure core of the `showings` app of movies_django,
a service that scrapes the listings of three cinemas (Grand, Prime and Taj)
and folds them into one catalogue of films and showings.

The centre of the model is the title-matching engine (`TitleMatchService`):

- `normalize_title` lower-cases and strips a title.
- The exact match (`handle_perfect_match_titles` with
  `format_merged_titles`) outer-joins the cinemas' listings on their
  normalised titles. The result has one canonical row per title, with one
  id/title pair per cinema.
- The fuzzy pass (`fuzzy_match_titles` with `handle_fuzzy_match_titles`)
  folds together rows whose titles are similar and whose cinemas do not
  clash (`should_merge_fuzzy_match_titles`, `merge_fuzzy_match_titles`).
- `match_titles` composes the two passes.

Around the engine, the model also covers these smaller pieces:

- the error hierarchy's constructors and rendering;
- the request serializers' id and date rules;
- the Taj parser's date formatting;
- the `clean` validators and string forms of the stored records.

The modules follow the source files:

| module | models |
|---|---|
| `Titles`, `PerfectMatch`, `FuzzyMatch`, `TitleMatch` | services.py |
| `Util` | util.py |
| `Errors` | errors.py |
| `Serializers` | serializers.py |
| `TajParser` | parsers.py |
| `Models` | models.py |

The remaining modules are shared support:

- `Text` models Python's `strip`, `lower`, `split` and `str(int)`.
- `Calendar` models `datetime.date`/`time` validity and `str()`.
- `Sorting` is a descending sort of row indices.
- `Wrappers` provides `Option`, `Result` and `Outcome`.

The modules whose names end in `Examples` state the concrete cases from
the repository's tests, as the code computes them.

Outside influences become parameters:

- The similarity scorer (fuzzywuzzy's `fuzz.ratio` via `process.extract`)
  is an uninterpreted function `(string, string) -> int`.
- The clock's year and month (`get_current_year`, `get_current_month`) are
  string parameters, and so is the clock's "today" in `Showing.clean`.
- The order in which the fuzzy pass visits rows is a parameter of
  `FuzzyPass`. `sort_values("match_count", ascending=False)` uses pandas'
  default quicksort, which does not keep rows with equal match counts in
  index order. `AllowedOrder` describes every order that sort may give.
  `HandleFuzzyMatch` fixes one of them, `VisitOrder`, which keeps equal
  counts in index order.
- The lemmas about `FuzzyPass` hold for every order that lists each row.
  This includes the partition, id-preservation and pass-through results.
- Where the outcome depends on the order, the lemma states it for every
  order as well as for `VisitOrder`. These are the two-row merge, the rows
  without candidates and the rows whose candidates all clash.

Python exceptions become `Result`/`Outcome` failures that carry the
message the exception would carry.

On a tie in id counts, `merge_fuzzy_match_titles` takes the first row's
title only if its Prime title is non-empty. Otherwise the second row
supplies `title`.

Several tests disagree with the code, and the model follows the code:

- Error codes: test_errors.py expects codes that errors.py does not
  define.
- Default code: test_errors.py expects "service_error" where the base
  class's default is "error".
- Parser: test_parsers.py expects a `ValueError` that
  `format_parsed_showing_dates` never raises. The code formats "invalid"
  as a day and drops the first character of "date1".

## Model

| member | source | states |
|---|---|---|
| Util.FirstNonEmpty | backend/showings/util.py:12-13 | the result is "" exactly when every argument is empty; otherwise it is the argument at some position k, and every argument before k is empty |
| Util.FirstNonEmptyIsArgument | backend/showings/util.py:13 | the result is "" or one of the arguments |
| Util.FirstNonEmptyPrefersFirst | backend/showings/util.py:13 | of two arguments, a non-empty first one wins; otherwise the second is returned |
| Util.FirstNonEmptySwap | backend/showings/util.py:12-13 | with exactly one non-empty argument of two, swapping them does not change the result |
| Util.FirstNonEmptyAppend | backend/showings/util.py:13 | an argument added at the end is returned only when every earlier argument is empty |
| Text.Strip | backend/showings/services.py:183 | `strip()` leaves no whitespace at either end and never lengthens the text |
| Text.StripIsSlice | backend/showings/services.py:183 | what `strip()` keeps is a contiguous slice of the input, starting after the leading whitespace |
| Text.StripRemovesOnlySpace | backend/showings/services.py:183 | everything `strip()` removes, before or after the kept slice, is whitespace |
| Text.StripFixesTrimmed | backend/showings/services.py:183 | a text with no whitespace at either end is returned unchanged |
| Text.StripIdempotent | backend/showings/services.py:183 | stripping twice equals stripping once |
| Text.StripPadded | backend/showings/services.py:183 | whitespace around a word with no outer whitespace is exactly what `strip()` removes |
| Text.Lower | backend/showings/services.py:183 | `lower()` keeps the length and maps every character through the ASCII lower-case map |
| Text.LowerIdempotent | backend/showings/services.py:183 | lower-casing twice equals lower-casing once |
| Text.LowerPointwise | backend/showings/services.py:183 | a text whose characters are the lower-case forms of the input's characters, position by position, is the input lower-cased |
| Text.Split | backend/showings/parsers.py:116 | `split(sep)` gives at least one field, and no field contains the separator |
| Text.JoinSplit | backend/showings/parsers.py:116 | joining the fields of a split with the separator gives the input back |
| Text.SplitUnique | backend/showings/parsers.py:116 | fields without the separator that join to a text are exactly the text's split |
| Text.LastFieldIsSuffix | backend/showings/parsers.py:116 | `split(sep)[-1]` is a separator-free suffix of the text, preceded by the separator whenever it is shorter than the text |
| Text.LastFieldAfter | backend/showings/parsers.py:116 | the last field of `prefix + sep + word` is the word, when the word holds no separator |
| Text.LastFieldOfWord | backend/showings/parsers.py:116 | a text without the separator is its own last field |
| Text.FirstFieldBefore | backend/showings/models.py:37 | the first field of `word + sep + rest` is the word, when the word holds no separator |
| Text.IntToString | backend/showings/errors.py:88 | `str(int)` is non-empty: all digits for a non-negative number, and a '-' followed by digits for a negative one |
| Text.ParseNatToString | backend/showings/errors.py:88 | reading the decimal digits of a natural number gives the number back |
| Text.FixedDigits | backend/showings/util.py:4-9 | the zero-padded form of width w (`%Y` with w = 4, `%m` with w = 2) is exactly w digits |
| Text.ParseFixedDigits | backend/showings/util.py:4-9 | the zero-padded form reads back as the number |
| Text.FixedDigitsOfParse | backend/showings/util.py:4-9 | a string of w digits is the zero-padded form of the number it reads as |
| Text.LexLessTransitive | backend/showings/services.py:369-375 | the code-point order of texts, which orders the outer join's keys, is transitive |
| Text.LexLessTotal | backend/showings/services.py:369-375 | any two different texts are ordered one way or the other |
| Calendar.ParseDate | backend/showings/serializers.py:44-47 | reading the numbers of a `YYYY-MM-DD` text gives a year below 10000 and a month and day below 100 |
| Calendar.FormatDate | backend/showings/models.py:131 | `str(date)` has the ISO shape and reads back as the date |
| Calendar.FormatParseDate | backend/showings/serializers.py:44-47 | an ISO-shaped text that names a valid date is that date's `str()`, so no two texts name one date |
| Calendar.NextDay | backend/showings/models.py:133-136 | the day after a valid date is valid and later; it is missing only after 9999-12-31 |
| Calendar.NextDayIsSuccessor | backend/showings/models.py:133-136 | no valid date lies strictly between a date and the day after it |
| Calendar.FormatTime | backend/showings/models.py:131 | `str(time)` is `HH:MM:SS`, plus `.ffffff` when the microsecond is not zero; hour, minute, second and microsecond read back from it |
| Sorting.SortDesc | backend/showings/services.py:204 | the descending sort puts larger keys first and keeps exactly the elements it was given, each as often |
| Sorting.SortDescStable | backend/showings/services.py:246-251 | sorting indices listed in increasing order keeps indices with equal keys in increasing order, as Python's stable `sorted` in `process.extract` does |
| Sorting.SortDescSameElements | backend/showings/services.py:204 | sorting keeps the length and the set of elements |
| Sorting.SortDescOfSorted | backend/showings/services.py:204 | sorting a list already in descending order changes nothing |
| Titles.Normalize | backend/showings/services.py:182-183 | a normalised title has no outer whitespace and is no longer than the title |
| Titles.NormalizeIsLowerCase | backend/showings/services.py:182-183 | a normalised title holds no upper-case ASCII letter |
| Titles.NormalizeIdempotent | backend/showings/services.py:182-183 | normalising a normalised title changes nothing |
| Titles.HandleRawTitles | backend/showings/services.py:306-313 | each listing keeps its title and id, in order, and gains its normalised title |
| Titles.ShouldMerge | backend/showings/services.py:381-388 | two rows may merge exactly when no cinema has a non-empty id on both |
| Titles.MergeFuzzy | backend/showings/services.py:265-303 | the row with strictly more ids supplies `title` and `normalized_title`; on a tie the first row does only if its Prime title is non-empty; every per-cinema id and title is the first row's when non-empty, else the second's |
| Titles.FirstOf | backend/showings/services.py:284-300 | `get_first_non_empty(x, y)` is x when x is non-empty, otherwise y |
| Titles.MergeKeepsIds | backend/showings/services.py:265-303 | a merge drops no id; when the merge is allowed the result has exactly the ids of both rows, each row's own id under its cinema |
| TitleExamples.NormalizeExample | backend/showings/services.py:182-183 | "   The Matrix " normalises to "the matrix" |
| PerfectMatch.FirstSource | backend/showings/services.py:359-366 | the chain of joins starts at the first non-empty list in the order Grand, Prime, Taj |
| PerfectMatch.SortKeys | backend/showings/services.py:369-375 | the join's keys are every input key once, in strictly increasing code-point order |
| PerfectMatch.LookupIndex | backend/showings/services.py:369-375 | a key's lookup finds the first listing with that key, or reports that none has it |
| PerfectMatch.JoinTables | backend/showings/services.py:358-378 | with every list empty the match fails with "No titles to match"; otherwise it returns at least one row, and every row's `title` is "" |
| PerfectMatch.HandlePerfectMatch | backend/showings/services.py:358-378 | on raw listings: failure with "No titles to match" exactly when every list is empty, otherwise at least one row |
| PerfectMatch.ListingCarried | backend/showings/services.py:316-337 | a row whose cells come from a cinema's listing for its key carries that listing: its id, and its raw title unless the first table's id is empty |
| PerfectMatch.PerfectMatchJoined | backend/showings/services.py:316-337 | with two or more lists, the rows' keys are strictly increasing and are exactly the input keys, and each row carries every cinema's listing for its key, or empty cells where there is none |
| PerfectMatch.PerfectMatchJoinedKeys | backend/showings/services.py:366-375 | with two or more lists, the joined keys are strictly increasing and are exactly the input keys |
| PerfectMatch.PerfectMatchSingleSource | backend/showings/services.py:321-333 | with one non-empty list, the rows are its listings in order, the other cinemas' ids and titles are "", and a listing's title is kept only when its id is non-empty |
| PerfectMatch.PerfectMatchComplete | backend/showings/services.py:358-378 | every listing of every cinema lands in a row with its key and its id under that cinema |
| PerfectMatch.PerfectMatchKeysDistinct | backend/showings/services.py:358-378 | with distinct keys in each list, no two result rows share a normalised title |
| PerfectMatch.PerfectMatchKeysFromInput | backend/showings/services.py:358-378 | every row's key is the normalised title of some input listing |
| PerfectMatch.PerfectMatchIdsFromInput | backend/showings/services.py:316-337 | every non-empty id in a row is, for the same cinema, the id of one of that cinema's listings |
| PerfectMatch.PerfectMatchRowCount | backend/showings/services.py:358-378 | the exact match has no more rows than there were listings |
| FuzzyMatch.Matching | backend/showings/services.py:253-257 | the candidates from a position on are exactly the later rows scoring strictly above 70, each once, in increasing row order |
| FuzzyMatch.Candidates | backend/showings/services.py:241-260 | a row's `fuzzy_matches` are exactly the other rows scoring strictly above 70, each once, in non-increasing score order, with equal scores in increasing row order |
| FuzzyMatch.FuzzyMatchTitles | backend/showings/services.py:237-262 | the pass fails with the `.item()` error exactly when some candidate's title is shared by two other rows; otherwise every row gets its candidate list |
| FuzzyMatch.DistinctTitlesNeverAmbiguous | backend/showings/services.py:254 | rows with pairwise different normalised titles never make the `.item()` lookup fail |
| FuzzyMatch.VisitOrder | backend/showings/services.py:200-204 | the rows are visited each once, in non-increasing order of candidate count, which is one of the orders the sort allows |
| FuzzyMatch.Absorb | backend/showings/services.py:215-225 | the inner loop absorbs only its own unprocessed candidates, each at most once, and marks exactly those processed |
| FuzzyMatch.MergeKeepsGroup | backend/showings/services.py:219-225 | merging an allowed row into a group's row gives the row of the extended group: no cinema twice, each cell the first non-empty one of the members |
| FuzzyMatch.AbsorbKeepsGroup | backend/showings/services.py:215-225 | after the inner loop, the accumulated row is the merge of the head row and the rows it absorbed, in order |
| FuzzyMatch.WalkKeepsPass | backend/showings/services.py:206-233 | the outer loop keeps one group per output row with no input row in two groups, and every visited row ends up in a group |
| FuzzyMatch.FuzzyPassPartition | backend/showings/services.py:196-234 | when the visiting order lists every row, every input row lies in exactly one output row's group, so the output is no longer than the input |
| FuzzyMatch.GroupIdIsMembers | backend/showings/services.py:216-225 | an output row's id for a cinema is the id of the one member of its group that has one |
| FuzzyMatch.FuzzyPassKeepsIds | backend/showings/services.py:196-234 | every input row's id for a cinema is carried, under that cinema, by the output row whose group holds the input row |
| FuzzyMatch.FuzzyPassInventsNoIds | backend/showings/services.py:196-234 | every id of an output row is, for the same cinema, the id of an input row in its group |
| FuzzyMatch.FuzzyPassNothingMergeable | backend/showings/services.py:206-233 | when no row may merge with any of its candidates, every row passes through unchanged, in visiting order |
| FuzzyMatch.HandleFuzzyMatch | backend/showings/services.py:194-234 | the fuzzy pass fails with the `.item()` error exactly when a lookup is ambiguous |
| FuzzyMatch.HandleFuzzyMatchNoCandidates | backend/showings/services.py:200-233 | when no two rows score above 70, no row has a candidate and every order of the rows is allowed. In each such order the pass returns the rows in that order, each unchanged; with `VisitOrder` that is the input itself |
| FuzzyMatch.HandleFuzzyMatchAllClash | backend/showings/services.py:206-233 | when every candidate pair shares a cinema, the output in any visiting order is the input rows in that order, each unchanged and each once |
| FuzzyMatch.FuzzyPassKeepsUnmergeableRow | backend/showings/services.py:206-233 | a row whose candidates all share a cinema with it, and which shares a cinema with every row that lists it as a candidate, comes out unchanged as a group of its own, in any visiting order that lists it |
| FuzzyMatch.HandleFuzzyMatchKeepsUnmergeableRow | backend/showings/services.py:206-260 | the same row by row over the candidate lists: such a row is among the rows returned, unchanged, in every visiting order |
| FuzzyMatch.HandleFuzzyMatchTwoRows | backend/showings/services.py:200-233 | two similar rows without a shared cinema have one candidate each, so both visiting orders are allowed. The rows become one: the second-visited row merged into the first-visited one. `VisitOrder` visits the first row first |
| FuzzyMatch.RicherRowAbsorbsOther | backend/showings/services.py:265-281 | a Grand+Prime row and a similar Taj-only row become one row with the richer row's titles and all three ids, in either input order and either visiting order |
| FuzzyMatch.HandleFuzzyMatchKeepsIds | backend/showings/services.py:194-234 | the fuzzy pass returns no more rows than it was given, loses no id and invents none |
| TitleMatch.MatchTitles | backend/showings/services.py:186-191 | matching fails with "No titles to match" when every list is empty, and otherwise fails only with the `.item()` error |
| TitleMatch.MatchTitlesComposes | backend/showings/services.py:186-191 | matching is the fuzzy pass over the rows of a successful exact match |
| TitleMatch.MatchTitlesFailsOnlyWithoutTitles | backend/showings/services.py:186-191 | with distinct titles inside each list, matching fails exactly when every list is empty |
| TitleMatch.PerfectMatchKeepsIds | backend/showings/services.py:358-378 | every listing's id appears under its cinema in some row of the exact match |
| TitleMatch.PerfectMatchInventsNoIds | backend/showings/services.py:358-378 | every id of the exact match is, for the same cinema, one of that cinema's listing ids |
| TitleMatch.MatchTitlesKeepsIds | backend/showings/services.py:186-191 | every listing with a non-empty id ends up, under its cinema, in some row of the result |
| TitleMatch.MatchTitlesInventsNoIds | backend/showings/services.py:186-191 | every id in the result is, for the same cinema, the id of one of that cinema's listings |
| TitleMatch.MatchTitlesNoMoreRowsThanListings | backend/showings/services.py:186-191 | the result has no more rows than there were listings |
| TitleMatch.MatchTitlesWithoutSimilarTitles | backend/showings/services.py:186-191 | when no two different rows of the exact match score above 70 against each other, the fuzzy pass merges nothing. In every visiting order it returns the exact match's rows in that order, each unchanged; with `VisitOrder`, matching is the exact match |
| Errors.HierarchyShape | backend/showings/errors.py:48-152 | every class is an `Error`, every class but the base is a `ServiceError`, and only `ClientError`, `HTTPClientError` and `NetworkError` are `ClientError`s |
| Errors.DefaultCodeInjective | backend/showings/errors.py:1-9 | no two classes share a default code |
| Errors.SourceFromCause | backend/showings/errors.py:30-39 | a source taken from a cause is that cause's class name |
| Errors.SourceFromCauseRule | backend/showings/errors.py:30-39 | a cause yields a source exactly when its class name ends in "Service", "Client" or "Parser" |
| Errors.NewError | backend/showings/errors.py:15-28 | message and cause are stored unchanged; an absent code takes the class's default; absent details become {}; a non-empty explicit source wins, and otherwise the source comes from the cause |
| Errors.NewHttpClientError | backend/showings/errors.py:76-93 | the message is "HTTP <status> - <message>": it starts with "HTTP ", the text of the status follows, it ends with " - " and the message, and nothing else is in it. The code is "http_error" and the details hold exactly the status code |
| Errors.HttpMessageCarriesStatus | backend/showings/errors.py:88 | the status code reads back from the digits after "HTTP " |
| Errors.NewNetworkError | backend/showings/errors.py:96-110 | the message is "Network error - <message>", the code "network_error", and there are no details |
| Errors.ToString | backend/showings/errors.py:41-45 | the rendering ends in "code: message" and starts with "[source] " exactly when there is a non-empty source |
| Errors.SourceResolution | backend/showings/errors.py:26 | an explicit source is kept; without one, a "...Parser" cause becomes the source and no cause gives none; a source is never "" |
| ErrorExamples.HttpErrorExample | backend/showings/errors.py:76-93 | a 404 from TestClient renders as "[TestClient] http_error: HTTP 404 - Not Found" |
| ErrorExamples.NetworkErrorExample | backend/showings/errors.py:96-110 | a refused connection renders as "[TestClient] network_error: Network error - Connection refused" |
| ErrorExamples.ParserErrorExample | backend/showings/errors.py:113-124 | a parser error renders with its default code "parser_error" |
| ErrorExamples.SourceFromCauseExamples | backend/showings/errors.py:15-45 | the base class's default code is "error"; a `TajParser` cause becomes the source, and a `ValueError` cause does not |
| Serializers.ValidateCharField | backend/showings/serializers.py:11-19 | a missing value is "required", null is "null", and a value that strips to "" is "blank"; a non-blank string is accepted stripped |
| Serializers.CharFieldIdempotent | backend/showings/serializers.py:11-19 | a cleaned value is accepted again unchanged |
| Serializers.ValidateDate | backend/showings/serializers.py:38-48 | a value not matching `^\d{4}-\d{2}-\d{2}$` is refused with the format message; a matching value that names no calendar date gets "Invalid date format."; an accepted value is returned unchanged |
| Serializers.ValidateDateAcceptsDates | backend/showings/serializers.py:74-84 | every valid date's ISO form is accepted, with or without a final newline |
| Serializers.ValidateDateAcceptsOnlyDates | backend/showings/serializers.py:74-84 | an accepted value is a valid date's ISO form, possibly followed by a newline |
| Serializers.ValidateDateField | backend/showings/serializers.py:28-48 | a string whose stripped text is the ISO form of a valid date is accepted as that stripped text; stripped text that is ISO-shaped but not a real date gets "Invalid date format."; other non-blank text gets the YYYY-MM-DD format message; anything accepted is the ISO form of a valid date; a missing field is "required" and a null one is "null" |
| Serializers.CleanedDateIsIso | backend/showings/serializers.py:28-48 | a stripped value that passes `validate_date` is exactly ten characters of ISO date |
| Serializers.Validate | backend/showings/serializers.py:6-84 | a body is valid exactly when every declared field is; the cleaned data then has exactly the declared fields, and otherwise the errors name exactly the failing fields |
| Serializers.ExtraKeysIgnored | backend/showings/serializers.py:6-84 | keys a serializer does not declare never change its verdict |
| Serializers.IdRule | backend/showings/serializers.py:11-19 | under each serializer's own field name, a missing, null or "" id is refused with its own message, and an accepted id is non-empty |
| Serializers.IdFieldNames | backend/showings/serializers.py:7-60 | the id field is "id" for the base serializer and "grand_id", "taj_id" or "prime_id" after each subclass's cinema |
| SerializerExamples.ValidateDateFormatExamples | backend/showings/serializers.py:38-43 | "invalid_date", "2023-1-01" and "" are refused with the format message |
| SerializerExamples.ValidateDateTestExample | backend/showings/serializers.py:38-48 | "2023-01-01" is accepted unchanged |
| SerializerExamples.ValidateDateYearZeroExample | backend/showings/serializers.py:44-47 | "0000-01-01" matches the pattern but is refused, since year 0 is not a date |
| SerializerExamples.ValidateDateLeapDayExample | backend/showings/serializers.py:44-48 | "2024-02-29" is accepted |
| SerializerExamples.ValidateDateNoLeapDayExample | backend/showings/serializers.py:44-47 | "2023-02-29" matches the pattern but is refused as an invalid date |
| SerializerExamples.ValidBodyExample | backend/showings/serializers.py:27-48 | a body with a Grand id and a valid date validates to exactly those two values |
| SerializerExamples.EmptyBodyExample | backend/showings/serializers.py:27-48 | an empty body gets "This field is required." for both fields |
| SerializerExamples.BadDateBodyExample | backend/showings/serializers.py:27-48 | a body with a valid id and a misshapen date fails on the date field alone |
| TajParser.DropFirst | backend/showings/parsers.py:114 | `value[1:]` is the value without its first character, and "" stays "" |
| TajParser.FormatEntry | backend/showings/parsers.py:113-118 | an entry formats exactly when both keys are present and non-null; a malformed entry gets the message of the first failing read |
| TajParser.FormatParsedShowingDates | backend/showings/parsers.py:109-122 | the list formats exactly when every entry is well formed; the result then has the input's length and order, each entry formatted on its own |
| TajParser.FailsAtFirstMalformed | backend/showings/parsers.py:112-122 | the first malformed entry decides the error, whatever follows it |
| TajParser.FormattedEntryContents | backend/showings/parsers.py:114-117 | the id loses exactly its first character; the date is "year-month-" followed by the space-free text after the last space of the link text |
| TajParser.FormattedDateIsIso | backend/showings/parsers.py:116-117 | with the clock's four-digit year and two-digit month, a link text ending in " DD" gives the ISO date of day DD of the current month |
| TajParserExamples.TestEntryExample | backend/showings/parsers.py:114-117 | "Sun  23" with "#date-319" gives "year-month-23" and "date-319" |
| TajParserExamples.NoSpaceEntryExample | backend/showings/parsers.py:114-117 | "invalid" with "date1" gives "year-month-invalid" and "ate1", without an error |
| TajParserExamples.MissingHrefExample | backend/showings/parsers.py:114 | an entry with a null href fails with "An error occurred: 'NoneType' object is not subscriptable" |
| Models.CleanLocation | backend/showings/models.py:35-40 | a location passes exactly when its website is null, "" or starts with "http://" or "https://"; otherwise the error names the website field |
| Models.WebsiteSchemeRule | backend/showings/models.py:37 | for a website `scheme://rest`, the check passes exactly when the scheme is "http" or "https" |
| Models.LocationString | backend/showings/models.py:32-33 | the text starts with "name - " and ends with the address |
| Models.LocationStringIdentifies | backend/showings/models.py:32-33 | for names without a dash, equal texts mean equal names and equal addresses |
| Models.NewBatch | backend/showings/models.py:53-55 | a new batch starts PENDING |
| Models.BatchString | backend/showings/models.py:63-64 | the text is "batch_id (STATUS)": it starts with "batch_id (", ends with "(STATUS)", and is exactly as long as those two pieces sharing the "(" |
| Models.BatchStringNamesStatus | backend/showings/models.py:44-64 | a batch's text ends in "(V)" for exactly one status, its own |
| Models.StatusValueInjective | backend/showings/models.py:44-48 | no two statuses share a stored value |
| Models.CleanMovie | backend/showings/models.py:98-101 | a movie passes exactly when some cinema id is non-null and non-empty; otherwise the error is "Movie must have at least one source ID" |
| Models.CleanMovieReadsOnlyIds | backend/showings/models.py:98-101 | movies with the same three ids get the same verdict, whatever their titles |
| Models.MovieFromTitleValid | backend/showings/models.py:98-101 | a movie filled from a matched row is valid exactly when the row has at least one id |
| Models.CleanShowing | backend/showings/models.py:133-136 | a showing fails exactly when its date is strictly before today, with the error on the date field |
| Models.CleanShowingAroundToday | backend/showings/models.py:133-136 | a showing today or tomorrow passes, and one yesterday fails |
| Models.CleanShowingLater | backend/showings/models.py:133-136 | moving an accepted showing to a later date keeps it accepted |
| Models.ShowingString | backend/showings/models.py:130-131 | the text is "title at cinema - date time": it starts with "title at cinema - ", ends with `str(time)`, has `str(date)` and a space just before that, and is exactly as long as those pieces |
| Models.ShowingStringDate | backend/showings/models.py:130-131 | the showing's date reads back from the ten characters before the time |
| Models.ShowingStringTime | backend/showings/models.py:130-131 | the hour, minute and second read back from the time at the text's end |
| ModelExamples.InvalidWebsiteExample | backend/showings/models.py:35-40 | the website "invalid-url" is refused |
| ModelExamples.NoWebsiteExample | backend/showings/models.py:35-40 | a null or empty website passes |
| ModelExamples.NoSourceIdExample | backend/showings/models.py:98-101 | a movie with titles but no id is refused |

## Left out

- The similarity score is an uninterpreted parameter. fuzzywuzzy's
  `fuzz.ratio` and its default preprocessing belong to a library outside
  the repository. Outputs that depend on real scores are not reproduced.
- The network-bound services (`GrandService`, `TajService`,
  `PrimeService`) are not part of this model. clients.py, base.py, the
  HTML parsing of parsers.py, views.py, urls.py and the migrations are
  not part of it either.
- The clock (`get_current_year`, `get_current_month`,
  `timezone.now().date()`) is replaced by parameters. Logging is left out.
- Database constraints, indexes, orderings and timestamps are left out, as
  are the many-to-many fields of `Batch` and `Showing`. The `URLValidator`
  that runs in `full_clean` is left out too: only the `clean` methods are
  modelled.
- `get_suffix` and `is_merged_df` are left out. They only name pandas
  columns. The model states each joined row's cells directly.
- Models.MovieFromTitle has no counterpart in the source. It only connects
  the matcher's rows to the `Movie` record.
- Models.NullIfEmpty has no counterpart in the source either. It is the
  helper of `MovieFromTitle` that stores an empty cell as a null column
  value.
- PerfectMatch.JoinTables: requires distinct normalised titles within
  each list once two or more lists are joined. With duplicates, pandas'
  outer join yields a cartesian product, which is not modelled.
- TitleMatch.MatchTitles: carries the same per-list distinctness
  requirement, through the exact match.
- FuzzyMatch.VisitOrder: this order keeps equal match counts in index
  order. pandas' default sort may order them in any way. `HandleFuzzyMatch`
  and the `TitleMatch` lemmas that go through it are stated for this order
  only. These are the id, row-count and failure results. They follow from
  `FuzzyPass` lemmas that take the order as a parameter and hold for every
  order that lists each row.
- FuzzyMatch.HandleFuzzyMatchKeepsIds: states id preservation as two
  inclusions, no id lost and none invented. It does not state equality of
  the multisets of (cinema, id) pairs.
- Text.Lower: lower-cases ASCII letters only. Python's `str.lower` also
  maps non-ASCII letters.
- Serializers.ValidateDate: the model rejects dates written in non-ASCII
  decimal digits, which the source accepts. It reads `\d` as an ASCII
  digit. Python's `re` matches any Unicode decimal digit. Django's
  `parse_date` falls back to a `\d` pattern and `int()`, and both accept
  such digits.
- Serializers.ValidateCharField: a float value, and the surrogate check of
  Django REST framework's `CharField`, are not modelled. A request body
  that is not a JSON object is not modelled either.
- TajParser.FormatEntry: an entry's values are texts or null. Any other
  Python type (a number, a list) is not modelled.
- `Movie.__str__` is the title itself and has no contract of its own.

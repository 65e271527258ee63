# KinopoiskParser, modelled in Dafny

KinopoiskParser scrapes the "top 500" film listing of kinopoisk.ru. It has three stages:

- **Saving pages.** It saves the listing pages with a browser.
- **Parsing pages.** It parses every saved page into one record per film. There are eleven fields: link, title, English title, release year, duration, country, genre, director, main roles, rating and vote count. It also takes the listing's title and description from the first page.
- **Exporting.** It writes the records out as JSON and as a `;`-separated CSV table.

Everything lives in the one class `Parser` of `main.py`.

## What the model covers

This project models the logic of that class that is not I/O:

- **The extractors.** There are eleven nested `get_film_*` extractors (module `Film`). Whatever the HTML library would find for an extractor's element arrives as an `Option<string>`: the element's text, or `None` when the element or attribute is missing. The model follows the extractor's fixed chain of Python string operations on that text, down to the fallback value returned by its `except`.
- **Python's string and integer operations.** The chains use `strip()`, `strip(' ,')`, `replace`, `split`, `[0]`/`[1]`/`[-1]`, `''.join`, the `string.printable` filter and `int()`. Modules `PyStr` and `PyInt` model each of these as the chains need them. This includes:
  - `strip()` removes every `str.isspace()` character, the no-break space U+00A0 among them, while `strip(' ,')` removes only spaces and commas.
  - `split` always yields at least one piece, so `[1]` can fail where `[0]` and `[-1]` cannot.
  - `int()` skips surrounding whitespace of its own, narrower kind: it raises on the ASCII information separators U+001C to U+001F, which `strip()` removes. The release date is read after `strip(' ,')` only, so such a separator at either end of its segment gives 0. Duration and vote count pass through `strip()` first, which removes it.
- **Building and collecting records** (module `Aggregation`):
  - `parse_page_soup` builds one record per film fragment, in order.
  - `parse_pages` appends every readable page's records to `all_films` and skips a page that raises.
  - Only the page at index 0 sets the listing title and description.
- **The two network-facing loops** (module `Fetch`). Each page and each request attempt comes with a given outcome.
  - `save_pages` stops at the first page whose film list does not appear in time. Any other failure ends just that page. A page that fails before its file is opened leaves no file. A page that fails while its source is read or written leaves its file with whatever reached it, which may be nothing. `parse_pages` later reads that file like any other.
  - `test_req` retries a failing request, counting its tries down.
- **The export** (module `Export`). This is the key order of the JSON objects and the shape of the CSV table: a header, then one row of values per film.

## Source behaviour the model reproduces

The model keeps three things the code does, although they look unintended:

- **A missing title is reported as "no link".** `get_film_title` returns `'no link'` (main.py:100), the same value as a missing link. See `Film.TitleSentinelIsLinkSentinel`.
- **The rating has two types.** `get_film_rating` returns a string on success but the integer `0` on failure (main.py:167, 169). The model's `Rating` is therefore a sum type `RatingText(text) | RatingZero`, and the CSV and JSON value of `RatingZero` is the number 0. See `Film.FilmRating` and `Export.RatingCell`.
- **The CSV header is one label short.** It has only ten labels for eleven columns. At main.py:240-241 the literals `'Рейтинг'` and `'Кол-во оценок'` have no comma between them, so Python joins them into one string. See `Export.HeaderOneShort`.

Two more points about the metadata:

- **The title can change while the description stays.** `get_parser_info` assigns the title before it reads the description. If the description is missing, the title changes and the description keeps its old value.
- **Metadata comes only from index 0.** The title and description are taken only from the file at index 0. If that file cannot be read, the defaults remain even when later files have a title.

## Model

| member | source | states |
|---|---|---|
| PyStr.LStrip | main.py:90 | `lstrip`: a suffix of the input whose removed prefix consists of removable characters and whose first character is kept |
| PyStr.RStrip | main.py:90 | `rstrip`: a prefix of the input whose removed suffix consists of removable characters and whose last character is kept |
| PyStr.Strip | main.py:117 | `strip(chars)`: no longer than the input, and no removable character at either end of a non-empty result |
| PyStr.StripEmpty | main.py:98 | `strip` returns the empty string exactly when every character is removable |
| PyStr.StripUnchanged | main.py:98 | a text whose two ends are not removable comes back from `strip` unchanged |
| PyStr.StripTrailing | main.py:125 | a single trailing removable character after such a text is all that `strip` drops |
| PyStr.StripLeading | main.py:175 | a single leading removable character before a text with non-removable ends is all that `strip` drops |
| PyStr.StripKeeps | main.py:98 | what `strip` returns comes from the input, and every non-removable character of the input survives |
| PyStr.Find | main.py:117 | `find` returns an index at which the pattern fits inside the text |
| PyStr.FindIsFirstOccurrence | main.py:117 | `find` returns the first occurrence, and `None` only when the pattern occurs nowhere |
| PyStr.ContainsChar | main.py:133 | for a one-character pattern, `in` is membership of that character |
| PyStr.FindAfterPrefix | main.py:117 | `find` skips a prefix that lacks the pattern's first character |
| PyStr.Replace | main.py:117 | `replace`: a text without an occurrence of the pattern comes back unchanged |
| PyStr.ReplaceChars | main.py:141 | every character `replace` returns comes from the text or from the replacement |
| PyStr.ReplaceCharKeeps | main.py:141 | replacing one character keeps every other character and removes it when the replacement does not bring it back |
| PyStr.ReplaceCharPointwise | main.py:167 | replacing one character by one character maps the text character by character and keeps its length |
| PyStr.ReplaceAbsent | main.py:117 | a text lacking the pattern's first character is unchanged by `replace` |
| PyStr.ReplaceSingle | main.py:175 | an occurrence whose first character appears nowhere else in the text is replaced, with the text around it kept |
| PyStr.Split | main.py:117 | `split` always yields at least one piece |
| PyStr.SplitAbsent | main.py:117 | a text lacking the separator's first character is a single piece |
| PyStr.SplitSingle | main.py:117 | an occurrence whose first character appears nowhere else in the text splits it into the two texts around the occurrence |
| PyStr.Join | main.py:155 | `sep.join(pieces)`: what `JoinCons`, `SplitJoinRoundTrip` and `SplitJoinIsReplace` state about it |
| PyStr.JoinCons | main.py:155-158 | `join` puts the separator between the first piece and the join of the rest |
| PyStr.SplitJoinRoundTrip | main.py:117 | `sep.join(s.split(sep)) == s` |
| PyStr.SplitJoinIsReplace | main.py:155-158 | splitting on a separator and joining with another text is `replace` |
| PyStr.ReplaceBySelf | main.py:117 | replacing a pattern by itself changes nothing |
| PyStr.SplitOnePieceIff | main.py:125 | `split` yields one piece exactly when the separator does not occur |
| PyStr.SplitFirst | main.py:133 | `split(sep)[0]` is a prefix without the separator, ending right where `find` places the first occurrence, or the whole text |
| PyStr.SplitFirstChar | main.py:133 | splitting at a character: the first piece stops right before its first occurrence |
| PyStr.JoinAfterFirst | main.py:155-158 | `''.join(s.split(sep)[1:])` is the text after the first occurrence with the other occurrences removed, or `""` when there is none |
| PyStr.SplitLast | main.py:141 | `split(sep)[-1]`, which never fails: what `SplitLastIsSuffix` states about it |
| PyStr.SplitLastIsSuffix | main.py:149 | `split(sep)[-1]` is a suffix without the separator that follows an occurrence, or the whole text when the separator is absent |
| PyStr.FilterPrintable | main.py:108 | the printable filter keeps only `string.printable` characters and never lengthens the text |
| PyStr.FilterPrintableKeeps | main.py:108 | every character the filter returns is a printable character of the input, every printable character of the input is among them, and an all-printable text comes back unchanged |
| PyStr.FilterPrintableSingle | main.py:108 | a single character is kept when printable and dropped otherwise |
| PyStr.FilterPrintableConcat | main.py:108 | filtering a concatenation is the concatenation of the filtered parts, so with `FilterPrintableSingle` the printable characters are kept in order and with their repetitions |
| PyStr.FilterPrintableIdempotent | main.py:108 | filtering twice gives what filtering once gives |
| PyInt.IntWhitespaceIsWhitespace | main.py:115-117 | what `int()` skips, `strip()` removes too, and the only `strip()` whitespace `int()` does not skip is U+001C to U+001F |
| PyInt.NotIntWhitespace | main.py:115-117 | a visible ASCII character or an information separator is not skipped by `int()` |
| PyInt.ParseInt | main.py:115-117 | `int()`: reads back every `str(n)` (`ParseDecimal`), reads a digit run as its value (`ParseDigitRun`), and fails on any other character (`ParseIntRejects`) or a leading information separator (`ParseIntSeparator`) |
| PyInt.WhitespaceIsNotNumeric | main.py:115-117 | no digit or sign is whitespace, so neither `strip()` nor `int()` removes one |
| PyInt.ParseIntRejects | main.py:173-177 | a character that is no digit, no sign and no whitespace `int()` skips makes `int()` fail, wherever it stands |
| PyInt.Decimal | main.py:245 | `str(n)`, how `csv.writer` writes an integer: a digit run with a leading '-' exactly for negative `n` (`DecimalChars`), read back by `int()` as `n` (`ParseDecimal`) |
| PyInt.DigitsRoundTrip | main.py:245 | `str(n)` for `n >= 0` is a non-empty digit run whose value is `n` |
| PyInt.DecimalChars | main.py:245 | `str(n)` is non-empty, ends in a digit, consists of digits and a minus sign, and begins with '-' exactly when `n < 0` |
| PyInt.DecimalUnstripped | main.py:245 | `str(n)` has no surrounding whitespace, neither for `strip()` nor for `int()` |
| PyInt.ParseDecimal | main.py:245 | `int(str(n)) == n` for every integer |
| PyInt.ParseDigitRun | main.py:115-117 | a plain run of ASCII digits is read by `int()` as its value |
| PyInt.ParseIntSeparator | main.py:115-117 | an information separator before a digit run makes `int()` raise |
| Film.FilmLink | main.py:88-92 | a missing href gives "no link"; otherwise the site root followed by the stripped href, never "no link" |
| Film.FilmTitle | main.py:94-100 | a missing element gives "no link"; otherwise the stripped text, with no whitespace at its ends and every non-whitespace character kept |
| Film.TitleSentinelIsLinkSentinel | main.py:92-100 | a missing title gives the same "no link" as a missing link |
| Film.FilmTitleEn | main.py:102-111 | only printable characters; every printable character of the stripped text kept; an all-printable text comes back stripped and otherwise unchanged; missing gives "no eng title" |
| Film.FilmTitleEnIdempotent | main.py:108 | filtering the English title again changes nothing |
| Film.SecondarySegments | main.py:117 | the normalised secondary text has one segment exactly when it holds no ", " |
| Film.FilmReleaseDate | main.py:113-119 | 0 when the text is missing or its first segment is not an integer (`OrZero`, the `except`); otherwise the integer value of the first segment of `NormalizedSecondary`, the text after `strip(' ,')` and the no-break-space replacement |
| Film.FilmDuration | main.py:121-127 | 0 when the text is missing, has no second segment, or its second segment as `MinutesText` (without "мин.", then `strip()`) is not an integer (`OrZero`); otherwise that integer |
| Film.FilmCountry | main.py:129-135 | a missing element gives "no country"; the country never contains a space |
| Film.FilmCountryFirstToken | main.py:133 | the country is the stripped text up to its first space, or all of it |
| Film.FilmGenre | main.py:137-143 | a missing element gives "no genre"; the genre, taken from the part before "Режиссёр" of `GenreSource` (the text with no-break spaces turned into spaces and bullets removed), once stripped,, holds no space, no bullet and no no-break space |
| Film.FilmGenreLastToken | main.py:141 | the genre is the last space-separated token of the stripped text before the first "Режиссёр" |
| Film.FilmDirector | main.py:145-151 | a missing element gives "no director"; otherwise the suffix of the stripped text after the last "Режиссёр: ", or all of it when the marker is absent |
| Film.FilmMainRoles | main.py:153-161 | a missing element gives "no main roles" |
| Film.FilmMainRolesAfterMarker | main.py:155-158 | the main roles are the text after the first "В ролях: " with further markers removed, and "" (not the sentinel) when the marker is absent |
| Film.DotsToCommas | main.py:167 | the text with each '.' turned into ',' and every other character kept; no '.' is left |
| Film.FilmRating | main.py:163-169 | a missing element gives the integer 0 (`RatingZero`), and only then; otherwise the stripped text with '.' turned into ',' |
| Film.FilmVotes | main.py:171-177 | 0 when the text is missing or `VotesDigits` (the text stripped and without spaces) is not an integer (`OrZero`); otherwise that integer |
| Film.NormalizedYearMinutes | main.py:117 | "<year>, <minutes>\xa0мин." keeps its ends under `strip(' ,')` and its no-break space becomes a space |
| Film.YearAndMinutesSegments | main.py:117 | such a text splits into the year and "<minutes> мин." |
| Film.MinutesOfSegment | main.py:125 | "<minutes> мин." loses its unit and the space before it |
| Film.YearAndMinutes | main.py:113-127 | for digit runs, "<year>, <minutes>\xa0мин." gives the year as release date and the minutes as duration |
| Film.YearOnly | main.py:113-127 | a text holding only a year gives that year and the duration 0 |
| Film.SecondaryTextExample | main.py:113-127 | "2001, 142\xa0мин." gives the release date 2001 and the duration 142 |
| Film.VotesTwoGroups | main.py:171-177 | two digit groups separated by a space give the value of their digits together |
| Film.VotesExample | main.py:171-177 | "12 345" gives 12345 votes |
| Film.VotesNonNumeric | main.py:171-177 | a vote text with a character that is no digit, sign or whitespace gives 0 |
| Film.ReleaseDateOfDecimal | main.py:113-119 | the decimal text of any integer, as secondary text, gives that integer as release date |
| Film.VotesOfDecimal | main.py:171-177 | the decimal text of any integer, as vote text, gives that integer as vote count |
| Film.YearAndMinutesRoundTrip | main.py:113-127 | the secondary text written from any year and number of minutes gives them back as release date and duration |
| Film.SeparatorBeforeDigits | main.py:113-177 | an information separator before a digit run gives release date 0, but the digits' value as vote count |
| Film.SeparatorAfterMinutes | main.py:113-127 | an information separator after the minutes is removed by the `strip()` of the second segment: the year and the minutes are both read |
| Film.RatingExample | main.py:163-169 | "8.5" comes out as "8,5" |
| Film.ExtractFilm | main.py:183-194 | the record built for one fragment, field by field from the eleven extractors: every field is its sentinel for an all-missing fragment (`MissingFragmentSentinels`), and each field depends only on its own elements (`ExtractFilmLocality`, `VotesIndependent`) |
| Film.MissingFragmentSentinels | main.py:88-177 | a fragment with every element missing gives every field's sentinel, and nothing raises |
| Film.VotesIndependent | main.py:182-194 | changing only the vote element changes only the votes field |
| Film.ExtractFilmLocality | main.py:183-194 | two fragments that agree on the elements a field reads agree on that field, for each of the eleven fields; country and director share one element |
| Sequences.MapPointwise | main.py:182-196 | the record at each position is built from the fragment at that position |
| Sequences.MapConcat | main.py:219 | mapping over two runs of elements maps each run |
| Sequences.FlattenConcat | main.py:219 | concatenating two runs of record lists concatenates their flattenings |
| Aggregation.ParsePageSoup | main.py:179-198 | the records are the fragments' records, one per fragment and in fragment order |
| Aggregation.Collected | main.py:213-221 | the records `parse_pages` collects from a run of pages: `ParsePages` ends with them, and `CollectedConcat`, `CollectedSnoc`, `CollectedSkipsUnreadable` and `CollectedSingle` state their shape |
| Aggregation.CollectedConcat | main.py:213-221 | the records of two runs of pages are the first run's followed by the second's, never interleaved |
| Aggregation.CollectedSnoc | main.py:219 | reading one more page appends exactly that page's contribution |
| Aggregation.CollectedSkipsUnreadable | main.py:220-221 | a page that raises contributes nothing, wherever it stands |
| Aggregation.CollectedSingle | main.py:219 | a single readable page contributes exactly its own records |
| Aggregation.ApplyInfo | main.py:205-211 | a missing title changes nothing; a present title replaces the title; the description changes only when both are present |
| Aggregation.Metadata | main.py:213-218 | the title and description after a run of pages, `ApplyInfo` of the page at index 0 when it is readable: `ParsePages` ends with them, and `MetadataFirstOnly` and `MetadataUnreadableFirst` state that no other page matters |
| Aggregation.MetadataFirstOnly | main.py:217 | pages after the first never change the title or description |
| Aggregation.MetadataUnreadableFirst | main.py:217-221 | when the first page raises, the defaults stay whatever later pages hold |
| Aggregation.Parser.constructor | main.py:18-23 | a new parser has no films, the title "Some title" and the description "Some desc" |
| Aggregation.Parser.GetParserInfo | main.py:205-211 | the title and description become those `ApplyInfo` gives; the records are untouched |
| Aggregation.Parser.ReadPage | main.py:214-221 | one `try` body: the page's records are appended; the listing info is applied only at index 0 to a readable page |
| Aggregation.Parser.ParsePages | main.py:213-221 | `all_films` grows by the records of every readable page in order; the title and description are those of the page at index 0 only |
| Fetch.SavedPages | main.py:66-81 | the files `save_pages` leaves: `SavePages` computes them, and `SavedPagesSound`, `FailedLeavesNoFile`, `NothingAfterTimeout` and `RenderedBeforeTimeoutIsSaved` state what they hold |
| Fetch.SavePages | main.py:66-81 | the saved files are those `SavedPages` describes: in index order, stopping at the first timeout, with no file for a page that fails before `open` and a partial one for a page whose write fails |
| Fetch.SavedPagesSound | main.py:66-81 | every saved file lies in `[from_page, to_page)` and holds the rendered source, or what was written before the write failed; indices increase strictly |
| Fetch.FailedLeavesNoFile | main.py:68-81 | a page that fails before its file is opened leaves no file |
| Fetch.NothingAfterTimeout | main.py:74-75 | no page at or after a timed-out index is saved |
| Fetch.RenderedBeforeTimeoutIsSaved | main.py:77-81 | a failure ends only its own page: every page that leaves a file before the first timeout, fully or partly written, is among the saved files |
| Fetch.DefaultRange | main.py:51 | with the defaults 1 and 2 only page 1 is visited, and its file, if any, is the only one |
| Fetch.TestReq | main.py:25-37 | the number of requests made is between 1 and `tries + 1` |
| Fetch.TestReqLastAttempt | main.py:25-37 | the outcome is the last request's: its response, or its error re-raised after all tries; every earlier request raised |
| Fetch.AlwaysFailing | main.py:25-37 | a request that always fails with `tries = n` is made exactly n + 1 times and the last error is re-raised |
| Fetch.FirstAnswerWins | main.py:27-37 | the first answer within the tries is returned, after exactly that many requests |
| Fetch.DefaultTriesBound | main.py:25 | with the default of 5 tries at most 6 requests are made |
| Export.RatingCell | main.py:169 | the rating's stored value is the number 0 exactly when the rating failed |
| Export.Values | main.py:245 | a record has eleven values |
| Export.ValuesRoundTrip | main.py:183-194 | the eleven values, in key order, give the record back |
| Export.ValuesInjective | main.py:245 | two records with the same values are equal |
| Export.JsonObject | main.py:229 | each JSON object holds the eleven keys in insertion order, each with its record value |
| Export.HeaderOneShort | main.py:235-241 | the header has one label fewer than each row has values; its last label is "РейтингКол-во оценок" |
| Export.CellText | main.py:245 | the text `csv.writer` writes for a value: the string itself, or `str` of the integer, which `NumberCellReadsBack` reads back |
| Export.NumberCellReadsBack | main.py:245 | the text `csv.writer` writes for an integer value determines that integer, so no integer column loses information |
| Export.CsvRow | main.py:245 | a row has one text per key |
| Export.SaveData | main.py:223-245 | JSON is written only with `json_flag`, as one object per film; CSV only with `csv_flag`, as the header followed by one row per film in order |
| Export.CsvTableShape | main.py:235-245 | the table has the header first and then exactly one row per film, holding its values in key order |

## Left out

- HTML selection with BeautifulSoup and lxml (`select_one`, `select`, `find_next_sibling`) is a foreign library. Each fragment's element texts are given as `Option<string>` values, and a page's film fragments as a sequence.
- Browser and network I/O is not modelled: the Selenium driver setup, `WebDriverWait`, `driver.quit()`, `requests.get`, `time.sleep` and `fake_headers`. Each page and each request attempt has a given outcome instead.
- A successful attempt stands for its response by the status code alone. The `headers` sent with each request are not modelled.
- File I/O is not modelled: `os.listdir`, `os.path.isfile` and the `open` calls. The file listing order is the given order of the pages.
- JSON and CSV serialisation is not modelled: JSON quoting and indentation, CSV quoting, the cp1251 encoding and its errors on characters it cannot encode, and the time-stamped file names.
- The `print_*` logging helpers, the messages printed on errors, and the `parse`/`main` orchestration are side effects with no stated behaviour.
- PyInt.ParseInt: models `int()` as optional surrounding whitespace, an optional sign and ASCII digits. Python also accepts `_` between digits and non-ASCII decimal digits, which this does not model.
- PyInt.ParseInt: has no limit on the number of digits. Python 3.11 and later raise `ValueError` on `int()` of a text with more than 4300 digits, so such a field gives 0 there.
- PyStr.Replace: requires a non-empty pattern, since every `replace` in the source has a non-empty literal pattern. Python's behaviour for an empty pattern is not modelled.
- PyStr.Split: requires a non-empty separator, for the same reason as `PyStr.Replace`.
- Fetch.TestReq: takes `tries` as a natural number and has no recursion limit. A negative `tries` in Python never reaches `not tries`. With a large positive `tries` (around 1000 or more) and every request failing, the recursion also reaches CPython's recursion limit. In both cases `RecursionError` leaves through the nested `except` blocks instead of the last request's error, so `Fetch.AlwaysFailing` holds only below that limit.
- Fetch.SavePages: a file left by an earlier run for a page that now fails before `open` is not modelled; the given pages start from an empty `src` directory.
- Fetch.SavePages: a `TimeoutException` raised by the page load itself rather than by the wait is an ordinary failure. Whether a given failure is a timeout of the wait is part of the given outcome.

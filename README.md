# Machines4U scraper: suggested CSV filename

This project models the one piece of self-contained logic in the scraper's web
client: `generateFilenameFromUrl` (`src/App.jsx:5-22`). It derives the name
offered for the CSV download from the URL that is being scanned:

1. Take the URL's pathname, split it on `/` and drop the empty strings.
2. Pick the base name. With two or more segments it is the second-to-last
   segment, `-` and the last segment. With one segment it is that segment.
   With none it is `machines4u-scrape`.
3. Append `-`, the local date as `YYYY-MM-DD` (month 1-based, month and day
   zero-padded to two digits) and `.csv`.
4. If the URL does not parse, the result is `machines4u-scrape-`, the date
   part of the ISO timestamp (the text before the first `T`) and `.csv`.

The model has three modules:

- `JsText` (`js_text.dfy`) holds the JavaScript string operations the
  function uses. It covers `split` with a one-character separator, its inverse
  `join`, `filter(part => part)` and `padStart`. Split/join round trips are
  proved in both directions.
- `Decimal` (`decimal.dfy`) covers `String(n)` for integers and the digit
  value that inverts it: the digits (after the sign, for a negative number)
  read back as the number's magnitude.
- `AppFilename` (`app_filename.dfy`) holds the function itself
  (`FilenameFromUrl`) and the lemmas for each branch. It also has a reader
  `ParseDateString`, the inverse of the date formatting. With it the project
  proves that the date in a filename reads back as the date it was made from.

The function depends on two things outside it, and both are parameters:

- `new URL(url)` becomes `UrlParse`: either the parsed `pathname` or
  `ParseFailed`.
- `new Date()` becomes a `LocalDate`: `getFullYear()`, `getMonth()` (0-based)
  and `getDate()`. The fallback branch instead gets the string that
  `toISOString()` returns.

`api/scrape.js` calls itself diagnostic code (`api/scrape.js:1-3`): it fetches
the page and returns the raw HTML, so the model leaves it out.

## Model

| member | source | states |
|---|---|---|
| `JsText.Split` | src/App.jsx:8 | `split('/')` always returns at least one part, and no part contains the separator |
| `JsText.JoinSplit` | src/App.jsx:8 | joining the parts of a split gives back the original string, so splitting loses no characters |
| `JsText.SplitJoin` | src/App.jsx:8 | splitting the join of separator-free parts gives back those parts (the other direction of the round trip) |
| `JsText.SplitAtSep` | src/App.jsx:8 | the text on the two sides of one separator splits independently: `split(a + '/' + b)` is `split(a)` followed by `split(b)` |
| `JsText.SplitFirstPart` | src/App.jsx:19 | `split(sep)[0]` is a prefix of the string that is either all of it or followed by `sep`: the text before the first separator |
| `JsText.KeepNonEmpty` | src/App.jsx:8 | `filter(part => part)` keeps only non-empty parts, each taken from the input, and changes nothing when no part is empty |
| `JsText.KeepNonEmptyAppend` | src/App.jsx:8 | filtering commutes with concatenation |
| `JsText.PadStart` | src/App.jsx:10 | `padStart(width, fill)` has length `max(len, width)`, ends with the original string and is filled before it |
| `Decimal.NatToDecimal` | src/App.jsx:10 | `String(n)` for `n >= 0` is a non-empty digit string with no leading zero |
| `Decimal.IntToDecimal` | src/App.jsx:10 | `String(year)` starts with `-` exactly when the year is negative, and is all digits otherwise; `IntToDecimalValue` adds that the digits have no leading zero and read back as the magnitude |
| `Decimal.DigitsValueOfDecimal` | src/App.jsx:10 | the digits `String(n)` writes read back as `n` |
| `Decimal.IntToDecimalValue` | src/App.jsx:10 | the digits `String(year)` writes read back as the year, after a `-` exactly when it is negative, and have no leading zero unless they are the single digit `0`: the canonical decimal form |
| `Decimal.DigitsValueLeadingZero` | src/App.jsx:10 | the `0` that `padStart` adds does not change the value of the digits |
| `Decimal.DecimalLength` | src/App.jsx:10 | `String(n)` has exactly `k` digits when `10^(k-1) <= n < 10^k` |
| `AppFilename.PathSegments` | src/App.jsx:8 | every segment of a pathname is non-empty and contains no `/` |
| `AppFilename.SegmentsAroundSlash` | src/App.jsx:8 | a slash separates the segments on its left from those on its right |
| `AppFilename.SegmentsIgnoreLeadingSlash` | src/App.jsx:8 | a leading slash does not change the segments |
| `AppFilename.SegmentsIgnoreTrailingSlash` | src/App.jsx:8 | a trailing slash does not change the segments |
| `AppFilename.SegmentsCollapseRepeatedSlash` | src/App.jsx:8 | `//` gives the same segments as `/` |
| `AppFilename.SegmentsOfSlashesOnly` | src/App.jsx:8 | a pathname made only of slashes has no segments |
| `AppFilename.SegmentsOfJoinedPath` | src/App.jsx:8 | the pathname `/s1/.../sn` built from valid segments has exactly the segments `s1 ... sn` |
| `AppFilename.FilenameFromDeepPath` | src/App.jsx:12-13 | with two or more segments the filename is the second-to-last segment, `-`, the last, `-`, date, `.csv`; earlier segments are ignored |
| `AppFilename.FilenameDependsOnLastTwoSegments` | src/App.jsx:12-13 | two pathnames with at least two segments and the same last two segments give the same filename |
| `AppFilename.FilenameFromSingleSegment` | src/App.jsx:14-15 | with exactly one segment, whatever slashes surround it, the base name is that segment unchanged |
| `AppFilename.SegmentsOfSingleSegment` | src/App.jsx:8 | a segment surrounded only by slashes is the pathname's one segment |
| `AppFilename.FilenameFromRootPath` | src/App.jsx:11 | a pathname with no segments (such as `/`) gives `machines4u-scrape-` + date + `.csv` |
| `AppFilename.BaseName` | src/App.jsx:11-16 | for valid segments the base name is non-empty and has no `/`; it always ends with the last segment; with no segments it is `machines4u-scrape` (the branches are stated on pathnames by `FilenameFromDeepPath`, `FilenameFromSingleSegment` and `FilenameFromRootPath`) |
| `AppFilename.ParsedFilenameHasNoSlash` | src/App.jsx:8-17 | the filename of a parsed URL contains no `/`, so it is a file name and not a path |
| `AppFilename.PaddedTwoDigits` | src/App.jsx:10 | for `n < 100`, `String(n).padStart(2, '0')` is two digits that read back as `n` |
| `AppFilename.ParseDateString` | src/App.jsx:10 | a date string that reads back has ten characters with `-` at positions 4 and 7 |
| `AppFilename.DateString` | src/App.jsx:10 | for a four-digit year, month index 0-11 and day 1-31 the date part reads back as the same year, 0-based month and day; by the reader's contract it is then 10 characters with `-` at positions 4 and 7 |
| `AppFilename.DateFieldsReadBack` | src/App.jsx:10 | the year, padded 1-based month and padded day joined by `-` read back as the date they were written from |
| `AppFilename.DateStringCharacters` | src/App.jsx:10 | every character of the date part is a digit or `-` |
| `AppFilename.DateStringExcludesChar` | src/App.jsx:10 | the date part contains no character other than digits and `-` (in particular no `T` and no `/`) |
| `AppFilename.IsoDatePart` | src/App.jsx:19 | `split('T')[0]` is a prefix of the timestamp with no `T`, and is either the whole timestamp or followed by `T`: exactly the text before the first `T` |
| `AppFilename.IsoDatePartOfTimestamp` | src/App.jsx:19 | for a timestamp `date + "T" + time` with no `T` in `date`, `split('T')[0]` is `date` |
| `AppFilename.FilenameFromUrl` | src/App.jsx:5-22 | both branches, the parsed one and the fallback, give a name that ends with `.csv` |
| `AppFilename.FilenameShape` | src/App.jsx:17 | for a valid date (a four-digit year, a month index of 0-11 and a day of 1-31), a parsed URL gives base name + `-` + date + `.csv`: the prefix is the base name, then `-`, and the fixed-width tail reads back as today's date |
| `AppFilename.FallbackFilename` | src/App.jsx:18-20 | when the URL does not parse, the name is `machines4u-scrape-` + the timestamp's date + `.csv`, whatever the URL was |
| `AppFilename.FallbackAgreesWithRootPath` | src/App.jsx:11-20 | when the timestamp begins with the same date, an unparsable URL and a URL with no path segments get the same filename |
| `AppFilename.FilenameExample` | src/App.jsx:5-22 | `/search/excavators` scanned on 5 March 2024 gives `search-excavators-2024-03-05.csv` |

## Left out

- `api/scrape.js` is left out. It is an HTTP handler: a method check, a body read, a prefix check on the URL, an outbound `fetch` with a browser User-Agent, and response writing. It only returns the raw HTML, so it is I/O with no logic to state.
- The `App` component (`src/App.jsx:24-135`) is left out. It consists of React state, the `fetch` to `/api/scrape`, CSV serialisation by Papa Parse, Blob download mechanics and JSX rendering, all UI and I/O.
- WHATWG URL parsing (`new URL`) is not re-implemented. Its outcome is an input: a pathname, or a parse failure.
- The clock is not modelled. The local date fields and the `toISOString()` text are inputs. The model does not relate them through time zones: the fallback branch uses the UTC date and the main branch the local date, and the two can differ near midnight.
- `Decimal.IntToDecimal` covers integers only. JavaScript's exponent notation for numbers of 10^21 and above cannot arise for a calendar year.
- `AppFilename.DateString`: reading the date back is stated for four-digit years only. For other years the model computes the date part but does not state that it reads back. The date part is ten characters only when `String(year)` is four characters long, which also holds for years -999 to -100. `ParseDateString` rejects those because the year field is not all digits. `Decimal.IntToDecimalValue` reads back the year on its own for every year.

# First-inning pitching statistics: a Dafny model

This project models the core of `mlb_stats`, a script that looks up a
pitcher's first-inning statistics on baseball-reference.com. The function
`get_1st_inning_stats_for_pitcher` in `main.py` does the work. It derives the
player id from the pitcher's names and builds the URL of the pitcher's
split-statistics page. It fetches the page and gives up with `None` on a
non-200 status. Otherwise it fetches the page a second time and deletes every
HTML comment opener `<!--`, which exposes the tables the site hides in
comments. It then finds the table with id `innng`, scans its rows for the
first one headed exactly `1st inning`, and returns that row's cells as a dict
from `data-stat` to cell text.

Modules, one per concern of that function:

- `Wrappers` (`wrappers.dfy`): `Option` (Python's `None`) and `Result`.
  `Result` carries a value or an exception.
- `Decimal` (`decimal.dfy`): `str(year)` as `IntToString`, with a parser
  `ParseInt` that inverts it.
- `PlayerPage` (`player_page.dfy`): the id, the URL template with `URL_ROOT`,
  and `ParseSplitPageUrl`, which reads the id and the year back from a URL.
- `Sanitize` (`sanitize.dfy`): `str.replace("<!--", "")` as the recursive
  scan `StripOpeners`. The functions `Kept` and `Removed` give the positions
  the scan copies and the occurrences it deletes.
- `Extract` (`extract.dfy`): `Cell`, `Row` and the record type. `Project` is
  the dict comprehension's contents and `KeyOrder` its key order. `FindFirstInningStats` is the loop, proved against
  the recursive specification `FirstInningStats`.
- `Pitcher` (`pitcher.dfy`): the whole function as a method. Its network and
  parser calls are function parameters, and it returns the trace of calls it
  made.

The code behaves as follows in places where a reader might expect otherwise.
The model follows the code in each case:

- A `td` cell without a `data-stat` attribute is not skipped. Its text is
  stored under the key `None`.
- A page without an `innng` table makes `find_all` run on `None`, so the
  function raises `AttributeError` rather than returning `None`. The model
  returns `Failure(AttributeError)`.
- Stripping is not idempotent. `"<!<!----"` becomes `"<!--"`, and a second
  pass turns that into the empty string (`StripOpenersNotIdempotent`).
- The page is fetched twice, and the status of the second fetch is never
  checked.

## Model

| member | source | states |
|---|---|---|
| `PlayerPage.Lower` | main.py:38 | `.lower()` keeps the length, leaves no upper-case ASCII letter, changes each upper-case letter to its lower-case partner and leaves every other character as it is |
| `PlayerPage.Take` | main.py:38 | the slice `s[:n]` never fails: it is the prefix of `s` of length `min(|s|, n)` |
| `PlayerPage.PlayerPageId` | main.py:38 | the id is the lower-cased first five letters of the surname, then the lower-cased first two of the given name, then `"01"`; its length is `min(|last|,5) + min(|first|,2) + 2`, between 2 and 9, and exactly 9 when the surname has at least five letters and the given name at least two |
| `Decimal.IntToString` | main.py:40 | `str(year)` parses back to `year` |
| `Decimal.IntToStringRoundTrip` | main.py:40 | the year rendered by `str` parses back to the same integer, and the rendering contains no `&` |
| `PlayerPage.SplitPageUrl` | main.py:39-41 | the URL starts with `URL_ROOT`, holds the id right after `/players/split.fcgi?id=`, ends with `&t=p`, and its length is the sum of the template's parts |
| `PlayerPage.PlayerPageUrl` | main.py:39-41 | the fetched URL starts with `URL_ROOT`, holds the derived player id right after `/players/split.fcgi?id=` and ends with `&t=p` |
| `PlayerPage.SplitPageUrlRoundTrip` | main.py:39-41 | the URL `URL_ROOT + "/players/split.fcgi?id=" + id + "&year=" + str(year) + "&t=p"` determines the id and the year: parsing it gives back both, for every id without `&` |
| `PlayerPage.PlayerPageUrlRoundTrip` | main.py:38-41 | the fetched URL gives back the pitcher's derived id and the season, for names without `&` |
| `Sanitize.StripOpeners` | main.py:50 | the output is four characters shorter than the input for each removed opener |
| `Sanitize.StripOpenersKeepsInOrder` | main.py:50 | the output is the input's characters at the copied positions, in increasing order, and its length is the input's length minus four times the number of removed openers |
| `Sanitize.StripOpenersPartition` | main.py:50 | every removed occurrence is a `<!--`; the removed occurrences do not overlap; every input position is copied exactly when it lies in no removed occurrence |
| `Sanitize.StripOpenersScanPositions` | main.py:50 | no `<!--` starts at a position the scan copied, and one starts at each position it removed from |
| `Sanitize.StripOpenersKeepsCloser` | main.py:50 | a `-->` none of whose characters lies in a removed occurrence stays in place: it starts at the output position its first character is copied to |
| `Sanitize.StripOpenersNoOpener` | main.py:50 | a page containing no `<!--` is returned unchanged |
| `Sanitize.StripOpenersNotIdempotent` | main.py:50 | one pass turns `"<!<!----"` into `"<!--"` and a second pass turns that into `""`, so a second pass can change the output |
| `Extract.Project` | main.py:59-61 | the record's keys are exactly the `data-stat` values of the row's `td` cells, a missing attribute counting as the key `None` |
| `Extract.ProjectLastWins` | main.py:59-61 | a key maps to the unmodified text of the last cell carrying it |
| `Extract.KeyOrder` | main.py:59-61 | the dict's key order lists each key once, and its keys are exactly the cells' `data-stat` values |
| `Extract.KeyOrderFollowsCells` | main.py:59-61 | keys are ordered by their first cell, so an overwrite does not move a key |
| `Extract.FirstInningStats` | main.py:56-62 | a result is the record of some row headed exactly `"1st inning"` |
| `Extract.FirstInningStatsFirstMatch` | main.py:56-62 | when row `i` is the first row whose header is present and equal to `"1st inning"`, the result is that row's record, and appending any rows after row `i` does not change it |
| `Extract.FirstInningStatsNone` | main.py:56-62 | the result is `None` exactly when no row has the header `"1st inning"` |
| `Extract.FindFirstInningStats` | main.py:56-62 | the loop returns the record of the first matching row, with every earlier row not matching, or `None` exactly when no row matches; it agrees with `FirstInningStats` |
| `Pitcher.GetFirstInningStatsForPitcher` | main.py:37-62 | a non-200 status gives `None` after one fetch, with no second fetch and no parsing; otherwise the page is fetched twice and its comment-stripped body is parsed; a missing `innng` table raises `AttributeError`; a present one gives the first-match result of its rows |

## Left out

- HTTP: the two `requests.get` calls are the parameters `statusOf` and `contentOf` of `GetFirstInningStatsForPitcher`. Timeouts, connection errors and redirects are not modelled.
- Decoding and parsing: `.content.decode()` and BeautifulSoup are not modelled. `contentOf` yields text that is already decoded. `inningTableOf` stands for parsing the page and finding the table with id `innng`. A parsed row is reduced to the text of its first `th` and its `td` cells with their `data-stat` and text.
- PlayerPage.Lower: lower-cases ASCII letters only. Python's `str.lower` applies Unicode case mapping, which can change the length of a string.
- Console output: the "Unable to find stats page" message, the `BOLD_START`/`BOLD_END` escapes and all printing are left out. The function's result does not depend on them.
- `main()`: its fixed inputs and the `float(...)` conversion of `earned_run_avg` are left out. Floating point is not modelled.
- Pitcher.GetFirstInningStatsForPitcher: returns the record's contents as a map, without its key order. The order of the returned dict is `Extract.KeyOrder` of the matched row's cells.
- Decimal.IntToStringRoundTrip: `ParseInt` accepts only an optional `-` and digits. Python's `int()` also accepts whitespace, `+` and underscores. Only printing followed by parsing is proved.

# Lisbon arrivals board: classifier and recency filter

This project models the decision logic of `script.py`. That script scrapes the
Lisbon arrivals board, keeps the flights of a few carriers, and renders them as
an HTML report. The model covers three things:

- the row classifier of `scrape`: which scraped rows enter the frame, the
  guaranteed `STD` column, and the removal of blank columns;
- the recency filter `filter_atd`;
- the two carrier-code sets, `HIGHLIGHTS` and `VALID`.

All of this is pure code in the source, so the model is pure too: datatypes,
functions and lemmas, with no classes and no loops.

Modules:

- `Strings` (strings.dfy): the text operations the script uses.
  - `upper()` on ASCII.
  - `strip()`, with Python's `str.isspace` set of whitespace (`IsSpace`).
  - The substring test `c in s` (`Contains`).
- `Frames` (frames.dfy): a frame of text cells (`Table`).
  - Column lookup by name (`Position`, `Column`).
  - Boolean-mask selection (`Select`), used for the list comprehension and for
    pandas' `df.loc[:, mask]` and `df[mask]`. `Selected(mask)` gives the
    positions the mask keeps, in increasing order. Every "order-preserving
    subsequence" statement below is phrased through it.
- `Carriers` (carriers.dfy): the code sets, the scraper's row test
  (`Relevant`) and the report's highlight test (`Highlighted`).
- `Classifier` (classifier.dfy): lines 30-44 of `scrape`, stage by stage:
  `KeepRelevant`, then `EnsureStd`, then `PruneBlankColumns`. `Classify`
  composes the three.
- `ClockTime` (clock.dfy): `strptime(t, "%H:%M")` (`ParseClock`) and the
  elapsed time with the one-day rollback (`Elapsed`).
  - Instants are microseconds since midnight. That is the resolution of
    Python's `datetime.now()`, so a reading taken some microseconds past an
    exact `hrs`-hour boundary drops its row, as in the source.
- `RecencyFilter` (recency.dfy): `check`, the choice of column, and
  `filter_atd` (`FilterRecent`). The clock reading is the parameter `now`.
- `Board` (board.dfy): the composition that `main` performs.

Notes on what the code does, each proved in the model:

- **The classified table need not have `STD`.** Line 41 fills a missing
  `STD` with "" when there is no `STA`, `ETA` or `ATA`, and line 44 then drops
  that all-blank column. A copied `STD` whose cells are all blank is dropped
  the same way. `Classifier.FallbackStdIsPruned` proves the first case.
- **The elapsed time is never negative.** After the one-day rollback of
  lines 55-56, `Elapsed` is always in `[0, DAY)`, and it equals
  `(now - t) mod DAY`.
- **Single-digit fields are accepted.** strptime's `%H` and `%M` take one or
  two digits, so `"9:05"` and `"9:5"` parse as well as `"09:05"`.
  `ClockTime.ParseAcceptsSpellings` and `ClockTime.ParseOnlySpellings`
  together pin down the accepted texts exactly.
- **An unrepresentable window keeps every row.** `timedelta(hours=hrs)` on
  line 57 raises OverflowError when `hrs // 24` is outside
  `±999999999` days, and the bare `except` on line 58 keeps the row. So
  for such `hrs` nothing is dropped, and a wider window can keep fewer rows
  than a narrower one (`RecencyFilter.OverflowingWindowKeeps`).

## Model

| member | source | states |
|---|---|---|
| `Carriers.HighlightsWithinValid` | script.py:15-16 | Every highlighted code is accepted. "EC" is the only accepted code that is not highlighted. |
| `Carriers.HighlightedRowIsRelevant` | script.py:91 | Any row whose first cell the report highlights passes the scraper's row test. |
| `Carriers.EcFlightKeptNotHighlighted` | script.py:15-16 | An "EC1234" flight is kept (`Carriers.Relevant`, the test of line 30) but not highlighted (`Carriers.Highlighted`, the test of line 91). |
| `Carriers.LowerCaseFlightRelevant` | script.py:30 | The row test ignores case: "ec 123" upper-cases to "EC 123" and its row is kept. |
| `Carriers.RelevantFirstCellNotBlank` | script.py:30 | The first cell of a kept row is never blank after strip(). |
| `Strings.UpperChar` | script.py:30 | Each ASCII lower-case letter becomes its capital. Every other character is unchanged. |
| `Strings.Upper` | script.py:30 | Same length. Each ASCII lower-case letter becomes its capital. Every other character is unchanged. |
| `Strings.Strip` | script.py:44 | strip() yields "" exactly when every character is whitespace. A non-empty result begins and ends with non-whitespace. |
| `Strings.Contains` | script.py:30 | `sub in s` is true exactly when `sub` occurs at some position of `s`. |
| `Frames.Column` | script.py:35-39 | `df[name]`: one cell per row, the cell under `name` in that row. |
| `Frames.Select` | script.py:62 | Mask selection returns, in order, exactly the elements at the positions where the mask is true. Those positions increase. |
| `Classifier.RelevanceMask` | script.py:30 | The comprehension's condition per row: entry k is true iff row k is non-empty and its upper-cased first cell contains a VALID code (`Carriers.Relevant`). |
| `Classifier.KeepRelevant` | script.py:30 | The frame holds exactly the relevant scraped rows (index i is kept iff row i is relevant), in scraped order, under the scraped headers. |
| `Classifier.AddColumn` | script.py:35-41 | `df[name] = values` appends the column last with those values. Every existing column keeps its cells. |
| `Classifier.EnsureStd` | script.py:33-41 | An existing `STD` leaves the table unchanged. Otherwise a new last column `STD` copies `STA`, else `ETA`, else `ATA`, else holds "" in every row. No existing column changes. |
| `Classifier.NonBlankMask` | script.py:44 | The `apply` mask of line 44: entry j is true iff column j has a cell that is not blank after strip(). |
| `Classifier.SelectColumns` | script.py:44 | `df.loc[:, mask]`: exactly the masked columns remain, with their cells and in their relative order. |
| `Classifier.PruneBlankColumns` | script.py:44 | A column is dropped iff all its cells are blank after strip(). Kept columns keep their values and relative order. The number of rows is unchanged. |
| `Classifier.Classify` | script.py:30-44 | The classified frame is well formed and has one row per relevant scraped row. A column is in it iff it is in the frame with `STD` ensured and not all blank. Only scraped names and `STD` appear. |
| `Classifier.ClassifiedFirstColumn` | script.py:30-44 | The flight column survives pruning: it stays first, and output row k starts with the first cell of the k-th relevant scraped row. |
| `Classifier.ClassifiedRowsRelevant` | script.py:30-44 | Every classified row still names an accepted carrier in its first cell. |
| `Classifier.FallbackStdIsPruned` | script.py:40-44 | If none of `STD`, `STA`, `ETA`, `ATA` exists, the classified table has no `STD` column. |
| `Classifier.ExistingStdKept` | script.py:33-44 | An existing `STD` column with a non-blank kept cell is in the output, with unchanged cells. |
| `ClockTime.Field` | script.py:54 | A parsed `%H`/`%M` field value lies below its bound (24 or 60). |
| `ClockTime.ParseClock` | script.py:54 | A parsed time is a whole minute of the day: below 24 h and a multiple of one minute. |
| `ClockTime.ParseAcceptsSpellings` | script.py:54 | Every spelling of h:m with h < 24, m < 60 parses to h hours m minutes. A spelling has one or two digits per field. |
| `ClockTime.ParseOnlySpellings` | script.py:54 | Any text that parses is such a spelling of the time it yields. |
| `ClockTime.RejectedTexts` | script.py:54 | "", "N/A", "24:00", "12:60" and "12:30:00" do not parse. |
| `ClockTime.Elapsed` | script.py:54-57 | The rolled-back elapsed time is in [0, 24 h) and equals (now - t) mod 24 h. It is now - t when t is not later than now. |
| `RecencyFilter.Check` | script.py:50-59 | An empty or unparseable cell keeps its row. A parsed time keeps it when `timedelta(hours=hrs)` overflows. Otherwise it keeps it iff the elapsed time is at most `hrs` hours. |
| `RecencyFilter.InspectedColumn` | script.py:61 | The inspected column is `ATA` whenever `ATA` exists, even alongside `ATD`. Otherwise it is `ATD`. |
| `RecencyFilter.RecencyMask` | script.py:61-62 | `df[col].apply(check)`: entry k is `check` of row k's cell in the inspected column. |
| `RecencyFilter.FilterRecent` | script.py:46-62 | Without `ATA`/`ATD` the table is returned unchanged. Otherwise the columns are the same, and the rows are the input rows `check` accepts (index i kept iff `check` holds), in input order. |
| `RecencyFilter.FilteredRowsFromInput` | script.py:62 | Every row of the filtered table is a row of the input table. |
| `RecencyFilter.UnreadableTimeKept` | script.py:51-59 | A row whose inspected cell is empty or not a time of day is always in the output. |
| `RecencyFilter.ReadableTimeKeptIffRecent` | script.py:54-59 | For a parsed time, the elapsed time is in [0, 24 h). The row is kept iff it is at most `hrs` hours or the window overflows `timedelta`. |
| `RecencyFilter.FilterRecentIdempotent` | script.py:46-62 | Filtering a filtered table changes nothing. |
| `RecencyFilter.WiderWindowKeepsMore` | script.py:57 | Any row kept with a representable window of `narrow` hours is kept with any wider window. |
| `RecencyFilter.OverflowingWindowKeeps` | script.py:53-59 | With `hrs = -10^11` the 09:00 row is kept at 12:00, since `timedelta` overflows. With the wider `hrs = -10^10` it is dropped. |
| `RecencyFilter.MidnightRolloverKept` | script.py:54-57 | At 00:10 an arrival at 23:50 is 20 minutes old and kept with `hrs = 2`. |
| `RecencyFilter.ThreeHoursAgoDropped` | script.py:54-57 | At 12:00 an arrival at 09:00 is dropped with `hrs = 2`. |
| `RecencyFilter.ArrivalTimeTakesPrecedence` | script.py:61 | With both columns, `ATA` 11:30 keeps a row at 12:00 even though `ATD` 09:00 would drop it. |
| `RecencyFilter.PlaceholdersKept` | script.py:51-59 | Rows with `ATA` "N/A" or "" are kept for any window and any `now`. |
| `Board.BoardRowsRelevant` | script.py:107-108 | Every row of the filtered, classified board names an accepted carrier. |

## Left out

- Browser scraping (script.py:18-29): driving Firefox, waiting for the table
  and the timeout path are network I/O. The model starts from the scraped
  header and row texts. Those texts are already stripped by the scraper.
- `generate_html` (script.py:64-104): HTML templating, file writing, opening
  the browser and the live clock are I/O and client-side UI. Only its
  highlight test (line 91) is modelled, as `Carriers.Highlighted`.
- `main` (script.py:106-109) is wiring. Only the composition of the two
  filters is stated, in `Board.BoardRowsRelevant`.
- The clock read `datetime.now()` (script.py:49) becomes the parameter `now`,
  in microseconds since midnight. Calendar dates are not modelled, because
  the parsed time is always placed on `now`'s date.
- Non-ASCII case mapping: Python's `upper()` also maps non-ASCII letters,
  for example 'ſ' to 'S'. The model upper-cases ASCII only.
- Non-ASCII digits: strptime's `\d` also accepts non-ASCII decimal digits.
  The model accepts ASCII digits only.
- Column dtypes: the model assumes pandas stores every text column with the
  `object` dtype, as pandas versions before 3 do. Then the non-`object`
  branch of line 44 never applies. Under a dedicated string dtype, that
  branch would keep every column, and no column would be pruned.
- Non-string cells: every cell is a string, so the `isinstance` test of
  `check` never applies.
- Duplicate header names, and relevant rows whose length differs from the
  header count: `RawWellFormed` and `WellFormed` exclude them. pandas raises
  only when the longest row's length differs from the header count. It pads
  shorter rows with `None`, which the model has no value for. Duplicate
  names change what `df[name]` means.
- Zero-row frames: pandas computes the column test of line 44 and the row
  mask of line 62 through special empty-frame paths that depend on dtype
  inference. The model uses the plain meaning instead:
  - every column of a zero-row frame is vacuously blank and is pruned;
  - the recency filter keeps the columns.
  The report treats any zero-row frame as empty either way.
- RecencyFilter.WiderWindowKeepsMore: requires the narrower window to be one
  `timedelta` can hold, because the code is not monotone outside that range
  (`RecencyFilter.OverflowingWindowKeeps`).
- Subtracting a day on line 56 raises, and keeps the row, only for a clock
  reading on 1 January of year 1. Calendar dates are not modelled.
- The default `hrs = 2` of `filter_atd` is not modelled as a default. Callers
  of `FilterRecent` pass it, and the worked examples use 2.

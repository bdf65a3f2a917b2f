# Moon-phase scraper: regrouping, session cookie and merge

This project models the deterministic core of `MoonPhases.py`. The scraper
visits a moon-phase web page in a browser to obtain a session cookie. It then
requests one HTML table per year and merges all the tables into one
worksheet. The model covers three parts of that pipeline.

- **Table-cell regrouping** (`scrape_data`). The text of the table's header
  row is split on new lines into column names. The cell texts are walked
  once, in order, and collected in a buffer (`td_data`). Whenever the buffer
  holds as many cells as there are headers, it is zipped with the headers
  into one record (`dict(zip(headers, td_data))`). That record is appended to
  `final_data` and the buffer is cleared. Cells left over at the end are
  dropped.
  - In the model, `Table.Regroup` is the pure version: chunk the cells, then
    zip each chunk.
  - `Table.ParseTable` is the loop, with the same buffer and accumulator. It
    is proved equal to the pure version.
- **Session-cookie selection** (`__init__` and `run`). The request cookies
  start as `{"session": ""}`. The browser's cookie jar is searched in order,
  and the value of the first cookie named `"session"` is stored. The search
  then stops.
- **Year tasks and merge** (`run`). There is one task per year, from 2000
  through the current year. The per-year record lists are folded into the
  worksheet in the order of the task results.

Module layout:

- `lines.dfy` (`Lines`): `str.split` and `str.join` on a one-character separator.
- `records.dfy` (`Records`): a record as a `map<string, string>`, and `ZipDict`, which models `dict(zip(...))`.
- `table.dfy` (`Table`): chunking, regrouping, the `ParseTable` loop, and the positional lemmas.
- `session.dfy` (`Session`): cookies and the search for the first `"session"` cookie.
- `tasks.dfy` (`Tasks`): the year range, and concatenation of the per-year results.
- `moon_phases.dfy` (`Scraper`): the class `MoonPhases`. Its fields are the request cookies and the worksheet. Its methods change them in place.
- `arith.dfy` (`Arith`): facts about division and remainder, used by the table proofs.

The model makes these choices about inputs and outputs:

- The browser's final cookie jar is a parameter of `Run`: a sequence of `(name, value)` cookies.
- The page each year's request yields is given by a parameter `fetch`. It maps a year and the request cookies to a `Page`: the header-row text plus the cell texts in document order. `fetch` stands for the HTTP request and the HTML parsing.
- The current year is a constructor parameter. The source reads it from the clock.
- `pool.map` returns its results in the order of its input, whatever order the threads finish in. So the merge sees the results in year order, and the model follows that code.
- pandas' `worksheet.empty` is modelled as "the worksheet has no rows". pandas also calls a frame with rows but no columns empty, but that case cannot arise in a run: every scraped record has the header names as its keys, and the header list is never empty, so no merged row is an empty record and the two tests agree (`Table.Scrape`, `Scraper.MergedRowsNonEmpty`). For an arbitrary list of results containing `{}` records, `MergeResults` would append where pandas replaces. `pd.concat` of row lists is modelled as appending records. Records are maps, so a column is found by its name, not its position.

## Model

| member | source | states |
|---|---|---|
| `Lines.Split` | MoonPhases.py:102 | splitting never yields an empty list; there is one more piece than there are separators, and no piece contains the separator |
| `Lines.JoinSplit` | MoonPhases.py:102 | joining the pieces of a split with the separator gives back the original row text |
| `Lines.SplitJoin` | MoonPhases.py:102 | splitting the join of one or more separator-free names gives those names back |
| `Lines.HeadersNonEmpty` | MoonPhases.py:102-112 | the header list of any row text is non-empty, so `% len(headers)` never divides by zero; joining the list with new lines gives back the row text |
| `Records.ZipDictKeys` | MoonPhases.py:114 | the keys of `dict(zip(keys, values))` are exactly the names among the first `min(len(keys), len(values))` positions |
| `Records.ZipDictAt` | MoonPhases.py:114 | a name whose position is its last occurrence maps to the value at that position, so a repeated key keeps the later value |
| `Records.ZipDict` | MoonPhases.py:114 | `dict(zip(keys, values))` is empty exactly when `zip` yields no pair, that is when either sequence is empty |
| `Records.ZipDictSize` | MoonPhases.py:114 | a record has at most one key per zipped pair, and exactly one per pair if and only if the zipped names are distinct |
| `Table.ChunkCount` | MoonPhases.py:104-116 | cutting the cells into groups of `n` gives `len(cells) // n` groups |
| `Table.ChunksAt` | MoonPhases.py:106-116 | group `k` is exactly the cells from `k*n` up to `k*n + n` |
| `Table.ChunksAppend` | MoonPhases.py:110-116 | after whole groups, a further `n` cells add exactly one group, at the end |
| `Table.ChunksDropTail` | MoonPhases.py:106-118 | fewer than `n` trailing cells never form a group |
| `Table.Regroup` | MoonPhases.py:104-118 | the number of records is the number of cells divided by the number of headers, rounded down |
| `Table.Scrape` | MoonPhases.py:102-118 | the whole parse of one page yields `len(cells) // len(headers)` records, each with exactly the header names as keys, so none is empty |
| `Table.RegroupKeys` | MoonPhases.py:102-114 | every record of a regrouping has the header names as its keys and is not empty |
| `Table.RegroupAppend` | MoonPhases.py:112-116 | a full buffer following whole groups adds one record, `dict(zip(headers, buffer))`, at the end of the list |
| `Table.ParseTable` | MoonPhases.py:102-118 | the buffer loop returns the same records as chunk-then-zip, `len(cells) // len(headers)` of them; its invariant keeps the buffer shorter than the header list and equal to the cells seen since the last emitted record |
| `Table.RecordAt` | MoonPhases.py:106-114 | record `k` maps header `j` to cell `k*len(headers) + j`, for every header that is not repeated later |
| `Table.RecordKeys` | MoonPhases.py:114 | the keys of every record are exactly the header names; a record has one entry per header if and only if no header repeats |
| `Table.RepeatedHeaderKeepsLater` | MoonPhases.py:114 | when a header repeats, its name keeps the value of the later cell, and the record has fewer keys than there are headers |
| `Table.ChunksPrefix` | MoonPhases.py:106-116 | the groups cut from a prefix of the cells are a prefix of the groups cut from all of them |
| `Table.RegroupPrefix` | MoonPhases.py:106-116 | the records of any prefix of the cells are a prefix of the final records, so `final_data` only grows by appending, in cell order |
| `Session.FirstSessionIndex` | MoonPhases.py:160-163 | the index where the search stops: either past the end or at a `"session"` cookie, with no `"session"` cookie before it |
| `Session.AdoptSession` | MoonPhases.py:158-163 | the `"session"` entry takes the value of the first cookie with that name; without such a cookie the map is unchanged; no other key changes |
| `Session.StoredSession` | MoonPhases.py:31-32 | starting from `{"session": ""}`, the stored value is that of the first `"session"` cookie, or `""` when the jar has none |
| `Tasks.YearRange` | MoonPhases.py:170 | `range(lo, hi + 1)` has `hi - lo + 1` years, or none when `lo > hi`; element `i` is `lo + i`; a year is in it exactly when `lo <= y <= hi` |
| `Tasks.YearTasks` | MoonPhases.py:170 | the tasks are exactly the years 2000 through the current year, in increasing order, each once; there are none when the current year is before 2000 |
| `Tasks.ConcatAppend` | MoonPhases.py:171-178 | merging two batches of results is merging each and appending them; row counts add up |
| `Tasks.ConcatLength` | MoonPhases.py:171-178 | the merged table has as many rows as all the per-year results together |
| `Tasks.EmptyPartContributesNothing` | MoonPhases.py:173-178 | an empty per-year result adds no row, wherever it stands |
| `Tasks.ConcatMember` | MoonPhases.py:171-178 | a row is in the merged table exactly when it is a row of some per-year result |
| `Tasks.ConcatAt` | MoonPhases.py:171-178 | row `k` of result `i` is placed right after all rows of the results before `i` |
| `Scraper.YearResults` | MoonPhases.py:170 | `pool.map` yields one result per year task, in task order; result `i` has `len(cells) // len(headers)` records of year `i`'s page, none of them empty |
| `Scraper.MergedRowsNonEmpty` | MoonPhases.py:170-178 | no row merged in a run is an empty record, so `worksheet.empty` holds exactly when the worksheet has no rows |
| `Scraper.MoonPhases.constructor` | MoonPhases.py:20-32 | a new scraper has the cookies `{"session": ""}`, an empty worksheet and the given current year |
| `Scraper.MoonPhases.AdoptSessionCookie` | MoonPhases.py:158-163 | the search with `break` leaves the cookies equal to `AdoptSession` of the old cookies, and the worksheet is unchanged |
| `Scraper.MoonPhases.MergeResults` | MoonPhases.py:171-178 | after both branches of the `empty` test, the worksheet is the old worksheet followed by every result's rows, in order; the cookies are unchanged |
| `Scraper.MoonPhases.Run` | MoonPhases.py:158-178 | after a run, the cookies hold the adopted session; the worksheet gains the records of every year task, scraped with those cookies, in year order |

## Left out

- Browser automation is not modelled, because it is foreign-library I/O. This covers the Playwright launch, stealth mode, the storage-state file, navigation and the title-polling loop (MoonPhases.py:125-157). The loop at lines 156-157 never reads the title again. The model starts from the cookie jar the browser ends with.
- HTTP fetching with `requests` is not modelled, because it is network I/O. This includes the query parameters, the header map from `get_headers`, and draining the streamed chunks (lines 81-96).
- HTML parsing with `requests_html` is not modelled, because it is a library outside the model (lines 98-106). The header-row text and the cell texts are inputs. If the header row's cells are themselves `td` elements, the source also regroups them as data; the model takes whatever cell sequence the parser yields.
- The endless retry loop around each fetch is not modelled: the exception handler, the printed message and `time.sleep(5)` (lines 87-123). The model takes the page of the attempt that succeeds. A failed attempt leaves no state behind, so the records do not depend on how many attempts failed.
- The `ThreadPool(10)` fan-out is not modelled, because it is concurrency (lines 168-170). Only its ordered list of per-year results is modelled.
- pandas is not modelled beyond its row order: DataFrame construction, column alignment in `pd.concat`, the index, and `to_excel` (lines 173-181). The model does not capture the sparse or missing columns a spreadsheet shows when years have different headers.
- Environment set-up is not modelled, because it has no behaviour to state: `os.makedirs`, path joining and `datetime.now()` (lines 18-29).
- Run: `fetch` is a pure function of the year and the cookies. Two requests for the same year with the same cookies are taken to yield the same page, which the live site does not guarantee.

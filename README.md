# betterup course scraper — a Dafny model of its own logic

The scraper is meant to log into a Docebo LMS, walk the paginated course
table, open the report page of each course to read its enrollment and
completion counters, and merge what it found into `courses_data.csv`. That
file keeps, per course, a history from date to counter. As written, the
program reaches the pagination loop and the final merge only when the first
page has no rows (see the notes below). Almost all of
`new_webscraper.py` drives the browser and the file system. This project
models the logic the program itself carries among those calls:

- **History** (`history.dfy`): the table and the merge done by
  `update_csv_with_historical_data`.
  - A table is a sequence of rows. Each row has five descriptive strings and
    two maps from date to counter.
  - `CourseTable.Merge` is the loop over the scraped courses. For a known
    title it writes today's key into both histories of the first row with
    that title; for a new title it appends one row seeded with `{today: value}`.
  - Lemmas prove these facts about the merge: it is idempotent, it never
    removes rows, it leaves every key other than today's and every other row
    alone, the last occurrence of a title in a batch wins, and a title
    repeated in a batch yields a single row.
- **Migration** (`migration.dfy`): the two `apply` lambdas of
  `load_existing_data`.
  - A legacy numeric cell becomes a one-entry history keyed by the load date.
  - A serialised history is kept as it is, so the two history columns of a
    table the program wrote read back unchanged on any later date.
- **Scrape** (`scrape.dfy`): the per-page logic of `scrape` and `scrape_current_page`.
  - The `data-id` filter.
  - The choice of counters 0 and 5, each defaulting to the integer 0.
  - The stats loop, in which a failed visit adds no entry.
  - The positional pairing of table rows with stats entries, which raises
    `IndexError` when there are fewer entries than rows.
- **Pagination** (`pagination.dfy`): the `while attempts < max_attempts`
  loop, run over the sequence of what each iteration observed.
  - Every iteration that does not break adds exactly one attempt.
  - There are at most 50 iterations and at most 50 clicks.
  - The loop breaks only on the first disabled next button, and only after
    that page's courses were added.

The browser is replaced by its observable results:
- rows are `DomRow` values (the `data-id` attribute and the `td` texts);
- a report-page visit is a `Fetch`;
- a loop iteration is an `Outcome`.

`datetime.now()` becomes a `today` parameter, and the CSV file becomes the
value a table is loaded from and the rows it holds afterwards. The program
calls `datetime.now()` once per cell (lines 53 and 59). `Migration.Load`
uses one `today` for every cell, so a load that runs across midnight, where
legacy cells would be keyed by two different dates, is not modelled.

Notes on the code as written:
- **Line 108.** `scrape` first calls `scrape_current_page(rows, [])` on the
  initial page. With no ids no stats are collected, so any non-empty row list
  raises `IndexError` on its first row: at lines 199-203 when that row has
  fewer than six cells, otherwise at line 204 (`FirstPageFails`).
  - That call is outside every `try`, and so is the call of `scrape()` at
    line 221, so the program stops there.
  - On a non-empty first page, neither the pagination loop nor the merge at
    line 224 ever runs. The only write is line 218's: it rewrites the loaded
    table with its legacy cells migrated.
- **Rows without an id, short rows and caught faults.** Inside the loop there
  is one report-page visit per id, and a page yields courses only when every
  row carries an id and six cells and every visit found its counters
  (`ScrapeListedPage`).
  - A row without an id (a header row, say) makes `data_ids` shorter than
    the row list.
  - A caught fault while waiting for the counters leaves fewer stats entries
    than rows (`FaultLosesEntry`). The shift of later entries that
    `FaultShiftsLaterStats` describes therefore never reaches the courses.
  - In each of these cases the page raises `IndexError`. The
    `except Exception` branch at line 152 catches it, and nothing from that
    page is added.
- **Line 92** rebinds the local `existing_df` (`DataFrame.append`, which
  pandas before 2.0 provides). The model's table stands for the frame that is
  written at line 95.

## Model

| member | source | states |
|---|---|---|
| History.FirstIndex | new_webscraper.py:75-78 | the row selected by title and `index[0]`: the first row with the title, or None exactly when no row has it |
| History.CourseTable.Empty | new_webscraper.py:63-67 | with no file the table starts with no rows |
| History.CourseTable.Loaded | new_webscraper.py:45-68 | the table starts as the frame load_existing_data returns, the migrated rows of the file |
| History.CourseTable.Merge | new_webscraper.py:71-96 | the update loop leaves the table equal to MergeAll of the old rows and the courses, taken in order |
| History.MergeAll | new_webscraper.py:73-92 | merging never shortens the table |
| History.MergeKnownTitle | new_webscraper.py:75-80 | a known title changes only the first row with it; its five fields are kept and both histories get today's key set to the course's counters, other keys unchanged |
| History.MergeNewTitle | new_webscraper.py:81-92 | an unknown title appends exactly one row: fields copied from the course, each history exactly `{today: value}` |
| History.MergeAllShape | new_webscraper.py:73-92 | every merge result has this shape: old rows revised only from their title's last batch entry, appended rows one per new title, first occurrence's fields and last occurrence's counters |
| History.MergedTwice | new_webscraper.py:73-92 | merging a batch into a table already merged with it changes nothing |
| History.MergeIdempotent | new_webscraper.py:73-92 | merging the same batch twice on the same date gives the table merging it once gives |
| History.MergeEmptyBatch | new_webscraper.py:218 | the first call, made before scraping with no courses, leaves the table unchanged |
| History.MergeKeepsHistory | new_webscraper.py:73-92 | existing rows keep their five fields and every history entry other than today's; only today's key can be added |
| History.MergeKnownBatchKeepsCount | new_webscraper.py:73-80 | a batch of titles all already in the table leaves the row count unchanged |
| History.MergeKnownTitleLastWins | new_webscraper.py:73-80 | for a title in the table, its first row's today entry holds the counters of the title's last occurrence in the batch |
| History.MergeRepeatedNewTitle | new_webscraper.py:73-92 | a new title repeated in a batch yields one appended row, the only row with that title: fields from its first occurrence, today's counters from its last |
| History.LastOfIsLast | new_webscraper.py:73-80 | the batch entry whose counters are kept is the title's last occurrence |
| History.FirstOfIsFirst | new_webscraper.py:81-92 | the batch entry that creates a new row is the title's first occurrence |
| Migration.Migrate | new_webscraper.py:52-60 | a numeric cell `x` becomes exactly `{today: x}`; a serialised history is kept as it is |
| Migration.Load | new_webscraper.py:51-60 | loading keeps the row count and the five fields of every row and migrates both counter columns |
| Migration.Persist | new_webscraper.py:95 | writing keeps one stored row per row |
| Migration.ReloadIsIdentity | new_webscraper.py:52-60 | the migration keeps every written history as it is, so loading a table the program wrote gives it back on any date (the file's own round trip of the five descriptive fields is taken as lossless) |
| Migration.LoadIsStable | new_webscraper.py:52-60 | the migration is stable: loading on one date, writing back and loading on another gives the first load |
| Migration.LegacyCellsKeyedByLoadDate | new_webscraper.py:52-60 | a legacy row's two histories are one-entry maps keyed by the load date |
| Scrape.DataIds | new_webscraper.py:127-131 | at most one id per row, one per row when all rows carry one, and never an empty id |
| Scrape.IdPositions | new_webscraper.py:127-131 | the increasing positions of exactly the rows whose attribute is present and non-empty |
| Scrape.DataIdsAtPositions | new_webscraper.py:127-131 | `data_ids` is the subsequence of non-empty attributes at those positions, in row order |
| Scrape.MissingIdShortensIds | new_webscraper.py:127-131 | a row whose attribute is missing or empty makes `data_ids` shorter than the rows |
| Scrape.AllIdsPresent | new_webscraper.py:127-131 | when every row carries an id, id `i` is row `i`'s attribute |
| Scrape.CollectDataIds | new_webscraper.py:127-131 | the loop builds exactly DataIds of the rows |
| Scrape.SelectStats | new_webscraper.py:181-184 | Enrollments is counter 0's text when there is one, else the integer 0; Completed is counter 5's text when there are more than five, else 0 |
| Scrape.LoadedStats | new_webscraper.py:177-191 | at most one stats entry per visit |
| Scrape.AllFetchedAligned | new_webscraper.py:177-191 | when every visit finds its counters, entry `k` is the selection from visit `k` |
| Scrape.FaultShiftsLaterStats | new_webscraper.py:177-191 | one caught fault at visit `k` adds no entry, so every later entry moves down one place |
| Scrape.FaultLosesEntry | new_webscraper.py:177-191 | a caught fault at any visit leaves fewer stats entries than visits |
| Scrape.FirstPageFails | new_webscraper.py:108 | the first call, with no ids and so no stats, raises IndexError for any non-empty row list |
| Scrape.CollectStats | new_webscraper.py:167-191 | a visit whose iframe never appears aborts the page with a timeout; otherwise the stats are one entry per visit that found its counters, in order |
| Scrape.PairRows | new_webscraper.py:195-207 | the pairing succeeds exactly when every row has six cells and there are at least as many stats entries as rows; then course `i` is row `i`'s cells 1-5 with entry `i`; otherwise IndexError |
| Scrape.ScrapeCurrentPage | new_webscraper.py:161-210 | a page scrape is the stats loop followed by the pairing; a frame timeout propagates |
| Scrape.ScrapeListedPage | new_webscraper.py:127-135 | with one visit per id and no iframe timeout, the page yields courses exactly when every row has an id and six cells and every visit found its counters, and otherwise raises IndexError (in particular for a row without an id or any caught fault); on success course `i` pairs row `i` with visit `i`'s counters |
| Pagination.Paginate | new_webscraper.py:113-154 | the loop's final iteration count, attempts, clicks, scraped pages and exit reason are those of Drive over the observations |
| Pagination.RunCounts | new_webscraper.py:116-152 | every iteration either breaks, and is the last, or adds exactly one attempt; no more iterations than the attempts left |
| Pagination.RunClicks | new_webscraper.py:144-152 | at most one click per attempt and at most one page added per iteration |
| Pagination.PaginateBounded | new_webscraper.py:113-154 | the loop runs at most 50 iterations and clicks next at most 50 times |
| Pagination.RunStopsOnFirstDisabled | new_webscraper.py:144-145 | the loop breaks exactly when some remaining observation is a disabled button, on the first one; otherwise it uses every attempt |
| Pagination.RunScrapesStopPage | new_webscraper.py:133-145 | when the loop breaks, the last page added is the page it broke on |
| Pagination.RunPagesInRange | new_webscraper.py:133-147 | every page added lies between the start page and the page reached by all clicks |
| Pagination.RunPagesInOrder | new_webscraper.py:133-147 | pages are added in non-decreasing order |
| Pagination.DisabledOnThirdPage | new_webscraper.py:116-154 | two clicks then a disabled button: three iterations, two attempts, pages 1, 2, 3 |
| Pagination.LateFaultScrapesPageTwice | new_webscraper.py:133-153 | a fault after a page's courses were added, then a disabled button, adds that page's courses twice |
| Pagination.EarlyFaultsAddNothing | new_webscraper.py:148-153 | faults before any scraping on every attempt use all attempts, click nothing and add nothing |

## Left out

- Selenium and the browser: `webdriver.Chrome`, `login`, every
  `WebDriverWait`, iframe switching, `execute_script` and element lookups.
  These are calls into a browser process. Their results are inputs here:
  `DomRow` sequences, `Fetch` values and `Outcome` sequences.
- Failures of the second browser session's start-up are not modelled.
  `scrape_current_page` starts that session at lines 164-166:
  `webdriver.Chrome()`, `driver2.get` and `login`, whose waits are outside any
  `try`. The model gives these calls no input, so
  `Scrape.ScrapeListedPage`'s "yields courses exactly when" assumes the
  start-up succeeded.
- A failed page load at line 171 and the iframe wait at lines 173-175 are one
  case, `Fetch.FrameUnavailable`, which the model reports as `FrameTimeout`.
- `scrape` finds the row list twice (lines 124 and 134). The model gives both
  lookups the same rows. A table that changes between the two lookups is not
  modelled.
- Pagination.Paginate: it requires one observation per attempt
  (`|outcomes| >= 50`). Which exception, click or page change the browser
  produces is the environment's choice.
  - A fault is assumed to leave the page unchanged: it is raised before the
    click.
  - `Fault.afterScrape` says whether the page's courses were already added.
  - The pages are tracked by number, not by their courses.
- CSV persistence: `pd.read_csv`, `to_csv` and the `FileNotFoundError`
  fallback are file I/O. The fallback's empty table is `CourseTable.Empty`.
  Its column list is not modelled apart from the fields of `Row`, which
  follow it in order.
- History.MergeAllShape: the shape it proves fixes every appended row, but
  not the order of the appended rows. The program appends them in the order
  in which their titles first occur in the batch. That order is proved only
  through `CourseTable.Merge`'s equation with `MergeAll`, not as a property
  of the shape. `MergedTwice` and `MergeIdempotent` do not depend on it.
- `eval` of a serialised history is taken as already parsed (`Cell.Hist`).
  `strftime` dates are opaque keys.
- Migration.ReloadIsIdentity: treats the file round trip of the five
  descriptive fields as lossless. `read_csv` at line 48 infers one type per
  column, and that inference is not modelled:
  - an empty cell, or a cell reading "NA", comes back as NaN;
  - a column whose every cell looks numeric or is empty comes back as
    numbers, for example a "Days Since Creation" of "45", and as 45.0 when
    the column also has an empty cell;
  - a column that holds any other text comes back as strings.

  So an empty title, or one reading "NA", never matches its own row at
  line 75 on the next run. A numeric title such as "2024" fails to match only
  when every title in the file looks numeric. Each later run appends another
  row for such a title, so `MergeIdempotent` does not carry over between runs
  for such titles.
- Migration.LoadIsStable: depends on the same lossless round trip.
- Migration.Migrate: legacy cells are integers. `int(x)` on a float cell,
  which truncates, and on NaN, which raises, is floating-point conversion
  and is not modelled.
- The column-presence checks at lines 51 and 57 are not modelled. The model
  assumes both counter columns exist.
- Console `print`, the hardcoded credentials and URLs, and the URL built at
  line 168 are left out. They have no behaviour to prove.
- The module-level order (lines 213-224) is not modelled, beyond
  `MergeEmptyBatch` for the first, empty call. The global `all_courses` list
  is not modelled either.
- When line 92 rebinds `existing_df`, the caller's frame does not see
  appended rows, only the in-place history updates. The model's table is the
  frame that is written. Aliasing between the two frames is not modelled.
  The program's second call at line 224 passes the module-level frame, which
  the first, empty call left unchanged.

# Showtime reconciler and viewer, modelled in Dafny

This project models two parts of a small showtime-tracking system.

**The daily processor** (`daily_processor.py`) keeps two tables that persist from day to day:

- the *showtime history*, one row per showtime;
- the *movie announcements*, one row per film at a theater.

Each day it folds every scraped showtime of a source's snapshot into both tables:

- In the history, the identity of a showtime is its Date, Time, Theater and Film. A showtime already recorded has `last_updated` re-stamped with today's date. Any other showtime is appended, with `first_seen_date` and `last_updated` set to today and its `source` label.
- In the announcements, the identity is the Film and Theater. A known pair has `last_seen_date` re-stamped. Any other pair is appended, first announced and last seen today.
- Sources are processed one after the other against the same tables: first `"indie"`, then `"amc"`.

A report lists the announcements whose `first_announced_date` is on or after a cutoff date. The comparison is a string comparison of `YYYY-MM-DD` dates.

**The viewer** (`src/App.jsx`) shapes the history rows for display:

- sorted, duplicate-free theater and date option lists;
- a theater/date filter;
- a grouping of the shown rows by film, then date, then theater, into lists of start times;
- a per-movie count of the shown showtimes;
- multi-select editing and captions;
- the dates a movie card lists.

Files:

- `records.dfy` — the rows and their identity keys.
- `upsert.dfy` — the shared shape of both tables, as values: the first record with the incoming key is re-stamped, otherwise a new record is appended. It holds the general lemmas: records are kept, keys stay unique, every key is covered, processing is idempotent, and snapshots compose.
- `reconciler.dfy` — the two tables' policies, the lemmas about them, and the newly-announced filter.
- `daily_processor.dfy` — the processor as it runs. The tables are objects whose row lists are updated in place, and the lookups are loops with early exits. Each method is proved against the value model.
- `lexical.dfy` — string order (Python's `<`/`>=` on `str`, JavaScript's default sort). It proves that on ISO dates the string order is calendar order, and gives the decimal rendering of a count.
- `seqs.dfy` — order-preserving filtering, the scan for the first record with a key, and the order of first occurrence.
- `jsobject.dfy` — a plain JavaScript object used as a dictionary: keys in insertion order, plus a value per key.
- `filters.dfy` — `uniqueSorted`, the row filter, `toggleOption` and `labelText`.
- `grouping.dfy` — the film/date/theater grouping, the showtime counts and `datesToShow`.

`today` and the report's cutoff date are parameters. Each snapshot is passed in as a sequence of rows.

## Model

| member | source | states |
|---|---|---|
| DailyProcessor.ShowtimeExistsInHistory | daily_processor.py:29-37 | true exactly when some history row agrees with the showtime on all of Date, Time, Theater and Film |
| DailyProcessor.AddNewShowtime | daily_processor.py:39-45 | the history becomes the old rows followed by one new row: the showtime, first seen and last updated today, with the given source |
| DailyProcessor.UpdateExistingShowtime | daily_processor.py:47-55 | only `last_updated` of the first row with the showtime's key changes, to today; the length and every other row and column stay the same; with no matching row nothing changes |
| DailyProcessor.MovieExistsInAnnouncements | daily_processor.py:57-62 | true exactly when some announcement has this Film and Theater |
| DailyProcessor.AddNewMovieAnnouncement | daily_processor.py:64-72 | the announcements become the old rows followed by {film, theater, first announced today, last seen today} |
| DailyProcessor.UpdateMovieLastSeen | daily_processor.py:74-79 | only `last_seen_date` of the first (Film, Theater) match changes, to today; nothing else changes |
| DailyProcessor.RecordShowtime | daily_processor.py:93-99 | one snapshot row's history update: re-stamp the first row with its key if there is one, else append the new row |
| DailyProcessor.RecordAnnouncement | daily_processor.py:105-110 | one snapshot row's announcement update: re-stamp the first (Film, Theater) match if there is one, else append |
| DailyProcessor.ProcessCsvData | daily_processor.py:92-110 | after the loop both tables equal the value-level reconciliation of the snapshot, row by row in order; key uniqueness of each table is preserved |
| DailyProcessor.ProcessDay | daily_processor.py:157-163 | the indie snapshot then the amc snapshot against the same tables; the announcements equal those of the combined snapshot, and uniqueness is preserved |
| DailyProcessor.GetNewlyAnnouncedMovies | daily_processor.py:136-141 | the loop returns, in table order, exactly the announcements whose first announced date is `>=` the cutoff |
| Seqs.FirstIndex | daily_processor.py:49-55 | the scan with early exit finds the first record with the key, or reports none when no record has it |
| Upsert.Upsert | daily_processor.py:94-99 | one item re-stamps the first record with its key and leaves every other record, later duplicates included, as it was; a record is appended exactly when no record has the item's key, after the old records unchanged; records with other keys are untouched |
| Upsert.Reconcile | daily_processor.py:92-110 | the loop over a snapshot, item by item in order: the table never shrinks and grows by at most one record per item |
| Seqs.InFirstOrderExtend | src/App.jsx:72-86 | a key whose first occurrence is the appended record is listed after every key already listed in first-occurrence order |
| Seqs.FirstIndexAppend | daily_processor.py:92-110 | appending a record leaves the first match where it was, or makes the appended record the first match when there was none |
| Upsert.ReconcileKeeps | daily_processor.py:92-110 | no record is removed or reordered; each old record is unchanged or re-stamped, and unchanged when no snapshot item has its key; at most one record is added per item |
| Upsert.ReconcileUnique | daily_processor.py:92-110 | a table without duplicate keys stays without duplicate keys |
| Upsert.ReconcileSettles | daily_processor.py:92-110 | afterwards every snapshot item's key has a first record that carries today's stamp |
| Upsert.ReconcileSettledIsIdentity | daily_processor.py:92-110 | a snapshot whose keys all carry the stamp already changes nothing |
| Upsert.ReconcileIdempotent | daily_processor.py:92-110 | processing the same snapshot a second time changes nothing |
| Upsert.ReconcileConcat | daily_processor.py:159-163 | two snapshots processed one after the other act as their concatenation |
| Reconciler.HistoryPolicy | daily_processor.py:39-55 | a snapshot row's identity in the history is its (Date, Time, Theater, Film); a new row holds the showtime as scraped; a re-stamp sets `last_updated` to today and keeps the identity |
| Reconciler.AnnouncementPolicy | daily_processor.py:64-79 | a snapshot row's identity in the announcements is its (Film, Theater); a re-stamp sets `last_seen_date` to today and keeps the identity |
| Reconciler.HistoryAfter | daily_processor.py:92-99 | the history after one source's snapshot has at least as many rows as before and at most one more per snapshot row |
| Reconciler.AnnouncementsAfter | daily_processor.py:101-110 | the announcements after one source's snapshot have at least as many rows as before and at most one more per snapshot row |
| Reconciler.HistoryStep | daily_processor.py:94-99 | one more snapshot row re-stamps `last_updated` of the first row with its key when one exists, else appends the stamped row |
| Reconciler.AnnouncementsStep | daily_processor.py:105-110 | one more snapshot row re-stamps `last_seen_date` of the first (Film, Theater) match when one exists, else appends |
| Reconciler.HistoryAppendOnly | daily_processor.py:92-110 | rows are never removed or reordered; the showtime, `first_seen_date` and `source` of existing rows never change; `last_updated` stays or becomes today; rows not in the snapshot are untouched |
| Reconciler.AnnouncementsAppendOnly | daily_processor.py:92-110 | announcements are never removed; film, theater and `first_announced_date` never change; `last_seen_date` stays or becomes today; pairs not in the snapshot are untouched |
| Reconciler.HistoryStaysUnique | daily_processor.py:94-99 | no two history rows share (Date, Time, Theater, Film) afterwards if none did before |
| Reconciler.AnnouncementsStayUnique | daily_processor.py:105-110 | no two announcements share (Film, Theater) afterwards if none did before |
| Reconciler.HistoryCoversSnapshot | daily_processor.py:92-110 | every snapshot showtime has a history row with its key updated today; in a history without duplicates, every row with a snapshot key was updated today |
| Reconciler.AnnouncementsCoverSnapshot | daily_processor.py:92-110 | every snapshot (Film, Theater) has an announcement last seen today; without duplicates, every matching announcement was |
| Reconciler.HistoryIdempotent | daily_processor.py:94-99 | re-processing the same snapshot on the same day leaves the history identical, whatever source label the second pass carries |
| Reconciler.AnnouncementsIdempotent | daily_processor.py:105-110 | re-processing the same snapshot on the same day leaves the announcements identical |
| Reconciler.AnnouncementsOfTwoSources | daily_processor.py:159-163 | the announcements after two sources equal those after their concatenated snapshot |
| Reconciler.NewlyAnnounced | daily_processor.py:136-141 | an announcement is in the report exactly when it is in the table and its first announced date is `>=` the cutoff as a string |
| Reconciler.NewlyAnnouncedInOrder | daily_processor.py:137-139 | the report keeps table order: the report of a concatenation is the concatenation of the reports, and a single row is reported exactly when it passes |
| Reconciler.NewlyAnnouncedByCalendar | daily_processor.py:134-138 | on `YYYY-MM-DD` dates, the string test keeps exactly the announcements not before the cutoff day in the calendar |
| Lexical.IsoDateOrder | daily_processor.py:134-138 | on `YYYY-MM-DD` strings, `<` is the order by year, then month, then day, and `>=` is "not earlier" |
| Lexical.DecimalOrder | daily_processor.py:138 | on digit strings of equal length, string order is numeric order and string equality is numeric equality |
| Lexical.NatToString | src/App.jsx:193 | a count is written as a non-empty digit string with no leading zero whose decimal value is the count |
| Lexical.LessTotal | src/App.jsx:8 | the string order is total |
| Lexical.LessTransitive | src/App.jsx:8 | the string order is transitive |
| Lexical.LessAsymmetric | src/App.jsx:8 | no two strings are each below the other |
| Seqs.Filter | src/App.jsx:66-69 | the filtered list holds exactly the elements of the input that pass, all of them passing, and is no longer than the input |
| Seqs.FilterAppend | src/App.jsx:66-69 | filtering keeps relative order: it distributes over concatenation |
| Seqs.FilterCount | src/App.jsx:185 | filtering keeps every occurrence of a passing element and none of a failing one |
| Seqs.FilterDistinct | src/App.jsx:185 | filtering a list without duplicates gives a list without duplicates |
| Filters.Insert | src/App.jsx:8 | inserting into a strictly sorted list gives a strictly sorted list holding exactly the old elements and the new one |
| Filters.UniqueSorted | src/App.jsx:7-9 | the result is strictly ascending and holds exactly the values of the input |
| Filters.SortedDistinct | src/App.jsx:8 | a strictly ascending list has no duplicates |
| Filters.SortedUnique | src/App.jsx:7-9 | two strictly ascending lists with the same elements are equal |
| Filters.UniqueSortedIsCanonical | src/App.jsx:7-9 | the result is the one strictly ascending list of the input's distinct values, and it has no duplicates |
| Filters.Filtered | src/App.jsx:66-69 | a row is shown exactly when no theater is selected or its theater is, and no date is selected or its date is |
| Filters.NoSelectionShowsAll | src/App.jsx:66-69 | with both selections empty, every row is shown, in order |
| Filters.FilteredInOrder | src/App.jsx:66 | shown rows keep their loaded order |
| Filters.ToggleOption | src/App.jsx:183-189 | the clicked option becomes selected exactly when it was not; every other value keeps its membership; a newly selected option goes at the end, after the old selection unchanged |
| Filters.ToggleInOrder | src/App.jsx:185 | deselecting filters each part of the selection separately and keeps the parts in order, so the remaining values keep their selection order |
| Filters.DeselectOne | src/App.jsx:185 | deselecting keeps a selected value exactly when it is not the option |
| Filters.ToggleCounts | src/App.jsx:183-189 | deselecting removes every occurrence of the option and keeps every other value as often as before; selecting adds it once |
| Filters.ToggleKeepsDistinct | src/App.jsx:183-189 | a selection without duplicates stays without duplicates |
| Filters.ToggleTwice | src/App.jsx:183-189 | clicking an unselected option twice restores the selection |
| Filters.LabelText | src/App.jsx:191-193 | the bare label when nothing is selected; otherwise the label, " (", the decimal number of selected values with no leading zero, and ")" |
| JsObject.Put | src/App.jsx:75 | assignment updates the value under the key; a new key is listed after the existing ones, an existing key keeps its place; the object stays well formed (keys listed once, exactly the keys with a value) |
| JsObject.Values | src/App.jsx:72 | `Object.values` lists each key's value, in key order |
| JsObject.SumPut | src/App.jsx:91-97 | storing a value under a key changes a sum over the entries by the new value's term less the replaced one's |
| Grouping.NewMovie | src/App.jsx:75-80 | a new card carries the film, runtime and poster of the row that creates it, and no dates yet |
| Grouping.CardFor | src/App.jsx:74-81 | the film's existing card when it has one, otherwise the fresh card of the row; well formed and carrying the film |
| Grouping.FileTime | src/App.jsx:82-84 | filing a time keeps the card's film, runtime and poster, and keeps it well formed |
| Grouping.AddRow | src/App.jsx:73-85 | one reduce step keeps the grouping well formed: every film maps to a well-formed card carrying that film |
| Grouping.Group | src/App.jsx:72-86 | the grouping of any rows is well formed |
| Grouping.GroupByFilm | src/App.jsx:72-86 | the loop building the accumulator in place yields the values of the grouping, in key order |
| Grouping.AddRowFilm | src/App.jsx:74-81 | a row adds its film's card when missing, with the row's runtime and poster, and changes no existing card's runtime or poster |
| Grouping.AddRowKeys | src/App.jsx:74-81 | a film new to the accumulator is listed after the films already there; a known film keeps its place |
| Grouping.GroupOrder | src/App.jsx:72-86 | `Object.values` lists the cards in the order in which their films first occur among the shown rows |
| Grouping.AddRowDates | src/App.jsx:82 | filing a row adds its date after the card's dates when it is new to the card; no other card's dates change |
| Grouping.GroupDateMembers | src/App.jsx:72-86 | a card has an entry for a date exactly when some row of its film carries that date |
| Grouping.GroupDates | src/App.jsx:72-86 | a card lists its dates in the order in which they first occur among its film's rows |
| Grouping.AllDatesInFirstOrder | src/App.jsx:276 | with no date selected, a card lists exactly its film's dates, in the order of their first occurrence among the shown rows |
| Grouping.GroupFilms | src/App.jsx:72-86 | there is one card per distinct film of the rows, carrying that film and the runtime and poster of the film's first row |
| Grouping.FileTimeTimes | src/App.jsx:82-84 | the row's time is appended to the list for its date and theater, and no other list changes |
| Grouping.AddRowTimes | src/App.jsx:73-85 | one reduce step appends the row's time under its own film, date and theater only |
| Grouping.GroupTimes | src/App.jsx:72-86 | the list under film, date and theater is exactly the times of the rows with that film, date and theater, in row order |
| Grouping.GroupTotal | src/App.jsx:72-86 | across all cards there are exactly as many times as rows |
| Grouping.MovieShowtimeCount | src/App.jsx:90-100 | the nested loops count the times at selected dates and selected theaters (all when none are selected) |
| Grouping.MovieShowtimeCounts | src/App.jsx:89-101 | one count per card, in card order |
| Grouping.FileTimeCount | src/App.jsx:82-101 | filing a row that passes the filter raises its card's count by one |
| Grouping.AddRowCount | src/App.jsx:72-101 | filing a passing row adds one to its film's count and leaves other films' counts unchanged |
| Grouping.CountIsRowsOfFilm | src/App.jsx:72-101 | when every row passes the filter, a film's count is its number of rows |
| Grouping.ShownCountsAreRows | src/App.jsx:66-101 | each shown card's count is the number of shown rows of its film |
| Grouping.DatesToShow | src/App.jsx:276 | a date is listed exactly when the movie has it and it is selected, or nothing is selected; at most as many dates as selected |
| Grouping.DatesToShowDistinct | src/App.jsx:276 | with a selection without duplicates, a card lists each date once |
| Grouping.DatesToShowInOrder | src/App.jsx:276 | selected dates keep their selection order on the card |
| Grouping.AddRowAsWritten | src/App.jsx:74-84 | the reduce step as written either fails with a TypeError or files the row as the own-key step does; a film named like an inherited member and not yet a key always fails |
| Grouping.InheritedFilmNameFails | src/App.jsx:74-82 | as written, a first row whose film is "constructor" makes the reduce step fail |
| Grouping.AsWrittenIsAddRow | src/App.jsx:74-84 | for films and theaters not named like inherited members, the step as written is the own-key step |

## Left out

- File I/O is not modelled: `read_csv`, `save_csv`, `archive_daily_data`, `main`'s file handling, and `process_csv_data`'s early return for a missing snapshot file. A missing file acts as an empty snapshot, which changes nothing.
- `datetime.now()` is not modelled. `today` and the report's cutoff date are parameters, so the subtraction of `days_back` days is not modelled either.
- The `movies_seen_today` set in `process_csv_data` is never read, so it is left out.
- Rows have a fixed set of columns. Extra columns that a snapshot row carries into the history copy are not modelled.
- Malformed-row skipping is not modelled, because the processor has none; the model follows the code.
- Order independence across sources with disjoint keys is not proved. The model states the sequential indie-then-amc processing of `main` and proves that the announcements depend only on the concatenated snapshot.
- `webscrapetheaters.py`, `amc_logger.py` and `run_daily_scraping.py` are not modelled. They are HTTP scraping, network pagination with floating-point distance filtering, and subprocess orchestration.
- The viewer's React state, effects, DOM and `window` handling, JSX rendering and `Papa.parse` download are not modelled. Neither is the load filter `row.Date && row.Film`.
- `isTodayOrFuture` is not modelled, because it depends on the wall clock and JS `Date`.
- The `sortedMovies` comparator is not modelled, because it uses `Number(runtime)`, which is `NaN` for "Unknown".
- Filters.UniqueSorted: compares strings by code point, whereas JavaScript's default sort compares UTF-16 code units. The two orders differ only for characters outside the Basic Multilingual Plane.
- Object key order: keys are kept in insertion order. JavaScript lists integer-like keys (a film titled "1917", say) first, in numeric order, so card order for such titles is not modelled.
- Grouping.AddRowAsWritten: models inherited names only at the film and theater levels. It covers the usual `Object.prototype` method names, not `__proto__` and the legacy accessor names. Dates are `MM/DD/YYYY` strings and cannot collide with them.

## Findings

| source | as written | input that shows it | evidently intended | confidence | as-written member | corrected member |
|---|---|---|---|---|---|---|
| src/App.jsx:74-84 | `!acc[key]` and `!acc[key].showtimes[row.Date][row.Theater]` test truthiness on plain objects, so a film or theater named like an inherited `Object.prototype` member reads as already present | a row whose Film is `constructor`: no card is created, and `acc[key].showtimes[row.Date]` reads a property of `undefined`, a TypeError that stops the grouping | create the card (or list) whenever the object has no own entry for the key | high; not executed | Grouping.AddRowAsWritten (shown by Grouping.InheritedFilmNameFails) | Grouping.AddRow (Grouping.GroupFilms, Grouping.GroupTimes, Grouping.GroupTotal) |

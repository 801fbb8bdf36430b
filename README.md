# Project tracker record layer, in Dafny

This project models the record-handling core of a single-table project
tracker (`app.py`). The table `projects` holds one row per project: name,
pillar, priority, description, owner, free-text status, start and due dates,
a Planisware flag and number, and two timestamps. The model covers:

- **Field helpers** (`text.dfy`, `helpers.dfy`): `_clean`, `safe_int`,
  `safe_index`, `status_to_state` (Completed / Ongoing), `to_iso` / `try_date`
  (ISO `YYYY-MM-DD`), and `validate_plainsware` with `JJMD_PATTERN`
  (`JJMD-` then seven digits, any case).
- **The store** (`store.dfy`):
  - the form a user submits and the errors it collects;
  - the row that Save New inserts and Update writes. Both store `status` and
    `description` passed through `_clean`, like name, pillar and owner;
  - class `ProjectStore`, the table as a map from id to row plus the next
    AUTOINCREMENT id. `SaveNew`, `Update` and `Delete` change that state.
    `Load` and `AllRows` read it.
- **`fetch_df`** (`query.dfy`):
  - `BuildWhere` builds the WHERE conditions and arguments with loops and
    appends, as the source does, including the `where.pop()`.
  - `WhereHolds` gives SQL's meaning of those conditions, including SQL
    `LIKE`.
  - `Matches` is the intended filter predicate.
  - `ORDER BY` is a stable sort by the three-text key.
  - `distinct_values` is modelled beside them.
- **The report pipelines** (`order.dfy`, `reports.dfy`):
  - the derived year and the year filter;
  - the priority options;
  - the KPI cards;
  - the pillar × state summary;
  - top N per pillar;
  - the roadmap rows.
- **Schema migration** (`schema.dfy`):
  - the `PRAGMA table_info` rows of the declared table;
  - the two rebuild tests;
  - the column mapping of `_rebuild_projects_table`, built by a loop;
  - `ensure_schema_and_migrate`, as a method proved against its specification
    function `Migrate`.

The database's own decisions are parameters of `ensure_schema_and_migrate`:
- whether `RENAME COLUMN` works;
- which `ADD COLUMN`s it refuses. SQLite, for one, refuses the two
  `CURRENT_TIMESTAMP` columns on a table that has rows.

Deviations and modelling choices:
- **Ids are not stable across a rebuild.** The rebuild mapping never copies
  `id`, so the new table numbers its rows afresh. The code is followed here
  rather than the claim that ids are immutable. `Migration.rebuilds` counts
  how often that happens.
- **Ties keep table order.** `Order.Sort` is stable, so rows with equal sort
  keys keep the order the table returns them in. SQLite's `ORDER BY` and
  pandas' default `sort_values` do not promise that.
- **Writes take the timestamp as a parameter** `ts` instead of reading the
  clock.

## Model

| member | source | states |
|---|---|---|
| Text.Strip | app.py:336-337 | `str.strip()`: the result is a slice of the input with only whitespace cut from either end, it is empty exactly when the text is all whitespace, and otherwise starts and ends with a non-space |
| Text.StripUnique | app.py:336-337 | any slice of the input cut only at whitespace whose ends are not whitespace is `Strip`'s result, so the contract fixes the result completely |
| Text.StripIdempotent | app.py:336-337 | stripping twice is stripping once |
| Text.ParseInt | app.py:326-330 | `int(s)` on text succeeds only on text that is not blank after stripping |
| Text.IntStringRoundTrip | app.py:751-754 | `int(str(i)) == i` for every integer |
| Text.DigitLiteral | app.py:326-330 | a run of ASCII digits, with or without a leading minus, reads as its decimal value |
| Text.NatToString | app.py:754 | `str(n)` of a natural number is a non-empty run of digits |
| Helpers.Clean | app.py:336-337 | `_clean`: the result is the text ("" for `None`) with only surrounding whitespace cut; it is "" exactly for `None` and all-whitespace text, and otherwise has non-space ends |
| Helpers.CleanIdempotent | app.py:336-337 | cleaning a cleaned value changes nothing |
| Helpers.SafeInt | app.py:326-330 | `safe_int`: an int is returned as is, text parsable by `int` gives its value, and `None` or anything else gives the default |
| Helpers.SafeIntOfPrinted | app.py:326-330 | `safe_int(str(i)) == i` |
| Helpers.SafeIndex | app.py:318-324 | `safe_index`: the position of the first occurrence of a value that is among the options, otherwise the default |
| Helpers.StatusToState | app.py:332-334 | the state is Completed exactly when the stripped, lower-cased status is done, complete or completed, and Ongoing otherwise |
| Helpers.StatusStateNormalised | app.py:332-334 | a status and its stripped, lower-cased form map to the same state |
| Helpers.StripLower | app.py:333 | stripping and lower-casing commute |
| Helpers.ToIso | app.py:307-308 | `to_iso`: "" for no date, otherwise ten characters with dashes at positions 4 and 7 |
| Helpers.TryDate | app.py:310-316 | `try_date`: `None` or "" gives no date; any date returned is a valid calendar date |
| Helpers.IsoRoundTrip | app.py:307-316 | `try_date(to_iso(d)) == d` for every valid date |
| Helpers.OptionalIsoRoundTrip | app.py:307-316 | an empty date picker writes "", which reads back as no date; a date reads back as itself |
| Helpers.CheckNumber | app.py:139-145 | a blank number is "required"; otherwise the number is accepted exactly when its stripped, upper-cased form is `JJMD-` plus seven digits, and that form is what is returned |
| Helpers.ValidatePlainsware | app.py:133-145 | when the flag is not "yes" (stripped, any case) the result is `None` whatever the number; when it is "yes", a missing number is an error, and success always returns a valid JJMD number |
| Helpers.ValidatePlainswareCases | app.py:131-145 | when the flag is "yes", the result for each number text: blank is an error, a valid JJMD number as stripped and upper-cased is returned, anything else is a format error |
| Helpers.CheckedNumberIsStable | app.py:131-145 | a number the check returned passes the check again unchanged |
| Helpers.JjmdIsTrimmed | app.py:131 | a matching number has no surrounding whitespace |
| Order.KeyLessTransitive | app.py:385 | the column-by-column key order is transitive |
| Order.KeyLessTotal | app.py:385 | any two distinct keys are ordered |
| Order.Sort | app.py:385 | the result is sorted by the key and is a permutation of the input |
| Order.SortSorted | app.py:385 | sorting a sorted sequence changes nothing |
| Store.RequiredErrors | app.py:605-610 | each "is required" error is present exactly when its field is blank, and no Planisware error is among them |
| Store.Errors | app.py:597-616 | the error list names name, pillar and owner exactly when each is blank after `_clean`, and holds a Planisware error exactly when the flag is "Yes" and the number fails validation |
| Store.NoErrorsIffAcceptable | app.py:617-621 | the error list is empty exactly when every rule holds |
| Store.NumberToStore | app.py:612-616 | a stored Planisware number exists only when the flag is exactly "Yes", and it is a valid JJMD number |
| Store.NewRow | app.py:622-647 | the inserted row: the new id, `created_at == updated_at == ts`, the cleaned name, pillar, owner, status and description, priority `safe_int(priority, 5)`, dates that read back with `try_date` as the dates entered, the flag as chosen and the validated number |
| Store.UpdatedRow | app.py:686-711 | the updated row keeps `id` and `created_at`, sets `updated_at` to `ts`, and otherwise holds exactly the values Save New would write |
| Store.NewRowConforms | app.py:622-647 | an inserted row satisfies every rule, carries the new id, and has `created_at == updated_at == ts` |
| Store.UpdatedRowConforms | app.py:686-711 | an updated row satisfies every rule, keeps its id and `created_at`, and has `updated_at == ts` |
| Store.ProjectStore.constructor | app.py:249-266 | a freshly created table is empty and numbers from 1 |
| Store.ProjectStore.Load | app.py:465-473 | the loaded project is the row under the selected id, or nothing when there is no selection or no such row |
| Store.ProjectStore.AllRows | app.py:390-392 | `fetch_all_projects`: exactly the table's rows, in increasing id order |
| Store.ProjectStore.RowsBelow | app.py:390-392 | the rows with id below a bound, each once, in increasing id order |
| Store.ProjectStore.SaveNew | app.py:597-656 | returns the collected errors. Any error leaves the table and the counter unchanged. Otherwise exactly one row is added, under the fresh id, and the counter moves on. Every row keeps satisfying the rules |
| Store.ProjectStore.Insert | app.py:622-647 | the new row goes under a fresh id and nothing else changes |
| Store.ProjectStore.Update | app.py:658-719 | does nothing with no project loaded or with any error. Otherwise it overwrites exactly the loaded row's editable fields and `updated_at`; `id`, `created_at` and every other row stay as they were |
| Store.ProjectStore.Overwrite | app.py:686-711 | replaces one existing row and nothing else |
| Store.ProjectStore.Delete | app.py:721-734 | does nothing with no project loaded; otherwise removes exactly that id |
| Query.Like | app.py:377-380 | SQLite `LIKE`; for a pattern without `%` or `_` it holds exactly when the two texts agree ignoring ASCII case |
| Query.Matches | app.py:360-380 | no filters match every row; a matching row has the chosen pillar, status, owner and Planisware flag, the chosen priority when it reads as an integer, and, for a search without wildcards, contains the lower-cased search text in its name or description |
| Query.EqualityConditions | app.py:361-368 | the conditions hold on a row exactly when the pillar, status, owner and Planisware filters that are set and not "All" all equal the row's values |
| Query.PriorityCondition | app.py:370-375 | adds a priority equality exactly when the filter parses as an integer, and drops the appended condition otherwise |
| Query.SearchCondition | app.py:377-380 | adds the lower-cased `%search%` LIKE on name or description when a search is given |
| Query.BuildWhere | app.py:358-383 | the conditions have as many placeholders as arguments, and a row satisfies them exactly when it matches every filter |
| Query.WhereAppend | app.py:382-383 | appending a condition is conjunction (`AND`) |
| Query.SearchIsSubstring | app.py:377-380 | for search text without `%` or `_`, the LIKE is a substring test on the lower-cased text |
| Query.SearchHitsIsSubstring | app.py:377-380 | the search filter, for text without wildcards, is a lower-cased substring match on name or description |
| Query.Select | app.py:382-388 | the selected rows are exactly the matching rows of the table, each no more often than in the table |
| Query.SqlSelect | app.py:382-388 | the database returns only rows of the table that satisfy the conditions |
| Query.SqlSelectIsSelect | app.py:358-388 | evaluating the built conditions selects the same rows as the filter predicate |
| Query.FetchRows | app.py:356-388 | `fetch_df`'s rows are sorted by `(start_date or "", due_date or "", created_at)`, are a permutation of the matching rows, and are exactly the matching rows |
| Query.FetchDf | app.py:356-388 | the method that builds the query and sorts what the database returns yields `FetchRows` |
| Query.SelectIdempotent | app.py:358-383 | filtering the filtered rows again changes nothing |
| Query.SelectNoFilters | app.py:359 | no filters select the whole table |
| Query.FetchIdempotent | app.py:356-388 | fetching again from the fetched rows with the same filters changes nothing |
| Query.UndatedFirst | app.py:385 | rows without a start date come before every dated row |
| Query.SqlTrim | app.py:348 | SQLite `TRIM` is empty exactly when the text is all spaces, and otherwise starts and ends with a non-space |
| Query.InsertDistinct | app.py:346-350 | adding a value to a strictly ascending list keeps it strictly ascending and adds exactly that value |
| Query.DistinctValues | app.py:342-354 | `distinct_values` is strictly ascending (so sorted and duplicate-free), and holds exactly the column's non-null values that `TRIM` does not reduce to empty |
| Reports.ToDatetime | app.py:776-777 | `pd.to_datetime(..., errors="coerce")`: a date is given exactly when the text reads as a date that lies within pandas' `Timestamp` range (1677-09-22 to 2262-04-11), and it is that date |
| Reports.Year | app.py:776-777 | the derived year exists exactly when the date converts, is that date's year, and lies between 1677 and 2262 |
| Reports.YearOfWrittenRow | app.py:776-777 | a written row's start and due years are the years of the dates entered when those fit a `Timestamp`, and missing otherwise |
| Reports.YearFilter | app.py:802-803 | with a year chosen, exactly the rows whose derived year equals it remain, else every row; no row is added |
| Reports.YearFilterAll | app.py:802-803 | "All" keeps the view unchanged |
| Reports.YearFilterSorted | app.py:802-803 | filtering keeps the `fetch_df` order |
| Reports.InsertInt | app.py:787 | adding a value to an ascending list of ints keeps it ascending and adds exactly that value |
| Reports.YearOptions | app.py:787 | the year choices are ascending, without repeats, and are exactly the years some row of the view has |
| Reports.OfferedYearKeepsRows | app.py:787-803 | choosing an offered year never yields an empty view |
| Reports.PriorityValues | app.py:748-751 | the priority choices are ascending, without repeats, and are exactly the non-negative priorities present in the table |
| Reports.Printed | app.py:754 | each choice is printed with `str` |
| Reports.PriorityOptions | app.py:754 | the options are "All" followed by one entry per priority value |
| Reports.PriorityOptionReadsBack | app.py:748-754 | every option after "All" parses back, in the priority filter, to its value, which some row has |
| Reports.Kpis | app.py:806-817 | total is the view size; completed plus ongoing equals total; distinct pillars are at most the total and are the distinct non-blank pillars |
| Reports.CompletedPlusOngoing | app.py:810-811 | every row is counted as completed or as ongoing, never both |
| Reports.PillarsAtMostRows | app.py:812 | there are no more distinct non-blank pillars than rows |
| Reports.AddOne | app.py:826-828 | counting one more row raises the total by one |
| Reports.AddOneAscending | app.py:826-828 | the groups stay in ascending key order, and the key set gains exactly the row's key |
| Reports.AddOneLookup | app.py:826-828 | counting a row raises its own (pillar, state) count by one and no other |
| Reports.Tally | app.py:824-828 | the groups are in ascending (pillar, state) order with positive counts. Each group's count is the number of rows with that pillar and state. The counts sum to the view size |
| Reports.TallyCounts | app.py:824-828 | each listed group's count is that pair's row count, and its state is Completed or Ongoing |
| Reports.CountOfPositive | app.py:826-828 | a pair has a positive count exactly when some row has it |
| Reports.RelabelGroups | app.py:830 | the blank pillar's count moves to "(Unspecified)" and nothing else changes |
| Reports.PillarSummary | app.py:820-830 | the summary's counts sum to the view size. "(Unspecified)" counts the rows with a blank pillar or that label; every other pillar counts its own rows; the blank pillar is gone |
| Reports.CompletedBars | app.py:824-828 | the Completed bars add up to the Completed KPI |
| Reports.Relabel | app.py:849 | a blank pillar becomes "(Unspecified)"; every other row is unchanged |
| Reports.OnlyMultiset | app.py:851 | a pillar's group holds exactly that pillar's rows, with their multiplicities |
| Reports.HeadPerGroup | app.py:851-852 | `groupby("pillar").head(n)` keeps only rows of its input, none more often than there |
| Reports.HeadPerGroupOnly | app.py:851-852 | for every pillar, `head(n)` keeps exactly the first `n` of that pillar's rows, in order |
| Reports.OnlySorted | app.py:850-851 | a pillar's group of a sorted list is sorted |
| Reports.TopN | app.py:847-853 | top N holds only relabelled rows of the view, none of them with a blank pillar |
| Reports.TopNPerPillar | app.py:847-853 | each pillar gives at most `n` rows: the first `n` of that pillar's rows in `(pillar, priority, name)` order with missing priorities last, drawn from exactly that pillar's rows |
| Reports.Roadmap | app.py:864-867 | the roadmap holds exactly the rows whose start and due dates both convert with `pd.to_datetime` (so lie within the `Timestamp` range), and adds none |
| Reports.WrittenRowOnRoadmap | app.py:864-867 | a row saved with both dates set is drawn on the roadmap exactly when both dates fit a `Timestamp` |
| Schema.Find | app.py:171-175 | the row found has the name asked for, and nothing is found exactly when no row has it |
| Schema.FindFirst | app.py:171-175 | the row found is the first row with that name (`.iloc[0]`), and when some row is first with it, that row is found |
| Schema.FindAppend | app.py:171-175 | appending a column does not change which row is found for a name already present |
| Schema.NeedsRebuildCreatedAtMeans | app.py:168-177 | a rebuild is needed exactly when the first `created_at` row is NOT NULL and has no default or an all-whitespace one |
| Schema.NeedsRebuildPlainswareTypeMeans | app.py:179-186 | a rebuild is needed exactly when the first `plainsware_number` row's declared type, stripped and upper-cased, is not `TEXT` |
| Schema.CanonicalNeedsNoRebuild | app.py:168-186 | the declared table passes both rebuild tests |
| Schema.CanonicalCreatedAtFine | app.py:168-177 | the declared `created_at` has a default, so it does not force a rebuild |
| Schema.CanonicalPlainswareTypeFine | app.py:179-186 | the declared `plainsware_number` is TEXT, so it does not force a rebuild |
| Schema.LegacyNotExpected | app.py:192-195 | neither legacy name is an expected column |
| Schema.KeptColumns | app.py:197-206 | an old column is copied exactly when it is not `id` and is expected or is a legacy name of an expected column |
| Schema.RebuildMapping | app.py:188-206 | `keep_old` is the copied columns in table order, and `keep_new` has the same length and names each one's target |
| Schema.MappingKeepsExpected | app.py:199-203 | `id` is never copied; every other expected column present is copied under its own name |
| Schema.MappingRenamesLegacy | app.py:192-206 | `plainsware_proj` and `plainsware_num` are copied into `plainsware_project` and `plainsware_number` |
| Schema.MappingTargetsExpected | app.py:197-206 | every target is an expected column other than `id` (`keep_new` ⊆ `EXPECTED_COLUMNS`) |
| Schema.RenameColumn | app.py:274-284 | renaming a present column replaces its name by the new one in the column set, and renaming an absent one changes nothing |
| Schema.TryRename | app.py:274-284 | the rename is tried only when the old name is present and the new one absent; on success the column set loses the old name and gains the new one, and a refused `RENAME COLUMN` (or a stale check) rebuilds the table into the declared columns instead |
| Schema.RebuildChecks | app.py:286-294 | after the two tests (and the rebuilds they call for) neither test asks for a rebuild, and the table is unchanged or rebuilt |
| Schema.EnsureSchema | app.py:249-304 | the method, with its closing loop and early `break`, takes the table to `Migrate`'s result |
| Schema.AddMissingColumns | app.py:298-304 | the loop over `EXPECTED_COLUMNS` with its `break` computes the loop's specification `AddMissing` |
| Schema.AddMissing | app.py:298-304 | the loop either ends in one rebuild into the declared columns or only appends columns that are expected, were absent and are not id, name or pillar |
| Schema.AppendedColumn | app.py:298-301 | adding an expected column keeps both rebuild tests passing and adds its name |
| Schema.AddMissingResult | app.py:298-304 | after the loop every expected column except id, name and pillar is present and no rebuild is needed, whether or not an `ADD COLUMN` was refused |
| Schema.Migrate | app.py:249-304 | after the migration the table exists, holds every expected column except possibly id, name and pillar, and passes both rebuild tests, whatever the database answers |
| Schema.MigrateSettled | app.py:249-304 | on a table that already has every expected column except possibly id, name and pillar, and passes both rebuild tests, the migration renames nothing, rebuilds nothing and adds nothing |
| Schema.MigrateIdempotent | app.py:249-304 | running the migration a second time leaves the table as it is, with no rebuild, whatever the database answers |
| Schema.MigrateCreates | app.py:251-269 | a missing table is created as declared and nothing further happens |
| Schema.AddMissingAddsExpected | app.py:298-304 | the loop adds no column other than expected ones |
| Schema.TryRenameRetires | app.py:274-284 | after a rename attempt whose new name was free, no column carries the old name |
| Schema.MigrateRetiresLegacy | app.py:274-304 | a legacy column whose new name is free does not survive the migration |
| Schema.RenamesUnsupportedRebuildTwice | app.py:271-284 | without `RENAME COLUMN`, a table holding both legacy columns is rebuilt at least twice, because the second rename is decided on the column set read before the first rebuild |

## Left out

- The Streamlit interface: widgets, `st.session_state` and selector resets, `st.rerun`, messages, and the inline form-level warning.
- Turning the selector text ("id — name") into an id is not modelled. `Store.ProjectStore.Load` takes the parsed id, or none.
- Connection handling is not modelled: `conn()`, the SQLiteCloud URL and `USE DATABASE`, `assert_db_awake` and `_mask_url`. `Keep_alive.py` is an HTTP ping.
- Caching (`st.cache_data`, `clear_cache`) is not modelled. `Query.DistinctValues` reads the table directly.
- PDF, CSV and chart exports, and plotly rendering, are not modelled. Only the rows fed to the charts are.
- `now_ts` reads the clock. The writes take the timestamp `ts` as a parameter.
- Exceptions raised by the database on INSERT, UPDATE or DELETE ("Save error", "Update error") are not modelled. A write that passes validation is assumed to succeed.
- Transactions are not modelled. Neither is a rebuild that itself fails, for example when old rows have no `name`: every rebuild is assumed to succeed.
- The rebuild's copying of row data is not modelled, nor its `COALESCE` of blank timestamps. Only the resulting schema and the column mapping are. The new ids are not modelled either; `Migration.rebuilds` counts renumberings.
- The answers the database gives during migration are parameters: whether `RENAME COLUMN` is available, and which `ADD COLUMN`s are refused. SQLite's rules for them are not modelled.
- Reports.ToDatetime: reads a date only in the `YYYY-MM-DD` form Save New and Update write, and bounds it to the `Timestamp` range. `pd.to_datetime` also accepts other spellings, and infers one format from the first value of the column; neither is modelled.
- Reports.Year: depends on Reports.ToDatetime, so it shares that limit. It gives a year only for dates within the `Timestamp` range, where pandas yields NaT for the others.
- Reports.Roadmap: depends on Reports.ToDatetime in the same way. A row whose start or due date lies outside the `Timestamp` range is dropped, as `dropna` does.
- Text.Lower: maps ASCII letters only, where Python's `lower()`/`upper()` map all of Unicode. Digits in `JJMD_PATTERN` and `int()` are ASCII only, where Python's `\d` and `int()` accept other Unicode digits.
- Helpers.ToIso: always pads the year to four digits. The C library's `strftime` may not pad years below 1000.
- Helpers.TryDate: follows the pattern `strptime` builds for `%Y-%m-%d` (four-digit year; month and day in each of their regex alternatives), but with ASCII digits only, and it does not model the error message text.
- Scalar values are simplified. Priority is stored as an integer (or NULL). Text columns are text or NULL. pandas' NaN and `dropna` are read as NULL.
- Store.ProjectStore.SaveNew: `id` and `priority` are unbounded integers here. SQLite stores them as 64-bit signed integers, which the model does not bound, so an id past 2^63 - 1 or a priority outside that range is not refused. The same holds for Store.ProjectStore.Update and Helpers.SafeInt.
- Order.Sort: is stable. Rows with equal keys keep table order, which SQLite and pandas do not promise.
- Query.SearchIsSubstring: is stated for search text without `%` or `_`. With them, LIKE treats those characters as wildcards, and `Query.WhereHolds` models exactly that.
- `PRESET_PILLARS` and the pillar choice list are UI data and are not modelled.

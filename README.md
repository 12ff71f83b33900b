# Cleaning pass of the LTR reporting pipeline, in Dafny

`data_processor.py` turns three CSV exports into one weekly table. The exports are Jira epics, Jira
maintenance tickets and Dataverse desktop-machine utilisation. This project models the
steps between finding the files and computing the correlation matrix:

- **discovery** (`load_csv_files`): a directory listing is classified by file name. A `.csv`
  entry takes the role of the first tag it contains, tried in the order epics, maintenance,
  utilisation, so a name carrying two tags fills only the earlier role. Each role keeps the
  last entry whose role it is. If a role has no file, the missing tags are reported in a
  fixed order.
- **column names** (`clean_column_names`): export qualifiers such as
  `API_JIRA_Data_Maintenance[...]` and `...[Field]` brackets are stripped from the headers.
- **date columns** (`convert_date_columns`): each listed column is coerced to timestamps.
  A cell that does not parse becomes missing.
- **missing values** (`handle_missing_values`): one of two things happens.
  - Under `"drop"`, every incomplete row is dropped.
  - Otherwise, gaps in numeric columns are filled with that column's median or mean, and
    gaps in text columns are filled with `"Unknown"`.
- **week columns** (`create_week_column`): three columns are derived from a date column.
  - `Year` is the ISO year.
  - `Week` is the ISO week.
  - `YearWeek` is the year followed by the zero-padded week.
- **weekly metrics** (`calculate_correlation_metrics`): both tables are grouped by
  `YearWeek` with fixed sum/mean aggregations, and the results are inner-joined on the key.

A table is a list of typed columns (numeric, text or timestamp) and a list of rows of
optional cells, where a missing cell is `None`. Where a step looks a column up by name, it
takes the first column that carries the name; what each step does with repeated names is
listed under "## Left out".

Each step that the program writes as a loop over columns or files is a `method` with a
loop. That method is proved equal to a specification function, and lemmas state what the
function means. Dates use the proleptic Gregorian calendar. The ISO calendar is CPython's
`date.isocalendar` algorithm, and it is proved against an independent definition: the week
containing a year's first Thursday is week 1.

## Model

| member | source | states |
|---|---|---|
| Strings.DeleteCharSpec | data_processor.py:112 | `replace(']', '')` leaves no `]` and keeps every other character that was there, and only those |
| Strings.DeleteAllShrinks | data_processor.py:116 | removing a substring that occurs shortens the name by at least its length |
| Strings.DeleteAllAbsent | data_processor.py:120 | removing a substring that does not occur leaves the name unchanged |
| Strings.AfterLastSuffix | data_processor.py:112 | `split('[')[-1]` is exactly the text after the last `[` |
| Strings.AfterLastFree | data_processor.py:112 | `split('[')[-1]` has no `[`, and it is the whole name when there is none |
| Strings.DecimalRoundTrip | data_processor.py:217 | `astype(str)` of a non-negative integer reads back as the same number |
| Strings.ZeroFill2Value | data_processor.py:217 | `str(week).zfill(2)` of a week below 100 is two digits that read back as the week |
| Strings.LexLeTotal | data_processor.py:244 | the string order a group-by sorts keys by compares any two keys |
| Strings.LexLeTransitive | data_processor.py:244 | that order is transitive |
| Strings.LexLeAntisymmetric | data_processor.py:244 | that order is antisymmetric |
| Sorting.SortSorted | data_processor.py:184 | sorting under a total preorder yields a sorted sequence (the median's sorted values) |
| Sorting.SortNoDuplicates | data_processor.py:244 | sorting distinct group keys keeps them distinct |
| Sorting.CountSort | data_processor.py:184 | sorting keeps how many values satisfy any property |
| Sorting.Distinct | data_processor.py:244 | the distinct keys: no duplicates, and every key appears and nothing else |
| Stats.Mean | data_processor.py:187 | `Series.mean()` is defined exactly when there is at least one value |
| Stats.Median | data_processor.py:184 | `Series.median()` is defined exactly when there is at least one value |
| Stats.MeanWithinRange | data_processor.py:187 | the mean lies between any lower and upper bound of the values |
| Stats.MedianWithinRange | data_processor.py:184 | the median lies between any lower and upper bound of the values |
| Stats.MedianSplitsInHalf | data_processor.py:184 | at least half of the values are at most the median, and at least half are at least it |
| Tables.IndexOf | data_processor.py:144 | `col in df.columns`: the first column of that name, or none of them carries it |
| Tables.SetColumn | data_processor.py:215 | `df[name] = cells` replaces the first column of that name or appends one, and keeps every other column and cell |
| Tables.SetColumnOther | data_processor.py:215-217 | assigning one column does not change where another name resolves or what it holds |
| Tables.SetColumnKeeps | data_processor.py:215-217 | assigning one column keeps every column of another name and its cells |
| Discovery.RoleOfSpec | data_processor.py:54-60 | an entry has a role iff it ends in `.csv` and contains a tag; epics beat maintenance beat utilisation |
| Discovery.RoleOf | data_processor.py:54-60 | the `if/elif` chain: a `.csv` entry takes the first role whose tag it contains; stated by `RoleOfSpec` |
| Discovery.Discover | data_processor.py:53-72 | the three files when every role is filled, otherwise the tags of the unfilled roles; stated by `DiscoverFound` and `DiscoverMissing` |
| Discovery.LastOfRoleStep | data_processor.py:53-60 | one loop step: a matching entry replaces the slot, and any other entry leaves it |
| Discovery.LoadCsvFiles | data_processor.py:48-72 | the loop's three slots give either the three files or the list of missing tags |
| Discovery.LastMatchSpec | data_processor.py:53-60 | the slot is empty iff nothing matched, else it holds a match with no later match |
| Discovery.LastOfRoleFilled | data_processor.py:53-60 | a role's slot is empty iff no entry has that role, and a filled slot holds an entry of that role |
| Discovery.LastOfRoleIsLast | data_processor.py:53-60 | a filled slot holds the last entry of that role in listing order |
| Discovery.DiscoverFound | data_processor.py:63-84 | files are loaded iff every role is filled, and each file has its own role |
| Discovery.MissingNamesAreTags | data_processor.py:64-70 | the missing list is the tags of exactly the empty slots, in epics-maintenance-utilisation order |
| Discovery.DiscoverMissing | data_processor.py:63-72 | a failed discovery names at least one tag, exactly those of unfilled roles, in order |
| Discovery.UnfilledRolesOfListing | data_processor.py:63-70 | the unfilled roles of a listing are exactly the roles no entry has |
| Discovery.OneMissingReported | data_processor.py:63-72 | with only the maintenance export absent, the report is exactly its tag |
| ColumnNames.CleanColumns | data_processor.py:107-123 | each header is renamed by the cleaning rule, and its position and type are kept |
| ColumnNames.CleanName | data_processor.py:110-120 | the renaming rule for one header: the bracket field, overridden by the desktop and then the maintenance qualifier rule, each tested on the original name; stated by the `CleanName…` lemmas below |
| ColumnNames.CleanColumnNames | data_processor.py:103-128 | the renamed table has the cleaned headers and the same rows |
| ColumnNames.QualifierHasBracket | data_processor.py:115-120 | a name with a qualifier always has a `[` |
| ColumnNames.CleanNameWithoutBracket | data_processor.py:110-120 | a name without `[` is left unchanged |
| ColumnNames.CleanNameDropsCloseBracket | data_processor.py:110-120 | a name with `[` loses every `]` |
| ColumnNames.CleanNameGeneric | data_processor.py:111-112 | without a qualifier, the result is the text after the last `[` minus `]`, and it is bracket-free and idempotent |
| ColumnNames.CleanNameQualified | data_processor.py:114-120 | a qualifier is removed (maintenance wins over desktop) along with every `]` |
| ColumnNames.CleanNameIdempotentIff | data_processor.py:110-120 | cleaning twice equals cleaning once iff the cleaned name holds no qualifier |
| ColumnNames.CleanColumnsTwice | data_processor.py:107-126 | cleaning headers that leave no qualifier behind is idempotent |
| DateColumns.Coerce | data_processor.py:147 | `to_datetime(errors='coerce')` yields a timestamp or missing, keeps timestamps and keeps missing cells missing |
| DateColumns.ConvertAll | data_processor.py:143-147 | conversion keeps the table's shape |
| DateColumns.ConvertDateColumns | data_processor.py:141-152 | the loop over the listed names gives the specified conversion |
| DateColumns.ConvertAllSpec | data_processor.py:143-147 | names are kept; a column becomes timestamp iff it is listed and present; converted cells are coerced and all others are untouched |
| DateColumns.ConvertAllIdempotent | data_processor.py:143-147 | converting twice equals converting once |
| DateColumns.ConvertAllWellTyped | data_processor.py:147 | every cell still fits its column's type after conversion |
| MissingValues.DropIncomplete | data_processor.py:176 | `dropna()` never adds rows |
| MissingValues.DropIncompleteMembers | data_processor.py:176 | a row survives `dropna()` iff it was there and has no missing cell |
| MissingValues.DropIncompleteAppend | data_processor.py:176 | `dropna()` keeps the surviving rows in their order |
| MissingValues.DropLeavesNoGap | data_processor.py:174-176 | after `"drop"` no row has a missing cell |
| MissingValues.NumbersEmpty | data_processor.py:184-187 | a column has no statistic iff it has no numeric value |
| MissingValues.Statistic | data_processor.py:184-187 | the median or the mean of the column's present numbers, and none for any other strategy or an empty column; bounded by `NumbersWithin` |
| MissingValues.NumbersWithin | data_processor.py:184-187 | the values a statistic is taken over keep the column's bounds |
| MissingValues.FillColumn | data_processor.py:184-194 | `fillna(v)` fills exactly the gaps of one column and changes nothing else |
| MissingValues.FillColumnNoOp | data_processor.py:182-193 | filling a column without gaps, or with an undefined statistic, changes nothing |
| MissingValues.NumericStep | data_processor.py:181-188 | one numeric-loop step fills that column from its own untouched values, and other types are skipped |
| MissingValues.TextStep | data_processor.py:192-194 | one text-loop step fills that column with `"Unknown"`, and other types are skipped |
| MissingValues.HandleMissingValues | data_processor.py:165-197 | the two loops (or the drop) give the specified table |
| MissingValues.HandleMissing | data_processor.py:175-195 | the table returned: the complete rows under `"drop"`, otherwise `Filled` |
| MissingValues.Filled | data_processor.py:179-195 | every numeric column filled with its statistic and every text column with `"Unknown"`, keeping columns and row count; stated by `FilledSpec` and `FilledNumeric` |
| MissingValues.FilledSpec | data_processor.py:178-195 | present cells and timestamp columns are kept, and text gaps become `"Unknown"`; other strategies fill only text |
| MissingValues.FilledNumeric | data_processor.py:180-188 | a numeric column with a value gets a statistic within its range, and every gap holds it |
| MissingValues.FilledWellTypedComplete | data_processor.py:180-188 | under median or mean, a well-typed numeric column with a value has no gap left |
| MissingValues.HandleMissingWellTyped | data_processor.py:174-195 | every strategy keeps each cell fitting its column's type |
| Calendar.FirstDayClosedForm | data_processor.py:215 | counting 365- and 366-day years from 0001-01-01, forwards or backwards, lands on the Gregorian closed form `365k + k/4 - k/100 + k/400` |
| Calendar.OrdinalClosedForm | data_processor.py:215 | a date's day number is the days before its year, before its month, plus its day |
| Calendar.OrdinalInYear | data_processor.py:215 | a date's day number lies within its year |
| Calendar.Week1HoldsFirstThursday | data_processor.py:215-216 | ISO week 1 starts on the Monday of the week holding the year's first Thursday |
| Calendar.WeeksInIsoYear | data_processor.py:216 | an ISO year has 52 or 53 weeks |
| Calendar.IsoCalendarCorrect | data_processor.py:215-216 | `isocalendar()` gives the ISO year whose weeks contain the date, the week and weekday that place it there, a week in 1..53, and a year within one of the civil year |
| Calendar.IsoCalendar | data_processor.py:215-216 | CPython's `isocalendar()` on day numbers, choosing among the week-1 Mondays of the year before, of and after the date's year; stated by `IsoCalendarCorrect` |
| Calendar.WeekKey | data_processor.py:217 | `str(year) + str(week).zfill(2)` is all digits; read back by `WeekKeyRoundTrip` |
| Calendar.WeekKeyRoundTrip | data_processor.py:217 | the `YearWeek` key reads back as its year and week |
| Calendar.WeekKeyInjective | data_processor.py:217 | distinct (year, week) pairs give distinct keys |
| Calendar.WeekKeyLength | data_processor.py:217 | a four-digit year gives a six-character key |
| Calendar.WeekKeyExample | data_processor.py:215-217 | 2025-01-15 is ISO 2025-W03-3 and keys as `"202503"` |
| WeekColumns.DateKey | data_processor.py:215-217 | a date's key is digits, reads back as its ISO year and week, and places the date in that week |
| WeekColumns.WithWeeks | data_processor.py:212-217 | adding week columns keeps the rows |
| WeekColumns.CreateWeekColumn | data_processor.py:210-224 | the method gives the specified table |
| WeekColumns.WithWeeksSkips | data_processor.py:212-222 | an absent or non-timestamp date column leaves the table unchanged |
| WeekColumns.WithWeeksColumns | data_processor.py:215-217 | `Year` and `Week` become numeric columns and `YearWeek` a text column |
| WeekColumns.WithWeeksCells | data_processor.py:215-217 | a row with a date gets its ISO year, its week (1..53) and its key; a row without one gets none |
| WeekColumns.YearCells | data_processor.py:215 | one cell per row: the ISO year of the row's timestamp, missing where there is none |
| WeekColumns.WeekCells | data_processor.py:216 | one cell per row: the ISO week of the row's timestamp, missing where there is none |
| WeekColumns.KeyCells | data_processor.py:217 | one cell per row: the row's `YearWeek` key, missing where there is no timestamp |
| WeekColumns.WithWeeksKeepsOthers | data_processor.py:215-217 | every other column and its cells are unchanged |
| WeekColumns.WithWeeksWellTyped | data_processor.py:215-217 | the new columns' cells fit their types |
| Tables.SetColumnWellTyped | data_processor.py:215-217 | assigning a column whose cells fit its type keeps every column's cells fitting their types |
| WeekColumns.DateKeyExample | data_processor.py:215-217 | 2025-01-15 keys as `"202503"` |
| Correlation.KeyOrderIsTotalPreorder | data_processor.py:244 | group keys are sorted by a total preorder |
| Correlation.KeysMembers | data_processor.py:244 | a key is a group key iff some row carries it |
| Correlation.GroupKeysSpec | data_processor.py:244 | the groups are the distinct row keys, ascending and without duplicates |
| Correlation.GroupKeysAscending | data_processor.py:244 | the group keys are strictly ascending: each is below every later key and never above it |
| Correlation.GroupKeys | data_processor.py:244-250 | `groupby('YearWeek')`'s groups: the distinct keys of the rows, sorted; its meaning is stated by `GroupKeysSpec` and `GroupKeysAscending` |
| Correlation.Weekly | data_processor.py:244-256 | the aggregation succeeds iff every aggregated column exists, and gives the key plus one column per aggregation |
| Correlation.WeeklyRows | data_processor.py:244-256 | one row per distinct key in ascending order, keyed by it; each cell is the sum or mean of that week's values |
| Correlation.TotalOverCons | data_processor.py:244-245 | adding a row adds its value to exactly its own week's total |
| Correlation.TotalOverConserves | data_processor.py:244-245 | over distinct keys covering all rows, the per-week totals add up to the total |
| Correlation.TotalOverEmpty | data_processor.py:244-245 | no rows give zero totals |
| Correlation.WeeklyTotalsConserve | data_processor.py:244-251 | weekly sums add up to the sum over all keyed rows |
| Correlation.KeysOf | data_processor.py:259 | the join key column has one entry per row |
| Correlation.KeysOfAppend | data_processor.py:259 | the key column of concatenated rows is the concatenation |
| Correlation.MatchesSpec | data_processor.py:259 | a left row's matches share its key, exist iff the key is on the right, and are at most one for unique right keys |
| Correlation.MatchesShape | data_processor.py:259 | a joined row is the left row followed by the right row without its key |
| Correlation.JoinRowsShape | data_processor.py:259 | every joined row has the left width plus the right width minus one |
| Correlation.InnerJoin | data_processor.py:259 | the merged table is well-formed |
| Correlation.JoinRows | data_processor.py:259 | `merge(how='inner')`'s rows: each left row followed by its matches; every joined row keeps a key; stated by `JoinKeys`, `JoinUnique`, `JoinRowsAppend` and `JoinRowsShape` |
| Correlation.JoinKeys | data_processor.py:259 | a key is in the join iff it is on both sides |
| Correlation.JoinUnique | data_processor.py:259 | unique keys on both sides give unique keys in the join |
| Correlation.JoinRowsAppend | data_processor.py:259 | the join follows the left table's row order |
| Correlation.JoinExample | data_processor.py:259 | weeks 202501/202502 joined with 202502/202503 give exactly 202502 |
| Correlation.CorrelationFrameRows | data_processor.py:243-259 | the weekly frame has 1+3+5 columns, and its weeks are unique and are those on both sides |
| Correlation.CorrelationFrame | data_processor.py:243-259 | the two weekly aggregations inner-joined on the key, or none when a key or an aggregated column is missing; stated by `CorrelationFrameRows` |
| Correlation.CalculateCorrelationMetricsAsWritten | data_processor.py:237-270 | the result is a bare `None` iff either table lacks `YearWeek` |
| Correlation.AsWrittenUnpackFails | data_processor.py:239-241 | the caller's two-name unpacking fails iff either table lacks `YearWeek` |
| Correlation.AsWrittenCounterexample | data_processor.py:239-241 | a maintenance table without a date column makes the caller's unpacking fail |
| Correlation.CalculateCorrelationMetrics | data_processor.py:237-270 | with the fix, unpacking always succeeds, and the frame is missing iff a key or an aggregated column is missing |
| Correlation.CorrectedUnpacks | data_processor.py:237-270 | with the fix, the caller receives the weekly frame or `None` in both places |

## Left out

- Reading files is not modelled: `os.getcwd`, `os.listdir`, `os.path.join`, `pd.read_csv` and the three data frames they produce. The listing is a parameter and a found file is its bare name. The generic exception path at lines 89-91 (an unreadable file) has no counterpart.
- All `print` output is left out, including the missing-value counts at lines 167-171. It has no effect on the data.
- Parsing in `pd.to_datetime` is a parameter `parse`. Its formats and its exception path (lines 149-150) are not modelled.
- The statistical steps are not modelled: `.corr()`, `select_dtypes` before it (lines 262-263), `plot_correlation_matrix`, `main` with its inline CSV export (lines 346-359) and `app.py` are not part of this model.
- Floating point is not modelled: sums, means and medians are exact rationals, and NaN is a missing cell.
- A timestamp cell holds only its calendar date; the time of day is dropped. No modelled step reads it: the ISO week uses the date, and `dropna` and `fillna` look only at whether a cell is present.
- Only three column types are modelled: numeric, text (`object`) and timestamp. Booleans, categories and other `pandas` types are not.
- Tables.IndexOf: for repeated column names, the steps that look a column up by name (date conversion, week columns, grouping) use the first column of the name. `pandas` would return a frame of all of them.
- ColumnNames.CleanColumnNames: renames every column of a repeated name, as `rename` does; nothing more is promised about repeated names.
- MissingValues.HandleMissingValues: fills every numeric and text column by position, repeated names included. With a repeated name, `pandas` would make `df_copy[col]` at lines 182 and 193 a frame, and the `if` on it would raise `ValueError`. That error is not modelled.
- MissingValues.HandleMissingValues: the strategy is an explicit argument. The default `strategy='median'` of line 154, on which `main` relies, is not modelled as a default; a caller passes `"median"` for it.
- DateColumns.Coerce, DateColumns.ConvertAllSpec and WeekColumns.WithWeeks: parsing is assumed to give naive timestamps. Strings with UTC offsets would make `pd.to_datetime` (line 147) return a time-zone-aware column, or an `object` column for mixed offsets. `is_datetime64_dtype` at line 213 is false for both, so `pandas` would then add no `Year`, `Week` or `YearWeek` column, where the model adds them.
- WeekColumns.WithWeeks: for a date column itself named `Year`, all three new columns are computed from the original dates. In `pandas`, line 215 overwrites that column with numbers, and `.dt` at line 216 then raises `AttributeError`. A date column named `Week` or `YearWeek` behaves as modelled.
- WeekColumns.WithWeeksCells: a row with a missing date gets no `YearWeek` key, so it joins no week. `pandas` would store the text `"<NA><NA>"` there and group all such rows as one week.
- Correlation.Weekly: the group-by keys are text only. Rows whose key cell is missing or not text are left out of every group. Only numeric cells enter a sum or a mean, where `pandas` would concatenate strings or raise.
- Correlation.Weekly: the sum over a week whose rows have no numeric values is 0 (as in `pandas`), and its mean is a missing cell.
- MissingValues.Statistic: a numeric column with no value at all is left as it is. Its median or mean is NaN, so `fillna` changes nothing.
- Calendar: dates before year 1 are not modelled (as in Python's `date`). The 1677-2262 bound of `pandas` timestamps is not modelled either.

## Findings

| source | as written | input that shows it | evidently intended | confidence | as-written member | corrected member |
|---|---|---|---|---|---|---|
| data_processor.py:239-241 | When either table lacks `YearWeek`, the function returns a bare `None`. The caller at line 339 unpacks the result into two names, which raises `TypeError` and aborts the run. | A maintenance export whose `created` column is missing or not a timestamp column, so `create_week_column` adds no `YearWeek`. | Return `(None, None)`, as the exception path at lines 268-270 does, so that the guard at line 341 skips the export. | high, not executed | Correlation.CalculateCorrelationMetricsAsWritten | Correlation.CalculateCorrelationMetrics |

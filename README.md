# Data warehouse pipeline: a verified model of its transform core

The pipeline loads two public datasets into a PostgreSQL warehouse.

- **Demographics.** A parquet file of nested per-year, per-category county figures is queried through DuckDB. A generated SELECT list flattens the nested fields into `field.year` columns. `eda_demo` then reshapes the result in eight steps:
  1. drop the census columns;
  2. unpivot;
  3. split every alias into a category and a year;
  4. clean the category names;
  5. keep the years 2011 to 2019 and sort by (state, county, year);
  6. pivot back to one row per (state, county, year), the first non-null value winning;
  7. fill every null with the county median of its column;
  8. drop the county column.

  The table is then written to the warehouse. An incremental run first drops the (state, year) pairs already stored.
- **Complaints.** A CSV file is loaded into a DuckDB staging table and checked. The `Tags` and `ZIP code` columns are dropped. The date column is cast. Duplicates are removed, keeping the lowest-rowid row of each (date, product, state) group. The table is then copied to the warehouse in windows of 100000 rows. An incremental run drops, in every window, the rows whose date is already stored.
- **Connection manager.** Both pipelines use it. It builds the connection URI around the percent-encoded password. Its one bulk write has replace and append modes and reports failure as `false`.

The model follows the code's own form:

- The reshaping steps are pure functions over values (`DemographicsFlatten`).
- These are methods with loops, proved against specification functions:
  - `build_select_clause`, with its three nested loops;
  - the imputation loop of `eda_demo`;
  - the chunk loop of `upload_to_postgres`.
- These are classes whose methods change their fields:
  - the DuckDB staging table of the complaints pipeline;
  - the connection manager;
  - the warehouse.

Modules:

- `Wrappers`: `Option` and `Result`.
- `Text`: `str(n)` and `int(s)`, `rsplit`, `split` and `join`, lower case, Python's string order.
- `Seqs`: filter, a stable insertion sort, dropping adjacent repeats, the first failure of a conversion.
- `PercentEncoding`: `urllib.parse.quote` and its inverse, with UTF-8. The unreserved characters are those of section 2.3 of RFC 3986.
- `Postgres`: `PostgreSQLManager` and the warehouse.
- `DemographicsFlatten`: steps 1 to 8 of `eda_demo`.
- `Demographics`: the rest of the demographics pipeline.
- `Complaints`: the complaints pipeline.

The parquet engine, the CSV reader and the server are parameters or class state:

- The query engine is a function from the SELECT list to the frame it returns, or `None` when the query raised.
- The CSV is the column list and the records that `read_csv_auto` produced.
- The server is a `Warehouse`: named tables of rows, whether it can be reached, and which writes it commits. Whether a write is committed depends on the stored tables and on the write itself, so one window can be refused while the next is committed.

## Model

| member | source | states |
|---|---|---|
| Postgres.PostgresManager.constructor | scripts/postgres_manager.py:11-18 | the credentials are stored and the engine holds the URI built from them, even when the first connection attempt fails |
| Postgres.ConnectionString | scripts/postgres_manager.py:20-22 | the URI `create_connection_string` formats; `ConnectionStringRoundTrip` states what can be read back from it |
| PercentEncoding.Quote | scripts/postgres_manager.py:21 | `quote(password)` with `/` safe; specified by `QuoteRoundTrip`, `QuoteWellEncoded` and `QuoteHasNoDelimiters` |
| Postgres.ConnectionStringRoundTrip | scripts/postgres_manager.py:20-22 | read as SQLAlchemy's URL pattern reads it (the user name up to the first `:`, the password from there to the first `@`), the URI gives back exactly the user name and the password, whatever characters the password holds, when the user name has no `@`, `:` or `/` |
| PercentEncoding.QuoteRoundTrip | scripts/postgres_manager.py:21 | percent-decoding the quoted password and reading it as UTF-8 gives back the password |
| PercentEncoding.QuoteWellEncoded | scripts/postgres_manager.py:21 | the quoted password consists only of unreserved characters, `/`, and `%XX` triplets with upper-case hexadecimal digits |
| PercentEncoding.QuoteHasNoDelimiters | scripts/postgres_manager.py:21-22 | the quoted password holds no `@` and no `:`, so it cannot end the userinfo or the user name early |
| PercentEncoding.Utf8RoundTrip | scripts/postgres_manager.py:21 | decoding the UTF-8 form of any string gives the string back |
| Postgres.PostgresManager.Connect | scripts/postgres_manager.py:24-34 | the engine is assigned before the connection is tried, and the result is whether the server can be reached |
| Postgres.PostgresManager.UploadData | scripts/postgres_manager.py:36-50 | the result is true exactly when there is an engine, the rows are nonempty, the server is reachable and it commits this write; then the table is replaced or appended to, otherwise the store is unchanged |
| Postgres.Written | scripts/postgres_manager.py:45 | `to_sql` with replace leaves exactly the rows, and with append the old rows followed by the new; the table is created if absent, and no other table changes |
| Postgres.PostgresManager.ReadTable | scripts/complaints_eda.py:64 | a read succeeds exactly when there is an engine, the server is reachable and the table exists, and then returns the stored rows |
| Complaints.ValidateData | scripts/complaints_eda.py:12-31 | it fails exactly when a required column is missing, and the error names exactly the missing ones; otherwise the early-date warning appears exactly when some parsed date lies before 2010-01-01 |
| Complaints.ValidateWarnsMissing | scripts/complaints_eda.py:22-26 | a column warns exactly when it is a column of the frame and more than a tenth of its cells are null |
| Complaints.MissingWarningsMember | scripts/complaints_eda.py:23-26 | the missing-data warnings are exactly those of the columns with more than 10% nulls |
| Complaints.ComplaintsEda.LoadData | scripts/complaints_eda.py:33-37 | a second load fails with nothing changed; a first load creates the table with rowids 0, 1, … in file order, keeps the rowids increasing, and returns the validation of what it loaded |
| Complaints.ComplaintsEda.CleanData | scripts/complaints_eda.py:39-52 | each statement that fails (missing table, missing column, unparseable date) stops the rest and keeps the earlier ones applied; success drops both columns and keeps exactly the deduplicated rows |
| Complaints.Without | scripts/complaints_eda.py:42-43 | a dropped column is gone from the column list |
| Complaints.WithoutMember | scripts/complaints_eda.py:42-43 | dropping a column keeps exactly the other columns |
| Complaints.WithoutKeepsOrder | scripts/complaints_eda.py:42-43 | the remaining columns keep their order: a column between two others stays between them |
| Complaints.DropCells | scripts/complaints_eda.py:42-43 | every row survives the drop, with its rowid and every other cell, and without the dropped cell |
| Complaints.RemoveDuplicates | scripts/complaints_eda.py:47-51 | every surviving row has the lowest rowid of its (date, product, state) group |
| Complaints.DedupMember | scripts/complaints_eda.py:47-51 | a row survives exactly when it has the lowest rowid of its group |
| Complaints.DedupNoSharedTriple | scripts/complaints_eda.py:47-51 | no two surviving rows share a (date, product, state) triple |
| Complaints.DedupKeepsTriples | scripts/complaints_eda.py:47-51 | every triple of the table is still present after the dedup |
| Complaints.DedupKeepsOrder | scripts/complaints_eda.py:47-51 | the survivors keep their order, so the rowids still increase |
| Complaints.Window | scripts/complaints_eda.py:58-61 | a window holds at most 100000 rows, is empty exactly when the offset is past the end, and is otherwise the slice at the offset |
| Complaints.ChunksReassemble | scripts/complaints_eda.py:55-67 | the windows read from an offset on, put together, are the rest of the table in order |
| Complaints.ChunkMode | scripts/complaints_eda.py:66 | a chunk replaces the table exactly when it is the first one of a full run; otherwise it appends |
| Complaints.KeepNewDates | scripts/complaints_eda.py:65 | no row whose date is already stored is kept |
| Complaints.KeepNewDatesMember | scripts/complaints_eda.py:65 | a row is kept exactly when its date is not stored, whatever its product and state |
| Complaints.ComplaintsEda.UploadToPostgres | scripts/complaints_eda.py:54-67 | before `load_data` the missing staging table is the `NoTable` error, with the store unchanged; an incremental run over a nonempty staged table without `Date received` fails with nothing written: with the read error when the stored dates cannot be read, otherwise with the missing-column error of the filter; otherwise the loop ends with the result and the tables `ChunkedUpload` specifies for the staged rows, the server's reachability and the writes it commits |
| Complaints.Step | scripts/complaints_eda.py:62-66 | one chunk: the date filter when incremental, then a write of what is left when it is nonempty; specified through `IncrementalStepStoresChunkDates` and `FullRunAppendStep` |
| Complaints.ChunkedUpload | scripts/complaints_eda.py:55-67 | the chunk loop on values; specified by `FullRunCopiesTable`, `RefusedWritesIgnored`, `FirstReplaceRefused` and the incremental-run lemmas below |
| Complaints.RefusedWritesIgnored | scripts/complaints_eda.py:55-67 | the status `upload_data` returns is ignored: with the server reachable (and, when incremental, the target present) the run reaches the last window and succeeds, whatever writes the server refuses |
| Complaints.FirstReplaceRefused | scripts/complaints_eda.py:66 | when the server refuses the first window's `replace` and commits every append, the run succeeds and the later windows go after the old rows: the target ends as its old rows followed by all but the first window |
| Complaints.FullRunAppendStep | scripts/complaints_eda.py:66 | a later window of a full run is appended to the target, and no other table changes |
| Complaints.FullRunCopiesTable | scripts/complaints_eda.py:54-67 | a full run whose first `replace` and later appends the server commits leaves exactly the staged rows, in order, in the target table, and every other table as it was |
| Complaints.IncrementalStepStoresChunkDates | scripts/complaints_eda.py:62-66 | one incremental chunk whose append the server commits adds the rows with new dates, and afterwards every date of the chunk is stored |
| Complaints.IncrementalRunStoresAllDates | scripts/complaints_eda.py:54-67 | an incremental run whose appends the server commits succeeds, keeps the stored rows in front, and leaves every date of the staged table stored |
| Complaints.IncrementalRunNoNewDates | scripts/complaints_eda.py:62-66 | when every date is already stored, an incremental run writes nothing, whatever the server would commit |
| Complaints.IncrementalRunIdempotent | scripts/complaints_eda.py:54-67 | when the server commits appends, running the same incremental upload a second time changes nothing |
| Demographics.BuildAccessPath | scripts/demographics_eda.py:59-62 | the loop over the nested parts builds `AccessPath` of the field and the year |
| Demographics.AppendYearItems | scripts/demographics_eda.py:58-64 | the loop over the years appends one entry per year, in order |
| Demographics.BuildSelectClause | scripts/demographics_eda.py:50-66 | the nested loops build `SelectClause`: the id columns, then every field in every year |
| Demographics.SelectClauseLayout | scripts/demographics_eda.py:53-64 | the list holds `state` and `county` and then exactly `|fields| * |years|` entries, field-major: entry `2 + i * |years| + j` reads field `i` in year `j` |
| Demographics.AccessPathParts | scripts/demographics_eda.py:55-62 | the access path is every part of the field, then the year, each in double quotes and joined by `.`; the parts joined again give the field |
| Demographics.SelectAliasRoundTrip | scripts/demographics_eda.py:63-64 | each entry reads its path under an alias that step 3 splits back into the same field and year |
| Demographics.QueryData | scripts/demographics_eda.py:68-89 | it fails exactly when fields or years are empty; otherwise it is the engine's answer to the SELECT list, `None` when the query raised |
| Demographics.ValidateData | scripts/demographics_eda.py:91-106 | `None` and missing id columns are errors, an empty frame passes, and negative values only warn, once per data column that holds one |
| Demographics.NegativeColumnsMember | scripts/demographics_eda.py:103-106 | a column warns exactly when it is a data column holding a negative value |
| Demographics.Reshape | scripts/demographics_eda.py:121-151 | steps 1 to 6 on a checked frame; specified by `NothingToMeltExactly`, `EntriesFailOnYear` and the step lemmas below |
| Demographics.NothingToMeltExactly | scripts/demographics_eda.py:126-131 | on a frame with rows, step 3 raises exactly when no value column survives step 1: every other column mentions "census", or there are only `state` and `county` |
| Demographics.EntriesFailOnYear | scripts/demographics_eda.py:131-144 | converting the long table fails only on an alias whose year part is not an integer |
| Demographics.EdaSpec | scripts/demographics_eda.py:108-165 | what `eda_demo` returns or raises; `EdaDemo` computes it and `CleanedTable` states its success case |
| Demographics.EdaDemo | scripts/demographics_eda.py:108-165 | the steps and the imputation loop compute `EdaSpec`: the `None` error, the empty result, the id-column error, the error for a long table without rows; on success every year is in [2011, 2020) and no category cell is null |
| Demographics.CleanedTable | scripts/demographics_eda.py:143-162 | the table built from any entries has every year in the window and no null category cell |
| DemographicsFlatten.DropCensusColumns | scripts/demographics_eda.py:122-123 | no kept column mentions "census" |
| DemographicsFlatten.DropCensusMember | scripts/demographics_eda.py:122 | a column is kept exactly when it does not mention "census" |
| DemographicsFlatten.CensusInAnyCase | scripts/demographics_eda.py:122 | a column mentions "census" exactly when six consecutive characters spell it in some mix of cases |
| DemographicsFlatten.DropCensusKeepsOrder | scripts/demographics_eda.py:122-123 | the kept columns stay in their original order |
| DemographicsFlatten.Melt | scripts/demographics_eda.py:127 | `pd.melt` with `state` and `county` as identifiers; specified by `MeltColumnEntries`, `MeltConcat` and `MeltLength` |
| DemographicsFlatten.DataColumns | scripts/demographics_eda.py:127 | the stacked columns are all but `state` and `county` |
| DemographicsFlatten.MeltColumnEntries | scripts/demographics_eda.py:127 | each stacked column yields one long row per row, with that row's state, county and cell |
| DemographicsFlatten.MeltConcat | scripts/demographics_eda.py:127 | the columns are stacked in their order |
| DemographicsFlatten.MeltLength | scripts/demographics_eda.py:127 | the long table has `|columns| * |rows|` rows |
| DemographicsFlatten.SplitColumn | scripts/demographics_eda.py:131 | an alias without `.`, or whose year part is not an integer, is the error that names it |
| DemographicsFlatten.SplitAlias | scripts/demographics_eda.py:131 | splitting the alias `field.year` on its last `.` and converting the year gives back the field and the year |
| Text.IntStringRoundTrip | scripts/demographics_eda.py:144 | `int(str(n)) == n`, and `str(n)` holds no `.` |
| DemographicsFlatten.ToEntryOfAlias | scripts/demographics_eda.py:131-140 | the long row of an alias becomes the entry of the cleaned field in the alias's year, with its state, county and value |
| Seqs.AllOk | scripts/demographics_eda.py:144 | the conversion of the long table (`Entries`) succeeds exactly when every row converts, then row by row; otherwise it is the error of the first row that fails |
| DemographicsFlatten.StripPopulation | scripts/demographics_eda.py:140 | the first `re.sub` of step 4; its length bound and `StripPopulationUnchanged`, `StripPopulationMissingLetter`, `CleanPrefixedCategory` and `CleanAgeCategory` specify it |
| DemographicsFlatten.StripBy | scripts/demographics_eda.py:140 | the second `re.sub` of step 4; its length bound and `StripByUnchanged`, `StripByMissingLetter`, `CleanPrefixedCategory` and `CleanAgeCategory` specify it |
| DemographicsFlatten.CleanCategory | scripts/demographics_eda.py:136-140 | the rename followed by both replacements; specified by `CleanLegacyCategory`, `CleanAgeCategory` and `CleanPrefixedCategory` |
| DemographicsFlatten.CleanLegacyCategory | scripts/demographics_eda.py:136-140 | the two unemployment categories are renamed and then stripped back to their original names |
| DemographicsFlatten.CleanAgeCategory | scripts/demographics_eda.py:140 | `population_by_age.total.18_over` becomes `age.total.18_over` |
| DemographicsFlatten.CleanPrefixedCategory | scripts/demographics_eda.py:140 | a category `population?by_rest` becomes `rest`, the `.` of the regex matching any character but a newline |
| DemographicsFlatten.StripPopulationUnchanged | scripts/demographics_eda.py:140 | the first replacement leaves a category unchanged exactly when `population.` (with `.` any character but a newline) matches at no position of it |
| DemographicsFlatten.StripByUnchanged | scripts/demographics_eda.py:140 | the second replacement leaves a category unchanged exactly when `by_` occurs at no position of it |
| DemographicsFlatten.StripPopulationMissingLetter | scripts/demographics_eda.py:140 | a string missing a letter of `population.` passes the first replacement unchanged |
| DemographicsFlatten.StripByMissingLetter | scripts/demographics_eda.py:140 | a string missing a letter of `by_` passes the second replacement unchanged |
| DemographicsFlatten.FilterYears | scripts/demographics_eda.py:145 | every kept entry has its year in [2011, 2020) |
| DemographicsFlatten.FilterYearsMember | scripts/demographics_eda.py:145 | an entry is kept exactly when its year is in the window |
| DemographicsFlatten.SortEntries | scripts/demographics_eda.py:146 | the sort by (state, county, year) is a permutation; `SortEntriesSorted`, `KeyLeIsOrder`, `Seqs.SortByStable` and `SortKeepsFirstValue` state the rest |
| DemographicsFlatten.SortEntriesSorted | scripts/demographics_eda.py:146 | the long table comes out ordered by (state, county, year) and is a permutation of the input |
| DemographicsFlatten.KeyLeIsOrder | scripts/demographics_eda.py:146 | the (state, county, year) order is total, transitive and antisymmetric |
| Seqs.SortByStable | scripts/demographics_eda.py:146 | the sort keeps the relative order of every group of entries |
| DemographicsFlatten.SortKeepsFirstValue | scripts/demographics_eda.py:146-150 | sorting leaves the first value of every (key, category) group as it was |
| DemographicsFlatten.FirstValue | scripts/demographics_eda.py:150 | `aggfunc='first'` on one group; specified by `FirstValueSpec` |
| DemographicsFlatten.FirstValueSpec | scripts/demographics_eda.py:150 | `first` is null exactly when no entry of the group holds a value, and otherwise it is the value of the earliest entry that holds one |
| DemographicsFlatten.Pivot | scripts/demographics_eda.py:150-151 | `pivot_table` followed by `reset_index`; specified by the four `Pivot…` lemmas below |
| DemographicsFlatten.PivotRowsExactly | scripts/demographics_eda.py:150-151 | the pivot has a row for a key exactly when some entry of that key holds a value |
| DemographicsFlatten.PivotCategoriesExactly | scripts/demographics_eda.py:150 | the pivot has a column for a category exactly when some entry of that category holds a value |
| DemographicsFlatten.PivotUniqueKeys | scripts/demographics_eda.py:150-151 | the rows are strictly increasing by key, so each key has one row; the columns are sorted and distinct; every row has a cell for each column |
| DemographicsFlatten.PivotFirstValue | scripts/demographics_eda.py:146-150 | every cell of the pivot holds the first value its group shows in the unsorted long table |
| DemographicsFlatten.PivotYearsInRange | scripts/demographics_eda.py:145-151 | when every entry's year lies in the window, so does every row's |
| DemographicsFlatten.Median | scripts/demographics_eda.py:157 | the middle of the sorted values, truncated; specified by `MedianBounds` and `MedianSingleton` |
| DemographicsFlatten.MedianBounds | scripts/demographics_eda.py:157 | the truncated median lies between the smallest and the largest value |
| DemographicsFlatten.MedianSingleton | scripts/demographics_eda.py:157 | a single value is its own median |
| DemographicsFlatten.FillValueOfCounty | scripts/demographics_eda.py:157 | the fill value is 0 for a county without values in the column, and otherwise the median of them |
| DemographicsFlatten.FillColumn | scripts/demographics_eda.py:156-158 | one pass of the imputation loop; specified by `FillColumnCells` and `FillColumnKeepsOthers` |
| DemographicsFlatten.FillColumnCells | scripts/demographics_eda.py:157-158 | one pass fills exactly the nulls of its column from the county's values and keeps every other cell |
| DemographicsFlatten.FillColumnKeepsOthers | scripts/demographics_eda.py:156-158 | filling one column changes no county value of another column |
| DemographicsFlatten.Impute | scripts/demographics_eda.py:155-159 | the whole imputation loop; specified by `ImputeCells` and `ImputeIdempotent` |
| DemographicsFlatten.ImputeCells | scripts/demographics_eda.py:155-159 | the imputation keeps every value, fills every null from the original column of its county, and leaves no null in a category column |
| DemographicsFlatten.ImputeIdempotent | scripts/demographics_eda.py:155-159 | a second imputation changes nothing |
| DemographicsFlatten.DropCounty | scripts/demographics_eda.py:162 | the county column is gone and every other column of every row is kept |
| Demographics.IncrementalFilter | scripts/demographics_eda.py:182 | no kept row has a stored (state, year) pair |
| Demographics.IncrementalFilterMember | scripts/demographics_eda.py:182 | a row is kept exactly when its (state, year) pair is not stored |
| Demographics.IncrementalFilterConcat | scripts/demographics_eda.py:182 | the filter keeps the rows in order |
| Demographics.IncrementalFilterNothingStored | scripts/demographics_eda.py:182 | with nothing stored every row is kept |
| Demographics.IncrementalFilterAgain | scripts/demographics_eda.py:182 | once the kept rows are stored, filtering the same rows again keeps nothing |
| Demographics.WriteModeFor | scripts/demographics_eda.py:186 | an incremental run appends, otherwise the table is replaced |
| Demographics.UploadCleaned | scripts/demographics_eda.py:178-192 | a failed read of the stored pairs propagates with nothing written; otherwise the rows not stored yet go to `to_sql`, and the tables are those `Uploaded` gives for the server's reachability and the writes it commits |
| Demographics.UploadToPostgres | scripts/demographics_eda.py:167-192 | query and reshaping errors propagate and an empty result writes nothing, both with the store unchanged; otherwise `UploadCleaned` writes the cleaned rows |
| Demographics.Uploaded | scripts/demographics_eda.py:179-186 | the tables after the `try` block once the stored pairs are read; specified by the three lemmas below |
| Demographics.UploadedReplaces | scripts/demographics_eda.py:186 | a full upload whose `replace` the server commits leaves exactly the cleaned rows, a refused one changes nothing, and every other table stays as it was |
| Demographics.UploadedIncrementalStoresAll | scripts/demographics_eda.py:179-186 | an incremental upload whose append the server commits keeps the stored rows in front and leaves every (state, year) pair of the cleaned rows stored |
| Demographics.UploadedIncrementalIdempotent | scripts/demographics_eda.py:179-186 | a second identical incremental upload changes nothing, whatever the server commits |

## Left out

- I/O is not modelled: DuckDB, parquet, the CSV reader, JSON, logging, and the connection pool settings (`pool_size`, `max_overflow`, `pool_timeout`). The engine, the CSV contents and the server are parameters or state.
- `convert_json_to_parquet`, the DAG and the entry script are not modelled: they only move files.
- `ComplaintsEDA` and `Demographics` inherit from `PostgreSQLManager`. Here they hold or receive a `PostgresManager` instead, and `__init__` of the subclasses is not modelled.
- A failed `to_sql` rolls back inside its transaction, so it leaves the store as it was. Whether the server commits a write is a function of the stored tables and the write. A transient failure, where the same write on the same store succeeds once and fails once, is therefore not distinguished.
- Reachability is fixed for a whole run: either every read and write reaches the server or none does. A connection that drops between two windows is modelled only as writes the server refuses, not as a read that fails.
- Values are integers or nulls. Float dtypes, NaN arithmetic and the float steps of the median are left out. Values are exact except for the truncation `astype('int64')` applies. Numeric columns are taken to be the data columns.
- DemographicsFlatten.Median: the median is taken over integers. Python's float median of very large integers may round differently.
- Dates in the complaints table are day numbers. `pd.to_datetime` and the `::DATE` cast are abstracted: a `Text` value in the date column is one that no parser accepts.
- Python's `int()` also accepts surrounding whitespace, `+` and `_`. `Text.ParseInt` accepts only an optional `-` followed by digits. Aliases built from integer years never contain the other forms.
- `str.lower()` is modelled on ASCII letters only.
- Complaints.ComplaintsEda.CleanData: column names are matched by exact case. DuckDB resolves identifiers, quoted ones included, without regard to case. So a staging table whose header reads `tags` or `zip code` is cleaned by the source but fails here with `NoSuchColumn`. `Without` and `DropCells` compare names exactly in the same way.
- Postgres.PostgresManager.ReadTable: stored tables have no schema. In the source, `SELECT DISTINCT "Date received"` (complaints) or `SELECT DISTINCT state, year` (demographics) on an existing target table that lacks those columns raises `ProgrammingError`. Here such a read succeeds once the table exists, and a missing cell reads as null.
- Postgres.PostgresManager.constructor: `create_engine` parses the URI and converts the port to an integer. A port that is not an integer, or a host holding `:`, makes it raise an error that is not an `OperationalError`, so `__init__` raises. The model takes any host and port and always stores the URI.
- Passwords are well-formed Unicode: a Dafny `char` cannot be a lone surrogate. A password decoded with `surrogateescape` makes `quote` raise `UnicodeEncodeError`. That is not an `OperationalError`, so it escapes `connect()` and `__init__`.
- `quote` keeps `/` in the password. Section 3.2 of RFC 3986 ends the authority at the first `/`, so a strict RFC 3986 reader would cut such a password short. The model reads the URI as SQLAlchemy's URL pattern does, where the password runs to the first `@`.
- DuckDB's `rowid` order is taken as the order of `SELECT ... LIMIT ... OFFSET`. That query has no `ORDER BY`.
- `pivot_table` is modelled with its defaults: sorted group keys, `first` meaning the first non-null value, and all-null rows and columns dropped.
- The sort on several keys is stable, as pandas' multi-key sort is.
- Strings are compared by code point, as Python compares them.
- Every row carries a state and a county. Only the column list records whether the frame has those columns.

Behaviour of the code that the model keeps as written:

- A failed read of the stored keys is not caught. `upload_to_postgres` raises in both pipelines, so an incremental first run, before the target table exists, fails. The model returns `Err(FetchFailed)` and keeps what earlier chunks wrote.
- The complaints incremental filter compares the date alone, not the product or the state. `KeepNewDatesMember` states this.
- Step 7 groups by county name alone, as written. Two counties of the same name in different states share a median.

# Punctuality star-schema loader, modelled in Dafny

Two Python scripts, `data.py` and its successor `data_new.py`, turn monthly UK
airport punctuality files into a star schema. Each script:

- keeps five dimension masters in memory: date, airport, airline, route and
  flight type;
- loops over the punctuality files. Each file is backfilled, filtered, normalised
  and date-stamped. Its natural keys are resolved against the masters by
  `assign_ids`, which hands out dense surrogate ids incrementally. The fact
  columns are then projected;
- catches any exception a file raises and moves on to the next file.

The newer script also collects the fact tables and concatenates them. It then
fuzzy-matches every airport name against a cleaned list of reference airports,
and writes a three-character IATA code when the best score is above 80.

The model has these modules, one file each:

| module | file | what it holds |
|---|---|---|
| `Frames` | frames.dfy | Data frames: ordered columns and rows of cells, null included. The exceptions a file can raise. |
| `Text` | text.dfy | Python's `str.strip().upper()`. |
| `Registry` | registry.dfy | `assign_ids`. It takes the distinct batch keys in first-seen order and drops the ones the master knows. It numbers the rest on from `len(master) + 1`, appends them, and left-joins the batch to the grown master. The join is a real flat-map over matching entries, so "one output row per input row" is proved, not assumed. |
| `Extract` | extract.dfy | The per-file preparation. Optional columns are backfilled with defaults. Rows lacking an airport or an airline are dropped. The five key text columns are normalised and the period date is derived. Metric columns are zero-filled, and the fact columns are projected. |
| `Iata` | iata.dfy | The reference-list clean-up. Python's `max`-style best match over an abstract scorer, the 80 threshold, and the lookup of the matched name's code. |
| `Pipeline` | pipeline.dfy | The specification of one file (`FileStep`) and of a run over many (`Run`). A `Pipeline` class holds the script's mutable state: five masters, the airport `iata_code` column and the collected fact tables. Its methods are the per-file `try` body, the file loop and the in-place airport-code loop, each proved against those specifications. |
| `Runs` | runs.dfy | Laws of runs: the masters stay registries and only grow, a failing call undoes nothing, and reprocessing a file changes nothing. The collected tables are exactly the successes, in order. |
| `Scripts` | scripts.dfy | The two scripts end to end. |

## Modelling choices

Where the scripts lean on pandas, the model takes pandas' behaviour:

- **Null keys.** pandas' `merge` and `isin` match a null with a null, and
  nothing in the scripts checks a key for null. So `Null` is an ordinary key
  value, and a null key component gets an id like any other.
- **Reference names.** The filter at `data_new.py:24` tests only `iata_code`,
  so a reference row with a null `name` survives it (see Findings).
- **Which airports the pass visits.** The pass at `data_new.py:129` visits every
  airport in the master, not only those without a code. Every code is still
  null at that point, since nothing before the pass writes one.
- **The merge on the airport master.** The newer script's airport master carries
  `iata_code`, so the merge also copies that column into the batch. The
  projection drops it again.
- **Non-text airport names.** `.str.strip()` turns a non-string cell into
  `NaN`, so a numeric `reporting_airport` reaches the master as a null key.
  fuzzywuzzy's `extractOne` cleans its query before scoring, and on a
  non-string query with a non-empty choice list that raises a `TypeError`,
  which nothing at `data_new.py:130` catches.
- **Float period columns.** `read_csv` reads a numeric `reporting_period` with
  a gap as float, and `dropna` at `data_new.py:74` keeps that dtype. Then
  `astype(str) + '01'` gives `"202301.001"`, which `%Y%m%d` refuses, and the
  `except` at line 121 skips the file.

## Model

| member | source | states |
|---|---|---|
| `Frames.FirstMissing` | data_new.py:97-114 | The column a `KeyError` reports is one of the requested columns, and the frame lacks it. |
| `Frames.SetColumn` | data_new.py:71 | `df[col] = values` overwrites the column where it is, or appends it as the last column. Every row keeps its other cells and takes the new value. |
| `Text.UpperChar` | data_new.py:77-81 | A lower-case letter becomes its capital, whose code is 32 lower. Every other character is unchanged, so no lower-case letter is left and whitespace stays whitespace. |
| `Text.Upper` | data_new.py:77-81 | Upper-casing keeps the length and maps every character through `UpperChar`. |
| `Text.Strip` | data_new.py:77-81 | `strip()` leaves no whitespace at either end of the text. |
| `Text.StripKeepsMiddle` | data_new.py:77-81 | `strip()` removes only surrounding whitespace: the text is some whitespace, then the stripped text, then some whitespace. |
| `Text.TrimStartSplit` | data_new.py:77-81 | Stripping on the left removes a whitespace prefix and keeps the rest. |
| `Text.TrimEndSplit` | data_new.py:77-81 | Stripping on the right removes a whitespace suffix and keeps the rest. |
| `Text.Normalize` | data_new.py:77-81 | `strip().upper()` gives a normal key: no leading or trailing whitespace and no lower-case letter. |
| `Text.NormalIsFixpoint` | data_new.py:77-81 | Normalisation leaves a text that is already trimmed and upper-case unchanged. |
| `Text.NormalizeIdempotent` | data_new.py:77-81 | Normalising twice gives the same text as normalising once. |
| `Text.StripPadding` | data_new.py:77-81 | Whitespace added around a text does not survive `strip()`. |
| `Text.PaddingAndCaseIgnored` | data_new.py:77-81 | Two texts that differ only in letter case and in surrounding whitespace normalise to the same key. |
| `Text.PaddedLowerCaseExample` | data_new.py:77 | `" lhr "` and `"LHR"` both normalise to `"LHR"`. |
| `Registry.KeyOf` | data_new.py:40 | A row's key has one value per key column, in key-column order. |
| `Registry.BatchKeys` | data_new.py:40 | `df[key_cols]` gives one key per batch row, in row order. |
| `Registry.Dedup` | data_new.py:40 | `drop_duplicates()` has no key twice and holds exactly the batch's keys. |
| `Registry.Unseen` | data_new.py:41 | The `~isin(master)` filter keeps exactly the keys the master does not know, and keeps distinct keys distinct. |
| `Registry.Rename` | data_new.py:44 | Suffixing a column changes the column set only in that name. |
| `Registry.Join` | data_new.py:44 | The merge raises exactly when the batch already has the id column together with its `_x` name, the one label the suffixes can duplicate. The error names the id column. |
| `Registry.AssignIds` | data_new.py:39-45 | The call succeeds exactly when the batch has every key column and does not hold both the id column and its `_x` name. A missing key column raises a `KeyError` for the first one missing. |
| `Registry.JoinOverBatchIdY` | data_new.py:39-45 | A batch with the id column and its `_y` name, but no `_x` name, is joined: the master grows, no column keeps the id name, and the `_y` name holds the master's id. |
| `Registry.Numbered` | data_new.py:42-43 | The old master is kept as a prefix. The new keys follow in their order, and the entry at position i gets id i + 1, so the numbering runs on from `len(master) + 1`. |
| `Registry.Register` | data_new.py:40-43 | Registering a batch only appends: the old master is a prefix of the new one. |
| `Registry.NumberedShape` | data_new.py:42-43 | Appending distinct, unseen keys numbered on from `len(master) + 1` keeps the master dense and unique by key. It adds exactly those keys. |
| `Registry.RegisterKeepsRegistry` | data_new.py:40-43 | After the new keys are appended, the master is still dense, unique by key and of key width. It knows exactly its old keys plus the batch's. |
| `Registry.AssignIdsKeepsRegistry` | data_new.py:39-45 | After a call the master is still dense (the entry at position i has id i + 1), has no key twice, and every key has one value per key column. |
| `Registry.AssignIdsKeepsPrefix` | data_new.py:43 | The old master is kept unchanged as a prefix of the new one, so no id is renumbered. |
| `Registry.AssignIdsKeySet` | data.py:33-36 | After a call the master's key set is the old key set plus the batch's distinct keys. |
| `Registry.RegisterNewIds` | data_new.py:40-42 | The appended entries have ids `len(master) + 1 .. len(master) + k`, where k counts the distinct batch keys the master did not know. Each appended key is one of those. |
| `Registry.AssignIdsNewIds` | data_new.py:40-42 | For a successful call, the new ids are exactly `len(master) + 1 .. len(master) + k` for the k distinct unseen batch keys. |
| `Registry.DedupFirstSeen` | data_new.py:40 | `drop_duplicates()` keeps every key where it first occurs in the batch, in that order. |
| `Registry.UnseenFirstSeen` | data_new.py:41 | The unseen-key filter keeps the first-seen order. |
| `Registry.RegisterFirstSeenOrder` | data_new.py:40-43 | The appended keys come from the batch, in the order they first occur in it. |
| `Registry.AssignIdsFirstSeenOrder` | data_new.py:40-42 | New ids are handed out in the order their keys first occur in the batch. |
| `Registry.AssignIdsIdempotent` | data.py:33-36 | Resolving the same batch again against the returned master adds nothing. It returns the same joined batch and the same master. |
| `Registry.UniqueMatch` | data_new.py:44 | In a master unique by key, an entry's key matches that entry alone. |
| `Registry.NoMatch` | data_new.py:44 | A key no entry has matches nothing, so the left join attaches a null id. |
| `Registry.Position` | data_new.py:44 | The position of the first master entry with a known key: it has the key, and no earlier entry has it. |
| `Registry.JoinRowKnown` | data_new.py:44 | A row whose key the unique master knows joins to exactly one row, carrying that entry's id. |
| `Registry.JoinRows` | data_new.py:44 | A left join drops no batch row: there are at least as many joined rows as batch rows. |
| `Registry.JoinRowsUnique` | data_new.py:44 | When the master knows every row's key, joining the rows gives one row per input row, in place. |
| `Registry.JoinAllKnown` | data_new.py:44 | Against a unique master that knows every batch key, the left join keeps the row count and order. Every row carries the id of the master entry with its key. |
| `Registry.RegisterJoin` | data_new.py:40-44 | After registration the join keeps the batch's row count and order. Every row's key is known, and every row carries the id of the master entry with that key. |
| `Registry.JoinedDense` | data_new.py:42-44 | In a dense master, the id a row is joined to is its key's position plus one. |
| `Registry.AttachedId` | data_new.py:44 | The master's id lands under the id column name, or under its `_y` name when the batch already had that column. |
| `Registry.JoinSameKeySameId` | data_new.py:44 | Against a dense, unique master that knows the batch, two joined rows have equal ids exactly when their keys are equal. |
| `Registry.AssignIdsSameKeySameId` | data_new.py:39-45 | After a call, two batch rows get equal ids exactly when their keys are equal. |
| `Registry.AssignIdsKeepsCell` | data_new.py:44 | A successful call keeps the row count and every column other than the id column and its `_x`/`_y` names, with each row's value. |
| `Registry.AssignIdsIdColumn` | data_new.py:44 | After a call the frame has the id column exactly when the batch did not have one already; otherwise the merge renamed both. |
| `Registry.DenseIds` | data.py:35-36 | A dense master's ids are exactly 1 .. n, with no gap and no repeat. |
| `Extract.AddDefaults` | data_new.py:69-71 | The backfill loop up to any point keeps the row count and the file's columns in place, and every optional column seen so far is present. |
| `Extract.Backfilled` | data_new.py:63-71 | After the backfill every optional column is present, and the file's rows and columns are kept, columns in place. |
| `Extract.BackfillOptional` | data_new.py:63-71 | The backfill loop produces exactly the frame `Backfilled` specifies. `BackfilledFacts` states what that frame is. |
| `Extract.AddDefaultFacts` | data_new.py:70-71 | One step appends the column only when it is absent, leaves every existing cell alone, and fills the new column with the default. |
| `Extract.AddDefaultsColumns` | data.py:60-62 | The existing columns stay a prefix, and the only columns added are optional ones. |
| `Extract.AddDefaultsKeeps` | data.py:60-62 | The backfill never overwrites a cell the file has. |
| `Extract.AddDefaultsFills` | data.py:60-62 | Every optional column the file lacks holds its default in every row. |
| `Extract.AddDefaultsFacts` | data.py:60-62 | The step-by-step backfill has all the optional columns. It keeps the existing columns in place with their values, and puts defaults in the absent ones. |
| `Extract.BackfilledFacts` | data.py:54-62 | After the backfill over the four optional columns, all four are present. The original columns keep their place and values, and every absent optional column holds its default (0, 0, 0, null). |
| `Extract.AddDefaultsPresent` | data.py:60-62 | A file that already has the columns is left untouched. |
| `Extract.BackfillIdempotent` | data.py:54-62 | A file that has every optional column passes the backfill unchanged, and a second backfill changes nothing. |
| `Extract.KeepComplete` | data_new.py:74 | A row is kept exactly when it is a batch row with a non-null airport and a non-null airline. No rows are added. |
| `Extract.KeepCompleteAppend` | data_new.py:74 | The drop goes row by row and keeps the rows' order. |
| `Extract.DropIncomplete` | data_new.py:74 | The drop raises a `KeyError` when the airport or airline column is missing. Otherwise it keeps the columns and exactly the complete rows. |
| `Extract.NormalizeCell` | data_new.py:77-81 | Text is stripped and upper-cased, and a non-text cell becomes null. The result is null or normal text. |
| `Extract.NormalizeColumn` | data_new.py:77 | One clean-up statement raises when its column is missing. Otherwise it rewrites that column's cells only. |
| `Extract.NormalizeColumns` | data_new.py:77-81 | The clean-up statements raise only a `KeyError`. When they succeed they keep the columns and the row count. |
| `Extract.NormalizeColumnsShape` | data_new.py:77-81 | The five clean-up statements raise on the first missing key column. Otherwise they keep the columns and the row count. |
| `Extract.NormalizeColumnsCells` | data_new.py:77-81 | After the clean-up, every key cell is its cleaned original and every other cell is untouched. |
| `Extract.NormalizeColumnIdempotent` | data_new.py:77 | Cleaning a column a second time changes nothing. |
| `Extract.SameKeyAfterCleaning` | data_new.py:77-81 | Two key cells whose text differs only in letter case and surrounding whitespace are equal after cleaning. `Runs.SettleSameKeySameId` carries this on to the ids. |
| `Extract.PeriodNumber` | data_new.py:84 | An integer period parses exactly when it has six digits, and its number is then the integer itself. Null and date cells never parse. |
| `Extract.PeriodDate` | data_new.py:84 | A period converts exactly when it is YYYYMM with month 1..12 and lies within the Timestamp range. The date is day 1 of year YYYYMM / 100 and month YYYYMM % 100. |
| `Extract.DecimalRoundTrip` | data_new.py:84 | Reading back the `w` decimal digits written for a number below 10^w gives that number. |
| `Extract.PeriodDateViaText` | data_new.py:84 | For a six-digit integer period n, `str(n) + '01'` is eight digits. Read as `%Y%m%d`, they give year n / 100, month n % 100 and day 1. The date is that day when the month is 1..12 and n lies within the Timestamp range, and the conversion fails otherwise. Converting the text `str(n)` gives the same as converting n. |
| `Extract.PeriodTextExample` | data_new.py:84 | `"202301"` and `202301` both give 2023-01-01. `202313`, `2023` and null are refused. |
| `Extract.FirstBadPeriod` | data_new.py:84 | This is the first row whose period does not convert; every row before it converts. |
| `Extract.WithPeriodDate` | data_new.py:84 | The conversion succeeds exactly when the period column exists and every period converts. Then `period_date` holds each row's date. |
| `Extract.WithPeriodDateError` | data_new.py:84 | A failed conversion reports the first unparsable period, so that file fails. |
| `Extract.IsMetric` | data_new.py:87 | A column is a metric column exactly when `percent` or `delay` occurs at some position of its name. |
| `Extract.HasInfix` | data_new.py:87 | Python's `t in s`: t occurs at some position of s. |
| `Extract.ZeroFillRow` | data_new.py:87-88 | A null metric cell becomes 0. Every other cell, and every non-null metric, is unchanged. |
| `Extract.ZeroFilled` | data_new.py:88 | The fill keeps columns and row count and fills row by row. |
| `Extract.ZeroFilledFacts` | data.py:79-80 | After the fill no metric cell is null, and a second fill changes nothing. |
| `Extract.MetricColumnsExample` | data_new.py:87 | `flights_unmatched_percent`, `average_delay_mins` and `previous_year_month_average_delay` are metric columns. |
| `Extract.NonMetricColumnsExample` | data_new.py:87 | `number_flights_matched` and `reporting_airport` are not metric columns, so the fill leaves them alone. |
| `Extract.Project` | data_new.py:97-114 | The projection succeeds exactly when every fact column is present. Otherwise it raises a `KeyError` for the first one missing. The result has exactly the fact columns, in order, with the batch's cells. |
| `Extract.CleanBatch` | data_new.py:73-88 | The steps after the backfill raise only a `KeyError` or a period conversion error. When they succeed, the only column they add is `period_date`. |
| `Extract.FloatPeriodDate` | data_new.py:84 | On a period column read as float, the conversion raises at the first row. An empty frame converts. |
| `Extract.FloatPeriodFailsFile` | data_new.py:59-84 | A file whose period column holds numbers with a gap fails at the date conversion once its key columns exist and a row survives the drop. |
| `Extract.Prepare` | data_new.py:63-88 | Preparing a file raises only a `KeyError` or a period conversion error. A prepared batch keeps every column of the file and has every optional column. |
| `Iata.CleanRow` | data_new.py:25 | Cleaning a row with a usable code gives a clean reference row. |
| `Iata.CleanReference` | data_new.py:24-25 | Every row kept has a usable three-character code and a null or normalised name. With the strict filter, the name is never null. |
| `Iata.CleanReferenceAppend` | data_new.py:24-25 | The clean-up goes row by row and keeps the reference order. |
| `Iata.CleanReferenceMembers` | data_new.py:24-25 | The cleaned list holds exactly the cleaned forms of the rows the filter keeps. |
| `Iata.FilterReference` | data_new.py:23-25 | The clean-up as written: every row kept has a usable code and a null or normalised name. |
| `Iata.FilterReferenceStrict` | data_new.py:23-25 | The intended clean-up: every row kept also has a name. |
| `Iata.BestIndex` | data_new.py:130 | The chosen reference has the highest score, and no earlier reference scores as high (ties go to the first). |
| `Iata.ExtractOne` | data_new.py:130 | `extractOne` returns None exactly for an empty list. On a non-empty list a query that is not a string raises a `TypeError`. Otherwise it returns a reference's name with its score, and no name scores higher. |
| `Iata.FirstNamed` | data_new.py:133 | This is the first reference row whose name equals the match; no earlier row's name does. |
| `Iata.CodeOf` | data_new.py:133 | The lookup gives the first matching row's code. When no row's name equals the match, `.values[0]` raises. |
| `Iata.MatchCode` | data_new.py:130-134 | No reference keeps the code. Otherwise an airport name that is not a string raises a `TypeError`. For a string, a best score of at most 80 keeps the code. Above 80 the pass writes the code of the first row named like the match, and raises when the match has no name. |
| `Iata.NonTextAirportRaises` | data_new.py:130 | A null airport name raises against a non-empty reference list, and keeps its code against an empty one. |
| `Iata.MatchCodeNamedFailsOnlyOnNonText` | data_new.py:129-134 | Against a cleaned, named reference list the iteration raises exactly when the list is non-empty and the airport name is not a string. Any code it writes is a three-character code of some reference row. |
| `Iata.FirstOfSameNameWins` | data_new.py:133 | Among rows with the same name, the first row's code is written. |
| `Iata.NamelessReferenceBreaksLookup` | data_new.py:24-25 | The as-written filter keeps a row with a null name. When that row is the best match above 80, the lookup raises. The strict filter drops the row, and the airport keeps its code. |
| `Pipeline.KeyColumns` | data_new.py:91-95 | Every dimension has at least one key column. |
| `Pipeline.KeysAreCleaned` | data_new.py:77-95 | Every key column is one of the five cleaned text columns, or the reporting period or the date derived from it. |
| `Pipeline.IdColumn` | data_new.py:91-95 | No id column is one of its dimension's key columns. |
| `Pipeline.Masters.With` | data_new.py:91-95 | Rebinding one master leaves the other four as they were. |
| `Pipeline.ResolveStep` | data_new.py:91-95 | One `assign_ids` call raises only a `KeyError` or a suffix clash. |
| `Pipeline.ResolveDims` | data_new.py:91-95 | The five calls of a file, each on the batch and masters the previous one returned, raise only a `KeyError` or a suffix clash. |
| `Pipeline.Load` | data_new.py:58-88 | The outcome is "unreadable" exactly when the file cannot be read. |
| `Pipeline.Settle` | data_new.py:91-116 | An earlier error passes through with the masters untouched. A fact table has exactly the fact columns. A resolution or projection error is a `KeyError` or a suffix clash. |
| `Pipeline.FileStep` | data_new.py:53-116 | One file's outcome is "unreadable" exactly when the file cannot be read, and then the masters are untouched. A fact table the file gives has exactly the fact columns. |
| `Pipeline.Run` | data_new.py:52-122 | A run gives one outcome per file, each file being processed against the masters the earlier files left. |
| `Pipeline.Successes` | data_new.py:116 | There are never more collected tables than files. |
| `Pipeline.Concat` | data_new.py:124 | Concatenating no tables raises. Otherwise the result has the fact columns and every table's rows, table after table. |
| `Pipeline.StepFacts` | data_new.py:91-95 | One successful call keeps every master a registry. It only appends to the master it rebinds. |
| `Pipeline.AirportKey` | data_new.py:130 | In healthy masters, each airport entry's key is exactly its `reporting_airport` name. |
| `Pipeline.CodeAfter` | data_new.py:129-134 | One iteration raises exactly when the match raises. Otherwise it leaves the old code or writes the matched one. |
| `Pipeline.CodeAfterNamed` | data_new.py:129-134 | With the intended clean-up the iteration succeeds exactly when the reference list is empty or the airport name is a string. The code it leaves is the old one or a three-character code of some reference row. |
| `Pipeline.Pipeline.constructor` | data_new.py:30-34 | The scripts start with empty masters, no codes and no fact tables. |
| `Pipeline.Pipeline.AssignStep` | data_new.py:91-95 | `df, master = assign_ids(...)` for one dimension rebinds exactly that master, or leaves every master as it was when the call raises. A new airport starts with a null code, and the masters stay registries. |
| `Pipeline.Pipeline.ResolveAll` | data_new.py:91-95 | The five calls in order, ending at the first that raises. The masters keep what the earlier calls added. |
| `Pipeline.Pipeline.ProcessFile` | data_new.py:53-122 | One pass of the `try` body is one more step of the run. Its fact table is appended exactly when it succeeds, and an exception only becomes the file's outcome. |
| `Pipeline.Pipeline.MatchIataCodes` | data_new.py:129-134 | The in-place pass changes only `iata_code`, writing each airport the code its iteration computes. It stops at the first airport whose lookup raises, with the airports before it updated and the rest untouched. |
| `Pipeline.Pipeline.ProcessAll` | data_new.py:52-122 | The file loop gives every file's outcome, in order, against the masters the earlier files left. It appends the fact tables of exactly the files that succeeded, in that order. |
| `Pipeline.Pipeline.SettleBatch` | data_new.py:91-116 | A prepared batch is resolved and projected, and its fact table is appended exactly when both succeed. An earlier error passes through unchanged. |
| `Pipeline.Pipeline.AppendFact` | data_new.py:97-116 | The projection's table is appended when it succeeds. The masters and codes are untouched. |
| `Pipeline.LoadFile` | data_new.py:58-88 | Reading and preparing a file gives the outcome `Load` specifies: unreadable, a preparation error, or the prepared batch. |
| `Runs.EmptyHealthy` | data_new.py:30-34 | The empty masters are registries. |
| `Runs.ResolveDimsOthers` | data_new.py:91-95 | A dimension that is not among the calls keeps its master. |
| `Runs.ResolveDimsHealthy` | data_new.py:91-95 | The calls of one file keep every master a registry and only ever append to it, whether or not a call raises. |
| `Runs.NoRollback` | data.py:83-87 | A later call that raises does not undo an earlier one. The first dimension's master keeps what its call added, whatever the later calls do. |
| `Runs.ResolveKeepsCell` | data_new.py:91-95 | A column none of the calls writes keeps its place and each row's value through all the calls. |
| `Runs.ResolveClashedId` | data_new.py:91-95 | When the batch already has a dimension's id column, the merge renames it, and no later call brings it back. |
| `Runs.ResolveSameKeySameId` | data_new.py:91-95 | After the calls of a file, two batch rows carry the same id of a dimension exactly when they have the same key for it. |
| `Runs.SettleSameKeySameId` | data_new.py:74-116 | In a file's fact table, two rows of the prepared batch carry the same id of a dimension exactly when their cleaned keys are equal, for each of the five dimensions. |
| `Runs.ResolveDimsIdempotent` | data.py:83-87 | Resolving a batch again against the masters its first resolution left gives the same masters and the same outcome. |
| `Runs.FileStepFacts` | data_new.py:53-116 | One file keeps the masters registries and only appends to them. A fact table it produces has exactly the fact columns. |
| `Runs.SettleIdempotent` | data.py:83-107 | Settling a prepared batch twice gives the same masters and the same outcome as settling it once. |
| `Runs.FileStepIdempotent` | data.py:44-113 | Processing the same file a second time adds no master entry. It gives the same fact table or the same exception. |
| `Runs.RunFacts` | data_new.py:52-122 | A run from healthy masters keeps them registries and only appends to them. Every fact table it produces has the fact columns. |
| `Runs.RunAppend` | data_new.py:52-122 | Running two lists of files one after the other is the same as running their concatenation. |
| `Runs.RunDenseIds` | data.py:23-87 | From empty masters, after any sequence of files, every master's ids are exactly 1 .. n. |
| `Runs.SuccessesAppend` | data_new.py:116 | The collected tables of two runs of outcomes are those of the first, then those of the second. |
| `Runs.SuccessesMembers` | data_new.py:116 | The collected tables are exactly the successful outcomes. |
| `Runs.RunSuccessColumns` | data_new.py:97-124 | Every collected table has the fact columns, so the final concatenation is over equal columns. |
| `Scripts.RunNew` | data_new.py:23-134 | The newer script collects the fact tables of exactly the files that succeed, in order, and concatenates them. When no file succeeds, the concatenation raises and every airport's code stays null. Otherwise the pass runs from null codes. If it raises at an airport, the airports before it carry their computed codes and the rest stay null. If it does not raise, every airport carries its computed code. With the strict clean-up it raises exactly when the reference list is non-empty and some airport name is not a string, and then at the first such airport. |
| `Scripts.RunLegacy` | data.py:23-113 | The older script threads the masters through every file from empty masters. It ends with masters that are registries. |

## Left out

- Reading the files: CSV parsing, the UTF-8 then ISO-8859-1 fallback, globbing the folder, `month_tag`, `to_csv` and the progress messages. A file is given as its frame, or as `None` when it cannot be read. The files come as a sequence in the order the loop visits them.
- The PostgreSQL loading in both scripts: the connection, the inserts and the commits. This includes `data.py`'s insert of only the last file's fact table.
- The fuzzy scorer: `process.extractOne`'s scoring and its preprocessing are an abstract function from two cells to 0..100. The best match is the first maximum in reference order. The one behaviour of the preprocessing that is modelled is that a query that is not a string raises a `TypeError` when there is a choice to score; fuzzywuzzy is not part of this model.
- Floating point: metric values are abstract integers, `0` and `0.0` are both `Num(0)`, and `NaN` and `NaT` are both `Null`. The one float effect that is modelled is on the period column: numbers with a gap are read as float and fail the date conversion (`Extract.FloatPeriodDate`).
- The `run_date` coercion (`errors='coerce'`) is kept as the identity.
- Extract.PeriodNumber: only six-digit integer periods convert. Whether `strptime` would accept other widths (one-digit months, say) is not modelled. A period column that `read_csv` reads as float is recognised only in the case it can tell from the cells: numbers with at least one gap (`Extract.PeriodReadAsFloat`). A file with decimal periods written out in the csv is not distinguished from integer periods.
- Extract.NormalizeCell: a non-text cell becomes null, as `.str` does on a mixed column. The `AttributeError` that `.str` raises on a column with no text at all is not modelled.
- Registry.Join: when the batch already has `<id>_y` beside `<id>`, pandas keeps two columns of that name. The model's column list names it twice, but each row holds only the master's id under it. The batch's own cells there are lost, and nothing later reads them. The `SuffixClash` on `<id>` with `<id>_x` follows pandas 2.0 and later; pandas 1.x only warns there and keeps both columns.
- Text.UpperChar: upper-casing covers the ASCII letters only, with no Unicode case mapping.
- Pipeline.Concat: it requires all tables to have the same columns. The proofs show every collected fact table has them, so the column union pandas would build is never needed.
- Pipeline.AirportName: it is total, giving null for an entry whose key is empty. `Pipeline.AirportKey` shows that no healthy master has such an entry.
- Scripts.RunLegacy: it states the outcomes and the masters. It runs the same state as the newer script, so it also collects fact tables and codes, which `data.py` never uses.
- The newer script's `iata_code` column, which the airport merge copies into the batch, is not a column of the modelled batch. It would only matter for a file that already has a column of that name.

## Findings

| source | as written | input that shows it | evidently intended | confidence | as-written member | corrected member |
|---|---|---|---|---|---|---|
| data_new.py:24-25 (lookup at 133) | The reference filter keeps rows whose `name` is null. | A reference row with a null name and code `"NAN"` is the best match for some airport with a score above 80. `iata_df['name'] == match` then selects nothing and `.values[0]` raises, uncaught, so the script stops. | Drop reference rows without a name: line 133 looks a row up by the matched name, which a nameless row can never satisfy. | not executed | `Iata.FilterReference` with `Iata.NamelessReferenceBreaksLookup` | `Iata.FilterReferenceStrict` with `Iata.MatchCodeNamedFailsOnlyOnNonText` and `Pipeline.CodeAfterNamed` |

# Warehouse transform and profiling engine, in Dafny

This project models the warehouse stage of a car-sales ETL pipeline, and
proves properties of the model. The stage has three parts.

- **Transformation** holds a table, the table's name and its column list.
  Seven steps change it in place:
  - drop rows with a null in named columns;
  - drop rows whose value is in an invalid set, one column at a time;
  - lower-case named text columns;
  - two chained left joins, `brand_car = brand_name` then `state = code`;
  - projection onto the eleven warehouse columns;
  - a cast of each column to integer, float or text;
  - a fixed rename.

  Every step updates the table and the column list. It returns the table,
  or `None` after an exception. It writes exactly one record to the ETL log.
- **Profiling** takes five opt-in column lists. For each column of the table
  it builds a report entry holding only the diagnostics that column is
  enrolled in:
  - the dtype;
  - the duplicate count;
  - the unique values in first-seen order;
  - the null count;
  - the negative count.
  It stores the report and saves it as `{table}_{date}.json` under a base
  directory. Saving fails when that path has no directory part.
- **Warehouse_Pipeline** profiles the raw `car_sales` table. It then
  lower-cases one column of each lookup table and runs the seven steps on
  `car_sales` in a fixed order, with fixed column and value lists. A failed
  save of the profile stops the pipeline before any step.

## Files and modules

- `values.dfy` (`Values`): cell values, `Null | Str | Num`. Numbers are
  exact reals. This file also holds:
  - ASCII lower-casing;
  - the text-to-number parser of `pd.to_numeric(errors='coerce')`;
  - truncation toward zero for `astype(int64)`.
- `tables.dfy` (`Tables`): a table is a column list plus rows, each row a
  map from column name to value. The file also holds `Filter` and its lemmas.
- `transform_spec.dfy` (`TransformSpec`): the row filters and lower-casing as
  functions, with their error results and their lemmas.
- `join_spec.dfy` (`JoinSpec`): the left join and `join_data`.
- `schema_spec.dfy` (`SchemaSpec`): projection, casting and renaming.
- `transform.dfy` (`Transform`): the `Transformation` class. Its fields are the
  data, the table name and the column list, plus a ghost ETL log. Each method
  is proved to leave exactly the table the matching specification function
  computes.
- `profiling.dfy` (`Profiling`): the diagnostics as functions with their
  lemmas, and the `Profiling` class.
- `warehouse_pipeline.dfy` (`WarehousePipeline`): the pipeline's constants,
  the table after each line of the pipeline, and the pipeline as a method.

The code behaves as follows where a reader might expect otherwise:

- A failing step returns `None`, not the table before the step.
  - `drop_invalid_value` and `to_lower_case` update the table inside their
    loops, one column at a time. A failure part-way through therefore leaves the earlier columns
    already filtered or lower-cased.
  - `join_data` assigns the table only after both joins, so a failed join
    leaves the table unchanged.
- The join's row count equals the primary row count when the lookup keys are
  unique, and exactly when no primary row matches more than one lookup row.
  A repeated lookup key that some primary row uses multiplies that row, and
  nothing guards against it.
- The pipeline does not check results: every step runs on whatever table the
  previous step left.

## Model

| member | source | states |
|---|---|---|
| Transform.Transformation.constructor | src/warehouse/transform.py:8-11 | The object holds the given table and name, its column list is the table's column list, and the log is empty. |
| Transform.Transformation.DropMissingValue | src/warehouse/transform.py:14-49 | A single column name is treated as a one-element list. On success the new table is `DropMissing` of the old one, the result is that table and one success record is logged. When a named column is missing, the table is unchanged, the result is `None` and one failure record with the error is logged. The class invariant (columns equal the table's columns) holds after the call. |
| TransformSpec.DropMissing | src/warehouse/transform.py:19 | Gives an error exactly when a named column is absent, and the error names every absent named column and nothing else. On success: the columns are unchanged; the rows are a subsequence of the input; every kept row has no null in the named columns; every input row with no null there is kept. |
| TransformSpec.DropMissingCount | src/warehouse/transform.py:19 | Every copy of a row with no null in the named columns survives, and no copy of any other row does: repeated rows are not collapsed. |
| TransformSpec.DropMissingNoOp | src/warehouse/transform.py:19 | On a table already free of nulls in the named columns, dropping changes nothing. |
| TransformSpec.DropMissingIdempotent | src/warehouse/transform.py:19 | Dropping missing values a second time changes nothing. |
| Transform.Transformation.DropInvalidValue | src/warehouse/transform.py:52-87 | The loop leaves exactly the table `DropInvalid` computes, including the partly filtered table when a name is missing. The result is the table on success, or `None` with one failure record naming the missing column. |
| TransformSpec.DropInvalidResult | src/warehouse/transform.py:56-58 | Column by column filtering is a single filter. The result keeps the rows whose value in every named column before the first missing one is not invalid. The error is that first missing column, if there is one. |
| TransformSpec.DropInvalidSucceeds | src/warehouse/transform.py:56-58 | When every named column exists, the step succeeds and keeps exactly the rows acceptable in all named columns. |
| TransformSpec.DropInvalidFailsMidLoop | src/warehouse/transform.py:56-83 | When the k-th name is the first missing column, the earlier filters are applied and the error names that column. |
| TransformSpec.DropInvalidKeepsRows | src/warehouse/transform.py:58 | Every row of the result is a row of the input. |
| TransformSpec.DropInvalidIdempotent | src/warehouse/transform.py:56-58 | Re-running a successful drop on its own output gives the same table and result. |
| Transform.Transformation.ToLowerCase | src/warehouse/transform.py:90-124 | The loop leaves exactly the table `LowerCase` computes, stopping at the first column that is missing or not text. The result is the table, or `None` with one failure record. |
| Values.Lower | src/warehouse/transform.py:95 | Lower-casing keeps the length, gives a lower-case string, and leaves a lower-case string unchanged. |
| Values.LowerKeepsNonLetters | src/warehouse/transform.py:95 | Only the letters A-Z change: each is shifted by 32 and every other character is kept. |
| TransformSpec.LowerColumn | src/warehouse/transform.py:95 | Succeeds exactly when the column exists and either holds some text or holds no number, which is when the `.str` accessor accepts it. It keeps the columns and the row count. |
| TransformSpec.LowerCaseResult | src/warehouse/transform.py:94-95 | The step lower-cases the named columns before the first one that fails. The error is that column's error, if there is one. |
| TransformSpec.LowerCaseSucceeds | src/warehouse/transform.py:94-95 | When every named column can be lower-cased, the step succeeds and lower-cases all of them. |
| TransformSpec.LowerNamedCells | src/warehouse/transform.py:95 | A lowered cell is the lower-case form of the old cell. Cells of other columns are unchanged. |
| TransformSpec.LowerCaseKeepsOthers | src/warehouse/transform.py:94-95 | A column that is not named keeps every cell, whatever the outcome. |
| TransformSpec.LowerCaseLowersGiven | src/warehouse/transform.py:94-95 | After a successful step, every value in a named column is null or lower-case text. |
| TransformSpec.LowerCaseIdempotent | src/warehouse/transform.py:94-95 | Lower-casing twice equals lower-casing once, table and error both. |
| Transform.Transformation.JoinData | src/warehouse/transform.py:127-178 | On success the table is `JoinSpec.JoinData` of the old table, with one success record. On failure the table is unchanged, the result is `None` and one failure record is logged. |
| JoinSpec.JoinData | src/warehouse/transform.py:133-146 | Succeeds exactly when both lookups are tables and the key columns exist: `brand_car` in the sales table, `brand_name` and `code` in the lookups, and `state` in the sales or brand columns. The result's columns are the sales, brand and state columns in that order, and it has at least as many rows as the input. |
| JoinSpec.LeftJoin | src/warehouse/transform.py:133-138 | A missing lookup or key column gives the matching error, checking the lookup's key first. Otherwise the result is the left join. |
| JoinSpec.Joined | src/warehouse/transform.py:133-138 | The join result is well formed, its columns are the left columns followed by the right ones, and it never has fewer rows than the left table. |
| JoinSpec.Matches | src/warehouse/transform.py:133-138 | The matches of a row are exactly the lookup rows whose key cell equals the row's key cell. |
| JoinSpec.MatchesExact | src/warehouse/transform.py:133-138 | The matches keep lookup order, and each matching lookup row occurs in them as often as in the lookup; no other row occurs. |
| JoinSpec.JoinKeepsEveryRow | src/warehouse/transform.py:133-146 | Every primary row appears in the result, extended by the cells of its first match or by nulls, at its offset. |
| JoinSpec.JoinUniqueKey | src/warehouse/transform.py:133-146 | With a unique lookup key, the result has exactly the primary row count, and row i is primary row i extended by its partner. |
| JoinSpec.JoinRowsCount | src/warehouse/transform.py:133-146 | The join has exactly as many rows as the primary table if and only if no primary row matches more than one lookup row. |
| JoinSpec.JoinExtendsUnique | src/warehouse/transform.py:133-146 | With a unique lookup key, the row count is kept and row i of the result holds every cell of primary row i unchanged. |
| JoinSpec.JoinDataKeepsEveryRow | src/warehouse/transform.py:133-146 | When both lookups are tables and the four key columns exist, `join_data` succeeds and every sales row survives both joins: some result row holds all of its cells unchanged. |
| JoinSpec.JoinDataUniqueKeys | src/warehouse/transform.py:133-146 | When both lookups are tables, the four key columns exist, and `brand_name` and `code` are unique in their lookups, `join_data` succeeds, the result has the sales row count, and row i holds every cell of sales row i. |
| JoinSpec.JoinUnmatched | src/warehouse/transform.py:133-146 | A primary row with no match gives exactly one result row, with null in every lookup column. |
| JoinSpec.DuplicateKeysMultiplyRows | src/warehouse/transform.py:133-138 | One sales row whose brand appears twice in the lookup becomes two result rows. |
| JoinSpec.StateJoinExample | src/warehouse/transform.py:141-146 | The state join of a matching row and an unmatched row gives two rows: the first carries the state's name, the second has nulls in the lookup's columns. |
| JoinSpec.JoinRowsAppend | src/warehouse/transform.py:133-138 | Joining two row sequences one after the other is the same as joining their concatenation. |
| Transform.Transformation.SelectMergedColumns | src/warehouse/transform.py:181-226 | The new table is the projection onto the eleven schema names that are columns. The warnings are exactly the absent names, in list order. One success record is logged. |
| Transform.Transformation.SelectListed | src/warehouse/transform.py:184-201 | The loop over the list collects exactly `SelectWarnings`, then the table is `SelectColumns` of the old table. |
| SchemaSpec.SelectColumns | src/warehouse/transform.py:195-198 | The result columns are the listed names present in the table, in list order. The row count and every kept cell are unchanged. |
| SchemaSpec.SelectWarnings | src/warehouse/transform.py:190-192 | A name gets a warning exactly when it is listed and absent from the table, in list order. |
| SchemaSpec.SelectPartition | src/warehouse/transform.py:190-195 | Every listed name is either kept or warned about, never both. |
| SchemaSpec.SelectIdempotent | src/warehouse/transform.py:195-198 | Projecting twice equals projecting once. |
| SchemaSpec.SelectedColumnsDistinct | src/warehouse/transform.py:184-187 | The eleven schema names are distinct. |
| Transform.Transformation.CastColumns | src/warehouse/transform.py:228-295 | The new table and the per-column errors are those of `CastAll` over the type-map entries whose columns exist. The step always succeeds, with one success record. |
| Transform.Transformation.CastTyped | src/warehouse/transform.py:253-280 | The same for any type map: the entries whose columns exist are cast, in type-map order. |
| Transform.Transformation.CastLoop | src/warehouse/transform.py:256-269 | The loop over the existing entries computes the table and the error list of `CastAll`. A failing column is recorded and the loop goes on. |
| SchemaSpec.ExistingTypes | src/warehouse/transform.py:253 | Keeps exactly the type-map entries whose column is in the table. |
| SchemaSpec.CastColumn | src/warehouse/transform.py:257-269 | Casting one column keeps the table's shape and every other column. Each cell becomes its cast value. The failure flag is exactly `CastFails`. |
| SchemaSpec.CastValue | src/warehouse/transform.py:261-266 | A text cast keeps the cell. A numeric cast always yields a number or null. A successful integer cast yields a whole number (or null); when `astype(int64)` raised the cell is the coerced one. |
| SchemaSpec.CastValueTwice | src/warehouse/transform.py:261-266 | Casting a cell a second time with the same target and outcome changes nothing. |
| SchemaSpec.CastAllResult | src/warehouse/transform.py:256-269 | With distinct keys, the cast fold casts each listed column independently. The errors are the listed columns whose cast raises, in order. |
| SchemaSpec.CastAllIdempotent | src/warehouse/transform.py:256-269 | Casting a cast table again gives the same table and the same errors. |
| SchemaSpec.DataTypesDistinct | src/warehouse/transform.py:238-250 | The type map has no repeated key. |
| SchemaSpec.FloatCastExample | src/warehouse/transform.py:261-263 | Coercing `"10"`, `"abc"` and `"20.5"` gives 10, a null and 20.5. |
| Values.Coerce | src/warehouse/transform.py:263 | The result is always a number or null. A number stays, null stays null, and text becomes a number exactly when it parses. |
| Values.CoerceReadsNumbers | src/warehouse/transform.py:263 | Coercing twice changes nothing more, the decimal text of any integer reads as that integer, and empty text reads as null. |
| Values.ParseNum | src/warehouse/transform.py:263 | Empty text does not parse. A leading minus gives a non-positive number, anything else a non-negative one. |
| Values.ParseNumOfIntToString | src/warehouse/transform.py:263 | The decimal text of any integer parses back to that integer. |
| Values.Trunc | src/warehouse/transform.py:266 | Truncation toward zero: the result has the sign of the input, is no further from zero, and is less than one away. |
| Values.TruncIdempotent | src/warehouse/transform.py:266 | Truncating an integer again changes nothing. |
| Transform.Transformation.RenameColumns | src/warehouse/transform.py:297-339 | The new table is `SchemaSpec.RenameColumns` of the old one with the fixed map. The step succeeds and logs one success record. |
| SchemaSpec.RenameColumns | src/warehouse/transform.py:306-313 | Each column gets its new name and all other names pass through. The row count and every cell value are kept under the new names. |
| SchemaSpec.RenameRoundTrip | src/warehouse/transform.py:306-313 | Renaming with the inverted map restores the original table. |
| SchemaSpec.RenameIdempotent | src/warehouse/transform.py:306-313 | When no new name is also an old name, renaming twice equals renaming once. |
| SchemaSpec.RenamesWellBehaved | src/warehouse/transform.py:300-303 | The fixed map and its inverse have distinct keys, and no new name is an old name. |
| Transform.RecordsReport | src/warehouse/transform.py:25-45 | A success record has status `success!` and no error message. A failure record has status `Failed!` and carries the error's message. |
| Profiling.Profiling.constructor | src/warehouse/profiling.py:9-14 | The object holds the table and name, the column list is the table's, and it is not yet configured. |
| Profiling.Profiling.GetColumns | src/warehouse/profiling.py:17-18 | Returns the table's column list. |
| Profiling.Profiling.SelectedColumns | src/warehouse/profiling.py:20-26 | Stores the five lists. The profiled columns are exactly those in at least one list. Nothing else changes. |
| Profiling.Profiling.CheckDataType | src/warehouse/profiling.py:30-35 | The dtype is one of `int64`, `float64` or `object`. |
| Profiling.DTypeName | src/warehouse/profiling.py:34 | `int64` exactly when every cell is an integral number. `float64` only when there is a number and no text. `object` otherwise. |
| Profiling.Profiling.CheckDuplicateValue | src/warehouse/profiling.py:37-43 | The duplicate count is below the row count, or 0 for an empty table. |
| Profiling.DuplicatesPlusUnique | src/warehouse/profiling.py:41-49 | The duplicate count plus the number of unique values is the row count. |
| Profiling.DuplicateBound | src/warehouse/profiling.py:41 | The duplicate count is at most n - 1, and 0 for no rows. |
| Profiling.Profiling.CheckUniqueValue | src/warehouse/profiling.py:45-51 | The unique values have no repeats and are exactly the values in the column. |
| Profiling.UniqueSameValues | src/warehouse/profiling.py:49 | A value is unique-listed exactly when it occurs in the column. |
| Profiling.UniqueDistinct | src/warehouse/profiling.py:49 | The unique-value list has no repeats. |
| Profiling.UniqueFirstSeenOrder | src/warehouse/profiling.py:49 | The unique values appear in the order of their first occurrence. |
| Profiling.Profiling.CheckMissingValue | src/warehouse/profiling.py:53-58 | The missing count is the number of null cells in the column. |
| Profiling.MissingIsMultiplicity | src/warehouse/profiling.py:58 | The missing count is the multiplicity of null in the column. |
| Profiling.Profiling.CheckNegativeValue | src/warehouse/profiling.py:60-68 | The negative count plus the null count is at most the row count. |
| Profiling.NegativeCountAppend | src/warehouse/profiling.py:65-68 | A cell adds one exactly when it coerces to a number below 0. Null and non-numeric text add nothing. |
| Profiling.NegativeAndMissingBound | src/warehouse/profiling.py:65-68 | No cell counts as both negative and missing. |
| Profiling.NegativeTextExamples | src/warehouse/profiling.py:65-68 | `"-3"` counts as negative; `"abc"` and null do not. |
| Profiling.ReportFileNameParts | src/warehouse/profiling.py:82 | The file name starts with the table name and ends in `.json`. For dates of equal length, equal file names mean equal table names and equal dates, so reports of different tables never share a file. |
| Profiling.JoinPath | src/warehouse/profiling.py:83 | `os.path.join`: an absolute name replaces the base, and otherwise a separator is added only when the base lacks one. |
| Profiling.DirName | src/warehouse/profiling.py:85 | `os.path.dirname` of a path is empty exactly when the path holds no '/'. |
| Profiling.SaveFailsExactly | src/warehouse/profiling.py:79-86 | `os.makedirs` gets an empty directory, and raises FileNotFoundError, exactly when the base path is empty and the file name holds no '/'. |
| Profiling.Profiling.SaveReport | src/warehouse/profiling.py:71-92 | Fails, saving nothing, exactly when the joined path has an empty directory part. Otherwise it records the report as saved under the joined path and returns the message naming that path. |
| Profiling.Profiling.Entry | src/warehouse/profiling.py:105-120 | An entry has each diagnostic key exactly when the column is in the matching list, and the value is that diagnostic. |
| Profiling.Profiling.EnterColumns | src/warehouse/profiling.py:99-120 | Once the lists are selected (or when there are no columns) the stored report has the given `created_at`, an entry for every column of the table and no other, and each entry is `Entry` of its column. Before `selected_columns`, on a table with columns, it fails with only the first column stored, with an empty entry. |
| Profiling.Profiling.Reporting | src/warehouse/profiling.py:94-125 | Once the lists are selected (or when there are no columns) the full report (`Describes`: the given `created_at`, an entry for every column and no other, each `Entry` of its column) is stored. It is then returned and saved under the dated file name exactly when saving does not fail; when saving fails the call fails and nothing is saved. Before `selected_columns`, on a table with columns, the call fails. The stored report then holds only the first column, with an empty entry, and nothing is saved. |
| WarehousePipeline.ProfileSales | src/warehouse/warehouse_pipeline.py:22-30 | Fails exactly when saving the `car_sales` report fails. Otherwise the raw sales table gets an entry per column. Every entry has dtype and null count, `id_sales` a duplicate count, six columns unique values and five a negative count. |
| WarehousePipeline.CleanSales | src/warehouse/warehouse_pipeline.py:43-50 | The sales table becomes `SalesCleaned` of itself, with each failing step leaving its table. The log gains drop-missing, drop-invalid and lower-case records, in that order. |
| WarehousePipeline.CleanLookup | src/warehouse/warehouse_pipeline.py:38-58 | A lookup table's result is the table with one column lower-cased, or `None` when that raised. |
| WarehousePipeline.ShapeSales | src/warehouse/warehouse_pipeline.py:61-71 | The sales table becomes the join result, or the unchanged table when the join failed, then selected, cast and renamed. The log gains join, select, cast and rename records. |
| WarehousePipeline.ConformSales | src/warehouse/warehouse_pipeline.py:64-71 | Select, cast and rename leave `Conformed` of the table, and the log gains their three records in order. |
| WarehousePipeline.RenameSafeInSchema | src/warehouse/warehouse_pipeline.py:64-71 | A table whose columns are schema names can be renamed without a name collision. |
| WarehousePipeline.CleanedHasNoMissing | src/warehouse/warehouse_pipeline.py:43-50 | After line 50, when dropping missing values succeeded, no row has a null in `odometer`, `mmr` or `condition`. |
| WarehousePipeline.LoweredColumnsApart | src/warehouse/warehouse_pipeline.py:43-57 | No column checked for nulls is lower-cased, `state` is not lower-cased, and `code` is not the lower-cased state column. |
| WarehousePipeline.BrandKeysLowered | src/warehouse/warehouse_pipeline.py:46-61 | When lower-casing succeeded, every `brand_car` cell of the sales table and every `brand_name` cell of the brand table is null or lower-case text. |
| WarehousePipeline.StateKeysUntouched | src/warehouse/warehouse_pipeline.py:46-61 | Lower-casing leaves the sales `state` column and the lookup's `code` column as they were. |
| WarehousePipeline.LoadedColumnsInSchema | src/warehouse/warehouse_pipeline.py:64-81 | Every column of the loaded table is one of the eleven schema names after the rename. |
| WarehousePipeline.TransformSales | src/warehouse/warehouse_pipeline.py:38-71 | The sales table is cleaned to `SalesCleaned`, the lookups to `LookupCleaned`, and the table to load is `Loaded` of the three inputs. The sales log holds the seven step components in order, all under `car_sales`. |
| WarehousePipeline.WarehousePipeline | src/warehouse/warehouse_pipeline.py:1-85 | Puts the whole pipeline together. The raw sales table is profiled before any step. When saving the report fails (exactly when `SaveFails`), the pipeline stops there: no report, nothing loaded and an empty sales log. Otherwise the report is `ProfileSales`'s. The sales log has exactly the seven step components in order, all under `car_sales`. The cleaned lookups are `LookupCleaned`. The loaded table is `Loaded` of the three inputs. |

## Left out

- Extraction and loading: the three extracted tables are inputs, and the table passed to `load_to_warehouse` is an output.
- `LOAD_LOG` writes to a database. Here it is a ghost log of records on each `Transformation`; its own error handling is not modelled.
- `datetime.now()` is passed in as parameters. Steps take `now`; `Reporting` takes one date for `created_at` and one for the file name, because `reporting` and `save_report` each call `datetime.now()`.
- `FILE_PATH` from the environment (`.` when unset) is the parameter `basePath`. `os.makedirs` and `json.dump` are a ghost list of saved (path, report) pairs. The one failure modelled is FileNotFoundError from `os.makedirs("")` (`SaveFails`). Other I/O errors, such as permissions or a full disk, are not modelled.
- The console output of the pipeline and of `reporting` is not modelled. The warnings of `select_merged_columns` and the cast errors of `cast_columns` are returned as out-parameters.
- Transform.Transformation.JoinData: requires the sales, brand and state column names to be pairwise disjoint, because pandas' `_x`/`_y` suffixing on colliding names is not modelled. The pipeline needs the same of its inputs.
- Transform.Transformation.RenameColumns: requires that no new name is already a column. The duplicate column names pandas would create are not modelled.
- Values.ParseNum: accepts an optional sign, digits and at most one decimal point. Whitespace, exponents, `inf`, `nan` and thousands separators are not accepted.
- Values.Lower: lower-cases ASCII letters only. Unicode case mapping is not modelled.
- Profiling.DTypeName: approximates pandas dtype strings as `int64`, `float64` or `object`. `bool`, datetime and category dtypes are not modelled.
- Profiling.Profiling.SaveReport: requires a stored report. Calling `save_report` before `reporting` raises AttributeError in Python, and that path is not modelled.
- Profiling.Profiling.SelectedColumns: `column_profiling` is stated as a set of names. The order `list(set(...))` produces is not modelled.
- Integer columns are cast by truncating an exact real. The `int64`/`float64` representations, overflow and float rounding are not modelled.
- The `.str` accessor on a mixed column is modelled as raising only when the column has numbers and no text. Numbers in a text column become null when lower-cased.
- Null keys match each other in the join, as in pandas. The dtypes of the two key columns are not compared (see the next two lines).
- JoinSpec.LeftJoin: does not model the `ValueError` pandas' `merge` raises when a text key column is merged against a numeric one. The model joins such keys and, since no cell matches, fills the lookup's columns with nulls.
- JoinSpec.JoinData: inherits that gap from `LeftJoin`: where pandas raises the key-dtype `ValueError`, which `join_data`'s `except` turns into `None`, a failure record and an unchanged table, the model succeeds. Its "succeeds exactly when" covers only the missing-lookup and missing-column errors.
- Values are not aliased: `df1`, `df2` and `df3` are shared by profiling and the transforms only as immutable values. pandas' in-place column assignment and the copy-versus-view behaviour behind `SettingWithCopyWarning` are not modelled.

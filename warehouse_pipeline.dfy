/** `Warehouse_Pipeline`: profiling of the raw sales table, then the fixed
    sequence of transform steps on the sales, brand and state tables. The
    three extracted tables are inputs and the table handed to the loader is
    an output; the clock readings and the report directory are parameters. */
module WarehousePipeline {
  import opened Values
  import opened Tables
  import opened TransformSpec
  import opened JoinSpec
  import opened SchemaSpec
  import opened Transform
  import opened Profiling

  const DUPLICATE_VALUE_COLS: seq<string> := ["id_sales"]
  const UNIQUE_VALUE_COLS: seq<string> := ["brand_car", "body", "transmission", "state", "color", "interior"]
  const NEGATIVE_VALUE_COLS: seq<string> := ["year", "condition", "odometer", "mmr", "sellingprice"]

  const MISSING_VALUE_COLS: seq<string> := ["odometer", "mmr", "condition"]
  const INVALID_VALUE_COLS: seq<string> :=
    ["brand_car", "model", "trim", "body", "transmission", "vin", "state", "color", "interior", "seller"]
  const INVALID_VALUES: seq<Value> := [Str(""), Str("—"), Str("3vwd17aj5fm219943"), Str("3vwd17aj5fm297123")]
  const LOWERCASE_COLS: seq<string> := ["brand_car", "model", "trim", "body", "transmission", "color", "interior", "seller"]

  /** The components of the sales table's log records, in step order. */
  const CLEAN_STEPS: seq<string> := [DROP_MISSING, DROP_INVALID, TO_LOWER]
  const CONFORM_STEPS: seq<string> := [SELECT, CAST, RENAME]
  const SHAPE_STEPS: seq<string> := [JOIN] + CONFORM_STEPS
  const SALES_STEPS: seq<string> := CLEAN_STEPS + SHAPE_STEPS

  // =====================================================================
  // What the pipeline computes, step by step

  /** The profile entry of column `c` of the raw sales table: every column
      gets its dtype and null count, `id_sales` its duplicate count, six
      columns their unique values and five their negative count. */
  function RawEntry(t: Table, c: string): ColumnReport
    requires WellFormed(t) && c in t.cols
  {
    var vs := Column(t, c);
    ColumnReport(
      Some(DTypeName(vs)),
      if c in DUPLICATE_VALUE_COLS then Some(DuplicateCount(vs)) else None,
      if c in UNIQUE_VALUE_COLS then Some(UniqueValues(vs)) else None,
      Some(MissingCount(vs)),
      if c in NEGATIVE_VALUE_COLS then Some(NegativeCount(vs)) else None)
  }

  /** A step that fails leaves its table as the failure left it (lines
      48-50 go on with it). */
  function AfterDropMissing(t: Table): (r: Table)
    requires WellFormed(t)
    ensures WellFormed(r) && r.cols == t.cols
  {
    match DropMissing(t, MISSING_VALUE_COLS)
    case Ok(u) => u
    case Err(_) => t
  }

  function AfterDropInvalid(t: Table): (r: Table)
    requires WellFormed(t)
    ensures WellFormed(r) && r.cols == t.cols
  {
    DropInvalid(AfterDropMissing(t), INVALID_VALUE_COLS, INVALID_VALUES).table
  }

  /** The sales table after line 50. */
  function SalesCleaned(t: Table): (r: Table)
    requires WellFormed(t)
    ensures WellFormed(r) && r.cols == t.cols
  {
    LowerCase(AfterDropInvalid(t), LOWERCASE_COLS).table
  }

  /** The value `to_lower_case` returns for a lookup table: the table, or
      `None` after an exception. */
  function LookupCleaned(t: Table, c: string): (r: Option<Table>)
    requires WellFormed(t)
    ensures r.Some? ==> WellFormed(r.value) && r.value.cols == t.cols
  {
    var p := LowerCase(t, [c]);
    if p.error.None? then Some(p.table) else None
  }

  predicate Joinable(sales: Table, brand: Table, state: Table)
  {
    WellFormed(sales) && WellFormed(brand) && WellFormed(state) &&
    Disjoint(sales.cols, brand.cols) && Disjoint(sales.cols, state.cols) && Disjoint(brand.cols, state.cols)
  }

  /** What `join_data` needs of its table and of the two lookup results. */
  predicate JoinInputs(t: Table, brand: Option<Table>, state: Option<Table>)
  {
    WellFormed(t) &&
    (brand.Some? ==> WellFormed(brand.value) && Disjoint(t.cols, brand.value.cols)) &&
    (state.Some? ==> WellFormed(state.value) && Disjoint(t.cols, state.value.cols)) &&
    (brand.Some? && state.Some? ==> Disjoint(brand.value.cols, state.value.cols))
  }

  /** The sales table after line 61: the joined table, or the table as it
      was when a join failed. */
  function AfterJoin(t: Table, brand: Option<Table>, state: Option<Table>): (r: Table)
    requires JoinInputs(t, brand, state)
    ensures WellFormed(r)
  {
    match JoinSpec.JoinData(t, brand, state)
    case Ok(j) => j
    case Err(_) => t
  }

  /** The sales table after line 68, from the table after line 61. */
  function CastSelected(t: Table): (r: Table)
    requires WellFormed(t)
    ensures WellFormed(r)
    ensures forall c :: c in r.cols ==> c in SELECTED_COLUMNS
  {
    SelectedColumnsDistinct();
    var s := SelectColumns(t, SELECTED_COLUMNS);
    CastAll(s, ExistingTypes(s, DATA_TYPES)).0
  }

  /** The sales table after line 71, from the table after line 61. */
  function Conformed(t: Table): (r: Table)
    requires WellFormed(t)
    ensures WellFormed(r)
  {
    var c := CastSelected(t);
    RenameSafeInSchema(c);
    SchemaSpec.RenameColumns(c, RENAMES)
  }

  /** The table handed to `load_to_warehouse`. */
  function Loaded(sales: Table, brand: Table, state: Table): (r: Table)
    requires Joinable(sales, brand, state)
    ensures WellFormed(r)
  {
    Conformed(AfterJoin(SalesCleaned(sales), LookupCleaned(brand, "brand_name"), LookupCleaned(state, "name")))
  }

  /** A table whose columns are schema names can be renamed: the new names
      are not schema names. */
  lemma RenameSafeInSchema(t: Table)
    requires WellFormed(t) && forall c :: c in t.cols ==> c in SELECTED_COLUMNS
    ensures RenameSafe(t, RENAMES)
  {
    var f := RenameName(RENAMES);
    var m := MapNames(t.cols, f);
    forall i, j | 0 <= i < j < |m| ensures m[i] != m[j] {
      assert t.cols[i] in SELECTED_COLUMNS && t.cols[j] in SELECTED_COLUMNS;
      assert t.cols[i] != t.cols[j];
    }
  }

  // =====================================================================
  // Properties of the composition

  /** No column lower-cased on line 50 is one checked for missing values on
      line 48, and neither `state` nor `code` is lower-cased. */
  lemma LoweredColumnsApart()
    ensures forall c :: c in MISSING_VALUE_COLS ==> c !in LOWERCASE_COLS
    ensures "state" !in LOWERCASE_COLS && "code" != "name"
  {
    assert "odometer" !in LOWERCASE_COLS;
    assert "mmr" !in LOWERCASE_COLS;
    assert "condition" !in LOWERCASE_COLS;
  }


  /** After line 50, when dropping rows with missing values succeeded, no
      row has a null in `odometer`, `mmr` or `condition`: dropping invalid
      values only removes rows and lower-casing does not touch those
      columns, even when it stops early. */
  lemma CleanedHasNoMissing(t: Table)
    requires WellFormed(t) && DropMissing(t, MISSING_VALUE_COLS).Ok?
    ensures forall c :: c in MISSING_VALUE_COLS ==> c in t.cols
    ensures var r := SalesCleaned(t);
      forall i, c :: 0 <= i < |r.rows| && c in MISSING_VALUE_COLS ==> r.rows[i][c] != Null
  {
    var u := AfterDropMissing(t);
    var v := AfterDropInvalid(t);
    DropInvalidKeepsRows(u, INVALID_VALUE_COLS, INVALID_VALUES);
    LoweredColumnsApart();
    forall c | c in MISSING_VALUE_COLS
      ensures forall i :: 0 <= i < |v.rows| ==> SalesCleaned(t).rows[i][c] == v.rows[i][c] != Null
    {
      LowerCaseKeepsOthers(v, LOWERCASE_COLS, c);
    }
  }

  /** The brand join compares lower-cased keys on both sides: when
      lower-casing succeeded, every `brand_car` cell of the sales table and
      every `brand_name` cell of the brand table is null or lower-case text. */
  lemma BrandKeysLowered(sales: Table, brand: Table)
    requires WellFormed(sales) && WellFormed(brand)
    ensures LowerCase(AfterDropInvalid(sales), LOWERCASE_COLS).error.None? ==>
      "brand_car" in sales.cols && forall v :: v in Column(SalesCleaned(sales), "brand_car") ==> Lowered(v)
    ensures LookupCleaned(brand, "brand_name").Some? ==>
      "brand_name" in brand.cols && forall v :: v in Column(LookupCleaned(brand, "brand_name").value, "brand_name") ==> Lowered(v)
  {
    var v := AfterDropInvalid(sales);
    if LowerCase(v, LOWERCASE_COLS).error.None? {
      LowerCaseLowersGiven(v, LOWERCASE_COLS, "brand_car");
    }
    if LookupCleaned(brand, "brand_name").Some? {
      LowerCaseLowersGiven(brand, ["brand_name"], "brand_name");
    }
  }

  /** The state join compares cells no step has lower-cased: the `state`
      column after line 50 is the one after the row filters, and the `code`
      column of the cleaned state table is the extracted one. */
  lemma StateKeysUntouched(sales: Table, state: Table)
    requires WellFormed(sales) && WellFormed(state) && "state" in sales.cols && "code" in state.cols
    ensures Column(SalesCleaned(sales), "state") == Column(AfterDropInvalid(sales), "state")
    ensures LookupCleaned(state, "name").Some? ==>
      Column(LookupCleaned(state, "name").value, "code") == Column(state, "code")
  {
    LoweredColumnsApart();
    LowerCaseKeepsOthers(AfterDropInvalid(sales), LOWERCASE_COLS, "state");
    LowerCaseKeepsOthers(state, ["name"], "code");
  }

  /** Every column of the loaded table is one of the eleven schema names
      after the rename. */
  lemma LoadedColumnsInSchema(sales: Table, brand: Table, state: Table)
    requires Joinable(sales, brand, state)
    ensures forall c :: c in Loaded(sales, brand, state).cols ==> c in MapNames(SELECTED_COLUMNS, RenameName(RENAMES))
  {
    var t := CastSelected(AfterJoin(SalesCleaned(sales), LookupCleaned(brand, "brand_name"), LookupCleaned(state, "name")));
    MapNamesWithin(t.cols, SELECTED_COLUMNS, RenameName(RENAMES));
  }

  lemma ComponentsThree(cs: seq<string>, a: string, b: string, c: string)
    ensures cs + [a] + [b] + [c] == cs + [a, b, c]
  {
  }

  // =====================================================================
  // The pipeline

  /** Lines 22-30: the raw sales table is profiled with every column in the
      dtype and null checks, `id_sales` in the duplicate check, six columns
      in the unique check and five in the negative check. */
  method ProfileSales(sales: Table, createdAt: string, saveDate: string, basePath: string) returns (report: Option<Report>)
    requires WellFormed(sales)
    ensures report.Some? <==> !SaveFails(basePath, "car_sales", saveDate)
    ensures report.Some? ==> report.value.createdAt == createdAt && report.value.report.Keys == Names(sales.cols)
    ensures report.Some? ==> forall c :: c in report.value.report ==> c in sales.cols && report.value.report[c] == RawEntry(sales, c)
  {
    var profile := new Profiling(sales, "car_sales");
    var dataType := profile.GetColumns();
    profile.SelectedColumns(dataType, DUPLICATE_VALUE_COLS, UNIQUE_VALUE_COLS, dataType, NEGATIVE_VALUE_COLS);
    forall c | c in sales.cols ensures profile.Entry(c) == RawEntry(sales, c) {
      var e := profile.Entry(c);
      var vs := Column(sales, c);
      assert e.dataType == Some(DTypeName(vs));
      assert e.duplicateValue == if c in DUPLICATE_VALUE_COLS then Some(DuplicateCount(vs)) else None;
      assert e.uniqueValue == if c in UNIQUE_VALUE_COLS then Some(UniqueValues(vs)) else None;
      assert e.missingValue == Some(MissingCount(vs));
      assert e.negativeValue == if c in NEGATIVE_VALUE_COLS then Some(NegativeCount(vs)) else None;
    }
    report := profile.Reporting(createdAt, saveDate, basePath);
  }

  /** Lines 48-50: drop rows with missing values, drop rows with invalid
      values, lower-case the text columns; a failing step leaves the table
      as it left it and the next one goes on from there. */
  method CleanSales(t: Transformation, now: string)
    requires t.Valid()
    modifies t
    ensures t.Valid() && t.tableName == old(t.tableName)
    ensures t.data == SalesCleaned(old(t.data))
    ensures Components(t.log) == Components(old(t.log)) + CLEAN_STEPS
  {
    ghost var log0 := t.log;
    var _ := t.DropMissingValue(NameList(MISSING_VALUE_COLS), now);
    ghost var log1 := t.log;
    assert log1 == log0 + [log1[|log0|]] && log1[|log0|].component == DROP_MISSING;
    ComponentsAppend(log0, log1[|log0|]);
    var _ := t.DropInvalidValue(INVALID_VALUE_COLS, INVALID_VALUES, now);
    ghost var log2 := t.log;
    assert log2 == log1 + [log2[|log1|]] && log2[|log1|].component == DROP_INVALID;
    ComponentsAppend(log1, log2[|log1|]);
    var _ := t.ToLowerCase(LOWERCASE_COLS, now);
    assert t.log == log2 + [t.log[|log2|]] && t.log[|log2|].component == TO_LOWER;
    ComponentsAppend(log2, t.log[|log2|]);
    ComponentsThree(Components(log0), DROP_MISSING, DROP_INVALID, TO_LOWER);
  }

  /** Line 61 and lines 64-71: join, then conform to the warehouse schema. */
  method ShapeSales(t: Transformation, brand: Option<Table>, state: Option<Table>, now: string)
    returns (r: Option<Table>)
    requires t.Valid() && JoinInputs(t.data, brand, state)
    modifies t
    ensures t.Valid() && t.tableName == old(t.tableName)
    ensures t.data == Conformed(AfterJoin(old(t.data), brand, state)) && r == Some(t.data)
    ensures Components(t.log) == Components(old(t.log)) + SHAPE_STEPS
  {
    ghost var log0 := t.log;
    var _ := t.JoinData(brand, state, now);
    ghost var log1 := t.log;
    assert log1 == log0 + [log1[|log0|]] && log1[|log0|].component == JOIN;
    ComponentsAppend(log0, log1[|log0|]);
    r := ConformSales(t, now);
    AppendAssoc(Components(log0), [JOIN], CONFORM_STEPS);
  }

  /** Lines 64-71: select the schema columns, cast them, rename them; the
      rename always applies because the selected columns are schema names. */
  method ConformSales(t: Transformation, now: string) returns (r: Option<Table>)
    requires t.Valid()
    modifies t
    ensures t.Valid() && t.tableName == old(t.tableName)
    ensures t.data == Conformed(old(t.data)) && r == Some(t.data)
    ensures Components(t.log) == Components(old(t.log)) + CONFORM_STEPS
  {
    ghost var log0 := t.log;
    var _, _ := t.SelectMergedColumns(now);
    ghost var log1 := t.log;
    ComponentsAppend(log0, SuccessRecord(SELECT, t.tableName, now));
    var _, _ := t.CastColumns(now);
    ghost var log2 := t.log;
    ComponentsAppend(log1, SuccessRecord(CAST, t.tableName, now));
    RenameSafeInSchema(t.data);
    r := t.RenameColumns(now);
    ComponentsAppend(log2, SuccessRecord(RENAME, t.tableName, now));
    ComponentsThree(Components(log0), SELECT, CAST, RENAME);
  }

  /** Lines 39-40 and 53-58: a lookup table gets a `Transformation` of its
      own and one column lower-cased; the result is the table, or `None`
      when lower-casing raised. */
  method CleanLookup(t: Table, tableName: string, c: string, now: string) returns (r: Option<Table>)
    requires WellFormed(t)
    ensures r == LookupCleaned(t, c)
  {
    var lookup := new Transformation(t, tableName);
    r := lookup.ToLowerCase([c], now);
  }

  /** `Warehouse_Pipeline`. Profiling reads the raw sales table before any
      step; when saving its report fails, nothing is transformed or loaded
      (`None`). Otherwise the sales table goes through the seven steps in
      order, each logged once under its own name, and the table handed to
      the loader is `Loaded`. */
  method WarehousePipeline(sales: Table, brand: Table, state: Table,
                           now: string, createdAt: string, saveDate: string, basePath: string)
    returns (loaded: Option<Table>, report: Option<Report>, ghost salesLog: seq<LogRecord>, ghost cleaned: Table,
             ghost brandCleaned: Option<Table>, ghost stateCleaned: Option<Table>)
    requires Joinable(sales, brand, state)
    ensures report.Some? <==> !SaveFails(basePath, "car_sales", saveDate)
    ensures report.None? ==> loaded.None? && salesLog == []
    ensures report.Some? ==> report.value.createdAt == createdAt && report.value.report.Keys == Names(sales.cols)
    ensures report.Some? ==> forall c :: c in report.value.report ==> c in sales.cols && report.value.report[c] == RawEntry(sales, c)
    ensures report.Some? ==> Components(salesLog) == SALES_STEPS
    ensures report.Some? ==> forall i :: 0 <= i < |salesLog| ==> salesLog[i].tableName == "car_sales"
    ensures report.Some? ==> cleaned == SalesCleaned(sales)
    ensures report.Some? ==> brandCleaned == LookupCleaned(brand, "brand_name") && stateCleaned == LookupCleaned(state, "name")
    ensures report.Some? ==> loaded == Some(Loaded(sales, brand, state))
  {
    // Profiling
    report := ProfileSales(sales, createdAt, saveDate, basePath);
    if report.None? {
      return None, None, [], sales, None, None;
    }
    // Transform and load
    loaded, salesLog, cleaned, brandCleaned, stateCleaned := TransformSales(sales, brand, state, now);
  }

  /** Lines 38-71: the three tables get their own `Transformation`; the
      sales table is cleaned, joined with the cleaned lookups and shaped,
      and the result is what line 79 loads. */
  method TransformSales(sales: Table, brand: Table, state: Table, now: string)
    returns (loaded: Option<Table>, ghost salesLog: seq<LogRecord>, ghost cleaned: Table,
             ghost brandCleaned: Option<Table>, ghost stateCleaned: Option<Table>)
    requires Joinable(sales, brand, state)
    ensures Components(salesLog) == SALES_STEPS
    ensures forall i :: 0 <= i < |salesLog| ==> salesLog[i].tableName == "car_sales"
    ensures cleaned == SalesCleaned(sales)
    ensures brandCleaned == LookupCleaned(brand, "brand_name") && stateCleaned == LookupCleaned(state, "name")
    ensures loaded == Some(Loaded(sales, brand, state))
  {
    var salesT := new Transformation(sales, "car_sales");
    CleanSales(salesT, now);
    cleaned := salesT.data;
    assert Components(salesT.log) == CLEAN_STEPS;

    var brandClean := CleanLookup(brand, "car_brand", "brand_name", now);
    var stateClean := CleanLookup(state, "us_state", "name", now);
    brandCleaned, stateCleaned := brandClean, stateClean;

    loaded := ShapeSales(salesT, brandClean, stateClean, now);
    salesLog := salesT.log;
  }
}

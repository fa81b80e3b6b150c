/** The `Transformation` class: a table, its name and its column list,
    changed in place by seven steps. Each step leaves behind exactly the
    table the matching function of TransformSpec, JoinSpec or SchemaSpec
    computes, returns the table on success and nothing after an exception,
    and appends exactly one record to the ETL log. */
module Transform {
  import opened Values
  import opened Tables
  import opened TransformSpec
  import opened JoinSpec
  import opened SchemaSpec

  /** One record written to the ETL log. The timestamp is passed in by the
      caller; `errorMsg` is the `error_msg` key, present only on failure. */
  datatype LogRecord = LogRecord(
    step: string,
    component: string,
    status: string,
    tableName: string,
    etlDate: string,
    errorMsg: Option<string>)

  function SuccessRecord(component: string, tableName: string, now: string): LogRecord
  {
    LogRecord("Warehouse", component, "success!", tableName, now, None)
  }

  function FailureRecord(component: string, tableName: string, now: string, e: Error): LogRecord
  {
    LogRecord("Warehouse", component, "Failed!", tableName, now, Some(Message(e)))
  }

  /** A record reports success exactly when the step returned a table, and
      carries an error message exactly when it did not. */
  predicate Reports(rec: LogRecord, succeeded: bool)
  {
    (rec.status == "success!" <==> succeeded) &&
    (rec.status == "Failed!" <==> !succeeded) &&
    (rec.errorMsg.Some? <==> !succeeded)
  }

  lemma RecordsReport(component: string, tableName: string, now: string, e: Error)
    ensures Reports(SuccessRecord(component, tableName, now), true)
    ensures Reports(FailureRecord(component, tableName, now, e), false)
    ensures FailureRecord(component, tableName, now, e).errorMsg == Some(Message(e))
  {
  }

  /** The components of a log, in order. */
  ghost function Components(log: seq<LogRecord>): (cs: seq<string>)
    ensures |cs| == |log| && forall i :: 0 <= i < |log| ==> cs[i] == log[i].component
  {
    seq(|log|, i requires 0 <= i < |log| => log[i].component)
  }

  lemma ComponentsAppend(log: seq<LogRecord>, rec: LogRecord)
    ensures Components(log + [rec]) == Components(log) + [rec.component]
  {
  }

  const DROP_MISSING := "Transformation (Drop Missing Value)"
  const DROP_INVALID := "Transformation (Drop Invalid Value)"
  const TO_LOWER := "Transformation (To Lower Case)"
  const JOIN := "Transformation (Join Data)"
  const SELECT := "Transformation (Select Merged Columns)"
  const CAST := "Transformation (Cast Columns)"
  const RENAME := "Transformation (Rename Columns)"

  class Transformation {
    var data: Table
    var tableName: string
    var columns: seq<string>
    /** The records `LOAD_LOG` has been given by this object, oldest first. */
    ghost var log: seq<LogRecord>

    /** `self.columns` is the column list of `self.data`, and every record
        the object has logged names its table. */
    ghost predicate Valid()
      reads this
    {
      WellFormed(data) && columns == data.cols &&
      forall i :: 0 <= i < |log| ==> log[i].tableName == tableName
    }

    constructor (data: Table, tableName: string)
      requires WellFormed(data)
      ensures Valid()
      ensures this.data == data && this.tableName == tableName && this.columns == data.cols
      ensures log == []
    {
      this.data := data;
      this.tableName := tableName;
      this.columns := data.cols;
      log := [];
    }

    /** `drop_missing_value`: `dropna(subset=...)` on the named columns. */
    method DropMissingValue(arg: ColumnArg, now: string) returns (r: Option<Table>)
      requires Valid()
      modifies this
      ensures Valid() && tableName == old(tableName)
      ensures DropMissing(old(data), AsList(arg)).Ok? ==>
        data == DropMissing(old(data), AsList(arg)).value && r == Some(data) &&
        log == old(log) + [SuccessRecord(DROP_MISSING, tableName, now)]
      ensures DropMissing(old(data), AsList(arg)).Err? ==>
        data == old(data) && r == None &&
        log == old(log) + [FailureRecord(DROP_MISSING, tableName, now, DropMissing(old(data), AsList(arg)).error)]
    {
      var cs := AsList(arg);
      match DropMissing(data, cs)
      case Err(e) =>
        log := log + [FailureRecord(DROP_MISSING, tableName, now, e)];
        r := None;
      case Ok(t) =>
        data := t;
        columns := data.cols;
        log := log + [SuccessRecord(DROP_MISSING, tableName, now)];
        r := Some(data);
    }

    /** `drop_invalid_value`: the filters are applied to `self.data` one
        column at a time, so a name that is not a column ends the step with
        the earlier filters already applied. */
    method DropInvalidValue(colNames: seq<string>, invalid: seq<Value>, now: string) returns (r: Option<Table>)
      requires Valid()
      modifies this
      ensures Valid() && tableName == old(tableName)
      ensures data == DropInvalid(old(data), colNames, invalid).table
      ensures DropInvalid(old(data), colNames, invalid).error.None? ==>
        r == Some(data) && log == old(log) + [SuccessRecord(DROP_INVALID, tableName, now)]
      ensures DropInvalid(old(data), colNames, invalid).error.Some? ==>
        r == None &&
        log == old(log) + [FailureRecord(DROP_INVALID, tableName, now, DropInvalid(old(data), colNames, invalid).error.value)]
    {
      var i := 0;
      while i < |colNames|
        invariant 0 <= i <= |colNames|
        invariant WellFormed(data) && data.cols == old(data).cols && columns == old(columns)
        invariant tableName == old(tableName) && log == old(log)
        invariant DropInvalid(data, colNames[i..], invalid) == DropInvalid(old(data), colNames, invalid)
      {
        var c := colNames[i];
        assert colNames[i..][0] == c && colNames[i..][1..] == colNames[i + 1..];
        if c !in data.cols {
          log := log + [FailureRecord(DROP_INVALID, tableName, now, MissingColumn(c))];
          r := None;
          return;
        }
        data := DropInvalidColumn(data, c, invalid);
        i := i + 1;
      }
      columns := data.cols;
      log := log + [SuccessRecord(DROP_INVALID, tableName, now)];
      r := Some(data);
    }

    /** `to_lower_case`: each named column is lower-cased in turn; the first
        one that is missing or not text ends the step. */
    method ToLowerCase(colNames: seq<string>, now: string) returns (r: Option<Table>)
      requires Valid()
      modifies this
      ensures Valid() && tableName == old(tableName)
      ensures data == LowerCase(old(data), colNames).table
      ensures LowerCase(old(data), colNames).error.None? ==>
        r == Some(data) && log == old(log) + [SuccessRecord(TO_LOWER, tableName, now)]
      ensures LowerCase(old(data), colNames).error.Some? ==>
        r == None &&
        log == old(log) + [FailureRecord(TO_LOWER, tableName, now, LowerCase(old(data), colNames).error.value)]
    {
      var i := 0;
      while i < |colNames|
        invariant 0 <= i <= |colNames|
        invariant WellFormed(data) && data.cols == old(data).cols && columns == old(columns)
        invariant tableName == old(tableName) && log == old(log)
        invariant LowerCase(data, colNames[i..]) == LowerCase(old(data), colNames)
      {
        var c := colNames[i];
        assert colNames[i..][0] == c && colNames[i..][1..] == colNames[i + 1..];
        match LowerColumn(data, c)
        case Err(e) =>
          log := log + [FailureRecord(TO_LOWER, tableName, now, e)];
          r := None;
          return;
        case Ok(u) =>
          data := u;
        i := i + 1;
      }
      columns := data.cols;
      log := log + [SuccessRecord(TO_LOWER, tableName, now)];
      r := Some(data);
    }

    /** `join_data`: both left joins, then one assignment of `self.data`, so
        a failure of either join leaves the table as it was. */
    method JoinData(brand: Option<Table>, state: Option<Table>, now: string) returns (r: Option<Table>)
      requires Valid()
      requires brand.Some? ==> WellFormed(brand.value) && Disjoint(data.cols, brand.value.cols)
      requires state.Some? ==> WellFormed(state.value) && Disjoint(data.cols, state.value.cols)
      requires brand.Some? && state.Some? ==> Disjoint(brand.value.cols, state.value.cols)
      modifies this
      ensures Valid() && tableName == old(tableName)
      ensures JoinSpec.JoinData(old(data), brand, state).Ok? ==>
        data == JoinSpec.JoinData(old(data), brand, state).value && r == Some(data) &&
        log == old(log) + [SuccessRecord(JOIN, tableName, now)]
      ensures JoinSpec.JoinData(old(data), brand, state).Err? ==>
        data == old(data) && r == None &&
        log == old(log) + [FailureRecord(JOIN, tableName, now, JoinSpec.JoinData(old(data), brand, state).error)]
    {
      match JoinSpec.JoinData(data, brand, state)
      case Err(e) =>
        log := log + [FailureRecord(JOIN, tableName, now, e)];
        r := None;
      case Ok(t) =>
        data := t;
        columns := data.cols;
        log := log + [SuccessRecord(JOIN, tableName, now)];
        r := Some(data);
    }

    /** `select_merged_columns`: one warning per name of the schema list
        that is not a column, then the projection onto the names that are.
        It cannot raise. */
    method SelectMergedColumns(now: string) returns (r: Option<Table>, warnings: seq<string>)
      requires Valid()
      modifies this
      ensures Valid() && tableName == old(tableName)
      ensures data == SelectColumns(old(data), SELECTED_COLUMNS)
      ensures warnings == SelectWarnings(old(data), SELECTED_COLUMNS)
      ensures r == Some(data) && log == old(log) + [SuccessRecord(SELECT, tableName, now)]
    {
      SelectedColumnsDistinct();
      r, warnings := SelectListed(SELECTED_COLUMNS, now);
    }

    /** The body of `select_merged_columns` for the list `names`. */
    method SelectListed(names: seq<string>, now: string) returns (r: Option<Table>, warnings: seq<string>)
      requires Valid() && Distinct(names)
      modifies this
      ensures Valid() && tableName == old(tableName)
      ensures data == SelectColumns(old(data), names)
      ensures warnings == SelectWarnings(old(data), names)
      ensures r == Some(data) && log == old(log) + [SuccessRecord(SELECT, tableName, now)]
    {
      warnings := [];
      var i := 0;
      while i < |names|
        invariant 0 <= i <= |names|
        invariant data == old(data) && columns == old(columns)
        invariant tableName == old(tableName) && log == old(log)
        invariant warnings == SelectWarnings(data, names[..i])
      {
        var c := names[i];
        SelectWarningsStep(data, names, i);
        if c !in data.cols {
          warnings := warnings + [c];
        } else {
          assert warnings + [] == warnings;
        }
        i := i + 1;
      }
      assert names[..i] == names;
      data := SelectColumns(data, names);
      columns := data.cols;
      log := log + [SuccessRecord(SELECT, tableName, now)];
      r := Some(data);
    }

    /** `cast_columns`: every column of the type map that exists is cast in
        type-map order; a failing cast is reported in `castErrors` and the
        loop goes on. The step itself cannot fail. */
    method CastColumns(now: string) returns (r: Option<Table>, castErrors: seq<string>)
      requires Valid()
      modifies this
      ensures Valid() && tableName == old(tableName)
      ensures data == CastAll(old(data), ExistingTypes(old(data), DATA_TYPES)).0
      ensures castErrors == CastAll(old(data), ExistingTypes(old(data), DATA_TYPES)).1
      ensures r == Some(data) && log == old(log) + [SuccessRecord(CAST, tableName, now)]
    {
      r, castErrors := CastTyped(DATA_TYPES, now);
    }

    /** The body of `cast_columns` for the type map `types`. */
    method CastTyped(types: seq<(string, SemType)>, now: string) returns (r: Option<Table>, castErrors: seq<string>)
      requires Valid()
      modifies this
      ensures Valid() && tableName == old(tableName)
      ensures data == CastAll(old(data), ExistingTypes(old(data), types)).0
      ensures castErrors == CastAll(old(data), ExistingTypes(old(data), types)).1
      ensures r == Some(data) && log == old(log) + [SuccessRecord(CAST, tableName, now)]
    {
      var castData;
      castData, castErrors := CastLoop(data, ExistingTypes(data, types));
      data := castData;
      columns := data.cols;
      log := log + [SuccessRecord(CAST, tableName, now)];
      r := Some(data);
    }

    /** The loop of `cast_columns` over the existing entries of the type map,
        on a table of its own: it ends with the fold `CastAll`. */
    static method CastLoop(t: Table, existing: seq<(string, SemType)>) returns (u: Table, castErrors: seq<string>)
      requires WellFormed(t) && AllColumns(t, existing)
      ensures u == CastAll(t, existing).0 && castErrors == CastAll(t, existing).1
    {
      u := t;
      castErrors := [];
      var i := 0;
      while i < |existing|
        invariant 0 <= i <= |existing|
        invariant WellFormed(u) && u.cols == t.cols
        invariant AllColumns(u, existing[i..])
        invariant CastAll(u, existing[i..]).0 == CastAll(t, existing).0
        invariant castErrors + CastAll(u, existing[i..]).1 == CastAll(t, existing).1
      {
        var e := existing[i];
        assert existing[i..][0] == e && existing[i..][1..] == existing[i + 1..];
        CastAllNext(u, existing[i..], castErrors, CastAll(t, existing));
        var step := CastColumn(u, e.0, e.1);
        u := step.0;
        if step.1 {
          castErrors := castErrors + [e.0];
        }
        i := i + 1;
      }
    }

    /** `rename_columns`: the names of the rename map that are columns get
        their new names; with none present nothing is reassigned. */
    method RenameColumns(now: string) returns (r: Option<Table>)
      requires Valid() && RenameSafe(data, RENAMES)
      modifies this
      ensures Valid() && tableName == old(tableName)
      ensures data == SchemaSpec.RenameColumns(old(data), RENAMES)
      ensures r == Some(data) && log == old(log) + [SuccessRecord(RENAME, tableName, now)]
    {
      if AnyPresent(data, RENAMES) {
        data := SchemaSpec.RenameColumns(data, RENAMES);
        columns := data.cols;
      }
      log := log + [SuccessRecord(RENAME, tableName, now)];
      r := Some(data);
    }
  }
}

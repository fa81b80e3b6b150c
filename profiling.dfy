/** The `Profiling` class: per-column diagnostics of the raw sales table
    (dtype, duplicate count, unique values, null count, negative count)
    gathered into a report that holds, for each column, only the
    diagnostics the column is enrolled in. */
module Profiling {
  import opened Values
  import opened Tables

  // =====================================================================
  // The diagnostics, on the cells of one column

  /** `duplicated(subset=[c]).sum()`: the cells equal to some earlier cell
      (the first occurrence of a value is not a duplicate; nulls are equal
      to each other). */
  function DuplicateCount(vs: seq<Value>): (n: nat)
    ensures n <= |vs|
    decreases |vs|
  {
    if vs == [] then 0
    else
      var p := vs[..|vs| - 1];
      DuplicateCount(p) + (if vs[|vs| - 1] in p then 1 else 0)
  }

  /** `list(df[c].unique())`: each value once, where it first occurs. */
  function UniqueValues(vs: seq<Value>): (u: seq<Value>)
    ensures |u| <= |vs|
    decreases |vs|
  {
    if vs == [] then []
    else
      var p := vs[..|vs| - 1];
      if vs[|vs| - 1] in p then UniqueValues(p) else UniqueValues(p) + [vs[|vs| - 1]]
  }

  /** The unique values are exactly the values of the column. */
  lemma {:induction false} UniqueSameValues(vs: seq<Value>)
    ensures forall v :: v in UniqueValues(vs) <==> v in vs
    decreases |vs|
  {
    if vs != [] {
      var p := vs[..|vs| - 1];
      UniqueSameValues(p);
      assert vs == p + [vs[|vs| - 1]];
    }
  }

  /** No value is listed twice. */
  lemma {:induction false} UniqueDistinct(vs: seq<Value>)
    ensures Distinct(UniqueValues(vs))
    decreases |vs|
  {
    if vs != [] {
      var p := vs[..|vs| - 1];
      UniqueDistinct(p);
      UniqueSameValues(p);
    }
  }

  /** Every cell is either the first of its value or a duplicate. */
  lemma {:induction false} DuplicatesPlusUnique(vs: seq<Value>)
    ensures DuplicateCount(vs) + |UniqueValues(vs)| == |vs|
    decreases |vs|
  {
    if vs != [] {
      DuplicatesPlusUnique(vs[..|vs| - 1]);
    }
  }

  /** The first cell is never a duplicate: at most `n - 1` duplicates. */
  lemma DuplicateBound(vs: seq<Value>)
    ensures vs == [] ==> DuplicateCount(vs) == 0
    ensures vs != [] ==> DuplicateCount(vs) <= |vs| - 1
  {
    DuplicatesPlusUnique(vs);
    if vs != [] {
      UniqueSameValues(vs);
      assert vs[0] in UniqueValues(vs);
    }
  }

  /** The position of the first cell holding `v`. */
  function FirstIndex(vs: seq<Value>, v: Value): (k: nat)
    requires v in vs
    ensures k < |vs| && vs[k] == v
    ensures forall j :: 0 <= j < k ==> vs[j] != v
  {
    if vs[0] == v then 0 else 1 + FirstIndex(vs[1..], v)
  }

  lemma FirstIndexPrefix(p: seq<Value>, x: Value, v: Value)
    requires v in p
    ensures FirstIndex(p + [x], v) == FirstIndex(p, v)
  {
    var k := FirstIndex(p, v);
    var q := p + [x];
    assert q[k] == v;
    assert forall j :: 0 <= j < k ==> q[j] != v;
    var m := FirstIndex(q, v);
    assert m <= k;
  }

  /** `u` lists values of `vs` in the order in which they first occur there. */
  predicate InFirstSeenOrder(vs: seq<Value>, u: seq<Value>)
  {
    (forall a :: 0 <= a < |u| ==> u[a] in vs) &&
    forall a, b :: 0 <= a < b < |u| ==> FirstIndex(vs, u[a]) < FirstIndex(vs, u[b])
  }

  /** Appending a cell keeps the order of the values seen so far, and a new
      value is seen after all of them. */
  lemma FirstSeenStep(p: seq<Value>, u: seq<Value>, x: Value)
    requires InFirstSeenOrder(p, u)
    ensures InFirstSeenOrder(p + [x], u)
    ensures x !in p ==> InFirstSeenOrder(p + [x], u + [x])
  {
    var q := p + [x];
    forall a | 0 <= a < |u| ensures u[a] in q && FirstIndex(q, u[a]) == FirstIndex(p, u[a]) {
      FirstIndexPrefix(p, x, u[a]);
    }
    if x !in p {
      assert FirstIndex(q, x) == |p|;
      var w := u + [x];
      forall a, b | 0 <= a < b < |w| ensures FirstIndex(q, w[a]) < FirstIndex(q, w[b]) {
        if b == |u| {
          assert w[a] == u[a];
        } else {
          assert w[a] == u[a] && w[b] == u[b];
        }
      }
    }
  }

  /** The unique values are listed in the order of their first occurrence. */
  lemma {:induction false} UniqueFirstSeenOrder(vs: seq<Value>)
    ensures InFirstSeenOrder(vs, UniqueValues(vs))
    decreases |vs|
  {
    if vs != [] {
      var p := vs[..|vs| - 1];
      var x := vs[|vs| - 1];
      assert vs == p + [x];
      UniqueFirstSeenOrder(p);
      FirstSeenStep(p, UniqueValues(p), x);
    }
  }

  /** `isnull().sum()`: the null cells. */
  function MissingCount(vs: seq<Value>): (n: nat)
    ensures n <= |vs|
  {
    if vs == [] then 0 else (if vs[0].Null? then 1 else 0) + MissingCount(vs[1..])
  }

  /** The missing count is the number of times null occurs in the column. */
  lemma {:induction false} MissingIsMultiplicity(vs: seq<Value>)
    ensures MissingCount(vs) == multiset(vs)[Null]
    decreases |vs|
  {
    if vs != [] {
      MissingIsMultiplicity(vs[1..]);
      assert vs == [vs[0]] + vs[1..];
    }
  }

  /** The cell coerces to a number below zero. */
  predicate CoercesNegative(v: Value)
  {
    Coerce(v).Num? && Coerce(v).x < 0.0
  }

  /** `(pd.to_numeric(df[c], errors='coerce') < 0).sum()`. */
  function NegativeCount(vs: seq<Value>): (n: nat)
    ensures n <= |vs|
  {
    if vs == [] then 0 else (if CoercesNegative(vs[0]) then 1 else 0) + NegativeCount(vs[1..])
  }

  /** A further cell adds one to the negative count exactly when it coerces
      to a negative number; nulls and text that is not a number add nothing. */
  lemma {:induction false} NegativeCountAppend(vs: seq<Value>, v: Value)
    ensures NegativeCount(vs + [v]) == NegativeCount(vs) + (if CoercesNegative(v) then 1 else 0)
    ensures v.Null? || (v.Str? && ParseNum(v.s).None?) ==> NegativeCount(vs + [v]) == NegativeCount(vs)
    decreases |vs|
  {
    if vs != [] {
      assert (vs + [v])[1..] == vs[1..] + [v];
      NegativeCountAppend(vs[1..], v);
    } else {
      assert [v][1..] == [];
    }
  }

  /** A null cell is never negative, so nulls and negatives together are at
      most the cells of the column. */
  lemma {:induction false} NegativeAndMissingBound(vs: seq<Value>)
    ensures NegativeCount(vs) + MissingCount(vs) <= |vs|
    decreases |vs|
  {
    if vs != [] {
      NegativeAndMissingBound(vs[1..]);
    }
  }

  /** Text holding a negative number is counted; other text is not. */
  lemma NegativeTextExamples()
    ensures CoercesNegative(Str("-3"))
    ensures !CoercesNegative(Str("abc")) && !CoercesNegative(Null)
  {
    ParseNumOfIntToString(-3);
    assert IntToString(-3) == "-3";
  }

  /** `str(df[c].dtypes)`, as a tag: integral numbers only, numbers and
      nulls, or anything else. */
  function DTypeName(vs: seq<Value>): (s: string)
    ensures s == "int64" || s == "float64" || s == "object"
    ensures s == "int64" <==> vs != [] && forall i :: 0 <= i < |vs| ==> vs[i].Num? && vs[i].x.Floor as real == vs[i].x
    ensures s == "float64" ==> (forall i :: 0 <= i < |vs| ==> !vs[i].Str?) && exists i :: 0 <= i < |vs| && vs[i].Num?
  {
    if vs != [] && forall i :: 0 <= i < |vs| ==> vs[i].Num? && vs[i].x.Floor as real == vs[i].x then "int64"
    else if (forall i :: 0 <= i < |vs| ==> vs[i].Num? || vs[i].Null?) && exists i :: 0 <= i < |vs| && vs[i].Num? then "float64"
    else "object"
  }

  // =====================================================================
  // The report

  /** The diagnostics of one column; a field is present exactly when the
      column is enrolled in that diagnostic. */
  datatype ColumnReport = ColumnReport(
    dataType: Option<string>,
    duplicateValue: Option<nat>,
    uniqueValue: Option<seq<Value>>,
    missingValue: Option<nat>,
    negativeValue: Option<nat>)

  /** The empty entry `reporting` stores for a column before looking at
      the five lists. */
  const NO_DIAGNOSTICS := ColumnReport(None, None, None, None, None)

  /** `dict_report`: exactly the keys `created_at` and `report`. */
  datatype Report = Report(createdAt: string, report: map<string, ColumnReport>)

  /** The name `save_report` gives the file. */
  function ReportFileName(tableName: string, date: string): string
  {
    tableName + "_" + date + ".json"
  }

  /** The file name starts with the table name and ends in `.json`, and
      for dates of one length it tells table and date apart. */
  lemma ReportFileNameParts(tableName: string, date: string, otherName: string, otherDate: string)
    ensures var n := ReportFileName(tableName, date);
      |n| == |tableName| + |date| + 6 && n[..|tableName|] == tableName && n[|n| - 5..] == ".json"
    ensures |date| == |otherDate| && ReportFileName(tableName, date) == ReportFileName(otherName, otherDate) ==>
      tableName == otherName && date == otherDate
  {
    var n := ReportFileName(tableName, date);
    if |date| == |otherDate| && n == ReportFileName(otherName, otherDate) {
      assert |tableName| == |otherName|;
      assert tableName == n[..|tableName|] == otherName;
      assert date == n[|tableName| + 1..|tableName| + 1 + |date|] == otherDate;
    }
  }

  /** `os.path.join(base, name)` on POSIX: an absolute name replaces the
      base; otherwise a '/' separates them unless the base is empty or
      already ends in one. */
  function JoinPath(base: string, name: string): (p: string)
    ensures |p| >= |name| && p[|p| - |name|..] == name
    ensures name != [] && name[0] == '/' ==> p == name
    ensures (name == [] || name[0] != '/') && base != [] && base[|base| - 1] != '/' ==> p == base + "/" + name
    ensures (name == [] || name[0] != '/') && (base == [] || base[|base| - 1] == '/') ==> p == base + name
  {
    if name != [] && name[0] == '/' then name
    else if base == [] || base[|base| - 1] == '/' then base + name
    else base + "/" + name
  }

  /** The length of the part of `p` up to and including its last '/'
      (0 when there is none). */
  function LastSlashEnd(p: string): (i: nat)
    ensures i <= |p|
    ensures i > 0 ==> p[i - 1] == '/'
    ensures forall j :: i <= j < |p| ==> p[j] != '/'
  {
    if p == [] then 0
    else if p[|p| - 1] == '/' then |p|
    else LastSlashEnd(p[..|p| - 1])
  }

  predicate AllSlashes(h: string)
  {
    forall j :: 0 <= j < |h| ==> h[j] == '/'
  }

  /** `h.rstrip('/')`. */
  function StripTrailingSlashes(h: string): (r: string)
    ensures |r| <= |h| && r == h[..|r|]
    ensures forall j :: |r| <= j < |h| ==> h[j] == '/'
    ensures r != [] ==> r[|r| - 1] != '/'
  {
    if h != [] && h[|h| - 1] == '/' then StripTrailingSlashes(h[..|h| - 1]) else h
  }

  /** `os.path.dirname(p)` on POSIX: everything before the last '/', with
      trailing slashes removed unless it consists of slashes only. It is
      empty exactly when `p` holds no '/'. */
  function DirName(p: string): (d: string)
    ensures d == [] <==> '/' !in p
  {
    var head := p[..LastSlashEnd(p)];
    if head != [] && !AllSlashes(head) then
      assert StripTrailingSlashes(head) == [] ==> AllSlashes(head);
      StripTrailingSlashes(head)
    else
      assert '/' in p ==> head != [] by {
        if '/' in p {
          var j :| 0 <= j < |p| && p[j] == '/';
        }
      }
      head
  }

  /** `save_report` raises FileNotFoundError at `os.makedirs` when the
      report's path holds no '/': its directory part is then empty. */
  predicate SaveFails(basePath: string, tableName: string, date: string)
  {
    '/' !in JoinPath(basePath, ReportFileName(tableName, date))
  }

  /** Saving fails exactly when `os.path.dirname` of the report's path is
      empty, which happens exactly when the base directory is empty and
      the file name has no '/', as with `FILE_PATH=""` and a plain table
      name. */
  lemma SaveFailsExactly(basePath: string, tableName: string, date: string)
    ensures SaveFails(basePath, tableName, date) <==> DirName(JoinPath(basePath, ReportFileName(tableName, date))) == []
    ensures SaveFails(basePath, tableName, date) <==> basePath == [] && '/' !in ReportFileName(tableName, date)
  {
    var name := ReportFileName(tableName, date);
    var p := JoinPath(basePath, name);
    if basePath != [] && !(name != [] && name[0] == '/') {
      if basePath[|basePath| - 1] == '/' {
        assert p[|basePath| - 1] == '/';
      } else {
        assert p[|basePath|] == '/';
      }
    } else if name != [] && name[0] == '/' {
      assert p[0] == '/';
    }
  }

  class Profiling {
    var data: Table
    var tableName: string
    var listColumns: seq<string>
    /** Whether `selected_columns` has been called; `reporting` reads the
        five lists it sets. */
    var configured: bool
    var dataType: seq<string>
    var duplicateValue: seq<string>
    var uniqueValue: seq<string>
    var missingValue: seq<string>
    var negativeValue: seq<string>
    var columnProfiling: set<string>
    var dictReport: Option<Report>
    /** The reports written by `save_report`, with their paths, oldest first. */
    ghost var saved: seq<(string, Report)>

    ghost predicate Valid()
      reads this
    {
      WellFormed(data) && listColumns == data.cols
    }

    constructor (data: Table, tableName: string)
      requires WellFormed(data)
      ensures Valid() && this.data == data && this.tableName == tableName && listColumns == data.cols
      ensures !configured && dictReport == None && saved == []
    {
      this.data := data;
      this.tableName := tableName;
      listColumns := data.cols;
      configured := false;
      dataType, duplicateValue, uniqueValue, missingValue, negativeValue := [], [], [], [], [];
      columnProfiling := {};
      dictReport := None;
      saved := [];
    }

    /** `get_columns`: the table's column names, in order. */
    function GetColumns(): (cs: seq<string>)
      reads this
      requires Valid()
      ensures cs == data.cols
    {
      listColumns
    }

    /** `selected_columns`: stores the five lists; `column_profiling` is the
        set of every name enrolled in any of them. */
    method SelectedColumns(dataType: seq<string>, duplicateValue: seq<string>, uniqueValue: seq<string>,
                           missingValue: seq<string>, negativeValue: seq<string>)
      modifies this
      ensures configured
      ensures this.dataType == dataType && this.duplicateValue == duplicateValue && this.uniqueValue == uniqueValue
      ensures this.missingValue == missingValue && this.negativeValue == negativeValue
      ensures forall c :: c in columnProfiling <==>
        c in duplicateValue || c in dataType || c in uniqueValue || c in missingValue || c in negativeValue
      ensures data == old(data) && tableName == old(tableName) && listColumns == old(listColumns)
      ensures dictReport == old(dictReport) && saved == old(saved)
    {
      this.dataType := dataType;
      this.duplicateValue := duplicateValue;
      this.uniqueValue := uniqueValue;
      this.missingValue := missingValue;
      this.negativeValue := negativeValue;
      columnProfiling := Names(duplicateValue + dataType + uniqueValue + missingValue + negativeValue);
      configured := true;
    }

    /** `check_data_type`. */
    function CheckDataType(c: string): (s: string)
      reads this
      requires Valid() && c in data.cols
      ensures s == "int64" || s == "float64" || s == "object"
    {
      DTypeName(Column(data, c))
    }

    /** `check_duplicate_value`: never more than the rows after the first. */
    function CheckDuplicateValue(c: string): (n: nat)
      reads this
      requires Valid() && c in data.cols
      ensures |data.rows| > 0 ==> n < |data.rows|
      ensures |data.rows| == 0 ==> n == 0
    {
      DuplicateBound(Column(data, c));
      DuplicateCount(Column(data, c))
    }

    /** `check_unique_value`: the column's values, each once, in order of
        first occurrence. */
    function CheckUniqueValue(c: string): (u: seq<Value>)
      reads this
      requires Valid() && c in data.cols
      ensures Distinct(u)
      ensures forall v :: v in u <==> v in Column(data, c)
    {
      UniqueDistinct(Column(data, c));
      UniqueSameValues(Column(data, c));
      UniqueValues(Column(data, c))
    }

    /** `check_missing_value`: the number of null cells. */
    function CheckMissingValue(c: string): (n: nat)
      reads this
      requires Valid() && c in data.cols
      ensures n == multiset(Column(data, c))[Null]
    {
      MissingIsMultiplicity(Column(data, c));
      MissingCount(Column(data, c))
    }

    /** `check_negative_value`: nulls are never counted. */
    function CheckNegativeValue(c: string): (n: nat)
      reads this
      requires Valid() && c in data.cols
      ensures n + multiset(Column(data, c))[Null] <= |data.rows|
    {
      NegativeAndMissingBound(Column(data, c));
      MissingIsMultiplicity(Column(data, c));
      NegativeCount(Column(data, c))
    }

    /** The entry `reporting` builds for column `c`: each diagnostic is
        present exactly when `c` is enrolled in it, and is then the value
        of the matching check. */
    function Entry(c: string): (e: ColumnReport)
      reads this
      requires Valid() && c in data.cols
      ensures e.dataType.Some? <==> c in dataType
      ensures e.duplicateValue.Some? <==> c in duplicateValue
      ensures e.uniqueValue.Some? <==> c in uniqueValue
      ensures e.missingValue.Some? <==> c in missingValue
      ensures e.negativeValue.Some? <==> c in negativeValue
      ensures e.dataType.Some? ==> e.dataType.value == CheckDataType(c)
      ensures e.duplicateValue.Some? ==> e.duplicateValue.value == CheckDuplicateValue(c)
      ensures e.uniqueValue.Some? ==> e.uniqueValue.value == CheckUniqueValue(c)
      ensures e.missingValue.Some? ==> e.missingValue.value == CheckMissingValue(c)
      ensures e.negativeValue.Some? ==> e.negativeValue.value == CheckNegativeValue(c)
    {
      ColumnReport(
        if c in dataType then Some(CheckDataType(c)) else None,
        if c in duplicateValue then Some(CheckDuplicateValue(c)) else None,
        if c in uniqueValue then Some(CheckUniqueValue(c)) else None,
        if c in missingValue then Some(CheckMissingValue(c)) else None,
        if c in negativeValue then Some(CheckNegativeValue(c)) else None)
    }

    /** `r` is the report `reporting` builds at `createdAt`: an entry for
        every column of the table and no other, each `Entry` of its column. */
    ghost predicate Describes(r: Report, createdAt: string)
      reads this
      requires Valid()
    {
      r.createdAt == createdAt && r.report.Keys == Names(data.cols) &&
      forall c :: c in r.report ==> c in data.cols && r.report[c] == Entry(c)
    }

    /** `save_report`: writes the report under `{table_name}_{date}.json`
        in the base directory and returns the message it builds, or fails
        (`None`) with FileNotFoundError when that path has no directory
        part, saving nothing. */
    method SaveReport(date: string, basePath: string) returns (msg: Option<string>)
      requires dictReport.Some?
      modifies this`saved
      ensures msg.None? <==> SaveFails(basePath, tableName, date)
      ensures msg.None? ==> saved == old(saved)
      ensures msg.Some? ==> msg.value == "Report saved as " + JoinPath(basePath, ReportFileName(tableName, date))
      ensures msg.Some? ==> saved == old(saved) + [(JoinPath(basePath, ReportFileName(tableName, date)), dictReport.value)]
    {
      var path := JoinPath(basePath, ReportFileName(tableName, date));
      if '/' !in path {
        // `os.path.dirname(path)` is empty (`DirName`)
        return None;
      }
      saved := saved + [(path, dictReport.value)];
      msg := Some("Report saved as " + path);
    }

    /** The loop of `reporting`: the report is stored with no entries,
        then each column is entered, first with an empty entry and then,
        once the five lists exist, with its diagnostics. Before
        `selected_columns` the first column's membership test raises
        AttributeError (`false` here), leaving that column's empty entry. */
    method EnterColumns(createdAt: string) returns (ok: bool)
      requires Valid()
      modifies this`dictReport
      ensures ok <==> configured || data.cols == []
      ensures !ok ==> dictReport == Some(Report(createdAt, map[data.cols[0] := NO_DIAGNOSTICS]))
      ensures ok ==> dictReport.Some? && Describes(dictReport.value, createdAt)
    {
      var entries: map<string, ColumnReport> := map[];
      dictReport := Some(Report(createdAt, entries));
      var i := 0;
      while i < |listColumns|
        invariant 0 <= i <= |listColumns|
        invariant !configured ==> i == 0
        invariant entries.Keys == Names(listColumns[..i])
        invariant forall c :: c in entries ==> c in data.cols && entries[c] == Entry(c)
        invariant dictReport == Some(Report(createdAt, entries))
      {
        var c := listColumns[i];
        ghost var before := entries;
        entries := entries[c := NO_DIAGNOSTICS];
        dictReport := Some(Report(createdAt, entries));
        if !configured {
          return false;
        }
        assert listColumns[..i + 1] == listColumns[..i] + [c];
        entries := entries[c := Entry(c)];
        assert entries == before[c := Entry(c)];
        dictReport := Some(Report(createdAt, entries));
        i := i + 1;
      }
      assert listColumns[..i] == listColumns;
      ok := true;
    }

    /** `reporting`: enters every column of the table, enrolled or not,
        then saves the report. `createdAt` and `saveDate` are parameters
        because `reporting` and `save_report` each call `datetime.now()`.
        Before `selected_columns` the call fails (`None`) with the first
        column's empty entry stored and nothing saved. When saving fails,
        the complete report stays stored and the call fails too. */
    method Reporting(createdAt: string, saveDate: string, basePath: string) returns (rep: Option<Report>)
      requires Valid()
      modifies this`dictReport, this`saved
      ensures !configured && data.cols != [] ==>
        rep.None? && dictReport == Some(Report(createdAt, map[data.cols[0] := NO_DIAGNOSTICS])) && saved == old(saved)
      ensures configured || data.cols == [] ==> dictReport.Some? && Describes(dictReport.value, createdAt)
      ensures configured || data.cols == [] ==> (rep.Some? <==> !SaveFails(basePath, tableName, saveDate))
      ensures rep.None? ==> saved == old(saved)
      ensures rep.Some? ==> Describes(rep.value, createdAt)
      ensures rep.Some? ==> dictReport == rep
      ensures rep.Some? ==> saved == old(saved) + [(JoinPath(basePath, ReportFileName(tableName, saveDate)), rep.value)]
    {
      var ok := EnterColumns(createdAt);
      if !ok {
        return None;
      }
      var msg := SaveReport(saveDate, basePath);
      if msg.None? {
        return None;
      }
      rep := dictReport;
    }
  }
}

/** The three steps that shape the joined table into the warehouse schema:
    projection onto a fixed column list (`select_merged_columns`), casting
    against a fixed type map (`cast_columns`) and a fixed rename
    (`rename_columns`). */
module SchemaSpec {
  import opened Values
  import opened Tables
  import opened TransformSpec

  /** The first value paired with `k` in an association list (a Python
      dict literal keeps its keys in this order). */
  function Lookup<V>(m: seq<(string, V)>, k: string): (r: Option<V>)
    ensures r.None? <==> forall i :: 0 <= i < |m| ==> m[i].0 != k
    ensures r.Some? ==> exists i :: 0 <= i < |m| && m[i] == (k, r.value)
  {
    if m == [] then None
    else if m[0].0 == k then Some(m[0].1)
    else Lookup(m[1..], k)
  }

  function Keys<V>(m: seq<(string, V)>): (ks: seq<string>)
    ensures |ks| == |m|
    ensures forall i :: 0 <= i < |m| ==> ks[i] == m[i].0
  {
    seq(|m|, i requires 0 <= i < |m| => m[i].0)
  }

  // =====================================================================
  // select_merged_columns

  /** The warehouse schema's columns, in order. */
  const SELECTED_COLUMNS: seq<string> :=
    ["id_sales", "year", "brand_car_id", "transmission", "id_state", "odometer",
     "condition", "color", "interior", "mmr", "sellingprice"]

  function ColumnOf(t: Table): string -> bool
  {
    (c: string) => c in t.cols
  }

  /** `df[keep]` for a list of existing, distinct columns. */
  function Project(t: Table, keep: seq<string>): (r: Table)
    requires WellFormed(t) && Distinct(keep) && forall i :: 0 <= i < |keep| ==> keep[i] in t.cols
    ensures WellFormed(r) && r.cols == keep && |r.rows| == |t.rows|
    ensures forall i, c :: 0 <= i < |r.rows| && c in keep ==> r.rows[i][c] == t.rows[i][c]
  {
    Table(keep, seq(|t.rows|, i requires 0 <= i < |t.rows| => map c | c in Names(keep) :: t.rows[i][c]))
  }

  /** The table restricted to the listed names that are columns, in list
      order; rows and cells are kept. */
  function SelectColumns(t: Table, names: seq<string>): (r: Table)
    requires WellFormed(t) && Distinct(names)
    ensures WellFormed(r) && |r.rows| == |t.rows|
    ensures IsSubsequence(r.cols, names)
    ensures forall c :: c in r.cols <==> c in names && c in t.cols
    ensures forall i, c :: 0 <= i < |r.rows| && c in r.cols ==> r.rows[i][c] == t.rows[i][c]
  {
    var keep := Filter(names, ColumnOf(t));
    FilterDistinct(names, ColumnOf(t));
    FilterIsSubsequence(names, ColumnOf(t));
    Project(t, keep)
  }

  /** The listed names that are not columns, one warning each, in list order. */
  function SelectWarnings(t: Table, names: seq<string>): (ws: seq<string>)
    ensures forall c :: c in ws <==> c in names && c !in t.cols
    ensures IsSubsequence(ws, names)
  {
    FilterIsSubsequence(names, NotColumnOf(t));
    Filter(names, NotColumnOf(t))
  }

  /** The warnings for a longer prefix of the list: one more when the
      next name is not a column. */
  lemma SelectWarningsStep(t: Table, names: seq<string>, i: nat)
    requires i < |names|
    ensures SelectWarnings(t, names[..i + 1]) ==
      SelectWarnings(t, names[..i]) + (if names[i] in t.cols then [] else [names[i]])
  {
    assert names[..i + 1] == names[..i] + [names[i]];
    FilterAppend(names[..i], [names[i]], NotColumnOf(t));
  }

  /** Each listed name is either selected or warned about, never both. */
  lemma SelectPartition(t: Table, names: seq<string>)
    requires WellFormed(t) && Distinct(names)
    ensures |SelectColumns(t, names).cols| + |SelectWarnings(t, names)| == |names|
  {
    FilterSplit(names, ColumnOf(t), NotColumnOf(t));
  }

  /** Selecting again selects nothing more and warns about every name it
      warned about before. */
  lemma SelectIdempotent(t: Table, names: seq<string>)
    requires WellFormed(t) && Distinct(names)
    ensures SelectColumns(SelectColumns(t, names), names) == SelectColumns(t, names)
  {
    var u := SelectColumns(t, names);
    var keep := Filter(names, ColumnOf(t));
    assert forall i :: 0 <= i < |names| ==> (ColumnOf(u)(names[i]) == ColumnOf(t)(names[i]));
    assert Filter(names, ColumnOf(u)) == keep by {
      FilterSameOn(names, ColumnOf(u), ColumnOf(t));
    }
    SameCells(SelectColumns(u, names), u);
  }

  /** Two filters that agree on every element keep the same elements. */
  lemma {:induction false} FilterSameOn(s: seq<string>, f: string -> bool, g: string -> bool)
    requires forall i :: 0 <= i < |s| ==> f(s[i]) == g(s[i])
    ensures Filter(s, f) == Filter(s, g)
    decreases |s|
  {
    if s != [] {
      FilterSameOn(s[1..], f, g);
    }
  }

  lemma SelectedColumnsDistinct()
    ensures Distinct(SELECTED_COLUMNS)
  {
  }

  // =====================================================================
  // cast_columns

  /** The target types of the type map. */
  datatype SemType = Integer | Float | Text

  /** The pandas dtype each target type is cast to. */
  function PandasType(ty: SemType): string
  {
    match ty
    case Integer => "int64"
    case Float => "float64"
    case Text => "object"
  }

  /** The type map, in the order of its keys. */
  const DATA_TYPES: seq<(string, SemType)> :=
    [("id_sales", Integer), ("year", Integer), ("brand_car_id", Integer), ("transmission", Text),
     ("id_state", Integer), ("condition", Float), ("odometer", Float), ("color", Text),
     ("interior", Text), ("mmr", Float), ("sellingprice", Float)]

  /** `astype(int64)` after coercion raises when coercion left a null in the
      column; a float or text cast never raises. */
  predicate CastFails(t: Table, c: string, ty: SemType)
    requires WellFormed(t) && c in t.cols
  {
    ty == Integer && exists i :: 0 <= i < |t.rows| && Coerce(t.rows[i][c]).Null?
  }

  /** A cell after its column's pass: numeric targets coerce it, and a
      successful integer cast truncates the number. Text cells are kept. */
  function CastValue(ty: SemType, v: Value, fails: bool): (w: Value)
    ensures ty == Text ==> w == v
    ensures ty == Float ==> w == Coerce(v)
    ensures ty == Integer && fails ==> w == Coerce(v)
    ensures ty == Integer && !fails && Coerce(v).Num? ==> w == Num(Trunc(Coerce(v).x) as real)
    ensures ty == Integer && !fails && Coerce(v).Null? ==> w == Null
    ensures ty != Text ==> w.Null? || w.Num?
    ensures ty == Integer && !fails && w.Num? ==> w.x.Floor as real == w.x
  {
    match ty
    case Text => v
    case Float => Coerce(v)
    case Integer =>
      var n := Coerce(v);
      if !fails && n.Num? then Num(Trunc(n.x) as real) else n
  }

  function CoerceAll(vs: seq<Value>): (ws: seq<Value>)
    ensures |ws| == |vs|
    ensures forall i :: 0 <= i < |vs| ==> ws[i] == Coerce(vs[i])
  {
    seq(|vs|, i requires 0 <= i < |vs| => Coerce(vs[i]))
  }

  function TruncAll(vs: seq<Value>): (ws: seq<Value>)
    ensures |ws| == |vs|
    ensures forall i :: 0 <= i < |vs| ==> ws[i] == if vs[i].Num? then Num(Trunc(vs[i].x) as real) else vs[i]
  {
    seq(|vs|, i requires 0 <= i < |vs| => if vs[i].Num? then Num(Trunc(vs[i].x) as real) else vs[i])
  }

  /** One pass of the loop in `cast_columns`: `pd.to_numeric(errors='coerce')`
      is assigned first for numeric targets, then `astype`. The flag tells
      whether `astype` raised, in which case the coerced cells stay. */
  function CastColumn(t: Table, c: string, ty: SemType): (r: (Table, bool))
    requires WellFormed(t) && c in t.cols
    ensures WellFormed(r.0) && r.0.cols == t.cols && |r.0.rows| == |t.rows|
    ensures r.1 == CastFails(t, c, ty)
    ensures forall i :: 0 <= i < |t.rows| ==> r.0.rows[i][c] == CastValue(ty, t.rows[i][c], r.1)
    ensures forall i, d :: 0 <= i < |t.rows| && d in t.cols && d != c ==> r.0.rows[i][d] == t.rows[i][d]
  {
    if ty == Text then (t, false)
    else
      var coerced := CoerceAll(Column(t, c));
      var u := ReplaceColumn(t, c, coerced);
      if ty == Float then (u, false)
      else if exists i :: 0 <= i < |coerced| && coerced[i].Null? then (u, true)
      else (ReplaceColumn(u, c, TruncAll(coerced)), false)
  }

  function Failed(t: Table, e: (string, SemType)): seq<string>
    requires WellFormed(t) && e.0 in t.cols
  {
    if CastFails(t, e.0, e.1) then [e.0] else []
  }

  predicate AllColumns(t: Table, spec: seq<(string, SemType)>)
  {
    forall i :: 0 <= i < |spec| ==> spec[i].0 in t.cols
  }

  /** The loop of `cast_columns` over the typed columns that exist; a
      failing column is reported and the loop goes on. The second
      component lists the columns whose cast raised, in loop order. */
  function CastAll(t: Table, spec: seq<(string, SemType)>): (r: (Table, seq<string>))
    requires WellFormed(t) && AllColumns(t, spec)
    ensures WellFormed(r.0) && r.0.cols == t.cols && |r.0.rows| == |t.rows|
    decreases |spec|
  {
    if spec == [] then (t, [])
    else
      var (u, failed) := CastColumn(t, spec[0].0, spec[0].1);
      var rest := CastAll(u, spec[1..]);
      (rest.0, (if failed then [spec[0].0] else []) + rest.1)
  }

  /** One pass of the loop, then the rest of it. */
  lemma CastAllStep(t: Table, spec: seq<(string, SemType)>)
    requires WellFormed(t) && AllColumns(t, spec) && spec != []
    ensures AllColumns(CastColumn(t, spec[0].0, spec[0].1).0, spec[1..])
    ensures CastAll(t, spec).0 == CastAll(CastColumn(t, spec[0].0, spec[0].1).0, spec[1..]).0
    ensures CastAll(t, spec).1 ==
      (if CastColumn(t, spec[0].0, spec[0].1).1 then [spec[0].0] else []) + CastAll(CastColumn(t, spec[0].0, spec[0].1).0, spec[1..]).1
  {
  }

  /** One pass of the loop keeps the accumulated failures plus those of the
      rest of the fold equal to the failures of the whole fold. */
  lemma CastAllNext(u: Table, rest: seq<(string, SemType)>, acc: seq<string>, total: (Table, seq<string>))
    requires WellFormed(u) && AllColumns(u, rest) && rest != []
    requires CastAll(u, rest).0 == total.0 && acc + CastAll(u, rest).1 == total.1
    ensures var step := CastColumn(u, rest[0].0, rest[0].1);
      AllColumns(step.0, rest[1..]) && CastAll(step.0, rest[1..]).0 == total.0 &&
      (if step.1 then acc + [rest[0].0] else acc) + CastAll(step.0, rest[1..]).1 == total.1
  {
    CastAllStep(u, rest);
    var step := CastColumn(u, rest[0].0, rest[0].1);
    var tail := CastAll(step.0, rest[1..]).1;
    if step.1 {
      assert acc + ([rest[0].0] + tail) == (acc + [rest[0].0]) + tail;
    } else {
      assert [] + tail == tail;
    }
  }

  /** The entries of the type map whose column exists (`existing_columns`). */
  function PresentIn(t: Table): ((string, SemType)) -> bool
  {
    (e: (string, SemType)) => e.0 in t.cols
  }

  function ExistingTypes(t: Table, spec: seq<(string, SemType)>): (es: seq<(string, SemType)>)
    ensures AllColumns(t, es)
    ensures forall i :: 0 <= i < |es| ==> es[i] in spec
    ensures forall i :: 0 <= i < |spec| && spec[i].0 in t.cols ==> spec[i] in es
  {
    Filter(spec, PresentIn(t))
  }

  /** The cell of column `c` in row `i` once the columns typed in `done`
      have been cast. */
  function CastCell(t: Table, done: seq<(string, SemType)>, i: nat, c: string): Value
    requires WellFormed(t) && i < |t.rows| && c in t.cols
  {
    match Lookup(done, c)
    case None => t.rows[i][c]
    case Some(ty) => CastValue(ty, t.rows[i][c], CastFails(t, c, ty))
  }

  /** The table with the columns typed in `done` cast and every other cell
      as it was. */
  function Casted(t: Table, done: seq<(string, SemType)>): (r: Table)
    requires WellFormed(t)
    ensures WellFormed(r) && r.cols == t.cols && |r.rows| == |t.rows|
  {
    Table(t.cols, seq(|t.rows|, i requires 0 <= i < |t.rows| =>
      map c | c in Names(t.cols) :: CastCell(t, done, i, c)))
  }

  lemma CastedCells(t: Table, done: seq<(string, SemType)>)
    requires WellFormed(t)
    ensures forall i, c :: 0 <= i < |t.rows| && c in t.cols ==> Casted(t, done).rows[i][c] == CastCell(t, done, i, c)
  {
  }

  lemma CastedNothing(t: Table)
    requires WellFormed(t)
    ensures Casted(t, []) == t
  {
    CastedCells(t, []);
    SameCells(Casted(t, []), t);
  }

  /** A column that is not typed in `done` is untouched, so whether its own
      cast fails is decided on the original cells. */
  lemma CastedKeepsColumn(t: Table, done: seq<(string, SemType)>, c: string, ty: SemType)
    requires WellFormed(t) && c in t.cols && Lookup(done, c).None?
    ensures forall i :: 0 <= i < |t.rows| ==> Casted(t, done).rows[i][c] == t.rows[i][c]
    ensures CastFails(Casted(t, done), c, ty) == CastFails(t, c, ty)
  {
    CastedCells(t, done);
  }

  lemma LookupAppend<V>(m: seq<(string, V)>, e: (string, V), k: string)
    requires Lookup(m, e.0).None?
    ensures Lookup(m + [e], k) == if k == e.0 then Some(e.1) else Lookup(m, k)
    decreases |m|
  {
    if m != [] {
      assert (m + [e])[1..] == m[1..] + [e];
      LookupAppend(m[1..], e, k);
    } else {
      assert (m + [e]) == [e];
    }
  }

  /** One more pass of the loop on a partly cast table. */
  lemma CastColumnAfter(t: Table, done: seq<(string, SemType)>, e: (string, SemType))
    requires WellFormed(t) && e.0 in t.cols && Lookup(done, e.0).None?
    ensures CastColumn(Casted(t, done), e.0, e.1) == (Casted(t, done + [e]), CastFails(t, e.0, e.1))
  {
    var u := Casted(t, done);
    var r := CastColumn(u, e.0, e.1);
    var w := Casted(t, done + [e]);
    CastedKeepsColumn(t, done, e.0, e.1);
    CastedCells(t, done);
    CastedCells(t, done + [e]);
    forall i, d | 0 <= i < |r.0.rows| && d in r.0.cols ensures r.0.rows[i][d] == w.rows[i][d] {
      LookupAppend(done, e, d);
    }
    SameCells(r.0, w);
  }

  /** The names of the typed columns whose cast raises. */
  function FailedNames(t: Table, spec: seq<(string, SemType)>): (fs: seq<string>)
    requires WellFormed(t) && AllColumns(t, spec)
    ensures forall i :: 0 <= i < |fs| ==> fs[i] in Keys(spec)
    decreases |spec|
  {
    if spec == [] then [] else Failed(t, spec[0]) + FailedNames(t, spec[1..])
  }

  /** The names typed in `spec` are distinct, as the keys of a dict are. */
  predicate DistinctKeys<V>(spec: seq<(string, V)>)
  {
    forall i, j :: 0 <= i < j < |spec| ==> spec[i].0 != spec[j].0
  }

  lemma {:induction false} CastAllFrom(t: Table, done: seq<(string, SemType)>, spec: seq<(string, SemType)>)
    requires WellFormed(t) && AllColumns(t, spec) && DistinctKeys(spec)
    requires forall i :: 0 <= i < |spec| ==> Lookup(done, spec[i].0).None?
    ensures CastAll(Casted(t, done), spec) == (Casted(t, done + spec), FailedNames(t, spec))
    decreases |spec|
  {
    if spec == [] {
      assert done + spec == done;
    } else {
      var e := spec[0];
      CastColumnAfter(t, done, e);
      forall i | 0 <= i < |spec[1..]| ensures Lookup(done + [e], spec[1..][i].0).None? {
        LookupAppend(done, e, spec[1..][i].0);
        assert spec[1..][i] == spec[i + 1];
      }
      CastAllFrom(t, done + [e], spec[1..]);
      assert done + [e] + spec[1..] == done + spec;
    }
  }

  /** Closed form of `cast_columns`: every typed column is cast on its own
      original cells, every other cell is unchanged, no row is dropped, and
      exactly the integer columns that still hold a null after coercion
      are reported as failed, in loop order; a failure never stops the
      later columns. */
  lemma CastAllResult(t: Table, spec: seq<(string, SemType)>)
    requires WellFormed(t) && AllColumns(t, spec) && DistinctKeys(spec)
    ensures CastAll(t, spec) == (Casted(t, spec), FailedNames(t, spec))
  {
    CastedNothing(t);
    CastAllFrom(t, [], spec);
    assert [] + spec == spec;
  }

  /** A cast cell cast again under the same outcome is unchanged. */
  lemma CastValueTwice(ty: SemType, v: Value, fails: bool)
    ensures CastValue(ty, CastValue(ty, v, fails), fails) == CastValue(ty, v, fails)
  {
    var n := Coerce(v);
    if ty == Integer && !fails && n.Num? {
      TruncIdempotent(n.x);
    }
  }

  /** A float cast of the cells `"10"`, `"abc"` and `"20.5"` gives 10, a
      null and 20.5. */
  lemma FloatCastExample()
    ensures CoerceAll([Str("10"), Str("abc"), Str("20.5")]) == [Num(10.0), Null, Num(20.5)]
  {
    assert FindPoint("10") == None;
    assert DigitsValue("10") == 10;
    assert FindPoint("abc") == None && !AllDigits("abc");
    assert FindPoint("20.5") == Some(2);
    assert "20.5"[..2] == "20" && "20.5"[3..] == "5";
    assert DigitsValue("20") == 20 && DigitsValue("5") == 5 && Pow10(1) == 10;
  }

  /** Re-casting a cast column fails exactly when the first cast did:
      coercion keeps the nulls it produced and keeps every number. */
  lemma CastFailsAgain(t: Table, spec: seq<(string, SemType)>, c: string, ty: SemType)
    requires WellFormed(t) && c in t.cols && Lookup(spec, c) == Some(ty)
    ensures CastFails(Casted(t, spec), c, ty) == CastFails(t, c, ty)
  {
    var u := Casted(t, spec);
    CastedCells(t, spec);
    if ty == Integer {
      if CastFails(t, c, ty) {
        var i :| 0 <= i < |t.rows| && Coerce(t.rows[i][c]).Null?;
        assert u.rows[i][c] == Coerce(t.rows[i][c]);
      } else {
        forall i | 0 <= i < |t.rows| ensures !Coerce(u.rows[i][c]).Null? {
          assert u.rows[i][c] == CastValue(ty, t.rows[i][c], false);
        }
      }
    }
  }

  lemma FailedNamesAgain(t: Table, done: seq<(string, SemType)>, spec: seq<(string, SemType)>)
    requires WellFormed(t) && AllColumns(t, spec)
    requires forall i :: 0 <= i < |spec| ==> Lookup(done, spec[i].0) == Some(spec[i].1)
    ensures FailedNames(Casted(t, done), spec) == FailedNames(t, spec)
    decreases |spec|
  {
    if spec != [] {
      CastFailsAgain(t, done, spec[0].0, spec[0].1);
      FailedNamesAgain(t, done, spec[1..]);
    }
  }

  /** The type `Lookup` finds for a key of a map without repeated keys is
      the one paired with it. */
  lemma LookupDistinct<V>(spec: seq<(string, V)>, i: nat)
    requires DistinctKeys(spec) && i < |spec|
    ensures Lookup(spec, spec[i].0) == Some(spec[i].1)
  {
    if i > 0 {
      LookupDistinct(spec[1..], i - 1);
    }
  }

  /** Casting twice gives what casting once gives, including the list of
      failed columns. */
  lemma CastAllIdempotent(t: Table, spec: seq<(string, SemType)>)
    requires WellFormed(t) && AllColumns(t, spec) && DistinctKeys(spec)
    ensures CastAll(CastAll(t, spec).0, spec) == CastAll(t, spec)
  {
    var u := Casted(t, spec);
    CastAllResult(t, spec);
    CastAllResult(u, spec);
    forall i | 0 <= i < |spec| ensures Lookup(spec, spec[i].0) == Some(spec[i].1) {
      LookupDistinct(spec, i);
    }
    FailedNamesAgain(t, spec, spec);
    CastedCells(t, spec);
    CastedCells(u, spec);
    forall i, c | 0 <= i < |u.rows| && c in u.cols ensures Casted(u, spec).rows[i][c] == u.rows[i][c] {
      match Lookup(spec, c)
      case None =>
      case Some(ty) =>
        CastFailsAgain(t, spec, c, ty);
        CastValueTwice(ty, t.rows[i][c], CastFails(t, c, ty));
    }
    SameCells(Casted(u, spec), u);
  }

  lemma DataTypesDistinct()
    ensures DistinctKeys(DATA_TYPES)
  {
  }

  // =====================================================================
  // rename_columns

  /** The rename map, in the order of its keys. */
  const RENAMES: seq<(string, string)> := [("id_sales", "id_sales_nk"), ("sellingprice", "selling_price")]

  /** The name column `c` gets: its entry in the map, or itself. */
  function RenameName(m: seq<(string, string)>): string -> string
  {
    (c: string) => match Lookup(m, c) case Some(v) => v case None => c
  }

  /** The renamed columns are still distinct, so the result is a table
      with one cell per name. */
  predicate RenameSafe(t: Table, m: seq<(string, string)>)
  {
    Distinct(MapNames(t.cols, RenameName(m)))
  }

  function RenameRow(r: Row, cols: seq<string>, f: string -> string): (s: Row)
    requires r.Keys == Names(cols) && Distinct(MapNames(cols, f))
    ensures s.Keys == Names(MapNames(cols, f))
    ensures forall j :: 0 <= j < |cols| ==> f(cols[j]) in s && s[f(cols[j])] == r[cols[j]]
  {
    var fs := MapNames(cols, f);
    var s := map j | 0 <= j < |cols| :: fs[j] := r[cols[j]];
    assert forall j :: 0 <= j < |cols| ==> fs[j] in s && s[fs[j]] == r[cols[j]];
    s
  }

  /** Some key of the map names a column (the `if valid_columns:` test). */
  predicate AnyPresent(t: Table, m: seq<(string, string)>)
  {
    exists i :: 0 <= i < |m| && m[i].0 in t.cols
  }

  /** `df.rename(columns=...)` with the map restricted to present columns:
      every column keeps its position and its cells and takes its new name;
      nothing happens when no key of the map is a column. */
  function RenameColumns(t: Table, m: seq<(string, string)>): (r: Table)
    requires WellFormed(t) && RenameSafe(t, m)
    ensures WellFormed(r) && |r.rows| == |t.rows|
    ensures r.cols == MapNames(t.cols, RenameName(m))
    ensures forall i, j :: 0 <= i < |t.rows| && 0 <= j < |t.cols| ==>
      RenameName(m)(t.cols[j]) in r.rows[i] && r.rows[i][RenameName(m)(t.cols[j])] == t.rows[i][t.cols[j]]
  {
    if !AnyPresent(t, m) then
      assert MapNames(t.cols, RenameName(m)) == t.cols;
      t
    else
      Table(MapNames(t.cols, RenameName(m)),
        seq(|t.rows|, i requires 0 <= i < |t.rows| => RenameRow(t.rows[i], t.cols, RenameName(m))))
  }

  /** The map read backwards: each new name paired with its old one. */
  function Invert(m: seq<(string, string)>): (w: seq<(string, string)>)
    ensures |w| == |m|
    ensures forall i :: 0 <= i < |m| ==> w[i] == (m[i].1, m[i].0)
  {
    seq(|m|, i requires 0 <= i < |m| => (m[i].1, m[i].0))
  }

  /** Inverting the name map on a name it renames, or on a name it leaves
      alone and that is not a new name, gives back the name. */
  lemma RenameNameBack(m: seq<(string, string)>, c: string)
    requires DistinctKeys(m) && DistinctKeys(Invert(m))
    requires forall i :: 0 <= i < |m| ==> m[i].1 != c || m[i].0 == c
    ensures RenameName(Invert(m))(RenameName(m)(c)) == c
  {
    match Lookup(m, c)
    case None =>
      assert Lookup(Invert(m), c).None?;
    case Some(v) =>
      var i :| 0 <= i < |m| && m[i] == (c, v);
      LookupDistinct(Invert(m), i);
  }

  /** Round trip: when no new name is already a column, renaming with the
      inverted map restores the original table. */
  lemma RenameRoundTrip(t: Table, m: seq<(string, string)>)
    requires WellFormed(t) && RenameSafe(t, m)
    requires DistinctKeys(m) && DistinctKeys(Invert(m))
    requires forall i :: 0 <= i < |m| ==> m[i].1 !in t.cols
    ensures RenameSafe(RenameColumns(t, m), Invert(m))
    ensures RenameColumns(RenameColumns(t, m), Invert(m)) == t
  {
    var f, g := RenameName(m), RenameName(Invert(m));
    var r := RenameColumns(t, m);
    forall j | 0 <= j < |t.cols| ensures g(f(t.cols[j])) == t.cols[j] {
      RenameNameBack(m, t.cols[j]);
    }
    assert MapNames(r.cols, g) == t.cols;
    var b := RenameColumns(r, Invert(m));
    forall i, c | 0 <= i < |t.rows| && c in t.cols ensures b.rows[i][c] == t.rows[i][c] {
      var j :| 0 <= j < |t.cols| && t.cols[j] == c;
      assert r.cols[j] == f(c);
      assert b.rows[i][g(r.cols[j])] == r.rows[i][r.cols[j]];
    }
    SameCells(b, t);
  }

  /** Renaming again changes nothing: once renamed, no key of the map is
      left among the columns. */
  lemma RenameIdempotent(t: Table, m: seq<(string, string)>)
    requires WellFormed(t) && RenameSafe(t, m)
    requires forall i, j :: 0 <= i < |m| && 0 <= j < |m| ==> m[i].1 != m[j].0
    ensures RenameSafe(RenameColumns(t, m), m)
    ensures RenameColumns(RenameColumns(t, m), m) == RenameColumns(t, m)
  {
    var f := RenameName(m);
    var r := RenameColumns(t, m);
    forall j | 0 <= j < |r.cols| ensures Lookup(m, r.cols[j]).None? {
      assert r.cols[j] == f(t.cols[j]);
    }
    assert !AnyPresent(r, m);
    assert MapNames(r.cols, f) == r.cols;
  }

  lemma RenamesWellBehaved()
    ensures DistinctKeys(RENAMES) && DistinctKeys(Invert(RENAMES))
    ensures forall i, j :: 0 <= i < |RENAMES| && 0 <= j < |RENAMES| ==> RENAMES[i].1 != RENAMES[j].0
  {
  }
}

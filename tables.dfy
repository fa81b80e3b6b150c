/** The in-memory table (a pandas DataFrame): an ordered list of distinct
    column names and a sequence of rows, each row a map from every column
    name to its cell. Also the sequence operations the steps are built from. */
module Tables {
  import opened Values

  type Row = map<string, Value>

  datatype Table = Table(cols: seq<string>, rows: seq<Row>)

  predicate Distinct<T(==)>(s: seq<T>)
  {
    forall i, j :: 0 <= i < j < |s| ==> s[i] != s[j]
  }

  function Names(cols: seq<string>): set<string>
  {
    set c | c in cols
  }

  /** Every row has a cell for exactly the named columns. */
  predicate RowsFit(rows: seq<Row>, cols: seq<string>)
  {
    forall i :: 0 <= i < |rows| ==> rows[i].Keys == Names(cols)
  }

  predicate WellFormed(t: Table)
  {
    Distinct(t.cols) && RowsFit(t.rows, t.cols)
  }

  /** The cells of column `c`, top to bottom (`df[c]`). */
  function Column(t: Table, c: string): (vs: seq<Value>)
    requires WellFormed(t) && c in t.cols
    ensures |vs| == |t.rows|
    ensures forall i :: 0 <= i < |vs| ==> vs[i] == t.rows[i][c]
  {
    seq(|t.rows|, i requires 0 <= i < |t.rows| => t.rows[i][c])
  }

  /** `df[c] = vs`: the table with column `c` replaced by the cells `vs`;
      every other cell, the column list and the row count stay as they were. */
  function ReplaceColumn(t: Table, c: string, vs: seq<Value>): (r: Table)
    requires WellFormed(t) && c in t.cols && |vs| == |t.rows|
    ensures WellFormed(r) && r.cols == t.cols && |r.rows| == |t.rows|
    ensures forall i :: 0 <= i < |r.rows| ==> r.rows[i][c] == vs[i]
    ensures forall i, d :: 0 <= i < |r.rows| && d in t.cols && d != c ==> r.rows[i][d] == t.rows[i][d]
  {
    Table(t.cols, seq(|t.rows|, i requires 0 <= i < |t.rows| => t.rows[i][c := vs[i]]))
  }

  /** The elements of `s` that satisfy `keep`, in their original order. */
  function Filter<T>(s: seq<T>, keep: T -> bool): (r: seq<T>)
    ensures |r| <= |s|
    ensures forall i :: 0 <= i < |r| ==> r[i] in s && keep(r[i])
    ensures forall i :: 0 <= i < |s| && keep(s[i]) ==> s[i] in r
  {
    if s == [] then []
    else (if keep(s[0]) then [s[0]] else []) + Filter(s[1..], keep)
  }

  /** `a` is `b` with some elements left out: the elements of `a` occur in
      `b` in the same order. */
  predicate IsSubsequence<T(==)>(a: seq<T>, b: seq<T>)
    decreases |b|
  {
    if a == [] then true
    else if b == [] then false
    else if a[0] == b[0] then IsSubsequence(a[1..], b[1..])
    else IsSubsequence(a, b[1..])
  }

  /** Filtering keeps the original order. */
  lemma {:induction false} FilterIsSubsequence<T>(s: seq<T>, keep: T -> bool)
    ensures IsSubsequence(Filter(s, keep), s)
    decreases |s|
  {
    if s != [] {
      FilterIsSubsequence(s[1..], keep);
      var rest := Filter(s[1..], keep);
      if keep(s[0]) {
        assert Filter(s, keep) == [s[0]] + rest;
        assert ([s[0]] + rest)[1..] == rest;
      } else {
        assert Filter(s, keep) == rest;
        if rest != [] {
          assert keep(rest[0]);
        }
      }
    }
  }

  /** Filtering a concatenation filters each part: rows kept from an earlier
      block stay before rows kept from a later one. */
  lemma {:induction false} FilterAppend<T>(a: seq<T>, b: seq<T>, keep: T -> bool)
    ensures Filter(a + b, keep) == Filter(a, keep) + Filter(b, keep)
    decreases |a|
  {
    if a == [] {
      assert a + b == b;
    } else {
      assert (a + b)[0] == a[0];
      assert (a + b)[1..] == a[1..] + b;
      FilterAppend(a[1..], b, keep);
    }
  }

  /** Filtering with `keep` and then with `also` is filtering once with
      their conjunction `both`. */
  lemma {:induction false} FilterFilter<T>(s: seq<T>, keep: T -> bool, also: T -> bool, both: T -> bool)
    requires forall x :: both(x) == (keep(x) && also(x))
    ensures Filter(Filter(s, keep), also) == Filter(s, both)
    decreases |s|
  {
    if s != [] {
      FilterFilter(s[1..], keep, also, both);
      var rest := Filter(s[1..], keep);
      if keep(s[0]) {
        assert Filter(s, keep) == [s[0]] + rest;
        FilterAppend([s[0]], rest, also);
        assert Filter([s[0]], also) == (if also(s[0]) then [s[0]] else []) + Filter([s[0]][1..], also);
      } else {
        assert Filter(s, keep) == rest;
      }
    }
  }

  /** A filter that keeps every element changes nothing. */
  lemma {:induction false} FilterKeepsAll<T>(s: seq<T>, keep: T -> bool)
    requires forall i :: 0 <= i < |s| ==> keep(s[i])
    ensures Filter(s, keep) == s
    decreases |s|
  {
    if s != [] {
      FilterKeepsAll(s[1..], keep);
    }
  }

  /** A filter that keeps no element leaves nothing. */
  lemma {:induction false} FilterKeepsNone<T>(s: seq<T>, keep: T -> bool)
    requires forall i :: 0 <= i < |s| ==> !keep(s[i])
    ensures Filter(s, keep) == []
    decreases |s|
  {
    if s != [] {
      FilterKeepsNone(s[1..], keep);
    }
  }

  /** When at most one element satisfies `keep`, the filter keeps at most one. */
  lemma {:induction false} FilterAtMostOne<T>(s: seq<T>, keep: T -> bool)
    requires forall i, j :: 0 <= i < j < |s| && keep(s[i]) ==> !keep(s[j])
    ensures |Filter(s, keep)| <= 1
    decreases |s|
  {
    if s != [] {
      if keep(s[0]) {
        assert forall i :: 0 <= i < |s[1..]| ==> s[1..][i] == s[i + 1];
        FilterKeepsNone(s[1..], keep);
      } else {
        FilterAtMostOne(s[1..], keep);
      }
    }
  }

  /** Keeping one element with an index gives at least that element. */
  lemma {:induction false} FilterFindsWitness<T>(s: seq<T>, keep: T -> bool, i: nat)
    requires i < |s| && keep(s[i])
    ensures Filter(s, keep) != []
  {
  }

  /** `cols` with each name mapped through `f`, position by position. */
  function MapNames(cols: seq<string>, f: string -> string): (r: seq<string>)
    ensures |r| == |cols|
    ensures forall i :: 0 <= i < |r| ==> r[i] == f(cols[i])
  {
    seq(|cols|, i requires 0 <= i < |cols| => f(cols[i]))
  }

  lemma AppendAssoc<T>(x: seq<T>, y: seq<T>, z: seq<T>)
    ensures x + (y + z) == x + y + z
  {
  }

  /** Renaming preserves inclusion of column lists. */
  lemma MapNamesWithin(cols: seq<string>, names: seq<string>, f: string -> string)
    requires forall c :: c in cols ==> c in names
    ensures forall c :: c in MapNames(cols, f) ==> c in MapNames(names, f)
  {
    var m := MapNames(names, f);
    forall c | c in MapNames(cols, f) ensures c in m {
      var j :| 0 <= j < |cols| && MapNames(cols, f)[j] == c;
      assert cols[j] in names;
      var s :| 0 <= s < |names| && names[s] == cols[j];
      assert m[s] == c;
    }
  }

  /** Filtering a list without repeats gives a list without repeats. */
  lemma {:induction false} FilterDistinct<T>(s: seq<T>, keep: T -> bool)
    requires Distinct(s)
    ensures Distinct(Filter(s, keep))
    decreases |s|
  {
    if s != [] {
      FilterDistinct(s[1..], keep);
      var rest := Filter(s[1..], keep);
      assert s[0] !in s[1..];
    }
  }

  /** Filtering keeps every copy of an element it accepts and no copy of one
      it rejects. */
  lemma {:induction false} FilterCount<T>(s: seq<T>, keep: T -> bool)
    ensures forall x :: multiset(Filter(s, keep))[x] == if keep(x) then multiset(s)[x] else 0
    decreases |s|
  {
    if s != [] {
      FilterCount(s[1..], keep);
      var head := if keep(s[0]) then [s[0]] else [];
      assert s == [s[0]] + s[1..];
      assert multiset(s) == multiset([s[0]]) + multiset(s[1..]);
      assert Filter(s, keep) == head + Filter(s[1..], keep);
      assert multiset(Filter(s, keep)) == multiset(head) + multiset(Filter(s[1..], keep));
    }
  }

  /** Every element is kept by exactly one of a filter and its complement. */
  lemma {:induction false} FilterSplit<T>(s: seq<T>, keep: T -> bool, drop: T -> bool)
    requires forall x :: drop(x) == !keep(x)
    ensures |Filter(s, keep)| + |Filter(s, drop)| == |s|
    decreases |s|
  {
    if s != [] {
      FilterSplit(s[1..], keep, drop);
    }
  }

  lemma RowsFitAppend(a: seq<Row>, b: seq<Row>, cols: seq<string>)
    requires RowsFit(a, cols) && RowsFit(b, cols)
    ensures RowsFit(a + b, cols)
  {
    forall i | 0 <= i < |a + b| ensures (a + b)[i].Keys == Names(cols) {
      if i >= |a| {
        assert (a + b)[i] == b[i - |a|];
      }
    }
  }

  /** Rows of a well-formed table that are kept by a filter still fit its columns. */
  lemma FilterRowsFit(rows: seq<Row>, cols: seq<string>, keep: Row -> bool)
    requires RowsFit(rows, cols)
    ensures RowsFit(Filter(rows, keep), cols)
  {
    var r := Filter(rows, keep);
    forall i | 0 <= i < |r| ensures r[i].Keys == Names(cols) {
      assert r[i] in rows;
    }
  }

  /** Two well-formed tables with the same columns, the same number of rows
      and the same cells are the same table. */
  lemma {:induction false} SameCells(a: Table, b: Table)
    requires WellFormed(a) && WellFormed(b) && a.cols == b.cols && |a.rows| == |b.rows|
    requires forall i, c :: 0 <= i < |a.rows| && c in a.cols ==> a.rows[i][c] == b.rows[i][c]
    ensures a == b
  {
    forall i | 0 <= i < |a.rows| ensures a.rows[i] == b.rows[i] {
      assert a.rows[i].Keys == b.rows[i].Keys;
      forall c | c in a.rows[i] ensures a.rows[i][c] == b.rows[i][c] {
        assert c in a.cols;
      }
    }
  }

  lemma NamesAppend(a: seq<string>, b: seq<string>)
    ensures Names(a + b) == Names(a) + Names(b)
  {
  }

  /** No name occurs in both column lists. */
  predicate Disjoint(a: seq<string>, b: seq<string>)
  {
    forall c :: c in a ==> c !in b
  }

  /** Appending a list of new distinct names keeps the names distinct. */
  lemma DistinctAppend(a: seq<string>, b: seq<string>)
    requires Distinct(a) && Distinct(b) && Disjoint(a, b)
    ensures Distinct(a + b)
  {
    forall i, j | 0 <= i < j < |a + b| ensures (a + b)[i] != (a + b)[j] {
      if i < |a| && j >= |a| {
        assert (a + b)[i] in a;
        assert (a + b)[j] == b[j - |a|];
      }
    }
  }
}

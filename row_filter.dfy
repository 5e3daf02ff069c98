/**
 * `keep_not_na_values`: for each checked column in turn, keep only the rows
 * whose cell in that column is present.
 */
module RowFilter {
  import opened Wrappers
  import opened Tables

  /** The `columns_to_check` argument: a single column name or a list of them. */
  datatype ColumnsToCheck = OneColumn(name: string) | ColumnList(names: seq<string>)

  /** A single name is treated as the one-element list holding it. */
  function CheckedNames(c: ColumnsToCheck): seq<string> {
    match c
    case OneColumn(n) => [n]
    case ColumnList(ns) => ns
  }

  predicate HasValue(row: Row, j: nat) {
    j < |row| && row[j].Val?
  }

  /** pandas' `notna()` on column `j`, as a row filter. */
  function HasValueAt(j: nat): Row -> bool {
    row => HasValue(row, j)
  }

  /** Every column at the positions `js` is present in the row. */
  function HasValuesAt(js: seq<nat>): Row -> bool {
    row => forall k :: 0 <= k < |js| ==> HasValue(row, js[k])
  }

  /** What `keep_not_na_values` returns, stated over all checked columns at once. */
  function KeepNotNa(t: Table, toCheck: ColumnsToCheck): Result<Table>
    requires WellFormed(t)
  {
    var names := CheckedNames(toCheck);
    match FirstUnknown(t.columns, names)
    case Some(n) => Err(UnknownColumn(n))
    case None => Ok(Table(t.columns, Filter(HasValuesAt(Positions(t.columns, names)), t.rows)))
  }

  lemma PositionsExtend(columns: seq<string>, names: seq<string>, i: nat)
    requires i < |names| && forall n :: n in names[..i + 1] ==> n in columns
    ensures forall n :: n in names[..i] ==> n in columns
    ensures Positions(columns, names[..i + 1]) == Positions(columns, names[..i]) + [IndexOf(columns, names[i]).value]
  {
    assert forall n :: n in names[..i] ==> n in names[..i + 1];
  }

  /** Checking one more column is filtering the rows that passed so far by that column. */
  lemma CheckOneMore(columns: seq<string>, names: seq<string>, i: nat, rows: seq<Row>)
    requires i < |names| && names[i] in columns
    requires forall n :: n in names[..i] ==> n in columns
    ensures forall n :: n in names[..i + 1] ==> n in columns
    ensures Filter(HasValueAt(IndexOf(columns, names[i]).value), Filter(HasValuesAt(Positions(columns, names[..i])), rows))
         == Filter(HasValuesAt(Positions(columns, names[..i + 1])), rows)
  {
    assert names[..i + 1] == names[..i] + [names[i]];
    PositionsExtend(columns, names, i);
    var js := Positions(columns, names[..i]);
    var j := IndexOf(columns, names[i]).value;
    assert Positions(columns, names[..i + 1]) == js + [j];
    forall row: Row
      ensures HasValuesAt(js + [j])(row) == (HasValuesAt(js)(row) && HasValueAt(j)(row))
    {
      if HasValuesAt(js)(row) && HasValueAt(j)(row) {
        assert forall k :: 0 <= k < |js + [j]| ==> HasValue(row, (js + [j])[k]) by {
          forall k | 0 <= k < |js + [j]| ensures HasValue(row, (js + [j])[k]) {
            if k < |js| { assert HasValue(row, js[k]); }
          }
        }
      }
      if HasValuesAt(js + [j])(row) {
        assert HasValue(row, (js + [j])[|js|]);
        assert forall k :: 0 <= k < |js| ==> HasValue(row, js[k]) by {
          forall k | 0 <= k < |js| ensures HasValue(row, js[k]) {
            assert HasValue(row, (js + [j])[k]);
          }
        }
      }
    }
    FilterCompose(HasValuesAt(js), HasValueAt(j), HasValuesAt(js + [j]), rows);
  }

  /** Checking no column keeps every row. */
  lemma CheckNothing(columns: seq<string>, rows: seq<Row>)
    ensures Filter(HasValuesAt(Positions(columns, [])), rows) == rows
  {
    assert Positions(columns, []) == [];
    FilterKeepsAll(HasValuesAt([]), rows);
  }

  /** The filter fails on the first checked name that is not a column. */
  lemma UnknownAt(t: Table, toCheck: ColumnsToCheck, i: nat)
    requires WellFormed(t)
    requires i < |CheckedNames(toCheck)| && CheckedNames(toCheck)[i] !in t.columns
    requires forall n :: n in CheckedNames(toCheck)[..i] ==> n in t.columns
    ensures KeepNotNa(t, toCheck) == Err(UnknownColumn(CheckedNames(toCheck)[i]))
  {
    var names := CheckedNames(toCheck);
    assert forall l :: 0 <= l < i ==> names[l] == names[..i][l];
    assert FirstUnknown(t.columns, CheckedNames(toCheck)) == Some(CheckedNames(toCheck)[i]);
  }

  /** When every checked name is a column, the filter keeps the rows with all checked cells present. */
  lemma AllKnown(t: Table, toCheck: ColumnsToCheck, rows: seq<Row>)
    requires WellFormed(t)
    requires forall n :: n in CheckedNames(toCheck) ==> n in t.columns
    requires rows == Filter(HasValuesAt(Positions(t.columns, CheckedNames(toCheck))), t.rows)
    ensures KeepNotNa(t, toCheck) == Ok(Table(t.columns, rows))
  {
    assert FirstUnknown(t.columns, CheckedNames(toCheck)) == None;
  }

  /**
   * `keep_not_na_values(df, columns_to_check)`: the loop that re-filters the
   * table once per checked column.
   */
  method KeepNotNaValues(t: Table, toCheck: ColumnsToCheck) returns (r: Result<Table>)
    requires WellFormed(t)
    ensures r == KeepNotNa(t, toCheck)
  {
    var names := CheckedNames(toCheck);
    var rows := t.rows;
    assert names[..0] == [];
    CheckNothing(t.columns, t.rows);
    for i := 0 to |names|
      invariant forall n :: n in names[..i] ==> n in t.columns
      invariant rows == Filter(HasValuesAt(Positions(t.columns, names[..i])), t.rows)
    {
      var j := IndexOf(t.columns, names[i]);
      if j.None? {
        r := Err(UnknownColumn(names[i]));
        assert r == KeepNotNa(t, toCheck) by { UnknownAt(t, toCheck, i); }
        return;
      }
      rows := Filter(HasValueAt(j.value), rows);
      assert (forall n :: n in names[..i + 1] ==> n in t.columns)
          && rows == Filter(HasValuesAt(Positions(t.columns, names[..i + 1])), t.rows) by {
        CheckOneMore(t.columns, names, i, t.rows);
      }
    }
    assert names[..|names|] == names;
    AllKnown(t, toCheck, rows);
    r := Ok(Table(t.columns, rows));
  }

  // ----- Properties ----------------------------------------------------------

  /** The filter fails exactly when a checked name is not a column, and then names the first such name. */
  lemma UnknownColumnFails(t: Table, toCheck: ColumnsToCheck)
    requires WellFormed(t)
    ensures KeepNotNa(t, toCheck).Err? <==> exists n :: n in CheckedNames(toCheck) && n !in t.columns
    ensures KeepNotNa(t, toCheck).Err? ==>
      exists k :: 0 <= k < |CheckedNames(toCheck)|
        && KeepNotNa(t, toCheck).error == UnknownColumn(CheckedNames(toCheck)[k])
        && CheckedNames(toCheck)[k] !in t.columns
        && forall l :: 0 <= l < k ==> CheckedNames(toCheck)[l] in t.columns
  {
    var names := CheckedNames(toCheck);
    if KeepNotNa(t, toCheck).Err? {
      var k :| 0 <= k < |names| && names[k] !in t.columns && forall l :: 0 <= l < k ==> names[l] in t.columns by {
        FirstMissing(t.columns, names);
      }
    }
  }

  /**
   * On success the columns are unchanged, the rows are a subsequence of the
   * input's (so never more of them), and a row is kept exactly when all its
   * checked cells are present.
   */
  lemma KeptRowsAreComplete(t: Table, toCheck: ColumnsToCheck)
    requires WellFormed(t) && KeepNotNa(t, toCheck).Ok?
    ensures var out := KeepNotNa(t, toCheck).value;
      && out.columns == t.columns
      && Subseq(out.rows, t.rows)
      && |out.rows| <= |t.rows|
      && forall row: Row :: row in out.rows <==>
           row in t.rows && forall n :: n in CheckedNames(toCheck) ==>
             IndexOf(t.columns, n).Some? && row[IndexOf(t.columns, n).value].Val?
  {
    var names := CheckedNames(toCheck);
    var js := Positions(t.columns, names);
    var out := KeepNotNa(t, toCheck).value;
    assert FirstUnknown(t.columns, names).None?;
    SubseqBounds(out.rows, t.rows);
    forall row: Row | row in t.rows
      ensures HasValuesAt(js)(row) <==> forall n :: n in names ==>
        IndexOf(t.columns, n).Some? && row[IndexOf(t.columns, n).value].Val?
    {
      var i :| 0 <= i < |t.rows| && t.rows[i] == row;
      assert |row| == |t.columns|;
      if HasValuesAt(js)(row) {
        forall n | n in names ensures IndexOf(t.columns, n).Some? && row[IndexOf(t.columns, n).value].Val? {
          var k :| 0 <= k < |names| && names[k] == n;
          assert HasValue(row, js[k]);
        }
      }
      if forall n :: n in names ==> IndexOf(t.columns, n).Some? && row[IndexOf(t.columns, n).value].Val? {
        forall k | 0 <= k < |js| ensures HasValue(row, js[k]) {
          assert names[k] in names;
        }
      }
    }
  }

  /** Passing one name behaves exactly as passing the list holding only that name. */
  lemma OneNameIsOneElementList(t: Table, name: string)
    requires WellFormed(t)
    ensures KeepNotNa(t, OneColumn(name)) == KeepNotNa(t, ColumnList([name]))
  {
  }
}

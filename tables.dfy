/**
 * The abstract table the utilities work on: a list of column names and a
 * list of rows, each row holding one cell per column, a cell being either
 * the missing-value marker or a value. Also the generic sequence toolkit
 * shared by the operations: a filter, the subsequence relation, and the
 * selection of columns by position.
 */
module Tables {
  import opened Wrappers

  /** A cell: the missing-value marker (pandas' NaN/None) or a present value. */
  datatype Cell = Missing | Val(text: string)

  type Row = seq<Cell>

  datatype Table = Table(columns: seq<string>, rows: seq<Row>)

  /** The ways the utilities fail; each one is a Python exception raised by the source. */
  datatype Error =
    | UnsupportedFileFormat(format: string)  // `assert file_format == "csv"`
    | InvalidColumnsMapping                  // `assert isinstance(columns_mapping, dict) or ...`
    | NoTableSource                          // `assert file_name is not None or df_to_use is not None`
    | NothingToConcatenate                   // `pd.concat([])` raises ValueError
    | UnknownColumn(name: string)            // KeyError on a column label

  datatype Result<T> = Ok(value: T) | Err(error: Error)

  predicate Rectangular(rows: seq<Row>, width: nat) {
    forall i :: 0 <= i < |rows| ==> |rows[i]| == width
  }

  /** Every row has exactly one cell per column, as in any data frame. */
  predicate WellFormed(t: Table) {
    Rectangular(t.rows, |t.columns|)
  }

  /** The position of the first column called `name`, if any. */
  function IndexOf(names: seq<string>, name: string): (r: Option<nat>)
    ensures r.None? <==> name !in names
    ensures r.Some? ==> r.value < |names| && names[r.value] == name && name !in names[..r.value]
  {
    if names == [] then None
    else if names[0] == name then Some(0)
    else match IndexOf(names[1..], name)
      case None => None
      case Some(k) =>
        assert names[..k + 1] == [names[0]] + names[1..][..k];
        Some(k + 1)
  }

  // ----- Subsequences --------------------------------------------------------

  /** `a` is `b` with some elements removed, the others kept in order. */
  ghost predicate Subseq<T>(a: seq<T>, b: seq<T>)
    decreases |b|
  {
    if b == [] then a == []
    else
      || Subseq(a, b[..|b| - 1])
      || (a != [] && a[|a| - 1] == b[|b| - 1] && Subseq(a[..|a| - 1], b[..|b| - 1]))
  }

  lemma {:induction false} SubseqBounds<T>(a: seq<T>, b: seq<T>)
    requires Subseq(a, b)
    ensures |a| <= |b|
    ensures forall x :: x in a ==> x in b
    decreases |b|
  {
    if b != [] {
      var b' := b[..|b| - 1];
      assert b == b' + [b[|b| - 1]];
      if Subseq(a, b') {
        SubseqBounds(a, b');
      } else {
        SubseqBounds(a[..|a| - 1], b');
        assert a == a[..|a| - 1] + [a[|a| - 1]];
      }
    }
  }

  // ----- Filtering -----------------------------------------------------------

  /** The elements of `s` that satisfy `keep`, in their original order. */
  function Filter<T(!new)>(keep: T -> bool, s: seq<T>): (r: seq<T>)
    ensures forall x :: x in r <==> x in s && keep(x)
    ensures Subseq(r, s)
    decreases |s|
  {
    if s == [] then []
    else
      var s' := s[..|s| - 1];
      var x := s[|s| - 1];
      assert s == s' + [x];
      var r' := Filter(keep, s');
      if keep(x) then
        assert (r' + [x])[..|r' + [x]| - 1] == r';
        r' + [x]
      else r'
  }

  /** Filtering by `f` and then by `g` is filtering by their conjunction `h`. */
  lemma {:induction false} FilterCompose<T(!new)>(f: T -> bool, g: T -> bool, h: T -> bool, s: seq<T>)
    requires forall x :: h(x) == (f(x) && g(x))
    ensures Filter(g, Filter(f, s)) == Filter(h, s)
    decreases |s|
  {
    if s != [] {
      var s' := s[..|s| - 1];
      FilterCompose(f, g, h, s');
      var x := s[|s| - 1];
      if f(x) {
        assert Filter(f, s) == Filter(f, s') + [x];
        var p := Filter(f, s) ;
        assert p[..|p| - 1] == Filter(f, s');
      }
    }
  }

  /** A filter every element passes changes nothing. */
  lemma {:induction false} FilterKeepsAll<T(!new)>(f: T -> bool, s: seq<T>)
    requires forall x :: x in s ==> f(x)
    ensures Filter(f, s) == s
    decreases |s|
  {
    if s != [] {
      var s' := s[..|s| - 1];
      assert forall x :: x in s' ==> x in s;
      FilterKeepsAll(f, s');
      assert s == s' + [s[|s| - 1]];
    }
  }

  /** The filter of the names that belong to `names`. */
  function InList(names: seq<string>): string -> bool {
    c => c in names
  }

  // ----- Selecting columns by position ---------------------------------------

  predicate ValidIndices(ks: seq<nat>, n: nat) {
    forall k :: 0 <= k < |ks| ==> ks[k] < n
  }

  /** The positions at which `mask` holds, in increasing order: exactly those positions and no others. */
  function Selected(mask: seq<bool>): (ks: seq<nat>)
    ensures ValidIndices(ks, |mask|)
    ensures forall k :: 0 <= k < |ks| ==> mask[ks[k]]
    ensures forall k, l :: 0 <= k < l < |ks| ==> ks[k] < ks[l]
    ensures forall j :: 0 <= j < |mask| && mask[j] ==> j in ks
    decreases |mask|
  {
    if mask == [] then []
    else
      var m' := mask[..|mask| - 1];
      var ks' := Selected(m');
      assert forall k :: 0 <= k < |ks'| ==> mask[ks'[k]] == m'[ks'[k]];
      if mask[|mask| - 1] then ks' + [|mask| - 1] else ks'
  }

  /** The elements of `s` at positions `ks`. */
  function Project<T>(s: seq<T>, ks: seq<nat>): seq<T>
    requires ValidIndices(ks, |s|)
  {
    seq(|ks|, k requires 0 <= k < |ks| => s[ks[k]])
  }

  /** `r` holds exactly the columns of `t` at positions `ks`, with their names and all their cells. */
  ghost predicate KeepsColumns(t: Table, r: Table, ks: seq<nat>) {
    && WellFormed(t)
    && ValidIndices(ks, |t.columns|)
    && |r.columns| == |ks|
    && |r.rows| == |t.rows|
    && (forall k :: 0 <= k < |ks| ==> r.columns[k] == t.columns[ks[k]])
    && (forall i, k :: 0 <= i < |t.rows| && 0 <= k < |ks| ==> |r.rows[i]| == |ks| && r.rows[i][k] == t.rows[i][ks[k]])
  }

  function SelectColumns(t: Table, ks: seq<nat>): (r: Table)
    requires WellFormed(t) && ValidIndices(ks, |t.columns|)
    ensures WellFormed(r) && KeepsColumns(t, r, ks)
  {
    Table(Project(t.columns, ks), seq(|t.rows|, i requires 0 <= i < |t.rows| => Project(t.rows[i], ks)))
  }

  /** For each column of `columns`, whether it survives dropping `names`. */
  function DropMask(columns: seq<string>, names: seq<string>): (m: seq<bool>)
    ensures |m| == |columns|
  {
    seq(|columns|, j requires 0 <= j < |columns| => columns[j] !in names)
  }

  /**
   * pandas' `df.drop(columns=names)` when every name is a column label:
   * every column whose name is in `names` is gone, every other column
   * survives, in its original relative order and with all its cells.
   */
  function DropColumns(t: Table, names: seq<string>): (r: Table)
    requires WellFormed(t)
    ensures WellFormed(r)
    ensures KeepsColumns(t, r, Selected(DropMask(t.columns, names)))
    ensures forall c :: c in r.columns <==> c in t.columns && c !in names
  {
    var ks := Selected(DropMask(t.columns, names));
    var r := SelectColumns(t, ks);
    assert forall c :: c in t.columns && c !in names ==> c in r.columns by {
      forall c | c in t.columns && c !in names ensures c in r.columns {
        var j :| 0 <= j < |t.columns| && t.columns[j] == c;
        assert j in ks;
        var k :| 0 <= k < |ks| && ks[k] == j;
        assert r.columns[k] == c;
      }
    }
    r
  }

  /** Dropping no names leaves the table as it is. */
  lemma DropNothing(t: Table)
    requires WellFormed(t)
    ensures DropColumns(t, []) == t
  {
    var ks := Selected(DropMask(t.columns, []));
    SelectedAll(DropMask(t.columns, []));
    var r := DropColumns(t, []);
    assert r.columns == t.columns;
    forall i | 0 <= i < |t.rows| ensures r.rows[i] == t.rows[i] {
      forall k | 0 <= k < |ks| ensures r.rows[i][k] == t.rows[i][k] {
        assert ks[k] == k;
      }
    }
    assert r.rows == t.rows;
  }

  /** A mask that holds everywhere selects every position. */
  lemma {:induction false} SelectedAll(mask: seq<bool>)
    requires forall j :: 0 <= j < |mask| ==> mask[j]
    ensures Selected(mask) == seq(|mask|, j => j)
    decreases |mask|
  {
    if mask != [] {
      SelectedAll(mask[..|mask| - 1]);
    }
  }

  // ----- Looking up several columns -----------------------------------------

  /** The first name of `names` that is not in `columns`: the label pandas' KeyError reports. */
  function FirstUnknown(columns: seq<string>, names: seq<string>): (r: Option<string>)
    ensures r.None? <==> forall n :: n in names ==> n in columns
    ensures r.Some? ==> r.value in names && r.value !in columns
    ensures forall k :: 0 <= k < |names| && names[k] !in columns && (forall l :: 0 <= l < k ==> names[l] in columns) ==>
                r == Some(names[k])
    decreases |names|
  {
    if names == [] then None
    else if names[0] !in columns then Some(names[0])
    else
      var tail := names[1..];
      var r := FirstUnknown(columns, tail);
      assert forall k :: 1 <= k < |names| ==> names[k] == tail[k - 1];
      assert forall k :: 0 <= k < |names| && names[k] !in columns && (forall l :: 0 <= l < k ==> names[l] in columns) ==>
                0 < k && tail[k - 1] !in columns && (forall l :: 0 <= l < k - 1 ==> tail[l] in columns);
      r
  }

  /** The position of each named column (the first column of that name). */
  function Positions(columns: seq<string>, names: seq<string>): (js: seq<nat>)
    requires forall n :: n in names ==> n in columns
    ensures |js| == |names| && ValidIndices(js, |columns|)
    ensures forall k :: 0 <= k < |names| ==> columns[js[k]] == names[k]
  {
    seq(|names|, k requires 0 <= k < |names| => IndexOf(columns, names[k]).value)
  }

  /** Some name is missing, so there is a first missing name. */
  lemma {:induction false} FirstMissing(columns: seq<string>, names: seq<string>)
    requires exists n :: n in names && n !in columns
    ensures exists k :: 0 <= k < |names| && names[k] !in columns && forall l :: 0 <= l < k ==> names[l] in columns
    decreases |names|
  {
    if names[0] in columns {
      assert exists n :: n in names[1..] && n !in columns;
      FirstMissing(columns, names[1..]);
      var k :| 0 <= k < |names[1..]| && names[1..][k] !in columns && forall l :: 0 <= l < k ==> names[1..][l] in columns;
      assert names[k + 1] !in columns;
      assert forall l :: 0 <= l < k + 1 ==> names[l] in columns by {
        forall l | 0 <= l < k + 1 ensures names[l] in columns {
          if l > 0 { assert names[l] == names[1..][l - 1]; }
        }
      }
    } else {
      assert names[0] !in columns;
    }
  }
}

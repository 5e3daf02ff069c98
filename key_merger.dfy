/**
 * `merge_files_by_key`: the inner join of two tables on key columns
 * (`pd.merge(how='inner', on=..., suffixes=(None, "_merged"))`), then the
 * removal of every column whose name contains `_merged`.
 */
module KeyMerger {
  import opened Wrappers
  import opened Text
  import opened Tables

  /** The suffix the join gives a right-hand column whose name the left table also has. */
  const MergedSuffix: string := "_merged"

  /** The `on` argument: one key column or a list of them. */
  datatype JoinOn = OnColumn(name: string) | OnColumns(names: seq<string>)

  function KeyNames(on: JoinOn): seq<string> {
    match on
    case OnColumn(n) => [n]
    case OnColumns(ns) => ns
  }

  /** The names present in both column lists, in the left table's order. */
  function Common(left: seq<string>, right: seq<string>): seq<string> {
    Filter(InList(right), left)
  }

  /**
   * Where the join reads its cells: the key positions on each side and the
   * right-hand positions it copies (every right column that is not a key).
   */
  datatype JoinPlan = JoinPlan(leftKeys: seq<nat>, rightKeys: seq<nat>, rightKept: seq<nat>)

  predicate PlanFits(p: JoinPlan, wl: nat, wr: nat) {
    && |p.leftKeys| == |p.rightKeys|
    && ValidIndices(p.leftKeys, wl)
    && ValidIndices(p.rightKeys, wr)
    && ValidIndices(p.rightKept, wr)
  }

  function PlanFor(left: seq<string>, right: seq<string>, keys: seq<string>): (p: JoinPlan)
    requires forall k :: k in keys ==> k in left && k in right
    ensures PlanFits(p, |left|, |right|)
  {
    JoinPlan(Positions(left, keys), Positions(right, keys), Selected(DropMask(right, keys)))
  }

  /** The two rows agree on every key. */
  predicate KeysMatch(p: JoinPlan, l: Row, r: Row) {
    forall k :: 0 <= k < |p.leftKeys| ==>
      k < |p.rightKeys| && p.leftKeys[k] < |l| && p.rightKeys[k] < |r| && l[p.leftKeys[k]] == r[p.rightKeys[k]]
  }

  /** The joined row: the whole left row, then the right row's non-key cells. */
  function Combine(p: JoinPlan, l: Row, r: Row): Row
    requires ValidIndices(p.rightKept, |r|)
  {
    l + Project(r, p.rightKept)
  }

  /** The joined rows one left row `l` yields against the right rows `rs`, in their order. */
  function MatchesOf(p: JoinPlan, l: Row, rs: seq<Row>, wr: nat): seq<Row>
    requires Rectangular(rs, wr) && ValidIndices(p.rightKept, wr)
    decreases |rs|
  {
    if rs == [] then []
    else
      var r := rs[|rs| - 1];
      MatchesOf(p, l, rs[..|rs| - 1], wr) + (if KeysMatch(p, l, r) then [Combine(p, l, r)] else [])
  }

  /** The nested-loop inner join: for each left row in order, its matches among the right rows. */
  function JoinRows(p: JoinPlan, ls: seq<Row>, rs: seq<Row>, wr: nat): seq<Row>
    requires Rectangular(rs, wr) && ValidIndices(p.rightKept, wr)
    decreases |ls|
  {
    if ls == [] then [] else JoinRows(p, ls[..|ls| - 1], rs, wr) + MatchesOf(p, ls[|ls| - 1], rs, wr)
  }

  /** The number of right rows that match `l`. */
  function MatchCount(p: JoinPlan, l: Row, rs: seq<Row>): nat
    decreases |rs|
  {
    if rs == [] then 0
    else MatchCount(p, l, rs[..|rs| - 1]) + (if KeysMatch(p, l, rs[|rs| - 1]) then 1 else 0)
  }

  /** The number of matching (left row, right row) pairs. */
  function PairCount(p: JoinPlan, ls: seq<Row>, rs: seq<Row>): nat
    decreases |ls|
  {
    if ls == [] then 0 else PairCount(p, ls[..|ls| - 1], rs) + MatchCount(p, ls[|ls| - 1], rs)
  }

  /** The name a right-hand column gets in the join: suffixed when the left table has that name too. */
  function SuffixedName(left: seq<string>, c: string): string {
    if c in left then c + MergedSuffix else c
  }

  /** The join's columns: every left column, then the right non-key columns, suffixed where they clash. */
  function JoinedColumns(left: seq<string>, right: seq<string>, p: JoinPlan): seq<string>
    requires ValidIndices(p.rightKept, |right|)
  {
    left + seq(|p.rightKept|, k requires 0 <= k < |p.rightKept| => SuffixedName(left, right[p.rightKept[k]]))
  }

  /** `pd.merge(left, right, how='inner', on=keys, suffixes=(None, "_merged"))`. */
  function Joined(left: Table, right: Table, keys: seq<string>): (t: Table)
    requires WellFormed(left) && WellFormed(right)
    requires forall k :: k in keys ==> k in left.columns && k in right.columns
    ensures WellFormed(t)
  {
    var p := PlanFor(left.columns, right.columns, keys);
    JoinRowsRectangular(p, left.rows, right.rows, |left.columns|, |right.columns|);
    Table(JoinedColumns(left.columns, right.columns, p), JoinRows(p, left.rows, right.rows, |right.columns|))
  }

  /** Whether a column name contains the join suffix. */
  const IsMarked: string -> bool := c => Contains(c, MergedSuffix)

  /** The table without every column whose name contains the join suffix. */
  function WithoutMarked(t: Table): Table
    requires WellFormed(t)
  {
    var toDrop := Filter(IsMarked, t.columns);
    if toDrop == [] then t else DropColumns(t, toDrop)
  }

  /** What `merge_files_by_key` returns, or the error it raises. */
  function Merge(left: Table, right: Table, on: JoinOn, fileFormat: string): Result<Table>
    requires WellFormed(left) && WellFormed(right)
  {
    if fileFormat != "csv" then Err(UnsupportedFileFormat(fileFormat))
    else
      var keys := KeyNames(on);
      match FirstUnknown(Common(left.columns, right.columns), keys)
      case Some(k) => Err(UnknownColumn(k))
      case None => Ok(WithoutMarked(Joined(left, right, keys)))
  }

  // ----- Facts about the join ------------------------------------------------

  lemma {:induction false} MatchesRectangular(p: JoinPlan, l: Row, rs: seq<Row>, wl: nat, wr: nat)
    requires |l| == wl && Rectangular(rs, wr) && ValidIndices(p.rightKept, wr)
    ensures Rectangular(MatchesOf(p, l, rs, wr), wl + |p.rightKept|)
    decreases |rs|
  {
    if rs != [] {
      MatchesRectangular(p, l, rs[..|rs| - 1], wl, wr);
    }
  }

  /** Every joined row has one cell per joined column. */
  lemma {:induction false} JoinRowsRectangular(p: JoinPlan, ls: seq<Row>, rs: seq<Row>, wl: nat, wr: nat)
    requires Rectangular(ls, wl) && Rectangular(rs, wr) && ValidIndices(p.rightKept, wr)
    ensures Rectangular(JoinRows(p, ls, rs, wr), wl + |p.rightKept|)
    decreases |ls|
  {
    if ls != [] {
      JoinRowsRectangular(p, ls[..|ls| - 1], rs, wl, wr);
      MatchesRectangular(p, ls[|ls| - 1], rs, wl, wr);
    }
  }

  lemma {:induction false} MatchesCount(p: JoinPlan, l: Row, rs: seq<Row>, wr: nat)
    requires Rectangular(rs, wr) && ValidIndices(p.rightKept, wr)
    ensures |MatchesOf(p, l, rs, wr)| == MatchCount(p, l, rs)
    decreases |rs|
  {
    if rs != [] {
      MatchesCount(p, l, rs[..|rs| - 1], wr);
    }
  }

  /** The join has one row per matching pair of rows: the standard inner-join fan-out. */
  lemma {:induction false} JoinRowsCount(p: JoinPlan, ls: seq<Row>, rs: seq<Row>, wr: nat)
    requires Rectangular(rs, wr) && ValidIndices(p.rightKept, wr)
    ensures |JoinRows(p, ls, rs, wr)| == PairCount(p, ls, rs)
    decreases |ls|
  {
    if ls != [] {
      JoinRowsCount(p, ls[..|ls| - 1], rs, wr);
      MatchesCount(p, ls[|ls| - 1], rs, wr);
    }
  }

  /** `o` is the combination of some matching pair of a left row and a right row. */
  ghost predicate FromMatchingPair(p: JoinPlan, ls: seq<Row>, rs: seq<Row>, o: Row) {
    exists i, j :: PairAt(p, ls, rs, i, j, o)
  }

  /** `o` combines left row `i` with right row `j`, and the two rows match. */
  predicate PairAt(p: JoinPlan, ls: seq<Row>, rs: seq<Row>, i: int, j: int, o: Row) {
    && 0 <= i < |ls| && 0 <= j < |rs| && KeysMatch(p, ls[i], rs[j])
    && ValidIndices(p.rightKept, |rs[j]|) && o == Combine(p, ls[i], rs[j])
  }

  /** `o` combines `l` with right row `j`, and the two rows match. */
  predicate MatchAt(p: JoinPlan, l: Row, rs: seq<Row>, j: int, o: Row) {
    0 <= j < |rs| && KeysMatch(p, l, rs[j]) && ValidIndices(p.rightKept, |rs[j]|) && o == Combine(p, l, rs[j])
  }

  lemma {:induction false} MatchesMembership(p: JoinPlan, l: Row, rs: seq<Row>, wr: nat, o: Row)
    requires Rectangular(rs, wr) && ValidIndices(p.rightKept, wr)
    ensures o in MatchesOf(p, l, rs, wr) <==> exists j :: MatchAt(p, l, rs, j, o)
    decreases |rs|
  {
    if rs != [] {
      var rs' := rs[..|rs| - 1];
      var r := rs[|rs| - 1];
      MatchesMembership(p, l, rs', wr, o);
      assert MatchesOf(p, l, rs, wr) == MatchesOf(p, l, rs', wr) + (if KeysMatch(p, l, r) then [Combine(p, l, r)] else []);
      if exists j :: MatchAt(p, l, rs, j, o) {
        var j :| MatchAt(p, l, rs, j, o);
        if j < |rs'| {
          assert MatchAt(p, l, rs', j, o);
        }
      }
      if o in MatchesOf(p, l, rs', wr) {
        var j :| MatchAt(p, l, rs', j, o);
        assert MatchAt(p, l, rs, j, o);
      } else if o in MatchesOf(p, l, rs, wr) {
        assert MatchAt(p, l, rs, |rs| - 1, o);
      }
    }
  }

  /** A row is in the join exactly when it combines a left row with a right row that matches it. */
  lemma JoinRowsMembership(p: JoinPlan, ls: seq<Row>, rs: seq<Row>, wr: nat, o: Row)
    requires Rectangular(rs, wr) && ValidIndices(p.rightKept, wr)
    ensures o in JoinRows(p, ls, rs, wr) <==> FromMatchingPair(p, ls, rs, o)
  {
    if o in JoinRows(p, ls, rs, wr) {
      JoinRowsSound(p, ls, rs, wr, o);
    }
    if FromMatchingPair(p, ls, rs, o) {
      JoinRowsComplete(p, ls, rs, wr, o);
    }
  }

  lemma {:induction false} JoinRowsSound(p: JoinPlan, ls: seq<Row>, rs: seq<Row>, wr: nat, o: Row)
    requires Rectangular(rs, wr) && ValidIndices(p.rightKept, wr)
    requires o in JoinRows(p, ls, rs, wr)
    ensures FromMatchingPair(p, ls, rs, o)
    decreases |ls|
  {
    var ls' := ls[..|ls| - 1];
    var l := ls[|ls| - 1];
    assert JoinRows(p, ls, rs, wr) == JoinRows(p, ls', rs, wr) + MatchesOf(p, l, rs, wr);
    if o in JoinRows(p, ls', rs, wr) {
      JoinRowsSound(p, ls', rs, wr, o);
      PairOfPrefix(p, ls, rs, o);
    } else {
      MatchesMembership(p, l, rs, wr, o);
      var j :| MatchAt(p, l, rs, j, o);
      assert PairAt(p, ls, rs, |ls| - 1, j, o);
    }
  }

  lemma {:induction false} JoinRowsComplete(p: JoinPlan, ls: seq<Row>, rs: seq<Row>, wr: nat, o: Row)
    requires Rectangular(rs, wr) && ValidIndices(p.rightKept, wr)
    requires FromMatchingPair(p, ls, rs, o)
    ensures o in JoinRows(p, ls, rs, wr)
    decreases |ls|
  {
    var ls' := ls[..|ls| - 1];
    var l := ls[|ls| - 1];
    assert JoinRows(p, ls, rs, wr) == JoinRows(p, ls', rs, wr) + MatchesOf(p, l, rs, wr);
    var i, j :| PairAt(p, ls, rs, i, j, o);
    if i < |ls'| {
      assert PairAt(p, ls', rs, i, j, o);
      JoinRowsComplete(p, ls', rs, wr, o);
    } else {
      assert MatchAt(p, l, rs, j, o);
      MatchesMembership(p, l, rs, wr, o);
    }
  }

  /** A pair found among the first rows of `ls` is a pair of `ls`. */
  lemma PairOfPrefix(p: JoinPlan, ls: seq<Row>, rs: seq<Row>, o: Row)
    requires ls != [] && FromMatchingPair(p, ls[..|ls| - 1], rs, o)
    ensures FromMatchingPair(p, ls, rs, o)
  {
    var ls' := ls[..|ls| - 1];
    var i, j :| PairAt(p, ls', rs, i, j, o);
    assert PairAt(p, ls, rs, i, j, o);
  }

  /** The key cells of every joined row occur, as a whole, in some left row and in some right row. */
  lemma JoinedKeysOccurInBoth(p: JoinPlan, ls: seq<Row>, rs: seq<Row>, wl: nat, wr: nat, o: Row)
    requires Rectangular(ls, wl) && Rectangular(rs, wr) && PlanFits(p, wl, wr)
    requires o in JoinRows(p, ls, rs, wr)
    ensures |o| == wl + |p.rightKept|
    ensures exists i :: 0 <= i < |ls| && forall k :: 0 <= k < |p.leftKeys| ==> o[p.leftKeys[k]] == ls[i][p.leftKeys[k]]
    ensures exists j :: 0 <= j < |rs| && forall k :: 0 <= k < |p.leftKeys| ==> o[p.leftKeys[k]] == rs[j][p.rightKeys[k]]
  {
    JoinRowsMembership(p, ls, rs, wr, o);
    var i, j :| PairAt(p, ls, rs, i, j, o);
    assert forall k :: 0 <= k < |p.leftKeys| ==> o[p.leftKeys[k]] == ls[i][p.leftKeys[k]];
  }

  // ----- Facts about the suffixed columns ------------------------------------

  /** After the drop no column name contains the suffix, and every other column survives with its cells. */
  lemma WithoutMarkedColumns(t: Table)
    requires WellFormed(t)
    ensures var r := WithoutMarked(t);
      && WellFormed(r)
      && (forall c :: c in r.columns <==> c in t.columns && !Contains(c, MergedSuffix))
      && KeepsColumns(t, r, Selected(DropMask(t.columns, Filter(IsMarked, t.columns))))
  {
    var toDrop := Filter(IsMarked, t.columns);
    if toDrop == [] {
      DropNothing(t);
      assert DropMask(t.columns, toDrop) == DropMask(t.columns, []);
    }
  }

  /** A right-hand non-key column whose name the left table also has is joined under the suffixed name. */
  lemma ClashingColumnIsSuffixed(left: seq<string>, right: seq<string>, keys: seq<string>, c: string)
    requires forall k :: k in keys ==> k in left && k in right
    requires c in left && c in right && c !in keys
    ensures c + MergedSuffix in JoinedColumns(left, right, PlanFor(left, right, keys))
  {
    var p := PlanFor(left, right, keys);
    var j :| 0 <= j < |right| && right[j] == c;
    assert DropMask(right, keys)[j];
    var k :| 0 <= k < |p.rightKept| && p.rightKept[k] == j;
    assert JoinedColumns(left, right, p)[|left| + k] == SuffixedName(left, c);
  }

  /**
   * A right-hand non-key column whose name the left table also has is joined
   * under the suffixed name and then removed, while the left column of that
   * name stays unless its own name contains the suffix.
   */
  lemma ClashingColumnKeepsLeft(left: Table, right: Table, on: JoinOn, c: string)
    requires WellFormed(left) && WellFormed(right)
    requires Merge(left, right, on, "csv").Ok?
    requires c in left.columns && c in right.columns && c !in KeyNames(on)
    ensures forall k :: k in KeyNames(on) ==> k in left.columns && k in right.columns
    ensures c + MergedSuffix in Joined(left, right, KeyNames(on)).columns
    ensures c + MergedSuffix !in Merge(left, right, on, "csv").value.columns
    ensures !Contains(c, MergedSuffix) ==> c in Merge(left, right, on, "csv").value.columns
  {
    MergeShape(left, right, on, "csv");
    ClashingColumnIsSuffixed(left.columns, right.columns, KeyNames(on), c);
    ContainsSuffix(c, MergedSuffix);
  }

  // ----- The loops of the source ---------------------------------------------

  /** The inner join computed as two nested loops over the rows. */
  method NestedLoopJoin(p: JoinPlan, ls: seq<Row>, rs: seq<Row>, wr: nat) returns (rows: seq<Row>)
    requires Rectangular(rs, wr) && ValidIndices(p.rightKept, wr)
    ensures rows == JoinRows(p, ls, rs, wr)
  {
    rows := [];
    for i := 0 to |ls|
      invariant rows == JoinRows(p, ls[..i], rs, wr)
    {
      assert ls[..i + 1][..i] == ls[..i];
      ghost var before := rows;
      for j := 0 to |rs|
        invariant rows == before + MatchesOf(p, ls[i], rs[..j], wr)
      {
        assert rs[..j + 1][..j] == rs[..j];
        if KeysMatch(p, ls[i], rs[j]) {
          rows := rows + [Combine(p, ls[i], rs[j])];
        }
      }
      assert rs[..|rs|] == rs;
    }
    assert ls[..|ls|] == ls;
  }

  /** The loop collecting the names that contain the suffix. */
  method MarkedColumns(columns: seq<string>) returns (toDrop: seq<string>)
    ensures toDrop == Filter(IsMarked, columns)
  {
    toDrop := [];
    for i := 0 to |columns|
      invariant toDrop == Filter(IsMarked, columns[..i])
    {
      assert columns[..i + 1][..i] == columns[..i];
      if Contains(columns[i], MergedSuffix) {
        toDrop := toDrop + [columns[i]];
      }
    }
    assert columns[..|columns|] == columns;
  }

  /** `merge_files_by_key(file_1, file_2, on, file_format=...)` with both files already loaded. */
  method MergeFilesByKey(left: Table, right: Table, on: JoinOn, fileFormat: string) returns (r: Result<Table>)
    requires WellFormed(left) && WellFormed(right)
    ensures r == Merge(left, right, on, fileFormat)
  {
    if fileFormat != "csv" {
      return Err(UnsupportedFileFormat(fileFormat));
    }
    var keys := KeyNames(on);
    var missing := FirstUnknown(Common(left.columns, right.columns), keys);
    if missing.Some? {
      return Err(UnknownColumn(missing.value));
    }
    var p := PlanFor(left.columns, right.columns, keys);
    var rows := NestedLoopJoin(p, left.rows, right.rows, |right.columns|);
    var df := Table(JoinedColumns(left.columns, right.columns, p), rows);
    assert df == Joined(left, right, keys);
    var toDrop := MarkedColumns(df.columns);
    if toDrop != [] {
      df := DropColumns(df, toDrop);
    }
    r := Ok(df);
  }

  // ----- Properties of the operation -----------------------------------------

  /** The merge fails on a format other than csv, and otherwise exactly when a key is missing from a side. */
  lemma MergeFailures(left: Table, right: Table, on: JoinOn, fileFormat: string)
    requires WellFormed(left) && WellFormed(right)
    ensures fileFormat != "csv" ==> Merge(left, right, on, fileFormat) == Err(UnsupportedFileFormat(fileFormat))
    ensures fileFormat == "csv" ==>
      (Merge(left, right, on, fileFormat).Err? <==>
        exists k :: k in KeyNames(on) && (k !in left.columns || k !in right.columns))
    ensures Merge(left, right, on, fileFormat).Err? && fileFormat == "csv" ==>
      exists k :: k in KeyNames(on) && (k !in left.columns || k !in right.columns)
        && Merge(left, right, on, fileFormat).error == UnknownColumn(k)
  {
  }

  /**
   * A successful merge has one row per matching pair of rows, no column name
   * containing the suffix, and every left column whose name lacks the suffix.
   */
  lemma MergeShape(left: Table, right: Table, on: JoinOn, fileFormat: string)
    requires WellFormed(left) && WellFormed(right)
    requires Merge(left, right, on, fileFormat).Ok?
    ensures var out := Merge(left, right, on, fileFormat).value;
      var keys := KeyNames(on);
      && (forall k :: k in keys ==> k in left.columns && k in right.columns)
      && |out.rows| == PairCount(PlanFor(left.columns, right.columns, keys), left.rows, right.rows)
      && (forall c :: c in out.columns ==> !Contains(c, MergedSuffix))
      && (forall c :: c in left.columns && !Contains(c, MergedSuffix) ==> c in out.columns)
  {
    var keys := KeyNames(on);
    var joined := Joined(left, right, keys);
    var p := PlanFor(left.columns, right.columns, keys);
    WithoutMarkedColumns(joined);
    JoinRowsCount(p, left.rows, right.rows, |right.columns|);
  }

  /**
   * Each row of a successful merge is, on its surviving columns, the join of a
   * left row with a right row whose keys match it, and every such pair gives a
   * row; the output keeps the joined table's unsuffixed columns with their cells.
   */
  lemma MergeRowsFromMatchingPairs(left: Table, right: Table, on: JoinOn, fileFormat: string)
    requires WellFormed(left) && WellFormed(right)
    requires Merge(left, right, on, fileFormat).Ok?
    ensures var keys := KeyNames(on);
      && (forall k :: k in keys ==> k in left.columns && k in right.columns)
      && var joined := Joined(left, right, keys);
         var p := PlanFor(left.columns, right.columns, keys);
         && KeepsColumns(joined, Merge(left, right, on, fileFormat).value,
                         Selected(DropMask(joined.columns, Filter(IsMarked, joined.columns))))
         && forall o :: o in joined.rows <==> FromMatchingPair(p, left.rows, right.rows, o)
  {
    var keys := KeyNames(on);
    var joined := Joined(left, right, keys);
    var p := PlanFor(left.columns, right.columns, keys);
    WithoutMarkedColumns(joined);
    forall o | true ensures o in joined.rows <==> FromMatchingPair(p, left.rows, right.rows, o) {
      JoinRowsMembership(p, left.rows, right.rows, |right.columns|, o);
    }
  }

  // ----- A worked example ----------------------------------------------------

  /** The plan for joining `(key, v)` with `(key, w)` on `key`: key 0 on both sides, keep right column 1. */
  lemma ExamplePlan(key: string, v: string, w: string)
    requires key != v && key != w
    ensures PlanFor([key, v], [key, w], [key]) == JoinPlan([0], [0], [1])
  {
    assert IndexOf([key, v], key) == Some(0);
    assert IndexOf([key, w], key) == Some(0);
    assert Positions([key, v], [key]) == [0];
    assert Positions([key, w], [key]) == [0];
    var m := DropMask([key, w], [key]);
    assert m == [false, true];
    assert m[..1] == [false];
    assert [false][..0] == [];
    assert Selected([false]) == [];
  }

  /** Joining the columns `key`, `v` with `key`, `w` gives `key`, `v`, `w`. */
  lemma ExampleColumns(key: string, v: string, w: string)
    requires w != key && w != v
    ensures JoinedColumns([key, v], [key, w], JoinPlan([0], [0], [1])) == [key, v, w]
  {
    var cs := JoinedColumns([key, v], [key, w], JoinPlan([0], [0], [1]));
    assert |cs| == 3 && cs[2] == SuffixedName([key, v], w) == w;
    assert cs[..2] == [key, v];
  }

  /** A left row whose key `k1` is on no right row matches nothing. */
  lemma ExampleNoMatch(k1: Cell, k2: Cell, k3: Cell, x1: Cell, y2: Cell, y3: Cell)
    requires k1 != k2 && k1 != k3
    ensures MatchesOf(JoinPlan([0], [0], [1]), [k1, x1], [[k2, y2], [k3, y3]], 2) == []
  {
    var p := JoinPlan([0], [0], [1]);
    var rs: seq<Row> := [[k2, y2], [k3, y3]];
    assert rs[..1] == [rs[0]] && [rs[0]][..0] == [];
    assert !KeysMatch(p, [k1, x1], rs[0]) by { assert [k1, x1][p.leftKeys[0]] != rs[0][p.rightKeys[0]]; }
    assert !KeysMatch(p, [k1, x1], rs[1]) by { assert [k1, x1][p.leftKeys[0]] != rs[1][p.rightKeys[0]]; }
    assert MatchesOf(p, [k1, x1], rs[..1], 2) == [];
  }

  /** A left row with key `k2` matches the first right row only. */
  lemma ExampleOneMatch(k2: Cell, k3: Cell, x2: Cell, y2: Cell, y3: Cell)
    requires k2 != k3
    ensures MatchesOf(JoinPlan([0], [0], [1]), [k2, x2], [[k2, y2], [k3, y3]], 2) == [[k2, x2, y2]]
  {
    var p := JoinPlan([0], [0], [1]);
    var rs: seq<Row> := [[k2, y2], [k3, y3]];
    assert rs[..1] == [rs[0]] && [rs[0]][..0] == [];
    assert KeysMatch(p, [k2, x2], rs[0]);
    assert !KeysMatch(p, [k2, x2], rs[1]) by { assert [k2, x2][p.leftKeys[0]] != rs[1][p.rightKeys[0]]; }
    assert MatchesOf(p, [k2, x2], rs[..1], 2) == [Combine(p, [k2, x2], rs[0])];
    assert Combine(p, [k2, x2], rs[0]) == [k2, x2, y2];
  }

  /** Keys `k1`, `k2` against keys `k2`, `k3`: only the pair with key `k2` matches. */
  lemma ExampleRows(k1: Cell, k2: Cell, k3: Cell, x1: Cell, x2: Cell, y2: Cell, y3: Cell)
    requires k1 != k2 && k1 != k3 && k2 != k3
    ensures JoinRows(JoinPlan([0], [0], [1]), [[k1, x1], [k2, x2]], [[k2, y2], [k3, y3]], 2) == [[k2, x2, y2]]
  {
    var p := JoinPlan([0], [0], [1]);
    var ls: seq<Row> := [[k1, x1], [k2, x2]];
    var rs: seq<Row> := [[k2, y2], [k3, y3]];
    ExampleNoMatch(k1, k2, k3, x1, y2, y3);
    ExampleOneMatch(k2, k3, x2, y2, y3);
    assert ls[..1] == [ls[0]] && [ls[0]][..0] == [];
    assert JoinRows(p, ls[..1], rs, 2) == [];
  }

  /** The inner join of `{key: [k1, k2], v: [x1, x2]}` with `{key: [k2, k3], w: [y2, y3]}` on `key`. */
  lemma ExampleJoined(key: string, v: string, w: string, k1: Cell, k2: Cell, k3: Cell, x1: Cell, x2: Cell, y2: Cell, y3: Cell)
    requires key != v && key != w && v != w
    requires k1 != k2 && k1 != k3 && k2 != k3
    ensures var a := Table([key, v], [[k1, x1], [k2, x2]]);
      var b := Table([key, w], [[k2, y2], [k3, y3]]);
      && WellFormed(a) && WellFormed(b)
      && Joined(a, b, [key]) == Table([key, v, w], [[k2, x2, y2]])
  {
    var a := Table([key, v], [[k1, x1], [k2, x2]]);
    var b := Table([key, w], [[k2, y2], [k3, y3]]);
    assert WellFormed(a) && WellFormed(b);
    ExamplePlan(key, v, w);
    ExampleColumns(key, v, w);
    ExampleRows(k1, k2, k3, x1, x2, y2, y3);
    var p := PlanFor(a.columns, b.columns, [key]);
    assert Joined(a, b, [key]) == Table(JoinedColumns(a.columns, b.columns, p), JoinRows(p, a.rows, b.rows, 2));
  }

  /** The key is a column of both tables. */
  lemma ExampleKeysFound(key: string, v: string, w: string)
    requires v != key && v != w
    ensures FirstUnknown(Common([key, v], [key, w]), [key]) == None
  {
    var left := [key, v];
    assert left[..1] == [key] && [key][..0] == [];
    var keep := InList([key, w]);
    assert keep(key) && !keep(v);
    assert Filter(keep, [key]) == [key];
    assert Filter(keep, left) == Filter(keep, [key]);
  }

  /** Names that do not contain the suffix are all kept. */
  lemma ExampleUnmarked(key: string, v: string, w: string)
    requires !Contains(key, MergedSuffix) && !Contains(v, MergedSuffix) && !Contains(w, MergedSuffix)
    ensures Filter(IsMarked, [key, v, w]) == []
  {
    var names := [key, v, w];
    assert names[..2] == [key, v] && [key, v][..1] == [key] && [key][..0] == [];
    assert !IsMarked(key) && !IsMarked(v) && !IsMarked(w);
    assert Filter(IsMarked, [key]) == [];
    assert Filter(IsMarked, [key, v]) == [];
  }

  /** Merging `{key: [k1, k2], v: [x1, x2]}` with `{key: [k2, k3], w: [y2, y3]}` on `key` gives `{key: [k2], v: [x2], w: [y2]}`. */
  lemma MergeExample(key: string, v: string, w: string, k1: Cell, k2: Cell, k3: Cell, x1: Cell, x2: Cell, y2: Cell, y3: Cell)
    requires key != v && key != w && v != w
    requires k1 != k2 && k1 != k3 && k2 != k3
    requires !Contains(key, MergedSuffix) && !Contains(v, MergedSuffix) && !Contains(w, MergedSuffix)
    ensures var a := Table([key, v], [[k1, x1], [k2, x2]]);
      var b := Table([key, w], [[k2, y2], [k3, y3]]);
      && WellFormed(a) && WellFormed(b)
      && Merge(a, b, OnColumn(key), "csv") == Ok(Table([key, v, w], [[k2, x2, y2]]))
  {
    ExampleJoined(key, v, w, k1, k2, k3, x1, x2, y2, y3);
    ExampleKeysFound(key, v, w);
    ExampleUnmarked(key, v, w);
  }

  /** Merging `{id: [1, 2], v: [10, 20]}` with `{id: [2, 3], w: [200, 300]}` on `id` gives `{id: [2], v: [20], w: [200]}`. */
  lemma MergeScenario(a: Table, b: Table)
    requires a == Table(["id", "v"], [[Val("1"), Val("10")], [Val("2"), Val("20")]])
    requires b == Table(["id", "w"], [[Val("2"), Val("200")], [Val("3"), Val("300")]])
    ensures WellFormed(a) && WellFormed(b)
    ensures Merge(a, b, OnColumn("id"), "csv") == Ok(Table(["id", "v", "w"], [[Val("2"), Val("20"), Val("200")]]))
  {
    assert "id" != "v" && "id" != "w" by { assert "id"[0] != "v"[0] && "id"[0] != "w"[0]; }
    assert "v" != "w" by { assert "v"[0] != "w"[0]; }
    assert Val("1") != Val("2") by { assert "1"[0] != "2"[0]; }
    assert Val("1") != Val("3") by { assert "1"[0] != "3"[0]; }
    assert Val("2") != Val("3") by { assert "2"[0] != "3"[0]; }
    assert !Contains("id", MergedSuffix) && !Contains("v", MergedSuffix) && !Contains("w", MergedSuffix);
    MergeExample("id", "v", "w", Val("1"), Val("2"), Val("3"), Val("10"), Val("20"), Val("200"), Val("300"));
  }
}

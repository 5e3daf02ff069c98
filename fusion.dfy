/**
 * `fusion_same_col_files`: stack the rows of several tables that share one
 * column list, then optionally drop every row equal to an earlier one
 * (pandas' `drop_duplicates()`, which keeps the first occurrence) and report
 * how many rows `duplicated()` marked.
 */
module Fusion {
  import opened Wrappers
  import opened Tables

  /** The fused table and, when duplicates were dropped, the reported number of duplicated rows. */
  datatype Fused = Fused(table: Table, reportedDuplicates: Option<nat>)

  /** All inputs are well formed and share the first one's column list. */
  predicate SameSchema(tables: seq<Table>) {
    forall i :: 0 <= i < |tables| ==> WellFormed(tables[i]) && tables[i].columns == tables[0].columns
  }

  // ----- Concatenation -------------------------------------------------------

  /** `pd.concat`: the rows of every input, input after input. */
  function AllRows(tables: seq<Table>): seq<Row>
    decreases |tables|
  {
    if tables == [] then [] else AllRows(tables[..|tables| - 1]) + tables[|tables| - 1].rows
  }

  /** The sum of the inputs' row counts. */
  function TotalRows(tables: seq<Table>): nat
    decreases |tables|
  {
    if tables == [] then 0 else |tables[0].rows| + TotalRows(tables[1..])
  }

  lemma {:induction false} TotalRowsAppend(tables: seq<Table>, t: Table)
    ensures TotalRows(tables + [t]) == TotalRows(tables) + |t.rows|
    decreases |tables|
  {
    if tables != [] {
      assert (tables + [t])[1..] == tables[1..] + [t];
      TotalRowsAppend(tables[1..], t);
    }
  }

  /** Without deduplication the fused table has as many rows as all inputs together. */
  lemma {:induction false} AllRowsCount(tables: seq<Table>)
    ensures |AllRows(tables)| == TotalRows(tables)
    decreases |tables|
  {
    if tables != [] {
      var front := tables[..|tables| - 1];
      AllRowsCount(front);
      assert tables == front + [tables[|tables| - 1]];
      TotalRowsAppend(front, tables[|tables| - 1]);
    }
  }

  /** Stacking same-schema tables gives rows of the common width. */
  lemma {:induction false} AllRowsRectangular(tables: seq<Table>, width: nat)
    requires forall i :: 0 <= i < |tables| ==> Rectangular(tables[i].rows, width)
    ensures Rectangular(AllRows(tables), width)
    decreases |tables|
  {
    if tables != [] {
      AllRowsRectangular(tables[..|tables| - 1], width);
    }
  }

  /** The loop that collects every input's rows. */
  method ConcatRows(tables: seq<Table>) returns (rows: seq<Row>)
    ensures rows == AllRows(tables)
  {
    rows := [];
    for i := 0 to |tables|
      invariant rows == AllRows(tables[..i])
    {
      assert tables[..i + 1][..i] == tables[..i];
      rows := rows + tables[i].rows;
    }
    assert tables[..|tables|] == tables;
  }

  // ----- Duplicates ----------------------------------------------------------

  predicate NoDuplicates<T(==)>(s: seq<T>) {
    forall i, j :: 0 <= i < j < |s| ==> s[i] != s[j]
  }

  /** pandas' `duplicated()`: one mark per row, set when the row equals an earlier one. */
  function Duplicated<T(==)>(s: seq<T>): (m: seq<bool>)
    ensures |m| == |s|
    decreases |s|
  {
    if s == [] then [] else Duplicated(s[..|s| - 1]) + [s[|s| - 1] in s[..|s| - 1]]
  }

  /** Position k is marked exactly when row k equals some earlier row. */
  lemma {:induction false} DuplicatedMarksRepeats<T(!new)>(s: seq<T>)
    ensures forall k :: 0 <= k < |s| ==> (Duplicated(s)[k] <==> s[k] in s[..k])
    decreases |s|
  {
    if s != [] {
      var s' := s[..|s| - 1];
      DuplicatedMarksRepeats(s');
      assert forall k :: 0 <= k < |s'| ==> s'[k] == s[k] && s'[..k] == s[..k];
    }
  }

  function CountTrue(m: seq<bool>): nat
    decreases |m|
  {
    if m == [] then 0 else CountTrue(m[..|m| - 1]) + (if m[|m| - 1] then 1 else 0)
  }

  /** pandas' `drop_duplicates()`: every row that is not equal to an earlier row, in order. */
  function Distinct<T(==,!new)>(s: seq<T>): (r: seq<T>)
    ensures NoDuplicates(r)
    ensures forall x :: x in r <==> x in s
    ensures Subseq(r, s)
    decreases |s|
  {
    if s == [] then []
    else
      var s' := s[..|s| - 1];
      var x := s[|s| - 1];
      assert s == s' + [x];
      var r' := Distinct(s');
      if x in s' then r'
      else
        assert (r' + [x])[..|r'|] == r';
        r' + [x]
  }

  function Negate(m: seq<bool>): (n: seq<bool>)
    ensures |n| == |m|
  {
    seq(|m|, k requires 0 <= k < |m| => !m[k])
  }

  /**
   * The deduplicated rows are exactly the rows at the positions `duplicated()`
   * leaves unmarked, in order: the first occurrence of every distinct row.
   */
  lemma {:induction false} DistinctIsFirstOccurrences<T(!new)>(s: seq<T>)
    ensures ValidIndices(Selected(Negate(Duplicated(s))), |s|)
    ensures Distinct(s) == Project(s, Selected(Negate(Duplicated(s))))
    decreases |s|
  {
    if s != [] {
      var s' := s[..|s| - 1];
      var x := s[|s| - 1];
      DistinctIsFirstOccurrences(s');
      FirstOccurrenceStep(s);
      DistinctStep(s);
      ProjectSnoc(s', x, Selected(Negate(Duplicated(s'))), x !in s');
      assert s == s' + [x];
    }
  }

  lemma DistinctStep<T(!new)>(s: seq<T>)
    requires s != []
    ensures Distinct(s) == Distinct(s[..|s| - 1]) + (if s[|s| - 1] !in s[..|s| - 1] then [s[|s| - 1]] else [])
  {
  }

  /** Extending `s` by one element extends the unmarked positions by that position if it is new. */
  lemma FirstOccurrenceStep<T(!new)>(s: seq<T>)
    requires s != []
    ensures Selected(Negate(Duplicated(s)))
         == Selected(Negate(Duplicated(s[..|s| - 1]))) + (if s[|s| - 1] !in s[..|s| - 1] then [|s| - 1] else [])
  {
    var s' := s[..|s| - 1];
    var b := s[|s| - 1] in s';
    assert Duplicated(s) == Duplicated(s') + [b];
    NegateSnoc(Duplicated(s'), b);
    SelectedSnoc(Negate(Duplicated(s')), !b);
  }

  /** Projecting onto one more position, the last one, appends the last element. */
  lemma ProjectSnoc<T>(s: seq<T>, x: T, ks: seq<nat>, keep: bool)
    requires ValidIndices(ks, |s|)
    ensures ValidIndices(ks + (if keep then [|s|] else []), |s + [x]|)
    ensures Project(s + [x], ks + (if keep then [|s|] else [])) == Project(s, ks) + (if keep then [x] else [])
  {
    ProjectExtend(s, x, ks);
    if !keep {
      assert ks + [] == ks;
    }
  }

  lemma NegateSnoc(m: seq<bool>, b: bool)
    ensures Negate(m + [b]) == Negate(m) + [!b]
  {
    var l := Negate(m + [b]);
    var r := Negate(m) + [!b];
    forall k | 0 <= k < |l| ensures l[k] == r[k] {
      if k < |m| {
        assert (m + [b])[k] == m[k];
      }
    }
  }

  lemma SelectedSnoc(m: seq<bool>, b: bool)
    ensures Selected(m + [b]) == Selected(m) + (if b then [|m|] else [])
  {
    assert (m + [b])[..|m|] == m;
  }

  lemma ProjectExtend<T>(s: seq<T>, x: T, ks: seq<nat>)
    requires ValidIndices(ks, |s|)
    ensures ValidIndices(ks, |s + [x]|) && ValidIndices(ks + [|s|], |s + [x]|)
    ensures Project(s + [x], ks) == Project(s, ks)
    ensures Project(s + [x], ks + [|s|]) == Project(s, ks) + [x]
  {
  }

  /** The number of dropped rows is the number of rows `duplicated()` marks, the count the source prints. */
  lemma {:induction false} DuplicateCount<T(!new)>(s: seq<T>)
    ensures |Distinct(s)| + CountTrue(Duplicated(s)) == |s|
    decreases |s|
  {
    if s != [] {
      var s' := s[..|s| - 1];
      DuplicateCount(s');
      var m := Duplicated(s);
      assert m[..|m| - 1] == Duplicated(s');
    }
  }

  /** A sequence without duplicates is its own deduplication. */
  lemma {:induction false} DistinctOfNoDuplicates<T(!new)>(s: seq<T>)
    requires NoDuplicates(s)
    ensures Distinct(s) == s
    decreases |s|
  {
    if s != [] {
      var s' := s[..|s| - 1];
      DistinctOfNoDuplicates(s');
      assert s == s' + [s[|s| - 1]];
    }
  }

  /** Deduplicating twice is deduplicating once, and the second pass marks no row. */
  lemma DistinctIdempotent<T(!new)>(s: seq<T>)
    ensures Distinct(Distinct(s)) == Distinct(s)
    ensures CountTrue(Duplicated(Distinct(s))) == 0
  {
    DistinctOfNoDuplicates(Distinct(s));
    DuplicateCount(Distinct(s));
  }

  // ----- The operation -------------------------------------------------------

  /**
   * `fusion_same_col_files(file_names, drop_duplicate=..., file_format=...)`
   * with each file already loaded into a table.
   */
  method FusionSameColFiles(tables: seq<Table>, dropDuplicate: bool, fileFormat: string)
    returns (r: Result<Fused>)
    requires SameSchema(tables)
    ensures fileFormat != "csv" ==> r == Err(UnsupportedFileFormat(fileFormat))
    ensures fileFormat == "csv" && tables == [] ==> r == Err(NothingToConcatenate)
    ensures r.Ok? <==> fileFormat == "csv" && tables != []
    ensures r.Ok? ==> WellFormed(r.value.table) && r.value.table.columns == tables[0].columns
    ensures r.Ok? && !dropDuplicate ==>
      r.value.table.rows == AllRows(tables) && r.value.reportedDuplicates == None
    ensures r.Ok? && dropDuplicate ==>
      && r.value.table.rows == Distinct(AllRows(tables))
      && r.value.reportedDuplicates == Some(CountTrue(Duplicated(AllRows(tables))))
  {
    if fileFormat != "csv" {
      return Err(UnsupportedFileFormat(fileFormat));
    }
    var rows := ConcatRows(tables);
    if tables == [] {
      return Err(NothingToConcatenate);
    }
    var columns := tables[0].columns;
    AllRowsRectangular(tables, |columns|);
    var fused := Fused(Table(columns, rows), None);
    if dropDuplicate {
      var duplicates := CountTrue(Duplicated(rows));
      var kept := Distinct(rows);
      SubseqBounds(kept, rows);
      assert Rectangular(kept, |columns|) by {
        forall i | 0 <= i < |kept| ensures |kept[i]| == |columns| {
          assert kept[i] in rows;
        }
      }
      fused := Fused(Table(columns, kept), Some(duplicates));
    }
    r := Ok(fused);
  }

  /**
   * Fusing the deduplicated result again, on its own, changes nothing and
   * reports no duplicates.
   */
  lemma FusionIdempotent(tables: seq<Table>)
    requires SameSchema(tables) && tables != []
    ensures var once := Table(tables[0].columns, Distinct(AllRows(tables)));
      && Distinct(AllRows([once])) == once.rows
      && CountTrue(Duplicated(AllRows([once]))) == 0
  {
    var once := Table(tables[0].columns, Distinct(AllRows(tables)));
    assert [once][..0] == [];
    assert AllRows([once]) == once.rows;
    DistinctIdempotent(AllRows(tables));
  }

  /** Deduplication never adds rows. */
  lemma DedupedRowCount(tables: seq<Table>)
    ensures |Distinct(AllRows(tables))| <= TotalRows(tables)
  {
    AllRowsCount(tables);
    SubseqBounds(Distinct(AllRows(tables)), AllRows(tables));
  }
}

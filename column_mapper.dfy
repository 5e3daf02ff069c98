/**
 * `rename_columns`: trim every column name, rename the names that are keys
 * of the mapping, position by position, and optionally drop the listed
 * columns that exist after renaming.
 */
module ColumnMapper {
  import opened Wrappers
  import opened Text
  import opened Tables

  /**
   * The `columns_mapping` argument: an inline dictionary, the name of a YAML
   * file (given here with the dictionary that file holds), or any other value,
   * which the source's assertion refuses.
   */
  datatype ColumnsMapping =
    | InlineMapping(mapping: map<string, string>)
    | MappingFile(path: string, document: map<string, string>)
    | NotAMapping

  /** What a YAML drop file holds: a list of names, or a dictionary whose keys are the names. */
  datatype DropDocument =
    | NameList(names: seq<string>)
    | NameMapping(entries: seq<(string, string)>)

  /** The `columns_to_drop` argument: none, an inline list, or a YAML file with its contents. */
  datatype ColumnsToDrop =
    | NoDrop
    | DropList(names: seq<string>)
    | DropFile(path: string, document: DropDocument)

  function ResolvedMapping(c: ColumnsMapping): map<string, string>
    requires !c.NotAMapping?
  {
    match c
    case InlineMapping(m) => m
    case MappingFile(_, m) => m
  }

  /** `list(d.keys())`, for a dictionary given by its entries in order. */
  function Keys(entries: seq<(string, string)>): seq<string> {
    seq(|entries|, k requires 0 <= k < |entries| => entries[k].0)
  }

  /** The names a drop specification asks to remove. */
  function DropNames(d: ColumnsToDrop): seq<string>
    requires !d.NoDrop?
  {
    match d
    case DropList(names) => names
    case DropFile(_, NameList(names)) => names
    case DropFile(_, NameMapping(entries)) => Keys(entries)
  }

  /** The name `name` takes under mapping `m`. */
  function MapName(m: map<string, string>, name: string): string {
    if name in m then m[name] else name
  }

  /** The column names after trimming and renaming, position by position. */
  function RenamedNames(m: map<string, string>, columns: seq<string>): seq<string> {
    seq(|columns|, k requires 0 <= k < |columns| => MapName(m, Strip(columns[k])))
  }

  function TrimmedNames(columns: seq<string>): seq<string> {
    seq(|columns|, k requires 0 <= k < |columns| => Strip(columns[k]))
  }

  /** The renamed and, when asked, reduced table, stated over the whole table at once. */
  function Mapped(t: Table, m: map<string, string>, toDrop: ColumnsToDrop): Table
    requires WellFormed(t)
  {
    var names := RenamedNames(m, t.columns);
    var renamed := Table(names, t.rows);
    if toDrop.NoDrop? then renamed
    else
      var filtered := Filter(InList(names), DropNames(toDrop));
      if filtered == [] then renamed else DropColumns(renamed, filtered)
  }

  /** What `rename_columns` returns, or the assertion it fails. */
  function RenameColumnsResult(mapping: ColumnsMapping, fileTable: Option<Table>, dfToUse: Option<Table>,
                               toDrop: ColumnsToDrop): Result<Table>
    requires fileTable.Some? ==> WellFormed(fileTable.value)
    requires dfToUse.Some? ==> WellFormed(dfToUse.value)
  {
    if mapping.NotAMapping? then Err(InvalidColumnsMapping)
    else if fileTable.None? && dfToUse.None? then Err(NoTableSource)
    else
      var t := if dfToUse.Some? then dfToUse.value else fileTable.value;
      Ok(Mapped(t, ResolvedMapping(mapping), toDrop))
  }

  // ----- The loops of the source ---------------------------------------------

  /** The renaming loop: each name that is a key of `m` is replaced, in place, by its image. */
  method ApplyMapping(names: seq<string>, m: map<string, string>) returns (renamed: seq<string>)
    ensures |renamed| == |names|
    ensures forall k :: 0 <= k < |names| ==> renamed[k] == (if names[k] in m then m[names[k]] else names[k])
  {
    renamed := names;
    for i := 0 to |renamed|
      invariant |renamed| == |names|
      invariant forall k :: 0 <= k < i ==> renamed[k] == MapName(m, names[k])
      invariant forall k :: i <= k < |names| ==> renamed[k] == names[k]
    {
      if renamed[i] in m {
        renamed := renamed[i := m[renamed[i]]];
      }
    }
  }

  /** The loop that keeps, in order, the drop names that are current column names. */
  method FilterDropList(toDrop: seq<string>, present: seq<string>) returns (filtered: seq<string>)
    ensures filtered == Filter(InList(present), toDrop)
  {
    filtered := [];
    for i := 0 to |toDrop|
      invariant filtered == Filter(InList(present), toDrop[..i])
    {
      assert toDrop[..i + 1][..i] == toDrop[..i];
      if toDrop[i] in present {
        filtered := filtered + [toDrop[i]];
      }
    }
    assert toDrop[..|toDrop|] == toDrop;
  }

  /**
   * `rename_columns(columns_mapping, file_name, df_to_use, columns_to_drop)`
   * with the file, if any, already loaded: `fileTable` is its contents.
   */
  method RenameColumns(mapping: ColumnsMapping, fileTable: Option<Table>, dfToUse: Option<Table>,
                       toDrop: ColumnsToDrop) returns (r: Result<Table>)
    requires fileTable.Some? ==> WellFormed(fileTable.value)
    requires dfToUse.Some? ==> WellFormed(dfToUse.value)
    ensures r == RenameColumnsResult(mapping, fileTable, dfToUse, toDrop)
    ensures mapping.NotAMapping? ==> r == Err(InvalidColumnsMapping)
    ensures !mapping.NotAMapping? && fileTable.None? && dfToUse.None? ==> r == Err(NoTableSource)
    ensures r.Ok? ==> WellFormed(r.value)
  {
    if mapping.NotAMapping? {
      return Err(InvalidColumnsMapping);
    }
    if fileTable.None? && dfToUse.None? {
      return Err(NoTableSource);
    }
    var t := if dfToUse.Some? then dfToUse.value else fileTable.value;
    var names := TrimmedNames(t.columns);
    var m := ResolvedMapping(mapping);
    names := ApplyMapping(names, m);
    assert names == RenamedNames(m, t.columns);
    var df := Table(names, t.rows);
    if !toDrop.NoDrop? {
      var filtered := FilterDropList(DropNames(toDrop), names);
      if filtered != [] {
        df := DropColumns(df, filtered);
      }
    }
    r := Ok(df);
  }

  // ----- Properties ----------------------------------------------------------

  /** Before any drop the table keeps its width and its rows; name i becomes the image of trimmed name i. */
  lemma RenameIsPositional(t: Table, m: map<string, string>)
    requires WellFormed(t)
    ensures var r := Mapped(t, m, NoDrop);
      && |r.columns| == |t.columns|
      && r.rows == t.rows
      && forall k :: 0 <= k < |t.columns| ==>
           var c := Strip(t.columns[k]);
           r.columns[k] == if c in m then m[c] else c
  {
  }

  /** With an empty mapping and nothing to drop, only the names are trimmed. */
  lemma EmptyMappingOnlyTrims(t: Table)
    requires WellFormed(t)
    ensures Mapped(t, map[], NoDrop) == Table(TrimmedNames(t.columns), t.rows)
  {
    assert RenamedNames(map[], t.columns) == TrimmedNames(t.columns);
  }

  /** Dropping names none of which is a column leaves the table as it is. */
  lemma DropAbsent(t: Table, names: seq<string>)
    requires WellFormed(t)
    requires forall c :: c in names ==> c !in t.columns
    ensures DropColumns(t, names) == t
  {
    forall j | 0 <= j < |t.columns| ensures DropMask(t.columns, names)[j] == DropMask(t.columns, [])[j] {
      assert t.columns[j] in t.columns;
    }
    assert DropMask(t.columns, names) == DropMask(t.columns, []);
    DropNothing(t);
  }

  /**
   * Filtering the drop list first changes nothing: the result is the renamed
   * table with every column named in the drop list removed, names that are
   * not columns being ignored.
   */
  lemma DropIgnoresAbsentNames(t: Table, m: map<string, string>, toDrop: ColumnsToDrop)
    requires WellFormed(t) && !toDrop.NoDrop?
    ensures Mapped(t, m, toDrop) == DropColumns(Table(RenamedNames(m, t.columns), t.rows), DropNames(toDrop))
  {
    var names := RenamedNames(m, t.columns);
    var renamed := Table(names, t.rows);
    var filtered := Filter(InList(names), DropNames(toDrop));
    assert DropMask(names, filtered) == DropMask(names, DropNames(toDrop));
    if filtered == [] {
      DropAbsent(renamed, DropNames(toDrop));
    }
  }

  /**
   * The result's column names are the renamed names minus the dropped ones,
   * its rows are the input's rows, and every surviving column keeps its
   * relative order and its cells.
   */
  lemma MappedColumns(t: Table, m: map<string, string>, toDrop: ColumnsToDrop)
    requires WellFormed(t)
    ensures var r := Mapped(t, m, toDrop);
      var names := RenamedNames(m, t.columns);
      var dropped := if toDrop.NoDrop? then [] else DropNames(toDrop);
      && WellFormed(r)
      && (forall c :: c in r.columns <==> c in names && c !in dropped)
      && KeepsColumns(Table(names, t.rows), r, Selected(DropMask(names, dropped)))
  {
    var names := RenamedNames(m, t.columns);
    if toDrop.NoDrop? {
      DropNothing(Table(names, t.rows));
    } else {
      DropIgnoresAbsentNames(t, m, toDrop);
    }
  }

  /** A drop file holding a dictionary drops exactly the dictionary's keys, in order. */
  lemma DropMappingUsesKeys(t: Table, m: map<string, string>, path: string, entries: seq<(string, string)>)
    requires WellFormed(t)
    ensures Mapped(t, m, DropFile(path, NameMapping(entries))) == Mapped(t, m, DropList(Keys(entries)))
    ensures |DropNames(DropFile(path, NameMapping(entries)))| == |entries|
    ensures forall k :: 0 <= k < |entries| ==> DropNames(DropFile(path, NameMapping(entries)))[k] == entries[k].0
  {
    assert DropNames(DropFile(path, NameMapping(entries))) == DropNames(DropList(Keys(entries)));
  }
}

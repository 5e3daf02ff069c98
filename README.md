# pytde table utilities in Dafny

pytde is a set of helpers for preparing emergency-department data held in CSV
files. Its logic is in `src/pytde/td_file/utils.py`, four operations on
pandas data frames, plus the record type `EDEntry` in
`src/pytde/core/entry.py`. This project models the four operations and the
record, and proves what they promise.

The model represents tables as values. A table is a list of column names
plus rows of cells, and a cell is `Missing` (pandas' NA) or `Val(text)`.
Each Python function becomes a Dafny method with the same loops:

- the loop loading and collecting the files;
- the renaming loop;
- the loop filtering the drop list;
- the loop re-filtering the rows once per checked column;
- `pd.merge`, which has no loop in the source, stands as a nested loop over the left and right rows;
- the loop collecting the `_merged` column names.

Each method is proved equal to a specification function. The lemmas then
prove the properties of those functions.

- `Tables`: cells, rows and tables, and the tools the operations share.
  - `Filter` keeps the elements satisfying a test, in order, as a subsequence.
  - `Selected` and `Project` select columns by position.
  - `DropColumns` is `df.drop(columns=...)` when every name is a column label. It ignores a name that is not one, where pandas raises `KeyError`; every caller in the source passes only present names.
  - `FirstUnknown` finds the first name that is not a column, which is where pandas raises `KeyError`.
  - `Positions` gives the positions of named columns.
- `Text`: Python's `str.strip()`, using the characters `str.isspace()` accepts, and the substring test `sub in s`.
- `Fusion`: `fusion_same_col_files`, i.e. `pd.concat`, then optionally `duplicated()` and `drop_duplicates()`.
- `ColumnMapper`: `rename_columns`, i.e. trimming, positional renaming, and a drop list filtered to the present names.
- `RowFilter`: `keep_not_na_values`.
- `KeyMerger`: `merge_files_by_key`, i.e. `pd.merge(how='inner', on=..., suffixes=(None, "_merged"))`, modelled as a nested-loop inner join, followed by dropping every column whose name contains `_merged`.
- `Entry`: the `EDEntry` class with its four fields and `is_girl`.

Four inputs from outside the functions become parameters:

- the content of each file that is read;
- the document held by each YAML file that is loaded;
- the format argument;
- the table given directly.

The source's `assert` statements become error results:

- `UnsupportedFileFormat` for a format other than `csv`;
- `InvalidColumnsMapping` for a mapping that is neither a dictionary nor a file name;
- `NoTableSource` when neither a table nor a file is given.

Exceptions pandas raises become error results too:

- `NothingToConcatenate` when `pd.concat` gets an empty list;
- `UnknownColumn` for a `KeyError` on a column name.

`merge_files_by_key` joins exactly two tables, and so does the model.

## Model

| member | source | states |
|---|---|---|
| Fusion.FusionSameColFiles | src/pytde/td_file/utils.py:21-31 | Any format other than csv is refused, and an empty file list fails as `pd.concat` does. Otherwise the result keeps the shared column list. Without deduplication the rows are every input's rows, input after input, and no count is reported. With deduplication the rows are the deduplicated concatenation, and the reported count is the number of rows `duplicated()` marks. |
| Fusion.ConcatRows | src/pytde/td_file/utils.py:23-27 | The collecting loop yields exactly the concatenation of all inputs' rows. |
| Fusion.AllRowsCount | src/pytde/td_file/utils.py:23-27 | Without deduplication, the number of fused rows is the sum of the inputs' row counts. |
| Fusion.AllRowsRectangular | src/pytde/td_file/utils.py:27 | Stacking tables of one width gives rows of that width. |
| Fusion.DuplicatedMarksRepeats | src/pytde/td_file/utils.py:29 | `duplicated()` marks row k exactly when it equals some earlier row. |
| Fusion.Distinct | src/pytde/td_file/utils.py:31 | `drop_duplicates()` leaves no two equal rows. It contains exactly the values of the input, and it is a subsequence of the input. |
| Fusion.DistinctIsFirstOccurrences | src/pytde/td_file/utils.py:28-31 | The deduplicated rows are exactly the rows at the positions `duplicated()` leaves unmarked, in order, i.e. the first occurrence of each distinct row. |
| Fusion.DuplicateCount | src/pytde/td_file/utils.py:29-31 | The reported duplicate count equals the number of input rows minus the number of output rows. |
| Fusion.DistinctOfNoDuplicates | src/pytde/td_file/utils.py:31 | Rows without duplicates are left unchanged by deduplication. |
| Fusion.DistinctIdempotent | src/pytde/td_file/utils.py:31 | Deduplicating twice is deduplicating once, and the second pass marks no row. |
| Fusion.FusionIdempotent | src/pytde/td_file/utils.py:27-31 | Fusing the deduplicated result again, on its own, gives the same rows and reports zero duplicates. |
| Fusion.DedupedRowCount | src/pytde/td_file/utils.py:27-31 | Deduplication never yields more rows than the inputs hold together. |
| Text.Strip | src/pytde/td_file/utils.py:65 | `strip()` returns a slice of the name. Everything it cuts on either side is whitespace, and the result neither starts nor ends with whitespace. |
| Text.StripKeepsTrimmed | src/pytde/td_file/utils.py:65 | A name without whitespace at either end is left unchanged. |
| Text.StripIdempotent | src/pytde/td_file/utils.py:65 | Stripping twice is stripping once. |
| Text.Contains | src/pytde/td_file/utils.py:153 | `sub in s` holds exactly when `sub` occurs at some offset of `s`. |
| Text.ContainsSuffix | src/pytde/td_file/utils.py:147-153 | A name with `_merged` appended contains `_merged`. |
| Tables.IndexOf | src/pytde/td_file/utils.py:116 | The lookup of a column by name fails exactly when the name is absent. Otherwise it finds the first column of that name. |
| Tables.FirstUnknown | src/pytde/td_file/utils.py:115-116 | The scan finds no unknown name exactly when every name is a column. Otherwise it reports the first name that is not a column. |
| Tables.FirstMissing | src/pytde/td_file/utils.py:115-116 | If some name is not a column, there is a first such name. |
| Tables.Positions | src/pytde/td_file/utils.py:116 | Each checked name maps to a valid position holding that name. |
| Tables.DropColumns | src/pytde/td_file/utils.py:97 | `df.drop(columns=names)` keeps exactly the columns whose name is not listed. The survivors keep their order and every row's cells, and the row count is unchanged. |
| Tables.DropNothing | src/pytde/td_file/utils.py:97 | Dropping no names gives back the table. |
| Tables.Filter | src/pytde/td_file/utils.py:91-94 | A filter keeps an element exactly when it is in the input and passes the test, and its result is a subsequence of the input. |
| Tables.FilterCompose | src/pytde/td_file/utils.py:115-116 | Filtering by one test and then another is filtering by their conjunction. |
| ColumnMapper.RenameColumns | src/pytde/td_file/utils.py:56-97 | `rename_columns` fails on a mapping that is neither a dictionary nor a file. It fails when neither a table nor a file is given. Otherwise it renames the given table, preferring it over the file, and returns a well-formed table. |
| ColumnMapper.ApplyMapping | src/pytde/td_file/utils.py:73-75 | The renaming loop keeps the list length. Each name that is a key of the mapping is replaced by its image, and every other name is kept, position by position. |
| ColumnMapper.FilterDropList | src/pytde/td_file/utils.py:91-94 | The loop keeps, in order, exactly the drop names that are current column names. |
| ColumnMapper.RenameIsPositional | src/pytde/td_file/utils.py:64-80 | Before any drop, the width and the rows are unchanged. Name i becomes the mapping's image of the stripped name i, or stays the stripped name when that is not a key. |
| ColumnMapper.EmptyMappingOnlyTrims | src/pytde/td_file/utils.py:64-80 | With an empty mapping and no drop list, only the names are trimmed and the rows are untouched. |
| ColumnMapper.DropAbsent | src/pytde/td_file/utils.py:91-97 | Drop names none of which is a column leave the table unchanged. |
| ColumnMapper.DropIgnoresAbsentNames | src/pytde/td_file/utils.py:82-97 | Filtering the drop list first makes no difference. The result is the renamed table minus every listed column, and names that are not columns are ignored. |
| ColumnMapper.MappedColumns | src/pytde/td_file/utils.py:82-97 | A column survives exactly when its renamed name is not in the drop list. Survivors keep their relative order and their cells. |
| ColumnMapper.DropMappingUsesKeys | src/pytde/td_file/utils.py:88-89 | A drop file holding a dictionary drops exactly the dictionary's keys, in order. |
| RowFilter.KeepNotNaValues | src/pytde/td_file/utils.py:112-118 | Re-filtering the rows once per checked column equals filtering once by all checked columns. The loop stops with the error at the first unknown name. |
| RowFilter.CheckOneMore | src/pytde/td_file/utils.py:115-116 | One more pass of the loop narrows the filter by one more column. |
| RowFilter.UnknownColumnFails | src/pytde/td_file/utils.py:115-116 | The filter fails exactly when some checked name is not a column, and it reports the first such name. |
| RowFilter.KeptRowsAreComplete | src/pytde/td_file/utils.py:112-118 | On success the columns are unchanged and the rows are a subsequence of the input's, so there are never more of them. A row is kept exactly when every checked cell of it is present. |
| RowFilter.OneNameIsOneElementList | src/pytde/td_file/utils.py:112-113 | A single column name behaves as the one-element list holding it. |
| KeyMerger.PlanFor | src/pytde/td_file/utils.py:147 | The key positions on both sides, and the right-hand non-key positions the join copies, are valid positions. |
| KeyMerger.Joined | src/pytde/td_file/utils.py:147 | The inner join is a well-formed table. |
| KeyMerger.JoinRowsRectangular | src/pytde/td_file/utils.py:147 | Every joined row has one cell per joined column. |
| KeyMerger.JoinRowsCount | src/pytde/td_file/utils.py:147 | The join has one row per matching pair of a left row and a right row. |
| KeyMerger.MatchesMembership | src/pytde/td_file/utils.py:147 | The rows one left row contributes are exactly its combinations with the right rows whose keys match. |
| KeyMerger.JoinRowsMembership | src/pytde/td_file/utils.py:147 | A row is in the join exactly when it combines a left row with a right row whose key cells are equal. |
| KeyMerger.JoinedKeysOccurInBoth | src/pytde/td_file/utils.py:147 | Every joined row's key cells occur together in some left row and in some right row. |
| KeyMerger.NestedLoopJoin | src/pytde/td_file/utils.py:147 | The nested loop over left and right rows computes exactly the inner join. |
| KeyMerger.MarkedColumns | src/pytde/td_file/utils.py:150-154 | The loop collects, in order, exactly the column names that contain `_merged`. |
| KeyMerger.WithoutMarkedColumns | src/pytde/td_file/utils.py:150-157 | After the drop, a column survives exactly when its name does not contain `_merged`, and the survivors keep their cells. |
| KeyMerger.ClashingColumnKeepsLeft | src/pytde/td_file/utils.py:147-157 | In a successful merge, a right-hand non-key column whose name the left table also has is joined as `name_merged` and that column is absent from the output. The left column of that name is in the output unless its own name contains `_merged`. |
| KeyMerger.MergeFilesByKey | src/pytde/td_file/utils.py:135-157 | The method returns exactly the specified merge result or error. |
| KeyMerger.MergeFailures | src/pytde/td_file/utils.py:135-147 | Any format other than csv is refused. Otherwise the merge fails exactly when a key is missing from one of the two tables, and it names such a key. |
| KeyMerger.MergeShape | src/pytde/td_file/utils.py:147-157 | A successful merge has one row per matching pair of rows. No output column name contains `_merged`. Every left column whose name lacks `_merged` is kept. |
| KeyMerger.MergeRowsFromMatchingPairs | src/pytde/td_file/utils.py:147-157 | The output is the joined table minus its `_merged` columns, with the survivors' cells kept. The joined rows are exactly the combinations of matching pairs. |
| KeyMerger.MergeExample | src/pytde/td_file/utils.py:147-157 | For any distinct names `key`, `v`, `w` without `_merged` and any distinct keys `k1`, `k2`, `k3`, merging `{key: [k1, k2], v: [x1, x2]}` with `{key: [k2, k3], w: [y2, y3]}` on `key` gives `{key: [k2], v: [x2], w: [y2]}`. |
| KeyMerger.MergeScenario | src/pytde/td_file/utils.py:147-157 | Merging `{id: [1, 2], v: [10, 20]}` with `{id: [2, 3], w: [200, 300]}` on `id` gives `{id: [2], v: [20], w: [200]}`. |
| Entry.EDEntry.constructor | src/pytde/core/entry.py:16-30 | The fields `id`, `arrival_date`, `departure_date` and `gender` all start unset, so a new entry counts as a girl. |
| Entry.EDEntry.IsGirl | src/pytde/core/entry.py:32-36 | `is_girl` is true when the gender is unset. It is true when the gender is `"F"`, and false for every other gender. As a function, it changes no field. |

## Left out

- File I/O:
  - reading and writing CSV files (`pd.read_csv` and `to_csv`), with their encodings and separators;
  - the export-or-return branch of every function;
  - the content of each file is a parameter, and the result is always returned.
- YAML loading with `yaml.load`: the loaded document is a parameter. A mapping file is a dictionary of names. A drop file is a list of names or a dictionary. An empty or malformed YAML document, which the source would let fail inside Python, is not modelled.
- The `print` diagnostics. The duplicate count printed by `fusion_same_col_files` is returned as a value instead.
- `Fusion.FusionSameColFiles` requires all inputs to share one column list. pandas' union of differing columns, which pads with NA, is not modelled.
- pandas types: type inference, numeric coercion and NaN as a float. A cell is text or `Missing`, and keys match on equal cells.
- Row order in `pd.merge`: the model joins in nested-loop order, left row by left row, and states its properties by membership and counts. Which absent key pandas names first is not modelled either: the model names the first key in the `on` list that is missing from either table.
- `on=None` in `merge_files_by_key`: pandas then joins on the columns both tables share. `JoinOn` holds only a name or a list of names, so the model always has explicit keys.
- An empty left table in `pd.merge`: pandas may then place the key columns as the right table has them. The model always keeps the keys where the left table has them, and the join has no rows either way.
- Duplicate column labels: looking a column up by name uses the first column of that name. pandas returns every column of that label.
- In-place mutation of the caller's data frame (`inplace=True`, `df.columns = ...`) and aliasing between the argument and the result: tables are values.
- A key list that is empty, and suffixed names that collide with existing names. Both follow from the model's definitions and are not compared with pandas.
- The date fields of `EDEntry` are plain integers; datetime semantics are not modelled. `gender` is an optional string, whereas Python allows any value there.
- The empty abstract base class `TdeEntry` has no behaviour.

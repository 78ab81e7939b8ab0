# make_dataset: document parsing and pair joining, in Dafny

This project models the data-shaping core of `code/utils/make_dataset.py`. That core has two steps.

- `parse_to_json` turns a list of per-document JSON records into a column-oriented table, a `defaultdict(list)` from column name to values.
  - Every document contributes its id: its file's base name up to the first `.`.
  - It then contributes every record field whose key is also in the allow-list, passed through the text cleaner.
  - With `is_merge` set, it also contributes a `merge` field: those cleaned values joined by single spaces.
- `pair_docs` builds a frame from that table and left-merges it twice onto the score rows.
  - It splits each score row's `pair_id` on `_` into `link_id1` and `link_id2`.
  - It joins the documents' columns suffixed `1` on `link_id1`, then the same original columns suffixed `2` on `link_id2`.
  - It drops the document `id` column after each merge.

The modules:

- `Wrappers`: `Option` and `Result`.
- `Seqs`: associativity of concatenation.
- `Strings`: Python's `str.split`, `str.join` and `os.path.basename`, and the document id.
- `Dataset`: `filter_data`, and the table with its appends. `ParseToJson` is a method whose loops update the table step by step, proved equal to the functional definition `Parse`.
- `Frames`: the slice of pandas `DataFrame` behaviour that `pair_docs` uses.
  - A frame is a header of labels plus rows of cells held by position. A cell is `Option<string>`, and `None` is pandas' NaN.
  - It covers whole-column assignment, dropping a column, and a left merge.
- `Pairing`: the `pair_id` split, `DataFrame.from_dict`, the suffix renaming, the two merges, and `pair_docs` itself.

Behaviour outside the code is represented by parameters:

- The text cleaner `clean_raw_text` (a wrapper over the external `cleantext.clean`) is the uninterpreted parameter `clean`.
- The iteration order of the set `raw_data.keys() & column_to_parse` depends on string hashing and on the order in which keys were inserted. It is the parameter `order`, which must list each such set exactly once.

pandas errors are results, not preconditions. `PairDocs` returns an error in four cases:

- `MissingColumn("pair_id")`: the scores have no `pair_id` column (a `KeyError` in pandas).
- `SplitWidth(w)`: the widest split of `pair_id` does not have exactly two parts, so the assignment of two columns fails.
- `RaggedColumns`: the table's lists have different lengths, which `from_dict` rejects.
- `MissingColumn("id")`: the document frame has no `id` column, or the score frame has its own `id` column. In the second case the merge at line 80 renames both `id` columns apart (to `id_x` and `id_y`), so the drop at line 81 finds no `id`.

Where the code differs from an idealised reading of it, the model follows the code:

- **Merge order.** The code concatenates the `merge` values in set-iteration order, not in the allow-list's order.
- **Duplicate ids.** The code does not apply last-write-wins. Both values stay in the `id` list, and a left merge yields one output row per matching document. Consequently, the statement that the output has as many rows as the scores, in the same order, holds only when document ids are unique. It is proved under that precondition (`Pairing.PairDocsRows`). Without it, the model proves only that the output is never shorter.
- **Missing fields.** A document that lacks a selected key appends nothing to that list. No null padding happens. The lists then drift apart in length, and `from_dict` raises. `Pairing.ParseRectangular` states exactly when this happens.
- **Output columns.** The joined frame's columns are in this order:
  1. the score columns, with `link_id1` and `link_id2` appended;
  2. every non-`id` table column suffixed `1`, in the table's first-insertion order;
  3. the same columns suffixed `2`.

  The columns are not interleaved as pairs per field, and `merge` is included when present.

## Model

| member | source | states |
|---|---|---|
| Strings.JoinSplit | code/utils/make_dataset.py:18 | joining the parts of `s.split(sep)` with `sep` gives back `s`: splitting loses nothing |
| Strings.SplitJoin | code/utils/make_dataset.py:69 | splitting the `sep`-join of a non-empty list of `sep`-free parts gives back exactly those parts |
| Strings.SplitParts | code/utils/make_dataset.py:69 | `s.split(sep)` has one part more than `s` has separators, and no part contains the separator |
| Strings.SplitNoSep | code/utils/make_dataset.py:18 | a string without the separator splits into itself alone |
| Strings.SplitAfter | code/utils/make_dataset.py:18 | a separator-free head followed by the separator splits off as the first part |
| Strings.SplitFirst | code/utils/make_dataset.py:18 | the first part of a split is a prefix of the string without the separator; when it is shorter, the separator follows it |
| Strings.SplitLast | code/utils/make_dataset.py:17 | the last part of a split is a suffix of the string without the separator; when it is shorter, the separator precedes it |
| Strings.BaseNameIsLastComponent | code/utils/make_dataset.py:17 | `os.path.basename` gives the path's final component: a suffix with no `/`, preceded by `/` when it is not the whole path |
| Strings.DocIdIsStem | code/utils/make_dataset.py:17-18 | the document id is a prefix of the base name with no `.` and no `/`; a `.` follows it when it is shorter; a base name without `.` is its own id |
| Strings.SplitOneUnderscore | code/utils/make_dataset.py:69 | a string with exactly one `_` splits into two parts, `_`-free, with `parts[0] + "_" + parts[1]` equal to the string |
| Dataset.Put | code/utils/make_dataset.py:29 | dict assignment: an existing key keeps its place, a new key goes last; the assigned key reads the new value and every other key reads as before |
| Dataset.PutDistinct | code/utils/make_dataset.py:29 | assigning a key keeps the dict's keys distinct |
| Dataset.FilterData | code/utils/make_dataset.py:25-29 | `filter_data` has distinct keys: exactly those in both the record and the allow-list, plus `merge` when `is_merge` is set; each selected value is cleaned; `merge` is the space-join of the cleaned values in set-iteration order; the key order is that iteration order, with `merge` appended when `is_merge` is set and `merge` is not itself a selected key (a selected `merge` is overwritten where it stands) |
| Dataset.Append | code/utils/make_dataset.py:19 | `json_data[k].append(v)` adds `v` to the end of `k`'s list and to no other list; `k` joins the key order on its first append; a well-formed table stays well-formed |
| Dataset.AppendEntries | code/utils/make_dataset.py:31-32 | the loop over `filter_data.items()` leaves the table that appending every entry in order gives, and keeps the table well-formed |
| Dataset.ParseToJson | code/utils/make_dataset.py:7-34 | the loops over the paths and entries compute `Parse`, the table of the whole document list; the result lists its keys once each, and every list is non-empty |
| Dataset.AddDocumentColumn | code/utils/make_dataset.py:16-32 | one document adds to the list of `k` its id (for `id`) and then its own `filter_data` value for `k`, if any; no other list changes |
| Dataset.ParseColumns | code/utils/make_dataset.py:14-32 | after the loop, every key's list is the concatenation, in document order, of what each document contributes to it |
| Dataset.IdContribution | code/utils/make_dataset.py:19 | when `id` is not an allowed key, a document contributes exactly its id to the `id` list |
| Dataset.IdColumn | code/utils/make_dataset.py:15-19 | when `id` is not an allowed key, `json_data['id']` is exactly the documents' ids: one per path, in path order |
| Dataset.ColumnLength | code/utils/make_dataset.py:31-32 | every key other than `id` has one value per document whose `filter_data` has that key, so never more values than there are documents |
| Dataset.HavingAll | code/utils/make_dataset.py:31-32 | a key has one value per document exactly when every document's `filter_data` has it |
| Dataset.MergeColumnLength | code/utils/make_dataset.py:28-32 | with `is_merge` set, the `merge` list is as long as the `id` list: one entry per document |
| Dataset.IdFirst | code/utils/make_dataset.py:19 | with at least one document, `id` is the table's first key |
| Dataset.ParseOrderGrows | code/utils/make_dataset.py:14-32 | the table's key order only ever grows at its end |
| Frames.SetColumn | code/utils/make_dataset.py:69 | assigning a whole column replaces that column's cells, or appends the column when it is new; the row count is unchanged, and so is every other column |
| Frames.DropColumn | code/utils/make_dataset.py:81 | `drop(c, axis=1)` leaves the header without every `c` label, the others in their order; keeps every row, as wide as the header; and every remaining column keeps its cells in every row |
| Frames.WithoutConcat | code/utils/make_dataset.py:81 | dropping a label from a header split in two drops it from each half |
| Frames.DropConcat | code/utils/make_dataset.py:81 | dropping a column's cells from a row split in two drops them from each half |
| Frames.DropAbsent | code/utils/make_dataset.py:81 | dropping an absent label changes neither the header nor the row |
| Frames.Matches | code/utils/make_dataset.py:80 | the right rows a key matches are exactly the right rows carrying that key: each match is a right row with the key, and each right row with the key is matched; at most the right frame's rows |
| Frames.MatchesConcat | code/utils/make_dataset.py:80 | matching keeps the right frame's order and count: the matches of a concatenation are the first part's followed by the second's, and a single row is matched exactly when it carries the key |
| Frames.LeftJoin | code/utils/make_dataset.py:80 | a left merge has the left header followed by the right header, and at least one row per left row |
| Frames.LeftJoinWf | code/utils/make_dataset.py:80 | every row of a left merge is as wide as its header |
| Frames.MatchesUnique | code/utils/make_dataset.py:80 | on unique right keys, a key matches exactly the first row with that key, or no row |
| Frames.JoinRowsUnique | code/utils/make_dataset.py:80 | on unique right keys, the merged rows are the left rows in order, each followed by its matching right row or by missing values |
| Frames.LeftJoinUnique | code/utils/make_dataset.py:80 | on unique right keys, a left merge keeps the left row count and order, and extends each row by its match or by missing values |
| Pairing.WidthUniform | code/utils/make_dataset.py:69 | when every split has the same number of parts, that number is the width of the split |
| Pairing.SplitPairIds | code/utils/make_dataset.py:69 | without `pair_id` the split fails with a missing column; it succeeds exactly when the widest split has two parts; then `link_id1` and `link_id2` hold the first and second part of each row's `pair_id`, and every other column and the row count are unchanged |
| Pairing.SplitPairIdsOneUnderscore | code/utils/make_dataset.py:69 | when every `pair_id` has exactly one `_`, the split succeeds and each row's `link_id1 + "_" + link_id2` is its `pair_id`, with neither part containing `_` |
| Pairing.FromDict | code/utils/make_dataset.py:72 | `from_dict` succeeds exactly when all lists have the same length, and fails with ragged columns otherwise; the frame's columns are the table's keys in order, and row `j` holds each list's `j`-th value |
| Pairing.SuffixedIndex | code/utils/make_dataset.py:77-79 | renaming keeps `id` as it is and at the same position |
| Pairing.SuffixedDrop | code/utils/make_dataset.py:77-81 | once `id` is dropped, the renamed columns are every non-`id` original label with the suffix appended, holding the same cells |
| Pairing.MergeSide | code/utils/make_dataset.py:77-81 | one rename, merge and drop on a left frame without its own `id`, yields a well-formed frame without `id`, with at least the left rows; its columns are the left's, then every non-`id` document column with the suffix |
| Pairing.SideCells | code/utils/make_dataset.py:80-81 | with unique ids, the cells one side contributes to a row are the non-`id` values of the document whose id equals the row's key, or missing values |
| Pairing.MergeSideRows | code/utils/make_dataset.py:77-81 | with unique ids, one side's merge keeps every left row once, in order, unchanged, extended by that document's cells; its header is the left header plus the suffixed non-`id` document columns |
| Pairing.PairDocs | code/utils/make_dataset.py:60-90 | `pair_docs` fails with a missing `pair_id` when the scores lack it; it succeeds exactly when the split has width two, the lists have equal lengths, `id` is a document column and not a score column; the result has no `id` column, at least as many rows as the scores, and the columns: scores with the link columns, then the non-`id` document columns suffixed `1`, then suffixed `2` |
| Pairing.LinkDocs | code/utils/make_dataset.py:76-88 | the merges fail with a missing `id` exactly when the document frame lacks `id` or the split scores have their own; otherwise they give the scores' columns then both suffixed document column lists |
| Pairing.MergeLinks | code/utils/make_dataset.py:76-88 | on split scores without their own `id`, the two merges yield a well-formed frame without `id`, with at least the split scores' rows; its columns are the left's, then the non-`id` document columns suffixed `1`, then the same original columns suffixed `2` |
| Pairing.MergeBoth | code/utils/make_dataset.py:74-88 | with unique ids, the two merges keep every score row once, in order; each row gains the side-1 document's cells, looked up by `link_id1`, then the side-2 document's cells, looked up independently by `link_id2`; the side-2 labels come from the saved original headers |
| Pairing.PairDocsRows | code/utils/make_dataset.py:60-90 | with unique ids, the output has as many rows as the scores, in the same order; each row holds the split score row, then side-1 and side-2 document cells (or missing values); the header is the score columns, then the non-`id` columns suffixed `1`, then suffixed `2` |
| Dataset.ParseWf | code/utils/make_dataset.py:14-32 | the table built by the loop lists each of its keys once, and every list is non-empty |
| Pairing.ParseRectangular | code/utils/make_dataset.py:31-32 | with `id` not an allowed key, the table of a non-empty document list can become a frame exactly when every key that some document's `filter_data` has, every document's has |

## Left out

- File and directory I/O: `open` and `json.load` (lines 21-22), `pd.read_csv` (line 68), `os.walk`, and the CSV/JSON output of `main`. The model takes already-parsed records and score rows as inputs. `main` is orchestration over fixed paths.
- What `cleantext.clean` does (lines 36-58): it is an external library. The cleaner is the uninterpreted parameter `clean`, and nothing is assumed about its output.
- The iteration order of `raw_data.keys() & column_to_parse`: it is the parameter `order`, constrained only to list the set once. It is a function of the selected key set alone, so one order per key set is assumed. In CPython the order also depends on insertion order when hashes collide, and a record with no more keys than the allow-list inserts its keys in its own JSON key order. Two documents with the same selected keys in different key orders may therefore yield `merge` strings in different orders, which the model cannot express.
- JSON values that are not strings: a record is a `map<string, string>`.
- Windows paths: `BaseName` models POSIX `os.path.basename`, splitting on `/` only.
- pandas dtype coercion by `read_csv`: every cell is a string or missing.
- `reset_index(drop=True)` (line 73): the model has no row index, so the call has nothing to reset.
- pandas' `_x`/`_y` renaming when a score column other than `id` and a suffixed document column share a name: the model keeps both labels, and a lookup reads the first. A score column named `id` is modelled: `PairDocs` fails with `MissingColumn("id")`, as the drop at line 81 does.
- Frames.LeftJoin: its contract gives only the header and a lower bound on the row count. The row-by-row content is proved only for unique right keys (`Frames.LeftJoinUnique`), because with duplicate keys each left row expands to one row per match.
- Pairing.PairDocs: its contract gives the header but only a lower bound on the row count. The exact row count, the row order and each row's content (the score row followed by both documents' cells) are stated only with unique document ids (`Pairing.PairDocsRows`), because duplicate ids multiply rows.
- Pairing.SplitPairIds: an empty score frame has split width 0 and is reported as `SplitWidth(0)`. How pandas assigns two columns from an empty split is not modelled.
- A missing `pair_id` (NaN) splits into no parts, as `str.split` does for NaN. Both link cells are then missing, and such a row matches only documents whose id is missing.

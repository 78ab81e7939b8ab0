/**
 * `pair_docs` (code/utils/make_dataset.py): splits each score row's `pair_id` into
 * `link_id1` and `link_id2`, builds a frame from the `parse_to_json` table, and left-merges
 * it twice onto the scores, once per side, with the document columns suffixed `1` and `2`.
 */
module Pairing {
  import opened Wrappers
  import opened Strings
  import opened Dataset
  import opened Frames

  /** What `pair_docs` raises. */
  datatype Error =
    | MissingColumn(name: string)  // KeyError: no `pair_id` in the scores, or no `id` in the documents
    | SplitWidth(width: nat)       // the split of `pair_id` does not give exactly two columns
    | RaggedColumns                // `DataFrame.from_dict` on lists of different lengths

  // ---------------------------------------------------------------- the pair-id split

  /** The larger of two counts. */
  function Max(a: nat, b: nat): nat
  {
    if a < b then b else a
  }

  /** Number of parts `str.split('_')` makes of one `pair_id` cell; a missing cell makes none. */
  function PartCount(c: Cell): nat
  {
    match c
    case None => 0
    case Some(s) => |Split(s, '_')|
  }

  /** Part `k` of a `pair_id` cell, or missing where the split is shorter (pandas pads). */
  function Part(c: Cell, k: nat): Cell
  {
    match c
    case None => None
    case Some(s) =>
      var parts := Split(s, '_');
      if k < |parts| then Some(parts[k]) else None
  }

  /** With `expand=True` the split has as many columns as the longest split has parts. */
  function Width(cells: seq<Cell>): nat
  {
    if |cells| == 0 then 0 else Max(PartCount(cells[0]), Width(cells[1..]))
  }

  /** When every cell splits into `n` parts, the split is `n` columns wide. */
  lemma {:induction false} WidthUniform(cells: seq<Cell>, n: nat)
    requires |cells| > 0 && forall i :: 0 <= i < |cells| ==> PartCount(cells[i]) == n
    ensures Width(cells) == n
  {
    if |cells| > 1 {
      WidthUniform(cells[1..], n);
    }
  }

  /** The cells of column `c`, top to bottom. */
  function ColumnCells(f: Frame, c: string): seq<Cell>
    requires Wf(f) && c in f.header
  {
    seq(|f.rows|, i requires 0 <= i < |f.rows| => At(f, i, c))
  }

  /** The header after `link_id1` and `link_id2` are assigned. */
  function LinkHeader(h: seq<string>): seq<string>
  {
    var h1 := if "link_id1" in h then h else h + ["link_id1"];
    if "link_id2" in h1 then h1 else h1 + ["link_id2"]
  }

  /**
   * Line 69: the `pair_id` column is split on '_' into as many columns as the longest
   * split has parts, and those are assigned to `link_id1` and `link_id2`.
   * It fails when there is no `pair_id` column or when the split is not two columns
   * wide; otherwise each row gets the two parts of its own `pair_id`, and nothing else
   * changes.
   */
  function SplitPairIds(s: Frame): (r: Result<Frame, Error>)
    requires Wf(s)
    ensures "pair_id" !in s.header ==> r == Err(MissingColumn("pair_id"))
    ensures r.Ok? <==> "pair_id" in s.header && Width(ColumnCells(s, "pair_id")) == 2
    ensures r.Ok? ==> Wf(r.value) && |r.value.rows| == |s.rows| && r.value.header == LinkHeader(s.header)
    ensures r.Ok? ==> forall i :: 0 <= i < |s.rows| ==>
      At(r.value, i, "link_id1") == Part(At(s, i, "pair_id"), 0)
      && At(r.value, i, "link_id2") == Part(At(s, i, "pair_id"), 1)
    ensures r.Ok? ==> forall i, c :: 0 <= i < |s.rows| && c in s.header && c != "link_id1" && c != "link_id2" ==>
      At(r.value, i, c) == At(s, i, c)
  {
    if "pair_id" !in s.header then Err(MissingColumn("pair_id"))
    else
      var ids := ColumnCells(s, "pair_id");
      var w := Width(ids);
      if w != 2 then Err(SplitWidth(w))
      else
        Ok(SetLinks(s))
  }

  /** Assigns the first and second parts of each `pair_id` cell to `link_id1` and `link_id2`. */
  function SetLinks(s: Frame): (p: Frame)
    requires Wf(s) && "pair_id" in s.header
    ensures Wf(p) && |p.rows| == |s.rows| && p.header == LinkHeader(s.header)
    ensures forall i :: 0 <= i < |s.rows| ==>
      At(p, i, "link_id1") == Part(At(s, i, "pair_id"), 0) && At(p, i, "link_id2") == Part(At(s, i, "pair_id"), 1)
    ensures forall i, c :: 0 <= i < |s.rows| && c in s.header && c != "link_id1" && c != "link_id2" ==>
      At(p, i, c) == At(s, i, c)
  {
    var ids := ColumnCells(s, "pair_id");
    var p1 := SetColumn(s, "link_id1", seq(|ids|, i requires 0 <= i < |ids| => Part(ids[i], 0)));
    var p := SetColumn(p1, "link_id2", seq(|ids|, i requires 0 <= i < |ids| => Part(ids[i], 1)));
    assert "link_id1" in p1.header && "link_id1" != "link_id2";
    assert forall i :: 0 <= i < |s.rows| ==> At(p, i, "link_id1") == At(p1, i, "link_id1");
    p
  }

  /** Ids of the form `a_b` all split into exactly two parts. */
  lemma OneUnderscoreWidth(s: Frame)
    requires Wf(s) && "pair_id" in s.header && |s.rows| > 0
    requires forall i :: 0 <= i < |s.rows| ==>
      At(s, i, "pair_id").Some? && Count(At(s, i, "pair_id").value, '_') == 1
    ensures Width(ColumnCells(s, "pair_id")) == 2
  {
    var ids := ColumnCells(s, "pair_id");
    forall i | 0 <= i < |ids| ensures PartCount(ids[i]) == 2 {
      SplitOneUnderscore(At(s, i, "pair_id").value);
    }
    WidthUniform(ids, 2);
  }

  /** An id with one underscore splits into the text before it and the text after it. */
  lemma OneUnderscoreParts(id: Cell)
    requires id.Some? && Count(id.value, '_') == 1
    ensures Part(id, 0).Some? && Part(id, 1).Some?
    ensures Part(id, 0).value + "_" + Part(id, 1).value == id.value
    ensures '_' !in Part(id, 0).value && '_' !in Part(id, 1).value
  {
    SplitOneUnderscore(id.value);
  }

  /**
   * When every `pair_id` holds exactly one '_', the split succeeds and every row's
   * `link_id1 + "_" + link_id2` is its `pair_id`, with no '_' in either part.
   */
  lemma SplitPairIdsOneUnderscore(s: Frame)
    requires Wf(s) && "pair_id" in s.header && |s.rows| > 0
    requires forall i :: 0 <= i < |s.rows| ==>
      At(s, i, "pair_id").Some? && Count(At(s, i, "pair_id").value, '_') == 1
    ensures SplitPairIds(s).Ok?
    ensures var p := SplitPairIds(s).value;
      forall i :: 0 <= i < |p.rows| ==>
        At(p, i, "link_id1").Some? && At(p, i, "link_id2").Some?
        && At(p, i, "link_id1").value + "_" + At(p, i, "link_id2").value == At(s, i, "pair_id").value
        && '_' !in At(p, i, "link_id1").value && '_' !in At(p, i, "link_id2").value
  {
    OneUnderscoreWidth(s);
    var p := SplitPairIds(s).value;
    forall i | 0 <= i < |p.rows|
      ensures At(p, i, "link_id1").Some? && At(p, i, "link_id2").Some?
        && At(p, i, "link_id1").value + "_" + At(p, i, "link_id2").value == At(s, i, "pair_id").value
        && '_' !in At(p, i, "link_id1").value && '_' !in At(p, i, "link_id2").value
    {
      var id := At(s, i, "pair_id");
      OneUnderscoreParts(id);
      assert At(p, i, "link_id1") == Part(id, 0) && At(p, i, "link_id2") == Part(id, 1);
    }
  }

  // ---------------------------------------------------------------- the document frame

  /** Rows of the document frame: the length of its first column. */
  function RowCount(t: Table): nat
  {
    if |t.order| == 0 then 0 else |Column(t, t.order[0])|
  }

  /** All lists of the table have the same length, as `DataFrame.from_dict` demands. */
  predicate Rectangular(t: Table)
  {
    forall k <- t.order :: |Column(t, k)| == RowCount(t)
  }

  /** The value of column `h` in row `j`, if the list is long enough. */
  function CellOf(t: Table, h: string, j: nat): Cell
  {
    var col := Column(t, h);
    if j < |col| then Some(col[j]) else None
  }

  /** Row `j` of the table across the columns `hs`. */
  function RowCells(t: Table, hs: seq<string>, j: nat): (r: seq<Cell>)
    ensures |r| == |hs|
  {
    if |hs| == 0 then [] else [CellOf(t, hs[0], j)] + RowCells(t, hs[1..], j)
  }

  /**
   * Line 72: `pd.DataFrame.from_dict(input_docs)`. Columns in the dict's order; row `j`
   * holds the `j`-th value of every list. Lists of different lengths are an error.
   */
  function FromDict(t: Table): (r: Result<Frame, Error>)
    ensures r.Ok? <==> Rectangular(t)
    ensures r.Err? ==> r.error == RaggedColumns
    ensures r.Ok? ==>
      Wf(r.value) && r.value.header == t.order && |r.value.rows| == RowCount(t)
      && forall j, c :: 0 <= j < |r.value.rows| && 0 <= c < |t.order| ==>
           r.value.rows[j][c] == Some(Column(t, t.order[c])[j])
  {
    if !Rectangular(t) then Err(RaggedColumns)
    else
      var f := Frame(t.order, seq(RowCount(t), j requires 0 <= j < RowCount(t) => RowCells(t, t.order, j)));
      forall j, c | 0 <= j < RowCount(t) && 0 <= c < |t.order|
        ensures f.rows[j][c] == Some(Column(t, t.order[c])[j])
      {
        RowCellsAt(t, t.order, j, c);
      }
      Ok(f)
  }

  /** Cell `c` of a table row is the value of the `c`-th listed column. */
  lemma {:induction false} RowCellsAt(t: Table, hs: seq<string>, j: nat, c: nat)
    requires c < |hs|
    ensures RowCells(t, hs, j)[c] == CellOf(t, hs[c], j)
  {
    if c > 0 {
      RowCellsAt(t, hs[1..], j, c - 1);
    }
  }

  // ---------------------------------------------------------------- suffixes

  /** Lines 77-79 and 84-86: every label but `id` gets the suffix. */
  function Suffixed(hs: seq<string>, suffix: string): (r: seq<string>)
    ensures |r| == |hs|
  {
    if |hs| == 0 then []
    else [if hs[0] == "id" then "id" else hs[0] + suffix] + Suffixed(hs[1..], suffix)
  }

  /** Every label with the suffix appended. */
  function Renamed(hs: seq<string>, suffix: string): (r: seq<string>)
    ensures |r| == |hs| && forall i :: 0 <= i < |hs| ==> r[i] == hs[i] + suffix
  {
    if |hs| == 0 then [] else [hs[0] + suffix] + Renamed(hs[1..], suffix)
  }

  /** The suffixes `pair_docs` gives the two sides' columns. */
  predicate SideSuffix(suffix: string)
  {
    suffix == "1" || suffix == "2"
  }

  /**
   * Once `id` is dropped, the suffixed header is every non-`id` original label with the
   * suffix appended, and dropping `id` removes the same cells under either header.
   */
  lemma {:induction false} SuffixedDrop(hs: seq<string>, r: seq<Cell>, suffix: string)
    requires SideSuffix(suffix) && |r| == |hs|
    ensures Without(Suffixed(hs, suffix), "id") == Renamed(Without(hs, "id"), suffix)
    ensures DropCells(Suffixed(hs, suffix), r, "id") == DropCells(hs, r, "id")
  {
    SuffixedWithout(hs, suffix);
    if |hs| > 0 {
      SuffixedDrop(hs[1..], r[1..], suffix);
      var h := hs[0] + suffix;
      assert h[|h| - 1] != "id"[1];
      assert Suffixed(hs, suffix)[1..] == Suffixed(hs[1..], suffix);
    }
  }

  /** Renaming then dropping `id` is dropping `id` then renaming. */
  lemma {:induction false} SuffixedWithout(hs: seq<string>, suffix: string)
    requires SideSuffix(suffix)
    ensures Without(Suffixed(hs, suffix), "id") == Renamed(Without(hs, "id"), suffix)
  {
    if |hs| > 0 {
      SuffixedWithout(hs[1..], suffix);
      var h := hs[0] + suffix;
      assert h[|h| - 1] != "id"[1];
      assert Suffixed(hs, suffix)[1..] == Suffixed(hs[1..], suffix);
      if hs[0] != "id" {
        assert Renamed(Without(hs, "id"), suffix) == [h] + Renamed(Without(hs[1..], "id"), suffix);
      }
    }
  }

  /** Suffixing keeps `id`, at the same position. */
  lemma {:induction false} SuffixedIndex(hs: seq<string>, suffix: string)
    requires SideSuffix(suffix) && "id" in hs
    ensures "id" in Suffixed(hs, suffix) && IndexOf(Suffixed(hs, suffix), "id") == IndexOf(hs, "id")
  {
    if hs[0] != "id" {
      var h := hs[0] + suffix;
      assert h[|h| - 1] != "id"[1];
      SuffixedIndex(hs[1..], suffix);
    }
  }

  /** Dropping columns from a table row is the row over the remaining columns. */
  lemma {:induction false} DropRowCells(t: Table, hs: seq<string>, j: nat, c: string)
    ensures DropCells(hs, RowCells(t, hs, j), c) == RowCells(t, Without(hs, c), j)
  {
    if |hs| > 0 {
      DropRowCells(t, hs[1..], j, c);
      var r := RowCells(t, hs, j);
      assert r[1..] == RowCells(t, hs[1..], j);
      if hs[0] != c {
        assert Without(hs, c) == [hs[0]] + Without(hs[1..], c);
        assert Without(hs, c)[1..] == Without(hs[1..], c);
        assert DropCells(hs, r, c) == [r[0]] + DropCells(hs[1..], r[1..], c);
      } else {
        assert Without(hs, c) == Without(hs[1..], c);
        assert DropCells(hs, r, c) == DropCells(hs[1..], r[1..], c);
      }
    }
  }

  // ---------------------------------------------------------------- the two joins

  /** Position of the first document whose id is `key`. */
  function IdIndex(ids: seq<string>, key: Cell): (o: Option<nat>)
    ensures o.Some? ==> o.value < |ids| && key == Some(ids[o.value])
    ensures o.None? ==> forall id <- ids :: key != Some(id)
  {
    if |ids| == 0 then None
    else if key == Some(ids[0]) then Some(0)
    else match IdIndex(ids[1..], key)
      case Some(j) => Some(j + 1)
      case None => None
  }

  /**
   * What one side of a joined row holds, stated on the table itself: the non-`id` values
   * of the document whose id equals `key`, or missing values when no document has it.
   */
  function DocCells(t: Table, key: Cell): seq<Cell>
  {
    var hs := Without(t.order, "id");
    match IdIndex(Column(t, "id"), key)
    case Some(j) => RowCells(t, hs, j)
    case None => Nulls(|hs|)
  }

  /**
   * Lines 77-81 (or 84-88): rename the document columns, left-merge on `lkey`, drop `id`.
   * The columns are the left ones, then every non-`id` document column with the suffix.
   * The left frame has no `id` of its own: pandas would rename both `id` columns apart
   * and the drop would fail, which `LinkDocs` reports as an error.
   */
  function MergeSide(l: Frame, lkey: string, d: Frame, suffix: string): (m: Frame)
    requires Wf(l) && Wf(d) && lkey in l.header && "id" !in l.header && "id" in d.header && SideSuffix(suffix)
    ensures Wf(m) && "id" !in m.header && |m.rows| >= |l.rows|
    ensures m.header == l.header + Renamed(Without(d.header, "id"), suffix)
  {
    SuffixedIndex(d.header, suffix);
    DropAbsent(l.header, Nulls(|l.header|), "id");
    var right := Frame(Suffixed(d.header, suffix), d.rows);
    LeftJoinWf(l, lkey, right, "id");
    WithoutConcat(l.header, right.header, "id");
    SuffixedWithout(d.header, suffix);
    DropColumn(LeftJoin(l, lkey, right, "id"), "id")
  }

  /**
   * `pair_docs` (lines 60-90), on the already-read score frame. Fails where pandas
   * raises; otherwise the scores with both documents' columns to the right.
   * A score frame with its own `id` column fails: the merge at line 80 renames both
   * `id` columns apart, so the drop at line 81 finds no `id`.
   */
  function PairDocs(scores: Frame, docs: Table): (r: Result<Frame, Error>)
    requires Wf(scores)
    ensures "pair_id" !in scores.header ==> r == Err(MissingColumn("pair_id"))
    ensures r.Ok? <==>
      ("pair_id" in scores.header && Width(ColumnCells(scores, "pair_id")) == 2)
      && Rectangular(docs) && "id" in docs.order && "id" !in scores.header
    ensures r.Ok? ==> Wf(r.value) && "id" !in r.value.header && |r.value.rows| >= |scores.rows|
    ensures r.Ok? ==>
      r.value.header == LinkHeader(scores.header) + Renamed(Without(docs.order, "id"), "1")
                          + Renamed(Without(docs.order, "id"), "2")
  {
    match SplitPairIds(scores)
    case Err(e) => Err(e)
    case Ok(p) =>
      match FromDict(docs)
      case Err(e) => Err(e)
      case Ok(d) =>
        assert p.header == LinkHeader(scores.header) && d.header == docs.order;
        assert ("id" in p.header) == ("id" in scores.header) by { LinkHeaderMembers(scores.header); }
        LinkDocs(p, d)
  }

  /** Lines 76-88 on the split scores and the document frame: both need the right `id` columns. */
  function LinkDocs(p: Frame, d: Frame): (r: Result<Frame, Error>)
    requires Wf(p) && "link_id1" in p.header && "link_id2" in p.header && Wf(d)
    ensures r.Ok? <==> "id" in d.header && "id" !in p.header
    ensures r.Err? ==> r == Err(MissingColumn("id"))
    ensures r.Ok? ==> r.value == MergeLinks(p, d) && Wf(r.value) && "id" !in r.value.header && |r.value.rows| >= |p.rows|
    ensures r.Ok? ==>
      r.value.header == p.header + Renamed(Without(d.header, "id"), "1") + Renamed(Without(d.header, "id"), "2")
  {
    if "id" !in d.header || "id" in p.header then Err(MissingColumn("id"))
    else Ok(MergeLinks(p, d))
  }

  /**
   * Lines 77-88: the first document's columns joined on `link_id1`, then the second's on
   * `link_id2`. The columns are the left ones, then the non-`id` document columns with
   * suffix `1`, then the same with suffix `2`, both taken from the original headers.
   */
  function MergeLinks(p: Frame, d: Frame): (o: Frame)
    requires Wf(p) && "link_id1" in p.header && "link_id2" in p.header && "id" !in p.header
    requires Wf(d) && "id" in d.header
    ensures Wf(o) && "id" !in o.header && |o.rows| >= |p.rows|
    ensures o.header == p.header + Renamed(Without(d.header, "id"), "1") + Renamed(Without(d.header, "id"), "2")
  {
    var merge1 := MergeSide(p, "link_id1", d, "1");
    assert "link_id2" in merge1.header by {
      SuffixedIndex(d.header, "1");
      assert "link_id2" in LeftJoin(p, "link_id1", Frame(Suffixed(d.header, "1"), d.rows), "id").header;
    }
    MergeSide(merge1, "link_id2", d, "2")
  }

  /** The document ids are unique. */
  predicate UniqueIds(t: Table)
  {
    Distinct(Column(t, "id"))
  }

  /** In the document frame, row `j`'s `id` cell is the `j`-th id. */
  lemma {:induction false} FindById(rs: seq<seq<Cell>>, k: nat, ids: seq<string>, key: Cell)
    requires |rs| == |ids|
    requires forall j :: 0 <= j < |rs| ==> k < |rs[j]| && rs[j][k] == Some(ids[j])
    ensures forall r <- rs :: k < |r|
    ensures Find(rs, k, key) == match IdIndex(ids, key) case Some(j) => Some(rs[j]) case None => None
  {
    if |rs| > 0 {
      assert forall j :: 0 <= j < |rs| - 1 ==> rs[1..][j] == rs[j + 1];
      FindById(rs[1..], k, ids[1..], key);
    }
  }

  /** The document frame's `id` column holds the ids, so with unique ids its keys are unique. */
  lemma DocFrameKeys(t: Table)
    requires FromDict(t).Ok? && "id" in t.order && UniqueIds(t)
    ensures var d := FromDict(t).value; var ik := IndexOf(d.header, "id");
      |d.rows| == |Column(t, "id")|
      && (forall j :: 0 <= j < |d.rows| ==> ik < |d.rows[j]| && d.rows[j][ik] == Some(Column(t, "id")[j]))
      && (forall r <- d.rows :: ik < |r|)
      && UniqueKeys(d.rows, ik)
  {
    var d := FromDict(t).value;
    var ik := IndexOf(d.header, "id");
    var ids := Column(t, "id");
    assert |ids| == |d.rows|;
    assert UniqueKeys(d.rows, ik) by {
      forall a, b | 0 <= a < b < |d.rows| ensures d.rows[a][ik] != d.rows[b][ik] {
        assert ids[a] != ids[b];
      }
    }
  }

  /**
   * The cells one side contributes to a row whose link is `key`: the matching document
   * row (or missing values) without its `id` cell, which is DocCells.
   */
  lemma SideCells(t: Table, key: Cell, suffix: string)
    requires FromDict(t).Ok? && "id" in t.order && UniqueIds(t) && SideSuffix(suffix)
    ensures var d := FromDict(t).value; var ik := IndexOf(d.header, "id");
      (forall r <- d.rows :: ik < |r|)
      && DropCells(Suffixed(d.header, suffix), Found(d.rows, ik, key, |d.header|), "id") == DocCells(t, key)
  {
    var d := FromDict(t).value;
    var ik := IndexOf(d.header, "id");
    var hs := d.header;
    DocFrameKeys(t);
    FindById(d.rows, ik, Column(t, "id"), key);
    var found := Found(d.rows, ik, key, |hs|);
    SuffixedDrop(hs, found, suffix);
    match IdIndex(Column(t, "id"), key)
    case Some(j) =>
      assert found == d.rows[j] == RowCells(t, hs, j);
      DropRowCells(t, hs, j, "id");
    case None =>
      DropNulls(hs, "id");
  }

  /**
   * One side of `pair_docs` on unique ids: every left row kept once, in order, extended
   * by the cells of the document whose id is in its `lkey` column, or by missing values.
   */
  lemma MergeSideRows(l: Frame, lkey: string, t: Table, suffix: string)
    requires Wf(l) && lkey in l.header && "id" !in l.header && SideSuffix(suffix)
    requires FromDict(t).Ok? && "id" in t.order && UniqueIds(t)
    ensures var m := MergeSide(l, lkey, FromDict(t).value, suffix);
      m.header == l.header + Renamed(Without(t.order, "id"), suffix)
      && |m.rows| == |l.rows|
      && forall i :: 0 <= i < |l.rows| ==> m.rows[i] == l.rows[i] + DocCells(t, At(l, i, lkey))
  {
    var d := FromDict(t).value;
    var hs := d.header;
    SuffixedIndex(hs, suffix);
    var right := Frame(Suffixed(hs, suffix), d.rows);
    var ik := IndexOf(hs, "id");
    DocFrameKeys(t);
    LeftJoinUnique(l, lkey, right, "id");
    LeftJoinWf(l, lkey, right, "id");
    var j1 := LeftJoin(l, lkey, right, "id");
    var m := DropColumn(j1, "id");
    WithoutConcat(l.header, right.header, "id");
    DropAbsent(l.header, Nulls(|l.header|), "id");
    SuffixedDrop(hs, Nulls(|hs|), suffix);
    forall i | 0 <= i < |l.rows|
      ensures m.rows[i] == l.rows[i] + DocCells(t, At(l, i, lkey))
    {
      var key := At(l, i, lkey);
      assert m.rows[i] == DropCells(j1.header, j1.rows[i], "id");
      assert j1.rows[i] == l.rows[i] + Found(d.rows, ik, key, |hs|);
      JoinedRowDrop(l.header, l.rows[i], t, key, suffix);
    }
  }

  /** Dropping `id` from a joined row leaves the left row and the document's cells. */
  lemma JoinedRowDrop(lh: seq<string>, lr: seq<Cell>, t: Table, key: Cell, suffix: string)
    requires |lr| == |lh| && "id" !in lh && SideSuffix(suffix)
    requires FromDict(t).Ok? && "id" in t.order && UniqueIds(t)
    ensures var d := FromDict(t).value; var ik := IndexOf(d.header, "id");
      (forall r <- d.rows :: ik < |r|)
      && DropCells(lh + Suffixed(d.header, suffix), lr + Found(d.rows, ik, key, |d.header|), "id")
         == lr + DocCells(t, key)
  {
    var d := FromDict(t).value;
    var ik := IndexOf(d.header, "id");
    DocFrameKeys(t);
    var found := Found(d.rows, ik, key, |d.header|);
    assert |found| == |d.header| by { FindById(d.rows, ik, Column(t, "id"), key); }
    DropConcat(lh, lr, Suffixed(d.header, suffix), found, "id");
    DropAbsent(lh, lr, "id");
    SideCells(t, key, suffix);
  }

  /**
   * The joined table, on unique document ids:
   * the header is the scores' (with the link columns), then each non-`id` document
   * column suffixed `1`, then each suffixed `2`; there is one row per score row, in
   * order, holding that row, the cells of the document named by `link_id1` (or missing
   * values), and the cells of the document named by `link_id2` (or missing values).
   */
  lemma PairDocsRows(scores: Frame, docs: Table)
    requires Wf(scores)
    requires UniqueIds(docs)
    requires PairDocs(scores, docs).Ok?
    ensures var p, o := SplitPairIds(scores).value, PairDocs(scores, docs).value;
      o.header == p.header + Renamed(Without(docs.order, "id"), "1") + Renamed(Without(docs.order, "id"), "2")
      && |o.rows| == |scores.rows|
      && forall i :: 0 <= i < |o.rows| ==>
           o.rows[i] == p.rows[i] + DocCells(docs, At(p, i, "link_id1")) + DocCells(docs, At(p, i, "link_id2"))
  {
    PairDocsOk(scores, docs);
    MergeBoth(SplitPairIds(scores).value, docs);
  }

  /** When `pair_docs` succeeds, it is the two merges applied to the split scores. */
  lemma PairDocsOk(scores: Frame, docs: Table)
    requires Wf(scores)
    requires PairDocs(scores, docs).Ok?
    ensures SplitPairIds(scores).Ok? && FromDict(docs).Ok? && "id" in docs.order
    ensures var p := SplitPairIds(scores).value;
      Wf(p) && |p.rows| == |scores.rows|
      && "link_id1" in p.header && "link_id2" in p.header && "id" !in p.header
      && PairDocs(scores, docs).value == MergeLinks(p, FromDict(docs).value)
  {
    var p := SplitPairIds(scores).value;
    assert p.header == LinkHeader(scores.header);
    LinkHeaderMembers(scores.header);
  }

  /** The labels of the header after the split: the old ones and the two link columns. */
  lemma LinkHeaderMembers(h: seq<string>)
    ensures forall x :: x in LinkHeader(h) <==> x in h || x == "link_id1" || x == "link_id2"
  {
  }

  /** The two merges of `pair_docs`, on a frame that already has both link columns. */
  lemma MergeBoth(p: Frame, docs: Table)
    requires Wf(p) && "link_id1" in p.header && "link_id2" in p.header && "id" !in p.header
    requires FromDict(docs).Ok? && "id" in docs.order && UniqueIds(docs)
    ensures var o := MergeLinks(p, FromDict(docs).value);
      o.header == p.header + Renamed(Without(docs.order, "id"), "1") + Renamed(Without(docs.order, "id"), "2")
      && |o.rows| == |p.rows|
      && forall i :: 0 <= i < |o.rows| ==>
           o.rows[i] == p.rows[i] + DocCells(docs, At(p, i, "link_id1")) + DocCells(docs, At(p, i, "link_id2"))
  {
    var d := FromDict(docs).value;
    var merge1 := MergeSide(p, "link_id1", d, "1");
    MergeSideRows(p, "link_id1", docs, "1");
    forall i | 0 <= i < |merge1.rows|
      ensures "link_id2" in merge1.header && At(merge1, i, "link_id2") == At(p, i, "link_id2")
    {
      AtExtended(p, merge1, i, "link_id2", Renamed(Without(docs.order, "id"), "1"),
                 DocCells(docs, At(p, i, "link_id1")));
    }
    MergeSideRows(merge1, "link_id2", docs, "2");
    var o := MergeSide(merge1, "link_id2", d, "2");
    forall i | 0 <= i < |o.rows|
      ensures o.rows[i] == p.rows[i] + DocCells(docs, At(p, i, "link_id1")) + DocCells(docs, At(p, i, "link_id2"))
    {
      assert o.rows[i] == merge1.rows[i] + DocCells(docs, At(merge1, i, "link_id2"));
    }
  }

  /** A cell of a row is unchanged when columns are added after it. */
  lemma AtExtended(f: Frame, g: Frame, i: nat, c: string, extra: seq<string>, tail: seq<Cell>)
    requires Wf(f) && Wf(g) && c in f.header && i < |f.rows| && i < |g.rows|
    requires g.header == f.header + extra && g.rows[i] == f.rows[i] + tail
    ensures c in g.header && At(g, i, c) == At(f, i, c)
  {
    IndexOfPrefix(f.header, extra, c);
    assert |f.rows[i]| == |f.header|;
  }

  // ---------------------------------------------------------------- the table parse_to_json gives

  /**
   * Column drift: the table of a non-empty document list (with `id` not an allowed key)
   * can become a frame exactly when every key some document's `filter_data` has, every
   * document's `filter_data` has; otherwise `pair_docs` fails with RaggedColumns.
   */
  lemma ParseRectangular(docs: seq<Document>, allow: set<string>, isMerge: bool,
                         clean: string -> string, order: set<string> -> seq<string>)
    requires AllListed(docs, allow, order)
    requires "id" !in allow && |docs| > 0
    ensures Rectangular(Parse(docs, allow, isMerge, clean, order)) <==>
      forall k :: k != "id" && Having(docs, k, allow, isMerge, clean, order) > 0 ==>
        Having(docs, k, allow, isMerge, clean, order) == |docs|
  {
    var t := Parse(docs, allow, isMerge, clean, order);
    ParseWf(Empty, docs, allow, isMerge, clean, order);
    IdFirst(docs, allow, isMerge, clean, order);
    IdColumn(docs, allow, isMerge, clean, order);
    assert RowCount(t) == |docs|;
    if Rectangular(t) {
      forall k | k != "id" && Having(docs, k, allow, isMerge, clean, order) > 0
        ensures Having(docs, k, allow, isMerge, clean, order) == |docs|
      {
        ColumnLength(docs, k, allow, isMerge, clean, order);
        assert k in t.cols;
        assert k in t.order;
      }
    } else {
      var k :| k in t.order && |Column(t, k)| != RowCount(t);
      assert k != "id";
      assert k in t.cols;
      ColumnLength(docs, k, allow, isMerge, clean, order);
      assert Having(docs, k, allow, isMerge, clean, order) > 0;
    }
  }
}

/**
 * The slice of pandas `DataFrame` behaviour that `pair_docs` uses: a header of column
 * labels and rows of cells held by position, whole-column assignment, dropping a column
 * by label, and a left merge of two frames on one key column each.
 */
module Frames {
  import opened Wrappers
  import opened Seqs

  /** A cell; `None` is pandas' missing value (NaN). */
  type Cell = Option<string>

  datatype Frame = Frame(header: seq<string>, rows: seq<seq<Cell>>)

  /** Every row has one cell per column. */
  predicate Wf(f: Frame)
  {
    forall r <- f.rows :: |r| == |f.header|
  }

  /** Position of the first column labelled `c`. */
  function IndexOf(hs: seq<string>, c: string): (i: nat)
    requires c in hs
    ensures i < |hs| && hs[i] == c && c !in hs[..i]
  {
    if hs[0] == c then 0 else 1 + IndexOf(hs[1..], c)
  }

  /** `f[c][i]`: the cell of row `i` in column `c`. */
  function At(f: Frame, i: nat, c: string): Cell
    requires Wf(f) && i < |f.rows| && c in f.header
  {
    f.rows[i][IndexOf(f.header, c)]
  }

  /** A row of `n` missing values. */
  function Nulls(n: nat): (r: seq<Cell>)
    ensures |r| == n && forall x <- r :: x == None
  {
    seq(n, _ => None)
  }

  /** Adding columns on the right does not move an existing label's first position. */
  lemma IndexOfPrefix(a: seq<string>, b: seq<string>, c: string)
    requires c in a
    ensures c in a + b && IndexOf(a + b, c) == IndexOf(a, c)
  {
    var i := IndexOf(a, c);
    assert (a + b)[..i] == a[..i];
    IndexOfUnique(a + b, c, i);
  }

  /** The first occurrence is the only position before which `c` does not appear. */
  lemma {:induction false} IndexOfUnique(hs: seq<string>, c: string, i: nat)
    requires i < |hs| && hs[i] == c && c !in hs[..i]
    ensures IndexOf(hs, c) == i
  {
    if i > 0 {
      assert hs[0] == hs[..i][0];
      assert hs[1..][..i - 1] == hs[1..i];
      assert forall x <- hs[1..i] :: x in hs[..i];
      IndexOfUnique(hs[1..], c, i - 1);
    }
  }

  /**
   * `df[c] = vals`: an existing column is overwritten where it stands, a new one is
   * appended at the right. No other cell changes.
   */
  function SetColumn(f: Frame, c: string, vals: seq<Cell>): (g: Frame)
    requires Wf(f) && |vals| == |f.rows|
    ensures Wf(g) && |g.rows| == |f.rows|
    ensures g.header == if c in f.header then f.header else f.header + [c]
    ensures forall i :: 0 <= i < |g.rows| ==> At(g, i, c) == vals[i]
    ensures forall i, d :: 0 <= i < |g.rows| && d in f.header && d != c ==> At(g, i, d) == At(f, i, d)
  {
    if c in f.header then
      var j := IndexOf(f.header, c);
      Frame(f.header, seq(|f.rows|, i requires 0 <= i < |f.rows| => f.rows[i][j := vals[i]]))
    else
      var g := Frame(f.header + [c], seq(|f.rows|, i requires 0 <= i < |f.rows| => f.rows[i] + [vals[i]]));
      assert forall d :: d in f.header ==> IndexOf(g.header, d) == IndexOf(f.header, d) by {
        forall d | d in f.header ensures IndexOf(g.header, d) == IndexOf(f.header, d) {
          IndexOfPrefix(f.header, [c], d);
        }
      }
      IndexOfUnique(g.header, c, |f.header|);
      g
  }

  /** The header without the columns labelled `c`. */
  function Without(hs: seq<string>, c: string): (r: seq<string>)
    ensures forall x :: x in r <==> x in hs && x != c
    ensures |r| <= |hs|
  {
    if |hs| == 0 then []
    else (if hs[0] == c then [] else [hs[0]]) + Without(hs[1..], c)
  }

  /** A row without its cells in the columns labelled `c`. */
  function DropCells(hs: seq<string>, r: seq<Cell>, c: string): (r': seq<Cell>)
    requires |r| == |hs|
    ensures |r'| == |Without(hs, c)|
  {
    if |hs| == 0 then []
    else (if hs[0] == c then [] else [r[0]]) + DropCells(hs[1..], r[1..], c)
  }

  /**
   * `df.drop(c, axis=1)`: removes every column labelled `c`, keeping the rows; every
   * other column keeps its place in the order and its cells.
   */
  function DropColumn(f: Frame, c: string): (g: Frame)
    requires Wf(f)
    ensures Wf(g) && |g.rows| == |f.rows| && g.header == Without(f.header, c) && c !in g.header
    ensures forall i, d :: 0 <= i < |g.rows| && d in g.header ==> d in f.header && At(g, i, d) == At(f, i, d)
  {
    var g := Frame(Without(f.header, c), seq(|f.rows|, i requires 0 <= i < |f.rows| => DropCells(f.header, f.rows[i], c)));
    assert forall i, d :: 0 <= i < |g.rows| && d in g.header ==> At(g, i, d) == At(f, i, d) by {
      forall i, d | 0 <= i < |g.rows| && d in g.header ensures At(g, i, d) == At(f, i, d) {
        DropCellsAt(f.header, f.rows[i], c, d);
      }
    }
    g
  }

  /** The first cell labelled `d` survives dropping another label. */
  lemma {:induction false} DropCellsAt(hs: seq<string>, r: seq<Cell>, c: string, d: string)
    requires |r| == |hs| && d in hs && d != c
    ensures d in Without(hs, c)
    ensures DropCells(hs, r, c)[IndexOf(Without(hs, c), d)] == r[IndexOf(hs, d)]
  {
    var w, w' := Without(hs, c), Without(hs[1..], c);
    var x, x' := DropCells(hs, r, c), DropCells(hs[1..], r[1..], c);
    if hs[0] == d {
      assert w == [d] + w' && x == [r[0]] + x';
    } else {
      DropCellsAt(hs[1..], r[1..], c, d);
      if hs[0] == c {
        assert w == w' && x == x';
      } else {
        assert w == [hs[0]] + w' && x == [r[0]] + x';
        assert w[1..] == w';
        assert x[1..] == x';
      }
    }
  }

  /** Dropping a label that does not occur changes nothing. */
  lemma {:induction false} DropAbsent(hs: seq<string>, r: seq<Cell>, c: string)
    requires |r| == |hs| && c !in hs
    ensures Without(hs, c) == hs && DropCells(hs, r, c) == r
  {
    if |hs| > 0 {
      DropAbsent(hs[1..], r[1..], c);
      assert hs == [hs[0]] + hs[1..];
      assert r == [r[0]] + r[1..];
    }
  }

  /** Dropping distributes over a row split in two. */
  lemma {:induction false} DropConcat(h1: seq<string>, r1: seq<Cell>, h2: seq<string>, r2: seq<Cell>, c: string)
    requires |r1| == |h1| && |r2| == |h2|
    ensures DropCells(h1 + h2, r1 + r2, c) == DropCells(h1, r1, c) + DropCells(h2, r2, c)
  {
    if |h1| > 0 {
      DropConcat(h1[1..], r1[1..], h2, r2, c);
      assert (h1 + h2)[1..] == h1[1..] + h2;
      assert (r1 + r2)[1..] == r1[1..] + r2;
      var first: seq<Cell> := if h1[0] == c then [] else [r1[0]];
      Assoc(first, DropCells(h1[1..], r1[1..], c), DropCells(h2, r2, c));
    } else {
      assert h1 + h2 == h2;
      assert r1 + r2 == r2;
    }
  }

  /** Dropping distributes over a header split in two. */
  lemma {:induction false} WithoutConcat(h1: seq<string>, h2: seq<string>, c: string)
    ensures Without(h1 + h2, c) == Without(h1, c) + Without(h2, c)
  {
    if |h1| > 0 {
      WithoutConcat(h1[1..], h2, c);
      assert (h1 + h2)[1..] == h1[1..] + h2;
      Assoc(if h1[0] == c then [] else [h1[0]], Without(h1[1..], c), Without(h2, c));
    } else {
      assert h1 + h2 == h2;
    }
  }

  /** Dropping cells from missing values leaves missing values, one per remaining column. */
  lemma {:induction false} DropNulls(hs: seq<string>, c: string)
    ensures DropCells(hs, Nulls(|hs|), c) == Nulls(|Without(hs, c)|)
  {
    if |hs| > 0 {
      DropNulls(hs[1..], c);
      assert Nulls(|hs|)[1..] == Nulls(|hs| - 1);
    }
  }

  /** The right-hand rows whose key cell equals `key`, in order. */
  function Matches(rs: seq<seq<Cell>>, k: nat, key: Cell): (ms: seq<seq<Cell>>)
    requires forall r <- rs :: k < |r|
    ensures |ms| <= |rs| && forall m <- ms :: m in rs && m[k] == key
    ensures forall r <- rs :: r[k] == key ==> r in ms
  {
    if |rs| == 0 then []
    else (if rs[0][k] == key then [rs[0]] else []) + Matches(rs[1..], k, key)
  }

  /**
   * Matching keeps the right frame's order: the matches of a concatenation are the
   * matches of its first part followed by those of its second, and a single row
   * matches exactly when its key cell is the key.
   */
  lemma {:induction false} MatchesConcat(a: seq<seq<Cell>>, b: seq<seq<Cell>>, k: nat, key: Cell)
    requires forall r <- a :: k < |r|
    requires forall r <- b :: k < |r|
    ensures forall r <- a + b :: k < |r|
    ensures Matches(a + b, k, key) == Matches(a, k, key) + Matches(b, k, key)
    ensures forall r :: k < |r| ==> Matches([r], k, key) == if r[k] == key then [r] else []
  {
    if |a| > 0 {
      assert (a + b)[1..] == a[1..] + b;
      MatchesConcat(a[1..], b, k, key);
      Assoc(if a[0][k] == key then [a[0]] else [], Matches(a[1..], k, key), Matches(b, k, key));
    } else {
      assert a + b == b;
    }
  }

  /** The rows a left merge makes from one left row. */
  function JoinRow(l: seq<Cell>, ms: seq<seq<Cell>>, width: nat): (out: seq<seq<Cell>>)
    ensures |out| == if |ms| == 0 then 1 else |ms|
  {
    if |ms| == 0 then [l + Nulls(width)]
    else seq(|ms|, j requires 0 <= j < |ms| => l + ms[j])
  }

  /** The rows of a left merge: each left row's rows, in left order. */
  function JoinRows(ls: seq<seq<Cell>>, lk: nat, rs: seq<seq<Cell>>, rk: nat, width: nat): (out: seq<seq<Cell>>)
    requires forall l <- ls :: lk < |l|
    requires forall r <- rs :: rk < |r|
    ensures |out| >= |ls|
  {
    if |ls| == 0 then []
    else JoinRow(ls[0], Matches(rs, rk, ls[0][lk]), width) + JoinRows(ls[1..], lk, rs, rk, width)
  }

  /**
   * `pd.merge(l, r, how='left', left_on=lkey, right_on=rkey)`: every left row is kept,
   * in order; it is paired with each right row whose key equals its own, or, when there
   * is none, padded with missing values. Columns are the left's then the right's.
   */
  function LeftJoin(l: Frame, lkey: string, r: Frame, rkey: string): (j: Frame)
    requires Wf(l) && Wf(r) && lkey in l.header && rkey in r.header
    ensures j.header == l.header + r.header
    ensures |j.rows| >= |l.rows|
  {
    Frame(l.header + r.header,
          JoinRows(l.rows, IndexOf(l.header, lkey), r.rows, IndexOf(r.header, rkey), |r.header|))
  }

  /** The rows that JoinRows builds all have the joined width. */
  lemma {:induction false} JoinRowsWidth(ls: seq<seq<Cell>>, lk: nat, rs: seq<seq<Cell>>, rk: nat, lw: nat, width: nat)
    requires forall l <- ls :: lk < |l| && |l| == lw
    requires forall r <- rs :: rk < |r| && |r| == width
    ensures forall o <- JoinRows(ls, lk, rs, rk, width) :: |o| == lw + width
  {
    if |ls| > 0 {
      JoinRowsWidth(ls[1..], lk, rs, rk, lw, width);
    }
  }

  /** A left merge of well-formed frames is well-formed. */
  lemma LeftJoinWf(l: Frame, lkey: string, r: Frame, rkey: string)
    requires Wf(l) && Wf(r) && lkey in l.header && rkey in r.header
    ensures Wf(LeftJoin(l, lkey, r, rkey))
  {
    JoinRowsWidth(l.rows, IndexOf(l.header, lkey), r.rows, IndexOf(r.header, rkey), |l.header|, |r.header|);
  }

  /** No two right rows share a key cell. */
  predicate UniqueKeys(rs: seq<seq<Cell>>, k: nat)
    requires forall r <- rs :: k < |r|
  {
    forall a, b :: 0 <= a < b < |rs| ==> rs[a][k] != rs[b][k]
  }

  /** The first right row whose key cell equals `key`. */
  function Find(rs: seq<seq<Cell>>, k: nat, key: Cell): (o: Option<seq<Cell>>)
    requires forall r <- rs :: k < |r|
    ensures o.Some? ==> o.value in rs && o.value[k] == key
    ensures o.None? ==> forall r <- rs :: r[k] != key
  {
    if |rs| == 0 then None
    else if rs[0][k] == key then Some(rs[0])
    else Find(rs[1..], k, key)
  }

  /** The right-hand cells a left row gets: its match's cells, or all missing. */
  function Found(rs: seq<seq<Cell>>, k: nat, key: Cell, width: nat): seq<Cell>
    requires forall r <- rs :: k < |r|
  {
    match Find(rs, k, key)
    case Some(r) => r
    case None => Nulls(width)
  }

  /** With unique right keys, a key has at most one match: the one Find returns. */
  lemma {:induction false} MatchesUnique(rs: seq<seq<Cell>>, k: nat, key: Cell)
    requires forall r <- rs :: k < |r|
    requires UniqueKeys(rs, k)
    ensures Matches(rs, k, key) == match Find(rs, k, key) case Some(r) => [r] case None => []
  {
    if |rs| > 0 {
      assert UniqueKeys(rs[1..], k) by {
        forall a, b | 0 <= a < b < |rs| - 1 ensures rs[1..][a][k] != rs[1..][b][k] {
          assert rs[a + 1][k] != rs[b + 1][k];
        }
      }
      MatchesUnique(rs[1..], k, key);
      if rs[0][k] == key {
        forall r <- rs[1..] ensures r[k] != key {
          var b :| 0 <= b < |rs| - 1 && rs[1..][b] == r;
          assert rs[0][k] != rs[b + 1][k];
        }
        assert Find(rs[1..], k, key) == None;
      }
    }
  }

  /**
   * With unique right keys a left merge keeps the left rows one for one, in order,
   * each extended by its match's cells or by missing values.
   */
  lemma {:induction false} JoinRowsUnique(ls: seq<seq<Cell>>, lk: nat, rs: seq<seq<Cell>>, rk: nat, width: nat)
    requires forall l <- ls :: lk < |l|
    requires forall r <- rs :: rk < |r|
    requires UniqueKeys(rs, rk)
    ensures var out := JoinRows(ls, lk, rs, rk, width);
      |out| == |ls| && forall i :: 0 <= i < |ls| ==> out[i] == ls[i] + Found(rs, rk, ls[i][lk], width)
  {
    if |ls| > 0 {
      var rest := JoinRows(ls[1..], lk, rs, rk, width);
      JoinRowsUnique(ls[1..], lk, rs, rk, width);
      JoinRowUnique(ls[0], lk, rs, rk, width);
      var out := JoinRows(ls, lk, rs, rk, width);
      assert out == [ls[0] + Found(rs, rk, ls[0][lk], width)] + rest;
      assert |out| == |ls|;
      forall i | 0 <= i < |ls|
        ensures out[i] == ls[i] + Found(rs, rk, ls[i][lk], width)
      {
        if i > 0 {
          assert out[i] == rest[i - 1];
          assert ls[i] == ls[1..][i - 1];
        }
      }
    }
  }

  /** On unique right keys, a left row joins to exactly one output row. */
  lemma JoinRowUnique(l: seq<Cell>, lk: nat, rs: seq<seq<Cell>>, rk: nat, width: nat)
    requires lk < |l|
    requires forall r <- rs :: rk < |r|
    requires UniqueKeys(rs, rk)
    ensures JoinRow(l, Matches(rs, rk, l[lk]), width) == [l + Found(rs, rk, l[lk], width)]
  {
    MatchesUnique(rs, rk, l[lk]);
  }

  /** A left merge on unique right keys: same rows, in the same order, each extended. */
  lemma LeftJoinUnique(l: Frame, lkey: string, r: Frame, rkey: string)
    requires Wf(l) && Wf(r) && lkey in l.header && rkey in r.header
    requires UniqueKeys(r.rows, IndexOf(r.header, rkey))
    ensures var j := LeftJoin(l, lkey, r, rkey);
      var lk, rk := IndexOf(l.header, lkey), IndexOf(r.header, rkey);
      |j.rows| == |l.rows|
      && forall i :: 0 <= i < |l.rows| ==> j.rows[i] == l.rows[i] + Found(r.rows, rk, l.rows[i][lk], |r.header|)
  {
    JoinRowsUnique(l.rows, IndexOf(l.header, lkey), r.rows, IndexOf(r.header, rkey), |r.header|);
  }
}

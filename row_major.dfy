/**
 * Row-major layout of an n x m grid: element (i, j) lives at flat index i*m + j.
 * The cell lists here give the order in which the source's nested
 * `for (i ...) for (j ...)` loops visit a grid.
 */
module RowMajor {

  datatype Cell = Cell(i: nat, j: nat)

  lemma {:induction false} MulMonotone(a: nat, b: nat, m: nat)
    requires a <= b
    ensures a * m <= b * m
  {
    if a < b {
      MulMonotone(a, b - 1, m);
      assert (b - 1) * m + m == b * m;
    }
  }

  /** Row i (of n) ends at or before n*m, so every in-bounds flat index i*m + j is below n*m. */
  lemma RowEnd(i: nat, n: nat, m: nat)
    requires i < n
    ensures i * m + m <= n * m
  {
    MulMonotone(i + 1, n, m);
    assert (i + 1) * m == i * m + m;
  }

  /** Distinct in-bounds coordinates have distinct flat indices. */
  lemma {:induction false} Injective(i: nat, j: nat, i': nat, j': nat, m: nat)
    requires j < m && j' < m
    requires i * m + j == i' * m + j'
    ensures i == i' && j == j'
  {
    if i < i' {
      MulMonotone(i + 1, i', m);
      assert false;
    } else if i' < i {
      MulMonotone(i' + 1, i, m);
      assert false;
    }
  }

  /** Row i of a flat row-major sequence. */
  function Row<T>(s: seq<T>, n: nat, m: nat, i: nat): (r: seq<T>)
    requires |s| == n * m && i < n
    ensures |r| == m
  {
    RowEnd(i, n, m);
    s[i * m .. i * m + m]
  }

  /** The rows of a flat row-major sequence. */
  function Unflatten<T>(s: seq<T>, n: nat, m: nat): (g: seq<seq<T>>)
    requires |s| == n * m
    ensures |g| == n
    ensures forall i :: 0 <= i < n ==> g[i] == Row(s, n, m, i)
  {
    seq(n, i requires 0 <= i < n => Row(s, n, m, i))
  }

  /** Element (i, j) of the rows is the flat element i*m + j. */
  lemma UnflattenAt<T>(s: seq<T>, n: nat, m: nat, i: nat, j: nat)
    requires |s| == n * m && i < n && j < m
    ensures i * m + j < |s| && Unflatten(s, n, m)[i][j] == s[i * m + j]
  {
    RowEnd(i, n, m);
    var o := i * m;
    assert Unflatten(s, n, m)[i] == s[o .. o + m];
    assert s[o .. o + m][j] == s[o + j];
  }

  /** A write outside a slice leaves it alone; a write inside changes one element of it. */
  lemma SliceUpdate<T>(s: seq<T>, o: nat, m: nat, p: nat, v: T)
    requires o + m <= |s| && p < |s|
    ensures p < o || o + m <= p ==> s[p := v][o .. o + m] == s[o .. o + m]
    ensures o <= p < o + m ==> s[p := v][o .. o + m] == s[o .. o + m][p - o := v]
  {
  }

  /** Writing flat index i*m + j changes row x only when x == i, and then only at column j. */
  lemma RowUpdate<T>(s: seq<T>, n: nat, m: nat, i: nat, j: nat, v: T, x: nat)
    requires |s| == n * m && i < n && j < m && x < n
    ensures i * m + j < |s|
    ensures Unflatten(s[i * m + j := v], n, m)[x] ==
      if x == i then Unflatten(s, n, m)[x][j := v] else Unflatten(s, n, m)[x]
  {
    RowEnd(i, n, m);
    RowEnd(x, n, m);
    var p, o := i * m + j, x * m;
    if x < i {
      MulMonotone(x + 1, i, m);
      assert (x + 1) * m == o + m;
      assert o + m <= p;
    } else if i < x {
      MulMonotone(i + 1, x, m);
      assert (i + 1) * m == i * m + m;
      assert p < o;
    }
    SliceUpdate(s, o, m, p, v);
    assert Unflatten(s, n, m)[x] == s[o .. o + m];
    assert Unflatten(s[p := v], n, m)[x] == s[p := v][o .. o + m];
  }

  /** Writing flat index i*m + j changes exactly element (i, j) of the rows. */
  lemma UnflattenUpdate<T>(s: seq<T>, n: nat, m: nat, i: nat, j: nat, v: T)
    requires |s| == n * m && i < n && j < m
    ensures i * m + j < |s|
    ensures Unflatten(s[i * m + j := v], n, m) == Unflatten(s, n, m)[i := Unflatten(s, n, m)[i][j := v]]
  {
    RowEnd(i, n, m);
    var g, g' := Unflatten(s, n, m), Unflatten(s[i * m + j := v], n, m);
    forall x | 0 <= x < n ensures g'[x] == g[i := g[i][j := v]][x] {
      RowUpdate(s, n, m, i, j, v, x);
    }
  }

  /** The cells (i, 0), ..., (i, j-1). */
  function RowCells(i: nat, j: nat): (r: seq<Cell>)
    ensures |r| == j
    ensures forall k :: 0 <= k < j ==> r[k] == Cell(i, k)
  {
    seq(j, (k: nat) => Cell(i, k))
  }

  /** All cells of rows 0..i-1 of an m-column grid, in row-major order. */
  function FullRows(i: nat, m: nat): seq<Cell>
  {
    if i == 0 then [] else FullRows(i - 1, m) + RowCells(i - 1, m)
  }

  /** Cells visited before (i, j) by a row-major double loop over m columns. */
  function CellsBefore(m: nat, i: nat, j: nat): seq<Cell>
  {
    FullRows(i, m) + RowCells(i, j)
  }

  /** Every cell of an n x m grid, in row-major order. */
  function AllCells(n: nat, m: nat): seq<Cell>
  {
    FullRows(n, m)
  }

  lemma {:induction false} FullRowsLength(i: nat, m: nat)
    ensures |FullRows(i, m)| == i * m
  {
    if i > 0 {
      FullRowsLength(i - 1, m);
      assert (i - 1) * m + m == i * m;
    }
  }

  /** FullRows(i, m) holds exactly the cells above row i, each once. */
  lemma {:induction false} FullRowsMembers(i: nat, m: nat)
    ensures forall c :: c in FullRows(i, m) <==> c.i < i && c.j < m
  {
    if i > 0 {
      FullRowsMembers(i - 1, m);
      assert FullRows(i, m) == FullRows(i - 1, m) + RowCells(i - 1, m);
      forall c ensures c in RowCells(i - 1, m) <==> c.i == i - 1 && c.j < m {
        if c.i == i - 1 && c.j < m {
          assert RowCells(i - 1, m)[c.j] == c;
        }
      }
    }
  }

  lemma StepCell(m: nat, i: nat, j: nat)
    ensures CellsBefore(m, i, j + 1) == CellsBefore(m, i, j) + [Cell(i, j)]
  {
    assert RowCells(i, j + 1) == RowCells(i, j) + [Cell(i, j)];
  }

  lemma RowCellsMembers(i: nat, j: nat)
    ensures forall c :: c in RowCells(i, j) <==> c.i == i && c.j < j
  {
    forall c ensures c in RowCells(i, j) <==> c.i == i && c.j < j {
      if c.i == i && c.j < j {
        assert RowCells(i, j)[c.j] == c;
      }
    }
  }

  lemma RowCellsStep(i: nat, j: nat)
    ensures RowCells(i, j + 1) == RowCells(i, j) + [Cell(i, j)]
  {
  }

  lemma StepRow(m: nat, i: nat)
    ensures CellsBefore(m, i, m) == CellsBefore(m, i + 1, 0)
  {
    assert RowCells(i + 1, 0) == [];
  }

  lemma StartCells(m: nat)
    ensures CellsBefore(m, 0, 0) == []
  {
  }

  lemma CellsBeforeMembers(m: nat, i: nat, j: nat)
    ensures forall c :: c in CellsBefore(m, i, j) <==> (c.i < i && c.j < m) || (c.i == i && c.j < j)
  {
    FullRowsMembers(i, m);
    forall c ensures c in RowCells(i, j) <==> c.i == i && c.j < j {
      if c.i == i && c.j < j {
        assert RowCells(i, j)[c.j] == c;
      }
    }
  }

  /** While a row-major double loop over an n x m grid runs, the cells already visited are on the grid. */
  lemma CellsBeforeBounded(n: nat, m: nat, i: nat, j: nat)
    requires j <= m && (i < n || (i == n && j == 0))
    ensures forall c :: c in CellsBefore(m, i, j) ==> c.i < n && c.j < m
  {
    CellsBeforeMembers(m, i, j);
  }

  lemma EndCells(n: nat, m: nat)
    ensures CellsBefore(m, n, 0) == AllCells(n, m)
  {
    assert RowCells(n, 0) == [];
  }

  /** g has n rows of m elements. */
  predicate IsGrid<X>(g: seq<seq<X>>, n: nat, m: nat)
  {
    |g| == n && forall i :: 0 <= i < n ==> |g[i]| == m
  }

  /**
   * The grid a row-major double loop leaves behind when it has written the
   * elements of `next` to every cell before (i, j) of `prev`.
   */
  function Overlay<X>(next: seq<seq<X>>, prev: seq<seq<X>>, n: nat, m: nat, i: nat, j: nat): (g: seq<seq<X>>)
    requires IsGrid(next, n, m) && IsGrid(prev, n, m)
    ensures IsGrid(g, n, m)
  {
    seq(n, x requires 0 <= x < n =>
      seq(m, y requires 0 <= y < m => if x < i || (x == i && y < j) then next[x][y] else prev[x][y]))
  }

  lemma OverlayStart<X>(next: seq<seq<X>>, prev: seq<seq<X>>, n: nat, m: nat)
    requires IsGrid(next, n, m) && IsGrid(prev, n, m)
    ensures Overlay(next, prev, n, m, 0, 0) == prev
  {
    var g := Overlay(next, prev, n, m, 0, 0);
    forall x | 0 <= x < n ensures g[x] == prev[x] {
    }
  }

  lemma OverlayCell<X>(next: seq<seq<X>>, prev: seq<seq<X>>, n: nat, m: nat, i: nat, j: nat)
    requires IsGrid(next, n, m) && IsGrid(prev, n, m)
    requires i < n && j < m
    ensures var g := Overlay(next, prev, n, m, i, j);
      g[i := g[i][j := next[i][j]]] == Overlay(next, prev, n, m, i, j + 1)
  {
    var g := Overlay(next, prev, n, m, i, j);
    var h := Overlay(next, prev, n, m, i, j + 1);
    forall x | 0 <= x < n ensures g[i := g[i][j := next[i][j]]][x] == h[x] {
    }
  }

  lemma OverlayRow<X>(next: seq<seq<X>>, prev: seq<seq<X>>, n: nat, m: nat, i: nat)
    requires IsGrid(next, n, m) && IsGrid(prev, n, m)
    ensures Overlay(next, prev, n, m, i, m) == Overlay(next, prev, n, m, i + 1, 0)
  {
    var g := Overlay(next, prev, n, m, i, m);
    var h := Overlay(next, prev, n, m, i + 1, 0);
    forall x | 0 <= x < n ensures g[x] == h[x] {
    }
  }

  lemma OverlayEnd<X>(next: seq<seq<X>>, prev: seq<seq<X>>, n: nat, m: nat)
    requires IsGrid(next, n, m) && IsGrid(prev, n, m)
    ensures Overlay(next, prev, n, m, n, 0) == next
  {
    var g := Overlay(next, prev, n, m, n, 0);
    forall x | 0 <= x < n ensures g[x] == next[x] {
    }
  }
}

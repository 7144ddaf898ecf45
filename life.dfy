/**
 * The Game of Life transition that both solver back-ends encode: the
 * reference semantics every encoding and every solution is checked against.
 * A board is n x m, cells outside it are dead, and a cell is alive at the next
 * step exactly when it has three live neighbours, or is alive and has two.
 */
module Life {
  import opened RowMajor

  type Grid = seq<seq<bool>>

  /** The eight neighbour offsets, in the order every encoder visits them. */
  const Offsets: seq<(int, int)> :=
    [(-1, -1), (-1, 0), (-1, 1),
     ( 0, -1),          ( 0, 1),
     ( 1, -1), ( 1, 0), ( 1, 1)]

  /** The on-board cells reached from (i, j) by the first k offsets, in offset order. */
  function NeighbourCells(n: nat, m: nat, i: nat, j: nat, k: nat): (cs: seq<Cell>)
    requires k <= |Offsets|
    ensures |cs| <= k
    ensures forall c :: c in cs ==> c.i < n && c.j < m
  {
    if k == 0 then []
    else
      var x, y := i + Offsets[k - 1].0, j + Offsets[k - 1].1;
      NeighbourCells(n, m, i, j, k - 1) + (if 0 <= x < n && 0 <= y < m then [Cell(x, y)] else [])
  }

  function Neighbours(n: nat, m: nat, i: nat, j: nat): seq<Cell>
  {
    NeighbourCells(n, m, i, j, |Offsets|)
  }

  /** c touches (i, j) by a side or a corner. */
  predicate Adjacent(c: Cell, i: nat, j: nat)
  {
    c != Cell(i, j) && i - 1 <= c.i <= i + 1 && j - 1 <= c.j <= j + 1
  }

  /** Every cell listed for offsets below k comes from one of those offsets. */
  lemma {:induction false} NeighbourOrigin(n: nat, m: nat, i: nat, j: nat, k: nat)
    requires k <= |Offsets|
    ensures forall c :: c in NeighbourCells(n, m, i, j, k) ==>
      exists p :: 0 <= p < k && c.i == i + Offsets[p].0 && c.j == j + Offsets[p].1
  {
    if k > 0 {
      NeighbourOrigin(n, m, i, j, k - 1);
    }
  }

  /** Every on-board cell reached by an offset below k is listed. */
  lemma {:induction false} NeighbourComplete(n: nat, m: nat, i: nat, j: nat, k: nat, p: nat)
    requires p < k <= |Offsets|
    requires 0 <= i + Offsets[p].0 < n && 0 <= j + Offsets[p].1 < m
    ensures Cell(i + Offsets[p].0, j + Offsets[p].1) in NeighbourCells(n, m, i, j, k)
  {
    if p < k - 1 {
      NeighbourComplete(n, m, i, j, k - 1, p);
    }
  }

  /** The position of an offset in the visiting order. */
  function OffsetIndex(dx: int, dy: int): (p: nat)
    requires -1 <= dx <= 1 && -1 <= dy <= 1 && (dx, dy) != (0, 0)
    ensures p < |Offsets| && Offsets[p] == (dx, dy)
  {
    if dx == -1 then dy + 1
    else if dx == 0 then (if dy == -1 then 3 else 4)
    else dy + 6
  }

  /**
   * The offsets are the eight non-zero steps of at most one row and one column,
   * each at its own position, so distinct positions hold distinct offsets.
   */
  lemma OffsetIndexOf(p: nat)
    requires p < |Offsets|
    ensures -1 <= Offsets[p].0 <= 1 && -1 <= Offsets[p].1 <= 1 && Offsets[p] != (0, 0)
    ensures OffsetIndex(Offsets[p].0, Offsets[p].1) == p
  {
  }

  /** The neighbour list holds exactly the on-board cells adjacent to (i, j). */
  lemma NeighboursAreAdjacent(n: nat, m: nat, i: nat, j: nat)
    ensures forall c :: c in Neighbours(n, m, i, j) <==> c.i < n && c.j < m && Adjacent(c, i, j)
  {
    var cs := Neighbours(n, m, i, j);
    forall c | c in cs ensures Adjacent(c, i, j) {
      NeighbourOrigin(n, m, i, j, |Offsets|);
      var p :| 0 <= p < |Offsets| && c.i == i + Offsets[p].0 && c.j == j + Offsets[p].1;
      OffsetIndexOf(p);
    }
    forall c: Cell | c.i < n && c.j < m && Adjacent(c, i, j)
      ensures c in cs
    {
      var p := OffsetIndex(c.i - i, c.j - j);
      NeighbourComplete(n, m, i, j, |Offsets|, p);
    }
  }

  predicate Distinct<X(==)>(s: seq<X>)
  {
    forall p, q :: 0 <= p < q < |s| ==> s[p] != s[q]
  }

  /** No cell is listed twice, so counting the list counts neighbours. */
  lemma {:induction false} NeighboursDistinct(n: nat, m: nat, i: nat, j: nat, k: nat)
    requires k <= |Offsets|
    ensures Distinct(NeighbourCells(n, m, i, j, k))
  {
    if k > 0 {
      NeighboursDistinct(n, m, i, j, k - 1);
      var prev := NeighbourCells(n, m, i, j, k - 1);
      var x, y := i + Offsets[k - 1].0, j + Offsets[k - 1].1;
      if 0 <= x < n && 0 <= y < m {
        NewNeighbourFresh(n, m, i, j, k);
        DistinctSnoc(prev, Cell(x, y));
      } else {
        assert NeighbourCells(n, m, i, j, k) == prev;
      }
    }
  }

  /** The cell reached by offset k - 1 is not reached by an earlier offset. */
  lemma NewNeighbourFresh(n: nat, m: nat, i: nat, j: nat, k: nat)
    requires 0 < k <= |Offsets|
    requires 0 <= i + Offsets[k - 1].0 && 0 <= j + Offsets[k - 1].1
    ensures Cell(i + Offsets[k - 1].0, j + Offsets[k - 1].1) !in NeighbourCells(n, m, i, j, k - 1)
  {
    var c := Cell(i + Offsets[k - 1].0, j + Offsets[k - 1].1);
    NeighbourOrigin(n, m, i, j, k - 1);
    if c in NeighbourCells(n, m, i, j, k - 1) {
      var r :| 0 <= r < k - 1 && c.i == i + Offsets[r].0 && c.j == j + Offsets[r].1;
      OffsetIndexOf(r);
      OffsetIndexOf(k - 1);
    }
  }

  lemma DistinctSnoc<X>(s: seq<X>, x: X)
    requires Distinct(s) && x !in s
    ensures Distinct(s + [x])
  {
    var t := s + [x];
    forall p, q | 0 <= p < q < |t| ensures t[p] != t[q] {
      if q == |s| {
        assert t[p] == s[p];
      }
    }
  }

  /** Number of live cells of g among cs. */
  function CountLive(g: Grid, cs: seq<Cell>): (r: nat)
    requires forall c :: c in cs ==> c.i < |g| && c.j < |g[c.i]|
    ensures r <= |cs|
  {
    if cs == [] then 0
    else
      var c := cs[|cs| - 1];
      CountLive(g, cs[..|cs| - 1]) + (if g[c.i][c.j] then 1 else 0)
  }

  function LiveNeighbours(g: Grid, n: nat, m: nat, i: nat, j: nat): nat
    requires IsGrid(g, n, m)
  {
    CountLive(g, Neighbours(n, m, i, j))
  }

  /** The Game of Life rule for one cell. */
  predicate NextAlive(alive: bool, live: nat)
  {
    live == 3 || (alive && live == 2)
  }

  function Step(g: Grid, n: nat, m: nat): (h: Grid)
    requires IsGrid(g, n, m)
    ensures IsGrid(h, n, m)
  {
    seq(n, i requires 0 <= i < n => seq(m, j requires 0 <= j < m => NextAlive(g[i][j], LiveNeighbours(g, n, m, i, j))))
  }

  /** g is a previous state of h. */
  predicate Predecessor(g: Grid, h: Grid, n: nat, m: nat)
  {
    IsGrid(g, n, m) && Step(g, n, m) == h
  }

  /** Number of live cells on the board. */
  function Population(g: Grid, n: nat, m: nat): nat
    requires IsGrid(g, n, m)
  {
    FullRowsMembers(n, m);
    CountLive(g, AllCells(n, m))
  }

  function Dead(n: nat, m: nat): (g: Grid)
    ensures IsGrid(g, n, m)
  {
    seq(n, _ => seq(m, _ => false))
  }

  lemma PopulationBound(g: Grid, n: nat, m: nat)
    requires IsGrid(g, n, m)
    ensures Population(g, n, m) <= n * m
  {
    FullRowsLength(n, m);
  }

  lemma LiveNeighboursBound(g: Grid, n: nat, m: nat, i: nat, j: nat)
    requires IsGrid(g, n, m)
    ensures LiveNeighbours(g, n, m, i, j) <= 8
  {
  }

  lemma {:induction false} CountLiveDead(n: nat, m: nat, cs: seq<Cell>)
    requires forall c :: c in cs ==> c.i < n && c.j < m
    ensures CountLive(Dead(n, m), cs) == 0
  {
    if cs != [] {
      CountLiveDead(n, m, cs[..|cs| - 1]);
    }
  }

  lemma {:induction false} CountLiveNone(g: Grid, cs: seq<Cell>)
    requires forall c :: c in cs ==> c.i < |g| && c.j < |g[c.i]| && !g[c.i][c.j]
    ensures CountLive(g, cs) == 0
  {
    if cs != [] {
      assert forall c :: c in cs[..|cs| - 1] ==> c in cs;
      CountLiveNone(g, cs[..|cs| - 1]);
    }
  }

  /** The empty board stays empty, so it is its own previous state. */
  lemma DeadIsFixed(n: nat, m: nat)
    ensures Predecessor(Dead(n, m), Dead(n, m), n, m)
  {
    var d := Dead(n, m);
    forall i | 0 <= i < n ensures Step(d, n, m)[i] == d[i] {
      forall j | 0 <= j < m ensures Step(d, n, m)[i][j] == d[i][j] {
        CountLiveDead(n, m, Neighbours(n, m, i, j));
      }
    }
  }

  lemma DeadPopulation(n: nat, m: nat)
    ensures Population(Dead(n, m), n, m) == 0
  {
    FullRowsMembers(n, m);
    CountLiveDead(n, m, AllCells(n, m));
  }

  /** On a 1 x 1 board the cell has no neighbours, so a live cell has no previous state. */
  lemma LoneCellHasNoPredecessor(g: Grid)
    requires IsGrid(g, 1, 1)
    ensures !Predecessor(g, [[true]], 1, 1)
  {
    var cs := Neighbours(1, 1, 0, 0);
    NeighboursAreAdjacent(1, 1, 0, 0);
    CountLiveNone(g, cs);
    assert Step(g, 1, 1)[0][0] == false;
  }
}

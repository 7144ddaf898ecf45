/**
 * The later Kissat back-end of src/tmp/solveee.c: neighbour literals kept at
 * their offset positions (0 where the neighbour is off the board), clause
 * generators that skip the zero entries, and add_clauses choosing the live or
 * the dead generators cell by cell. Reading the model back and solve are as in
 * src/solve.c.
 */
module Solveee {
  import opened RowMajor
  import opened Life
  import opened CInt
  import opened CBoard
  import opened Cnf
  import SolveC

  // ----- Neighbour literals -----

  /** Where the literal is positive. */
  function LiveCells(g: seq<seq<int>>): (h: Grid)
    ensures |h| == |g| && forall x :: 0 <= x < |g| ==> |h[x]| == |g[x]|
    ensures forall x, y :: 0 <= x < |g| && 0 <= y < |g[x]| ==> (h[x][y] <==> g[x][y] > 0)
  {
    seq(|g|, x requires 0 <= x < |g| => seq(|g[x]|, y requires 0 <= y < |g[x]| => g[x][y] > 0))
  }

  /** Entry k: the absolute literal of the cell offset k away from (i, j) when it is on the board, else 0. */
  function Positional(g: seq<seq<int>>, n: nat, m: nat, i: nat, j: nat): (neigh: seq<int>)
    requires IsGrid(g, n, m)
    ensures |neigh| == |Offsets|
  {
    seq(|Offsets|, k requires 0 <= k < |Offsets| =>
      var x, y := i + Offsets[k].0, j + Offsets[k].1;
      if 0 <= x < n && 0 <= y < m then Abs(g[x][y]) else 0)
  }

  /** The live neighbours of (i, j) among the first k offsets. */
  function LiveCount(g: seq<seq<int>>, n: nat, m: nat, i: nat, j: nat, k: nat): nat
    requires IsGrid(g, n, m) && k <= |Offsets|
  {
    CountLive(LiveCells(g), NeighbourCells(n, m, i, j, k))
  }

  /** The state of neigh_init's loop after k offsets: the entries before k are set, the others still 0. */
  ghost predicate Scanned(neigh: array<int>, pos: seq<int>, k: nat, alive: nat, live: nat)
    reads neigh
  {
    neigh.Length == |pos| && k <= |pos| &&
    (forall p :: 0 <= p < k ==> neigh[p] == pos[p]) &&
    (forall p :: k <= p < |pos| ==> neigh[p] == 0) &&
    alive == live
  }

  /**
   * neigh_init: neigh[k] is the absolute literal of the neighbour at offset k,
   * or 0 when that neighbour is off the board; `alive` counts the neighbours
   * whose literal is positive. The coordinates are `size_t` sums, so the row
   * above row 0 wraps to 2^64 - 1 and fails the unsigned bounds test.
   */
  method NeighInit(neigh: array<int>, b: Board, i: nat, j: nat) returns (alive: nat)
    requires b.Valid() && neigh.Length == |Offsets|
    requires i + 1 < SizeTModulus && j + 1 < SizeTModulus
    modifies neigh
    ensures neigh[..] == Positional(b.Cells(), b.n, b.m, i, j)
    ensures alive == CountLive(LiveCells(b.Cells()), Neighbours(b.n, b.m, i, j))
  {
    ghost var g := b.Cells();
    ghost var pos := Positional(g, b.n, b.m, i, j);
    assert Holds(b, g);
    Clear(neigh, pos);
    alive := Scan(neigh, b, g, pos, i, j);
    ScannedAll(neigh, pos, alive, LiveCount(g, b.n, b.m, i, j, |Offsets|));
    assert b.Cells() == g;
  }

  /** The loop of neigh_init, from a cleared array to every offset scanned. */
  method Scan(neigh: array<int>, b: Board, ghost g: seq<seq<int>>, ghost pos: seq<int>, i: nat, j: nat)
    returns (alive: nat)
    requires Holds(b, g) && pos == Positional(g, b.n, b.m, i, j)
    requires i + 1 < SizeTModulus && j + 1 < SizeTModulus
    requires Scanned(neigh, pos, 0, 0, 0)
    modifies neigh
    ensures Scanned(neigh, pos, |Offsets|, alive, LiveCount(g, b.n, b.m, i, j, |Offsets|))
  {
    alive := 0;
    var k := 0;
    while k < |Offsets|
      invariant k <= |Offsets| && Scanned(neigh, pos, k, alive, LiveCount(g, b.n, b.m, i, j, k))
    {
      alive := ScanNext(neigh, b, g, pos, i, j, k, alive);
      k := k + 1;
    }
  }

  /** One iteration of neigh_init's loop, in terms of the entries and counts it is meant to reach. */
  method ScanNext(neigh: array<int>, b: Board, ghost g: seq<seq<int>>, ghost pos: seq<int>, i: nat, j: nat, k: nat, alive: nat)
    returns (alive': nat)
    requires Holds(b, g) && k < |Offsets| && pos == Positional(g, b.n, b.m, i, j)
    requires i + 1 < SizeTModulus && j + 1 < SizeTModulus
    requires Scanned(neigh, pos, k, alive, LiveCount(g, b.n, b.m, i, j, k))
    modifies neigh
    ensures Scanned(neigh, pos, k + 1, alive', LiveCount(g, b.n, b.m, i, j, k + 1))
  {
    ghost var x, y := i + Offsets[k].0, j + Offsets[k].1;
    OffsetStep(g, b.n, b.m, i, j, k, x, y);
    ghost var live, live' := LiveCount(g, b.n, b.m, i, j, k), LiveCount(g, b.n, b.m, i, j, k + 1);
    alive' := ScanOffset(neigh, b, g, pos, i, j, k, x, y, alive, live, live');
  }

  /** g is the used part of b's table, entry by entry. */
  ghost predicate Holds(b: Board, g: seq<seq<int>>)
    reads b, b.table
  {
    b.Valid() && IsGrid(g, b.n, b.m) && forall x, y :: 0 <= x < b.n && 0 <= y < b.m ==> g[x][y] == b.table[x, y]
  }

  lemma HoldsCells(b: Board, g: seq<seq<int>>)
    requires Holds(b, g)
    ensures b.Cells() == g
  {
    var h := b.Cells();
    forall x | 0 <= x < |g| ensures h[x] == g[x] {
      assert |h[x]| == |g[x]|;
    }
  }

  /** memset(neigh, 0, ...): the scan starts with every entry 0. */
  method Clear(neigh: array<int>, ghost pos: seq<int>)
    requires neigh.Length == |pos|
    modifies neigh
    ensures Scanned(neigh, pos, 0, 0, 0)
  {
    forall k | 0 <= k < neigh.Length {
      neigh[k] := 0;
    }
  }

  lemma ScannedAll(neigh: array<int>, pos: seq<int>, alive: nat, live: nat)
    requires Scanned(neigh, pos, |pos|, alive, live)
    ensures neigh[..] == pos && alive == live
  {
  }

  /** What offset k contributes: its entry of Positional, and one more live neighbour when it reaches a positive literal. */
  lemma OffsetStep(g: seq<seq<int>>, n: nat, m: nat, i: nat, j: nat, k: nat, x: int, y: int)
    requires IsGrid(g, n, m) && k < |Offsets|
    requires x == i + Offsets[k].0 && y == j + Offsets[k].1
    ensures -1 <= x <= i + 1 && -1 <= y <= j + 1
    ensures Positional(g, n, m, i, j)[k] == (if 0 <= x < n && 0 <= y < m then Abs(g[x][y]) else 0)
    ensures LiveCount(g, n, m, i, j, k + 1) ==
      LiveCount(g, n, m, i, j, k) + (if 0 <= x < n && 0 <= y < m && g[x][y] > 0 then 1 else 0)
  {
    OffsetIndexOf(k);
    PositionalAt(g, n, m, i, j, k, x, y);
    LiveCountStep(g, n, m, i, j, k, x, y);
  }

  /** Entry k of Positional is the absolute literal at (x, y), the cell offset k away, or 0 off the board. */
  lemma PositionalAt(g: seq<seq<int>>, n: nat, m: nat, i: nat, j: nat, k: nat, x: int, y: int)
    requires IsGrid(g, n, m) && k < |Offsets|
    requires x == i + Offsets[k].0 && y == j + Offsets[k].1
    ensures Positional(g, n, m, i, j)[k] == (if 0 <= x < n && 0 <= y < m then Abs(g[x][y]) else 0)
  {
  }

  /** The neighbour at offset k, (x, y), is counted exactly when it is on the board and its literal is positive. */
  lemma LiveCountStep(g: seq<seq<int>>, n: nat, m: nat, i: nat, j: nat, k: nat, x: int, y: int)
    requires IsGrid(g, n, m) && k < |Offsets|
    requires x == i + Offsets[k].0 && y == j + Offsets[k].1
    ensures LiveCount(g, n, m, i, j, k + 1) ==
      LiveCount(g, n, m, i, j, k) + (if 0 <= x < n && 0 <= y < m && g[x][y] > 0 then 1 else 0)
  {
    var before := NeighbourCells(n, m, i, j, k);
    var h := LiveCells(g);
    if 0 <= x < n && 0 <= y < m {
      assert NeighbourCells(n, m, i, j, k + 1) == before + [Cell(x, y)];
      CountLiveSnoc(h, before, Cell(x, y));
      assert h[x][y] <==> g[x][y] > 0;
    } else {
      assert NeighbourCells(n, m, i, j, k + 1) == before + [] == before;
    }
  }

  /**
   * One iteration of neigh_init's loop: entry k becomes pos[k] and the count
   * moves from live to live', given what offset k contributes.
   */
  method ScanOffset(neigh: array<int>, b: Board, ghost g: seq<seq<int>>, ghost pos: seq<int>,
                    i: nat, j: nat, k: nat, ghost x: int, ghost y: int, alive: nat, ghost live: nat, ghost live': nat)
    returns (alive': nat)
    requires Holds(b, g) && k < |Offsets| == |pos|
    requires i + 1 < SizeTModulus && j + 1 < SizeTModulus
    requires x == i + Offsets[k].0 && y == j + Offsets[k].1 && -1 <= x && -1 <= y
    requires pos[k] == (if 0 <= x < b.n && 0 <= y < b.m then Abs(g[x][y]) else 0)
    requires live' == live + (if 0 <= x < b.n && 0 <= y < b.m && g[x][y] > 0 then 1 else 0)
    requires Scanned(neigh, pos, k, alive, live)
    modifies neigh
    ensures Scanned(neigh, pos, k + 1, alive', live')
  {
    var dx, dy := Offsets[k].0, Offsets[k].1;
    alive' := alive;
    var x := SizeT(i + dx);
    var y := SizeT(j + dy);
    SizeTBelow(i + dx, b.n);
    SizeTBelow(j + dy, b.m);
    if x < b.n && y < b.m {
      assert b.table[x, y] == g[x][y];
      neigh[k] := b.table[x, y];
      if neigh[k] > 0 {
        alive' := alive' + 1;
      }
      neigh[k] := Abs(neigh[k]);
    }
  }

  lemma CountLiveSnoc(g: Grid, cs: seq<Cell>, c: Cell)
    requires forall d :: d in cs + [c] ==> d.i < |g| && d.j < |g[d.i]|
    ensures forall d :: d in cs ==> d in cs + [c]
    ensures CountLive(g, cs + [c]) == CountLive(g, cs) + (if g[c.i][c.j] then 1 else 0)
  {
    assert (cs + [c])[..|cs|] == cs;
  }

  /** On a board whose literals are all nonzero, entry k is nonzero exactly when offset k stays on the board. */
  lemma PositionalNonzero(g: seq<seq<int>>, n: nat, m: nat, i: nat, j: nat, k: nat)
    requires IsGrid(g, n, m) && k < |Offsets|
    requires forall x, y :: 0 <= x < n && 0 <= y < m ==> g[x][y] != 0
    ensures Positional(g, n, m, i, j)[k] != 0 <==> 0 <= i + Offsets[k].0 < n && 0 <= j + Offsets[k].1 < m
  {
  }

  // ----- The generators -----

  /** The generators of this file skip the zero entries. */
  function NonZero(neigh: seq<int>): (ok: seq<bool>)
    ensures |ok| == |neigh| && forall k :: 0 <= k < |neigh| ==> (ok[k] <==> neigh[k] != 0)
  {
    seq(|neigh|, k requires 0 <= k < |neigh| => neigh[k] != 0)
  }

  /** Entries are absolute values. */
  predicate NonNegative(neigh: seq<int>)
  {
    forall k :: 0 <= k < |neigh| ==> neigh[k] >= 0
  }

  /** dead_no_neigh: every nonzero entry negated. */
  const NoneAlive := Shape([], -1, AllOthers(-1))

  /** dead_one_neigh: the picked entry negated, every other nonzero entry positive. */
  const OneAlive := Shape([], -1, AllOthers(1))

  /** dead_two_neigh: the two picked entries negated, the nonzero entries after them positive. */
  const TwoAlive := Shape([], -1, LaterOthers(1))

  /** life: |curr|, the two picked entries, every other nonzero entry negated. */
  function Survives(curr: int): Shape
  {
    Shape([Abs(curr)], 1, AllOthers(-1))
  }

  function DeadNoNeighStream(neigh: seq<int>): seq<int>
  {
    Emit(neigh, NonZero(neigh), NoneAlive, [], 0, 0)
  }

  function DeadOneNeighStream(neigh: seq<int>): seq<int>
  {
    Emit(neigh, NonZero(neigh), OneAlive, [], 0, 1)
  }

  function DeadTwoNeighStream(neigh: seq<int>): seq<int>
  {
    Emit(neigh, NonZero(neigh), TwoAlive, [], 0, 2)
  }

  function DeadStream(neigh: seq<int>): seq<int>
  {
    DeadNoNeighStream(neigh) + DeadOneNeighStream(neigh)
  }

  function LifeStream(neigh: seq<int>, curr: int): seq<int>
  {
    Emit(neigh, NonZero(neigh), Survives(curr), [], 0, 2)
  }

  /** dead_two_neigh: loops i < j over the nonzero entries, the k loop starting after j. */
  method DeadTwoNeigh(s: Solver, neigh: seq<int>, curr: int)
    requires |neigh| == |Offsets|
    modifies s
    ensures s.lits == old(s.lits) + DeadTwoNeighStream(neigh)
  {
    EmitTuples(s, neigh, NonZero(neigh), TwoAlive, [], 0, 2);
  }

  /** dead_one_neigh: one loop over the nonzero entries. */
  method DeadOneNeigh(s: Solver, neigh: seq<int>, curr: int)
    requires |neigh| == |Offsets|
    modifies s
    ensures s.lits == old(s.lits) + DeadOneNeighStream(neigh)
  {
    EmitTuples(s, neigh, NonZero(neigh), OneAlive, [], 0, 1);
  }

  /** dead_no_neigh: a single clause. */
  method DeadNoNeigh(s: Solver, neigh: seq<int>, curr: int)
    requires |neigh| == |Offsets|
    modifies s
    ensures s.lits == old(s.lits) + DeadNoNeighStream(neigh)
  {
    EmitTuples(s, neigh, NonZero(neigh), NoneAlive, [], 0, 0);
  }

  /** dead: dead_no_neigh, then dead_one_neigh; dead_two_neigh is not called. */
  method Dead(s: Solver, neigh: seq<int>, curr: int)
    requires |neigh| == |Offsets|
    modifies s
    ensures s.lits == old(s.lits) + DeadStream(neigh)
  {
    DeadNoNeigh(s, neigh, curr);
    DeadOneNeigh(s, neigh, curr);
  }

  /** life: loops i < j over the nonzero entries. */
  method LifeClauses(s: Solver, neigh: seq<int>, curr: int)
    requires |neigh| == |Offsets|
    modifies s
    ensures s.lits == old(s.lits) + LifeStream(neigh, curr)
  {
    EmitTuples(s, neigh, NonZero(neigh), Survives(curr), [], 0, 2);
  }

  // ----- What the generators emit -----

  /** The number of nonzero entries, which the generators accept. */
  function Accepted(neigh: seq<int>): (c: nat)
    ensures c <= |neigh|
  {
    OkCount(NonZero(neigh), 0, |neigh|)
  }

  /** The accepted entries are literals; with absolute values, positive ones. */
  lemma NonZeroPositive(neigh: seq<int>)
    ensures Literals(neigh, NonZero(neigh))
    ensures NonNegative(neigh) ==> PositiveLiterals(neigh, NonZero(neigh))
  {
  }

  /** A clause holding the negation of every nonzero entry, and nothing else. */
  predicate AllDeadClause(c: seq<int>, neigh: seq<int>)
  {
    |c| == Accepted(neigh) &&
    (forall k :: 0 <= k < |c| ==> exists l :: 0 <= l < |neigh| && neigh[l] != 0 && c[k] == -neigh[l]) &&
    (forall l :: 0 <= l < |neigh| && neigh[l] != 0 ==> -neigh[l] in c)
  }

  lemma NoneAliveAt(neigh: seq<int>)
    ensures AllDeadClause(Others(neigh, NonZero(neigh), -1, [], 0, |neigh|), neigh)
  {
    AllOthersLength(neigh, NonZero(neigh), -1, []);
    NoneAliveFrom(neigh);
    NoneAliveHas(neigh);
  }

  /** With nothing picked, dead_no_neigh's clause is its tail. */
  lemma NoneAliveIs(neigh: seq<int>)
    ensures Clause(neigh, NonZero(neigh), NoneAlive, []) == Others(neigh, NonZero(neigh), -1, [], 0, |neigh|)
  {
    assert Picked(neigh, -1, []) == [];
  }

  lemma NoneAliveFrom(neigh: seq<int>)
    ensures var c := Others(neigh, NonZero(neigh), -1, [], 0, |neigh|);
      forall k :: 0 <= k < |c| ==> exists l :: 0 <= l < |neigh| && neigh[l] != 0 && c[k] == -neigh[l]
  {
    var ok := NonZero(neigh);
    var c := Others(neigh, ok, -1, [], 0, |neigh|);
    forall k | 0 <= k < |c| ensures exists l :: 0 <= l < |neigh| && neigh[l] != 0 && c[k] == -neigh[l] {
      assert c[k] in c;
      OthersMembers(neigh, ok, -1, [], 0, |neigh|, c[k]);
      var l :| 0 <= l < |neigh| && ok[l] && l !in [] && c[k] == -1 * neigh[l];
      assert c[k] == -neigh[l];
    }
  }

  lemma NoneAliveHas(neigh: seq<int>)
    ensures forall l :: 0 <= l < |neigh| && neigh[l] != 0 ==> -neigh[l] in Others(neigh, NonZero(neigh), -1, [], 0, |neigh|)
  {
    var ok := NonZero(neigh);
    forall l | 0 <= l < |neigh| && neigh[l] != 0 ensures -neigh[l] in Others(neigh, ok, -1, [], 0, |neigh|) {
      OthersMembers(neigh, ok, -1, [], 0, |neigh|, -neigh[l]);
      assert l !in [] && -neigh[l] == -1 * neigh[l];
    }
  }

  /** dead_no_neigh emits one clause: the negation of every nonzero entry, and nothing else. */
  lemma DeadNoNeighClause(neigh: seq<int>)
    ensures |Parse(DeadNoNeighStream(neigh))| == 1
    ensures AllDeadClause(Parse(DeadNoNeighStream(neigh))[0], neigh)
  {
    var ok := NonZero(neigh);
    NonZeroPositive(neigh);
    GeneratorParses(neigh, ok, NoneAlive, 0);
    assert Tuples(ok, [], 0, 0) == [[]];
    NoneAliveIs(neigh);
    NoneAliveAt(neigh);
  }

  /** The clause dead_one_neigh emits for entry i: -neigh[i], then every other nonzero entry. */
  predicate OneAliveClause(c: seq<int>, neigh: seq<int>, i: nat)
    requires i < |neigh|
  {
    1 <= |c| == Accepted(neigh) && c[0] == -neigh[i] &&
    (forall k :: 1 <= k < |c| ==> c[k] > 0) &&
    (forall l :: 0 <= l < |neigh| && l != i && neigh[l] != 0 ==> neigh[l] in c[1..])
  }

  lemma OneAliveAt(neigh: seq<int>, i: nat)
    requires NonNegative(neigh) && i < |neigh| && neigh[i] != 0
    ensures InRange([i], |neigh|)
    ensures OneAliveClause(Clause(neigh, NonZero(neigh), OneAlive, [i]), neigh, i)
  {
    var ok := NonZero(neigh);
    NonZeroPositive(neigh);
    assert Chosen(ok, [i], 0);
    AllOthersClause(neigh, ok, OneAlive, [i]);
    ClausePolarity(neigh, ok, OneAlive, [i]);
  }

  lemma OneAliveSound(neigh: seq<int>)
    requires NonNegative(neigh)
    ensures forall c :: c in Clauses(neigh, NonZero(neigh), OneAlive, Tuples(NonZero(neigh), [], 0, 1)) ==>
      exists i :: 0 <= i < |neigh| && neigh[i] != 0 && OneAliveClause(c, neigh, i)
  {
    var ok := NonZero(neigh);
    forall c | c in Clauses(neigh, ok, OneAlive, Tuples(ok, [], 0, 1))
      ensures exists i :: 0 <= i < |neigh| && neigh[i] != 0 && OneAliveClause(c, neigh, i)
    {
      var t := ClauseSource(neigh, ok, OneAlive, 1, c);
      assert t == [t[0]];
      OneAliveAt(neigh, t[0]);
    }
  }

  lemma OneAliveComplete(neigh: seq<int>)
    requires NonNegative(neigh)
    ensures forall i :: 0 <= i < |neigh| && neigh[i] != 0 ==>
      exists c :: c in Clauses(neigh, NonZero(neigh), OneAlive, Tuples(NonZero(neigh), [], 0, 1)) && OneAliveClause(c, neigh, i)
  {
    var ok := NonZero(neigh);
    forall i | 0 <= i < |neigh| && neigh[i] != 0
      ensures exists c :: c in Clauses(neigh, ok, OneAlive, Tuples(ok, [], 0, 1)) && OneAliveClause(c, neigh, i)
    {
      assert Chosen(ok, [i], 0);
      ClauseReached(neigh, ok, OneAlive, [i]);
      OneAliveAt(neigh, i);
    }
  }

  /**
   * dead_one_neigh emits one clause per nonzero entry i, and nothing else:
   * -neigh[i] followed by every other nonzero entry.
   */
  lemma DeadOneNeighClauses(neigh: seq<int>)
    requires NonNegative(neigh)
    ensures |Parse(DeadOneNeighStream(neigh))| == Accepted(neigh)
    ensures forall c :: c in Parse(DeadOneNeighStream(neigh)) ==>
      exists i :: 0 <= i < |neigh| && neigh[i] != 0 && OneAliveClause(c, neigh, i)
    ensures forall i :: 0 <= i < |neigh| && neigh[i] != 0 ==>
      exists c :: c in Parse(DeadOneNeighStream(neigh)) && OneAliveClause(c, neigh, i)
  {
    var ok := NonZero(neigh);
    NonZeroPositive(neigh);
    GeneratorParses(neigh, ok, OneAlive, 1);
    TuplesCount(ok, [], 0, 1);
    ChooseOne(Accepted(neigh));
    OneAliveSound(neigh);
    OneAliveComplete(neigh);
  }

  /** The clause life emits for entries i < j: |curr|, neigh[i], neigh[j], then every other nonzero entry negated. */
  predicate SurvivalClause(c: seq<int>, neigh: seq<int>, curr: int, i: nat, j: nat)
    requires i < j < |neigh|
  {
    3 <= |c| == 1 + Accepted(neigh) && c[0] == Abs(curr) && c[1] == neigh[i] && c[2] == neigh[j] &&
    (forall k :: 3 <= k < |c| ==> c[k] < 0) &&
    (forall l :: 0 <= l < |neigh| && l != i && l != j && neigh[l] != 0 ==> -neigh[l] in c[3..])
  }

  lemma SurvivalAt(neigh: seq<int>, curr: int, i: nat, j: nat)
    requires NonNegative(neigh) && i < j < |neigh| && neigh[i] != 0 && neigh[j] != 0 && curr != 0
    ensures InRange([i, j], |neigh|)
    ensures SurvivalClause(Clause(neigh, NonZero(neigh), Survives(curr), [i, j]), neigh, curr, i, j)
  {
    var ok := NonZero(neigh);
    NonZeroPositive(neigh);
    assert Chosen(ok, [i, j], 0);
    AllOthersClause(neigh, ok, Survives(curr), [i, j]);
    ClausePolarity(neigh, ok, Survives(curr), [i, j]);
    var c := Clause(neigh, ok, Survives(curr), [i, j]);
    assert c[..1] == [Abs(curr)];
  }

  lemma SurvivalSound(neigh: seq<int>, curr: int)
    requires NonNegative(neigh) && curr != 0
    ensures forall c :: c in Clauses(neigh, NonZero(neigh), Survives(curr), Tuples(NonZero(neigh), [], 0, 2)) ==>
      exists i, j :: 0 <= i < j < |neigh| && neigh[i] != 0 && neigh[j] != 0 && SurvivalClause(c, neigh, curr, i, j)
  {
    var ok := NonZero(neigh);
    forall c | c in Clauses(neigh, ok, Survives(curr), Tuples(ok, [], 0, 2))
      ensures exists i, j :: 0 <= i < j < |neigh| && neigh[i] != 0 && neigh[j] != 0 && SurvivalClause(c, neigh, curr, i, j)
    {
      var t := ClauseSource(neigh, ok, Survives(curr), 2, c);
      assert t == [t[0], t[1]];
      SurvivalAt(neigh, curr, t[0], t[1]);
    }
  }

  lemma SurvivalComplete(neigh: seq<int>, curr: int)
    requires NonNegative(neigh) && curr != 0
    ensures forall i, j :: 0 <= i < j < |neigh| && neigh[i] != 0 && neigh[j] != 0 ==>
      exists c :: c in Clauses(neigh, NonZero(neigh), Survives(curr), Tuples(NonZero(neigh), [], 0, 2)) &&
        SurvivalClause(c, neigh, curr, i, j)
  {
    var ok := NonZero(neigh);
    forall i, j | 0 <= i < j < |neigh| && neigh[i] != 0 && neigh[j] != 0
      ensures exists c :: c in Clauses(neigh, ok, Survives(curr), Tuples(ok, [], 0, 2)) && SurvivalClause(c, neigh, curr, i, j)
    {
      assert Chosen(ok, [i, j], 0);
      ClauseReached(neigh, ok, Survives(curr), [i, j]);
      SurvivalAt(neigh, curr, i, j);
    }
  }

  /**
   * life emits one clause per pair i < j of nonzero entries, Choose(n, 2) in
   * all for n nonzero entries, and nothing else: |curr|, neigh[i], neigh[j],
   * then every other nonzero entry negated.
   */
  lemma LifeClausesShape(neigh: seq<int>, curr: int)
    requires NonNegative(neigh) && curr != 0
    ensures |Parse(LifeStream(neigh, curr))| == Choose(Accepted(neigh), 2)
    ensures forall c :: c in Parse(LifeStream(neigh, curr)) ==>
      exists i, j :: 0 <= i < j < |neigh| && neigh[i] != 0 && neigh[j] != 0 && SurvivalClause(c, neigh, curr, i, j)
    ensures forall i, j :: 0 <= i < j < |neigh| && neigh[i] != 0 && neigh[j] != 0 ==>
      exists c :: c in Parse(LifeStream(neigh, curr)) && SurvivalClause(c, neigh, curr, i, j)
  {
    var ok := NonZero(neigh);
    NonZeroPositive(neigh);
    GeneratorParses(neigh, ok, Survives(curr), 2);
    TuplesCount(ok, [], 0, 2);
    SurvivalSound(neigh, curr);
    SurvivalComplete(neigh, curr);
  }

  /**
   * The clause dead_two_neigh would emit for entries i < j: -neigh[i],
   * -neigh[j], then the nonzero entries after j, since its innermost loop
   * starts at j + 1.
   */
  predicate TwoAliveClause(c: seq<int>, neigh: seq<int>, i: nat, j: nat)
    requires i < j < |neigh|
  {
    2 <= |c| && c[0] == -neigh[i] && c[1] == -neigh[j] &&
    (forall k :: 2 <= k < |c| ==> exists l :: j < l < |neigh| && neigh[l] != 0 && c[k] == neigh[l]) &&
    (forall l :: j < l < |neigh| && neigh[l] != 0 ==> neigh[l] in c[2..])
  }

  lemma TwoAliveAt(neigh: seq<int>, i: nat, j: nat)
    requires i < j < |neigh|
    ensures InRange([i, j], |neigh|)
    ensures TwoAliveClause(Clause(neigh, NonZero(neigh), TwoAlive, [i, j]), neigh, i, j)
  {
    var ok := NonZero(neigh);
    var c := Clause(neigh, ok, TwoAlive, [i, j]);
    var tail := Others(neigh, ok, 1, [i, j], j + 1, |neigh|);
    assert c == [-neigh[i], -neigh[j]] + tail;
    assert c[2..] == tail;
    forall k | 2 <= k < |c| ensures exists l :: j < l < |neigh| && neigh[l] != 0 && c[k] == neigh[l] {
      assert c[k] in tail;
      OthersMembers(neigh, ok, 1, [i, j], j + 1, |neigh|, c[k]);
    }
    forall l | j < l < |neigh| && neigh[l] != 0 ensures neigh[l] in tail {
      OthersMembers(neigh, ok, 1, [i, j], j + 1, |neigh|, neigh[l]);
    }
  }

  lemma TwoAliveSound(neigh: seq<int>)
    ensures forall c :: c in Clauses(neigh, NonZero(neigh), TwoAlive, Tuples(NonZero(neigh), [], 0, 2)) ==>
      exists i, j :: 0 <= i < j < |neigh| && neigh[i] != 0 && neigh[j] != 0 && TwoAliveClause(c, neigh, i, j)
  {
    var ok := NonZero(neigh);
    forall c | c in Clauses(neigh, ok, TwoAlive, Tuples(ok, [], 0, 2))
      ensures exists i, j :: 0 <= i < j < |neigh| && neigh[i] != 0 && neigh[j] != 0 && TwoAliveClause(c, neigh, i, j)
    {
      var t := ClauseSource(neigh, ok, TwoAlive, 2, c);
      assert t == [t[0], t[1]];
      TwoAliveAt(neigh, t[0], t[1]);
    }
  }

  lemma TwoAliveComplete(neigh: seq<int>)
    ensures forall i, j :: 0 <= i < j < |neigh| && neigh[i] != 0 && neigh[j] != 0 ==>
      exists c :: c in Clauses(neigh, NonZero(neigh), TwoAlive, Tuples(NonZero(neigh), [], 0, 2)) &&
        TwoAliveClause(c, neigh, i, j)
  {
    var ok := NonZero(neigh);
    forall i, j | 0 <= i < j < |neigh| && neigh[i] != 0 && neigh[j] != 0
      ensures exists c :: c in Clauses(neigh, ok, TwoAlive, Tuples(ok, [], 0, 2)) && TwoAliveClause(c, neigh, i, j)
    {
      assert Chosen(ok, [i, j], 0);
      ClauseReached(neigh, ok, TwoAlive, [i, j]);
      TwoAliveAt(neigh, i, j);
    }
  }

  /**
   * dead_two_neigh emits one clause per pair i < j of nonzero entries,
   * Choose(n, 2) in all, and nothing else.
   */
  lemma DeadTwoNeighClauses(neigh: seq<int>)
    ensures |Parse(DeadTwoNeighStream(neigh))| == Choose(Accepted(neigh), 2)
    ensures forall c :: c in Parse(DeadTwoNeighStream(neigh)) ==>
      exists i, j :: 0 <= i < j < |neigh| && neigh[i] != 0 && neigh[j] != 0 && TwoAliveClause(c, neigh, i, j)
    ensures forall i, j :: 0 <= i < j < |neigh| && neigh[i] != 0 && neigh[j] != 0 ==>
      exists c :: c in Parse(DeadTwoNeighStream(neigh)) && TwoAliveClause(c, neigh, i, j)
  {
    var ok := NonZero(neigh);
    NonZeroPositive(neigh);
    GeneratorParses(neigh, ok, TwoAlive, 2);
    TuplesCount(ok, [], 0, 2);
    TwoAliveSound(neigh);
    TwoAliveComplete(neigh);
  }

  /** dead's literals read back as dead_no_neigh's clause followed by dead_one_neigh's clauses. */
  lemma DeadParses(neigh: seq<int>)
    requires NonNegative(neigh)
    ensures Parse(DeadStream(neigh)) == Parse(DeadNoNeighStream(neigh)) + Parse(DeadOneNeighStream(neigh))
    ensures |Parse(DeadStream(neigh))| == 1 + Accepted(neigh)
    ensures ZeroFree(Parse(DeadStream(neigh)))
  {
    var ok := NonZero(neigh);
    NonZeroPositive(neigh);
    GeneratorParses(neigh, ok, NoneAlive, 0);
    GeneratorParses(neigh, ok, OneAlive, 1);
    ParseConcat(Clauses(neigh, ok, NoneAlive, Tuples(ok, [], 0, 0)), Clauses(neigh, ok, OneAlive, Tuples(ok, [], 0, 1)));
    DeadNoNeighClause(neigh);
    DeadOneNeighClauses(neigh);
  }

  // ----- The clause set of a board -----

  /** The literals add_clauses gives the solver for cell c: life's when its literal is positive, dead's otherwise. */
  function CellStream(g: seq<seq<int>>, n: nat, m: nat, c: Cell): seq<int>
    requires IsGrid(g, n, m) && c.i < n && c.j < m
  {
    var neigh := Positional(g, n, m, c.i, c.j);
    if g[c.i][c.j] > 0 then LifeStream(neigh, g[c.i][c.j]) else DeadStream(neigh)
  }

  predicate OnGrid(cs: seq<Cell>, n: nat, m: nat)
  {
    forall c :: c in cs ==> c.i < n && c.j < m
  }

  /** The literals for the cells cs, one cell after the other. */
  function CellsStream(g: seq<seq<int>>, n: nat, m: nat, cs: seq<Cell>): seq<int>
    requires IsGrid(g, n, m) && OnGrid(cs, n, m)
  {
    if cs == [] then [] else CellsStream(g, n, m, cs[..|cs| - 1]) + CellStream(g, n, m, cs[|cs| - 1])
  }

  /** The literals add_clauses gives the solver for the whole board, cell by cell in row-major order. */
  function BoardStream(g: seq<seq<int>>, n: nat, m: nat): seq<int>
    requires IsGrid(g, n, m)
  {
    FullRowsMembers(n, m);
    CellsStream(g, n, m, AllCells(n, m))
  }

  lemma CellsStreamSnoc(g: seq<seq<int>>, n: nat, m: nat, cs: seq<Cell>, c: Cell)
    requires IsGrid(g, n, m) && OnGrid(cs + [c], n, m)
    ensures OnGrid(cs, n, m)
    ensures CellsStream(g, n, m, cs + [c]) == CellsStream(g, n, m, cs) + CellStream(g, n, m, c)
  {
    assert (cs + [c])[..|cs|] == cs;
  }

  /** One cell of add_clauses: neigh_init, then life or dead on the entries it left in neigh. */
  method AddCell(s: Solver, b: Board, neigh: array<int>, ghost g: seq<seq<int>>, i: nat, j: nat)
    requires b.Valid() && g == b.Cells() && neigh.Length == |Offsets| && i < b.n && j < b.m
    modifies s, neigh
    ensures s.lits == old(s.lits) + CellStream(g, b.n, b.m, Cell(i, j))
  {
    var curr := b.table[i, j];
    var alive := NeighInit(neigh, b, i, j);
    if curr > 0 {
      LifeClauses(s, neigh[..], curr);
    } else {
      Dead(s, neigh[..], curr);
    }
  }

  /** The state of add_clauses's loops: the literals of the cells cs have been added to lits0. */
  ghost predicate Added(lits: seq<int>, lits0: seq<int>, g: seq<seq<int>>, n: nat, m: nat, cs: seq<Cell>)
  {
    IsGrid(g, n, m) && OnGrid(cs, n, m) && lits == lits0 + CellsStream(g, n, m, cs)
  }

  /** add_clauses: every cell's clauses, in row-major order. */
  method AddClauses(s: Solver, b: Board)
    requires b.Valid()
    modifies s
    ensures s.lits == old(s.lits) + BoardStream(b.Cells(), b.n, b.m)
  {
    ghost var g := b.Cells();
    ghost var lits0 := s.lits;
    assert Holds(b, g);
    var neigh := new int[|Offsets|];
    var i := 0;
    StartCells(b.m);
    while i < b.n
      invariant i <= b.n && Added(s.lits, lits0, g, b.n, b.m, CellsBefore(b.m, i, 0))
    {
      AddRow(s, b, neigh, g, lits0, i);
      i := i + 1;
    }
    EndCells(b.n, b.m);
    FullRowsMembers(b.n, b.m);
  }

  /** The inner loop of add_clauses: the clauses of row i, cell by cell. */
  method AddRow(s: Solver, b: Board, neigh: array<int>, ghost g: seq<seq<int>>, ghost lits0: seq<int>, i: nat)
    requires Holds(b, g) && neigh.Length == |Offsets| && i < b.n
    requires Added(s.lits, lits0, g, b.n, b.m, CellsBefore(b.m, i, 0))
    modifies s, neigh
    ensures Added(s.lits, lits0, g, b.n, b.m, CellsBefore(b.m, i + 1, 0))
  {
    var j := 0;
    while j < b.m
      invariant j <= b.m && Added(s.lits, lits0, g, b.n, b.m, CellsBefore(b.m, i, j))
    {
      HoldsCells(b, g);
      AddCellStep(s, b, neigh, g, lits0, i, j);
      j := j + 1;
    }
    StepRow(b.m, i);
  }

  /** One pass of add_clauses's inner loop. */
  method AddCellStep(s: Solver, b: Board, neigh: array<int>, ghost g: seq<seq<int>>, ghost lits0: seq<int>, i: nat, j: nat)
    requires b.Valid() && g == b.Cells() && neigh.Length == |Offsets| && i < b.n && j < b.m
    requires Added(s.lits, lits0, g, b.n, b.m, CellsBefore(b.m, i, j))
    modifies s, neigh
    ensures Added(s.lits, lits0, g, b.n, b.m, CellsBefore(b.m, i, j + 1))
  {
    ghost var cs := CellsBefore(b.m, i, j);
    CellsBeforeBounded(b.n, b.m, i, j + 1);
    StepCell(b.m, i, j);
    CellsStreamSnoc(g, b.n, b.m, cs, Cell(i, j));
    ghost var done, cell := CellsStream(g, b.n, b.m, cs), CellStream(g, b.n, b.m, Cell(i, j));
    AddCell(s, b, neigh, g, i, j);
    ConcatAssoc(lits0, done, cell);
  }

  lemma ConcatAssoc(a: seq<int>, b: seq<int>, c: seq<int>)
    ensures (a + b) + c == a + (b + c)
  {
  }

  /**
   * solve: when the solver is created (`created`) and answers 10 for the
   * board's clauses, r receives the model and the result is 1; otherwise the
   * result is 0 and r is untouched.
   */
  method Solve(b: Board, r: Board, created: bool, oracle: Oracle) returns (res: int)
    requires b.Valid() && r.Valid()
    modifies r, r.table
    ensures res == 1 <==> created && oracle(BoardStream(old(b.Cells()), old(b.n), old(b.m))).status == 10
    ensures res == 0 || res == 1
    ensures res == 1 ==>
      r.Valid() && r.n == old(b.n) && r.m == old(b.m) &&
      r.Cells() == SolveC.ValueGrid(oracle(BoardStream(old(b.Cells()), old(b.n), old(b.m))).model,
        BoardStream(old(b.Cells()), old(b.n), old(b.m)), old(b.Cells()))
    ensures res == 0 ==> unchanged(r) && unchanged(r.table)
  {
    ghost var g, n, m := b.Cells(), b.n, b.m;
    if created {
      var s := new Solver();
      AddClauses(s, b);
      assert b.Cells() == g;
      assert s.lits == BoardStream(g, n, m);
      var status := s.Solve(oracle);
      if status == 10 {
        SolveC.FillResultBoard(s, b, r);
        return 1;
      }
    }
    return 0;
  }

  /**
   * On a 1 x 1 board whose cell is alive the cell has no neighbour, so life
   * adds no clause and the solver receives no literal; kissat_value then
   * reads the cell back as 0, whatever assignment the solver reports.
   */
  lemma LoneLiveCellReadsZero(g: seq<seq<int>>, a: nat -> bool)
    requires IsGrid(g, 1, 1) && g[0][0] > 0
    ensures BoardStream(g, 1, 1) == []
    ensures SolveC.ValueGrid(a, BoardStream(g, 1, 1), g)[0][0] == 0
  {
    var neigh := Positional(g, 1, 1, 0, 0);
    forall k | 0 <= k < |Offsets| ensures !NonZero(neigh)[k] {
      OffsetIndexOf(k);
    }
    NoneAcceptedNoTuples(NonZero(neigh), [], 0, 2);
    assert LifeStream(neigh, g[0][0]) == [];
    assert AllCells(1, 1) == [Cell(0, 0)];
    assert CellsStream(g, 1, 1, [Cell(0, 0)]) == CellsStream(g, 1, 1, []) + CellStream(g, 1, 1, Cell(0, 0));
  }

  // ----- What the solver reads back -----

  /** The clauses of cell c. */
  function CellClauses(g: seq<seq<int>>, n: nat, m: nat, c: Cell): seq<seq<int>>
    requires IsGrid(g, n, m) && c.i < n && c.j < m
  {
    Parse(CellStream(g, n, m, c))
  }

  /** The clauses of the cells cs, one cell after the other. */
  function CellsClauses(g: seq<seq<int>>, n: nat, m: nat, cs: seq<Cell>): seq<seq<int>>
    requires IsGrid(g, n, m) && OnGrid(cs, n, m)
  {
    if cs == [] then [] else CellsClauses(g, n, m, cs[..|cs| - 1]) + CellClauses(g, n, m, cs[|cs| - 1])
  }

  lemma PositionalNonNegative(g: seq<seq<int>>, n: nat, m: nat, i: nat, j: nat)
    requires IsGrid(g, n, m)
    ensures NonNegative(Positional(g, n, m, i, j))
  {
  }

  /** A cell's literals are its clauses, each closed by a 0, and no clause holds a 0. */
  lemma CellStreamParses(g: seq<seq<int>>, n: nat, m: nat, c: Cell)
    requires IsGrid(g, n, m) && c.i < n && c.j < m
    ensures ZeroFree(CellClauses(g, n, m, c))
    ensures Stream(CellClauses(g, n, m, c)) == CellStream(g, n, m, c)
  {
    var neigh := Positional(g, n, m, c.i, c.j);
    var ok := NonZero(neigh);
    NonZeroPositive(neigh);
    if g[c.i][c.j] > 0 {
      GeneratorParses(neigh, ok, Survives(g[c.i][c.j]), 2);
    } else {
      PositionalNonNegative(g, n, m, c.i, c.j);
      var xs := Clauses(neigh, ok, NoneAlive, Tuples(ok, [], 0, 0));
      var ys := Clauses(neigh, ok, OneAlive, Tuples(ok, [], 0, 1));
      GeneratorParses(neigh, ok, NoneAlive, 0);
      GeneratorParses(neigh, ok, OneAlive, 1);
      ParseConcat(xs, ys);
      StreamConcat(xs, ys);
    }
  }

  lemma {:induction false} CellsStreamIs(g: seq<seq<int>>, n: nat, m: nat, cs: seq<Cell>)
    requires IsGrid(g, n, m) && OnGrid(cs, n, m)
    ensures ZeroFree(CellsClauses(g, n, m, cs))
    ensures Stream(CellsClauses(g, n, m, cs)) == CellsStream(g, n, m, cs)
  {
    if cs != [] {
      var front, c := cs[..|cs| - 1], cs[|cs| - 1];
      assert c in cs;
      CellsStreamIs(g, n, m, front);
      CellStreamParses(g, n, m, c);
      StreamConcat(CellsClauses(g, n, m, front), CellClauses(g, n, m, c));
    }
  }

  /** The solver reads the board's literals back as the clauses of its cells, in row-major order. */
  lemma BoardClauses(g: seq<seq<int>>, n: nat, m: nat)
    requires IsGrid(g, n, m)
    ensures OnGrid(AllCells(n, m), n, m)
    ensures Parse(BoardStream(g, n, m)) == CellsClauses(g, n, m, AllCells(n, m))
  {
    FullRowsMembers(n, m);
    CellsStreamIs(g, n, m, AllCells(n, m));
    ParseStream(CellsClauses(g, n, m, AllCells(n, m)));
  }

  lemma {:induction false} CellsClausesHold(g: seq<seq<int>>, n: nat, m: nat, cs: seq<Cell>, c: Cell)
    requires IsGrid(g, n, m) && OnGrid(cs, n, m) && c in cs
    ensures forall cl :: cl in CellClauses(g, n, m, c) ==> cl in CellsClauses(g, n, m, cs)
  {
    var front, last := cs[..|cs| - 1], cs[|cs| - 1];
    if c != last {
      assert c in front;
      CellsClausesHold(g, n, m, front, c);
    }
  }

  /**
   * When a sound solver answers 10 for the board's literals, the assignment
   * it returns satisfies every clause add_clauses generated for every cell.
   */
  lemma SatisfiedCells(oracle: Oracle, g: seq<seq<int>>, n: nat, m: nat)
    requires Sound(oracle) && IsGrid(g, n, m) && oracle(BoardStream(g, n, m)).status == 10
    ensures forall c: Cell :: c.i < n && c.j < m ==> Satisfies(oracle(BoardStream(g, n, m)).model, CellClauses(g, n, m, c))
  {
    var a := oracle(BoardStream(g, n, m)).model;
    BoardClauses(g, n, m);
    assert Satisfies(a, Parse(BoardStream(g, n, m)));
    forall c: Cell | c.i < n && c.j < m ensures Satisfies(a, CellClauses(g, n, m, c)) {
      FullRowsMembers(n, m);
      CellsClausesHold(g, n, m, AllCells(n, m), c);
    }
  }
}

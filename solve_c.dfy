/**
 * The Kissat back-end of src/solve.c: collecting a cell's neighbour literals,
 * the five clause generators, the clause set add_clauses hands to the solver,
 * reading the solver's model back onto a board, and solve. The generators'
 * clauses are described by what they contain; they are not claimed to encode
 * the Game of Life rule.
 */
module SolveC {
  import opened RowMajor
  import opened Life
  import opened CInt
  import opened CBoard
  import opened Cnf

  // ----- Neighbour literals -----

  /** The absolute values of the cells cs of g, in order. */
  function AbsAt(g: seq<seq<int>>, cs: seq<Cell>): (r: seq<int>)
    requires forall c :: c in cs ==> c.i < |g| && c.j < |g[c.i]|
    ensures |r| == |cs|
  {
    seq(|cs|, k requires 0 <= k < |cs| => assert cs[k] in cs; Abs(g[cs[k].i][cs[k].j]))
  }

  /**
   * neigh_init: the absolute literals of the neighbours that pass the bounds
   * test, packed at the front of neigh in offset order, the rest of neigh
   * zero. The coordinates are size_t sums converted to `int` before the test,
   * so the row above row 0 becomes -1 and is rejected; for a cell on the board
   * the packed cells are exactly its neighbours.
   */
  method NeighInit(neigh: array<int>, b: Board, i: nat, j: nat) returns (n: nat)
    requires b.Valid() && neigh.Length == |Offsets|
    modifies neigh
    ensures n <= |Offsets|
    ensures neigh[..n] == AbsAt(b.Cells(), CastNeighbourCells(b.n, b.m, i, j, |Offsets|))
    ensures forall k :: n <= k < |Offsets| ==> neigh[k] == 0
    ensures i < b.n && j < b.m ==> neigh[..n] == AbsAt(b.Cells(), Neighbours(b.n, b.m, i, j))
  {
    ghost var g := b.Cells();
    n := 0;
    forall k | 0 <= k < |Offsets| {
      neigh[k] := 0;
    }
    var k := 0;
    while k < |Offsets|
      invariant k <= |Offsets| && Packed(neigh, g, b.n, b.m, i, j, k, n)
    {
      n := CollectOffset(neigh, b, i, j, k, n);
      k := k + 1;
    }
    if i < b.n && j < b.m {
      CastNeighboursExact(b.n, b.m, i, j, |Offsets|);
    }
  }

  /**
   * The state of neigh_init's loop after k offsets: count values packed at
   * the front of neigh, the rest zero.
   */
  ghost predicate Packed(neigh: array<int>, g: seq<seq<int>>, n: nat, m: nat, i: nat, j: nat, k: nat, count: nat)
    requires IsGrid(g, n, m) && k <= |Offsets|
    reads neigh
  {
    neigh.Length == |Offsets| && count <= k &&
    neigh[..count] == AbsAt(g, CastNeighbourCells(n, m, i, j, k)) &&
    forall p :: count <= p < |Offsets| ==> neigh[p] == 0
  }

  /** One iteration of neigh_init's loop: offset k's cell is stored at position count when it passes the bounds test. */
  method CollectOffset(neigh: array<int>, b: Board, i: nat, j: nat, k: nat, count: nat) returns (count': nat)
    requires b.Valid() && k < |Offsets| && Packed(neigh, b.Cells(), b.n, b.m, i, j, k, count)
    modifies neigh
    ensures Packed(neigh, b.Cells(), b.n, b.m, i, j, k + 1, count')
  {
    ghost var g := b.Cells();
    ghost var got := neigh[..count];
    count' := count;
    var x := ToInt32(SizeT(i + Offsets[k].0));
    var y := ToInt32(SizeT(j + Offsets[k].1));
    ToInt32SizeT(i + Offsets[k].0);
    ToInt32SizeT(j + Offsets[k].1);
    CastNeighbourStep(b.n, b.m, i, j, k, x, y);
    if 0 <= x < ToInt32(b.n) && 0 <= y < ToInt32(b.m) {
      AbsAtSnoc(g, CastNeighbourCells(b.n, b.m, i, j, k), Cell(x, y));
      neigh[count] := Abs(b.table[x, y]);
      assert neigh[..count + 1] == got + [Abs(g[x][y])];
      count' := count + 1;
    }
  }

  lemma AbsAtSnoc(g: seq<seq<int>>, cs: seq<Cell>, c: Cell)
    requires forall d :: d in cs + [c] ==> d.i < |g| && d.j < |g[d.i]|
    ensures AbsAt(g, cs + [c]) == AbsAt(g, cs) + [Abs(g[c.i][c.j])]
  {
    assert forall d :: d in cs ==> d in cs + [c];
  }

  /** Literals stored by board_read are nonzero, so the collected absolute values are positive. */
  lemma CollectedPositive(g: seq<seq<int>>, cs: seq<Cell>)
    requires forall c :: c in cs ==> c.i < |g| && c.j < |g[c.i]| && g[c.i][c.j] != 0
    ensures Positive(AbsAt(g, cs))
  {
    forall k | 0 <= k < |cs| ensures AbsAt(g, cs)[k] > 0 {
      assert cs[k] in cs;
    }
  }

  // ----- The generators -----

  /** The generators of this file use all of the n collected literals. */
  function AllOk(n: nat): (ok: seq<bool>)
    ensures |ok| == n && forall k :: 0 <= k < n ==> ok[k]
  {
    seq(n, _ => true)
  }

  predicate Positive(neigh: seq<int>)
  {
    forall k :: 0 <= k < |neigh| ==> neigh[k] > 0
  }

  /** overcrowding: the picked literals alone. */
  const Crowd := Shape([], 1, NoTail)

  /** loneliness and birth: the picked literals, then every other literal negated. */
  const Isolated := Shape([], 1, AllOthers(-1))

  /** stagnation and preservation: a first literal, the picked literals, every other literal negated. */
  function Flanked(first: int): Shape
  {
    Shape([first], 1, AllOthers(-1))
  }

  function OvercrowdingStream(neigh: seq<int>): seq<int>
  {
    Emit(neigh, AllOk(|neigh|), Crowd, [], 0, 4)
  }

  function LonelinessStream(neigh: seq<int>): seq<int>
  {
    Emit(neigh, AllOk(|neigh|), Isolated, [], 0, 0) + Emit(neigh, AllOk(|neigh|), Isolated, [], 0, 1)
  }

  function BirthStream(neigh: seq<int>): seq<int>
  {
    Emit(neigh, AllOk(|neigh|), Isolated, [], 0, 3)
  }

  function StagnationStream(neigh: seq<int>, curr: int): seq<int>
  {
    Emit(neigh, AllOk(|neigh|), Flanked(-curr), [], 0, 2)
  }

  function PreservationStream(neigh: seq<int>, curr: int): seq<int>
  {
    Emit(neigh, AllOk(|neigh|), Flanked(curr), [], 0, 2)
  }

  /** overcrowding: four nested loops i < j < k < l over the n literals. */
  method Overcrowding(s: Solver, neigh: seq<int>)
    modifies s
    ensures s.lits == old(s.lits) + OvercrowdingStream(neigh)
  {
    EmitTuples(s, neigh, AllOk(|neigh|), Crowd, [], 0, 4);
  }

  /** loneliness: the clause with no literal picked, then one loop over the picked literal. */
  method Loneliness(s: Solver, neigh: seq<int>)
    modifies s
    ensures s.lits == old(s.lits) + LonelinessStream(neigh)
  {
    EmitTuples(s, neigh, AllOk(|neigh|), Isolated, [], 0, 0);
    EmitTuples(s, neigh, AllOk(|neigh|), Isolated, [], 0, 1);
  }

  /** birth: three nested loops i < j < k. */
  method Birth(s: Solver, neigh: seq<int>)
    modifies s
    ensures s.lits == old(s.lits) + BirthStream(neigh)
  {
    EmitTuples(s, neigh, AllOk(|neigh|), Isolated, [], 0, 3);
  }

  /** stagnation: two nested loops i < j, each clause led by -curr. */
  method Stagnation(s: Solver, neigh: seq<int>, curr: int)
    modifies s
    ensures s.lits == old(s.lits) + StagnationStream(neigh, curr)
  {
    EmitTuples(s, neigh, AllOk(|neigh|), Flanked(-curr), [], 0, 2);
  }

  /** preservation: two nested loops i < j, each clause led by curr. */
  method Preservation(s: Solver, neigh: seq<int>, curr: int)
    modifies s
    ensures s.lits == old(s.lits) + PreservationStream(neigh, curr)
  {
    EmitTuples(s, neigh, AllOk(|neigh|), Flanked(curr), [], 0, 2);
  }

  // ----- What the generators emit -----

  /** Every literal of c from position lo on is negative. */
  predicate NegativeFrom(c: seq<int>, lo: nat)
  {
    forall k :: lo <= k < |c| ==> c[k] < 0
  }

  lemma AllPositive(neigh: seq<int>)
    requires Positive(neigh)
    ensures Literals(neigh, AllOk(|neigh|)) && PositiveLiterals(neigh, AllOk(|neigh|))
    ensures OkCount(AllOk(|neigh|), 0, |neigh|) == |neigh|
  {
    OkCountAll(|neigh|, 0, |neigh|);
  }

  /** overcrowding emits Choose(n, 4) clauses of four positive literals. */
  lemma OvercrowdingClauses(neigh: seq<int>)
    requires Positive(neigh)
    ensures Parse(OvercrowdingStream(neigh)) ==
      Clauses(neigh, AllOk(|neigh|), Crowd, Tuples(AllOk(|neigh|), [], 0, 4))
    ensures |Parse(OvercrowdingStream(neigh))| == Choose(|neigh|, 4)
    ensures forall c :: c in Parse(OvercrowdingStream(neigh)) ==>
      |c| == 4 && forall k :: 0 <= k < 4 ==> c[k] > 0
  {
    AllPositive(neigh);
    GeneratorFacts(neigh, AllOk(|neigh|), Crowd, 4);
    GeneratorPolarity(neigh, AllOk(|neigh|), Crowd, 4);
  }

  /** birth emits Choose(n, 3) clauses of n literals: three positive, the others negative. */
  lemma BirthClauses(neigh: seq<int>)
    requires Positive(neigh)
    ensures Parse(BirthStream(neigh)) ==
      Clauses(neigh, AllOk(|neigh|), Isolated, Tuples(AllOk(|neigh|), [], 0, 3))
    ensures |Parse(BirthStream(neigh))| == Choose(|neigh|, 3)
    ensures forall c :: c in Parse(BirthStream(neigh)) ==>
      3 <= |c| == |neigh| && c[0] > 0 && c[1] > 0 && c[2] > 0 && NegativeFrom(c, 3)
  {
    AllPositive(neigh);
    GeneratorFacts(neigh, AllOk(|neigh|), Isolated, 3);
    GeneratorPolarity(neigh, AllOk(|neigh|), Isolated, 3);
  }

  /** n + 1 literals: first, two positive literals, then only negative ones. */
  predicate PairClause(c: seq<int>, neigh: seq<int>, first: int)
  {
    3 <= |c| == |neigh| + 1 && c[0] == first && c[1] > 0 && c[2] > 0 && NegativeFrom(c, 3)
  }

  /** A Flanked(first) generator over pairs: Choose(n, 2) clauses of first, two positive literals, the others negative. */
  lemma FlankedClauses(neigh: seq<int>, first: int)
    requires Positive(neigh) && first != 0
    ensures Parse(Emit(neigh, AllOk(|neigh|), Flanked(first), [], 0, 2)) ==
      Clauses(neigh, AllOk(|neigh|), Flanked(first), Tuples(AllOk(|neigh|), [], 0, 2))
    ensures |Parse(Emit(neigh, AllOk(|neigh|), Flanked(first), [], 0, 2))| == Choose(|neigh|, 2)
    ensures forall c :: c in Parse(Emit(neigh, AllOk(|neigh|), Flanked(first), [], 0, 2)) ==>
      PairClause(c, neigh, first)
  {
    var ok := AllOk(|neigh|);
    AllPositive(neigh);
    GeneratorParses(neigh, ok, Flanked(first), 2);
    TuplesCount(ok, [], 0, 2);
    GeneratorPolarity(neigh, ok, Flanked(first), 2);
    forall c | c in Parse(Emit(neigh, ok, Flanked(first), [], 0, 2)) ensures c[0] == first {
      assert c[..1] == [first];
    }
  }

  /** stagnation emits Choose(n, 2) clauses of n + 1 literals: -curr, two positive, the others negative. */
  lemma StagnationClauses(neigh: seq<int>, curr: int)
    requires Positive(neigh) && curr != 0
    ensures Parse(StagnationStream(neigh, curr)) ==
      Clauses(neigh, AllOk(|neigh|), Flanked(-curr), Tuples(AllOk(|neigh|), [], 0, 2))
    ensures |Parse(StagnationStream(neigh, curr))| == Choose(|neigh|, 2)
    ensures forall c :: c in Parse(StagnationStream(neigh, curr)) ==>
      PairClause(c, neigh, -curr)
  {
    assert StagnationStream(neigh, curr) == Emit(neigh, AllOk(|neigh|), Flanked(-curr), [], 0, 2);
    FlankedClauses(neigh, -curr);
  }

  /** preservation emits Choose(n, 2) clauses of n + 1 literals: curr, two positive, the others negative. */
  lemma PreservationClauses(neigh: seq<int>, curr: int)
    requires Positive(neigh) && curr != 0
    ensures Parse(PreservationStream(neigh, curr)) ==
      Clauses(neigh, AllOk(|neigh|), Flanked(curr), Tuples(AllOk(|neigh|), [], 0, 2))
    ensures |Parse(PreservationStream(neigh, curr))| == Choose(|neigh|, 2)
    ensures forall c :: c in Parse(PreservationStream(neigh, curr)) ==>
      PairClause(c, neigh, curr)
  {
    FlankedClauses(neigh, curr);
  }

  /** stagnation and preservation emit the same clauses but for the first literal. */
  lemma StagnationMirrorsPreservation(neigh: seq<int>, curr: int)
    requires Positive(neigh) && curr != 0
    ensures |Parse(StagnationStream(neigh, curr))| == |Parse(PreservationStream(neigh, curr))|
    ensures forall k :: 0 <= k < |Parse(StagnationStream(neigh, curr))| ==>
      1 <= |Parse(PreservationStream(neigh, curr))[k]| &&
      Parse(StagnationStream(neigh, curr))[k] == [-curr] + Parse(PreservationStream(neigh, curr))[k][1..]
  {
    var ok := AllOk(|neigh|);
    AllPositive(neigh);
    GeneratorParses(neigh, ok, Flanked(-curr), 2);
    GeneratorParses(neigh, ok, Flanked(curr), 2);
    var ts := Tuples(ok, [], 0, 2);
    var xs, ys := Clauses(neigh, ok, Flanked(-curr), ts), Clauses(neigh, ok, Flanked(curr), ts);
    forall k | 0 <= k < |ts| ensures 1 <= |ys[k]| && xs[k] == [-curr] + ys[k][1..] {
      assert ts[k] in ts;
      MirrorClause(neigh, curr, ts[k]);
    }
  }

  lemma MirrorClause(neigh: seq<int>, curr: int, t: seq<nat>)
    requires InRange(t, |neigh|)
    ensures 1 <= |Clause(neigh, AllOk(|neigh|), Flanked(curr), t)|
    ensures Clause(neigh, AllOk(|neigh|), Flanked(-curr), t) == [-curr] + Clause(neigh, AllOk(|neigh|), Flanked(curr), t)[1..]
  {
    var ok := AllOk(|neigh|);
    var rest := Picked(neigh, 1, t) + TailLits(neigh, ok, AllOthers(-1), t);
    assert Clause(neigh, ok, Flanked(-curr), t) == [-curr] + rest;
    assert Clause(neigh, ok, Flanked(curr), t) == [curr] + rest;
    assert ([curr] + rest)[1..] == rest;
  }

  /** With nothing picked and every index accepted, the tail is every literal with the sign, in order. */
  lemma {:induction false} OthersNone(neigh: seq<int>, sign: int, hi: nat)
    requires hi <= |neigh|
    ensures Others(neigh, AllOk(|neigh|), sign, [], 0, hi) == seq(hi, k requires 0 <= k < hi => sign * neigh[k])
  {
    if hi > 0 {
      OthersNone(neigh, sign, hi - 1);
    }
  }

  /** With every index accepted, the one-element tuples are [from], [from + 1], ..., in order. */
  lemma {:induction false} SingleTuples(n: nat, from: nat)
    requires from <= n
    ensures Tuples(AllOk(n), [], from, 1) == seq(n - from, k requires 0 <= k < n - from => [from + k])
    decreases n - from
  {
    if from < n {
      SingleTuples(n, from + 1);
      assert Tuples(AllOk(n), [from], from + 1, 0) == [[from]];
      assert [] + [from] == [from];
    }
  }

  /** The clause loneliness emits for neighbour i: neigh[i], then the n - 1 others negated. */
  predicate LoneClause(c: seq<int>, neigh: seq<int>, i: nat)
    requires i < |neigh|
  {
    1 <= |c| == |neigh| && c[0] == neigh[i] && NegativeFrom(c, 1)
  }

  /**
   * loneliness emits 1 + n clauses: first every literal negated, then as
   * clause i + 1 the literal neigh[i] followed by every other literal negated.
   */
  lemma LonelinessClauses(neigh: seq<int>)
    requires Positive(neigh)
    ensures |Parse(LonelinessStream(neigh))| == 1 + |neigh|
    ensures Parse(LonelinessStream(neigh))[0] == seq(|neigh|, k requires 0 <= k < |neigh| => -neigh[k])
    ensures forall i :: 1 <= i <= |neigh| ==> LoneClause(Parse(LonelinessStream(neigh))[i], neigh, i - 1)
  {
    var ok := AllOk(|neigh|);
    AllPositive(neigh);
    GeneratorParses(neigh, ok, Isolated, 0);
    GeneratorParses(neigh, ok, Isolated, 1);
    var xs := Clauses(neigh, ok, Isolated, Tuples(ok, [], 0, 0));
    var ys := Clauses(neigh, ok, Isolated, Tuples(ok, [], 0, 1));
    ParseConcat(xs, ys);
    LonelyNone(neigh);
    LonelyOne(neigh);
  }

  lemma LonelyNone(neigh: seq<int>)
    ensures Clauses(neigh, AllOk(|neigh|), Isolated, Tuples(AllOk(|neigh|), [], 0, 0)) ==
      [seq(|neigh|, k requires 0 <= k < |neigh| => -neigh[k])]
  {
    var ok := AllOk(|neigh|);
    assert Tuples(ok, [], 0, 0) == [[]];
    OthersNone(neigh, -1, |neigh|);
    var c := Others(neigh, ok, -1, [], 0, |neigh|);
    var negated := seq(|neigh|, k requires 0 <= k < |neigh| => -neigh[k]);
    assert c == negated by {
      forall k | 0 <= k < |neigh| ensures c[k] == negated[k] {
      }
    }
    assert Clause(neigh, ok, Isolated, []) == c;
  }

  lemma LonelyOne(neigh: seq<int>)
    requires Positive(neigh)
    ensures var ys := Clauses(neigh, AllOk(|neigh|), Isolated, Tuples(AllOk(|neigh|), [], 0, 1));
      |ys| == |neigh| && forall i :: 0 <= i < |neigh| ==> LoneClause(ys[i], neigh, i)
  {
    var ok := AllOk(|neigh|);
    AllPositive(neigh);
    SingleTuples(|neigh|, 0);
    var ts := Tuples(ok, [], 0, 1);
    var ys := Clauses(neigh, ok, Isolated, ts);
    forall i | 0 <= i < |neigh| ensures LoneClause(ys[i], neigh, i) {
      assert ts[i] == [i];
      assert ts[i] in ts;
      ClausePolarity(neigh, ok, Isolated, [i]);
      assert ys[i] == Clause(neigh, ok, Isolated, [i]);
      assert ys[i][0] == Picked(neigh, 1, [i])[0];
    }
  }

  // ----- The clause set and the result -----

  /**
   * add_clauses: visits every cell and collects its neighbours, but the calls
   * of the generators are commented out, so the solver receives no literal.
   */
  method AddClauses(s: Solver, b: Board)
    requires b.Valid()
    modifies s
    ensures s.lits == old(s.lits) && s.model == old(s.model)
  {
    var neigh := new int[|Offsets|];
    var i := 0;
    while i < b.n
      invariant b.Valid() && s.lits == old(s.lits) && s.model == old(s.model)
    {
      var j := 0;
      while j < b.m
        invariant b.Valid() && s.lits == old(s.lits) && s.model == old(s.model)
      {
        var curr := b.table[i, j];
        var n := NeighInit(neigh, b, i, j);
        j := j + 1;
      }
      i := i + 1;
    }
  }

  /** The board of solver values read back for the variables |g[i][j]|, after the literals lits were added. */
  function ValueGrid(a: nat -> bool, lits: seq<int>, g: seq<seq<int>>): (h: seq<seq<int>>)
    ensures |h| == |g| && forall i :: 0 <= i < |g| ==> |h[i]| == |g[i]|
  {
    seq(|g|, i requires 0 <= i < |g| => seq(|g[i]|, j requires 0 <= j < |g[i]| => Value(a, lits, Abs(g[i][j]))))
  }

  /**
   * A cell of the read-back board is 0 when its variable never occurred in
   * the added literals, and otherwise the variable when the model makes it
   * true and its negation when it makes it false.
   */
  lemma ValueGridAt(a: nat -> bool, lits: seq<int>, g: seq<seq<int>>, i: nat, j: nat)
    requires i < |g| && j < |g[i]| && g[i][j] != 0
    ensures var x: int := Abs(g[i][j]);
      ValueGrid(a, lits, g)[i][j] == if !Occurs(lits, x) then 0 else if a(x) then x else -x
  {
  }

  /** With no literal added, every cell reads back as 0, whatever the assignment. */
  lemma NothingAddedReadsZero(a: nat -> bool, g: seq<seq<int>>)
    ensures forall i, j :: 0 <= i < |g| && 0 <= j < |g[i]| ==> ValueGrid(a, [], g)[i][j] == 0
  {
  }

  /**
   * fill_result_board: r takes b's sizes and, in each used cell, the
   * solver's value of the variable |b[i][j]|; the unused part of r's table is
   * kept. r may be b itself.
   */
  method FillResultBoard(s: Solver, b: Board, r: Board)
    requires b.Valid() && r.Valid()
    modifies r, r.table
    ensures r.Valid() && r.n == old(b.n) && r.m == old(b.m)
    ensures r.Cells() == ValueGrid(s.model, s.lits, old(b.Cells()))
    ensures forall x, y :: 0 <= x < N && 0 <= y < N && !(x < r.n && y < r.m) ==> r.table[x, y] == old(r.table[x, y])
  {
    ghost var g := b.Cells();
    r.n := b.n;
    r.m := b.m;
    var i := 0;
    while i < b.n
      invariant b.Valid() && r.Valid() && r.n == b.n == old(b.n) && r.m == b.m == old(b.m) && i <= b.n
      invariant forall x, y :: 0 <= x < N && 0 <= y < N ==>
        r.table[x, y] == if Visited(x, y, i, 0, b.m) then Value(s.model, s.lits, Abs(g[x][y])) else old(r.table[x, y])
      invariant forall x, y :: 0 <= x < b.n && 0 <= y < b.m && !Visited(x, y, i, 0, b.m) ==> b.table[x, y] == g[x][y]
    {
      FillRow(s, b, r, i, g);
      i := i + 1;
    }
    GridEq(r.Cells(), ValueGrid(s.model, s.lits, g), r.n, r.m);
  }

  /** The inner loop of fill_result_board: row i of r receives the values for row i of g. */
  method FillRow(s: Solver, b: Board, r: Board, i: nat, ghost g: seq<seq<int>>)
    requires b.Valid() && r.Valid() && r.n == b.n && r.m == b.m && i < b.n && IsGrid(g, b.n, b.m)
    requires forall y :: 0 <= y < b.m ==> b.table[i, y] == g[i][y]
    modifies r.table
    ensures b.Valid() && r.Valid() && r.n == b.n && r.m == b.m
    ensures forall x, y :: 0 <= x < N && 0 <= y < N ==>
      r.table[x, y] == if x == i && y < b.m then Value(s.model, s.lits, Abs(g[x][y])) else old(r.table[x, y])
    ensures forall x, y :: 0 <= x < N && 0 <= y < N && x != i ==> b.table[x, y] == old(b.table[x, y])
  {
    var j := 0;
    while j < b.m
      invariant j <= b.m
      invariant forall x, y :: 0 <= x < N && 0 <= y < N ==>
        r.table[x, y] == if x == i && y < j then Value(s.model, s.lits, Abs(g[x][y])) else old(r.table[x, y])
      invariant forall y :: j <= y < b.m ==> b.table[i, y] == g[i][y]
      invariant forall x, y :: 0 <= x < N && 0 <= y < N && x != i ==> b.table[x, y] == old(b.table[x, y])
    {
      r.table[i, j] := s.ValueOf(Abs(b.table[i, j]));
      j := j + 1;
    }
  }

  /**
   * solve: when the solver is created (`created`) and answers 10 for the
   * clauses add_clauses gave it, r receives the model and the result is 1;
   * otherwise the result is 0 and r is untouched.
   */
  method Solve(b: Board, r: Board, created: bool, oracle: Oracle) returns (res: int)
    requires b.Valid() && r.Valid()
    modifies r, r.table
    ensures res == 1 <==> created && oracle([]).status == 10
    ensures res == 0 || res == 1
    ensures res == 1 ==>
      r.Valid() && r.n == old(b.n) && r.m == old(b.m) && r.Cells() == ValueGrid(oracle([]).model, [], old(b.Cells()))
    ensures res == 1 ==> forall x, y :: 0 <= x < r.n && 0 <= y < r.m ==> r.Cells()[x][y] == 0
    ensures res == 0 ==> unchanged(r) && unchanged(r.table)
  {
    if created {
      var s := new Solver();
      AddClauses(s, b);
      var status := s.Solve(oracle);
      if status == 10 {
        ghost var g := b.Cells();
        FillResultBoard(s, b, r);
        NothingAddedReadsZero(s.model, g);
        return 1;
      }
    }
    return 0;
  }
}

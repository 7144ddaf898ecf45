/**
 * The Z3 back-end of src/rgol.cpp: building the constraints for a board t1,
 * reading the previous state t0 back from a model, and the two searches,
 * solve_iter (a descending sequence of bounded checks) and solve (a single
 * optimising check).
 */
module Rgol {
  import opened Wrappers
  import opened RowMajor
  import opened Matrices
  import opened Life
  import opened Z3
  import opened Encoding
  import opened CInt

  /** A C++ `unsigned`. */
  type u32 = x: nat | x < 0x1_0000_0000

  /**
   * time_it: after a block that took k milliseconds, the remaining timeout
   * drops by k, or to zero when k is not below it.
   */
  function TimeIt(timeout: u32, k: nat): (r: u32)
    ensures r <= timeout
    ensures r > 0 <==> k < timeout
    ensures r > 0 ==> r + k == timeout
  {
    if k < timeout then timeout - k else 0
  }

  /** Every entry of a result board is 0 or 1. */
  predicate ZeroOne(t: seq<seq<int>>)
  {
    forall i, j :: 0 <= i < |t| && 0 <= j < |t[i]| ==> t[i][j] == 0 || t[i][j] == 1
  }

  /** The board fill_t0 writes from a model: 1 where the model makes the t0 entry true. */
  function Extracted(a: Assignment, ct0: seq<seq<Expr>>, n: nat, m: nat): (t: seq<seq<int>>)
    requires IsGrid(ct0, n, m)
    ensures IsGrid(t, n, m)
  {
    seq(n, i requires 0 <= i < n => seq(m, j requires 0 <= j < m => if Eval(a, ct0[i][j]) then 1 else 0))
  }

  /** Read back through the named t0 constants, the extracted board is the model's board. */
  lemma ExtractedBoard(a: Assignment, n: nat, m: nat)
    ensures ZeroOne(Extracted(a, Symbols0(n, m), n, m))
    ensures Alive(Extracted(a, Symbols0(n, m), n, m)) == ModelGrid(a, n, m)
  {
    var t := Extracted(a, Symbols0(n, m), n, m);
    forall i | 0 <= i < n ensures Alive(t)[i] == ModelGrid(a, n, m)[i] {
    }
  }

  /** neigh_sum: the 0/1 terms of the t0 entries around (i, j) that pass the bounds test. */
  method NeighSum(ct0: Matrix<Expr>, i: nat, j: nat) returns (sum: seq<Expr>)
    requires ct0.Valid()
    ensures sum == NeighbourTerms(ct0.Rows(), ct0.n, ct0.m, Cell(i, j))
  {
    var n, m := ToInt32(ct0.n), ToInt32(ct0.m);
    ghost var g := ct0.Rows();
    sum := [];
    var k := 0;
    while k < |Offsets|
      invariant k <= |Offsets|
      invariant sum == TermsAt(g, CastNeighbourCells(ct0.n, ct0.m, i, j, k))
    {
      var d := Offsets[k];
      var x, y := ToInt32(d.0 + i), ToInt32(d.1 + j);
      ghost var before := CastNeighbourCells(ct0.n, ct0.m, i, j, k);
      CastNeighbourStep(ct0.n, ct0.m, i, j, k, x, y);
      if 0 <= x < n && 0 <= y < m {
        var e := ct0.At(x, y);
        TermsAtSnoc(g, before, Cell(x, y));
        sum := sum + [e.value];
      }
      k := k + 1;
    }
  }

  /**
   * init_repr: names every entry of ct0 and ct1 (t0_i_j and t1_i_j) and pins
   * each t1 constant to the given board.
   */
  method InitRepr(s: Solver, t1: Matrix<int>, ct1: Matrix<Expr>, ct0: Matrix<Expr>)
    requires t1.Valid() && ct1.Valid() && ct0.Valid()
    requires ct1.n == t1.n && ct1.m == t1.m && ct0.n == t1.n && ct0.m == t1.m
    requires ct0.base != ct1.base
    modifies s, ct1.base, ct0.base
    ensures s.Appended(AllPins(t1.Rows(), t1.n, t1.m))
    ensures ct0.Rows() == Symbols0(t1.n, t1.m) && ct1.Rows() == Symbols1(t1.n, t1.m)
  {
    var n, m := t1.n, t1.m;
    ghost var a0, prev0, prev1 := s.assertions, ct0.Rows(), ct1.Rows();
    OverlayStart(Symbols0(n, m), prev0, n, m);
    OverlayStart(Symbols1(n, m), prev1, n, m);
    CellsBeforeBounded(n, m, 0, 0);
    var i := 0;
    while i < n
      invariant i <= n
      invariant Filled(s, t1, ct1, ct0, i, 0, a0, prev1, prev0)
      invariant s.scopes == old(s.scopes) && s.objective == old(s.objective)
      invariant s.checks == old(s.checks) && s.last == old(s.last)
    {
      InitRow(s, t1, ct1, ct0, i, a0, prev1, prev0);
      i := i + 1;
    }
    EndCells(n, m);
    OverlayEnd(Symbols0(n, m), prev0, n, m);
    OverlayEnd(Symbols1(n, m), prev1, n, m);
  }

  /**
   * The state init_repr's double loop has reached at cell (i, j): the pins of
   * the cells before it follow the assertions a0 it started from, and those
   * cells' entries of ct0 and ct1 are named while the rest still hold prev0
   * and prev1.
   */
  ghost predicate Filled(s: Solver, t1: Matrix<int>, ct1: Matrix<Expr>, ct0: Matrix<Expr>, i: nat, j: nat,
                         a0: seq<Constraint>, prev1: seq<seq<Expr>>, prev0: seq<seq<Expr>>)
    reads s, t1.base, ct1.base, ct0.base
    requires t1.Valid() && ct1.Valid() && ct0.Valid()
    requires ct1.n == t1.n && ct1.m == t1.m && ct0.n == t1.n && ct0.m == t1.m
  {
    IsGrid(prev0, t1.n, t1.m) && IsGrid(prev1, t1.n, t1.m) &&
    (forall c :: c in CellsBefore(t1.m, i, j) ==> c.i < t1.n && c.j < t1.m) &&
    s.assertions == a0 + Pins(t1.Rows(), Symbols1(t1.n, t1.m), CellsBefore(t1.m, i, j)) &&
    ct0.Rows() == Overlay(Symbols0(t1.n, t1.m), prev0, t1.n, t1.m, i, j) &&
    ct1.Rows() == Overlay(Symbols1(t1.n, t1.m), prev1, t1.n, t1.m, i, j)
  }

  /** The inner loop of init_repr: names and pins the cells of row i. */
  method InitRow(s: Solver, t1: Matrix<int>, ct1: Matrix<Expr>, ct0: Matrix<Expr>, i: nat,
                 ghost a0: seq<Constraint>, ghost prev1: seq<seq<Expr>>, ghost prev0: seq<seq<Expr>>)
    requires t1.Valid() && ct1.Valid() && ct0.Valid()
    requires ct1.n == t1.n && ct1.m == t1.m && ct0.n == t1.n && ct0.m == t1.m
    requires ct0.base != ct1.base
    requires i < t1.n && Filled(s, t1, ct1, ct0, i, 0, a0, prev1, prev0)
    modifies s, ct1.base, ct0.base
    ensures Filled(s, t1, ct1, ct0, i + 1, 0, a0, prev1, prev0)
    ensures s.scopes == old(s.scopes) && s.objective == old(s.objective)
    ensures s.checks == old(s.checks) && s.last == old(s.last)
  {
    var j := 0;
    while j < t1.m
      invariant j <= t1.m
      invariant Filled(s, t1, ct1, ct0, i, j, a0, prev1, prev0)
      invariant s.scopes == old(s.scopes) && s.objective == old(s.objective)
      invariant s.checks == old(s.checks) && s.last == old(s.last)
    {
      InitCell(s, t1, ct1, ct0, i, j, a0, prev1, prev0);
      j := j + 1;
    }
    NextRow(s, t1, ct1, ct0, i, a0, prev1, prev0);
  }

  /** Reaching the end of row i is reaching the start of row i + 1. */
  lemma NextRow(s: Solver, t1: Matrix<int>, ct1: Matrix<Expr>, ct0: Matrix<Expr>, i: nat,
                a0: seq<Constraint>, prev1: seq<seq<Expr>>, prev0: seq<seq<Expr>>)
    requires t1.Valid() && ct1.Valid() && ct0.Valid()
    requires ct1.n == t1.n && ct1.m == t1.m && ct0.n == t1.n && ct0.m == t1.m
    requires i < t1.n && Filled(s, t1, ct1, ct0, i, t1.m, a0, prev1, prev0)
    ensures Filled(s, t1, ct1, ct0, i + 1, 0, a0, prev1, prev0)
  {
    var n, m := t1.n, t1.m;
    StepRow(m, i);
    OverlayRow(Symbols0(n, m), prev0, n, m, i);
    OverlayRow(Symbols1(n, m), prev1, n, m, i);
  }

  /**
   * The body of init_repr's loop for cell (i, j): names ct0(i, j) and
   * ct1(i, j) and pins ct1(i, j) to whether t1(i, j) is non-zero.
   */
  method InitCell(s: Solver, t1: Matrix<int>, ct1: Matrix<Expr>, ct0: Matrix<Expr>, i: nat, j: nat,
                  ghost a0: seq<Constraint>, ghost prev1: seq<seq<Expr>>, ghost prev0: seq<seq<Expr>>)
    requires t1.Valid() && ct1.Valid() && ct0.Valid()
    requires ct1.n == t1.n && ct1.m == t1.m && ct0.n == t1.n && ct0.m == t1.m
    requires ct0.base != ct1.base
    requires i < t1.n && j < t1.m && Filled(s, t1, ct1, ct0, i, j, a0, prev1, prev0)
    modifies s, ct1.base, ct0.base
    ensures Filled(s, t1, ct1, ct0, i, j + 1, a0, prev1, prev0)
    ensures s.scopes == old(s.scopes) && s.objective == old(s.objective)
    ensures s.checks == old(s.checks) && s.last == old(s.last)
  {
    var n, m := t1.n, t1.m;
    OverlayCell(Symbols0(n, m), prev0, n, m, i, j);
    OverlayCell(Symbols1(n, m), prev1, n, m, i, j);
    StepCell(m, i, j);
    CellsBeforeBounded(n, m, i, j + 1);
    PinsSnoc(t1.Rows(), Symbols1(n, m), CellsBefore(m, i, j), Cell(i, j));
    var _ := ct0.Set(i, j, Const(T0(i, j)));
    var _ := ct1.Set(i, j, Const(T1(i, j)));
    var v := t1.At(i, j);
    var e := ct1.At(i, j);
    s.Add(Pin(e.value, v.value != 0));
  }

  /**
   * add_clauses: asserts the Game of Life rule for every cell, in row-major
   * order, and returns the sum of the t0 entries.
   */
  method AddClauses(s: Solver, t1: Matrix<int>, ct1: Matrix<Expr>, ct0: Matrix<Expr>) returns (total: seq<Expr>)
    requires t1.Valid() && ct1.Valid() && ct0.Valid()
    requires ct1.n == t1.n && ct1.m == t1.m && ct0.n == t1.n && ct0.m == t1.m
    modifies s
    ensures s.Appended(GridRules(ct1.Rows(), ct0.Rows(), t1.n, t1.m))
    ensures total == GridTerms(ct0.Rows(), t1.n, t1.m)
  {
    var n, m := t1.n, t1.m;
    ghost var a0 := s.assertions;
    CellsBeforeBounded(n, m, 0, 0);
    total := [];
    var i := 0;
    while i < n
      invariant i <= n
      invariant Clauses(s, ct1, ct0, i, 0, a0, total)
      invariant s.scopes == old(s.scopes) && s.objective == old(s.objective)
      invariant s.checks == old(s.checks) && s.last == old(s.last)
    {
      var j := 0;
      while j < m
        invariant j <= m
        invariant Clauses(s, ct1, ct0, i, j, a0, total)
        invariant s.scopes == old(s.scopes) && s.objective == old(s.objective)
        invariant s.checks == old(s.checks) && s.last == old(s.last)
      {
        total := AddRule(s, ct1, ct0, i, j, a0, total);
        j := j + 1;
      }
      StepRow(m, i);
      i := i + 1;
    }
    EndCells(n, m);
  }

  /**
   * The state add_clauses has reached at cell (i, j): the rules of the cells
   * before it follow the assertions a0 it started from, and the running total
   * holds those cells' t0 entries.
   */
  ghost predicate Clauses(s: Solver, ct1: Matrix<Expr>, ct0: Matrix<Expr>, i: nat, j: nat,
                          a0: seq<Constraint>, total: seq<Expr>)
    reads s, ct1.base, ct0.base
    requires ct1.Valid() && ct0.Valid() && ct1.n == ct0.n && ct1.m == ct0.m
  {
    (forall c :: c in CellsBefore(ct0.m, i, j) ==> c.i < ct0.n && c.j < ct0.m) &&
    s.assertions == a0 + Rules(ct1.Rows(), ct0.Rows(), ct0.n, ct0.m, CellsBefore(ct0.m, i, j)) &&
    total == TermsAt(ct0.Rows(), CellsBefore(ct0.m, i, j))
  }

  /**
   * The body of add_clauses' loop for cell (i, j): adds the entry to the
   * total and asserts ct1(i, j) == (neigh == 3 || (ct0(i, j) && neigh == 2)).
   */
  method AddRule(s: Solver, ct1: Matrix<Expr>, ct0: Matrix<Expr>, i: nat, j: nat,
                 ghost a0: seq<Constraint>, total: seq<Expr>) returns (total': seq<Expr>)
    requires ct1.Valid() && ct0.Valid() && ct1.n == ct0.n && ct1.m == ct0.m
    requires i < ct0.n && j < ct0.m && Clauses(s, ct1, ct0, i, j, a0, total)
    modifies s
    ensures Clauses(s, ct1, ct0, i, j + 1, a0, total')
    ensures s.scopes == old(s.scopes) && s.objective == old(s.objective)
    ensures s.checks == old(s.checks) && s.last == old(s.last)
  {
    var n, m := ct0.n, ct0.m;
    ghost var g0, g1 := ct0.Rows(), ct1.Rows();
    StepCell(m, i, j);
    CellsBeforeBounded(n, m, i, j + 1);
    TermsAtSnoc(g0, CellsBefore(m, i, j), Cell(i, j));
    RulesSnoc(g1, g0, n, m, CellsBefore(m, i, j), Cell(i, j));
    var neigh := NeighSum(ct0, i, j);
    var self := ct0.At(i, j);
    var out := ct1.At(i, j);
    total' := total + [self.value];
    s.Add(Rule(out.value, self.value, neigh));
  }

  /** fill_t0: writes 1 to t0 where the model makes the ct0 entry true and 0 elsewhere. */
  method FillT0(s: Solver, ct0: Matrix<Expr>, t0: Matrix<int>)
    requires ct0.Valid() && t0.Valid() && t0.n == ct0.n && t0.m == ct0.m
    requires s.last.Sat?
    modifies t0.base
    ensures t0.Rows() == Extracted(s.Model(), ct0.Rows(), t0.n, t0.m)
  {
    var n, m := t0.n, t0.m;
    var a := s.Model();
    ghost var want, prev := Extracted(a, ct0.Rows(), n, m), t0.Rows();
    OverlayStart(want, prev, n, m);
    var i := 0;
    while i < n
      invariant i <= n
      invariant t0.Rows() == Overlay(want, prev, n, m, i, 0)
    {
      var j := 0;
      while j < m
        invariant j <= m
        invariant t0.Rows() == Overlay(want, prev, n, m, i, j)
      {
        OverlayCell(want, prev, n, m, i, j);
        var e := ct0.At(i, j);
        if Eval(a, e.value) {
          var _ := t0.Set(i, j, 1);
        } else {
          var _ := t0.Set(i, j, 0);
        }
        j := j + 1;
      }
      OverlayRow(want, prev, n, m, i);
      i := i + 1;
    }
    OverlayEnd(want, prev, n, m);
  }

  /** count_ones: the number of ct0 entries the model makes true. */
  method CountOnes(s: Solver, ct0: Matrix<Expr>) returns (sum: nat)
    requires ct0.Valid() && s.last.Sat?
    ensures sum == Sum(s.Model(), GridTerms(ct0.Rows(), ct0.n, ct0.m))
  {
    var n, m := ct0.n, ct0.m;
    CellsBeforeBounded(n, m, 0, 0);
    sum := 0;
    var i := 0;
    while i < n
      invariant i <= n
      invariant forall c :: c in CellsBefore(m, i, 0) ==> c.i < n && c.j < m
      invariant sum == Sum(s.Model(), TermsAt(ct0.Rows(), CellsBefore(m, i, 0)))
    {
      sum := CountRow(s, ct0, i, sum);
      i := i + 1;
    }
    EndCells(n, m);
    FullRowsMembers(n, m);
  }

  /** The inner loop of count_ones: adds the true entries of row i to the running sum. */
  method CountRow(s: Solver, ct0: Matrix<Expr>, i: nat, sum0: nat) returns (sum: nat)
    requires ct0.Valid() && s.last.Sat? && i < ct0.n
    requires forall c :: c in CellsBefore(ct0.m, i, 0) ==> c.i < ct0.n && c.j < ct0.m
    requires sum0 == Sum(s.Model(), TermsAt(ct0.Rows(), CellsBefore(ct0.m, i, 0)))
    ensures forall c :: c in CellsBefore(ct0.m, i + 1, 0) ==> c.i < ct0.n && c.j < ct0.m
    ensures sum == Sum(s.Model(), TermsAt(ct0.Rows(), CellsBefore(ct0.m, i + 1, 0)))
  {
    var n, m := ct0.n, ct0.m;
    var a := s.Model();
    ghost var g := ct0.Rows();
    sum := sum0;
    var j := 0;
    while j < m
      invariant j <= m
      invariant forall c :: c in CellsBefore(m, i, j) ==> c.i < n && c.j < m
      invariant sum == Sum(a, TermsAt(g, CellsBefore(m, i, j)))
    {
      var e := ct0.At(i, j);
      StepCell(m, i, j);
      CellsBeforeBounded(n, m, i, j + 1);
      SumTermsSnoc(a, g, CellsBefore(m, i, j), Cell(i, j));
      sum := sum + if Eval(a, e.value) then 1 else 0;
      j := j + 1;
    }
    StepRow(m, i);
    CellsBeforeBounded(n, m, i + 1, 0);
  }

  /** The timeout left for round r of solve_iter, when round k took elapsed(k) milliseconds. */
  function Remaining(timeout: u32, elapsed: nat -> nat, r: nat): (t: u32)
    ensures t <= timeout
    ensures r > 0 && t > 0 ==> t < timeout || elapsed(r - 1) == 0
  {
    if r == 0 then timeout else TimeIt(Remaining(timeout, elapsed, r - 1), elapsed(r - 1))
  }

  /**
   * The history of solve_iter's checks over the assertions `base` and the sum
   * `total`: round r asked the oracle about base and total <= bs[r] with the
   * then remaining timeout, the first bound is n*m as a size_t, and every round
   * but the last was satisfiable and set the next bound to its model's total.
   */
  ghost predicate Rounds(base: seq<Constraint>, total: seq<Expr>, first: nat, timeout: u32, elapsed: nat -> nat,
                         oracle: Oracle, vs: seq<Verdict>, bs: seq<nat>)
  {
    |bs| == |vs| &&
    (|vs| > 0 ==> bs[0] == first) &&
    (forall r :: 0 <= r < |vs| ==>
      Remaining(timeout, elapsed, r) > 0 &&
      vs[r] == oracle(r, base + [AtMost(total, bs[r])], None, Remaining(timeout, elapsed, r))) &&
    (forall r :: 0 <= r < |vs| - 1 ==> vs[r].Sat? && bs[r + 1] == Sum(vs[r].model, total))
  }

  /** A further round extends the history. */
  lemma RoundsSnoc(base: seq<Constraint>, total: seq<Expr>, first: nat, timeout: u32, elapsed: nat -> nat,
                   oracle: Oracle, vs: seq<Verdict>, bs: seq<nat>, v: Verdict, b: nat)
    requires Rounds(base, total, first, timeout, elapsed, oracle, vs, bs)
    requires Remaining(timeout, elapsed, |vs|) > 0
    requires v == oracle(|vs|, base + [AtMost(total, b)], None, Remaining(timeout, elapsed, |vs|))
    requires vs == [] ==> b == first
    requires vs != [] ==> vs[|vs| - 1].Sat? && b == Sum(vs[|vs| - 1].model, total)
    ensures Rounds(base, total, first, timeout, elapsed, oracle, vs + [v], bs + [b])
  {
    var vs', bs' := vs + [v], bs + [b];
    forall r | 0 <= r < |vs'|
      ensures Remaining(timeout, elapsed, r) > 0
      ensures vs'[r] == oracle(r, base + [AtMost(total, bs'[r])], None, Remaining(timeout, elapsed, r))
    {
      if r < |vs| {
        assert vs'[r] == vs[r] && bs'[r] == bs[r];
      } else {
        assert vs'[r] == v && bs'[r] == b;
      }
    }
    forall r | 0 <= r < |vs'| - 1 ensures vs'[r].Sat? && bs'[r + 1] == Sum(vs'[r].model, total) {
      assert vs'[r] == vs[r];
      if r + 1 < |vs| {
        assert bs'[r + 1] == bs[r + 1];
      } else {
        assert bs'[r + 1] == b;
      }
    }
  }

  /** The model of the last satisfiable round, when the first one was. */
  function LastModel(vs: seq<Verdict>): Assignment
    requires vs != [] && vs[0].Sat?
    requires forall r :: 0 <= r < |vs| - 1 ==> vs[r].Sat?
  {
    if vs[|vs| - 1].Sat? then vs[|vs| - 1].model else vs[|vs| - 2].model
  }

  /**
   * solve_iter: builds the encoding once, then checks it under the bounds
   * total <= max, starting from max = n*m and moving max to the live count of
   * each model found, while the int counter i (from (int)(n*m) down to 0)
   * and the timeout last; it stops at the first check that is not sat, and
   * t0 holds the last model found.
   */
  method SolveIter(t1: Matrix<int>, t0: Matrix<int>, timeout: u32, oracle: Oracle, elapsed: nat -> nat)
    returns (sat: bool, ghost vs: seq<Verdict>, ghost bs: seq<nat>)
    requires t1.Valid() && t0.Valid() && t0.n == t1.n && t0.m == t1.m
    requires Sound(oracle)
    modifies t0.base
    ensures Rounds(Base(old(t1.Rows()), t1.n, t1.m), Total(t1.n, t1.m), SizeT(t1.n * t1.m), timeout, elapsed, oracle, vs, bs)
    ensures |vs| <= if ToInt32(SizeT(t1.n * t1.m)) < 0 then 0 else ToInt32(SizeT(t1.n * t1.m)) + 1
    ensures (vs != [] && !vs[|vs| - 1].Sat?) || |vs| == ToInt32(SizeT(t1.n * t1.m)) + 1 ||
            ToInt32(SizeT(t1.n * t1.m)) < 0 || Remaining(timeout, elapsed, |vs|) == 0
    ensures sat <==> vs != [] && vs[0].Sat?
    ensures sat ==> ZeroOne(t0.Rows()) && Alive(t0.Rows()) == ModelGrid(LastModel(vs), t1.n, t1.m)
    ensures !sat ==> t0.Rows() == old(t0.Rows())
  {
    var n, m := t1.n, t1.m;
    var s, ct0, total := Encode(t1, t0);
    ghost var base, first := s.assertions, SizeT(n * m);
    sat := false;
    var max: nat := SizeT(t0.n * t0.m);
    var i := ToInt32(max);
    ghost var start := i;
    var budget, round := timeout, 0;
    vs, bs := [], [];
    while i >= 0 && budget != 0
      invariant round == |vs|
      invariant i == start - |vs|
      invariant |vs| <= if start < 0 then 0 else start + 1
      invariant budget == Remaining(timeout, elapsed, |vs|)
      invariant s.assertions == base && s.scopes == [] && s.objective == None && s.checks == |vs|
      invariant ct0.Valid() && ct0.n == n && ct0.m == m && ct0.Rows() == Symbols0(n, m) && total == Total(n, m)
      invariant Rounds(base, total, first, timeout, elapsed, oracle, vs, bs)
      invariant forall r :: 0 <= r < |vs| ==> vs[r].Sat?
      invariant max == if vs == [] then first else Sum(vs[|vs| - 1].model, total)
      invariant sat <==> vs != []
      invariant sat ==> t0.Rows() == Extracted(vs[|vs| - 1].model, Symbols0(n, m), n, m)
      invariant !sat ==> t0.Rows() == old(t0.Rows())
    {
      ghost var bound := max;
      var v;
      v, max := Round(s, ct0, t0, total, max, budget, oracle);
      RoundsSnoc(base, total, first, timeout, elapsed, oracle, vs, bs, v, bound);
      vs, bs := vs + [v], bs + [bound];
      if !v.Sat? {
        break;
      }
      sat := true;
      budget := TimeIt(budget, elapsed(round));
      i, round := i - 1, round + 1;
    }
    if sat {
      ExtractedBoard(LastModel(vs), n, m);
    }
  }

  /**
   * The start of solve_iter and solve: a fresh solver, ct0 and ct1 built
   * with null entries, then init_repr and add_clauses.
   */
  method Encode(t1: Matrix<int>, t0: Matrix<int>) returns (s: Solver, ct0: Matrix<Expr>, total: seq<Expr>)
    requires t1.Valid() && t0.Valid() && t0.n == t1.n && t0.m == t1.m
    ensures fresh(s) && fresh(ct0) && fresh(ct0.base)
    ensures s.assertions == Base(t1.Rows(), t1.n, t1.m) && s.scopes == [] && s.objective == None
    ensures s.checks == 0 && s.last == Unknown
    ensures ct0.Valid() && ct0.n == t1.n && ct0.m == t1.m && ct0.Rows() == Symbols0(t1.n, t1.m)
    ensures total == Total(t1.n, t1.m)
  {
    s := new Solver();
    ct0 := new Matrix<Expr>(t0.n, t0.m, Null);
    var ct1 := new Matrix<Expr>(t1.n, t1.m, Null);
    InitRepr(s, t1, ct1, ct0);
    total := AddClauses(s, t1, ct1, ct0);
  }

  /**
   * One round of solve_iter's loop: push, assert total <= max, check; on sat,
   * count the model's live cells, fill t0 and lower max when the count is
   * within max, and pop. A check that is not sat leaves the loop before pop.
   */
  method Round(s: Solver, ct0: Matrix<Expr>, t0: Matrix<int>, total: seq<Expr>, max: nat, budget: u32,
               oracle: Oracle) returns (v: Verdict, max': nat)
    requires Sound(oracle)
    requires ct0.Valid() && t0.Valid() && t0.n == ct0.n && t0.m == ct0.m
    requires total == GridTerms(ct0.Rows(), ct0.n, ct0.m) && s.scopes == []
    modifies s, t0.base
    ensures v == oracle(old(s.checks), old(s.assertions) + [AtMost(total, max)], old(s.objective), budget)
    ensures s.checks == old(s.checks) + 1
    ensures v.Sat? ==> s.assertions == old(s.assertions) && s.scopes == [] && s.objective == old(s.objective)
    ensures v.Sat? ==> max' == Sum(v.model, total) <= max
    ensures v.Sat? ==> t0.Rows() == Extracted(v.model, ct0.Rows(), ct0.n, ct0.m)
    ensures !v.Sat? ==> t0.Rows() == old(t0.Rows())
  {
    max' := max;
    s.Push();
    s.Add(AtMost(total, max));
    v := s.Check(oracle, budget);
    if v.Sat? {
      var cur := CountOnes(s, ct0);
      SatisfiesAtMost(v.model, old(s.assertions), total, max);
      if cur <= max {
        FillT0(s, ct0, t0);
        max' := cur;
      }
      s.Pop();
    }
  }

  /**
   * Because max moves to the model's own count (total <= count, not
   * total <= count - 1), the model of one round still meets the next bound:
   * after a sat round no check can come back unsat, only sat or unknown.
   */
  lemma NoUnsatAfterSat(base: seq<Constraint>, total: seq<Expr>, first: nat, timeout: u32, elapsed: nat -> nat,
                        oracle: Oracle, vs: seq<Verdict>, bs: seq<nat>)
    requires Sound(oracle) && Rounds(base, total, first, timeout, elapsed, oracle, vs, bs)
    ensures forall r :: 0 < r < |vs| ==> !vs[r].Unsat?
  {
    forall r | 0 < r < |vs| ensures !vs[r].Unsat? {
      var a := vs[r - 1].model;
      var q := base + [AtMost(total, bs[r - 1])];
      assert Answers(oracle(r - 1, q, None, Remaining(timeout, elapsed, r - 1)), q, None);
      SatisfiesAtMost(a, base, total, bs[r - 1]);
      SatisfiesAtMost(a, base, total, bs[r]);
      var q' := base + [AtMost(total, bs[r])];
      assert Answers(oracle(r, q', None, Remaining(timeout, elapsed, r)), q', None);
    }
  }

  /** Each satisfiable round's model is a model of base whose total is within that round's bound, and the bounds never grow. */
  lemma RoundModels(base: seq<Constraint>, total: seq<Expr>, first: nat, timeout: u32, elapsed: nat -> nat,
                    oracle: Oracle, vs: seq<Verdict>, bs: seq<nat>)
    requires Sound(oracle) && Rounds(base, total, first, timeout, elapsed, oracle, vs, bs)
    ensures forall r :: 0 <= r < |vs| && vs[r].Sat? ==> Satisfies(vs[r].model, base) && Sum(vs[r].model, total) <= bs[r]
    ensures forall r :: 0 < r < |vs| ==> bs[r] <= bs[r - 1]
  {
    forall r | 0 <= r < |vs| && vs[r].Sat?
      ensures Satisfies(vs[r].model, base) && Sum(vs[r].model, total) <= bs[r]
    {
      var q := base + [AtMost(total, bs[r])];
      assert Answers(oracle(r, q, None, Remaining(timeout, elapsed, r)), q, None);
      SatisfiesAtMost(vs[r].model, base, total, bs[r]);
    }
  }

  /** The last model found is within every bound of the history. */
  lemma {:induction false} LastModelWithin(base: seq<Constraint>, total: seq<Expr>, first: nat, timeout: u32,
                                            elapsed: nat -> nat, oracle: Oracle, vs: seq<Verdict>, bs: seq<nat>)
    requires Sound(oracle) && Rounds(base, total, first, timeout, elapsed, oracle, vs, bs)
    requires vs != [] && vs[0].Sat?
    ensures Satisfies(LastModel(vs), base)
    ensures forall r :: 0 <= r < |vs| ==> Sum(LastModel(vs), total) <= bs[r]
  {
    RoundModels(base, total, first, timeout, elapsed, oracle, vs, bs);
    var k := if vs[|vs| - 1].Sat? then |vs| - 1 else |vs| - 2;
    assert LastModel(vs) == vs[k].model;
    forall r | 0 <= r < |vs| ensures Sum(LastModel(vs), total) <= bs[r] {
      if r <= k {
        BoundsBelow(bs, r, k);
      } else {
        assert r == k + 1 && bs[r] == Sum(vs[k].model, total);
      }
    }
  }

  lemma {:induction false} BoundsBelow(bs: seq<nat>, r: nat, k: nat)
    requires r <= k < |bs|
    requires forall p :: 0 < p < |bs| ==> bs[p] <= bs[p - 1]
    ensures bs[k] <= bs[r]
  {
    if r < k {
      BoundsBelow(bs, r, k - 1);
    }
  }

  /**
   * On a board that fits, what solve_iter leaves in t0 after a sat first
   * round is a previous state of t1 whose population is within every bound it
   * checked, and an unsat first round (whose bound n*m every board meets)
   * means t1 has no previous state at all.
   */
  lemma IterOutcome(t1: seq<seq<int>>, n: nat, m: nat, timeout: u32, elapsed: nat -> nat, oracle: Oracle,
                    vs: seq<Verdict>, bs: seq<nat>)
    requires Fits(n, m) && IsGrid(t1, n, m) && Sound(oracle)
    requires Rounds(Base(t1, n, m), Total(n, m), SizeT(n * m), timeout, elapsed, oracle, vs, bs)
    ensures vs != [] && vs[0].Sat? ==>
      Predecessor(ModelGrid(LastModel(vs), n, m), Alive(t1), n, m) &&
      forall r :: 0 <= r < |vs| ==> Population(ModelGrid(LastModel(vs), n, m), n, m) <= bs[r]
    ensures vs != [] && vs[0].Unsat? ==> forall g :: !Predecessor(g, Alive(t1), n, m)
  {
    var base, total := Base(t1, n, m), Total(n, m);
    if vs != [] && vs[0].Sat? {
      LastModelWithin(base, total, SizeT(n * m), timeout, elapsed, oracle, vs, bs);
      EncodingSound(LastModel(vs), t1, n, m);
      TotalIsPopulation(LastModel(vs), n, m);
    }
    if vs != [] && vs[0].Unsat? {
      FitsArea(n, m);
      var q := base + [AtMost(total, bs[0])];
      assert Answers(oracle(0, q, None, Remaining(timeout, elapsed, 0)), q, None);
      NoModelNoPredecessor(t1, n, m, bs[0]);
    }
  }

  /**
   * solve_iter reports sat exactly when its first check is made and answers
   * sat: the int counter starts non-negative, the timeout is not zero, and
   * the oracle finds a model of the base with total <= n*m.
   */
  lemma {:induction false} FirstRound(base: seq<Constraint>, total: seq<Expr>, first: nat, start: int, timeout: u32,
                                      elapsed: nat -> nat, oracle: Oracle, vs: seq<Verdict>, bs: seq<nat>)
    requires Rounds(base, total, first, timeout, elapsed, oracle, vs, bs)
    requires |vs| <= if start < 0 then 0 else start + 1
    requires (vs != [] && !vs[|vs| - 1].Sat?) || |vs| == start + 1 || start < 0 || Remaining(timeout, elapsed, |vs|) == 0
    ensures (vs != [] && vs[0].Sat?) <==>
            start >= 0 && timeout != 0 && oracle(0, base + [AtMost(total, first)], None, timeout).Sat?
  {
    if vs != [] {
      assert Remaining(timeout, elapsed, 0) == timeout;
      assert vs[0] == oracle(0, base + [AtMost(total, bs[0])], None, Remaining(timeout, elapsed, 0));
    } else {
      assert Remaining(timeout, elapsed, 0) == timeout;
    }
  }

  /**
   * The int counter of solve_iter starts at (int)(n*m): on a 46341 x 46341
   * board, which fits, it starts negative and no check is made at all.
   */
  lemma WideBoardMakesNoCheck()
    ensures Fits(46341, 46341) && ToInt32(SizeT(46341 * 46341)) < 0
  {
  }

  /**
   * solve: builds the encoding on an optimising solver, minimises the total
   * and makes one check under the timeout; a sat check fills t0.
   */
  method Solve(t1: Matrix<int>, t0: Matrix<int>, timeout: u32, oracle: Oracle) returns (sat: bool, ghost v: Verdict)
    requires t1.Valid() && t0.Valid() && t0.n == t1.n && t0.m == t1.m
    requires Sound(oracle)
    modifies t0.base
    ensures v == oracle(0, Base(old(t1.Rows()), t1.n, t1.m), Some(Total(t1.n, t1.m)), timeout)
    ensures sat <==> v.Sat?
    ensures sat ==> ZeroOne(t0.Rows()) && Alive(t0.Rows()) == ModelGrid(v.model, t1.n, t1.m)
    ensures !sat ==> t0.Rows() == old(t0.Rows())
  {
    var s, ct0, total := Encode(t1, t0);
    sat := false;
    s.Minimize(total);
    var verdict := s.Check(oracle, timeout);
    v := verdict;
    if verdict.Sat? {
      FillT0(s, ct0, t0);
      ExtractedBoard(verdict.model, t1.n, t1.m);
      sat := true;
    }
  }

  /**
   * On a board that fits, a sat answer of solve's check is a previous state
   * of t1 with the smallest population of all previous states, and an unsat
   * answer means there is none.
   */
  lemma SolveOutcome(t1: seq<seq<int>>, n: nat, m: nat, timeout: u32, oracle: Oracle)
    requires Fits(n, m) && IsGrid(t1, n, m) && Sound(oracle)
    ensures var v := oracle(0, Base(t1, n, m), Some(Total(n, m)), timeout);
      (v.Sat? ==>
        Predecessor(ModelGrid(v.model, n, m), Alive(t1), n, m) &&
        forall g :: Predecessor(g, Alive(t1), n, m) ==> Population(ModelGrid(v.model, n, m), n, m) <= Population(g, n, m)) &&
      (v.Unsat? ==> forall g :: !Predecessor(g, Alive(t1), n, m))
  {
    var v := oracle(0, Base(t1, n, m), Some(Total(n, m)), timeout);
    assert Answers(v, Base(t1, n, m), Some(Total(n, m)));
    if v.Sat? {
      OptimalModel(v.model, t1, n, m);
    }
    if v.Unsat? {
      NoModelAtAll(t1, n, m);
    }
  }
}

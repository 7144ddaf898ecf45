/**
 * The constraint system that src/rgol.cpp builds for a board t1, and the
 * theorems that make it an encoding of "t0 is a previous state of t1":
 * every model of it is a previous state, every previous state gives a model,
 * and the sum it minimises is the population of t0.
 */
module Encoding {
  import opened Wrappers
  import opened RowMajor
  import opened Life
  import opened Z3
  import opened CInt

  predicate Within<X>(g: seq<seq<X>>, cs: seq<Cell>)
  {
    forall c :: c in cs ==> c.i < |g| && c.j < |g[c.i]|
  }

  function Lookup<X>(g: seq<seq<X>>, c: Cell): X
    requires c.i < |g| && c.j < |g[c.i]|
  {
    g[c.i][c.j]
  }

  /** The entries of g at the cells cs, in that order. */
  function TermsAt(g: seq<seq<Expr>>, cs: seq<Cell>): (ts: seq<Expr>)
    requires Within(g, cs)
    ensures |ts| == |cs|
  {
    seq(|cs|, k requires 0 <= k < |cs| => assert cs[k] in cs; Lookup(g, cs[k]))
  }

  lemma TermsAtSnoc(g: seq<seq<Expr>>, cs: seq<Cell>, c: Cell)
    requires Within(g, cs + [c])
    ensures Within(g, cs) && c.i < |g| && c.j < |g[c.i]|
    ensures TermsAt(g, cs + [c]) == TermsAt(g, cs) + [Lookup(g, c)]
  {
    assert c in cs + [c];
    assert forall d :: d in cs ==> d in cs + [c];
  }

  lemma TermsAtConcat(g: seq<seq<Expr>>, xs: seq<Cell>, ys: seq<Cell>)
    requires Within(g, xs + ys)
    ensures Within(g, xs) && Within(g, ys)
    ensures TermsAt(g, xs + ys) == TermsAt(g, xs) + TermsAt(g, ys)
  {
    assert forall d :: d in xs ==> d in xs + ys;
    assert forall d :: d in ys ==> d in xs + ys;
  }

  /** One more cell adds its entry's value to the sum of the entries. */
  lemma SumTermsSnoc(a: Assignment, g: seq<seq<Expr>>, cs: seq<Cell>, c: Cell)
    requires Within(g, cs + [c])
    ensures Within(g, cs) && c.i < |g| && c.j < |g[c.i]|
    ensures Sum(a, TermsAt(g, cs + [c])) == Sum(a, TermsAt(g, cs)) + (if Eval(a, g[c.i][c.j]) then 1 else 0)
  {
    TermsAtSnoc(g, cs, c);
    SumSnoc(a, TermsAt(g, cs), Lookup(g, c));
  }

  /** The matrices ct0 and ct1 once init_repr has named their entries. */
  function Symbols0(n: nat, m: nat): (g: seq<seq<Expr>>)
    ensures IsGrid(g, n, m)
  {
    seq(n, (i: nat) => seq(m, (j: nat) => Const(T0(i, j))))
  }

  function Symbols1(n: nat, m: nat): (g: seq<seq<Expr>>)
    ensures IsGrid(g, n, m)
  {
    seq(n, (i: nat) => seq(m, (j: nat) => Const(T1(i, j))))
  }

  /** ct1(c) == (t1(c) ? true : false) for each cell c of cs. */
  function Pins(t1: seq<seq<int>>, ct1: seq<seq<Expr>>, cs: seq<Cell>): (ps: seq<Constraint>)
    requires Within(t1, cs) && Within(ct1, cs)
    ensures |ps| == |cs|
  {
    seq(|cs|, k requires 0 <= k < |cs| => assert cs[k] in cs; Pin(Lookup(ct1, cs[k]), Lookup(t1, cs[k]) != 0))
  }

  lemma PinsSnoc(t1: seq<seq<int>>, ct1: seq<seq<Expr>>, cs: seq<Cell>, c: Cell)
    requires Within(t1, cs + [c]) && Within(ct1, cs + [c])
    ensures Within(t1, cs) && Within(ct1, cs) && c.i < |t1| && c.j < |t1[c.i]| && c.i < |ct1| && c.j < |ct1[c.i]|
    ensures Pins(t1, ct1, cs + [c]) == Pins(t1, ct1, cs) + [Pin(Lookup(ct1, c), Lookup(t1, c) != 0)]
  {
    assert c in cs + [c];
    assert forall d :: d in cs ==> d in cs + [c];
  }

  lemma PinsConcat(t1: seq<seq<int>>, ct1: seq<seq<Expr>>, xs: seq<Cell>, ys: seq<Cell>)
    requires Within(t1, xs + ys) && Within(ct1, xs + ys)
    ensures Within(t1, xs) && Within(ct1, xs) && Within(t1, ys) && Within(ct1, ys)
    ensures Pins(t1, ct1, xs + ys) == Pins(t1, ct1, xs) + Pins(t1, ct1, ys)
  {
    assert forall d :: d in xs ==> d in xs + ys;
    assert forall d :: d in ys ==> d in xs + ys;
  }

  /** The sum neigh_sum builds for cell c. */
  function NeighbourTerms(ct0: seq<seq<Expr>>, n: nat, m: nat, c: Cell): seq<Expr>
    requires IsGrid(ct0, n, m)
  {
    TermsAt(ct0, CastNeighbourCells(n, m, c.i, c.j, |Offsets|))
  }

  /** The Game of Life rule asserted by add_clauses for each cell of cs. */
  function Rules(ct1: seq<seq<Expr>>, ct0: seq<seq<Expr>>, n: nat, m: nat, cs: seq<Cell>): (rs: seq<Constraint>)
    requires IsGrid(ct1, n, m) && IsGrid(ct0, n, m)
    requires forall c :: c in cs ==> c.i < n && c.j < m
    ensures |rs| == |cs|
  {
    seq(|cs|, k requires 0 <= k < |cs| =>
      assert cs[k] in cs;
      Rule(Lookup(ct1, cs[k]), Lookup(ct0, cs[k]), NeighbourTerms(ct0, n, m, cs[k])))
  }

  /** What init_repr asserts for the board t1. */
  function AllPins(t1: seq<seq<int>>, n: nat, m: nat): (ps: seq<Constraint>)
    requires IsGrid(t1, n, m)
    ensures |ps| == |AllCells(n, m)|
  {
    FullRowsMembers(n, m);
    Pins(t1, Symbols1(n, m), AllCells(n, m))
  }

  /** What add_clauses asserts for the entries ct1 and ct0. */
  function GridRules(ct1: seq<seq<Expr>>, ct0: seq<seq<Expr>>, n: nat, m: nat): (rs: seq<Constraint>)
    requires IsGrid(ct1, n, m) && IsGrid(ct0, n, m)
    ensures |rs| == |AllCells(n, m)|
  {
    FullRowsMembers(n, m);
    Rules(ct1, ct0, n, m, AllCells(n, m))
  }

  /** What add_clauses asserts once init_repr has named the entries. */
  function AllRules(n: nat, m: nat): (rs: seq<Constraint>)
    ensures |rs| == |AllCells(n, m)|
  {
    GridRules(Symbols1(n, m), Symbols0(n, m), n, m)
  }

  lemma RulesSnoc(ct1: seq<seq<Expr>>, ct0: seq<seq<Expr>>, n: nat, m: nat, cs: seq<Cell>, c: Cell)
    requires IsGrid(ct1, n, m) && IsGrid(ct0, n, m)
    requires forall d :: d in cs ==> d.i < n && d.j < m
    requires c.i < n && c.j < m
    ensures forall d :: d in cs + [c] ==> d.i < n && d.j < m
    ensures Rules(ct1, ct0, n, m, cs + [c]) ==
      Rules(ct1, ct0, n, m, cs) + [Rule(Lookup(ct1, c), Lookup(ct0, c), NeighbourTerms(ct0, n, m, c))]
  {
    assert forall d :: d in cs + [c] ==> d in cs || d == c;
  }

  lemma RulesConcat(ct1: seq<seq<Expr>>, ct0: seq<seq<Expr>>, n: nat, m: nat, xs: seq<Cell>, ys: seq<Cell>)
    requires IsGrid(ct1, n, m) && IsGrid(ct0, n, m)
    requires forall d :: d in xs + ys ==> d.i < n && d.j < m
    ensures forall d :: d in xs ==> d.i < n && d.j < m
    ensures forall d :: d in ys ==> d.i < n && d.j < m
    ensures Rules(ct1, ct0, n, m, xs + ys) == Rules(ct1, ct0, n, m, xs) + Rules(ct1, ct0, n, m, ys)
  {
    assert forall d :: d in xs ==> d in xs + ys;
    assert forall d :: d in ys ==> d in xs + ys;
  }

  /** Everything init_repr and add_clauses assert for the board t1. */
  function Base(t1: seq<seq<int>>, n: nat, m: nat): (cs: seq<Constraint>)
    requires IsGrid(t1, n, m)
    ensures |cs| == 2 * |AllCells(n, m)|
  {
    AllPins(t1, n, m) + AllRules(n, m)
  }

  /** The entries of an n x m grid in row-major order. */
  function GridTerms(g: seq<seq<Expr>>, n: nat, m: nat): seq<Expr>
    requires IsGrid(g, n, m)
  {
    FullRowsMembers(n, m);
    TermsAt(g, AllCells(n, m))
  }

  /** The sum add_clauses returns: one term per t0 constant, in row-major order. */
  function Total(n: nat, m: nat): (ts: seq<Expr>)
    ensures |ts| == |AllCells(n, m)|
  {
    GridTerms(Symbols0(n, m), n, m)
  }

  /** A board of ints read as a Life board: non-zero is alive. */
  function Alive(t: seq<seq<int>>): (g: Grid)
    ensures |g| == |t|
    ensures forall i :: 0 <= i < |t| ==> |g[i]| == |t[i]|
    ensures forall i, j :: 0 <= i < |t| && 0 <= j < |t[i]| ==> (g[i][j] <==> t[i][j] != 0)
  {
    seq(|t|, i requires 0 <= i < |t| => seq(|t[i]|, j requires 0 <= j < |t[i]| => t[i][j] != 0))
  }

  /** The board t0 a model describes. */
  function ModelGrid(a: Assignment, n: nat, m: nat): (g: Grid)
    ensures IsGrid(g, n, m)
  {
    seq(n, (i: nat) => seq(m, (j: nat) => a(T0(i, j))))
  }

  predicate LiveAt(g: Grid, i: nat, j: nat)
  {
    i < |g| && j < |g[i]| && g[i][j]
  }

  /** The model that assigns g to the t0 constants and h to the t1 constants. */
  function Witness(g: Grid, h: Grid): Assignment
  {
    (v: Var) => if v.T0? then LiveAt(g, v.i, v.j) else LiveAt(h, v.i, v.j)
  }

  /** Counting true t0 terms is counting live cells of the model's board. */
  lemma {:induction false} SumSymbols(a: Assignment, n: nat, m: nat, cs: seq<Cell>)
    requires forall c :: c in cs ==> c.i < n && c.j < m
    ensures Sum(a, TermsAt(Symbols0(n, m), cs)) == CountLive(ModelGrid(a, n, m), cs)
  {
    if cs != [] {
      var init := cs[..|cs| - 1];
      assert forall c :: c in init ==> c in cs;
      SumSymbols(a, n, m, init);
      assert TermsAt(Symbols0(n, m), cs)[..|cs| - 1] == TermsAt(Symbols0(n, m), init);
    }
  }

  /** The minimised sum is the population of t0. */
  lemma TotalIsPopulation(a: Assignment, n: nat, m: nat)
    ensures Sum(a, Total(n, m)) == Population(ModelGrid(a, n, m), n, m)
  {
    FullRowsMembers(n, m);
    SumSymbols(a, n, m, AllCells(n, m));
  }

  lemma AllPinsAt(t1: seq<seq<int>>, n: nat, m: nat, k: nat)
    requires IsGrid(t1, n, m) && k < |AllCells(n, m)|
    ensures var c := AllCells(n, m)[k];
      c.i < n && c.j < m && AllPins(t1, n, m)[k] == Pin(Const(T1(c.i, c.j)), t1[c.i][c.j] != 0)
  {
    FullRowsMembers(n, m);
    assert AllCells(n, m)[k] in AllCells(n, m);
  }

  lemma AllRulesAt(n: nat, m: nat, k: nat)
    requires k < |AllCells(n, m)|
    ensures var c := AllCells(n, m)[k];
      c.i < n && c.j < m &&
      AllRules(n, m)[k] == Rule(Const(T1(c.i, c.j)), Const(T0(c.i, c.j)), NeighbourTerms(Symbols0(n, m), n, m, c))
  {
    FullRowsMembers(n, m);
    assert AllCells(n, m)[k] in AllCells(n, m);
  }

  /** One cell of a model's board evolves into the pinned value of that cell in t1. */
  lemma CellSound(a: Assignment, t1: seq<seq<int>>, n: nat, m: nat, i: nat, j: nat)
    requires Fits(n, m) && IsGrid(t1, n, m) && i < n && j < m
    requires Satisfies(a, Base(t1, n, m))
    ensures NextAlive(a(T0(i, j)), LiveNeighbours(ModelGrid(a, n, m), n, m, i, j)) == (t1[i][j] != 0)
  {
    var cs := AllCells(n, m);
    FullRowsMembers(n, m);
    assert Cell(i, j) in cs;
    var k :| 0 <= k < |cs| && cs[k] == Cell(i, j);
    var pins, rules := AllPins(t1, n, m), AllRules(n, m);
    SatisfiesConcat(a, pins, rules);
    assert Holds(a, pins[k]) && Holds(a, rules[k]);
    AllPinsAt(t1, n, m, k);
    AllRulesAt(n, m, k);
    CastNeighboursExact(n, m, i, j, |Offsets|);
    SumSymbols(a, n, m, Neighbours(n, m, i, j));
  }

  /** Every model of the constraints describes a previous state of t1. */
  lemma EncodingSound(a: Assignment, t1: seq<seq<int>>, n: nat, m: nat)
    requires Fits(n, m) && IsGrid(t1, n, m)
    requires Satisfies(a, Base(t1, n, m))
    ensures Predecessor(ModelGrid(a, n, m), Alive(t1), n, m)
  {
    var g := ModelGrid(a, n, m);
    forall i | 0 <= i < n ensures Step(g, n, m)[i] == Alive(t1)[i] {
      forall j | 0 <= j < m ensures Step(g, n, m)[i][j] == Alive(t1)[i][j] {
        CellSound(a, t1, n, m, i, j);
      }
    }
  }

  lemma WitnessBoard(g: Grid, h: Grid, n: nat, m: nat)
    requires IsGrid(g, n, m)
    ensures ModelGrid(Witness(g, h), n, m) == g
  {
    forall i | 0 <= i < n ensures ModelGrid(Witness(g, h), n, m)[i] == g[i] {
    }
  }

  /** The witness of a previous state meets the pin and the rule of the k-th cell. */
  lemma CellComplete(g: Grid, t1: seq<seq<int>>, n: nat, m: nat, k: nat)
    requires Fits(n, m) && IsGrid(t1, n, m)
    requires Predecessor(g, Alive(t1), n, m)
    requires k < |AllCells(n, m)|
    ensures Holds(Witness(g, Alive(t1)), AllPins(t1, n, m)[k])
    ensures Holds(Witness(g, Alive(t1)), AllRules(n, m)[k])
  {
    var w := Witness(g, Alive(t1));
    var cs := AllCells(n, m);
    FullRowsMembers(n, m);
    var c := cs[k];
    assert c in cs;
    WitnessBoard(g, Alive(t1), n, m);
    CastNeighboursExact(n, m, c.i, c.j, |Offsets|);
    SumSymbols(w, n, m, Neighbours(n, m, c.i, c.j));
    assert Step(g, n, m)[c.i][c.j] == Alive(t1)[c.i][c.j];
  }

  /** Every previous state of t1 is described by a model of the constraints. */
  lemma EncodingComplete(g: Grid, t1: seq<seq<int>>, n: nat, m: nat)
    requires Fits(n, m) && IsGrid(t1, n, m)
    requires Predecessor(g, Alive(t1), n, m)
    ensures Satisfies(Witness(g, Alive(t1)), Base(t1, n, m))
    ensures ModelGrid(Witness(g, Alive(t1)), n, m) == g
  {
    var w := Witness(g, Alive(t1));
    var cs := AllCells(n, m);
    var pins := AllPins(t1, n, m);
    var rules := AllRules(n, m);
    WitnessBoard(g, Alive(t1), n, m);
    forall k | 0 <= k < |cs| ensures Holds(w, pins[k]) && Holds(w, rules[k]) {
      CellComplete(g, t1, n, m, k);
    }
    SatisfiesConcat(w, pins, rules);
  }

  /** Constraints without a model leave t1 without a previous state. */
  lemma NoModelAtAll(t1: seq<seq<int>>, n: nat, m: nat)
    requires Fits(n, m) && IsGrid(t1, n, m)
    requires forall a :: !Satisfies(a, Base(t1, n, m))
    ensures forall g :: !Predecessor(g, Alive(t1), n, m)
  {
    forall g | Predecessor(g, Alive(t1), n, m) ensures false {
      EncodingComplete(g, t1, n, m);
    }
  }

  /** On a board that fits, the first bound n*m does not wrap around a 64-bit size_t. */
  lemma FitsArea(n: nat, m: nat)
    requires Fits(n, m)
    ensures n * m < 0x1_0000_0000_0000_0000
  {
    MulMonotone(n, 0x8000_0000, m);
    assert 0x8000_0000 * m == m * 0x8000_0000;
    MulMonotone(m, 0x8000_0000, 0x8000_0000);
  }

  /** A model within the bound describes a previous state whose population is within it. */
  lemma BoundedModel(a: Assignment, t1: seq<seq<int>>, n: nat, m: nat, b: nat)
    requires Fits(n, m) && IsGrid(t1, n, m)
    requires Satisfies(a, Base(t1, n, m) + [AtMost(Total(n, m), b)])
    ensures Predecessor(ModelGrid(a, n, m), Alive(t1), n, m)
    ensures Population(ModelGrid(a, n, m), n, m) <= b
  {
    SatisfiesConcat(a, Base(t1, n, m), [AtMost(Total(n, m), b)]);
    assert Holds(a, [AtMost(Total(n, m), b)][0]);
    EncodingSound(a, t1, n, m);
    TotalIsPopulation(a, n, m);
  }

  /** When the bound is at least the board size, no model means no previous state at all. */
  lemma NoModelNoPredecessor(t1: seq<seq<int>>, n: nat, m: nat, b: nat)
    requires Fits(n, m) && IsGrid(t1, n, m) && b >= n * m
    requires forall a :: !Satisfies(a, Base(t1, n, m) + [AtMost(Total(n, m), b)])
    ensures forall g :: !Predecessor(g, Alive(t1), n, m)
  {
    forall g | Predecessor(g, Alive(t1), n, m) ensures false {
      var w := Witness(g, Alive(t1));
      EncodingComplete(g, t1, n, m);
      TotalIsPopulation(w, n, m);
      PopulationBound(g, n, m);
      SatisfiesConcat(w, Base(t1, n, m), [AtMost(Total(n, m), b)]);
    }
  }

  /** No model within the bound means every previous state exceeds it. */
  lemma NoModelWithin(t1: seq<seq<int>>, n: nat, m: nat, b: nat)
    requires Fits(n, m) && IsGrid(t1, n, m)
    requires forall a :: !Satisfies(a, Base(t1, n, m) + [AtMost(Total(n, m), b)])
    ensures forall g :: Predecessor(g, Alive(t1), n, m) ==> Population(g, n, m) > b
  {
    forall g | Predecessor(g, Alive(t1), n, m) ensures Population(g, n, m) > b {
      var w := Witness(g, Alive(t1));
      EncodingComplete(g, t1, n, m);
      TotalIsPopulation(w, n, m);
      SatisfiesConcat(w, Base(t1, n, m), [AtMost(Total(n, m), b)]);
    }
  }

  /** A model minimising the total has the smallest population among all previous states. */
  lemma OptimalModel(a: Assignment, t1: seq<seq<int>>, n: nat, m: nat)
    requires Fits(n, m) && IsGrid(t1, n, m)
    requires Answers(Sat(a), Base(t1, n, m), Some(Total(n, m)))
    ensures Predecessor(ModelGrid(a, n, m), Alive(t1), n, m)
    ensures forall g :: Predecessor(g, Alive(t1), n, m) ==>
      Population(ModelGrid(a, n, m), n, m) <= Population(g, n, m)
  {
    EncodingSound(a, t1, n, m);
    TotalIsPopulation(a, n, m);
    forall g | Predecessor(g, Alive(t1), n, m)
      ensures Population(ModelGrid(a, n, m), n, m) <= Population(g, n, m)
    {
      var w := Witness(g, Alive(t1));
      EncodingComplete(g, t1, n, m);
      TotalIsPopulation(w, n, m);
    }
  }
}

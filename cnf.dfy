/**
 * The Kissat side of the C back-ends: the solver seen as the stream of
 * literals that `kissat_add` receives (a clause is its literals followed by
 * 0), the solver's answer as an abstract oracle, and the nested index loops
 * of src/solve.c and src/tmp/solveee.c that pick subsets of the neighbour
 * literals and turn each subset into one clause.
 */
module Cnf {
  import opened Life

  /** The answer of kissat_solve: its status (10 satisfiable, 20 unsatisfiable) and the assignment found. */
  datatype Answer = Answer(status: int, model: nat -> bool)

  /** kissat_solve as a function of the literals added so far. */
  type Oracle = seq<int> -> Answer

  /** Literal l is true under the assignment a. */
  predicate LitTrue(a: nat -> bool, l: int)
  {
    if l > 0 then a(l) else if l < 0 then !a(-l) else false
  }

  /** The variable of l occurs in the literals added so far. */
  predicate Occurs(lits: seq<int>, l: int)
  {
    l != 0 && (l in lits || -l in lits)
  }

  /**
   * kissat_value: 0 for a variable that never occurred in an added literal;
   * otherwise the literal itself when the assignment makes it true and its
   * negation when it makes it false.
   */
  function Value(a: nat -> bool, lits: seq<int>, l: int): (v: int)
    ensures v == 0 <==> !Occurs(lits, l)
    ensures Occurs(lits, l) ==> (v == l || v == -l) && (v == l <==> LitTrue(a, l))
  {
    if !Occurs(lits, l) then 0 else if LitTrue(a, l) then l else -l
  }

  /** Every clause has a true literal. */
  predicate Satisfies(a: nat -> bool, cs: seq<seq<int>>)
  {
    forall c :: c in cs ==> exists l :: l in c && LitTrue(a, l)
  }

  /** The oracle states satisfiability of the clauses it was given, and a satisfying assignment with it. */
  ghost predicate Sound(oracle: Oracle)
  {
    forall lits: seq<int> ::
      (oracle(lits).status == 10 ==> Satisfies(oracle(lits).model, Parse(lits))) &&
      (oracle(lits).status == 20 ==> forall a: nat -> bool :: !Satisfies(a, Parse(lits)))
  }

  /** A kissat instance: the literals passed to kissat_add, and the assignment of the last kissat_solve. */
  class Solver {
    var lits: seq<int>
    var model: nat -> bool

    /** kissat_init. */
    constructor ()
      ensures lits == []
    {
      lits := [];
      model := _ => false;
    }

    /** kissat_add: one more literal, or 0 to end the clause. */
    method Add(l: int)
      modifies this
      ensures lits == old(lits) + [l] && model == old(model)
    {
      lits := lits + [l];
    }

    /** kissat_solve: the oracle's status for the clauses added; its assignment becomes the one read back. */
    method Solve(oracle: Oracle) returns (status: int)
      modifies this
      ensures lits == old(lits)
      ensures status == oracle(lits).status && model == oracle(lits).model
    {
      status := oracle(lits).status;
      model := oracle(lits).model;
    }

    /** kissat_value(solver, l): 0 for a variable never added, else l or -l by the last assignment. */
    function ValueOf(l: int): (v: int)
      reads this
      ensures v == 0 <==> !Occurs(lits, l)
      ensures v != 0 ==> (v == l <==> LitTrue(model, l)) && (v == l || v == -l)
    {
      Value(model, lits, l)
    }
  }

  /** An empty formula is satisfiable, so a sound oracle never calls it unsatisfiable. */
  lemma NoClausesNotUnsat(oracle: Oracle)
    requires Sound(oracle)
    ensures oracle([]).status != 20
  {
    var a: nat -> bool := _ => false;
    assert Parse([]) == [];
    assert Satisfies(a, Parse([]));
  }

  // ----- The literal stream -----

  /** The literals kissat_add receives for the clauses cs: each clause followed by 0. */
  function Stream(cs: seq<seq<int>>): (s: seq<int>)
  {
    if cs == [] then [] else cs[0] + [0] + Stream(cs[1..])
  }

  lemma {:induction false} StreamConcat(xs: seq<seq<int>>, ys: seq<seq<int>>)
    ensures Stream(xs + ys) == Stream(xs) + Stream(ys)
  {
    if xs == [] {
      assert xs + ys == ys;
    } else {
      assert (xs + ys)[1..] == xs[1..] + ys;
      StreamConcat(xs[1..], ys);
    }
  }

  /** The position of the first 0 of s, or |s| when there is none. */
  function FirstZero(s: seq<int>): (k: nat)
    ensures k <= |s|
    ensures forall p :: 0 <= p < k ==> s[p] != 0
    ensures k < |s| ==> s[k] == 0
  {
    if s == [] then 0 else if s[0] == 0 then 0 else 1 + FirstZero(s[1..])
  }

  /** The clauses a solver reads from a literal stream; literals after the last 0 form no clause. */
  function Parse(s: seq<int>): (cs: seq<seq<int>>)
    ensures ZeroFree(cs)
    ensures |cs| <= |s|
    decreases |s|
  {
    var k := FirstZero(s);
    if k == |s| then [] else [s[..k]] + Parse(s[k + 1..])
  }

  predicate ZeroFree(cs: seq<seq<int>>)
  {
    forall c :: c in cs ==> 0 !in c
  }

  /** A clause without 0 ends exactly at the 0 that follows it. */
  lemma {:induction false} FirstZeroAfter(c: seq<int>, rest: seq<int>)
    requires 0 !in c
    ensures FirstZero(c + [0] + rest) == |c|
  {
    if c != [] {
      assert (c + [0] + rest)[1..] == c[1..] + [0] + rest;
      assert c[0] in c;
      assert forall x :: x in c[1..] ==> x in c;
      FirstZeroAfter(c[1..], rest);
    }
  }

  /** Reading back the stream gives the clauses: each clause is ended by exactly one 0. */
  lemma {:induction false} ParseStream(cs: seq<seq<int>>)
    requires ZeroFree(cs)
    ensures Parse(Stream(cs)) == cs
  {
    if cs != [] {
      var c, s := cs[0], Stream(cs);
      assert c in cs;
      FirstZeroAfter(c, Stream(cs[1..]));
      assert s[..|c|] == c;
      assert s[|c| + 1..] == Stream(cs[1..]);
      assert forall d :: d in cs[1..] ==> d in cs;
      ParseStream(cs[1..]);
      assert cs == [c] + cs[1..];
    }
  }

  // ----- Index subsets -----

  /** Index sequences all below n. */
  predicate InRange(t: seq<nat>, n: nat)
  {
    forall k :: 0 <= k < |t| ==> t[k] < n
  }

  /**
   * The r-element extensions of prefix by indices from `from` on that ok
   * accepts, in the order of r nested loops `for (i = from; i < |ok|; i++)`,
   * each inner loop starting after the index of the one around it and
   * skipping indices ok rejects.
   */
  function Tuples(ok: seq<bool>, prefix: seq<nat>, from: nat, r: nat): (ts: seq<seq<nat>>)
    ensures InRange(prefix, |ok|) ==> forall t :: t in ts ==> InRange(t, |ok|)
    decreases |ok| - from, r
  {
    if r == 0 then [prefix]
    else if from >= |ok| then []
    else
      (if ok[from] then Tuples(ok, prefix + [from], from + 1, r - 1) else []) + Tuples(ok, prefix, from + 1, r)
  }

  /** u is strictly increasing, starts at or after `from`, and holds only indices ok accepts. */
  predicate Chosen(ok: seq<bool>, u: seq<nat>, from: nat)
  {
    (forall k :: 0 <= k < |u| ==> from <= u[k] < |ok| && ok[u[k]]) &&
    (forall p, q :: 0 <= p < q < |u| ==> u[p] < u[q])
  }

  /** Every tuple is the prefix followed by r increasing accepted indices. */
  lemma {:induction false} TuplesShape(ok: seq<bool>, prefix: seq<nat>, from: nat, r: nat)
    ensures forall t :: t in Tuples(ok, prefix, from, r) ==>
      |t| == |prefix| + r && t[..|prefix|] == prefix && Chosen(ok, t[|prefix|..], from)
    decreases |ok| - from, r
  {
    if r > 0 && from < |ok| {
      var p := |prefix|;
      TuplesShape(ok, prefix + [from], from + 1, r - 1);
      TuplesShape(ok, prefix, from + 1, r);
      forall t | t in Tuples(ok, prefix, from, r)
        ensures |t| == p + r && t[..p] == prefix && Chosen(ok, t[p..], from)
      {
        if ok[from] && t in Tuples(ok, prefix + [from], from + 1, r - 1) {
          ChosenCons(ok, prefix, from, t);
        }
      }
    }
  }

  /** Picking `from` in front of indices chosen after it is a choice from `from` on. */
  lemma ChosenCons(ok: seq<bool>, prefix: seq<nat>, from: nat, t: seq<nat>)
    requires from < |ok| && ok[from]
    requires |t| > |prefix| && t[..|prefix| + 1] == prefix + [from] && Chosen(ok, t[|prefix| + 1..], from + 1)
    ensures t[..|prefix|] == prefix && Chosen(ok, t[|prefix|..], from)
  {
    var p := |prefix|;
    assert t[..p] == t[..p + 1][..p];
    assert t[p..] == [from] + t[p + 1..];
  }

  /** Every increasing sequence of accepted indices extends the prefix to one of the tuples. */
  lemma {:induction false} TuplesComplete(ok: seq<bool>, prefix: seq<nat>, from: nat, u: seq<nat>)
    requires Chosen(ok, u, from)
    ensures prefix + u in Tuples(ok, prefix, from, |u|)
    decreases |ok| - from
  {
    if u == [] {
      assert prefix + u == prefix;
    } else if u[0] == from {
      assert Chosen(ok, u[1..], from + 1);
      TuplesComplete(ok, prefix + [from], from + 1, u[1..]);
      assert prefix + [from] + u[1..] == prefix + u;
    } else {
      TuplesComplete(ok, prefix, from + 1, u);
    }
  }

  lemma DistinctConcat<X>(a: seq<X>, b: seq<X>)
    requires Distinct(a) && Distinct(b)
    requires forall x, y :: x in a && y in b ==> x != y
    ensures Distinct(a + b)
  {
    var c := a + b;
    forall p, q | 0 <= p < q < |c| ensures c[p] != c[q] {
      if p < |a| && q >= |a| {
        assert c[p] in a && c[q] in b;
      } else if p >= |a| {
        assert c[p] == b[p - |a|] && c[q] == b[q - |a|];
      }
    }
  }

  /** No tuple is listed twice, so each index set yields one clause. */
  lemma {:induction false} TuplesDistinct(ok: seq<bool>, prefix: seq<nat>, from: nat, r: nat)
    ensures Distinct(Tuples(ok, prefix, from, r))
    decreases |ok| - from, r
  {
    if r > 0 && from < |ok| {
      var a := if ok[from] then Tuples(ok, prefix + [from], from + 1, r - 1) else [];
      var b := Tuples(ok, prefix, from + 1, r);
      TuplesDistinct(ok, prefix + [from], from + 1, r - 1);
      TuplesDistinct(ok, prefix, from + 1, r);
      if ok[from] {
        TuplesApart(ok, prefix, from, r, a, b);
      }
      DistinctConcat(a, b);
    }
  }

  /** The tuples that pick `from` (a) and those that skip it (b) have nothing in common. */
  lemma TuplesApart(ok: seq<bool>, prefix: seq<nat>, from: nat, r: nat, a: seq<seq<nat>>, b: seq<seq<nat>>)
    requires r > 0 && from < |ok|
    requires a == Tuples(ok, prefix + [from], from + 1, r - 1) && b == Tuples(ok, prefix, from + 1, r)
    ensures forall x, y :: x in a && y in b ==> x != y
  {
    var p := |prefix|;
    TuplesShape(ok, prefix + [from], from + 1, r - 1);
    TuplesShape(ok, prefix, from + 1, r);
    forall x, y | x in a && y in b ensures x != y {
      assert x[p] == x[..p + 1][p] == from;
      assert y[p] == y[p..][0] >= from + 1;
    }
  }

  /** Binomial coefficient by Pascal's rule. */
  function Choose(n: nat, r: nat): nat
  {
    if r == 0 then 1 else if n == 0 then 0 else Choose(n - 1, r - 1) + Choose(n - 1, r)
  }

  lemma {:induction false} ChooseOne(n: nat)
    ensures Choose(n, 1) == n
  {
    if n > 0 {
      ChooseOne(n - 1);
    }
  }

  /** How many indices in [lo, hi) ok accepts. */
  function OkCount(ok: seq<bool>, lo: nat, hi: nat): (c: nat)
    requires hi <= |ok|
    ensures c <= hi - lo || hi <= lo
  {
    if hi <= lo then 0 else OkCount(ok, lo, hi - 1) + (if ok[hi - 1] then 1 else 0)
  }

  /** OkCount peels off its first index as well as its last. */
  lemma {:induction false} OkCountFront(ok: seq<bool>, lo: nat, hi: nat)
    requires lo < hi <= |ok|
    ensures OkCount(ok, lo, hi) == (if ok[lo] then 1 else 0) + OkCount(ok, lo + 1, hi)
  {
    if hi > lo + 1 {
      OkCountFront(ok, lo, hi - 1);
    }
  }

  lemma {:induction false} OkCountAll(n: nat, lo: nat, hi: nat)
    requires lo <= hi <= n
    ensures OkCount(seq(n, _ => true), lo, hi) == hi - lo
  {
    if hi > lo {
      OkCountAll(n, lo, hi - 1);
    }
  }

  /** There are Choose(c, r) tuples, c being the number of accepted indices from `from` on. */
  lemma {:induction false} TuplesCount(ok: seq<bool>, prefix: seq<nat>, from: nat, r: nat)
    ensures from <= |ok| ==> |Tuples(ok, prefix, from, r)| == Choose(OkCount(ok, from, |ok|), r)
    ensures from > |ok| ==> |Tuples(ok, prefix, from, r)| == Choose(0, r)
    decreases |ok| - from, r
  {
    if r > 0 && from < |ok| {
      TuplesCount(ok, prefix + [from], from + 1, r - 1);
      TuplesCount(ok, prefix, from + 1, r);
      OkCountFront(ok, from, |ok|);
      var c := OkCount(ok, from + 1, |ok|);
      var a := if ok[from] then Tuples(ok, prefix + [from], from + 1, r - 1) else [];
      assert |Tuples(ok, prefix, from, r)| == |a| + |Tuples(ok, prefix, from + 1, r)|;
      if ok[from] {
        assert Choose(c + 1, r) == Choose(c, r - 1) + Choose(c, r);
      }
    }
  }

  // ----- Clauses from subsets -----

  /** Where the rest of a clause comes from: nowhere, every other accepted index, or those after the last pick. */
  datatype Tail = NoTail | AllOthers(sign: int) | LaterOthers(sign: int)

  /**
   * A generator's clause pattern: fixed leading literals, the sign given to
   * the picked neighbour literals, and the literals of the remaining ones.
   */
  datatype Shape = Shape(head: seq<int>, pick: int, tail: Tail)

  /** sign * neigh[l] for each accepted l in [lo, hi) not in t, in index order. */
  function Others(neigh: seq<int>, ok: seq<bool>, sign: int, t: seq<nat>, lo: nat, hi: nat): seq<int>
    requires |ok| == |neigh| && hi <= |neigh|
  {
    if hi <= lo then []
    else Others(neigh, ok, sign, t, lo, hi - 1) + (if ok[hi - 1] && hi - 1 !in t then [sign * neigh[hi - 1]] else [])
  }

  /** The first index the tail may use. */
  function TailStart(tail: Tail, t: seq<nat>, n: nat): (lo: nat)
    requires InRange(t, n)
    ensures lo <= n
  {
    if tail.LaterOthers? && t != [] then t[|t| - 1] + 1 else 0
  }

  function Picked(neigh: seq<int>, sign: int, t: seq<nat>): (r: seq<int>)
    requires InRange(t, |neigh|)
    ensures |r| == |t|
  {
    seq(|t|, k requires 0 <= k < |t| => sign * neigh[t[k]])
  }

  function TailLits(neigh: seq<int>, ok: seq<bool>, tail: Tail, t: seq<nat>): seq<int>
    requires |ok| == |neigh| && InRange(t, |neigh|)
  {
    if tail.NoTail? then [] else Others(neigh, ok, tail.sign, t, TailStart(tail, t, |neigh|), |neigh|)
  }

  /** The clause a generator emits for the picked indices t. */
  function Clause(neigh: seq<int>, ok: seq<bool>, sh: Shape, t: seq<nat>): seq<int>
    requires |ok| == |neigh| && InRange(t, |neigh|)
  {
    sh.head + Picked(neigh, sh.pick, t) + TailLits(neigh, ok, sh.tail, t)
  }

  function Clauses(neigh: seq<int>, ok: seq<bool>, sh: Shape, ts: seq<seq<nat>>): (cs: seq<seq<int>>)
    requires |ok| == |neigh| && forall t :: t in ts ==> InRange(t, |neigh|)
    ensures |cs| == |ts|
  {
    seq(|ts|, k requires 0 <= k < |ts| => assert ts[k] in ts; Clause(neigh, ok, sh, ts[k]))
  }

  lemma ClausesConcat(neigh: seq<int>, ok: seq<bool>, sh: Shape, xs: seq<seq<nat>>, ys: seq<seq<nat>>)
    requires |ok| == |neigh| && forall t :: t in xs + ys ==> InRange(t, |neigh|)
    ensures forall t :: t in xs ==> t in xs + ys
    ensures forall t :: t in ys ==> t in xs + ys
    ensures Clauses(neigh, ok, sh, xs + ys) == Clauses(neigh, ok, sh, xs) + Clauses(neigh, ok, sh, ys)
  {
  }

  /** With no accepted index from `from` on, the loops pick no tuple of a positive size. */
  lemma {:induction false} NoneAcceptedNoTuples(ok: seq<bool>, prefix: seq<nat>, from: nat, r: nat)
    requires r > 0 && forall k :: from <= k < |ok| ==> !ok[k]
    ensures Tuples(ok, prefix, from, r) == []
    decreases |ok| - from
  {
    if from < |ok| {
      NoneAcceptedNoTuples(ok, prefix, from + 1, r);
    }
  }

  /** The literal stream of a generator: one clause per tuple, in loop order. */
  function Emit(neigh: seq<int>, ok: seq<bool>, sh: Shape, prefix: seq<nat>, from: nat, r: nat): seq<int>
    requires |ok| == |neigh| && InRange(prefix, |neigh|)
  {
    Stream(Clauses(neigh, ok, sh, Tuples(ok, prefix, from, r)))
  }

  /** The loop at one level: index `from` contributes its extensions, then the later indices theirs. */
  lemma EmitStep(neigh: seq<int>, ok: seq<bool>, sh: Shape, prefix: seq<nat>, from: nat, r: nat)
    requires |ok| == |neigh| && InRange(prefix, |neigh|)
    requires from < |ok| && r > 0
    ensures InRange(prefix + [from], |neigh|)
    ensures Emit(neigh, ok, sh, prefix, from, r) ==
      (if ok[from] then Emit(neigh, ok, sh, prefix + [from], from + 1, r - 1) else []) +
      Emit(neigh, ok, sh, prefix, from + 1, r)
  {
    var a := if ok[from] then Tuples(ok, prefix + [from], from + 1, r - 1) else [];
    var b := Tuples(ok, prefix, from + 1, r);
    ClausesConcat(neigh, ok, sh, a, b);
    StreamConcat(Clauses(neigh, ok, sh, a), Clauses(neigh, ok, sh, b));
    if !ok[from] {
      assert Clauses(neigh, ok, sh, a) == [];
    }
  }

  lemma EmitOne(neigh: seq<int>, ok: seq<bool>, sh: Shape, prefix: seq<nat>, from: nat)
    requires |ok| == |neigh| && InRange(prefix, |neigh|)
    ensures Emit(neigh, ok, sh, prefix, from, 0) == Clause(neigh, ok, sh, prefix) + [0]
  {
    assert Tuples(ok, prefix, from, 0) == [prefix];
    var cs := Clauses(neigh, ok, sh, [prefix]);
    assert cs == [Clause(neigh, ok, sh, prefix)];
    assert cs[1..] == [];
    assert Stream(cs) == cs[0] + [0] + Stream([]);
  }

  /** Emits the clause for the picked indices t: head, picks, tail, then 0. */
  method EmitClause(s: Solver, neigh: seq<int>, ok: seq<bool>, sh: Shape, t: seq<nat>)
    requires |ok| == |neigh| && InRange(t, |neigh|)
    modifies s
    ensures s.lits == old(s.lits) + Clause(neigh, ok, sh, t) + [0]
  {
    var k := 0;
    while k < |sh.head|
      invariant 0 <= k <= |sh.head|
      invariant s.lits == old(s.lits) + sh.head[..k]
    {
      s.Add(sh.head[k]);
      k := k + 1;
    }
    ghost var picked := Picked(neigh, sh.pick, t);
    k := 0;
    while k < |t|
      invariant 0 <= k <= |t|
      invariant s.lits == old(s.lits) + sh.head + picked[..k]
    {
      s.Add(sh.pick * neigh[t[k]]);
      assert picked[..k + 1] == picked[..k] + [picked[k]];
      k := k + 1;
    }
    assert picked[..k] == picked;
    if !sh.tail.NoTail? {
      var lo := TailStart(sh.tail, t, |neigh|);
      var l := lo;
      while l < |neigh|
        invariant lo <= l <= |neigh|
        invariant s.lits == old(s.lits) + sh.head + picked + Others(neigh, ok, sh.tail.sign, t, lo, l)
      {
        if ok[l] && l !in t {
          s.Add(sh.tail.sign * neigh[l]);
        }
        l := l + 1;
      }
    }
    s.Add(0);
  }

  /**
   * r nested loops, one per recursion level: level r runs its index from
   * `from` up, skipping what ok rejects, and hands the next index range to the
   * level inside it; the innermost level emits the clause.
   */
  method EmitTuples(s: Solver, neigh: seq<int>, ok: seq<bool>, sh: Shape, prefix: seq<nat>, from: nat, r: nat)
    requires |ok| == |neigh| && InRange(prefix, |neigh|)
    modifies s
    ensures s.lits == old(s.lits) + Emit(neigh, ok, sh, prefix, from, r)
    decreases r, 1
  {
    if r == 0 {
      EmitOne(neigh, ok, sh, prefix, from);
      EmitClause(s, neigh, ok, sh, prefix);
      return;
    }
    ghost var goal := old(s.lits) + Emit(neigh, ok, sh, prefix, from, r);
    var i: nat := from;
    while i < |ok|
      invariant s.lits + Emit(neigh, ok, sh, prefix, i, r) == goal
    {
      EmitLevel(s, neigh, ok, sh, prefix, i, r);
      i := i + 1;
    }
    assert Tuples(ok, prefix, i, r) == [];
  }

  /** One iteration of a level's loop: index i, when accepted, runs the levels inside with i picked. */
  method EmitLevel(s: Solver, neigh: seq<int>, ok: seq<bool>, sh: Shape, prefix: seq<nat>, i: nat, r: nat)
    requires |ok| == |neigh| && InRange(prefix, |neigh|)
    requires i < |ok| && r > 0
    modifies s
    ensures s.lits + Emit(neigh, ok, sh, prefix, i + 1, r) == old(s.lits) + Emit(neigh, ok, sh, prefix, i, r)
    decreases r, 0
  {
    EmitStep(neigh, ok, sh, prefix, i, r);
    if ok[i] {
      EmitTuples(s, neigh, ok, sh, prefix + [i], i + 1, r - 1);
    }
  }

  // ----- What a clause holds -----

  /** The literals ok accepts are nonzero, so none of them can be mistaken for a clause end. */
  predicate Literals(neigh: seq<int>, ok: seq<bool>)
    requires |ok| == |neigh|
  {
    forall l :: 0 <= l < |neigh| && ok[l] ==> neigh[l] != 0
  }

  /** The tail holds sign * neigh[l] exactly for the accepted l in [lo, hi) outside t. */
  lemma {:induction false} OthersMembers(neigh: seq<int>, ok: seq<bool>, sign: int, t: seq<nat>, lo: nat, hi: nat, x: int)
    requires |ok| == |neigh| && hi <= |neigh|
    ensures x in Others(neigh, ok, sign, t, lo, hi) <==>
      exists l :: lo <= l < hi && ok[l] && l !in t && x == sign * neigh[l]
  {
    if hi > lo {
      OthersMembers(neigh, ok, sign, t, lo, hi - 1, x);
    }
  }

  /** How many elements of t lie in [lo, hi). */
  function InCount(t: seq<nat>, lo: nat, hi: nat): nat
  {
    if hi <= lo then 0 else InCount(t, lo, hi - 1) + (if hi - 1 in t then 1 else 0)
  }

  lemma {:induction false} InCountSnoc(t: seq<nat>, x: nat, lo: nat, hi: nat)
    requires x !in t
    ensures InCount(t + [x], lo, hi) == InCount(t, lo, hi) + (if lo <= x < hi then 1 else 0)
  {
    if hi > lo {
      InCountSnoc(t, x, lo, hi - 1);
    }
  }

  /** A repetition-free t inside [lo, hi) has all of its elements counted. */
  lemma {:induction false} InCountAll(t: seq<nat>, lo: nat, hi: nat)
    requires Distinct(t) && forall k :: 0 <= k < |t| ==> lo <= t[k] < hi
    ensures InCount(t, lo, hi) == |t|
  {
    if t == [] {
      if hi > lo {
        InCountAll(t, lo, hi - 1);
      }
    } else {
      var u, x := t[..|t| - 1], t[|t| - 1];
      assert t == u + [x];
      assert Distinct(u);
      assert x !in u;
      InCountAll(u, lo, hi);
      InCountSnoc(u, x, lo, hi);
    }
  }

  /** The tail has one literal per accepted index of [lo, hi) that t does not hold. */
  lemma {:induction false} OthersLength(neigh: seq<int>, ok: seq<bool>, sign: int, t: seq<nat>, lo: nat, hi: nat)
    requires |ok| == |neigh| && hi <= |neigh|
    requires forall l :: lo <= l < hi && l in t ==> ok[l]
    ensures |Others(neigh, ok, sign, t, lo, hi)| + InCount(t, lo, hi) == OkCount(ok, lo, hi)
  {
    if hi > lo {
      OthersLength(neigh, ok, sign, t, lo, hi - 1);
    }
  }

  /** Picks inside [0, n) of an n-entry list, increasing and accepted: the tail over every other index has n' - |t| literals, n' counting the accepted ones. */
  lemma AllOthersLength(neigh: seq<int>, ok: seq<bool>, sign: int, t: seq<nat>)
    requires |ok| == |neigh| && Chosen(ok, t, 0)
    ensures |Others(neigh, ok, sign, t, 0, |neigh|)| == OkCount(ok, 0, |neigh|) - |t|
  {
    forall l | 0 <= l < |neigh| && l in t ensures ok[l] {
      var k :| 0 <= k < |t| && t[k] == l;
    }
    OthersLength(neigh, ok, sign, t, 0, |neigh|);
    InCountAll(t, 0, |neigh|);
  }

  /** A clause is free of 0 when its head is and the neighbour literals it uses are nonzero. */
  lemma ClauseZeroFree(neigh: seq<int>, ok: seq<bool>, sh: Shape, t: seq<nat>)
    requires |ok| == |neigh| && Chosen(ok, t, 0) && Literals(neigh, ok)
    requires 0 !in sh.head && sh.pick != 0 && (sh.tail.NoTail? || sh.tail.sign != 0)
    ensures 0 !in Clause(neigh, ok, sh, t)
  {
    var picked := Picked(neigh, sh.pick, t);
    assert forall k :: 0 <= k < |t| ==> picked[k] != 0;
    if !sh.tail.NoTail? {
      var lo := TailStart(sh.tail, t, |neigh|);
      OthersMembers(neigh, ok, sh.tail.sign, t, lo, |neigh|, 0);
    }
  }

  /** Under those conditions the solver reads back exactly one clause per tuple. */
  lemma GeneratorParses(neigh: seq<int>, ok: seq<bool>, sh: Shape, r: nat)
    requires |ok| == |neigh| && Literals(neigh, ok)
    requires 0 !in sh.head && sh.pick != 0 && (sh.tail.NoTail? || sh.tail.sign != 0)
    ensures Parse(Emit(neigh, ok, sh, [], 0, r)) == Clauses(neigh, ok, sh, Tuples(ok, [], 0, r))
    ensures ZeroFree(Clauses(neigh, ok, sh, Tuples(ok, [], 0, r)))
  {
    var ts := Tuples(ok, [], 0, r);
    var cs := Clauses(neigh, ok, sh, ts);
    TuplesShape(ok, [], 0, r);
    forall c | c in cs ensures 0 !in c {
      var k :| 0 <= k < |cs| && cs[k] == c;
      assert ts[k] in ts;
      assert ts[k][0..] == ts[k];
      ClauseZeroFree(neigh, ok, sh, ts[k]);
    }
    ParseStream(cs);
  }

  /**
   * What a generator's stream holds: the solver reads back one clause per
   * r-element increasing sequence of accepted indices, every such sequence
   * exactly once, Choose(c, r) clauses in all, c being the number of accepted
   * indices.
   */
  lemma GeneratorFacts(neigh: seq<int>, ok: seq<bool>, sh: Shape, r: nat)
    requires |ok| == |neigh| && Literals(neigh, ok)
    requires 0 !in sh.head && sh.pick != 0 && (sh.tail.NoTail? || sh.tail.sign != 0)
    ensures Parse(Emit(neigh, ok, sh, [], 0, r)) == Clauses(neigh, ok, sh, Tuples(ok, [], 0, r))
    ensures |Tuples(ok, [], 0, r)| == Choose(OkCount(ok, 0, |ok|), r)
    ensures Distinct(Tuples(ok, [], 0, r))
    ensures forall t :: t in Tuples(ok, [], 0, r) <==> |t| == r && Chosen(ok, t, 0)
  {
    GeneratorParses(neigh, ok, sh, r);
    TuplesCount(ok, [], 0, r);
    TuplesDistinct(ok, [], 0, r);
    TuplesShape(ok, [], 0, r);
    forall t ensures t in Tuples(ok, [], 0, r) <==> |t| == r && Chosen(ok, t, 0) {
      if t in Tuples(ok, [], 0, r) {
        assert t[0..] == t;
      }
      if |t| == r && Chosen(ok, t, 0) {
        TuplesComplete(ok, [], 0, t);
        assert [] + t == t;
      }
    }
  }

  /**
   * A clause whose tail runs over all other accepted indices: the head, then
   * the picks with the pick sign, then one literal with the tail sign for
   * each accepted index not picked, c + |head| literals in all.
   */
  lemma AllOthersClause(neigh: seq<int>, ok: seq<bool>, sh: Shape, t: seq<nat>)
    requires |ok| == |neigh| && sh.tail.AllOthers? && Chosen(ok, t, 0)
    ensures InRange(t, |neigh|)
    ensures |Clause(neigh, ok, sh, t)| == |sh.head| + OkCount(ok, 0, |ok|)
    ensures Clause(neigh, ok, sh, t)[..|sh.head|] == sh.head
    ensures forall k :: 0 <= k < |t| ==> Clause(neigh, ok, sh, t)[|sh.head| + k] == sh.pick * neigh[t[k]]
    ensures forall k :: |sh.head| + |t| <= k < |Clause(neigh, ok, sh, t)| ==>
      exists l :: 0 <= l < |neigh| && ok[l] && l !in t && Clause(neigh, ok, sh, t)[k] == sh.tail.sign * neigh[l]
    ensures forall l :: 0 <= l < |neigh| && ok[l] && l !in t ==>
      sh.tail.sign * neigh[l] in Clause(neigh, ok, sh, t)[|sh.head| + |t|..]
  {
    var c := Clause(neigh, ok, sh, t);
    var others := Others(neigh, ok, sh.tail.sign, t, 0, |neigh|);
    AllOthersLength(neigh, ok, sh.tail.sign, t);
    assert OkCount(ok, 0, |neigh|) >= |t|;
    assert c[|sh.head| + |t|..] == others;
    forall k | |sh.head| + |t| <= k < |c|
      ensures exists l :: 0 <= l < |neigh| && ok[l] && l !in t && c[k] == sh.tail.sign * neigh[l]
    {
      assert c[k] in others;
      OthersMembers(neigh, ok, sh.tail.sign, t, 0, |neigh|, c[k]);
    }
    forall l | 0 <= l < |neigh| && ok[l] && l !in t ensures sh.tail.sign * neigh[l] in others {
      OthersMembers(neigh, ok, sh.tail.sign, t, 0, |neigh|, sh.tail.sign * neigh[l]);
    }
  }

  /** Two zero-free clause lists streamed one after the other read back as both lists, in order. */
  lemma ParseConcat(xs: seq<seq<int>>, ys: seq<seq<int>>)
    requires ZeroFree(xs) && ZeroFree(ys)
    ensures Parse(Stream(xs) + Stream(ys)) == xs + ys
  {
    StreamConcat(xs, ys);
    ParseStream(xs + ys);
  }

  predicate SameSign(x: int, y: int)
  {
    (x > 0 && y > 0) || (x < 0 && y < 0)
  }

  predicate Unit(v: int)
  {
    v == 1 || v == -1
  }

  /** Accepted literals are positive, as the absolute values of board literals are. */
  predicate PositiveLiterals(neigh: seq<int>, ok: seq<bool>)
    requires |ok| == |neigh|
  {
    forall l :: 0 <= l < |neigh| && ok[l] ==> neigh[l] > 0
  }

  /**
   * c starts with the head of sh, has r picks of the pick sign and then only
   * literals of the tail sign; with a tail over all other indices it is
   * |head| + accepted long.
   */
  predicate ShapedLike(c: seq<int>, sh: Shape, r: nat, accepted: nat)
  {
    |sh.head| + r <= |c| && c[..|sh.head|] == sh.head &&
    (forall k :: |sh.head| <= k < |sh.head| + r ==> SameSign(c[k], sh.pick)) &&
    (sh.tail.NoTail? ==> |c| == |sh.head| + r) &&
    (!sh.tail.NoTail? ==> forall k :: |sh.head| + r <= k < |c| ==> SameSign(c[k], sh.tail.sign)) &&
    (sh.tail.AllOthers? ==> |c| == |sh.head| + accepted)
  }

  lemma ClausePolarity(neigh: seq<int>, ok: seq<bool>, sh: Shape, t: seq<nat>)
    requires |ok| == |neigh| && PositiveLiterals(neigh, ok) && Chosen(ok, t, 0)
    requires Unit(sh.pick) && (sh.tail.NoTail? || Unit(sh.tail.sign))
    ensures InRange(t, |neigh|)
    ensures ShapedLike(Clause(neigh, ok, sh, t), sh, |t|, OkCount(ok, 0, |ok|))
  {
    var c := Clause(neigh, ok, sh, t);
    var picked := Picked(neigh, sh.pick, t);
    var tail := TailLits(neigh, ok, sh.tail, t);
    var h := |sh.head|;
    assert c == sh.head + picked + tail;
    forall k | h <= k < h + |t| ensures SameSign(c[k], sh.pick) {
      assert c[k] == picked[k - h] == sh.pick * neigh[t[k - h]];
    }
    if !sh.tail.NoTail? {
      var lo := TailStart(sh.tail, t, |neigh|);
      forall k | h + |t| <= k < |c| ensures SameSign(c[k], sh.tail.sign) {
        assert c[k] == tail[k - h - |t|];
        OthersMembers(neigh, ok, sh.tail.sign, t, lo, |neigh|, c[k]);
      }
    }
    if sh.tail.AllOthers? {
      AllOthersClause(neigh, ok, sh, t);
    }
  }

  /**
   * With the accepted literals positive, every clause of a generator's stream
   * is shaped like its pattern: head, r picks of the pick sign, then tail
   * literals of the tail sign.
   */
  lemma GeneratorPolarity(neigh: seq<int>, ok: seq<bool>, sh: Shape, r: nat)
    requires |ok| == |neigh| && PositiveLiterals(neigh, ok)
    requires 0 !in sh.head && Unit(sh.pick) && (sh.tail.NoTail? || Unit(sh.tail.sign))
    ensures forall c :: c in Parse(Emit(neigh, ok, sh, [], 0, r)) ==> ShapedLike(c, sh, r, OkCount(ok, 0, |ok|))
  {
    GeneratorParses(neigh, ok, sh, r);
    TuplesShape(ok, [], 0, r);
    var ts := Tuples(ok, [], 0, r);
    var cs := Clauses(neigh, ok, sh, ts);
    forall c | c in cs ensures ShapedLike(c, sh, r, OkCount(ok, 0, |ok|)) {
      var k :| 0 <= k < |cs| && cs[k] == c;
      assert ts[k] in ts;
      assert ts[k][0..] == ts[k];
      ClausePolarity(neigh, ok, sh, ts[k]);
    }
  }

  /** Every clause of a generator is the clause of some r increasing accepted indices. */
  lemma ClauseSource(neigh: seq<int>, ok: seq<bool>, sh: Shape, r: nat, c: seq<int>) returns (t: seq<nat>)
    requires |ok| == |neigh| && c in Clauses(neigh, ok, sh, Tuples(ok, [], 0, r))
    ensures |t| == r && Chosen(ok, t, 0) && InRange(t, |neigh|) && c == Clause(neigh, ok, sh, t)
  {
    var ts := Tuples(ok, [], 0, r);
    TuplesShape(ok, [], 0, r);
    var k :| 0 <= k < |ts| && Clauses(neigh, ok, sh, ts)[k] == c;
    assert ts[k] in ts;
    assert ts[k][0..] == ts[k];
    t := ts[k];
  }

  /** Every increasing sequence of accepted indices has its clause among the generator's. */
  lemma ClauseReached(neigh: seq<int>, ok: seq<bool>, sh: Shape, t: seq<nat>)
    requires |ok| == |neigh| && Chosen(ok, t, 0)
    ensures InRange(t, |neigh|)
    ensures Clause(neigh, ok, sh, t) in Clauses(neigh, ok, sh, Tuples(ok, [], 0, |t|))
  {
    TuplesComplete(ok, [], 0, t);
    assert [] + t == t;
    var ts := Tuples(ok, [], 0, |t|);
    var k :| 0 <= k < |ts| && ts[k] == t;
    assert Clauses(neigh, ok, sh, ts)[k] == Clause(neigh, ok, sh, t);
  }
}

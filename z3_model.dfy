/**
 * The part of the Z3 C++ API that the back-end in src/rgol.cpp relies on:
 * Boolean constants, 0/1 integer sums of them, the assertions it adds, a push
 * and pop stack, a minimisation objective, and `check`.
 *
 * The decision procedure itself is not modelled. A check is answered by an
 * oracle, and the only thing assumed about it is soundness: `sat` comes with a
 * model of the assertions (one that is optimal for the objective, when one is
 * set), `unsat` means the assertions have no model, and `unknown` (a timeout)
 * promises nothing.
 */
module Z3 {
  import opened Wrappers

  /** The Boolean constants t0_i_j and t1_i_j. */
  datatype Var = T0(i: nat, j: nat) | T1(i: nat, j: nat)

  /** A completed model: every constant has a value. */
  type Assignment = Var -> bool

  /** A Boolean expression: the null expression of a default-built z3::expr, or a constant. */
  datatype Expr = Null | Const(v: Var)

  function Eval(a: Assignment, e: Expr): bool
  {
    e.Const? && a(e.v)
  }

  /** The value of a sum of ite(e, 1, 0) terms: the number of true terms. */
  function Sum(a: Assignment, ts: seq<Expr>): (r: nat)
    ensures r <= |ts|
  {
    if ts == [] then 0
    else Sum(a, ts[..|ts| - 1]) + (if Eval(a, ts[|ts| - 1]) then 1 else 0)
  }

  lemma {:induction false} SumConcat(a: Assignment, x: seq<Expr>, y: seq<Expr>)
    ensures Sum(a, x + y) == Sum(a, x) + Sum(a, y)
  {
    if y == [] {
      assert x + y == x;
    } else {
      SumConcat(a, x, y[..|y| - 1]);
      assert (x + y)[..|x + y| - 1] == x + y[..|y| - 1];
    }
  }

  lemma SumSnoc(a: Assignment, ts: seq<Expr>, e: Expr)
    ensures Sum(a, ts + [e]) == Sum(a, ts) + (if Eval(a, e) then 1 else 0)
  {
    assert (ts + [e])[..|ts|] == ts;
  }

  /**
   * The assertions the back-end adds:
   *   Pin(e, v)          e == (v ? true : false)
   *   Rule(out, s, ns)   out == ite(sum(ns) == 3 || (s && sum(ns) == 2), true, false)
   *   AtMost(ts, b)      sum(ts) <= b
   */
  datatype Constraint =
    | Pin(e: Expr, value: bool)
    | Rule(out: Expr, self: Expr, neigh: seq<Expr>)
    | AtMost(total: seq<Expr>, bound: nat)

  predicate Holds(a: Assignment, c: Constraint)
  {
    match c
    case Pin(e, v) => Eval(a, e) == v
    case Rule(out, self, neigh) =>
      Eval(a, out) == (Sum(a, neigh) == 3 || (Eval(a, self) && Sum(a, neigh) == 2))
    case AtMost(t, b) => Sum(a, t) <= b
  }

  predicate Satisfies(a: Assignment, cs: seq<Constraint>)
  {
    forall k :: 0 <= k < |cs| ==> Holds(a, cs[k])
  }

  lemma SatisfiesConcat(a: Assignment, x: seq<Constraint>, y: seq<Constraint>)
    ensures Satisfies(a, x + y) <==> Satisfies(a, x) && Satisfies(a, y)
  {
    if Satisfies(a, x + y) {
      forall k | 0 <= k < |x| ensures Holds(a, x[k]) {
        assert (x + y)[k] == x[k];
      }
      forall k | 0 <= k < |y| ensures Holds(a, y[k]) {
        assert (x + y)[|x| + k] == y[k];
      }
    }
    if Satisfies(a, x) && Satisfies(a, y) {
      forall k | 0 <= k < |x + y| ensures Holds(a, (x + y)[k]) {
        if k >= |x| {
          assert (x + y)[k] == y[k - |x|];
        }
      }
    }
  }

  /** A model of cs and sum(ts) <= b is a model of cs whose sum is within b. */
  lemma SatisfiesAtMost(a: Assignment, cs: seq<Constraint>, ts: seq<Expr>, b: nat)
    ensures Satisfies(a, cs + [AtMost(ts, b)]) <==> Satisfies(a, cs) && Sum(a, ts) <= b
  {
    SatisfiesConcat(a, cs, [AtMost(ts, b)]);
    assert [AtMost(ts, b)][0] == AtMost(ts, b);
  }

  datatype Verdict = Sat(model: Assignment) | Unsat | Unknown

  /** Answers a check from the call number, the assertions, the objective and the timeout. */
  type Oracle = (nat, seq<Constraint>, Option<seq<Expr>>, nat) -> Verdict

  /** What a verdict promises about the assertions and the objective it answers. */
  ghost predicate Answers(v: Verdict, cs: seq<Constraint>, objective: Option<seq<Expr>>)
  {
    match v
    case Sat(a) =>
      Satisfies(a, cs) &&
      (objective.Some? ==> forall b :: Satisfies(b, cs) ==> Sum(a, objective.value) <= Sum(b, objective.value))
    case Unsat => forall b :: !Satisfies(b, cs)
    case Unknown => true
  }

  ghost predicate Sound(oracle: Oracle)
  {
    forall k, cs, objective, timeout :: Answers(oracle(k, cs, objective, timeout), cs, objective)
  }

  /**
   * A z3::solver or z3::optimize: the asserted constraints, the assertion counts
   * saved by push, the objective given to minimize, the number of checks so far
   * and the verdict of the last one (whose model get_model returns).
   */
  class Solver {
    var assertions: seq<Constraint>
    var scopes: seq<nat>
    var objective: Option<seq<Expr>>
    var checks: nat
    var last: Verdict

    constructor ()
      ensures assertions == [] && scopes == [] && objective == None && checks == 0 && last == Unknown
    {
      assertions, scopes, objective, checks, last := [], [], None, 0, Unknown;
    }

    /** Since the previous state, only `added` has been asserted, at the end. */
    twostate predicate Appended(added: seq<Constraint>)
      reads this
    {
      assertions == old(assertions) + added &&
      scopes == old(scopes) && objective == old(objective) &&
      checks == old(checks) && last == old(last)
    }

    /** solver.add(c) */
    method Add(c: Constraint)
      modifies this
      ensures assertions == old(assertions) + [c]
      ensures scopes == old(scopes) && objective == old(objective)
      ensures checks == old(checks) && last == old(last)
    {
      assertions := assertions + [c];
    }

    /** solver.push(): opens a scope that remembers how many assertions there are. */
    method Push()
      modifies this
      ensures scopes == old(scopes) + [|assertions|]
      ensures assertions == old(assertions) && objective == old(objective)
      ensures checks == old(checks) && last == old(last)
    {
      scopes := scopes + [|assertions|];
    }

    /**
     * solver.pop(): closes the innermost scope and drops what was asserted
     * since the matching push (which needs a scope to be open).
     */
    method Pop()
      requires scopes != [] && scopes[|scopes| - 1] <= |assertions|
      modifies this
      ensures scopes == old(scopes)[..|old(scopes)| - 1]
      ensures assertions == old(assertions)[..old(scopes)[|old(scopes)| - 1]]
      ensures objective == old(objective) && checks == old(checks) && last == old(last)
    {
      var mark := scopes[|scopes| - 1];
      scopes := scopes[..|scopes| - 1];
      assertions := assertions[..mark];
    }

    /** optimize.minimize(t) */
    method Minimize(t: seq<Expr>)
      modifies this
      ensures objective == Some(t)
      ensures assertions == old(assertions) && scopes == old(scopes)
      ensures checks == old(checks) && last == old(last)
    {
      objective := Some(t);
    }

    /** check() under the timeout set through the solver parameters. */
    method Check(oracle: Oracle, timeout: nat) returns (v: Verdict)
      requires Sound(oracle)
      modifies this
      ensures Answers(v, assertions, objective)
      ensures v == oracle(old(checks), assertions, objective, timeout)
      ensures last == v && checks == old(checks) + 1
      ensures assertions == old(assertions) && scopes == old(scopes) && objective == old(objective)
    {
      v := oracle(checks, assertions, objective, timeout);
      checks, last := checks + 1, v;
    }

    /** get_model(), for the completed model of the last satisfiable check. */
    function Model(): Assignment
      reads this
      requires last.Sat?
    {
      last.model
    }
  }
}

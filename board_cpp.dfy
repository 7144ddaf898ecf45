/**
 * The C++ Board of src/board.cpp: launch_tasks runs the any-solution search
 * (rgol::solve_iter) and the fewest-live-cells search (rgol::solve) and
 * reports which of them produced a board in time; previous_state picks the
 * board to return from those two flags. The two tasks run one after the
 * other here; whether they were launched, the time the first wait took and
 * whether the second future was ready in the time left are inputs.
 */
module BoardCpp {
  import opened Wrappers
  import opened RowMajor
  import opened Matrices
  import opened Life
  import opened Z3
  import opened Encoding
  import opened CInt
  import Rgol

  type u32 = Rgol.u32

  const U32Modulus: nat := 0x1_0000_0000

  // ----- Unsigned wait arithmetic -----

  /** `wait_time - 200` in unsigned arithmetic: the budget of the any task, which wraps below 200. */
  function AnyBudget(waitTime: u32): (b: u32)
    ensures waitTime >= 200 ==> b == waitTime - 200
    ensures waitTime < 200 ==> b == waitTime + U32Modulus - 200
  {
    (waitTime - 200) % U32Modulus
  }

  /** Below 200 ms the any task gets a budget larger than the whole wait. */
  lemma AnyBudgetWraps(waitTime: u32)
    requires waitTime < 200
    ensures AnyBudget(waitTime) > waitTime
  {
  }

  /** `1000 * wait_time` in unsigned arithmetic: seconds to milliseconds, exact up to 4294967 s. */
  function Millis(seconds: u32): (ms: u32)
    ensures seconds < 4294968 ==> ms == 1000 * seconds
    ensures ms == (1000 * seconds) % U32Modulus
  {
    (1000 * seconds) % U32Modulus
  }

  /** One second more than 4294967 wraps to 704 ms. */
  lemma MillisWraps()
    ensures Millis(4294968) == 704
  {
  }

  /**
   * The time left for the min task, `wait_time > elapsed ? wait_time -
   * elapsed : 0`: never more than the wait, zero exactly when the first wait
   * used it all, and otherwise what remains of it.
   */
  function RemainingWait(waitTime: u32, elapsed: nat): (r: nat)
    ensures r <= waitTime
    ensures r == 0 <==> waitTime <= elapsed
    ensures r > 0 ==> r + elapsed == waitTime
  {
    if waitTime > elapsed then waitTime - elapsed else 0
  }

  /**
   * utils::wait_future: the future's value when the wait is not zero and the
   * future is ready within it (`ready`), nothing otherwise.
   */
  function WaitFuture<T>(time: nat, ready: bool, value: T): (r: Option<T>)
    ensures r.Some? <==> time != 0 && ready
    ensures r.Some? ==> r.value == value
  {
    if time != 0 && ready then Some(value) else None
  }

  /** A zero-length wait discards the result, however ready the future is. */
  lemma ZeroWaitDiscards<T>(ready: bool, value: T)
    ensures WaitFuture(0, ready, value) == None
  {
  }

  // ----- The board -----

  class Board {
    const table: Matrix<int>

    /** Board(n, m): an n x m table of zeros. */
    constructor (n: nat, m: nat)
      ensures table.Valid() && table.n == n && table.m == m && fresh(table) && fresh(table.base)
      ensures table.Rows() == Constant(n, m, 0)
    {
      table := new Matrix(n, m, 0);
    }
    /**
     * launch_tasks: the any task, when it launches (`anyLaunched`), runs
     * solve_iter with the budget wait_time - 200 and writes its `sat` to
     * ret.first; the min task, when it launches (`minLaunched`), runs solve
     * with the whole wait. A launched task always runs to its end and fills
     * its board, since the destructor of its future waits for it. Only when
     * both launched is anything awaited: ret.second is the min result when
     * ret.first holds, time is left after the first wait (`elapsed` ms) and
     * the min future is ready in it (`minReady`). On a board that fits, a
     * set flag means the board it belongs to is a previous state, the min
     * board one with the fewest live cells.
     */
    method LaunchTasks(any: Board, min: Board, waitTime: u32, anyLaunched: bool, minLaunched: bool, elapsed: nat,
                       minReady: bool, oracle: Oracle, iterElapsed: nat -> nat)
      returns (ret: (bool, bool))
      requires table.Valid() && any.table.Valid() && min.table.Valid()
      requires any.table.n == table.n && any.table.m == table.m && min.table.n == table.n && min.table.m == table.m
      requires table.base != any.table.base && table.base != min.table.base && any.table.base != min.table.base
      requires Sound(oracle)
      modifies any.table.base, min.table.base
      ensures ret.1 ==> ret.0
      ensures !anyLaunched ==> !ret.0 && unchanged(any.table.base)
      ensures !minLaunched ==> unchanged(min.table.base)
      ensures anyLaunched ==>
        (ret.0 <==> ToInt32(SizeT(table.n * table.m)) >= 0 && AnyBudget(waitTime) != 0 &&
                    oracle(0, Base(table.Rows(), table.n, table.m) + [AtMost(Total(table.n, table.m), SizeT(table.n * table.m))],
                           None, AnyBudget(waitTime)).Sat?)
      ensures ret.0 ==> Rgol.ZeroOne(any.table.Rows())
      ensures ret.1 ==> Rgol.ZeroOne(min.table.Rows())
      ensures ret.0 && Fits(table.n, table.m) ==>
        Predecessor(Alive(any.table.Rows()), Alive(table.Rows()), table.n, table.m)
      ensures ret.1 && Fits(table.n, table.m) ==>
        Predecessor(Alive(min.table.Rows()), Alive(table.Rows()), table.n, table.m) &&
        forall g :: Predecessor(g, Alive(table.Rows()), table.n, table.m) ==>
          Population(Alive(min.table.Rows()), table.n, table.m) <= Population(g, table.n, table.m)
      ensures ret.1 <==>
        (minLaunched && ret.0 && RemainingWait(waitTime, elapsed) != 0 && minReady &&
         oracle(0, Base(table.Rows(), table.n, table.m), Some(Total(table.n, table.m)), waitTime).Sat?)
    {
      ghost var t1 := table.Rows();
      var first, minSat := false, false;
      if anyLaunched {
        var sat, vs, bs := Rgol.SolveIter(table, any.table, AnyBudget(waitTime), oracle, iterElapsed);
        assert table.Rows() == t1;
        Rgol.FirstRound(Base(t1, table.n, table.m), Total(table.n, table.m), SizeT(table.n * table.m),
                        ToInt32(SizeT(table.n * table.m)), AnyBudget(waitTime), iterElapsed, oracle, vs, bs);
        if Fits(table.n, table.m) {
          Rgol.IterOutcome(t1, table.n, table.m, AnyBudget(waitTime), iterElapsed, oracle, vs, bs);
        }
        first := sat;
      }
      if minLaunched {
        ghost var anyRows := any.table.Rows();
        var sat, v := Rgol.Solve(table, min.table, waitTime, oracle);
        assert table.Rows() == t1 && any.table.Rows() == anyRows;
        if Fits(table.n, table.m) {
          Rgol.SolveOutcome(t1, table.n, table.m, waitTime, oracle);
        }
        minSat := sat;
      }
      ret := (first, false);
      if anyLaunched && minLaunched && ret.0 {
        var minOpt := WaitFuture(RemainingWait(waitTime, elapsed), minReady, minSat);
        if minOpt.Some? {
          ret := (ret.0, minOpt.value);
        }
      }
    }

    /**
     * previous_state: the min board when both flags are set, the any board
     * when only the first is, and otherwise a fresh all-zero board; it never
     * returns an empty optional.
     */
    method PreviousState(waitSeconds: u32, anyLaunched: bool, minLaunched: bool, elapsed: nat, minReady: bool,
                         oracle: Oracle, iterElapsed: nat -> nat)
      returns (res: Option<Board>, ghost status: (bool, bool))
      requires table.Valid() && Sound(oracle)
      ensures status.1 ==> status.0
      ensures res.Some? && fresh(res.value.table.base)
      ensures res.value.table.Valid() && res.value.table.n == table.n && res.value.table.m == table.m
      ensures !status.0 ==> res.value.table.Rows() == Constant(table.n, table.m, 0)
      ensures status.0 ==> Rgol.ZeroOne(res.value.table.Rows())
      ensures status.0 && Fits(table.n, table.m) ==>
        Predecessor(Alive(res.value.table.Rows()), Alive(table.Rows()), table.n, table.m)
      ensures status.1 && Fits(table.n, table.m) ==>
        forall g :: Predecessor(g, Alive(table.Rows()), table.n, table.m) ==>
          Population(Alive(res.value.table.Rows()), table.n, table.m) <= Population(g, table.n, table.m)
    {
      var n, m := table.n, table.m;
      var unsat := new Board(n, m);
      var any := new Board(n, m);
      var min := new Board(n, m);
      var s := LaunchTasks(any, min, Millis(waitSeconds), anyLaunched, minLaunched, elapsed, minReady, oracle, iterElapsed);
      status := s;
      if !s.0 {
        return Some(unsat), status;
      } else if s.1 {
        return Some(min), status;
      }
      return Some(any), status;
    }
  }

  // ----- Printing an optional board -----

  const NoSolution := "No solution found."

  /**
   * operator<< for an optional board on a good stream: the board's table
   * text when there is one, "No solution found." otherwise; no table text
   * reads as that message.
   */
  function ShowOptional(opt: Option<Board>, show: int -> string): (s: string)
    reads if opt.Some? then {opt.value.table.base} else {}
    requires opt.Some? ==> opt.value.table.Valid()
    ensures opt.Some? ==> s == Text(opt.value.table.Rows(), show)
    ensures s == NoSolution <==> opt.None?
  {
    if opt.Some? then
      TextLastChar(opt.value.table.Rows(), show, 0);
      opt.value.table.Show(show, true)
    else NoSolution
  }
}

# Conway's time travel, modelled in Dafny

conways-time-travel searches for a previous state of a Game of Life board:
a board t0 whose next generation is the given board t1. It has two
back-ends. The C++ one (src/rgol.cpp, src/matrix.hpp, src/board.cpp) hands
the question to Z3. The older C one (src/board.c, src/solve.c,
src/tmp/solveee.c) builds a CNF formula for the Kissat SAT solver. This
project models the logic that surrounds the solvers, and proves what that
logic promises. Each solver is an abstract oracle whose answers are assumed
to be sound.

Modules, one per source file or concept:

- `Life` (life.dfy): the reference semantics. Boards are `seq<seq<bool>>`.
  It defines the Moore neighbours that lie on an n x m board, in the offset
  order the source uses, the rule "alive next iff 3 live neighbours, or alive
  with 2", one `Step`, `Predecessor(g, h)` (Step(g) == h) and `Population`.
- `RowMajor` (row_major.dfy): row-major layout (`Unflatten`) and the cell
  orders of the double loops.
- `CInt` (c_int.dfy): the C conversions the code relies on. These are
  wrap-around to `size_t`, and truncation of a sum to a 32-bit `int`.
- `Matrices` (matrix.dfy): `Matrix<T>` of src/matrix.hpp as a class over an
  `array<T>` of n*m elements with a fixed row-offset view. It covers the
  constructor, the bounds-checked `at` (a `Result` carrying `OutOfRange`),
  element writes, `operator>>` over a token sequence and `operator<<` as text.
- `Z3` (z3_model.dfy): the slice of the Z3 API that rgol.cpp uses.
  - Boolean constants t0_i_j / t1_i_j, and sums of ite(e, 1, 0) terms.
  - The three kinds of assertion the back-end adds: pins, rules, and
    `sum <= b`.
  - A `Solver` class with add/push/pop/minimize/check.
  - `check` is answered by an `Oracle`. `Sound(oracle)` says that sat comes
    with a model (optimal when an objective is set), unsat means no model,
    and unknown promises nothing.
- `Encoding` (encoding.dfy): the constraints init_repr and add_clauses
  assert, and the central theorems about them:
  - every model's t0 is a predecessor of t1, and every predecessor gives a
    model;
  - the minimised total is t0's population.
- `Rgol` (rgol.dfy): the imperative C++ back-end. It covers neigh_sum,
  init_repr, add_clauses, fill_t0, count_ones, time_it, solve_iter (its
  bounded descending loop is recorded as a ghost history of oracle calls)
  and solve, with the end-to-end outcome lemmas.
- `Cnf` (cnf.dfy): Kissat as the stream of literals `kissat_add` receives,
  with the answer as an oracle. It also holds a generic account of the
  nested index loops that enumerate neighbour subsets: tuples in loop order,
  their count C(c, r), and the clause each tuple produces. One recursive
  method with a `while` loop per nesting level stands for the hard-coded
  loops.
- `CBoard` (cboard.dfy): the C board (an N x N = 20 x 20 table, n and m
  used), board_read's literal encoding and board_print.
- `SolveC` (solve_c.dfy) and `Solveee` (solveee_c.dfy): the two Kissat
  back-ends. They cover neigh_init, every generator (as a method appending
  to the solver and a function giving its literal stream), add_clauses,
  fill_result_board and solve, plus lemmas giving each generator's clause
  count, clause shapes and literal polarities.
- `BoardCpp` (board_cpp.dfy): the C++ `Board`. It covers launch_tasks,
  previous_state, the unsigned wait arithmetic, utils::wait_future and
  printing an optional board.

Inputs that the source takes from the outside world are parameters:
- the oracles;
- the milliseconds each solver round took (`elapsed`);
- whether kissat_init or the task launch succeeded;
- whether the min task was ready within its wait.

Where the code and its comments disagree, the model follows the code:
- solve_iter sets the bound to the model's own live count, not count - 1.
  After a sat round no later check can be unsat, so the loop ends only on a
  timeout, an unknown, or when the counter runs out (`Rgol.NoUnsatAfterSat`).
- solve_iter treats unsat and unknown alike: both leave the loop.
- previous_state never returns an empty optional, although its comment says
  so. With no satisfiable first round it returns an all-zero board. The
  "No solution found." branch of the optional printer is therefore
  unreachable from it.
- The five generators of src/solve.c are never called: add_clauses has them
  commented out, so the solver gets an empty formula. Their polarities do not
  encode the Life rule either (overcrowding's clauses are all positive). The
  model states what they emit and claims no equivalence with Life.
- board_read numbers cell (i, j) as i*n + j + 1, with stride n, the row
  count. Literals are distinct only when m <= n (`CBoard.LiteralInjective`).
  On a 2 x 3 board, cells (0, 2) and (1, 0) share literal 3
  (`CBoard.LiteralCollision`).
- launch_tasks gives the any task `wait_time - 200` in unsigned arithmetic.
  Below 200 ms this wraps to more than four billion milliseconds
  (`BoardCpp.AnyBudgetWraps`). previous_state's `1000 * wait_time` wraps
  above 4294967 s (`BoardCpp.MillisWraps`). Both are modelled as written.

## Model

| member | source | states |
|---|---|---|
| Life.NeighbourCells | src/rgol.cpp:153-166 | the cells visited for offsets 0..k-1 that pass the bounds test: at most k, all on the board |
| Life.NeighbourOrigin | src/rgol.cpp:161-166 | every collected cell is (i, j) plus one of the first k offsets |
| Life.NeighbourComplete | src/rgol.cpp:161-166 | every offset whose cell is on the board contributes that cell |
| Life.NeighboursAreAdjacent | src/rgol.cpp:153-166 | the neighbours of (i, j) are exactly the on-board cells adjacent to it, in both directions |
| Life.NeighboursDistinct | src/rgol.cpp:153-157 | no neighbour is counted twice |
| Life.OffsetIndex | src/rgol.cpp:153-157 | every non-zero displacement in {-1,0,1}^2 is one of the eight offsets |
| Life.OffsetIndexOf | src/rgol.cpp:153-157 | each offset is a non-zero displacement in {-1,0,1}^2 and OffsetIndex finds it again |
| Life.CountLive | src/rgol.cpp:165 | the number of live cells among cs is at most the number of cells |
| Life.LiveNeighboursBound | src/rgol.cpp:161-166 | a cell has at most 8 live neighbours |
| Life.Step | src/rgol.cpp:218-225 | one generation of an n x m board is an n x m board |
| Life.NextAlive | src/rgol.cpp:218-225 | the rule add_clauses asserts for each cell, as a reference definition: alive next exactly with three live neighbours, or alive now with two |
| Life.Predecessor | src/board.cpp:111-126 | what previous_state looks for, as a reference definition: a board of the same size whose next state is the given one |
| Life.Population | src/rgol.cpp:209-215 | the live cells of a board, the quantity the min search minimises, as a reference definition |
| Life.PopulationBound | src/rgol.cpp:215 | the population of an n x m board is at most n*m |
| Life.CountLiveDead | src/rgol.cpp:165 | no cell of the dead board is live |
| Life.DeadIsFixed | src/rgol.cpp:218-225 | the dead board is its own predecessor |
| Life.DeadPopulation | src/rgol.cpp:215 | the dead board has population 0 |
| Life.LoneCellHasNoPredecessor | src/rgol.cpp:218-225 | a 1 x 1 board with a live cell has no predecessor |
| RowMajor.Unflatten | src/matrix.hpp:40-43 | row i of the grid is the m elements from offset i*m |
| RowMajor.UnflattenAt | src/matrix.hpp:40-43 | element (i, j) of the grid is base[i*m + j] |
| RowMajor.Injective | src/matrix.hpp:41-43 | distinct in-bounds coordinates address distinct slots of base |
| RowMajor.UnflattenUpdate | src/matrix.hpp:154-156 | writing base[i*m + j] changes element (i, j) of the grid and nothing else |
| RowMajor.FullRowsMembers | src/rgol.cpp:212-213 | the first i rows of a row-major traversal visit exactly the cells of rows below i |
| RowMajor.CellsBeforeMembers | src/rgol.cpp:212-213 | before (i, j) the double loop has visited exactly the earlier rows and the first j cells of row i |
| RowMajor.EndCells | src/rgol.cpp:212-213 | after the double loop every cell of the n x m board has been visited, once, in row-major order |
| CInt.SizeT | src/rgol.cpp:439 | conversion to a 64-bit size_t: a value below 2^64 congruent to the input, the input itself when it is in range |
| CInt.ToInt32 | src/rgol.cpp:162-163 | conversion to a 32-bit int: in range, congruent to the input, exact in range |
| CInt.ToInt32SizeT | src/rgol.cpp:162-163 | truncating a size_t to int is the same as truncating the original integer |
| CInt.WrapCongruent | src/board.c:39-40 | a value wrapped to size_t, possibly negated in size_t, then cast to int stays congruent to it (or its negation) modulo 2^32 |
| CInt.SizeTBelow | src/tmp/solveee.c:162-165 | with -1 wrapped to 2^64 - 1, the unsigned test x < n accepts exactly 0 <= x < n |
| CInt.CastNeighbourCells | src/rgol.cpp:159-166 | the cells neigh_sum's int-cast bounds test keeps are all on the board |
| CInt.CastNeighbourStep | src/rgol.cpp:162-166 | one offset adds its cell exactly when the cast coordinates pass the test |
| CInt.CastNeighboursExact | src/rgol.cpp:159-166 | on a board that fits in int, the cast test keeps exactly the Moore neighbours |
| Matrices.Matrix.constructor | src/matrix.hpp:33-44 | n() == n, m() == m, and every element is def |
| Matrices.UnflattenConstant | src/matrix.hpp:33 | n*m copies of def laid out row-major are the constant grid |
| Matrices.Matrix.Rows | src/matrix.hpp:40-43 | the row-pointer view has n rows of m elements |
| Matrices.Matrix.At | src/matrix.hpp:154-156 | fails with OutOfRange iff i >= n or j >= m, otherwise returns element (i, j) |
| Matrices.Matrix.Set | src/matrix.hpp:240-247 | writing through operator() fails iff out of bounds, changes only element (i, j), and a failed write changes nothing |
| Matrices.Matrix.Read | src/matrix.hpp:61-87 | cells before the first failed extraction hold the tokens read in row-major order; the cell of a failed extraction holds the value that extraction stored (nothing when the input ran out); later cells keep their values; the failbit is set iff an extraction failed; nothing is read from a stream that is not good |
| Matrices.Matrix.Show | src/matrix.hpp:106-133 | operator<< writes the matrix text to a good stream and nothing to a bad one (properties of the text in the lemmas below) |
| Matrices.RowText | src/matrix.hpp:121-127 | one row written element by element, each followed by a space, as a reference definition |
| Matrices.TextFrom | src/matrix.hpp:120-131 | rows i.. written one after the other with a newline between rows but not after the last, as a reference definition |
| Matrices.Text | src/matrix.hpp:119-131 | the whole matrix text, as a reference definition |
| Matrices.GoodPrefix | src/matrix.hpp:75-81 | the number of leading tokens that extract, at most n*m: all of them good, the next one (if any, below the cap) bad |
| Matrices.GoodPrefixIs | src/matrix.hpp:75-81 | GoodPrefix is the only count with those properties |
| Matrices.RowTextEndsWithSpace | src/matrix.hpp:122 | every element of a row is followed by a space, so a non-empty row's text ends with one |
| Matrices.RowTextNoNewline | src/matrix.hpp:120-127 | a row's text holds no newline when no element's text does |
| Matrices.TextNewlines | src/matrix.hpp:128-130 | the text of n >= 1 rows holds exactly n - 1 newlines: none after the last row |
| Matrices.TextLastChar | src/matrix.hpp:119-131 | the text is empty or ends with a space or a newline |
| Z3.Sum | src/rgol.cpp:165 | a sum of ite(e, 1, 0) terms is at most the number of terms |
| Z3.SumConcat | src/rgol.cpp:215 | the sum of two concatenated term lists is the sum of their sums |
| Z3.SatisfiesConcat | src/rgol.cpp:435-436 | a model satisfies two batches of assertions iff it satisfies each |
| Z3.SatisfiesAtMost | src/rgol.cpp:445 | a model of cs plus sum <= b is a model of cs whose sum is within b, and conversely |
| Z3.Solver.constructor | src/rgol.cpp:418-420 | a fresh solver has no assertions, scopes, objective or checks |
| Z3.Solver.Add | src/rgol.cpp:218-225 | add appends one assertion and changes nothing else |
| Z3.Solver.Push | src/rgol.cpp:444 | push remembers the assertion count and changes nothing else |
| Z3.Solver.Pop | src/rgol.cpp:456 | pop drops the innermost scope and the assertions added since its push |
| Z3.Solver.Minimize | src/rgol.cpp:517 | minimize sets the objective and changes nothing else |
| Z3.Solver.Check | src/rgol.cpp:446 | check returns the oracle's verdict on the current assertions and objective; it is sound for them; the check counter grows by one |
| Z3.Solver.Model | src/rgol.cpp:317 | get_model: the model of the last check, available only when it was sat |
| Encoding.TermsAtSnoc | src/rgol.cpp:165 | one more cell appends its entry to the term list |
| Encoding.SumTermsSnoc | src/rgol.cpp:165 | one more cell adds 1 to the sum exactly when its entry is true |
| Encoding.Symbols0 | src/rgol.cpp:274 | after init_repr every ct0 entry is the named constant t0_i_j |
| Encoding.Symbols1 | src/rgol.cpp:275 | after init_repr every ct1 entry is the named constant t1_i_j |
| Encoding.Pins | src/rgol.cpp:276-283 | one pin per visited cell |
| Encoding.AllPins | src/rgol.cpp:255-286 | init_repr asserts one pin per cell of the board |
| Encoding.AllPinsAt | src/rgol.cpp:276-283 | the k-th pin ties t1 of the k-th cell in row-major order to whether the input is non-zero |
| Encoding.AllRulesAt | src/rgol.cpp:218-225 | the k-th rule ties t1 of the k-th cell to the Life rule over its t0 neighbour terms |
| Encoding.AllRules | src/rgol.cpp:199-230 | add_clauses asserts one rule per cell of the board |
| Encoding.Base | src/rgol.cpp:435-436 | the assertions solve_iter and solve make before any bound: two per cell, the pins and the rules |
| Encoding.Total | src/rgol.cpp:209-215 | the sum add_clauses returns has one term per cell |
| Encoding.Alive | src/rgol.cpp:278 | an int board read as a Life board: a cell is alive iff its entry is non-zero |
| Encoding.ModelGrid | src/rgol.cpp:321-326 | the t0 board a model describes is an n x m board |
| Encoding.SumSymbols | src/rgol.cpp:165 | counting true t0 terms over cells is counting those cells' live cells in the model's board |
| Encoding.TotalIsPopulation | src/rgol.cpp:209-215 | the total add_clauses returns evaluates to the population of the model's t0 |
| Encoding.CellSound | src/rgol.cpp:218-225 | in a model, each cell's t0 value and live-neighbour count yield, by the Life rule, the pinned t1 value |
| Encoding.EncodingSound | src/rgol.cpp:218-225 | every model of the constraints describes a t0 with Step(t0) == t1 |
| Encoding.WitnessBoard | src/rgol.cpp:274-275 | the assignment built from a board describes that board |
| Encoding.CellComplete | src/rgol.cpp:218-225 | a predecessor's witness meets the pin and the rule of every cell |
| Encoding.EncodingComplete | src/rgol.cpp:276-283 | every predecessor of t1 is described by a model of the constraints |
| Encoding.NoModelAtAll | src/rgol.cpp:446-454 | constraints without a model mean t1 has no predecessor |
| Encoding.FitsArea | src/rgol.cpp:439 | on a board that fits, n*m does not wrap around a size_t |
| Encoding.BoundedModel | src/rgol.cpp:445-451 | a model within the bound describes a predecessor whose population is within it |
| Encoding.NoModelNoPredecessor | src/rgol.cpp:439-454 | with a bound of at least n*m, no model means no predecessor at all |
| Encoding.NoModelWithin | src/rgol.cpp:445-454 | no model within the bound means every predecessor's population exceeds it |
| Encoding.OptimalModel | src/rgol.cpp:517-518 | a model that minimises the total describes a predecessor with the smallest population of all predecessors |
| Rgol.TimeIt | src/rgol.cpp:33-44 | the timeout never grows and never wraps: old - k when k < old, else 0 |
| Rgol.Extracted | src/rgol.cpp:319-328 | fill_t0's board is n x m |
| Rgol.ExtractedBoard | src/rgol.cpp:321-326 | fill_t0 writes only 0 and 1, with 1 exactly where the model makes t0_i_j true |
| Rgol.NeighSum | src/rgol.cpp:143-170 | on a board that fits, neigh_sum returns the t0 terms of exactly the in-bounds Moore neighbours, in offset order |
| Rgol.InitRepr | src/rgol.cpp:255-286 | init_repr names every entry of ct0 and ct1 and asserts exactly the pins of t1, in row-major order |
| Rgol.NextRow | src/rgol.cpp:268-269 | finishing row i of init_repr's loop is starting row i + 1 |
| Rgol.InitCell | src/rgol.cpp:270-283 | one iteration of init_repr names cell (i, j) and adds its pin, leaving the solver's other state alone |
| Rgol.InitRow | src/rgol.cpp:269-284 | one pass of init_repr's outer loop names and pins every cell of row i, leaving the solver's other state alone |
| Rgol.AddClauses | src/rgol.cpp:199-230 | add_clauses asserts exactly the Life rule of every cell, in row-major order, and returns the sum of every t0 entry |
| Rgol.AddRule | src/rgol.cpp:214-225 | one iteration adds the cell's t0 term to the total and asserts its rule |
| Rgol.FillT0 | src/rgol.cpp:307-329 | t0 becomes the 0/1 board of the last model |
| Rgol.CountOnes | src/rgol.cpp:351-373 | count_ones is the number of t0 entries the model makes true |
| Rgol.CountRow | src/rgol.cpp:362-371 | one pass of count_ones's outer loop adds the true entries of row i to the running sum |
| Rgol.Remaining | src/rgol.cpp:441 | the timeout left for a round never exceeds the starting timeout, and is below it whenever some of it is left after a round that took time |
| Rgol.RoundsSnoc | src/rgol.cpp:440-457 | a further check of solve_iter's loop extends the history of checks |
| Rgol.Rounds | src/rgol.cpp:440-457 | the history of solve_iter's checks, as a reference definition: each round asks the oracle about the base and the current bound with the time left, the first bound is n*m, and every round but the last is sat and lowers the bound to its model's total |
| Rgol.Encode | src/rgol.cpp:418-436 | the start of both searches: a fresh solver holding exactly the pins and rules of t1, ct0 named, and the total of t0 |
| Rgol.Round | src/rgol.cpp:441-457 | one round checks the assertions plus total <= max; on sat, max becomes the model's count (within max) and t0 its board; otherwise t0 is unchanged |
| Rgol.SolveIter | src/rgol.cpp:413-461 | the checks form the history from the bound n*m down, at most (int)(n*m) + 1 of them, ending at a non-sat answer, the counter, or a zero timeout; the result is true iff the first check was sat; t0 then holds the last model's 0/1 board, and is unchanged otherwise |
| Rgol.NoUnsatAfterSat | src/rgol.cpp:448-451 | the bound is non-strict, so after a sat round no check is unsat |
| Rgol.RoundModels | src/rgol.cpp:445-451 | each sat round's model satisfies the constraints within its bound, and the bounds never increase |
| Rgol.LastModelWithin | src/rgol.cpp:447-451 | the model left in t0 satisfies the constraints and is within every bound that was checked |
| Rgol.IterOutcome | src/rgol.cpp:413-461 | on a board that fits, a true result leaves a predecessor of t1 in t0, within every bound; an unsat first round means no predecessor exists |
| Rgol.FirstRound | src/rgol.cpp:438-451 | solve_iter's sat holds iff the int counter starts non-negative, the timeout is not zero and the first check, bounded by n*m, is sat |
| Rgol.WideBoardMakesNoCheck | src/rgol.cpp:439-440 | on a 46341 x 46341 board the int counter starts negative and no check is made |
| Rgol.Solve | src/rgol.cpp:493-524 | solve makes one optimising check of the encoding; it returns true iff that check is sat, and t0 then holds the model's 0/1 board; otherwise t0 is unchanged |
| Rgol.SolveOutcome | src/rgol.cpp:515-523 | on a board that fits, a sat answer gives a predecessor with the fewest live cells of all predecessors, and unsat means none exists |
| Cnf.Value | src/solve.c:299 | kissat_value returns 0 exactly for a variable that occurs in no added literal; otherwise it returns the literal when it is true and its negation when it is false |
| Cnf.Solver.ValueOf | src/solve.c:299 | the solver's answer for a literal is 0 iff its variable was never added, otherwise the literal or its negation according to the model |
| Cnf.Solver.constructor | src/solve.c:328 | a fresh Kissat instance has received no literal |
| Cnf.Solver.Add | src/solve.c:32 | kissat_add appends one literal to the stream |
| Cnf.Solver.Solve | src/solve.c:331 | kissat_solve returns the oracle's status for the literals added, and keeps them |
| Cnf.NoClausesNotUnsat | src/solve.c:330-331 | a sound solver never calls the empty formula unsatisfiable |
| Cnf.StreamConcat | src/solve.c:36 | the stream of two clause lists is the concatenation of their streams |
| Cnf.Stream | src/solve.c:32-36 | the literals kissat_add receives for a clause list, each clause closed by a 0, as a reference definition |
| Cnf.FirstZero | src/solve.c:36 | the first 0 of a stream: no 0 before it |
| Cnf.FirstZeroAfter | src/solve.c:36 | a zero-free clause ends exactly at the 0 that follows it |
| Cnf.Parse | src/solve.c:36 | the clauses a solver reads from a literal stream hold no 0 and are at most as many as the literals |
| Cnf.ParseStream | src/solve.c:36 | reading back a stream of zero-free clauses gives exactly those clauses: each is ended by exactly one 0 |
| Cnf.ParseConcat | src/tmp/solveee.c:84-85 | two zero-free clause lists streamed one after the other read back as both lists, in order |
| Cnf.Tuples | src/solve.c:28-31 | the index tuples of the nested loops stay in range |
| Cnf.TuplesShape | src/tmp/solveee.c:23-27 | every tuple is the prefix followed by r strictly increasing accepted indices |
| Cnf.ChosenCons | src/tmp/solveee.c:23-27 | picking an index in front of later picks is a pick from that index on |
| Cnf.TuplesComplete | src/solve.c:28-31 | every strictly increasing sequence of accepted indices is among the tuples |
| Cnf.TuplesDistinct | src/solve.c:28-31 | no tuple repeats |
| Cnf.TuplesApart | src/solve.c:28-31 | the tuples that pick an index and those that skip it share no tuple |
| Cnf.TuplesCount | src/solve.c:28-31 | there are C(c, r) tuples, c being the number of accepted indices |
| Cnf.ChooseOne | src/solve.c:59 | C(n, 1) == n |
| Cnf.OkCount | src/tmp/solveee.c:24 | accepted indices in [lo, hi) are at most hi - lo |
| Cnf.OkCountFront | src/tmp/solveee.c:24 | the accepted count peels off the first index |
| Cnf.OkCountAll | src/solve.c:28 | with every index accepted the count is hi - lo |
| Cnf.TailStart | src/tmp/solveee.c:31 | the tail's first index is within the list |
| Cnf.NoneAcceptedNoTuples | src/tmp/solveee.c:23-27 | when no index from some point on is accepted, a loop that must still pick one emits no clause |
| Cnf.Picked | src/solve.c:32-35 | one picked literal per picked index |
| Cnf.Clauses | src/solve.c:28-40 | one clause per tuple |
| Cnf.ClausesConcat | src/solve.c:28-40 | clauses of concatenated tuple lists concatenate |
| Cnf.EmitStep | src/solve.c:28-31 | one loop level: index from contributes its extensions when accepted, then the later indices theirs |
| Cnf.EmitOne | src/solve.c:32-36 | the innermost level emits head, picks, tail and 0 |
| Cnf.EmitClause | src/solve.c:32-36 | emitting a clause appends its literals and a 0 |
| Cnf.EmitTuples | src/solve.c:28-40 | the nested loops append the generator's stream |
| Cnf.EmitLevel | src/tmp/solveee.c:26-38 | one iteration of a level's loop appends that index's share |
| Cnf.OthersMembers | src/solve.c:101-105 | the tail holds sign * neigh[l] exactly for the accepted l outside the picks |
| Cnf.InCountSnoc | src/solve.c:102 | one more distinct element adds one to the count of elements in range exactly when it lies in range |
| Cnf.InCountAll | src/solve.c:102 | a repetition-free tuple inside the range is counted whole |
| Cnf.OthersLength | src/solve.c:101-105 | the tail has one literal per accepted index not picked |
| Cnf.AllOthersLength | src/solve.c:101-105 | a tail over every other index has c - r literals |
| Cnf.ClauseZeroFree | src/solve.c:32-36 | a clause built from nonzero literals holds no 0 |
| Cnf.GeneratorParses | src/solve.c:28-40 | the solver reads back exactly one clause per tuple |
| Cnf.GeneratorFacts | src/solve.c:28-40 | a generator's stream reads back one clause per r-element increasing sequence of accepted indices, every such sequence once, C(c, r) clauses in all |
| Cnf.AllOthersClause | src/solve.c:97-105 | with a tail over all other indices: head, picks with the pick sign, then every unpicked accepted literal with the tail sign, |head| + c literals |
| Cnf.ClausePolarity | src/solve.c:97-105 | with positive accepted literals, a clause has its head, r picks of the pick sign and then only tail-sign literals |
| Cnf.GeneratorPolarity | src/solve.c:94-108 | every clause of a generator's stream is shaped like its pattern |
| Cnf.ClauseSource | src/tmp/solveee.c:23-39 | every clause of a generator comes from some r increasing accepted indices |
| Cnf.ClauseReached | src/tmp/solveee.c:23-39 | every r increasing accepted indices have their clause among the generator's |
| CBoard.Board.constructor | src/board.h:11-17 | an empty board |
| CBoard.Board.Cells | src/board.h:13-16 | the used part of the table is an n x m grid of its entries |
| CBoard.Literal | src/board.c:39-40 | the literal board_read stores is an int32 congruent modulo 2^32 to +(i*n + j + 1) for a nonzero input and -(i*n + j + 1) for 0 |
| CBoard.LiteralIs | src/board.c:39-40 | within capacity a cell's literal is +-(i*n + j + 1): never 0, negative iff the input is 0 |
| CBoard.LiteralInjective | src/board.c:39 | with m <= n distinct cells get distinct literal magnitudes |
| CBoard.LiteralCollision | src/board.c:39 | on a 2 x 3 board (0, 2) and (1, 0) both get magnitude 3 |
| CBoard.Encoded | src/board.c:35-42 | the literal table of the input values is n x m |
| CBoard.Read | src/board.c:23-43 | board_read sets n and m and stores every input value's literal; the unused part of the table is kept |
| CBoard.GridEq | src/board.c:35-36 | n x m grids that agree on every cell are equal |
| CBoard.RowShownAt | src/board.c:68-70 | a row prints as two characters per cell: 1 for a positive entry, else 0, then a space |
| CBoard.ShownSnoc | src/board.c:67-72 | one more row prints as its digits and a newline |
| CBoard.ShownLength | src/board.c:67-72 | the text has 2m + 1 characters per row |
| CBoard.ShownRow | src/board.c:67-72 | row i of the text is that row's digits followed by a newline |
| CBoard.ShownCell | src/board.c:69 | the character for (i, j) is 1 iff the entry is positive, and a space follows it |
| CBoard.ShownNewline | src/board.c:71 | every row ends with a newline |
| CBoard.Digit | src/board.c:69 | a cell prints as two characters, 1 or 0 then a space, with 1 exactly for a positive entry |
| CBoard.RowShown | src/board.c:68-70 | one row's digits, as a reference definition |
| CBoard.Shown | src/board.c:67-72 | board_print's whole text, every row followed by a newline, as a reference definition |
| CBoard.Print | src/board.c:59-73 | board_print writes exactly the text of the used cells |
| CBoard.PrintRow | src/board.c:68-70 | the inner loop writes exactly the digits of row i |
| CBoard.Bits | src/board.c:40 | the 1/0 board of an input is n x m |
| CBoard.RowShownSigns | src/board.c:69 | rows with the same signs print the same |
| CBoard.ShownSigns | src/board.c:69 | grids with the same signs print the same |
| CBoard.ReadThenPrint | src/board.c:40 | reading a board and printing it shows 1 exactly where the input was nonzero |
| SolveC.AbsAt | src/solve.c:221 | one absolute value per cell |
| SolveC.NeighInit | src/solve.c:198-224 | neigh holds at the front the absolute literals of the neighbours passing the int-cast bounds test, in offset order, at most 8 of them, and 0 after; for a cell on the board these are exactly its neighbours |
| SolveC.CollectOffset | src/solve.c:218-222 | one offset packs its literal exactly when its cell passes the test |
| SolveC.AbsAtSnoc | src/solve.c:221 | one more cell appends its absolute value |
| SolveC.CollectedPositive | src/solve.c:221 | the absolute values of non-zero literals are positive |
| SolveC.AllOk | src/solve.c:28 | the solve.c loops accept every index |
| SolveC.Overcrowding | src/solve.c:18-41 | overcrowding appends its stream to the solver |
| SolveC.Loneliness | src/solve.c:50-75 | loneliness appends its stream to the solver |
| SolveC.Birth | src/solve.c:84-110 | birth appends its stream to the solver |
| SolveC.Stagnation | src/solve.c:120-143 | stagnation appends its stream to the solver |
| SolveC.Preservation | src/solve.c:153-177 | preservation appends its stream to the solver |
| SolveC.OvercrowdingStream | src/solve.c:18-41 | the literals overcrowding adds, as a reference definition (their clauses in SolveC.OvercrowdingClauses) |
| SolveC.LonelinessStream | src/solve.c:50-75 | the literals loneliness adds, as a reference definition (their clauses in SolveC.LonelinessClauses) |
| SolveC.BirthStream | src/solve.c:84-110 | the literals birth adds, as a reference definition (their clauses in SolveC.BirthClauses) |
| SolveC.StagnationStream | src/solve.c:120-143 | the literals stagnation adds, as a reference definition (their clauses in SolveC.StagnationClauses) |
| SolveC.PreservationStream | src/solve.c:153-177 | the literals preservation adds, as a reference definition (their clauses in SolveC.PreservationClauses) |
| SolveC.AllPositive | src/solve.c:221 | positive neighbour literals are nonzero and positive, and all of them are accepted |
| SolveC.OvercrowdingClauses | src/solve.c:28-40 | C(n, 4) clauses, one per i < j < k < l, each of exactly 4 positive literals |
| SolveC.BirthClauses | src/solve.c:94-108 | C(n, 3) clauses of n literals each: the three picks positive, the rest negated |
| SolveC.FlankedClauses | src/solve.c:129-142 | a clause per pair i < j: the first literal, the two picks positive, the other n - 2 negated |
| SolveC.StagnationClauses | src/solve.c:129-142 | C(n, 2) clauses of n + 1 literals led by -curr |
| SolveC.PreservationClauses | src/solve.c:163-176 | C(n, 2) clauses of n + 1 literals led by +curr |
| SolveC.StagnationMirrorsPreservation | src/solve.c:129-176 | stagnation's clauses are preservation's with the first literal negated, clause by clause |
| SolveC.MirrorClause | src/solve.c:131 | a single pair's clauses differ only in the first literal |
| SolveC.OthersNone | src/solve.c:59-61 | with nothing picked, the tail is every literal negated |
| SolveC.SingleTuples | src/solve.c:65 | the one-level loop visits every index once, in order |
| SolveC.LonelinessClauses | src/solve.c:59-74 | 1 + n clauses: all n literals negated, then for each i, +neigh[i] with every other literal negated |
| SolveC.LonelyNone | src/solve.c:59-62 | the first clause negates every literal |
| SolveC.LonelyOne | src/solve.c:65-74 | the next n clauses each raise one literal and negate the others |
| SolveC.AddClauses | src/solve.c:232-265 | add_clauses adds no literal at all and leaves the solver's assignment alone |
| SolveC.ValueGrid | src/solve.c:297-300 | the read-back board has the input board's sizes |
| SolveC.ValueGridAt | src/solve.c:299 | a read-back cell is 0 when its variable was never added, else the variable when the model makes it true and its negation when not |
| SolveC.NothingAddedReadsZero | src/solve.c:296-300 | with no literal added, every read-back cell is 0 |
| SolveC.FillResultBoard | src/solve.c:286-302 | r takes b's sizes and, per used cell, the solver's value of the variable of b's cell; the rest of r is kept |
| SolveC.FillRow | src/solve.c:298-300 | one row of fill_result_board |
| SolveC.Solve | src/solve.c:321-340 | the result is 1 iff the solver is created and the oracle answers 10 for the empty formula, with r the read-back board, which is then all zeros since no literal was added; otherwise 0 and r untouched |
| Solveee.LiveCells | src/tmp/solveee.c:167 | a cell counts as alive iff its literal is positive |
| Solveee.Positional | src/tmp/solveee.c:159-172 | one entry per offset |
| Solveee.NeighInit | src/tmp/solveee.c:142-173 | neigh[k] is the absolute literal of the neighbour at offset k, or 0 when it is off the board; alive counts the neighbours with positive literals |
| Solveee.Clear | src/tmp/solveee.c:159 | memset leaves every entry 0 |
| Solveee.ScannedAll | src/tmp/solveee.c:161-172 | after all offsets neigh is positional and the count is complete |
| Solveee.OffsetStep | src/tmp/solveee.c:162-170 | each offset's entry and its share of the count |
| Solveee.ScanOffset | src/tmp/solveee.c:162-171 | one iteration sets entry k and counts a live neighbour |
| Solveee.ScanNext | src/tmp/solveee.c:162-171 | one iteration moves the scan from offset k to k + 1 |
| Solveee.Scan | src/tmp/solveee.c:161-172 | the loop takes a cleared array to every entry set and the full count |
| Solveee.PositionalAt | src/tmp/solveee.c:163-170 | entry k is the absolute literal of the cell offset k away, or 0 off the board |
| Solveee.LiveCountStep | src/tmp/solveee.c:167-168 | offset k adds 1 to the count exactly when its cell is on the board with a positive literal |
| Solveee.CountLiveSnoc | src/tmp/solveee.c:167-168 | one more cell adds 1 exactly when it is alive |
| Solveee.PositionalNonzero | src/tmp/solveee.c:165-170 | on a board of nonzero literals, entry k is nonzero iff offset k is on the board |
| Solveee.NonZero | src/tmp/solveee.c:24 | the generators accept exactly the nonzero entries |
| Solveee.DeadTwoNeigh | src/tmp/solveee.c:14-40 | dead_two_neigh appends its stream |
| Solveee.DeadOneNeigh | src/tmp/solveee.c:42-62 | dead_one_neigh appends its stream |
| Solveee.DeadNoNeigh | src/tmp/solveee.c:64-77 | dead_no_neigh appends its stream |
| Solveee.Dead | src/tmp/solveee.c:79-87 | dead appends dead_no_neigh's stream then dead_one_neigh's |
| Solveee.LifeClauses | src/tmp/solveee.c:89-117 | life appends its stream |
| Solveee.DeadTwoNeighStream | src/tmp/solveee.c:14-40 | the literals dead_two_neigh adds, as a reference definition (their clauses in Solveee.DeadTwoNeighClauses) |
| Solveee.DeadOneNeighStream | src/tmp/solveee.c:42-62 | the literals dead_one_neigh adds, as a reference definition (their clauses in Solveee.DeadOneNeighClauses) |
| Solveee.DeadNoNeighStream | src/tmp/solveee.c:64-77 | the literals dead_no_neigh adds, as a reference definition (its clause in Solveee.DeadNoNeighClause) |
| Solveee.DeadStream | src/tmp/solveee.c:79-87 | the literals dead adds: dead_no_neigh's then dead_one_neigh's (read back in Solveee.DeadParses) |
| Solveee.LifeStream | src/tmp/solveee.c:89-117 | the literals life adds, as a reference definition (their clauses in Solveee.LifeClausesShape) |
| Solveee.Accepted | src/tmp/solveee.c:24 | the number of nonzero entries is at most the number of entries |
| Solveee.NonZeroPositive | src/tmp/solveee.c:170 | the accepted entries are nonzero, and positive when no entry is negative |
| Solveee.NoneAliveAt | src/tmp/solveee.c:71-74 | the tail over every nonzero entry is a clause of negated nonzero entries |
| Solveee.NoneAliveIs | src/tmp/solveee.c:71-74 | dead_no_neigh's clause is that tail |
| Solveee.NoneAliveFrom | src/tmp/solveee.c:71-74 | each of its literals negates some nonzero entry |
| Solveee.NoneAliveHas | src/tmp/solveee.c:71-74 | each nonzero entry appears negated in it |
| Solveee.DeadNoNeighClause | src/tmp/solveee.c:71-76 | dead_no_neigh emits one clause, holding the negation of every nonzero entry and nothing else |
| Solveee.OneAliveAt | src/tmp/solveee.c:50-61 | the clause for nonzero i is -neigh[i] then +neigh[j] for every other nonzero j |
| Solveee.OneAliveSound | src/tmp/solveee.c:50-61 | every clause is such a clause for some nonzero i |
| Solveee.OneAliveComplete | src/tmp/solveee.c:50-61 | every nonzero i has such a clause |
| Solveee.DeadOneNeighClauses | src/tmp/solveee.c:50-61 | one clause per nonzero entry i: -neigh[i] and +neigh[j] for every other nonzero j, in both directions |
| Solveee.SurvivalAt | src/tmp/solveee.c:98-116 | the clause for a nonzero pair i < j is abs(curr), +neigh[i], +neigh[j], then every other nonzero entry negated |
| Solveee.SurvivalSound | src/tmp/solveee.c:98-116 | every life clause is such a clause for some pair |
| Solveee.SurvivalComplete | src/tmp/solveee.c:98-116 | every nonzero pair has such a clause |
| Solveee.LifeClausesShape | src/tmp/solveee.c:98-116 | life emits C(c, 2) clauses, c the number of nonzero entries, exactly the clause of each pair, in both directions |
| Solveee.TwoAliveAt | src/tmp/solveee.c:23-39 | dead_two_neigh's clause for a pair i < j: -neigh[i], -neigh[j], then the nonzero entries after j positive |
| Solveee.TwoAliveSound | src/tmp/solveee.c:23-39 | every clause is such a clause for some nonzero pair |
| Solveee.TwoAliveComplete | src/tmp/solveee.c:23-39 | every nonzero pair has such a clause |
| Solveee.DeadTwoNeighClauses | src/tmp/solveee.c:23-39 | C(c, 2) clauses, exactly the clause of each nonzero pair, in both directions |
| Solveee.DeadParses | src/tmp/solveee.c:84-86 | dead's clauses are dead_no_neigh's then dead_one_neigh's, 1 + c in all, none holding 0 |
| Solveee.CellsStreamSnoc | src/tmp/solveee.c:193-202 | one more cell appends that cell's literals |
| Solveee.CellStream | src/tmp/solveee.c:195-201 | the literals for one cell: life's for a positive literal, dead's otherwise, over its positional neighbours |
| Solveee.CellsStream | src/tmp/solveee.c:193-202 | the literals for a cell sequence, cell after cell, as a reference definition |
| Solveee.BoardStream | src/tmp/solveee.c:181-204 | everything add_clauses adds for a board, its cells in row-major order, as a reference definition |
| Solveee.AddCell | src/tmp/solveee.c:195-201 | one cell: life when its literal is positive, dead otherwise |
| Solveee.AddCellStep | src/tmp/solveee.c:194-202 | one iteration of the inner loop adds the next cell's literals |
| Solveee.AddRow | src/tmp/solveee.c:193-203 | one pass of the outer loop adds the literals of row i |
| Solveee.AddClauses | src/tmp/solveee.c:181-204 | add_clauses appends exactly every cell's literals in row-major order |
| Solveee.Solve | src/tmp/solveee.c:260-279 | the result is 1 iff the solver is created and the oracle answers 10 for the board's clauses, with r the board read back against the literals of that stream (0 for a variable it never mentions); otherwise 0 and r untouched |
| Solveee.PositionalNonNegative | src/tmp/solveee.c:170 | neighbour entries are never negative |
| Solveee.CellStreamParses | src/tmp/solveee.c:195-201 | a cell's stream reads back as its clauses, none holding 0 |
| Solveee.CellsStreamIs | src/tmp/solveee.c:193-202 | the stream of a cell sequence is the stream of its clauses, none holding 0 |
| Solveee.BoardClauses | src/tmp/solveee.c:193-202 | the solver reads back exactly the clauses of every cell, in row-major order |
| Solveee.CellsClausesHold | src/tmp/solveee.c:193-202 | a cell's clauses are among those of any cell list that holds it |
| Solveee.SatisfiedCells | src/tmp/solveee.c:270 | an answer of 10 from a sound solver satisfies every cell's clauses |
| Solveee.LoneLiveCellReadsZero | src/tmp/solveee.c:238 | on a 1 x 1 board with its cell alive no literal is added, so the cell reads back as 0 |
| BoardCpp.AnyBudget | src/board.cpp:60 | the any task's budget: wait_time - 200, wrapping by 2^32 below 200 |
| BoardCpp.AnyBudgetWraps | src/board.cpp:60 | below 200 ms the budget exceeds the whole wait |
| BoardCpp.Millis | src/board.cpp:141 | 1000 * wait_time modulo 2^32, exact up to 4294967 s |
| BoardCpp.MillisWraps | src/board.cpp:141 | 4294968 s wraps to 704 ms |
| BoardCpp.RemainingWait | src/board.cpp:95-99 | the min task's wait never exceeds wait_time and never wraps: zero iff the first wait used it all, otherwise what is left |
| BoardCpp.WaitFuture | src/utils.hpp:57-67 | a value iff the wait is not zero and the future is ready, and then the future's value |
| BoardCpp.ZeroWaitDiscards | src/utils.hpp:60 | a zero-length wait discards the result |
| BoardCpp.Board.constructor | src/board.cpp:18 | an n x m table of zeros |
| BoardCpp.Board.LaunchTasks | src/board.cpp:51-108 | second implies first; an any task that did not launch leaves first false and its board untouched, a min task that did not launch leaves its board untouched; when the any task launched, first holds iff its first check was made and was sat; second iff both launched, first holds, time is left, the min future is ready and the optimising check is sat; on a board that fits, any or min then hold a predecessor, with min's population the smallest |
| BoardCpp.Board.PreviousState | src/board.cpp:127-151 | always returns a board: all zeros without a first result, otherwise a 0/1 predecessor (on a board that fits), the one with the fewest live cells when the second flag is set |
| BoardCpp.ShowOptional | src/board.cpp:202-211 | a present board prints as its table text; "No solution found." is printed iff the optional is empty |

## Left out

- The Z3 and Kissat decision procedures: oracles stand for them, constrained only by soundness.
- Solver parameters: the thread count, the timeout setting on the Z3 parameters, and kissat_release (including the early return that skips it in src/solve.c).
- Threads and std::async: launch_tasks runs solve_iter and then solve one after the other. Whether each task launched, how long the first wait took and whether the min future became ready are inputs. A launched task always runs to its end and fills its board, as the blocking destructor of its future makes it do in the source.
- BoardCpp.Board.LaunchTasks: `ret.first` is solve_iter's final `sat`. This models the return value living where solve_iter writes it (named return value optimisation); the data race between that write and launch_tasks' read, and a copy of `ret` made before a late write, are not modelled.
- The clocks: elapsed times are inputs.
- Stream plumbing: main.c, main.cpp, fscanf/fprintf, operator>> and operator<< of board.cpp as stream wrappers, and std::string formatting of Z3 constant names (the names are the `T0`/`T1` constructors).
- The debug printfs of solve.c's add_clauses.
- Matrices.Matrix.Show: a write that fails part-way through the text is not modelled; a good stream receives the whole text, a bad one nothing.
- BoardCpp.ShowOptional: models a good stream only.
- Matrices.Matrix.Read: an element's extraction is a token that either succeeds with a value or fails after storing a value (for `int`, 0 on a malformed number and INT_MAX or INT_MIN out of range, so "9999999999" reads as a live cell); the end of the input stores nothing. Turning text into tokens is not modelled.
- Solveee.NeighInit: requires i + 1 and j + 1 not to wrap around size_t, which holds on any board within the 20 x 20 capacity; the source has no such requirement.
- CBoard.Read: requires n, m <= N = 20, which board_read does not check; larger sizes write outside the table.
- Abs of INT_MIN: the model's absolute value does not overflow. Literals stay within +-400 on any board within capacity.
- Rgol.IterOutcome, Rgol.SolveOutcome, BoardCpp.Board.LaunchTasks, BoardCpp.Board.PreviousState: the predecessor conclusions assume Fits(n, m) (both sides below 2^31), so that neigh_sum's int casts are exact. SolveIter and Solve themselves model the casts for any size.
- BoardCpp.AnyBudget: the any-task budget is not required to be at least 200 ms. The wrap is modelled as written, not excluded by a precondition.
- Declarations in rgol.hpp that do not match rgol.cpp's definitions (solve with a thread count, solve_min_alive) follow the .cpp.

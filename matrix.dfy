/**
 * The row-major, bounds-checked 2-D container `Matrix<T>` of src/matrix.hpp.
 *
 * `base` is the std::vector of n*m elements, `data` the row-pointer view:
 * row i starts at offset data[i] == i*m of `base`. The view is fixed once the
 * constructor has built it, so it is a constant sequence of offsets; only the
 * elements of `base` change afterwards.
 */
module Matrices {
  import opened Wrappers
  import opened RowMajor

  /** The std::out_of_range exception thrown by Matrix::at. */
  datatype OutOfRange = OutOfRange

  /**
   * One element extraction `is >> x`: Good when it succeeds with value, Bad
   * when it fails after storing `stored` in x.
   */
  datatype Token<T> = Good(value: T) | Bad(stored: T)

  /** The n x m grid whose every element is v. */
  function Constant<T>(n: nat, m: nat, v: T): seq<seq<T>>
  {
    seq(n, _ => seq(m, _ => v))
  }

  class Matrix<T> {
    const n: nat
    const m: nat
    const base: array<T>
    const data: seq<nat>

    ghost predicate Valid()
    {
      base.Length == n * m &&
      |data| == n &&
      forall i :: 0 <= i < n ==> data[i] == i * m
    }

    /** The elements, row by row. */
    function Rows(): (g: seq<seq<T>>)
      reads base
      requires Valid()
      ensures |g| == n
      ensures forall i :: 0 <= i < n ==> |g[i]| == m
    {
      Unflatten(base[..], n, m)
    }

    /** Matrix(n, m, def): n x m elements, all equal to def, and the row offsets. */
    constructor (n: nat, m: nat, def: T)
      ensures Valid() && fresh(base)
      ensures this.n == n && this.m == m
      ensures Rows() == Constant(n, m, def)
    {
      this.n, this.m := n, m;
      var b := new T[n * m](_ => def);
      var rows: seq<nat> := [];
      var i := 0;
      while i < n
        invariant 0 <= i <= n
        invariant |rows| == i
        invariant forall k :: 0 <= k < i ==> rows[k] == k * m
      {
        rows := rows + [i * m];
        i := i + 1;
      }
      base, data := b, rows;
      new;
      UnflattenConstant(base[..], n, m, def);
    }

    /**
     * Matrix::at (used by both operator() overloads): element (i, j) through the
     * row-pointer view, or std::out_of_range when i >= n or j >= m.
     */
    function At(i: nat, j: nat): (r: Result<T, OutOfRange>)
      reads base
      requires Valid()
      ensures r.Success? <==> i < n && j < m
      ensures r.Success? ==> r.value == Rows()[i][j]
    {
      if i >= n || j >= m then Failure(OutOfRange)
      else
        UnflattenAt(base[..], n, m, i, j);
        Success(base[data[i] + j])
    }

    /** `matrix(i, j) = v`: writes element (i, j) only, or throws std::out_of_range. */
    method Set(i: nat, j: nat, v: T) returns (r: Result<(), OutOfRange>)
      requires Valid()
      modifies base
      ensures r.Success? <==> i < n && j < m
      ensures r.Success? ==> Rows() == old(Rows())[i := old(Rows())[i][j := v]]
      ensures r.Failure? ==> base[..] == old(base[..])
    {
      if i >= n || j >= m {
        return Failure(OutOfRange);
      }
      RowEnd(i, n, m);
      UnflattenUpdate(base[..], n, m, i, j, v);
      base[data[i] + j] := v;
      assert base[..] == old(base[..])[i * m + j := v];
      r := Success(());
    }

    /**
     * operator>>: reads elements in row-major order from a stream of tokens.
     * A Bad token is an extraction that fails but still stores a value (0 for
     * a malformed int, INT_MAX or INT_MIN for one out of range); running out
     * of tokens fails without storing anything. Reading stops at the first
     * failed extraction and sets the failbit; nothing is read from a stream
     * that is not good at entry.
     */
    method Read(tokens: seq<Token<T>>, good: bool) returns (failed: bool)
      requires Valid()
      modifies base
      ensures var k := if good then GoodPrefix(tokens, n * m) else 0;
        (forall q :: 0 <= q < k ==> base[q] == tokens[q].value) &&
        (good && k < n * m && k < |tokens| ==> base[k] == tokens[k].stored) &&
        (forall q :: k < q < n * m ==> base[q] == old(base[q])) &&
        (!(good && k < |tokens|) && k < n * m ==> base[k] == old(base[k]))
      ensures failed <==> good && GoodPrefix(tokens, n * m) < n * m
    {
      failed := false;
      if !good {
        return;
      }
      var q := 0;
      var i := 0;
      while i < n && !failed
        invariant 0 <= i <= n
        invariant q <= n * m && q <= |tokens|
        invariant !failed ==> q == i * m
        invariant forall p :: 0 <= p < q ==> tokens[p].Good? && base[p] == tokens[p].value
        invariant forall p :: q < p < n * m ==> base[p] == old(base[p])
        invariant !failed && q < n * m ==> base[q] == old(base[q])
        invariant failed ==> q < n * m && (q == |tokens| || (tokens[q].Bad? && base[q] == tokens[q].stored))
        invariant failed && q == |tokens| ==> base[q] == old(base[q])
      {
        RowEnd(i, n, m);
        ghost var start := q;
        var j := 0;
        while j < m
          invariant 0 <= j <= m
          invariant q == start + j && q <= |tokens|
          invariant forall p :: 0 <= p < q ==> tokens[p].Good? && base[p] == tokens[p].value
          invariant forall p :: q <= p < n * m ==> base[p] == old(base[p])
          invariant !failed
        {
          assert data[i] + j == q;
          if q >= |tokens| {
            failed := true;
            break;
          }
          if tokens[q].Bad? {
            base[data[i] + j] := tokens[q].stored;
            failed := true;
            break;
          }
          base[data[i] + j] := tokens[q].value;
          q, j := q + 1, j + 1;
        }
        if !failed {
          assert q == i * m + m == (i + 1) * m;
        }
        i := i + 1;
      }
      GoodPrefixIs(tokens, n * m, q);
    }

    /**
     * operator<<: the text written to a stream that is good at entry, each
     * element followed by " " and a "\n" between rows; nothing otherwise.
     * A write that fails part-way is not modelled.
     */
    function Show(show: T -> string, good: bool): string
      reads base
      requires Valid()
    {
      if good then Text(Rows(), show) else ""
    }
  }

  lemma UnflattenConstant<T>(s: seq<T>, n: nat, m: nat, v: T)
    requires |s| == n * m
    requires forall k :: 0 <= k < |s| ==> s[k] == v
    ensures Unflatten(s, n, m) == Constant(n, m, v)
  {
    var g := Unflatten(s, n, m);
    forall x | 0 <= x < n ensures g[x] == Constant(n, m, v)[x] {
      RowEnd(x, n, m);
      var o := x * m;
      assert g[x] == s[o .. o + m];
    }
  }

  /** Number of leading tokens that extract successfully, at most cap. */
  function GoodPrefix<T>(tokens: seq<Token<T>>, cap: nat): (k: nat)
    ensures k <= cap && k <= |tokens|
    ensures forall q :: 0 <= q < k ==> tokens[q].Good?
    ensures k < cap ==> k == |tokens| || tokens[k].Bad?
  {
    if cap == 0 || tokens == [] || tokens[0].Bad? then 0
    else 1 + GoodPrefix(tokens[1..], cap - 1)
  }

  /** GoodPrefix is the only count with its three properties. */
  lemma GoodPrefixIs<T>(tokens: seq<Token<T>>, cap: nat, k: nat)
    requires k <= cap && k <= |tokens|
    requires forall q :: 0 <= q < k ==> tokens[q].Good?
    requires k < cap ==> k == |tokens| || tokens[k].Bad?
    ensures GoodPrefix(tokens, cap) == k
  {
  }

  /** The text of one row: every element followed by a space. */
  function RowText<T>(row: seq<T>, show: T -> string): string
  {
    if row == [] then "" else RowText(row[..|row| - 1], show) + show(row[|row| - 1]) + " "
  }

  /** Rows i.. of the matrix text: a newline follows every row but the last. */
  function TextFrom<T>(rows: seq<seq<T>>, show: T -> string, i: nat): string
    decreases |rows| - i
  {
    if i >= |rows| then ""
    else RowText(rows[i], show) + (if i != |rows| - 1 then "\n" else "") + TextFrom(rows, show, i + 1)
  }

  function Text<T>(rows: seq<seq<T>>, show: T -> string): string
  {
    TextFrom(rows, show, 0)
  }

  function Occurrences(s: string, c: char): nat
  {
    if s == [] then 0 else Occurrences(s[..|s| - 1], c) + (if s[|s| - 1] == c then 1 else 0)
  }

  lemma {:induction false} OccurrencesConcat(a: string, b: string, c: char)
    ensures Occurrences(a + b, c) == Occurrences(a, c) + Occurrences(b, c)
  {
    if b != [] {
      OccurrencesConcat(a, b[..|b| - 1], c);
      assert (a + b)[..|a + b| - 1] == a + b[..|b| - 1];
    } else {
      assert a + b == a;
    }
  }

  /** A row's text holds no newline when no element's text does. */
  lemma {:induction false} RowTextNoNewline<T>(row: seq<T>, show: T -> string)
    requires forall x :: Occurrences(show(x), '\n') == 0
    ensures Occurrences(RowText(row, show), '\n') == 0
  {
    if row != [] {
      RowTextNoNewline(row[..|row| - 1], show);
      OccurrencesConcat(RowText(row[..|row| - 1], show), show(row[|row| - 1]), '\n');
      OccurrencesConcat(RowText(row[..|row| - 1], show) + show(row[|row| - 1]), " ", '\n');
    }
  }

  /** The text of n >= 1 rows holds exactly n - 1 newlines: none after the last row. */
  lemma {:induction false} TextNewlines<T>(rows: seq<seq<T>>, show: T -> string, i: nat)
    requires forall x :: Occurrences(show(x), '\n') == 0
    requires i < |rows|
    ensures Occurrences(TextFrom(rows, show, i), '\n') == |rows| - 1 - i
    decreases |rows| - i
  {
    var sep := if i != |rows| - 1 then "\n" else "";
    RowTextNoNewline(rows[i], show);
    OccurrencesConcat(RowText(rows[i], show), sep, '\n');
    OccurrencesConcat(RowText(rows[i], show) + sep, TextFrom(rows, show, i + 1), '\n');
    assert Occurrences("\n", '\n') == 1;
    if i + 1 < |rows| {
      TextNewlines(rows, show, i + 1);
    }
  }

  /** A non-empty row's text ends with the space written after its last element. */
  lemma RowTextEndsWithSpace<T>(row: seq<T>, show: T -> string)
    requires row != []
    ensures RowText(row, show) != [] && RowText(row, show)[|RowText(row, show)| - 1] == ' '
  {
  }

  /** The matrix text is empty or ends with a space or a newline. */
  lemma {:induction false} TextLastChar<T>(rows: seq<seq<T>>, show: T -> string, i: nat)
    ensures var t := TextFrom(rows, show, i); t == [] || t[|t| - 1] in {' ', '\n'}
    decreases |rows| - i
  {
    if i < |rows| {
      var rest := TextFrom(rows, show, i + 1);
      TextLastChar(rows, show, i + 1);
      if rest == [] {
        if i != |rows| - 1 {
          assert TextFrom(rows, show, i) == RowText(rows[i], show) + "\n" + rest;
        } else if rows[i] != [] {
          RowTextEndsWithSpace(rows[i], show);
          assert TextFrom(rows, show, i) == RowText(rows[i], show) + "" + rest;
        }
      }
    }
  }
}

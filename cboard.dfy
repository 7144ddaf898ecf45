/**
 * The C board of src/board.c and src/board.h: an N x N table of which the
 * first n rows and m columns are used. board_read replaces each input value
 * by a signed literal whose magnitude numbers the cell (with stride n) and
 * whose sign says whether the cell is alive; board_print turns the signs back
 * into 1 and 0.
 */
module CBoard {
  import opened RowMajor
  import opened CInt

  /** The capacity of a board in each dimension. */
  const N: nat := 20

  function Abs(v: int): nat
  {
    if v < 0 then -v else v
  }

  class Board {
    var n: nat
    var m: nat
    const table: array2<int>

    ghost predicate Valid()
      reads this
    {
      table.Length0 == N && table.Length1 == N && n <= N && m <= N
    }

    /** A zeroed board. */
    constructor ()
      ensures Valid() && fresh(table) && n == 0 && m == 0
    {
      n, m := 0, 0;
      table := new int[N, N]((_, _) => 0);
    }

    /** The used part of the table, row by row. */
    function Cells(): (g: seq<seq<int>>)
      reads this, table
      requires Valid()
      ensures IsGrid(g, n, m)
      ensures forall i, j :: 0 <= i < n && 0 <= j < m ==> g[i][j] == table[i, j]
    {
      var n, m := this.n, this.m;
      seq(n, i requires 0 <= i < n reads table => seq(m, j requires 0 <= j < m reads table => table[i, j]))
    }
  }

  /**
   * The literal board_read stores for input v at (i, j) of a board with n
   * rows: the size_t index i*n + j + 1, negated in size_t arithmetic when v is
   * 0, converted to `int`.
   */
  function Literal(i: nat, j: nat, n: nat, v: int): (r: int)
    ensures -0x8000_0000 <= r < 0x8000_0000
    ensures (r - (if v == 0 then -(i * n + j + 1) else i * n + j + 1)) % 0x1_0000_0000 == 0
  {
    var ind := SizeT(i * n + j + 1);
    var w := if v == 0 then SizeT(-(ind as int)) else ind;
    WrapCongruent(i * n + j + 1, ind, w, v == 0, ToInt32(w));
    ToInt32(w)
  }

  /** On a board within capacity the conversions are exact: the literal is +-(i*n + j + 1). */
  lemma LiteralIs(i: nat, j: nat, n: nat, v: int)
    requires i < n <= N && j < N
    ensures Abs(Literal(i, j, n, v)) == i * n + j + 1
    ensures Literal(i, j, n, v) != 0
    ensures Literal(i, j, n, v) < 0 <==> v == 0
  {
    MulMonotone(i, N, n);
    MulMonotone(n, N, N);
    var ind := i * n + j + 1;
    assert ind < 0x8000_0000;
    assert SizeT(ind) == ind;
    ToInt32SizeT(-ind);
  }

  /** With no more columns than rows, distinct cells get distinct literal magnitudes. */
  lemma LiteralInjective(i: nat, j: nat, i': nat, j': nat, n: nat, m: nat, v: int, v': int)
    requires m <= n <= N && i < n && i' < n && j < m && j' < m
    requires Abs(Literal(i, j, n, v)) == Abs(Literal(i', j', n, v'))
    ensures i == i' && j == j'
  {
    LiteralIs(i, j, n, v);
    LiteralIs(i', j', n, v');
    Injective(i, j, i', j', n);
  }

  /** With more columns than rows the stride n makes literals collide: on a 2 x 3 board (0, 2) and (1, 0) share |3|. */
  lemma LiteralCollision()
    ensures Abs(Literal(0, 2, 2, 1)) == Abs(Literal(1, 0, 2, 1)) == 3
  {
    LiteralIs(0, 2, 2, 1);
    LiteralIs(1, 0, 2, 1);
  }

  /** The table board_read builds from the row-major input values. */
  function Encoded(vals: seq<int>, n: nat, m: nat): (g: seq<seq<int>>)
    requires |vals| == n * m
    ensures IsGrid(g, n, m)
  {
    var rows := Unflatten(vals, n, m);
    seq(n, i requires 0 <= i < n => seq(m, j requires 0 <= j < m => Literal(i, j, n, rows[i][j])))
  }

  /** The cells a row-major double loop has written before reaching (i, j). */
  predicate Visited(x: nat, y: nat, i: nat, j: nat, m: nat)
  {
    y < m && (x < i || (x == i && y < j))
  }

  /** board_read after the sizes: each value becomes its cell's literal; the unused part of the table is kept. */
  method Read(b: Board, n: nat, m: nat, vals: seq<int>)
    requires b.Valid() && n <= N && m <= N && |vals| == n * m
    modifies b, b.table
    ensures b.Valid() && b.n == n && b.m == m
    ensures b.Cells() == Encoded(vals, n, m)
    ensures forall x, y :: 0 <= x < N && 0 <= y < N && !(x < n && y < m) ==> b.table[x, y] == old(b.table[x, y])
  {
    b.n, b.m := n, m;
    ghost var rows := Unflatten(vals, n, m);
    var i := 0;
    while i < n
      invariant 0 <= i <= n && b.Valid() && b.n == n && b.m == m
      invariant forall x, y :: 0 <= x < N && 0 <= y < N ==>
        b.table[x, y] == if Visited(x, y, i, 0, m) then Literal(x, y, n, rows[x][y]) else old(b.table[x, y])
    {
      var j := 0;
      while j < m
        invariant 0 <= j <= m && b.Valid() && b.n == n && b.m == m
        invariant forall x, y :: 0 <= x < N && 0 <= y < N ==>
          b.table[x, y] == if Visited(x, y, i, j, m) then Literal(x, y, n, rows[x][y]) else old(b.table[x, y])
      {
        RowEnd(i, n, m);
        UnflattenAt(vals, n, m, i, j);
        b.table[i, j] := Literal(i, j, b.n, vals[i * m + j]);
        j := j + 1;
      }
      i := i + 1;
    }
    GridEq(b.Cells(), Encoded(vals, n, m), n, m);
  }

  lemma GridEq<X>(g: seq<seq<X>>, h: seq<seq<X>>, n: nat, m: nat)
    requires IsGrid(g, n, m) && IsGrid(h, n, m)
    requires forall i, j :: 0 <= i < n && 0 <= j < m ==> g[i][j] == h[i][j]
    ensures g == h
  {
    forall i | 0 <= i < n ensures g[i] == h[i] {
    }
  }

  /** What board_print writes for one cell: "1 " for a positive entry, "0 " otherwise. */
  function Digit(v: int): (s: string)
    ensures |s| == 2 && s[1] == ' ' && (s[0] == '1' || s[0] == '0')
    ensures s[0] == '1' <==> v > 0
  {
    if v > 0 then "1 " else "0 "
  }

  function RowShown(row: seq<int>): string
  {
    if row == [] then "" else RowShown(row[..|row| - 1]) + Digit(row[|row| - 1])
  }

  /** board_print's output: every row's digits followed by a newline. */
  function Shown(g: seq<seq<int>>): string
  {
    if g == [] then "" else Shown(g[..|g| - 1]) + RowShown(g[|g| - 1]) + "\n"
  }

  /** A row is shown as two characters per cell: the digit and a space. */
  lemma {:induction false} RowShownAt(row: seq<int>)
    ensures |RowShown(row)| == 2 * |row|
    ensures forall k :: 0 <= k < |row| ==>
      RowShown(row)[2 * k] == (if row[k] > 0 then '1' else '0') && RowShown(row)[2 * k + 1] == ' '
  {
    if row != [] {
      RowShownAt(row[..|row| - 1]);
    }
  }

  lemma ShownSnoc(g: seq<seq<int>>, row: seq<int>)
    ensures Shown(g + [row]) == Shown(g) + RowShown(row) + "\n"
  {
    assert (g + [row])[..|g|] == g;
  }

  /** The characters board_print writes per row of m cells. */
  function Width(m: nat): nat
  {
    2 * m + 1
  }

  lemma MulSucc(a: nat, w: nat)
    ensures a * w + w == (a + 1) * w
  {
  }

  /** Row i of n starts at a nonnegative offset and ends within the text. */
  lemma RowStart(i: nat, n: nat, m: nat)
    requires i < n
    ensures 0 <= i * Width(m) && i * Width(m) + Width(m) <= n * Width(m)
  {
    MulMonotone(0, i, Width(m));
    RowEnd(i, n, Width(m));
  }

  lemma {:induction false} ShownLength(g: seq<seq<int>>, n: nat, m: nat)
    requires IsGrid(g, n, m)
    ensures |Shown(g)| == n * Width(m)
  {
    if n > 0 {
      ShownLength(g[..n - 1], n - 1, m);
      RowShownAt(g[n - 1]);
      MulSucc(n - 1, Width(m));
    }
  }

  /**
   * Decoding the printed text: on an n x m grid row i takes the 2m + 1
   * characters from i*(2m + 1) on, and they are that row's digits and a newline.
   */
  lemma {:induction false} ShownRow(g: seq<seq<int>>, n: nat, m: nat, i: nat)
    requires IsGrid(g, n, m) && i < n
    ensures i * Width(m) + Width(m) <= |Shown(g)|
    ensures Shown(g)[i * Width(m) .. i * Width(m) + Width(m)] == RowShown(g[i]) + "\n"
  {
    var w := Width(m);
    var h := g[..n - 1];
    var last := RowShown(g[n - 1]) + "\n";
    ShownLength(g, n, m);
    ShownLength(h, n - 1, m);
    RowStart(i, n, m);
    RowShownAt(g[n - 1]);
    assert Shown(g) == Shown(h) + last;
    if i < n - 1 {
      ShownRow(h, n - 1, m, i);
      RowStart(i, n - 1, m);
      SliceLeft(Shown(h), last, i * w, i * w + w);
    } else {
      SliceRight(Shown(h), last);
    }
  }

  lemma SliceLeft<X>(a: seq<X>, b: seq<X>, lo: nat, hi: nat)
    requires lo <= hi <= |a|
    ensures (a + b)[lo .. hi] == a[lo .. hi]
  {
  }

  lemma SliceRight<X>(a: seq<X>, b: seq<X>)
    ensures (a + b)[|a| .. |a| + |b|] == b
  {
  }

  /** The character board_print writes for cell (i, j), and the space after it. */
  lemma ShownCell(g: seq<seq<int>>, n: nat, m: nat, i: nat, j: nat)
    requires IsGrid(g, n, m) && i < n && j < m
    ensures i * Width(m) + 2 * j + 1 < |Shown(g)|
    ensures Shown(g)[i * Width(m) + 2 * j] == (if g[i][j] > 0 then '1' else '0')
    ensures Shown(g)[i * Width(m) + 2 * j + 1] == ' '
  {
    var o, w := i * Width(m), Width(m);
    var s, r := Shown(g), RowShown(g[i]);
    ShownRow(g, n, m, i);
    RowShownAt(g[i]);
    RowStart(i, n, m);
    assert s[o .. o + w] == r + "\n";
    assert s[o + 2 * j] == (r + "\n")[2 * j] == r[2 * j];
    assert s[o + 2 * j + 1] == (r + "\n")[2 * j + 1] == r[2 * j + 1];
  }

  /** Row i ends with a newline. */
  lemma ShownNewline(g: seq<seq<int>>, n: nat, m: nat, i: nat)
    requires IsGrid(g, n, m) && i < n
    ensures i * Width(m) + 2 * m < |Shown(g)|
    ensures Shown(g)[i * Width(m) + 2 * m] == '\n'
  {
    var o, w := i * Width(m), Width(m);
    var s, r := Shown(g), RowShown(g[i]);
    ShownRow(g, n, m, i);
    RowShownAt(g[i]);
    RowStart(i, n, m);
    assert s[o .. o + w] == r + "\n";
    assert s[o + 2 * m] == (r + "\n")[2 * m];
  }

  /** board_print: the digits of the used cells, row by row. */
  method Print(b: Board) returns (out: string)
    requires b.Valid()
    ensures out == Shown(b.Cells())
  {
    ghost var g := b.Cells();
    out := "";
    var i := 0;
    while i < b.n
      invariant 0 <= i <= b.n
      invariant out == Shown(g[..i])
    {
      var row := PrintRow(b, i);
      out := out + row + "\n";
      ShownSnoc(g[..i], g[i]);
      TakeSnoc(g, i);
      i := i + 1;
    }
    TakeAll(g);
  }

  /** The inner loop of board_print: the digits of row i. */
  method PrintRow(b: Board, i: nat) returns (out: string)
    requires b.Valid() && i < b.n
    ensures out == RowShown(b.Cells()[i])
  {
    ghost var row := b.Cells()[i];
    out := "";
    var j := 0;
    while j < b.m
      invariant 0 <= j <= b.m
      invariant out == RowShown(row[..j])
    {
      out := out + Digit(b.table[i, j]);
      TakeSnoc(row, j);
      j := j + 1;
    }
    TakeAll(row);
  }

  lemma TakeSnoc<X>(s: seq<X>, i: nat)
    requires i < |s|
    ensures s[..i + 1] == s[..i] + [s[i]]
  {
  }

  lemma TakeAll<X>(s: seq<X>)
    ensures s[..|s|] == s
  {
  }

  /** The input as board_print would show it: 1 where a value is nonzero, 0 elsewhere. */
  function Bits(vals: seq<int>, n: nat, m: nat): (g: seq<seq<int>>)
    requires |vals| == n * m
    ensures IsGrid(g, n, m)
  {
    var rows := Unflatten(vals, n, m);
    seq(n, i requires 0 <= i < n => seq(m, j requires 0 <= j < m => if rows[i][j] != 0 then 1 else 0))
  }

  /** Rows with the same signs print the same. */
  lemma {:induction false} RowShownSigns(a: seq<int>, b: seq<int>)
    requires |a| == |b| && forall k :: 0 <= k < |a| ==> (a[k] > 0 <==> b[k] > 0)
    ensures RowShown(a) == RowShown(b)
  {
    if a != [] {
      RowShownSigns(a[..|a| - 1], b[..|b| - 1]);
    }
  }

  /** Grids with the same signs print the same. */
  lemma {:induction false} ShownSigns(g: seq<seq<int>>, h: seq<seq<int>>, n: nat, m: nat)
    requires IsGrid(g, n, m) && IsGrid(h, n, m)
    requires forall i, j :: 0 <= i < n && 0 <= j < m ==> (g[i][j] > 0 <==> h[i][j] > 0)
    ensures Shown(g) == Shown(h)
  {
    if n > 0 {
      ShownSigns(g[..n - 1], h[..n - 1], n - 1, m);
      RowShownSigns(g[n - 1], h[n - 1]);
    }
  }

  /** Reading a board and printing it shows 1 exactly where the input value was nonzero. */
  lemma ReadThenPrint(vals: seq<int>, n: nat, m: nat)
    requires n <= N && m <= N && |vals| == n * m
    ensures Shown(Encoded(vals, n, m)) == Shown(Bits(vals, n, m))
  {
    var g, h := Encoded(vals, n, m), Bits(vals, n, m);
    forall i, j | 0 <= i < n && 0 <= j < m ensures g[i][j] > 0 <==> h[i][j] > 0 {
      LiteralIs(i, j, n, Unflatten(vals, n, m)[i][j]);
    }
    ShownSigns(g, h, n, m);
  }
}

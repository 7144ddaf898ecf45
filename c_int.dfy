/**
 * C and C++ integer conversions used by the neighbour loops of both back-ends:
 * 64-bit `size_t` wrap-around and conversion to a 32-bit `int`.
 */
module CInt {
  import opened RowMajor
  import opened Life

  const SizeTModulus: nat := 0x1_0000_0000_0000_0000

  /** A `size_t` result: the value wraps around modulo 2^64. */
  function SizeT(v: int): (r: nat)
    ensures r < SizeTModulus
    ensures (v - r) % SizeTModulus == 0
    ensures 0 <= v < SizeTModulus ==> r == v
  {
    v % SizeTModulus
  }

  /** A C++ conversion to a 32-bit `int`: the value congruent to v modulo 2^32 in [-2^31, 2^31). */
  function ToInt32(v: int): (r: int)
    ensures -0x8000_0000 <= r < 0x8000_0000
    ensures (v - r) % 0x1_0000_0000 == 0
    ensures v >= 0 ==> r <= v
    ensures -0x8000_0000 <= v < 0x8000_0000 ==> r == v
  {
    var w := v % 0x1_0000_0000;
    if w < 0x8000_0000 then w else w - 0x1_0000_0000
  }

  /**
   * A value wrapped to size_t, possibly negated again in size_t arithmetic,
   * then converted to int, stays congruent modulo 2^32 to the value (or its
   * negation).
   */
  lemma WrapCongruent(e: int, ind: int, w: int, neg: bool, r: int)
    requires (e - ind) % SizeTModulus == 0
    requires neg ==> (-ind - w) % SizeTModulus == 0
    requires !neg ==> w == ind
    requires (w - r) % 0x1_0000_0000 == 0
    ensures (r - (if neg then -e else e)) % 0x1_0000_0000 == 0
  {
    var a := (e - ind) / SizeTModulus;
    var c := (w - r) / 0x1_0000_0000;
    assert e - ind == a * SizeTModulus;
    assert w - r == c * 0x1_0000_0000;
    if neg {
      var b := (-ind - w) / SizeTModulus;
      assert -ind - w == b * SizeTModulus;
      assert r + e == ((a - b) * 0x1_0000_0000 - c) * 0x1_0000_0000;
    } else {
      assert r - e == (-(a * 0x1_0000_0000) - c) * 0x1_0000_0000;
    }
  }

  /** Boards whose row and column indices survive the `int` conversions of neigh_sum. */
  predicate Fits(n: nat, m: nat)
  {
    n < 0x8000_0000 && m < 0x8000_0000
  }

  /**
   * The cells neigh_sum adds up for (i, j) over the first k offsets: the
   * coordinates and the board size are converted to `int` before the bounds
   * test.
   */
  function CastNeighbourCells(n: nat, m: nat, i: nat, j: nat, k: nat): (cs: seq<Cell>)
    requires k <= |Offsets|
    ensures forall c :: c in cs ==> c.i < n && c.j < m
  {
    if k == 0 then []
    else
      var x, y := ToInt32(Offsets[k - 1].0 + i), ToInt32(Offsets[k - 1].1 + j);
      CastNeighbourCells(n, m, i, j, k - 1) +
        (if 0 <= x < ToInt32(n) && 0 <= y < ToInt32(m) then [Cell(x, y)] else [])
  }

  /** One more offset adds the converted cell it reaches when that cell passes the bounds test. */
  lemma CastNeighbourStep(n: nat, m: nat, i: nat, j: nat, k: nat, x: int, y: int)
    requires k < |Offsets|
    requires x == ToInt32(Offsets[k].0 + i) && y == ToInt32(Offsets[k].1 + j)
    ensures 0 <= x < ToInt32(n) && 0 <= y < ToInt32(m) ==>
      CastNeighbourCells(n, m, i, j, k + 1) == CastNeighbourCells(n, m, i, j, k) + [Cell(x, y)]
    ensures !(0 <= x < ToInt32(n) && 0 <= y < ToInt32(m)) ==>
      CastNeighbourCells(n, m, i, j, k + 1) == CastNeighbourCells(n, m, i, j, k)
  {
  }

  /** On a board that fits, the conversions change nothing: neigh_sum visits the neighbours. */
  lemma {:induction false} CastNeighboursExact(n: nat, m: nat, i: nat, j: nat, k: nat)
    requires Fits(n, m) && i < n && j < m && k <= |Offsets|
    ensures CastNeighbourCells(n, m, i, j, k) == NeighbourCells(n, m, i, j, k)
  {
    if k > 0 {
      CastNeighboursExact(n, m, i, j, k - 1);
      OffsetIndexOf(k - 1);
      var x, y := Offsets[k - 1].0 + i, Offsets[k - 1].1 + j;
      assert ToInt32(x) == x && ToInt32(y) == y;
      assert ToInt32(n) == n && ToInt32(m) == m;
    }
  }

  /** Converting a wrapped `size_t` to `int` gives the same value as converting the exact sum. */
  lemma ToInt32SizeT(v: int)
    ensures ToInt32(SizeT(v)) == ToInt32(v)
  {
    var q := v / SizeTModulus;
    assert v == q * SizeTModulus + SizeT(v);
    assert q * SizeTModulus == (q * 0x1_0000_0000) * 0x1_0000_0000;
  }

  /**
   * The unsigned bounds test `x < n` on a `size_t` coordinate x = v mod 2^64:
   * for v from -1 up, -1 wraps to 2^64 - 1 and fails the test, so the test
   * accepts exactly the v with 0 <= v < n.
   */
  lemma SizeTBelow(v: int, n: nat)
    requires -1 <= v < SizeTModulus && n < SizeTModulus
    ensures SizeT(v) < n <==> 0 <= v < n
  {
    if v == -1 {
      assert SizeT(v) == SizeTModulus - 1;
    }
  }
}

/** Integer arithmetic as the library's C++ `int` operations perform it. */
module Arith {

  /** Absolute value of an integer (`std::abs` on `int`). */
  function IntAbs(a: int): (r: int)
    ensures 0 <= r
    ensures r == a || r == -a
  {
    if a < 0 then -a else a
  }

  /**
   * C++ integer division `a / d`: the quotient is truncated toward zero, so
   * the remainder `a - q * d` has the sign of `a` and is smaller than `|d|`.
   * (Dafny's own `/` is Euclidean and differs for negative operands.)
   */
  function TruncDiv(a: int, d: int): (q: int)
    requires d != 0
    ensures 0 <= a ==> 0 <= a - q * d < IntAbs(d)
    ensures a < 0 ==> -IntAbs(d) < a - q * d <= 0
  {
    if 0 <= a && 0 < d then a / d
    else if 0 <= a then
      assert -(a / -d) * d == (a / -d) * -d;
      -(a / -d)
    else if 0 < d then
      assert -((-a) / d) * d == -(((-a) / d) * d);
      -((-a) / d)
    else
      assert ((-a) / -d) * d == -(((-a) / -d) * -d);
      (-a) / -d
  }

  /** On non-negative operands C++ division agrees with Dafny's. */
  lemma TruncDivNonNegative(a: int, d: int)
    requires 0 <= a && 0 < d
    ensures TruncDiv(a, d) == a / d
  {
  }

  /**
   * Division with remainder is unique: `q * d + r` with `0 <= r < d` has quotient `q`.
   * Used by `Primitives.PointOfLinearIndex` and `TiledGrids.RowsAgreeWhenDivisible`.
   */
  lemma {:induction false} DivModUnique(k: int, d: int, q: int, r: int)
    requires 0 < d && 0 <= r < d && k == q * d + r
    ensures k / d == q && k % d == r
  {
    var q', r' := k / d, k % d;
    assert k == q' * d + r';
    if q' < q {
      MulAtLeast(q - q', d);
    } else if q < q' {
      MulAtLeast(q' - q, d);
    }
  }

  /** Adding the divisor once adds one to the quotient (for the ceiling tile counts in `TiledGrids.RowsCover`). */
  lemma {:induction false} DivPlusDivisor(a: int, d: int)
    requires 0 <= a && 0 < d
    ensures (a + d) / d == a / d + 1
  {
    DivModUnique(a + d, d, a / d + 1, a % d);
  }

  /** Division by a positive number is monotone (a point's tile lies in the tile grid, `TiledGrids.SlotInRange`). */
  lemma {:induction false} DivMonotone(a: int, b: int, d: int)
    requires 0 <= a <= b && 0 < d
    ensures a / d <= b / d
  {
    if b / d < a / d {
      MulMonotone(b / d + 1, a / d, d);
      assert false;
    }
  }

  /** A multiple of `d` divides back exactly (a tile's origin selects that tile, `TiledGrids.EveryTileHasACell`). */
  lemma {:induction false} MulDivCancel(q: int, d: int)
    requires 0 < d
    ensures (q * d) / d == q && (q * d) % d == 0
  {
    DivModUnique(q * d, d, q, 0);
  }

  /** A positive multiple of a positive number is at least that number (`TiledGrids.RowsCover`, `TiledGrids.EveryTileHasACell`). */
  lemma MulAtLeast(m: int, d: int)
    requires 1 <= m && 0 < d
    ensures m * d >= d
  {
  }

  /** Multiplying by a positive factor keeps a bound (linear-index ranges in `Primitives`, `TiledGrids.EveryTileHasACell`). */
  lemma MulMonotone(a: int, b: int, d: int)
    requires 0 < d && a <= b
    ensures a * d <= b * d
  {
  }
}

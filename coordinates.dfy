/**
 * `Coordinates<int>`: the integer pair used both as a grid position
 * (`Indices`) and as a grid size (`Extents`).  For a size, `x` holds the
 * height (number of rows) and `y` the width.
 */
module Coordinates {
  import opened Arith

  datatype Coord = Coord(x: int, y: int)

  /** Grid access index pair. */
  type Indices = Coord

  /** Grid sizing: (height, width). */
  type Extents = Coord

  /** The single-value constructor puts the same value in both components. */
  function Uniform(d: int): (c: Coord)
    ensures c.x == d && c.y == d
  {
    Coord(d, d)
  }

  /** `Coordinates::Zero()`. */
  function Zero(): Coord
  {
    Coord(0, 0)
  }

  /** `operator==`: componentwise equality. */
  predicate Eq(a: Coord, b: Coord)
  {
    a.x == b.x && a.y == b.y
  }

  /** `operator!=`: the negation of `operator==`. */
  predicate NotEq(a: Coord, b: Coord)
  {
    !Eq(a, b)
  }

  /** `operator<`: lexicographic comparison of the tuples (x, y). */
  predicate Less(a: Coord, b: Coord)
  {
    a.x < b.x || (!(b.x < a.x) && a.y < b.y)
  }

  predicate AllGt(a: Coord, b: Coord) { a.x > b.x && a.y > b.y }

  predicate AllGe(a: Coord, b: Coord) { a.x >= b.x && a.y >= b.y }

  predicate AllLt(a: Coord, b: Coord) { a.x < b.x && a.y < b.y }

  predicate AllLe(a: Coord, b: Coord) { a.x <= b.x && a.y <= b.y }

  /** `abs()`: componentwise absolute value. */
  function Abs(a: Coord): (r: Coord)
    ensures 0 <= r.x && 0 <= r.y
    ensures (r.x == a.x || r.x == -a.x) && (r.y == a.y || r.y == -a.y)
  {
    Coord(IntAbs(a.x), IntAbs(a.y))
  }

  /** `area()`: the number of cells spanned by an extents value. */
  function Area(e: Extents): int
  {
    e.x * e.y
  }

  /** Unary `operator-`. */
  function Neg(a: Coord): Coord
  {
    Coord(-a.x, -a.y)
  }

  /** Binary `operator+`. */
  function Add(a: Coord, b: Coord): Coord
  {
    Coord(a.x + b.x, a.y + b.y)
  }

  /** Binary `operator-`. */
  function Sub(a: Coord, b: Coord): Coord
  {
    Coord(a.x - b.x, a.y - b.y)
  }

  /** `operator+=`: updates the two fields of `self` in place; the new value is returned. */
  function AddInPlace(self: Coord, other: Coord): (r: Coord)
    ensures r == Add(self, other)
  {
    self.(x := self.x + other.x).(y := self.y + other.y)
  }

  /** `operator-=`: updates the two fields of `self` in place; the new value is returned. */
  function SubInPlace(self: Coord, other: Coord): (r: Coord)
    ensures r == Sub(self, other)
  {
    self.(x := self.x - other.x).(y := self.y - other.y)
  }

  /** `operator*` with an integer scale. */
  function MulScalar(a: Coord, s: int): Coord
  {
    Coord(a.x * s, a.y * s)
  }

  /** `operator/` with an integer scale: C++ division, truncated toward zero. */
  function DivScalar(a: Coord, s: int): (r: Coord)
    requires s != 0
    ensures 0 <= a.x && 0 < s ==> r.x == a.x / s
    ensures 0 <= a.y && 0 < s ==> r.y == a.y / s
  {
    Coord(TruncDiv(a.x, s), TruncDiv(a.y, s))
  }

  /** Exchanges the two components; turns a column-major order into a row-major one. */
  function Transpose(a: Coord): Coord
  {
    Coord(a.y, a.x)
  }

  // ---------------------------------------------------------------------
  // Properties
  // ---------------------------------------------------------------------

  /** Equality is componentwise, and `!=` is exactly its negation. */
  lemma EqIsIdentity(a: Coord, b: Coord)
    ensures Eq(a, b) <==> a == b
    ensures NotEq(a, b) <==> a != b
  {
  }

  /** `<` is a strict total order: irreflexive, transitive and trichotomous. */
  lemma LessIsStrictTotalOrder(a: Coord, b: Coord, c: Coord)
    ensures !Less(a, a)
    ensures Less(a, b) && Less(b, c) ==> Less(a, c)
    ensures Less(a, b) || a == b || Less(b, a)
    ensures !(Less(a, b) && Less(b, a))
    ensures Less(a, b) ==> a != b
  {
  }

  /** The four componentwise tests are pairwise converses, and `all_lt` implies `all_le`. */
  lemma AllTestsAreConverses(a: Coord, b: Coord)
    ensures AllLe(a, b) <==> AllGe(b, a)
    ensures AllLt(a, b) <==> AllGt(b, a)
    ensures AllLt(a, b) ==> AllLe(a, b)
    ensures AllGt(a, b) ==> AllGe(a, b)
  {
  }

  /** `(a + b) - b == a`, `a - b == a + (-b)`, and `+` is commutative with identity `Zero()`. */
  lemma AddSubLaws(a: Coord, b: Coord)
    ensures Sub(Add(a, b), b) == a
    ensures Add(Sub(a, b), b) == a
    ensures Sub(a, b) == Add(a, Neg(b))
    ensures Add(a, b) == Add(b, a)
    ensures Add(a, Zero()) == a
    ensures Neg(Neg(a)) == a
  {
  }

  /** `Zero()` has no area; a non-negative extents has a non-negative area, zero exactly when an axis is empty. */
  lemma AreaFacts(e: Extents)
    ensures Area(Zero()) == 0
    ensures 0 <= e.x && 0 <= e.y ==> 0 <= Area(e)
    ensures 0 <= e.x && 0 <= e.y ==> (Area(e) == 0 <==> e.x == 0 || e.y == 0)
    ensures Area(Transpose(e)) == Area(e)
  {
  }

  /** `abs()` is the identity on non-negative coordinates and ignores sign. */
  lemma AbsFacts(a: Coord)
    ensures Abs(Neg(a)) == Abs(a)
    ensures AllGe(a, Zero()) ==> Abs(a) == a
    ensures Abs(Abs(a)) == Abs(a)
  {
  }
}

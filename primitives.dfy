/**
 * Storage addressing shared by every grid: a point `pt` of a grid with
 * extents `e` lives at offset `e.x * pt.y + pt.x` of a contiguous buffer.
 * (The fixed and dynamic origin/extents bases are the accessors of
 * `BoundsFamily.Bounds`.)
 */
module Primitives {
  import opened Arith
  import opened Coordinates

  /** `pt` lies in the zero-anchored rectangle `[0, e.x) x [0, e.y)`. */
  predicate InExtents(e: Extents, pt: Indices)
  {
    AllGe(pt, Zero()) && AllLt(pt, e)
  }

  /** `toLinearIndex`, identical for container-backed and pointer-backed storage. */
  function LinearIndex(e: Extents, pt: Indices): int
  {
    e.x * pt.y + pt.x
  }

  /**
   * The point stored at buffer offset `i`: the inverse of `LinearIndex`.
   * Raw storage iteration visits `data_[0]`, `data_[1]`, ... and so visits
   * `PointOfIndex(e, 0)`, `PointOfIndex(e, 1)`, ...: x advances innermost.
   */
  function PointOfIndex(e: Extents, i: int): (pt: Indices)
    requires 0 < e.x
    ensures LinearIndex(e, pt) == i
    ensures 0 <= pt.x < e.x
    ensures 0 <= i ==> 0 <= pt.y
  {
    Coord(i % e.x, i / e.x)
  }

  /** The linear index of an in-extents point lies in `[0, area)`. */
  lemma {:induction false} LinearIndexInRange(e: Extents, pt: Indices)
    requires InExtents(e, pt)
    ensures 0 <= LinearIndex(e, pt) < Area(e)
  {
    assert 0 <= e.x * pt.y by { MulMonotone(0, pt.y, e.x); }
    assert e.x * pt.y <= e.x * (e.y - 1) by { MulMonotone(pt.y, e.y - 1, e.x); }
  }

  /** Reading the point back from its linear index gives the point. */
  lemma {:induction false} PointOfLinearIndex(e: Extents, pt: Indices)
    requires 0 <= pt.x < e.x
    ensures PointOfIndex(e, LinearIndex(e, pt)) == pt
  {
    DivModUnique(LinearIndex(e, pt), e.x, pt.y, pt.x);
  }

  /** Distinct in-extents points get distinct linear indices. */
  lemma {:induction false} LinearIndexInjective(e: Extents, p: Indices, q: Indices)
    requires InExtents(e, p) && InExtents(e, q)
    requires LinearIndex(e, p) == LinearIndex(e, q)
    ensures p == q
  {
    PointOfLinearIndex(e, p);
    PointOfLinearIndex(e, q);
  }

  /** Every offset in `[0, area)` names an in-extents point. */
  lemma {:induction false} PointOfIndexInExtents(e: Extents, i: int)
    requires 0 < e.x && 0 <= i < Area(e)
    ensures InExtents(e, PointOfIndex(e, i))
  {
    var pt := PointOfIndex(e, i);
    if pt.y >= e.y {
      MulMonotone(e.y, pt.y, e.x);
      assert false;
    }
  }

  /**
   * One step of buffer order: x advances, and when it reaches `e.x` it
   * wraps to 0 while y advances.
   */
  lemma {:induction false} PointOfIndexSucc(e: Extents, i: int)
    requires 0 < e.x && 0 <= i
    ensures PointOfIndex(e, i + 1)
         == (if PointOfIndex(e, i).x + 1 == e.x
             then Coord(0, PointOfIndex(e, i).y + 1)
             else Coord(PointOfIndex(e, i).x + 1, PointOfIndex(e, i).y))
  {
    var p := PointOfIndex(e, i);
    if p.x + 1 == e.x {
      PointOfLinearIndex(e, Coord(0, p.y + 1));
    } else {
      PointOfLinearIndex(e, Coord(p.x + 1, p.y));
    }
  }

  /** One past the last offset is the point `(0, e.y)`, and no earlier offset reaches row `e.y`. */
  lemma {:induction false} PointOfIndexAtEnd(e: Extents, i: int)
    requires 0 < e.x && 0 <= e.y && 0 <= i <= Area(e)
    ensures i == Area(e) ==> PointOfIndex(e, i) == Coord(0, e.y)
    ensures PointOfIndex(e, i).y == e.y <==> i == Area(e)
  {
    PointOfLinearIndex(e, Coord(0, e.y));
    if i < Area(e) {
      PointOfIndexInExtents(e, i);
    }
  }
}

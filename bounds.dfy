/**
 * The bounds family: one containment/overlap contract over four storage
 * variants, and the two lazy point iterators over a bounds region.
 *
 * The C++ variants are distinct types whose fixed parts are template
 * constants; here they are the four constructors of one datatype, the fixed
 * part being a constructor argument that no operation ever changes.
 */
module BoundsFamily {
  import opened Arith
  import opened Coordinates
  import opened Primitives

  datatype Bounds =
    | Dynamic(origin: Indices, extents: Extents)                   // Bounds
    | FixedOrigin(fixedOrigin: Indices, extents: Extents)          // FixedOriginBounds<X, Y>
    | FixedExtents(origin: Indices, fixedExtents: Extents)         // FixedExtentsBounds<Height, Width>
    | FixedOriginExtents(fixedOrigin: Indices, fixedExtents: Extents)  // FixedOriginExtentsBounds<X, Y, Height, Width>
  {
    /** `origin()`: the stored origin, or the template constant (`FixedOriginBase`). */
    function Origin(): Indices
    {
      if Dynamic? || FixedExtents? then origin else fixedOrigin
    }

    /** `extents()`: the stored extents, or the template constant (`FixedExtentsBase`). */
    function Size(): Extents
    {
      if Dynamic? || FixedOrigin? then extents else fixedExtents
    }

    /** `within(pt)`: `origin <= pt < origin + extents`, componentwise (half-open). */
    predicate Within(pt: Indices)
    {
      AllGe(pt, Origin()) && AllLt(pt, Add(Origin(), Size()))
    }

    /** `overlaps(other)`: `|origin - other.origin| <= extents + other.extents`, componentwise. */
    predicate Overlaps(other: Bounds)
    {
      AllLe(Abs(Sub(Origin(), other.Origin())), Add(Size(), other.Size()))
    }

    /** `empty()`: the extents equal `Extents::Zero()`. */
    predicate Empty()
    {
      Eq(Size(), Zero())
    }

    /** `center()`: `origin + extents / 2`, with C++ integer division. */
    function Center(): Indices
    {
      Add(Origin(), DivScalar(Size(), 2))
    }

    /**
     * `other` and this bounds have the same C++ type: the same variant with
     * the same template constants.
     */
    predicate SameType(other: Bounds)
    {
      match this
      case Dynamic(_, _) => other.Dynamic?
      case FixedOrigin(o, _) => other.FixedOrigin? && other.fixedOrigin == o
      case FixedExtents(_, e) => other.FixedExtents? && other.fixedExtents == e
      case FixedOriginExtents(o, e) => other.FixedOriginExtents? && other.fixedOrigin == o && other.fixedExtents == e
    }

    /**
     * `other` can be passed as the `const Derived&` operand of `==`: every
     * variant but the fully fixed one has a non-explicit converting
     * constructor from any bounds, the fully fixed one has none.
     */
    predicate AcceptsOperand(other: Bounds)
    {
      !FixedOriginExtents? || SameType(other)
    }

    /** The operand of `==` after the implicit conversion to this bounds' type. */
    function AsOperand(other: Bounds): (r: Bounds)
      requires AcceptsOperand(other)
      ensures SameType(r)
    {
      match this
      case Dynamic(_, _) => ToDynamic(other)
      case FixedOrigin(o, _) => ToFixedOrigin(o, other)
      case FixedExtents(_, e) => ToFixedExtents(e, other)
      case FixedOriginExtents(_, _) => other
    }

    /**
     * `operator==(const Derived&)`: compares origin and extents with the
     * operand converted to this bounds' type, which for a fixed-origin or
     * fixed-extents left side drops the operand's origin or extents.
     */
    predicate Equals(other: Bounds)
      requires AcceptsOperand(other)
    {
      var o := AsOperand(other);
      Eq(Origin(), o.Origin()) && Eq(Size(), o.Size())
    }

    /** `operator!=`: the negation of `operator==`. */
    predicate NotEquals(other: Bounds)
      requires AcceptsOperand(other)
    {
      !Equals(other)
    }
  }

  /** `Bounds(const BoundsBase<Derived>&)`: copies origin and extents of any variant. */
  function ToDynamic(other: Bounds): (b: Bounds)
    ensures b.Dynamic? && b.Origin() == other.Origin() && b.Size() == other.Size()
  {
    Dynamic(other.Origin(), other.Size())
  }

  /** `FixedOriginBounds<X, Y>(const BoundsBase<Derived>&)`: keeps only the other bounds' extents. */
  function ToFixedOrigin(fixedOrigin: Indices, other: Bounds): (b: Bounds)
    ensures b.Origin() == fixedOrigin && b.Size() == other.Size()
  {
    FixedOrigin(fixedOrigin, other.Size())
  }

  /** `FixedExtentsBounds<H, W>(const BoundsBase<Derived>&)`: keeps only the other bounds' origin. */
  function ToFixedExtents(fixedExtents: Extents, other: Bounds): (b: Bounds)
    ensures b.Origin() == other.Origin() && b.Size() == fixedExtents
  {
    FixedExtents(other.Origin(), fixedExtents)
  }

  // ---------------------------------------------------------------------
  // Properties of the containment/overlap contract
  // ---------------------------------------------------------------------

  /** The four variants built from the same origin and extents agree on every query. */
  lemma VariantsAgree(o: Indices, e: Extents, pt: Indices, other: Bounds)
    ensures var bs := [Dynamic(o, e), FixedOrigin(o, e), FixedExtents(o, e), FixedOriginExtents(o, e)];
      forall i | 0 <= i < 4 ::
        && bs[i].Origin() == o && bs[i].Size() == e
        && (bs[i].Within(pt) <==> Dynamic(o, e).Within(pt))
        && (bs[i].Overlaps(other) <==> Dynamic(o, e).Overlaps(other))
        && (bs[i].Empty() <==> Dynamic(o, e).Empty())
        && bs[i].Center() == Dynamic(o, e).Center()
        && Dynamic(o, e).Equals(bs[i])
  {
  }

  /**
   * Between bounds of one type `==` is an equivalence, and it is identity:
   * it holds exactly when the two are the same value.  `!=` is its
   * negation.
   */
  lemma EqualsWithinOneType(a: Bounds, b: Bounds, c: Bounds)
    ensures a.SameType(a) && a.Equals(a)
    ensures a.SameType(b) ==> b.SameType(a) && (a.Equals(b) <==> b.Equals(a))
    ensures a.SameType(b) && b.SameType(c) ==> a.SameType(c) && (a.Equals(b) && b.Equals(c) ==> a.Equals(c))
    ensures a.SameType(b) ==> (a.Equals(b) <==> a == b)
    ensures a.AcceptsOperand(b) ==> (a.NotEquals(b) <==> !a.Equals(b))
  {
  }

  /**
   * Across types the operand is converted first: a plain `Bounds` compares
   * both origin and extents, a fixed-origin one only the extents, a
   * fixed-extents one only the origin, and a fully fixed one, which accepts
   * only its own type, is equal to every operand.
   */
  lemma EqualsConvertsOperand(a: Bounds, b: Bounds)
    ensures a.Dynamic? ==> (a.Equals(b) <==> a.Origin() == b.Origin() && a.Size() == b.Size())
    ensures a.FixedOrigin? ==> (a.Equals(b) <==> a.Size() == b.Size())
    ensures a.FixedExtents? ==> (a.Equals(b) <==> a.Origin() == b.Origin())
    ensures a.FixedOriginExtents? ==> (a.AcceptsOperand(b) <==> a.SameType(b))
    ensures a.FixedOriginExtents? && a.AcceptsOperand(b) ==> a.Equals(b)
  {
  }

  /**
   * `==` is not symmetric across types: a fixed-origin bounds equals a
   * plain bounds of the same extents elsewhere, but not the reverse, and
   * two fixed-origin bounds with different template origins compare equal.
   */
  lemma EqualsAsymmetric()
    ensures FixedOrigin(Coord(1, 1), Coord(5, 5)).Equals(Dynamic(Coord(2, 2), Coord(5, 5)))
    ensures !Dynamic(Coord(2, 2), Coord(5, 5)).Equals(FixedOrigin(Coord(1, 1), Coord(5, 5)))
    ensures FixedOrigin(Coord(1, 1), Coord(5, 5)).Equals(FixedOrigin(Coord(2, 2), Coord(5, 5)))
    ensures FixedOrigin(Coord(1, 1), Coord(5, 5)) != FixedOrigin(Coord(2, 2), Coord(5, 5))
  {
  }

  /** `within` spelled out per axis; an axis with no positive extent contains no point. */
  lemma WithinPerAxis(b: Bounds, pt: Indices)
    ensures b.Within(pt) <==>
      (b.Origin().x <= pt.x < b.Origin().x + b.Size().x &&
       b.Origin().y <= pt.y < b.Origin().y + b.Size().y)
    ensures b.Size().x <= 0 || b.Size().y <= 0 ==> !b.Within(pt)
    ensures b.Empty() <==> b.Size() == Zero()
  {
  }

  /** A zero-anchored bounds contains exactly the in-extents points. */
  lemma WithinZeroOrigin(b: Bounds, pt: Indices)
    requires b.Origin() == Zero()
    ensures b.Within(pt) <==> InExtents(b.Size(), pt)
  {
  }

  /** `overlaps` is symmetric, and a bounds with non-negative extents overlaps itself. */
  lemma OverlapsSymmetric(a: Bounds, b: Bounds)
    ensures a.Overlaps(b) <==> b.Overlaps(a)
    ensures AllGe(a.Size(), Zero()) ==> a.Overlaps(a)
  {
  }

  /** Sharing a point implies `overlaps`: the test never misses a real intersection. */
  lemma SharedPointOverlaps(a: Bounds, b: Bounds, pt: Indices)
    requires a.Within(pt) && b.Within(pt)
    ensures a.Overlaps(b)
  {
  }

  /**
   * The test is permissive: two one-cell bounds separated by a full empty
   * column still overlap, although they share no point.
   */
  lemma OverlapsIsPermissive()
    ensures Dynamic(Coord(0, 0), Coord(1, 1)).Overlaps(Dynamic(Coord(2, 0), Coord(1, 1)))
    ensures forall pt :: !(Dynamic(Coord(0, 0), Coord(1, 1)).Within(pt) && Dynamic(Coord(2, 0), Coord(1, 1)).Within(pt))
  {
  }

  /** A bounds with positive extents contains its center. */
  lemma CenterWithin(b: Bounds)
    requires AllGt(b.Size(), Zero())
    ensures b.Within(b.Center())
  {
  }

  /** The interior, edge-adjacent and corner-adjacent cases all overlap. */
  lemma OverlapExamples()
    ensures Dynamic(Coord(1, 1), Coord(5, 5)).Overlaps(Dynamic(Coord(2, 2), Coord(3, 3)))
    ensures Dynamic(Coord(1, 1), Coord(1, 1)).Overlaps(Dynamic(Coord(1, 2), Coord(3, 3)))
    ensures Dynamic(Coord(1, 1), Coord(1, 1)).Overlaps(Dynamic(Coord(2, 2), Coord(1, 1)))
  {
  }

  /** Origin (1,1) and extents (5,5): (0,0) and (6,6) lie outside, (1,1) and (5,5) inside, for every variant. */
  lemma WithinExamples(b: Bounds)
    requires b.Origin() == Coord(1, 1) && b.Size() == Coord(5, 5)
    ensures !b.Within(Coord(0, 0)) && b.Within(Coord(1, 1))
    ensures b.Within(Coord(5, 5)) && !b.Within(Coord(6, 6))
  {
  }

  // ---------------------------------------------------------------------
  // Bounds iterators
  // ---------------------------------------------------------------------

  /** The k-th point of the column iterator: x innermost. */
  function ColPoint(b: Bounds, k: int): Indices
    requires 0 < b.Size().x
  {
    Add(b.Origin(), PointOfIndex(b.Size(), k))
  }

  /** The k-th point of the row iterator: y innermost (the transpose of `ColPoint`). */
  function RowPoint(b: Bounds, k: int): Indices
    requires 0 < b.Size().y
  {
    Add(b.Origin(), Transpose(PointOfIndex(Transpose(b.Size()), k)))
  }

  /** `ColBoundsIterator`: advances x, wrapping to `origin.x` and advancing y at the past-corner column. */
  class ColBoundsIterator {
    var pt: Indices
    const origin: Indices
    const pastCorner: Indices

    /** Initialization constructor: starts at the bounds origin. */
    constructor (b: Bounds)
      ensures pt == b.Origin() && origin == b.Origin()
      ensures pastCorner == Add(b.Origin(), b.Size())
    {
      pt := b.Origin();
      origin := b.Origin();
      pastCorner := Add(b.Origin(), b.Size());
    }

    /** `operator*`. */
    function Deref(): Indices
      reads this
    {
      pt
    }

    /** `operator==(BoundsIteratorEnd)`: the row past the last one has been reached. */
    predicate AtEnd()
      reads this
    {
      pt.y == pastCorner.y
    }

    /** `operator==` between two iterators compares their points. */
    predicate Equals(other: ColBoundsIterator)
      reads this, other
    {
      pt == other.pt
    }

    /** `operator++` (`increment_impl`). */
    method Increment()
      modifies this
      ensures pt == (if old(pt.x) + 1 == pastCorner.x
                     then Coord(origin.x, old(pt.y) + 1)
                     else Coord(old(pt.x) + 1, old(pt.y)))
    {
      pt := pt.(x := pt.x + 1);
      if pt.x == pastCorner.x {
        pt := pt.(x := origin.x, y := pt.y + 1);
      }
    }
  }

  /** `RowBoundsIterator`: the transpose, y innermost. */
  class RowBoundsIterator {
    var pt: Indices
    const origin: Indices
    const pastCorner: Indices

    /** Initialization constructor: starts at the bounds origin. */
    constructor (b: Bounds)
      ensures pt == b.Origin() && origin == b.Origin()
      ensures pastCorner == Add(b.Origin(), b.Size())
    {
      pt := b.Origin();
      origin := b.Origin();
      pastCorner := Add(b.Origin(), b.Size());
    }

    /** `operator*`. */
    function Deref(): Indices
      reads this
    {
      pt
    }

    /** `operator==(BoundsIteratorEnd)`: the column past the last one has been reached. */
    predicate AtEnd()
      reads this
    {
      pt.x == pastCorner.x
    }

    /** `operator==` between two iterators compares their points. */
    predicate Equals(other: RowBoundsIterator)
      reads this, other
    {
      pt == other.pt
    }

    /** `operator++` (`increment_impl`). */
    method Increment()
      modifies this
      ensures pt == (if old(pt.y) + 1 == pastCorner.y
                     then Coord(old(pt.x) + 1, origin.y)
                     else Coord(old(pt.x), old(pt.y) + 1))
    {
      pt := pt.(y := pt.y + 1);
      if pt.y == pastCorner.y {
        pt := pt.(y := origin.y, x := pt.x + 1);
      }
    }
  }

  /**
   * `for (pt : make_col_bounds_range(b))`: drives a column iterator from the
   * origin until it equals the end tag, collecting every point it yields.
   */
  method ColRange(b: Bounds) returns (pts: seq<Indices>)
    requires 0 < b.Size().x && 0 <= b.Size().y
    ensures |pts| == Area(b.Size())
    ensures forall k :: 0 <= k < |pts| ==> pts[k] == ColPoint(b, k)
  {
    var e := b.Size();
    var it := new ColBoundsIterator(b);
    pts := [];
    PointOfIndexAtEnd(e, 0);
    while !it.AtEnd()
      invariant 0 <= |pts| <= Area(e)
      invariant it.origin == b.Origin() && it.pastCorner == Add(b.Origin(), e)
      invariant it.pt == ColPoint(b, |pts|)
      invariant forall k :: 0 <= k < |pts| ==> pts[k] == ColPoint(b, k)
      decreases Area(e) - |pts|
    {
      PointOfIndexAtEnd(e, |pts|);
      PointOfIndexSucc(e, |pts|);
      pts := pts + [it.Deref()];
      it.Increment();
    }
    PointOfIndexAtEnd(e, |pts|);
  }

  /** `for (pt : make_row_bounds_range(b))`: the row-major counterpart of `ColRange`. */
  method RowRange(b: Bounds) returns (pts: seq<Indices>)
    requires 0 <= b.Size().x && 0 < b.Size().y
    ensures |pts| == Area(b.Size())
    ensures forall k :: 0 <= k < |pts| ==> pts[k] == RowPoint(b, k)
  {
    var t := Transpose(b.Size());
    var it := new RowBoundsIterator(b);
    pts := [];
    PointOfIndexAtEnd(t, 0);
    while !it.AtEnd()
      invariant 0 <= |pts| <= Area(t)
      invariant it.origin == b.Origin() && it.pastCorner == Add(b.Origin(), b.Size())
      invariant it.pt == RowPoint(b, |pts|)
      invariant forall k :: 0 <= k < |pts| ==> pts[k] == RowPoint(b, k)
      decreases Area(t) - |pts|
    {
      PointOfIndexAtEnd(t, |pts|);
      PointOfIndexSucc(t, |pts|);
      pts := pts + [it.Deref()];
      it.Increment();
    }
    PointOfIndexAtEnd(t, |pts|);
  }

  /** Every point the column iterator yields lies within the bounds. */
  lemma {:induction false} ColPointWithin(b: Bounds, k: int)
    requires 0 < b.Size().x && 0 <= k < Area(b.Size())
    ensures b.Within(ColPoint(b, k))
  {
    PointOfIndexInExtents(b.Size(), k);
  }

  /** The column iterator yields each point once: its first `area` points are distinct. */
  lemma {:induction false} ColPointInjective(b: Bounds, j: int, k: int)
    requires 0 < b.Size().x && 0 <= j < Area(b.Size()) && 0 <= k < Area(b.Size())
    requires ColPoint(b, j) == ColPoint(b, k)
    ensures j == k
  {
  }

  /** Every point within the bounds is yielded by the column iterator, at its linear index. */
  lemma {:induction false} ColPointCovers(b: Bounds, pt: Indices)
    requires 0 < b.Size().x && b.Within(pt)
    ensures var k := LinearIndex(b.Size(), Sub(pt, b.Origin()));
      0 <= k < Area(b.Size()) && ColPoint(b, k) == pt
  {
    var local := Sub(pt, b.Origin());
    LinearIndexInRange(b.Size(), local);
    PointOfLinearIndex(b.Size(), local);
  }

  /** Every point the row iterator yields lies within the bounds. */
  lemma {:induction false} RowPointWithin(b: Bounds, k: int)
    requires 0 < b.Size().y && 0 <= k < Area(b.Size())
    ensures b.Within(RowPoint(b, k))
  {
    PointOfIndexInExtents(Transpose(b.Size()), k);
  }

  /** The row iterator yields each point once. */
  lemma {:induction false} RowPointInjective(b: Bounds, j: int, k: int)
    requires 0 < b.Size().y && 0 <= j < Area(b.Size()) && 0 <= k < Area(b.Size())
    requires RowPoint(b, j) == RowPoint(b, k)
    ensures j == k
  {
  }

  /** Every point within the bounds is yielded by the row iterator. */
  lemma {:induction false} RowPointCovers(b: Bounds, pt: Indices)
    requires 0 < b.Size().y && b.Within(pt)
    ensures var k := LinearIndex(Transpose(b.Size()), Transpose(Sub(pt, b.Origin())));
      0 <= k < Area(b.Size()) && RowPoint(b, k) == pt
  {
    var local := Transpose(Sub(pt, b.Origin()));
    LinearIndexInRange(Transpose(b.Size()), local);
    PointOfLinearIndex(Transpose(b.Size()), local);
  }
}

/**
 * `SparseCell`: a cell value paired with the position it was read from, as
 * the flood fill keeps it in its seed queue.  Cells are ordered by value
 * alone, so a `std::less` priority queue of them pops a greatest value.
 */
module SparseCells {
  import opened Coordinates

  /**
   * `SparseCell<CellT>{value, position}`: the constructor stores both
   * fields unchanged (the general template and the `Indices`
   * specialisation alike).
   */
  datatype SparseCell<T> = SparseCell(value: T, position: Indices)

  /** `operator<` for an `int` cell: compares the values and ignores the positions. */
  predicate Less(a: SparseCell<int>, b: SparseCell<int>)
  {
    a.value < b.value
  }

  /** `operator<` for the `Indices` specialisation: the value comparison is `Coordinates`' lexicographic `<`. */
  predicate IndicesLess(a: SparseCell<Indices>, b: SparseCell<Indices>)
  {
    Coordinates.Less(a.value, b.value)
  }

  /** `operator const Indices()`: a cell converts to its position. */
  function ToIndices<T>(c: SparseCell<T>): Indices
  {
    c.position
  }

  /** `operator const CellT&()`: a cell converts to its value. */
  function ToValue<T>(c: SparseCell<T>): T
  {
    c.value
  }

  // ---------------------------------------------------------------------
  // Properties
  // ---------------------------------------------------------------------

  /**
   * The conversions read back what the constructor stored, and together
   * they rebuild the cell.
   */
  lemma ConversionsRoundTrip<T>(v: T, p: Indices, c: SparseCell<T>)
    ensures ToValue(SparseCell(v, p)) == v && ToIndices(SparseCell(v, p)) == p
    ensures SparseCell(ToValue(c), ToIndices(c)) == c
  {
  }

  /** `<` sees only the values: moving either cell changes nothing. */
  lemma LessIgnoresPosition(v: int, w: int, p: Indices, q: Indices, p2: Indices, q2: Indices)
    ensures Less(SparseCell(v, p), SparseCell(w, q)) <==> Less(SparseCell(v, p2), SparseCell(w, q2))
    ensures Less(SparseCell(v, p), SparseCell(w, q)) <==> v < w
  {
  }

  /**
   * Cells are incomparable exactly when their values are equal, whatever
   * their positions; two distinct cells can therefore be incomparable.
   */
  lemma EqualValuesIncomparable(a: SparseCell<int>, b: SparseCell<int>)
    ensures !Less(a, b) && !Less(b, a) <==> a.value == b.value
  {
  }

  /** Two cells at different positions with the same value: neither precedes the other. */
  lemma IncomparableDistinctCells()
    ensures SparseCell(3, Coord(0, 0)) != SparseCell(3, Coord(1, 2))
    ensures !Less(SparseCell(3, Coord(0, 0)), SparseCell(3, Coord(1, 2)))
    ensures !Less(SparseCell(3, Coord(1, 2)), SparseCell(3, Coord(0, 0)))
  {
  }

  /**
   * `<` is a strict weak ordering, as `std::priority_queue` requires:
   * irreflexive, transitive, and incomparability is transitive.
   */
  lemma LessIsStrictWeakOrder(a: SparseCell<int>, b: SparseCell<int>, c: SparseCell<int>)
    ensures !Less(a, a)
    ensures Less(a, b) && Less(b, c) ==> Less(a, c)
    ensures (!Less(a, b) && !Less(b, a)) && (!Less(b, c) && !Less(c, b)) ==> !Less(a, c) && !Less(c, a)
  {
  }

  /** The `Indices` specialisation orders cells by their value coordinates, lexicographically. */
  lemma IndicesLessIgnoresPosition(v: Indices, w: Indices, p: Indices, q: Indices)
    ensures IndicesLess(SparseCell(v, p), SparseCell(w, q)) <==> v.x < w.x || (v.x == w.x && v.y < w.y)
    ensures !IndicesLess(SparseCell(v, p), SparseCell(w, q)) && !IndicesLess(SparseCell(w, q), SparseCell(v, p)) <==> v == w
  {
  }
}

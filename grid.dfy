/**
 * Grids, views and view iterators.
 *
 * The four grid classes (`Grid`, `MappedGrid`, `FixedGrid`,
 * `FixedMappedGrid`) share one storage scheme: a buffer addressed by
 * `Primitives.LinearIndex` with the grid origin fixed at (0,0).  They are one
 * class here, told apart by `kind`, which decides the bounds variant and
 * which shape operations apply.  Cells are `int`.
 *
 * A `View` is a (parent grid, bounds) pair; its cells are the parent cells
 * at `bounds.origin + local`.  Its iteration order is column-major over the
 * local coordinates, driven by a `ColViewIterator`.
 */
module Grids {
  import opened Arith
  import opened Coordinates
  import opened Primitives
  import opened BoundsFamily

  /** Which grid class an object is: decides its bounds variant and its shape operations. */
  datatype GridKind =
    | Owning       // Grid<CellT>: owns a buffer of exactly `area` cells, resizable
    | Mapped       // MappedGrid<CellT>: borrows a caller buffer, resizable
    | Fixed        // FixedGrid<CellT, Height, Width>: owns a fixed-size array
    | FixedMapped  // FixedMappedGrid<CellT, Height, Width>: borrows a caller buffer, fixed size

  // ---------------------------------------------------------------------
  // Specification functions over buffer snapshots
  // ---------------------------------------------------------------------

  /** The buffer after applying `f` to each of its first `n` cells (raw storage iteration). */
  function MapPrefix(buf: seq<int>, n: int, f: int -> int): (r: seq<int>)
    ensures |r| == |buf|
  {
    seq(|buf|, i requires 0 <= i < |buf| => if i < n then f(buf[i]) else buf[i])
  }

  /** The buffer after combining its first `|src|` cells with `src`, pairwise in buffer order. */
  function ZipPrefix(buf: seq<int>, src: seq<int>, f: (int, int) -> int): (r: seq<int>)
    ensures |r| == |buf|
  {
    seq(|buf|, i requires 0 <= i < |buf| => if i < |src| then f(buf[i], src[i]) else buf[i])
  }

  /** Cross-assignment's cell operation: the other operand's cell replaces this one. */
  function Overwrite(cell: int, other: int): int
  {
    other
  }

  /** A view region lies inside a parent of extents `pe`: non-negative origin and size, far corner within `pe`. */
  predicate Fits(b: Bounds, pe: Extents)
  {
    AllGe(b.Origin(), Zero()) && AllGe(b.Size(), Zero()) && AllLe(Add(b.Origin(), b.Size()), pe)
  }

  /** Buffer offset `i` of a parent with extents `pe` stores a point of the region `b`. */
  predicate InView(pe: Extents, b: Bounds, i: int)
    requires 0 < pe.x
  {
    0 <= i < Area(pe) && b.Within(PointOfIndex(pe, i))
  }

  /** The column-order position, within region `b`, of the point stored at parent offset `i`. */
  function ViewRank(pe: Extents, b: Bounds, i: int): int
    requires 0 < pe.x
  {
    LinearIndex(b.Size(), Sub(PointOfIndex(pe, i), b.Origin()))
  }

  /** The parent offset of the k-th cell of region `b` in column order. */
  function ViewOffset(pe: Extents, b: Bounds, k: int): int
    requires 0 < b.Size().x
  {
    LinearIndex(pe, ColPoint(b, k))
  }

  /** The parent buffer after applying `f` to every cell of region `b` and to no other cell. */
  function MapView(buf: seq<int>, pe: Extents, b: Bounds, f: int -> int): (r: seq<int>)
    requires 0 < pe.x
    ensures |r| == |buf|
  {
    seq(|buf|, i requires 0 <= i < |buf| => if InView(pe, b, i) then f(buf[i]) else buf[i])
  }

  /**
   * The parent buffer after combining the first `|src|` cells of region `b`,
   * in column order, with `src`; every other cell is kept.
   */
  function ZipView(buf: seq<int>, pe: Extents, b: Bounds, src: seq<int>, f: (int, int) -> int): (r: seq<int>)
    requires 0 < pe.x
    ensures |r| == |buf|
  {
    seq(|buf|, i requires 0 <= i < |buf| =>
      if InView(pe, b, i) && 0 <= ViewRank(pe, b, i) < |src| then f(buf[i], src[ViewRank(pe, b, i)]) else buf[i])
  }

  // ---------------------------------------------------------------------
  // Addressing lemmas
  // ---------------------------------------------------------------------

  /** Writing one in-extents cell leaves every other in-extents cell as it was. */
  lemma {:induction false} WriteLeavesOthers(e: Extents, buf: seq<int>, p: Indices, q: Indices, v: int)
    requires InExtents(e, p) && InExtents(e, q) && p != q && Area(e) <= |buf|
    ensures LinearIndex(e, p) != LinearIndex(e, q)
    ensures 0 <= LinearIndex(e, p) < |buf| && 0 <= LinearIndex(e, q) < |buf|
    ensures buf[LinearIndex(e, p) := v][LinearIndex(e, q)] == buf[LinearIndex(e, q)]
  {
    LinearIndexInRange(e, p);
    LinearIndexInRange(e, q);
    if LinearIndex(e, p) == LinearIndex(e, q) {
      LinearIndexInjective(e, p, q);
    }
  }

  /** The k-th cell of a fitting region is stored at an offset of that region, whose rank is k. */
  lemma {:induction false} ViewOffsetInView(pe: Extents, b: Bounds, k: int)
    requires 0 < b.Size().x && Fits(b, pe) && 0 <= k < Area(b.Size())
    ensures 0 < pe.x
    ensures InView(pe, b, ViewOffset(pe, b, k)) && ViewRank(pe, b, ViewOffset(pe, b, k)) == k
  {
    var p := ColPoint(b, k);
    ColPointWithin(b, k);
    assert InExtents(pe, p);
    LinearIndexInRange(pe, p);
    PointOfLinearIndex(pe, p);
    assert Sub(p, b.Origin()) == PointOfIndex(b.Size(), k);
  }

  /** An offset of a fitting region has a rank in `[0, area)`. */
  lemma {:induction false} ViewRankInRange(pe: Extents, b: Bounds, i: int)
    requires 0 < pe.x && Fits(b, pe) && InView(pe, b, i)
    ensures 0 < b.Size().x && 0 <= ViewRank(pe, b, i) < Area(b.Size())
  {
    LinearIndexInRange(b.Size(), Sub(PointOfIndex(pe, i), b.Origin()));
  }

  /** Only one offset of a region has a given rank: ranks number the region's cells without repetition. */
  lemma {:induction false} ViewRankUnique(pe: Extents, b: Bounds, i: int, k: int)
    requires 0 < b.Size().x && Fits(b, pe) && 0 < pe.x && InView(pe, b, i) && ViewRank(pe, b, i) == k
    ensures i == ViewOffset(pe, b, k)
  {
    var local := Sub(PointOfIndex(pe, i), b.Origin());
    PointOfLinearIndex(b.Size(), local);
    assert ColPoint(b, k) == PointOfIndex(pe, i);
  }

  /** In terms of parent points: a region update touches exactly the points within the region. */
  lemma {:induction false} MapViewAt(buf: seq<int>, pe: Extents, b: Bounds, f: int -> int, q: Indices)
    requires 0 < pe.x && InExtents(pe, q) && Area(pe) <= |buf|
    ensures 0 <= LinearIndex(pe, q) < |buf|
    ensures MapView(buf, pe, b, f)[LinearIndex(pe, q)]
         == if b.Within(q) then f(buf[LinearIndex(pe, q)]) else buf[LinearIndex(pe, q)]
  {
    LinearIndexInRange(pe, q);
    PointOfLinearIndex(pe, q);
  }

  /** In terms of parent points: cross-assignment writes `src[k]` at the region's k-th point. */
  lemma {:induction false} ZipViewAt(buf: seq<int>, pe: Extents, b: Bounds, src: seq<int>, f: (int, int) -> int, q: Indices)
    requires 0 < pe.x && InExtents(pe, q) && Area(pe) <= |buf|
    ensures 0 <= LinearIndex(pe, q) < |buf|
    ensures var k := LinearIndex(b.Size(), Sub(q, b.Origin()));
      ZipView(buf, pe, b, src, f)[LinearIndex(pe, q)]
        == if b.Within(q) && 0 <= k < |src| then f(buf[LinearIndex(pe, q)], src[k]) else buf[LinearIndex(pe, q)]
  {
    LinearIndexInRange(pe, q);
    PointOfLinearIndex(pe, q);
    var i, k := LinearIndex(pe, q), LinearIndex(b.Size(), Sub(q, b.Origin()));
    assert InView(pe, b, i) <==> b.Within(q);
    assert ViewRank(pe, b, i) == k;
  }

  /**
   * Iterating a grid through its whole-grid view visits the buffer in raw
   * storage order: the whole region's offsets are exactly `[0, area)`, the
   * rank of an offset is the offset itself, and the k-th cell is at offset k.
   */
  lemma {:induction false} WholeViewIsBufferOrder(pe: Extents, b: Bounds, i: int)
    requires 0 < pe.x && 0 <= pe.y && b.Origin() == Zero() && b.Size() == pe
    ensures InView(pe, b, i) <==> 0 <= i < Area(pe)
    ensures 0 <= i < Area(pe) ==> ViewRank(pe, b, i) == i && ViewOffset(pe, b, i) == i
  {
    if 0 <= i < Area(pe) {
      PointOfIndexInExtents(pe, i);
    }
  }

  /** Mapping over the whole-grid view is mapping over the first `area` buffer cells. */
  lemma {:induction false} WholeMapViewIsMapPrefix(buf: seq<int>, pe: Extents, b: Bounds, f: int -> int)
    requires 0 < pe.x && 0 <= pe.y && b.Origin() == Zero() && b.Size() == pe
    ensures MapView(buf, pe, b, f) == MapPrefix(buf, Area(pe), f)
  {
    forall i | 0 <= i < |buf|
      ensures MapView(buf, pe, b, f)[i] == MapPrefix(buf, Area(pe), f)[i]
    {
      WholeViewIsBufferOrder(pe, b, i);
    }
  }

  /** Cross-assigning into the whole-grid view is cross-assigning into the first `|src|` buffer cells. */
  lemma {:induction false} WholeZipViewIsZipPrefix(buf: seq<int>, pe: Extents, b: Bounds, src: seq<int>, f: (int, int) -> int)
    requires 0 < pe.x && 0 <= pe.y && b.Origin() == Zero() && b.Size() == pe && |src| <= Area(pe)
    ensures ZipView(buf, pe, b, src, f) == ZipPrefix(buf, src, f)
  {
    forall i | 0 <= i < |buf|
      ensures ZipView(buf, pe, b, src, f)[i] == ZipPrefix(buf, src, f)[i]
    {
      WholeViewIsBufferOrder(pe, b, i);
    }
  }

  /** `fill` is idempotent, on a buffer prefix and on a region alike. */
  lemma FillIdempotent(buf: seq<int>, pe: Extents, b: Bounds, v: int)
    requires 0 < pe.x
    ensures MapPrefix(MapPrefix(buf, Area(pe), _ => v), Area(pe), _ => v) == MapPrefix(buf, Area(pe), _ => v)
    ensures MapView(MapView(buf, pe, b, _ => v), pe, b, _ => v) == MapView(buf, pe, b, _ => v)
  {
  }

  /** A region update leaves every cell of a disjoint region as it was. */
  lemma {:induction false} MapViewDisjoint(buf: seq<int>, pe: Extents, b: Bounds, c: Bounds, f: int -> int, q: Indices)
    requires 0 < pe.x && InExtents(pe, q) && Area(pe) <= |buf|
    requires c.Within(q) && forall p :: !(b.Within(p) && c.Within(p))
    ensures 0 <= LinearIndex(pe, q) < |buf|
    ensures MapView(buf, pe, b, f)[LinearIndex(pe, q)] == buf[LinearIndex(pe, q)]
  {
    MapViewAt(buf, pe, b, f, q);
  }

  /** A region update leaves the k-th cell of a disjoint region as it was. */
  lemma {:induction false} MapViewKeepsDisjointCell(buf: seq<int>, pe: Extents, b: Bounds, c: Bounds, f: int -> int, k: int)
    requires 0 < c.Size().x && Fits(c, pe) && 0 <= k < Area(c.Size()) && Area(pe) <= |buf|
    requires forall p :: !(b.Within(p) && c.Within(p))
    ensures 0 < pe.x && 0 <= ViewOffset(pe, c, k) < |buf|
    ensures MapView(buf, pe, b, f)[ViewOffset(pe, c, k)] == buf[ViewOffset(pe, c, k)]
  {
    ViewOffsetInView(pe, c, k);
  }

  // ---------------------------------------------------------------------
  // Grid
  // ---------------------------------------------------------------------

  class Grid {
    const kind: GridKind
    var data: array<int>
    var extents: Extents

    /** Non-negative extents; an owned buffer holds exactly `area` cells, a borrowed one at least that many. */
    ghost predicate Valid()
      reads this
    {
      AllGe(extents, Zero()) &&
      if kind.Owning? || kind.Fixed? then data.Length == Area(extents) else Area(extents) <= data.Length
    }

    /** `bounds()`: `FixedOriginBounds<0, 0>` for resizable grids, `FixedOriginExtentsBounds<0, 0, H, W>` for fixed ones. */
    function GridBounds(): (b: Bounds)
      reads this
      ensures b.Origin() == Zero() && b.Size() == extents
    {
      if kind.Owning? || kind.Mapped? then FixedOrigin(Zero(), extents) else FixedOriginExtents(Zero(), extents)
    }

    /** `within(pt)` of the grid bounds. */
    predicate Within(pt: Indices)
      reads this
    {
      GridBounds().Within(pt)
    }

    /** `empty()` of the grid bounds. */
    predicate Empty()
      reads this
    {
      GridBounds().Empty()
    }

    /**
     * The buffer offset `operator[]` reaches for `pt`.  The source adds the
     * bounds origin first; for every grid kind that origin is (0, 0) (see
     * `GridBounds`), so the offset is the plain linear index.
     */
    function Index(pt: Indices): int
      reads this
    {
      LinearIndex(extents, pt)
    }

    /** `operator[] const`. */
    function Get(pt: Indices): int
      reads this, data
      requires 0 <= Index(pt) < data.Length
    {
      data[Index(pt)]
    }

    /** The cells in iteration order: the first `area` cells of the buffer. */
    function Cells(): (r: seq<int>)
      reads this, data
      requires Valid()
      ensures |r| == Area(extents)
      ensures forall pt :: InExtents(extents, pt) ==> 0 <= Index(pt) < |r| && r[Index(pt)] == Get(pt)
    {
      assert forall pt :: InExtents(extents, pt) ==> 0 <= Index(pt) < Area(extents) by {
        forall pt | InExtents(extents, pt) ensures 0 <= Index(pt) < Area(extents) {
          LinearIndexInRange(extents, pt);
        }
      }
      data[..Area(extents)]
    }

    /** `data()`: the stored buffer. */
    function Data(): array<int>
      reads this
    {
      data
    }

    /** `operator[]` used as an lvalue: writes one buffer cell. */
    method Set(pt: Indices, v: int)
      requires 0 <= Index(pt) < data.Length
      modifies data
      ensures data[..] == old(data[..])[Index(pt) := v]
      ensures Get(pt) == v
    {
      data[Index(pt)] := v;
    }

    /** `Grid(extents)`: every cell value-initialised to 0. */
    constructor (e: Extents)
      requires AllGe(e, Zero())
      ensures kind == Owning && extents == e && Valid() && fresh(data)
      ensures Cells() == seq(Area(e), _ => 0)
    {
      kind := Owning;
      extents := e;
      data := new int[Area(e)](_ => 0);
    }

    /** `Grid(extents, val)`: every cell equals `val`. */
    constructor Filled(e: Extents, val: int)
      requires AllGe(e, Zero())
      ensures kind == Owning && extents == e && Valid() && fresh(data)
      ensures Cells() == seq(Area(e), _ => val)
    {
      kind := Owning;
      extents := e;
      data := new int[Area(e)](_ => val);
    }

    /** `Grid(const Grid&)`: a fresh buffer receiving the other grid's cells in iteration order. */
    constructor Copy(other: Grid)
      requires other.kind == Owning && other.Valid()
      ensures kind == Owning && extents == other.extents && Valid() && fresh(data)
      ensures Cells() == other.Cells()
    {
      kind := Owning;
      extents := other.extents;
      var n := Area(other.extents);
      var buf := new int[n];
      for k := 0 to n
        invariant forall j :: 0 <= j < k ==> buf[j] == other.data[j]
      {
        buf[k] := other.data[k];
      }
      data := buf;
    }

    /** `MappedGrid(extents, mem)`: borrows `mem` without touching it. */
    constructor OnBuffer(e: Extents, mem: array<int>)
      requires AllGe(e, Zero()) && Area(e) <= mem.Length
      ensures kind == Mapped && extents == e && data == mem && Valid()
    {
      kind := Mapped;
      extents := e;
      data := mem;
    }

    /** The implicit `MappedGrid` copy constructor: shares the other grid's buffer. */
    constructor SharedCopy(other: Grid)
      requires other.kind == Mapped && other.Valid()
      ensures kind == Mapped && extents == other.extents && data == other.data && Valid()
    {
      kind := Mapped;
      extents := other.extents;
      data := other.data;
    }

    /** `FixedGrid<CellT, Height, Width>()`: the array is value-initialised to 0. */
    constructor FixedZero(height: int, width: int)
      requires 0 <= height && 0 <= width
      ensures kind == Fixed && extents == Coord(height, width) && Valid() && fresh(data)
      ensures Cells() == seq(height * width, _ => 0)
    {
      kind := Fixed;
      extents := Coord(height, width);
      data := new int[height * width](_ => 0);
    }

    /** `FixedGrid<CellT, Height, Width>(initial_value)`: every cell equals the value. */
    constructor FixedFilled(height: int, width: int, val: int)
      requires 0 <= height && 0 <= width
      ensures kind == Fixed && extents == Coord(height, width) && Valid() && fresh(data)
      ensures Cells() == seq(height * width, _ => val)
    {
      kind := Fixed;
      extents := Coord(height, width);
      data := new int[height * width](_ => val);
    }

    /** `FixedMappedGrid<CellT, Height, Width>(mem)`: borrows `mem` without touching it. */
    constructor FixedOnBuffer(height: int, width: int, mem: array<int>)
      requires 0 <= height && 0 <= width && height * width <= mem.Length
      ensures kind == FixedMapped && extents == Coord(height, width) && data == mem && Valid()
    {
      kind := FixedMapped;
      extents := Coord(height, width);
      data := mem;
    }

    /**
     * The implicit copy assignment of `MappedGrid` and of `FixedMappedGrid`
     * (same type on both sides): takes the other grid's extents, which for
     * `FixedMappedGrid` are the same template constants, and shares its
     * buffer.
     */
    method AssignShared(other: Grid)
      requires other.Valid()
      requires (kind == Mapped && other.kind == Mapped)
               || (kind == FixedMapped && other.kind == FixedMapped && other.extents == extents)
      modifies this
      ensures Valid() && extents == other.extents && data == other.data
    {
      extents := other.extents;
      data := other.data;
    }

    // ---- bulk cellwise loops (raw storage order) ----

    /** The loop shared by `fill`, `*=` and `/=`: `f` applied to each cell in iteration order. */
    method Update(f: int -> int)
      requires Valid()
      modifies data
      ensures data[..] == MapPrefix(old(data[..]), Area(extents), f)
    {
      var n := Area(extents);
      for k := 0 to n
        invariant forall j :: 0 <= j < data.Length ==> data[j] == if j < k then f(old(data[j])) else old(data[j])
      {
        data[k] := f(data[k]);
      }
    }

    /**
     * The loop shared by cross-assignment, `+=` and `-=`: the other operand's
     * cells `src`, in its own iteration order, are paired with this grid's
     * cells in raw storage order until `src` is exhausted.
     */
    method Combine(src: seq<int>, f: (int, int) -> int)
      requires Valid() && |src| <= Area(extents)
      modifies data
      ensures data[..] == ZipPrefix(old(data[..]), src, f)
    {
      for k := 0 to |src|
        invariant forall j :: 0 <= j < data.Length ==> data[j] == if j < k then f(old(data[j]), src[j]) else old(data[j])
      {
        data[k] := f(data[k], src[k]);
      }
    }

    /** `fill(value)`: every cell becomes `value`; a borrowed buffer beyond `area` is untouched. */
    method Fill(value: int)
      requires Valid()
      modifies data
      ensures data[..] == MapPrefix(old(data[..]), Area(extents), _ => value)
      ensures Cells() == seq(Area(extents), _ => value)
    {
      Update(_ => value);
    }

    /** `operator*=(scale)`. */
    method MulAssign(scale: int)
      requires Valid()
      modifies data
      ensures data[..] == MapPrefix(old(data[..]), Area(extents), c => c * scale)
    {
      Update(c => c * scale);
    }

    /** `operator/=(scale)`: C++ division, truncated toward zero. */
    method DivAssign(scale: int)
      requires Valid() && scale != 0
      modifies data
      ensures data[..] == MapPrefix(old(data[..]), Area(extents), c => TruncDiv(c, scale))
    {
      Update(c => TruncDiv(c, scale));
    }

    /**
     * The templated `operator=(other)` of `GridBase`, from a grid or view of
     * another type: the other operand's cells, pairwise.  `MappedGrid`,
     * `FixedGrid` and `FixedMappedGrid` bring it in with
     * `using GBase::operator=`; `Grid` declares its own assignments, which
     * hide it, so an owning grid has no such assignment.  An operand of the
     * same type takes the implicit copy assignment instead (`AssignShared`
     * for the borrowing kinds).
     */
    method Assign(src: seq<int>)
      requires Valid() && kind != Owning && |src| <= Area(extents)
      modifies data
      ensures data[..] == ZipPrefix(old(data[..]), src, Overwrite)
      ensures data[..|src|] == src
    {
      Combine(src, Overwrite);
      forall i | 0 <= i < |src|
        ensures data[i] == src[i]
      {
        assert i < data.Length;
        assert data[..][i] == ZipPrefix(old(data[..]), src, Overwrite)[i] == Overwrite(old(data[..])[i], src[i]);
      }
    }

    /** `operator+=(other)`. */
    method AddAssign(src: seq<int>)
      requires Valid() && |src| <= Area(extents)
      modifies data
      ensures data[..] == ZipPrefix(old(data[..]), src, (c, s) => c + s)
    {
      Combine(src, (c, s) => c + s);
    }

    /** `operator-=(other)`. */
    method SubAssign(src: seq<int>)
      requires Valid() && |src| <= Area(extents)
      modifies data
      ensures data[..] == ZipPrefix(old(data[..]), src, (c, s) => c - s)
    {
      Combine(src, (c, s) => c - s);
    }

    /** `operator!=`: true when the extents differ, otherwise when some paired cell differs. */
    method NotEqual(other: Grid) returns (r: bool)
      requires Valid() && other.Valid()
      ensures r <==> extents != other.extents || Cells() != other.Cells()
    {
      if extents != other.extents {
        return true;
      }
      var n := Area(extents);
      for k := 0 to n
        invariant forall j :: 0 <= j < k ==> data[j] == other.data[j]
      {
        if data[k] != other.data[k] {
          assert Cells()[k] != other.Cells()[k];
          return true;
        }
      }
      assert Cells() == other.Cells();
      return false;
    }

    /** `operator==`: the negation of `!=`. */
    method Equal(other: Grid) returns (r: bool)
      requires Valid() && other.Valid()
      ensures r <==> extents == other.extents && Cells() == other.Cells()
    {
      var ne := NotEqual(other);
      r := !ne;
    }

    // ---- shape operations ----

    /** `Grid::resize(extents, value)`: same extents fill in place; new extents get a fresh buffer filled with `value`. */
    method ResizeFill(e: Extents, value: int)
      requires kind == Owning && Valid() && AllGe(e, Zero())
      modifies this, data
      ensures Valid() && extents == e
      ensures Cells() == seq(Area(e), _ => value)
      ensures old(extents) == e ==> data == old(data)
      ensures old(extents) != e ==> fresh(data)
    {
      if extents == e {
        Fill(value);
      } else {
        extents := e;
        data := new int[Area(e)](_ => value);
      }
    }

    /** `Grid::resize(extents)`: a no-op for the same extents; otherwise a fresh buffer of zeros. */
    method Resize(e: Extents)
      requires kind == Owning && Valid() && AllGe(e, Zero())
      modifies this
      ensures Valid() && extents == e
      ensures old(extents) == e ==> data == old(data)
      ensures old(extents) != e ==> fresh(data) && Cells() == seq(Area(e), _ => 0)
    {
      if extents != e {
        extents := e;
        data := new int[Area(e)](_ => 0);
      }
    }

    /** `MappedGrid::resize(extents)`: only the extents change; the borrowed buffer is untouched. */
    method MappedResize(e: Extents)
      requires kind == Mapped && AllGe(e, Zero()) && Area(e) <= data.Length
      modifies this
      ensures Valid() && extents == e && data == old(data)
    {
      extents := e;
    }

    /** `MappedGrid::resize(extents, initial_value)`: new extents, then the first `area` cells filled. */
    method MappedResizeFill(e: Extents, value: int)
      requires kind == Mapped && AllGe(e, Zero()) && Area(e) <= data.Length
      modifies this, data
      ensures Valid() && extents == e && data == old(data)
      ensures data[..] == MapPrefix(old(data[..]), Area(e), _ => value)
    {
      extents := e;
      Fill(value);
    }

    /** `swap(other)` for `Grid`: the buffers are exchanged; each grid keeps its own extents. */
    method Swap(other: Grid)
      requires kind == Owning && other.kind == Owning && Valid() && other.Valid()
      requires Area(extents) == Area(other.extents)
      modifies this, other
      ensures data == old(other.data) && other.data == old(data)
      ensures extents == old(extents) && other.extents == old(other.extents)
      ensures Valid() && other.Valid()
    {
      var otherData := other.data;
      var thisData := data;
      data := otherData;
      other.data := thisData;
    }

    /** `view(bounds)`. */
    method MakeView(b: Bounds) returns (v: View)
      ensures fresh(v) && v.parent == this && v.bounds == b
    {
      v := new View(this, b);
    }

    /** `view()`: the view of the whole grid. */
    method WholeView() returns (v: View)
      requires Valid() && 0 < extents.x
      ensures fresh(v) && v.parent == this && v.bounds == GridBounds() && v.Valid()
    {
      v := new View(this, GridBounds());
    }
  }

  /** A grid of extents (20, 10) contains (1, 1) but not (21, 11), whatever its kind. */
  lemma WithinExamples(g: Grid)
    requires g.extents == Coord(20, 10)
    ensures g.Within(Coord(1, 1)) && !g.Within(Coord(21, 11))
    ensures !g.Empty()
  {
  }

  /** A grid is `within` exactly at its in-extents points, which `operator[]` maps into its cells. */
  lemma {:induction false} GridWithinIsInExtents(g: Grid, pt: Indices)
    requires g.Valid()
    ensures g.Within(pt) <==> InExtents(g.extents, pt)
    ensures g.Within(pt) ==> 0 <= g.Index(pt) < Area(g.extents) <= g.data.Length
  {
    if g.Within(pt) {
      LinearIndexInRange(g.extents, pt);
    }
  }

  // ---------------------------------------------------------------------
  // View
  // ---------------------------------------------------------------------

  class View {
    const parent: Grid
    const bounds: Bounds

    /** `View(parent, bounds)`. */
    constructor (p: Grid, b: Bounds)
      ensures parent == p && bounds == b
    {
      parent := p;
      bounds := b;
    }

    /** The parent is valid and the region lies inside it. */
    ghost predicate Valid()
      reads parent
    {
      parent.Valid() && Fits(bounds, parent.extents) && 0 < bounds.Size().x
    }

    /** The parent offset reached by `view[local]`: the view origin is added, then the parent's. */
    function Index(local: Indices): int
      reads parent
    {
      parent.Index(Add(local, bounds.Origin()))
    }

    /** `operator[] const`: forwards to `parent[local + origin]`. */
    function Get(local: Indices): int
      reads parent, parent.data
      requires 0 <= Index(local) < parent.data.Length
    {
      parent.Get(Add(local, bounds.Origin()))
    }

    /** `operator[]` used as an lvalue. */
    method Set(local: Indices, v: int)
      requires 0 <= Index(local) < parent.data.Length
      modifies parent.data
      ensures parent.data[..] == old(parent.data[..])[Index(local) := v]
      ensures Get(local) == v
    {
      parent.Set(Add(local, bounds.Origin()), v);
    }

    /** The cells in iteration order: column-major over local coordinates. */
    function Cells(): (r: seq<int>)
      reads parent, parent.data
      requires Valid()
      ensures |r| == Area(bounds.Size())
    {
      seq(Area(bounds.Size()), k requires Valid() && 0 <= k < Area(bounds.Size()) reads parent, parent.data => CellAt(k))
    }

    /** The k-th cell in iteration order: the parent cell at the region's k-th point. */
    function CellAt(k: int): int
      reads parent, parent.data
      requires Valid() && 0 <= k < Area(bounds.Size())
    {
      ViewOffsetInView(parent.extents, bounds, k);
      parent.data[ViewOffset(parent.extents, bounds, k)]
    }

    /** The iterator's k-th local point addresses the parent cell of the region's k-th point. */
    lemma IndexOfRank(k: int)
      requires Valid() && 0 <= k < Area(bounds.Size())
      ensures Index(PointOfIndex(bounds.Size(), k)) == ViewOffset(parent.extents, bounds, k)
      ensures 0 <= ViewOffset(parent.extents, bounds, k) < Area(parent.extents) <= parent.data.Length
      ensures CellAt(k) == Get(PointOfIndex(bounds.Size(), k))
    {
      ViewOffsetInView(parent.extents, bounds, k);
    }

    /** The loop shared by `fill`, `*=` and `/=` on a view, driven by a `ColViewIterator`. */
    method Update(f: int -> int)
      requires Valid()
      modifies parent.data
      ensures parent.data[..] == MapView(old(parent.data[..]), parent.extents, bounds, f)
    {
      var pe, b := parent.extents, bounds;
      var size := b.Size();
      ghost var buf := parent.data[..];
      ghost var n := 0;
      var it := new ColViewIterator(this, Zero());
      PointOfIndexAtEnd(size, 0);
      while !it.AtEnd()
        invariant it.view == this && fresh(it)
        invariant 0 <= n <= Area(size) && it.pt == PointOfIndex(size, n)
        invariant parent.data.Length == |buf|
        invariant forall i :: 0 <= i < |buf| ==>
          parent.data[i] == if InView(pe, b, i) && ViewRank(pe, b, i) < n then f(buf[i]) else buf[i]
        decreases Area(size) - n
      {
        PointOfIndexAtEnd(size, n);
        ViewOffsetInView(pe, b, n);
        var j := ViewOffset(pe, b, n);
        assert Index(it.pt) == j;
        forall i | 0 <= i < |buf| && InView(pe, b, i) && ViewRank(pe, b, i) == n
          ensures i == j
        {
          ViewRankUnique(pe, b, i, n);
        }
        it.Set(f(it.Get()));
        PointOfIndexSucc(size, n);
        it.Increment();
        n := n + 1;
      }
      PointOfIndexAtEnd(size, n);
      forall i | 0 <= i < |buf| && InView(pe, b, i)
        ensures ViewRank(pe, b, i) < n
      {
        ViewRankInRange(pe, b, i);
      }
    }

    /**
     * The loop shared by cross-assignment, `+=` and `-=` on a view: the other
     * operand's cells `src` are paired with this view's cells in column order
     * until `src` is exhausted.
     */
    method Combine(src: seq<int>, f: (int, int) -> int)
      requires Valid() && |src| <= Area(bounds.Size())
      modifies parent.data
      ensures parent.data[..] == ZipView(old(parent.data[..]), parent.extents, bounds, src, f)
    {
      var pe, b := parent.extents, bounds;
      var size := b.Size();
      ghost var buf := parent.data[..];
      var it := new ColViewIterator(this, Zero());
      var n := 0;
      assert 0 < pe.x;
      while n < |src|
        invariant it.view == this && fresh(it)
        invariant 0 <= n <= |src| && it.pt == PointOfIndex(size, n)
        invariant parent.data.Length == |buf|
        invariant forall i :: 0 <= i < |buf| ==>
          parent.data[i] == if InView(pe, b, i) && 0 <= ViewRank(pe, b, i) < n then f(buf[i], src[ViewRank(pe, b, i)]) else buf[i]
      {
        ViewOffsetInView(pe, b, n);
        var j := ViewOffset(pe, b, n);
        assert Index(it.pt) == j;
        forall i | 0 <= i < |buf| && InView(pe, b, i) && ViewRank(pe, b, i) == n
          ensures i == j
        {
          ViewRankUnique(pe, b, i, n);
        }
        it.Set(f(it.Get(), src[n]));
        PointOfIndexSucc(size, n);
        it.Increment();
        n := n + 1;
      }
    }

    /** `fill(value)` on a view: every cell of the region becomes `value`; nothing outside changes. */
    method Fill(value: int)
      requires Valid()
      modifies parent.data
      ensures parent.data[..] == MapView(old(parent.data[..]), parent.extents, bounds, _ => value)
      ensures Cells() == seq(Area(bounds.Size()), _ => value)
    {
      Update(_ => value);
      forall k | 0 <= k < Area(bounds.Size())
        ensures Cells()[k] == value
      {
        ViewOffsetInView(parent.extents, bounds, k);
      }
    }

    /** `operator*=(scale)` on a view. */
    method MulAssign(scale: int)
      requires Valid()
      modifies parent.data
      ensures parent.data[..] == MapView(old(parent.data[..]), parent.extents, bounds, c => c * scale)
    {
      Update(c => c * scale);
    }

    /** `operator/=(scale)` on a view: C++ division, truncated toward zero. */
    method DivAssign(scale: int)
      requires Valid() && scale != 0
      modifies parent.data
      ensures parent.data[..] == MapView(old(parent.data[..]), parent.extents, bounds, c => TruncDiv(c, scale))
    {
      Update(c => TruncDiv(c, scale));
    }

    /**
     * The templated `operator=(other)` on a view, from a grid or view of
     * another type: the other operand's cells, in order, into the region's
     * first cells.
     */
    method Assign(src: seq<int>)
      requires Valid() && |src| <= Area(bounds.Size())
      modifies parent.data
      ensures parent.data[..] == ZipView(old(parent.data[..]), parent.extents, bounds, src, Overwrite)
      ensures Cells()[..|src|] == src
    {
      ghost var buf := parent.data[..];
      Combine(src, Overwrite);
      ghost var after := parent.data[..];
      forall k | 0 <= k < |src|
        ensures Cells()[k] == src[k]
      {
        ViewOffsetInView(parent.extents, bounds, k);
        var i := ViewOffset(parent.extents, bounds, k);
        assert after[i] == ZipView(buf, parent.extents, bounds, src, Overwrite)[i] == Overwrite(buf[i], src[k]);
        assert Cells()[k] == CellAt(k) == after[i];
      }
    }

    /** `operator+=(other)` on a view. */
    method AddAssign(src: seq<int>)
      requires Valid() && |src| <= Area(bounds.Size())
      modifies parent.data
      ensures parent.data[..] == ZipView(old(parent.data[..]), parent.extents, bounds, src, (c, s) => c + s)
    {
      Combine(src, (c, s) => c + s);
    }

    /** `operator-=(other)` on a view. */
    method SubAssign(src: seq<int>)
      requires Valid() && |src| <= Area(bounds.Size())
      modifies parent.data
      ensures parent.data[..] == ZipView(old(parent.data[..]), parent.extents, bounds, src, (c, s) => c - s)
    {
      Combine(src, (c, s) => c - s);
    }

    /** `operator!=` on views: true when the extents differ, otherwise when some paired cell differs. */
    method NotEqual(other: View) returns (r: bool)
      requires Valid() && other.Valid()
      ensures r <==> bounds.Size() != other.bounds.Size() || Cells() != other.Cells()
    {
      if bounds.Size() != other.bounds.Size() {
        return true;
      }
      var size := bounds.Size();
      var it := new ColViewIterator(this, Zero());
      var otherIt := new ColViewIterator(other, Zero());
      ghost var n := 0;
      PointOfIndexAtEnd(size, 0);
      while !otherIt.AtEnd()
        invariant it.view == this && otherIt.view == other
        invariant 0 <= n <= Area(size) && it.pt == PointOfIndex(size, n) && otherIt.pt == PointOfIndex(size, n)
        invariant forall j :: 0 <= j < n ==> CellAt(j) == other.CellAt(j)
        decreases Area(size) - n
      {
        PointOfIndexAtEnd(size, n);
        IndexOfRank(n);
        other.IndexOfRank(n);
        if it.Get() != otherIt.Get() {
          assert Cells()[n] != other.Cells()[n];
          return true;
        }
        PointOfIndexSucc(size, n);
        it.Increment();
        otherIt.Increment();
        n := n + 1;
      }
      PointOfIndexAtEnd(size, n);
      assert Cells() == other.Cells() by {
        forall j | 0 <= j < n ensures Cells()[j] == other.Cells()[j] {
        }
      }
      return false;
    }

    /** `operator==` on views: the negation of `!=`. */
    method Equal(other: View) returns (r: bool)
      requires Valid() && other.Valid()
      ensures r <==> bounds.Size() == other.bounds.Size() && Cells() == other.Cells()
    {
      var ne := NotEqual(other);
      r := !ne;
    }
  }

  // ---------------------------------------------------------------------
  // View iterators
  // ---------------------------------------------------------------------

  /** `ColViewIterator`: walks local coordinates with x innermost. */
  class ColViewIterator {
    const view: View
    var pt: Indices

    /** Initialization constructor: starts at `start` (by default `Indices::Zero()`). */
    constructor (v: View, start: Indices)
      ensures view == v && pt == start
    {
      view := v;
      pt := start;
    }

    /** End iterator constructor: the concrete past-the-end position `(0, extents.y)`. */
    constructor AtEndTag(v: View)
      ensures view == v && pt == Coord(0, v.bounds.Size().y)
    {
      view := v;
      pt := Coord(0, v.bounds.Size().y);
    }

    /** `coords()`: the view-relative point. */
    function Coords(): Indices
      reads this
    {
      pt
    }

    /** `operator==(ViewIteratorEnd)`: y has reached the view's extents. */
    predicate AtEnd()
      reads this
    {
      pt.y == view.bounds.Size().y
    }

    /** `operator==`: same view and same point. */
    predicate Equals(other: ColViewIterator)
      reads this, other
    {
      view == other.view && pt == other.pt
    }

    /** `operator*` read. */
    function Get(): int
      reads this, view.parent, view.parent.data
      requires 0 <= view.Index(pt) < view.parent.data.Length
    {
      view.Get(pt)
    }

    /** `operator*` written. */
    method Set(v: int)
      requires 0 <= view.Index(pt) < view.parent.data.Length
      modifies view.parent.data
      ensures view.parent.data[..] == old(view.parent.data[..])[view.Index(pt) := v]
    {
      view.Set(pt, v);
    }

    /** `operator++`: x advances; at the view's `extents.x` it wraps to 0 and y advances. */
    method Increment()
      modifies this
      ensures pt == (if old(pt.x) + 1 == view.bounds.Size().x
                     then Coord(0, old(pt.y) + 1)
                     else Coord(old(pt.x) + 1, old(pt.y)))
    {
      pt := pt.(x := pt.x + 1);
      if pt.x == view.bounds.Size().x {
        pt := pt.(x := 0, y := pt.y + 1);
      }
    }
  }

  /** `RowViewIterator`: walks local coordinates with y innermost. */
  class RowViewIterator {
    const view: View
    var pt: Indices

    /** Initialization constructor: starts at `start` (by default `Indices::Zero()`). */
    constructor (v: View, start: Indices)
      ensures view == v && pt == start
    {
      view := v;
      pt := start;
    }

    /** End iterator constructor: the concrete past-the-end position `(extents.x, 0)`. */
    constructor AtEndTag(v: View)
      ensures view == v && pt == Coord(v.bounds.Size().x, 0)
    {
      view := v;
      pt := Coord(v.bounds.Size().x, 0);
    }

    /** `coords()`: the view-relative point. */
    function Coords(): Indices
      reads this
    {
      pt
    }

    /** `operator==(ViewIteratorEnd)`: x has reached the view's extents. */
    predicate AtEnd()
      reads this
    {
      pt.x == view.bounds.Size().x
    }

    /** `operator==`: same view and same point. */
    predicate Equals(other: RowViewIterator)
      reads this, other
    {
      view == other.view && pt == other.pt
    }

    /** `operator*` read. */
    function Get(): int
      reads this, view.parent, view.parent.data
      requires 0 <= view.Index(pt) < view.parent.data.Length
    {
      view.Get(pt)
    }

    /** `operator*` written. */
    method Set(v: int)
      requires 0 <= view.Index(pt) < view.parent.data.Length
      modifies view.parent.data
      ensures view.parent.data[..] == old(view.parent.data[..])[view.Index(pt) := v]
    {
      view.Set(pt, v);
    }

    /** `operator++`: y advances; at the view's `extents.y` it wraps to 0 and x advances. */
    method Increment()
      modifies this
      ensures pt == (if old(pt.y) + 1 == view.bounds.Size().y
                     then Coord(old(pt.x) + 1, 0)
                     else Coord(old(pt.x), old(pt.y) + 1))
    {
      pt := pt.(y := pt.y + 1);
      if pt.y == view.bounds.Size().y {
        pt := pt.(y := 0, x := pt.x + 1);
      }
    }
  }

  // ---------------------------------------------------------------------
  // Row-major order over a region
  // ---------------------------------------------------------------------

  /** The row-order position, within region `b`, of the point stored at parent offset `i`. */
  function RowViewRank(pe: Extents, b: Bounds, i: int): int
    requires 0 < pe.x
  {
    LinearIndex(Transpose(b.Size()), Transpose(Sub(PointOfIndex(pe, i), b.Origin())))
  }

  /** The parent offset of the k-th cell of region `b` in row order. */
  function RowViewOffset(pe: Extents, b: Bounds, k: int): int
    requires 0 < b.Size().y
  {
    LinearIndex(pe, RowPoint(b, k))
  }

  /** The k-th cell of a fitting region in row order is stored at an offset of that region, whose row rank is k. */
  lemma {:induction false} RowViewOffsetInView(pe: Extents, b: Bounds, k: int)
    requires 0 < b.Size().y && Fits(b, pe) && 0 <= k < Area(b.Size())
    ensures 0 < pe.x
    ensures InView(pe, b, RowViewOffset(pe, b, k)) && RowViewRank(pe, b, RowViewOffset(pe, b, k)) == k
  {
    var p := RowPoint(b, k);
    RowPointWithin(b, k);
    assert InExtents(pe, p);
    LinearIndexInRange(pe, p);
    PointOfLinearIndex(pe, p);
    assert Transpose(Sub(p, b.Origin())) == PointOfIndex(Transpose(b.Size()), k);
  }

  /** An offset of a fitting region has a row rank in `[0, area)`. */
  lemma {:induction false} RowViewRankInRange(pe: Extents, b: Bounds, i: int)
    requires 0 < pe.x && Fits(b, pe) && InView(pe, b, i)
    ensures 0 < b.Size().y && 0 <= RowViewRank(pe, b, i) < Area(b.Size())
  {
    LinearIndexInRange(Transpose(b.Size()), Transpose(Sub(PointOfIndex(pe, i), b.Origin())));
  }

  /** Only one offset of a region has a given row rank. */
  lemma {:induction false} RowViewRankUnique(pe: Extents, b: Bounds, i: int, k: int)
    requires 0 < b.Size().y && Fits(b, pe) && 0 < pe.x && InView(pe, b, i) && RowViewRank(pe, b, i) == k
    ensures i == RowViewOffset(pe, b, k)
  {
    var local := Transpose(Sub(PointOfIndex(pe, i), b.Origin()));
    PointOfLinearIndex(Transpose(b.Size()), local);
    assert RowPoint(b, k) == PointOfIndex(pe, i);
  }

  // ---------------------------------------------------------------------
  // Iterator-driven loops
  // ---------------------------------------------------------------------

  /**
   * Writing `value` through a `ColViewIterator` until it equals the concrete
   * end iterator `(0, extents.y)`: along the walk, equality with the end
   * iterator and the end-tag test agree, and the result is `fill(value)`.
   */
  method FillByColumns(v: View, value: int)
    requires v.Valid()
    modifies v.parent.data
    ensures v.parent.data[..] == MapView(old(v.parent.data[..]), v.parent.extents, v.bounds, _ => value)
  {
    var pe, b := v.parent.extents, v.bounds;
    var size := b.Size();
    ghost var buf := v.parent.data[..];
    ghost var n := 0;
    var it := new ColViewIterator(v, Zero());
    var end := new ColViewIterator.AtEndTag(v);
    PointOfIndexAtEnd(size, 0);
    while !it.Equals(end)
      invariant it.view == v && end.view == v && end.pt == Coord(0, size.y) && it != end
      invariant 0 <= n <= Area(size) && it.pt == PointOfIndex(size, n)
      invariant it.Equals(end) <==> it.AtEnd()
      invariant v.parent.data.Length == |buf|
      invariant forall i :: 0 <= i < |buf| ==>
        v.parent.data[i] == if InView(pe, b, i) && ViewRank(pe, b, i) < n then value else buf[i]
      decreases Area(size) - n
    {
      PointOfIndexAtEnd(size, n);
      ViewOffsetInView(pe, b, n);
      var j := ViewOffset(pe, b, n);
      assert v.Index(it.pt) == j;
      forall i | 0 <= i < |buf| && InView(pe, b, i) && ViewRank(pe, b, i) == n
        ensures i == j
      {
        ViewRankUnique(pe, b, i, n);
      }
      it.Set(value);
      PointOfIndexSucc(size, n);
      it.Increment();
      n := n + 1;
      PointOfIndexAtEnd(size, n);
    }
    forall i | 0 <= i < |buf| && InView(pe, b, i)
      ensures ViewRank(pe, b, i) < n
    {
      ViewRankInRange(pe, b, i);
    }
  }

  /**
   * Writing `value` through a `RowViewIterator` until it equals the concrete
   * end iterator `(extents.x, 0)`: along the walk, equality with the end
   * iterator and the end-tag test agree, and the result is `fill(value)`.
   */
  method FillByRows(v: View, value: int)
    requires v.Valid() && 0 < v.bounds.Size().y
    modifies v.parent.data
    ensures v.parent.data[..] == MapView(old(v.parent.data[..]), v.parent.extents, v.bounds, _ => value)
  {
    var pe, b := v.parent.extents, v.bounds;
    var size := b.Size();
    var t := Transpose(size);
    ghost var buf := v.parent.data[..];
    ghost var n := 0;
    var it := new RowViewIterator(v, Zero());
    var end := new RowViewIterator.AtEndTag(v);
    PointOfIndexAtEnd(t, 0);
    while !it.Equals(end)
      invariant it.view == v && end.view == v && end.pt == Coord(size.x, 0) && it != end
      invariant 0 <= n <= Area(size) && it.pt == Transpose(PointOfIndex(t, n))
      invariant it.Equals(end) <==> it.AtEnd()
      invariant v.parent.data.Length == |buf|
      invariant forall i :: 0 <= i < |buf| ==>
        v.parent.data[i] == if InView(pe, b, i) && RowViewRank(pe, b, i) < n then value else buf[i]
      decreases Area(size) - n
    {
      PointOfIndexAtEnd(t, n);
      RowViewOffsetInView(pe, b, n);
      var j := RowViewOffset(pe, b, n);
      assert v.Index(it.pt) == j;
      forall i | 0 <= i < |buf| && InView(pe, b, i) && RowViewRank(pe, b, i) == n
        ensures i == j
      {
        RowViewRankUnique(pe, b, i, n);
      }
      it.Set(value);
      PointOfIndexSucc(t, n);
      it.Increment();
      n := n + 1;
      PointOfIndexAtEnd(t, n);
    }
    forall i | 0 <= i < |buf| && InView(pe, b, i)
      ensures RowViewRank(pe, b, i) < n
    {
      RowViewRankInRange(pe, b, i);
    }
  }

  /** The whole-grid view has the grid's own cells in the grid's own order. */
  lemma {:induction false} WholeViewCells(g: Grid, v: View)
    requires g.Valid() && 0 < g.extents.x && v.parent == g && v.bounds == g.GridBounds()
    ensures v.Valid() && v.Cells() == g.Cells()
  {
    forall k | 0 <= k < Area(g.extents)
      ensures v.Cells()[k] == g.Cells()[k]
    {
      WholeViewIsBufferOrder(g.extents, v.bounds, k);
    }
  }

  // ---------------------------------------------------------------------
  // Behaviour pinned down by the library's tests
  // ---------------------------------------------------------------------

  /**
   * A 20x10 grid of 1s; the 3x3 region at (2, 2), of any bounds variant, is
   * filled with 5 through its view.  Every cell of that view then reads 5,
   * and every cell of the 3x3 region at (5, 5) still reads 1.
   */
  method ViewFillExample(b: Bounds, c: Bounds) returns (inside: seq<int>, outside: seq<int>)
    requires b.Origin() == Coord(2, 2) && b.Size() == Coord(3, 3)
    requires c.Origin() == Coord(5, 5) && c.Size() == Coord(3, 3)
    ensures inside == seq(9, _ => 5) && outside == seq(9, _ => 1)
  {
    var grid := new Grid.Filled(Coord(20, 10), 1);
    var view := grid.MakeView(b);
    var untouched := grid.MakeView(c);
    ghost var buf := grid.data[..];
    assert buf == grid.Cells() == seq(200, _ => 1);
    assert forall p :: !(b.Within(p) && c.Within(p));
    view.Fill(5);
    inside := view.Cells();
    outside := untouched.Cells();
    forall k | 0 <= k < 9
      ensures outside[k] == 1
    {
      MapViewKeepsDisjointCell(buf, grid.extents, b, c, _ => 5, k);
      assert outside[k] == grid.data[ViewOffset(grid.extents, c, k)];
    }
  }

  /** One cell of the mapped-grid assignment example: 5 inside the 2x2 region at (1, 1), 1 elsewhere. */
  lemma {:induction false} AssignExampleCell(buf: seq<int>, src: seq<int>, q: Indices)
    requires |buf| == 200 && |src| == 4 && InExtents(Coord(20, 10), q)
    requires forall i :: 0 <= i < |buf| ==> buf[i] == 1
    requires forall i :: 0 <= i < |src| ==> src[i] == 5
    ensures 0 <= LinearIndex(Coord(20, 10), q) < 200
    ensures ZipView(buf, Coord(20, 10), FixedOriginExtents(Coord(1, 1), Coord(2, 2)), src, Overwrite)[LinearIndex(Coord(20, 10), q)]
         == if 1 <= q.x < 3 && 1 <= q.y < 3 then 5 else 1
  {
    var pe, b := Coord(20, 10), FixedOriginExtents(Coord(1, 1), Coord(2, 2));
    ZipViewAt(buf, pe, b, src, Overwrite, q);
    if 1 <= q.x < 3 && 1 <= q.y < 3 {
      assert 0 <= LinearIndex(b.Size(), Sub(q, b.Origin())) < 4;
    }
  }

  /**
   * A 20x10 mapped grid (resizable or fixed-size) over a buffer of 1s; a
   * 2x2 fixed grid of 5s is assigned into its 2x2 view at (1, 1).  The four
   * cells (1,1), (1,2), (2,1), (2,2) then read 5 and every other cell, such
   * as (0,0) and (3,3), still reads 1.
   */
  method MappedViewAssignExample(fixedSize: bool) returns (grid: Grid)
    ensures grid.Valid() && grid.extents == Coord(20, 10)
    ensures forall q :: InExtents(grid.extents, q) ==> 0 <= grid.Index(q) < grid.data.Length
    ensures forall q :: InExtents(grid.extents, q) ==>
              grid.Get(q) == if 1 <= q.x < 3 && 1 <= q.y < 3 then 5 else 1
  {
    var segment := new int[200](_ => 1);
    if fixedSize {
      grid := new Grid.FixedOnBuffer(20, 10, segment);
    } else {
      grid := new Grid.OnBuffer(Coord(20, 10), segment);
    }
    var view := grid.MakeView(FixedOriginExtents(Coord(1, 1), Coord(2, 2)));
    var small := new Grid.FixedFilled(2, 2, 5);
    var src := small.Cells();
    ghost var buf := grid.data[..];
    assert buf == seq(200, _ => 1);
    view.Assign(src);
    forall q | InExtents(grid.extents, q)
      ensures 0 <= grid.Index(q) < grid.data.Length
      ensures grid.Get(q) == if 1 <= q.x < 3 && 1 <= q.y < 3 then 5 else 1
    {
      AssignExampleCell(buf, src, q);
    }
  }
}

/**
 * `FixedTiledGrid<CellT, Height, Width, TileHeight, TileWidth>`: a fixed
 * grid stored as a grid of lazily allocated tiles.  Each tile is a
 * `FixedGrid<CellT, TileHeight, TileWidth>` addressed by
 * `Primitives.LinearIndex`, allocated (filled with the default value) the
 * first time one of its cells is accessed mutably.  Read-only access to a
 * cell of an unallocated tile yields the default value.
 *
 * The number of tile rows and columns is the ceiling of the grid size over
 * the tile size.  The library divides with truncation instead, which loses
 * the last, partial tile row or column when the sizes do not divide evenly;
 * `RowsAsWritten`, `SlotAsWritten` and the lemmas after them record that
 * behaviour.  The two agree whenever the sizes divide evenly.
 */
module TiledGrids {
  import opened Arith
  import opened Coordinates
  import opened Primitives

  datatype Option<T> = None | Some(value: T)

  /** `Tile<TileGrid>`: an owning pointer to the tile's cells (null when unallocated) and the tile's origin. */
  datatype Tile = Tile(data: Option<array<int>>, origin: Indices)

  /**
   * The template parameters of a tiled grid: its size (`Height`, `Width`)
   * and the size of one tile (`TileHeight`, `TileWidth`).  Points and tiles
   * are addressed as in every grid: x runs over rows, y over columns.
   */
  datatype Layout = Layout(height: int, width: int, tileHeight: int, tileWidth: int)
  {
    /** The `static_assert`s `Height >= TileHeight` and `Width >= TileWidth`, with non-empty tiles. */
    predicate Valid()
    {
      0 < tileHeight <= height && 0 < tileWidth <= width
    }

    /** The grid's extents `(Height, Width)`. */
    function Extents(): Extents
    {
      Coord(height, width)
    }

    /** The extents of one tile `(TileHeight, TileWidth)`. */
    function TileExtents(): Extents
    {
      Coord(tileHeight, tileWidth)
    }

    /** `TileRows`: tile rows needed to cover `Height` rows. */
    function Rows(): int
      requires Valid()
    {
      (height + tileHeight - 1) / tileHeight
    }

    /** `TileCols`: tile columns needed to cover `Width` columns. */
    function Cols(): int
      requires Valid()
    {
      (width + tileWidth - 1) / tileWidth
    }

    /** The extents of the `tiles_` grid, `(TileRows, TileCols)`. */
    function TileGridExtents(): Extents
      requires Valid()
    {
      Coord(Rows(), Cols())
    }

    /** `TileCount = TileRows * TileCols`. */
    function Count(): int
      requires Valid()
    {
      Area(TileGridExtents())
    }

    /** `tile_pt`: the tile holding `pt`, `(pt.x / TileHeight, pt.y / TileWidth)` (non-negative operands). */
    function TileOf(pt: Indices): Indices
      requires Valid()
    {
      Coord(pt.x / tileHeight, pt.y / tileWidth)
    }

    /** The slot of `tiles_` that `tiles_[tile_pt]` addresses. */
    function SlotOf(pt: Indices): int
      requires Valid()
    {
      LinearIndex(TileGridExtents(), TileOf(pt))
    }

    /** The tile stored in slot `s` of `tiles_`. */
    function SlotTile(s: int): Indices
      requires Valid()
    {
      PointOfIndex(TileGridExtents(), s)
    }

    /** The origin given to tile `tp` when it is allocated: `(tp.x * TileHeight, tp.y * TileWidth)`. */
    function TileOrigin(tp: Indices): Indices
    {
      Coord(tp.x * tileHeight, tp.y * tileWidth)
    }

    /** The cell of its tile's buffer that holds `pt`: the linear index of `pt - tile.origin`. */
    function OffsetOf(pt: Indices): int
      requires Valid()
    {
      LinearIndex(TileExtents(), Sub(pt, TileOrigin(TileOf(pt))))
    }
  }

  // ---------------------------------------------------------------------
  // Tile addressing
  // ---------------------------------------------------------------------

  /** A valid layout has at least one tile row and column, and as many rows as `Height` needs. */
  lemma {:induction false} RowsCover(l: Layout)
    requires l.Valid()
    ensures 1 <= l.Rows() && 1 <= l.Cols()
    ensures l.Rows() == (l.height - 1) / l.tileHeight + 1
    ensures l.Cols() == (l.width - 1) / l.tileWidth + 1
    ensures 1 <= l.Count()
  {
    DivPlusDivisor(l.height - 1, l.tileHeight);
    DivPlusDivisor(l.width - 1, l.tileWidth);
    MulAtLeast(l.Rows(), l.Cols());
  }

  /** When the tile size divides the grid size, the counts are the library's `Height / TileHeight` and `Width / TileWidth`. */
  lemma {:induction false} RowsAgreeWhenDivisible(l: Layout)
    requires l.Valid()
    ensures l.height % l.tileHeight == 0 ==> l.Rows() == RowsAsWritten(l)
    ensures l.width % l.tileWidth == 0 ==> l.Cols() == ColsAsWritten(l)
  {
    RowsCover(l);
    if l.height % l.tileHeight == 0 {
      var q := l.height / l.tileHeight;
      DivModUnique(l.height - 1, l.tileHeight, q - 1, l.tileHeight - 1);
    }
    if l.width % l.tileWidth == 0 {
      var q := l.width / l.tileWidth;
      DivModUnique(l.width - 1, l.tileWidth, q - 1, l.tileWidth - 1);
    }
  }

  /**
   * Every in-bounds point lies in a tile of `tiles_`, in the slot whose tile
   * is that point's tile, at an in-tile position within the tile's extents.
   */
  lemma {:induction false} SlotInRange(l: Layout, pt: Indices)
    requires l.Valid() && InExtents(l.Extents(), pt)
    ensures InExtents(l.TileGridExtents(), l.TileOf(pt))
    ensures 0 <= l.SlotOf(pt) < l.Count()
    ensures l.SlotTile(l.SlotOf(pt)) == l.TileOf(pt)
    ensures InExtents(l.TileExtents(), Sub(pt, l.TileOrigin(l.TileOf(pt))))
    ensures 0 <= l.OffsetOf(pt) < Area(l.TileExtents())
  {
    RowsCover(l);
    var tp := l.TileOf(pt);
    DivMonotone(pt.x, l.height - 1, l.tileHeight);
    DivMonotone(pt.y, l.width - 1, l.tileWidth);
    assert InExtents(l.TileGridExtents(), tp);
    LinearIndexInRange(l.TileGridExtents(), tp);
    PointOfLinearIndex(l.TileGridExtents(), tp);
    var local := Sub(pt, l.TileOrigin(tp));
    assert local == Coord(pt.x % l.tileHeight, pt.y % l.tileWidth);
    LinearIndexInRange(l.TileExtents(), local);
  }

  /** Distinct in-bounds points are stored in distinct places: another slot or another in-tile offset. */
  lemma {:induction false} StorageInjective(l: Layout, p: Indices, q: Indices)
    requires l.Valid() && InExtents(l.Extents(), p) && InExtents(l.Extents(), q) && p != q
    ensures l.SlotOf(p) != l.SlotOf(q) || l.OffsetOf(p) != l.OffsetOf(q)
  {
    SlotInRange(l, p);
    SlotInRange(l, q);
    if l.SlotOf(p) == l.SlotOf(q) && l.OffsetOf(p) == l.OffsetOf(q) {
      LinearIndexInjective(l.TileGridExtents(), l.TileOf(p), l.TileOf(q));
      var o := l.TileOrigin(l.TileOf(p));
      LinearIndexInjective(l.TileExtents(), Sub(p, o), Sub(q, o));
    }
  }

  /** Every slot's tile contains at least one cell of the grid: its origin, which maps back to that slot. */
  lemma {:induction false} EveryTileHasACell(l: Layout, s: int)
    requires l.Valid() && 0 <= s < l.Count()
    ensures InExtents(l.Extents(), l.TileOrigin(l.SlotTile(s)))
    ensures l.SlotOf(l.TileOrigin(l.SlotTile(s))) == s
  {
    RowsCover(l);
    var tp := l.SlotTile(s);
    PointOfIndexInExtents(l.TileGridExtents(), s);
    var o := l.TileOrigin(tp);
    MulMonotone(tp.x, l.Rows() - 1, l.tileHeight);
    MulMonotone(tp.y, l.Cols() - 1, l.tileWidth);
    assert (l.Rows() - 1) * l.tileHeight <= l.height - 1;
    assert (l.Cols() - 1) * l.tileWidth <= l.width - 1;
    MulAtLeast(1, l.tileHeight);
    MulMonotone(0, tp.x, l.tileHeight);
    MulMonotone(0, tp.y, l.tileWidth);
    MulDivCancel(tp.x, l.tileHeight);
    MulDivCancel(tp.y, l.tileWidth);
    assert l.TileOf(o) == tp;
  }

  // ---------------------------------------------------------------------
  // Allocation bookkeeping over snapshots of `tiles_`
  // ---------------------------------------------------------------------

  /** The number of allocated tiles in `ts` (what `std::count_if` over `tiles_` returns). */
  function CountAllocated(ts: seq<Tile>): (n: nat)
    ensures n <= |ts|
  {
    if |ts| == 0 then 0
    else CountAllocated(ts[..|ts| - 1]) + (if ts[|ts| - 1].data.Some? then 1 else 0)
  }

  /** The slots of `ts` that hold an allocated tile. */
  function AllocatedSlots(ts: seq<Tile>): set<int>
  {
    set s | 0 <= s < |ts| && ts[s].data.Some?
  }

  /** The allocated-tile count is the number of allocated slots. */
  lemma {:induction false} CountIsAllocatedSlots(ts: seq<Tile>)
    ensures CountAllocated(ts) == |AllocatedSlots(ts)|
    decreases |ts|
  {
    if |ts| > 0 {
      var last := |ts| - 1;
      var init := ts[..last];
      CountIsAllocatedSlots(init);
      var rest := AllocatedSlots(init);
      assert forall s :: s in rest <==> 0 <= s < last && ts[s].data.Some?;
      if ts[last].data.Some? {
        assert AllocatedSlots(ts) == rest + {last};
      } else {
        assert AllocatedSlots(ts) == rest;
      }
    }
  }

  /** When every tile is allocated, the count is the number of tiles. */
  lemma {:induction false} AllAllocatedCount(ts: seq<Tile>)
    requires forall s :: 0 <= s < |ts| ==> ts[s].data.Some?
    ensures CountAllocated(ts) == |ts|
    decreases |ts|
  {
    if |ts| > 0 {
      AllAllocatedCount(ts[..|ts| - 1]);
    }
  }

  // ---------------------------------------------------------------------
  // FixedTiledGrid
  // ---------------------------------------------------------------------

  class FixedTiledGrid {
    const layout: Layout
    /** `default_value_`: the value of every cell of an unallocated tile. */
    const defaultValue: int
    /** `tiles_`: a `FixedGrid<TileType, TileRows, TileCols>`, one slot per tile, in linear-index order. */
    const tiles: array<Tile>

    /** The cell buffers of the allocated tiles. */
    ghost function Buffers(): set<array<int>>
      reads tiles
    {
      set s | 0 <= s < tiles.Length && tiles[s].data.Some? :: tiles[s].data.value
    }

    /**
     * `tiles_` has `TileCount` slots; an allocated tile owns a buffer of
     * `TileHeight * TileWidth` cells, not shared with any other tile, and
     * carries the origin of the tile its slot stands for.
     */
    ghost predicate Valid()
      reads tiles
    {
      && layout.Valid()
      && tiles.Length == layout.Count()
      && (forall s :: 0 <= s < tiles.Length && tiles[s].data.Some? ==>
            tiles[s].data.value.Length == Area(layout.TileExtents())
            && tiles[s].origin == layout.TileOrigin(layout.SlotTile(s)))
      && (forall s, t ::
            0 <= s < tiles.Length && 0 <= t < tiles.Length && s != t && tiles[s].data.Some? && tiles[t].data.Some?
            ==> tiles[s].data.value != tiles[t].data.value)
    }

    /** Which slots hold an allocated tile, in slot order. */
    ghost function AllocationMask(): (m: seq<bool>)
      reads tiles
      ensures |m| == tiles.Length
    {
      seq(tiles.Length, s requires 0 <= s < tiles.Length reads tiles => tiles[s].data.Some?)
    }

    /** `FixedTiledGrid(default_value)`: every tile unallocated. */
    constructor (layout: Layout, defaultValue: int)
      requires layout.Valid()
      ensures Valid() && this.layout == layout && this.defaultValue == defaultValue
      ensures fresh(tiles) && Buffers() == {}
      ensures AllocationMask() == seq(layout.Count(), _ => false)
      ensures forall pt :: InExtents(layout.Extents(), pt) ==> Get(pt) == defaultValue
    {
      RowsCover(layout);
      this.layout := layout;
      this.defaultValue := defaultValue;
      tiles := new Tile[layout.Count()](_ => Tile(None, Zero()));
    }

    /** `operator[] const` (`access_impl const`): the default value when the point's tile is unallocated. */
    function Get(pt: Indices): (v: int)
      reads tiles, Buffers()
      requires Valid() && InExtents(layout.Extents(), pt)
      ensures 0 <= layout.SlotOf(pt) < tiles.Length
      ensures tiles[layout.SlotOf(pt)].data.None? ==> v == defaultValue
      ensures tiles[layout.SlotOf(pt)].data.Some? ==>
        0 <= layout.OffsetOf(pt) < tiles[layout.SlotOf(pt)].data.value.Length
        && v == tiles[layout.SlotOf(pt)].data.value[layout.OffsetOf(pt)]
    {
      SlotInRange(layout, pt);
      var tile := tiles[layout.SlotOf(pt)];
      match tile.data
      case None => defaultValue
      case Some(a) => a[LinearIndex(layout.TileExtents(), Sub(pt, tile.origin))]
    }

    /** `tile(index)`: the tile at `index` of the tile grid; an allocated one carries that tile's origin. */
    function TileAt(index: Indices): (t: Tile)
      reads tiles
      requires Valid() && InExtents(layout.TileGridExtents(), index)
      ensures t.data.Some? ==> t.origin == layout.TileOrigin(index)
    {
      LinearIndexInRange(layout.TileGridExtents(), index);
      PointOfLinearIndex(layout.TileGridExtents(), index);
      tiles[LinearIndex(layout.TileGridExtents(), index)]
    }

    /**
     * `operator[]` (`access_impl`): the buffer and offset holding `pt`.  The
     * point's tile is allocated first if it is not, with its origin and every
     * cell set to the default value; no other tile changes, and no cell reads
     * differently.
     */
    method Access(pt: Indices) returns (a: array<int>, i: int)
      requires Valid() && InExtents(layout.Extents(), pt)
      modifies tiles
      ensures Valid()
      ensures 0 <= layout.SlotOf(pt) < tiles.Length
      ensures tiles[layout.SlotOf(pt)].data == Some(a)
      ensures i == layout.OffsetOf(pt) && 0 <= i < a.Length
      ensures old(tiles[layout.SlotOf(pt)].data.None?) ==> fresh(a)
      ensures old(tiles[layout.SlotOf(pt)].data.Some?) ==> tiles[layout.SlotOf(pt)] == old(tiles[layout.SlotOf(pt)])
      ensures forall s :: 0 <= s < tiles.Length && s != layout.SlotOf(pt) ==> tiles[s] == old(tiles[s])
      ensures AllocationMask() == old(AllocationMask())[layout.SlotOf(pt) := true]
      ensures forall q :: InExtents(layout.Extents(), q) ==> Get(q) == old(Get(q))
      ensures forall b :: b in Buffers() ==> b in old(Buffers()) || fresh(b)
    {
      SlotInRange(layout, pt);
      var slot := layout.SlotOf(pt);
      var tp := layout.TileOf(pt);
      if tiles[slot].data.None? {
        var cells := new int[Area(layout.TileExtents())](_ => defaultValue);
        tiles[slot] := Tile(Some(cells), layout.TileOrigin(tp));
      }
      a := tiles[slot].data.value;
      i := LinearIndex(layout.TileExtents(), Sub(pt, tiles[slot].origin));
    }

    /** `grid[pt] = v`: the point reads `v` afterwards and every other point reads as before. */
    method Set(pt: Indices, v: int)
      requires Valid() && InExtents(layout.Extents(), pt)
      modifies tiles, Buffers()
      ensures Valid()
      ensures Get(pt) == v
      ensures forall q :: InExtents(layout.Extents(), q) && q != pt ==> Get(q) == old(Get(q))
      ensures AllocationMask() == old(AllocationMask())[layout.SlotOf(pt) := true]
      ensures forall b :: b in Buffers() ==> b in old(Buffers()) || fresh(b)
    {
      var a, i := Access(pt);
      label accessed:
      a[i] := v;
      forall q | InExtents(layout.Extents(), q) && q != pt
        ensures Get(q) == old@accessed(Get(q))
      {
        StorageInjective(layout, pt, q);
      }
    }

    /**
     * `mask()`: a `TileRows x TileCols` grid of flags filled in slot order
     * (so `mask[tile]` is at the tile's linear index), true exactly at the
     * allocated tiles.
     */
    method Mask() returns (m: seq<bool>)
      requires Valid()
      ensures m == AllocationMask()
      ensures forall s :: 0 <= s < |m| ==> (m[s] <==> s in AllocatedSlots(tiles[..]))
    {
      m := [];
      var k := 0;
      while k < tiles.Length
        invariant 0 <= k <= tiles.Length
        invariant m == AllocationMask()[..k]
      {
        m := m + [tiles[k].data.Some?];
        k := k + 1;
      }
    }

    /** `active()`: the number of allocated tiles. */
    method Active() returns (n: nat)
      requires Valid()
      ensures n == CountAllocated(tiles[..])
      ensures n == |AllocatedSlots(tiles[..])| <= layout.Count()
    {
      n := 0;
      for k := 0 to tiles.Length
        invariant n == CountAllocated(tiles[..k])
      {
        assert tiles[..k + 1][..k] == tiles[..k];
        if tiles[k].data.Some? {
          n := n + 1;
        }
      }
      assert tiles[..tiles.Length] == tiles[..];
      CountIsAllocatedSlots(tiles[..]);
    }

    /**
     * `for (auto& c : grid) c = value`: iteration goes through the
     * whole-grid view, in column order, with mutable access to every cell.
     * Afterwards every cell reads `value` and every tile is allocated.
     */
    method AssignAll(value: int)
      requires Valid()
      modifies tiles, Buffers()
      ensures Valid()
      ensures forall q :: InExtents(layout.Extents(), q) ==> Get(q) == value
      ensures AllocationMask() == seq(tiles.Length, _ => true)
    {
      var e := layout.Extents();
      var k := 0;
      while k < Area(e)
        invariant 0 <= k <= Area(e)
        invariant Valid()
        invariant forall j :: 0 <= j < k ==> InExtents(e, PointOfIndex(e, j)) && Get(PointOfIndex(e, j)) == value
        invariant forall s :: 0 <= s < tiles.Length && 0 <= LinearIndex(e, layout.TileOrigin(layout.SlotTile(s))) < k ==>
                    tiles[s].data.Some?
        invariant forall b :: b in Buffers() ==> b in old(Buffers()) || fresh(b)
      {
        PointOfIndexInExtents(e, k);
        var pt := PointOfIndex(e, k);
        label before:
        Set(pt, value);
        forall j | 0 <= j < k
          ensures InExtents(e, PointOfIndex(e, j)) && Get(PointOfIndex(e, j)) == value
        {
          PointOfIndexInExtents(e, j);
          assert PointOfIndex(e, j) != pt;
        }
        forall s | 0 <= s < tiles.Length && 0 <= LinearIndex(e, layout.TileOrigin(layout.SlotTile(s))) < k + 1
          ensures tiles[s].data.Some?
        {
          assert old@before(AllocationMask())[s] ==> AllocationMask()[s];
          if LinearIndex(e, layout.TileOrigin(layout.SlotTile(s))) == k {
            EveryTileHasACell(layout, s);
            PointOfLinearIndex(e, layout.TileOrigin(layout.SlotTile(s)));
            assert AllocationMask()[s];
          }
        }
        k := k + 1;
      }
      forall q | InExtents(e, q)
        ensures Get(q) == value
      {
        LinearIndexInRange(e, q);
        PointOfLinearIndex(e, q);
      }
      forall s | 0 <= s < tiles.Length
        ensures tiles[s].data.Some?
      {
        EveryTileHasACell(layout, s);
        LinearIndexInRange(e, layout.TileOrigin(layout.SlotTile(s)));
      }
    }
  }

  // ---------------------------------------------------------------------
  // Behaviour pinned down by the library's tests
  // ---------------------------------------------------------------------

  /** A mask over the tiles marking exactly slots `a` and `b` means those two slots are the allocated ones. */
  lemma MaskedSlots(ts: seq<Tile>, m: seq<bool>, a: int, b: int)
    requires |m| == |ts| && 0 <= a < |m| && 0 <= b < |m|
    requires forall s :: 0 <= s < |m| ==> (m[s] <==> s in AllocatedSlots(ts))
    requires forall s :: 0 <= s < |m| ==> (m[s] <==> s == a || s == b)
    ensures AllocatedSlots(ts) == {a, b}
  {
  }

  /**
   * Writing `v` at `p` and then `w` at another point `q` of a fresh grid
   * allocates exactly the tiles of `p` and `q`: the mask marks their slots
   * and nothing else, `active()` counts one tile or two, and both values
   * read back.
   */
  method TwoWrites(l: Layout, defaultValue: int, p: Indices, v: int, q: Indices, w: int)
    returns (mask: seq<bool>, active: nat, atP: int, atQ: int)
    requires l.Valid() && InExtents(l.Extents(), p) && InExtents(l.Extents(), q) && p != q
    ensures 0 <= l.SlotOf(p) < l.Count() && 0 <= l.SlotOf(q) < l.Count()
    ensures mask == seq(l.Count(), s => s == l.SlotOf(p) || s == l.SlotOf(q))
    ensures active == if l.SlotOf(p) == l.SlotOf(q) then 1 else 2
    ensures atP == v && atQ == w
  {
    SlotInRange(l, p);
    SlotInRange(l, q);
    var grid := new FixedTiledGrid(l, defaultValue);
    grid.Set(p, v);
    grid.Set(q, w);
    mask := grid.Mask();
    MaskedSlots(grid.tiles[..], mask, l.SlotOf(p), l.SlotOf(q));
    active := grid.Active();
    atP := grid.Get(p);
    atQ := grid.Get(q);
  }

  /** In a 20x20 grid of 5x5 tiles there are 4x4 tiles; (5, 5) is in tile (1, 1), slot 5, and (18, 19) in tile (3, 3), slot 15. */
  lemma TiledAssignSlots()
    ensures Layout(20, 20, 5, 5).Valid() && Layout(20, 20, 5, 5).Count() == 16
    ensures Layout(20, 20, 5, 5).SlotOf(Coord(5, 5)) == 5
    ensures Layout(20, 20, 5, 5).SlotOf(Coord(18, 19)) == 15
  {
  }

  /**
   * A 20x20 grid of 5x5 tiles with default 5: writing 6 at (5, 5) and 9 at
   * (18, 19) allocates exactly the tiles (1, 1) and (3, 3), that is slots 5
   * and 15 of the mask, so `active()` is 2, and both values read back.
   */
  method TiledAssignExample() returns (mask: seq<bool>, active: nat, at55: int, at1819: int)
    ensures |mask| == 16 && mask[5] && mask[15]
    ensures forall s :: 0 <= s < 16 && s != 5 && s != 15 ==> !mask[s]
    ensures active == 2 && at55 == 6 && at1819 == 9
  {
    TiledAssignSlots();
    mask, active, at55, at1819 := TwoWrites(Layout(20, 20, 5, 5), 5, Coord(5, 5), 6, Coord(18, 19), 9);
  }

  // ---------------------------------------------------------------------
  // The library's tile counts
  // ---------------------------------------------------------------------

  /** `TileRows` as the library computes it: `Height / TileHeight`, truncated. */
  function RowsAsWritten(l: Layout): int
    requires l.Valid()
  {
    l.height / l.tileHeight
  }

  /** `TileCols` as the library computes it: `Width / TileWidth`, truncated. */
  function ColsAsWritten(l: Layout): int
    requires l.Valid()
  {
    l.width / l.tileWidth
  }

  /** The slot `tiles_[tile_pt]` addresses when `tiles_` has `RowsAsWritten x ColsAsWritten` tiles. */
  function SlotAsWritten(l: Layout, pt: Indices): int
    requires l.Valid()
  {
    LinearIndex(Coord(RowsAsWritten(l), ColsAsWritten(l)), l.TileOf(pt))
  }

  /**
   * A 5x4 grid of 2x2 tiles: the library keeps 2x2 tiles (4 slots), and the
   * distinct cells (4, 0) and (0, 2) both address slot 2.
   */
  lemma UnevenTilesShareSlot()
    ensures Layout(5, 4, 2, 2).Valid()
    ensures InExtents(Coord(5, 4), Coord(4, 0)) && InExtents(Coord(5, 4), Coord(0, 2))
    ensures RowsAsWritten(Layout(5, 4, 2, 2)) * ColsAsWritten(Layout(5, 4, 2, 2)) == 4
    ensures SlotAsWritten(Layout(5, 4, 2, 2), Coord(4, 0)) == 2
    ensures SlotAsWritten(Layout(5, 4, 2, 2), Coord(0, 2)) == 2
  {
  }

  /**
   * Continuing: the tile allocated for (4, 0) gets origin (4, 0), and in that
   * tile both (4, 0) and (0, 2) reach buffer cell 0, so writing one cell
   * changes what the other reads.
   */
  lemma UnevenTilesShareCell()
    ensures Layout(5, 4, 2, 2).TileOf(Coord(4, 0)) == Coord(2, 0)
    ensures Layout(5, 4, 2, 2).TileOrigin(Coord(2, 0)) == Coord(4, 0)
    ensures LinearIndex(Coord(2, 2), Sub(Coord(4, 0), Coord(4, 0))) == 0
    ensures LinearIndex(Coord(2, 2), Sub(Coord(0, 2), Coord(4, 0))) == 0
  {
  }

  /** With ceiling counts the same grid has 3x2 tiles, and (4, 0) and (0, 2) sit in slots 2 and 3. */
  lemma UnevenTilesSeparated()
    ensures Layout(5, 4, 2, 2).Valid() && Layout(5, 4, 2, 2).Count() == 6
    ensures Layout(5, 4, 2, 2).SlotOf(Coord(4, 0)) == 2
    ensures Layout(5, 4, 2, 2).SlotOf(Coord(0, 2)) == 3
  {
  }

  /** In the same grid the cell (4, 3) addresses slot 4 of a 4-slot `tiles_`: one past its end. */
  lemma UnevenTilesOverrun()
    ensures Layout(5, 4, 2, 2).Valid() && InExtents(Coord(5, 4), Coord(4, 3))
    ensures SlotAsWritten(Layout(5, 4, 2, 2), Coord(4, 3)) == 4
    ensures RowsAsWritten(Layout(5, 4, 2, 2)) * ColsAsWritten(Layout(5, 4, 2, 2)) == 4
    ensures Layout(5, 4, 2, 2).SlotOf(Coord(4, 3)) == 5
  {
  }
}

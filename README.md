# twod: a Dafny model of a small 2-D grid library

This project models the core of `twod`, a header-only C++ library of dense
2-D grids. It covers the following parts:

- **Coordinates** (`Coordinates<int>`, aliased as `Indices` and `Extents`).
  `Extents` store (height, width) in (x, y).
- **Bounds.** Four bounds variants (dynamic, fixed origin, fixed extents,
  both fixed) share one containment and overlap contract. The column and
  row bounds iterators walk every point of a bounds.
- **Storage addressing.** The linear index is `extents.x * pt.y + pt.x`.
- **Grids.** There are four grid classes: `Grid`, `MappedGrid`, `FixedGrid`
  and `FixedMappedGrid`. Each has element access, bulk cellwise loops,
  equality and shape operations.
- **Views and view iterators.** A view is a (parent, bounds) pair. Its
  column and row iterators step through the view's cells.
- **FixedTiledGrid**, whose tiles are allocated lazily.
- **SparseCell**, a value paired with a position.
- **`flood_fill`**, with explicit seeds and with a seed generator.

Cells are `int`. Template parameters become ordinary values: a grid's kind
and extents, a tiled grid's `Layout`. CRTP dispatch becomes one Dafny type
per concept:

- the `Bounds` datatype has four constructors;
- one `Grid` class tells the four grid classes apart by `kind`.

State the library changes in place is modelled in place:

- a grid owns an `array<int>`;
- a view holds a reference to its parent grid;
- iterators carry a mutable point;
- the tiled grid keeps an array of optional tile buffers;
- the flood fill writes the grid in a `while` loop driven by a seed queue.

Modules, one per header:

| file | module | header |
|---|---|---|
| `arith.dfy` | `Arith` | C++ `int` division truncates toward zero (`TruncDiv`). |
| `coordinates.dfy` | `Coordinates` | `include/coordinates.h` |
| `primitives.dfy` | `Primitives` | `include/primitives.h`: the linear index and its inverse |
| `bounds.dfy` | `BoundsFamily` | `include/bounds.h` |
| `grid.dfy` | `Grids` | `include/grid.h` |
| `tiled_grid.dfy` | `TiledGrids` | `include/tiled_grid.h` |
| `sparse_cell.dfy` | `SparseCells` | `include/sparse_cell.h` |
| `flood_fill.dfy` | `FloodFills` | `include/flood_fill.h` |

How the loops are proved:

- **Grid and view loops.** Each grid or view loop is proved against a
  function on buffer snapshots:
  - `MapPrefix` and `ZipPrefix` give raw storage order;
  - `MapView` and `ZipView` give a view's column order.

  Lemmas relate these functions to points. They state that:
  - a write reaches exactly the cells of the region;
  - the k-th cell of a view is the parent cell at the region's k-th point;
  - iterating a whole-grid view is raw buffer order.
- **The flood fill** is proved against `IsFloodFill`, a predicate
  relating the grid before and after. It states that:
  - cells outside the grid's area are untouched;
  - every changed cell was accepted by the validator before and is
    rejected after;
  - every changed cell holds `updater(c)` for an adjacent cell `c` that
    was expanded: a seed, or a changed cell with its final value;
  - every changed cell is reached from the seeds: it was accepted before,
    and it lies in the 3x3 block of a seed or of a cell reached in fewer
    steps (`Reached`). With no seeds, nothing changes (`NoSeedsNoChange`);
  - the fill is closed: no cell in the 3x3 block around a seed or a
    changed cell is still accepted by the validator.

  A second postcondition records what the max-first queue adds. Suppose
  the updater is monotone in the cell value, lowers no seed and lowers
  none of its own values. Then every changed cell next to an expanded
  cell `c` holds at least `updater(c)`. The proof carries, as ghost
  state, the set of popped seeds and the value of the last one popped.
  From both properties the test's grid is derived exactly: 10 less the
  box distance to the central block, so 6 in every corner.

Where the code and its documentation differ, the model follows the code in
one case and the intent in the other:

- It follows the code for `overlaps`: the permissive test
  `|o1 - o2| <= e1 + e2`, not a real intersection test.
- It follows the intent for `FixedTiledGrid`, which is modelled with the corrected tile counts, the
  ceilings `(Height + TileHeight - 1) / TileHeight`. The library
  truncates them; that behaviour is kept separately and discussed under
  Findings.

## Model

| member | source | states |
|---|---|---|
| Arith.IntAbs | include/coordinates.h:82-85 | `std::abs` on `int`: the result is non-negative and is `a` or `-a`. |
| Arith.TruncDiv | include/coordinates.h:137-141 | C++ `/` truncates toward zero. The remainder has the dividend's sign and is smaller than the divisor's magnitude. |
| Arith.TruncDivNonNegative | include/coordinates.h:137-141 | On non-negative operands C++ `/` is ordinary division. |
| Coordinates.Uniform | include/coordinates.h:28-36 | The one-value constructor sets both components to that value. |
| Coordinates.Zero | include/coordinates.h:97-100 | `Zero()` is (0, 0). |
| Coordinates.Eq | include/coordinates.h:43-46 | `==` compares both components; its laws are in `EqIsIdentity`. |
| Coordinates.NotEq | include/coordinates.h:48-51 | `!=` is the negation of `==`. |
| Coordinates.Less | include/coordinates.h:53-56 | `<` is the lexicographic `std::tie` order, x first; its laws are in `LessIsStrictTotalOrder`. |
| Coordinates.AllGt | include/coordinates.h:58-62 | `all_gt`: both components are greater. |
| Coordinates.AllGe | include/coordinates.h:64-68 | `all_ge`: both components are at least the other's. |
| Coordinates.AllLt | include/coordinates.h:70-74 | `all_lt`: both components are smaller. |
| Coordinates.AllLe | include/coordinates.h:76-80 | `all_le`: both components are at most the other's. |
| Coordinates.Area | include/coordinates.h:92-95 | `area()` is `x * y`; its facts are in `AreaFacts`. |
| Coordinates.Neg | include/coordinates.h:102-105 | Unary `-` negates both components. |
| Coordinates.Add | include/coordinates.h:126-129 | Binary `+` is componentwise; its laws are in `AddSubLaws`. |
| Coordinates.Sub | include/coordinates.h:121-124 | Binary `-` is componentwise; its laws are in `AddSubLaws`. |
| Coordinates.MulScalar | include/coordinates.h:131-135 | Scalar `*` multiplies both components. |
| Coordinates.Abs | include/coordinates.h:82-85 | `abs()` is componentwise: both components are non-negative, each is the input component or its negation. |
| Coordinates.AddInPlace | include/coordinates.h:114-119 | `+=` leaves the object equal to binary `+` of the old value and the operand. |
| Coordinates.SubInPlace | include/coordinates.h:107-112 | `-=` leaves the object equal to binary `-` of the old value and the operand. |
| Coordinates.DivScalar | include/coordinates.h:137-141 | Scalar `/` is componentwise. On non-negative operands it is ordinary division. |
| Coordinates.EqIsIdentity | include/coordinates.h:43-51 | `==` holds exactly for equal coordinates, and `!=` is exactly its negation. |
| Coordinates.LessIsStrictTotalOrder | include/coordinates.h:53-56 | Lexicographic `<` is irreflexive, transitive and total. Exactly one of `a < b`, `a == b`, `b < a` holds. |
| Coordinates.AllTestsAreConverses | include/coordinates.h:58-80 | `a.all_le(b)` iff `b.all_ge(a)` and `a.all_lt(b)` iff `b.all_gt(a)`. The strict tests imply the non-strict ones. |
| Coordinates.AddSubLaws | include/coordinates.h:102-129 | `(a + b) - b == a`, `(a - b) + b == a`, `a - b == a + (-b)`, `+` commutes, `Zero` is neutral and negation is an involution. |
| Coordinates.AreaFacts | include/coordinates.h:92-100 | `Zero()` has area 0. Non-negative extents have non-negative area, zero exactly when a component is zero. Transposing keeps the area. |
| Coordinates.AbsFacts | include/coordinates.h:82-85 | `abs` ignores sign, is the identity on non-negative coordinates, and is idempotent. |
| Primitives.PointOfIndex | include/primitives.h:192-195 | The inverse of `toLinearIndex`: the point has that linear index and a row in `[0, extents.x)`. |
| Primitives.LinearIndex | include/primitives.h:192-195 | `toLinearIndex(pt)` is `extents.x * pt.y + pt.x`; `PointOfIndex` inverts it. |
| Primitives.InExtents | include/bounds.h:82-86 | `within` of a zero-origin region: `(0,0) <= pt < extents` componentwise. |
| Primitives.LinearIndexInRange | include/primitives.h:192-195 | An in-extents point has a linear index in `[0, area)`. |
| Primitives.PointOfLinearIndex | include/primitives.h:134-137 | A point with a row in range is recovered from its linear index. |
| Primitives.LinearIndexInjective | include/primitives.h:192-195 | Distinct in-extents points get distinct linear indices. |
| Primitives.PointOfIndexInExtents | include/primitives.h:233-251 | Every buffer offset in `[0, area)` stores an in-extents point. |
| Primitives.PointOfIndexSucc | include/primitives.h:233-251 | Buffer order is column order: the next offset is the next row, or row 0 of the next column. |
| Primitives.PointOfIndexAtEnd | include/primitives.h:233-251 | `end() = data + area` corresponds to the point `(0, extents.y)`, and no earlier offset reaches column `extents.y`. |
| BoundsFamily.ToDynamic | include/bounds.h:111-115 | Converting to `Bounds` keeps origin and extents: the result is dynamic with the same origin and extents. |
| BoundsFamily.ToFixedOrigin | include/bounds.h:130-133 | Converting into `FixedOriginBounds` keeps the fixed origin and only the other bounds' extents. |
| BoundsFamily.ToFixedExtents | include/bounds.h:147-150 | Converting into `FixedExtentsBounds` keeps the fixed extents and only the other bounds' origin. |
| BoundsFamily.VariantsAgree | include/bounds.h:106-164 | The four variants built from the same origin and extents report the same `origin()`, `extents()`, `within`, `empty`, `center` and `overlaps`, and a plain `Bounds` of those values is `==` each of them. |
| BoundsFamily.Bounds.Origin | include/bounds.h:47-50 | `origin()`: the stored origin, or the template constant of a fixed-origin variant. |
| BoundsFamily.Bounds.Size | include/bounds.h:55-58 | `extents()`: the stored extents, or the template constant of a fixed-extents variant. |
| BoundsFamily.Bounds.Within | include/bounds.h:82-86 | `within(pt)`: `origin <= pt < origin + extents` componentwise; spelled out in `WithinPerAxis`. |
| BoundsFamily.Bounds.Overlaps | include/bounds.h:94-99 | `overlaps`: `abs(o1 - o2) <= e1 + e2` componentwise, exactly as written; properties in `OverlapsSymmetric` and `OverlapsIsPermissive`. |
| BoundsFamily.Bounds.Empty | include/bounds.h:71-74 | `empty()`: the extents are (0, 0). |
| BoundsFamily.Bounds.Center | include/bounds.h:63-66 | `center()`: `origin + extents / 2` with truncating division; `CenterWithin` places it inside. |
| BoundsFamily.Bounds.AcceptsOperand | include/bounds.h:30-34 | `==` takes `const Derived&`. Every variant except the fully fixed one converts any bounds to that type. The fully fixed one accepts only its own type. |
| BoundsFamily.Bounds.AsOperand | include/bounds.h:106-150 | The operand after that conversion: `Bounds` copies both origin and extents, `FixedOriginBounds` only the extents, `FixedExtentsBounds` only the origin. |
| BoundsFamily.Bounds.Equals | include/bounds.h:30-34 | `==` compares origin and extents with the converted operand. |
| BoundsFamily.Bounds.NotEquals | include/bounds.h:39-42 | `!=` is the negation of `==`. |
| BoundsFamily.EqualsWithinOneType | include/bounds.h:30-42 | Between bounds of one type, `==` is reflexive, symmetric and transitive, and holds exactly for equal values. `!=` is its negation. |
| BoundsFamily.EqualsConvertsOperand | include/bounds.h:30-34 | Across types, a plain `Bounds` compares origin and extents, a fixed-origin one only extents, and a fixed-extents one only origins. A fully fixed one accepts only its own type and equals it. |
| BoundsFamily.EqualsAsymmetric | include/bounds.h:30-34 | `FixedOriginBounds<1,1>{(5,5)} == Bounds{(2,2),(5,5)}` holds while the reverse does not. `FixedOriginBounds<1,1>` and `FixedOriginBounds<2,2>` of equal extents, two distinct types and values, compare equal. |
| BoundsFamily.WithinPerAxis | include/bounds.h:71-86 | `within(pt)` iff `origin <= pt < origin + extents` componentwise. Non-positive extents contain nothing. `empty()` iff extents are (0,0). |
| BoundsFamily.WithinZeroOrigin | include/bounds.h:82-86 | At origin (0,0), `within` is the in-extents test of storage addressing. |
| BoundsFamily.OverlapsSymmetric | include/bounds.h:94-99 | `overlaps` is symmetric, and bounds with non-negative extents overlap themselves. |
| BoundsFamily.SharedPointOverlaps | include/bounds.h:94-99 | Two bounds that contain a common point overlap. |
| BoundsFamily.OverlapsIsPermissive | include/bounds.h:94-99 | The test is not intersection: disjoint unit bounds two apart "overlap". |
| BoundsFamily.CenterWithin | include/bounds.h:63-66 | With positive extents, `center()` lies within the bounds. |
| BoundsFamily.OverlapExamples | test/bounds.cpp:32-56 | The interior, edge-adjacent and corner-adjacent pairs overlap. |
| BoundsFamily.WithinExamples | test/bounds.cpp:21-89 | Every variant with origin (1,1) and extents (5,5): (0,0) out, (1,1) in, (5,5) in, (6,6) out. |
| BoundsFamily.ColBoundsIterator.constructor | include/bounds.h:182-187 | The iterator starts at the origin and remembers the far corner `origin + extents`. |
| BoundsFamily.ColBoundsIterator.Increment | include/bounds.h:298-307 | x advances. At `origin.x + extents.x` it resets to `origin.x` and y advances. |
| BoundsFamily.ColPoint | include/bounds.h:298-307 | The k-th point the column iterator visits: x advances first and wraps to the origin at the past-corner column. `ColPointWithin`, `ColPointInjective` and `ColPointCovers` state its meaning. |
| BoundsFamily.RowPoint | include/bounds.h:338-347 | The k-th point the row iterator visits: y advances first and wraps at the past-corner row. `RowPointWithin`, `RowPointInjective` and `RowPointCovers` state its meaning. |
| BoundsFamily.ColBoundsIterator.Deref | include/bounds.h:221-224 | `*itr` is the current point. |
| BoundsFamily.ColBoundsIterator.AtEnd | include/bounds.h:312-315 | `== end()`: y has reached the past-corner row. |
| BoundsFamily.ColBoundsIterator.Equals | include/bounds.h:229-232 | Two iterators are equal when their points are equal. |
| BoundsFamily.RowBoundsIterator.constructor | include/bounds.h:182-187 | The iterator starts at the origin and remembers the far corner. |
| BoundsFamily.RowBoundsIterator.Increment | include/bounds.h:338-347 | y advances. At `origin.y + extents.y` it resets to `origin.y` and x advances. |
| BoundsFamily.RowBoundsIterator.Deref | include/bounds.h:221-224 | `*itr` is the current point. |
| BoundsFamily.RowBoundsIterator.AtEnd | include/bounds.h:352-355 | `== end()`: x has reached the past-corner column. |
| BoundsFamily.RowBoundsIterator.Equals | include/bounds.h:229-232 | Two iterators are equal when their points are equal. |
| BoundsFamily.ColRange | include/bounds.h:366-429 | Driving the column iterator from its start to the end tag yields exactly `area` points, the k-th being `ColPoint(b, k)`. |
| BoundsFamily.RowRange | include/bounds.h:366-429 | Driving the row iterator to its end tag yields exactly `area` points, the k-th being `RowPoint(b, k)`. |
| BoundsFamily.ColPointWithin | test/bounds.cpp:92-104 | Every point the column range yields is within the bounds. |
| BoundsFamily.ColPointInjective | test/bounds.cpp:92-104 | The column range yields no point twice. |
| BoundsFamily.ColPointCovers | test/bounds.cpp:92-104 | Every point within the bounds is yielded by the column range. |
| BoundsFamily.RowPointWithin | test/bounds.cpp:106-117 | Every point the row range yields is within the bounds. |
| BoundsFamily.RowPointInjective | test/bounds.cpp:106-117 | The row range yields no point twice. |
| BoundsFamily.RowPointCovers | test/bounds.cpp:106-117 | Every point within the bounds is yielded by the row range. |
| Grids.WriteLeavesOthers | include/primitives.h:223-231 | Writing one in-extents cell leaves every other in-extents cell unchanged. |
| Grids.ViewOffsetInView | include/grid.h:626-639 | The k-th cell of a view, in column order, is a parent cell inside the region, whose rank is k. |
| Grids.ViewRankInRange | include/grid.h:626-639 | Every parent cell inside the region has a column-order rank in `[0, area)`. |
| Grids.ViewRankUnique | include/grid.h:626-639 | No two parent cells of a region share a rank. |
| Grids.MapViewAt | include/grid.h:230-238 | A view update changes exactly the parent points within the region. |
| Grids.ZipViewAt | include/grid.h:93-102 | View cross-assignment writes `src[k]` into the region's k-th point and leaves every other parent point unchanged. |
| Grids.WholeViewIsBufferOrder | include/primitives.h:233-251 | The whole-grid view visits the buffer in raw storage order. |
| Grids.WholeMapViewIsMapPrefix | include/grid.h:71-74 | Updating through the whole-grid view is the raw-storage update. |
| Grids.WholeZipViewIsZipPrefix | include/grid.h:71-74 | Cross-assigning through the whole-grid view is the raw-storage cross-assignment. |
| Grids.FillIdempotent | include/grid.h:230-238 | `fill(v)` twice equals `fill(v)` once, on a grid and on a view. |
| Grids.MapViewDisjoint | test/grid.cpp:194-283 | Writing through a view leaves every point of a disjoint region unchanged. |
| Grids.MapViewKeepsDisjointCell | test/grid.cpp:194-283 | Writing through a view leaves each cell of a disjoint view unchanged. |
| Grids.Grid.GridBounds | include/grid.h:243-246 | A grid's bounds have origin (0,0) and the grid's extents. |
| Grids.Grid.Cells | include/primitives.h:233-251 | A grid's iteration yields `area` cells, the one at `pt`'s linear index being `grid[pt]`. |
| Grids.Grid.Within | include/bounds.h:82-86 | `within` of the grid's bounds; `GridWithinIsInExtents` makes it the in-extents test. |
| Grids.Grid.Empty | include/bounds.h:71-74 | `empty()` of the grid's bounds. |
| Grids.Grid.Index | include/grid.h:253-256 | `operator[]` adds the bounds origin, (0, 0) for every grid, then takes `toLinearIndex`. |
| Grids.Grid.Get | include/primitives.h:223-231 | `grid[pt]` reads the buffer cell at `pt`'s linear index. |
| Grids.Grid.Data | include/primitives.h:207-215 | `data()` is the stored buffer. |
| Grids.Grid.Set | include/grid.h:253-256 | Writing `grid[pt]` changes that one buffer cell and reads back. |
| Grids.Grid.constructor | include/grid.h:681-686 | `Grid(extents)` has those extents and `area` zero cells. The default `Extents::Zero()` gives an empty grid. |
| Grids.Grid.Filled | include/grid.h:688-693 | `Grid(extents, val)` has those extents and every cell equal to `val`. |
| Grids.Grid.Copy | include/grid.h:711-720 | The copy constructor gives a fresh buffer holding the other grid's cells in order. |
| Grids.Grid.OnBuffer | include/grid.h:829-832 | `MappedGrid(extents, mem)` borrows `mem` itself. |
| Grids.Grid.SharedCopy | test/mapped_grid.cpp:34-64 | Copying a `MappedGrid` shares the same buffer. |
| Grids.Grid.FixedZero | include/grid.h:859 | A default `FixedGrid` has extents (Height, Width) and zero cells. |
| Grids.Grid.FixedFilled | include/grid.h:861-864 | `FixedGrid(val)` has every cell equal to `val`. |
| Grids.Grid.FixedOnBuffer | include/grid.h:878-880 | `FixedMappedGrid(mem)` borrows `mem` with extents (Height, Width). |
| Grids.Grid.AssignShared | test/mapped_grid.cpp:66-97 | Assigning a `MappedGrid` to a `MappedGrid`, or a `FixedMappedGrid` to one of the same size, is the implicit copy assignment. It takes the other grid's extents and shares its buffer. |
| Grids.Grid.Update | include/grid.h:150-176 | The cellwise loop applies `f` to exactly the first `area` cells. |
| Grids.Grid.Combine | include/grid.h:93-140 | The pairwise loop combines the first `|src|` cells with `src` in order. |
| Grids.Grid.Fill | include/grid.h:230-238 | `fill(v)` sets every grid cell to `v` and nothing beyond `area`. |
| Grids.Grid.MulAssign | include/grid.h:150-158 | `*=` multiplies every cell. |
| Grids.Grid.DivAssign | include/grid.h:168-176 | `/=` divides every cell, truncating toward zero. |
| Grids.Grid.Assign | include/grid.h:93-102 | Assignment into a `MappedGrid`, `FixedGrid` or `FixedMappedGrid` from a grid or view of another type copies the other operand's cells, in its iteration order, into the first cells. An owning `Grid` hides this operator. |
| Grids.Grid.AddAssign | include/grid.h:112-121 | `+=` adds the other operand's cells pairwise. |
| Grids.Grid.SubAssign | include/grid.h:131-140 | `-=` subtracts the other operand's cells pairwise. |
| Grids.Grid.NotEqual | include/grid.h:188-207 | `!=` iff the extents differ or some paired cell differs. |
| Grids.Grid.Equal | include/grid.h:219-223 | `==` iff equal extents and equal cells: the negation of `!=`. |
| Grids.Grid.ResizeFill | include/grid.h:747-762 | `resize(e, v)` always ends with extents `e` and every cell `v`. The buffer is kept iff `e` is unchanged. |
| Grids.Grid.Resize | include/grid.h:764-778 | `resize(e)` with unchanged `e` is a no-op. Otherwise it gives a fresh zero buffer of `area(e)` cells. |
| Grids.Grid.MappedResize | include/grid.h:834-837 | `MappedGrid::resize(e)` only overwrites the extents. |
| Grids.Grid.MappedResizeFill | include/grid.h:839-843 | `MappedGrid::resize(e, v)` overwrites the extents and fills the first `area(e)` borrowed cells. |
| Grids.Grid.Swap | include/primitives.h:197-205 | `swap` exchanges the two buffers; the extents stay (see Left out). |
| Grids.Grid.MakeView | include/grid.h:47-51 | `view(bounds)` is a view of this grid over those bounds. |
| Grids.Grid.WholeView | include/grid.h:71-74 | `view()` is a valid view over the grid's own bounds. |
| Grids.WithinExamples | test/grid.cpp:77-89 | A (20,10) grid of any kind contains (1,1) and not (21,11), and is not empty. |
| Grids.GridWithinIsInExtents | include/grid.h:243-266 | `within` on a grid is the in-extents test, and it admits exactly the points `operator[]` maps into the cells. |
| Grids.View.constructor | include/grid.h:615-618 | A view holds its parent and bounds. |
| Grids.View.Index | include/grid.h:253-256 | `view[local]` reaches the parent offset of `local + origin`. |
| Grids.View.Get | include/grid.h:626-639 | `view[local]` reads `parent[local + origin]`. |
| Grids.View.Set | include/grid.h:626-639 | Writing `view[local]` writes the parent cell at `origin + local` and reads back. |
| Grids.View.Cells | include/grid.h:497-545 | A view's iteration yields `area` cells. |
| Grids.View.IndexOfRank | include/grid.h:626-639 | The iterator's k-th local point addresses the parent cell of the region's k-th point, so `view[local] == parent[origin + local]`. |
| Grids.View.Update | include/grid.h:150-176 | The cellwise view loop applies `f` to exactly the region's cells. |
| Grids.View.Combine | include/grid.h:93-140 | The pairwise view loop combines the region's first `|src|` cells, in column order, with `src`. |
| Grids.View.Fill | include/grid.h:230-238 | `fill(v)` on a view sets every region cell to `v` and nothing outside. |
| Grids.View.MulAssign | include/grid.h:150-158 | `*=` on a view multiplies the region's cells only. |
| Grids.View.DivAssign | include/grid.h:168-176 | `/=` on a view divides the region's cells only, truncating. |
| Grids.View.Assign | include/grid.h:93-102 | Assignment into a view from a grid or view of another type writes `src` into the region's first cells in column order. |
| Grids.View.AddAssign | include/grid.h:112-121 | `+=` on a view, pairwise over the region. |
| Grids.View.SubAssign | include/grid.h:131-140 | `-=` on a view, pairwise over the region. |
| Grids.View.NotEqual | include/grid.h:188-207 | `!=` on views iff the extents differ or some paired cell differs. |
| Grids.View.Equal | include/grid.h:219-223 | `==` on views is the negation of `!=`. |
| Grids.ColViewIterator.constructor | include/grid.h:508-510 | The iterator starts at the given point. |
| Grids.ColViewIterator.AtEndTag | include/grid.h:517-519 | The concrete end iterator sits at `(0, extents.y)`. |
| Grids.ColViewIterator.Set | include/grid.h:389-400 | `*itr = v` writes the view cell at the iterator's point. |
| Grids.ColViewIterator.Increment | include/grid.h:525-534 | x advances. At `extents.x` it wraps to 0 and y advances. |
| Grids.ColViewIterator.Coords | include/grid.h:454-457 | `coords()` is the current local point. |
| Grids.ColViewIterator.AtEnd | include/grid.h:539-542 | `== end`: y has reached the view's `extents().y`. |
| Grids.ColViewIterator.Equals | include/grid.h:421-425 | Two iterators are equal when they have the same view and the same point. |
| Grids.ColViewIterator.Get | include/grid.h:397-400 | `*itr` reads the view cell at the current point. |
| Grids.RowViewIterator.constructor | include/grid.h:564-566 | The iterator starts at the given point. |
| Grids.RowViewIterator.AtEndTag | include/grid.h:573-575 | The concrete end iterator sits at `(extents.x, 0)`. |
| Grids.RowViewIterator.Set | include/grid.h:389-400 | `*itr = v` writes the view cell at the iterator's point. |
| Grids.RowViewIterator.Increment | include/grid.h:581-590 | y advances. At `extents.y` it wraps to 0 and x advances. |
| Grids.RowViewIterator.Coords | include/grid.h:454-457 | `coords()` is the current local point. |
| Grids.RowViewIterator.AtEnd | include/grid.h:595-598 | `== end`: x has reached the view's `extents().x`. |
| Grids.RowViewIterator.Equals | include/grid.h:421-425 | Two iterators are equal when they have the same view and the same point. |
| Grids.RowViewIterator.Get | include/grid.h:397-400 | `*itr` reads the view cell at the current point. |
| Grids.RowViewOffsetInView | include/grid.h:553-601 | The k-th cell of a view in row order is a parent cell inside the region, whose row rank is k. |
| Grids.RowViewRankInRange | include/grid.h:553-601 | Every region cell has a row rank in `[0, area)`. |
| Grids.RowViewRankUnique | include/grid.h:553-601 | No two region cells share a row rank. |
| Grids.FillByColumns | test/grid.cpp:100-134 | Writing 5 through a column iterator until the concrete end is `fill`. Equality with the end iterator agrees with the end tag along the walk. |
| Grids.FillByRows | test/grid.cpp:136-169 | Writing through a row iterator until `(extents.x, 0)` is `fill`. |
| Grids.WholeViewCells | include/grid.h:71-74 | A grid and its whole-grid view yield the same cells in the same order. |
| Grids.ViewFillExample | test/grid.cpp:194-283 | Filling the 3x3 view at (2,2) with 5 leaves the 3x3 view at (5,5) reading 1, for every bounds variant. |
| Grids.AssignExampleCell | test/grid.cpp:286-319 | Assigning a 2x2 block of 5 into the view at (1,1) sets (1,1), (1,2), (2,1), (2,2) to 5 and leaves every other cell at 1. |
| Grids.MappedViewAssignExample | test/grid.cpp:286-319 | The same on a `MappedGrid` or `FixedMappedGrid` over a buffer of 1s. |
| TiledGrids.RowsCover | include/tiled_grid.h:42-44 | Tile counts are ceilings, at least 1, so the tiles cover the grid. |
| TiledGrids.Layout.Rows | include/tiled_grid.h:42-43 | `TileRows`, corrected to the ceiling `(Height + TileHeight - 1) / TileHeight` (see Findings); `RowsCover` and `RowsAgreeWhenDivisible` state its meaning. |
| TiledGrids.Layout.Cols | include/tiled_grid.h:42-43 | `TileCols`, corrected to the ceiling in the same way. |
| TiledGrids.Layout.Count | include/tiled_grid.h:44 | `TileCount = TileRows * TileCols`. |
| TiledGrids.Layout.TileOf | include/tiled_grid.h:94 | `tile_pt = (pt.x / TileHeight, pt.y / TileWidth)`. |
| TiledGrids.Layout.SlotOf | include/tiled_grid.h:96 | `tiles_[tile_pt]` addresses the slot at `tile_pt`'s linear index in the tile grid. |
| TiledGrids.Layout.TileOrigin | include/tiled_grid.h:111-112 | An allocated tile's origin is `(tile_pt.x * TileHeight, tile_pt.y * TileWidth)`. |
| TiledGrids.Layout.OffsetOf | include/tiled_grid.h:99 | The cell `pt` reaches in its tile is the linear index of `pt - tile.origin`. |
| TiledGrids.RowsAgreeWhenDivisible | include/tiled_grid.h:42-43 | When the sizes divide evenly, the ceiling counts equal the library's truncated counts. |
| TiledGrids.SlotInRange | include/tiled_grid.h:94-115 | An in-bounds point's tile is in the tile grid, its slot is in `[0, TileCount)`, and its in-tile offset lies in the tile. |
| TiledGrids.StorageInjective | include/tiled_grid.h:94-115 | Distinct in-bounds points reach distinct (slot, offset) storage. |
| TiledGrids.EveryTileHasACell | include/tiled_grid.h:42-44 | Every slot is the tile of some in-bounds point, its origin. |
| TiledGrids.CountAllocated | include/tiled_grid.h:66-74 | `active()` never exceeds the tile count. |
| TiledGrids.CountIsAllocatedSlots | include/tiled_grid.h:54-74 | `active()` is the number of slots `mask()` marks. |
| TiledGrids.AllAllocatedCount | include/tiled_grid.h:66-74 | With every tile allocated, `active()` equals the tile count. |
| TiledGrids.FixedTiledGrid.constructor | include/tiled_grid.h:49-52 | A fresh tiled grid has no tile allocated and reads the default value everywhere. |
| TiledGrids.FixedTiledGrid.Get | include/tiled_grid.h:92-102 | Read-only access reads the default value when the tile is unallocated, and otherwise the tile cell at `pt - origin`. |
| TiledGrids.FixedTiledGrid.TileAt | include/tiled_grid.h:76-79 | An allocated tile has the origin of its tile coordinates. |
| TiledGrids.FixedTiledGrid.Access | include/tiled_grid.h:104-116 | Mutable access allocates only `pt`'s tile, and only if absent, with the right origin and default cells. It touches no other tile and changes no value read anywhere. |
| TiledGrids.FixedTiledGrid.Set | include/tiled_grid.h:104-116 | A written value reads back at `pt`, no other cell changes, and `pt`'s tile becomes allocated. |
| TiledGrids.FixedTiledGrid.Mask | include/tiled_grid.h:54-64 | `mask()` is true exactly at allocated tiles. |
| TiledGrids.FixedTiledGrid.Active | include/tiled_grid.h:66-74 | `active()` counts allocated tiles. |
| TiledGrids.FixedTiledGrid.AssignAll | include/tiled_grid.h:118-126 | Writing every cell through mutable iteration allocates every tile, and every cell reads the value. |
| TiledGrids.MaskedSlots | include/tiled_grid.h:54-74 | When `mask()` marks exactly two slots, those are the allocated slots. |
| TiledGrids.TwoWrites | test/tiled_grid.cpp:41-54 | After writes at two points, only their tiles are allocated, `active()` is 1 or 2 accordingly, and both values read back. |
| TiledGrids.TiledAssignSlots | test/tiled_grid.cpp:41-54 | In a 20x20 grid of 5x5 tiles, (5,5) and (18,19) sit in slots 5 and 15 of 16. |
| TiledGrids.TiledAssignExample | test/tiled_grid.cpp:41-54 | Writing 6 at (5,5) and 9 at (18,19) allocates exactly tiles (1,1) and (3,3), so `active() == 2`, and both values read back. |
| TiledGrids.UnevenTilesShareSlot | include/tiled_grid.h:42-43 | As written, in a 5x4 grid of 2x2 tiles the points (4,0) and (0,2) address the same slot. |
| TiledGrids.UnevenTilesShareCell | include/tiled_grid.h:94-115 | As written, those two points reach the same cell of that tile. |
| TiledGrids.UnevenTilesSeparated | include/tiled_grid.h:42-44 | With ceiling counts, the same two points sit in different slots of a 6-tile grid. |
| TiledGrids.UnevenTilesOverrun | include/tiled_grid.h:42-44 | As written, (4,3) addresses slot 4 of a 4-slot tile array, one past its end. |
| TiledGrids.RowsAsWritten | include/tiled_grid.h:42 | `TileRows = Height / TileHeight` as the library computes it, truncated. |
| TiledGrids.ColsAsWritten | include/tiled_grid.h:43 | `TileCols = Width / TileWidth` as the library computes it, truncated. |
| TiledGrids.SlotAsWritten | include/tiled_grid.h:94-96 | The slot `tiles_[tile_pt]` addresses with the library's truncated counts. |
| SparseCells.ConversionsRoundTrip | include/sparse_cell.h:46-69 | Construction stores value and position unchanged, the conversions read them back, and together they rebuild the cell. |
| SparseCells.LessIgnoresPosition | include/sparse_cell.h:49 | `<` compares values only: positions never change the answer. |
| SparseCells.EqualValuesIncomparable | include/sparse_cell.h:49 | Two cells are incomparable iff their values are equal. |
| SparseCells.IncomparableDistinctCells | include/sparse_cell.h:49 | Distinct cells with equal values are incomparable. |
| SparseCells.LessIsStrictWeakOrder | include/sparse_cell.h:49 | `<` is a strict weak ordering, as `std::priority_queue` requires. |
| SparseCells.IndicesLessIgnoresPosition | include/sparse_cell.h:67-73 | The `Indices` specialisation orders by the value coordinates lexicographically, ignoring positions. |
| SparseCells.Less | include/sparse_cell.h:49 | `operator<` compares the values only. |
| SparseCells.IndicesLess | include/sparse_cell.h:67-73 | The `Indices` specialisation's `<` is the lexicographic order of the value coordinates. |
| SparseCells.ToIndices | include/sparse_cell.h:60 | A cell converts to its position. |
| SparseCells.ToValue | include/sparse_cell.h:63 | A cell converts to its value. |
| FloodFills.Neighbourhood | include/flood_fill.h:80 | The expansion region is the 3x3 block with origin (-1,-1). |
| FloodFills.IsFloodFill | include/flood_fill.h:45-92 | What the fill leaves: untouched outside the grid, every changed cell accepted before and rejected after, sourced from an adjacent expanded cell, reached from the seeds through accepted cells, and no accepted cell around a seed or a changed cell. |
| FloodFills.ExpandsInOrder | include/flood_fill.h:61-74 | The max-first order's effect: every changed cell next to an expanded cell `c` holds at least `updater(c)`. |
| FloodFills.NeighbourhoodColumnOrder | include/flood_fill.h:80-82 | Its column range yields `(k%3-1, k/3-1)`, all adjacent, and the seed itself exactly at k = 4. |
| FloodFills.WriteClosesCell | include/flood_fill.h:85-89 | Writing a rejected value closes that cell and changes no other cell. The count of open cells drops by one, which is the termination measure. |
| FloodFills.PopKeepsPositions | include/flood_fill.h:73-74 | Popping a seed removes only that seed from the queue. |
| FloodFills.PushAddsPosition | include/flood_fill.h:87 | Pushing a seed adds its position. |
| FloodFills.MaxIndex | include/flood_fill.h:61-74 | `top()` of the max-queue: no pending seed is greater than it. |
| FloodFills.WritePosition | include/flood_fill.h:85-89 | One accepted candidate: written, pushed, closed, and the fill's invariant kept. |
| FloodFills.WriteSourced | include/flood_fill.h:77-88 | Every written cell holds `updater(seed)` for an adjacent expanded cell: a seed or a changed cell that still holds the value it was pushed with. |
| FloodFills.PopTracked | include/flood_fill.h:73-74 | Popping a seed moves it from the queue to the popped cells. Every seed and every changed cell stays recorded in one of the two. |
| FloodFills.WriteTracked | include/flood_fill.h:85-88 | The cell pushed for a write is an expanded cell: it changed and holds the pushed value. Cells recorded earlier stay expanded. |
| FloodFills.PopRanked | include/flood_fill.h:73-74 | For an ordered updater, popping a greatest seed leaves every pending seed at most its value. Every changed cell keeps at least the updater's value for it. |
| FloodFills.WriteRanked | include/flood_fill.h:85-88 | The write of `updater(curr)` keeps that bound. No cell next to an already popped seed is written. |
| FloodFills.EmptyRanked | include/flood_fill.h:70 | With the queue empty, every expanded cell has been popped, so every changed cell next to one holds at least the updater's value for it. |
| FloodFills.EmptyQueueIsFloodFill | include/flood_fill.h:70 | Once the queue is empty, the loop invariants give `IsFloodFill`: sourcing, reachability from the seeds and closure. |
| FloodFills.Reached | include/flood_fill.h:70-89 | The positions a fill can write: accepted before the fill, and in the 3x3 block of a seed, or of a position reached in one step fewer. |
| FloodFills.WriteReached | include/flood_fill.h:80-89 | Writing an accepted cell next to a popped seed keeps every changed cell reached. The new cell is one step beyond the seed, or next to an initial seed. |
| FloodFills.NothingReachedWithoutSeeds | include/flood_fill.h:70-89 | With no seeds, no position is reached in any number of steps. |
| FloodFills.NoSeedsNoChange | include/flood_fill.h:70 | A flood fill from no seeds leaves the grid unchanged, since the seed loop never runs. |
| FloodFills.OffsetsCoverBlock | include/flood_fill.h:80-82 | `seed + offset` over the nine offsets reaches every point of the 3x3 block. |
| FloodFills.ScanNeighbourhood | include/flood_fill.h:80-90 | The `for` loop over the 3x3 block of one popped seed. Every accepted cell is written and pushed. The fill's invariants are restored with that seed done. The open-cell count plus the queue length stays the same. |
| FloodFills.FloodFill | include/flood_fill.h:45-92 | Seeded fill, when the updater's values are always rejected. Cells outside the grid are untouched. Changed cells were accepted and are now rejected, each holding `updater(c)` for an adjacent expanded cell `c` and reached from the seeds through accepted cells. No cell around a seed or a changed cell is still accepted. For a monotone updater that lowers no seed and none of its own values, the max-first order leaves every changed cell next to an expanded cell `c` at least `updater(c)`. |
| FloodFills.SeedsUpTo | include/flood_fill.h:110-117 | The seeds the generator picks among the first `n` cells: exactly the accepted cells, with their values and coordinates, in column-major order. |
| FloodFills.CollectSeeds | include/flood_fill.h:109-117 | The `ColViewIterator` loop collects exactly `SeedsUpTo` over the whole grid. |
| FloodFills.FloodFillGenerated | include/flood_fill.h:95-121 | The generator overload is the seeded fill run on the collected seeds, with both of its postconditions. |
| FloodFills.IsPositive | test/flood_fill.cpp:27 | The test's seed generator: a cell is a seed when its value is positive. |
| FloodFills.IsZero | test/flood_fill.cpp:29 | The test's validator: only a zero cell may be filled. |
| FloodFills.Descend | test/flood_fill.cpp:28 | `max(1, v - 1)` is at least 1 and is `v - 1` for `v >= 2`. |
| FloodFills.ZeroFillReaches | test/flood_fill.cpp:25-29 | With a non-zero seed cell and non-negative cells, a `v == 0` fill with `max(1, v - 1)` leaves every cell at least 1. |
| FloodFills.DescendIsOrdered | test/flood_fill.cpp:26-28 | `max(1, v - 1)` is monotone, lowers no positive seed and lowers none of its own values. |
| FloodFills.CenterGridIsCenterBlock | test/flood_fill.cpp:18-23 | The grid of zeros with the four writes holds 10 exactly in the central 2x2 block. |
| FloodFills.BlockCellIsSeed | test/flood_fill.cpp:18-27 | Every cell of the central block is a seed with value 10. |
| FloodFills.SeedIsBlockCell | test/flood_fill.cpp:18-27 | Every seed is a cell of the central block with value 10. |
| FloodFills.PositiveCellExpanded | test/flood_fill.cpp:25-29 | After the fill, a positive cell is an expanded cell: a block seed, or a changed cell. |
| FloodFills.NextToExpandedChanged | test/flood_fill.cpp:25-29 | After the fill, every cell outside the block that is next to an expanded cell has changed. |
| FloodFills.FillLowerBound | test/flood_fill.cpp:25-34 | After the fill, every cell holds at least 10 less its box distance to the block. |
| FloodFills.FillUpperBound | test/flood_fill.cpp:25-34 | After the fill, every cell holds at most 10 less its box distance to the block. |
| FloodFills.FilledTestGrid | test/flood_fill.cpp:25-34 | After the fill, every cell holds exactly 10 less its box distance to the block. |
| FloodFills.FillCenterBlock | test/flood_fill.cpp:25-29 | The test's fill call, on its starting grid, leaves exactly those values. |
| FloodFills.DescendingFillFromCenter | test/flood_fill.cpp:16-35 | The 10x10 test grid ends with 10 less the box distance to the central block in every cell, so 6 in each of the four corners. |

## Left out

- `include/stream.h` is text output (I/O) and is not part of this model. `include/fwd.h` and `include/crtp.h` hold declarations and a cast macro, with no behaviour.
- Allocators: `allocate`, `construct`, `destroy`, `deallocate`, placement-new `reset`, and the custom-allocator constructors. Storage is a Dafny array, replaced on resize.
- The move constructor and move assignment of `Grid` are left out. They transfer ownership and leak the old buffer.
- `Grid::operator=(const Grid&)` (include/grid.h:788-793) is left out. It calls `std::copy` with its arguments reversed, so it copies this grid into the other, and it is not a copy assignment.
- Grids.Grid.MappedResize, Grids.Grid.MappedResizeFill: the new extents must be non-negative and fit the borrowed buffer (`area(e) <= ` its length). `MappedGrid::resize` (include/grid.h:834-843) accepts any extents. Past the buffer, later accesses read and write out of bounds, and the fill overload writes past the buffer at once. The model keeps a mapped grid's extents inside its buffer.
- Grids.Grid.Resize, Grids.Grid.ResizeFill: no cell values survive a resize to new extents. The library destroys and reconstructs every cell, so there is nothing to preserve.
- Grids.Grid.Swap: only the buffers are exchanged. `Grid` does not swap extents (include/grid.h:807-812), so the model requires equal areas to keep both grids valid. `MappedGrid` has no swap of its own, and its swap test (test/mapped_grid.cpp:100-121) expects more than the code does.
- Grids.Grid.OnBuffer, Grids.Grid.FixedOnBuffer: a null buffer is not modelled. The model requires a buffer of at least `area` cells.
- The end constructor of `BoundsIteratorBase` (include/bounds.h:194-199) is left out. It sets the point to `extents - (1,1)` and ignores the origin; no code relies on it.
- BoundsFamily.ColRange, BoundsFamily.RowRange, Grids.View.Update: these require positive extents along the inner axis.
  - With `extents.x == 0` and `extents.y > 0`, the library's column iterator never reaches its end tag.
  - For the same reason, `FloodFills.CollectSeeds` requires `0 < extents.x` unless the grid has no columns.
- Grids.View.Cells, Grids.View.CellAt, Grids.View.IndexOfRank, Grids.View.Update, Grids.View.Combine, Grids.View.Fill, Grids.View.MulAssign, Grids.View.DivAssign, Grids.View.Assign, Grids.View.AddAssign, Grids.View.SubAssign, Grids.View.NotEqual, Grids.View.Equal: requires a valid view, one that lies inside its parent (`Fits`) and has at least one row. Views outside the parent and the empty (0,0) view are not modelled.
- Grids.Grid.WholeView: requires a grid with at least one row, for the same reason. The view of an empty grid is not modelled.
- The view conditions in detail:
  - The library does not check that a view lies inside its parent. An outside view addresses other cells of the parent or memory out of its buffer.
  - On a (0,0) view the library's loops end at once and do nothing.
  - On a view with no rows and some columns, its column iterator never reaches the end tag.
  - `Grids.Grid.MakeView` builds any view; only the operations on it need these conditions.
- Grids.Grid.Assign, Grids.View.Assign, Grids.Grid.AddAssign, Grids.Grid.SubAssign: the other operand is passed as the sequence of its cells in its own iteration order. It may have no more cells than the target; the library never checks shapes. Aliasing between the two operands is not modelled.
- The implicit same-type copy assignment of `View` is left out. It rebinds `parent_` and the bounds to the other view's and copies no cells. The model's views keep their parent and bounds for life. For `FixedGrid` the same-type copy has the effect of `Grids.Grid.Assign`. For `MappedGrid` and `FixedMappedGrid` it is `Grids.Grid.AssignShared`.
- TiledGrids.FixedTiledGrid: the tile counts are the corrected ceilings. When tile sizes do not divide the grid, the library makes two points share a slot and indexes past its tile array. Only `TiledGrids.SlotAsWritten` and the `Uneven*` lemmas show that behaviour.
- A view's `within` tests parent coordinates while its `operator[]` takes local ones. The flood fill over views depends on this, and its test (test/flood_fill.cpp:38-57) is disabled as buggy. Views over tiled grids (test/tiled_grid.cpp:57-69) are also left out.
- `Coordinates::floor`, non-`int` scalars, and the floating-point flood-fill test (test/flood_fill.cpp:60-79) are floating point and not modelled.
- C++ `int` overflow is not modelled: integers are unbounded. Division is modelled as truncating toward zero (`Arith.TruncDiv`). `center` and tile selection use non-negative operands, where truncation and Dafny's division agree.
- `GridTraits` and `cell_t` (include/grid.h:333-349) are type-level only. `FixedTiledGrid::rows()` and `cols()` are the constants `Layout.Rows` and `Layout.Cols`.
- SparseCells.ToValue: the model offers the value conversion for every cell type. The library's `SparseCell<Indices>` specialisation has only the position conversion.
- FloodFills.FloodFill: the priority queue's order among equal values, and custom comparators and allocators, are not modelled.
  - The queue pops some greatest seed (`MaxIndex`).
  - Termination is proved under the hypothesis that the validator rejects every value the updater produces. The hypothesis is sufficient, not necessary. The library also stops on some inputs that break it: the test grid with the updater `sc - 1` writes only values of at least 6, although `updater` of a cell holding 1 gives 0, which the validator accepts. The library need not terminate otherwise, for example with a validator that accepts every value.
- FloodFills.FloodFillGenerated: it has the same termination hypothesis as `FloodFills.FloodFill`, for the same reason. It also requires `0 < extents.x` unless the grid has no columns, as `FloodFills.CollectSeeds` does.
- FloodFills.FloodFill: the max-first order is stated only for updaters that are monotone, lower no seed and lower none of their own values. The test's updater is one of these. For other updaters the postcondition states what every order guarantees.

## Findings

| source | as written | input that shows it | evidently intended | confidence | as-written member | corrected member |
|---|---|---|---|---|---|---|
| include/tiled_grid.h:42-43 | `TileRows = Height / TileHeight` and `TileCols = Width / TileWidth` truncate, though `static_assert` admits tile sizes that do not divide the grid | `FixedTiledGrid<int, 5, 4, 2, 2>` keeps 2x2 tiles. (4,0) and (0,2) both select slot 2 and the same cell in it. (4,3) selects slot 4 of 4. | Ceiling counts `(Height + TileHeight - 1) / TileHeight`, so every in-bounds point has its own storage | not executed | TiledGrids.SlotAsWritten, TiledGrids.UnevenTilesShareSlot, TiledGrids.UnevenTilesShareCell, TiledGrids.UnevenTilesOverrun | TiledGrids.Layout.Rows, TiledGrids.SlotInRange, TiledGrids.StorageInjective, TiledGrids.UnevenTilesSeparated |

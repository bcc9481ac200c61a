/**
 * `flood_fill`: grows a region from seed cells.  Seeds wait in a queue that
 * always yields a greatest value; around each seed the nine positions of
 * the 3x3 block are examined, and each one inside the grid whose cell the
 * validator accepts receives the updater's value for the seed and becomes
 * a seed itself.
 */
module FloodFills {
  import opened Coordinates
  import opened Primitives
  import opened BoundsFamily
  import opened SparseCells
  import opened Grids

  /** The block `FixedOriginExtentsBounds<-1, -1, 3, 3>` whose points are the offsets examined around a seed. */
  function Neighbourhood(): (b: Bounds)
    ensures b.Origin() == Coord(-1, -1) && b.Size() == Coord(3, 3)
  {
    FixedOriginExtents(Coord(-1, -1), Coord(3, 3))
  }

  /**
   * The column range over the block yields its offsets with x innermost:
   * (-1, -1), (0, -1), (1, -1), (-1, 0), ... (1, 1), the seed's own
   * position fifth; each lies within one step of the seed.
   */
  lemma NeighbourhoodColumnOrder(k: int)
    requires 0 <= k < 9
    ensures ColPoint(Neighbourhood(), k) == Coord(k % 3 - 1, k / 3 - 1)
    ensures Adjacent(Zero(), ColPoint(Neighbourhood(), k))
    ensures k == 4 <==> ColPoint(Neighbourhood(), k) == Zero()
  {
  }

  /** `p` is one of the nine positions examined around `center`, `center` itself included. */
  predicate Adjacent(center: Indices, p: Indices)
  {
    -1 <= p.x - center.x <= 1 && -1 <= p.y - center.y <= 1
  }

  /**
   * The validator accepts the cell at `p`: `p` is inside the grid of
   * extents `e` stored in `buf`, and `validator(SparseCell{grid[p], p})`.
   */
  predicate Open(buf: seq<int>, e: Extents, validator: SparseCell<int> -> bool, p: Indices)
  {
    InExtents(e, p) && 0 <= LinearIndex(e, p) < |buf| && validator(SparseCell(buf[LinearIndex(e, p)], p))
  }

  /** The cell at in-grid `p` differs between `before` and `after`. */
  predicate Changed(before: seq<int>, after: seq<int>, e: Extents, p: Indices)
  {
    InExtents(e, p) && 0 <= LinearIndex(e, p) < |before| && LinearIndex(e, p) < |after|
    && after[LinearIndex(e, p)] != before[LinearIndex(e, p)]
  }

  /** The buffer offsets of the cells the validator accepts. */
  ghost function OpenCells(buf: seq<int>, e: Extents, validator: SparseCell<int> -> bool): set<int>
  {
    set i | 0 <= i < |buf| && 0 < e.x && Open(buf, e, validator, PointOfIndex(e, i))
  }

  /** The positions of the queued cells. */
  ghost function Positions(q: seq<SparseCell<int>>): set<Indices>
  {
    set c | c in q :: c.position
  }

  /**
   * `c` is a cell the fill expands: one of the seeds, or a changed cell
   * carrying the value it was written with.
   */
  ghost predicate Expanded(before: seq<int>, after: seq<int>, e: Extents, seeds: seq<SparseCell<int>>, c: SparseCell<int>)
  {
    c in seeds || (Changed(before, after, e, c.position) && after[LinearIndex(e, c.position)] == c.value)
  }

  /** Every cell changed from `before` to `after` holds the updater's value for an expanded cell whose 3x3 block contains it. */
  ghost predicate Sourced(before: seq<int>, after: seq<int>, e: Extents, seeds: seq<SparseCell<int>>, updater: SparseCell<int> -> int)
  {
    forall p :: Changed(before, after, e, p) ==>
      exists c: SparseCell<int> :: Expanded(before, after, e, seeds, c) && Adjacent(c.position, p) && after[LinearIndex(e, p)] == updater(c)
  }

  /**
   * `p` is reached from the seeds within `n` steps: its cell is accepted in
   * `before`, and it lies in the 3x3 block around a seed or, when `n > 0`,
   * around a position reached within `n - 1` steps.  These are the only
   * positions the fill can write: it writes only accepted cells around a
   * popped seed, and a popped seed is an initial seed or a written cell.
   */
  ghost predicate Reached(before: seq<int>, e: Extents, validator: SparseCell<int> -> bool,
                          seeds: seq<SparseCell<int>>, p: Indices, n: nat)
    decreases n
  {
    && Open(before, e, validator, p)
    && ((exists s :: s in seeds && Adjacent(s.position, p))
        || (0 < n && exists q :: Adjacent(q, p) && Reached(before, e, validator, seeds, q, n - 1)))
  }

  /**
   * An updater under which the max-first queue expands cells in order of
   * value: it depends on the value alone, monotonically, and lowers (or
   * keeps) the value of every seed and of every value it produces.
   */
  ghost predicate OrderedUpdater(updater: SparseCell<int> -> int, seeds: seq<SparseCell<int>>)
  {
    && (forall c: SparseCell<int>, d: SparseCell<int> :: c.value <= d.value ==> updater(c) <= updater(d))
    && (forall s :: s in seeds ==> updater(s) <= s.value)
    && (forall c: SparseCell<int>, p: Indices :: updater(SparseCell(updater(c), p)) <= updater(c))
  }

  /**
   * The effect of the max-first order: every changed cell around an
   * expanded cell `c` holds at least `updater(c)`, because it was written
   * while expanding `c` or while expanding an earlier, no smaller, cell.
   */
  ghost predicate ExpandsInOrder(before: seq<int>, after: seq<int>, e: Extents, seeds: seq<SparseCell<int>>, updater: SparseCell<int> -> int)
  {
    forall c, p :: Expanded(before, after, e, seeds, c) && Adjacent(c.position, p) && Changed(before, after, e, p) ==>
      after[LinearIndex(e, p)] >= updater(c)
  }

  /**
   * `after` is a flood fill of `before` (a grid of extents `e`) from
   * `seeds`: nothing changes beyond the grid's cells; a cell that changes
   * was accepted by the validator, is now rejected, holds the updater's
   * value for a neighbouring expanded cell, and is reached from the seeds
   * through accepted cells; and around every seed and every changed cell no
   * position is left that the validator still accepts.
   */
  ghost predicate IsFloodFill(before: seq<int>, after: seq<int>, e: Extents, seeds: seq<SparseCell<int>>,
                              updater: SparseCell<int> -> int, validator: SparseCell<int> -> bool)
  {
    && |after| == |before|
    && Sourced(before, after, e, seeds, updater)
    && (forall p :: Changed(before, after, e, p) ==> exists n: nat :: Reached(before, e, validator, seeds, p, n))
    && (forall i :: Area(e) <= i < |before| && 0 <= i ==> after[i] == before[i])
    && (forall p :: Changed(before, after, e, p) ==> Open(before, e, validator, p) && !Open(after, e, validator, p))
    && (forall s, p :: s in seeds && Adjacent(s.position, p) ==> !Open(after, e, validator, p))
    && (forall q, p :: Changed(before, after, e, q) && Adjacent(q, p) ==> !Open(after, e, validator, p))
  }

  // ---------------------------------------------------------------------
  // Facts about a single write
  // ---------------------------------------------------------------------

  /**
   * Writing a value the validator rejects into an accepted cell `q` closes
   * `q`, leaves every other position as open as it was, and takes exactly
   * one offset out of the open cells.
   */
  lemma {:induction false} WriteClosesCell(buf: seq<int>, after: seq<int>, e: Extents, validator: SparseCell<int> -> bool, q: Indices, x: int)
    requires Open(buf, e, validator, q) && !validator(SparseCell(x, q))
    requires after == buf[LinearIndex(e, q) := x]
    ensures 0 < e.x
    ensures !Open(after, e, validator, q)
    ensures forall p :: p != q ==> (Open(after, e, validator, p) <==> Open(buf, e, validator, p))
    ensures forall p :: p != q ==> !Changed(buf, after, e, p)
    ensures |OpenCells(after, e, validator)| == |OpenCells(buf, e, validator)| - 1
  {
    var i := LinearIndex(e, q);
    forall p | p != q && InExtents(e, p)
      ensures LinearIndex(e, p) != i
    {
      if LinearIndex(e, p) == i {
        LinearIndexInjective(e, p, q);
      }
    }
    PointOfLinearIndex(e, q);
    assert OpenCells(after, e, validator) == OpenCells(buf, e, validator) - {i} by {
      forall j | 0 <= j < |buf|
        ensures j in OpenCells(after, e, validator) <==> j in OpenCells(buf, e, validator) - {i}
      {
        var p := PointOfIndex(e, j);
        if j != i && InExtents(e, p) {
          assert after[LinearIndex(e, p)] == buf[LinearIndex(e, p)];
        }
      }
    }
    assert i in OpenCells(buf, e, validator);
  }

  /** Removing the cell at `m` from the queue keeps every other queued position. */
  lemma {:induction false} PopKeepsPositions(q: seq<SparseCell<int>>, m: int)
    requires 0 <= m < |q|
    ensures Positions(q) <= Positions(q[..m] + q[m + 1..]) + {q[m].position}
    ensures forall c :: c in q ==> c in q[..m] + q[m + 1..] || c == q[m]
  {
    var rest := q[..m] + q[m + 1..];
    forall c | c in q
      ensures c in rest || c == q[m]
    {
      var j :| 0 <= j < |q| && q[j] == c;
      if j < m {
        assert rest[j] == c;
      } else if j > m {
        assert rest[j - 1] == c;
      }
    }
  }

  /** A cell that changed from `orig` to `after` but not from `buf` to `after` had already changed by `buf`. */
  lemma ChangedThrough(orig: seq<int>, buf: seq<int>, after: seq<int>, e: Extents, p: Indices)
    requires |buf| == |after| && Changed(orig, after, e, p) && !Changed(buf, after, e, p)
    ensures Changed(orig, buf, e, p)
  {
  }

  /** Pushing a cell adds its position to the queued positions. */
  lemma PushAddsPosition(q: seq<SparseCell<int>>, c: SparseCell<int>)
    ensures Positions(q + [c]) == Positions(q) + {c.position}
  {
    assert forall d :: d in q + [c] <==> d in q || d == c;
  }

  // ---------------------------------------------------------------------
  // The priority queue
  // ---------------------------------------------------------------------

  /**
   * `seeds.top()` of the `std::less` priority queue: the index of a cell
   * no queued cell is greater than.  Which of several equal-valued cells
   * is chosen is not specified.
   */
  method MaxIndex(q: seq<SparseCell<int>>) returns (m: int)
    requires |q| > 0
    ensures 0 <= m < |q|
    ensures forall j :: 0 <= j < |q| ==> !SparseCells.Less(q[m], q[j])
  {
    m := 0;
    var k := 1;
    while k < |q|
      invariant 0 <= m < k <= |q|
      invariant forall j :: 0 <= j < k ==> !SparseCells.Less(q[m], q[j])
    {
      if SparseCells.Less(q[m], q[k]) {
        m := k;
      }
      k := k + 1;
    }
  }

  // ---------------------------------------------------------------------
  // The fill's loop invariants, stated on buffer contents
  // ---------------------------------------------------------------------

  /**
   * Between two seeds: a changed cell was accepted and is now rejected, and
   * has been expanded or is queued; every seed has been expanded or is
   * queued; and around each expanded position nothing is still accepted.
   */
  ghost predicate Between(orig: seq<int>, buf: seq<int>, e: Extents, validator: SparseCell<int> -> bool,
                          seeds: seq<SparseCell<int>>, done: set<Indices>, queue: seq<SparseCell<int>>)
  {
    && |buf| == |orig|
    && (forall i :: Area(e) <= i < |orig| && 0 <= i ==> buf[i] == orig[i])
    && (forall p :: Changed(orig, buf, e, p) ==>
          Open(orig, e, validator, p) && !Open(buf, e, validator, p) && (p in done || p in Positions(queue)))
    && (forall s :: s in seeds ==> s.position in done || s in queue)
    && (forall c, p :: c in done && Adjacent(c, p) ==> !Open(buf, e, validator, p))
  }

  /**
   * While the block around `center` is scanned: as `Between`, with
   * `center` counted as expanded except that only the positions in
   * `covered` are known to be rejected around it.
   */
  ghost predicate Around(orig: seq<int>, buf: seq<int>, e: Extents, validator: SparseCell<int> -> bool,
                         seeds: seq<SparseCell<int>>, done: set<Indices>, center: Indices,
                         covered: set<Indices>, queue: seq<SparseCell<int>>)
  {
    && |buf| == |orig|
    && (forall i :: Area(e) <= i < |orig| && 0 <= i ==> buf[i] == orig[i])
    && (forall p :: Changed(orig, buf, e, p) ==>
          Open(orig, e, validator, p) && !Open(buf, e, validator, p)
          && (p in done || p == center || p in Positions(queue)))
    && (forall s :: s in seeds ==> s.position in done || s.position == center || s in queue)
    && (forall c, p :: c in done && Adjacent(c, p) ==> !Open(buf, e, validator, p))
    && (forall p :: p in covered ==> !Open(buf, e, validator, p))
  }

  /** Before the first seed is popped, nothing has changed and every seed is queued. */
  lemma StartFill(orig: seq<int>, e: Extents, validator: SparseCell<int> -> bool, seeds: seq<SparseCell<int>>)
    ensures Between(orig, orig, e, validator, seeds, {}, seeds)
  {
  }

  /** Popping the seed at `m` starts the scan around its position. */
  lemma {:induction false} PopSeed(orig: seq<int>, buf: seq<int>, e: Extents, validator: SparseCell<int> -> bool,
                                   seeds: seq<SparseCell<int>>, done: set<Indices>, queue: seq<SparseCell<int>>, m: int)
    requires Between(orig, buf, e, validator, seeds, done, queue) && 0 <= m < |queue|
    ensures Around(orig, buf, e, validator, seeds, done, queue[m].position, {}, queue[..m] + queue[m + 1..])
  {
    PopKeepsPositions(queue, m);
  }

  /** A position whose cell is rejected (or outside the grid) is passed over. */
  lemma SkipPosition(orig: seq<int>, buf: seq<int>, e: Extents, validator: SparseCell<int> -> bool,
                     seeds: seq<SparseCell<int>>, done: set<Indices>, center: Indices,
                     covered: set<Indices>, queue: seq<SparseCell<int>>, pos: Indices)
    requires Around(orig, buf, e, validator, seeds, done, center, covered, queue)
    requires !Open(buf, e, validator, pos)
    ensures Around(orig, buf, e, validator, seeds, done, center, covered + {pos}, queue)
  {
  }

  /**
   * Writing the updater's value `x` into an accepted cell at `pos` and
   * queueing it keeps the scan's invariant and closes one accepted cell.
   */
  lemma {:induction false} WritePosition(orig: seq<int>, buf: seq<int>, after: seq<int>, e: Extents,
                                         validator: SparseCell<int> -> bool, seeds: seq<SparseCell<int>>,
                                         done: set<Indices>, center: Indices, covered: set<Indices>,
                                         queue: seq<SparseCell<int>>, pos: Indices, x: int)
    requires Around(orig, buf, e, validator, seeds, done, center, covered, queue)
    requires Open(buf, e, validator, pos) && !validator(SparseCell(x, pos))
    requires after == buf[LinearIndex(e, pos) := x]
    ensures Around(orig, after, e, validator, seeds, done, center, covered + {pos}, queue + [SparseCell(x, pos)])
    ensures |OpenCells(after, e, validator)| == |OpenCells(buf, e, validator)| - 1
  {
    WriteClosesCell(buf, after, e, validator, pos, x);
    PushAddsPosition(queue, SparseCell(x, pos));
    forall p | Changed(orig, after, e, p)
      ensures Open(orig, e, validator, p) && !Open(after, e, validator, p)
    {
      if p != pos {
        ChangedThrough(orig, buf, after, e, p);
      } else if !Changed(orig, buf, e, p) {
        assert buf[LinearIndex(e, p)] == orig[LinearIndex(e, p)];
      }
    }
    forall p | Changed(orig, after, e, p)
      ensures p in done || p == center || p in Positions(queue + [SparseCell(x, pos)])
    {
      if p != pos {
        ChangedThrough(orig, buf, after, e, p);
      }
    }
    LinearIndexInRange(e, pos);
    assert forall i :: Area(e) <= i < |orig| && 0 <= i ==> after[i] == buf[i];
    assert forall s :: s in queue ==> s in queue + [SparseCell(x, pos)];
    forall c, p | c in done && Adjacent(c, p)
      ensures !Open(after, e, validator, p)
    {
      if p != pos {
        assert !Open(buf, e, validator, p);
      }
    }
    forall p | p in covered + {pos}
      ensures !Open(after, e, validator, p)
    {
      if p != pos {
        assert !Open(buf, e, validator, p);
      }
    }
  }

  /** A write into an accepted cell keeps every expanded cell expanded: expanded cells that changed are rejected. */
  lemma {:induction false} ExpandedAfterWrite(orig: seq<int>, buf: seq<int>, after: seq<int>, e: Extents,
                                              validator: SparseCell<int> -> bool, seeds: seq<SparseCell<int>>,
                                              pos: Indices, x: int, c: SparseCell<int>)
    requires |buf| == |orig| && Expanded(orig, buf, e, seeds, c)
    requires forall p :: Changed(orig, buf, e, p) ==> !Open(buf, e, validator, p)
    requires Open(buf, e, validator, pos) && after == buf[LinearIndex(e, pos) := x]
    ensures Expanded(orig, after, e, seeds, c)
  {
    if c !in seeds {
      var q := c.position;
      assert q != pos;
      if LinearIndex(e, q) == LinearIndex(e, pos) {
        LinearIndexInjective(e, q, pos);
      }
    }
  }

  /** Writing the updater's value for an expanded cell `c` next to `pos` keeps every changed cell sourced. */
  lemma {:induction false} WriteSourced(orig: seq<int>, buf: seq<int>, after: seq<int>, e: Extents,
                                        validator: SparseCell<int> -> bool, seeds: seq<SparseCell<int>>,
                                        updater: SparseCell<int> -> int, pos: Indices, c: SparseCell<int>)
    requires Sourced(orig, buf, e, seeds, updater) && |buf| == |orig|
    requires forall p :: Changed(orig, buf, e, p) ==> !Open(buf, e, validator, p)
    requires Open(buf, e, validator, pos) && Adjacent(c.position, pos) && Expanded(orig, buf, e, seeds, c)
    requires after == buf[LinearIndex(e, pos) := updater(c)]
    ensures Sourced(orig, after, e, seeds, updater)
  {
    forall p | Changed(orig, after, e, p)
      ensures exists d: SparseCell<int> :: Expanded(orig, after, e, seeds, d) && Adjacent(d.position, p)
                                           && after[LinearIndex(e, p)] == updater(d)
    {
      if p == pos {
        ExpandedAfterWrite(orig, buf, after, e, validator, seeds, pos, updater(c), c);
        assert Adjacent(c.position, p) && after[LinearIndex(e, p)] == updater(c);
      } else {
        if LinearIndex(e, p) == LinearIndex(e, pos) {
          LinearIndexInjective(e, p, pos);
        }
        assert after[LinearIndex(e, p)] == buf[LinearIndex(e, p)];
        assert Changed(orig, buf, e, p);
        var d: SparseCell<int> :| Expanded(orig, buf, e, seeds, d) && Adjacent(d.position, p)
                                  && buf[LinearIndex(e, p)] == updater(d);
        ExpandedAfterWrite(orig, buf, after, e, validator, seeds, pos, updater(c), d);
      }
    }
  }

  /** Once the whole block around `center` is covered, `center` counts as expanded. */
  lemma FinishSeed(orig: seq<int>, buf: seq<int>, e: Extents, validator: SparseCell<int> -> bool,
                   seeds: seq<SparseCell<int>>, done: set<Indices>, center: Indices,
                   covered: set<Indices>, queue: seq<SparseCell<int>>)
    requires Around(orig, buf, e, validator, seeds, done, center, covered, queue)
    requires forall p :: Adjacent(center, p) ==> p in covered
    ensures Between(orig, buf, e, validator, seeds, done + {center}, queue)
  {
  }

  /** With the queue empty, the invariant is exactly a flood fill. */
  lemma {:induction false} EmptyQueueIsFloodFill(orig: seq<int>, buf: seq<int>, e: Extents,
                                                 updater: SparseCell<int> -> int, validator: SparseCell<int> -> bool,
                                                 seeds: seq<SparseCell<int>>, done: set<Indices>, depth: map<Indices, nat>)
    requires Between(orig, buf, e, validator, seeds, done, []) && Sourced(orig, buf, e, seeds, updater)
    requires Reachable(orig, buf, e, validator, seeds, depth)
    ensures IsFloodFill(orig, buf, e, seeds, updater, validator)
  {
    assert Positions([]) == {};
    forall p | Changed(orig, buf, e, p)
      ensures exists n: nat :: Reached(orig, e, validator, seeds, p, n)
    {
      assert Reached(orig, e, validator, seeds, p, depth[p]);
    }
  }

  // ---------------------------------------------------------------------
  // Only positions reached from the seeds change
  // ---------------------------------------------------------------------

  /** Every changed cell is reached from the seeds within the number of steps `depth` records for it. */
  ghost predicate Reachable(orig: seq<int>, buf: seq<int>, e: Extents, validator: SparseCell<int> -> bool,
                            seeds: seq<SparseCell<int>>, depth: map<Indices, nat>)
  {
    forall p :: Changed(orig, buf, e, p) ==> p in depth && Reached(orig, e, validator, seeds, p, depth[p])
  }

  /**
   * Writing an accepted cell at `pos` next to an expanded cell `c` keeps
   * every changed cell reached: `pos` is one step beyond `c`, or next to a
   * seed when `c` is one.
   */
  lemma {:induction false} WriteReached(orig: seq<int>, buf: seq<int>, after: seq<int>, e: Extents,
                                        validator: SparseCell<int> -> bool, seeds: seq<SparseCell<int>>,
                                        depth: map<Indices, nat>, c: SparseCell<int>, d: nat, pos: Indices, x: int)
    requires Reachable(orig, buf, e, validator, seeds, depth) && |buf| == |orig|
    requires forall p :: Changed(orig, buf, e, p) ==> !Open(buf, e, validator, p)
    requires Open(buf, e, validator, pos) && Adjacent(c.position, pos)
    requires (c in seeds && d == 0)
             || (Changed(orig, buf, e, c.position) && c.position in depth && d == depth[c.position] + 1)
    requires after == buf[LinearIndex(e, pos) := x]
    ensures Reachable(orig, after, e, validator, seeds, depth[pos := d])
  {
    var i := LinearIndex(e, pos);
    assert !Changed(orig, buf, e, pos);
    assert Open(orig, e, validator, pos);
    if c in seeds && d == 0 {
      assert Reached(orig, e, validator, seeds, pos, d);
    } else {
      assert Reached(orig, e, validator, seeds, c.position, d - 1);
      assert Reached(orig, e, validator, seeds, pos, d);
    }
    forall p | Changed(orig, after, e, p) && p != pos
      ensures p in depth && Reached(orig, e, validator, seeds, p, depth[p])
    {
      if LinearIndex(e, p) == i {
        LinearIndexInjective(e, p, pos);
      }
      assert after[LinearIndex(e, p)] == buf[LinearIndex(e, p)];
    }
  }

  /** Without seeds nothing is reached, however many steps are allowed. */
  lemma {:induction false} NothingReachedWithoutSeeds(before: seq<int>, e: Extents, validator: SparseCell<int> -> bool,
                                                      p: Indices, n: nat)
    ensures !Reached(before, e, validator, [], p, n)
    decreases n
  {
    if n > 0 {
      forall q | Adjacent(q, p)
        ensures !Reached(before, e, validator, [], q, n - 1)
      {
        NothingReachedWithoutSeeds(before, e, validator, q, n - 1);
      }
    }
  }

  /** A flood fill from no seeds changes nothing: the seeds loop never runs. */
  lemma {:induction false} NoSeedsNoChange(before: seq<int>, after: seq<int>, e: Extents,
                                           updater: SparseCell<int> -> int, validator: SparseCell<int> -> bool)
    requires AllGe(e, Zero())
    requires IsFloodFill(before, after, e, [], updater, validator)
    ensures after == before
  {
    forall i | 0 <= i < |before|
      ensures after[i] == before[i]
    {
      if i < Area(e) {
        assert 0 < e.x;
        PointOfIndexInExtents(e, i);
        var p := PointOfIndex(e, i);
        assert LinearIndex(e, p) == i;
        if after[i] != before[i] {
          assert Changed(before, after, e, p);
          var n: nat :| Reached(before, e, validator, [], p, n);
          NothingReachedWithoutSeeds(before, e, validator, p, n);
        }
      }
    }
  }

  // ---------------------------------------------------------------------
  // Which cells are expanded, and in what order
  // ---------------------------------------------------------------------

  /**
   * The queued and the already popped cells are all expanded cells; every
   * seed and the cell written at every changed position is one of them.
   */
  ghost predicate Tracked(orig: seq<int>, buf: seq<int>, e: Extents, seeds: seq<SparseCell<int>>,
                          popped: set<SparseCell<int>>, queue: seq<SparseCell<int>>)
  {
    && (forall c :: c in popped ==> Expanded(orig, buf, e, seeds, c))
    && (forall c :: c in queue ==> Expanded(orig, buf, e, seeds, c))
    && (forall p :: Changed(orig, buf, e, p) ==>
          SparseCell(buf[LinearIndex(e, p)], p) in popped || SparseCell(buf[LinearIndex(e, p)], p) in queue)
    && (forall s :: s in seeds ==> s in popped || s in queue)
  }

  lemma StartTracked(orig: seq<int>, e: Extents, seeds: seq<SparseCell<int>>)
    ensures Tracked(orig, orig, e, seeds, {}, seeds)
  {
  }

  lemma {:induction false} PopTracked(orig: seq<int>, buf: seq<int>, e: Extents, seeds: seq<SparseCell<int>>,
                                      popped: set<SparseCell<int>>, queue: seq<SparseCell<int>>, m: int)
    requires Tracked(orig, buf, e, seeds, popped, queue) && 0 <= m < |queue|
    ensures Tracked(orig, buf, e, seeds, popped + {queue[m]}, queue[..m] + queue[m + 1..])
  {
    PopKeepsPositions(queue, m);
    assert forall c :: c in queue[..m] + queue[m + 1..] ==> c in queue;
  }

  /** Writing `x` into the accepted cell at `pos` and queueing `SparseCell{x, pos}` keeps the bookkeeping. */
  lemma {:induction false} WriteTracked(orig: seq<int>, buf: seq<int>, after: seq<int>, e: Extents,
                                        validator: SparseCell<int> -> bool, seeds: seq<SparseCell<int>>,
                                        popped: set<SparseCell<int>>, queue: seq<SparseCell<int>>, pos: Indices, x: int)
    requires Tracked(orig, buf, e, seeds, popped, queue) && |buf| == |orig|
    requires forall p :: Changed(orig, buf, e, p) ==> !Open(buf, e, validator, p)
    requires Open(buf, e, validator, pos) && !validator(SparseCell(x, pos))
    requires after == buf[LinearIndex(e, pos) := x]
    ensures Tracked(orig, after, e, seeds, popped, queue + [SparseCell(x, pos)])
  {
    WriteClosesCell(buf, after, e, validator, pos, x);
    var queue' := queue + [SparseCell(x, pos)];
    forall c | c in popped
      ensures Expanded(orig, after, e, seeds, c)
    {
      ExpandedAfterWrite(orig, buf, after, e, validator, seeds, pos, x, c);
    }
    forall c | c in queue'
      ensures Expanded(orig, after, e, seeds, c)
    {
      if c in queue {
        ExpandedAfterWrite(orig, buf, after, e, validator, seeds, pos, x, c);
      } else {
        assert c == SparseCell(x, pos);
        assert !Changed(orig, buf, e, pos);
        assert Changed(orig, after, e, pos);
      }
    }
    forall p | Changed(orig, after, e, p)
      ensures SparseCell(after[LinearIndex(e, p)], p) in popped || SparseCell(after[LinearIndex(e, p)], p) in queue'
    {
      if p == pos {
        assert queue'[|queue|] == SparseCell(x, pos);
      } else {
        ChangedThrough(orig, buf, after, e, p);
        assert after[LinearIndex(e, p)] == buf[LinearIndex(e, p)];
      }
    }
    assert forall c :: c in queue ==> c in queue';
  }

  /** The greatest value any of the cells holds (0 for none). */
  function MaxValue(q: seq<SparseCell<int>>): (m: int)
    ensures forall c :: c in q ==> c.value <= m
  {
    if q == [] then 0
    else
      var r := MaxValue(q[1..]);
      if q[0].value < r then r else q[0].value
  }

  /**
   * Between two seeds, for an ordered updater: the queued cells are at most
   * `top`, the value of the last popped cell, and are not raised by the
   * updater; every changed cell holds at least the updater's value for
   * `top`; around every popped cell, every changed cell holds at least the
   * updater's value for it; popped cells are expanded positions.
   */
  ghost predicate Ranked(orig: seq<int>, buf: seq<int>, e: Extents, updater: SparseCell<int> -> int, top: int,
                         popped: set<SparseCell<int>>, done: set<Indices>, queue: seq<SparseCell<int>>)
  {
    && (forall c :: c in queue ==> c.value <= top && updater(c) <= c.value)
    && (forall p :: Changed(orig, buf, e, p) ==> buf[LinearIndex(e, p)] >= updater(SparseCell(top, p)))
    && (forall c, p :: c in popped && Adjacent(c.position, p) && Changed(orig, buf, e, p) ==>
          buf[LinearIndex(e, p)] >= updater(c))
    && (forall c :: c in popped ==> c.position in done)
  }

  /** While the block around the popped cell `curr` is scanned: as `Ranked`, and the covered positions hold at least `updater(curr)`. */
  ghost predicate RankedAround(orig: seq<int>, buf: seq<int>, e: Extents, updater: SparseCell<int> -> int,
                               curr: SparseCell<int>, covered: set<Indices>,
                               popped: set<SparseCell<int>>, done: set<Indices>, queue: seq<SparseCell<int>>)
  {
    && updater(curr) <= curr.value
    && (forall c :: c in queue ==> c.value <= curr.value && updater(c) <= c.value)
    && (forall p :: Changed(orig, buf, e, p) ==> buf[LinearIndex(e, p)] >= updater(SparseCell(curr.value, p)))
    && (forall c, p :: c in popped && Adjacent(c.position, p) && Changed(orig, buf, e, p) ==>
          buf[LinearIndex(e, p)] >= updater(c))
    && (forall c :: c in popped ==> c.position in done)
    && (forall p :: p in covered && Changed(orig, buf, e, p) ==> buf[LinearIndex(e, p)] >= updater(curr))
  }

  lemma StartRanked(orig: seq<int>, e: Extents, updater: SparseCell<int> -> int, seeds: seq<SparseCell<int>>)
    requires OrderedUpdater(updater, seeds)
    ensures Ranked(orig, orig, e, updater, MaxValue(seeds), {}, {}, seeds)
  {
  }

  /** Popping a greatest cell keeps the queue below it. */
  lemma {:induction false} PopRanked(orig: seq<int>, buf: seq<int>, e: Extents, updater: SparseCell<int> -> int,
                                     seeds: seq<SparseCell<int>>, top: int, popped: set<SparseCell<int>>,
                                     done: set<Indices>, queue: seq<SparseCell<int>>, m: int)
    requires OrderedUpdater(updater, seeds) && Ranked(orig, buf, e, updater, top, popped, done, queue)
    requires 0 <= m < |queue| && forall j :: 0 <= j < |queue| ==> !SparseCells.Less(queue[m], queue[j])
    ensures RankedAround(orig, buf, e, updater, queue[m], {}, popped, done, queue[..m] + queue[m + 1..])
  {
    var curr := queue[m];
    forall c | c in queue[..m] + queue[m + 1..]
      ensures c.value <= curr.value && updater(c) <= c.value
    {
      var j :| 0 <= j < |queue[..m] + queue[m + 1..]| && (queue[..m] + queue[m + 1..])[j] == c;
      if j < m {
        assert queue[j] == c;
      } else {
        assert queue[j + 1] == c;
      }
    }
    forall p | Changed(orig, buf, e, p)
      ensures buf[LinearIndex(e, p)] >= updater(SparseCell(curr.value, p))
    {
      assert updater(SparseCell(curr.value, p)) <= updater(SparseCell(top, p));
    }
  }

  /** A passed-over position holds, if changed, at least `updater(curr)`. */
  lemma SkipRanked(orig: seq<int>, buf: seq<int>, e: Extents, updater: SparseCell<int> -> int,
                   seeds: seq<SparseCell<int>>, curr: SparseCell<int>, covered: set<Indices>,
                   popped: set<SparseCell<int>>, done: set<Indices>, queue: seq<SparseCell<int>>, pos: Indices)
    requires OrderedUpdater(updater, seeds) && RankedAround(orig, buf, e, updater, curr, covered, popped, done, queue)
    ensures RankedAround(orig, buf, e, updater, curr, covered + {pos}, popped, done, queue)
  {
    assert updater(curr) <= updater(SparseCell(curr.value, pos));
  }

  /** Writing `updater(curr)` into an accepted cell next to `curr` keeps the order. */
  lemma {:induction false} WriteRanked(orig: seq<int>, buf: seq<int>, after: seq<int>, e: Extents,
                                       validator: SparseCell<int> -> bool, updater: SparseCell<int> -> int,
                                       seeds: seq<SparseCell<int>>, curr: SparseCell<int>, covered: set<Indices>,
                                       popped: set<SparseCell<int>>, done: set<Indices>, queue: seq<SparseCell<int>>,
                                       pos: Indices)
    requires OrderedUpdater(updater, seeds) && RankedAround(orig, buf, e, updater, curr, covered, popped, done, queue)
    requires |buf| == |orig| && forall c, p :: c in done && Adjacent(c, p) ==> !Open(buf, e, validator, p)
    requires Open(buf, e, validator, pos) && !validator(SparseCell(updater(curr), pos))
    requires after == buf[LinearIndex(e, pos) := updater(curr)]
    ensures RankedAround(orig, after, e, updater, curr, covered + {pos}, popped, done, queue + [SparseCell(updater(curr), pos)])
  {
    var x := updater(curr);
    WriteClosesCell(buf, after, e, validator, pos, x);
    assert updater(SparseCell(x, pos)) <= x;
    assert forall c :: c in queue + [SparseCell(x, pos)] ==> c in queue || c == SparseCell(x, pos);
    forall p | Changed(orig, after, e, p) && p != pos
      ensures Changed(orig, buf, e, p) && after[LinearIndex(e, p)] == buf[LinearIndex(e, p)]
    {
      ChangedThrough(orig, buf, after, e, p);
    }
    assert x >= updater(SparseCell(curr.value, pos));
    forall c, p | c in popped && Adjacent(c.position, p) && Changed(orig, after, e, p)
      ensures after[LinearIndex(e, p)] >= updater(c)
    {
      if p == pos {
        assert false;
      }
    }
  }

  /** Once the whole block around `curr` is covered, `curr` counts as popped. */
  lemma FinishRanked(orig: seq<int>, buf: seq<int>, e: Extents, updater: SparseCell<int> -> int,
                     curr: SparseCell<int>, covered: set<Indices>,
                     popped: set<SparseCell<int>>, done: set<Indices>, queue: seq<SparseCell<int>>)
    requires RankedAround(orig, buf, e, updater, curr, covered, popped, done, queue)
    requires forall p :: Adjacent(curr.position, p) ==> p in covered
    ensures Ranked(orig, buf, e, updater, curr.value, popped + {curr}, done + {curr.position}, queue)
  {
  }

  /** With the queue empty, every expanded cell has been popped, so the order holds around all of them. */
  lemma {:induction false} EmptyRanked(orig: seq<int>, buf: seq<int>, e: Extents, updater: SparseCell<int> -> int,
                                       seeds: seq<SparseCell<int>>, top: int, popped: set<SparseCell<int>>, done: set<Indices>)
    requires Ranked(orig, buf, e, updater, top, popped, done, []) && Tracked(orig, buf, e, seeds, popped, [])
    ensures ExpandsInOrder(orig, buf, e, seeds, updater)
  {
    forall c, p | Expanded(orig, buf, e, seeds, c) && Adjacent(c.position, p) && Changed(orig, buf, e, p)
      ensures buf[LinearIndex(e, p)] >= updater(c)
    {
      if c !in seeds {
        assert SparseCell(buf[LinearIndex(e, c.position)], c.position) == c;
      }
      assert c in popped;
    }
  }

  /** The nine offsets the column range yields cover the whole 3x3 block. */
  lemma {:induction false} OffsetsCoverBlock(offsets: seq<Indices>, center: Indices, p: Indices)
    requires |offsets| == 9 && forall k :: 0 <= k < 9 ==> offsets[k] == ColPoint(Neighbourhood(), k)
    requires Adjacent(center, p)
    ensures exists k :: 0 <= k < 9 && Add(center, offsets[k]) == p
  {
    var d := Sub(p, center);
    assert Neighbourhood().Within(d);
    ColPointCovers(Neighbourhood(), d);
    var k := LinearIndex(Coord(3, 3), Sub(d, Coord(-1, -1)));
    assert Add(center, offsets[k]) == p;
  }

  // ---------------------------------------------------------------------
  // The seeded fill
  // ---------------------------------------------------------------------

  /**
   * One pass of the `for` loop over the 3x3 block around the popped seed
   * `curr`: every accepted cell gets `next`, the updater's value for
   * `curr`, and is pushed as a new seed.  Afterwards `curr`'s position
   * counts as done, and the fill's invariants hold again.
   */
  method ScanNeighbourhood(g: Grid, curr: SparseCell<int>, next: int, queue0: seq<SparseCell<int>>,
                           ghost orig: seq<int>, ghost seeds: seq<SparseCell<int>>,
                           updater: SparseCell<int> -> int, validator: SparseCell<int> -> bool,
                           ghost processed: set<Indices>, ghost poppedBefore: set<SparseCell<int>>,
                           ghost popped: set<SparseCell<int>>, ghost ordered: bool, ghost depth0: map<Indices, nat>)
    returns (queue: seq<SparseCell<int>>, ghost depth: map<Indices, nat>)
    requires g.Valid() && next == updater(curr)
    requires forall c: SparseCell<int>, p: Indices :: !validator(SparseCell(updater(c), p))
    requires Around(orig, g.data[..], g.extents, validator, seeds, processed, curr.position, {}, queue0)
    requires Sourced(orig, g.data[..], g.extents, seeds, updater)
    requires Reachable(orig, g.data[..], g.extents, validator, seeds, depth0)
    requires Tracked(orig, g.data[..], g.extents, seeds, popped, queue0) && popped == poppedBefore + {curr}
    requires ordered ==> OrderedUpdater(updater, seeds)
    requires ordered ==> RankedAround(orig, g.data[..], g.extents, updater, curr, {}, poppedBefore, processed, queue0)
    modifies g.data
    ensures Between(orig, g.data[..], g.extents, validator, seeds, processed + {curr.position}, queue)
    ensures Sourced(orig, g.data[..], g.extents, seeds, updater)
    ensures Reachable(orig, g.data[..], g.extents, validator, seeds, depth)
    ensures Tracked(orig, g.data[..], g.extents, seeds, popped, queue)
    ensures ordered ==> Ranked(orig, g.data[..], g.extents, updater, curr.value, popped, processed + {curr.position}, queue)
    ensures |queue0| <= |queue|
    ensures |OpenCells(g.data[..], g.extents, validator)| + |queue|
            == |OpenCells(old(g.data[..]), g.extents, validator)| + |queue0|
  {
    var e := g.extents;
    ghost var openBefore := |OpenCells(g.data[..], e, validator)|;
    queue := queue0;
    depth := depth0;
    var offsets := ColRange(Neighbourhood());
    ghost var covered: set<Indices> := {};
    for k := 0 to |offsets|
      invariant Around(orig, g.data[..], e, validator, seeds, processed, curr.position, covered, queue)
      invariant Sourced(orig, g.data[..], e, seeds, updater)
      invariant Reachable(orig, g.data[..], e, validator, seeds, depth)
      invariant Tracked(orig, g.data[..], e, seeds, popped, queue)
      invariant ordered ==> RankedAround(orig, g.data[..], e, updater, curr, covered, poppedBefore, processed, queue)
      invariant forall j :: 0 <= j < k ==> Add(curr.position, offsets[j]) in covered
      invariant |queue0| <= |queue|
      invariant |OpenCells(g.data[..], e, validator)| + |queue| == openBefore + |queue0|
    {
      var pos := Add(curr.position, offsets[k]);
      GridWithinIsInExtents(g, pos);
      if g.Within(pos) && validator(SparseCell(g.Get(pos), pos)) {
        ghost var buf := g.data[..];
        assert Expanded(orig, buf, e, seeds, curr);
        ghost var d: nat := if curr in seeds then 0 else depth[curr.position] + 1;
        queue := queue + [SparseCell(next, pos)];
        g.Set(pos, next);
        WritePosition(orig, buf, g.data[..], e, validator, seeds, processed, curr.position, covered, queue[..|queue| - 1], pos, next);
        ColPointWithin(Neighbourhood(), k);
        WriteSourced(orig, buf, g.data[..], e, validator, seeds, updater, pos, curr);
        WriteReached(orig, buf, g.data[..], e, validator, seeds, depth, curr, d, pos, next);
        depth := depth[pos := d];
        WriteTracked(orig, buf, g.data[..], e, validator, seeds, popped, queue[..|queue| - 1], pos, next);
        if ordered {
          WriteRanked(orig, buf, g.data[..], e, validator, updater, seeds, curr, covered, poppedBefore, processed,
                      queue[..|queue| - 1], pos);
        }
      } else {
        SkipPosition(orig, g.data[..], e, validator, seeds, processed, curr.position, covered, queue, pos);
        if ordered {
          SkipRanked(orig, g.data[..], e, updater, seeds, curr, covered, poppedBefore, processed, queue, pos);
        }
      }
      ghost var before := covered;
      covered := covered + {pos};
      assert forall j :: 0 <= j < k + 1 ==> Add(curr.position, offsets[j]) in before || j == k;
    }
    forall p | Adjacent(curr.position, p)
      ensures p in covered
    {
      OffsetsCoverBlock(offsets, curr.position, p);
    }
    FinishSeed(orig, g.data[..], e, validator, seeds, processed, curr.position, covered, queue);
    if ordered {
      FinishRanked(orig, g.data[..], e, updater, curr, covered, poppedBefore, processed, queue);
    }
  }

  /**
   * `flood_fill(grid, first, last, value_updater, expansion_validator)`.
   * Termination is proved under the hypothesis that the validator rejects
   * every value the updater produces, so that each write closes one
   * accepted cell for good.  The hypothesis is sufficient, not necessary:
   * the library stops on other inputs too, and need not stop on some (a
   * validator that accepts every value).
   */
  method FloodFill(g: Grid, seeds: seq<SparseCell<int>>,
                   updater: SparseCell<int> -> int, validator: SparseCell<int> -> bool)
    requires g.Valid()
    requires forall c: SparseCell<int>, p: Indices :: !validator(SparseCell(updater(c), p))
    modifies g.data
    ensures IsFloodFill(old(g.data[..]), g.data[..], g.extents, seeds, updater, validator)
    ensures OrderedUpdater(updater, seeds) ==> ExpandsInOrder(old(g.data[..]), g.data[..], g.extents, seeds, updater)
  {
    var e := g.extents;
    ghost var orig := g.data[..];
    ghost var processed: set<Indices> := {};
    ghost var ordered := OrderedUpdater(updater, seeds);
    ghost var popped: set<SparseCell<int>> := {};
    ghost var top := MaxValue(seeds);
    ghost var depth: map<Indices, nat> := map[];
    var queue := seeds;
    StartFill(orig, e, validator, seeds);
    StartTracked(orig, e, seeds);
    if ordered {
      StartRanked(orig, e, updater, seeds);
    }
    while queue != []
      invariant Between(orig, g.data[..], e, validator, seeds, processed, queue)
      invariant Sourced(orig, g.data[..], e, seeds, updater)
      invariant Reachable(orig, g.data[..], e, validator, seeds, depth)
      invariant Tracked(orig, g.data[..], e, seeds, popped, queue)
      invariant ordered ==> Ranked(orig, g.data[..], e, updater, top, popped, processed, queue)
      decreases |OpenCells(g.data[..], e, validator)|, |queue|
    {
      ghost var openBefore := |OpenCells(g.data[..], e, validator)|;
      ghost var queueBefore := |queue|;
      var m := MaxIndex(queue);
      var curr := queue[m];
      PopSeed(orig, g.data[..], e, validator, seeds, processed, queue, m);
      PopTracked(orig, g.data[..], e, seeds, popped, queue, m);
      if ordered {
        PopRanked(orig, g.data[..], e, updater, seeds, top, popped, processed, queue, m);
      }
      queue := queue[..m] + queue[m + 1..];
      ghost var poppedBefore := popped;
      popped := popped + {curr};
      var next := updater(curr);
      queue, depth := ScanNeighbourhood(g, curr, next, queue, orig, seeds, updater, validator, processed,
                                        poppedBefore, popped, ordered, depth);
      processed := processed + {curr.position};
      top := curr.value;
    }
    EmptyQueueIsFloodFill(orig, g.data[..], e, updater, validator, seeds, processed, depth);
    if ordered {
      EmptyRanked(orig, g.data[..], e, updater, seeds, top, popped, processed);
    }
  }

  // ---------------------------------------------------------------------
  // The generator overload
  // ---------------------------------------------------------------------

  /**
   * The seeds collected from the first `n` cells in iteration order (x
   * innermost): each cell whose value the generator accepts, paired with
   * its position.
   */
  function SeedsUpTo(buf: seq<int>, e: Extents, generator: int -> bool, n: int): (r: seq<SparseCell<int>>)
    requires AllGe(e, Zero()) && 0 <= n <= Area(e) <= |buf|
    ensures |r| <= n
    ensures forall j :: 0 <= j < |r| ==>
              InExtents(e, r[j].position) && 0 <= LinearIndex(e, r[j].position) < n
              && r[j].value == buf[LinearIndex(e, r[j].position)] && generator(r[j].value)
    ensures forall i :: 0 <= i < n && generator(buf[i]) ==> SparseCell(buf[i], PointOfIndex(e, i)) in r
    ensures forall j, k :: 0 <= j < k < |r| ==> LinearIndex(e, r[j].position) < LinearIndex(e, r[k].position)
  {
    if n == 0 then []
    else
      var r := SeedsUpTo(buf, e, generator, n - 1);
      PointOfIndexInExtents(e, n - 1);
      if generator(buf[n - 1]) then r + [SparseCell(buf[n - 1], PointOfIndex(e, n - 1))] else r
  }

  /**
   * The seed-collection loop of the generator overload: a `ColViewIterator`
   * over the whole grid, keeping `SparseCell{*itr, itr.coords()}` for each
   * cell the generator accepts.
   */
  method CollectSeeds(g: Grid, generator: int -> bool) returns (seeds: seq<SparseCell<int>>)
    requires g.Valid() && (0 < g.extents.x || g.extents.y == 0)
    ensures seeds == SeedsUpTo(g.data[..], g.extents, generator, Area(g.extents))
  {
    var e := g.extents;
    seeds := [];
    if e.x == 0 {
      return;
    }
    var view := g.WholeView();
    var it := new ColViewIterator(view, Zero());
    ghost var k := 0;
    PointOfIndexAtEnd(e, 0);
    while !it.AtEnd()
      invariant 0 <= k <= Area(e)
      invariant it.view == view && it.pt == PointOfIndex(e, k)
      invariant seeds == SeedsUpTo(g.data[..], e, generator, k)
      decreases Area(e) - k
    {
      PointOfIndexAtEnd(e, k);
      assert view.Index(it.pt) == k;
      var v := it.Get();
      if generator(v) {
        seeds := seeds + [SparseCell(v, it.Coords())];
      }
      PointOfIndexSucc(e, k);
      it.Increment();
      k := k + 1;
    }
    PointOfIndexAtEnd(e, k);
  }

  /**
   * `flood_fill(grid, seed_generator, value_updater, expansion_validator)`:
   * collects the seeds in iteration order, then runs the seeded fill,
   * under the same termination hypothesis as `FloodFill`.
   */
  method FloodFillGenerated(g: Grid, generator: int -> bool,
                            updater: SparseCell<int> -> int, validator: SparseCell<int> -> bool)
    requires g.Valid() && (0 < g.extents.x || g.extents.y == 0)
    requires forall c: SparseCell<int>, p: Indices :: !validator(SparseCell(updater(c), p))
    modifies g.data
    ensures IsFloodFill(old(g.data[..]), g.data[..], g.extents,
                        SeedsUpTo(old(g.data[..]), g.extents, generator, Area(g.extents)), updater, validator)
    ensures OrderedUpdater(updater, SeedsUpTo(old(g.data[..]), g.extents, generator, Area(g.extents))) ==>
              ExpandsInOrder(old(g.data[..]), g.data[..], g.extents,
                             SeedsUpTo(old(g.data[..]), g.extents, generator, Area(g.extents)), updater)
  {
    var seeds := CollectSeeds(g, generator);
    FloodFill(g, seeds, updater, validator);
  }

  // ---------------------------------------------------------------------
  // The descending fill of the library's tests
  // ---------------------------------------------------------------------

  /** The test's generator: a cell with a positive value is a seed. */
  predicate IsPositive(v: int)
  {
    v > 0
  }

  /** The test's updater: one less than the seed's value, but at least 1. */
  function Descend(c: SparseCell<int>): (v: int)
    ensures v >= 1 && (c.value >= 2 ==> v == c.value - 1)
  {
    if c.value - 1 > 1 then c.value - 1 else 1
  }

  /** The test's validator: only a zero cell may be filled. */
  predicate IsZero(c: SparseCell<int>)
  {
    c.value == 0
  }

  /** The grid-sized box distance between two positions. */
  function Distance(p: Indices, q: Indices): nat
  {
    var dx := if p.x < q.x then q.x - p.x else p.x - q.x;
    var dy := if p.y < q.y then q.y - p.y else p.y - q.y;
    if dx < dy then dy else dx
  }

  /**
   * A zero-filling flood fill from every positive cell of a grid with no
   * negative cell reaches every cell connected to a seed; on a grid, that
   * is every cell: none is left at zero, and as the updater never goes
   * below 1, every cell ends at least 1.
   */
  lemma {:induction false} ZeroFillReaches(before: seq<int>, after: seq<int>, e: Extents, s: Indices, p: Indices)
    requires AllGe(e, Zero()) && Area(e) <= |before|
    requires forall i :: 0 <= i < |before| ==> 0 <= before[i]
    requires IsFloodFill(before, after, e, SeedsUpTo(before, e, IsPositive, Area(e)), Descend, IsZero)
    requires InExtents(e, s) && 0 <= LinearIndex(e, s) < |before| && before[LinearIndex(e, s)] != 0
    requires InExtents(e, p)
    ensures 0 <= LinearIndex(e, p) < |after| && after[LinearIndex(e, p)] >= 1
    decreases Distance(p, s)
  {
    LinearIndexInRange(e, p);
    var seeds := SeedsUpTo(before, e, IsPositive, Area(e));
    // the neighbour `q` of `p` one step closer to `s`, or `p` itself once `s` is reached
    var q := if p == s then s
             else Coord(if p.x < s.x then p.x + 1 else if p.x > s.x then p.x - 1 else p.x,
                        if p.y < s.y then p.y + 1 else if p.y > s.y then p.y - 1 else p.y);
    LinearIndexInRange(e, q);
    if q != p {
      ZeroFillReaches(before, after, e, s, q);
    }
    assert Adjacent(q, p);
    if Changed(before, after, e, q) {
      assert !Open(after, e, IsZero, p);
    } else {
      var i := LinearIndex(e, q);
      assert IsPositive(before[i]);
      PointOfLinearIndex(e, q);
      assert SparseCell(before[i], q) in seeds;
      assert !Open(after, e, IsZero, p);
    }
    if Changed(before, after, e, p) {
      var c: SparseCell<int> :| Adjacent(c.position, p) && after[LinearIndex(e, p)] == Descend(c);
    }
  }

  /** The test grid's extents: 10 by 10. */
  const TestExtents: Extents := Coord(10, 10)

  /** The box distance from `p` to the central 2x2 block at (4..5, 4..5). */
  function BlockDistance(p: Indices): nat
  {
    var dx := if p.x < 4 then 4 - p.x else if p.x > 5 then p.x - 5 else 0;
    var dy := if p.y < 4 then 4 - p.y else if p.y > 5 then p.y - 5 else 0;
    if dx < dy then dy else dx
  }

  /** The test's starting grid: 10 in the central block, 0 everywhere else. */
  ghost predicate CenterBlock(before: seq<int>)
  {
    && |before| == Area(TestExtents)
    && forall p :: InExtents(TestExtents, p) ==>
         before[LinearIndex(TestExtents, p)] == if BlockDistance(p) == 0 then 10 else 0
  }

  /** The seeds the test's fill starts from: the positive cells, in buffer order. */
  function CenterSeeds(before: seq<int>): seq<SparseCell<int>>
    requires |before| == Area(TestExtents)
  {
    SeedsUpTo(before, TestExtents, IsPositive, Area(TestExtents))
  }

  /** The greatest value of a sequence (0 for none). */
  function SeqMax(s: seq<int>): (m: int)
    ensures forall i :: 0 <= i < |s| ==> s[i] <= m
  {
    if s == [] then 0
    else
      var r := SeqMax(s[1..]);
      assert forall i :: 1 <= i < |s| ==> s[i] == s[1..][i - 1];
      if s[0] < r then r else s[0]
  }

  /** The descending updater only lowers the positive seeds and its own values, and is monotone. */
  lemma DescendIsOrdered(before: seq<int>)
    requires |before| == Area(TestExtents)
    ensures OrderedUpdater(Descend, CenterSeeds(before))
  {
    var seeds := CenterSeeds(before);
    forall s | s in seeds
      ensures Descend(s) <= s.value
    {
      var j :| 0 <= j < |seeds| && seeds[j] == s;
    }
  }

  /** A block cell of the test grid is one of its seeds, with value 10. */
  lemma {:induction false} BlockCellIsSeed(before: seq<int>, q: Indices)
    requires CenterBlock(before) && InExtents(TestExtents, q) && BlockDistance(q) == 0
    ensures SparseCell(10, q) in CenterSeeds(before)
  {
    PointOfLinearIndex(TestExtents, q);
    var i := LinearIndex(TestExtents, q);
    assert before[i] == 10;
  }

  /** A cell of the filled test grid holding a positive value is an expanded cell: a block seed or a changed cell. */
  lemma {:induction false} PositiveCellExpanded(before: seq<int>, after: seq<int>, q: Indices)
    requires CenterBlock(before)
    requires IsFloodFill(before, after, TestExtents, CenterSeeds(before), Descend, IsZero)
    requires InExtents(TestExtents, q) && after[LinearIndex(TestExtents, q)] > 0
    ensures Expanded(before, after, TestExtents, CenterSeeds(before), SparseCell(after[LinearIndex(TestExtents, q)], q))
  {
    var e := TestExtents;
    if BlockDistance(q) == 0 {
      assert !Changed(before, after, e, q);
      BlockCellIsSeed(before, q);
    } else {
      assert Changed(before, after, e, q);
    }
  }

  /** A cell outside the block next to an expanded cell has been filled. */
  lemma {:induction false} NextToExpandedChanged(before: seq<int>, after: seq<int>, c: SparseCell<int>, p: Indices)
    requires CenterBlock(before)
    requires IsFloodFill(before, after, TestExtents, CenterSeeds(before), Descend, IsZero)
    requires Expanded(before, after, TestExtents, CenterSeeds(before), c) && Adjacent(c.position, p)
    requires InExtents(TestExtents, p) && BlockDistance(p) > 0
    ensures Changed(before, after, TestExtents, p)
  {
    var e := TestExtents;
    if c !in CenterSeeds(before) {
      assert Changed(before, after, e, c.position);
    }
    assert !Open(after, e, IsZero, p);
  }

  /**
   * Lower bound: after the descending fill of the test grid, every cell
   * holds at least 10 less its distance to the block.  The step from the
   * neighbour one closer to the block needs the max-first order: that
   * neighbour was expanded, so the cell holds at least one less.
   */
  lemma {:induction false} FillLowerBound(before: seq<int>, after: seq<int>, p: Indices)
    requires CenterBlock(before)
    requires IsFloodFill(before, after, TestExtents, CenterSeeds(before), Descend, IsZero)
    requires ExpandsInOrder(before, after, TestExtents, CenterSeeds(before), Descend)
    requires InExtents(TestExtents, p)
    ensures after[LinearIndex(TestExtents, p)] >= 10 - BlockDistance(p)
    decreases BlockDistance(p)
  {
    var e := TestExtents;
    if BlockDistance(p) == 0 {
      assert !Changed(before, after, e, p);
    } else {
      var q := Coord(if p.x < 4 then p.x + 1 else if p.x > 5 then p.x - 1 else p.x,
                     if p.y < 4 then p.y + 1 else if p.y > 5 then p.y - 1 else p.y);
      assert BlockDistance(q) == BlockDistance(p) - 1 && Adjacent(q, p) && InExtents(e, q);
      FillLowerBound(before, after, q);
      var c := SparseCell(after[LinearIndex(e, q)], q);
      PositiveCellExpanded(before, after, q);
      NextToExpandedChanged(before, after, c, p);
      assert after[LinearIndex(e, p)] >= Descend(c);
    }
  }

  /** One step changes the distance to the block by at most one. */
  lemma AdjacentDistance(q: Indices, p: Indices)
    requires Adjacent(q, p)
    ensures BlockDistance(p) <= BlockDistance(q) + 1
  {
  }

  /** Every seed of the test grid is a block cell holding 10. */
  lemma {:induction false} SeedIsBlockCell(before: seq<int>, c: SparseCell<int>)
    requires CenterBlock(before) && c in CenterSeeds(before)
    ensures c.value == 10 && BlockDistance(c.position) == 0
  {
    var seeds := CenterSeeds(before);
    var j :| 0 <= j < |seeds| && seeds[j] == c;
  }

  /**
   * Upper bound: every cell holds at most 10 less its distance to the
   * block.  A changed cell holds `Descend` of an expanded neighbour, which
   * is a seed of the block or a changed cell holding a greater value.
   */
  lemma {:induction false} FillUpperBound(before: seq<int>, after: seq<int>, p: Indices)
    requires CenterBlock(before)
    requires IsFloodFill(before, after, TestExtents, CenterSeeds(before), Descend, IsZero)
    requires InExtents(TestExtents, p)
    ensures after[LinearIndex(TestExtents, p)] <= 10 - BlockDistance(p)
    decreases SeqMax(after) - after[LinearIndex(TestExtents, p)]
  {
    var e := TestExtents;
    var seeds := CenterSeeds(before);
    if Changed(before, after, e, p) {
      var c: SparseCell<int> :| Expanded(before, after, e, seeds, c) && Adjacent(c.position, p)
                                && after[LinearIndex(e, p)] == Descend(c);
      AdjacentDistance(c.position, p);
      if c.value <= 1 {
      } else if c in seeds {
        SeedIsBlockCell(before, c);
      } else {
        assert Changed(before, after, e, c.position) && after[LinearIndex(e, c.position)] == c.value;
        FillUpperBound(before, after, c.position);
      }
    }
  }

  /** The filled test grid holds exactly 10 less the distance to the block in every cell. */
  lemma FilledTestGrid(before: seq<int>, after: seq<int>)
    requires CenterBlock(before)
    requires IsFloodFill(before, after, TestExtents, CenterSeeds(before), Descend, IsZero)
    requires ExpandsInOrder(before, after, TestExtents, CenterSeeds(before), Descend)
    ensures |after| == Area(TestExtents)
    ensures forall p :: InExtents(TestExtents, p) ==>
              0 <= LinearIndex(TestExtents, p) < |after| && after[LinearIndex(TestExtents, p)] == 10 - BlockDistance(p)
  {
    forall p | InExtents(TestExtents, p)
      ensures 0 <= LinearIndex(TestExtents, p) < |after| && after[LinearIndex(TestExtents, p)] == 10 - BlockDistance(p)
    {
      FillLowerBound(before, after, p);
      FillUpperBound(before, after, p);
    }
  }

  /** Zeros with 10 written at offsets 45, 54, 44 and 55 are the test's starting grid. */
  lemma CenterGridIsCenterBlock(zeros: seq<int>, before: seq<int>)
    requires |zeros| == Area(TestExtents) && forall i :: 0 <= i < |zeros| ==> zeros[i] == 0
    requires before == zeros[45 := 10][54 := 10][44 := 10][55 := 10]
    ensures CenterBlock(before)
  {
    forall p | InExtents(TestExtents, p)
      ensures before[LinearIndex(TestExtents, p)] == if BlockDistance(p) == 0 then 10 else 0
    {
      var i := LinearIndex(TestExtents, p);
      assert before[i] == if i == 44 || i == 45 || i == 54 || i == 55 then 10 else 0;
    }
  }

  /** The fill the test runs, on its starting grid: every cell ends at 10 less its distance to the block. */
  method FillCenterBlock(g: Grid)
    requires g.Valid() && g.extents == TestExtents && CenterBlock(g.data[..])
    modifies g.data
    ensures g.Valid() && g.extents == TestExtents
    ensures forall p :: InExtents(TestExtents, p) ==>
              0 <= LinearIndex(TestExtents, p) < g.data.Length && g.data[LinearIndex(TestExtents, p)] == 10 - BlockDistance(p)
  {
    ghost var before := g.data[..];
    DescendIsOrdered(before);
    FloodFillGenerated(g, IsPositive, Descend, IsZero);
    FilledTestGrid(before, g.data[..]);
  }

  /**
   * The descending fill from the centre: a 10x10 grid of zeros with the
   * 2x2 block at (4..5, 4..5) set to 10, filled from its positive cells
   * with the descending updater into zero cells, ends with every cell at
   * 10 less its distance to the block: 9 in the ring around it, down to 6
   * in the four corners.
   */
  method DescendingFillFromCenter() returns (g: Grid)
    ensures g.Valid() && g.extents == TestExtents
    ensures forall p :: InExtents(g.extents, p) ==>
              0 <= g.Index(p) < g.data.Length && g.Get(p) == 10 - BlockDistance(p)
    ensures g.Get(Coord(0, 0)) == 6 && g.Get(Coord(0, 9)) == 6 && g.Get(Coord(9, 0)) == 6 && g.Get(Coord(9, 9)) == 6
  {
    g := new Grid(TestExtents);
    assert g.data[..] == g.Cells();
    ghost var zeros := g.data[..];
    g.Set(Coord(5, 4), 10);
    g.Set(Coord(4, 5), 10);
    g.Set(Coord(4, 4), 10);
    g.Set(Coord(5, 5), 10);
    CenterGridIsCenterBlock(zeros, g.data[..]);
    FillCenterBlock(g);
    forall p | InExtents(g.extents, p)
      ensures 0 <= g.Index(p) < g.data.Length && g.Get(p) == 10 - BlockDistance(p)
    {
    }
    assert InExtents(g.extents, Coord(0, 0)) && InExtents(g.extents, Coord(0, 9));
    assert InExtents(g.extents, Coord(9, 0)) && InExtents(g.extents, Coord(9, 9));
  }
}

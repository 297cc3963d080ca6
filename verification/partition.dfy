/**
 Static work partitioning (`partition`, gol.c): the extent along one axis is
 cut into `nthreads` contiguous blocks whose sizes differ by at most one; the
 first `length % nthreads` workers get the larger blocks. The other axis is
 always given whole.
 */
module Partition {
  import opened Board

  /** Which axis is split among the workers (`part_type`: 0 rows, otherwise columns). */
  datatype Orientation = ByRows | ByCols

  /** The program treats any non-zero `part_type` as a column split. */
  function OrientationOf(partType: int): (o: Orientation)
    ensures o == ByCols <==> partType != 0
  {
    if partType != 0 then ByCols else ByRows
  }

  /** A half-open range `[start, end)` along the split axis. */
  datatype Range = Range(start: int, end: int) {
    function Size(): int { end - start }
    predicate Contains(x: int) { start <= x < end }
  }

  /**
   Worker `id`'s share of `length` indices, following the three branches of the
   program: no remainder, a worker below the remainder, a worker at or above it.
   */
  function Chunk(length: nat, nthreads: nat, id: nat): (r: Range)
    requires 1 <= nthreads && id < nthreads
    ensures r.Size() == if id < length % nthreads then length / nthreads + 1 else length / nthreads
    ensures 0 <= r.start <= r.end <= length
  {
    var chunk := length / nthreads;
    var remainder := length % nthreads;
    ChunkStartBound(length, nthreads, id);
    if remainder == 0 then
      Range(id * chunk, id * chunk + chunk)
    else if id < remainder then
      Range(id * chunk + id, id * chunk + id + chunk + 1)
    else
      Range(id * chunk + remainder, id * chunk + remainder + chunk)
  }

  /** Arithmetic behind the bounds of `Chunk`: `id + 1` whole chunks fit in the divisible part. */
  lemma ChunkStartBound(length: nat, nthreads: nat, id: nat)
    requires 1 <= nthreads && id < nthreads
    ensures 0 <= id * (length / nthreads)
    ensures id * (length / nthreads) + length / nthreads <= length - length % nthreads
  {
    var chunk := length / nthreads;
    assert length - length % nthreads == nthreads * chunk;
    MulLeMonotone(id + 1, nthreads, chunk);
    assert (id + 1) * chunk == id * chunk + chunk;
  }

  /** Worker 0's block starts at the beginning of the extent. */
  lemma FirstChunkStartsAtZero(length: nat, nthreads: nat)
    requires 1 <= nthreads
    ensures Chunk(length, nthreads, 0).start == 0
  {
  }

  /** Each block ends exactly where the next worker's block starts. */
  lemma ChunksAdjacent(length: nat, nthreads: nat, id: nat)
    requires 1 <= nthreads && id + 1 < nthreads
    ensures Chunk(length, nthreads, id).end == Chunk(length, nthreads, id + 1).start
  {
    var chunk := length / nthreads;
    assert (id + 1) * chunk == id * chunk + chunk;
  }

  /** The last worker's block ends at the end of the extent. */
  lemma LastChunkEndsAtLength(length: nat, nthreads: nat)
    requires 1 <= nthreads
    ensures Chunk(length, nthreads, nthreads - 1).end == length
  {
    var chunk := length / nthreads;
    assert length == nthreads * chunk + length % nthreads;
    assert (nthreads - 1) * chunk + chunk == nthreads * chunk;
  }

  /** Block sizes differ by at most one, whatever the worker count. */
  lemma ChunkSizesBalanced(length: nat, nthreads: nat, id1: nat, id2: nat)
    requires 1 <= nthreads && id1 < nthreads && id2 < nthreads
    ensures -1 <= Chunk(length, nthreads, id1).Size() - Chunk(length, nthreads, id2).Size() <= 1
    ensures id1 < id2 ==> Chunk(length, nthreads, id1).Size() >= Chunk(length, nthreads, id2).Size()
  {
  }

  /** With more workers than indices, the surplus workers get empty blocks at the end. */
  lemma SurplusWorkersIdle(length: nat, nthreads: nat, id: nat)
    requires 1 <= nthreads && id < nthreads && length <= id
    ensures Chunk(length, nthreads, id).start == Chunk(length, nthreads, id).end == length
  {
    DivUnique(length, nthreads, 0, length);
  }

  /** Blocks are laid out in worker order: an earlier worker's block ends before a later one's starts. */
  lemma {:induction false} ChunksOrdered(length: nat, nthreads: nat, id1: nat, id2: nat)
    requires 1 <= nthreads && id1 < id2 < nthreads
    ensures Chunk(length, nthreads, id1).end <= Chunk(length, nthreads, id2).start
    decreases id2 - id1
  {
    ChunksAdjacent(length, nthreads, id1);
    if id1 + 1 < id2 {
      ChunksOrdered(length, nthreads, id1 + 1, id2);
    }
  }

  /** The worker whose block contains `x`, searching upward from worker `id`. */
  function OwnerFrom(length: nat, nthreads: nat, x: int, id: nat): (o: nat)
    requires 1 <= nthreads && id < nthreads
    requires Chunk(length, nthreads, id).start <= x < length
    ensures id <= o < nthreads
    ensures Chunk(length, nthreads, o).Contains(x)
    decreases nthreads - id
  {
    if x < Chunk(length, nthreads, id).end then
      id
    else
      NextChunkReaches(length, nthreads, id, x);
      OwnerFrom(length, nthreads, x, id + 1)
  }

  /** An index past the end of worker `id`'s block lies at or after the start of the next worker's block. */
  lemma NextChunkReaches(length: nat, nthreads: nat, id: nat, x: int)
    requires 1 <= nthreads && id < nthreads
    requires Chunk(length, nthreads, id).end <= x < length
    ensures id + 1 < nthreads && Chunk(length, nthreads, id + 1).start <= x
  {
    if id + 1 == nthreads {
      LastChunkEndsAtLength(length, nthreads);
    } else {
      ChunksAdjacent(length, nthreads, id);
    }
  }

  /** The worker responsible for index `x` of the split axis. */
  function Owner(length: nat, nthreads: nat, x: int): (o: nat)
    requires 1 <= nthreads && 0 <= x < length
    ensures o < nthreads && Chunk(length, nthreads, o).Contains(x)
  {
    FirstChunkStartsAtZero(length, nthreads);
    OwnerFrom(length, nthreads, x, 0)
  }

  /**
   Coverage and disjointness: every index of `[0, length)` lies in the block
   of exactly one worker.
   */
  lemma ChunkContainsIffOwner(length: nat, nthreads: nat, id: nat, x: int)
    requires 1 <= nthreads && id < nthreads && 0 <= x < length
    ensures Chunk(length, nthreads, id).Contains(x) <==> id == Owner(length, nthreads, x)
  {
    var o := Owner(length, nthreads, x);
    if id < o {
      ChunksOrdered(length, nthreads, id, o);
    } else if o < id {
      ChunksOrdered(length, nthreads, o, id);
    }
  }

  /** Two different workers never share an index. */
  lemma ChunksDisjoint(length: nat, nthreads: nat, id1: nat, id2: nat, x: int)
    requires 1 <= nthreads && id1 < nthreads && id2 < nthreads && id1 != id2
    ensures !(Chunk(length, nthreads, id1).Contains(x) && Chunk(length, nthreads, id2).Contains(x))
  {
    if id1 < id2 {
      ChunksOrdered(length, nthreads, id1, id2);
    } else {
      ChunksOrdered(length, nthreads, id2, id1);
    }
  }

  /** The inclusive bounds a worker stores: rows `rowStart..rowEnd`, columns `colStart..colEnd`. */
  datatype Bounds = Bounds(rowStart: int, rowEnd: int, colStart: int, colEnd: int) {
    predicate Owns(i: int, j: int) {
      rowStart <= i <= rowEnd && colStart <= j <= colEnd
    }

    /** The loops `for i in rowStart..rowEnd, j in colStart..colEnd` stay inside the grid. */
    predicate Within(rows: nat, cols: nat) {
      0 <= rowStart && rowEnd < rows && 0 <= colStart && colEnd < cols
    }
  }

  /** The extent that `orient` splits. */
  function SplitLength(rows: nat, cols: nat, orient: Orientation): nat {
    if orient == ByCols then cols else rows
  }

  /**
   Worker `id`'s bounds: its block along the split axis, stored with inclusive
   ends (`end - 1`), and the whole of the other axis.
   */
  function WorkerBounds(rows: nat, cols: nat, nthreads: nat, orient: Orientation, id: nat): (b: Bounds)
    requires 1 <= nthreads && id < nthreads
    ensures orient == ByRows ==> b.colStart == 0 && b.colEnd == cols - 1
    ensures orient == ByCols ==> b.rowStart == 0 && b.rowEnd == rows - 1
    ensures orient == ByRows ==>
      b.rowStart == Chunk(rows, nthreads, id).start && b.rowEnd + 1 == Chunk(rows, nthreads, id).end
    ensures orient == ByCols ==>
      b.colStart == Chunk(cols, nthreads, id).start && b.colEnd + 1 == Chunk(cols, nthreads, id).end
  {
    var r := Chunk(SplitLength(rows, cols, orient), nthreads, id);
    if orient == ByCols then
      Bounds(0, rows - 1, r.start, r.end - 1)
    else
      Bounds(r.start, r.end - 1, 0, cols - 1)
  }

  /** The worker that computes cell (i, j). */
  function CellOwner(rows: nat, cols: nat, nthreads: nat, orient: Orientation, i: int, j: int): (o: nat)
    requires 1 <= nthreads && InGrid(rows, cols, i, j)
    ensures o < nthreads
  {
    if orient == ByCols then Owner(cols, nthreads, j) else Owner(rows, nthreads, i)
  }

  /**
   The workers' bounds tile the grid: cell (i, j) lies inside worker `id`'s
   bounds exactly when `id` is the cell's owner, for either orientation.
   */
  lemma OwnsIffCellOwner(rows: nat, cols: nat, nthreads: nat, orient: Orientation, id: nat, i: int, j: int)
    requires 1 <= nthreads && id < nthreads && InGrid(rows, cols, i, j)
    ensures WorkerBounds(rows, cols, nthreads, orient, id).Owns(i, j)
            <==> id == CellOwner(rows, cols, nthreads, orient, i, j)
  {
    if orient == ByCols {
      ChunkContainsIffOwner(cols, nthreads, id, j);
    } else {
      ChunkContainsIffOwner(rows, nthreads, id, i);
    }
  }

  /** Every worker's bounds stay inside the grid. */
  lemma WorkerBoundsWithin(rows: nat, cols: nat, nthreads: nat, orient: Orientation, id: nat)
    requires 1 <= nthreads && id < nthreads
    ensures WorkerBounds(rows, cols, nthreads, orient, id).Within(rows, cols)
  {
  }
}

/**
 One round of the simulation (`play_step`, gol.c) without the threads: every
 worker writes the next state of its own cells into the second buffer, reading
 only the first; then the two buffers trade places. Run one worker after the
 other, the workers together compute exactly one full-grid step, whatever
 their number and the axis they split.
 */
module Round {
  import opened Board
  import opened Partition
  import opened Rules
  import opened Slices

  /** The next state of the cell stored in slot `k`. */
  function NextAtSlot(g: seq<int>, rows: nat, cols: nat, k: int): int
    requires |g| == rows * cols && 0 <= k < rows * cols
  {
    NextState(g, rows, cols, RowOf(rows, cols, k), ColOf(rows, cols, k))
  }

  /**
   Slots `0 .. n - 1` of the next generation, one `is_alive` value per slot.
   The per-slot fact is stated for the slots a proof names explicitly.
   */
  function StepPrefix(g: seq<int>, rows: nat, cols: nat, n: nat): (p: seq<int>)
    requires |g| == rows * cols && n <= rows * cols
    ensures |p| == n
    ensures forall k {:trigger NextAtSlot(g, rows, cols, k)} :: 0 <= k < n ==> p[k] == NextAtSlot(g, rows, cols, k)
    decreases n
  {
    if n == 0 then [] else StepPrefix(g, rows, cols, n - 1) + [NextAtSlot(g, rows, cols, n - 1)]
  }

  /** The next generation of the whole grid: every cell's `is_alive` value. */
  function Step(g: seq<int>, rows: nat, cols: nat): (g': seq<int>)
    requires |g| == rows * cols
    ensures |g'| == rows * cols
    ensures forall i, j {:trigger NextState(g, rows, cols, i, j)} :: InGrid(rows, cols, i, j) ==>
      g'[Index(rows, cols, i, j)] == NextState(g, rows, cols, i, j)
  {
    CellSlotRoundTrip(rows, cols);
    var p := StepPrefix(g, rows, cols, rows * cols);
    assert forall i, j :: InGrid(rows, cols, i, j) ==>
      p[Index(rows, cols, i, j)] == NextAtSlot(g, rows, cols, Index(rows, cols, i, j));
    p
  }

  /** Whatever the buffer held, the next generation holds only 0 and 1. */
  lemma StepIsBoard(g: seq<int>, rows: nat, cols: nat)
    requires |g| == rows * cols
    ensures IsBoard(Step(g, rows, cols), rows, cols)
  {
    var g' := Step(g, rows, cols);
    forall k | 0 <= k < |g'|
      ensures g'[k] == 0 || g'[k] == 1
    {
      SlotCellRoundTrip(rows, cols, k);
      assert g'[k] == NextState(g, rows, cols, RowOf(rows, cols, k), ColOf(rows, cols, k));
    }
  }

  /**
   The compute loop of `play_step` as written: for i in `rowStart..rowEnd` and
   j in `colStart..colEnd` (inclusive) store `is_alive(i, j)` at `i * cols + j`
   of the second buffer. Only `arr` is read; nothing outside the bounds is written.
   */
  method ComputeBounds(arr: seq<int>, arr2: seq<int>, rows: nat, cols: nat, b: Bounds) returns (out: seq<int>)
    requires |arr| == rows * cols && |arr2| == rows * cols
    requires b.Within(rows, cols)
    ensures |out| == rows * cols
    ensures forall i, j :: InGrid(rows, cols, i, j) ==>
      out[Index(rows, cols, i, j)] == if b.Owns(i, j) then NextState(arr, rows, cols, i, j) else arr2[Index(rows, cols, i, j)]
  {
    out := arr2;
    var i := b.rowStart;
    while i < b.rowEnd + 1
      invariant b.rowStart <= i && (b.rowStart <= b.rowEnd + 1 ==> i <= b.rowEnd + 1)
      invariant |out| == rows * cols
      invariant forall p, q :: InGrid(rows, cols, p, q) ==>
        out[Index(rows, cols, p, q)] == if b.Owns(p, q) && p < i then NextState(arr, rows, cols, p, q) else arr2[Index(rows, cols, p, q)]
    {
      var j := b.colStart;
      while j < b.colEnd + 1
        invariant b.colStart <= j && (b.colStart <= b.colEnd + 1 ==> j <= b.colEnd + 1)
        invariant |out| == rows * cols
        invariant forall p, q :: InGrid(rows, cols, p, q) ==>
          out[Index(rows, cols, p, q)] ==
            if b.Owns(p, q) && (p < i || (p == i && q < j)) then NextState(arr, rows, cols, p, q) else arr2[Index(rows, cols, p, q)]
      {
        var v := IsAlive(arr, rows, cols, i, j);
        var k := Index(rows, cols, i, j);
        forall p, q | InGrid(rows, cols, p, q) && (p != i || q != j)
          ensures Index(rows, cols, p, q) != k
        {
          IndexInjective(rows, cols, p, q, i, j);
        }
        out := out[k := v];
        j := j + 1;
      }
      i := i + 1;
    }
  }

  /** The bounds of workers `0 .. nthreads - 1`, in worker order. */
  function Workers(rows: nat, cols: nat, nthreads: nat, orient: Orientation): (bs: seq<Bounds>)
    requires 1 <= nthreads
    ensures |bs| == nthreads
    ensures forall id :: 0 <= id < nthreads ==> bs[id] == WorkerBounds(rows, cols, nthreads, orient, id)
  {
    seq(nthreads, id requires 0 <= id < nthreads => WorkerBounds(rows, cols, nthreads, orient, id))
  }

  /**
   The workers' slices together overwrite the whole second buffer with the new
   generation, for every worker count and either orientation, whatever the
   buffer held before.
   */
  lemma WorkersCoverGrid(next: seq<int>, buf: seq<int>, rows: nat, cols: nat, nthreads: nat, orient: Orientation)
    requires |next| == rows * cols && |buf| == rows * cols
    requires 1 <= nthreads
    ensures ApplySlices(next, buf, rows, cols, Workers(rows, cols, nthreads, orient)) == next
  {
    var bs := Workers(rows, cols, nthreads, orient);
    forall i, j | InGrid(rows, cols, i, j)
      ensures Covered(bs, i, j)
    {
      var o := CellOwner(rows, cols, nthreads, orient, i, j);
      OwnsIffCellOwner(rows, cols, nthreads, orient, o, i, j);
      assert bs[o].Owns(i, j);
    }
    CoveringSlicesComplete(next, buf, rows, cols, bs);
  }

  /**
   The game state shared by the workers: the dimensions, the current
   generation `arr` and the scratch buffer `arr2` the next one is written to.
   */
  datatype Game = Game(rows: nat, cols: nat, arr: seq<int>, arr2: seq<int>) {
    predicate Valid() {
      |arr| == rows * cols && |arr2| == rows * cols
    }
  }

  /** One round: all workers write their cells' next states into `arr2`, then the buffers are exchanged. */
  function Round(s: Game, nthreads: nat, orient: Orientation): (r: Game)
    requires s.Valid() && 1 <= nthreads
    ensures r.Valid() && r.rows == s.rows && r.cols == s.cols
  {
    var next := Step(s.arr, s.rows, s.cols);
    var written := ApplySlices(next, s.arr2, s.rows, s.cols, Workers(s.rows, s.cols, nthreads, orient));
    Game(s.rows, s.cols, written, s.arr)
  }

  /**
   After a round the current buffer holds the next generation and the scratch
   buffer holds the generation before it.
   */
  lemma RoundIsStep(s: Game, nthreads: nat, orient: Orientation)
    requires s.Valid() && 1 <= nthreads
    ensures Round(s, nthreads, orient).arr == Step(s.arr, s.rows, s.cols)
    ensures Round(s, nthreads, orient).arr2 == s.arr
  {
    WorkersCoverGrid(Step(s.arr, s.rows, s.cols), s.arr2, s.rows, s.cols, nthreads, orient);
  }

  /** Determinism across worker counts: any two partitionings give the same round. */
  lemma RoundIndependentOfWorkers(s: Game, n1: nat, o1: Orientation, n2: nat, o2: Orientation)
    requires s.Valid() && 1 <= n1 && 1 <= n2
    ensures Round(s, n1, o1) == Round(s, n2, o2)
  {
    RoundIsStep(s, n1, o1);
    RoundIsStep(s, n2, o2);
  }

  /**
   `play_step` run sequentially: each worker's compute loop in turn, then the
   exchange of the two buffer pointers through `temp_arr`.
   */
  method PlayStep(s: Game, nthreads: nat, orient: Orientation) returns (r: Game)
    requires s.Valid() && 1 <= nthreads
    ensures r.Valid() && r.rows == s.rows && r.cols == s.cols
    ensures r.arr == Step(s.arr, s.rows, s.cols)
    ensures r.arr2 == s.arr
  {
    ghost var next := Step(s.arr, s.rows, s.cols);
    ghost var bs := Workers(s.rows, s.cols, nthreads, orient);
    var arr2 := s.arr2;
    var id := 0;
    while id < nthreads
      invariant 0 <= id <= nthreads
      invariant arr2 == ApplySlices(next, s.arr2, s.rows, s.cols, bs[..id])
    {
      var b := WorkerBounds(s.rows, s.cols, nthreads, orient, id);
      WorkerBoundsWithin(s.rows, s.cols, nthreads, orient, id);
      var written := ComputeBounds(s.arr, arr2, s.rows, s.cols, b);
      SameSlice(next, arr2, s.rows, s.cols, b, written);
      assert bs[..id + 1][..id] == bs[..id] && bs[..id + 1][id] == b;
      arr2 := written;
      id := id + 1;
    }
    assert bs[..nthreads] == bs;
    WorkersCoverGrid(next, s.arr2, s.rows, s.cols, nthreads, orient);
    var temp := s.arr;
    r := Game(s.rows, s.cols, arr2, temp);
  }

  /** The generation `t` rounds after `g`. */
  function Generation(g: seq<int>, rows: nat, cols: nat, t: nat): (h: seq<int>)
    requires |g| == rows * cols
    ensures |h| == rows * cols
  {
    if t == 0 then g else Step(Generation(g, rows, cols, t - 1), rows, cols)
  }

  /**
   The round loop of `play_gol`, round `played + 1` being played while
   `played` rounds are done (rounds 1 .. iters): afterwards `arr` holds
   generation `iters` and `arr2` generation `iters - 1`, for every worker count
   and orientation.
   */
  method PlayGol(s: Game, iters: nat, nthreads: nat, orient: Orientation) returns (r: Game)
    requires s.Valid() && 1 <= nthreads
    ensures r.Valid() && r.rows == s.rows && r.cols == s.cols
    ensures r.arr == Generation(s.arr, s.rows, s.cols, iters)
    ensures r.arr2 == if iters == 0 then s.arr2 else Generation(s.arr, s.rows, s.cols, iters - 1)
  {
    r := s;
    var played: nat := 0;
    while played < iters
      invariant played <= iters
      invariant r.Valid() && r.rows == s.rows && r.cols == s.cols
      invariant r.arr == Generation(s.arr, s.rows, s.cols, played)
      invariant r.arr2 == if played == 0 then s.arr2 else Generation(s.arr, s.rows, s.cols, played - 1)
    {
      r := PlayStep(r, nthreads, orient);
      played := played + 1;
    }
    assert played == iters;
    ghost var current := r.arr;
    assert current == Generation(s.arr, s.rows, s.cols, played);
  }
}

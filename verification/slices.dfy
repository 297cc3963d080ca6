/**
 Workers that each write the cells inside their own bounds of a shared,
 row-major buffer, one after the other. Both passes of the program over a
 worker's bounds (the compute loop of `play_step` and the paint loops of
 `update_grid`) have this shape; the buffer's element type is left open.
 */
module Slices {
  import opened Board
  import opened Partition

  /**
   One worker's pass over a buffer: the cells inside `b` receive their value
   from `next`, every other slot of `buf` is left as it was.
   */
  function ComputeSlice<T>(next: seq<T>, buf: seq<T>, rows: nat, cols: nat, b: Bounds): (out: seq<T>)
    requires |next| == rows * cols && |buf| == rows * cols
    ensures |out| == rows * cols
    ensures forall i, j :: InGrid(rows, cols, i, j) ==>
      out[Index(rows, cols, i, j)] == if b.Owns(i, j) then next[Index(rows, cols, i, j)] else buf[Index(rows, cols, i, j)]
  {
    CellSlotRoundTrip(rows, cols);
    seq(rows * cols, k requires 0 <= k < rows * cols =>
      if b.Owns(RowOf(rows, cols, k), ColOf(rows, cols, k)) then next[k] else buf[k])
  }

  /** A buffer that agrees cell by cell with `ComputeSlice` is that slice. */
  lemma SameSlice<T>(next: seq<T>, buf: seq<T>, rows: nat, cols: nat, b: Bounds, out: seq<T>)
    requires |next| == rows * cols && |buf| == rows * cols && |out| == rows * cols
    requires forall i, j :: InGrid(rows, cols, i, j) ==>
      out[Index(rows, cols, i, j)] == if b.Owns(i, j) then next[Index(rows, cols, i, j)] else buf[Index(rows, cols, i, j)]
    ensures out == ComputeSlice(next, buf, rows, cols, b)
  {
    EqualByCells(rows, cols, out, ComputeSlice(next, buf, rows, cols, b));
  }

  /** The buffer after the workers with bounds `bs` have each made their pass in turn. */
  function ApplySlices<T>(next: seq<T>, buf: seq<T>, rows: nat, cols: nat, bs: seq<Bounds>): (out: seq<T>)
    requires |next| == rows * cols && |buf| == rows * cols
    ensures |out| == rows * cols
  {
    if |bs| == 0 then buf
    else ComputeSlice(next, ApplySlices(next, buf, rows, cols, bs[..|bs| - 1]), rows, cols, bs[|bs| - 1])
  }

  /** Some worker of `bs` has cell (i, j) inside its bounds. */
  predicate Covered(bs: seq<Bounds>, i: int, j: int) {
    exists w :: 0 <= w < |bs| && bs[w].Owns(i, j)
  }

  /**
   After the workers `bs` ran, a cell holds its new value when one of them
   covers it and is untouched otherwise: no worker writes outside its bounds.
   */
  lemma {:induction false} ApplySlicesCell<T>(next: seq<T>, buf: seq<T>, rows: nat, cols: nat, bs: seq<Bounds>, i: int, j: int)
    requires |next| == rows * cols && |buf| == rows * cols && InGrid(rows, cols, i, j)
    ensures ApplySlices(next, buf, rows, cols, bs)[Index(rows, cols, i, j)]
        == if Covered(bs, i, j) then next[Index(rows, cols, i, j)] else buf[Index(rows, cols, i, j)]
    decreases |bs|
  {
    if |bs| > 0 {
      var init, last := bs[..|bs| - 1], bs[|bs| - 1];
      ApplySlicesCell(next, buf, rows, cols, init, i, j);
      assert Covered(bs, i, j) <==> Covered(init, i, j) || last.Owns(i, j) by {
        if Covered(init, i, j) {
          var w :| 0 <= w < |init| && init[w].Owns(i, j);
          assert bs[w] == init[w];
        }
        if Covered(bs, i, j) && !last.Owns(i, j) {
          var w :| 0 <= w < |bs| && bs[w].Owns(i, j);
          assert init[w] == bs[w];
        }
      }
    }
  }

  /**
   Workers whose bounds cover every cell of the grid leave the whole buffer
   equal to `next`, whatever it held before.
   */
  lemma CoveringSlicesComplete<T>(next: seq<T>, buf: seq<T>, rows: nat, cols: nat, bs: seq<Bounds>)
    requires |next| == rows * cols && |buf| == rows * cols
    requires forall i, j :: InGrid(rows, cols, i, j) ==> Covered(bs, i, j)
    ensures ApplySlices(next, buf, rows, cols, bs) == next
  {
    var out := ApplySlices(next, buf, rows, cols, bs);
    forall i, j | InGrid(rows, cols, i, j)
      ensures out[Index(rows, cols, i, j)] == next[Index(rows, cols, i, j)]
    {
      ApplySlicesCell(next, buf, rows, cols, bs, i, j);
    }
    EqualByCells(rows, cols, out, next);
  }
}

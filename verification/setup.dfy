/**
 Building the initial boards (`init_game_data_from_args`, gol.c) once the
 header and the coordinate lines have been read: both buffers are zero-filled,
 then every listed coordinate (r, c) sets slot `r * cols + c` of the first
 buffer to 1. No coordinate is checked against the grid.
 */
module Setup {
  import opened Board

  /** One coordinate line of the input file: row `r`, column `c`. */
  datatype Coord = Coord(r: int, c: int)

  /** The slot the program writes for a coordinate, `r * cols + c`, computed without any range check. */
  function Slot(cols: nat, p: Coord): int {
    p.r * cols + p.c
  }

  /** Every write stays inside the buffer: the program's only demand on the coordinates. */
  predicate WritesInBuffer(rows: nat, cols: nat, coords: seq<Coord>) {
    forall n :: 0 <= n < |coords| ==> 0 <= Slot(cols, coords[n]) < rows * cols
  }

  /** One of the first `n` coordinates is written to slot `k`. */
  predicate ListedBefore(cols: nat, coords: seq<Coord>, n: int, k: int) {
    exists m :: 0 <= m < n && m < |coords| && Slot(cols, coords[m]) == k
  }

  /** The first buffer as the coordinate list leaves it: 1 at every written slot, 0 elsewhere. */
  function ListedBoard(rows: nat, cols: nat, coords: seq<Coord>): (g: seq<int>)
    ensures IsBoard(g, rows, cols)
  {
    seq(rows * cols, k => if ListedBefore(cols, coords, |coords|, k) then 1 else 0)
  }

  /**
   The board-building part of `init_game_data_from_args`: zero both buffers,
   then mark each listed coordinate alive. A coordinate may be listed more
   than once; its slot is simply written again.
   */
  method InitBoards(rows: nat, cols: nat, coords: seq<Coord>) returns (arr: seq<int>, arr2: seq<int>)
    requires WritesInBuffer(rows, cols, coords)
    ensures IsBoard(arr, rows, cols)
    ensures arr2 == Zeros(rows * cols)
    ensures forall k :: 0 <= k < rows * cols ==> (arr[k] == 1 <==> ListedBefore(cols, coords, |coords|, k))
    ensures arr == ListedBoard(rows, cols, coords)
  {
    arr := [];
    var i := 0;
    while i < rows * cols
      invariant 0 <= i <= rows * cols
      invariant arr == Zeros(i)
    {
      arr := arr + [0];
      i := i + 1;
    }
    arr2 := [];
    i := 0;
    while i < rows * cols
      invariant 0 <= i <= rows * cols
      invariant arr2 == Zeros(i)
    {
      arr2 := arr2 + [0];
      i := i + 1;
    }
    var n := 0;
    while n < |coords|
      invariant 0 <= n <= |coords|
      invariant |arr| == rows * cols
      invariant forall k :: 0 <= k < rows * cols ==> arr[k] == if ListedBefore(cols, coords, n, k) then 1 else 0
    {
      var k := Slot(cols, coords[n]);
      arr := arr[k := 1];
      forall x | 0 <= x < rows * cols
        ensures ListedBefore(cols, coords, n + 1, x) <==> ListedBefore(cols, coords, n, x) || x == k
      {
        if ListedBefore(cols, coords, n + 1, x) && x != k {
          var m :| 0 <= m < n + 1 && m < |coords| && Slot(cols, coords[m]) == x;
          assert m < n;
        }
      }
      n := n + 1;
    }
  }

  /**
   For coordinates inside the grid, the first buffer holds 1 at cell (i, j)
   exactly when (i, j) was listed, and 0 at every other cell.
   */
  lemma InitMarksListedCells(rows: nat, cols: nat, coords: seq<Coord>, arr: seq<int>, i: int, j: int)
    requires forall n :: 0 <= n < |coords| ==> InGrid(rows, cols, coords[n].r, coords[n].c)
    requires |arr| == rows * cols
    requires forall k :: 0 <= k < rows * cols ==> (arr[k] == 1 <==> ListedBefore(cols, coords, |coords|, k))
    requires InGrid(rows, cols, i, j)
    ensures arr[Index(rows, cols, i, j)] == 1 <==> Coord(i, j) in coords
  {
    var k := Index(rows, cols, i, j);
    if ListedBefore(cols, coords, |coords|, k) {
      var m :| 0 <= m < |coords| && Slot(cols, coords[m]) == k;
      IndexInjective(rows, cols, coords[m].r, coords[m].c, i, j);
      assert coords[m] == Coord(i, j);
    }
    if Coord(i, j) in coords {
      var m :| 0 <= m < |coords| && coords[m] == Coord(i, j);
      assert Slot(cols, coords[m]) == k;
    }
  }

  /** In-grid coordinates always keep their writes inside the buffer. */
  lemma InGridWritesInBuffer(rows: nat, cols: nat, coords: seq<Coord>)
    requires forall n :: 0 <= n < |coords| ==> InGrid(rows, cols, coords[n].r, coords[n].c)
    ensures WritesInBuffer(rows, cols, coords)
  {
    forall n | 0 <= n < |coords|
      ensures 0 <= Slot(cols, coords[n]) < rows * cols
    {
      IndexInRange(rows, cols, coords[n].r, coords[n].c);
    }
  }

  /**
   Without the range check a column past the right edge lands on the next
   row: in any grid, coordinate (r, c) with `cols <= c < 2 * cols` marks cell
   (r + 1, c - cols), as long as that row exists.
   */
  lemma OverlongColumnWrapsToNextRow(rows: nat, cols: nat, r: int, c: int)
    requires 0 <= r && r + 1 < rows && cols <= c < 2 * cols
    ensures 0 <= Slot(cols, Coord(r, c)) < rows * cols
    ensures Slot(cols, Coord(r, c)) == Index(rows, cols, r + 1, c - cols)
  {
    var k := Index(rows, cols, r + 1, c - cols);
    assert k == (r + 1) * cols + (c - cols);
    assert (r + 1) * cols == r * cols + cols;
  }
}

/**
 The rule engine (`is_alive`, gol.c): a walk over the 3x3 block around a cell
 on a torus, a nested if/else tree that wraps each axis on its own, the cell
 itself subtracted from the block's count, and the B3/S23 rule of Life.
 */
module Rules {
  import opened Board

  /** An offset of the 3x3 block: both components in -1..1. */
  predicate IsOffset(i: int, j: int) {
    -1 <= i <= 1 && -1 <= j <= 1
  }

  /**
   The slot the wrap tree reads for offset (i, j) from cell (row, col). The
   branches follow the program's tree: right edge crossed, left edge crossed,
   neither; inside each, top edge crossed, bottom edge crossed, neither.
   */
  function TreeIndex(rows: nat, cols: nat, row: int, col: int, i: int, j: int): (k: nat)
    requires InGrid(rows, cols, row, col) && IsOffset(i, j)
    ensures k < rows * cols
  {
    if col + j < cols then
      if col + j >= 0 then
        if row + i >= 0 then
          if row + i < rows then Index(rows, cols, row + i, col + j)
          else Index(rows, cols, 0, col + j)
        else Index(rows, cols, rows - 1, col + j)
      else
        if row + i >= 0 then
          if row + i < rows then Index(rows, cols, row + i, cols - 1)
          else Index(rows, cols, 0, cols - 1)
        else Index(rows, cols, rows - 1, cols - 1)
    else
      if row + i >= 0 then
        if row + i < rows then Index(rows, cols, row + i, 0)
        else Index(rows, cols, 0, 0)
      else Index(rows, cols, rows - 1, 0)
  }

  /** One step past either edge folds back onto the torus as `x mod n`. */
  lemma WrapIsMod(n: nat, x: int)
    requires 1 <= n && -1 <= x <= n
    ensures 0 <= x % n < n
    ensures x == -1 ==> x % n == n - 1
    ensures x == n ==> x % n == 0
    ensures 0 <= x < n ==> x % n == x
  {
    if x == -1 {
      DivUnique(x, n, -1, n - 1);
    } else if x == n {
      DivUnique(x, n, 1, 0);
    } else {
      DivUnique(x, n, 0, x);
    }
  }

  /**
   Every slot the tangled tree reads is the plain toroidal neighbour:
   `((row + i) mod rows) * cols + ((col + j) mod cols)`, inside the buffer.
   */
  lemma TreeIndexIsTorus(rows: nat, cols: nat, row: int, col: int, i: int, j: int)
    requires InGrid(rows, cols, row, col) && IsOffset(i, j)
    ensures InGrid(rows, cols, (row + i) % rows, (col + j) % cols)
    ensures TreeIndex(rows, cols, row, col, i, j) == Index(rows, cols, (row + i) % rows, (col + j) % cols)
  {
    WrapIsMod(rows, row + i);
    WrapIsMod(cols, col + j);
  }

  /** 1 if the slot holds a live cell (the program compares with 1), 0 otherwise. */
  function LiveAt(g: seq<int>, k: int): int
    requires 0 <= k < |g|
  {
    if g[k] == 1 then 1 else 0
  }

  /** Whether the tree reads a live cell at offset (i, j). */
  function TreeLive(g: seq<int>, rows: nat, cols: nat, row: int, col: int, i: int, j: int): int
    requires |g| == rows * cols && InGrid(rows, cols, row, col) && IsOffset(i, j)
  {
    LiveAt(g, TreeIndex(rows, cols, row, col, i, j))
  }

  /** Live slots read in row `i` of the block for the first `n` column offsets (j = -1 .. n - 2). */
  function RowCount(g: seq<int>, rows: nat, cols: nat, row: int, col: int, i: int, n: nat): int
    requires |g| == rows * cols && InGrid(rows, cols, row, col) && -1 <= i <= 1 && n <= 3
  {
    if n == 0 then 0
    else RowCount(g, rows, cols, row, col, i, n - 1) + TreeLive(g, rows, cols, row, col, i, n - 2)
  }

  /** Live slots read in the first `m` rows of the block (i = -1 .. m - 2), all columns. */
  function BlockCount(g: seq<int>, rows: nat, cols: nat, row: int, col: int, m: nat): int
    requires |g| == rows * cols && InGrid(rows, cols, row, col) && m <= 3
  {
    if m == 0 then 0
    else BlockCount(g, rows, cols, row, col, m - 1) + RowCount(g, rows, cols, row, col, m - 2, 3)
  }

  /** Whether the cell at offset (di, dj) on the torus, found with `mod` on each axis, is live. */
  function TorusLive(g: seq<int>, rows: nat, cols: nat, row: int, col: int, di: int, dj: int): int
    requires |g| == rows * cols && InGrid(rows, cols, row, col)
  {
    var r, c := (row + di) % rows, (col + dj) % cols;
    if g[Index(rows, cols, r, c)] == 1 then 1 else 0
  }

  /**
   Reference count: the live cells among the eight Moore neighbours of
   (row, col) on the torus, counted with multiplicity (on a small grid several
   offsets can land on the same cell).
   */
  function MooreCount(g: seq<int>, rows: nat, cols: nat, row: int, col: int): int
    requires |g| == rows * cols && InGrid(rows, cols, row, col)
  {
    TorusLive(g, rows, cols, row, col, -1, -1) + TorusLive(g, rows, cols, row, col, -1, 0)
    + TorusLive(g, rows, cols, row, col, -1, 1) + TorusLive(g, rows, cols, row, col, 0, -1)
    + TorusLive(g, rows, cols, row, col, 0, 1) + TorusLive(g, rows, cols, row, col, 1, -1)
    + TorusLive(g, rows, cols, row, col, 1, 0) + TorusLive(g, rows, cols, row, col, 1, 1)
  }

  /** The count `is_alive` ends with: the whole block minus the cell's own value. */
  function NeighbourCount(g: seq<int>, rows: nat, cols: nat, row: int, col: int): int
    requires |g| == rows * cols && InGrid(rows, cols, row, col)
  {
    BlockCount(g, rows, cols, row, col, 3) - g[Index(rows, cols, row, col)]
  }

  /** One row of the block walk, term by term. */
  lemma RowCountUnfolded(g: seq<int>, rows: nat, cols: nat, row: int, col: int, i: int)
    requires |g| == rows * cols && InGrid(rows, cols, row, col) && -1 <= i <= 1
    ensures RowCount(g, rows, cols, row, col, i, 3)
            == TreeLive(g, rows, cols, row, col, i, -1) + TreeLive(g, rows, cols, row, col, i, 0)
             + TreeLive(g, rows, cols, row, col, i, 1)
  {
    assert RowCount(g, rows, cols, row, col, i, 1) == TreeLive(g, rows, cols, row, col, i, -1);
  }

  /** The whole block walk, term by term. */
  lemma BlockCountUnfolded(g: seq<int>, rows: nat, cols: nat, row: int, col: int)
    requires |g| == rows * cols && InGrid(rows, cols, row, col)
    ensures BlockCount(g, rows, cols, row, col, 3)
            == TreeLive(g, rows, cols, row, col, -1, -1) + TreeLive(g, rows, cols, row, col, -1, 0)
             + TreeLive(g, rows, cols, row, col, -1, 1) + TreeLive(g, rows, cols, row, col, 0, -1)
             + TreeLive(g, rows, cols, row, col, 0, 0) + TreeLive(g, rows, cols, row, col, 0, 1)
             + TreeLive(g, rows, cols, row, col, 1, -1) + TreeLive(g, rows, cols, row, col, 1, 0)
             + TreeLive(g, rows, cols, row, col, 1, 1)
  {
    RowCountUnfolded(g, rows, cols, row, col, -1);
    RowCountUnfolded(g, rows, cols, row, col, 0);
    RowCountUnfolded(g, rows, cols, row, col, 1);
    assert BlockCount(g, rows, cols, row, col, 1) == RowCount(g, rows, cols, row, col, -1, 3);
  }

  /** The tree reads the same slot as the `mod` formula, so both see the same cell. */
  lemma TreeLiveIsTorusLive(g: seq<int>, rows: nat, cols: nat, row: int, col: int, i: int, j: int)
    requires |g| == rows * cols && InGrid(rows, cols, row, col) && IsOffset(i, j)
    ensures TreeLive(g, rows, cols, row, col, i, j) == TorusLive(g, rows, cols, row, col, i, j)
  {
    TreeIndexIsTorus(rows, cols, row, col, i, j);
  }

  /**
   On a board of dead (0) and live (1) cells, the count the tree walk leaves
   after subtracting the cell equals the live cells among its eight Moore
   neighbours under toroidal wrap-around.
   */
  lemma NeighbourCountIsMoore(g: seq<int>, rows: nat, cols: nat, row: int, col: int)
    requires IsBoard(g, rows, cols) && InGrid(rows, cols, row, col)
    ensures NeighbourCount(g, rows, cols, row, col) == MooreCount(g, rows, cols, row, col)
    ensures 0 <= NeighbourCount(g, rows, cols, row, col) <= 8
  {
    BlockCountUnfolded(g, rows, cols, row, col);
    forall i, j | IsOffset(i, j)
      ensures TreeLive(g, rows, cols, row, col, i, j) == TorusLive(g, rows, cols, row, col, i, j)
    {
      TreeLiveIsTorusLive(g, rows, cols, row, col, i, j);
    }
    WrapIsMod(rows, row);
    WrapIsMod(cols, col);
    var k := Index(rows, cols, row, col);
    assert TorusLive(g, rows, cols, row, col, 0, 0) == LiveAt(g, k);
    assert g[k] == 0 || g[k] == 1;
  }

  /** The transition of `is_alive`: a non-zero cell survives on 2 or 3, a zero cell is born on 3. */
  function Rule(cell: int, count: int): (r: int)
    ensures r == 0 || r == 1
  {
    if cell != 0 then
      if count < 2 || count > 3 then 0 else 1
    else
      if count == 3 then 1 else 0
  }

  /** The value `is_alive` returns for (row, col), reading only `g`. */
  function NextState(g: seq<int>, rows: nat, cols: nat, row: int, col: int): (r: int)
    requires |g| == rows * cols && InGrid(rows, cols, row, col)
    ensures r == 0 || r == 1
  {
    Rule(g[Index(rows, cols, row, col)], NeighbourCount(g, rows, cols, row, col))
  }

  /**
   The standard Life rule B3/S23 against the reference neighbour count: a live
   cell stays alive with 2 or 3 live neighbours, a dead cell comes alive with
   exactly 3, and every other cell is dead in the next generation.
   */
  lemma NextStateIsLife(g: seq<int>, rows: nat, cols: nat, row: int, col: int)
    requires IsBoard(g, rows, cols) && InGrid(rows, cols, row, col)
    ensures var alive := g[Index(rows, cols, row, col)] == 1;
            var n := MooreCount(g, rows, cols, row, col);
            NextState(g, rows, cols, row, col) == 1 <==> (alive && (n == 2 || n == 3)) || (!alive && n == 3)
  {
    NeighbourCountIsMoore(g, rows, cols, row, col);
    var k := Index(rows, cols, row, col);
    assert g[k] == 0 || g[k] == 1;
  }

  /**
   The counting half of `is_alive`: two nested loops over i, j in -1..1 that
   count the live slots read through the wrap tree, the cell itself included.
   */
  method CountBlock(g: seq<int>, rows: nat, cols: nat, row: int, col: int) returns (count: int)
    requires |g| == rows * cols && InGrid(rows, cols, row, col)
    ensures count == BlockCount(g, rows, cols, row, col, 3)
  {
    count := 0;
    var i := -1;
    while i < 2
      invariant -1 <= i <= 2
      invariant count == BlockCount(g, rows, cols, row, col, i + 1)
    {
      var j := -1;
      while j < 2
        invariant -1 <= j <= 2
        invariant count == BlockCount(g, rows, cols, row, col, i + 1) + RowCount(g, rows, cols, row, col, i, j + 1)
      {
        if g[TreeIndex(rows, cols, row, col, i, j)] == 1 {
          count := count + 1;
        }
        j := j + 1;
      }
      i := i + 1;
    }
  }

  /**
   `is_alive` as the program writes it: count the block, subtract the cell's
   own value, then apply the rule. It reads `g` and changes nothing.
   */
  method IsAlive(g: seq<int>, rows: nat, cols: nat, row: int, col: int) returns (result: int)
    requires |g| == rows * cols && InGrid(rows, cols, row, col)
    ensures result == NextState(g, rows, cols, row, col)
    ensures IsBoard(g, rows, cols) ==>
      var alive := g[Index(rows, cols, row, col)] == 1;
      var n := MooreCount(g, rows, cols, row, col);
      (result == 1 <==> (alive && (n == 2 || n == 3)) || (!alive && n == 3))
    ensures result == 0 || result == 1
  {
    var count := CountBlock(g, rows, cols, row, col);
    var cell := g[Index(rows, cols, row, col)];
    count := count - cell;
    if IsBoard(g, rows, cols) {
      NextStateIsLife(g, rows, cols, row, col);
    }
    if cell != 0 {
      if count < 2 || count > 3 {
        return 0;
      }
      return 1;
    } else {
      if count == 3 {
        return 1;
      }
      return 0;
    }
  }

  /** On a 1x1 torus every offset lands back on the one cell. */
  lemma OneByOneWraps(g: seq<int>, di: int, dj: int)
    requires |g| == 1 && IsOffset(di, dj)
    ensures TorusLive(g, 1, 1, 0, 0, di, dj) == (if g[0] == 1 then 1 else 0)
  {
    WrapIsMod(1, di);
    WrapIsMod(1, dj);
  }

  /** On a 1x1 torus every Moore offset lands on the one cell: a live cell sees 8 neighbours. */
  lemma SingleCellSeesItselfEightTimes(g: seq<int>)
    requires |g| == 1 && g[0] == 1
    ensures MooreCount(g, 1, 1, 0, 0) == 8
    ensures NeighbourCount(g, 1, 1, 0, 0) == 8
  {
    forall di, dj | IsOffset(di, dj)
      ensures TorusLive(g, 1, 1, 0, 0, di, dj) == 1
    {
      OneByOneWraps(g, di, dj);
    }
    assert IsBoard(g, 1, 1);
    NeighbourCountIsMoore(g, 1, 1, 0, 0);
  }
}

/**
 The board of the simulation: a flat, row-major buffer of `rows * cols` cells.
 A cell holds 1 when alive and 0 when dead; the buffers are plain `int`s, as in
 the C program, so the functions here do not assume more than they must.
 */
module Board {

  /** (i, j) names a cell of a `rows` by `cols` grid. */
  predicate InGrid(rows: int, cols: int, i: int, j: int) {
    0 <= i < rows && 0 <= j < cols
  }

  /** Flat position `i * cols + j` of cell (i, j); it lies inside the buffer. */
  function Index(rows: nat, cols: nat, i: int, j: int): (k: nat)
    requires InGrid(rows, cols, i, j)
    ensures k < rows * cols
  {
    IndexInRange(rows, cols, i, j);
    i * cols + j
  }

  lemma IndexInRange(rows: nat, cols: nat, i: int, j: int)
    requires InGrid(rows, cols, i, j)
    ensures 0 <= i * cols + j < rows * cols
  {
    assert i * cols <= (rows - 1) * cols by {
      MulLeMonotone(i, rows - 1, cols);
    }
    assert (rows - 1) * cols + cols == rows * cols;
  }

  lemma MulLeMonotone(a: int, b: int, c: nat)
    requires a <= b
    ensures a * c <= b * c
  {
  }

  lemma DivUnique(k: int, c: int, q: int, r: int)
    requires c > 0 && 0 <= r < c && k == q * c + r
    ensures k / c == q && k % c == r
  {
    var q', r' := k / c, k % c;
    assert (q - q') * c == r' - r;
    SmallMultipleIsZero(q - q', c);
  }

  lemma SmallMultipleIsZero(x: int, c: int)
    requires c > 0 && -c < x * c < c
    ensures x == 0
  {
    if x >= 1 {
      MulLeMonotone(1, x, c);
    } else if x <= -1 {
      MulLeMonotone(x, -1, c);
    }
  }

  /** How many whole rows of `cols` slots precede slot `k`: `k / cols`, one row at a time. */
  function PeelRow(cols: nat, k: nat): nat
    requires cols > 0
    decreases k
  {
    if k < cols then 0 else 1 + PeelRow(cols, k - cols)
  }

  /** The position of slot `k` inside its row: `k % cols`, one row at a time. */
  function PeelCol(cols: nat, k: nat): nat
    requires cols > 0
    decreases k
  {
    if k < cols then k else PeelCol(cols, k - cols)
  }

  /** Peeling rows is division with remainder. */
  lemma {:induction false} PeelDivMod(cols: nat, k: nat)
    requires cols > 0
    ensures k == PeelRow(cols, k) * cols + PeelCol(cols, k)
    ensures PeelCol(cols, k) < cols
    decreases k
  {
    if k >= cols {
      PeelDivMod(cols, k - cols);
      assert (1 + PeelRow(cols, k - cols)) * cols == cols + PeelRow(cols, k - cols) * cols;
    }
  }

  /** A slot inside a `rows` by `cols` buffer has a cell of the grid. */
  lemma SlotInGrid(rows: nat, cols: nat, k: int)
    requires 0 <= k < rows * cols
    ensures cols > 0
    ensures InGrid(rows, cols, PeelRow(cols, k), PeelCol(cols, k))
  {
    assert cols > 0;
    PeelDivMod(cols, k);
    var r := PeelRow(cols, k);
    if r >= rows {
      MulLeMonotone(rows, r, cols);
    }
  }

  /** The row of the cell stored in slot `k`. */
  function RowOf(rows: nat, cols: nat, k: int): (i: int)
    requires 0 <= k < rows * cols
    ensures 0 <= i < rows
  {
    SlotInGrid(rows, cols, k);
    PeelRow(cols, k)
  }

  /** The column of the cell stored in slot `k`. */
  function ColOf(rows: nat, cols: nat, k: int): (j: int)
    requires 0 <= k < rows * cols
    ensures 0 <= j < cols
  {
    SlotInGrid(rows, cols, k);
    PeelCol(cols, k)
  }

  /** Slot `k` and the cell (RowOf, ColOf) name each other. */
  lemma SlotCellRoundTrip(rows: nat, cols: nat, k: int)
    requires 0 <= k < rows * cols
    ensures Index(rows, cols, RowOf(rows, cols, k), ColOf(rows, cols, k)) == k
  {
    SlotInGrid(rows, cols, k);
    PeelDivMod(cols, k);
  }

  /** The row and column are recovered from the flat position. */
  lemma IndexRoundTrip(rows: nat, cols: nat, i: int, j: int)
    requires InGrid(rows, cols, i, j)
    ensures RowOf(rows, cols, Index(rows, cols, i, j)) == i
    ensures ColOf(rows, cols, Index(rows, cols, i, j)) == j
  {
    var k := Index(rows, cols, i, j);
    PeelDivMod(cols, k);
    var r, c := PeelRow(cols, k), PeelCol(cols, k);
    assert (r - i) * cols == j - c;
    SmallMultipleIsZero(r - i, cols);
  }

  /** Cell (i, j) round-trips through its slot, for every cell at once. */
  lemma CellSlotRoundTrip(rows: nat, cols: nat)
    ensures forall i, j :: InGrid(rows, cols, i, j) ==>
      RowOf(rows, cols, Index(rows, cols, i, j)) == i && ColOf(rows, cols, Index(rows, cols, i, j)) == j
  {
    forall i, j | InGrid(rows, cols, i, j)
      ensures RowOf(rows, cols, Index(rows, cols, i, j)) == i && ColOf(rows, cols, Index(rows, cols, i, j)) == j
    {
      IndexRoundTrip(rows, cols, i, j);
    }
  }

  /** Distinct cells occupy distinct slots. */
  lemma IndexInjective(rows: nat, cols: nat, i1: int, j1: int, i2: int, j2: int)
    requires InGrid(rows, cols, i1, j1) && InGrid(rows, cols, i2, j2)
    ensures Index(rows, cols, i1, j1) == Index(rows, cols, i2, j2) <==> i1 == i2 && j1 == j2
  {
    IndexRoundTrip(rows, cols, i1, j1);
    IndexRoundTrip(rows, cols, i2, j2);
  }

  /** Two buffers of the grid's size that agree on every cell are equal. */
  lemma EqualByCells<T>(rows: nat, cols: nat, a: seq<T>, b: seq<T>)
    requires |a| == rows * cols && |b| == rows * cols
    requires forall i, j :: InGrid(rows, cols, i, j) ==> a[Index(rows, cols, i, j)] == b[Index(rows, cols, i, j)]
    ensures a == b
  {
    forall k | 0 <= k < |a|
      ensures a[k] == b[k]
    {
      AgreeAt(rows, cols, a, b, k);
    }
  }

  lemma AgreeAt<T>(rows: nat, cols: nat, a: seq<T>, b: seq<T>, k: int)
    requires |a| == rows * cols && |b| == rows * cols && 0 <= k < |a|
    requires forall i, j :: InGrid(rows, cols, i, j) ==> a[Index(rows, cols, i, j)] == b[Index(rows, cols, i, j)]
    ensures a[k] == b[k]
  {
    SlotCellRoundTrip(rows, cols, k);
  }

  /** A well-formed generation: the grid's size, every cell dead (0) or alive (1). */
  predicate IsBoard(g: seq<int>, rows: nat, cols: nat) {
    |g| == rows * cols && forall k :: 0 <= k < |g| ==> g[k] == 0 || g[k] == 1
  }

  /** A buffer of `n` dead cells, as the program's zero-filling loops leave it. */
  function Zeros(n: nat): (z: seq<int>)
    ensures |z| == n
    ensures forall k :: 0 <= k < n ==> z[k] == 0
  {
    seq(n, k => 0)
  }

  /** The slots of `g` that hold a live cell. */
  ghost function LiveSlots(g: seq<int>): set<int> {
    set k | 0 <= k < |g| && g[k] == 1
  }

  /**
   The number of live cells, found by scanning the whole buffer.
   */
  function LiveCount(g: seq<int>): (n: nat)
    ensures n == |LiveSlots(g)|
    ensures n <= |g|
  {
    if |g| == 0 then
      assert LiveSlots(g) == {};
      0
    else
      var init := g[..|g| - 1];
      var n0 := LiveCount(init);
      assert LiveSlots(g) == LiveSlots(init) + (if g[|g| - 1] == 1 then {|g| - 1} else {});
      n0 + (if g[|g| - 1] == 1 then 1 else 0)
  }
}

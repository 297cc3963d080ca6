/**
 The colour frame (`update_grid`, gol.c): the image buffer stores its rows
 bottom-up, so grid cell (i, j) is painted at slot `(rows - (i + 1)) * cols + j`.
 Each worker first paints its cells purple, then repaints the live ones red.
 */
module Render {
  import opened Board
  import opened Partition
  import opened Slices

  /** One pixel of the image buffer (`color3`). */
  datatype Colour = Colour(r: int, g: int, b: int)

  const LiveColour := Colour(240, 0, 0)
  const DeadColour := Colour(80, 0, 80)

  /** The colour a cell ends up with: red when it holds 1, purple otherwise. */
  function CellColour(v: int): Colour {
    if v == 1 then LiveColour else DeadColour
  }

  /** The image slot of cell (i, j), computed as the program writes it. */
  function FlipIndex(rows: nat, cols: nat, i: int, j: int): int {
    (rows - (i + 1)) * cols + j
  }

  /** The cell of the grid shown in image row `rows - 1 - i`. */
  function Mirror(rows: nat, i: int): int {
    rows - 1 - i
  }

  /** The image slot of cell (i, j): the grid slot of the vertically mirrored cell. */
  function ImageSlot(rows: nat, cols: nat, i: int, j: int): (k: nat)
    requires InGrid(rows, cols, i, j)
    ensures k < rows * cols
  {
    Index(rows, cols, Mirror(rows, i), j)
  }

  /** The program's slot expression is the mirrored cell's grid slot, so it lies inside the image. */
  lemma FlipIsImageSlot(rows: nat, cols: nat, i: int, j: int)
    requires InGrid(rows, cols, i, j)
    ensures FlipIndex(rows, cols, i, j) == ImageSlot(rows, cols, i, j)
    ensures 0 <= FlipIndex(rows, cols, i, j) < rows * cols
  {
    assert (rows - (i + 1)) * cols == Mirror(rows, i) * cols;
  }

  /** Distinct cells are painted at distinct image slots. */
  lemma FlipInjective(rows: nat, cols: nat, i1: int, j1: int, i2: int, j2: int)
    requires InGrid(rows, cols, i1, j1) && InGrid(rows, cols, i2, j2)
    ensures FlipIndex(rows, cols, i1, j1) == FlipIndex(rows, cols, i2, j2) <==> i1 == i2 && j1 == j2
  {
    FlipIsImageSlot(rows, cols, i1, j1);
    FlipIsImageSlot(rows, cols, i2, j2);
    IndexInjective(rows, cols, Mirror(rows, i1), j1, Mirror(rows, i2), j2);
  }

  /** Every image slot shows exactly one cell: the flip is onto, with the mirrored cell as its inverse. */
  lemma FlipOnto(rows: nat, cols: nat, k: int)
    requires 0 <= k < rows * cols
    ensures InGrid(rows, cols, Mirror(rows, RowOf(rows, cols, k)), ColOf(rows, cols, k))
    ensures FlipIndex(rows, cols, Mirror(rows, RowOf(rows, cols, k)), ColOf(rows, cols, k)) == k
  {
    FlipIsImageSlot(rows, cols, Mirror(rows, RowOf(rows, cols, k)), ColOf(rows, cols, k));
    SlotCellRoundTrip(rows, cols, k);
  }

  /** Flipping twice returns to the grid's own layout. */
  lemma FlipInvolution(rows: nat, cols: nat, i: int, j: int)
    requires InGrid(rows, cols, i, j)
    ensures FlipIndex(rows, cols, Mirror(rows, i), j) == Index(rows, cols, i, j)
  {
    FlipIsImageSlot(rows, cols, Mirror(rows, i), j);
  }

  /**
   The finished image of generation `arr`: image row `rows - 1 - i` shows grid
   row i, each pixel coloured by its cell.
   */
  function Frame(arr: seq<int>, rows: nat, cols: nat): (f: seq<Colour>)
    requires |arr| == rows * cols
    ensures |f| == rows * cols
    ensures forall i, j :: InGrid(rows, cols, i, j) ==>
      f[ImageSlot(rows, cols, i, j)] == CellColour(arr[Index(rows, cols, i, j)])
  {
    CellSlotRoundTrip(rows, cols);
    seq(rows * cols, k requires 0 <= k < rows * cols =>
      CellColour(arr[ImageSlot(rows, cols, RowOf(rows, cols, k), ColOf(rows, cols, k))]))
  }

  /** The image rows a worker paints: its row range, mirrored. */
  function MirrorBounds(rows: nat, b: Bounds): (m: Bounds)
    ensures forall i, j :: b.Owns(i, j) <==> m.Owns(Mirror(rows, i), j)
  {
    Bounds(Mirror(rows, b.rowEnd), Mirror(rows, b.rowStart), b.colStart, b.colEnd)
  }

  /**
   `update_grid` for one worker: a purple pass over its bounds, then a red
   pass over the live cells among them. Image slots of cells outside the
   bounds keep whatever `buff` held.
   */
  method UpdateGrid(arr: seq<int>, buff: seq<Colour>, rows: nat, cols: nat, b: Bounds) returns (out: seq<Colour>)
    requires |arr| == rows * cols && |buff| == rows * cols
    requires b.Within(rows, cols)
    ensures |out| == rows * cols
    ensures forall i, j :: InGrid(rows, cols, i, j) ==>
      out[ImageSlot(rows, cols, i, j)] ==
        if b.Owns(i, j) then CellColour(arr[Index(rows, cols, i, j)]) else buff[ImageSlot(rows, cols, i, j)]
  {
    var purple := PaintDead(buff, rows, cols, b);
    out := PaintLive(arr, purple, rows, cols, b);
  }

  /** The purple pass: every image slot of a cell inside `b` becomes (80, 0, 80). */
  method PaintDead(buff: seq<Colour>, rows: nat, cols: nat, b: Bounds) returns (out: seq<Colour>)
    requires |buff| == rows * cols
    requires b.Within(rows, cols)
    ensures |out| == rows * cols
    ensures forall i, j :: InGrid(rows, cols, i, j) ==>
      out[ImageSlot(rows, cols, i, j)] == if b.Owns(i, j) then DeadColour else buff[ImageSlot(rows, cols, i, j)]
  {
    out := buff;
    var i := b.rowStart;
    while i < b.rowEnd + 1
      invariant b.rowStart <= i && (b.rowStart <= b.rowEnd + 1 ==> i <= b.rowEnd + 1)
      invariant |out| == rows * cols
      invariant forall p, q :: InGrid(rows, cols, p, q) ==>
        out[ImageSlot(rows, cols, p, q)] == if b.Owns(p, q) && p < i then DeadColour else buff[ImageSlot(rows, cols, p, q)]
    {
      var j := b.colStart;
      while j < b.colEnd + 1
        invariant b.colStart <= j && (b.colStart <= b.colEnd + 1 ==> j <= b.colEnd + 1)
        invariant |out| == rows * cols
        invariant forall p, q :: InGrid(rows, cols, p, q) ==>
          out[ImageSlot(rows, cols, p, q)] ==
            if b.Owns(p, q) && (p < i || (p == i && q < j)) then DeadColour else buff[ImageSlot(rows, cols, p, q)]
      {
        var buffI := FlipIndex(rows, cols, i, j);
        FlipIsImageSlot(rows, cols, i, j);
        forall p, q | InGrid(rows, cols, p, q) && (p != i || q != j)
          ensures ImageSlot(rows, cols, p, q) != buffI
        {
          IndexInjective(rows, cols, Mirror(rows, p), q, Mirror(rows, i), j);
        }
        out := out[buffI := DeadColour];
        j := j + 1;
      }
      i := i + 1;
    }
  }

  /** The red pass: the image slot of every live cell inside `b` becomes (240, 0, 0). */
  method PaintLive(arr: seq<int>, buff: seq<Colour>, rows: nat, cols: nat, b: Bounds) returns (out: seq<Colour>)
    requires |arr| == rows * cols && |buff| == rows * cols
    requires b.Within(rows, cols)
    ensures |out| == rows * cols
    ensures forall i, j :: InGrid(rows, cols, i, j) ==>
      out[ImageSlot(rows, cols, i, j)] ==
        if b.Owns(i, j) && arr[Index(rows, cols, i, j)] == 1 then LiveColour else buff[ImageSlot(rows, cols, i, j)]
  {
    out := buff;
    var i := b.rowStart;
    while i < b.rowEnd + 1
      invariant b.rowStart <= i && (b.rowStart <= b.rowEnd + 1 ==> i <= b.rowEnd + 1)
      invariant |out| == rows * cols
      invariant forall p, q :: InGrid(rows, cols, p, q) ==>
        out[ImageSlot(rows, cols, p, q)] ==
          if b.Owns(p, q) && p < i && arr[Index(rows, cols, p, q)] == 1 then LiveColour else buff[ImageSlot(rows, cols, p, q)]
    {
      var j := b.colStart;
      while j < b.colEnd + 1
        invariant b.colStart <= j && (b.colStart <= b.colEnd + 1 ==> j <= b.colEnd + 1)
        invariant |out| == rows * cols
        invariant forall p, q :: InGrid(rows, cols, p, q) ==>
          out[ImageSlot(rows, cols, p, q)] ==
            if b.Owns(p, q) && (p < i || (p == i && q < j)) && arr[Index(rows, cols, p, q)] == 1
            then LiveColour else buff[ImageSlot(rows, cols, p, q)]
      {
        var index := Index(rows, cols, i, j);
        var buffI := FlipIndex(rows, cols, i, j);
        FlipIsImageSlot(rows, cols, i, j);
        forall p, q | InGrid(rows, cols, p, q) && (p != i || q != j)
          ensures ImageSlot(rows, cols, p, q) != buffI
        {
          IndexInjective(rows, cols, Mirror(rows, p), q, Mirror(rows, i), j);
        }
        if arr[index] == 1 {
          out := out[buffI := LiveColour];
        }
        j := j + 1;
      }
      i := i + 1;
    }
  }

  /**
   One worker's painting is its slice of the finished image: the image slots
   of its own cells get their colour from the frame, nothing else changes.
   */
  lemma UpdateGridIsFrameSlice(arr: seq<int>, buff: seq<Colour>, rows: nat, cols: nat, b: Bounds, out: seq<Colour>)
    requires |arr| == rows * cols && |buff| == rows * cols && |out| == rows * cols
    requires forall i, j :: InGrid(rows, cols, i, j) ==>
      out[ImageSlot(rows, cols, i, j)] ==
        if b.Owns(i, j) then CellColour(arr[Index(rows, cols, i, j)]) else buff[ImageSlot(rows, cols, i, j)]
    ensures out == ComputeSlice(Frame(arr, rows, cols), buff, rows, cols, MirrorBounds(rows, b))
  {
    var f := Frame(arr, rows, cols);
    var m := MirrorBounds(rows, b);
    forall i, j | InGrid(rows, cols, i, j)
      ensures out[Index(rows, cols, i, j)] == if m.Owns(i, j) then f[Index(rows, cols, i, j)] else buff[Index(rows, cols, i, j)]
    {
      var i' := Mirror(rows, i);
      assert Mirror(rows, i') == i;
      assert ImageSlot(rows, cols, i', j) == Index(rows, cols, i, j);
    }
    SameSlice(f, buff, rows, cols, m, out);
  }

  /**
   All workers' painting together yields the finished frame: every pixel is
   red for a live cell and purple for a dead one, for any worker count and
   orientation.
   */
  lemma WorkersPaintFrame(arr: seq<int>, buff: seq<Colour>, rows: nat, cols: nat, nthreads: nat, orient: Orientation)
    requires |arr| == rows * cols && |buff| == rows * cols && 1 <= nthreads
    ensures ApplySlices(Frame(arr, rows, cols), buff, rows, cols, MirroredWorkers(rows, cols, nthreads, orient))
         == Frame(arr, rows, cols)
  {
    var ms := MirroredWorkers(rows, cols, nthreads, orient);
    forall i, j | InGrid(rows, cols, i, j)
      ensures Covered(ms, i, j)
    {
      var i' := Mirror(rows, i);
      var o := CellOwner(rows, cols, nthreads, orient, i', j);
      OwnsIffCellOwner(rows, cols, nthreads, orient, o, i', j);
      assert ms[o].Owns(i, j);
    }
    CoveringSlicesComplete(Frame(arr, rows, cols), buff, rows, cols, ms);
  }

  /** The image-row bounds of workers `0 .. nthreads - 1`. */
  function MirroredWorkers(rows: nat, cols: nat, nthreads: nat, orient: Orientation): (ms: seq<Bounds>)
    requires 1 <= nthreads
    ensures |ms| == nthreads
    ensures forall id :: 0 <= id < nthreads ==> ms[id] == MirrorBounds(rows, WorkerBounds(rows, cols, nthreads, orient, id))
  {
    seq(nthreads, id requires 0 <= id < nthreads => MirrorBounds(rows, WorkerBounds(rows, cols, nthreads, orient, id)))
  }
}

/**
 The live-cell figure printed after the last round (`total_live`, gol.c).
 The program seeds it with the header's coordinate count and means `is_alive`
 to adjust it on every death and birth, but both adjustments follow a
 `return` and never execute, so the figure printed is the header count
 whatever happened on the board. The corrected report scans the final board.
 */
module Report {
  import opened Board
  import opened Partition
  import opened Rules
  import opened Round
  import opened Setup

  /** Which `is_alive` is meant: the statements as written, or with the adjustments reachable. */
  datatype TallyVersion = AsWritten | Intended

  /**
   The effect of one `is_alive` call on the running tally. As written, each
   branch returns before its adjustment; as intended, a death decrements and
   a birth increments it.
   */
  function IsAliveTally(version: TallyVersion, cell: int, count: int, tally: int): int {
    if cell != 0 then
      if count < 2 || count > 3 then (if version == AsWritten then tally else tally - 1) else tally
    else
      if count == 3 then (if version == AsWritten then tally else tally + 1) else tally
  }

  /**
   The tally after the compute loop has visited slots `0 .. n - 1` of
   generation `g`. The loop calls `is_alive` twice per cell, once for the
   stored value and once more for an empty `if`, so each slot applies the
   adjustment twice.
   */
  function RoundTally(version: TallyVersion, g: seq<int>, rows: nat, cols: nat, n: nat, tally: int): int
    requires |g| == rows * cols && n <= rows * cols
    decreases n
  {
    if n == 0 then tally
    else
      var k := n - 1;
      var count := NeighbourCount(g, rows, cols, RowOf(rows, cols, k), ColOf(rows, cols, k));
      var stored := IsAliveTally(version, g[k], count, RoundTally(version, g, rows, cols, k, tally));
      IsAliveTally(version, g[k], count, stored)
  }

  /** As written, no call of `is_alive` ever moves the tally. */
  lemma {:induction false} AsWrittenTallyIsFrozen(g: seq<int>, rows: nat, cols: nat, n: nat, tally: int)
    requires |g| == rows * cols && n <= rows * cols
    ensures RoundTally(AsWritten, g, rows, cols, n, tally) == tally
    decreases n
  {
    if n > 0 {
      AsWrittenTallyIsFrozen(g, rows, cols, n - 1, tally);
    }
  }

  /** The intended adjustment is the change in one cell's liveness. */
  lemma IntendedTallyStep(g: seq<int>, rows: nat, cols: nat, k: int, tally: int)
    requires IsBoard(g, rows, cols) && 0 <= k < rows * cols
    ensures IsAliveTally(Intended, g[k], NeighbourCount(g, rows, cols, RowOf(rows, cols, k), ColOf(rows, cols, k)), tally)
         == tally + (if NextAtSlot(g, rows, cols, k) == 1 then 1 else 0) - (if g[k] == 1 then 1 else 0)
  {
    SlotCellRoundTrip(rows, cols, k);
  }

  /** Counting the live cells of a prefix one slot longer adds that slot. */
  lemma LiveCountSnoc(s: seq<int>, n: nat)
    requires n < |s|
    ensures LiveCount(s[..n + 1]) == LiveCount(s[..n]) + (if s[n] == 1 then 1 else 0)
  {
    assert s[..n + 1][..n] == s[..n];
  }

  /**
   With the adjustments reachable, the tally would follow the board at double
   speed: after the first `n` slots it has moved by twice the change in live
   cells among them, because every cell is judged twice.
   */
  lemma {:induction false} IntendedTallyTracksLiveCount(g: seq<int>, rows: nat, cols: nat, n: nat, tally: int)
    requires IsBoard(g, rows, cols) && n <= rows * cols
    ensures RoundTally(Intended, g, rows, cols, n, tally)
         == tally + 2 * (LiveCount(Step(g, rows, cols)[..n]) - LiveCount(g[..n]))
    decreases n
  {
    if n > 0 {
      var k := n - 1;
      var next := Step(g, rows, cols);
      var before := RoundTally(Intended, g, rows, cols, k, tally);
      var count := NeighbourCount(g, rows, cols, RowOf(rows, cols, k), ColOf(rows, cols, k));
      IntendedTallyTracksLiveCount(g, rows, cols, k, tally);
      IntendedTallyStep(g, rows, cols, k, before);
      IntendedTallyStep(g, rows, cols, k, IsAliveTally(Intended, g[k], count, before));
      assert next[k] == NextAtSlot(g, rows, cols, k);
      LiveCountSnoc(next, k);
      LiveCountSnoc(g, k);
    }
  }

  /**
   Over a whole round the tally with the adjustments reachable moves by twice
   the change in the board's live cells, so even the repaired `is_alive` would
   not keep `total_live` equal to the live count.
   */
  lemma IntendedRoundTally(g: seq<int>, rows: nat, cols: nat, tally: int)
    requires IsBoard(g, rows, cols)
    ensures RoundTally(Intended, g, rows, cols, rows * cols, tally)
         == tally + 2 * (LiveCount(Step(g, rows, cols)) - LiveCount(g))
  {
    IntendedTallyTracksLiveCount(g, rows, cols, rows * cols, tally);
    assert Step(g, rows, cols)[..rows * cols] == Step(g, rows, cols);
    assert g[..rows * cols] == g;
  }

  /**
   The stale report: a 1 by 1 board whose one cell is listed once reports 1
   live cell after one round, although the cell has died (it sees itself as
   all eight neighbours). Merely making the adjustments reachable is no cure:
   both `is_alive` calls would decrement the tally, which reaches -1.
   */
  lemma StaleReportedCount(g: seq<int>)
    requires |g| == 1 && g[0] == 1
    ensures RoundTally(AsWritten, g, 1, 1, 1, 1) == 1
    ensures LiveCount(g) == 1
    ensures LiveCount(Generation(g, 1, 1, 1)) == 0
    ensures RoundTally(Intended, g, 1, 1, 1, 1) == -1
  {
    AsWrittenTallyIsFrozen(g, 1, 1, 1, 1);
    SingleCellSeesItselfEightTimes(g);
    var next := Step(g, 1, 1);
    assert next[0] == NextState(g, 1, 1, 0, 0) == 0 by {
      assert Index(1, 1, 0, 0) == 0;
    }
    assert LiveCount(next) == LiveCount(next[..0]) + 0 by {
      LiveCountSnoc(next, 0);
      assert next[..1] == next;
    }
    assert LiveCount(g) == 1 by {
      LiveCountSnoc(g, 0);
      assert g[..1] == g;
    }
    assert IsBoard(g, 1, 1);
    IntendedRoundTally(g, 1, 1, 1);
  }

  /** The corrected report: a full scan of the board for cells holding 1. */
  method CountLive(g: seq<int>) returns (live: nat)
    ensures live == |LiveSlots(g)|
    ensures live <= |g|
  {
    live := 0;
    var k := 0;
    while k < |g|
      invariant 0 <= k <= |g|
      invariant live == LiveCount(g[..k])
    {
      LiveCountSnoc(g, k);
      if g[k] == 1 {
        live := live + 1;
      }
      k := k + 1;
    }
    assert g[..|g|] == g;
  }

  /**
   `play_gol` followed by the corrected report: the final board and the number
   of live cells it really holds, for any worker count and orientation.
   */
  method PlayGolAndReport(s: Game, iters: nat, nthreads: nat, orient: Orientation) returns (r: Game, live: nat)
    requires s.Valid() && 1 <= nthreads
    ensures r.Valid() && r.rows == s.rows && r.cols == s.cols
    ensures r.arr == Generation(s.arr, s.rows, s.cols, iters)
    ensures r.arr2 == if iters == 0 then s.arr2 else Generation(s.arr, s.rows, s.cols, iters - 1)
    ensures live == |LiveSlots(Generation(s.arr, s.rows, s.cols, iters))|
  {
    r := PlayGol(s, iters, nthreads, orient);
    live := CountLive(r.arr);
  }

  /**
   The whole program without its I/O: build the boards from the coordinate
   list, play `iters` rounds, and report the live cells of the final board.
   With no round played the board is the listed cells and the scratch buffer
   is still all dead.
   */
  method RunFromCoords(rows: nat, cols: nat, coords: seq<Coord>, iters: nat, nthreads: nat, orient: Orientation)
    returns (r: Game, live: nat)
    requires WritesInBuffer(rows, cols, coords) && 1 <= nthreads
    ensures r.Valid() && r.rows == rows && r.cols == cols
    ensures r.arr == Generation(ListedBoard(rows, cols, coords), rows, cols, iters)
    ensures iters == 0 ==> r.arr2 == Zeros(rows * cols)
    ensures iters == 0 ==> forall k :: 0 <= k < rows * cols ==> (r.arr[k] == 1 <==> ListedBefore(cols, coords, |coords|, k))
    ensures 0 < iters ==> r.arr2 == Generation(ListedBoard(rows, cols, coords), rows, cols, iters - 1)
    ensures live == |LiveSlots(r.arr)|
  {
    var arr, arr2 := InitBoards(rows, cols, coords);
    r, live := PlayGolAndReport(Game(rows, cols, arr, arr2), iters, nthreads, orient);
  }
}

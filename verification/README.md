# Threaded Game of Life, sequential core, in Dafny

This project models the computational core of `gol.c`, a pthreads Game of
Life on a torus, with the threads taken away:

- **Board** (`board.dfy`): the flat, row-major `rows * cols` buffer of `int`
  cells, the slot `i * cols + j` of cell (i, j) and its inverse, and a
  full-scan live-cell count.
- **Partition** (`partition.dfy`): `partition`, which cuts the row extent or the
  column extent into `nthreads` contiguous blocks. The first
  `length % nthreads` blocks get one extra index. The bounds are stored
  inclusively.
- **Rules** (`rules.dfy`): `is_alive`.
  - The nested if/else wrap tree and the 3x3 counting walk.
  - Subtraction of the cell's own value.
  - The B3/S23 rule.
  - All of it proved equal to counting the eight Moore neighbours with `mod` on each axis.
- **Slices** (`slices.dfy`): the shape shared by `play_step`'s compute loop and
  `update_grid`'s paint loops. Each worker writes only the cells inside its own
  bounds of a shared buffer.
- **Round** (`step.dfy`): `play_step` and the round loop of `play_gol`.
  - Running every worker's compute loop in turn equals one full-grid step, for
    any worker count and either orientation.
  - The pointer exchange then leaves the new generation in `arr` and the old one in `arr_2`.
- **Setup** (`setup.dfy`): the board-building part of
  `init_game_data_from_args`. Both buffers are zero-filled, then each listed
  coordinate is marked alive.
- **Render** (`render.dfy`): `update_grid`.
  - Cell (i, j) is painted at slot `(rows - (i + 1)) * cols + j`, a vertical flip
    that is a bijection on the image.
  - A purple pass, then a red pass for the live cells.
- **Report** (`report.dfy`): the live-cell figure the program prints, and a
  corrected report (see Findings).

The cells are plain `int`s, as in the program. `is_alive` counts only slots
that hold exactly 1, subtracts the cell's raw value, and tests the cell for
non-zero. Properties that need 0/1 cells say so with `IsBoard`. The model
takes the dimensions as natural numbers and requires at least one worker, so
the `/` and `%` in `partition` see only non-negative operands and a positive
divisor. There C's truncating division agrees with Dafny's.

## Model

| member | source | states |
|---|---|---|
| Board.Index | gol.c:377 | the slot `i * cols + j` of an in-grid cell lies inside the `rows * cols` buffer |
| Board.IndexRoundTrip | gol.c:377 | row and column are recovered from a cell's slot |
| Board.SlotCellRoundTrip | gol.c:377 | every slot of the buffer is the slot of the cell (RowOf, ColOf) |
| Board.IndexInjective | gol.c:375-377 | two cells share a slot if and only if they are the same cell, so the loops never overwrite another cell |
| Board.EqualByCells | gol.c:375-377 | two buffers that agree on every cell's slot are equal |
| Board.LiveCount | gol.c:191-192 | the number of live cells on a board, found by a full scan, is the size of the set of slots holding 1 and at most the buffer length |
| Partition.Chunk | gol.c:566-582 | worker `id` gets `length / nthreads + 1` indices when `id < length % nthreads`, otherwise `length / nthreads`, all inside `[0, length)` |
| Partition.FirstChunkStartsAtZero | gol.c:568-570 | worker 0's block starts at index 0 |
| Partition.ChunksAdjacent | gol.c:566-582 | each worker's exclusive end is the next worker's start |
| Partition.LastChunkEndsAtLength | gol.c:566-582 | the last worker's block ends at `length` |
| Partition.ChunkSizesBalanced | gol.c:566-582 | block sizes differ by at most one, and earlier workers never get fewer indices |
| Partition.SurplusWorkersIdle | gol.c:566-582 | workers at or past `length` get an empty block at the end of the extent |
| Partition.ChunksOrdered | gol.c:566-582 | an earlier worker's block ends before a later worker's block starts |
| Partition.Owner | gol.c:566-582 | every index of `[0, length)` lies in the block of some worker |
| Partition.ChunkContainsIffOwner | gol.c:566-582 | worker `id`'s block contains an index if and only if `id` is that index's owner: the blocks tile `[0, length)` |
| Partition.ChunksDisjoint | gol.c:566-582 | no index belongs to two workers |
| Partition.WorkerBounds | gol.c:583-598 | the split axis gets the block with inclusive end `end - 1`, and the other axis gets `0 .. dim - 1` |
| Partition.OwnsIffCellOwner | gol.c:583-598 | a cell lies in worker `id`'s bounds if and only if `id` owns it, in either orientation |
| Partition.WorkerBoundsWithin | gol.c:583-598 | every worker's inclusive bounds stay inside the grid |
| Rules.TreeIndex | gol.c:217-289 | each slot the wrap tree reads lies inside the buffer |
| Rules.WrapIsMod | gol.c:217-289 | one step past an edge is `x mod n`: -1 becomes `n - 1`, `n` becomes 0, and in-range values stay put |
| Rules.TreeIndexIsTorus | gol.c:217-289 | for every offset in -1..1, the tree reads slot `((row + i) mod rows) * cols + ((col + j) mod cols)` |
| Rules.TreeLiveIsTorusLive | gol.c:217-289 | the tree and the `mod` formula see the same cell |
| Rules.NeighbourCountIsMoore | gol.c:212-296 | on a 0/1 board, the count after `count -= cell` is the number of live cells among the eight toroidal Moore neighbours, counted with multiplicity, and lies in 0..8 |
| Rules.Rule | gol.c:297-310 | the transition always yields 0 or 1 |
| Rules.NextState | gol.c:292-310 | `is_alive` yields 0 or 1 for every cell of any buffer |
| Rules.NextStateIsLife | gol.c:297-310 | a cell is alive next if and only if it is live with 2 or 3 live Moore neighbours, or dead with exactly 3 |
| Rules.CountBlock | gol.c:213-291 | the two nested loops over -1..1 count the live slots of the whole block |
| Rules.IsAlive | gol.c:212-311 | `is_alive` returns the next state. On a 0/1 board this is the B3/S23 outcome. The result is 0 or 1, and the board is only read |
| Rules.OneByOneWraps | gol.c:217-289 | on a 1x1 torus every offset lands on the one cell |
| Rules.SingleCellSeesItselfEightTimes | gol.c:212-296 | a live cell alone on a 1x1 torus counts 8 neighbours |
| Slices.ComputeSlice | gol.c:375-382 | one worker's pass writes exactly the cells inside its bounds and leaves every other slot as it was |
| Slices.SameSlice | gol.c:375-382 | a buffer that agrees with that description on every cell is that pass's result |
| Slices.ApplySlicesCell | gol.c:375-382 | after a sequence of workers, a cell holds the new value if some worker covers it, and its old value otherwise |
| Slices.CoveringSlicesComplete | gol.c:375-382 | workers whose bounds cover the grid overwrite the whole buffer, whatever it held before |
| Round.Step | gol.c:375-377 | the next generation has each cell's `is_alive` value at its slot |
| Round.StepIsBoard | gol.c:297-310 | the next generation holds only 0 and 1, whatever the buffer held |
| Round.ComputeBounds | gol.c:375-382 | the compute loop stores `is_alive(i, j)` for every cell inside the worker's inclusive bounds. It reads only `arr` and writes nothing outside the bounds |
| Round.WorkersCoverGrid | gol.c:375-382 | all workers' slices together write every cell's new value, for any worker count and orientation |
| Round.RoundIsStep | gol.c:375-393 | after a round, `arr` holds the next generation and `arr_2` holds the previous one |
| Round.RoundIndependentOfWorkers | gol.c:552-601 | the worker count and the orientation do not change the outcome of a round |
| Round.PlayStep | gol.c:375-393 | sequential `play_step`: every worker's compute loop, then the pointer exchange through `temp_arr`. The outcome is one full step with the old generation in `arr_2` |
| Round.PlayGol | gol.c:425-428 | after rounds 1 .. iters, `arr` holds generation `iters` and `arr_2` holds generation `iters - 1`, or the initial zero buffer when no round ran |
| Setup.InitBoards | gol.c:337-355 | both buffers are zero-filled, `arr_2` stays all zero, and `arr` holds 1 exactly at the slots of the listed coordinates and 0 elsewhere |
| Setup.InitMarksListedCells | gol.c:345-355 | with in-grid coordinates, cell (i, j) of `arr` is 1 if and only if (i, j) was listed |
| Setup.InGridWritesInBuffer | gol.c:353 | in-grid coordinates always write inside the buffer |
| Setup.OverlongColumnWrapsToNextRow | gol.c:353 | an unchecked column `c` with `cols <= c < 2 * cols` in row `r` marks cell (r + 1, c - cols) of the next row, for every grid where that row exists |
| Render.ImageSlot | gol.c:520 | the image slot of an in-grid cell lies inside the image |
| Render.FlipIsImageSlot | gol.c:520 | `(rows - (i + 1)) * cols + j` is the slot of the vertically mirrored cell, inside `[0, rows * cols)` |
| Render.FlipInjective | gol.c:520 | distinct cells are painted at distinct image slots |
| Render.FlipOnto | gol.c:520 | every image slot is painted for exactly one cell, given by the mirrored row |
| Render.FlipInvolution | gol.c:520 | flipping the mirrored cell gives back the cell's own grid slot |
| Render.Frame | gol.c:518-537 | in the finished image, each cell's slot is red (240, 0, 0) when the cell holds 1 and purple (80, 0, 80) otherwise |
| Render.MirrorBounds | gol.c:518-520 | a worker paints exactly the mirrored rows of its own bounds |
| Render.PaintDead | gol.c:518-525 | the first pass paints every image slot inside the bounds purple and touches nothing else |
| Render.PaintLive | gol.c:527-537 | the second pass repaints red exactly the image slots of live cells inside the bounds |
| Render.UpdateGrid | gol.c:518-537 | one worker's `update_grid` colours each of its cells by liveness and leaves the other slots alone |
| Render.UpdateGridIsFrameSlice | gol.c:518-537 | one worker's painting is its slice of the finished frame |
| Render.WorkersPaintFrame | gol.c:518-537 | all workers' painting together yields the whole finished frame, for any worker count and orientation |
| Report.AsWrittenTallyIsFrozen | gol.c:297-310 | as written, no `is_alive` call changes `total_live`, because both adjustments follow a `return` |
| Report.IntendedTallyStep | gol.c:297-310 | with the adjustments reachable, one `is_alive` call moves the tally by the change in that cell's liveness |
| Report.IntendedTallyTracksLiveCount | gol.c:375-382 | with the adjustments of gol.c:297-310 reachable and both `is_alive` calls per cell counted, the tally over a prefix of slots moves by twice the change in live cells among them |
| Report.IntendedRoundTally | gol.c:375-382 | with the adjustments of gol.c:297-310 reachable, the two calls per cell move the tally by twice the change in live cells over a round, so it would still drift from the live count |
| Report.StaleReportedCount | gol.c:336 | a lone live cell on a 1x1 board dies in round 1, yet the figure printed stays 1; with the adjustments merely made reachable it would be -1 |
| Report.CountLive | gol.c:191-192 | the corrected figure: a scan that counts the slots holding 1 |
| Report.PlayGolAndReport | gol.c:191-192 | the corrected report is the true number of live cells of generation `iters` |
| Report.RunFromCoords | gol.c:337-355 | from a coordinate list (built as in `init_game_data_from_args`, then played as in `play_gol`) to the final report: the board after `iters` rounds is generation `iters` of the listed cells, the scratch buffer holds the generation before (all dead when no round ran), and the figure is its true live count |

## Left out

- Thread creation, joining and the barrier. The workers' passes are modelled
  one after another, which the barrier makes equivalent: every worker finishes its
  compute loop before any pointer exchange. The unused mutex is left out too.
- The per-thread copies of the game struct. Each thread exchanges its own
  `arr`/`arr_2` pointers, and all copies stay in step. This is modelled as one
  shared `Game` whose buffers are exchanged once per round.
- Timing (`gettimeofday` and the seconds computation): clocks and floating point.
- Argument and file parsing (`atoi`, `fopen`, `fscanf`, and the error exits on
  malformed input). The dimensions, the iteration count, the worker count, the
  orientation and the coordinate list are parameters instead.
- Terminal and ParaVis output: `print_board`, `system("clear")`, `usleep`,
  `draw_ready`, the animation setup, and the per-worker bounds line printed
  when `print_type` is set. These are side effects and foreign
  library calls. The image buffer is a parameter of `UpdateGrid`.
- The second `is_alive(i, j, data)` call in `play_step` does not change the
  board: its result guards an empty block. As written it does not change
  `total_live` either. Only `Report.RoundTally` counts it, because with the
  adjustments reachable it would apply a second adjustment.
- Board.Index: C evaluates `i * cols + j` in `int`. The model does not bound
  `rows * cols` to the range of a C `int`, so an overflow on a gigantic grid is
  not modelled.
- Partition.Chunk: requires `nthreads >= 1`. The program divides by
  `nthreads` unchecked, and a zero or negative worker count is outside the model.
- Negative dimensions read from the file are outside the model. For them C's
  truncating `/` and `%` in `partition` would differ from Dafny's.
- Round.PlayGol: takes `iters` as a natural number. A negative count read
  from the file plays no round in the program, the same as 0.
- Setup.InitBoards: requires every coordinate's slot `r * cols + c` to lie in
  the buffer. The program writes there unchecked, and a slot outside the buffer
  is undefined behaviour in C.
- The header's coordinate count that seeds `total_live`. It is read from the
  file, and only its staleness is modelled (see Findings).

## Findings

| source | as written | input that shows it | evidently intended | confidence | as-written member | corrected member |
|---|---|---|---|---|---|---|
| gol.c:297-310 | `total_live --` and `total_live ++` follow `return 0` and `return 1`, so they never run. The figure printed as "Number of live cells after N rounds" (gol.c:191-192) is the header count read at gol.c:336 | a 1x1 board listing cell (0, 0) once, after one round: the cell sees itself as 8 neighbours and dies, yet 1 is printed | the printed figure is the number of live cells on the final board | high (by reading the code; not executed) | Report.StaleReportedCount | Report.PlayGolAndReport |

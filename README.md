# Game of Life kernel, in Dafny

This project models the Game-of-Life kernel of a small C program. The world
is a torus of `nrows` by `ncols` cells. Each cell is one byte:

- bits 0-3 hold the number of its live wrapped neighbours;
- bit 4 holds its alive flag;
- bits 5-7 are reserved and stay zero.

The board is addressed column-major: cell (row, col) is byte
`row + nrows * col`.

One generation has five steps:

1. Copy the input board to the output board.
2. Run the edge rows of each chunk, one chunk after the other.
3. Run the interior rows of each chunk.
4. Decide each cell's fate from the input board alone.
5. On a birth or a death, flip the cell's bit in the output board, then add
   or subtract one on the bytes of its eight neighbours.

After the last generation every byte is shifted right by four. The loader
works as follows:

- It allocates a zeroed board of `2 * nrows * ncols` bytes.
- It checks the dimensions.
- It marks a cell alive for each input item that is not `'0'`.
- It counts every cell's live neighbours with `init_neighbour_cnts`.

The modules follow the C files:

- `Util` (`util.dfy`) covers `util.h`:
  - the C remainder and `mod`;
  - `alivep`;
  - the mask macros, each proved equal to its `bv8` mask operation;
  - the `elementNode_t` bitfield view;
  - `BOARD` addressing;
  - `SWAP_BOARDS`.
- `Torus` (`torus.dfy`) holds the meaning of a board:
  - a grid of booleans;
  - the count of live wrapped neighbours, with multiplicity;
  - the Life step;
  - the predicate `Encodes(board, grid)`. It says that every cell byte is
    `16 * alive + count`.
- `Life` (`life.dfy`) covers the loop bodies of `life.c`:
  - each loop body as a function on byte sequences;
  - a pass as a schedule of cells;
  - the partition of `threaded_gol` as written;
  - the lemmas proving that any schedule visiting each cell once yields the
    next generation.
- `Kernel` (`kernel.dfy`) covers the imperative code of `life.c`:
  - `gol_worker_for_row`, `gol_worker` and `threaded_gol` as methods on
    arrays;
  - each method proved against the `Life` functions.
- `Load` (`load.dfy`) covers `load.c`:
  - `make_board`;
  - the dimension check, with 32-bit `int` arithmetic;
  - the fill loop;
  - `init_neighbour_cnts` in place;
  - the proof that the loaded board encodes the world its input describes.

`threaded_gol` is modelled with the thread count as a parameter. It returns
the world after `gens_max` generations. Only the first
`numThreads * (nrows / numThreads)` rows evolve, and every row evolves when
`numThreads` divides `nrows` (see "## Findings").

## Model

| member | source | states |
|---|---|---|
| Util.CRem | util.h:47 | C's `%` truncates toward zero: the remainder has the dividend's sign, is smaller than the divisor in magnitude, and `x == q * m + r` |
| Util.Mod | util.h:44-48 | `mod(x, m)` lies in `[0, m]`; for `x >= 0` it is `x % m`; it equals `m` exactly when `x` is a negative multiple of `m`, so `mod(-m, m) == m` |
| Util.ModStep | util.h:44-48 | for `m >= 2` and `-1 <= x <= m`, the cases `mod` is called with, `mod` wraps `-1` to `m - 1` and `m` to `0`, always inside `[0, m)` |
| Util.ModOfSmallNegative | util.h:47 | for `-m < x < 0`, `mod(x, m) == x + m` |
| Util.ModOfMinusOneByOne | util.h:44-48 | `mod(-1, 1) == 1`, outside `[0, 1)`: a one-row or one-column world is addressed out of range |
| Util.AliveP | util.h:54-59 | `alivep` returns 0 or 1 |
| Util.AlivePIsLifeRule | util.h:50-59 | a dead cell lives iff its count is 3; a live cell lives iff its count is 2 or 3; counts at most 1 or at least 4 always give death |
| Util.Unpack | util.h:28-35 | the bitfield view of a byte: `value == neighborCnt + 16 * isAlive + 32 * is_static`, each field in its width |
| Util.UnpackFields | util.h:28-35 | three fields in range pack into the byte that unpacks to exactly them |
| Util.Pack | util.h:28-35 | writing the three fields gives a byte whose bitfield view is those fields |
| Util.PackUnpack | util.h:28-35 | the bitfield view of a byte gives the byte back |
| Util.IsAlive | util.h:18 | `IS_ALIVE` holds exactly when the byte's `isAlive` bitfield is 1 |
| Util.SetAlive | util.h:21 | `SET_ALIVE` writes 1 to `isAlive` and keeps the count and the reserved bits |
| Util.SetDead | util.h:22 | `SET_DEAD` writes 0 to `isAlive` and keeps the count and the reserved bits |
| Util.Increment | util.h:25 | while the count field is below 15, `++` raises `neighborCnt` by one and keeps `isAlive` and the reserved bits |
| Util.Decrement | util.h:26 | while the count field is above 0, `--` lowers `neighborCnt` by one and keeps `isAlive` and the reserved bits |
| Util.ShiftOutCount | life.c:100 | `>> 4` stored in the signed `char` leaves `isAlive + 2 * is_static`, with the top four bits filled when bit 7 was set |
| Util.IsAliveIsMask | util.h:18 | `IS_ALIVE` tests bit 4 only: the arithmetic definition equals `v & 0x10 != 0` on every `bv8` |
| Util.SetAliveIsMask | util.h:21 | `SET_ALIVE` is `v \| 0x10` on every byte |
| Util.SetDeadIsMask | util.h:22 | `SET_DEAD` is `v & ~0x10` on every byte |
| Util.IncrementDecrementAreEightBit | util.h:25-26 | `++` and `--` on a board byte are 8-bit wrapping `v + 1` and `v - 1` |
| Util.ShiftOutCountIsShift | life.c:100 | the final `>> 4` on a `char` is the arithmetic shift of the signed byte |
| Util.IncrementCount | load.c:110-117 | `neighborCnt++` on the bitfield wraps the count modulo 16 and never touches `isAlive` or the reserved bits |
| Util.SetAliveField | load.c:76 | `board[i].isAlive = 1` is `SET_ALIVE` on the byte |
| Util.EncodeFields | util.h:28-35 | a byte `16 * alive + count` with count at most 8 has that alive flag and count, zero reserved bits, and shifts out to 1 or 0 |
| Util.CellIndex | util.h:15 | `BOARD(b, row, nrows * col)` addresses a byte inside the first `nrows * ncols` |
| Util.CellIndexInjective | util.h:15 | two cells share a byte only when they are the same cell |
| Util.CellIndexOnto | life.c:97-100 | every byte below `nrows * ncols` is the address of the cell `(k % nrows, k / nrows)` |
| Util.SwapBoards | util.h:8-12 | `SWAP_BOARDS` exchanges the two pointers; it modifies no buffer |
| Torus.WrapIsMod | life.c:136-139 | the wrapped neighbour row or column is `mod(x + d, m)` for `d` in `{-1, 0, 1}` |
| Torus.WrapInverse | life.c:136-139 | stepping back from a wrapped neighbour returns to the cell |
| Torus.HitsSymmetric | life.c:142-149 | cell `a` is among the eight neighbours of `b` exactly as many times as `b` is among those of `a` |
| Torus.CountFlip | life.c:142-170 | when a world changes at one cell only, the count of any cell changes by the number of times that cell is its neighbour, with the sign of the change |
| Torus.EncodedWorldIsAliveBits | util.h:18 | a board that encodes a world has that world in its alive bits |
| Torus.EncodingDetermines | util.h:28-35 | two boards that encode the same world agree on every cell |
| Life.SignedChar | life.c:129 | `char cell` reads a byte as a signed value in `[-128, 128)` |
| Life.Decide | life.c:129-153 | a birth is decided only for a byte whose alive bit is clear and a death only for one whose alive bit is set, so every change the loop body makes flips the cell's state |
| Life.DecideIsLifeRule | life.c:188-212 | on a byte of a live or dead cell with count 0..8, the test `cell == 3` gives a birth and the test `cell <= 0x11 \|\| cell >= 0x14` gives a death exactly when `alivep` says the state changes |
| Life.Notify | life.c:142-149 | after the first `n` notifications, every byte that is not one of those `n` targets is as it was |
| Life.NotifyValue | life.c:200-228 | the eight `++`/`--` add to a byte, as a signed sum, the number of times it is a target |
| Life.HitsBelowAtCell | life.c:142-149 | the targets of `(i, j)` hit the byte of `(r, c)` once per time `(r, c)` is a wrapped neighbour of `(i, j)` |
| Life.Effect | life.c:131-171 | a fate writes only the cell's own byte and its eight target bytes |
| Life.CellEffect | life.c:128-173 | the loop body for one cell never writes past the `nrows * ncols` cells |
| Life.FateFact | life.c:129-153 | on a board that encodes `g`, the fate the loop body decides for a cell is the change from `g` to the next generation |
| Life.CellStep | life.c:126-174 | the loop body for one not-yet-visited cell takes an output board that encodes the part-updated world to one that encodes it with that cell updated too |
| Life.ApplyCellsAppend | life.c:186 | running two schedules one after the other is running their concatenation |
| Life.ApplyCellsOutside | life.c:184-232 | a pass leaves the bytes past the cells untouched |
| Life.ApplyCellsEncodes | life.c:69-90 | after a pass over distinct unvisited cells, the output encodes the world with exactly those cells advanced, so counts stay within `[0, 8]` and never carry into bit 4 |
| Life.ScheduleOrderIrrelevant | life.c:73-90 | two passes that visit the same cells once each leave the same output board, so the workers may interleave in any order |
| Life.PartialOfRows | life.c:69-90 | once the rows below `limit` are visited, the part-updated world is the next generation on those rows and the old one below |
| Life.BlockCellsVisit | life.c:126-128 | the column-major loops of `gol_worker` visit each cell of rows `[lo, hi)` once |
| Life.RowCellsVisit | life.c:186 | `gol_worker_for_row` visits each cell of its row once |
| Life.Packages | life.c:53-67 | every package carries the board's size; the first interior starts at row 1; every interior has `nrows / num_threads - 2` rows; each next interior starts two rows past the previous `end_row` |
| Life.EdgeSchedule | life.c:75-78 | the edge pass's order, package by package; its contract keeps every cell in a column of the board, and `Life.PartitionVisit` states which cells it visits |
| Life.InteriorSchedule | life.c:81-90 | the interior pass's order, package by package; its contract keeps every cell in a column of the board, and `Life.PartitionVisit` states which cells it visits |
| Life.PackagesChained | life.c:53-67 | with chunk size at least 2, the packages as written are contiguous chunks covering `numThreads * (nrows / numThreads)` rows |
| Life.PartitionVisit | life.c:73-90 | the edge rows and the interior rows of contiguous chunks are disjoint, each visited once, and together cover the chunks' rows |
| Life.GenerationVisit | life.c:73-90 | the edge pass followed by the interior pass visits each row up to the partition's reach exactly once |
| Life.ChainedRows | life.c:57-58 | every package's edge rows lie on the board |
| Life.ChunkCells | life.c:73-90 | adding a chunk `[a, b)` of at least two rows to a split of the rows below `a`: its first and last rows join the edge cells, the rows between join the interior cells, and the two sets still split the rows below `b` without overlap |
| Life.InteriorFootprint | life.c:126-149 | a cell in worker `k`'s interior rows, and each of its eight neighbours, lies in `k`'s chunk `[k * cs, (k + 1) * cs)` with no wrap-around, where `cs = nrows / num_threads` |
| Life.WorkersWriteApart | life.c:81-90 | two different workers never notify the same byte: a neighbour of a cell in one package's interior is never a neighbour of a cell in another's, and a worker's own cell, the byte `SET_ALIVE`/`SET_DEAD` writes, is never a neighbour another worker notifies |
| Life.GenerationIsLifeStep | life.c:69-93 | one generation, copy and edge pass and interior pass, turns a board that encodes `g` into one that encodes the Life step of `g` on the partition's rows |
| Life.ThreadedPartition | life.c:53-67 | the partition reaches `numThreads * (nrows / numThreads)` rows, and that is all of them iff `numThreads` divides `nrows` |
| Life.RemainderRowsFrozen | life.c:53-67 | with 10 rows and 4 threads, row 9 keeps a cell alive that the Life rule kills |
| Life.CorrectedPartition | life.c:53-67 | with the last chunk extended to `nrows`, the packages cover every row |
| Life.CorrectedGenerationIsNext | life.c:69-93 | with the corrected partition, one generation gives the full next Life generation |
| Kernel.BumpNeighbour | util.h:25-26 | one `INCREMENT_NEIGHBOURS` or `DECREMENT_NEIGHBOURS` on the next target's byte takes the board one step further in the notification function |
| Kernel.WrappedCoordinates | life.c:136-139 | `inorth`, `isouth`, `jwest` and `jeast` are the rows and columns of the wrapped neighbours |
| Kernel.TargetsAre | life.c:140-149 | the eight bytes written are those of the neighbours NW, N, NE, W, E, SW, S, SE |
| Kernel.NotifyNeighbours | life.c:142-170 | the eight `INCREMENT_NEIGHBOURS` or `DECREMENT_NEIGHBOURS` change the board as the notification function says |
| Kernel.UpdateCell | life.c:188-229 | the loop body in place: the output board becomes the value of the loop-body function |
| Kernel.GolWorkerForRow | life.c:184-232 | `gol_worker_for_row` leaves the output board as the pass over the cells of row `i` |
| Kernel.GolWorkerColumn | life.c:128-173 | the inner loop of `gol_worker` is the pass over column `j` between `start_row` and `end_row` |
| Kernel.GolWorker | life.c:116-177 | `gol_worker` leaves the output board as the pass over its rows, column by column |
| Kernel.SetUpPackages | life.c:53-67 | the partition loop fills the packages as the partition function says |
| Kernel.CopyBoard | life.c:71 | the `memcpy` copies the first `nrows * ncols` bytes and keeps the rest |
| Kernel.EdgeRows | life.c:76-77 | the two edge-row calls for one package run its first and its last row |
| Kernel.EdgePassNext | life.c:75-78 | one turn of the edge loop extends the edge pass by the package's rows `start_row - 1` and `end_row` |
| Kernel.EdgePass | life.c:75-78 | the edge loop runs the edge schedule of all packages |
| Kernel.InteriorPass | life.c:81-90 | the workers, one after the other, run the interior schedule of all packages |
| Kernel.Generation | life.c:69-93 | one generation leaves an output board that encodes the Life step of the world the input board encodes |
| Kernel.Gens | life.c:69 | the generation loop runs `gens_max` times, or not at all when `gens_max` is negative |
| Kernel.RunGenerations | life.c:69-94 | after the loop, the input pointer is the original input board when the number of generations is even (`n % 2 == 0`) and the original output board otherwise, and it encodes the world after that many steps |
| Kernel.FormatOutput | life.c:97-102 | the final loop shifts each cell's byte right by four and leaves the rest of the buffer |
| Kernel.Formatted | life.c:96-102 | shifting an encoded board by four leaves 1 for a live cell and 0 for a dead one |
| Kernel.ThreadedGol | life.c:38-106 | `threaded_gol` returns the buffer chosen by the parity of `gens_max`, holding 1 or 0 per cell for the world after `gens_max` generations (frozen past the partition's reach), and the full Life result when `numThreads` divides `nrows` |
| Load.MakeBoard | load.c:5-19 | `make_board` returns a fresh buffer of `2 * nrows * ncols` zero bytes |
| Load.IntMul | load.c:44 | the C `int` product: in 32-bit range, equal to the true product modulo 2^32, and equal to it when it fits |
| Load.CheckDimensionsAsWritten | load.c:32-48 | the check as written accepts iff both dimensions are positive and the 32-bit product `ncols * nrows` is at most 100000000, and names the first failing check otherwise |
| Load.CheckDimensions | load.c:32-48 | the intended check accepts iff both dimensions are positive and the world has at most 100000000 cells, and names the first failing check otherwise |
| Load.ChecksAgreeWithoutOverflow | load.c:44 | when the product fits in an `int`, the check as written and the intended check agree |
| Load.OverflowPassesCheck | load.c:44 | a 65536 x 65536 world overflows to 0 and passes the check as written, while the intended check rejects it |
| Load.Tally | load.c:110-117 | after the first `n` `neighborCnt++`, every byte that is not one of those `n` targets is as it was |
| Load.TallyValue | load.c:110-117 | while the count field has room, the `neighborCnt++` calls add one per target to a byte |
| Load.TallyKeepsState | load.c:110-117 | `neighborCnt++` never changes `isAlive` or the reserved bits |
| Load.InitCell | load.c:103-118 | the loop body for one cell writes only its eight neighbours' bytes |
| Load.InitCellStep | load.c:103-118 | visiting one more cell keeps the invariant: every byte holds its cell's state and the count of its live neighbours among the visited cells |
| Load.InitCellsCount | load.c:99-120 | after visiting distinct new cells, the counts cover exactly the cells visited so far |
| Load.UncountedIsCountedNone | load.c:63-79 | on the filled board, with no cell visited yet, every count is 0 |
| Load.CountedAllEncodes | load.c:96-121 | once every cell is visited, the board encodes the world |
| Load.InitCountsEncode | load.c:96-121 | on a filled board, any order that visits every cell once leaves each cell's state and its true neighbour count |
| Load.InitCellsKeepsState | load.c:103-117 | in any order, counting never changes an `isAlive` bit or the reserved bits |
| Load.InitCells | load.c:99-120 | the loop body folded over a schedule of cells, in order; it never writes past the `nrows * ncols` cells |
| Load.InitOrderIrrelevant | load.c:99-120 | two orders that visit every cell once leave the same board |
| Load.CountNeighbour | load.c:110 | one `neighborCnt++` on the next target's byte takes the board one step further in the tally function |
| Load.CountNeighbours | load.c:104-117 | the eight `neighborCnt++` of a live cell change the board as the tally function says |
| Load.CountCell | load.c:103-118 | the loop body in place: a cell whose `isAlive` is set notifies its neighbours, and any other cell changes nothing |
| Load.InitColumn | load.c:100-119 | the inner loop counts from the cells of column `j`, row by row |
| Load.InitNeighbourCnts | load.c:96-121 | `init_neighbour_cnts` leaves the board that visiting every cell, column by column, gives |
| Load.FillBoard | load.c:63-79 | the fill loop fails iff the input is short; otherwise each cell's byte is 16 when its item is not `'0'` and 0 when it is, and the rest stays zero |
| Load.CountedBoard | load.c:81 | counting a filled board gives a board that encodes its world, with the bytes past the cells still zero |
| Load.LoadBoardValues | load.c:51-83 | it reports the item where the input ran out iff the input is short; otherwise it returns a fresh `2 * nrows * ncols` buffer that encodes the input's world and is zero past the cells |

## Left out

- Threads: `pthread_create`, `pthread_join` and `sysconf` are not modelled (life.c:48-50, 81-90, 176). The thread count is a parameter, and the workers run one after the other. `Life.InteriorFootprint` and `Life.WorkersWriteApart` state that the workers write disjoint bytes, and `Life.ScheduleOrderIrrelevant` that any order of the interior cells gives the same board; the model does not run an interleaving.
- `malloc`, `free` and `memcpy` as calls: allocation is a fresh array, and the copy is a `forall` statement over the first `nrows * ncols` bytes.
- The `FILE` reading of `load.c` (`fscanf`, `fprintf`, `fclose`, `exit`) is not modelled. The input is the sequence of items `fscanf` reads, and an error exit is a result value: a `Verdict` or `RanOut`. The `ngotten < 1` test on the header is part of that I/O and is left out.
- The `game_of_life` and `load_board` wrappers only forward their arguments (life.c:12-20, load.c:85-90).
- The `inboard` and `outboard` pointers a `Package` carries (life.c:82-83) are not modelled. The workers take the boards as parameters.
- Kernel.ThreadedGol: requires a chunk size of at least 2. With a chunk size of 1 the edge pass runs a row twice, and with a chunk size of 0 it reads row -1. Neither is modelled.
- Kernel.ThreadedGol: requires at least two rows and two columns, for the same reason as `Load.LoadBoardValues`, although `threaded_gol` accepts a one-column world that `load_dimensions` lets through. The Kernel methods it calls carry the same requirement.
- Kernel.ThreadedGol: takes the world the input board encodes as a ghost parameter. Its contract says nothing for an input board whose counts are wrong.
- Load.LoadBoardValues: requires at least two rows and two columns, although `load_dimensions` accepts one of each. With one row or column the wrapped `mod(-1, 1)` gives 1, out of range (`Util.ModOfMinusOneByOne`).
- Load.FillBoard: requires at least two rows and two columns, although the fill loop (load.c:63-79) calls no `mod`. The requirement comes from stating its result over the torus world (`InitialWorld`, `Uncounted`), which is defined only for such worlds.
- Load.InitNeighbourCnts: requires at least two rows and two columns, for the same reason as `Load.LoadBoardValues`.
- Load.IntMul: signed `int` overflow is undefined behaviour in C. The model takes the usual two's-complement wrap-around, which is what lets a 65536 x 65536 world pass the check at load.c:44.
- The sum of all counts being 8 times the number of live cells is not stated. Every count is at most 8, because `Load.InitCountsEncode` gives each count as a neighbour count of at most 8.
- C bitfield layout and `char` signedness: the model assumes the LSB-first layout the masks rely on and reads a byte as a signed `char` where the code compares it.

## Findings

`game_of_life` (life.c:12-20) is the whole simulation: it must advance every cell of the torus by one Life generation per round, and no other code advances the rows past the last chunk. The partition at life.c:53-67 stops at row `num_threads * (nrows / num_threads)`, so the remaining rows never change. The model follows the code, and the first row below records the difference.

| source | as written | input that shows it | evidently intended | confidence | as-written member | corrected member |
|---|---|---|---|---|---|---|
| life.c:53-67 | each chunk has `nrows / num_threads` rows, so rows from `num_threads * (nrows / num_threads)` on are never updated | 10 rows, 2 columns, 4 threads: one live cell at row 9 stays alive, though the Life rule kills it | the last chunk ends at `nrows`, so every row is updated | not executed | Life.RemainderRowsFrozen | Life.CorrectedGenerationIsNext |
| load.c:44 | `*ncols * *nrows` is computed in 32-bit `int`, so a large product wraps before the comparison | `nrows = ncols = 65536`: the product wraps to 0 and the world is accepted | reject any world of more than 100000000 cells | not executed | Load.OverflowPassesCheck | Load.CheckDimensions |

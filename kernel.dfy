// The loops of life.c on mutable boards: the loop body shared by
// `gol_worker` and `gol_worker_for_row`, the two workers, one generation of
// `threaded_gol` (copy, edge pass, interior pass) and `threaded_gol` itself.
//
// Each method is proved against the specification functions of module Life:
// a worker leaves the output board equal to `ApplyCells` of the cells it
// visits, in its order, and the lemmas of Life turn that into the Life step.

module Kernel {
  import opened Util
  import opened Torus
  import opened Life

  /** `INCREMENT_NEIGHBOURS(board, i, j)` (d = 1) and
      `DECREMENT_NEIGHBOURS(board, i, j)` (d = -1): `++` or `--` on the byte
      `BOARD(board, i, j)`. When that byte is target e of a cell whose
      targets are t, and the board holds the first e notifications to t,
      it then holds the first e + 1. */
  method BumpNeighbour(board: array<byte>, i: int, j: int, d: int,
                       ghost o: seq<byte>, ghost t: seq<int>, ghost e: nat)
    requires e < |t| && InBoard(t, |o|) && |o| == board.Length && t[e] == Board(i, j)
    requires board[..] == Notify(o, t, d, e)
    modifies board
    ensures board[..] == Notify(o, t, d, e + 1)
  {
    board[Board(i, j)] := Bump(board[Board(i, j)], d);
  }

  /** The targets of (i, j) are, in order, the bytes `BOARD(outboard, r,
      nrows * c)` of its wrapped neighbours NW, N, NE, W, E, SW, S, SE. */
  lemma TargetsAre(nrows: int, ncols: int, i: int, j: int, inorth: int, isouth: int, jwest: int, jeast: int)
    requires Dims(nrows, ncols) && 0 <= i < nrows && 0 <= j < ncols
    requires inorth == Wrap(nrows, i, -1) && isouth == Wrap(nrows, i, 1)
    requires jwest == Wrap(ncols, j, -1) && jeast == Wrap(ncols, j, 1)
    ensures Targets(nrows, ncols, i, j) ==
      [Board(inorth, nrows * jwest), Board(inorth, nrows * j), Board(inorth, nrows * jeast),
       Board(i, nrows * jwest), Board(i, nrows * jeast),
       Board(isouth, nrows * jwest), Board(isouth, nrows * j), Board(isouth, nrows * jeast)]
  {
  }

  /** The wrapped rows and columns the loop body computes with `mod`:
      `inorth`, `isouth`, `jwest` and `jeast` are the row above, the row
      below, the column to the left and the column to the right of (i, j)
      on the torus. */
  method WrappedCoordinates(nrows: int, ncols: int, i: int, j: int)
    returns (inorth: int, isouth: int, jwest: int, jeast: int)
    requires Dims(nrows, ncols) && 0 <= i < nrows && 0 <= j < ncols
    ensures inorth == Wrap(nrows, i, -1) && isouth == Wrap(nrows, i, 1)
    ensures jwest == Wrap(ncols, j, -1) && jeast == Wrap(ncols, j, 1)
  {
    inorth := Mod(i - 1, nrows);
    isouth := Mod(i + 1, nrows);
    jwest := Mod(j - 1, ncols);
    jeast := Mod(j + 1, ncols);
    WrapIsMod(nrows, i, -1);
    WrapIsMod(nrows, i, 1);
    WrapIsMod(ncols, j, -1);
    WrapIsMod(ncols, j, 1);
  }

  /** The eight `INCREMENT_NEIGHBOURS` (d = 1) or `DECREMENT_NEIGHBOURS`
      (d = -1) of the loop body for cell (i, j): NW, N, NE, W, E, SW, S, SE,
      at the wrapped rows `inorth`, `isouth` and the column offsets
      `nrows_jwest`, `nrowsxj`, `nrows_jeast`. */
  method NotifyNeighbours(out: array<byte>, nrows: int, ncols: int, i: int, j: int, d: int)
    requires Dims(nrows, ncols) && 0 <= i < nrows && 0 <= j < ncols
    requires out.Length >= nrows * ncols
    modifies out
    ensures out[..] == Notify(old(out[..]), Targets(nrows, ncols, i, j), d, Slots())
  {
    ghost var o := out[..];
    var inorth, isouth, jwest, jeast := WrappedCoordinates(nrows, ncols, i, j);
    var nrowsxj := nrows * j;
    var nrowsJWest := nrows * jwest;
    var nrowsJEast := nrows * jeast;
    ghost var t := [Board(inorth, nrowsJWest), Board(inorth, nrowsxj), Board(inorth, nrowsJEast),
                    Board(i, nrowsJWest), Board(i, nrowsJEast),
                    Board(isouth, nrowsJWest), Board(isouth, nrowsxj), Board(isouth, nrowsJEast)];
    TargetsAre(nrows, ncols, i, j, inorth, isouth, jwest, jeast);
    assert InBoard(t, |o|);
    BumpNeighbour(out, inorth, nrowsJWest, d, o, t, 0);
    BumpNeighbour(out, inorth, nrowsxj, d, o, t, 1);
    BumpNeighbour(out, inorth, nrowsJEast, d, o, t, 2);
    BumpNeighbour(out, i, nrowsJWest, d, o, t, 3);
    BumpNeighbour(out, i, nrowsJEast, d, o, t, 4);
    BumpNeighbour(out, isouth, nrowsJWest, d, o, t, 5);
    BumpNeighbour(out, isouth, nrowsxj, d, o, t, 6);
    BumpNeighbour(out, isouth, nrowsJEast, d, o, t, 7);
  }

  /** The loop body of both workers for cell (i, j): read the cell's byte in
      the input board; a dead cell whose byte is 3 becomes alive in the
      output board and notifies its neighbours with `++`; a live cell whose
      byte (as a signed char) is at most 0x11 or at least 0x14 becomes dead
      and notifies them with `--`. */
  method UpdateCell(inb: array<byte>, out: array<byte>, nrows: int, ncols: int, i: int, j: int)
    requires Dims(nrows, ncols) && 0 <= i < nrows && 0 <= j < ncols
    requires inb.Length >= nrows * ncols && out.Length >= nrows * ncols && inb != out
    modifies out
    ensures out[..] == CellEffect(inb[..], old(out[..]), nrows, ncols, i, j)
  {
    var nrowsxj := nrows * j;
    CellInRange(nrows, ncols, i, j);
    var cell := inb[Board(i, nrowsxj)];
    if !IsAlive(cell) {
      if SignedChar(cell) == 3 {
        out[Board(i, nrowsxj)] := SetAlive(out[Board(i, nrowsxj)]);
        NotifyNeighbours(out, nrows, ncols, i, j, 1);
      }
    } else {
      if SignedChar(cell) <= 0x11 || SignedChar(cell) >= 0x14 {
        out[Board(i, nrowsxj)] := SetDead(out[Board(i, nrowsxj)]);
        NotifyNeighbours(out, nrows, ncols, i, j, -1);
      }
    }
  }

  /** `gol_worker_for_row`: the loop body for each cell of row i, from
      column 0 to column ncols - 1. */
  method GolWorkerForRow(i: int, ncols: int, nrows: int, inb: array<byte>, out: array<byte>)
    requires Dims(nrows, ncols) && 0 <= i < nrows
    requires inb.Length >= nrows * ncols && out.Length >= nrows * ncols && inb != out
    modifies out
    ensures InGrid(RowCells(i, ncols), nrows, ncols)
    ensures out[..] == ApplyCells(inb[..], old(out[..]), nrows, ncols, RowCells(i, ncols))
  {
    var j := 0;
    while j < ncols
      invariant 0 <= j <= ncols
      invariant InGrid(RowCells(i, j), nrows, ncols)
      invariant out[..] == ApplyCells(inb[..], old(out[..]), nrows, ncols, RowCells(i, j))
    {
      UpdateCell(inb, out, nrows, ncols, i, j);
      assert RowCells(i, j + 1)[..j] == RowCells(i, j);
      j := j + 1;
    }
  }

  /** The segments of column j the inner loop of `gol_worker` visits lie on
      the board when the rows [lo, hi) do, and so do the columns before it. */
  lemma VisitedInGrid(lo: int, hi: int, i: int, j: nat, nrows: int, ncols: int)
    requires lo < hi ==> 0 <= lo && hi <= nrows
    requires lo <= i && (i <= hi || i == lo) && j < ncols
    ensures InGrid(BlockCells(lo, hi, j), nrows, ncols)
    ensures InGrid(ColumnCells(lo, i, j), nrows, ncols)
  {
  }

  /** The column segment up to row i + 1 is the one up to row i, then
      (i, j). */
  lemma ColumnCellsLast(lo: int, i: int, j: int)
    requires lo <= i
    ensures var s := ColumnCells(lo, i + 1, j);
      s[..|s| - 1] == ColumnCells(lo, i, j) && s[|s| - 1] == (i, j)
  {
  }

  /** The inner loop of `gol_worker`: the loop body for the cells of column
      j from row startRow up to row endRow, exclusive. */
  method GolWorkerColumn(j: int, startRow: int, endRow: int, nrows: int, ncols: int,
                         inb: array<byte>, out: array<byte>)
    requires Dims(nrows, ncols) && 0 <= j < ncols
    requires startRow < endRow ==> 0 <= startRow && endRow <= nrows
    requires inb.Length >= nrows * ncols && out.Length >= nrows * ncols && inb != out
    modifies out
    ensures InGrid(ColumnCells(startRow, endRow, j), nrows, ncols)
    ensures out[..] == ApplyCells(inb[..], old(out[..]), nrows, ncols, ColumnCells(startRow, endRow, j))
  {
    var i := startRow;
    VisitedInGrid(startRow, endRow, i, j, nrows, ncols);
    while i < endRow
      invariant startRow <= i && (i <= endRow || i == startRow)
      invariant InGrid(ColumnCells(startRow, i, j), nrows, ncols)
      invariant out[..] == ApplyCells(inb[..], old(out[..]), nrows, ncols, ColumnCells(startRow, i, j))
    {
      UpdateCell(inb, out, nrows, ncols, i, j);
      ColumnCellsLast(startRow, i, j);
      VisitedInGrid(startRow, endRow, i + 1, j, nrows, ncols);
      i := i + 1;
    }
    if endRow <= startRow {
      assert ColumnCells(startRow, endRow, j) == [];
    }
  }

  /** The board after the loop body for the rows [lo, hi) of the columns
      below j. */
  function ApplyBlock(inb: seq<byte>, out: seq<byte>, nrows: int, ncols: int, lo: int, hi: int, j: nat): (r: seq<byte>)
    requires Dims(nrows, ncols) && |inb| >= nrows * ncols && |out| >= nrows * ncols
    requires lo < hi ==> 0 <= lo && hi <= nrows
    requires j <= ncols
    ensures |r| == |out|
  {
    ApplyCells(inb, out, nrows, ncols, BlockCells(lo, hi, j))
  }

  /** One more column of a chunk's interior: running the columns below
      j + 1 is running those below j, then column j. */
  lemma BlockCellsNext(inb: seq<byte>, out: seq<byte>, nrows: int, ncols: int, lo: int, hi: int, j: nat)
    requires Dims(nrows, ncols) && |inb| >= nrows * ncols && |out| >= nrows * ncols
    requires lo < hi ==> 0 <= lo && hi <= nrows
    requires j < ncols
    ensures InGrid(ColumnCells(lo, hi, j), nrows, ncols)
    ensures ApplyBlock(inb, out, nrows, ncols, lo, hi, j + 1) ==
      ApplyCells(inb, ApplyBlock(inb, out, nrows, ncols, lo, hi, j), nrows, ncols, ColumnCells(lo, hi, j))
  {
    if lo <= hi {
      VisitedInGrid(lo, hi, hi, j, nrows, ncols);
    }
    ApplyCellsAppend(inb, out, nrows, ncols, BlockCells(lo, hi, j), ColumnCells(lo, hi, j));
  }

  /** One pass of the outer loop of `gol_worker`: the board that has run
      the columns below j of the rows [startRow, endRow) runs column j
      too. */
  method GolWorkerNextColumn(j: nat, startRow: int, endRow: int, nrows: int, ncols: int,
                             inb: array<byte>, out: array<byte>, ghost o: seq<byte>)
    requires Dims(nrows, ncols) && j < ncols
    requires startRow < endRow ==> 0 <= startRow && endRow <= nrows
    requires inb.Length >= nrows * ncols && out.Length == |o| >= nrows * ncols && inb != out
    requires out[..] == ApplyBlock(inb[..], o, nrows, ncols, startRow, endRow, j)
    modifies out
    ensures out[..] == ApplyBlock(inb[..], o, nrows, ncols, startRow, endRow, j + 1)
  {
    GolWorkerColumn(j, startRow, endRow, nrows, ncols, inb, out);
    BlockCellsNext(inb[..], o, nrows, ncols, startRow, endRow, j);
  }

  /** `gol_worker`: the loop body for each cell of the rows [startRow,
      endRow) of its package, column by column. It touches no row when
      startRow >= endRow. */
  method GolWorker(p: Package, inb: array<byte>, out: array<byte>)
    requires Dims(p.nrows, p.ncols)
    requires p.startRow < p.endRow ==> 0 <= p.startRow && p.endRow <= p.nrows
    requires inb.Length >= p.nrows * p.ncols && out.Length >= p.nrows * p.ncols && inb != out
    modifies out
    ensures InGrid(BlockCells(p.startRow, p.endRow, p.ncols), p.nrows, p.ncols)
    ensures out[..] == ApplyCells(inb[..], old(out[..]), p.nrows, p.ncols, BlockCells(p.startRow, p.endRow, p.ncols))
  {
    var startRow, endRow, ncols, nrows := p.startRow, p.endRow, p.ncols, p.nrows;
    ghost var o := out[..];
    var j := 0;
    while j < ncols
      invariant 0 <= j <= ncols
      invariant out[..] == ApplyBlock(inb[..], o, nrows, ncols, startRow, endRow, j)
    {
      GolWorkerNextColumn(j, startRow, endRow, nrows, ncols, inb, out, o);
      j := j + 1;
    }
    assert out[..] == ApplyBlock(inb[..], o, nrows, ncols, startRow, endRow, ncols);
  }

  /** The partition loop of `threaded_gol`: worker i gets the interior rows
      [start_row + 1, end_row - 1) of the chunk [start_row, end_row), and
      each chunk starts where the previous one ended. The board has
      non-negative dimensions, so C's division is the model's. */
  method SetUpPackages(nrows: int, ncols: int, numThreads: int) returns (packages: array<Package>)
    requires nrows >= 0 && numThreads >= 1
    ensures fresh(packages)
    ensures packages[..] == Packages(nrows, ncols, numThreads)
  {
    packages := new Package[numThreads];
    var startRow := 0;
    var chunkSize := nrows / numThreads;
    var endRow := chunkSize;
    var i := 0;
    while i < numThreads
      invariant 0 <= i <= numThreads
      invariant startRow == i * chunkSize && endRow == startRow + chunkSize
      invariant forall k :: 0 <= k < i ==> packages[k] == Packages(nrows, ncols, numThreads)[k]
    {
      packages[i] := Package(nrows, ncols, startRow + 1, endRow - 1);
      startRow := endRow;
      endRow := endRow + chunkSize;
      i := i + 1;
    }
  }

  /** The edge pass over one more package: its row startRow - 1, then its
      row endRow. */
  lemma EdgeScheduleNext(inb: seq<byte>, out: seq<byte>, b: seq<byte>, b': seq<byte>, nrows: int, ncols: int,
                         ps: seq<Package>, i: nat)
    requires Dims(nrows, ncols) && |inb| >= nrows * ncols && |out| >= nrows * ncols
    requires i < |ps| && InGrid(RowCells(ps[i].startRow - 1, ncols) + RowCells(ps[i].endRow, ncols), nrows, ncols)
    requires InGrid(EdgeSchedule(ps[..i], ncols), nrows, ncols)
    requires b == ApplyCells(inb, out, nrows, ncols, EdgeSchedule(ps[..i], ncols))
    requires b' == ApplyCells(inb, b, nrows, ncols, RowCells(ps[i].startRow - 1, ncols) + RowCells(ps[i].endRow, ncols))
    ensures InGrid(EdgeSchedule(ps[..i + 1], ncols), nrows, ncols)
    ensures b' == ApplyCells(inb, out, nrows, ncols, EdgeSchedule(ps[..i + 1], ncols))
  {
    var E := EdgeSchedule(ps[..i], ncols);
    var R := RowCells(ps[i].startRow - 1, ncols) + RowCells(ps[i].endRow, ncols);
    assert ps[..i + 1][..i] == ps[..i];
    assert EdgeSchedule(ps[..i + 1], ncols) == E + R;
    ApplyCellsAppend(inb, out, nrows, ncols, E, R);
  }

  /** The interior pass over one more package: the rows [startRow, endRow)
      column by column. */
  lemma InteriorScheduleNext(inb: seq<byte>, out: seq<byte>, nrows: int, ncols: int, ps: seq<Package>, i: nat)
    requires Dims(nrows, ncols) && |inb| >= nrows * ncols && |out| >= nrows * ncols
    requires i < |ps| && InGrid(BlockCells(ps[i].startRow, ps[i].endRow, ncols), nrows, ncols)
    requires InGrid(InteriorSchedule(ps[..i], ncols), nrows, ncols)
    ensures InGrid(InteriorSchedule(ps[..i + 1], ncols), nrows, ncols)
    ensures ApplyCells(inb, out, nrows, ncols, InteriorSchedule(ps[..i + 1], ncols)) ==
      var b := ApplyCells(inb, out, nrows, ncols, InteriorSchedule(ps[..i], ncols));
      ApplyCells(inb, b, nrows, ncols, BlockCells(ps[i].startRow, ps[i].endRow, ncols))
  {
    assert ps[..i + 1][..i] == ps[..i];
    ApplyCellsAppend(inb, out, nrows, ncols, InteriorSchedule(ps[..i], ncols), BlockCells(ps[i].startRow, ps[i].endRow, ncols));
  }

  /** `memcpy(outboard, inboard, nrows * ncols)`: the first nrows * ncols
      bytes of the output board become those of the input board. */
  method CopyBoard(out: array<byte>, inb: array<byte>, size: int)
    requires 0 <= size <= inb.Length && size <= out.Length && inb != out
    modifies out
    ensures out[..] == inb[..size] + old(out[size..])
  {
    forall k | 0 <= k < size {
      out[k] := inb[k];
    }
    assert out[..] == inb[..size] + old(out[size..]);
  }

  /** One package's share of the edge pass: its row startRow - 1, then its
      row endRow, each by `gol_worker_for_row`. */
  method EdgeRows(p: Package, inb: array<byte>, out: array<byte>)
    requires Dims(p.nrows, p.ncols) && inb.Length >= p.nrows * p.ncols && out.Length >= p.nrows * p.ncols
    requires inb != out && 0 <= p.startRow - 1 < p.nrows && 0 <= p.endRow < p.nrows
    modifies out
    ensures InGrid(RowCells(p.startRow - 1, p.ncols) + RowCells(p.endRow, p.ncols), p.nrows, p.ncols)
    ensures out[..] == ApplyCells(inb[..], old(out[..]), p.nrows, p.ncols,
                                  RowCells(p.startRow - 1, p.ncols) + RowCells(p.endRow, p.ncols))
  {
    GolWorkerForRow(p.startRow - 1, p.ncols, p.nrows, inb, out);
    GolWorkerForRow(p.endRow, p.ncols, p.nrows, inb, out);
    ApplyCellsAppend(inb[..], old(out[..]), p.nrows, p.ncols, RowCells(p.startRow - 1, p.ncols), RowCells(p.endRow, p.ncols));
  }

  /** One pass of the edge loop: the board that has run the edge rows of
      the packages before i runs those of package i too. */
  method EdgePassNext(p: Package, inb: array<byte>, out: array<byte>, nrows: int, ncols: int,
                      ghost ps: seq<Package>, i: nat, ghost o: seq<byte>)
    requires Dims(nrows, ncols) && inb.Length >= nrows * ncols && out.Length == |o| >= nrows * ncols && inb != out
    requires i < |ps| && p.nrows == nrows && p.ncols == ncols && 1 <= p.startRow <= p.endRow < nrows
    requires p.startRow == ps[i].startRow && p.endRow == ps[i].endRow
    requires InGrid(EdgeSchedule(ps[..i], ncols), nrows, ncols)
    requires out[..] == ApplyCells(inb[..], o, nrows, ncols, EdgeSchedule(ps[..i], ncols))
    modifies out
    ensures InGrid(EdgeSchedule(ps[..i + 1], ncols), nrows, ncols)
    ensures out[..] == ApplyCells(inb[..], o, nrows, ncols, EdgeSchedule(ps[..i + 1], ncols))
  {
    ghost var b := out[..];
    EdgeRows(p, inb, out);
    EdgeScheduleNext(inb[..], o, b, out[..], nrows, ncols, ps, i);
  }

  /** The edge pass of `threaded_gol`: for each package in turn, its rows
      startRow - 1 and endRow, one at a time. */
  method EdgePass(inb: array<byte>, out: array<byte>, nrows: int, ncols: int, packages: array<Package>)
    requires Dims(nrows, ncols) && inb.Length >= nrows * ncols && out.Length >= nrows * ncols && inb != out
    requires Chained(packages[..]) && Reach(packages[..]) <= nrows
    requires forall k :: 0 <= k < packages.Length ==> packages[k].nrows == nrows && packages[k].ncols == ncols
    modifies out
    ensures InGrid(EdgeSchedule(packages[..], ncols), nrows, ncols)
    ensures out[..] == ApplyCells(inb[..], old(out[..]), nrows, ncols, EdgeSchedule(packages[..], ncols))
  {
    ghost var ps := packages[..];
    ghost var o := out[..];
    var i := 0;
    while i < packages.Length
      invariant 0 <= i <= packages.Length
      invariant InGrid(EdgeSchedule(ps[..i], ncols), nrows, ncols)
      invariant out[..] == ApplyCells(inb[..], o, nrows, ncols, EdgeSchedule(ps[..i], ncols))
    {
      ChainedRows(ps, i);
      EdgePassNext(packages[i], inb, out, nrows, ncols, ps, i, o);
      i := i + 1;
    }
    assert ps[..i] == ps;
  }

  /** The interior pass of `threaded_gol`: one worker per package, each over
      the rows strictly inside its chunk. The source runs the workers as
      threads; here they run one after the other. `InteriorFootprint` and
      `WorkersWriteApart` show that the workers write disjoint bytes, and
      `ScheduleOrderIrrelevant` that any other order leaves the same
      board. */
  method InteriorPass(inb: array<byte>, out: array<byte>, nrows: int, ncols: int, packages: array<Package>)
    requires Dims(nrows, ncols) && inb.Length >= nrows * ncols && out.Length >= nrows * ncols && inb != out
    requires Chained(packages[..]) && Reach(packages[..]) <= nrows
    requires forall k :: 0 <= k < packages.Length ==> packages[k].nrows == nrows && packages[k].ncols == ncols
    modifies out
    ensures InGrid(InteriorSchedule(packages[..], ncols), nrows, ncols)
    ensures out[..] == ApplyCells(inb[..], old(out[..]), nrows, ncols, InteriorSchedule(packages[..], ncols))
  {
    ghost var ps := packages[..];
    var i := 0;
    while i < packages.Length
      invariant 0 <= i <= packages.Length
      invariant InGrid(InteriorSchedule(ps[..i], ncols), nrows, ncols)
      invariant out[..] == ApplyCells(inb[..], old(out[..]), nrows, ncols, InteriorSchedule(ps[..i], ncols))
    {
      ChainedRows(ps, i);
      GolWorker(packages[i], inb, out);
      InteriorScheduleNext(inb[..], old(out[..]), nrows, ncols, ps, i);
      i := i + 1;
    }
    assert ps[..i] == ps;
  }

  /** The body of `threaded_gol`'s generation loop, before the swap: copy
      the input board to the output board, then the edge pass, then the
      interior pass. When the input board encodes the world `h`, the output
      board then encodes `h` one generation on, in the rows the packages
      reach. */
  method Generation(inb: array<byte>, out: array<byte>, nrows: int, ncols: int, packages: array<Package>,
                    ghost h: Grid)
    requires Dims(nrows, ncols) && inb.Length >= nrows * ncols && out.Length >= nrows * ncols && inb != out
    requires Chained(packages[..]) && Reach(packages[..]) <= nrows
    requires forall k :: 0 <= k < packages.Length ==> packages[k].nrows == nrows && packages[k].ncols == ncols
    requires Encodes(inb[..], h, nrows, ncols)
    modifies out
    ensures InGrid(GenerationSchedule(packages[..], ncols), nrows, ncols)
    ensures out[..] == ApplyCells(inb[..], inb[..nrows * ncols] + old(out[nrows * ncols..]), nrows, ncols,
                                  GenerationSchedule(packages[..], ncols))
    ensures Encodes(out[..], LifeStep(h, nrows, ncols, Reach(packages[..])), nrows, ncols)
  {
    CopyBoard(out, inb, nrows * ncols);
    ghost var copy := out[..];
    EdgePass(inb, out, nrows, ncols, packages);
    InteriorPass(inb, out, nrows, ncols, packages);
    ApplyCellsAppend(inb[..], copy, nrows, ncols, EdgeSchedule(packages[..], ncols), InteriorSchedule(packages[..], ncols));
    assert copy[..nrows * ncols] == inb[..nrows * ncols];
    GenerationIsLifeStep(inb[..], copy, h, packages[..], nrows, ncols);
  }

  /** The number of generations `threaded_gol` runs: its loop runs while
      `curgen < gens_max`, so a negative `gens_max` runs none. */
  function Gens(gensMax: int): (n: nat)
    ensures n == gensMax || (gensMax < 0 && n == 0)
  {
    if gensMax < 0 then 0 else gensMax
  }

  /** The closing loop of `threaded_gol`: every cell byte of the board,
      column by column, is shifted right by four, leaving the state bit
      where the count was. Bytes past the board stay as they were. */
  method FormatOutput(board: array<byte>, nrows: int, ncols: int)
    requires Dims(nrows, ncols) && board.Length >= nrows * ncols
    modifies board
    ensures forall k :: 0 <= k < board.Length ==>
      board[k] == if k < nrows * ncols then ShiftOutCount(old(board[k])) else old(board[k])
  {
    ghost var before := board[..];
    var j := 0;
    while j < ncols
      invariant 0 <= j <= ncols
      invariant forall k :: 0 <= k < board.Length ==>
        board[k] == if k < nrows * j then ShiftOutCount(before[k]) else before[k]
    {
      var nrowsxj := nrows * j;
      assert nrows * (j + 1) == nrowsxj + nrows;
      var i := 0;
      while i < nrows
        invariant 0 <= i <= nrows
        invariant forall k :: 0 <= k < board.Length ==>
          board[k] == if k < nrowsxj + i then ShiftOutCount(before[k]) else before[k]
      {
        CellInRange(nrows, ncols, i, j);
        board[Board(i, nrowsxj)] := ShiftOutCount(board[Board(i, nrowsxj)]);
        i := i + 1;
      }
      j := j + 1;
    }
  }

  /** The generation loop of `threaded_gol` over any chained packages:
      after it the board left as the input board encodes the world run for
      `gens_max` generations, each updating the rows the packages reach, and
      it is the original input board exactly when that number is even. */
  method RunGenerations(inboard: array<byte>, outboard: array<byte>, nrows: int, ncols: int, gensMax: int,
                        packages: array<Package>, ghost g: Grid)
    returns (inb: array<byte>, out: array<byte>)
    requires Dims(nrows, ncols) && inboard.Length >= nrows * ncols && outboard.Length >= nrows * ncols
    requires inboard != outboard && Encodes(inboard[..], g, nrows, ncols)
    requires Chained(packages[..]) && Reach(packages[..]) <= nrows
    requires forall k :: 0 <= k < packages.Length ==> packages[k].nrows == nrows && packages[k].ncols == ncols
    modifies inboard, outboard
    ensures inb == (if Gens(gensMax) % 2 == 0 then inboard else outboard)
    ensures out == (if Gens(gensMax) % 2 == 0 then outboard else inboard)
    ensures Encodes(inb[..], Run(g, nrows, ncols, Reach(packages[..]), Gens(gensMax)), nrows, ncols)
  {
    ghost var limit := Reach(packages[..]);
    inb, out := inboard, outboard;
    ghost var even := true;
    ghost var world := g;
    var curgen := 0;
    while curgen < gensMax
      invariant 0 <= curgen <= Gens(gensMax) && even == (curgen % 2 == 0)
      invariant inb == (if even then inboard else outboard) && out == (if even then outboard else inboard)
      invariant world == Run(g, nrows, ncols, limit, curgen) && Encodes(inb[..], world, nrows, ncols)
    {
      Generation(inb, out, nrows, ncols, packages, world);
      world := LifeStep(world, nrows, ncols, limit);
      out, inb := SwapBoards(out, inb);
      curgen := curgen + 1;
      even := !even;
    }
    assert curgen == Gens(gensMax);
  }

  /** Shifting out the counts of a board that encodes a world leaves, in
      each cell, 1 for a live cell and 0 for a dead one. */
  lemma Formatted(encoded: seq<byte>, formatted: seq<byte>, g: Grid, nrows: int, ncols: int)
    requires Encodes(encoded, g, nrows, ncols) && |formatted| == |encoded|
    requires forall k :: 0 <= k < nrows * ncols ==> formatted[k] == ShiftOutCount(encoded[k])
    ensures forall r, c :: 0 <= r < nrows && 0 <= c < ncols ==>
      formatted[CellIndex(nrows, ncols, r, c)] == B2I(g[r][c])
  {
    forall r, c | 0 <= r < nrows && 0 <= c < ncols
      ensures formatted[CellIndex(nrows, ncols, r, c)] == B2I(g[r][c])
    {
      CellInRange(nrows, ncols, r, c);
      assert CellEncodes(encoded, g, nrows, ncols, r, c);
      EncodeFields(g[r][c], NeighbourCount(g, nrows, ncols, r, c));
    }
  }

  /** `threaded_gol` with `num_threads` given: the packages, then `gens_max`
      generations of copy, edge pass, interior pass and swap, then the
      output format. The board it returns is the one the last swap left as
      the input board, and each of its cells is 1 or 0 as the cell is alive
      or dead after that many generations, where each generation updates
      the rows below num_threads * (nrows / num_threads) and leaves the
      rest as they were: the full Life step exactly when num_threads
      divides nrows. */
  method ThreadedGol(outboard: array<byte>, inboard: array<byte>, nrows: int, ncols: int, gensMax: int,
                     numThreads: int, ghost g: Grid)
    returns (result: array<byte>)
    requires Dims(nrows, ncols) && numThreads >= 1 && nrows / numThreads >= 2
    requires inboard.Length >= nrows * ncols && outboard.Length >= nrows * ncols && inboard != outboard
    requires Encodes(inboard[..], g, nrows, ncols)
    modifies inboard, outboard
    ensures result == if Gens(gensMax) % 2 == 0 then inboard else outboard
    ensures forall r, c :: 0 <= r < nrows && 0 <= c < ncols ==>
      result[CellIndex(nrows, ncols, r, c)] ==
        B2I(Run(g, nrows, ncols, numThreads * (nrows / numThreads), Gens(gensMax))[r][c])
    ensures nrows % numThreads == 0 ==> forall r, c :: 0 <= r < nrows && 0 <= c < ncols ==>
      result[CellIndex(nrows, ncols, r, c)] == B2I(Run(g, nrows, ncols, nrows, Gens(gensMax))[r][c])
  {
    var packages := SetUpPackages(nrows, ncols, numThreads);
    ThreadedPartition(nrows, ncols, numThreads);
    var inb, out := RunGenerations(inboard, outboard, nrows, ncols, gensMax, packages, g);
    ghost var encoded := inb[..];
    FormatOutput(inb, nrows, ncols);
    Formatted(encoded, inb[..], Run(g, nrows, ncols, Reach(packages[..]), Gens(gensMax)), nrows, ncols);
    result := inb;
  }
}

// The abstract world the kernel computes on: a grid of booleans on a torus
// (rows and columns wrap around), the eight wrapped neighbours of a cell in
// the order the kernel visits them, the neighbour count, the Life step, and
// the byte encoding that ties a board buffer to a grid.

module Torus {
  import opened Util

  /** A world: `g[r][c]` is whether the cell in row r, column c is alive. */
  type Grid = seq<seq<bool>>

  ghost predicate IsGrid(g: Grid, nrows: int, ncols: int)
  {
    |g| == nrows && forall r :: 0 <= r < nrows ==> |g[r]| == ncols
  }

  /** The kernel works on worlds of at least two rows and two columns (see
      `Util.ModOfMinusOneByOne` for what happens below that). */
  predicate Dims(nrows: int, ncols: int)
  {
    nrows >= 2 && ncols >= 2
  }

  function B2I(b: bool): int
  {
    if b then 1 else 0
  }

  // ---------------------------------------------------------------------
  // The eight wrapped neighbours
  // ---------------------------------------------------------------------

  /** Row offset of neighbour e, in the kernel's order: north-west, north,
      north-east, west, east, south-west, south, south-east. */
  function DRow(e: int): int
  {
    if e < 3 then -1 else if e < 5 then 0 else 1
  }

  /** Column offset of neighbour e, in the same order. */
  function DCol(e: int): int
  {
    if e == 0 || e == 3 || e == 5 then -1 else if e == 1 || e == 6 then 0 else 1
  }

  /** The coordinate x moved by a step d of at most one, wrapping around at
      both ends of [0, m). */
  function Wrap(m: int, x: int, d: int): (y: int)
    requires m >= 2 && 0 <= x < m && -1 <= d <= 1
    ensures 0 <= y < m
  {
    if x + d < 0 then x + d + m else if x + d == m then 0 else x + d
  }

  /** The kernel computes the wrapped coordinates as `mod(x + d, m)`. */
  lemma WrapIsMod(m: int, x: int, d: int)
    requires m >= 2 && 0 <= x < m && -1 <= d <= 1
    ensures Wrap(m, x, d) == Mod(x + d, m)
  {
    ModStep(x + d, m);
  }

  /** Row of neighbour e of a cell in row i (`inorth`, `i` or `isouth`). */
  function NbRow(nrows: int, i: int, e: int): (r: int)
    requires nrows >= 2 && 0 <= i < nrows
    ensures 0 <= r < nrows
  {
    Wrap(nrows, i, DRow(e))
  }

  /** Column of neighbour e of a cell in column j (`jwest`, `j` or `jeast`). */
  function NbCol(ncols: int, j: int, e: int): (c: int)
    requires ncols >= 2 && 0 <= j < ncols
    ensures 0 <= c < ncols
  {
    Wrap(ncols, j, DCol(e))
  }

  /** Stepping by d and then by -d comes back: wrapping is invertible. */
  lemma WrapInverse(m: int, x: int, d: int)
    requires m >= 2 && 0 <= x < m && -1 <= d <= 1
    ensures Wrap(m, Wrap(m, x, d), -d) == x
  {
  }

  /** Neighbour 7 - e is the opposite direction of neighbour e, so the cell
      is neighbour 7 - e of its own neighbour e. */
  lemma NeighbourOpposite(nrows: int, ncols: int, i: int, j: int, e: int)
    requires Dims(nrows, ncols) && 0 <= i < nrows && 0 <= j < ncols && 0 <= e < 8
    ensures NbRow(nrows, NbRow(nrows, i, e), 7 - e) == i
    ensures NbCol(ncols, NbCol(ncols, j, e), 7 - e) == j
  {
    assert DRow(7 - e) == -DRow(e) && DCol(7 - e) == -DCol(e);
    WrapInverse(nrows, i, DRow(e));
    WrapInverse(ncols, j, DCol(e));
  }

  // ---------------------------------------------------------------------
  // Counting
  // ---------------------------------------------------------------------

  /** 1 if neighbour e of (r, c) is alive in g. */
  ghost function Live(g: Grid, nrows: int, ncols: int, r: int, c: int, e: int): int
    requires Dims(nrows, ncols) && IsGrid(g, nrows, ncols)
    requires 0 <= r < nrows && 0 <= c < ncols
  {
    B2I(g[NbRow(nrows, r, e)][NbCol(ncols, c, e)])
  }

  /** The number of neighbours of a cell: the kernel visits eight. */
  function Slots(): nat
  {
    8
  }

  /** The number of live cells among the first n neighbours of (r, c). */
  ghost function LiveBelow(g: Grid, nrows: int, ncols: int, r: int, c: int, n: nat): (x: int)
    requires Dims(nrows, ncols) && IsGrid(g, nrows, ncols)
    requires 0 <= r < nrows && 0 <= c < ncols
    ensures 0 <= x <= n
    decreases n
  {
    if n == 0 then 0 else LiveBelow(g, nrows, ncols, r, c, n - 1) + Live(g, nrows, ncols, r, c, n - 1)
  }

  /** The number of live cells among the eight wrapped neighbours of (r, c),
      counted with multiplicity (on a world two cells wide the west and the
      east neighbour are the same cell, and it is counted twice, as the
      kernel's notifications do). */
  ghost function NeighbourCount(g: Grid, nrows: int, ncols: int, r: int, c: int): (n: int)
    requires Dims(nrows, ncols) && IsGrid(g, nrows, ncols)
    requires 0 <= r < nrows && 0 <= c < ncols
    ensures 0 <= n <= 8
  {
    LiveBelow(g, nrows, ncols, r, c, Slots())
  }

  /** 1 if neighbour e of (i, j) is the cell (r, c). */
  function Hit(nrows: int, ncols: int, i: int, j: int, r: int, c: int, e: int): int
    requires Dims(nrows, ncols) && 0 <= i < nrows && 0 <= j < ncols
  {
    if NbRow(nrows, i, e) == r && NbCol(ncols, j, e) == c then 1 else 0
  }

  /** How many of the first n neighbours of (i, j) are the cell (r, c). */
  function HitCount(nrows: int, ncols: int, i: int, j: int, r: int, c: int, n: nat): int
    requires Dims(nrows, ncols) && 0 <= i < nrows && 0 <= j < ncols
    decreases n
  {
    if n == 0 then 0 else HitCount(nrows, ncols, i, j, r, c, n - 1) + Hit(nrows, ncols, i, j, r, c, n - 1)
  }

  /** How many of the eight notifications sent by (i, j) land on (r, c). */
  function Hits(nrows: int, ncols: int, i: int, j: int, r: int, c: int): int
    requires Dims(nrows, ncols) && 0 <= i < nrows && 0 <= j < ncols
  {
    HitCount(nrows, ncols, i, j, r, c, Slots())
  }

  /** The eight terms of `Hits`, written out. */
  lemma HitsUnrolled(nrows: int, ncols: int, i: int, j: int, r: int, c: int)
    requires Dims(nrows, ncols) && 0 <= i < nrows && 0 <= j < ncols
    ensures Hits(nrows, ncols, i, j, r, c) ==
      Hit(nrows, ncols, i, j, r, c, 0) + Hit(nrows, ncols, i, j, r, c, 1) +
      Hit(nrows, ncols, i, j, r, c, 2) + Hit(nrows, ncols, i, j, r, c, 3) +
      Hit(nrows, ncols, i, j, r, c, 4) + Hit(nrows, ncols, i, j, r, c, 5) +
      Hit(nrows, ncols, i, j, r, c, 6) + Hit(nrows, ncols, i, j, r, c, 7)
  {
    assert HitCount(nrows, ncols, i, j, r, c, 2) == Hit(nrows, ncols, i, j, r, c, 0) + Hit(nrows, ncols, i, j, r, c, 1);
    assert HitCount(nrows, ncols, i, j, r, c, 4) == HitCount(nrows, ncols, i, j, r, c, 2) +
      Hit(nrows, ncols, i, j, r, c, 2) + Hit(nrows, ncols, i, j, r, c, 3);
    assert HitCount(nrows, ncols, i, j, r, c, 6) == HitCount(nrows, ncols, i, j, r, c, 4) +
      Hit(nrows, ncols, i, j, r, c, 4) + Hit(nrows, ncols, i, j, r, c, 5);
    assert HitCount(nrows, ncols, i, j, r, c, 8) == HitCount(nrows, ncols, i, j, r, c, 6) +
      Hit(nrows, ncols, i, j, r, c, 6) + Hit(nrows, ncols, i, j, r, c, 7);
  }

  /** Neighbour e of (i, j) is (r, c) exactly when neighbour 7 - e of (r, c)
      is (i, j). */
  lemma HitOpposite(nrows: int, ncols: int, i: int, j: int, r: int, c: int, e: int)
    requires Dims(nrows, ncols) && 0 <= i < nrows && 0 <= j < ncols
    requires 0 <= r < nrows && 0 <= c < ncols && 0 <= e < 8
    ensures Hit(nrows, ncols, i, j, r, c, e) == Hit(nrows, ncols, r, c, i, j, 7 - e)
  {
    NeighbourOpposite(nrows, ncols, i, j, e);
    NeighbourOpposite(nrows, ncols, r, c, 7 - e);
  }

  /** The neighbour relation is symmetric, with multiplicity: (i, j) notifies
      (r, c) as many times as (r, c) notifies (i, j). */
  lemma HitsSymmetric(nrows: int, ncols: int, i: int, j: int, r: int, c: int)
    requires Dims(nrows, ncols) && 0 <= i < nrows && 0 <= j < ncols
    requires 0 <= r < nrows && 0 <= c < ncols
    ensures Hits(nrows, ncols, i, j, r, c) == Hits(nrows, ncols, r, c, i, j)
  {
    HitsUnrolled(nrows, ncols, i, j, r, c);
    HitsUnrolled(nrows, ncols, r, c, i, j);
    HitOpposite(nrows, ncols, i, j, r, c, 0);
    HitOpposite(nrows, ncols, i, j, r, c, 1);
    HitOpposite(nrows, ncols, i, j, r, c, 2);
    HitOpposite(nrows, ncols, i, j, r, c, 3);
    HitOpposite(nrows, ncols, i, j, r, c, 4);
    HitOpposite(nrows, ncols, i, j, r, c, 5);
    HitOpposite(nrows, ncols, i, j, r, c, 6);
    HitOpposite(nrows, ncols, i, j, r, c, 7);
  }

  /** Two worlds that differ at most in the cell (i, j). */
  ghost predicate DifferAtMost(g: Grid, h: Grid, nrows: int, ncols: int, i: int, j: int)
    requires IsGrid(g, nrows, ncols) && IsGrid(h, nrows, ncols)
  {
    forall r, c :: 0 <= r < nrows && 0 <= c < ncols && (r, c) != (i, j) ==> h[r][c] == g[r][c]
  }

  /** The change that turning a cell from `was` to `now` makes to a count
      that sees the cell x times. */
  function Flip(was: bool, now: bool, x: int): int
  {
    if was == now then 0 else if now then x else -x
  }

  /** Changing one cell changes the neighbour count of (r, c) by one for
      each time (r, c) sees that cell: up for a birth, down for a death. */
  lemma CountFlip(g: Grid, h: Grid, nrows: int, ncols: int, i: int, j: int, r: int, c: int)
    requires Dims(nrows, ncols) && IsGrid(g, nrows, ncols) && IsGrid(h, nrows, ncols)
    requires 0 <= i < nrows && 0 <= j < ncols && 0 <= r < nrows && 0 <= c < ncols
    requires DifferAtMost(g, h, nrows, ncols, i, j)
    ensures NeighbourCount(h, nrows, ncols, r, c) ==
      NeighbourCount(g, nrows, ncols, r, c) + Flip(g[i][j], h[i][j], Hits(nrows, ncols, r, c, i, j))
  {
    CountFlipBelow(g, h, nrows, ncols, i, j, r, c, Slots());
  }

  /** `CountFlip` for the first n neighbours. */
  lemma {:induction false} CountFlipBelow(g: Grid, h: Grid, nrows: int, ncols: int, i: int, j: int, r: int, c: int, n: nat)
    requires Dims(nrows, ncols) && IsGrid(g, nrows, ncols) && IsGrid(h, nrows, ncols)
    requires 0 <= i < nrows && 0 <= j < ncols && 0 <= r < nrows && 0 <= c < ncols
    requires DifferAtMost(g, h, nrows, ncols, i, j)
    ensures LiveBelow(h, nrows, ncols, r, c, n) ==
      LiveBelow(g, nrows, ncols, r, c, n) + Flip(g[i][j], h[i][j], HitCount(nrows, ncols, r, c, i, j, n))
    decreases n
  {
    if n > 0 {
      CountFlipBelow(g, h, nrows, ncols, i, j, r, c, n - 1);
      LiveFlip(g, h, nrows, ncols, i, j, r, c, n - 1);
    }
  }

  lemma LiveFlip(g: Grid, h: Grid, nrows: int, ncols: int, i: int, j: int, r: int, c: int, e: int)
    requires Dims(nrows, ncols) && IsGrid(g, nrows, ncols) && IsGrid(h, nrows, ncols)
    requires 0 <= i < nrows && 0 <= j < ncols && 0 <= r < nrows && 0 <= c < ncols
    requires DifferAtMost(g, h, nrows, ncols, i, j)
    ensures Live(h, nrows, ncols, r, c, e) ==
      Live(g, nrows, ncols, r, c, e) + Flip(g[i][j], h[i][j], Hit(nrows, ncols, r, c, i, j, e))
  {
    var nr, nc := NbRow(nrows, r, e), NbCol(ncols, c, e);
    if (nr, nc) != (i, j) {
      assert h[nr][nc] == g[nr][nc];
    }
  }

  // ---------------------------------------------------------------------
  // The Life step
  // ---------------------------------------------------------------------

  /** Whether (r, c) is alive in the next generation: `alivep` applied to its
      neighbour count and its state. */
  ghost function NextAlive(g: Grid, nrows: int, ncols: int, r: int, c: int): bool
    requires Dims(nrows, ncols) && IsGrid(g, nrows, ncols)
    requires 0 <= r < nrows && 0 <= c < ncols
  {
    AliveP(NeighbourCount(g, nrows, ncols, r, c), B2I(g[r][c])) == 1
  }

  /** One generation applied to the rows below `limit`; the rows from
      `limit` on keep their state. With `limit == nrows` this is the full
      Life step. */
  ghost function LifeStep(g: Grid, nrows: int, ncols: int, limit: int): (h: Grid)
    requires Dims(nrows, ncols) && IsGrid(g, nrows, ncols)
    ensures IsGrid(h, nrows, ncols)
  {
    seq(nrows, r requires 0 <= r < nrows =>
      seq(ncols, c requires 0 <= c < ncols =>
        if r < limit then NextAlive(g, nrows, ncols, r, c) else g[r][c]))
  }

  /** The full Life step on the torus. */
  ghost function Next(g: Grid, nrows: int, ncols: int): (h: Grid)
    requires Dims(nrows, ncols) && IsGrid(g, nrows, ncols)
    ensures IsGrid(h, nrows, ncols)
  {
    LifeStep(g, nrows, ncols, nrows)
  }

  /** `n` generations of `LifeStep` with the same limit. */
  ghost function Run(g: Grid, nrows: int, ncols: int, limit: int, n: nat): (h: Grid)
    requires Dims(nrows, ncols) && IsGrid(g, nrows, ncols)
    ensures IsGrid(h, nrows, ncols)
    decreases n
  {
    if n == 0 then g else LifeStep(Run(g, nrows, ncols, limit, n - 1), nrows, ncols, limit)
  }

  /** The grid that is `h` on the cells of P and `g` elsewhere: the world as
      the output buffer shows it once the cells of P have been processed. */
  ghost function Mix(g: Grid, h: Grid, P: set<(int, int)>, nrows: int, ncols: int): (m: Grid)
    requires Dims(nrows, ncols)
    requires IsGrid(g, nrows, ncols) && IsGrid(h, nrows, ncols)
    ensures IsGrid(m, nrows, ncols)
    ensures forall r, c :: 0 <= r < nrows && 0 <= c < ncols ==>
      m[r][c] == if (r, c) in P then h[r][c] else g[r][c]
  {
    seq(nrows, r requires 0 <= r < nrows =>
      seq(ncols, c requires 0 <= c < ncols =>
        if (r, c) in P then h[r][c] else g[r][c]))
  }

  // ---------------------------------------------------------------------
  // Boards and grids
  // ---------------------------------------------------------------------

  /** A board buffer encodes a world when every cell's byte holds the cell's
      state in bit 4 and its neighbour count in the low four bits, with the
      reserved bits clear: the state the kernel keeps between generations. */
  ghost predicate Encodes(b: seq<byte>, g: Grid, nrows: int, ncols: int)
  {
    Dims(nrows, ncols) && IsGrid(g, nrows, ncols) && |b| >= nrows * ncols &&
    forall r, c :: 0 <= r < nrows && 0 <= c < ncols ==> CellEncodes(b, g, nrows, ncols, r, c)
  }

  /** The byte of cell (r, c) holds its state and its neighbour count. */
  ghost predicate CellEncodes(b: seq<byte>, g: Grid, nrows: int, ncols: int, r: int, c: int)
    requires Dims(nrows, ncols) && IsGrid(g, nrows, ncols) && |b| >= nrows * ncols
    requires 0 <= r < nrows && 0 <= c < ncols
  {
    b[CellIndex(nrows, ncols, r, c)] == Encode(g[r][c], NeighbourCount(g, nrows, ncols, r, c))
  }

  /** The world whose states are bit 4 of the cells of a board. */
  ghost function AliveGrid(b: seq<byte>, nrows: int, ncols: int): (g: Grid)
    requires nrows >= 1 && ncols >= 1 && |b| >= nrows * ncols
    ensures IsGrid(g, nrows, ncols)
    ensures forall r, c :: 0 <= r < nrows && 0 <= c < ncols ==>
      g[r][c] == IsAlive(b[CellIndex(nrows, ncols, r, c)])
  {
    seq(nrows, r requires 0 <= r < nrows =>
      seq(ncols, c requires 0 <= c < ncols => IsAlive(b[CellIndex(nrows, ncols, r, c)])))
  }

  /** A board determines the world it encodes: the world is its alive bits. */
  lemma EncodedWorldIsAliveBits(b: seq<byte>, g: Grid, nrows: int, ncols: int)
    requires Encodes(b, g, nrows, ncols)
    ensures g == AliveGrid(b, nrows, ncols)
  {
    var a := AliveGrid(b, nrows, ncols);
    forall r | 0 <= r < nrows
      ensures g[r] == a[r]
    {
      forall c | 0 <= c < ncols
        ensures g[r][c] == a[r][c]
      {
        EncodedCellAlive(b, g, nrows, ncols, r, c);
      }
    }
  }

  lemma EncodedCellAlive(b: seq<byte>, g: Grid, nrows: int, ncols: int, r: int, c: int)
    requires Encodes(b, g, nrows, ncols) && 0 <= r < nrows && 0 <= c < ncols
    ensures IsAlive(b[CellIndex(nrows, ncols, r, c)]) == g[r][c]
  {
    assert CellEncodes(b, g, nrows, ncols, r, c);
    EncodeFields(g[r][c], NeighbourCount(g, nrows, ncols, r, c));
  }

  /** Two boards that encode the same world agree on every cell, so a board
      state is fixed by the world it encodes. */
  lemma EncodingDetermines(b1: seq<byte>, b2: seq<byte>, g: Grid, nrows: int, ncols: int)
    requires Encodes(b1, g, nrows, ncols) && Encodes(b2, g, nrows, ncols)
    ensures b1[..nrows * ncols] == b2[..nrows * ncols]
  {
    forall k | 0 <= k < nrows * ncols
      ensures b1[k] == b2[k]
    {
      CellIndexOnto(nrows, ncols, k);
      var r, c := k % nrows, k / nrows;
      assert CellEncodes(b1, g, nrows, ncols, r, c) && CellEncodes(b2, g, nrows, ncols, r, c);
    }
  }
}

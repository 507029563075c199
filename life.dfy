// The Life kernel of life.c: the per-cell update shared by `gol_worker` and
// `gol_worker_for_row`, the two workers, the partition of the rows into
// chunks, one generation (copy, edge rows, chunk interiors) and the
// generation loop of `threaded_gol` with its final `>> 4`.
//
// The update of one cell is specified by the pure function `CellEffect`,
// and a pass over many cells by `ApplyCells`, the same effect folded over a
// schedule of cells. The lemmas below show that, when the input board
// encodes a world, every schedule that visits each cell of a set once leaves
// the output board encoding the world with exactly those cells advanced one
// generation: the order of the visits does not matter.

module Life {
  import opened Util
  import opened Torus

  // ---------------------------------------------------------------------
  // The decision on one cell
  // ---------------------------------------------------------------------

  /** A board byte read as the kernel's (signed) `char`. */
  function SignedChar(b: byte): (v: int)
    ensures -128 <= v < 128
    ensures v == b || v == b - 256
  {
    if b < 128 then b else b - 256
  }

  datatype Fate = Unchanged | Born | Dies

  /** What the loop body decides from the cell's byte in the input board: a
      dead cell whose byte is exactly 3 is born; a live cell whose byte is at
      most 0x11 or at least 0x14 (as a signed char) dies. */
  function Decide(cell: byte): (f: Fate)
    ensures f == Born ==> !IsAlive(cell)
    ensures f == Dies ==> IsAlive(cell)
  {
    if !IsAlive(cell) then
      if SignedChar(cell) == 3 then Born else Unchanged
    else if SignedChar(cell) <= 0x11 || SignedChar(cell) >= 0x14 then Dies
    else Unchanged
  }

  /** The fate of a cell that was `was` and will be `will`. */
  function FateOf(was: bool, will: bool): Fate
  {
    if was == will then Unchanged else if will then Born else Dies
  }

  /** The change in the alive flag that a fate makes. */
  function Delta(f: Fate): int
  {
    match f
    case Unchanged => 0
    case Born => 1
    case Dies => -1
  }

  /** On an encoded cell, the byte tests of the loop body are the Life rule
      of `alivep`: the cell is born or dies exactly when `alivep` gives a
      state different from the current one. */
  lemma DecideIsLifeRule(alive: bool, count: int)
    requires 0 <= count <= 8
    ensures Decide(Encode(alive, count)) == FateOf(alive, AliveP(count, B2I(alive)) == 1)
  {
    AlivePIsLifeRule(count, B2I(alive));
  }

  // ---------------------------------------------------------------------
  // Notifying the neighbours
  // ---------------------------------------------------------------------

  /** The board index of neighbour e of (i, j): `BOARD(outboard, inorth,
      nrows_jwest)` and its seven siblings. */
  function NbIndex(nrows: int, ncols: int, i: int, j: int, e: int): (k: int)
    requires Dims(nrows, ncols) && 0 <= i < nrows && 0 <= j < ncols
    ensures 0 <= k < nrows * ncols
  {
    CellIndex(nrows, ncols, NbRow(nrows, i, e), NbCol(ncols, j, e))
  }

  /** `++` (d = 1, `INCREMENT_NEIGHBOURS`) or `--` (d = -1,
      `DECREMENT_NEIGHBOURS`) on one byte. */
  function Bump(b: byte, d: int): byte
  {
    if d == 1 then Increment(b) else Decrement(b)
  }

  /** The board indices the eight notifications of (i, j) go to, in the
      order the loop body sends them: NW, N, NE, W, E, SW, S, SE. */
  function Targets(nrows: int, ncols: int, i: int, j: int): (t: seq<int>)
    requires Dims(nrows, ncols) && 0 <= i < nrows && 0 <= j < ncols
    ensures |t| == Slots()
    ensures forall e :: 0 <= e < |t| ==> 0 <= t[e] < nrows * ncols
  {
    seq(Slots(), e requires 0 <= e < Slots() => NbIndex(nrows, ncols, i, j, e))
  }

  /** Every target is inside the board. */
  ghost predicate InBoard(t: seq<int>, size: int)
  {
    forall e :: 0 <= e < |t| ==> 0 <= t[e] < size
  }

  /** The board after the first n notifications to the targets t. */
  function Notify(out: seq<byte>, t: seq<int>, d: int, n: nat): (r: seq<byte>)
    requires n <= |t| && InBoard(t, |out|)
    ensures |r| == |out|
    ensures forall x {:trigger r[x], out[x]} :: 0 <= x < |out| && x !in t[..n] ==> r[x] == out[x]
    decreases n
  {
    if n == 0 then out
    else
      var o := Notify(out, t, d, n - 1);
      o[t[n - 1] := Bump(o[t[n - 1]], d)]
  }

  /** How many of the first n notifications go to index k. */
  function HitsBelow(t: seq<int>, k: int, n: nat): (h: int)
    requires n <= |t|
    ensures 0 <= h <= n
    decreases n
  {
    if n == 0 then 0
    else HitsBelow(t, k, n - 1) + (if t[n - 1] == k then 1 else 0)
  }

  /** h notifications in direction d: +h for `++`, -h for `--`. */
  function Signed(d: int, h: int): int
  {
    if d == 1 then h else -h
  }

  /** After the first n notifications a byte has moved by one, up for `++`
      and down for `--`, once per notification that reached it, as long as
      the count stays within the byte (it does on an encoded board, whose
      counts are at most 8). */
  /** How many of the notifications to the targets t go to index k. */
  function HitsTo(t: seq<int>, k: int): (h: int)
    ensures 0 <= h <= |t|
  {
    HitsBelow(t, k, |t|)
  }

  lemma {:induction false} NotifyValue(out: seq<byte>, t: seq<int>, d: int, n: nat, k: int)
    requires n <= |t| && InBoard(t, |out|) && 0 <= k < |out| && (d == 1 || d == -1)
    requires 0 <= out[k] + Signed(d, HitsBelow(t, k, n)) < 256
    ensures Notify(out, t, d, n)[k] == out[k] + Signed(d, HitsBelow(t, k, n))
    decreases n
  {
    if n > 0 {
      NotifyValue(out, t, d, n - 1, k);
    }
  }

  /** The eight notifications of (i, j) reach the cell (r, c) as many times
      as (r, c) is a wrapped neighbour of (i, j). */
  lemma HitsBelowAtCell(nrows: int, ncols: int, i: int, j: int, r: int, c: int)
    requires Dims(nrows, ncols) && 0 <= i < nrows && 0 <= j < ncols
    requires 0 <= r < nrows && 0 <= c < ncols
    ensures HitsTo(Targets(nrows, ncols, i, j), CellIndex(nrows, ncols, r, c)) == Hits(nrows, ncols, i, j, r, c)
  {
    HitsBelowIsHitCount(nrows, ncols, i, j, r, c, Slots());
  }

  lemma {:induction false} HitsBelowIsHitCount(nrows: int, ncols: int, i: int, j: int, r: int, c: int, n: nat)
    requires Dims(nrows, ncols) && 0 <= i < nrows && 0 <= j < ncols
    requires 0 <= r < nrows && 0 <= c < ncols && n <= Slots()
    ensures HitsBelow(Targets(nrows, ncols, i, j), CellIndex(nrows, ncols, r, c), n) == HitCount(nrows, ncols, i, j, r, c, n)
    decreases n
  {
    if n > 0 {
      HitsBelowIsHitCount(nrows, ncols, i, j, r, c, n - 1);
      CellIndexInjective(nrows, ncols, NbRow(nrows, i, n - 1), NbCol(ncols, j, n - 1), r, c);
    }
  }

  /** Indices outside the targets' range are never notified. */
  lemma {:induction false} HitsBelowOutside(t: seq<int>, size: int, k: int, n: nat)
    requires n <= |t| && InBoard(t, size) && k >= size
    ensures HitsBelow(t, k, n) == 0
    decreases n
  {
    if n > 0 {
      HitsBelowOutside(t, size, k, n - 1);
    }
  }

  // ---------------------------------------------------------------------
  // One cell, and a schedule of cells
  // ---------------------------------------------------------------------

  /** What a fate does to the output board, for the cell at index k whose
      neighbours are the targets t: nothing when the cell keeps its state;
      on a birth bit 4 set and every target `++`; on a death bit 4 cleared
      and every target `--`. */
  function Effect(f: Fate, out: seq<byte>, k: int, t: seq<int>): (r: seq<byte>)
    requires 0 <= k < |out| && |t| == Slots() && InBoard(t, |out|)
    ensures |r| == |out|
    ensures forall x {:trigger r[x]} :: 0 <= x < |out| && x != k && x !in t ==> r[x] == out[x]
  {
    assert t[..|t|] == t;
    match f
    case Unchanged => out
    case Born => Notify(out[k := SetAlive(out[k])], t, 1, |t|)
    case Dies => Notify(out[k := SetDead(out[k])], t, -1, |t|)
  }

  /** The loop body for cell (i, j), on the output board, given the input
      board: the effect of the fate the cell's input byte decides. */
  function CellEffect(inb: seq<byte>, out: seq<byte>, nrows: int, ncols: int, i: int, j: int): (r: seq<byte>)
    requires Dims(nrows, ncols) && 0 <= i < nrows && 0 <= j < ncols
    requires |inb| >= nrows * ncols && |out| >= nrows * ncols
    ensures |r| == |out|
    ensures forall x {:trigger r[x]} :: nrows * ncols <= x < |out| ==> r[x] == out[x]
  {
    var k := CellIndex(nrows, ncols, i, j);
    Effect(Decide(inb[k]), out, k, Targets(nrows, ncols, i, j))
  }

  /** The world the output board shows once the cells of P have been
      processed: the next generation on P, the current one elsewhere. */
  ghost function Partial(g: Grid, P: set<(int, int)>, nrows: int, ncols: int): (m: Grid)
    requires Dims(nrows, ncols) && IsGrid(g, nrows, ncols)
    ensures IsGrid(m, nrows, ncols)
  {
    Mix(g, Next(g, nrows, ncols), P, nrows, ncols)
  }

  /** On an encoded cell the loop body's decision is the Life rule. */
  lemma FateFact(inb: seq<byte>, g: Grid, nrows: int, ncols: int, i: int, j: int)
    requires Dims(nrows, ncols) && IsGrid(g, nrows, ncols) && |inb| >= nrows * ncols
    requires 0 <= i < nrows && 0 <= j < ncols
    requires CellEncodes(inb, g, nrows, ncols, i, j)
    ensures Decide(inb[CellIndex(nrows, ncols, i, j)]) == FateOf(g[i][j], NextAlive(g, nrows, ncols, i, j))
  {
    DecideIsLifeRule(g[i][j], NeighbourCount(g, nrows, ncols, i, j));
  }

  /** Adding (i, j) to the processed cells changes the shown world only at
      (i, j), from its current state to its next one. */
  lemma PartialStep(g: Grid, P: set<(int, int)>, nrows: int, ncols: int, i: int, j: int)
    requires Dims(nrows, ncols) && IsGrid(g, nrows, ncols)
    requires 0 <= i < nrows && 0 <= j < ncols && (i, j) !in P
    ensures var m := Partial(g, P, nrows, ncols);
      var m' := Partial(g, P + {(i, j)}, nrows, ncols);
      && m[i][j] == g[i][j] && m'[i][j] == NextAlive(g, nrows, ncols, i, j)
      && DifferAtMost(m, m', nrows, ncols, i, j)
  {
  }

  /** When a world changes at most at (i, j), the count of (r, c) moves by
      one per notification (i, j) sends to it, up for a birth and down for a
      death. */
  lemma WorldAt(m: Grid, m': Grid, nrows: int, ncols: int, i: int, j: int, r: int, c: int)
    requires Dims(nrows, ncols) && IsGrid(m, nrows, ncols) && IsGrid(m', nrows, ncols)
    requires 0 <= i < nrows && 0 <= j < ncols && 0 <= r < nrows && 0 <= c < ncols
    requires DifferAtMost(m, m', nrows, ncols, i, j)
    ensures m'[r][c] == if (r, c) == (i, j) then m'[i][j] else m[r][c]
    ensures NeighbourCount(m', nrows, ncols, r, c) == NeighbourCount(m, nrows, ncols, r, c) +
      Flip(m[i][j], m'[i][j], HitsTo(Targets(nrows, ncols, i, j), CellIndex(nrows, ncols, r, c)))
  {
    CountFlip(m, m', nrows, ncols, i, j, r, c);
    HitsSymmetric(nrows, ncols, r, c, i, j);
    HitsBelowAtCell(nrows, ncols, i, j, r, c);
  }

  /** The byte of a cell after a birth at (i, j): bit 4 set if it is the
      cell itself, and the count raised by the notifications it received. */
  lemma BornByte(out: seq<byte>, k: int, kk: int, alive: bool, n: int, h: int, self: bool)
    requires 0 <= k < |out| && 0 <= kk < |out| && self == (kk == k)
    requires 0 <= n <= 8 && 0 <= n + h <= 8 && out[kk] == Encode(alive, n) && (self ==> !alive)
    ensures out[k := SetAlive(out[k])][kk] + h == Encode(self || alive, n + h)
  {
  }

  /** The byte of a cell after a death at (i, j): bit 4 cleared if it is the
      cell itself, and the count lowered by the notifications it received. */
  lemma DiesByte(out: seq<byte>, k: int, kk: int, alive: bool, n: int, h: int, self: bool)
    requires 0 <= k < |out| && 0 <= kk < |out| && self == (kk == k)
    requires 0 <= n <= 8 && 0 <= n - h <= 8 && out[kk] == Encode(alive, n) && (self ==> alive)
    ensures out[k := SetDead(out[k])][kk] - h == Encode(alive && !self, n - h)
  {
  }

  /** The byte at index kk after a birth of the cell at index k, which
      sets bit 4 at k and sends `++` to the targets t: `alive` and `n` are
      the state and count the byte held before. */
  lemma BornCell(out: seq<byte>, t: seq<int>, k: int, kk: int, alive: bool, n: int, self: bool)
    requires |t| == Slots() && InBoard(t, |out|) && 0 <= k < |out| && 0 <= kk < |out|
    requires self == (kk == k)
    requires 0 <= n <= 8 && 0 <= n + HitsTo(t, kk) <= 8
    requires out[kk] == Encode(alive, n) && (self ==> !alive)
    ensures Effect(Born, out, k, t)[kk] == Encode(self || alive, n + HitsTo(t, kk))
  {
    var o := out[k := SetAlive(out[k])];
    var h := HitsTo(t, kk);
    BornByte(out, k, kk, alive, n, h, self);
    NotifyValue(o, t, 1, |t|, kk);
    assert Effect(Born, out, k, t) == Notify(o, t, 1, |t|);
  }

  /** The byte at index kk after a death of the cell at index k, which
      clears bit 4 at k and sends `--` to the targets t. */
  lemma DiesCell(out: seq<byte>, t: seq<int>, k: int, kk: int, alive: bool, n: int, self: bool)
    requires |t| == Slots() && InBoard(t, |out|) && 0 <= k < |out| && 0 <= kk < |out|
    requires self == (kk == k)
    requires 0 <= n <= 8 && 0 <= n - HitsTo(t, kk) <= 8
    requires out[kk] == Encode(alive, n) && (self ==> alive)
    ensures Effect(Dies, out, k, t)[kk] == Encode(alive && !self, n - HitsTo(t, kk))
  {
    var o := out[k := SetDead(out[k])];
    var h := HitsTo(t, kk);
    DiesByte(out, k, kk, alive, n, h, self);
    NotifyValue(o, t, -1, |t|, kk);
    assert Effect(Dies, out, k, t) == Notify(o, t, -1, |t|);
  }

  /** Processing (i, j) keeps the output board consistent, seen at one cell
      (r, c): if the board encodes a world m and the input byte of (i, j)
      decides the change from m to m', which differs from m at most at
      (i, j), the byte of (r, c) afterwards encodes m'. */
  lemma CellStepAt(inb: seq<byte>, out: seq<byte>, m: Grid, m': Grid,
                   nrows: int, ncols: int, i: int, j: int, r: int, c: int)
    requires Dims(nrows, ncols) && IsGrid(m, nrows, ncols) && IsGrid(m', nrows, ncols)
    requires |inb| >= nrows * ncols && |out| >= nrows * ncols
    requires 0 <= i < nrows && 0 <= j < ncols && 0 <= r < nrows && 0 <= c < ncols
    requires Decide(inb[CellIndex(nrows, ncols, i, j)]) == FateOf(m[i][j], m'[i][j])
    requires DifferAtMost(m, m', nrows, ncols, i, j)
    requires CellEncodes(out, m, nrows, ncols, r, c)
    ensures CellEncodes(CellEffect(inb, out, nrows, ncols, i, j), m', nrows, ncols, r, c)
  {
    var k := CellIndex(nrows, ncols, i, j);
    var kk := CellIndex(nrows, ncols, r, c);
    var t := Targets(nrows, ncols, i, j);
    WorldAt(m, m', nrows, ncols, i, j, r, c);
    CellIndexInjective(nrows, ncols, i, j, r, c);
    match Decide(inb[k])
    case Unchanged =>
    case Born =>
      BornAt(out, m, m', nrows, ncols, r, c, t, k, kk == k);
      assert CellEffect(inb, out, nrows, ncols, i, j) == Effect(Born, out, k, t);
    case Dies =>
      DiesAt(out, m, m', nrows, ncols, r, c, t, k, kk == k);
      assert CellEffect(inb, out, nrows, ncols, i, j) == Effect(Dies, out, k, t);
  }

  /** The byte of (r, c) after a birth of the cell at index k, whose
      notifications go to the targets t: it encodes m' when it encoded m,
      and m' differs from m only as the birth and its notifications say. */
  lemma BornAt(out: seq<byte>, m: Grid, m': Grid, nrows: int, ncols: int, r: int, c: int,
                 t: seq<int>, k: int, self: bool)
    requires Dims(nrows, ncols) && IsGrid(m, nrows, ncols) && IsGrid(m', nrows, ncols)
    requires |out| >= nrows * ncols && 0 <= r < nrows && 0 <= c < ncols
    requires |t| == Slots() && InBoard(t, |out|) && 0 <= k < |out|
    requires self == (CellIndex(nrows, ncols, r, c) == k)
    requires m'[r][c] == (self || m[r][c]) && (self ==> !m[r][c])
    requires NeighbourCount(m', nrows, ncols, r, c) ==
      NeighbourCount(m, nrows, ncols, r, c) + HitsTo(t, CellIndex(nrows, ncols, r, c))
    requires CellEncodes(out, m, nrows, ncols, r, c)
    ensures CellEncodes(Effect(Born, out, k, t), m', nrows, ncols, r, c)
  {
    BornCell(out, t, k, CellIndex(nrows, ncols, r, c), m[r][c], NeighbourCount(m, nrows, ncols, r, c), self);
  }

  /** The byte of (r, c) after a death of the cell at index k, whose
      notifications go to the targets t: it encodes m' when it encoded m,
      and m' differs from m only as the death and its notifications say. */
  lemma DiesAt(out: seq<byte>, m: Grid, m': Grid, nrows: int, ncols: int, r: int, c: int,
                 t: seq<int>, k: int, self: bool)
    requires Dims(nrows, ncols) && IsGrid(m, nrows, ncols) && IsGrid(m', nrows, ncols)
    requires |out| >= nrows * ncols && 0 <= r < nrows && 0 <= c < ncols
    requires |t| == Slots() && InBoard(t, |out|) && 0 <= k < |out|
    requires self == (CellIndex(nrows, ncols, r, c) == k)
    requires m'[r][c] == (m[r][c] && !self) && (self ==> m[r][c])
    requires NeighbourCount(m', nrows, ncols, r, c) ==
      NeighbourCount(m, nrows, ncols, r, c) - HitsTo(t, CellIndex(nrows, ncols, r, c))
    requires CellEncodes(out, m, nrows, ncols, r, c)
    ensures CellEncodes(Effect(Dies, out, k, t), m', nrows, ncols, r, c)
  {
    DiesCell(out, t, k, CellIndex(nrows, ncols, r, c), m[r][c], NeighbourCount(m, nrows, ncols, r, c), self);
  }

  /** Processing one more cell (i, j) of the generation keeps the output
      board consistent: if it showed the world with the cells of P advanced,
      it now shows the world with the cells of P and (i, j) advanced. */
  lemma CellStep(inb: seq<byte>, out: seq<byte>, g: Grid, P: set<(int, int)>,
                 nrows: int, ncols: int, i: int, j: int)
    requires Encodes(inb, g, nrows, ncols) && Encodes(out, Partial(g, P, nrows, ncols), nrows, ncols)
    requires 0 <= i < nrows && 0 <= j < ncols && (i, j) !in P
    ensures Encodes(CellEffect(inb, out, nrows, ncols, i, j), Partial(g, P + {(i, j)}, nrows, ncols), nrows, ncols)
  {
    var m := Partial(g, P, nrows, ncols);
    var m' := Partial(g, P + {(i, j)}, nrows, ncols);
    PartialStep(g, P, nrows, ncols, i, j);
    assert CellEncodes(inb, g, nrows, ncols, i, j);
    FateFact(inb, g, nrows, ncols, i, j);
    forall r, c | 0 <= r < nrows && 0 <= c < ncols
      ensures CellEncodes(CellEffect(inb, out, nrows, ncols, i, j), m', nrows, ncols, r, c)
    {
      assert CellEncodes(out, m, nrows, ncols, r, c);
      CellStepAt(inb, out, m, m', nrows, ncols, i, j, r, c);
    }
  }

  // ---------------------------------------------------------------------
  // Schedules
  // ---------------------------------------------------------------------

  /** Every cell of a schedule lies on the board. */
  ghost predicate InGrid(s: seq<(int, int)>, nrows: int, ncols: int)
  {
    forall p :: 0 <= p < |s| ==> 0 <= s[p].0 < nrows && 0 <= s[p].1 < ncols
  }

  /** A schedule that visits no cell twice. */
  ghost predicate Distinct(s: seq<(int, int)>)
  {
    forall p, q :: 0 <= p < q < |s| ==> s[p] != s[q]
  }

  /** The cells a schedule visits. */
  ghost function CellsOf(s: seq<(int, int)>): set<(int, int)>
  {
    set p | 0 <= p < |s| :: s[p]
  }

  /** The cells of a schedule are those before its last one, and the last
      one, which a schedule without repetitions has not visited before. */
  lemma CellsOfLast(s: seq<(int, int)>)
    requires |s| > 0
    ensures CellsOf(s) == CellsOf(s[..|s| - 1]) + {s[|s| - 1]}
    ensures Distinct(s) ==> Distinct(s[..|s| - 1]) && s[|s| - 1] !in CellsOf(s[..|s| - 1])
  {
    var s' := s[..|s| - 1];
    assert forall p :: 0 <= p < |s'| ==> s'[p] == s[p];
    assert s[|s| - 1] in CellsOf(s);
  }

  /** A schedule that visits each cell of X once and no other cell. */
  ghost predicate VisitsOnce(s: seq<(int, int)>, X: set<(int, int)>)
  {
    Distinct(s) && CellsOf(s) == X
  }

  /** The loop body applied to the cells of a schedule, in order. */
  function ApplyCells(inb: seq<byte>, out: seq<byte>, nrows: int, ncols: int, s: seq<(int, int)>): (r: seq<byte>)
    requires Dims(nrows, ncols) && |inb| >= nrows * ncols && |out| >= nrows * ncols
    requires InGrid(s, nrows, ncols)
    ensures |r| == |out|
    decreases |s|
  {
    if |s| == 0 then out
    else
      var x := s[|s| - 1];
      CellEffect(inb, ApplyCells(inb, out, nrows, ncols, s[..|s| - 1]), nrows, ncols, x.0, x.1)
  }

  /** Running two schedules one after the other is running their
      concatenation. */
  lemma {:induction false} ApplyCellsAppend(inb: seq<byte>, out: seq<byte>, nrows: int, ncols: int,
                                            s1: seq<(int, int)>, s2: seq<(int, int)>)
    requires Dims(nrows, ncols) && |inb| >= nrows * ncols && |out| >= nrows * ncols
    requires InGrid(s1, nrows, ncols) && InGrid(s2, nrows, ncols)
    ensures InGrid(s1 + s2, nrows, ncols)
    ensures ApplyCells(inb, out, nrows, ncols, s1 + s2) ==
      ApplyCells(inb, ApplyCells(inb, out, nrows, ncols, s1), nrows, ncols, s2)
    decreases |s2|
  {
    if |s2| > 0 {
      var s2' := s2[..|s2| - 1];
      ApplyCellsAppend(inb, out, nrows, ncols, s1, s2');
      assert (s1 + s2)[..|s1 + s2| - 1] == s1 + s2';
    } else {
      assert s1 + s2 == s1;
    }
  }

  /** A schedule writes only the cells of the board, never the bytes past
      them. */
  lemma ApplyCellsTail(inb: seq<byte>, out: seq<byte>, nrows: int, ncols: int, s: seq<(int, int)>)
    requires Dims(nrows, ncols) && |inb| >= nrows * ncols && |out| >= nrows * ncols
    requires InGrid(s, nrows, ncols)
    ensures ApplyCells(inb, out, nrows, ncols, s)[nrows * ncols..] == out[nrows * ncols..]
  {
    forall x | nrows * ncols <= x < |out|
      ensures ApplyCells(inb, out, nrows, ncols, s)[x] == out[x]
    {
      ApplyCellsOutside(inb, out, nrows, ncols, s, x);
    }
  }

  lemma {:induction false} ApplyCellsOutside(inb: seq<byte>, out: seq<byte>, nrows: int, ncols: int,
                                             s: seq<(int, int)>, x: int)
    requires Dims(nrows, ncols) && |inb| >= nrows * ncols && |out| >= nrows * ncols
    requires InGrid(s, nrows, ncols) && nrows * ncols <= x < |out|
    ensures ApplyCells(inb, out, nrows, ncols, s)[x] == out[x]
    decreases |s|
  {
    if |s| > 0 {
      ApplyCellsOutside(inb, out, nrows, ncols, s[..|s| - 1], x);
    }
  }

  /** The invariant of a pass: a schedule that visits each of its cells once,
      none of them already processed, takes a board that shows the world
      with the cells of P advanced to one that shows it with the cells of P
      and of the schedule advanced. Along the way every count stays an
      encoded count in [0, 8], so no `++` or `--` reaches the alive bit. */
  lemma {:induction false} ApplyCellsEncodes(inb: seq<byte>, out: seq<byte>, g: Grid, P: set<(int, int)>,
                                             nrows: int, ncols: int, s: seq<(int, int)>)
    requires Encodes(inb, g, nrows, ncols) && Encodes(out, Partial(g, P, nrows, ncols), nrows, ncols)
    requires InGrid(s, nrows, ncols) && Distinct(s)
    requires forall p :: 0 <= p < |s| ==> s[p] !in P
    ensures Encodes(ApplyCells(inb, out, nrows, ncols, s), Partial(g, P + CellsOf(s), nrows, ncols), nrows, ncols)
    decreases |s|
  {
    if |s| > 0 {
      var s' := s[..|s| - 1];
      var x := s[|s| - 1];
      ApplyCellsEncodes(inb, out, g, P, nrows, ncols, s');
      CellsOfLast(s);
      CellStep(inb, ApplyCells(inb, out, nrows, ncols, s'), g, P + CellsOf(s'), nrows, ncols, x.0, x.1);
      assert P + CellsOf(s) == P + CellsOf(s') + {(x.0, x.1)};
    } else {
      assert P + CellsOf(s) == P;
    }
  }

  /** The order of the visits does not matter: two schedules that visit the
      same cells once each leave the same output board. This is what lets
      the workers run in any interleaving. */
  lemma ScheduleOrderIrrelevant(inb: seq<byte>, out: seq<byte>, g: Grid, P: set<(int, int)>,
                                nrows: int, ncols: int, s1: seq<(int, int)>, s2: seq<(int, int)>)
    requires Encodes(inb, g, nrows, ncols) && Encodes(out, Partial(g, P, nrows, ncols), nrows, ncols)
    requires InGrid(s1, nrows, ncols) && Distinct(s1) && forall p :: 0 <= p < |s1| ==> s1[p] !in P
    requires InGrid(s2, nrows, ncols) && Distinct(s2) && forall p :: 0 <= p < |s2| ==> s2[p] !in P
    requires CellsOf(s1) == CellsOf(s2)
    ensures ApplyCells(inb, out, nrows, ncols, s1) == ApplyCells(inb, out, nrows, ncols, s2)
  {
    var b1 := ApplyCells(inb, out, nrows, ncols, s1);
    var b2 := ApplyCells(inb, out, nrows, ncols, s2);
    var N := nrows * ncols;
    ApplyCellsEncodes(inb, out, g, P, nrows, ncols, s1);
    ApplyCellsEncodes(inb, out, g, P, nrows, ncols, s2);
    EncodingDetermines(b1, b2, Partial(g, P + CellsOf(s1), nrows, ncols), nrows, ncols);
    ApplyCellsTail(inb, out, nrows, ncols, s1);
    ApplyCellsTail(inb, out, nrows, ncols, s2);
    assert b1 == b1[..N] + b1[N..] && b2 == b2[..N] + b2[N..];
  }

  /** Before any cell is processed the output board shows the current world. */
  lemma PartialNone(g: Grid, nrows: int, ncols: int)
    requires Dims(nrows, ncols) && IsGrid(g, nrows, ncols)
    ensures Partial(g, {}, nrows, ncols) == g
  {
    var m := Partial(g, {}, nrows, ncols);
    forall r | 0 <= r < nrows
      ensures m[r] == g[r]
    {
    }
  }

  /** The cells of the rows [lo, hi). */
  ghost function RowBand(lo: int, hi: int, ncols: int): set<(int, int)>
  {
    set r, c | lo <= r < hi && 0 <= c < ncols :: (r, c)
  }

  /** Once every cell of the rows below `limit` is processed, the output
      board shows `LifeStep` with that limit. */
  lemma PartialOfRows(g: Grid, nrows: int, ncols: int, limit: int)
    requires Dims(nrows, ncols) && IsGrid(g, nrows, ncols) && 0 <= limit <= nrows
    ensures Partial(g, RowBand(0, limit, ncols), nrows, ncols) == LifeStep(g, nrows, ncols, limit)
  {
    var m := Partial(g, RowBand(0, limit, ncols), nrows, ncols);
    var h := LifeStep(g, nrows, ncols, limit);
    forall r | 0 <= r < nrows
      ensures m[r] == h[r]
    {
      forall c | 0 <= c < ncols
        ensures m[r][c] == h[r][c]
      {
        if r < limit {
          assert (r, c) in RowBand(0, limit, ncols);
        }
      }
    }
  }

  // ---------------------------------------------------------------------
  // The orders in which the workers visit cells
  // ---------------------------------------------------------------------

  /** The cells of row i, in the order `gol_worker_for_row` visits them:
      columns 0 to n - 1. */
  function RowCells(i: int, n: nat): (s: seq<(int, int)>)
    ensures |s| == n && forall c :: 0 <= c < n ==> s[c] == (i, c)
  {
    seq(n, c requires 0 <= c < n => (i, c))
  }

  /** The cells of column j from row lo up to row hi, exclusive, in the
      order the inner loop of `gol_worker` visits them; none when hi <= lo. */
  function ColumnCells(lo: int, hi: int, j: int): (s: seq<(int, int)>)
    ensures |s| == if hi <= lo then 0 else hi - lo
    ensures forall p :: 0 <= p < |s| ==> s[p] == (lo + p, j)
  {
    if hi <= lo then [] else seq(hi - lo, p requires 0 <= p < hi - lo => (lo + p, j))
  }

  /** The cells of rows [lo, hi) in the columns below n, column by column:
      the order in which `gol_worker` visits its chunk's interior. */
  function BlockCells(lo: int, hi: int, n: nat): (s: seq<(int, int)>)
    ensures forall p :: 0 <= p < |s| ==> lo <= s[p].0 < hi && 0 <= s[p].1 < n
    decreases n
  {
    if n == 0 then [] else BlockCells(lo, hi, n - 1) + ColumnCells(lo, hi, n - 1)
  }

  /** The cells (r, j) with lo <= r < hi. */
  ghost function ColumnSet(lo: int, hi: int, j: int): set<(int, int)>
  {
    set r | lo <= r < hi :: (r, j)
  }

  /** Running one schedule after another visits the cells of both, and
      visits none twice when each part visits its own cells once and the
      parts share no cell. */
  lemma CellsOfAppend(s1: seq<(int, int)>, s2: seq<(int, int)>)
    ensures CellsOf(s1 + s2) == CellsOf(s1) + CellsOf(s2)
    ensures Distinct(s1) && Distinct(s2) && CellsOf(s1) !! CellsOf(s2) ==> Distinct(s1 + s2)
  {
    var s := s1 + s2;
    assert forall p :: 0 <= p < |s1| ==> s[p] == s1[p];
    assert forall p :: 0 <= p < |s2| ==> s[|s1| + p] == s2[p];
    forall x | x in CellsOf(s)
      ensures x in CellsOf(s1) + CellsOf(s2)
    {
      var p :| 0 <= p < |s| && s[p] == x;
      if p >= |s1| {
        assert s2[p - |s1|] == x;
      }
    }
    if Distinct(s1) && Distinct(s2) && CellsOf(s1) !! CellsOf(s2) {
      forall p, q | 0 <= p < q < |s|
        ensures s[p] != s[q]
      {
        if p < |s1| && q >= |s1| {
          assert s[p] in CellsOf(s1) && s2[q - |s1|] in CellsOf(s2);
        } else if p >= |s1| {
          assert s2[p - |s1|] != s2[q - |s1|];
        }
      }
    }
  }

  /** `gol_worker_for_row` visits each cell of its row once. */
  lemma RowCellsVisit(i: int, n: nat)
    ensures VisitsOnce(RowCells(i, n), RowBand(i, i + 1, n))
  {
    var s := RowCells(i, n);
    forall x | x in RowBand(i, i + 1, n)
      ensures x in CellsOf(s)
    {
      assert s[x.1] == x;
    }
  }

  /** The inner loop of `gol_worker` visits each cell of its column segment
      once. */
  lemma ColumnCellsVisit(lo: int, hi: int, j: int)
    ensures VisitsOnce(ColumnCells(lo, hi, j), ColumnSet(lo, hi, j))
  {
    var s := ColumnCells(lo, hi, j);
    forall x | x in ColumnSet(lo, hi, j)
      ensures x in CellsOf(s)
    {
      assert s[x.0 - lo] == x;
    }
  }

  /** `gol_worker` visits each cell of rows [lo, hi) in the columns below n
      once. */
  lemma {:induction false} BlockCellsVisit(lo: int, hi: int, n: nat)
    ensures VisitsOnce(BlockCells(lo, hi, n), RowBand(lo, hi, n))
    decreases n
  {
    if n == 0 {
      assert RowBand(lo, hi, 0) == {};
    } else {
      BlockCellsVisit(lo, hi, n - 1);
      ColumnCellsVisit(lo, hi, n - 1);
      CellsOfAppend(BlockCells(lo, hi, n - 1), ColumnCells(lo, hi, n - 1));
      assert RowBand(lo, hi, n) == RowBand(lo, hi, n - 1) + ColumnSet(lo, hi, n - 1);
    }
  }

  /** The chunks of `numThreads` rows each fit in the board: numThreads * cs
      is at most nrows, and short of it by less than numThreads. */
  lemma ChunksFit(nrows: int, numThreads: int)
    requires nrows >= 0 && numThreads >= 1
    ensures 0 <= numThreads * (nrows / numThreads) <= nrows < numThreads * (nrows / numThreads) + numThreads
  {
    var cs := nrows / numThreads;
    assert nrows == numThreads * cs + nrows % numThreads;
    MulNonneg(numThreads, cs);
  }

  /** Consecutive bands of rows make one band and do not overlap. */
  lemma BandSplit(a: int, b: int, c: int, n: int)
    requires a <= b <= c
    ensures RowBand(a, b, n) + RowBand(b, c, n) == RowBand(a, c, n)
    ensures RowBand(a, b, n) !! RowBand(b, c, n)
  {
  }

  // ---------------------------------------------------------------------
  // The partition into chunks
  // ---------------------------------------------------------------------

  /** What `threaded_gol` hands to a worker (`Package`): the board's size and
      the rows [startRow, endRow) of its chunk's interior. The chunk's edge
      rows are startRow - 1 and endRow. The two board pointers are passed to
      the model's workers directly. */
  datatype Package = Package(nrows: int, ncols: int, startRow: int, endRow: int)

  /** The packages the partition loop fills in for `numThreads` workers,
      with chunk size cs = nrows / numThreads: worker k gets startRow
      k * cs + 1 and endRow (k + 1) * cs - 1, so its chunk is the rows
      [k * cs, (k + 1) * cs). */
  function Packages(nrows: int, ncols: int, numThreads: int): (ps: seq<Package>)
    requires numThreads >= 1
    ensures |ps| == numThreads
    ensures forall k :: 0 <= k < numThreads ==> ps[k].nrows == nrows && ps[k].ncols == ncols
    ensures ps[0].startRow == 1
    ensures forall k :: 0 <= k < numThreads ==> ps[k].endRow - ps[k].startRow == nrows / numThreads - 2
    ensures forall k :: 0 < k < numThreads ==> ps[k].startRow == ps[k - 1].endRow + 2
  {
    var cs := nrows / numThreads;
    seq(numThreads, k requires 0 <= k < numThreads => Package(nrows, ncols, k * cs + 1, (k + 1) * cs - 1))
  }

  /** The order of the edge pass: for each package, the row above its
      interior and then the row `endRow`, each along its columns. */
  function EdgeSchedule(ps: seq<Package>, ncols: nat): (s: seq<(int, int)>)
    ensures forall x :: 0 <= x < |s| ==> 0 <= s[x].1 < ncols
    decreases |ps|
  {
    if |ps| == 0 then []
    else
      var p := ps[|ps| - 1];
      EdgeSchedule(ps[..|ps| - 1], ncols) + RowCells(p.startRow - 1, ncols) + RowCells(p.endRow, ncols)
  }

  /** The order of the interior pass run as a loop over the packages: for
      each, the rows [startRow, endRow) column by column. */
  function InteriorSchedule(ps: seq<Package>, ncols: nat): (s: seq<(int, int)>)
    ensures forall x :: 0 <= x < |s| ==> 0 <= s[x].1 < ncols
    decreases |ps|
  {
    if |ps| == 0 then []
    else
      var p := ps[|ps| - 1];
      InteriorSchedule(ps[..|ps| - 1], ncols) + BlockCells(p.startRow, p.endRow, ncols)
  }

  /** The cells one generation visits: the edge pass, then the interior pass. */
  function GenerationSchedule(ps: seq<Package>, ncols: nat): seq<(int, int)>
  {
    EdgeSchedule(ps, ncols) + InteriorSchedule(ps, ncols)
  }

  /** Packages whose chunks follow each other from row 0 on, each of at
      least two rows: the first starts its interior at row 1, and each next
      one two rows past the previous one's `endRow`. */
  ghost predicate Chained(ps: seq<Package>)
  {
    && (|ps| > 0 ==> ps[0].startRow == 1)
    && (forall i :: 0 <= i < |ps| ==> 1 <= ps[i].startRow <= ps[i].endRow)
    && (forall i :: 0 < i < |ps| ==> ps[i].startRow == ps[i - 1].endRow + 2)
  }

  /** The first row past the chunks of ps. */
  function Reach(ps: seq<Package>): int
  {
    if |ps| == 0 then 0 else ps[|ps| - 1].endRow + 1
  }

  /** The packages `threaded_gol` fills in form a chain when each chunk has
      at least two rows, and reach row numThreads * cs. */
  lemma PackagesChained(nrows: int, ncols: int, numThreads: int)
    requires numThreads >= 1 && nrows / numThreads >= 2
    ensures Chained(Packages(nrows, ncols, numThreads))
    ensures Reach(Packages(nrows, ncols, numThreads)) == numThreads * (nrows / numThreads)
  {
    var cs := nrows / numThreads;
    var ps := Packages(nrows, ncols, numThreads);
    forall i | 0 < i < |ps|
      ensures ps[i].startRow == ps[i - 1].endRow + 2
    {
      assert ps[i].startRow == i * cs + 1;
      assert ps[i - 1].endRow == (i - 1 + 1) * cs - 1;
    }
    forall i | 0 <= i < |ps|
      ensures 1 <= ps[i].startRow <= ps[i].endRow
    {
      MulNonneg(i, cs);
    }
  }

  /** What makes the interior pass safe to run in parallel: a cell in the
      interior of worker k's package has all eight of its neighbours, the
      cells whose counts it updates, inside k's chunk [k * cs, (k + 1) * cs)
      and away from the wrap-around. */
  lemma InteriorFootprint(nrows: int, ncols: int, numThreads: int, k: int, i: int, e: int)
    requires Dims(nrows, ncols) && numThreads >= 1 && nrows / numThreads >= 2
    requires 0 <= k < numThreads && 0 <= e < 8
    requires Packages(nrows, ncols, numThreads)[k].startRow <= i < Packages(nrows, ncols, numThreads)[k].endRow
    ensures 0 < i && i + 1 < nrows
    ensures NbRow(nrows, i, e) == i + DRow(e)
    ensures var cs := nrows / numThreads; k * cs <= NbRow(nrows, i, e) < (k + 1) * cs
  {
    var cs := nrows / numThreads;
    ChunksFit(nrows, numThreads);
    MulNonneg(k, cs);
    MulStrictMono(k, numThreads, cs);
    assert i + 1 < nrows;
  }

  /** Two different workers never update the same byte of the next board:
      the neighbours of a cell in one package's interior and those of a
      cell in another's are different cells, and so are one worker's own
      cell and the neighbours another worker notifies. */
  lemma WorkersWriteApart(nrows: int, ncols: int, numThreads: int, k1: int, k2: int,
                          i1: int, j1: int, e1: int, i2: int, j2: int, e2: int)
    requires Dims(nrows, ncols) && numThreads >= 1 && nrows / numThreads >= 2
    requires 0 <= k1 < numThreads && 0 <= k2 < numThreads && k1 != k2
    requires 0 <= e1 < 8 && 0 <= e2 < 8 && 0 <= j1 < ncols && 0 <= j2 < ncols
    requires Packages(nrows, ncols, numThreads)[k1].startRow <= i1 < Packages(nrows, ncols, numThreads)[k1].endRow
    requires Packages(nrows, ncols, numThreads)[k2].startRow <= i2 < Packages(nrows, ncols, numThreads)[k2].endRow
    ensures 0 <= i1 < nrows && 0 <= i2 < nrows && NbIndex(nrows, ncols, i1, j1, e1) != NbIndex(nrows, ncols, i2, j2, e2)
    ensures CellIndex(nrows, ncols, i1, j1) != NbIndex(nrows, ncols, i2, j2, e2)
  {
    var cs := nrows / numThreads;
    InteriorFootprint(nrows, ncols, numThreads, k1, i1, e1);
    InteriorFootprint(nrows, ncols, numThreads, k1, i1, 3);
    InteriorFootprint(nrows, ncols, numThreads, k2, i2, e2);
    if k1 < k2 {
      MulStrictMono(k1, k2, cs);
    } else {
      MulStrictMono(k2, k1, cs);
    }
    CellIndexInjective(nrows, ncols, NbRow(nrows, i1, e1), NbCol(ncols, j1, e1), NbRow(nrows, i2, e2), NbCol(ncols, j2, e2));
    CellIndexInjective(nrows, ncols, i1, j1, NbRow(nrows, i2, e2), NbCol(ncols, j2, e2));
  }

  /** The edge and interior passes over a chain of packages visit each cell
      of the rows below its reach exactly once: the edge pass takes the
      first and last row of each chunk, the interior pass the rows between. */
  lemma {:induction false} PartitionVisit(ps: seq<Package>, ncols: nat)
    requires Chained(ps)
    ensures var E, I := EdgeSchedule(ps, ncols), InteriorSchedule(ps, ncols);
      && Distinct(E) && Distinct(I) && CellsOf(E) !! CellsOf(I)
      && CellsOf(E) + CellsOf(I) == RowBand(0, Reach(ps), ncols)
    decreases |ps|
  {
    if |ps| == 0 {
      assert RowBand(0, 0, ncols) == {};
    } else {
      var ps' := ps[..|ps| - 1];
      assert Chained(ps');
      PartitionVisit(ps', ncols);
      PartitionStep(ps, ncols);
    }
  }

  /** The step of `PartitionVisit`: the last of the packages ps has the chunk
      [lo, hi) with lo = startRow - 1 and hi = endRow + 1. */
  lemma PartitionStep(ps: seq<Package>, ncols: nat)
    requires |ps| > 0 && 0 < ps[|ps| - 1].startRow <= ps[|ps| - 1].endRow
    requires var E', I' := EdgeSchedule(ps[..|ps| - 1], ncols), InteriorSchedule(ps[..|ps| - 1], ncols);
      && Distinct(E') && Distinct(I') && CellsOf(E') !! CellsOf(I')
      && CellsOf(E') + CellsOf(I') == RowBand(0, ps[|ps| - 1].startRow - 1, ncols)
    ensures var E, I := EdgeSchedule(ps, ncols), InteriorSchedule(ps, ncols);
      && Distinct(E) && Distinct(I) && CellsOf(E) !! CellsOf(I)
      && CellsOf(E) + CellsOf(I) == RowBand(0, ps[|ps| - 1].endRow + 1, ncols)
  {
    var ps' := ps[..|ps| - 1];
    var p := ps[|ps| - 1];
    var lo, hi := p.startRow - 1, p.endRow + 1;
    var E', I' := EdgeSchedule(ps', ncols), InteriorSchedule(ps', ncols);
    var R1, R2, B := RowCells(lo, ncols), RowCells(hi - 1, ncols), BlockCells(lo + 1, hi - 1, ncols);
    RowCellsVisit(lo, ncols);
    RowCellsVisit(hi - 1, ncols);
    BlockCellsVisit(lo + 1, hi - 1, ncols);
    ChunkSchedules(E', I', R1, R2, B, lo, hi, ncols);
    assert EdgeSchedule(ps, ncols) == E' + R1 + R2;
    assert InteriorSchedule(ps, ncols) == I' + B;
  }

  /** Adding a chunk [a, b) of at least two rows to the cells E (edges) and
      I (interiors) of the rows below a: its first and last row go to E,
      the rows between to I, and E and I still split the rows below b. */
  lemma ChunkCells(E: set<(int, int)>, I: set<(int, int)>, a: int, b: int, n: int)
    requires 0 <= a && a + 2 <= b && E !! I && E + I == RowBand(0, a, n)
    ensures E !! RowBand(a, a + 1, n) && E + RowBand(a, a + 1, n) !! RowBand(b - 1, b, n)
    ensures I !! RowBand(a + 1, b - 1, n)
    ensures E + RowBand(a, a + 1, n) + RowBand(b - 1, b, n) !! I + RowBand(a + 1, b - 1, n)
    ensures E + RowBand(a, a + 1, n) + RowBand(b - 1, b, n) + (I + RowBand(a + 1, b - 1, n)) == RowBand(0, b, n)
  {
    BandSplit(0, a, a + 1, n);
    BandSplit(a, a + 1, b - 1, n);
    BandSplit(a + 1, b - 1, b, n);
    BandSplit(0, a + 1, b - 1, n);
    BandSplit(0, b - 1, b, n);
  }

  /** `ChunkCells` for the schedules: appending a chunk's two edge rows to
      the edge schedule E and its interior block to the interior schedule I
      keeps both free of repetitions, apart, and covering the rows below b. */
  lemma ChunkSchedules(E: seq<(int, int)>, I: seq<(int, int)>, R1: seq<(int, int)>, R2: seq<(int, int)>,
                       B: seq<(int, int)>, a: int, b: int, n: int)
    requires 0 <= a && a + 2 <= b
    requires Distinct(E) && Distinct(I) && CellsOf(E) !! CellsOf(I) && CellsOf(E) + CellsOf(I) == RowBand(0, a, n)
    requires VisitsOnce(R1, RowBand(a, a + 1, n))
    requires VisitsOnce(R2, RowBand(b - 1, b, n))
    requires VisitsOnce(B, RowBand(a + 1, b - 1, n))
    ensures Distinct(E + R1 + R2) && Distinct(I + B) && CellsOf(E + R1 + R2) !! CellsOf(I + B)
    ensures CellsOf(E + R1 + R2) + CellsOf(I + B) == RowBand(0, b, n)
  {
    ChunkCells(CellsOf(E), CellsOf(I), a, b, n);
    CellsOfAppend(E, R1);
    CellsOfAppend(E + R1, R2);
    CellsOfAppend(I, B);
  }

  /** One generation over a chain of packages that stays on the board
      visits each cell of the rows below the chain's reach once, and no
      other cell. */
  lemma GenerationVisit(ps: seq<Package>, nrows: int, ncols: int)
    requires Dims(nrows, ncols) && Chained(ps) && Reach(ps) <= nrows
    ensures var S := GenerationSchedule(ps, ncols);
      && InGrid(S, nrows, ncols) && Distinct(S) && CellsOf(S) == RowBand(0, Reach(ps), ncols)
  {
    var S := GenerationSchedule(ps, ncols);
    PartitionVisit(ps, ncols);
    CellsOfAppend(EdgeSchedule(ps, ncols), InteriorSchedule(ps, ncols));
    forall p | 0 <= p < |S|
      ensures 0 <= S[p].0 < nrows && 0 <= S[p].1 < ncols
    {
      assert S[p] in CellsOf(S);
    }
  }

  /** Every package of a chain has its edge rows startRow - 1 and endRow on
      the rows below the chain's reach. */
  lemma {:induction false} ChainedRows(ps: seq<Package>, k: int)
    requires Chained(ps) && 0 <= k < |ps|
    ensures 1 <= ps[k].startRow <= ps[k].endRow < Reach(ps)
    decreases |ps|
  {
    if k < |ps| - 1 {
      var ps' := ps[..|ps| - 1];
      assert Chained(ps');
      ChainedRows(ps', k);
      assert Reach(ps') == ps[|ps| - 2].endRow + 1;
    }
  }

  /** A board whose cells are a copy of an encoded board's encodes the same
      world: the `memcpy` at the start of each generation. */
  lemma EncodesCopy(inb: seq<byte>, out: seq<byte>, g: Grid, nrows: int, ncols: int)
    requires Encodes(inb, g, nrows, ncols)
    requires |out| >= nrows * ncols && out[..nrows * ncols] == inb[..nrows * ncols]
    ensures Encodes(out, g, nrows, ncols)
  {
    forall r, c | 0 <= r < nrows && 0 <= c < ncols
      ensures CellEncodes(out, g, nrows, ncols, r, c)
    {
      var k := CellIndex(nrows, ncols, r, c);
      assert out[k] == out[..nrows * ncols][k] == inb[..nrows * ncols][k] == inb[k];
      assert CellEncodes(inb, g, nrows, ncols, r, c);
    }
  }

  /** One generation as `threaded_gol` runs it over a chain of packages:
      after the copy, the edge pass and the interior pass, the output board
      encodes the next generation of every row below the chain's reach, and
      the current state of the rows from there on. With a chain that
      reaches nrows that is the Life step. */
  lemma GenerationIsLifeStep(inb: seq<byte>, out: seq<byte>, g: Grid, ps: seq<Package>, nrows: int, ncols: int)
    requires Encodes(inb, g, nrows, ncols)
    requires |out| >= nrows * ncols && out[..nrows * ncols] == inb[..nrows * ncols]
    requires Chained(ps) && Reach(ps) <= nrows
    ensures InGrid(GenerationSchedule(ps, ncols), nrows, ncols)
    ensures Encodes(ApplyCells(inb, out, nrows, ncols, GenerationSchedule(ps, ncols)),
                    LifeStep(g, nrows, ncols, Reach(ps)), nrows, ncols)
  {
    GenerationVisit(ps, nrows, ncols);
    EncodesCopy(inb, out, g, nrows, ncols);
    PartialNone(g, nrows, ncols);
    ApplyCellsEncodes(inb, out, g, {}, nrows, ncols, GenerationSchedule(ps, ncols));
    assert {} + RowBand(0, Reach(ps), ncols) == RowBand(0, Reach(ps), ncols);
    PartialOfRows(g, nrows, ncols, Reach(ps));
  }

  /** The partition `threaded_gol` sets up is a chain when each chunk has
      at least two rows; it reaches row numThreads * cs, which is at most
      nrows and equals it only when numThreads divides nrows. */
  lemma ThreadedPartition(nrows: int, ncols: int, numThreads: int)
    requires numThreads >= 1 && nrows / numThreads >= 2
    ensures var ps := Packages(nrows, ncols, numThreads);
      && Chained(ps) && Reach(ps) == numThreads * (nrows / numThreads) <= nrows
      && (Reach(ps) == nrows <==> nrows % numThreads == 0)
  {
    PackagesChained(nrows, ncols, numThreads);
    ChunksFit(nrows, numThreads);
  }

  // ---------------------------------------------------------------------
  // The rows the partition leaves out
  // ---------------------------------------------------------------------

  /** A 10 x 2 world whose only live cell is (9, 0). */
  ghost function LoneCell(): (g: Grid)
    ensures IsGrid(g, 10, 2)
  {
    seq(10, r requires 0 <= r < 10 => seq(2, c requires 0 <= c < 2 => r == 9 && c == 0))
  }

  /** As written, 4 threads cut a 10-row board into chunks of 2 rows that
      stop at row 8, so rows 8 and 9 never advance: the lone live cell at
      (9, 0), which has no live neighbour and dies in the Life step, stays
      alive generation after generation. */
  lemma RemainderRowsFrozen()
    ensures Chained(Packages(10, 2, 4)) && Reach(Packages(10, 2, 4)) == 8
    ensures LifeStep(LoneCell(), 10, 2, Reach(Packages(10, 2, 4)))[9][0]
    ensures !Next(LoneCell(), 10, 2)[9][0]
  {
    ThreadedPartition(10, 2, 4);
    var g := LoneCell();
    assert NeighbourCount(g, 10, 2, 9, 0) == 0;
  }

  /** The partition a full Life generation needs, since `game_of_life`
      advances every cell of the torus: the same chunks, except that the
      last one runs to the last row of the board and so absorbs the
      nrows % numThreads rows that the integer division leaves over. */
  function CorrectedPackages(nrows: int, ncols: int, numThreads: int): (ps: seq<Package>)
    requires numThreads >= 1
    ensures |ps| == numThreads
  {
    var cs := nrows / numThreads;
    seq(numThreads, k requires 0 <= k < numThreads =>
      Package(nrows, ncols, k * cs + 1, if k == numThreads - 1 then nrows - 1 else (k + 1) * cs - 1))
  }

  /** The corrected partition is a chain that reaches the last row. */
  lemma CorrectedPartition(nrows: int, ncols: int, numThreads: int)
    requires numThreads >= 1 && nrows / numThreads >= 2
    ensures Chained(CorrectedPackages(nrows, ncols, numThreads))
    ensures Reach(CorrectedPackages(nrows, ncols, numThreads)) == nrows
  {
    var cs := nrows / numThreads;
    var ps := CorrectedPackages(nrows, ncols, numThreads);
    ChunksFit(nrows, numThreads);
    forall i | 0 < i < |ps|
      ensures ps[i].startRow == ps[i - 1].endRow + 2
    {
      assert ps[i].startRow == i * cs + 1;
      assert ps[i - 1].endRow == (i - 1 + 1) * cs - 1;
    }
    forall i | 0 <= i < |ps|
      ensures 1 <= ps[i].startRow <= ps[i].endRow
    {
      MulNonneg(i, cs);
      if i == numThreads - 1 {
        assert ps[i].startRow == (numThreads - 1) * cs + 1;
      }
    }
  }

  /** With the corrected partition one generation is the full Life step,
      whether or not numThreads divides nrows. */
  lemma CorrectedGenerationIsNext(inb: seq<byte>, out: seq<byte>, g: Grid, nrows: int, ncols: int, numThreads: int)
    requires Encodes(inb, g, nrows, ncols)
    requires |out| >= nrows * ncols && out[..nrows * ncols] == inb[..nrows * ncols]
    requires numThreads >= 1 && nrows / numThreads >= 2
    ensures InGrid(GenerationSchedule(CorrectedPackages(nrows, ncols, numThreads), ncols), nrows, ncols)
    ensures Encodes(ApplyCells(inb, out, nrows, ncols, GenerationSchedule(CorrectedPackages(nrows, ncols, numThreads), ncols)),
                    Next(g, nrows, ncols), nrows, ncols)
  {
    CorrectedPartition(nrows, ncols, numThreads);
    GenerationIsLifeStep(inb, out, g, CorrectedPackages(nrows, ncols, numThreads), nrows, ncols);
  }
}

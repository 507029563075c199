/**
 * The board loader of load.c: the zeroed allocation of `make_board`, the
 * dimension check of `load_dimensions`, the fill rule of
 * `load_board_values` and the neighbour counts `init_neighbour_cnts` sets
 * up before the first generation.
 */
module Load {
  import opened Util
  import opened Torus
  import opened Life
  import opened Kernel

  // ---------------------------------------------------------------------
  // make_board
  // ---------------------------------------------------------------------

  /** `make_board`: `2 * nrows * ncols` bytes, all zero, so every cell is
      dead with a count of 0. The second half is never read. */
  method MakeBoard(nrows: int, ncols: int) returns (board: array<byte>)
    requires nrows >= 0 && ncols >= 0
    ensures fresh(board) && board.Length == 2 * nrows * ncols
    ensures forall k :: 0 <= k < board.Length ==> board[k] == 0
  {
    MulNonneg(nrows, ncols);
    board := new byte[2 * nrows * ncols](_ => 0);
  }

  // ---------------------------------------------------------------------
  // load_dimensions
  // ---------------------------------------------------------------------

  /** The largest world `load_dimensions` accepts, in cells. */
  const MAX_CELLS: int := 100000000

  /** A value of the source's 32-bit `int`. */
  predicate IsInt(x: int)
  {
    -0x8000_0000 <= x < 0x8000_0000
  }

  /** A product of two `int`s as a two's complement machine computes it:
      the mathematical product brought back into range modulo 2^32. */
  function IntMul(x: int, y: int): (r: int)
    ensures IsInt(r) && (r - x * y) % 0x1_0000_0000 == 0
    ensures IsInt(x * y) ==> r == x * y
  {
    (x * y + 0x8000_0000) % 0x1_0000_0000 - 0x8000_0000
  }

  /** The verdicts of `load_dimensions`: accept, or one of its three error
      exits. */
  datatype Verdict = Accepted | RowsNotPositive | ColsNotPositive | WorldTooBig

  /** `load_dimensions` as written: the rows, then the columns, then
      `ncols * nrows > 100000000` evaluated in `int`. */
  function CheckDimensionsAsWritten(nrows: int, ncols: int): (v: Verdict)
    ensures v == Accepted <==> nrows >= 1 && ncols >= 1 && IntMul(ncols, nrows) <= MAX_CELLS
    ensures v == RowsNotPositive <==> nrows < 1
    ensures v == ColsNotPositive <==> nrows >= 1 && ncols < 1
  {
    if nrows < 1 then RowsNotPositive
    else if ncols < 1 then ColsNotPositive
    else if IntMul(ncols, nrows) > MAX_CELLS then WorldTooBig
    else Accepted
  }

  /** The check `load_dimensions` intends: positive dimensions and at most
      MAX_CELLS cells, where comparing `ncols` with `MAX_CELLS / nrows`
      never leaves the range of `int`. An accepted world's allocation of
      `2 * nrows * ncols` bytes fits in an `int` as well. */
  function CheckDimensions(nrows: int, ncols: int): (v: Verdict)
    ensures v == Accepted <==> nrows >= 1 && ncols >= 1 && nrows * ncols <= MAX_CELLS
    ensures v == RowsNotPositive <==> nrows < 1
    ensures v == ColsNotPositive <==> nrows >= 1 && ncols < 1
    ensures v == Accepted ==> 0 < 2 * nrows * ncols && IsInt(2 * nrows * ncols)
  {
    if nrows < 1 then RowsNotPositive
    else if ncols < 1 then ColsNotPositive
    else
      QuotientBound(MAX_CELLS, nrows, ncols);
      if ncols > MAX_CELLS / nrows then WorldTooBig
      else Accepted
  }

  /** For positive n, c exceeds x / n exactly when c * n exceeds x. */
  lemma QuotientBound(x: int, n: int, c: int)
    requires x >= 0 && n >= 1 && c >= 1
    ensures c > x / n <==> c * n > x
    ensures c * n >= 1
  {
    var q := x / n;
    assert x == q * n + x % n;
    if c > q {
      MulStrictMono(q, c, n);
    } else {
      MulNonneg(q - c, n);
    }
    MulNonneg(c - 1, n);
  }

  /** Where the product of the dimensions fits in an `int`, the check as
      written and the intended check agree. */
  lemma ChecksAgreeWithoutOverflow(nrows: int, ncols: int)
    requires IsInt(ncols * nrows)
    ensures CheckDimensionsAsWritten(nrows, ncols) == CheckDimensions(nrows, ncols)
  {
  }

  /** A 65536 x 65536 world has 2^32 cells, whose `int` product is 0: the
      check as written accepts it, the intended check rejects it as too
      big. */
  lemma OverflowPassesCheck()
    ensures 65536 * 65536 > MAX_CELLS && IntMul(65536, 65536) == 0
    ensures CheckDimensionsAsWritten(65536, 65536) == Accepted
    ensures CheckDimensions(65536, 65536) == WorldTooBig
  {
  }

  // ---------------------------------------------------------------------
  // init_neighbour_cnts, on values
  // ---------------------------------------------------------------------

  /** The board after `neighborCnt++` on the first n targets t. */
  function Tally(b: seq<byte>, t: seq<int>, n: nat): (r: seq<byte>)
    requires n <= |t| && InBoard(t, |b|)
    ensures |r| == |b|
    ensures forall x {:trigger r[x], b[x]} :: 0 <= x < |b| && x !in t[..n] ==> r[x] == b[x]
    decreases n
  {
    if n == 0 then b
    else
      var o := Tally(b, t, n - 1);
      o[t[n - 1] := IncrementCount(o[t[n - 1]])]
  }

  /** The loop body of `init_neighbour_cnts` for cell (i, j): when the
      cell's `isAlive` field is set, `neighborCnt++` on its eight wrapped
      neighbours NW, N, NE, W, E, SW, S, SE. */
  function InitCell(b: seq<byte>, nrows: int, ncols: int, i: int, j: int): (r: seq<byte>)
    requires Dims(nrows, ncols) && 0 <= i < nrows && 0 <= j < ncols && |b| >= nrows * ncols
    ensures |r| == |b|
    ensures forall x {:trigger r[x]} :: 0 <= x < |b| && x !in Targets(nrows, ncols, i, j) ==> r[x] == b[x]
  {
    assert Targets(nrows, ncols, i, j)[..Slots()] == Targets(nrows, ncols, i, j);
    if Unpack(b[CellIndex(nrows, ncols, i, j)]).isAlive == 1 then Tally(b, Targets(nrows, ncols, i, j), Slots())
    else b
  }

  /** The loop body applied to the cells of a schedule, in order. */
  function InitCells(b: seq<byte>, nrows: int, ncols: int, s: seq<(int, int)>): (r: seq<byte>)
    requires Dims(nrows, ncols) && |b| >= nrows * ncols && InGrid(s, nrows, ncols)
    ensures |r| == |b|
    ensures forall x {:trigger r[x]} :: nrows * ncols <= x < |b| ==> r[x] == b[x]
    decreases |s|
  {
    if |s| == 0 then b
    else
      var x := s[|s| - 1];
      InitCell(InitCells(b, nrows, ncols, s[..|s| - 1]), nrows, ncols, x.0, x.1)
  }

  /** The world W with only its live cells inside P left alive: the cells
      whose neighbours have been told so far. */
  ghost function Restrict(W: Grid, P: set<(int, int)>, nrows: int, ncols: int): (m: Grid)
    requires Dims(nrows, ncols) && IsGrid(W, nrows, ncols)
    ensures IsGrid(m, nrows, ncols)
    ensures forall r, c :: 0 <= r < nrows && 0 <= c < ncols ==> m[r][c] == (W[r][c] && (r, c) in P)
  {
    seq(nrows, r requires 0 <= r < nrows =>
      seq(ncols, c requires 0 <= c < ncols => W[r][c] && (r, c) in P))
  }

  /** Every cell holds its state in W and, as its count, the number of
      its live neighbours in m. */
  ghost predicate CountsOf(b: seq<byte>, W: Grid, m: Grid, nrows: int, ncols: int)
  {
    Dims(nrows, ncols) && IsGrid(W, nrows, ncols) && IsGrid(m, nrows, ncols) && |b| >= nrows * ncols &&
    forall r, c :: 0 <= r < nrows && 0 <= c < ncols ==>
      b[CellIndex(nrows, ncols, r, c)] == Encode(W[r][c], NeighbourCount(m, nrows, ncols, r, c))
  }

  /** The invariant of `init_neighbour_cnts`: every cell holds its state
      in W and, as its count, the number of its live neighbours among the
      cells of P. */
  ghost predicate Counted(b: seq<byte>, W: Grid, P: set<(int, int)>, nrows: int, ncols: int)
  {
    Dims(nrows, ncols) && IsGrid(W, nrows, ncols) && CountsOf(b, W, Restrict(W, P, nrows, ncols), nrows, ncols)
  }

  /** A board as `load_board_values` fills it: every cell holds its state
      in W with a count of 0 and zero reserved bits. */
  ghost predicate Uncounted(b: seq<byte>, W: Grid, nrows: int, ncols: int)
  {
    Dims(nrows, ncols) && IsGrid(W, nrows, ncols) && |b| >= nrows * ncols &&
    forall r, c :: 0 <= r < nrows && 0 <= c < ncols ==> b[CellIndex(nrows, ncols, r, c)] == Encode(W[r][c], 0)
  }

  /** While the count field stays below 16, adding h to the byte adds h to
      the count and changes no other field. */
  lemma CountAdds(b: byte, h: int)
    requires 0 <= h && Unpack(b).neighborCnt + h < 16
    ensures 0 <= b + h < 256
    ensures Unpack(b + h) == Unpack(b).(neighborCnt := Unpack(b).neighborCnt + h)
  {
    var e := Unpack(b);
    UnpackFields(e.neighborCnt + h, e.isAlive, e.isStatic);
  }

  /** Below 15, `neighborCnt++` adds one to the byte. */
  lemma IncrementCountAdds(b: byte)
    requires Unpack(b).neighborCnt < 15
    ensures IncrementCount(b) == b + 1
  {
    CountAdds(b, 1);
    PackUnpack(b + 1);
  }

  /** After the first n increments a byte has grown by one per increment
      that reached it, as long as its count field has room for them. */
  lemma {:induction false} TallyValue(b: seq<byte>, t: seq<int>, n: nat, k: int)
    requires n <= |t| && InBoard(t, |b|) && 0 <= k < |b|
    requires Unpack(b[k]).neighborCnt + HitsBelow(t, k, n) < 16
    ensures Tally(b, t, n)[k] == b[k] + HitsBelow(t, k, n)
    decreases n
  {
    if n > 0 {
      TallyValue(b, t, n - 1, k);
      if t[n - 1] == k {
        var h := HitsBelow(t, k, n - 1);
        CountAdds(b[k], h);
        IncrementCountAdds(b[k] + h);
      }
    }
  }

  /** `neighborCnt++` never changes an `isAlive` or a reserved field,
      whatever the counts. */
  lemma {:induction false} TallyKeepsState(b: seq<byte>, t: seq<int>, n: nat, k: int)
    requires n <= |t| && InBoard(t, |b|) && 0 <= k < |b|
    ensures Unpack(Tally(b, t, n)[k]).isAlive == Unpack(b[k]).isAlive
    ensures Unpack(Tally(b, t, n)[k]).isStatic == Unpack(b[k]).isStatic
    decreases n
  {
    if n > 0 {
      TallyKeepsState(b, t, n - 1, k);
    }
  }

  /** The byte at index kk after the eight increments of a live cell: it
      held a state and a count n, and now holds the count raised by the
      increments that reached it. */
  lemma TallyEncodes(b: seq<byte>, t: seq<int>, kk: int, alive: bool, n: int)
    requires |t| == Slots() && InBoard(t, |b|) && 0 <= kk < |b|
    requires 0 <= n && n + HitsTo(t, kk) <= 8 && b[kk] == Encode(alive, n)
    ensures Tally(b, t, |t|)[kk] == Encode(alive, n + HitsTo(t, kk))
  {
    EncodeFields(alive, n);
    TallyValue(b, t, |t|, kk);
  }

  /** Visiting (i, j), seen at one cell (r, c): if the board held the count
      of the live cells of m around (r, c), and m' adds at most (i, j), the
      cell's state in W, the byte of (r, c) afterwards holds the count of
      m'. */
  lemma InitCellAt(b: seq<byte>, W: Grid, m: Grid, m': Grid, nrows: int, ncols: int,
                   i: int, j: int, r: int, c: int)
    requires Dims(nrows, ncols) && IsGrid(W, nrows, ncols) && |b| >= nrows * ncols
    requires IsGrid(m, nrows, ncols) && IsGrid(m', nrows, ncols)
    requires 0 <= i < nrows && 0 <= j < ncols && 0 <= r < nrows && 0 <= c < ncols
    requires DifferAtMost(m, m', nrows, ncols, i, j) && !m[i][j] && m'[i][j] == W[i][j]
    requires Unpack(b[CellIndex(nrows, ncols, i, j)]).isAlive == 1 <==> W[i][j]
    requires b[CellIndex(nrows, ncols, r, c)] == Encode(W[r][c], NeighbourCount(m, nrows, ncols, r, c))
    ensures InitCell(b, nrows, ncols, i, j)[CellIndex(nrows, ncols, r, c)] ==
      Encode(W[r][c], NeighbourCount(m', nrows, ncols, r, c))
  {
    var kk := CellIndex(nrows, ncols, r, c);
    var t := Targets(nrows, ncols, i, j);
    var n := NeighbourCount(m, nrows, ncols, r, c);
    WorldAt(m, m', nrows, ncols, i, j, r, c);
    if W[i][j] {
      assert InitCell(b, nrows, ncols, i, j) == Tally(b, t, Slots());
      TallyEncodes(b, t, kk, W[r][c], n);
    } else {
      assert InitCell(b, nrows, ncols, i, j) == b;
    }
  }

  /** Adding (i, j) to P changes the restricted world at (i, j) only,
      from dead to the cell's state in W. */
  lemma RestrictStep(W: Grid, P: set<(int, int)>, nrows: int, ncols: int, i: int, j: int)
    requires Dims(nrows, ncols) && IsGrid(W, nrows, ncols)
    requires 0 <= i < nrows && 0 <= j < ncols && (i, j) !in P
    ensures var m := Restrict(W, P, nrows, ncols);
      var m' := Restrict(W, P + {(i, j)}, nrows, ncols);
      DifferAtMost(m, m', nrows, ncols, i, j) && !m[i][j] && m'[i][j] == W[i][j]
  {
  }

  /** Visiting (i, j) on a board that counts m gives one that counts m',
      when m' adds at most (i, j), with its state in W. */
  lemma CountsStep(b: seq<byte>, W: Grid, m: Grid, m': Grid, nrows: int, ncols: int, i: int, j: int)
    requires CountsOf(b, W, m, nrows, ncols) && IsGrid(m', nrows, ncols)
    requires 0 <= i < nrows && 0 <= j < ncols
    requires DifferAtMost(m, m', nrows, ncols, i, j) && !m[i][j] && m'[i][j] == W[i][j]
    ensures CountsOf(InitCell(b, nrows, ncols, i, j), W, m', nrows, ncols)
  {
    var k := CellIndex(nrows, ncols, i, j);
    assert b[k] == Encode(W[i][j], NeighbourCount(m, nrows, ncols, i, j));
    EncodeFields(W[i][j], NeighbourCount(m, nrows, ncols, i, j));
    forall r, c | 0 <= r < nrows && 0 <= c < ncols
      ensures InitCell(b, nrows, ncols, i, j)[CellIndex(nrows, ncols, r, c)] ==
        Encode(W[r][c], NeighbourCount(m', nrows, ncols, r, c))
    {
      InitCellAt(b, W, m, m', nrows, ncols, i, j, r, c);
    }
  }

  /** Visiting one more cell (i, j) keeps the invariant: the cells of P and
      (i, j) are now counted. */
  lemma InitCellStep(b: seq<byte>, W: Grid, P: set<(int, int)>, nrows: int, ncols: int, i: int, j: int)
    requires Counted(b, W, P, nrows, ncols)
    requires 0 <= i < nrows && 0 <= j < ncols && (i, j) !in P
    ensures Counted(InitCell(b, nrows, ncols, i, j), W, P + {(i, j)}, nrows, ncols)
  {
    RestrictStep(W, P, nrows, ncols, i, j);
    CountsStep(b, W, Restrict(W, P, nrows, ncols), Restrict(W, P + {(i, j)}, nrows, ncols), nrows, ncols, i, j);
  }

  /** One more visit at the end of a schedule keeps the invariant. */
  lemma InitCellsLast(b: seq<byte>, W: Grid, Q: set<(int, int)>, R: set<(int, int)>, nrows: int, ncols: int,
                      s: seq<(int, int)>)
    requires Dims(nrows, ncols) && |b| >= nrows * ncols && |s| > 0 && InGrid(s, nrows, ncols)
    requires s[|s| - 1] !in Q && R == Q + {s[|s| - 1]}
    requires Counted(InitCells(b, nrows, ncols, s[..|s| - 1]), W, Q, nrows, ncols)
    ensures Counted(InitCells(b, nrows, ncols, s), W, R, nrows, ncols)
  {
    var x := s[|s| - 1];
    InitCellStep(InitCells(b, nrows, ncols, s[..|s| - 1]), W, Q, nrows, ncols, x.0, x.1);
  }

  /** The invariant over a schedule: visiting each cell of s once, none of
      them counted before, counts the cells of P and of s. */
  lemma {:induction false} InitCellsCount(b: seq<byte>, W: Grid, P: set<(int, int)>, nrows: int, ncols: int,
                                          s: seq<(int, int)>)
    requires Counted(b, W, P, nrows, ncols)
    requires InGrid(s, nrows, ncols) && Distinct(s) && forall p :: 0 <= p < |s| ==> s[p] !in P
    ensures Counted(InitCells(b, nrows, ncols, s), W, P + CellsOf(s), nrows, ncols)
    decreases |s|
  {
    if |s| > 0 {
      CellsOfLast(s);
      InitCellsCount(b, W, P, nrows, ncols, s[..|s| - 1]);
      assert P + CellsOf(s) == P + CellsOf(s[..|s| - 1]) + {s[|s| - 1]};
      InitCellsLast(b, W, P + CellsOf(s[..|s| - 1]), P + CellsOf(s), nrows, ncols, s);
    } else {
      assert P + CellsOf(s) == P;
    }
  }

  /** A world with no live cell gives every cell a count of 0. */
  lemma {:induction false} NoLiveBelow(g: Grid, nrows: int, ncols: int, r: int, c: int, n: nat)
    requires Dims(nrows, ncols) && IsGrid(g, nrows, ncols) && 0 <= r < nrows && 0 <= c < ncols
    requires forall r', c' :: 0 <= r' < nrows && 0 <= c' < ncols ==> !g[r'][c']
    ensures LiveBelow(g, nrows, ncols, r, c, n) == 0
    decreases n
  {
    if n > 0 {
      NoLiveBelow(g, nrows, ncols, r, c, n - 1);
    }
  }

  /** A filled board has counted nothing yet. */
  lemma UncountedIsCountedNone(b: seq<byte>, W: Grid, nrows: int, ncols: int)
    requires Uncounted(b, W, nrows, ncols)
    ensures Counted(b, W, {}, nrows, ncols)
  {
    var m := Restrict(W, {}, nrows, ncols);
    forall r, c | 0 <= r < nrows && 0 <= c < ncols
      ensures NeighbourCount(m, nrows, ncols, r, c) == 0
    {
      NoLiveBelow(m, nrows, ncols, r, c, Slots());
    }
  }

  /** Once every cell is counted, the board encodes W. */
  lemma CountedAllEncodes(b: seq<byte>, W: Grid, nrows: int, ncols: int)
    requires Counted(b, W, RowBand(0, nrows, ncols), nrows, ncols)
    ensures Encodes(b, W, nrows, ncols)
  {
    var m := Restrict(W, RowBand(0, nrows, ncols), nrows, ncols);
    forall r | 0 <= r < nrows
      ensures m[r] == W[r]
    {
      forall c | 0 <= c < ncols
        ensures m[r][c] == W[r][c]
      {
        assert (r, c) in RowBand(0, nrows, ncols);
      }
    }
    assert m == W;
    forall r, c | 0 <= r < nrows && 0 <= c < ncols
      ensures CellEncodes(b, W, nrows, ncols, r, c)
    {
    }
  }

  /** What `init_neighbour_cnts` promises: on a filled board, any order
      that visits every cell once leaves every cell's true neighbour count
      beside its state, so the board encodes the world. */
  lemma InitCountsEncode(b: seq<byte>, W: Grid, nrows: int, ncols: int, s: seq<(int, int)>)
    requires Uncounted(b, W, nrows, ncols)
    requires InGrid(s, nrows, ncols) && VisitsOnce(s, RowBand(0, nrows, ncols))
    ensures Encodes(InitCells(b, nrows, ncols, s), W, nrows, ncols)
  {
    UncountedIsCountedNone(b, W, nrows, ncols);
    InitCellsCount(b, W, {}, nrows, ncols, s);
    assert {} + CellsOf(s) == RowBand(0, nrows, ncols);
    CountedAllEncodes(InitCells(b, nrows, ncols, s), W, nrows, ncols);
  }

  /** Running the cells of s1 and then those of s2 is running s1 + s2. */
  lemma {:induction false} InitCellsAppend(b: seq<byte>, nrows: int, ncols: int, s1: seq<(int, int)>, s2: seq<(int, int)>)
    requires Dims(nrows, ncols) && |b| >= nrows * ncols
    requires InGrid(s1, nrows, ncols) && InGrid(s2, nrows, ncols)
    ensures InGrid(s1 + s2, nrows, ncols)
    ensures InitCells(b, nrows, ncols, s1 + s2) == InitCells(InitCells(b, nrows, ncols, s1), nrows, ncols, s2)
    decreases |s2|
  {
    if |s2| > 0 {
      var s2' := s2[..|s2| - 1];
      InitCellsAppend(b, nrows, ncols, s1, s2');
      assert (s1 + s2)[..|s1 + s2| - 1] == s1 + s2';
      assert (s1 + s2)[|s1 + s2| - 1] == s2[|s2| - 1];
    } else {
      assert s1 + s2 == s1;
    }
  }

  /** Counting never changes a byte's `isAlive` or reserved field, on any
      board and in any order. */
  lemma {:induction false} InitCellsKeepsState(b: seq<byte>, nrows: int, ncols: int, s: seq<(int, int)>, k: int)
    requires Dims(nrows, ncols) && |b| >= nrows * ncols && InGrid(s, nrows, ncols) && 0 <= k < |b|
    ensures Unpack(InitCells(b, nrows, ncols, s)[k]).isAlive == Unpack(b[k]).isAlive
    ensures Unpack(InitCells(b, nrows, ncols, s)[k]).isStatic == Unpack(b[k]).isStatic
    decreases |s|
  {
    if |s| > 0 {
      var x := s[|s| - 1];
      var b' := InitCells(b, nrows, ncols, s[..|s| - 1]);
      InitCellsKeepsState(b, nrows, ncols, s[..|s| - 1], k);
      if Unpack(b'[CellIndex(nrows, ncols, x.0, x.1)]).isAlive == 1 {
        TallyKeepsState(b', Targets(nrows, ncols, x.0, x.1), Slots(), k);
      }
    }
  }

  /** The counts do not depend on the order of the visits: two orders
      that each visit every cell once leave the same board. */
  lemma InitOrderIrrelevant(b: seq<byte>, W: Grid, nrows: int, ncols: int, s1: seq<(int, int)>, s2: seq<(int, int)>)
    requires Uncounted(b, W, nrows, ncols)
    requires InGrid(s1, nrows, ncols) && VisitsOnce(s1, RowBand(0, nrows, ncols))
    requires InGrid(s2, nrows, ncols) && VisitsOnce(s2, RowBand(0, nrows, ncols))
    ensures InitCells(b, nrows, ncols, s1) == InitCells(b, nrows, ncols, s2)
  {
    var b1 := InitCells(b, nrows, ncols, s1);
    var b2 := InitCells(b, nrows, ncols, s2);
    var N := nrows * ncols;
    InitCountsEncode(b, W, nrows, ncols, s1);
    InitCountsEncode(b, W, nrows, ncols, s2);
    EncodingDetermines(b1, b2, W, nrows, ncols);
    forall k | 0 <= k < |b|
      ensures b1[k] == b2[k]
    {
      if k < N {
        assert b1[..N][k] == b2[..N][k];
      }
    }
  }

  // ---------------------------------------------------------------------
  // init_neighbour_cnts, in place
  // ---------------------------------------------------------------------

  /** One `neighborCnt++` of the loop body, on `BOARD(board, i, j)`, the
      e-th of the targets t. */
  method CountNeighbour(board: array<byte>, i: int, j: int, ghost o: seq<byte>, ghost t: seq<int>, ghost e: nat)
    requires e < |t| && InBoard(t, |o|) && |o| == board.Length && t[e] == Board(i, j)
    requires board[..] == Tally(o, t, e)
    modifies board
    ensures board[..] == Tally(o, t, e + 1)
  {
    board[Board(i, j)] := IncrementCount(board[Board(i, j)]);
  }

  /** The eight `neighborCnt++` for a live cell (i, j): NW, N, NE, W, E,
      SW, S, SE, at the wrapped rows `inorth`, `isouth` and the column
      offsets `nrows_jwest`, `nrowsxj`, `nrows_jeast`. */
  method CountNeighbours(board: array<byte>, nrows: int, ncols: int, i: int, j: int)
    requires Dims(nrows, ncols) && 0 <= i < nrows && 0 <= j < ncols
    requires board.Length >= nrows * ncols
    modifies board
    ensures board[..] == Tally(old(board[..]), Targets(nrows, ncols, i, j), Slots())
  {
    ghost var o := board[..];
    var inorth, isouth, jwest, jeast := WrappedCoordinates(nrows, ncols, i, j);
    var nrowsxj := nrows * j;
    var nrowsJWest := nrows * jwest;
    var nrowsJEast := nrows * jeast;
    ghost var t := [Board(inorth, nrowsJWest), Board(inorth, nrowsxj), Board(inorth, nrowsJEast),
                    Board(i, nrowsJWest), Board(i, nrowsJEast),
                    Board(isouth, nrowsJWest), Board(isouth, nrowsxj), Board(isouth, nrowsJEast)];
    TargetsAre(nrows, ncols, i, j, inorth, isouth, jwest, jeast);
    assert InBoard(t, |o|);
    CountNeighbour(board, inorth, nrowsJWest, o, t, 0);
    CountNeighbour(board, inorth, nrowsxj, o, t, 1);
    CountNeighbour(board, inorth, nrowsJEast, o, t, 2);
    CountNeighbour(board, i, nrowsJWest, o, t, 3);
    CountNeighbour(board, i, nrowsJEast, o, t, 4);
    CountNeighbour(board, isouth, nrowsJWest, o, t, 5);
    CountNeighbour(board, isouth, nrowsxj, o, t, 6);
    CountNeighbour(board, isouth, nrowsJEast, o, t, 7);
  }

  /** The loop body for cell (i, j): when the `isAlive` field of
      `BOARD(board, i, nrowsxj)` is set, tell its eight neighbours. */
  method CountCell(board: array<byte>, nrows: int, ncols: int, i: int, j: int, nrowsxj: int)
    requires Dims(nrows, ncols) && 0 <= i < nrows && 0 <= j < ncols && nrowsxj == nrows * j
    requires board.Length >= nrows * ncols
    modifies board
    ensures board[..] == InitCell(old(board[..]), nrows, ncols, i, j)
  {
    CellInRange(nrows, ncols, i, j);
    if Unpack(board[Board(i, nrowsxj)]).isAlive == 1 {
      CountNeighbours(board, nrows, ncols, i, j);
    }
  }

  /** The inner loop of `init_neighbour_cnts`: the cells of column j, from
      row 0 to row nrows - 1. */
  method InitColumn(board: array<byte>, nrows: int, ncols: int, j: int)
    requires Dims(nrows, ncols) && 0 <= j < ncols && board.Length >= nrows * ncols
    modifies board
    ensures InGrid(ColumnCells(0, nrows, j), nrows, ncols)
    ensures board[..] == InitCells(old(board[..]), nrows, ncols, ColumnCells(0, nrows, j))
  {
    var nrowsxj := nrows * j;
    var i := 0;
    while i < nrows
      invariant 0 <= i <= nrows
      invariant InGrid(ColumnCells(0, i, j), nrows, ncols)
      invariant board[..] == InitCells(old(board[..]), nrows, ncols, ColumnCells(0, i, j))
    {
      CountCell(board, nrows, ncols, i, j, nrowsxj);
      ColumnCellsLast(0, i, j);
      VisitedInGrid(0, nrows, i + 1, j, nrows, ncols);
      i := i + 1;
    }
  }

  /** The board after the loop body for the columns below j, each from
      row 0 down. */
  function InitBlock(b: seq<byte>, nrows: int, ncols: int, j: nat): (r: seq<byte>)
    requires Dims(nrows, ncols) && |b| >= nrows * ncols && j <= ncols
    ensures |r| == |b|
  {
    InitCells(b, nrows, ncols, BlockCells(0, nrows, j))
  }

  /** One more column: the columns below j + 1 are those below j, then
      column j. */
  lemma InitBlockNext(b: seq<byte>, nrows: int, ncols: int, j: nat)
    requires Dims(nrows, ncols) && |b| >= nrows * ncols && j < ncols
    ensures InGrid(ColumnCells(0, nrows, j), nrows, ncols)
    ensures InitBlock(b, nrows, ncols, j + 1) ==
      InitCells(InitBlock(b, nrows, ncols, j), nrows, ncols, ColumnCells(0, nrows, j))
  {
    VisitedInGrid(0, nrows, nrows, j, nrows, ncols);
    InitCellsAppend(b, nrows, ncols, BlockCells(0, nrows, j), ColumnCells(0, nrows, j));
  }

  /** One pass of the outer loop of `init_neighbour_cnts`: the board that
      has counted the columns below j counts column j too. */
  method InitNextColumn(board: array<byte>, nrows: int, ncols: int, j: nat, ghost b: seq<byte>)
    requires Dims(nrows, ncols) && j < ncols && board.Length == |b| >= nrows * ncols
    requires board[..] == InitBlock(b, nrows, ncols, j)
    modifies board
    ensures board[..] == InitBlock(b, nrows, ncols, j + 1)
  {
    InitColumn(board, nrows, ncols, j);
    InitBlockNext(b, nrows, ncols, j);
  }

  /** `init_neighbour_cnts`: every cell, column by column, and within a
      column row by row. */
  method InitNeighbourCnts(board: array<byte>, nrows: int, ncols: int)
    requires Dims(nrows, ncols) && board.Length >= nrows * ncols
    modifies board
    ensures board[..] == InitBlock(old(board[..]), nrows, ncols, ncols)
  {
    ghost var b := board[..];
    var j := 0;
    while j < ncols
      invariant 0 <= j <= ncols
      invariant board[..] == InitBlock(b, nrows, ncols, j)
    {
      InitNextColumn(board, nrows, ncols, j, b);
      j := j + 1;
    }
  }

  // ---------------------------------------------------------------------
  // load_board_values
  // ---------------------------------------------------------------------

  /** The world an input describes: item k of the input is the cell at
      board index k, alive unless the item is the character '0'. */
  ghost function InitialWorld(input: seq<char>, nrows: int, ncols: int): (g: Grid)
    requires Dims(nrows, ncols) && |input| >= nrows * ncols
    ensures IsGrid(g, nrows, ncols)
    ensures forall r, c :: 0 <= r < nrows && 0 <= c < ncols ==>
      g[r][c] == (input[CellIndex(nrows, ncols, r, c)] != '0')
  {
    seq(nrows, r requires 0 <= r < nrows =>
      seq(ncols, c requires 0 <= c < ncols => input[CellIndex(nrows, ncols, r, c)] != '0'))
  }

  /** The outcome of `load_board_values`: the loaded board, or the index
      of the item at which the input ran out. */
  datatype Loaded = Loaded(board: array<byte>) | RanOut(item: int)

  /** The fill loop of `load_board_values` on a zeroed board: item k of
      the input sets the `isAlive` field of byte k unless it is '0'. It
      fails when the input holds fewer than nrows * ncols items. */
  method FillBoard(board: array<byte>, input: seq<char>, nrows: int, ncols: int) returns (ok: bool)
    requires Dims(nrows, ncols) && board.Length >= nrows * ncols
    requires forall k :: 0 <= k < board.Length ==> board[k] == 0
    modifies board
    ensures ok <==> |input| >= nrows * ncols
    ensures ok ==> Uncounted(board[..], InitialWorld(input, nrows, ncols), nrows, ncols)
    ensures ok ==> forall k :: nrows * ncols <= k < board.Length ==> board[k] == 0
  {
    var i := 0;
    while i < nrows * ncols
      invariant 0 <= i <= nrows * ncols && i <= |input|
      invariant forall k :: 0 <= k < board.Length ==> board[k] == if k < i then Encode(input[k] != '0', 0) else 0
    {
      if i == |input| {
        return false;
      }
      if input[i] != '0' {
        SetAliveField(board[i]);
        board[i] := Pack(Unpack(board[i]).(isAlive := 1));
      }
      i := i + 1;
    }
    ok := true;
  }

  /** Counting a filled board in the order of `init_neighbour_cnts` gives
      the board that encodes the world of the input, and leaves the
      bytes past the cells zero. */
  lemma CountedBoard(filled: seq<byte>, W: Grid, nrows: int, ncols: int)
    requires Uncounted(filled, W, nrows, ncols)
    requires forall k :: nrows * ncols <= k < |filled| ==> filled[k] == 0
    ensures Encodes(InitBlock(filled, nrows, ncols, ncols), W, nrows, ncols)
    ensures forall k :: nrows * ncols <= k < |filled| ==> InitBlock(filled, nrows, ncols, ncols)[k] == 0
  {
    var s := BlockCells(0, nrows, ncols);
    BlockCellsVisit(0, nrows, ncols);
    InitCountsEncode(filled, W, nrows, ncols, s);
  }

  /** `load_board_values`: a fresh zeroed board, filled from the input,
      then the neighbour counts. The input is the sequence of the items
      `fscanf` reads. */
  method LoadBoardValues(input: seq<char>, nrows: int, ncols: int) returns (r: Loaded)
    requires Dims(nrows, ncols)
    ensures r.RanOut? <==> |input| < nrows * ncols
    ensures r.RanOut? ==> r.item == |input|
    ensures r.Loaded? ==> fresh(r.board) && r.board.Length == 2 * nrows * ncols
    ensures r.Loaded? ==> Encodes(r.board[..], InitialWorld(input, nrows, ncols), nrows, ncols)
    ensures r.Loaded? ==> forall k :: nrows * ncols <= k < r.board.Length ==> r.board[k] == 0
  {
    var board := MakeBoard(nrows, ncols);
    var ok := FillBoard(board, input, nrows, ncols);
    if !ok {
      return RanOut(|input|);
    }
    ghost var filled := board[..];
    InitNeighbourCnts(board, nrows, ncols);
    CountedBoard(filled, InitialWorld(input, nrows, ncols), nrows, ncols);
    r := Loaded(board);
  }
}

/**
 * The helpers of util.h: the one-byte cell encoding and its mask macros,
 * the bitfield view of the same byte, the toroidal remainder `mod`, the
 * reference Life rule `alivep`, the column-major `BOARD` addressing and the
 * pointer swap `SWAP_BOARDS`.
 */
module Util {

  /** A board byte: the eight bits of the source's `char`, read as 0..255.
      Where the source reads a `char` as a signed number (the comparisons in
      the workers, the final shift) the model converts explicitly. */
  type byte = x: int | 0 <= x < 256

  /** Bit 4 of a cell: the alive flag. */
  const ALIVE_BIT: bv8 := 0x10

  // ---------------------------------------------------------------------
  // C arithmetic
  // ---------------------------------------------------------------------

  /** C's `/` on `int`: the quotient is truncated toward zero. */
  function CDiv(x: int, m: int): int
    requires m > 0
  {
    if x >= 0 then x / m else -((-x) / m)
  }

  /** C's `%` on `int`: what is left after the truncated quotient, so a
      non-zero remainder takes the sign of the dividend. */
  function CRem(x: int, m: int): (r: int)
    requires m > 0
    ensures -m < r < m
    ensures r == 0 || (r < 0 <==> x < 0)
    ensures x == CDiv(x, m) * m + r
  {
    if x >= 0 then x % m else -((-x) % m)
  }

  /** `mod(x, m)`: the "always non-negative" remainder used for toroidal
      wrap-around. It adds `m` to a negative C remainder, so the result lies
      in [0, m] and equals `m` only when `x` is a negative multiple of `m`. */
  function Mod(x: int, m: int): (r: int)
    requires m > 0
    ensures 0 <= r <= m
    ensures x >= 0 ==> r == x % m && r < m
    ensures r == m <==> x < 0 && CRem(x, m) == 0
  {
    if x < 0 then CRem(x, m) + m else CRem(x, m)
  }

  /** For `-m < x < 0`, `mod(x, m)` is `x + m`, inside [0, m). */
  lemma ModOfSmallNegative(x: int, m: int)
    requires -m < x < 0
    ensures Mod(x, m) == x + m
  {
    SmallDivMod(-x, m);
  }

  /** The calls in the source only pass `i - 1`, `i` and `i + 1` for an index
      `i` in [0, m); for those `mod` is a one-step wrap-around, provided
      `m >= 2`. */
  lemma ModStep(x: int, m: int)
    requires m >= 2 && -1 <= x <= m
    ensures Mod(x, m) == if x < 0 then x + m else if x == m then 0 else x
    ensures 0 <= Mod(x, m) < m
  {
    if x == -1 {
      ModOfSmallNegative(x, m);
    } else if x == m {
      DivModUnique(m, m, 1, 0);
    } else {
      SmallDivMod(x, m);
    }
  }

  /** With a single row or column, `mod(-1, 1)` is 1: the wrapped index falls
      outside [0, 1). */
  lemma ModOfMinusOneByOne()
    ensures Mod(-1, 1) == 1
  {
  }

  // ---------------------------------------------------------------------
  // The Life rule
  // ---------------------------------------------------------------------

  /** `alivep(count, state)`: nonzero iff the cell is alive in the next
      round, given its live-neighbour count and its current state (zero
      means dead). The C expression yields 0 or 1. */
  function AliveP(count: int, state: int): (r: int)
    ensures r == 0 || r == 1
  {
    if (state == 0 && count == 3) || (state != 0 && count >= 2 && count <= 3) then 1 else 0
  }

  /** The Life rule as `alivep` states it: a dead cell is born with exactly
      three live neighbours, a live cell survives with two or three, and every
      other cell is dead in the next round. */
  lemma AlivePIsLifeRule(count: int, state: int)
    ensures state == 0 ==> (AliveP(count, state) == 1 <==> count == 3)
    ensures state != 0 ==> (AliveP(count, state) == 1 <==> count == 2 || count == 3)
    ensures count <= 1 || count >= 4 ==> AliveP(count, state) == 0
  {
  }

  // ---------------------------------------------------------------------
  // The bitfield view (elementNode_t)
  // ---------------------------------------------------------------------

  /** `elementNode_t`: a 4-bit neighbour count, a 1-bit alive flag and three
      reserved bits, laid out least significant bit first. */
  datatype ElementNode = ElementNode(neighborCnt: int, isAlive: int, isStatic: int)
  {
    predicate Valid()
    {
      0 <= neighborCnt < 16 && 0 <= isAlive < 2 && 0 <= isStatic < 8
    }
  }

  /** Reads the bitfields of a byte (the `value` member of the union). */
  function Unpack(b: byte): (e: ElementNode)
    ensures e.Valid()
    ensures b == e.neighborCnt + 16 * e.isAlive + 32 * e.isStatic
  {
    DivModUnique(b, 32, (b / 16) / 2, b % 16 + 16 * ((b / 16) % 2));
    ElementNode(b % 16, (b / 16) % 2, b / 32)
  }

  /** The byte whose fields are cnt, alive and reserved reads back as those
      fields. */
  lemma UnpackFields(cnt: int, alive: int, reserved: int)
    requires 0 <= cnt < 16 && 0 <= alive < 2 && 0 <= reserved < 8
    ensures Unpack(cnt + 16 * alive + 32 * reserved) == ElementNode(cnt, alive, reserved)
  {
    var b := cnt + 16 * alive + 32 * reserved;
    DivModUnique(b, 16, alive + 2 * reserved, cnt);
    DivModUnique(alive + 2 * reserved, 2, reserved, alive);
    DivModUnique(b, 32, reserved, cnt + 16 * alive);
  }

  /** Writes the bitfields back as one byte. */
  function Pack(e: ElementNode): (b: byte)
    requires e.Valid()
    ensures Unpack(b) == e
  {
    UnpackFields(e.neighborCnt, e.isAlive, e.isStatic);
    e.neighborCnt + 16 * e.isAlive + 32 * e.isStatic
  }

  /** Unpacking then packing gives the byte back: the bitfields cover all
      eight bits. */
  lemma PackUnpack(b: byte)
    ensures Pack(Unpack(b)) == b
  {
  }

  // ---------------------------------------------------------------------
  // The mask macros (IS_ALIVE, SET_ALIVE, SET_DEAD, ++, --, >> 4)
  // ---------------------------------------------------------------------

  /** `IS_ALIVE(var)`: bit 4 of the byte, which is the `isAlive` field of
      its bitfield view. */
  function IsAlive(b: byte): (r: bool)
    ensures r <==> Unpack(b).isAlive == 1
  {
    (b / 16) % 2 == 1
  }

  /** `SET_ALIVE(var)`: sets bit 4, that is, writes 1 to the `isAlive`
      field and leaves the count and the reserved bits as they were. */
  function SetAlive(b: byte): (r: byte)
    ensures Unpack(r) == Unpack(b).(isAlive := 1)
  {
    var e := Unpack(b);
    UnpackFields(e.neighborCnt, 1, e.isStatic);
    if IsAlive(b) then b else b + 16
  }

  /** `SET_DEAD(var)`: clears bit 4, that is, writes 0 to the `isAlive`
      field and leaves the count and the reserved bits as they were. */
  function SetDead(b: byte): (r: byte)
    ensures Unpack(r) == Unpack(b).(isAlive := 0)
  {
    var e := Unpack(b);
    UnpackFields(e.neighborCnt, 0, e.isStatic);
    if IsAlive(b) then b - 16 else b
  }

  /** `++` on a board byte, wrapping at 256 like an unsigned char. While the
      count field is below 15 it adds one to the count and changes nothing
      else. */
  function Increment(b: byte): (r: byte)
    ensures Unpack(b).neighborCnt < 15 ==> Unpack(r) == Unpack(b).(neighborCnt := Unpack(b).neighborCnt + 1)
  {
    var e := Unpack(b);
    if e.neighborCnt < 15 then UnpackFields(e.neighborCnt + 1, e.isAlive, e.isStatic); b + 1
    else if b == 255 then 0 else b + 1
  }

  /** `--` on a board byte, wrapping at 0 like an unsigned char. While the
      count field is above 0 it subtracts one from the count and changes
      nothing else. */
  function Decrement(b: byte): (r: byte)
    ensures Unpack(b).neighborCnt > 0 ==> Unpack(r) == Unpack(b).(neighborCnt := Unpack(b).neighborCnt - 1)
  {
    var e := Unpack(b);
    if e.neighborCnt > 0 then UnpackFields(e.neighborCnt - 1, e.isAlive, e.isStatic); b - 1
    else if b == 0 then 255 else b - 1
  }

  /** `b >> 4` stored back into the board's signed `char`: drops the count
      field, leaving the alive flag as bit 0 and the reserved bits above it.
      The shift is arithmetic, so a byte with bit 7 set (a negative `char`)
      comes out with its top four bits set. */
  function ShiftOutCount(b: byte): (r: byte)
    ensures r == Unpack(b).isAlive + 2 * Unpack(b).isStatic + (if b < 128 then 0 else 240)
  {
    if b < 128 then b / 16 else b / 16 + 240
  }

  /** `IS_ALIVE` is `var & (1 << 4)` on the eight bits of a byte. */
  lemma IsAliveIsMask(v: bv8)
    ensures IsAlive(v as int) <==> v & ALIVE_BIT != 0
  {
    var w := v >> 4;
    assert (v as int) / 16 == w as int;
    assert (v & ALIVE_BIT != 0) <==> (w & 1 != 0);
    assert (w & 1 != 0) <==> (w as int) % 2 == 1;
  }

  /** `SET_ALIVE` is `var |= 1 << 4` on the eight bits of a byte. */
  lemma SetAliveIsMask(v: bv8)
    ensures SetAlive(v as int) == (v | ALIVE_BIT) as int
  {
    IsAliveIsMask(v);
    if v & ALIVE_BIT != 0 {
      assert v | ALIVE_BIT == v;
    } else {
      assert v | ALIVE_BIT == v + ALIVE_BIT;
    }
  }

  /** `SET_DEAD` is `var &= ~(1 << 4)` on the eight bits of a byte. */
  lemma SetDeadIsMask(v: bv8)
    ensures SetDead(v as int) == (v & !ALIVE_BIT) as int
  {
    IsAliveIsMask(v);
    if v & ALIVE_BIT != 0 {
      assert v & !ALIVE_BIT == v - ALIVE_BIT;
    } else {
      assert v & !ALIVE_BIT == v;
    }
  }

  /** `++` and `--` on an unsigned char are eight-bit addition and
      subtraction. */
  lemma IncrementDecrementAreEightBit(v: bv8)
    ensures Increment(v as int) == (v + 1) as int
    ensures Decrement(v as int) == (v - 1) as int
  {
    if v == 0xFF {
      assert v + 1 == 0;
    } else if v == 0 {
      assert v - 1 == 0xFF;
    } else {
      assert (v + 1) as int == v as int + 1 && (v - 1) as int == v as int - 1;
    }
  }

  /** The final extraction is the eight-bit logical shift `>> 4` on bytes
      below 0x80, and the same shift with the sign bits filled in above. */
  lemma ShiftOutCountIsShift(v: bv8)
    ensures ShiftOutCount(v as int) == (if v < 0x80 then v >> 4 else (v >> 4) | 0xF0) as int
  {
  }

  /** `neighborCnt++` on the 4-bit field: wraps within the field and leaves
      the other fields alone. */
  function IncrementCount(b: byte): (r: byte)
    ensures Unpack(r).neighborCnt == (Unpack(b).neighborCnt + 1) % 16
    ensures Unpack(r).isAlive == Unpack(b).isAlive
    ensures Unpack(r).isStatic == Unpack(b).isStatic
  {
    var e := Unpack(b);
    Pack(e.(neighborCnt := (e.neighborCnt + 1) % 16))
  }

  /** `isAlive = 1` on the bitfield view is the same byte as `SET_ALIVE`. */
  lemma SetAliveField(b: byte)
    ensures Pack(Unpack(b).(isAlive := 1)) == SetAlive(b)
  {
  }

  /** The encoding of a cell between generations: the alive flag in bit 4,
      a count of at most 8 below it and zero reserved bits. */
  function Encode(alive: bool, count: int): byte
    requires 0 <= count <= 8
  {
    (if alive then 16 else 0) + count
  }

  /** The encoded byte carries the flag and the count in the `elementNode_t`
      fields, and `>> 4` leaves exactly the flag. */
  lemma EncodeFields(alive: bool, count: int)
    requires 0 <= count <= 8
    ensures var b := Encode(alive, count);
      && IsAlive(b) == alive && Unpack(b).neighborCnt == count && Unpack(b).isStatic == 0
      && ShiftOutCount(b) == if alive then 1 else 0
  {
    UnpackFields(count, if alive then 1 else 0, 0);
  }

  // ---------------------------------------------------------------------
  // Board addressing
  // ---------------------------------------------------------------------

  /** `BOARD(b, i, j)` addresses `b[i + j]`. */
  function Board(i: int, j: int): int
  {
    i + j
  }

  /** Every caller passes `j = nrows * col`: a column-major layout whose
      stride is the number of rows. Every cell lands inside the first
      nrows * ncols bytes. */
  function CellIndex(nrows: int, ncols: int, row: int, col: int): (k: int)
    requires 0 <= row < nrows && 0 <= col < ncols
    ensures 0 <= k < nrows * ncols
  {
    CellInRange(nrows, ncols, row, col);
    Board(row, nrows * col)
  }

  lemma CellInRange(nrows: int, ncols: int, row: int, col: int)
    requires 0 <= row < nrows && 0 <= col < ncols
    ensures 0 <= row + nrows * col < nrows * ncols
  {
    MulStrictMono(col, ncols, nrows);
    MulNonneg(col, nrows);
  }

  /** The address of a cell gives back its row and its column. */
  lemma CellIndexInverse(nrows: int, ncols: int, row: int, col: int)
    requires 0 <= row < nrows && 0 <= col < ncols
    ensures CellIndex(nrows, ncols, row, col) % nrows == row
    ensures CellIndex(nrows, ncols, row, col) / nrows == col
  {
    DivModOfCell(nrows, ncols, row, col);
  }

  /** Two cells share an address only if they are the same cell. */
  lemma CellIndexInjective(nrows: int, ncols: int, r1: int, c1: int, r2: int, c2: int)
    requires 0 <= r1 < nrows && 0 <= c1 < ncols && 0 <= r2 < nrows && 0 <= c2 < ncols
    ensures CellIndex(nrows, ncols, r1, c1) == CellIndex(nrows, ncols, r2, c2) <==> r1 == r2 && c1 == c2
  {
    CellIndexInverse(nrows, ncols, r1, c1);
    CellIndexInverse(nrows, ncols, r2, c2);
  }

  /** Euclidean division of `row + nrows * col` by `nrows` gives back `col`
      and `row`. */
  lemma DivModOfCell(nrows: int, ncols: int, row: int, col: int)
    requires 0 <= row < nrows && 0 <= col < ncols
    ensures 0 <= row + nrows * col < nrows * ncols
    ensures (row + nrows * col) % nrows == row && (row + nrows * col) / nrows == col
  {
    DivModUnique(row + nrows * col, nrows, col, row);
    MulStrictMono(col, ncols, nrows);
    MulNonneg(col, nrows);
  }

  /** Every address in [0, nrows * ncols) is the address of a cell. */
  lemma CellIndexOnto(nrows: int, ncols: int, k: int)
    requires nrows > 0 && 0 <= k < nrows * ncols
    ensures 0 <= k % nrows < nrows && 0 <= k / nrows < ncols
    ensures CellIndex(nrows, ncols, k % nrows, k / nrows) == k
  {
    var q := k / nrows;
    assert k == q * nrows + k % nrows;
    assert q * nrows < ncols * nrows;
    MulCancelLt(q, ncols, nrows);
    if q < 0 {
      MulStrictMono(q, 0, nrows);
    }
  }

  // ---------------------------------------------------------------------
  // Arithmetic helpers
  // ---------------------------------------------------------------------

  lemma MulNonneg(a: int, b: int)
    requires a >= 0 && b >= 0
    ensures a * b >= 0
  {
  }

  lemma MulStrictMono(a: int, b: int, n: int)
    requires n > 0 && a < b
    ensures a * n + n <= b * n
  {
    MulNonneg(b - a - 1, n);
    assert (b - a - 1) * n == b * n - a * n - n;
  }

  lemma MulCancelLt(a: int, b: int, n: int)
    requires n > 0 && a * n < b * n
    ensures a < b
  {
  }

  lemma SmallDivMod(x: int, m: int)
    requires 0 <= x < m
    ensures x % m == x && x / m == 0
  {
    DivModUnique(x, m, 0, x);
  }

  lemma DivModUnique(k: int, n: int, q: int, r: int)
    requires n > 0 && 0 <= r < n && k == q * n + r
    ensures k % n == r && k / n == q
  {
    var q', r' := k / n, k % n;
    assert k == q' * n + r';
    if q' < q {
      MulStrictMono(q', q, n);
    } else if q < q' {
      MulStrictMono(q, q', n);
    }
  }

  // ---------------------------------------------------------------------
  // SWAP_BOARDS
  // ---------------------------------------------------------------------

  /** `SWAP_BOARDS(b1, b2)`: exchanges the two references; it modifies no
      board, so both buffers keep their contents. */
  method SwapBoards(b1: array<byte>, b2: array<byte>) returns (r1: array<byte>, r2: array<byte>)
    ensures r1 == b2 && r2 == b1
  {
    var temp := b1;
    r1 := b2;
    r2 := temp;
  }
}

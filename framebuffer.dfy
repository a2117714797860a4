/** The framebuffer: 8 rows of one 32-bit word each.  Column `p` (0 at the
    left) of row `j` is bit `31 - p` of `rows[j]`; a glyph column is one byte
    whose bit `7 - j` lights row `j`. */
module Framebuffer {

  const Rows := 8
  const Columns := 32

  /** Arduino's `bitRead(w, b)` on a 32-bit word. */
  function Bit(w: bv32, b: nat): bool
    requires b < 32
  {
    BitAt(w, Shift(b))
  }

  /** `bitRead` with the bit index given as a shift amount. */
  function BitAt(w: bv32, b: bv32): bool
    requires b < 32
  {
    (w >> b) & 1 == 1
  }

  /** Arduino's `bitRead(c, b)` on a byte. */
  function Bit8(c: bv8, b: nat): bool
    requires b < 8
  {
    (c >> b) & 1 == 1
  }

  /** Bit index `b` as a 32-bit shift amount. */
  function Shift(b: nat): (s: bv32)
    requires b < 32
    ensures s < 32
    ensures s as int == b
  {
    if b == 0 then 0 else Shift(b - 1) + 1
  }

  /** The one-bit mask of bit `b`, `1 << b`. */
  function Mask(b: nat): bv32
    requires b < 32
  {
    1 << Shift(b)
  }

  lemma SetAt(w: bv32, b: bv32, k: bv32)
    requires b < 32 && k < 32
    ensures BitAt(w | (1 << b), k) == (k == b || BitAt(w, k))
  {
  }

  lemma ClearAt(w: bv32, m: bv32, b: bv32, k: bv32)
    requires b < 32 && k < 32 && m == 1 << b
    ensures BitAt(w & !m, k) == (k != b && BitAt(w, k))
  {
  }

  lemma SetBit(w: bv32, b: nat, k: nat)
    requires b < 32 && k < 32
    ensures Bit(w | Mask(b), k) == (k == b || Bit(w, k))
  {
    SetAt(w, Shift(b), Shift(k));
  }

  lemma ClearBit(w: bv32, b: nat, k: nat)
    requires b < 32 && k < 32
    ensures Bit(w & !Mask(b), k) == (k != b && Bit(w, k))
  {
    ClearAt(w, Mask(b), Shift(b), Shift(k));
  }

  /** Arduino's `bitWrite(w, b, v)`. */
  function BitWrite(w: bv32, b: nat, v: bool): bv32
    requires b < 32
  {
    if v then w | Mask(b) else w & !Mask(b)
  }

  lemma BitWriteBit(w: bv32, b: nat, v: bool, k: nat)
    requires b < 32 && k < 32
    ensures Bit(BitWrite(w, b, v), k) == if k == b then v else Bit(w, k)
  {
    if v { SetBit(w, b, k); } else { ClearBit(w, b, k); }
  }

  /** `BitWriteBit` for a word `r` known to be `BitWrite(w, b, v)`. */
  lemma WrittenBit(w: bv32, b: nat, v: bool, k: nat, r: bv32)
    requires b < 32 && k < 32 && r == BitWrite(w, b, v)
    ensures Bit(r, k) == if k == b then v else Bit(w, k)
  {
    BitWriteBit(w, b, v, k);
  }

  /** `bitWrite(w, b, v)` makes bit `b` equal to `v` and keeps every other bit. */
  lemma BitWriteBits(w: bv32, b: nat, v: bool)
    requires b < 32
    ensures forall k | 0 <= k < 32 :: Bit(BitWrite(w, b, v), k) == if k == b then v else Bit(w, k)
  {
    forall k | 0 <= k < 32 ensures Bit(BitWrite(w, b, v), k) == if k == b then v else Bit(w, k) {
      BitWriteBit(w, b, v, k);
    }
  }

  /** The cleared framebuffer. */
  function Blank(): (rows: seq<bv32>)
    ensures |rows| == Rows
  {
    seq(Rows, j => 0)
  }

  /** Draw glyph column `col` at column `pos`: row `j` gets bit `7 - j`
      of `col` as its bit `31 - pos`. */
  function PutColumn(rows: seq<bv32>, pos: nat, col: bv8): (r: seq<bv32>)
    requires |rows| == Rows && pos < Columns
    ensures |r| == Rows
  {
    PutRows(rows, pos, col, Rows)
  }

  /** The first `n` rows of `PutColumn(rows, pos, col)`. */
  function PutRows(rows: seq<bv32>, pos: nat, col: bv8, n: nat): (r: seq<bv32>)
    requires n <= |rows| == Rows && pos < Columns
    ensures |r| == n
  {
    if n == 0 then []
    else PutRows(rows, pos, col, n - 1) + [BitWrite(rows[n - 1], 31 - pos, Bit8(col, 7 - (n - 1)))]
  }

  lemma PutRowsRows(rows: seq<bv32>, pos: nat, col: bv8, n: nat)
    requires n <= |rows| == Rows && pos < Columns
    ensures forall j | 0 <= j < n ::
      PutRows(rows, pos, col, n)[j] == BitWrite(rows[j], 31 - pos, Bit8(col, 7 - j))
  {
    forall j | 0 <= j < n {
      PutRowsRow(rows, pos, col, n, j);
    }
  }

  /** Row `j` of the framebuffer after drawing column `col` at `pos` is
      row `j` before it, with bit `31 - pos` written. */
  lemma PutColumnRows(rows: seq<bv32>, pos: nat, col: bv8)
    requires |rows| == Rows && pos < Columns
    ensures forall j | 0 <= j < Rows ::
      PutColumn(rows, pos, col)[j] == BitWrite(rows[j], 31 - pos, Bit8(col, 7 - j))
  {
    PutRowsRows(rows, pos, col, Rows);
  }

  /** Drawing a column sets bit `31 - pos` of row `j` to bit `7 - j` of the
      column byte and leaves every other bit of every row as it was. */
  lemma PutColumnBits(rows: seq<bv32>, pos: nat, col: bv8)
    requires |rows| == Rows && pos < Columns
    ensures forall j, b | 0 <= j < Rows && 0 <= b < Columns ::
      Bit(PutColumn(rows, pos, col)[j], b) ==
        if b == 31 - pos then Bit8(col, 7 - j) else Bit(rows[j], b)
  {
    PutColumnRows(rows, pos, col);
    forall j | 0 <= j < Rows {
      BitWriteBits(rows[j], 31 - pos, Bit8(col, 7 - j));
    }
  }

  /** The LED at row `j`, column `p` (column 0 at the left). */
  function Pixel(rows: seq<bv32>, j: nat, p: nat): bool
    requires |rows| == Rows && j < Rows && p < Columns
  {
    Bit(rows[j], 31 - p)
  }

  /** Whether glyph column `col` lights row `j` (row 0 is its most significant bit). */
  function Dot(col: bv8, j: nat): bool
    requires j < Rows
  {
    Bit8(col, 7 - j)
  }

  /** One pixel of `PutColumn`. */
  lemma PutColumnPixel(rows: seq<bv32>, pos: nat, col: bv8, j: nat, p: nat)
    requires |rows| == Rows && pos < Columns && j < Rows && p < Columns
    ensures Pixel(PutColumn(rows, pos, col), j, p) == if p == pos then Dot(col, j) else Pixel(rows, j, p)
  {
    PutRowsRow(rows, pos, col, Rows, j);
    WrittenBit(rows[j], 31 - pos, Bit8(col, 7 - j), 31 - p, PutColumn(rows, pos, col)[j]);
  }

  /** Row `j` of `PutRows`. */
  lemma {:induction false} PutRowsRow(rows: seq<bv32>, pos: nat, col: bv8, n: nat, j: nat)
    requires n <= |rows| == Rows && pos < Columns && j < n
    ensures PutRows(rows, pos, col, n)[j] == BitWrite(rows[j], 31 - pos, Bit8(col, 7 - j))
  {
    if j < n - 1 {
      PutRowsRow(rows, pos, col, n - 1, j);
    }
  }
}

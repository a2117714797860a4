/** The font table (`MAX7219_FONT` in the driver's header, not part of this
    model): a flat byte sequence of back-to-back entries, entry `k` being a
    length byte `L` followed by `L` column bytes.  An entry is found by a
    linear scan from the start of the table; a character code selects an
    entry number, shifted by 100 when the second font is selected. */
module Glyphs {

  /** Where entry `k` starts, skipping `length + 1` bytes per earlier entry.
      Once a start falls outside the table the scan is stuck there; the
      predicates below exclude that case. */
  function Start(table: seq<bv8>, k: nat): nat
  {
    if k == 0 then 0
    else
      var p := Start(table, k - 1);
      if p < |table| then p + table[p] as nat + 1 else p
  }

  /** The scan to entry `n` reads only bytes of the table, and every start
      it computes fits the driver's 16-bit `startIndex`. */
  ghost predicate Scannable(table: seq<bv8>, n: nat)
  {
    (forall m | 0 <= m < n :: Start(table, m) < |table|) &&
    (forall m | 0 <= m <= n :: Start(table, m) < 0x1_0000)
  }

  /** Entry `n` can be scanned to, and its length byte and columns are in the table. */
  ghost predicate Locatable(table: seq<bv8>, n: nat)
  {
    Scannable(table, n) &&
    Start(table, n) < |table| &&
    Start(table, n) + table[Start(table, n)] as nat < |table|
  }

  /** The columns of entry `n`. */
  function Glyph(table: seq<bv8>, n: nat): (g: seq<bv8>)
    requires Locatable(table, n)
    ensures |g| == table[Start(table, n)] as nat
  {
    var s := Start(table, n);
    table[s + 1 .. s + 1 + table[s] as nat]
  }

  /** `char` is a signed 8-bit type on the AVR targets the driver is built for. */
  function SignedChar(c: bv8): int
  {
    if c < 0x80 then c as int else c as int - 0x100
  }

  /** The entry offset of the selected font. */
  function FontOffset(font: bool): nat
  {
    if font then 100 else 0
  }

  /** The number of entries the scan skips for character `c`:
      `str[i] + fontOffset` iterations, none when that is not positive. */
  function EntryIndex(c: bv8, offset: nat): nat
  {
    var n := SignedChar(c) + offset;
    if n > 0 then n else 0
  }

  /** The two fonts are disjoint regions of one table: for a 7-bit
      character the second font's entry lies exactly 100 entries further. */
  lemma FontPartition(c: bv8)
    requires c < 0x80
    ensures EntryIndex(c, FontOffset(true)) == EntryIndex(c, FontOffset(false)) + 100
  {
  }

  /** A code of 128 or more is a negative `char`: with the first font it
      scans no entries at all. */
  lemma FirstFontHighCodes(c: bv8)
    requires c >= 0x80
    ensures EntryIndex(c, FontOffset(false)) == 0
  {
  }

  /** With the second font, the negative `char` codes 157 .. 255 (-99 .. -1)
      still scan `c - 156` entries, and 128 .. 156 scan none. */
  lemma SecondFontHighCodes(c: bv8)
    requires c >= 0x80
    ensures EntryIndex(c, FontOffset(true)) == if c >= 157 then c as int - 156 else 0
  {
  }

  // ---------------------------------------------------------------------
  // An independent description of the table: the encoding of a list of entries.

  /** One font entry: a length byte and the glyph columns it counts. */
  datatype Entry = Entry(length: bv8, columns: seq<bv8>)

  predicate WellFormed(es: seq<Entry>)
  {
    forall k | 0 <= k < |es| :: es[k].length as nat == |es[k].columns|
  }

  /** The flat table holding the entries `es` back to back. */
  function Table(es: seq<Entry>): seq<bv8>
  {
    if es == [] then [] else [es[0].length] + es[0].columns + Table(es[1..])
  }

  /** Where entry `k` is stored: the sum of `length + 1` over the entries before it. */
  function Offset(es: seq<Entry>, k: nat): nat
    requires k <= |es|
  {
    if k == 0 then 0 else |es[0].columns| + 1 + Offset(es[1..], k - 1)
  }

  lemma {:induction false} TableLength(es: seq<Entry>)
    ensures |Table(es)| == Offset(es, |es|)
  {
    if es != [] {
      TableLength(es[1..]);
    }
  }

  lemma DropAppend(h: seq<bv8>, t: seq<bv8>, o: nat)
    requires o <= |t|
    ensures (h + t)[|h| + o ..] == t[o..]
  {
  }

  /** The table from `Offset(es, k)` on is the table of the entries from `k` on. */
  lemma {:induction false} TableDrop(es: seq<Entry>, k: nat)
    requires k <= |es|
    ensures Offset(es, k) <= |Table(es)|
    ensures Table(es)[Offset(es, k)..] == Table(es[k..])
  {
    if k == 0 {
      assert es[0..] == es;
    } else {
      var h := [es[0].length] + es[0].columns;
      var rest := Table(es[1..]);
      assert Table(es) == h + rest;
      TableDrop(es[1..], k - 1);
      assert es[1..][k - 1..] == es[k..];
      DropAppend(h, rest, Offset(es[1..], k - 1));
    }
  }

  /** The encoder stores entry `k` at `Offset(es, k)`: its length byte,
      then its columns. */
  lemma EntryStored(es: seq<Entry>, k: nat)
    requires k < |es|
    ensures Offset(es, k) + |es[k].columns| < |Table(es)|
    ensures Table(es)[Offset(es, k)] == es[k].length
    ensures forall i | 0 <= i < |es[k].columns| :: Table(es)[Offset(es, k) + 1 + i] == es[k].columns[i]
  {
    TableDrop(es, k);
    var o := Offset(es, k);
    var d := Table(es[k..]);
    var e := es[k..][0];
    assert e == es[k];
    assert d == [e.length] + e.columns + Table(es[k..][1..]);
    forall i | 0 <= i < |e.columns| ensures Table(es)[o + 1 + i] == e.columns[i] {
      assert Table(es)[o + 1 + i] == d[1 + i];
    }
    assert Table(es)[o] == d[0];
  }

  lemma {:induction false} OffsetStep(es: seq<Entry>, k: nat)
    requires k < |es|
    ensures Offset(es, k + 1) == Offset(es, k) + |es[k].columns| + 1
  {
    if k > 0 {
      assert es[1..][k - 1] == es[k];
      OffsetStep(es[1..], k - 1);
    }
  }

  /** The scan finds entry `k` of an encoded table where the encoder put it:
      at the sum of `length + 1` over the entries before it. */
  lemma {:induction false} ScanFindsEntry(es: seq<Entry>, k: nat)
    requires WellFormed(es) && k <= |es|
    ensures Start(Table(es), k) == Offset(es, k)
  {
    if k > 0 {
      ScanFindsEntry(es, k - 1);
      EntryStored(es, k - 1);
      OffsetStep(es, k - 1);
    }
  }

  /** Every entry of a well-formed encoded table that fits 16-bit offsets
      can be located, at the offset where the encoder put it. */
  lemma EncodedLocatable(es: seq<Entry>, k: nat)
    requires WellFormed(es) && k < |es| && |Table(es)| <= 0x1_0000
    ensures Locatable(Table(es), k) && Start(Table(es), k) == Offset(es, k)
  {
    var t := Table(es);
    TableLength(es);
    forall m | 0 <= m <= k ensures Start(t, m) == Offset(es, m) < |t| {
      ScanFindsEntry(es, m);
      EntryStored(es, m);
    }
    EntryStored(es, k);
  }

  /** ... and the glyph found there is the one that was encoded. */
  lemma EncodedGlyph(es: seq<Entry>, k: nat)
    requires WellFormed(es) && k < |es| && |Table(es)| <= 0x1_0000
    ensures Locatable(Table(es), k)
    ensures Glyph(Table(es), k) == es[k].columns
  {
    EncodedLocatable(es, k);
    EntryStored(es, k);
    ColumnsAt(Table(es), k, es[k].columns);
  }

  /** A glyph is determined by the bytes after its length byte. */
  lemma ColumnsAt(t: seq<bv8>, k: nat, cols: seq<bv8>)
    requires Locatable(t, k) && t[Start(t, k)] as nat == |cols|
    requires forall i | 0 <= i < |cols| :: t[Start(t, k) + 1 + i] == cols[i]
    ensures Glyph(t, k) == cols
  {
    GlyphColumns(t, k);
  }

  /** Column `i` of entry `k` is the byte `i + 1` places after its length byte. */
  lemma GlyphColumns(t: seq<bv8>, k: nat)
    requires Locatable(t, k)
    ensures forall i | 0 <= i < |Glyph(t, k)| :: Glyph(t, k)[i] == t[Start(t, k) + 1 + i]
  {
  }
}

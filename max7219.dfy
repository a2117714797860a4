/** The driver object of docs/MAX7219.cpp: the framebuffer `_bitmap`, the
    chain length `_devicesNum`, the font selector `font`, and a ghost log of
    every event the driver puts on the bus and the chip-select pin. */
module Max7219 {
  import opened Bus
  import opened Protocol
  import opened Framebuffer
  import opened Glyphs
  import opened Text

  lemma PairStep(framed: seq<Event>, addr: bv8, data: bv8, i: nat)
    ensures framed + Pairs(addr, data, i) + [Xfer(addr)] + [Xfer(data)] == framed + Pairs(addr, data, i + 1)
  {
  }

  lemma SendStep(t0: seq<Event>, addr: bv8, data: bv8, n: nat)
    ensures t0 + [SetOrder(Msb)] + [CsLow] + Pairs(addr, data, n) + [CsHigh] + [EndTx]
            == t0 + RegisterWrite(addr, data, n)
  {
  }

  lemma SliceStep(framed: seq<Event>, row: bv8, w: bv32, j: nat)
    requires j < 4
    ensures framed + Slices(row, w, j) + [Xfer(row)] + [SetOrder(Lsb)] + [Xfer(ByteOf(w, j))] + [SetOrder(Msb)]
            == framed + Slices(row, w, j + 1)
  {
  }

  lemma FrameStep(t0: seq<Event>, row: bv8, w: bv32)
    ensures t0 + [CsLow] + Slices(row, w, 4) + [CsHigh] == t0 + Window(row, w)
  {
  }

  lemma WindowStep(t0: seq<Event>, rows: seq<bv32>, i: nat)
    requires 1 <= i <= |rows| == 8
    ensures t0 + Windows(rows, i - 1) + Window(i as bv8, rows[i - 1]) == t0 + Windows(rows, i)
  {
  }

  class Driver {
    /** `_bitmap`: one 32-bit word per row. */
    const bitmap: array<bv32>
    /** `_devicesNum`: how many modules the chain has. */
    const devicesNum: bv8
    /** `MAX7219_FONT`, injected. */
    const glyphTable: seq<bv8>
    /** Selects the second font (entries shifted by 100). */
    var font: bool
    /** Everything the driver has done on the bus so far. */
    ghost var trace: seq<Event>

    /** The framebuffer has 8 rows, and the bus is left MSB-first (the SPI
        default) after every operation. */
    ghost predicate Valid()
      reads this
    {
      bitmap.Length == Rows && OrderAfter(Msb, trace) == Msb
    }

    /** The devices' view of everything done so far. */
    ghost function Observed(): seq<Signal>
      reads this
    {
      Wire(Msb, trace)
    }

    constructor (devicesNum: bv8, glyphTable: seq<bv8>)
      ensures Valid() && fresh(bitmap)
      ensures this.devicesNum == devicesNum && this.glyphTable == glyphTable
      ensures bitmap[..] == Blank() && !font && trace == []
    {
      this.devicesNum := devicesNum;
      this.glyphTable := glyphTable;
      bitmap := new bv32[Rows](j => 0);
      font := false;
      trace := [];
    }

    /** `send(addr, data)`: one framing window broadcasting the pair to
        every device, MSB-first. */
    method Send(addr: bv8, data: bv8)
      requires Valid()
      modifies this`trace
      ensures Valid()
      ensures trace == old(trace) + RegisterWrite(addr, data, devicesNum as nat)
      ensures Observed() == old(Observed()) + Wire(Msb, RegisterWrite(addr, data, devicesNum as nat))
    {
      ghost var t0 := trace;
      trace := trace + [SetOrder(Msb)];
      trace := trace + [CsLow];
      ghost var framed := trace;
      assert trace == framed + Pairs(addr, data, 0);
      var i := 0;
      while i < devicesNum as int
        invariant 0 <= i <= devicesNum as int
        invariant trace == framed + Pairs(addr, data, i)
      {
        trace := trace + [Xfer(addr)];
        trace := trace + [Xfer(data)];
        PairStep(framed, addr, data, i);
        i := i + 1;
      }
      trace := trace + [CsHigh];
      trace := trace + [EndTx];
      SendStep(t0, addr, data, i);
      assert OrderAfter(Msb, trace) == Msb &&
             Wire(Msb, trace) == Wire(Msb, t0) + Wire(Msb, RegisterWrite(addr, data, i)) by {
        RegisterWriteWire(Msb, addr, data, i);
        WireAppend(Msb, t0, RegisterWrite(addr, data, i));
      }
    }

    /** The byte loop of `displayBitmap`: row `i` in one framing window, its
        address before each of its 4 bytes, each byte sent LSB-first. */
    method SendRow(i: nat)
      requires bitmap.Length == Rows && 1 <= i <= Rows
      modifies this`trace
      ensures trace == old(trace) + Window(i as bv8, bitmap[i - 1])
    {
      trace := trace + [CsLow];
      ghost var framed := trace;
      var j := 0;
      while j <= 3
        invariant 0 <= j <= 4
        invariant trace == framed + Slices(i as bv8, bitmap[i - 1], j)
      {
        trace := trace + [Xfer(i as bv8)];
        trace := trace + [SetOrder(Lsb)];
        trace := trace + [Xfer(ByteOf(bitmap[i - 1], j))];
        trace := trace + [SetOrder(Msb)];
        SliceStep(framed, i as bv8, bitmap[i - 1], j);
        j := j + 1;
      }
      trace := trace + [CsHigh];
      FrameStep(old(trace), i as bv8, bitmap[i - 1]);
    }

    /** `displayBitmap(_bitmap)`: 8 framing windows, row `i` addressed as `i`
        and split into its 4 bytes. */
    method DisplayBitmap()
      requires Valid()
      modifies this`trace
      ensures Valid()
      ensures trace == old(trace) + Transfer(bitmap[..])
      ensures Observed() == old(Observed()) + Wire(Msb, Transfer(bitmap[..]))
    {
      ghost var t0 := trace;
      ghost var rows := bitmap[..];
      var i := 1;
      while i < 9
        invariant 1 <= i <= 9
        invariant trace == t0 + Windows(rows, i - 1)
      {
        SendRow(i);
        WindowStep(t0, rows, i);
        i := i + 1;
      }
      trace := trace + [EndTx];
      assert trace == t0 + Transfer(rows);
      assert OrderAfter(Msb, trace) == Msb && Wire(Msb, trace) == Wire(Msb, t0) + Wire(Msb, Transfer(rows)) by {
        TransferWire(Msb, rows);
        WireAppend(Msb, t0, Transfer(rows));
      }
    }

    /** `clear(_bitmap)`: all 8 rows become 0. */
    method Clear()
      requires bitmap.Length == Rows
      modifies bitmap
      ensures bitmap[..] == Blank()
    {
      var i := 0;
      while i < 8
        invariant 0 <= i <= 8
        invariant forall k | 0 <= k < i :: bitmap[k] == 0
      {
        bitmap[i] := 0;
        i := i + 1;
      }
    }

    /** `begin()`: test mode off, scan all 8 digits, no decoding, intensity
        1, the current framebuffer, then normal operation. */
    method Begin()
      requires Valid()
      modifies this`trace
      ensures Valid()
      ensures trace == old(trace) +
        RegisterWrite(DisplayTest, 0, devicesNum as nat) +
        RegisterWrite(ScanLimit, 7, devicesNum as nat) +
        RegisterWrite(DecodeMode, 0, devicesNum as nat) +
        RegisterWrite(Intensity, 1, devicesNum as nat) +
        Transfer(bitmap[..]) +
        RegisterWrite(Shutdown, 1, devicesNum as nat)
    {
      Send(DisplayTest, 0);
      Send(ScanLimit, 7);
      Send(DecodeMode, 0);
      Send(Intensity, 1);
      DisplayBitmap();
      Send(Shutdown, 1);
    }

    /** `allOn()`: clear and transfer the framebuffer, then turn test mode on. */
    method AllOn()
      requires Valid()
      modifies bitmap, this`trace
      ensures Valid()
      ensures bitmap[..] == Blank()
      ensures trace == old(trace) + Transfer(Blank()) + RegisterWrite(DisplayTest, 1, devicesNum as nat)
    {
      Clear();
      DisplayBitmap();
      Send(DisplayTest, 1);
    }

    /** `allOff()`: turn test mode off; the framebuffer is untouched. */
    method AllOff()
      requires Valid()
      modifies this`trace
      ensures Valid()
      ensures bitmap[..] == old(bitmap[..])
      ensures trace == old(trace) + RegisterWrite(DisplayTest, 0, devicesNum as nat)
    {
      Send(DisplayTest, 0);
    }

    /** `setBrightness(brightness)`: the intensity register, value passed through. */
    method SetBrightness(brightness: bv8)
      requires Valid()
      modifies this`trace
      ensures Valid()
      ensures trace == old(trace) + RegisterWrite(Intensity, brightness, devicesNum as nat)
    {
      Send(Intensity, brightness);
    }

    /** The scan loop of `display`: skip `code` entries of the font table
        (none when `code` is not positive), each `length + 1` bytes long,
        in the driver's 16-bit `startIndex`. */
    method GlyphStart(code: int) returns (startIndex: nat)
      requires Scannable(glyphTable, if code > 0 then code else 0)
      ensures startIndex == Start(glyphTable, if code > 0 then code else 0)
    {
      startIndex := 0;
      var j := 0;
      while j < code
        invariant 0 <= j <= if code > 0 then code else 0
        invariant startIndex == Start(glyphTable, j)
      {
        startIndex := (startIndex + glyphTable[startIndex] as nat + 1) % 0x1_0000;
        j := j + 1;
      }
    }

    /** The row loop of `display`: draw glyph column `data` at column `pos`. */
    method WriteColumn(pos: nat, data: bv8)
      requires bitmap.Length == Rows && pos < Columns
      modifies bitmap
      ensures bitmap[..] == PutColumn(old(bitmap[..]), pos, data)
    {
      var j := 0;
      while j < 8
        invariant 0 <= j <= 8
        invariant forall k | 0 <= k < j ::
          bitmap[k] == BitWrite(old(bitmap[k]), 31 - pos, Bit8(data, 7 - k))
        invariant forall k | j <= k < 8 :: bitmap[k] == old(bitmap[k])
      {
        bitmap[j] := BitWrite(bitmap[j], 31 - pos, Bit8(data, 7 - j));
        j := j + 1;
      }
      PutColumnRows(old(bitmap[..]), pos, data);
    }

    /** The column loop of `display`: the `length` glyph columns stored
        after the length byte at `startIndex` are drawn from column `pos` on. */
    method DrawGlyph(pos: nat, startIndex: nat) returns (next: nat)
      requires bitmap.Length == Rows && startIndex < |glyphTable|
      requires startIndex + glyphTable[startIndex] as nat < |glyphTable|
      requires glyphTable[startIndex] as nat == 0 || pos + glyphTable[startIndex] as nat <= Columns
      modifies bitmap
      ensures next == pos + glyphTable[startIndex] as nat
      ensures bitmap[..] == Paint(old(bitmap[..]), pos,
        glyphTable[startIndex + 1 .. startIndex + 1 + glyphTable[startIndex] as nat],
        glyphTable[startIndex] as nat)
    {
      ghost var rows := bitmap[..];
      var charLength := glyphTable[startIndex];
      ghost var g := glyphTable[startIndex + 1 .. startIndex + 1 + charLength as nat];
      assert |g| == charLength as nat && (g == [] || pos + |g| <= Columns);
      next := pos;
      var k := 0;
      while k < charLength as int
        invariant 0 <= k <= |g|
        invariant next == pos + k
        invariant bitmap[..] == Paint(rows, pos, g, k)
      {
        var data := glyphTable[startIndex + 1 + k];
        assert data == g[k];
        ghost var target := Paint(rows, pos, g, k + 1);
        assert target == PutColumn(bitmap[..], next, data);
        WriteColumn(next, data);
        assert bitmap[..] == target;
        next := next + 1;
        k := k + 1;
      }
    }

    /** One pass of the character loop of `display`: locate the glyph of
        `c`, draw it from column `pos` on, and leave the cursor one spacer
        column past it. */
    method DrawCharacter(c: bv8, fontOffset: nat, pos: nat) returns (next: nat)
      requires bitmap.Length == Rows && Locatable(glyphTable, EntryIndex(c, fontOffset))
      requires GlyphOf(glyphTable, fontOffset, c) == [] ||
               pos + |GlyphOf(glyphTable, fontOffset, c)| <= Columns
      modifies bitmap
      ensures next == pos + |GlyphOf(glyphTable, fontOffset, c)| + 1
      ensures bitmap[..] == Paint(old(bitmap[..]), pos, GlyphOf(glyphTable, fontOffset, c),
                                  |GlyphOf(glyphTable, fontOffset, c)|)
    {
      var startIndex := GlyphStart(SignedChar(c) + fontOffset);
      assert startIndex == Start(glyphTable, EntryIndex(c, fontOffset));
      ghost var g := glyphTable[startIndex + 1 .. startIndex + 1 + glyphTable[startIndex] as nat];
      assert g == GlyphOf(glyphTable, fontOffset, c);
      next := DrawGlyph(pos, startIndex);
      next := next + 1;
    }

    /** The character loop of `display`: starting from the cleared
        framebuffer, draw every glyph of `str` at the cursor, each followed
        by one spacer column. */
    method DrawText(str: seq<bv8>, fontOffset: nat)
      requires bitmap.Length == Rows && bitmap[..] == Blank()
      requires Lookable(glyphTable, fontOffset, str) && Fits(glyphTable, fontOffset, str)
      modifies bitmap
      ensures bitmap[..] == Frame(glyphTable, fontOffset, str)
    {
      var length := |str|;
      var pos := 0;
      var i := 0;
      while i < length
        invariant 0 <= i <= length
        invariant Lookable(glyphTable, fontOffset, str[..i]) && Fits(glyphTable, fontOffset, str[..i])
        invariant pos == |Strip(glyphTable, fontOffset, str[..i])|
        invariant bitmap[..] == Frame(glyphTable, fontOffset, str[..i])
      {
        RenderStep(glyphTable, fontOffset, str, i);
        pos := DrawCharacter(str[i], fontOffset, pos);
        i := i + 1;
      }
      assert str[..i] == str;
    }

    /** `display(str)`: clear the framebuffer, draw each character's glyph at
        the cursor followed by one blank column, then transfer it. */
    method Display(str: seq<bv8>)
      requires Valid()
      requires Lookable(glyphTable, FontOffset(font), str)
      requires Fits(glyphTable, FontOffset(font), str)
      modifies bitmap, this`trace
      ensures Valid()
      ensures bitmap[..] == Frame(glyphTable, FontOffset(font), str)
      ensures forall j, p | 0 <= j < Rows && 0 <= p < Columns ::
        Pixel(bitmap[..], j, p) ==
          (p < |Strip(glyphTable, FontOffset(font), str)| &&
           Dot(Strip(glyphTable, FontOffset(font), str)[p], j))
      ensures trace == old(trace) + Transfer(bitmap[..])
      ensures str == [] ==> bitmap[..] == Blank()
    {
      var fontOffset := if font then 100 else 0;
      Clear();
      DrawText(str, fontOffset);
      FrameShowsStrip(glyphTable, fontOffset, str);
      DisplayBitmap();
    }
  }
}

# MAX7219 LED-matrix driver: a verified model

This project models the driver in `docs/MAX7219.cpp` for a chain of
MAX7219 8x8 LED modules. The driver keeps a framebuffer `_bitmap` of 8
rows, one 32-bit word per row, and does two things with it:

- **Transfer protocol.** `send(addr, data)` broadcasts one register write
  to every device of the chain inside one chip-select window.
  `displayBitmap` sends the framebuffer as 8 windows. Window `i` repeats
  row address `i` before each of the 4 bytes of row `i - 1`. Each address
  byte goes most-significant-bit first, each data byte least-significant
  bit first. `begin`, `allOff` and `setBrightness` are fixed sequences
  of these two; `allOn` also clears the framebuffer before it transfers
  it.
- **Text rasteriser.** `display(str)` clears the framebuffer. For each
  character it finds the glyph with a linear scan of the length-prefixed
  font table, writes the glyph's columns left to right from the cursor
  (bit `31 - pos` of every row), and leaves one blank spacer column after
  it. Finally it transfers the framebuffer.

The model has six modules:

- `Bus` (`bus.dfy`): the bus side effects as a log of events
  (`CsLow`, `CsHigh`, `SetOrder`, `Xfer`, `EndTx`). `Wire` reads a log the
  way the devices see it: every byte carries the bit order in force when
  it is shifted out.
- `Protocol` (`protocol.dfy`): the exact event logs of `send` and
  `displayBitmap`, with lemmas saying what the devices observe.
- `Framebuffer` (`framebuffer.dfy`): Arduino's `bitRead`/`bitWrite` on
  32-bit rows and the drawing of one glyph column.
- `Glyphs` (`glyphs.dfy`): the font-table scan. It also gives an
  independent encoder of a list of font entries, and proves that the scan
  finds every encoded glyph.
- `Text` (`text.dfy`): the rendered strip of columns, the framebuffer
  `display` builds, and their pixel-by-pixel agreement.
- `Max7219` (`max7219.dfy`): the class `Driver`. It holds `bitmap`
  (an `array<bv32>` of length 8), `devicesNum`, the injected font table,
  `font`, and a ghost `trace` of bus events. Each routine of the source is
  a method whose loops carry invariants.

Every method is proved against a specification function: `trace` grows by
exactly `RegisterWrite`/`Transfer`, and `bitmap` becomes exactly
`PutColumn`/`Paint`/`Frame`. The properties the source promises are proved
about those functions.

Three points where the code behaves differently from what one might
expect; the model follows the code:

- **Column numbering.** One might expect column 0 at the least
  significant bit. The code writes column `pos` at bit `31 - pos`, so the
  leftmost column is bit 31 (`Framebuffer.Pixel`).
- **Text wider than 32 columns.** One might expect the columns to wrap
  into the lower bits. In the code `31 - pos` becomes negative, and
  shifting by a negative amount is undefined in C. The model requires the
  text to fit (`Text.Fits`).
- **First address byte of `displayBitmap`.** One might expect every
  address byte to go MSB-first. The code sets no order before the first
  one, so it carries the order left by the previous operation.
  `Protocol.TransferWire` states this as written. `Driver.Valid` keeps
  MSB-first in force between operations, so from a valid state every
  address byte is MSB-first.

## Model

| member | source | states |
|---|---|---|
| Max7219.Driver.constructor | docs/MAX7219.cpp:3-13 | stores the chain length and the font table; nothing is on the bus yet (the starting framebuffer and font are assumed, see Left out) |
| Protocol.Pairs | docs/MAX7219.cpp:48-51 | defines the loop of `send`: `n` transfers of the pair `addr`, `data`, one per device of the chain |
| Protocol.RegisterWrite | docs/MAX7219.cpp:44-54 | defines the event log of `send(addr, data)`: select MSB-first, chip select low, the `n` pairs, chip select high, end of the transaction |
| Max7219.Driver.Send | docs/MAX7219.cpp:42-55 | the trace grows by exactly `RegisterWrite(addr, data, devicesNum)`; the devices observe that log appended to what they saw before, and MSB-first stays in force |
| Protocol.RegisterWriteWire | docs/MAX7219.cpp:44-54 | `send` as observed: `Select`, then exactly `n` pairs `addr`, `data`, both MSB-first whatever order was in force before, then `Deselect` and `Release`; `2n + 3` signals in all; MSB-first in force afterwards |
| Protocol.PairsWire | docs/MAX7219.cpp:48-51 | the `n` loop iterations yield `2n` bytes alternating `addr`, `data` under the current order, and leave the order unchanged |
| Protocol.ByteOf | docs/MAX7219.cpp:66 | defines byte `j` of a row word, `(w >> 8j) & 0xFF` truncated to 8 bits |
| Protocol.Slices | docs/MAX7219.cpp:63-68 | defines the first `m` inner iterations of `displayBitmap`: row address, switch to LSB-first, byte `j` of the row, switch back to MSB-first |
| Protocol.Window | docs/MAX7219.cpp:61-69 | defines one outer iteration: chip select low, the 4 slices of row address `i`, chip select high |
| Protocol.Windows | docs/MAX7219.cpp:60-70 | defines the first `n` outer iterations: the windows of rows `1 .. n`, row `i` carrying `rows[i - 1]` |
| Protocol.Transfer | docs/MAX7219.cpp:58-72 | defines the event log of `displayBitmap(rows)`: the 8 windows, then the end of the transaction |
| Max7219.Driver.SendRow | docs/MAX7219.cpp:61-69 | one pass of the outer loop appends exactly one framing window of row address `i` carrying `bitmap[i - 1]` |
| Max7219.Driver.DisplayBitmap | docs/MAX7219.cpp:58-72 | the trace grows by exactly `Transfer(bitmap[..])`: the 8 windows, then the end of the transaction; MSB-first stays in force |
| Protocol.TransferWire | docs/MAX7219.cpp:58-72 | `displayBitmap` as observed: 81 signals, 8 windows of 10; window `i` opens, holds 4 pairs of row address `i + 1` and byte `j` of `rows[i]` LSB-first, and closes; every address byte except the very first is MSB-first; then `Release`; MSB-first afterwards |
| Protocol.WindowsWire | docs/MAX7219.cpp:60-70 | the first `n` windows occupy `10n` signals, window `i` at offset `10i` showing row `i + 1` |
| Protocol.WindowWire | docs/MAX7219.cpp:61-69 | one window is 10 signals: select, 4 address/data pairs, deselect; MSB-first afterwards |
| Protocol.SlicesWire | docs/MAX7219.cpp:63-68 | the 4 inner iterations yield address, byte `j` LSB-first, for `j = 0..3`, with MSB-first restored after each data byte |
| Protocol.SliceWire | docs/MAX7219.cpp:64-67 | one inner iteration: the address under the order in force, the data byte LSB-first, MSB-first afterwards |
| Protocol.BytesReassemble | docs/MAX7219.cpp:66 | the 4 data bytes `(w >> 8j) & 0xFF` recombine to the row word, so the transfer loses no bit |
| Bus.WireAppend | docs/MAX7219.cpp:65-67 | a log read in two pieces: the second piece is read under the order the first leaves behind, since a selected bit order persists until changed |
| Max7219.Driver.Clear | docs/MAX7219.cpp:75-80 | all 8 rows become 0; only `bitmap` is modified |
| Framebuffer.Blank | docs/MAX7219.cpp:75-80 | defines the cleared framebuffer: 8 rows, every one 0 |
| Max7219.Driver.Begin | docs/MAX7219.cpp:15-25 | the trace grows by the register writes test-off, scan-limit 7, no decode, intensity 1, then the framebuffer transfer, then shutdown 1, in this order |
| Max7219.Driver.AllOn | docs/MAX7219.cpp:28-33 | the framebuffer is cleared and transferred, then test mode is turned on |
| Max7219.Driver.AllOff | docs/MAX7219.cpp:36-39 | only the test-mode-off write is sent; the framebuffer is unchanged |
| Max7219.Driver.SetBrightness | docs/MAX7219.cpp:83-86 | one intensity register write, the value passed through |
| Glyphs.FontOffset | docs/MAX7219.cpp:93 | defines `fontOffset`: 100 for the second font, 0 for the first |
| Glyphs.SignedChar | docs/MAX7219.cpp:103 | defines the value of `str[i]` as a signed 8-bit `char`: codes 128 .. 255 are -128 .. -1 |
| Glyphs.EntryIndex | docs/MAX7219.cpp:103 | defines how many iterations the scan loop makes: `str[i] + fontOffset` when that is positive, none otherwise |
| Glyphs.Start | docs/MAX7219.cpp:101-105 | defines `startIndex` after `k` scan iterations: each adds the length byte at the current start plus one |
| Max7219.Driver.GlyphStart | docs/MAX7219.cpp:101-105 | the 16-bit `startIndex` after `str[i] + fontOffset` scan steps (none when that is not positive) is `Start` of that entry |
| Glyphs.ScanFindsEntry | docs/MAX7219.cpp:101-105 | in a table encoding well-formed entries, the scan reaches entry `k` exactly where the encoder stored it, at the sum of `length + 1` over the entries before it |
| Glyphs.EncodedLocatable | docs/MAX7219.cpp:101-107 | every entry of an encoded table of at most 65536 bytes can be scanned to, in bounds and without 16-bit overflow |
| Glyphs.EncodedGlyph | docs/MAX7219.cpp:107-110 | the glyph read at the scanned position, length byte then columns, is exactly the encoded entry's columns |
| Glyphs.EntryStored | docs/MAX7219.cpp:107-110 | the encoder stores entry `k` as its length byte followed by its columns, at `Offset(es, k)` |
| Glyphs.TableDrop | docs/MAX7219.cpp:104 | the table from entry `k`'s offset on is the table of the entries from `k` on |
| Glyphs.TableLength | docs/MAX7219.cpp:104 | an encoded table is exactly the sum of `length + 1` over its entries long |
| Glyphs.FontPartition | docs/MAX7219.cpp:93-103 | for a 7-bit character the second font's entry lies exactly 100 entries after the first font's |
| Glyphs.FirstFontHighCodes | docs/MAX7219.cpp:103 | with the first font, a code of 128 or more is a negative `char` and scans no entries |
| Glyphs.SecondFontHighCodes | docs/MAX7219.cpp:93-103 | with the second font, codes 157 .. 255 scan `c - 156` entries and codes 128 .. 156 scan none |
| Framebuffer.Bit8 | docs/MAX7219.cpp:113 | defines `bitRead(data, b)` on a glyph byte: bit `b` is set |
| Framebuffer.BitWrite | docs/MAX7219.cpp:113 | defines `bitWrite(w, b, v)`: OR with `1 << b` when `v`, AND with its complement otherwise |
| Framebuffer.SetBit | docs/MAX7219.cpp:113 | `bitSet` sets bit `b` and keeps every other bit |
| Framebuffer.ClearBit | docs/MAX7219.cpp:113 | `bitClear` clears bit `b` and keeps every other bit |
| Framebuffer.BitWriteBits | docs/MAX7219.cpp:113 | `bitWrite(w, b, v)` makes bit `b` equal to `v` and leaves the other 31 bits unchanged |
| Framebuffer.PutRows | docs/MAX7219.cpp:112-114 | defines the first `n` iterations of the row loop: row `j` written with bit `31 - pos` from bit `7 - j` of the byte; the result has `n` rows |
| Framebuffer.PutColumn | docs/MAX7219.cpp:112-114 | defines the whole row loop for one glyph column at `pos`; the result has 8 rows |
| Max7219.Driver.WriteColumn | docs/MAX7219.cpp:112-114 | the row loop turns the framebuffer into `PutColumn(old, pos, data)` |
| Framebuffer.PutColumnRows | docs/MAX7219.cpp:112-114 | row `j` is the old row with bit `31 - pos` written to bit `7 - j` of the column byte |
| Framebuffer.PutColumnBits | docs/MAX7219.cpp:112-114 | drawing a column sets bit `31 - pos` of each row `j` to bit `7 - j` of the byte and leaves every other bit of every row unchanged |
| Framebuffer.PutColumnPixel | docs/MAX7219.cpp:112-114 | pixel form: column `pos` shows the byte, every other pixel is kept |
| Text.Paint | docs/MAX7219.cpp:109-116 | defines the first `k` iterations of the column loop: glyph column `c` drawn at `pos + c`; the result has 8 rows |
| Max7219.Driver.DrawGlyph | docs/MAX7219.cpp:107-116 | the column loop draws the `length` columns after the length byte from `pos` on, and the cursor ends `length` further |
| Max7219.Driver.DrawCharacter | docs/MAX7219.cpp:100-118 | one character: its glyph is drawn at the cursor, and the cursor grows by exactly the glyph length plus one spacer |
| Text.Strip | docs/MAX7219.cpp:100-118 | defines the line of columns the text occupies: each glyph's columns followed by one 0 spacer; its length is the final cursor |
| Text.Frame | docs/MAX7219.cpp:95-118 | defines the framebuffer `display` builds: cleared, then each glyph painted at the cursor reached after the characters before it; the result has 8 rows |
| Max7219.Driver.DrawText | docs/MAX7219.cpp:97-118 | from the cleared framebuffer, the character loop builds exactly `Frame(str)` |
| Max7219.Driver.Display | docs/MAX7219.cpp:89-120 | the framebuffer is `Frame(str)`; pixel `(j, p)` is lit exactly when the strip has a column `p` with bit `7 - j` set; exactly one transfer of it is appended to the trace; an empty string leaves all rows zero |
| Text.RenderStep | docs/MAX7219.cpp:100-118 | one character step: the glyph fits, the cursor moves by length plus one, and the frame gains that glyph painted at the old cursor |
| Text.PaintBits | docs/MAX7219.cpp:109-116 | painting `k` glyph columns at `pos` sets exactly columns `pos .. pos + k - 1` to the glyph and leaves every other pixel unchanged, the spacer column included (proved pixel by pixel by the helper `PaintPixel`) |
| Text.FrameShowsStrip | docs/MAX7219.cpp:95-118 | the rendered framebuffer shows the strip: pixel `(j, p)` is lit exactly when the strip has a column `p` with bit `7 - j` set, so spacer columns and columns past the text stay dark (proved pixel by pixel by the helper `FramePixel`) |
| Text.StripLayout | docs/MAX7219.cpp:109-117 | the glyph of `str[k]` starts at the cursor reached after `str[..k]`, occupies its length, and is followed by a 0 spacer; the cursor grows by length plus one |
| Text.StripPrefix | docs/MAX7219.cpp:100-118 | the strip of a prefix of the text is a prefix of the strip |
| Text.TwoCharacters | docs/MAX7219.cpp:109-117 | two characters render as the first glyph, one spacer, the second glyph, one spacer: the second glyph starts one spacer column after the first one ends |

## Left out

- Pin set-up in the constructor and `SPI.begin()` are hardware I/O. The
  model records only the bus events.
- The SPI clock rate and `SPI_MODE0` are left out; only the bit order of
  `SPISettings` matters to the devices. `SPI.beginTransaction` is modelled
  as `SetOrder` and `SPI.endTransaction` as `EndTx`. The repeated
  `beginTransaction` calls without a matching `endTransaction` in
  `displayBitmap` (lines 65-67) are not modelled as nested transactions.
- `pgm_read_byte` and PROGMEM are modelled as plain indexing into the font
  table. `MAX7219_FONT` and the register-address values live in
  `MAX7219.h`, which is not part of this model. The table is a parameter
  of the driver object, and the five register addresses are constants of
  unknown value.
- Arduino `String` is a sequence of character codes (`seq<bv8>`). Those
  codes are signed `char` on the AVR targets, so a code of 128 or more
  scans no entries with the first font (`Glyphs.FirstFontHighCodes`);
  with the second font, codes 157 and up scan `c - 156` entries and
  codes 128 to 156 scan none (`Glyphs.SecondFontHighCodes`).
- Max7219.Driver.Display: requires every glyph to be in the table and the
  text to fit in 32 columns. Outside that, the source reads past the table
  or shifts by a negative amount, and C leaves both undefined.
- Max7219.Driver.GlyphStart: requires every start the scan computes to
  stay below 65536, so the 16-bit wrap of `startIndex` never happens. The
  wrap is still written out in the loop body.
- The initial contents of `_bitmap` and the initial value of `font` are
  not set anywhere in the source file. The constructor zero-fills
  `_bitmap` and selects the first font (`font` false); both are assumed
  starting values, as for a zero-initialised, statically allocated driver
  object. Nothing in the source ever changes `font`, so the model has no
  operation that sets it.
- `displayBitmap` and `clear` take the framebuffer as an array parameter,
  but every call in the source passes the driver's own `_bitmap`. The
  methods `DisplayBitmap` and `Clear` therefore work on the `bitmap`
  field, and the encoding of an arbitrary framebuffer is stated on values
  by `Protocol.Transfer` and `Protocol.TransferWire`. Passing some other
  array, and any aliasing that could bring, is not modelled.
- The nested loops of `displayBitmap` and `display` are split into one
  method per loop level (`SendRow`, `WriteColumn`, `DrawGlyph`,
  `DrawCharacter`, `DrawText`). The statements and their order are
  unchanged.
- Max7219.Driver.WriteColumn: states its effect as
  `PutColumn(old(bitmap[..]), pos, data)`; the bit-level meaning is the
  separate lemma `Framebuffer.PutColumnBits`.

/** The two register-level encodings of the driver (docs/MAX7219.cpp):
    a register write broadcast to every device of the chain (`send`), and
    the transfer of the 8-row framebuffer (`displayBitmap`).  Each is given
    as the exact event log it produces; the lemmas say what the devices
    observe on the wire. */
module Protocol {
  import opened Bus

  /** Control-register addresses of the MAX7219.  Their values live in the
      driver's header, which is not part of this model; nothing below
      depends on them. */
  const DisplayTest: bv8
  const ScanLimit: bv8
  const DecodeMode: bv8
  const Intensity: bv8
  const Shutdown: bv8

  // ---------------------------------------------------------------------
  // send(addr, data)

  /** `n` copies of the pair `addr`, `data`, one for each device of the chain. */
  function Pairs(addr: bv8, data: bv8, n: nat): (t: seq<Event>)
  {
    if n == 0 then [] else Pairs(addr, data, n - 1) + [Xfer(addr), Xfer(data)]
  }

  /** The events of `send(addr, data)` on a chain of `n` devices. */
  function RegisterWrite(addr: bv8, data: bv8, n: nat): (t: seq<Event>)
  {
    [SetOrder(Msb), CsLow] + Pairs(addr, data, n) + [CsHigh, EndTx]
  }

  lemma {:induction false} PairsWire(o: Order, addr: bv8, data: bv8, n: nat)
    ensures |Wire(o, Pairs(addr, data, n))| == 2 * n
    ensures forall k | 0 <= k < n ::
      Wire(o, Pairs(addr, data, n))[2 * k] == Byte(o, addr) &&
      Wire(o, Pairs(addr, data, n))[2 * k + 1] == Byte(o, data)
    ensures OrderAfter(o, Pairs(addr, data, n)) == o
  {
    if n > 0 {
      var p := Pairs(addr, data, n - 1);
      var last: seq<Event> := [Xfer(addr), Xfer(data)];
      PairsWire(o, addr, data, n - 1);
      WireAppend(o, p, last);
      var one: seq<Event> := [Xfer(data)];
      assert last[1..] == one && one[1..] == [];
      assert Wire(o, one) == [Byte(o, data)] && OrderAfter(o, one) == o;
      assert Wire(o, last) == [Byte(o, addr)] + Wire(o, one);
      assert OrderAfter(o, last) == OrderAfter(o, one);
    }
  }

  /** Broadcast: one framing window holding exactly `n` copies of the pair,
      every byte most-significant-bit first whatever order was in force
      before, and MSB-first left in force afterwards. */
  lemma RegisterWriteWire(o: Order, addr: bv8, data: bv8, n: nat)
    ensures |Wire(o, RegisterWrite(addr, data, n))| == 2 * n + 3
    ensures Wire(o, RegisterWrite(addr, data, n))[0] == Select
    ensures forall k | 0 <= k < n ::
      Wire(o, RegisterWrite(addr, data, n))[2 * k + 1] == Byte(Msb, addr) &&
      Wire(o, RegisterWrite(addr, data, n))[2 * k + 2] == Byte(Msb, data)
    ensures Wire(o, RegisterWrite(addr, data, n))[2 * n + 1] == Deselect
    ensures Wire(o, RegisterWrite(addr, data, n))[2 * n + 2] == Release
    ensures OrderAfter(o, RegisterWrite(addr, data, n)) == Msb
  {
    var head: seq<Event> := [SetOrder(Msb), CsLow];
    var p := Pairs(addr, data, n);
    var tail: seq<Event> := [CsHigh, EndTx];
    assert RegisterWrite(addr, data, n) == head + (p + tail);
    WireAppend(o, head, p + tail);
    WireAppend(Msb, p, tail);
    PairsWire(Msb, addr, data, n);
  }

  // ---------------------------------------------------------------------
  // displayBitmap(bitmap)

  /** Byte `j` of a row word: bits 8*j .. 8*j+7. */
  function ByteOf(w: bv32, j: nat): bv8
    requires j < 4
  {
    if j == 0 then (w & 0xFF) as bv8
    else if j == 1 then ((w >> 8) & 0xFF) as bv8
    else if j == 2 then ((w >> 16) & 0xFF) as bv8
    else ((w >> 24) & 0xFF) as bv8
  }

  /** The first `m` (row address, data byte) slices of row `row` with word `w`:
      the address goes out MSB-first, the data byte LSB-first, and MSB-first
      is restored after each data byte. */
  function Slices(row: bv8, w: bv32, m: nat): (t: seq<Event>)
    requires m <= 4
  {
    if m == 0 then []
    else Slices(row, w, m - 1) +
         [Xfer(row), SetOrder(Lsb), Xfer(ByteOf(w, m - 1)), SetOrder(Msb)]
  }

  /** One framing window: the 4 slices of row address `row` (1..8). */
  function Window(row: bv8, w: bv32): (t: seq<Event>)
  {
    [CsLow] + Slices(row, w, 4) + [CsHigh]
  }

  /** The windows of the first `n` rows of `rows`, rows addressed from 1. */
  function Windows(rows: seq<bv32>, n: nat): (t: seq<Event>)
    requires n <= |rows| == 8
  {
    if n == 0 then [] else Windows(rows, n - 1) + Window(n as bv8, rows[n - 1])
  }

  /** The events of `displayBitmap(rows)`. */
  function Transfer(rows: seq<bv32>): (t: seq<Event>)
    requires |rows| == 8
  {
    Windows(rows, 8) + [EndTx]
  }

  /** One slice: the address under the order in force, the data byte LSB-first. */
  lemma SliceWire(o: Order, row: bv8, b: bv8)
    ensures Wire(o, [Xfer(row), SetOrder(Lsb), Xfer(b), SetOrder(Msb)]) ==
            [Byte(o, row), Byte(Lsb, b)]
    ensures OrderAfter(o, [Xfer(row), SetOrder(Lsb), Xfer(b), SetOrder(Msb)]) == Msb
  {
    var l4: seq<Event> := [Xfer(row), SetOrder(Lsb), Xfer(b), SetOrder(Msb)];
    var l3: seq<Event> := [SetOrder(Lsb), Xfer(b), SetOrder(Msb)];
    var l2: seq<Event> := [Xfer(b), SetOrder(Msb)];
    var l1: seq<Event> := [SetOrder(Msb)];
    assert l4[1..] == l3 && l3[1..] == l2 && l2[1..] == l1 && l1[1..] == [];
    assert Wire(Lsb, l1) == [] && OrderAfter(Lsb, l1) == Msb;
    assert Wire(Lsb, l2) == [Byte(Lsb, b)] + Wire(Lsb, l1);
    assert OrderAfter(Lsb, l2) == OrderAfter(Lsb, l1);
    assert Wire(o, l3) == Wire(Lsb, l2) && OrderAfter(o, l3) == OrderAfter(Lsb, l2);
    assert Wire(o, l4) == [Byte(o, row)] + Wire(o, l3);
    assert OrderAfter(o, l4) == OrderAfter(o, l3);
  }

  lemma {:induction false} SlicesWire(o: Order, row: bv8, w: bv32, m: nat)
    requires m <= 4
    ensures |Wire(o, Slices(row, w, m))| == 2 * m
    ensures forall j | 0 <= j < m ::
      Wire(o, Slices(row, w, m))[2 * j] == Byte(if j == 0 then o else Msb, row) &&
      Wire(o, Slices(row, w, m))[2 * j + 1] == Byte(Lsb, ByteOf(w, j))
    ensures OrderAfter(o, Slices(row, w, m)) == if m == 0 then o else Msb
  {
    if m > 0 {
      var s := Slices(row, w, m - 1);
      var last: seq<Event> := [Xfer(row), SetOrder(Lsb), Xfer(ByteOf(w, m - 1)), SetOrder(Msb)];
      SlicesWire(o, row, w, m - 1);
      WireAppend(o, s, last);
      var o' := OrderAfter(o, s);
      SliceWire(o', row, ByteOf(w, m - 1));
    }
  }

  /** `s` holds, from position `at` on, one framing window of row address
      `row` carrying the word `w`: the window opens, then come 4 pairs of
      the address (under `first` for the very first byte, MSB-first for the
      others) and byte `j` of `w` LSB-first, and the window closes. */
  ghost predicate ShowsWindow(s: seq<Signal>, at: nat, first: Order, row: bv8, w: bv32)
  {
    at + 10 <= |s| &&
    s[at] == Select &&
    (forall j | 0 <= j < 4 ::
       s[at + 2 * j + 1] == Byte(if j == 0 then first else Msb, row) &&
       s[at + 2 * j + 2] == Byte(Lsb, ByteOf(w, j))) &&
    s[at + 9] == Deselect
  }

  lemma WindowBefore(a: seq<Signal>, b: seq<Signal>, at: nat, first: Order, row: bv8, w: bv32)
    requires ShowsWindow(a, at, first, row, w)
    ensures ShowsWindow(a + b, at, first, row, w)
  {
    forall j | 0 <= j < 4
      ensures (a + b)[at + 2 * j + 1] == a[at + 2 * j + 1]
      ensures (a + b)[at + 2 * j + 2] == a[at + 2 * j + 2]
    {
    }
  }

  lemma WindowAfter(a: seq<Signal>, b: seq<Signal>, at: nat, first: Order, row: bv8, w: bv32)
    requires ShowsWindow(b, at, first, row, w)
    ensures ShowsWindow(a + b, |a| + at, first, row, w)
  {
    forall j | 0 <= j < 4
      ensures (a + b)[|a| + at + 2 * j + 1] == b[at + 2 * j + 1]
      ensures (a + b)[|a| + at + 2 * j + 2] == b[at + 2 * j + 2]
    {
    }
  }

  lemma WindowWire(o: Order, row: bv8, w: bv32)
    ensures |Wire(o, Window(row, w))| == 10
    ensures ShowsWindow(Wire(o, Window(row, w)), 0, o, row, w)
    ensures OrderAfter(o, Window(row, w)) == Msb
  {
    var s := Slices(row, w, 4);
    assert Window(row, w) == [CsLow] + (s + [CsHigh]);
    WireAppend(o, [CsLow], s + [CsHigh]);
    WireAppend(o, s, [CsHigh]);
    SlicesWire(o, row, w, 4);
  }

  lemma {:induction false} WindowsWire(o: Order, rows: seq<bv32>, n: nat)
    requires n <= |rows| == 8
    ensures |Wire(o, Windows(rows, n))| == 10 * n
    ensures forall i | 0 <= i < n ::
      ShowsWindow(Wire(o, Windows(rows, n)), 10 * i, if i == 0 then o else Msb, (i + 1) as bv8, rows[i])
    ensures OrderAfter(o, Windows(rows, n)) == if n == 0 then o else Msb
  {
    if n > 0 {
      var prev := Windows(rows, n - 1);
      var last := Window(n as bv8, rows[n - 1]);
      WindowsWire(o, rows, n - 1);
      WireAppend(o, prev, last);
      var o' := OrderAfter(o, prev);
      WindowWire(o', n as bv8, rows[n - 1]);
      var a := Wire(o, prev);
      var b := Wire(o', last);
      assert Wire(o, Windows(rows, n)) == a + b;
      WindowsStep(o, rows, n, a, b);
    }
  }

  /** Appending the window of row `n` to the windows of the rows before it. */
  lemma WindowsStep(o: Order, rows: seq<bv32>, n: nat, a: seq<Signal>, b: seq<Signal>)
    requires 1 <= n <= |rows| == 8 && |a| == 10 * (n - 1)
    requires forall i | 0 <= i < n - 1 ::
      ShowsWindow(a, 10 * i, if i == 0 then o else Msb, (i + 1) as bv8, rows[i])
    requires ShowsWindow(b, 0, if n == 1 then o else Msb, n as bv8, rows[n - 1])
    ensures forall i | 0 <= i < n ::
      ShowsWindow(a + b, 10 * i, if i == 0 then o else Msb, (i + 1) as bv8, rows[i])
  {
    forall i | 0 <= i < n
      ensures ShowsWindow(a + b, 10 * i, if i == 0 then o else Msb, (i + 1) as bv8, rows[i])
    {
      if i < n - 1 {
        WindowBefore(a, b, 10 * i, if i == 0 then o else Msb, (i + 1) as bv8, rows[i]);
      } else {
        assert |a| + 0 == 10 * i && (i + 1) as bv8 == n as bv8 && rows[i] == rows[n - 1];
        WindowAfter(a, b, 0, if n == 1 then o else Msb, n as bv8, rows[n - 1]);
      }
    }
  }

  /** The framebuffer transfer, as the devices observe it: exactly 8 framing
      windows of 10 signals and the end of the transaction.  Window `i`
      (0-based) is addressed as row `i + 1` and carries the 4 bytes of
      `rows[i]`, each LSB-first; every address byte goes MSB-first except
      the very first, which keeps the order in force on entry; MSB-first is
      in force afterwards. */
  lemma TransferWire(o: Order, rows: seq<bv32>)
    requires |rows| == 8
    ensures |Wire(o, Transfer(rows))| == 81
    ensures forall i | 0 <= i < 8 ::
      ShowsWindow(Wire(o, Transfer(rows)), 10 * i, if i == 0 then o else Msb, (i + 1) as bv8, rows[i])
    ensures Wire(o, Transfer(rows))[80] == Release
    ensures OrderAfter(o, Transfer(rows)) == Msb
  {
    var ws := Windows(rows, 8);
    WindowsWire(o, rows, 8);
    WireAppend(o, ws, [EndTx]);
    var a := Wire(o, ws);
    var b := Wire(OrderAfter(o, ws), [EndTx]);
    assert b == [Release];
    forall i | 0 <= i < 8
      ensures ShowsWindow(a + b, 10 * i, if i == 0 then o else Msb, (i + 1) as bv8, rows[i])
    {
      WindowBefore(a, b, 10 * i, if i == 0 then o else Msb, (i + 1) as bv8, rows[i]);
    }
  }

  /** The four data bytes of a window determine its row word: a receiver
      that reassembles them gets `w` back. */
  lemma BytesReassemble(w: bv32)
    ensures (ByteOf(w, 0) as bv32) | (ByteOf(w, 1) as bv32 << 8) |
            (ByteOf(w, 2) as bv32 << 16) | (ByteOf(w, 3) as bv32 << 24) == w
  {
  }
}

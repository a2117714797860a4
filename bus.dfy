/** The serial-bus side of the driver, as a log of events.
    The driver only ever toggles the chip-select line, selects a bit order,
    shifts one byte out, or ends an SPI transaction; each of these is one
    `Event`.  `Bus` reads such a log the way the chain of devices sees it:
    every byte shifted out carries the bit order that was current at that
    moment.  Bit order persists until the next `SetOrder`; ending a
    transaction does not change it. */
module Bus {

  datatype Order = Msb | Lsb

  /** One side effect of the driver on the bus and the chip-select pin. */
  datatype Event =
    | CsLow            // chip-select driven low: a framing window opens
    | CsHigh           // chip-select driven high: the devices latch what they received
    | SetOrder(order: Order)  // an SPI transaction begun with this bit order
    | Xfer(value: bv8) // one byte shifted out
    | EndTx            // the SPI transaction ended

  /** What the devices observe: framing and bytes with their bit order. */
  datatype Signal =
    | Select
    | Deselect
    | Byte(order: Order, value: bv8)
    | Release

  /** The bit order in force after the events `t`, when `o` was in force before. */
  function OrderAfter(o: Order, t: seq<Event>): Order
    decreases |t|
  {
    if t == [] then o
    else match t[0]
      case SetOrder(o') => OrderAfter(o', t[1..])
      case _ => OrderAfter(o, t[1..])
  }

  /** The signals the devices observe for the events `t`, when `o` was in force before. */
  function Wire(o: Order, t: seq<Event>): seq<Signal>
    decreases |t|
  {
    if t == [] then []
    else match t[0]
      case CsLow => [Select] + Wire(o, t[1..])
      case CsHigh => [Deselect] + Wire(o, t[1..])
      case SetOrder(o') => Wire(o', t[1..])
      case Xfer(b) => [Byte(o, b)] + Wire(o, t[1..])
      case EndTx => [Release] + Wire(o, t[1..])
  }

  /** Reading a log in two pieces: the second piece starts under the order
      the first one leaves behind. */
  lemma {:induction false} WireAppend(o: Order, a: seq<Event>, b: seq<Event>)
    ensures Wire(o, a + b) == Wire(o, a) + Wire(OrderAfter(o, a), b)
    ensures OrderAfter(o, a + b) == OrderAfter(OrderAfter(o, a), b)
    decreases |a|
  {
    if a == [] {
      assert a + b == b;
    } else {
      assert (a + b)[0] == a[0];
      assert (a + b)[1..] == a[1..] + b;
      var o' := if a[0].SetOrder? then a[0].order else o;
      WireAppend(o', a[1..], b);
    }
  }
}

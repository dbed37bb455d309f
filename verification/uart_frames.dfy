/** What a UART wire carries: the frame format shared by both directions of rtl/system/uart.sv. */
module UartFrames {
  import opened Wires

  /** The states of both machines (uart_state_t). */
  datatype State = Idle | Start | Proc | Stop

  /** Slot `j` of a frame: start bit, eight data bits least significant first, stop bit. */
  function FrameBit(b: Byte, j: int): bool
  {
    if j <= 0 then false else if j <= 8 then b.Bit(j - 1) else true
  }

  function LevelOf(b: Byte, j: nat): nat { if FrameBit(b, j) then 1 else 0 }

  /** The frame format by value: a low start bit, the value of the byte least significant bit first, a high stop bit. */
  lemma FrameOfValue(b: Byte)
    ensures LevelOf(b, 0) == 0 && LevelOf(b, 9) == 1
    ensures b.Value() == LevelOf(b, 1) + 2 * LevelOf(b, 2) + 4 * LevelOf(b, 3) + 8 * LevelOf(b, 4)
                         + 16 * LevelOf(b, 5) + 32 * LevelOf(b, 6) + 64 * LevelOf(b, 7) + 128 * LevelOf(b, 8)
  {
    ValueOfBits(b);
  }

  /** The time at which slot `j` begins: `j` periods after `t`. */
  function Slot(t: nat, period: nat, j: nat): nat
  {
    if j == 0 then t else Slot(t, period, j - 1) + period
  }

  lemma {:induction false} SlotIs(t: nat, period: nat, j: nat)
    ensures Slot(t, period, j) == t + j * period
  {
    if j == 0 {
    } else {
      SlotIs(t, period, j - 1);
      assert j * period == (j - 1) * period + period;
    }
  }

  /** Every time inside the first `n` slots lies in one of them. */
  lemma {:induction false} InSomeSlot(t: nat, period: nat, n: nat, u: nat) returns (j: nat)
    requires t <= u < Slot(t, period, n)
    ensures j < n && Slot(t, period, j) <= u < Slot(t, period, j) + period
  {
    if u < Slot(t, period, n - 1) {
      j := InSomeSlot(t, period, n - 1, u);
    } else {
      j := n - 1;
    }
  }

  ghost predicate Level(line: nat -> bool, from: nat, to: nat, v: bool)
  {
    forall t: nat {:trigger line(t)} | from <= t < to :: line(t) == v
  }

  /** From `t0` on, the wire carries a whole frame of `b` with bit period `period`. */
  ghost predicate CarriesFrame(line: nat -> bool, t0: nat, period: nat, b: Byte)
  {
    forall j: nat {:trigger FrameBit(b, j)} | j < 10 :: Level(line, Slot(t0, period, j), Slot(t0, period, j) + period, FrameBit(b, j))
  }

  datatype Symbol = Gap | Frame(byte: Byte)

  function Bytes(symbols: seq<Symbol>): seq<Byte>
  {
    if symbols == [] then []
    else
      var last := symbols[|symbols| - 1];
      Bytes(symbols[..|symbols| - 1]) + if last.Gap? then [] else [last.byte]
  }

  /** The wire before time `t` is exactly the given sequence of one-bit idle gaps and ten-bit frames. */
  ghost predicate Carries(line: nat -> bool, clocks: nat, symbols: seq<Symbol>, t: nat)
  {
    if symbols == [] then t == 0
    else
      var rest := symbols[..|symbols| - 1];
      match symbols[|symbols| - 1]
      case Gap => t >= clocks && Level(line, t - clocks, t, true) && Carries(line, clocks, rest, t - clocks)
      case Frame(b) =>
        t >= 10 * clocks && CarriesFrame(line, t - 10 * clocks, clocks, b) && Carries(line, clocks, rest, t - 10 * clocks)
  }
}

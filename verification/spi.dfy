/** rtl/system/spi_host.sv and rtl/system/spi_top.sv with CPOL = 0, one clock edge at a time. */
module SpiHost {
  import opened Wires

  datatype State = Idle | Start | Send | Stop

  const DEPTH := 127

  /** `ready` is false in the first cycle after a reset; `received` is recieved_byte_q; `sampled` is recieved_byte_d, a register without reset.
      `popped` is next_tx_byte_q, which tells a fresh STOP from one whose byte has already left the FIFO. */
  datatype Spi = Spi(ready: bool, fifo: seq<Byte>, count: nat, sck: bool, state: State, bit: nat,
                     current: Byte, received: Byte, sampled: Byte, popped: bool)

  /** `toggle` is ToggleCount. */
  datatype Config = Config(toggle: nat, cpha: bool)
  {
    predicate Ok() { toggle >= 2 }
  }

  /** Power-up contents of recieved_byte_d are arbitrary. */
  function Reset(garbage: Byte): Spi
  {
    Spi(false, [], 0, false, Idle, 0, ZERO, ZERO, garbage, false)
  }

  predicate Valid(c: Config, s: Spi)
  {
    |s.fifo| <= DEPTH && s.count < c.toggle && s.bit < 8 && (!s.ready ==> s.fifo == [])
  }

  predicate AtLimit(c: Config, s: Spi) { s.count + 1 >= c.toggle }

  /** The internal edge on which the state register moves: negative for CPHA = 0, positive for CPHA = 1. */
  predicate StateEdge(c: Config, s: Spi) { AtLimit(c, s) && s.sck != c.cpha }

  /** The internal edge on which the shift register moves and the input is sampled. */
  predicate DataEdge(c: Config, s: Spi) { AtLimit(c, s) && s.sck == c.cpha }

  /** The pins. */
  predicate Sck(s: Spi) { s.state == Send && s.sck }

  function Tx(s: Spi): bool
  {
    if s.state == Send then s.current.b7 else true
  }

  function ByteOut(s: Spi): Byte
  {
    if s.state == Stop then s.received else ZERO
  }

  predicate Pops(s: Spi) { s.state == Stop && !s.popped }

  function NextState(s: Spi): State
  {
    match s.state
    case Idle => if s.fifo != [] then Start else Idle
    case Start => Send
    case Send => if s.bit == 0 then Stop else Send
    case Stop => Idle
  }

  function NextBit(s: Spi): nat
  {
    if s.state == Start then 7 else if s.state == Send && s.bit != 0 then s.bit - 1 else s.bit
  }

  function NextCurrent(s: Spi): Byte
  {
    if s.state == Start then FifoHead(s.fifo) else if s.state == Send then s.current.Left(false) else s.current
  }

  /** One clock edge: `push` is the byte written to SpiTxReg in this cycle, `rx` the level of spi_rx_i. */
  function Step(c: Config, s: Spi, push: Option<Byte>, rx: bool): (s': Spi)
    requires Valid(c, s)
    ensures Valid(c, s') && s'.ready
  {
    var enabled := s.state == Send || s.fifo != [];
    var s0 := s.(ready := true,
                 fifo := FifoNext(s.fifo, DEPTH, s.ready, push, Pops(s)),
                 count := if !enabled || AtLimit(c, s) then 0 else s.count + 1,
                 sck := enabled && (s.sck != AtLimit(c, s)),
                 popped := s.state == Stop);
    if StateEdge(c, s) then
      s0.(state := NextState(s), bit := NextBit(s), received := s.sampled)
    else if DataEdge(c, s) then
      s0.(current := NextCurrent(s), sampled := if s.state == Send then s.received.Left(rx) else s.sampled)
    else
      s0
  }

  // --- What an observer of the pins sees ------------------------------------------------------------

  /** The machine together with histories: bytes the FIFO took and gave, the output and the input at every
      sampling edge of sck_o, and the numbers of rising and falling edges of sck_o. */
  datatype World = World(spi: Spi, accepted: seq<Byte>, done: seq<Byte>, wire: seq<bool>, heard: seq<bool>,
                         rises: nat, falls: nat)

  /** A sampling edge as the other end of the cable sees it: rising for CPHA = 0, falling for CPHA = 1. */
  predicate Samples(c: Config, s: Spi, s': Spi)
  {
    if c.cpha then Sck(s) && !Sck(s') else !Sck(s) && Sck(s')
  }

  function Observe(c: Config, w: World, push: Option<Byte>, rx: bool): World
    requires Valid(c, w.spi)
  {
    var s, s' := w.spi, Step(c, w.spi, push, rx);
    World(s',
          w.accepted + Event(FifoTakes(s.fifo, DEPTH, s.ready, push)),
          w.done + FifoGives(s.fifo, Pops(s)),
          w.wire + if Samples(c, s, s') then [Tx(s)] else [],
          w.heard + if Samples(c, s, s') then [rx] else [],
          w.rises + if !Sck(s) && Sck(s') then 1 else 0,
          w.falls + if Sck(s) && !Sck(s') then 1 else 0)
  }

  /** The bus and the input pin, cycle by cycle. */
  datatype Input = Input(push: Option<Byte>, rx: bool)

  function Run(c: Config, garbage: Byte, inputs: seq<Input>): (w: World)
    requires c.Ok()
    ensures Valid(c, w.spi)
  {
    if inputs == [] then World(Reset(garbage), [], [], [], [], 0, 0)
    else
      var i := inputs[|inputs| - 1];
      Observe(c, Run(c, garbage, inputs[..|inputs| - 1]), i.push, i.rx)
  }

  /** A byte as it goes over the wire, most significant bit first. */
  function MsbFirst(b: Byte): (s: seq<bool>)
    ensures |s| == 8
  {
    [b.b7, b.b6, b.b5, b.b4, b.b3, b.b2, b.b1, b.b0]
  }

  function Bits(bytes: seq<Byte>): (s: seq<bool>)
    ensures |s| == 8 * |bytes|
  {
    if bytes == [] then [] else Bits(bytes[..|bytes| - 1]) + MsbFirst(bytes[|bytes| - 1])
  }

  lemma BitsAppend(bytes: seq<Byte>, b: Byte)
    ensures Bits(bytes + [b]) == Bits(bytes) + MsbFirst(b)
  {
    assert (bytes + [b])[..|bytes|] == bytes;
  }

  /** The most significant bits of `b` left after `k` shifts. */
  function ShiftedLeft(b: Byte, k: nat): Byte
  {
    if k == 0 then b else ShiftedLeft(b, k - 1).Left(false)
  }

  lemma {:induction false} ShiftedLeftBit(b: Byte, k: nat, i: nat)
    requires k <= i < 8
    ensures ShiftedLeft(b, k).Bit(i) == b.Bit(i - k)
  {
    if k == 0 {
    } else {
      ShiftedLeftBit(b, k - 1, i - 1);
    }
  }

  lemma TopBit(b: Byte, k: nat)
    requires k < 8
    ensures ShiftedLeft(b, k).b7 == MsbFirst(b)[k]
  {
    ShiftedLeftBit(b, k, 7);
  }

  /** The low `n` bits of `v` are the last `n` levels heard, newest lowest. */
  ghost predicate Holds(v: Byte, heard: seq<bool>, n: nat)
  {
    n <= |heard| && forall i: nat | i < n <= 8 :: v.Bit(i) == heard[|heard| - 1 - i]
  }

  lemma HoldOne(v: Byte, heard: seq<bool>, n: nat, rx: bool)
    requires n < 8 && Holds(v, heard, n)
    ensures Holds(v.Left(rx), heard + [rx], n + 1)
  {
    var v' := v.Left(rx);
    forall i: nat | i < n + 1
      ensures v'.Bit(i) == (heard + [rx])[|heard| - i]
    {
      if i > 0 {
        assert v'.Bit(i) == v.Bit(i - 1);
      }
    }
  }

  // --- The invariant ---------------------------------------------------------------------------------

  /** A state lasts two halves; the data edge ends the first, the state edge the second. */
  predicate SecondHalf(c: Config, s: Spi) { s.sck != c.cpha }

  /** Bits of the current byte that have been sampled. */
  function Sent(c: Config, s: Spi): nat
    requires s.bit < 8
  {
    if s.state == Send then 7 - s.bit + (if SecondHalf(c, s) then 1 else 0)
    else if s.state == Stop && !s.popped then 8
    else 0
  }

  /** The part of the current byte that the other end has sampled. */
  function Partial(c: Config, s: Spi): (p: seq<bool>)
    requires s.bit < 8
    ensures |p| == Sent(c, s)
  {
    if Sent(c, s) == 0 then [] else MsbFirst(FifoHead(s.fifo))[..Sent(c, s)]
  }

  ghost predicate Inv(c: Config, w: World)
  {
    var s := w.spi;
    && Valid(c, s)
    && w.accepted == w.done + s.fifo
    && (s.state in {Start, Send} || Pops(s) ==> s.fifo != [])
    && (s.popped ==> s.state in {Idle, Stop})
    && (Pops(s) ==> s.count == 0)
    && w.wire == Bits(w.done) + Partial(c, s)
    && |w.heard| == |w.wire|
    && w.rises == |w.wire| + (if c.cpha && Sck(s) then 1 else 0)
    && w.falls == |w.wire| - (if !c.cpha && Sck(s) then 1 else 0)
    && InvShift(c, s)
    && InvReceive(c, s, w.heard)
  }

  /** The shift register. */
  ghost predicate InvShift(c: Config, s: Spi)
    requires s.bit < 8
  {
    && (s.state == Start && SecondHalf(c, s) ==> s.current == FifoHead(s.fifo))
    && (s.state == Send ==> s.current == ShiftedLeft(FifoHead(s.fifo), Sent(c, s)))
  }

  /** The receive registers. */
  ghost predicate InvReceive(c: Config, s: Spi, heard: seq<bool>)
    requires s.bit < 8
  {
    && (s.state == Send && !SecondHalf(c, s) ==> Holds(s.received, heard, 7 - s.bit))
    && (s.state == Send && SecondHalf(c, s) ==> Holds(s.sampled, heard, 8 - s.bit))
    && (s.state == Stop ==> Holds(s.received, heard, 8) && s.sampled == s.received)
  }

  lemma InvReset(c: Config, garbage: Byte)
    requires c.Ok()
    ensures Inv(c, World(Reset(garbage), [], [], [], [], 0, 0))
  {
  }

  /** A cycle without an internal edge. */
  lemma InvQuiet(c: Config, w: World, push: Option<Byte>, rx: bool)
    requires c.Ok() && Inv(c, w) && !Pops(w.spi) && !AtLimit(c, w.spi)
    ensures Inv(c, Observe(c, w, push, rx))
  {
    hide MsbFirst, Bits, ShiftedLeft;
    FifoAccount(w.spi.fifo, DEPTH, w.spi.ready, push, false, w.accepted, w.done);
    var w' := Observe(c, w, push, rx);
    assert w'.done == w.done && w'.wire == w.wire && w'.heard == w.heard;
  }

  /** The cycle in which the byte just sent leaves the FIFO. */
  lemma InvPop(c: Config, w: World, push: Option<Byte>, rx: bool)
    requires c.Ok() && Inv(c, w) && Pops(w.spi)
    ensures Inv(c, Observe(c, w, push, rx))
  {
    hide MsbFirst, Bits, ShiftedLeft;
    FifoAccount(w.spi.fifo, DEPTH, w.spi.ready, push, true, w.accepted, w.done);
    BitsAppend(w.done, w.spi.fifo[0]);
    var w' := Observe(c, w, push, rx);
    assert w'.wire == w.wire && w'.heard == w.heard;
    assert w.wire == Bits(w'.done) by {
      assert MsbFirst(w.spi.fifo[0])[..8] == MsbFirst(w.spi.fifo[0]);
    }
    assert w'.wire == Bits(w'.done) + [];
  }

  /** A data edge outside SEND only loads the shift register. */
  lemma InvLoad(c: Config, w: World, push: Option<Byte>, rx: bool)
    requires c.Ok() && Inv(c, w) && DataEdge(c, w.spi) && w.spi.state != Send
    ensures Inv(c, Observe(c, w, push, rx))
  {
    hide MsbFirst, Bits, ShiftedLeft;
    FifoAccount(w.spi.fifo, DEPTH, w.spi.ready, push, false, w.accepted, w.done);
    var w' := Observe(c, w, push, rx);
    assert w'.done == w.done && w'.wire == w.wire && w'.heard == w.heard;
  }

  /** A data edge in SEND samples one more bit, on a sampling edge of sck_o. */
  lemma InvSample(c: Config, w: World, push: Option<Byte>, rx: bool)
    requires c.Ok() && Inv(c, w) && DataEdge(c, w.spi) && w.spi.state == Send
    ensures Inv(c, Observe(c, w, push, rx))
  {
    hide Bits, MsbFirst;
    var s := w.spi;
    FifoAccount(s.fifo, DEPTH, s.ready, push, false, w.accepted, w.done);
    var w' := Observe(c, w, push, rx);
    var k := 7 - s.bit;
    assert w'.done == w.done;
    HoldOne(s.received, w.heard, k, rx);
    OneMoreBit(s.fifo[0], k);
    assert Partial(c, w'.spi) == Partial(c, s) + [Tx(s)];
  }

  lemma OneMoreBit(b: Byte, k: nat)
    requires k < 8
    ensures MsbFirst(b)[..k + 1] == MsbFirst(b)[..k] + [ShiftedLeft(b, k).b7]
    ensures ShiftedLeft(b, k).Left(false) == ShiftedLeft(b, k + 1)
  {
    TopBit(b, k);
  }

  /** A state edge. */
  lemma InvState(c: Config, w: World, push: Option<Byte>, rx: bool)
    requires c.Ok() && Inv(c, w) && StateEdge(c, w.spi)
    ensures Inv(c, Observe(c, w, push, rx))
  {
    hide MsbFirst, Bits;
    FifoAccount(w.spi.fifo, DEPTH, w.spi.ready, push, false, w.accepted, w.done);
    var w' := Observe(c, w, push, rx);
    assert w'.done == w.done && w'.wire == w.wire && w'.heard == w.heard;
  }

  lemma InvStep(c: Config, w: World, push: Option<Byte>, rx: bool)
    requires c.Ok() && Inv(c, w)
    ensures Inv(c, Observe(c, w, push, rx))
  {
    if Pops(w.spi) {
      InvPop(c, w, push, rx);
    } else if StateEdge(c, w.spi) {
      InvState(c, w, push, rx);
    } else if DataEdge(c, w.spi) && w.spi.state == Send {
      InvSample(c, w, push, rx);
    } else if DataEdge(c, w.spi) {
      InvLoad(c, w, push, rx);
    } else {
      InvQuiet(c, w, push, rx);
    }
  }

  // --- The serial clock -------------------------------------------------------------------------------

  function Steps(c: Config, s: Spi, inputs: seq<Input>): (s': Spi)
    requires Valid(c, s)
    ensures Valid(c, s')
  {
    if inputs == [] then s
    else
      var i := inputs[|inputs| - 1];
      Step(c, Steps(c, s, inputs[..|inputs| - 1]), i.push, i.rx)
  }

  /** After an edge of the clock in SEND the pins stand still for the rest of ToggleCount cycles. */
  lemma {:induction false} PinsHold(c: Config, s: Spi, inputs: seq<Input>)
    requires c.Ok() && Valid(c, s) && s.state == Send && s.count == 0 && |inputs| < c.toggle
    ensures
      var s' := Steps(c, s, inputs);
      s'.state == Send && s'.count == |inputs| && s'.sck == s.sck && Tx(s') == Tx(s)
  {
    hide FifoNext;
    if inputs == [] {
    } else {
      PinsHold(c, s, inputs[..|inputs| - 1]);
    }
  }

  /** And then the clock toggles: its half period is exactly ToggleCount cycles. */
  lemma HalfPeriod(c: Config, s: Spi, inputs: seq<Input>)
    requires c.Ok() && Valid(c, s) && s.state == Send && s.count == 0 && |inputs| == c.toggle
    ensures
      var s' := Steps(c, s, inputs);
      s'.sck != s.sck && s'.count == 0
  {
    hide FifoNext;
    PinsHold(c, s, inputs[..|inputs| - 1]);
  }

  /** Outside SEND the clock rests low and the data line high; outside STOP the byte output is zero. */
  lemma PinsAtRest(s: Spi)
    ensures s.state != Send ==> !Sck(s) && Tx(s)
    ensures s.state != Stop ==> ByteOut(s).Value() == 0
  {
  }

  // --- Main results -----------------------------------------------------------------------------------

  lemma {:induction false} Reachable(c: Config, garbage: Byte, inputs: seq<Input>)
    requires c.Ok()
    ensures Inv(c, Run(c, garbage, inputs))
  {
    if inputs == [] {
      InvReset(c, garbage);
    } else {
      var i := inputs[|inputs| - 1];
      Reachable(c, garbage, inputs[..|inputs| - 1]);
      InvStep(c, Run(c, garbage, inputs[..|inputs| - 1]), i.push, i.rx);
    }
  }

  lemma {:induction false} BitsOfConcat(xs: seq<Byte>, ys: seq<Byte>)
    ensures Bits(xs + ys) == Bits(xs) + Bits(ys)
  {
    hide MsbFirst;
    if ys == [] {
      assert xs + ys == xs;
    } else {
      var n := |ys| - 1;
      BitsOfConcat(xs, ys[..n]);
      assert (xs + ys)[..|xs| + n] == xs + ys[..n];
    }
  }

  lemma BitsBegin(xs: seq<Byte>)
    requires xs != []
    ensures MsbFirst(xs[0]) <= Bits(xs)
  {
    BitsOfConcat(xs[..1], xs[1..]);
    assert xs == xs[..1] + xs[1..];
    assert Bits(xs[..1]) == MsbFirst(xs[0]) by {
      assert xs[..1][..0] == [];
      assert Bits([]) + MsbFirst(xs[0]) == MsbFirst(xs[0]);
    }
  }

  lemma WirePrefix(c: Config, w: World)
    requires c.Ok() && Inv(c, w)
    ensures w.wire <= Bits(w.accepted)
  {
    hide MsbFirst, Bits, ShiftedLeft, InvShift, InvReceive;
    BitsOfConcat(w.done, w.spi.fifo);
    if Sent(c, w.spi) > 0 {
      BitsBegin(w.spi.fifo);
    }
  }

  lemma WholeBytes(c: Config, w: World)
    requires c.Ok() && Inv(c, w) && w.spi.state != Send
    ensures |w.wire| % 8 == 0 && |w.wire| / 8 <= |w.accepted| && w.wire == Bits(w.accepted[..|w.wire| / 8])
  {
    hide MsbFirst, Bits, ShiftedLeft, InvShift, InvReceive;
    if Pops(w.spi) {
      var b := w.spi.fifo[0];
      assert MsbFirst(b)[..8] == MsbFirst(b);
      BitsAppend(w.done, b);
      assert w.accepted[..|w.done| + 1] == w.done + [b];
    } else {
      assert w.wire == Bits(w.done);
      assert w.accepted[..|w.done|] == w.done;
    }
  }

  /** Exactly once and in order: what the other end has sampled is a prefix of the accepted bytes, most significant
      bit first, with one clock pulse for each bit, in every run, stalls and restarts included. */
  lemma ExactlyOnce(c: Config, garbage: Byte, inputs: seq<Input>)
    requires c.Ok()
    ensures
      var w := Run(c, garbage, inputs);
      && w.wire <= Bits(w.accepted)
      && (!Sck(w.spi) ==> w.rises == w.falls == |w.wire|)
      && (w.spi.state != Send ==>
            |w.wire| % 8 == 0 && |w.wire| / 8 <= |w.accepted| && w.wire == Bits(w.accepted[..|w.wire| / 8]))
  {
    hide MsbFirst, Bits, Observe, Run;
    Reachable(c, garbage, inputs);
    var w := Run(c, garbage, inputs);
    WirePrefix(c, w);
    if w.spi.state != Send {
      WholeBytes(c, w);
    }
  }

  /** TX_EMPTY means on the wire: whenever the FIFO is empty, every byte ever accepted has been clocked out whole and
      the clock is at rest. */
  lemma EmptyMeansOnTheWire(c: Config, w: World)
    requires c.Ok() && Inv(c, w) && w.spi.fifo == []
    ensures w.wire == Bits(w.accepted)
    ensures w.rises == w.falls == 8 * |w.accepted| && !Sck(w.spi)
  {
    hide MsbFirst, Bits;
    assert w.done == w.accepted;
  }

  /** Full duplex: in STOP the byte output holds the last eight levels of spi_rx_i at the sampling edges. */
  lemma HeardByte(c: Config, w: World)
    requires c.Ok() && Inv(c, w) && w.spi.state == Stop
    ensures |w.heard| >= 8 && MsbFirst(ByteOut(w.spi)) == w.heard[|w.heard| - 8..]
  {
    hide Bits, ShiftedLeft;
    HoldsAll(w.spi.received, w.heard);
  }

  lemma HoldsAll(v: Byte, heard: seq<bool>)
    requires Holds(v, heard, 8)
    ensures MsbFirst(v) == heard[|heard| - 8..]
  {
    hide MsbFirst, Byte.Bit;
    forall j: nat | j < 8
      ensures MsbFirst(v)[j] == heard[|heard| - 8 + j]
    {
      MsbBit(v, j);
      assert v.Bit(7 - j) == heard[|heard| - 1 - (7 - j)];
    }
  }

  lemma MsbBit(v: Byte, j: nat)
    requires j < 8
    ensures MsbFirst(v)[j] == v.Bit(7 - j)
  {
  }

  /** spi_rx_i has followed spi_tx_o in every cycle. */
  ghost predicate Tied(c: Config, garbage: Byte, inputs: seq<Input>)
    requires c.Ok()
  {
    forall k: nat | k < |inputs| :: inputs[k].rx == Tx(Run(c, garbage, inputs[..k]).spi)
  }

  lemma TiedPrefix(c: Config, garbage: Byte, inputs: seq<Input>)
    requires c.Ok() && inputs != [] && Tied(c, garbage, inputs)
    ensures Tied(c, garbage, inputs[..|inputs| - 1])
  {
    hide Run;
    var rest := inputs[..|inputs| - 1];
    forall k: nat | k < |rest|
      ensures rest[k].rx == Tx(Run(c, garbage, rest[..k]).spi)
    {
      assert rest[..k] == inputs[..k];
      assert inputs[k].rx == Tx(Run(c, garbage, inputs[..k]).spi);
    }
  }

  lemma TiedStep(c: Config, w: World, push: Option<Byte>)
    requires Valid(c, w.spi) && w.heard == w.wire
    ensures
      var w' := Observe(c, w, push, Tx(w.spi));
      w'.heard == w'.wire
  {
    hide Step, Tx;
  }

  lemma {:induction false} TiedHears(c: Config, garbage: Byte, inputs: seq<Input>)
    requires c.Ok() && Tied(c, garbage, inputs)
    ensures Run(c, garbage, inputs).heard == Run(c, garbage, inputs).wire
  {
    hide Step, Tx, Observe;
    if inputs == [] {
    } else {
      var n := |inputs| - 1;
      TiedPrefix(c, garbage, inputs);
      TiedHears(c, garbage, inputs[..n]);
      TiedStep(c, Run(c, garbage, inputs[..n]), inputs[n].push);
      assert inputs[n].rx == Tx(Run(c, garbage, inputs[..n]).spi);
    }
  }

  lemma MsbFirstInjective(a: Byte, b: Byte)
    requires MsbFirst(a) == MsbFirst(b)
    ensures a == b
  {
    var x, y := MsbFirst(a), MsbFirst(b);
    assert x[0] == y[0] && x[1] == y[1] && x[2] == y[2] && x[3] == y[3];
    assert x[4] == y[4] && x[5] == y[5] && x[6] == y[6] && x[7] == y[7];
  }

  /** The byte whose transmission brought the machine to STOP. */
  function JustSent(w: World): Byte
    requires if Pops(w.spi) then w.spi.fifo != [] else w.done != []
  {
    if Pops(w.spi) then w.spi.fifo[0] else w.done[|w.done| - 1]
  }

  /** Round trip: with the input tied to the output, byte_data_o in STOP is the byte just sent, for both phases and
      whatever the receive registers held at power-up. */
  lemma RoundTrip(c: Config, garbage: Byte, inputs: seq<Input>)
    requires c.Ok() && Tied(c, garbage, inputs)
    ensures
      var w := Run(c, garbage, inputs);
      w.spi.state == Stop ==>
        && (if Pops(w.spi) then w.spi.fifo != [] else w.done != [])
        && ByteOut(w.spi) == JustSent(w)
  {
    hide MsbFirst, Observe, Run;
    Reachable(c, garbage, inputs);
    TiedHears(c, garbage, inputs);
    var w := Run(c, garbage, inputs);
    if w.spi.state == Stop {
      HeardByte(c, w);
      LastByte(c, w);
      MsbFirstInjective(ByteOut(w.spi), JustSent(w));
    }
  }

  lemma LastByte(c: Config, w: World)
    requires c.Ok() && Inv(c, w) && w.spi.state == Stop
    ensures if Pops(w.spi) then w.spi.fifo != [] else w.done != []
    ensures |w.wire| >= 8 && w.wire[|w.wire| - 8..] == MsbFirst(JustSent(w))
  {
    hide MsbFirst;
    if Pops(w.spi) {
      assert MsbFirst(w.spi.fifo[0])[..8] == MsbFirst(w.spi.fifo[0]);
      assert w.wire == Bits(w.done) + MsbFirst(JustSent(w));
    } else {
      assert w.wire == Bits(w.done);
    }
  }
}

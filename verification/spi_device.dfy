/** rtl/system/spi_top.sv as registers behind the bus, and the polling driver of sw/c/common/spi.c. */
module SpiDevice {
  import opened Integers
  import opened Wires
  import opened SpiHost

  const TX_REG := 0
  const STATUS_REG := 4            // bit 1 FIFO empty, bit 0 FIFO full

  /** One bus request: register offset, write enable, byte enable 0 and the low byte of the write data. */
  datatype Request = Request(addr: nat, write: bool, enable: bool, data: Byte)

  function TxWrite(req: Option<Request>): Option<Byte>
  {
    if req.Some? && req.value.addr == TX_REG && req.value.write && req.value.enable then Some(req.value.data) else None
  }

  // --- How long the FIFO can stay non-empty -----------------------------------------------------------

  /** Half periods of the internal clock left, after the current one, before the head of the FIFO leaves it. */
  function HalvesLeft(c: Config, s: Spi): (n: nat)
    requires s.bit < 8
    ensures n <= 23
  {
    var half := if SecondHalf(c, s) then 0 else 1;
    match s.state
    case Stop => if s.popped then 22 + half else 0
    case Idle => 20 + half
    case Start => 18 + half
    case Send => 2 * (s.bit + 1) + half
  }

  /** A bound on the cycles until the FIFO has drained if nothing is written. */
  function Work(c: Config, s: Spi): (n: nat)
    requires Valid(c, s)
    ensures n == 0 <==> s.fifo == []
  {
    if s.fifo == [] then 0 else |s.fifo| * (24 * c.toggle) + HalvesLeft(c, s) * c.toggle + (c.toggle - s.count)
  }

  /** A cycle without a write brings the engine closer to an empty FIFO. */
  lemma WorkShrinks(c: Config, s: Spi, rx: bool)
    requires c.Ok() && Valid(c, s) && s.fifo != [] && (Pops(s) ==> s.count == 0)
    ensures
      var s' := Step(c, s, None, rx);
      Work(c, s') < Work(c, s) && s'.fifo == if Pops(s) then s.fifo[1..] else s.fifo
  {
    var s' := Step(c, s, None, rx);
    if Pops(s) {
      MulStep(|s'.fifo|, 24 * c.toggle);
      MulUp(HalvesLeft(c, s'), 23, c.toggle);
    } else if AtLimit(c, s) {
      MulUp(HalvesLeft(c, s') + 1, HalvesLeft(c, s), c.toggle);
      MulStep(HalvesLeft(c, s'), c.toggle);
    }
  }

  lemma EmptyStays(c: Config, s: Spi, rx: bool)
    requires Valid(c, s) && s.fifo == []
    ensures Step(c, s, None, rx).fifo == []
  {
  }

  // --- The device -------------------------------------------------------------------------------------

  class SpiTop {
    const config: Config

    var ready: bool
    var fifo: seq<Byte>
    var nextTxByte: bool
    var readStatus: bool
    var rvalid: bool

    var count: nat
    var sck: bool
    var state: State
    var bit: nat
    var currentByte: Byte
    var receivedByte: Byte
    var sampledByte: Byte

    /** What an observer has seen so far. */
    ghost var world: World

    function Registers(): Spi
      reads this
    {
      Spi(ready, fifo, count, sck, state, bit, currentByte, receivedByte, sampledByte, nextTxByte)
    }

    ghost predicate Ok()
      reads this
    {
      config.Ok() && world.spi == Registers() && Inv(config, world)
    }

    constructor (config: Config, garbage: Byte)
      requires config.Ok()
      ensures Ok() && this.config == config && Registers() == Reset(garbage)
      ensures world.accepted == [] && world.wire == []
    {
      this.config := config;
      ready, fifo, nextTxByte, readStatus, rvalid := false, [], false, false, false;
      count, sck, state, bit := 0, false, Idle, 0;
      currentByte, receivedByte, sampledByte := ZERO, ZERO, garbage;
      world := World(Reset(garbage), [], [], [], [], 0, 0);
      new;
      InvReset(config, garbage);
    }

    /** device_rdata_o in the cycle after a request. */
    function ReadData(): nat
      reads this
    {
      if readStatus then Status(fifo == [], |fifo| == DEPTH) else 0
    }

    /** The serial clock generator at a clock edge. */
    method SckEdge()
      requires count < config.toggle
      modifies `count, `sck
      ensures
        var enabled := state == Send || fifo != [];
        var limit := old(count) + 1 >= config.toggle;
        && count == (if !enabled || limit then 0 else old(count) + 1)
        && sck == (enabled && (old(sck) != limit))
    {
      if !(state == Send || fifo != []) {
        count := 0;
        sck := false;
      } else if count >= config.toggle - 1 {
        count := 0;
        sck := !sck;
      } else {
        count := count + 1;
      }
    }

    /** The data path on an internal edge that shifts: load in START, shift and sample in SEND. */
    method ShiftEdge(rx: bool)
      modifies `currentByte, `sampledByte
      ensures currentByte == NextCurrent(old(Registers()))
      ensures sampledByte == if state == Send then receivedByte.Left(rx) else old(sampledByte)
    {
      if state == Start {
        currentByte := FifoHead(fifo);
      } else if state == Send {
        currentByte := currentByte.Left(false);
        sampledByte := receivedByte.Left(rx);
      }
    }

    /** The state machine on an internal edge that moves it. */
    method StateMove()
      modifies `state, `bit, `receivedByte
      ensures state == NextState(old(Registers())) && bit == NextBit(old(Registers()))
      ensures receivedByte == sampledByte
    {
      receivedByte := sampledByte;
      match state {
        case Idle =>
          if fifo != [] { state := Start; }
        case Start =>
          state := Send;
          bit := 7;
        case Send =>
          if bit == 0 { state := Stop; } else { bit := bit - 1; }
        case Stop =>
          state := Idle;
      }
    }

    /** One clock edge with at most one bus request and the level of spi_rx_i. */
    method ClockEdge(req: Option<Request>, rx: bool)
      requires Ok()
      modifies this
      ensures Ok()
      ensures Registers() == Step(config, old(Registers()), TxWrite(req), rx)
      ensures world == Observe(config, old(world), TxWrite(req), rx)
      ensures !(req.Some? && req.value.addr == 0 && req.value.write && req.value.enable) ==> world.accepted == old(world.accepted)
      ensures rvalid == req.Some?
      ensures readStatus == (req.Some? && req.value.addr == STATUS_REG && !req.value.write)
    {
      hide InvShift, InvReceive, Partial, Bits, Step;
      var push := TxWrite(req);
      InvStep(config, world, push, rx);
      world := Observe(config, world, push, rx);
      rvalid := req.Some?;
      readStatus := req.Some? && req.value.addr == STATUS_REG && !req.value.write;
      Advance(push, rx);
    }

    /** The registers at a clock edge. */
    method Advance(push: Option<Byte>, rx: bool)
      requires Valid(config, Registers())
      modifies `ready, `fifo, `nextTxByte, `count, `sck, `state, `bit, `currentByte, `receivedByte, `sampledByte
      ensures Registers() == Step(config, old(Registers()), push, rx)
    {
      hide FifoNext, FifoHead, Byte.Left;
      var sckPos := count >= config.toggle - 1 && !sck;
      var sckNeg := count >= config.toggle - 1 && sck;
      var stopping := state == Stop;
      var pop := stopping && !nextTxByte;
      SckEdge();
      if if config.cpha then sckPos else sckNeg {
        StateMove();
      } else if if config.cpha then sckNeg else sckPos {
        ShiftEdge(rx);
      }
      fifo := FifoNext(fifo, DEPTH, ready, push, pop);
      ready := true;
      nextTxByte := stopping;
    }
  }

  // --- The driver -------------------------------------------------------------------------------------

  /** The processor's side: before its k-th access `gap(k)` clock cycles go by, and spi_rx_i is `pin(n)` at cycle n. */
  class Port {
    const spi: SpiTop
    const gap: nat -> nat
    const pin: nat -> bool
    var accesses: nat
    var cycles: nat

    constructor (spi: SpiTop, gap: nat -> nat, pin: nat -> bool)
      ensures this.spi == spi && this.gap == gap && this.pin == pin && accesses == 0 && cycles == 0
    {
      this.spi, this.gap, this.pin := spi, gap, pin;
      accesses, cycles := 0, 0;
    }

    function Left(): nat
      reads this, spi
      requires Valid(spi.config, spi.Registers())
    {
      Work(spi.config, spi.Registers())
    }

    /** A cycle without a write. */
    method Tick(req: Option<Request>)
      requires spi.Ok() && TxWrite(req) == None
      modifies this`cycles, spi
      ensures spi.Ok() && spi.world.accepted == old(spi.world.accepted)
      ensures |spi.fifo| <= |old(spi.fifo)| && spi.readStatus == (req.Some? && req.value.addr == STATUS_REG && !req.value.write)
      ensures if old(spi.fifo) == [] then spi.fifo == [] else Left() < old(Left())
      ensures spi.ready
    {
      hide Step, InvShift, InvReceive, Work;
      if spi.fifo != [] {
        WorkShrinks(spi.config, spi.Registers(), pin(cycles));
      } else {
        EmptyStays(spi.config, spi.Registers(), pin(cycles));
      }
      spi.ClockEdge(req, pin(cycles));
      cycles := cycles + 1;
    }

    method Idle(n: nat)
      requires spi.Ok()
      modifies this`cycles, spi
      ensures spi.Ok() && spi.world.accepted == old(spi.world.accepted)
      ensures |spi.fifo| <= |old(spi.fifo)| && Left() <= old(Left())
      ensures old(spi.ready) ==> spi.ready
    {
      hide Step, InvShift, InvReceive, Work;
      for i := 0 to n
        invariant spi.Ok() && spi.world.accepted == old(spi.world.accepted)
        invariant |spi.fifo| <= |old(spi.fifo)| && Left() <= old(Left())
        invariant old(spi.ready) ==> spi.ready
      {
        Tick(None);
      }
    }

    /** spi_get_status: the value returned is the one shown in the cycle after the request. */
    method GetStatus() returns (v: nat)
      requires spi.Ok()
      modifies this, spi
      ensures spi.Ok() && spi.ready && spi.world.accepted == old(spi.world.accepted)
      ensures (v / 2 % 2 == 1) == (spi.fifo == []) && (v % 2 == 1) == (|spi.fifo| == 127)
      ensures old(spi.fifo) == [] || Left() < old(Left())
      ensures old(spi.fifo) == [] ==> spi.fifo == []
    {
      hide Step, InvShift, InvReceive, Work;
      Idle(gap(accesses));
      Tick(Some(Request(STATUS_REG, false, true, ZERO)));
      accesses := accesses + 1;
      v := spi.ReadData();
    }

    /** DEV_WRITE to the transmit register, not in the cycle after a reset. */
    method WriteTx(b: Byte)
      requires spi.Ok() && spi.ready && |spi.fifo| < DEPTH
      modifies this, spi
      ensures spi.Ok() && spi.world.accepted == old(spi.world.accepted) + [b]
    {
      hide Step, InvShift, InvReceive, Work;
      Idle(gap(accesses));
      spi.ClockEdge(Some(Request(TX_REG, true, true, b)), pin(cycles));
      accesses, cycles := accesses + 1, cycles + 1;
    }

    /** spi_send_byte_blocking: the byte is always taken, and the wait ends. */
    method SendByteBlocking(b: Byte)
      requires spi.Ok()
      modifies this, spi
      ensures spi.Ok() && spi.world.accepted == old(spi.world.accepted) + [b]
    {
      hide InvShift, InvReceive, Partial, Bits, Work;
      var status := GetStatus();
      while status % 2 == 1
        invariant spi.Ok() && spi.ready && spi.world.accepted == old(spi.world.accepted)
        invariant (status % 2 == 1) == (|spi.fifo| == DEPTH)
        decreases Left()
      {
        status := GetStatus();
      }
      WriteTx(b);
    }

    /** spi_wait_idle: when it returns, everything ever accepted is on the wire. */
    method WaitIdle()
      requires spi.Ok()
      modifies this, spi
      ensures spi.Ok() && spi.fifo == [] && spi.world.accepted == old(spi.world.accepted)
      ensures spi.world.wire == Bits(spi.world.accepted)
    {
      hide InvShift, InvReceive, Partial, Bits, Work;
      var status := GetStatus();
      while status / 2 % 2 != 1
        invariant spi.Ok() && spi.world.accepted == old(spi.world.accepted)
        invariant (status / 2 % 2 == 1) == (spi.fifo == [])
        decreases Left()
      {
        status := GetStatus();
      }
      EmptyMeansOnTheWire(spi.config, spi.world);
    }

    /** spi_tx: every byte of the buffer is accepted, in order. */
    method SpiTx(data: seq<Byte>)
      requires spi.Ok()
      modifies this, spi
      ensures spi.Ok() && spi.world.accepted == old(spi.world.accepted) + data
    {
      hide InvShift, InvReceive, Partial, Bits, Work;
      WaitIdle();
      var len: nat, next: nat := |data|, 0;
      while len > 0
        invariant next + len == |data|
        invariant spi.Ok() && spi.world.accepted == old(spi.world.accepted) + data[..next]
      {
        SendByteBlocking(data[next]);
        len, next := len - 1, next + 1;
      }
    }

    /** spi_write: when it returns, the whole buffer has been clocked out after everything sent before it. */
    method SpiWrite(data: seq<Byte>) returns (len: nat)
      requires spi.Ok()
      modifies this, spi
      ensures spi.Ok() && len == |data|
      ensures spi.world.wire == Bits(old(spi.world.accepted) + data)
    {
      hide InvShift, InvReceive, Partial, Bits, Work;
      SpiTx(data);
      WaitIdle();
      len := |data|;
    }
  }
}

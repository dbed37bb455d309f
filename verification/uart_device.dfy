/** rtl/system/uart.sv as registers behind the bus, and the polling driver of sw/c/common/uart.c. */
module UartDevice {
  import opened Integers
  import opened Wires
  import opened UartFrames
  import T = UartTx
  import R = UartRx
  import L = UartLoopback

  const RX_REG := 0
  const TX_REG := 4
  const STATUS_REG := 8            // bit 1 transmit FIFO full, bit 0 receive FIFO empty
  const EOF := -1

  /** One bus request: register offset, write enable, byte enable 0 and the low byte of the write data. */
  datatype Request = Request(addr: nat, write: bool, enable: bool, data: Byte)

  const NEWLINE := Byte(false, true, false, true, false, false, false, false)
  const RETURN := Byte(true, false, true, true, false, false, false, false)

  /** What putchar sends for a character, and puts for a text that ends in a zero. */
  function Printed(c: Byte): seq<Byte>
  {
    if c == NEWLINE then [RETURN, c] else [c]
  }

  function AllPrinted(str: seq<Byte>): seq<Byte>
  {
    if str == [] || str[0] == ZERO then [] else Printed(str[0]) + AllPrinted(str[1..])
  }

  /** In numbers: a carriage return, 13, goes before every line feed, 10, and nothing else is added. */
  lemma PrintedIs(c: Byte)
    ensures c.Value() == 10 ==> |Printed(c)| == 2 && Printed(c)[0].Value() == 13 && Printed(c)[1] == c
    ensures c.Value() != 10 ==> Printed(c) == [c]
  {
    assert NEWLINE.Value() == 10 && RETURN.Value() == 13;
    if c.Value() == 10 {
      ValueInjective(c, NEWLINE);
    }
  }

  lemma ZeroIs(c: Byte)
    ensures c.Value() == 0 <==> c == ZERO
  {
    assert ZERO.Value() == 0;
    if c.Value() == 0 {
      ValueInjective(c, ZERO);
    }
  }

  /** A text is sent character by character, up to its first zero. */
  lemma PrintedStep(c: Byte, rest: seq<Byte>)
    ensures AllPrinted([c] + rest) == if c.Value() == 0 then [] else Printed(c) + AllPrinted(rest)
  {
    hide Byte.Value, Printed;
    ZeroIs(c);
    assert ([c] + rest)[1..] == rest;
  }

  lemma PrintedNothing()
    ensures AllPrinted([]) == []
  {
  }

  function TxWrite(req: Option<Request>): Option<Byte>
  {
    if req.Some? && req.value.addr == TX_REG && req.value.enable && req.value.write then Some(req.value.data) else None
  }

  predicate RxRead(req: Option<Request>)
  {
    req.Some? && req.value.addr == RX_REG && req.value.enable && !req.value.write
  }

  /** Only an enabled write of the transmit register writes, only an enabled read of the receive register pops. */
  lemma Decoded(req: Option<Request>)
    ensures
      var enabled := req.Some? && req.value.enable;
      && (TxWrite(req) == if enabled && req.value.addr == 4 && req.value.write then Some(req.value.data) else None)
      && (RxRead(req) <==> enabled && req.value.addr == 0 && !req.value.write)
      && (StatusRead(req) <==> enabled && req.value.addr == 8 && !req.value.write)
    ensures forall q: seq<Byte>, depth: nat, ready: bool :: TxWrite(req) == None ==> Event(FifoTakes(q, depth, ready, TxWrite(req))) == []
    ensures forall q: seq<Byte> :: !RxRead(req) ==> FifoGives(q, RxRead(req)) == []
    ensures FifoHead([]).Value() == 0
  {
  }

  predicate StatusRead(req: Option<Request>)
  {
    req.Some? && req.value.addr == STATUS_REG && req.value.enable && !req.value.write
  }

  // --- How long a full FIFO can stay full -----------------------------------------------------------

  /** Slots until the next pop, after the current one. */
  function SlotsLeft(s: T.Tx): (n: nat)
    requires s.bit < 8
    ensures n <= 9
  {
    match s.state
    case Start => 0
    case Idle => 1
    case Stop => 1
    case Proc => 9 - s.bit
  }

  /** Cycles until the FIFO has drained if nothing is written. */
  function Work(clocks: nat, s: T.Tx): (w: nat)
    requires s.bit < 8 && s.baud < clocks
    ensures w == 0 <==> s.fifo == []
  {
    if s.fifo == [] then 0 else |s.fifo| * (10 * clocks) + SlotsLeft(s) * clocks + (clocks - s.baud)
  }

  /** A cycle without a write brings the transmitter closer to an empty FIFO. */
  lemma WorkShrinks(clocks: nat, depth: nat, s: T.Tx)
    requires T.Valid(clocks, depth, s) && s.fifo != []
    ensures
      var s' := T.Step(clocks, depth, s, None);
      Work(clocks, s') < Work(clocks, s) && s'.fifo == if T.Pops(clocks, s) then s.fifo[1..] else s.fifo
  {
    var s' := T.Step(clocks, depth, s, None);
    if T.Pops(clocks, s) {
      assert |s.fifo| * (10 * clocks) == |s'.fifo| * (10 * clocks) + 10 * clocks by {
        MulStep(|s'.fifo|, 10 * clocks);
      }
      assert s'.fifo != [] ==> SlotsLeft(s') * clocks == 9 * clocks;
    } else if T.Tick(clocks, s) {
      MulStep(SlotsLeft(s'), clocks);
      assert SlotsLeft(s) == SlotsLeft(s') + 1;
    }
  }

  lemma EmptyStays(clocks: nat, depth: nat, s: T.Tx)
    requires T.Valid(clocks, depth, s) && s.fifo == []
    ensures T.Step(clocks, depth, s, None).fifo == []
  {
  }

  lemma SamePrefix(a: seq<Byte>, b: seq<Byte>, c: seq<Byte>)
    requires a + c == b + c
    ensures a == b
  {
    assert |a| == |b|;
    assert (a + c)[..|a|] == a && (b + c)[..|b|] == b;
  }

  /** The recorded levels are those of the wire of the logged run. */
  ghost predicate AreLine(clocks: nat, depth: nat, log: seq<Option<Byte>>, pins: seq<bool>)
    requires clocks >= 2
  {
    var wire := T.Wire(T.Logged(clocks, depth, log));
    forall t: nat {:trigger wire(t)} | t < |pins| :: pins[t] == wire(t)
  }

  /** A wire that has followed the transmitter so far still does after one more cycle. */
  lemma StillLooped(clocks: nat, depth: nat, log: seq<Option<Byte>>, write: Option<Byte>, pins: seq<bool>, pin: bool)
    requires clocks >= 2 && |pins| == |log| && AreLine(clocks, depth, log, pins)
    requires pin == T.Line(T.At(T.Logged(clocks, depth, log), |log|))
    ensures AreLine(clocks, depth, log + [write], pins + [pin])
  {
    hide T.At, T.Logged, T.Line;
    var run, run' := T.Logged(clocks, depth, log), T.Logged(clocks, depth, log + [write]);
    forall t: nat | t < |pins + [pin]|
      ensures (pins + [pin])[t] == T.Wire(run')(t)
    {
      T.LogExtends(clocks, depth, log, write, t);
      if t < |pins| {
        assert pins[t] == T.Wire(run)(t);
      }
    }
  }

  lemma OneMore(clocks: nat, line: nat -> bool, t: nat)
    requires clocks >= 2
    ensures R.Presented(clocks, line, t + 1) == R.Presented(clocks, line, t) + Event(R.Presents(clocks, R.At(clocks, line, t)))
  {
  }

  // --- The device -----------------------------------------------------------------------------------

  class Uart {
    const clocks: nat
    const rxDepth: nat
    const txDepth: nat

    var txReady: bool
    var txFifo: seq<Byte>
    var txBaud: nat
    var txState: State
    var txBit: nat
    var txByte: Byte

    var rxReady: bool
    var rxFifo: seq<Byte>
    var rxSync0: bool
    var rxSync1: bool
    var rxSync2: bool
    var rxBaud: nat
    var rxState: State
    var rxBit: nat
    var rxByte: Byte

    var rdata: nat
    var rvalid: bool

    /** Everything the transmit FIFO has taken in and given out; the same for the receive FIFO. */
    ghost var txTaken: seq<Byte>
    ghost var txGiven: seq<Byte>
    ghost var rxTaken: seq<Byte>
    ghost var rxGiven: seq<Byte>

    /** What software has written to the transmit register, cycle by cycle. */
    ghost var log: seq<Option<Byte>>

    /** The levels of uart_rx_i, cycle by cycle. */
    ghost var pins: seq<bool>

    function Tx(): T.Tx
      reads `txReady, `txFifo, `txBaud, `txState, `txBit, `txByte
    {
      T.Tx(txReady, txFifo, txBaud, txState, txBit, txByte)
    }

    function Rx(): R.Rx
      reads `rxSync0, `rxSync1, `rxSync2, `rxBaud, `rxState, `rxBit, `rxByte
    {
      R.Rx(rxSync0, rxSync1, rxSync2, rxBaud, rxState, rxBit, rxByte)
    }

    ghost predicate Valid()
      reads this
    {
      TxValid() && RxValid() && |pins| == |log|
    }

    ghost predicate TxValid()
      reads `txReady, `txFifo, `txBaud, `txState, `txBit, `txByte, `txTaken, `txGiven, `log
    {
      && clocks >= 2 && txDepth > 0
      && T.Valid(clocks, txDepth, Tx())
      && txTaken == txGiven + txFifo
      && FollowsLog()
    }

    ghost predicate RxValid()
      reads `rxSync0, `rxSync1, `rxSync2, `rxBaud, `rxState, `rxBit, `rxByte
      reads `rxReady, `rxFifo, `rxTaken, `rxGiven, `pins
    {
      && clocks >= 2
      && R.Valid(clocks, Rx())
      && |rxFifo| <= rxDepth
      && rxTaken == rxGiven + rxFifo
      && FollowsPins()
    }

    /** The run of the transmitter so far. */
    ghost function History(): T.Run
      reads `log
    {
      T.Logged(clocks, txDepth, log)
    }

    /** The registers are where that run is, and the bytes taken are those it has accepted. */
    ghost predicate FollowsLog()
      requires clocks >= 2
      reads `txReady, `txFifo, `txBaud, `txState, `txBit, `txByte, `txTaken, `log
    {
      Tx() == T.At(History(), |log|) && txTaken == T.Accepted(History(), |log|)
    }

    /** The receiver is where the recorded levels have brought it. */
    ghost predicate FollowsPins()
      requires clocks >= 2
      reads `rxSync0, `rxSync1, `rxSync2, `rxBaud, `rxState, `rxBit, `rxByte, `rxReady, `pins
    {
      Rx() == R.At(clocks, R.Recorded(pins), |pins|) && (!rxReady ==> pins == [])
    }

    /** What has been presented to the receive FIFO. */
    ghost function Shown(): seq<Byte>
      requires clocks >= 2
      reads `pins
    {
      R.Presented(clocks, R.Recorded(pins), |pins|)
    }

    /** The receive FIFO has taken all of it. */
    ghost predicate NothingLost()
      requires clocks >= 2
      reads `pins, `rxTaken
    {
      rxTaken == Shown()
    }

    /** A byte is presented while the receive FIFO is full. */
    predicate Overflows()
      reads `rxSync0, `rxSync1, `rxSync2, `rxBaud, `rxState, `rxBit, `rxByte, `rxFifo
    {
      R.Presents(clocks, Rx()).Some? && |rxFifo| >= rxDepth
    }

    /** uart_rx_i has been at the level of uart_tx_o since reset. */
    ghost predicate Looped()
      requires clocks >= 2
      reads `log, `pins
    {
      AreLine(clocks, txDepth, log, pins)
    }

    /** The state after reset. */
    constructor (clocks: nat, rxDepth: nat, txDepth: nat)
      requires clocks >= 2 && txDepth > 0
      ensures Valid() && Tx() == T.RESET && Rx() == R.RESET && rxFifo == [] && log == []
      ensures NothingLost() && Looped()
      ensures this.clocks == clocks && this.rxDepth == rxDepth && this.txDepth == txDepth
    {
      this.clocks, this.rxDepth, this.txDepth := clocks, rxDepth, txDepth;
      txReady, txFifo, txBaud, txState, txBit, txByte := false, [], 0, Idle, 0, ZERO;
      rxReady, rxFifo := false, [];
      rxSync0, rxSync1, rxSync2 := false, false, false;
      rxBaud, rxState, rxBit, rxByte := 0, Idle, 0, ZERO;
      rdata, rvalid := 0, false;
      txTaken, txGiven, rxTaken, rxGiven, log := [], [], [], [], [];
      pins := [];
    }

    /** The transmit FIFO at a clock edge. */
    method TxFifoEdge(write: Option<Byte>, pop: bool)
      requires |txFifo| <= txDepth && txTaken == txGiven + txFifo
      modifies `txReady, `txFifo, `txTaken, `txGiven
      ensures txReady && txFifo == FifoNext(old(txFifo), txDepth, old(txReady), write, pop) && txTaken == txGiven + txFifo
      ensures txTaken == old(txTaken) + Event(FifoTakes(old(txFifo), txDepth, old(txReady), write))
      ensures txGiven == old(txGiven) + FifoGives(old(txFifo), pop)
    {
      FifoAccount(txFifo, txDepth, txReady, write, pop, txTaken, txGiven);
      txTaken := txTaken + Event(FifoTakes(txFifo, txDepth, txReady, write));
      txGiven := txGiven + FifoGives(txFifo, pop);
      txFifo := FifoNext(txFifo, txDepth, txReady, write, pop);
      txReady := true;
    }

    /** The receive FIFO at a clock edge. */
    method RxFifoEdge(push: Option<Byte>, pop: bool)
      requires |rxFifo| <= rxDepth && rxTaken == rxGiven + rxFifo
      modifies `rxReady, `rxFifo, `rxTaken, `rxGiven
      ensures rxReady && rxFifo == FifoNext(old(rxFifo), rxDepth, old(rxReady), push, pop) && rxTaken == rxGiven + rxFifo
      ensures rxTaken == old(rxTaken) + Event(FifoTakes(old(rxFifo), rxDepth, old(rxReady), push))
      ensures rxGiven == old(rxGiven) + FifoGives(old(rxFifo), pop)
    {
      FifoAccount(rxFifo, rxDepth, rxReady, push, pop, rxTaken, rxGiven);
      rxTaken := rxTaken + Event(FifoTakes(rxFifo, rxDepth, rxReady, push));
      rxGiven := rxGiven + FifoGives(rxFifo, pop);
      rxFifo := FifoNext(rxFifo, rxDepth, rxReady, push, pop);
      rxReady := true;
    }

    /** The transmit registers at a clock edge; the FIFO still shows its old contents. */
    method TxEdge()
      requires T.Valid(clocks, txDepth, Tx())
      modifies `txBaud, `txState, `txBit, `txByte
      ensures Tx() == T.Step(clocks, txDepth, old(Tx()), None).(ready := txReady, fifo := txFifo)
    {
      var tick := txBaud == clocks - 1;
      txBaud := if tick then 0 else txBaud + 1;
      if tick {
        match txState {
          case Idle =>
            if txFifo != [] { txState := Start; }
          case Start =>
            txState := Proc;
            txBit := 0;
            txByte := FifoHead(txFifo);
          case Proc =>
            txByte := txByte.Right(false);
            if txBit == 7 { txState := Stop; } else { txBit := txBit + 1; }
          case Stop =>
            txState := if txFifo != [] then Start else Idle;
        }
      }
    }

    /** The receive registers at a clock edge. */
    method RxEdge(pin: bool)
      requires clocks >= 2 && R.Valid(clocks, Rx())
      modifies `rxSync0, `rxSync1, `rxSync2, `rxBaud, `rxState, `rxBit, `rxByte
      ensures Rx() == R.Step(clocks, old(Rx()), pin)
    {
      var tick := rxBaud == clocks - 1;
      var start := !rxSync1 && rxSync2 && rxState == Idle;
      if tick { rxBaud := 0; } else if start { rxBaud := clocks / 2; } else { rxBaud := rxBaud + 1; }
      if start || tick {
        match rxState {
          case Idle =>
            if start { rxState := Start; }
          case Start =>
            rxByte := ZERO;
            rxBit := 0;
            rxState := if !rxSync2 then Proc else Idle;
          case Proc =>
            rxByte := rxByte.Right(rxSync2);
            if rxBit == 7 { rxState := Stop; } else { rxBit := rxBit + 1; }
          case Stop =>
            rxState := Idle;
        }
      }
      rxSync0, rxSync1, rxSync2 := pin, rxSync0, rxSync1;
    }

    /** The bus response registers at a clock edge. */
    method BusEdge(req: Option<Request>) returns (pop: bool)
      modifies `rdata, `rvalid
      ensures rvalid == req.Some? && pop == RxRead(req)
      ensures rdata ==
        if RxRead(req) then FifoHead(rxFifo).Value()
        else if StatusRead(req) then Status(|txFifo| == txDepth, rxFifo == [])
        else 0
    {
      rvalid := req.Some?;
      rdata := 0;
      pop := false;
      if req.Some? && req.value.enable && !req.value.write {
        if req.value.addr == RX_REG {
          rdata := FifoHead(rxFifo).Value();
          pop := true;
        } else if req.value.addr == STATUS_REG {
          rdata := Status(|txFifo| == txDepth, rxFifo == []);
        }
      }
    }

    /** The transmitting half at a clock edge. */
    method TxClock(write: Option<Byte>)
      requires TxValid()
      modifies `txReady, `txFifo, `txBaud, `txState, `txBit, `txByte, `txTaken, `txGiven, `log
      ensures TxValid() && Tx() == T.Step(clocks, txDepth, old(Tx()), write) && txReady
      ensures txTaken == old(txTaken) + Event(FifoTakes(old(txFifo), txDepth, old(txReady), write))
      ensures log == old(log) + [write]
    {
      hide T.Step, T.At, T.Accepted, T.Logged, T.Pops, FifoNext, FifoTakes, FifoGives, Event;
      T.StepSplits(clocks, txDepth, Tx(), write);
      T.LogStep(clocks, txDepth, log, write);
      var pop := T.Pops(clocks, Tx());
      TxEdge();
      TxFifoEdge(write, pop);
      log := log + [write];
    }

    /** The receiving half at a clock edge. */
    method RxClock(pin: bool, pop: bool)
      requires RxValid()
      modifies `rxReady, `rxFifo, `rxTaken, `rxGiven, `pins
      modifies `rxSync0, `rxSync1, `rxSync2, `rxBaud, `rxState, `rxBit, `rxByte
      ensures RxValid() && Rx() == R.Step(clocks, old(Rx()), pin)
      ensures pins == old(pins) + [pin]
      ensures old(NothingLost()) && !old(Overflows()) ==> NothingLost()
      ensures rxReady && rxFifo == FifoNext(old(rxFifo), rxDepth, old(rxReady), R.Presents(clocks, old(Rx())), pop)
      ensures rxGiven == old(rxGiven) + FifoGives(old(rxFifo), pop)
    {
      hide R.Step, R.At, R.Presented, R.Recorded, R.Presents, FifoNext, FifoTakes, FifoGives, Event, Uart.Rx;
      var push := R.Presents(clocks, Rx());
      R.RecordStep(clocks, pins, pin);
      AllTaken();
      RxEdge(pin);
      RxFifoEdge(push, pop);
      pins := pins + [pin];
    }

    /** Without an overflow the FIFO takes what is presented. */
    lemma AllTaken()
      requires RxValid()
      ensures
        var push := R.Presents(clocks, Rx());
        !Overflows() ==> Event(FifoTakes(rxFifo, rxDepth, rxReady, push)) == Event(push)
    {
    }

    /** One clock edge with at most one bus request and the level of uart_rx_i. */
    method ClockEdge(req: Option<Request>, pin: bool)
      requires Valid()
      modifies this
      ensures Valid()
      ensures Tx() == T.Step(clocks, txDepth, old(Tx()), TxWrite(req))
      ensures Rx() == R.Step(clocks, old(Rx()), pin)
      ensures rxReady && rxFifo == FifoNext(old(rxFifo), rxDepth, old(rxReady), R.Presents(clocks, old(Rx())), RxRead(req))
      ensures txTaken == old(txTaken) + Event(FifoTakes(old(txFifo), txDepth, old(txReady), TxWrite(req)))
      ensures log == old(log) + [TxWrite(req)]
      ensures rxGiven == old(rxGiven) + FifoGives(old(rxFifo), RxRead(req))
      ensures old(Looped()) && pin == T.Line(old(Tx())) ==> Looped()
      ensures old(NothingLost()) && !old(Overflows()) ==> NothingLost()
      ensures rvalid == req.Some?
      ensures !(req.Some? && req.value.addr == 4 && req.value.enable && req.value.write) ==> txTaken == old(txTaken)
      ensures !(req.Some? && req.value.addr == 0 && req.value.enable && !req.value.write) ==> rxGiven == old(rxGiven)
      ensures txReady
      ensures RxRead(req) && old(rxFifo) == [] ==> rdata == 0
      ensures rdata ==
        if RxRead(req) then FifoHead(old(rxFifo)).Value()
        else if StatusRead(req) then Status(|old(txFifo)| == txDepth, old(rxFifo) == [])
        else 0
    {
      hide T.Step, R.Step, T.Line, TxWrite, RxRead, StatusRead, R.Presents;
      hide FifoNext, FifoTakes, FifoGives, FifoHead, Event, Status, AreLine;
      hide Uart.TxValid, Uart.RxValid, Uart.Tx, Uart.Rx, Uart.NothingLost, Uart.Overflows;
      LoopStays(TxWrite(req), pin);
      Decoded(req);
      var pop := BusEdge(req);
      TxClock(TxWrite(req));
      RxClock(pin, pop);
    }

    lemma LoopStays(write: Option<Byte>, pin: bool)
      requires Valid()
      ensures Looped() && pin == T.Line(Tx()) ==> AreLine(clocks, txDepth, log + [write], pins + [pin])
    {
      hide T.At, T.Line, T.Logged, T.Wire, AreLine;
      if Looped() && pin == T.Line(Tx()) {
        StillLooped(clocks, txDepth, log, write, pins, pin);
      }
    }

    /** With uart_tx_o wired to uart_rx_i since reset and no overflow, the bytes received are the bytes sent, in order, one
        behind at most, and none behind once the transmitter has been idle for two cycles. */
    lemma LoopedBack()
      requires Valid() && Looped() && NothingLost() && clocks != 3
      ensures rxTaken <= txGiven <= txTaken && |txGiven| <= |rxTaken| + 1
      ensures txState == Idle && txBaud >= 2 ==> rxTaken == txGiven
    {
      hide T.At, T.Accepted, T.Popped, T.Logged, T.Wire, T.Drives, R.At, R.Presented, R.Recorded;
      var run, n := History(), |log|;
      T.WireDrives(run);
      L.Loopback(run, T.Wire(run), n);
      R.SamePast(clocks, R.Recorded(pins), T.Wire(run), n);
      T.Conservation(run, n);
      SamePrefix(txGiven, T.Popped(run, n), txFifo);
    }

    /** Wired to itself and with no more bytes outstanding than the receive FIFO holds, the device does not overflow. */
    lemma NoOverflow()
      requires Valid() && Looped() && NothingLost() && clocks != 3
      requires |txTaken| <= |rxGiven| + rxDepth
      ensures !Overflows()
    {
      hide T.At, T.Accepted, T.Popped, T.Logged, T.Wire, T.Drives, R.At, R.Presented, R.Recorded, R.Presents;
      var run, n := History(), |log|;
      var wire := T.Wire(run);
      T.WireDrives(run);
      L.Loopback(run, wire, n + 1);
      R.SamePast(clocks, R.Recorded(pins), wire, n);
      OneMore(clocks, wire, n);
      T.Conservation(run, n + 1);
      T.FifoStep(run, n);
    }

    /** Everything the transmit FIFO has taken is on the wire in whole frames, in flight or still in the FIFO. */
    lemma OnTheWire() returns (a: T.Account)
      requires Valid()
      ensures T.Explains(History(), T.Wire(History()), |log|, a)
      ensures txTaken == Bytes(a.symbols) + a.flight + txFifo
    {
      hide T.At, T.Accepted, T.Logged, T.Wire, T.Drives;
      T.WireDrives(History());
      a := T.Transmit(History(), T.Wire(History()), |log|);
    }
  }

  // --- The driver -----------------------------------------------------------------------------------

  /** The processor's side: before its k-th access `gap(k)` clock cycles go by. uart_rx_i is wired to uart_tx_o if `loop`,
      otherwise it is `pin(n)` at cycle n. */
  class Port {
    const uart: Uart
    const gap: nat -> nat
    const loop: bool
    const pin: nat -> bool
    var accesses: nat
    var cycles: nat

    constructor (uart: Uart, gap: nat -> nat, loop: bool, pin: nat -> bool)
      ensures this.uart == uart && this.gap == gap && this.loop == loop && this.pin == pin && accesses == 0 && cycles == 0
    {
      this.uart, this.gap, this.loop, this.pin := uart, gap, loop, pin;
      accesses, cycles := 0, 0;
    }

    function Level(): bool
      reads this, uart
    {
      if loop then T.Line(uart.Tx()) else pin(cycles)
    }

    /** Wired from output to input since reset, and nothing received has been lost. */
    ghost predicate Lossless()
      reads this, uart
    {
      loop && uart.clocks >= 2 && uart.clocks != 3 && uart.Looped() && uart.NothingLost()
    }

    /** It stays so while no more bytes are outstanding than the receive FIFO holds. */
    twostate predicate StaysLossless()
      reads this, uart
    {
      old(Lossless()) && |uart.txTaken| <= |old(uart.rxGiven)| + uart.rxDepth ==> Lossless()
    }

    lemma Guard()
      requires uart.Valid()
      ensures Lossless() && |uart.txTaken| <= |uart.rxGiven| + uart.rxDepth ==> !uart.Overflows()
    {
      hide Uart.Looped, Uart.NothingLost, Uart.Overflows;
      if Lossless() && |uart.txTaken| <= |uart.rxGiven| + uart.rxDepth {
        uart.NoOverflow();
      }
    }

    /** The receive FIFO has kept its contents and perhaps gained some. */
    twostate predicate OnlyReceives()
      reads this, uart
    {
      && uart.rxGiven == old(uart.rxGiven)
      && old(uart.rxFifo) <= uart.rxFifo
    }

    /** `n` cycles in which the processor makes no request. */
    method Idle(n: nat)
      requires uart.Valid()
      modifies this`cycles, uart
      ensures uart.Valid() && StaysLossless()
      ensures uart.txTaken == old(uart.txTaken) && |uart.txFifo| <= |old(uart.txFifo)|
      ensures Work(uart.clocks, uart.Tx()) <= old(Work(uart.clocks, uart.Tx()))
      ensures OnlyReceives() && (old(uart.txReady) ==> uart.txReady)
    {
      hide T.Step, R.Step, Uart.FollowsLog, Uart.FollowsPins, Uart.Looped, Uart.NothingLost, Uart.Overflows, T.Line, Work;
      for i := 0 to n
        invariant uart.Valid() && StaysLossless()
        invariant uart.txTaken == old(uart.txTaken) && |uart.txFifo| <= |old(uart.txFifo)|
        invariant Work(uart.clocks, uart.Tx()) <= old(Work(uart.clocks, uart.Tx()))
        invariant OnlyReceives() && (old(uart.txReady) ==> uart.txReady)
      {
        if uart.txFifo != [] {
          WorkShrinks(uart.clocks, uart.txDepth, uart.Tx());
        } else {
          EmptyStays(uart.clocks, uart.txDepth, uart.Tx());
        }
        Guard();
        uart.ClockEdge(None, Level());
        cycles := cycles + 1;
      }
    }

    /** DEV_READ: the value returned is the one sampled in the request cycle. */
    method ReadStatus() returns (v: nat)
      requires uart.Valid()
      modifies this, uart
      ensures uart.Valid() && StaysLossless()
      ensures uart.txReady && uart.txTaken == old(uart.txTaken) && OnlyReceives()
      ensures old(uart.txFifo) != [] ==> Work(uart.clocks, uart.Tx()) < old(Work(uart.clocks, uart.Tx()))
      ensures v / 2 % 2 == 0 ==> |uart.txFifo| < uart.txDepth
      ensures v / 2 % 2 == 1 ==> old(uart.txFifo) != []
      ensures v % 2 == 0 ==> uart.rxFifo != []
      ensures v % 2 == 1 ==> old(uart.rxFifo) == []
    {
      hide T.Step, R.Step, Uart.FollowsLog, Uart.FollowsPins, Uart.Looped, Uart.NothingLost, Uart.Overflows, T.Line, Status, Work;
      Idle(gap(accesses));
      if uart.txFifo != [] {
        WorkShrinks(uart.clocks, uart.txDepth, uart.Tx());
      } else {
        EmptyStays(uart.clocks, uart.txDepth, uart.Tx());
      }
      Guard();
      uart.ClockEdge(Some(Request(STATUS_REG, false, true, ZERO)), Level());
      accesses, cycles := accesses + 1, cycles + 1;
      v := uart.rdata;
    }

    method ReadRx() returns (v: nat)
      requires uart.Valid()
      modifies this, uart
      ensures uart.Valid() && StaysLossless()
      ensures uart.txTaken == old(uart.txTaken)
      ensures old(uart.rxFifo) != [] ==>
        v == old(uart.rxFifo)[0].Value() && uart.rxGiven == old(uart.rxGiven) + [old(uart.rxFifo)[0]]
    {
      hide T.Step, R.Step, Uart.FollowsLog, Uart.FollowsPins, Uart.Looped, Uart.NothingLost, Uart.Overflows, T.Line;
      Idle(gap(accesses));
      Guard();
      uart.ClockEdge(Some(Request(RX_REG, false, true, ZERO)), Level());
      accesses, cycles := accesses + 1, cycles + 1;
      v := uart.rdata;
    }

    /** DEV_WRITE to the transmit register, not in the cycle after a reset. */
    method WriteTx(c: Byte)
      requires uart.Valid() && uart.txReady && |uart.txFifo| < uart.txDepth
      modifies this, uart
      ensures uart.Valid() && StaysLossless()
      ensures uart.txTaken == old(uart.txTaken) + [c]
      ensures OnlyReceives()
    {
      hide T.Step, R.Step, Uart.FollowsLog, Uart.FollowsPins, Uart.Looped, Uart.NothingLost, Uart.Overflows, T.Line, Work;
      Idle(gap(accesses));
      Guard();
      uart.ClockEdge(Some(Request(TX_REG, true, true, c)), Level());
      accesses, cycles := accesses + 1, cycles + 1;
    }

    /** uart_out: the sole writer never loses a byte, and never waits for ever. */
    method UartOut(c: Byte)
      requires uart.Valid()
      modifies this, uart
      ensures uart.Valid() && StaysLossless()
      ensures uart.txTaken == old(uart.txTaken) + [c]
      ensures OnlyReceives()
    {
      hide Uart.FollowsLog, Uart.FollowsPins, Uart.Looped, Uart.NothingLost, Uart.Overflows, T.Line, Work;
      var status := ReadStatus();
      while status / 2 % 2 == 1
        invariant uart.Valid() && StaysLossless() && uart.txReady && uart.txTaken == old(uart.txTaken)
        invariant status / 2 % 2 == 0 ==> |uart.txFifo| < uart.txDepth
        invariant OnlyReceives()
        decreases if status / 2 % 2 == 1 then 1 else 0, Work(uart.clocks, uart.Tx())
      {
        status := ReadStatus();
      }
      WriteTx(c);
    }

    /** putchar. */
    method PutChar(c: Byte)
      requires uart.Valid()
      modifies this, uart
      ensures uart.Valid() && StaysLossless()
      ensures uart.txTaken == old(uart.txTaken) + Printed(c) && OnlyReceives()
    {
      hide Uart.FollowsLog, Uart.FollowsPins, Uart.Looped, Uart.NothingLost, Uart.Overflows, T.Line;
      if c == NEWLINE {
        UartOut(RETURN);
      }
      UartOut(c);
    }

    /** puts: when it returns, everything ever written, the text up to its zero last, has left in whole frames, is in
        flight or waits in the FIFO. */
    method Puts(str: seq<Byte>) returns (ghost a: T.Account)
      requires uart.Valid()
      modifies this, uart
      ensures uart.Valid() && StaysLossless()
      ensures T.Explains(uart.History(), T.Wire(uart.History()), |uart.log|, a)
      ensures Bytes(a.symbols) + a.flight + uart.txFifo == old(uart.txTaken) + AllPrinted(str) && OnlyReceives()
    {
      hide Uart.TxValid, Uart.RxValid, Uart.Looped, Uart.NothingLost, Printed, T.Explains;
      var next := 0;
      while next < |str| && str[next] != ZERO
        invariant next <= |str| && uart.Valid() && StaysLossless() && OnlyReceives()
        invariant uart.txTaken + AllPrinted(str[next..]) == old(uart.txTaken) + AllPrinted(str)
      {
        ghost var before := uart.txTaken;
        PutChar(str[next]);
        assert str[next..][1..] == str[next + 1..];
        assert before + (Printed(str[next]) + AllPrinted(str[next + 1..])) == uart.txTaken + AllPrinted(str[next + 1..]);
        next := next + 1;
      }
      assert AllPrinted(str[next..]) == [];
      a := uart.OnTheWire();
    }

    /** uart_in: either nothing had arrived, or exactly the oldest byte is taken; wired to the output, and with no
        more bytes outstanding than the receive FIFO holds, that is the next of the bytes uart_out has written. */
    method UartIn() returns (res: int)
      requires uart.Valid()
      modifies this, uart
      ensures uart.Valid() && StaysLossless()
      ensures uart.txTaken == old(uart.txTaken)
      ensures res == EOF ==> old(uart.rxFifo) == [] && uart.rxGiven == old(uart.rxGiven)
      ensures res != EOF ==> |uart.rxGiven| == |old(uart.rxGiven)| + 1
      ensures res != EOF ==> var b := uart.rxGiven[|old(uart.rxGiven)|];
                uart.rxGiven == old(uart.rxGiven) + [b] && res == b.Value()
      ensures old(uart.rxFifo) != [] ==> res == old(uart.rxFifo)[0].Value()
      ensures res != EOF && old(Lossless()) && |uart.txTaken| <= |old(uart.rxGiven)| + uart.rxDepth ==>
                var n := |old(uart.rxGiven)|;
                n < |uart.txTaken| && res == uart.txTaken[n].Value()
    {
      hide Uart.FollowsLog, Uart.FollowsPins, Uart.Looped, Uart.NothingLost;
      res := EOF;
      var status := ReadStatus();
      if status % 2 == 0 {
        res := ReadRx();
        if Lossless() {
          uart.LoopedBack();
        }
      }
    }
  }
}

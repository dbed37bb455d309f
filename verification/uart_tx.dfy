/** The transmitter of rtl/system/uart.sv (lines 227-318), one clock edge at a time. */
module UartTx {
  import opened Wires
  import opened UartFrames

  /** `ready` is false in the first cycle after a reset, in which the FIFO takes nothing. */
  datatype Tx = Tx(ready: bool, fifo: seq<Byte>, baud: nat, state: State, bit: nat, byte: Byte)

  /** One run: ClocksPerBaud, the FIFO depth and, for every cycle, the byte software writes in it. */
  datatype Run = Run(clocks: nat, depth: nat, writes: nat -> Option<Byte>)
  {
    predicate Ok() { clocks >= 2 }
  }

  const RESET := Tx(false, [], 0, Idle, 0, ZERO)

  predicate Valid(clocks: nat, depth: nat, s: Tx)
  {
    && s.baud < clocks
    && s.bit < 8
    && |s.fifo| <= depth
    && (s.state == Start ==> s.fifo != [])
    && (!s.ready ==> s.fifo == [])
  }

  /** The level of uart_tx_o. */
  function Line(s: Tx): bool
  {
    match s.state
    case Idle => true
    case Start => false
    case Proc => s.byte.b0
    case Stop => true
  }

  predicate Tick(clocks: nat, s: Tx) { s.baud + 1 == clocks }

  predicate Pops(clocks: nat, s: Tx) { Tick(clocks, s) && s.state == Start }

  function Step(clocks: nat, depth: nat, s: Tx, write: Option<Byte>): (s': Tx)
    requires Valid(clocks, depth, s)
    ensures Valid(clocks, depth, s') && s'.ready
  {
    var fifo' := FifoNext(s.fifo, depth, s.ready, write, Pops(clocks, s));
    if !Tick(clocks, s) then
      s.(ready := true, fifo := fifo', baud := s.baud + 1)
    else
      var s0 := s.(ready := true, fifo := fifo', baud := 0);
      match s.state
      case Idle => s0.(state := if s.fifo != [] then Start else Idle)
      case Start => s0.(state := Proc, bit := 0, byte := FifoHead(s.fifo))
      case Proc =>
        var s1 := s0.(byte := s.byte.Right(false));
        if s.bit == 7 then s1.(state := Stop) else s1.(bit := s.bit + 1)
      case Stop => s0.(state := if s.fifo != [] then Start else Idle)
  }

  /** The FIFO and the shifter move independently. */
  lemma StepSplits(clocks: nat, depth: nat, s: Tx, write: Option<Byte>)
    requires Valid(clocks, depth, s)
    ensures Step(clocks, depth, s, write) ==
            Step(clocks, depth, s, None).(fifo := FifoNext(s.fifo, depth, s.ready, write, Pops(clocks, s)))
  {
  }

  function At(r: Run, t: nat): (s: Tx)
    requires r.Ok()
    ensures Valid(r.clocks, r.depth, s)
  {
    if t == 0 then RESET else Step(r.clocks, r.depth, At(r, t - 1), r.writes(t - 1))
  }

  /** `line` is what this run puts on the wire. */
  ghost predicate Drives(r: Run, line: nat -> bool)
    requires r.Ok()
  {
    forall t: nat {:trigger line(t)} :: line(t) == Line(At(r, t))
  }

  /** The wire of a run. */
  function Wire(r: Run): nat -> bool
    requires r.Ok()
  {
    (t: nat) => Line(At(r, t))
  }

  lemma WireDrives(r: Run)
    requires r.Ok()
    ensures Drives(r, Wire(r))
  {
  }

  /** Bytes the FIFO has taken in before cycle `t`. */
  function Accepted(r: Run, t: nat): seq<Byte>
    requires r.Ok()
  {
    if t == 0 then []
    else
      var s := At(r, t - 1);
      Accepted(r, t - 1) + Event(FifoTakes(s.fifo, r.depth, s.ready, r.writes(t - 1)))
  }

  /** Bytes that have left the FIFO before cycle `t`. */
  function Popped(r: Run, t: nat): seq<Byte>
    requires r.Ok()
  {
    if t == 0 then []
    else
      var s := At(r, t - 1);
      Popped(r, t - 1) + if Pops(r.clocks, s) then [FifoHead(s.fifo)] else []
  }

  /** One cycle of the FIFO. */
  lemma FifoStep(r: Run, t: nat)
    requires r.Ok()
    ensures
      var s, write := At(r, t), r.writes(t);
      && At(r, t + 1).fifo == FifoNext(s.fifo, r.depth, s.ready, write, Pops(r.clocks, s))
      && Accepted(r, t + 1) == Accepted(r, t) + Event(FifoTakes(s.fifo, r.depth, s.ready, write))
      && Popped(r, t + 1) == Popped(r, t) + FifoGives(s.fifo, Pops(r.clocks, s))
  {
    hide FifoNext, FifoTakes, Event;
  }

  lemma {:induction false} Conservation(r: Run, t: nat)
    requires r.Ok()
    ensures Accepted(r, t) == Popped(r, t) + At(r, t).fifo
  {
    if t == 0 {
      assert Popped(r, 0) == [];
    } else {
      hide At, Accepted, Popped, Pops;
      Conservation(r, t - 1);
      FifoStep(r, t - 1);
      var s := At(r, t - 1);
      FifoAccount(s.fifo, r.depth, s.ready, r.writes(t - 1), Pops(r.clocks, s), Accepted(r, t - 1), Popped(r, t - 1));
    }
  }

  // --- Runs cycle by cycle --------------------------------------------------------------------------

  /** The run in which software has written what the log says and nothing since. */
  function Logged(clocks: nat, depth: nat, log: seq<Option<Byte>>): (r: Run)
    ensures r.clocks == clocks && r.depth == depth
    ensures forall t: nat :: r.writes(t) == if t < |log| then log[t] else None
  {
    Run(clocks, depth, (t: nat) => if t < |log| then log[t] else None)
  }

  /** What is written later does not change what has happened. */
  lemma {:induction false} LogExtends(clocks: nat, depth: nat, log: seq<Option<Byte>>, write: Option<Byte>, t: nat)
    requires clocks >= 2 && t <= |log|
    ensures At(Logged(clocks, depth, log + [write]), t) == At(Logged(clocks, depth, log), t)
    ensures Accepted(Logged(clocks, depth, log + [write]), t) == Accepted(Logged(clocks, depth, log), t)
  {
    hide Logged, Step, FifoTakes;
    if t == 0 {
      assert At(Logged(clocks, depth, log), 0) == RESET;
    } else {
      LogExtends(clocks, depth, log, write, t - 1);
      assert (log + [write])[t - 1] == log[t - 1];
    }
  }

  /** One more cycle. */
  lemma LogStep(clocks: nat, depth: nat, log: seq<Option<Byte>>, write: Option<Byte>)
    requires clocks >= 2
    ensures
      var r, r' := Logged(clocks, depth, log), Logged(clocks, depth, log + [write]);
      var s := At(r, |log|);
      && At(r', |log + [write]|) == Step(clocks, depth, s, write)
      && Accepted(r', |log + [write]|) == Accepted(r, |log|) + Event(FifoTakes(s.fifo, depth, s.ready, write))
  {
    hide Logged, Step, FifoTakes, Event;
    LogExtends(clocks, depth, log, write, |log|);
    assert (log + [write])[|log|] == write;
  }

  // --- Frames on the wire -------------------------------------------------------------------------

  /** A byte shifted right `k` places. */
  function Shifted(b: Byte, k: nat): Byte
  {
    if k == 0 then b else Shifted(b, k - 1).Right(false)
  }

  lemma {:induction false} ShiftedBit(b: Byte, k: nat, i: nat)
    requires k + i < 8
    ensures Shifted(b, k).Bit(i) == b.Bit(k + i)
  {
    if k == 0 {
    } else {
      ShiftedBit(b, k - 1, i + 1);
    }
  }

  ghost predicate AtBoundary(r: Run, t: nat)
    requires r.Ok()
  {
    At(r, t).state in {Idle, Start} && At(r, t).baud == 0
  }

  /** A cycle without a tick. */
  lemma QuietStep(r: Run, t: nat)
    requires r.Ok() && !Tick(r.clocks, At(r, t))
    ensures
      var s, s' := At(r, t), At(r, t + 1);
      && s'.state == s.state && s'.bit == s.bit && s'.byte == s.byte && s'.baud == s.baud + 1 && s.fifo <= s'.fifo
    ensures Popped(r, t + 1) == Popped(r, t)
  {
  }

  /** Until the end of its slot the machine keeps its state and its shifter, and pops nothing. */
  lemma {:induction false} Hold(r: Run, t: nat, i: nat)
    requires r.Ok() && At(r, t).baud == 0 && i < r.clocks
    ensures
      var s, s' := At(r, t), At(r, t + i);
      s'.state == s.state && s'.bit == s.bit && s'.byte == s.byte && s'.baud == i && s.fifo <= s'.fifo
    ensures Popped(r, t + i) == Popped(r, t)
  {
    hide At, Popped;
    if i == 0 {
    } else {
      Hold(r, t, i - 1);
      QuietStep(r, t + i - 1);
    }
  }

  /** A cycle with a tick. */
  lemma TickStep(r: Run, t: nat)
    requires r.Ok() && Tick(r.clocks, At(r, t))
    ensures
      var s, s' := At(r, t), At(r, t + 1);
      && s'.baud == 0
      && (s.state in {Idle, Stop} ==> s'.state == if s.fifo != [] then Start else Idle)
      && (s.state == Start ==> s'.state == Proc && s'.bit == 0 && s'.byte == s.fifo[0])
      && (s.state == Proc && s.bit < 7 ==> s'.state == Proc && s'.bit == s.bit + 1 && s'.byte == s.byte.Right(false))
      && (s.state == Proc && s.bit == 7 ==> s'.state == Stop)
    ensures Popped(r, t + 1) == Popped(r, t) + if At(r, t).state == Start then [At(r, t).fifo[0]] else []
  {
    hide FifoNext, Byte.Right;
  }

  /** What the tick that ends a slot does. */
  lemma SlotEnd(r: Run, t: nat)
    requires r.Ok() && At(r, t).baud == 0
    ensures
      var s, s' := At(r, t), At(r, t + r.clocks);
      && s'.baud == 0
      && (s.state in {Idle, Stop} ==> s'.state == if At(r, t + r.clocks - 1).fifo != [] then Start else Idle)
      && (s.state == Start ==> s'.state == Proc && s'.bit == 0 && s'.byte == s.fifo[0])
      && (s.state == Proc && s.bit < 7 ==> s'.state == Proc && s'.bit == s.bit + 1 && s'.byte == s.byte.Right(false))
      && (s.state == Proc && s.bit == 7 ==> s'.state == Stop)
    ensures Popped(r, t + r.clocks) == Popped(r, t) + if At(r, t).state == Start then [At(r, t).fifo[0]] else []
  {
    hide At, Popped, Byte.Right;
    Hold(r, t, r.clocks - 1);
    TickStep(r, t + r.clocks - 1);
  }

  lemma SlotLevel(r: Run, line: nat -> bool, t: nat)
    requires r.Ok() && Drives(r, line) && At(r, t).baud == 0
    ensures Level(line, t, t + r.clocks, Line(At(r, t)))
  {
    hide At;
    forall u: nat | t <= u < t + r.clocks
      ensures line(u) == Line(At(r, t))
    {
      Hold(r, t, u - t);
    }
  }

  /** Where the machine stands at the beginning of slot `j` of the frame of `b` that starts at `t`. */
  ghost predicate InFrame(r: Run, t: nat, b: Byte, j: nat)
    requires r.Ok()
  {
    var s := At(r, Slot(t, r.clocks, j));
    && s.baud == 0
    && s.state == (if j == 0 then Start else if j <= 8 then Proc else Stop)
    && (1 <= j <= 8 ==> s.bit == j - 1 && s.byte == Shifted(b, j - 1))
    && (j == 0 ==> s.fifo[0] == b)
    && Popped(r, Slot(t, r.clocks, j)) == Popped(r, t) + if j == 0 then [] else [b]
  }

  ghost predicate Starts(r: Run, t: nat, b: Byte)
    requires r.Ok()
  {
    At(r, t).state == Start && At(r, t).baud == 0 && At(r, t).fifo[0] == b
  }

  lemma {:induction false} FrameSlot(r: Run, t: nat, b: Byte, j: nat)
    requires r.Ok() && j < 10 && Starts(r, t, b)
    ensures InFrame(r, t, b, j)
  {
    hide At, Popped;
    if j == 0 {
    } else {
      FrameSlot(r, t, b, j - 1);
      SlotEnd(r, Slot(t, r.clocks, j - 1));
    }
  }

  /** A START state at the beginning of a slot puts one whole frame of the FIFO's head on the wire and
      pops that byte once. */
  lemma FrameEnd(r: Run, line: nat -> bool, t: nat, b: Byte)
    requires r.Ok() && Drives(r, line) && Starts(r, t, b)
    ensures CarriesFrame(line, t, r.clocks, b)
    ensures AtBoundary(r, t + 10 * r.clocks)
    ensures At(r, t + 10 * r.clocks).state == if At(r, t + 10 * r.clocks - 1).fifo != [] then Start else Idle
    ensures Popped(r, t + 10 * r.clocks) == Popped(r, t) + [b]
  {
    hide At, Popped;
    forall j: nat | j < 10
      ensures Level(line, Slot(t, r.clocks, j), Slot(t, r.clocks, j) + r.clocks, FrameBit(b, j))
    {
      FrameSlot(r, t, b, j);
      SlotLevel(r, line, Slot(t, r.clocks, j));
      if 1 <= j <= 8 {
        ShiftedBit(b, j - 1, 0);
      }
    }
    FrameSlot(r, t, b, 9);
    SlotIs(t, r.clocks, 9);
    SlotEnd(r, Slot(t, r.clocks, 9));
  }

  // --- Main results -------------------------------------------------------------------------------

  /** What has happened by some time: the wire up to `start` is whole gaps and frames; after `start`
      it is part of one more gap or of the frame of the byte in flight. */
  datatype Account = Account(start: nat, symbols: seq<Symbol>, flight: seq<Byte>)

  ghost predicate Explains(r: Run, line: nat -> bool, t: nat, a: Account)
    requires r.Ok()
  {
    var s := At(r, t);
    && a.start <= t
    && Carries(line, r.clocks, a.symbols, a.start)
    && Accepted(r, t) == Bytes(a.symbols) + a.flight + s.fifo
    && if s.state in {Idle, Start} then
         && a.flight == []
         && t - a.start == s.baud
         && Level(line, a.start, t, s.state == Idle)
       else
         && |a.flight| == 1
         && r.clocks <= t - a.start < 10 * r.clocks
         && CarriesFrame(line, a.start, r.clocks, a.flight[0])
  }

  /** Conservation and framing: at every time of every run, the bytes accepted are the bytes whose
      frames have left, then the byte in the shifter, then the FIFO; and the wire carries exactly
      those frames. */
  lemma Transmit(r: Run, line: nat -> bool, t: nat) returns (a: Account)
    requires r.Ok() && Drives(r, line)
    ensures Explains(r, line, t, a)
  {
    a := TransmitFrom(r, line, t, 0, []);
  }

  lemma {:induction false} TransmitFrom(r: Run, line: nat -> bool, t: nat, start: nat, symbols: seq<Symbol>)
    returns (a: Account)
    requires r.Ok() && Drives(r, line) && start <= t && AtBoundary(r, start)
    requires Carries(line, r.clocks, symbols, start) && Bytes(symbols) == Popped(r, start)
    ensures Explains(r, line, t, a)
    decreases t - start
  {
    hide At, Popped, Accepted;
    var c := r.clocks;
    var s := At(r, start);
    SlotLevel(r, line, start);
    if t < start + c {
      Hold(r, start, t - start);
      Conservation(r, t);
      a := Account(start, symbols, []);
    } else if s.state == Idle {
      SlotEnd(r, start);
      assert (symbols + [Gap])[..|symbols|] == symbols;
      a := TransmitFrom(r, line, t, start + c, symbols + [Gap]);
    } else {
      var b := s.fifo[0];
      FrameEnd(r, line, start, b);
      if t < start + 10 * c {
        a := TransmitInFrame(r, line, t, start, symbols, b);
      } else {
        assert (symbols + [Frame(b)])[..|symbols|] == symbols;
        a := TransmitFrom(r, line, t, start + 10 * c, symbols + [Frame(b)]);
      }
    }
  }

  /** Inside a frame, after its start bit. */
  lemma InsideFrame(r: Run, t: nat, start: nat, b: Byte)
    requires r.Ok() && Starts(r, start, b) && start + r.clocks <= t < start + 10 * r.clocks
    ensures At(r, t).state in {Proc, Stop}
    ensures Popped(r, t) == Popped(r, start) + [b]
  {
    hide At, Popped;
    SlotIs(start, r.clocks, 10);
    var j := InSomeSlot(start, r.clocks, 10, t);
    FrameSlot(r, start, b, j);
    Hold(r, Slot(start, r.clocks, j), t - Slot(start, r.clocks, j));
  }

  lemma TransmitInFrame(r: Run, line: nat -> bool, t: nat, start: nat, symbols: seq<Symbol>, b: Byte)
    returns (a: Account)
    requires r.Ok() && Starts(r, start, b) && start + r.clocks <= t < start + 10 * r.clocks
    requires Carries(line, r.clocks, symbols, start) && Bytes(symbols) == Popped(r, start)
    requires CarriesFrame(line, start, r.clocks, b)
    ensures Explains(r, line, t, a)
  {
    hide At, Popped, Accepted;
    InsideFrame(r, t, start, b);
    Conservation(r, t);
    a := Account(start, symbols, [b]);
  }
}

/** uart_tx_o wired to uart_rx_i: transmitter and receiver of rtl/system/uart.sv undo each other. */
module UartLoopback {
  import opened Wires
  import opened UartFrames
  import T = UartTx
  import R = UartRx

  /** `line` joins the two halves. With three clocks a bit the first start edge coincides with the free-running
      receive tick, which restarts the baud counter at 0 instead of half-way. */
  ghost predicate Looped(r: T.Run, line: nat -> bool)
  {
    r.Ok() && r.clocks != 3 && T.Drives(r, line)
  }

  /** At the first cycle of a slot that begins a gap or a frame the receiver, two cycles later, is idle, off its
      tick and has presented all that was popped. */
  ghost predicate InStep(r: T.Run, line: nat -> bool, t: nat)
    requires Looped(r, line)
  {
    var s := R.At(r.clocks, line, t + 2);
    && T.AtBoundary(r, t)
    && (t == 0 || line(t - 1))
    && (t == 0 ==> T.At(r, t).state == Idle)
    && s.state == Idle
    && !R.Tick(r.clocks, s)
    && R.Presented(r.clocks, line, t + 2) == T.Popped(r, t)
  }

  /** The claim at one instant: in order, nothing twice, at most one byte behind, and nothing behind once the
      transmitter has been idle for two cycles. */
  ghost predicate Faithful(r: T.Run, line: nat -> bool, t: nat)
    requires r.Ok()
  {
    var sent, got := T.Popped(r, t), R.Presented(r.clocks, line, t);
    && got <= sent
    && |sent| <= |got| + 1
    && (T.At(r, t).state == Idle && T.At(r, t).baud >= 2 ==> got == sent)
  }

  lemma InStepAtReset(r: T.Run, line: nat -> bool)
    requires Looped(r, line)
    ensures InStep(r, line, 0)
    ensures Faithful(r, line, 0) && Faithful(r, line, 1)
  {
    var s0, s1 := R.At(r.clocks, line, 0), R.At(r.clocks, line, 1);
    assert s1.state == Idle && !s1.q1;
    assert R.Presented(r.clocks, line, 1) == [];
    assert T.Popped(r, 1) == [];
  }

  /** A gap keeps the halves in step. */
  lemma Gap(r: T.Run, line: nat -> bool, t: nat)
    requires Looped(r, line) && InStep(r, line, t) && T.At(r, t).state == Idle
    ensures InStep(r, line, t + r.clocks)
    ensures T.Popped(r, t + r.clocks) == T.Popped(r, t)
  {
    hide T.At, T.Popped, R.At, R.Presented;
    var c := r.clocks;
    T.SlotEnd(r, t);
    T.SlotLevel(r, line, t);
    assert line(t + c - 1);
    var u := t + 2 + c - 1 - R.At(c, line, t + 2).baud;
    R.ToTick(c, line, t + 2, u);
    R.Coast(c, line, u + 1, t + c + 2 - (u + 1));
  }

  /** A frame keeps the halves in step. */
  lemma FrameStep(r: T.Run, line: nat -> bool, t: nat, b: Byte)
    requires Looped(r, line) && InStep(r, line, t) && T.Starts(r, t, b)
    ensures InStep(r, line, t + 10 * r.clocks)
    ensures R.Arrives(r.clocks, r.clocks / 2, line, t, r.clocks, b)
    ensures T.Popped(r, t + 10 * r.clocks) == T.Popped(r, t) + [b]
  {
    hide T.At, T.Popped, R.At, R.Presented;
    var c := r.clocks;
    T.FrameEnd(r, line, t, b);
    R.Receive(c, c / 2, line, t, c, b);
    SlotIs(t, c, 9);
    assert Level(line, Slot(t, c, 9), Slot(t, c, 9) + c, FrameBit(b, 9));
    assert line(t + 10 * c - 1);
    R.Coast(c, line, R.Done(c, c / 2, t), t + 10 * c + 2 - R.Done(c, c / 2, t));
  }

  /** Popping cannot happen in the first cycle of a slot. */
  lemma StillPopped(r: T.Run, t: nat, u: nat)
    requires r.Ok() && T.AtBoundary(r, t) && t <= u < t + 2
    ensures T.Popped(r, u) == T.Popped(r, t)
    ensures T.At(r, u).baud < 2
  {
    hide T.At, T.Popped;
    T.Hold(r, t, u - t);
  }

  lemma FaithfulInGap(r: T.Run, line: nat -> bool, t: nat, u: nat)
    requires Looped(r, line) && InStep(r, line, t) && T.At(r, t).state == Idle
    requires t + 2 <= u < t + r.clocks + 2
    ensures Faithful(r, line, u)
  {
    hide T.At, T.Popped, R.At, R.Presented;
    Gap(r, line, t);
    R.PresentedGrows(r.clocks, line, t + 2, u);
    R.PresentedGrows(r.clocks, line, u, t + r.clocks + 2);
    if u < t + r.clocks {
      T.Hold(r, t, u - t);
    } else {
      StillPopped(r, t + r.clocks, u);
    }
  }

  lemma FaithfulInFrame(r: T.Run, line: nat -> bool, t: nat, b: Byte, u: nat)
    requires Looped(r, line) && InStep(r, line, t) && T.Starts(r, t, b)
    requires t + 2 <= u < t + 10 * r.clocks + 2
    ensures Faithful(r, line, u)
  {
    hide T.At, T.Popped, R.At, R.Presented;
    var c := r.clocks;
    FrameStep(r, line, t, b);
    R.Receive(c, c / 2, line, t, c, b);
    if R.Done(c, c / 2, t) <= u {
      R.PresentedGrows(c, line, R.Done(c, c / 2, t), u);
      R.PresentedGrows(c, line, u, t + 10 * c + 2);
    }
    if u < t + c {
      T.Hold(r, t, u - t);
    } else if u < t + 10 * c {
      T.InsideFrame(r, u, t, b);
    } else {
      StillPopped(r, t + 10 * c, u);
    }
  }

  lemma {:induction false} LoopFrom(r: T.Run, line: nat -> bool, t: nat, u: nat)
    requires Looped(r, line) && InStep(r, line, t) && t + 2 <= u
    ensures Faithful(r, line, u)
    decreases u - t
  {
    hide T.At, T.Popped, R.At, R.Presented;
    if T.At(r, t).state == Idle {
      if u < t + r.clocks + 2 {
        FaithfulInGap(r, line, t, u);
      } else {
        Gap(r, line, t);
        LoopFrom(r, line, t + r.clocks, u);
      }
    } else {
      var b := T.At(r, t).fifo[0];
      if u < t + 10 * r.clocks + 2 {
        FaithfulInFrame(r, line, t, b, u);
      } else {
        FrameStep(r, line, t, b);
        LoopFrom(r, line, t + 10 * r.clocks, u);
      }
    }
  }

  /** Loopback: in every run from a common reset, at every cycle, whatever software writes and when. */
  lemma Loopback(r: T.Run, line: nat -> bool, t: nat)
    requires Looped(r, line)
    ensures Faithful(r, line, t)
  {
    InStepAtReset(r, line);
    if t >= 2 {
      LoopFrom(r, line, 0, t);
    }
  }

  // --- Three clocks a bit -------------------------------------------------------------------------

  const ONES := Byte(true, true, true, true, true, true, true, true)

  /** Two bytes written as soon as the FIFO takes them after reset, at three clocks a bit. */
  function TwoBytes(): (r: T.Run)
    ensures r.clocks == 3 && r.Ok()
  {
    T.Run(3, 2, (t: nat) => if t == 1 then Some(ZERO) else if t == 2 then Some(ONES) else None)
  }

  lemma {:induction false} TwoAccepted(t: nat)
    requires t >= 3
    ensures T.Accepted(TwoBytes(), t) == [ZERO, ONES]
  {
    var r := TwoBytes();
    if t == 3 {
      assert T.At(r, 1).fifo == [];
      assert T.At(r, 2).fifo == [ZERO];
      assert T.Accepted(r, 2) == [ZERO];
    } else {
      TwoAccepted(t - 1);
    }
  }

  lemma FirstStart()
    ensures T.Starts(TwoBytes(), 3, ZERO) && T.At(TwoBytes(), 3).fifo == [ZERO, ONES]
    ensures T.At(TwoBytes(), 0) == T.RESET
  {
    var r := TwoBytes();
    assert T.At(r, 1).fifo == [];
    assert T.At(r, 2).state == Idle && T.At(r, 2).baud == 2 && T.At(r, 2).fifo == [ZERO];
  }

  lemma TwoFrames(line: nat -> bool)
    requires T.Drives(TwoBytes(), line)
    ensures T.Starts(TwoBytes(), 3, ZERO) && CarriesFrame(line, 3, 3, ZERO) && Level(line, 0, 3, true)
    ensures T.Starts(TwoBytes(), 33, ONES) && CarriesFrame(line, 33, 3, ONES)
    ensures T.Popped(TwoBytes(), 65) == [ZERO, ONES]
    ensures T.At(TwoBytes(), 65).state == Idle && T.At(TwoBytes(), 65).baud == 2
  {
    hide T.At, T.Popped, T.Accepted;
    var r := TwoBytes();
    FirstStart();
    T.SlotLevel(r, line, 0);
    T.Conservation(r, 3);
    TwoAccepted(3);
    assert T.Popped(r, 3) == [];
    T.FrameEnd(r, line, 3, ZERO);
    T.InsideFrame(r, 32, 3, ZERO);
    T.Conservation(r, 32);
    TwoAccepted(32);
    assert T.At(r, 32).fifo == [ZERO, ONES][1..];
    T.Conservation(r, 33);
    TwoAccepted(33);
    assert T.At(r, 33).fifo == [ZERO, ONES][1..];
    T.FrameEnd(r, line, 33, ONES);
    T.InsideFrame(r, 62, 33, ONES);
    T.Conservation(r, 62);
    TwoAccepted(62);
    assert T.At(r, 62).fifo == [];
    T.Hold(r, 63, 2);
  }

  lemma OnesAreHigh(line: nat -> bool)
    requires CarriesFrame(line, 33, 3, ONES)
    ensures Level(line, 36, 63, true) && !line(33) && !line(34) && !line(35)
  {
    SlotIs(33, 3, 10);
    forall t: nat | 33 <= t < 63
      ensures line(t) == (t >= 36)
    {
      var j := InSomeSlot(33, 3, 10, t);
      SlotIs(33, 3, j);
      assert Level(line, Slot(33, 3, j), Slot(33, 3, j) + 3, FrameBit(ONES, j));
    }
  }

  /** The first start edge falls on the free-running tick. */
  lemma FirstEdgeCollides(line: nat -> bool)
    requires Level(line, 0, 3, true)
    ensures R.At(3, line, 5).state == Idle && R.Tick(3, R.At(3, line, 5)) && R.Presented(3, line, 5) == []
  {
    var s := R.At(3, line, 3);
    assert R.At(3, line, 1).state == Idle && R.At(3, line, 2).state == Idle && R.At(3, line, 2).baud == 2;
    assert s.state == Idle && s.baud == 0;
    assert R.Presented(3, line, 1) == [] && R.Presented(3, line, 3) == [];
    R.Coast(3, line, 3, 2);
  }

  /** So the first frame ends one cycle after the second one's start edge has gone by. */
  lemma SecondEdgeMissed(line: nat -> bool)
    requires CarriesFrame(line, 33, 3, ONES) && R.At(3, line, 36).state == Idle
    ensures R.Presented(3, line, 65) == R.Presented(3, line, 36)
  {
    hide R.At, R.Presented, CarriesFrame;
    OnesAreHigh(line);
    R.StayIdle(3, line, 36, 65);
  }

  /** The limit on the clock ratio is needed: with three clocks a bit the second of two back-to-back bytes is lost. */
  lemma ThreeClocksLoseAByte(line: nat -> bool)
    requires T.Drives(TwoBytes(), line)
    ensures T.Popped(TwoBytes(), 65) == [ZERO, ONES]
    ensures R.Presented(3, line, 65) == [ZERO]
    ensures !Faithful(TwoBytes(), line, 65)
  {
    hide T.At, T.Popped, R.At, R.Presented;
    TwoFrames(line);
    FirstEdgeCollides(line);
    R.Receive(3, 0, line, 3, 3, ZERO);
    SecondEdgeMissed(line);
  }

  /** Every run at this clock ratio is faithful at every cycle. */
  ghost predicate AlwaysFaithful(clocks: nat)
  {
    forall r: T.Run, line: nat -> bool, t: nat {:trigger Faithful(r, line, t)} ::
      r.clocks == clocks && r.Ok() && T.Drives(r, line) ==> Faithful(r, line, t)
  }

  lemma ThreeIsNot()
    ensures !AlwaysFaithful(3)
  {
    hide T.Drives, T.Wire, Faithful, TwoBytes;
    var r := TwoBytes();
    T.WireDrives(r);
    ThreeClocksLoseAByte(T.Wire(r));
  }

  /** Exactly which clock ratios loop back: all from two on except three. */
  lemma LoopbackIff(clocks: nat)
    requires clocks >= 2
    ensures AlwaysFaithful(clocks) <==> clocks != 3
  {
    hide T.Drives, Faithful;
    ThreeIsNot();
    if clocks != 3 {
      forall r: T.Run, line: nat -> bool, t: nat | r.clocks == clocks && r.Ok() && T.Drives(r, line)
        ensures Faithful(r, line, t)
      {
        Loopback(r, line, t);
      }
    }
  }
}

/** The receiver of rtl/system/uart.sv (lines 120-225), one clock edge at a time. */
module UartRx {
  import opened Wires
  import opened UartFrames

  /** q0, q1, q2 are the three synchroniser stages rx_q[0], rx_q[1], rx_q[2]. */
  datatype Rx = Rx(q0: bool, q1: bool, q2: bool, baud: nat, state: State, bit: nat, byte: Byte)

  const RESET := Rx(false, false, false, 0, Idle, 0, ZERO)

  predicate Valid(clocks: nat, s: Rx)
  {
    s.baud < clocks && s.bit < 8
  }

  predicate Tick(clocks: nat, s: Rx) { s.baud + 1 == clocks }

  /** rx_start: a falling edge seen while idle. */
  predicate StartEdge(s: Rx) { !s.q1 && s.q2 && s.state == Idle }

  /** What rx_fifo_wvalid offers to the receive FIFO in this cycle. */
  function Presents(clocks: nat, s: Rx): Option<Byte>
  {
    if Tick(clocks, s) && s.state == Stop && s.q2 then Some(s.byte) else None
  }

  function Step(clocks: nat, s: Rx, pin: bool): (s': Rx)
    requires clocks >= 2 && Valid(clocks, s)
    ensures Valid(clocks, s')
  {
    var tick := Tick(clocks, s);
    var s0 := s.(q0 := pin, q1 := s.q0, q2 := s.q1,
                 baud := if tick then 0 else if StartEdge(s) then clocks / 2 else s.baud + 1);
    if !(StartEdge(s) || tick) then s0
    else
      match s.state
      case Idle => s0.(state := if StartEdge(s) then Start else Idle)
      case Start => s0.(byte := ZERO, bit := 0, state := if !s.q2 then Proc else Idle)
      case Proc =>
        var s1 := s0.(byte := s.byte.Right(s.q2));
        if s.bit == 7 then s1.(state := Stop) else s1.(bit := s.bit + 1)
      case Stop => s0.(state := Idle)
  }

  function At(clocks: nat, line: nat -> bool, t: nat): (s: Rx)
    requires clocks >= 2
    ensures Valid(clocks, s)
  {
    if t == 0 then RESET else Step(clocks, At(clocks, line, t - 1), line(t - 1))
  }

  /** The bytes presented before cycle `t`. */
  function Presented(clocks: nat, line: nat -> bool, t: nat): seq<Byte>
    requires clocks >= 2
  {
    if t == 0 then []
    else Presented(clocks, line, t - 1) + Event(Presents(clocks, At(clocks, line, t - 1)))
  }

  /** The wire that had the recorded levels and has been low since. */
  function Recorded(pins: seq<bool>): (line: nat -> bool)
    ensures forall t: nat {:trigger line(t)} | t < |pins| :: line(t) == pins[t]
  {
    (t: nat) => t < |pins| && pins[t]
  }

  /** The receiver depends on the past of the wire only. */
  lemma {:induction false} SamePast(clocks: nat, line: nat -> bool, other: nat -> bool, t: nat)
    requires clocks >= 2 && forall u: nat {:trigger line(u)} {:trigger other(u)} | u < t :: line(u) == other(u)
    ensures At(clocks, line, t) == At(clocks, other, t) && Presented(clocks, line, t) == Presented(clocks, other, t)
  {
    hide Step, Presents, Event;
    if t == 0 {
      assert At(clocks, line, 0) == RESET;
    } else {
      SamePast(clocks, line, other, t - 1);
      assert line(t - 1) == other(t - 1);
    }
  }

  /** One more recorded cycle. */
  lemma RecordStep(clocks: nat, pins: seq<bool>, pin: bool)
    requires clocks >= 2
    ensures
      var line, line' := Recorded(pins), Recorded(pins + [pin]);
      var s := At(clocks, line, |pins|);
      && At(clocks, line', |pins + [pin]|) == Step(clocks, s, pin)
      && Presented(clocks, line', |pins + [pin]|) == Presented(clocks, line, |pins|) + Event(Presents(clocks, s))
  {
    hide Step, Presents, Event, Recorded;
    var line, line' := Recorded(pins), Recorded(pins + [pin]);
    forall u: nat | u < |pins|
      ensures line(u) == line'(u)
    {
      assert (pins + [pin])[u] == pins[u];
    }
    SamePast(clocks, line, line', |pins|);
    assert line'(|pins|) == pin;
  }

  // --- Steps of the machine -----------------------------------------------------------------------

  /** The synchroniser delays the pin by one, two and three cycles. */
  lemma {:induction false} Pipeline(clocks: nat, line: nat -> bool, t: nat)
    requires clocks >= 2
    ensures
      var s := At(clocks, line, t);
      s.q0 == (t >= 1 && line(t - 1)) && s.q1 == (t >= 2 && line(t - 2)) && s.q2 == (t >= 3 && line(t - 3))
  {
    hide Byte.Right;
    if t == 0 {
    } else {
      Pipeline(clocks, line, t - 1);
    }
  }

  /** Between ticks nothing moves but the baud counter, unless an idle machine sees a start edge. */
  lemma {:induction false} Coast(clocks: nat, line: nat -> bool, t: nat, n: nat)
    requires clocks >= 2 && At(clocks, line, t).baud + n < clocks
    requires At(clocks, line, t).state != Idle || (t >= 2 && Level(line, t - 2, t + n - 2, true))
    ensures
      var s, s' := At(clocks, line, t), At(clocks, line, t + n);
      s'.baud == s.baud + n && s'.state == s.state && s'.bit == s.bit && s'.byte == s.byte
    ensures Presented(clocks, line, t + n) == Presented(clocks, line, t)
    decreases n
  {
    hide At, Presented;
    if n == 0 {
    } else {
      Coast(clocks, line, t, n - 1);
      Pipeline(clocks, line, t + n - 1);
      QuietStep(clocks, line, t + n - 1);
    }
  }

  lemma QuietStep(clocks: nat, line: nat -> bool, t: nat)
    requires clocks >= 2 && !Tick(clocks, At(clocks, line, t)) && !StartEdge(At(clocks, line, t))
    ensures
      var s, s' := At(clocks, line, t), At(clocks, line, t + 1);
      s'.baud == s.baud + 1 && s'.state == s.state && s'.bit == s.bit && s'.byte == s.byte
    ensures Presented(clocks, line, t + 1) == Presented(clocks, line, t)
  {
  }

  /** Running to the next tick and through it. */
  lemma ToTick(clocks: nat, line: nat -> bool, t: nat, u: nat)
    requires clocks >= 2 && u >= 3 && u == t + clocks - 1 - At(clocks, line, t).baud
    requires At(clocks, line, t).state != Idle || (t >= 2 && Level(line, t - 2, u - 1, true))
    ensures
      var s, s', v := At(clocks, line, t), At(clocks, line, u + 1), line(u - 3);
      && s'.baud == 0
      && (s.state == Idle ==> s'.state == Idle)
      && (s.state == Start ==> s'.bit == 0 && s'.state == if v then Idle else Proc)
      && (s.state == Proc ==> s'.byte == s.byte.Right(v))
      && (s.state == Proc && s.bit < 7 ==> s'.state == Proc && s'.bit == s.bit + 1)
      && (s.state == Proc && s.bit == 7 ==> s'.state == Stop)
      && (s.state == Stop ==> s'.state == Idle)
    ensures
      var s := At(clocks, line, t);
      Presented(clocks, line, u + 1) == Presented(clocks, line, t) + if s.state == Stop && line(u - 3) then [s.byte] else []
  {
    Coast(clocks, line, t, u - t);
    Pipeline(clocks, line, u);
  }

  predicate Falls(line: nat -> bool, t: nat)
  {
    t >= 1 && line(t - 1) && !line(t)
  }

  /** An idle machine that sees no falling edge stays idle and presents nothing. */
  lemma {:induction false} StayIdle(clocks: nat, line: nat -> bool, t: nat, u: nat)
    requires clocks >= 2 && 2 <= t <= u && At(clocks, line, t).state == Idle
    requires forall v: nat | t - 2 <= v < u - 2 :: !Falls(line, v)
    ensures At(clocks, line, u).state == Idle && Presented(clocks, line, u) == Presented(clocks, line, t)
  {
    if t == u {
    } else {
      StayIdle(clocks, line, t, u - 1);
      Pipeline(clocks, line, u - 1);
      assert !Falls(line, u - 3);
    }
  }

  lemma {:induction false} PresentedGrows(clocks: nat, line: nat -> bool, t: nat, u: nat)
    requires clocks >= 2 && t <= u
    ensures Presented(clocks, line, t) <= Presented(clocks, line, u)
  {
    if t == u {
    } else {
      PresentedGrows(clocks, line, t, u - 1);
    }
  }

  // --- Receiving one frame ------------------------------------------------------------------------

  /** What the baud counter holds after a start edge: half a bit, unless the edge falls on a free-running tick. */
  function Lead(clocks: nat, s: Rx): (lead: nat)
    requires clocks >= 2
    ensures lead < clocks
  {
    if Tick(clocks, s) then 0 else clocks / 2
  }

  /** The cycle in which slot `j` of a frame whose start bit begins at `t0` is sampled. */
  function Sample(clocks: nat, lead: nat, t0: nat, j: nat): nat
    requires lead < clocks
  {
    Slot(t0 + 2 + clocks - lead, clocks, j)
  }

  /** The two-sided limit on the sender's bit period. */
  predicate Tolerates(clocks: nat, lead: nat, period: nat)
  {
    && 9 * (period - clocks) <= clocks - 1 - lead
    && 10 * (clocks - period) <= lead
  }

  /** The sample of slot `j` looks at the wire three cycles earlier; is that inside the slot? */
  predicate SampleInside(clocks: nat, lead: nat, period: nat, t0: nat, j: nat)
    requires lead < clocks
  {
    Slot(t0, period, j) <= Sample(clocks, lead, t0, j) - 3 < Slot(t0, period, j) + period
  }

  /** The limit is exactly the condition under which all ten samples fall inside their slots. */
  lemma ToleranceIsExact(clocks: nat, lead: nat, period: nat, t0: nat)
    requires lead < clocks
    ensures Tolerates(clocks, lead, period) <==> forall j: nat | j < 10 :: SampleInside(clocks, lead, period, t0, j)
  {
    if Tolerates(clocks, lead, period) {
      forall j: nat | j < 10
        ensures SampleInside(clocks, lead, period, t0, j)
      {
        SampleOffset(clocks, lead, period, t0, j);
        DriftBound(period - clocks, j);
      }
    } else {
      SampleOffset(clocks, lead, period, t0, 9);
      assert !SampleInside(clocks, lead, period, t0, 9);
    }
  }

  lemma SampleOffset(clocks: nat, lead: nat, period: nat, t0: nat, j: nat)
    requires lead < clocks
    ensures Sample(clocks, lead, t0, j) - 3 - Slot(t0, period, j) == clocks - 1 - lead - j * (period - clocks)
  {
    SlotIs(t0 + 2 + clocks - lead, clocks, j);
    SlotIs(t0, period, j);
    assert j * (period - clocks) == j * period - j * clocks;
  }

  lemma DriftBound(d: int, j: nat)
    requires j < 10
    ensures d >= 0 ==> 0 <= j * d <= 9 * d
    ensures d <= 0 ==> 9 * d <= j * d <= 0
  {
  }

  /** The first `n` bits of `b` are the last `n` that `v` has shifted in. */
  ghost predicate Collected(v: Byte, b: Byte, n: nat)
  {
    forall i: nat | i < n <= 8 :: v.Bit(8 - n + i) == b.Bit(i)
  }

  lemma CollectOne(v: Byte, b: Byte, n: nat)
    requires n < 8 && Collected(v, b, n)
    ensures Collected(v.Right(b.Bit(n)), b, n + 1)
  {
    hide Byte.Bit, Byte.Right;
    forall i: nat | i < n + 1
      ensures v.Right(b.Bit(n)).Bit(8 - (n + 1) + i) == b.Bit(i)
    {
      RightBit(v, b.Bit(n), 7 - n + i);
    }
  }

  lemma RightBit(v: Byte, top: bool, i: nat)
    requires i < 8
    ensures v.Right(top).Bit(i) == if i == 7 then top else v.Bit(i + 1)
  {
  }

  lemma CollectedAll(v: Byte, b: Byte)
    requires Collected(v, b, 8)
    ensures v == b
  {
    assert v.Bit(0) == b.Bit(0) && v.Bit(1) == b.Bit(1) && v.Bit(2) == b.Bit(2) && v.Bit(3) == b.Bit(3);
    assert v.Bit(4) == b.Bit(4) && v.Bit(5) == b.Bit(5) && v.Bit(6) == b.Bit(6) && v.Bit(7) == b.Bit(7);
  }

  /** A frame of `b` with bit period `period` begins at `t0`, on a falling edge that reaches the machine, two cycles
      later, while it is idle. */
  ghost predicate Arrives(clocks: nat, lead: nat, line: nat -> bool, t0: nat, period: nat, b: Byte)
    requires clocks >= 2
  {
    && t0 >= 1 && line(t0 - 1)
    && CarriesFrame(line, t0, period, b)
    && At(clocks, line, t0 + 2).state == Idle
    && Lead(clocks, At(clocks, line, t0 + 2)) == lead
  }

  lemma SampleSees(clocks: nat, lead: nat, line: nat -> bool, t0: nat, period: nat, b: Byte, j: nat)
    requires clocks >= 2 && lead < clocks && j < 10 && Tolerates(clocks, lead, period) && CarriesFrame(line, t0, period, b)
    ensures Sample(clocks, lead, t0, j) >= 3 && line(Sample(clocks, lead, t0, j) - 3) == FrameBit(b, j)
  {
    ToleranceIsExact(clocks, lead, period, t0);
    assert SampleInside(clocks, lead, period, t0, j);
    assert Level(line, Slot(t0, period, j), Slot(t0, period, j) + period, FrameBit(b, j));
  }

  /** The machine just after the sample of slot `j`. */
  ghost predicate AfterSample(clocks: nat, lead: nat, line: nat -> bool, t0: nat, b: Byte, j: nat)
    requires clocks >= 2 && lead < clocks
  {
    var u := Sample(clocks, lead, t0, j) + 1;
    var s := At(clocks, line, u);
    && s.baud == 0
    && s.state == (if j < 8 then Proc else if j == 8 then Stop else Idle)
    && (j < 8 ==> s.bit == j)
    && (j < 9 ==> Collected(s.byte, b, j))
    && Presented(clocks, line, u) == Presented(clocks, line, t0 + 2) + if j == 9 then [b] else []
  }

  /** The start edge, two cycles after the wire falls. */
  lemma StartEdgeStep(clocks: nat, line: nat -> bool, t: nat)
    requires clocks >= 2 && t >= 1 && line(t - 1) && !line(t) && At(clocks, line, t + 2).state == Idle
    ensures
      var s, s' := At(clocks, line, t + 2), At(clocks, line, t + 3);
      s'.state == Start && s'.baud == Lead(clocks, s)
    ensures Presented(clocks, line, t + 3) == Presented(clocks, line, t + 2)
  {
    Pipeline(clocks, line, t + 2);
  }

  lemma StartSample(clocks: nat, lead: nat, line: nat -> bool, t0: nat, period: nat, b: Byte)
    requires clocks >= 2 && lead < clocks && Tolerates(clocks, lead, period) && Arrives(clocks, lead, line, t0, period, b)
    ensures AfterSample(clocks, lead, line, t0, b, 0)
  {
    hide At, Presented;
    assert Level(line, Slot(t0, period, 0), Slot(t0, period, 0) + period, FrameBit(b, 0));
    assert !line(t0);
    StartEdgeStep(clocks, line, t0);
    SampleSees(clocks, lead, line, t0, period, b, 0);
    ToTick(clocks, line, t0 + 3, Sample(clocks, lead, t0, 0));
  }

  lemma {:induction false} SampleSlot(clocks: nat, lead: nat, line: nat -> bool, t0: nat, period: nat, b: Byte, j: nat)
    requires clocks >= 2 && lead < clocks && j < 10 && Tolerates(clocks, lead, period) && Arrives(clocks, lead, line, t0, period, b)
    ensures AfterSample(clocks, lead, line, t0, b, j)
  {
    hide At, Presented;
    if j == 0 {
      StartSample(clocks, lead, line, t0, period, b);
    } else {
      SampleSlot(clocks, lead, line, t0, period, b, j - 1);
      SampleSees(clocks, lead, line, t0, period, b, j);
      var t := Sample(clocks, lead, t0, j - 1) + 1;
      ToTick(clocks, line, t, Sample(clocks, lead, t0, j));
      if j < 9 {
        CollectOne(At(clocks, line, t).byte, b, j - 1);
      } else {
        CollectedAll(At(clocks, line, t).byte, b);
      }
    }
  }

  /** The cycle after the one in which a frame that begins at `t0` is presented. */
  function Done(clocks: nat, lead: nat, t0: nat): nat
    requires lead < clocks
  {
    t0 + 10 * clocks + 3 - lead
  }

  /** Receive tolerance: a frame within tolerance is presented as exactly its byte, once, at `Done`, and the
      receiver is idle again with its baud counter restarted. With no tick in the cycle of the start edge the lead is
      clocks / 2, which gives the widest symmetric limit; with a tick it is 0 and a fast sender is not tolerated. */
  lemma Receive(clocks: nat, lead: nat, line: nat -> bool, t0: nat, period: nat, b: Byte)
    requires clocks >= 2 && lead < clocks && Tolerates(clocks, lead, period) && Arrives(clocks, lead, line, t0, period, b)
    ensures At(clocks, line, Done(clocks, lead, t0)).state == Idle && At(clocks, line, Done(clocks, lead, t0)).baud == 0
    ensures Presented(clocks, line, Done(clocks, lead, t0)) == Presented(clocks, line, t0 + 2) + [b]
    ensures forall t: nat {:trigger Presented(clocks, line, t)} | t0 + 2 <= t < Done(clocks, lead, t0) ::
              Presented(clocks, line, t) == Presented(clocks, line, t0 + 2)
  {
    hide At, Presented;
    SampleSlot(clocks, lead, line, t0, period, b, 9);
    SampleSlot(clocks, lead, line, t0, period, b, 8);
    SlotIs(t0 + 2 + clocks - lead, clocks, 9);
    var w := Sample(clocks, lead, t0, 8) + 1;
    assert At(clocks, line, w).state == Stop;
    forall t: nat | t0 + 2 <= t < Done(clocks, lead, t0)
      ensures Presented(clocks, line, t) == Presented(clocks, line, t0 + 2)
    {
      if t <= w {
        PresentedGrows(clocks, line, t0 + 2, t);
        PresentedGrows(clocks, line, t, w);
      } else {
        Coast(clocks, line, w, t - w);
      }
    }
  }
}

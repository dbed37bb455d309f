/** Streams of frames from a sender with its own bit period: which periods the receiver of rtl/system/uart.sv follows. */
module UartStream {
  import opened Integers
  import opened Wires
  import opened UartFrames
  import opened UartRx

  // --- Any start edge, whatever follows -----------------------------------------------------------------

  /** A falling edge at `t0` that reaches the receiver while it is idle. */
  ghost predicate Edge(clocks: nat, lead: nat, line: nat -> bool, t0: nat)
    requires clocks >= 2
  {
    && t0 >= 1 && line(t0 - 1) && !line(t0)
    && At(clocks, line, t0 + 2).state == Idle
    && Lead(clocks, At(clocks, line, t0 + 2)) == lead
  }

  /** The cycle whose level the sample of slot `j` takes. */
  function Seen(clocks: nat, lead: nat, t0: nat, j: nat): int
    requires lead < clocks
  {
    Sample(clocks, lead, t0, j) - 3
  }

  lemma SeenIs(clocks: nat, lead: nat, t0: nat, j: nat)
    requires lead < clocks
    ensures Seen(clocks, lead, t0, j) == t0 + clocks - 1 - lead + j * clocks
  {
    SlotIs(t0 + 2 + clocks - lead, clocks, j);
  }

  /** A start bit that is over by its sample leaves the receiver idle. */
  lemma FalseStart(clocks: nat, lead: nat, line: nat -> bool, t0: nat)
    requires clocks >= 2 && Edge(clocks, lead, line, t0) && line(t0 + clocks - 1 - lead)
    ensures
      var w := t0 + clocks - lead + 3;
      At(clocks, line, w).state == Idle && Presented(clocks, line, w) == Presented(clocks, line, t0 + 2)
  {
    hide At, Presented;
    StartEdgeStep(clocks, line, t0);
    ToTick(clocks, line, t0 + 3, t0 + 2 + clocks - lead);
  }

  /** Otherwise it takes all its samples, whatever their levels. */
  lemma {:induction false} BusyRun(clocks: nat, lead: nat, line: nat -> bool, t0: nat, j: nat)
    requires clocks >= 2 && Edge(clocks, lead, line, t0) && !line(t0 + clocks - 1 - lead) && j < 9
    ensures
      var s := At(clocks, line, Sample(clocks, lead, t0, j) + 1);
      s.baud == 0 && s.state == (if j < 8 then Proc else Stop) && (j < 8 ==> s.bit == j)
    ensures Presented(clocks, line, Sample(clocks, lead, t0, j) + 1) == Presented(clocks, line, t0 + 2)
  {
    hide At, Presented;
    if j == 0 {
      StartEdgeStep(clocks, line, t0);
      ToTick(clocks, line, t0 + 3, t0 + 2 + clocks - lead);
    } else {
      BusyRun(clocks, lead, line, t0, j - 1);
      ToTick(clocks, line, Sample(clocks, lead, t0, j - 1) + 1, Sample(clocks, lead, t0, j));
    }
  }

  /** And it presents one byte at most, exactly when it sees the stop bit. */
  lemma StopSample(clocks: nat, lead: nat, line: nat -> bool, t0: nat) returns (b: Byte)
    requires clocks >= 2 && Edge(clocks, lead, line, t0) && !line(t0 + clocks - 1 - lead)
    ensures
      var w := Done(clocks, lead, t0);
      && At(clocks, line, w).state == Idle && At(clocks, line, w).baud == 0
      && Presented(clocks, line, w) ==
         Presented(clocks, line, t0 + 2) + if line(t0 + 10 * clocks - 1 - lead) then [b] else []
  {
    hide At, Presented;
    BusyRun(clocks, lead, line, t0, 8);
    var t := Sample(clocks, lead, t0, 8) + 1;
    SeenIs(clocks, lead, t0, 8);
    b := At(clocks, line, t).byte;
    ToTick(clocks, line, t, t0 + 2 + 10 * clocks - lead);
  }

  // --- Streams ------------------------------------------------------------------------------------------

  /** From `t0` on, frames of the given bytes with bit period `period`, back to back, and then a wire at rest. */
  ghost predicate CarriesStream(line: nat -> bool, t0: nat, period: nat, bytes: seq<Byte>)
    decreases |bytes|
  {
    if bytes == [] then forall t: nat {:trigger line(t)} | t0 <= t :: line(t)
    else CarriesFrame(line, t0, period, bytes[0]) && CarriesStream(line, t0 + 10 * period, period, bytes[1..])
  }

  /** The first start edge meets an idle receiver, and not on a free-running tick. */
  ghost predicate Meets(clocks: nat, line: nat -> bool, t0: nat)
    requires clocks >= 2
  {
    && t0 >= 1 && line(t0 - 1)
    && At(clocks, line, t0 + 2).state == Idle
    && !Tick(clocks, At(clocks, line, t0 + 2))
  }

  /** The limit for a stream. It is strict on the side of a fast sender, where the limit for a single frame is not. */
  predicate Follows(clocks: nat, period: nat)
  {
    && 9 * (period - clocks) <= clocks - 1 - clocks / 2
    && 10 * (clocks - period) < clocks / 2
  }

  /** The limit leaves room for a start edge on a free-running tick when the sender is slow, which is the only time that
      can happen inside a stream. */
  lemma FollowsTolerates(clocks: nat, period: nat, lead: nat)
    requires clocks >= 2 && Follows(clocks, period) && (lead == clocks / 2 || (lead == 0 && period > clocks))
    ensures Tolerates(clocks, lead, period)
    ensures Done(clocks, lead, 0) <= 10 * period + 2
  {
  }

  lemma FirstBit(line: nat -> bool, t0: nat, period: nat, b: Byte)
    requires period >= 1 && CarriesFrame(line, t0, period, b)
    ensures Level(line, t0, t0 + period, false)
    ensures Level(line, t0 + 9 * period, t0 + 10 * period, true)
  {
    SlotIs(t0, period, 9);
    assert Slot(t0, period, 0) == t0;
    assert Level(line, Slot(t0, period, 0), Slot(t0, period, 0) + period, FrameBit(b, 0));
    assert Level(line, Slot(t0, period, 9), Slot(t0, period, 9) + period, FrameBit(b, 9));
  }

  /** One frame of a stream: its byte, and the receiver is idle again when the next start edge can reach it. */
  lemma FollowOne(clocks: nat, lead: nat, line: nat -> bool, t0: nat, period: nat, b: Byte)
    requires clocks >= 2 && period >= 1 && Follows(clocks, period) && Arrives(clocks, lead, line, t0, period, b)
    requires lead == clocks / 2 || (lead == 0 && period > clocks)
    ensures
      var s := At(clocks, line, t0 + 10 * period + 2);
      s.state == Idle && (period <= clocks ==> Lead(clocks, s) == clocks / 2)
    ensures Presented(clocks, line, t0 + 10 * period + 2) == Presented(clocks, line, t0 + 2) + [b]
  {
    hide At, Presented;
    FollowsTolerates(clocks, period, lead);
    Receive(clocks, lead, line, t0, period, b);
    FirstBit(line, t0, period, b);
    var w := Done(clocks, lead, t0);
    var u := t0 + 10 * period + 2;
    assert w - 2 >= t0 + 9 * period + 1 by {
      SampleSees(clocks, lead, line, t0, period, b, 9);
      StopSeen(clocks, lead, t0, period);
    }
    forall v: nat | w - 2 <= v < u - 2
      ensures !Falls(line, v)
    {
    }
    StayIdle(clocks, line, w, u);
    if period <= clocks {
      Coast(clocks, line, w, u - w);
    }
  }

  lemma StopSeen(clocks: nat, lead: nat, t0: nat, period: nat)
    requires lead < clocks && Tolerates(clocks, lead, period)
    ensures t0 + 10 * clocks - 1 - lead >= t0 + 9 * period
  {
  }

  lemma {:induction false} FollowFrom(clocks: nat, lead: nat, line: nat -> bool, t0: nat, period: nat, bytes: seq<Byte>)
    requires clocks >= 2 && period >= 1 && Follows(clocks, period) && CarriesStream(line, t0, period, bytes)
    requires t0 >= 1 && line(t0 - 1)
    requires At(clocks, line, t0 + 2).state == Idle && Lead(clocks, At(clocks, line, t0 + 2)) == lead
    requires lead == clocks / 2 || (lead == 0 && period > clocks)
    ensures Presented(clocks, line, t0 + 10 * period * |bytes| + 2) == Presented(clocks, line, t0 + 2) + bytes
    decreases |bytes|
  {
    hide At, Presented, CarriesFrame;
    if bytes == [] {
      assert 10 * period * |bytes| == 0;
    } else {
      var t1 := t0 + 10 * period;
      FollowOne(clocks, lead, line, t0, period, bytes[0]);
      FirstBit(line, t0, period, bytes[0]);
      assert line(t1 - 1);
      FollowFrom(clocks, Lead(clocks, At(clocks, line, t1 + 2)), line, t1, period, bytes[1..]);
      NextFrame(period, |bytes|);
      assert bytes == [bytes[0]] + bytes[1..];
    }
  }

  lemma NextFrame(period: nat, n: nat)
    requires n > 0
    ensures 10 * period * n == 10 * period + 10 * period * (n - 1)
  {
  }

  // --- A wire at rest since reset -------------------------------------------------------------------------

  lemma AfterReset(clocks: nat, line: nat -> bool)
    requires clocks >= 2
    ensures At(clocks, line, 0) == RESET && Presented(clocks, line, 0) == []
  {
  }

  lemma RestStep(clocks: nat, line: nat -> bool, t: nat)
    requires clocks >= 2 && At(clocks, line, t).state == Idle && !StartEdge(At(clocks, line, t))
    ensures
      var s, s' := At(clocks, line, t), At(clocks, line, t + 1);
      s'.state == Idle && s'.baud == if Tick(clocks, s) then 0 else s.baud + 1
    ensures Presented(clocks, line, t + 1) == Presented(clocks, line, t)
  {
  }

  /** In the first three periods after reset the free-running baud counter takes every value, and nothing else moves. */
  lemma {:induction false} AtRest(clocks: nat, line: nat -> bool, t0: nat, t: nat)
    requires clocks >= 2 && Level(line, 0, t0, true) && t <= t0 + 2 && t < 3 * clocks
    ensures
      var s := At(clocks, line, t);
      && s.state == Idle && Presented(clocks, line, t) == []
      && s.baud == if t < clocks then t else if t < 2 * clocks then t - clocks else t - 2 * clocks
  {
    hide At, Presented;
    if t == 0 {
      AfterReset(clocks, line);
    } else {
      AtRest(clocks, line, t0, t - 1);
      Pipeline(clocks, line, t - 1);
      RestStep(clocks, line, t - 1);
    }
  }

  /** A time for the first edge after which the lead is as wanted. */
  function FirstEdge(clocks: nat, lead: nat): nat
    requires clocks >= 2
  {
    if lead == 0 then 2 * clocks - 3 else 2 * clocks - 2
  }

  lemma FirstEdgeIs(clocks: nat, lead: nat, line: nat -> bool)
    requires clocks >= 2 && (lead == 0 || lead == clocks / 2)
    requires Level(line, 0, FirstEdge(clocks, lead), true) && !line(FirstEdge(clocks, lead))
    ensures Edge(clocks, lead, line, FirstEdge(clocks, lead))
    ensures Presented(clocks, line, FirstEdge(clocks, lead) + 2) == []
  {
    hide At, Presented;
    AtRest(clocks, line, FirstEdge(clocks, lead), FirstEdge(clocks, lead) + 2);
  }

  /** An idle receiver that has seen the last falling edge presents nothing more, ever. */
  lemma Over(clocks: nat, line: nat -> bool, w: nat, u: nat)
    requires clocks >= 2 && w >= 2 && At(clocks, line, w).state == Idle
    requires forall v: nat | w - 2 <= v :: !Falls(line, v)
    ensures Presented(clocks, line, u) <= Presented(clocks, line, w)
  {
    hide At, Presented;
    if u <= w {
      PresentedGrows(clocks, line, u, w);
    } else {
      StayIdle(clocks, line, w, u);
    }
  }

  // --- The limit for one frame is exact -------------------------------------------------------------------

  /** Every frame with this bit period, and whatever comes after it, is presented as its byte when it is due. */
  ghost predicate AlwaysReceived(clocks: nat, lead: nat, period: nat)
    requires clocks >= 2 && lead < clocks
  {
    forall line: nat -> bool, t0: nat, b: Byte {:trigger Arrives(clocks, lead, line, t0, period, b)} ::
      Arrives(clocks, lead, line, t0, period, b) ==>
        Presented(clocks, line, Done(clocks, lead, t0)) == Presented(clocks, line, t0 + 2) + [b]
  }

  /** One frame of the zero byte after a rest, and then the level `tail`. */
  function OneZero(t0: nat, period: nat, tail: bool): nat -> bool
  {
    (t: nat) => if t < t0 then true else if t < t0 + 9 * period then false else if t < t0 + 10 * period then true else tail
  }

  lemma OneZeroCarries(t0: nat, period: nat, tail: bool)
    ensures CarriesFrame(OneZero(t0, period, tail), t0, period, ZERO)
  {
    var line := OneZero(t0, period, tail);
    forall j: nat | j < 10
      ensures Level(line, Slot(t0, period, j), Slot(t0, period, j) + period, FrameBit(ZERO, j))
    {
      SlotIs(t0, period, j);
      Ninths(period, j);
    }
  }

  lemma Ninths(period: nat, j: nat)
    requires j < 10
    ensures j < 9 ==> j * period + period <= 9 * period
    ensures j * period + period <= 10 * period
  {
    MulUp(j + 1, 10, period);
    if j < 9 {
      MulUp(j + 1, 9, period);
    }
  }

  /** Outside the limit the zero byte is lost: its stop bit is sampled before it begins or after it is over, or its start
      bit after the whole frame. */
  lemma ZeroIsLost(clocks: nat, lead: nat, period: nat) returns (line: nat -> bool, t0: nat)
    requires clocks >= 2 && period >= 1 && (lead == 0 || lead == clocks / 2) && !Tolerates(clocks, lead, period)
    ensures Arrives(clocks, lead, line, t0, period, ZERO)
    ensures Presented(clocks, line, Done(clocks, lead, t0)) == Presented(clocks, line, t0 + 2) == []
  {
    hide At, Presented;
    t0 := FirstEdge(clocks, lead);
    var start := t0 + clocks - 1 - lead;
    var late := t0 + 9 * period <= start < t0 + 10 * period;
    line := OneZero(t0, period, late);
    OneZeroCarries(t0, period, late);
    FirstEdgeIs(clocks, lead, line);
    if late {
      FalseStart(clocks, lead, line, t0);
      Over(clocks, line, start + 4, Done(clocks, lead, t0));
    } else {
      var b := StopSample(clocks, lead, line, t0);
    }
  }

  /** The limit on the bit period is exactly the condition under which every single frame is received. */
  lemma ToleranceIff(clocks: nat, lead: nat, period: nat)
    requires clocks >= 2 && period >= 1 && (lead == 0 || lead == clocks / 2)
    ensures AlwaysReceived(clocks, lead, period) <==> Tolerates(clocks, lead, period)
  {
    hide Arrives, Tolerates, Presented;
    if Tolerates(clocks, lead, period) {
      forall line: nat -> bool, t0: nat, b: Byte | Arrives(clocks, lead, line, t0, period, b)
        ensures Presented(clocks, line, Done(clocks, lead, t0)) == Presented(clocks, line, t0 + 2) + [b]
      {
        Receive(clocks, lead, line, t0, period, b);
      }
    } else {
      var line, t0 := ZeroIsLost(clocks, lead, period);
    }
  }

  // --- The limit for streams is exact ---------------------------------------------------------------------

  /** Every stream with this bit period is presented byte by byte. */
  ghost predicate AlwaysFollows(clocks: nat, period: nat)
    requires clocks >= 2
  {
    forall line: nat -> bool, t0: nat, bytes: seq<Byte> {:trigger CarriesStream(line, t0, period, bytes), Meets(clocks, line, t0)} ::
      Meets(clocks, line, t0) && CarriesStream(line, t0, period, bytes) ==>
        exists u: nat :: Presented(clocks, line, u) == Presented(clocks, line, t0 + 2) + bytes
  }

  const ONES := Byte(true, true, true, true, true, true, true, true)

  /** Two frames of all ones after a rest. */
  function TwoOnes(t0: nat, period: nat): nat -> bool
  {
    (t: nat) => !(t0 <= t < t0 + period || t0 + 10 * period <= t < t0 + 11 * period)
  }

  lemma OnesCarry(line: nat -> bool, t0: nat, period: nat)
    requires Level(line, t0, t0 + period, false) && Level(line, t0 + period, t0 + 10 * period, true)
    ensures CarriesFrame(line, t0, period, ONES)
  {
    forall j: nat | j < 10
      ensures Level(line, Slot(t0, period, j), Slot(t0, period, j) + period, FrameBit(ONES, j))
    {
      SlotIs(t0, period, j);
      Ninths(period, j);
      if j > 0 {
        MulUp(1, j, period);
      }
    }
  }

  lemma TwoOnesCarry(t0: nat, period: nat)
    ensures CarriesStream(TwoOnes(t0, period), t0, period, [ONES, ONES])
  {
    hide CarriesFrame;
    var line, t1 := TwoOnes(t0, period), t0 + 10 * period;
    OnesCarry(line, t0, period);
    OnesCarry(line, t1, period);
    assert [ONES, ONES][1..] == [ONES] && [ONES][1..] == [];
    assert CarriesStream(line, t1 + 10 * period, period, []);
    assert CarriesStream(line, t1, period, [ONES]);
  }

  /** After a start edge there is a time at which the receiver is idle again and has presented one byte at most. */
  lemma OneEdge(clocks: nat, lead: nat, line: nat -> bool, t0: nat) returns (w: nat)
    requires clocks >= 2 && lead < clocks && Edge(clocks, lead, line, t0)
    ensures w == (if line(t0 + clocks - 1 - lead) then t0 + clocks - lead + 3 else Done(clocks, lead, t0))
    ensures At(clocks, line, w).state == Idle
    ensures |Presented(clocks, line, w)| <=
            |Presented(clocks, line, t0 + 2)| + if line(t0 + clocks - 1 - lead) then 0 else 1
  {
    hide At, Presented;
    if line(t0 + clocks - 1 - lead) {
      FalseStart(clocks, lead, line, t0);
      w := t0 + clocks - lead + 3;
    } else {
      var b := StopSample(clocks, lead, line, t0);
      w := Done(clocks, lead, t0);
    }
  }

  lemma TwoOnesFall(t0: nat, period: nat, v: nat)
    requires period >= 1 && t0 >= 1
    ensures Falls(TwoOnes(t0, period), v) <==> v == t0 || v == t0 + 10 * period
  {
  }

  /** A fast sender's second start edge reaches the receiver before it is idle, unless the first frame was no frame to it;
      so it never presents two bytes. */
  lemma FastIsLost(clocks: nat, period: nat, u: nat)
    requires clocks >= 2 && period >= 1 && 10 * (clocks - period) >= clocks / 2
    ensures
      var t0 := FirstEdge(clocks, clocks / 2);
      var line := TwoOnes(t0, period);
      Edge(clocks, clocks / 2, line, t0) && Presented(clocks, line, t0 + 2) == [] && |Presented(clocks, line, u)| <= 1
  {
    hide At, Presented, Edge, Falls;
    var lead := clocks / 2;
    var t0 := FirstEdge(clocks, lead);
    var t1 := t0 + 10 * period;
    var line := TwoOnes(t0, period);
    FirstEdgeIs(clocks, lead, line);
    var w := OneEdge(clocks, lead, line, t0);
    forall v: nat
      ensures Falls(line, v) <==> v == t0 || v == t1
    {
      TwoOnesFall(t0, period, v);
    }
    if w - 2 > t1 {
      Over(clocks, line, w, u);
    } else {
      StayIdle(clocks, line, w, t1 + 2);
      var lead1 := Lead(clocks, At(clocks, line, t1 + 2));
      SecondEdge(clocks, lead1, line, t0, period);
      var w1 := OneEdge(clocks, lead1, line, t1);
      Over(clocks, line, w1, u);
    }
  }

  lemma SecondEdge(clocks: nat, lead: nat, line: nat -> bool, t0: nat, period: nat)
    requires clocks >= 2 && period >= 1 && line == TwoOnes(t0, period)
    requires At(clocks, line, t0 + 10 * period + 2).state == Idle
    requires Lead(clocks, At(clocks, line, t0 + 10 * period + 2)) == lead
    ensures Edge(clocks, lead, line, t0 + 10 * period)
  {
    hide At;
  }

  /** A slow sender's stop bit has not begun when it is sampled; so the zero byte is never presented. */
  lemma SlowIsLost(clocks: nat, period: nat, u: nat)
    requires clocks >= 2 && period >= 1 && 9 * (period - clocks) > clocks - 1 - clocks / 2
    ensures
      var t0 := FirstEdge(clocks, clocks / 2);
      var line := OneZero(t0, period, true);
      Edge(clocks, clocks / 2, line, t0) && Presented(clocks, line, t0 + 2) == [] && Presented(clocks, line, u) == []
  {
    hide At, Presented;
    var lead := clocks / 2;
    var t0 := FirstEdge(clocks, lead);
    var line := OneZero(t0, period, true);
    FirstEdgeIs(clocks, lead, line);
    var b := StopSample(clocks, lead, line, t0);
    Over(clocks, line, Done(clocks, lead, t0), u);
  }

  lemma EdgeMeets(clocks: nat, line: nat -> bool, t0: nat)
    requires clocks >= 2 && Edge(clocks, clocks / 2, line, t0)
    ensures Meets(clocks, line, t0)
  {
    hide At;
  }

  lemma StreamIsLost(clocks: nat, period: nat) returns (line: nat -> bool, t0: nat, bytes: seq<Byte>)
    requires clocks >= 2 && period >= 1 && !Follows(clocks, period)
    ensures Meets(clocks, line, t0) && CarriesStream(line, t0, period, bytes)
    ensures forall u: nat :: Presented(clocks, line, u) != Presented(clocks, line, t0 + 2) + bytes
  {
    hide At, Presented, Edge, Meets, CarriesFrame;
    t0 := FirstEdge(clocks, clocks / 2);
    if 10 * (clocks - period) >= clocks / 2 {
      line, bytes := TwoOnes(t0, period), [ONES, ONES];
      TwoOnesCarry(t0, period);
      forall u: nat
        ensures Presented(clocks, line, u) != Presented(clocks, line, t0 + 2) + bytes
      {
        FastIsLost(clocks, period, u);
      }
      FastIsLost(clocks, period, 0);
    } else {
      line, bytes := OneZero(t0, period, true), [ZERO];
      OneZeroCarries(t0, period, true);
      assert bytes[1..] == [];
      assert CarriesStream(line, t0 + 10 * period, period, []);
      forall u: nat
        ensures Presented(clocks, line, u) != Presented(clocks, line, t0 + 2) + bytes
      {
        SlowIsLost(clocks, period, u);
      }
      SlowIsLost(clocks, period, 0);
    }
    EdgeMeets(clocks, line, t0);
  }

  /** Exactly which bit periods the receiver follows: every stream of frames, back to back, is received byte by byte if and
      only if the sender is within the limit. */
  lemma StreamIff(clocks: nat, period: nat)
    requires clocks >= 2 && period >= 1
    ensures AlwaysFollows(clocks, period) <==> Follows(clocks, period)
  {
    hide At, Presented, CarriesStream, Follows;
    if Follows(clocks, period) {
      forall line: nat -> bool, t0: nat, bytes: seq<Byte> | Meets(clocks, line, t0) && CarriesStream(line, t0, period, bytes)
        ensures exists u: nat :: Presented(clocks, line, u) == Presented(clocks, line, t0 + 2) + bytes
      {
        FollowFrom(clocks, clocks / 2, line, t0, period, bytes);
      }
    } else {
      var line, t0, bytes := StreamIsLost(clocks, period);
    }
  }
}

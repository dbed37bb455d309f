/** timer_enable, the timer interrupt handler and timer_delay as steps of one hart, interleaved with the timer of
    vendor/lowrisc_ibex/shared/rtl/timer.sv. */
module TimerDelay {
  import opened Integers
  import opened TimerWords

  // --- The device -------------------------------------------------------------------------------------

  /** `now` counts clock cycles since reset, so the mtime register holds `now % W64`. The interrupt is a register that
      stays set until mtimecmp is written. */
  datatype Device = Device(now: nat, cmp: nat, irq: bool)

  datatype Access = Nothing | WriteLow(v: nat) | WriteHigh(v: nat)

  /** One clock cycle with at most one write to mtimecmp. */
  function Clock(d: Device, a: Access): Device
  {
    Device(d.now + 1,
           match a
           case Nothing => d.cmp
           case WriteLow(v) => Join(Hi(d.cmp), v)
           case WriteHigh(v) => Join(v, Lo(d.cmp)),
           a.Nothing? && (d.irq || d.now % W64 >= d.cmp))
  }

  // --- The program ------------------------------------------------------------------------------------

  /** increment_timecmp, one bus access a step: timer_read, then timecmp_update of the sum, which is a uint64_t. */
  datatype Pc =
    | ReadHigh
    | ReadLow(hi: nat)
    | ReadAgain(hi: nat, lo: nat)
    | Write1(value: nat)
    | Write2(value: nat)
    | Write3(value: nat)
    | Written(value: nat)

  function Target(value: nat, base: nat): nat { (value + base) % W64 }

  function Advance(pc: Pc, d: Device, base: nat): (Pc, Device)
  {
    var time := d.now % W64;
    match pc
    case ReadHigh => (ReadLow(Hi(time)), Clock(d, Nothing))
    case ReadLow(hi) => (ReadAgain(hi, Lo(time)), Clock(d, Nothing))
    case ReadAgain(hi, lo) => (if Hi(time) == hi then Write1(Join(hi, lo)) else ReadHigh, Clock(d, Nothing))
    case Write1(v) => (Write2(v), Clock(d, WriteLow(W32 - 1)))
    case Write2(v) => (Write3(v), Clock(d, WriteHigh(Hi(Target(v, base)))))
    case Write3(v) => (Written(v), Clock(d, WriteLow(Lo(Target(v, base)))))
    case Written(_) => (pc, d)
  }

  /** timer_delay: timer_enable up to SetGlobal, then the polling loop, then timer_disable. */
  datatype Main =
    | ClearElapsed
    | SetIncrement
    | Arm(pc: Pc)
    | SetEnable
    | SetGlobal
    | StartTimeout
    | Poll(timeout: nat)
    | Disable(timeout: nat)
    | Done(timeout: nat)

  datatype Handler = NotRunning | Rearm(pc: Pc) | Count(value: nat)

  /** mie is the timer bit of the mie register, gie the global interrupt enable. Three observations go with the state: the
      time read in timer_enable, the latest time read by anyone and time_elapsed when the timeout was computed. */
  datatype Sys = Sys(dev: Device, mie: bool, gie: bool, elapsed: nat, increment: nat, main: Main, handler: Handler,
                     start: nat, latest: nat, elapsed0: nat)

  datatype Call = Call(base: nat, ms: nat)

  datatype Action = Tick | RunMain | TakeInterrupt | RunHandler

  function MainStep(p: Call, s: Sys): Sys
  {
    match s.main
    case ClearElapsed => s.(elapsed := 0, main := SetIncrement)
    case SetIncrement => s.(increment := p.base, main := Arm(ReadHigh))
    case Arm(pc) =>
      if pc.Written? then s.(main := SetEnable)
      else
        var (pc', dev') := Advance(pc, s.dev, p.base);
        var s' := s.(main := Arm(pc'), dev := dev');
        if pc.ReadAgain? && pc'.Write1? then s'.(start := pc'.value, latest := pc'.value) else s'
    case SetEnable => s.(mie := true, main := SetGlobal)
    case SetGlobal => s.(gie := true, main := StartTimeout)
    case StartTimeout => s.(elapsed0 := s.elapsed, main := Poll((s.elapsed + p.ms) % W32))
    case Poll(timeout) => if s.elapsed < timeout then s else s.(main := Disable(timeout))
    case Disable(timeout) => s.(mie := false, main := Done(timeout))
    case Done(_) => s
  }

  /** simple_timer_handler, run with interrupts off. */
  function HandlerStep(s: Sys): Sys
  {
    match s.handler
    case NotRunning => s
    case Rearm(pc) =>
      if pc.Written? then s.(handler := Count(pc.value))
      else
        var (pc', dev') := Advance(pc, s.dev, s.increment);
        s.(handler := Rearm(pc'), dev := dev')
    case Count(value) => s.(handler := NotRunning, elapsed := s.elapsed + 1, latest := value)
  }

  /** One step of the interleaving; an action that is not enabled changes nothing. */
  function Step(p: Call, s: Sys, a: Action): Sys
  {
    match a
    case Tick => s.(dev := Clock(s.dev, Nothing))
    case RunMain => if s.handler.NotRunning? then MainStep(p, s) else s
    case TakeInterrupt =>
      if s.handler.NotRunning? && s.dev.irq && s.mie && s.gie then s.(handler := Rearm(ReadHigh)) else s
    case RunHandler => HandlerStep(s)
  }

  /** On entry to timer_enable the timer interrupt is masked; everything else is arbitrary. */
  predicate Entry(s: Sys)
  {
    s.main == ClearElapsed && s.handler.NotRunning? && !s.mie && s.dev.cmp < W64
  }

  function Run(p: Call, s: Sys, actions: seq<Action>): Sys
  {
    if actions == [] then s
    else Step(p, Run(p, s, actions[..|actions| - 1]), actions[|actions| - 1])
  }

  // --- The invariant ----------------------------------------------------------------------------------

  /** Clock cycles from one read of the time to the next that an interrupt causes: the interval, or the five cycles that
      the rest of the handler takes if that is longer, one cycle until the interrupt shows and one for the high word. */
  function Period(base: nat): nat { (if base > 5 then base else 5) + 2 }

  /** Cycles a writer's value is old at least. */
  function Age(pc: Pc): nat
  {
    match pc
    case Write1(_) => 2
    case Write2(_) => 3
    case Write3(_) => 4
    case Written(_) => 5
    case _ => 0
  }

  predicate HasValue(pc: Pc) { pc.Write1? || pc.Write2? || pc.Write3? || pc.Written? }

  /** A read in progress that began at `from` or later; its low word is read in a later cycle than its high word. */
  ghost predicate Reading(pc: Pc, from: nat, now: nat)
  {
    match pc
    case ReadHigh => from <= now
    case ReadLow(hi) => exists t1: nat :: from <= t1 < now && hi == Hi(t1)
    case ReadAgain(hi, lo) => exists t1: nat, t2: nat :: from <= t1 < t2 < now && hi == Hi(t1) && lo == Lo(t2)
    case _ => from < pc.value && pc.value + Age(pc) <= now
  }

  /** The compare register while it is rewritten from any old value. */
  ghost predicate Writing(pc: Pc, d: Device, base: nat)
  {
    match pc
    case Write2(v) => Lo(d.cmp) == W32 - 1
    case Write3(v) => Hi(d.cmp) == Hi(Target(v, base))
    case Written(v) => Armed(d, v, base)
    case _ => true
  }

  /** The compare register stands one base after `value`, and a pending interrupt means that time has come. */
  ghost predicate Armed(d: Device, value: nat, base: nat)
  {
    d.cmp == value + base && value + 5 <= d.now && (d.irq ==> value + Period(base) - 1 <= d.now)
  }

  /** The end of the n-th period after `start`. */
  function Due(start: nat, n: nat, period: nat): nat { start + n * period }

  lemma DueNext(start: nat, n: nat, period: nat)
    ensures Due(start, n + 1, period) == Due(start, n, period) + period
  {
  }

  predicate Masked(m: Main) { m.ClearElapsed? || m.SetIncrement? || m.Arm? || m.SetEnable? }

  ghost predicate MainInv(p: Call, s: Sys)
  {
    && (Masked(s.main) ==> !s.mie && s.handler.NotRunning?)
    && (!s.main.ClearElapsed? && !s.main.SetIncrement? ==> s.increment == p.base)
    && (Masked(s.main) && !s.main.ClearElapsed? ==> s.elapsed == 0)
    && (s.main.Arm? ==>
          Reading(s.main.pc, 0, s.dev.now) && Writing(s.main.pc, s.dev, p.base) &&
          (HasValue(s.main.pc) ==> s.start == s.latest == s.main.pc.value))
  }

  /** After the first arming: the latest read lies n periods or more after the start, and the handler reads the time only
      when the next period is over. */
  ghost predicate ClockInv(p: Call, s: Sys)
  {
    var period := Period(p.base);
    (s.main.SetEnable? || !Masked(s.main)) ==>
      && Due(s.start, s.elapsed, period) <= s.latest && s.latest + 5 <= s.dev.now
      && match s.handler
         case NotRunning => Armed(s.dev, s.latest, p.base)
         case Rearm(pc) => Reading(pc, s.latest + period - 1, s.dev.now) && Writing(pc, s.dev, p.base)
         case Count(value) => Due(s.start, s.elapsed + 1, period) <= value && Armed(s.dev, value, p.base)
  }

  ghost predicate DelayInv(p: Call, s: Sys)
  {
    && (s.main.Poll? || s.main.Disable? || s.main.Done? ==>
          s.main.timeout == (s.elapsed0 + p.ms) % W32 && s.elapsed0 <= s.elapsed)
    && (s.main.Disable? || s.main.Done? ==> s.elapsed >= s.main.timeout)
  }

  ghost predicate Inv(p: Call, s: Sys)
  {
    s.dev.cmp < W64 && MainInv(p, s) && ClockInv(p, s) && DelayInv(p, s)
  }

  /** The sums of the program do not wrap. */
  predicate NoWrap(p: Call, s: Sys) { s.dev.now + p.base < W64 }

  lemma ReadStep(pc: Pc, d: Device, base: nat, from: nat)
    requires Reading(pc, from, d.now) && d.now + base < W64 && d.cmp < W64
    requires pc.ReadHigh? || pc.ReadLow? || pc.ReadAgain?
    ensures
      var (pc', d') := Advance(pc, d, base);
      Reading(pc', from, d'.now) && d'.cmp < W64 && Writing(pc', d', base)
  {
    hide Hi, Lo, Join;
    match pc
    case ReadAgain(hi, lo) =>
      var t1: nat, t2: nat :| from <= t1 < t2 < d.now && hi == Hi(t1) && lo == Lo(t2);
      if Hi(d.now % W64) == hi {
        NotTorn(t1, t2, d.now);
      }
    case _ =>
  }

  lemma WriteStep(pc: Pc, d: Device, base: nat)
    requires pc.Write1? || pc.Write2? || pc.Write3?
    requires pc.value + Age(pc) <= d.now && d.now + base < W64 && d.cmp < W64 && Writing(pc, d, base)
    ensures
      var (pc', d') := Advance(pc, d, base);
      Writing(pc', d', base) && d'.cmp < W64
  {
    hide Hi, Lo, Join;
    var target := Target(pc.value, base);
    assert target == pc.value + base;
    JoinIs(target);
    Halves(Hi(d.cmp), W32 - 1);
    Halves(Hi(target), Lo(d.cmp));
    Halves(Hi(d.cmp), Lo(target));
  }

  lemma ReadingStep(pc: Pc, d: Device, base: nat, from: nat)
    requires Reading(pc, from, d.now) && d.now + base < W64 && d.cmp < W64 && Writing(pc, d, base)
    ensures
      var (pc', d') := Advance(pc, d, base);
      Reading(pc', from, d'.now) && Writing(pc', d', base) && d'.cmp < W64
  {
    hide Hi, Lo, Join;
    if pc.ReadHigh? || pc.ReadLow? || pc.ReadAgain? {
      ReadStep(pc, d, base, from);
    } else if !pc.Written? {
      WriteStep(pc, d, base);
    }
  }

  lemma ReadingWaits(pc: Pc, d: Device, base: nat, from: nat)
    requires Reading(pc, from, d.now) && d.now + base < W64 && d.cmp < W64 && Writing(pc, d, base)
    ensures var d' := Clock(d, Nothing); Reading(pc, from, d'.now) && Writing(pc, d', base) && d'.cmp < W64
  {
  }

  // --- Every step keeps the invariant -----------------------------------------------------------------

  lemma InvTick(p: Call, s: Sys)
    requires Inv(p, s) && NoWrap(p, s)
    ensures Inv(p, Step(p, s, Tick))
  {
    hide Hi, Lo, Join, Due, Reading, Writing;
    if s.main.Arm? {
      ReadingWaits(s.main.pc, s.dev, p.base, 0);
    }
    if s.handler.Rearm? {
      ReadingWaits(s.handler.pc, s.dev, p.base, s.latest + Period(p.base) - 1);
    }
  }

  lemma InvMainArms(p: Call, s: Sys)
    requires Inv(p, s) && NoWrap(p, s) && s.main.Arm?
    ensures Inv(p, MainStep(p, s))
  {
    hide Hi, Lo, Join;
    ReadingStep(s.main.pc, s.dev, p.base, 0);
  }

  lemma InvMain(p: Call, s: Sys)
    requires Inv(p, s) && NoWrap(p, s) && s.handler.NotRunning?
    ensures Inv(p, MainStep(p, s))
  {
    hide Hi, Lo, Join, Reading, Writing, Due;
    if s.main.Arm? {
      InvMainArms(p, s);
    } else if s.main.SetIncrement? {
      assert Reading(ReadHigh, 0, s.dev.now) && Writing(ReadHigh, s.dev, p.base) by {
        StartsReading(0, s.dev, p.base);
      }
    }
  }

  lemma StartsReading(from: nat, d: Device, base: nat)
    requires from <= d.now
    ensures Reading(ReadHigh, from, d.now) && Writing(ReadHigh, d, base)
  {
  }

  /** An interrupt is taken only when the next interval is over. */
  lemma InvInterrupt(p: Call, s: Sys)
    requires Inv(p, s)
    ensures Inv(p, Step(p, s, TakeInterrupt))
  {
    hide Hi, Lo, Join, Reading, Writing, Due;
    if Step(p, s, TakeInterrupt) != s {
      StartsReading(s.latest + Period(p.base) - 1, s.dev, p.base);
    }
  }

  lemma InvHandler(p: Call, s: Sys)
    requires Inv(p, s) && NoWrap(p, s)
    ensures Inv(p, HandlerStep(s))
  {
    hide Hi, Lo, Join, Due;
    DueNext(s.start, s.elapsed, Period(p.base));
    if s.handler.Rearm? {
      ReadingStep(s.handler.pc, s.dev, p.base, s.latest + Period(p.base) - 1);
    }
  }

  lemma InvStep(p: Call, s: Sys, a: Action)
    requires Inv(p, s) && NoWrap(p, s)
    ensures Inv(p, Step(p, s, a))
  {
    hide Inv;
    match a
    case Tick => InvTick(p, s);
    case RunMain => if s.handler.NotRunning? { InvMain(p, s); }
    case TakeInterrupt => InvInterrupt(p, s);
    case RunHandler => InvHandler(p, s);
  }

  lemma TimeGoesOn(p: Call, s: Sys, a: Action)
    ensures s.dev.now <= Step(p, s, a).dev.now
  {
  }

  lemma {:induction false} Reachable(p: Call, s: Sys, actions: seq<Action>)
    requires Entry(s) && NoWrap(p, Run(p, s, actions))
    ensures Inv(p, Run(p, s, actions))
  {
    hide Inv, Step;
    if actions == [] {
      assert Inv(p, s) by { EntryInv(p, s); }
    } else {
      var n := |actions| - 1;
      TimeGoesOn(p, Run(p, s, actions[..n]), actions[n]);
      Reachable(p, s, actions[..n]);
      InvStep(p, Run(p, s, actions[..n]), actions[n]);
    }
  }

  lemma EntryInv(p: Call, s: Sys)
    requires Entry(s)
    ensures Inv(p, s)
  {
  }

  // --- Main results -----------------------------------------------------------------------------------

  /** What a caller can check: before 2^32 - ms interrupts can have made the 32-bit timeout wrap, ms intervals are over. */
  predicate Safe(p: Call)
    requires p.ms < W32
  {
    p.ms * p.base <= (W32 - p.ms) * Period(p.base) + 5
  }

  /** Every argument up to 2^31 is safe, whatever the interval. */
  lemma HalfRangeIsSafe(p: Call)
    requires p.ms <= 0x8000_0000
    ensures Safe(p)
  {
    MulUp(p.ms, W32 - p.ms, p.base);
    MulUp(p.base, Period(p.base), W32 - p.ms);
  }

  /** timer_delay has left its loop before ms intervals have gone by since timer_enable read the time. */
  predicate Early(p: Call, s: Sys)
  {
    (s.main.Disable? || s.main.Done?) && s.dev.now < s.start + p.ms * p.base
  }

  /** Delays are never early: for every interleaving of clock cycles, program steps and interrupts, the intervals counted
      are over; and for a safe argument the loop is left only after ms intervals. */
  lemma NeverEarly(p: Call, s0: Sys, actions: seq<Action>)
    requires Entry(s0) && NoWrap(p, Run(p, s0, actions)) && p.ms < W32
    ensures
      var s := Run(p, s0, actions);
      && (!Masked(s.main) ==> s.start <= s.dev.now && s.elapsed * p.base <= s.dev.now - s.start)
      && (Safe(p) ==> !Early(p, s))
  {
    hide Run, Reading, Writing, Armed, Hi, Lo, Join;
    Reachable(p, s0, actions);
    var s := Run(p, s0, actions);
    if !Masked(s.main) {
      MulUp(p.base, Period(p.base), s.elapsed);
      MulUp(0, s.elapsed, p.base);
      if s.elapsed >= p.ms {
        MulUp(p.ms, s.elapsed, p.base);
      } else if s.main.Disable? || s.main.Done? {
        MulUp(W32 - p.ms, s.elapsed, Period(p.base));
      }
    }
  }

  /** The loop is left on time: at every poll of every run whose timeout did not wrap, the next step of the program leaves
      the loop if and only if ms intervals have been counted since the timeout was computed. */
  lemma LeftOnTime(p: Call, s0: Sys, actions: seq<Action>)
    requires Entry(s0) && NoWrap(p, Run(p, s0, actions)) && p.ms < W32
    ensures
      var s := Run(p, s0, actions);
      s.main.Poll? && s.handler.NotRunning? && s.elapsed0 + p.ms < 0x1_0000_0000 ==>
        var s' := Run(p, s0, actions + [RunMain]);
        (s'.main.Disable? <==> s.elapsed >= s.elapsed0 + p.ms) && (!s'.main.Disable? ==> s' == s)
  {
    hide Inv, Due, Reading, Writing, Armed, ClockInv, MainInv, Hi, Lo, Join, Clock, Advance, HandlerStep;
    Reachable(p, s0, actions);
    var s := Run(p, s0, actions);
    assert (actions + [RunMain])[..|actions|] == actions;
    assert Run(p, s0, actions + [RunMain]) == Step(p, s, RunMain);
    PollSees(p, s);
  }

  lemma PollSees(p: Call, s: Sys)
    requires Inv(p, s)
    ensures s.main.Poll? ==> s.main.timeout == (s.elapsed0 + p.ms) % W32 && s.elapsed0 <= s.elapsed
  {
  }
}

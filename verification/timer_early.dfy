/** When timer_delay can return early: the fastest run from entry in which the 32-bit timeout wraps, and with it the exact
    condition on the arguments. */
module TimerEarly {
  import opened Integers
  import opened TimerWords
  import opened TimerDelay

  // --- Runs piece by piece ----------------------------------------------------------------------------

  ghost predicate Reaches(p: Call, s: Sys, s': Sys)
  {
    exists actions: seq<Action> :: Run(p, s, actions) == s'
  }

  lemma {:induction false} RunAppend(p: Call, s: Sys, a: seq<Action>, b: seq<Action>)
    ensures Run(p, s, a + b) == Run(p, Run(p, s, a), b)
  {
    hide Step;
    if b == [] {
      assert a + b == a;
    } else {
      var n := |b| - 1;
      RunAppend(p, s, a, b[..n]);
      assert (a + b)[..|a| + n] == a + b[..n];
    }
  }

  lemma ReachesTrans(p: Call, s1: Sys, s2: Sys, s3: Sys)
    requires Reaches(p, s1, s2) && Reaches(p, s2, s3)
    ensures Reaches(p, s1, s3)
  {
    hide Run;
    var a: seq<Action> :| Run(p, s1, a) == s2;
    var b: seq<Action> :| Run(p, s2, b) == s3;
    RunAppend(p, s1, a, b);
  }

  lemma ReachesStep(p: Call, s: Sys, a: Action)
    ensures Reaches(p, s, Step(p, s, a))
  {
    hide Step;
    assert [a][..0] == [];
    assert Run(p, s, [a]) == Step(p, s, a);
  }

  lemma ReachesSelf(p: Call, s: Sys)
    ensures Reaches(p, s, s)
  {
    assert Run(p, s, []) == s;
  }

  /** One more step. */
  lemma ThenStep(p: Call, s: Sys, s': Sys, a: Action)
    requires Reaches(p, s, s')
    ensures Reaches(p, s, Step(p, s', a))
  {
    hide Step, Reaches;
    ReachesStep(p, s', a);
    ReachesTrans(p, s, s', Step(p, s', a));
  }

  // --- One rearming at full speed -----------------------------------------------------------------------

  /** The high word does not change around a low word read at `v`. */
  predicate Clear(v: nat) { v % W32 != 0 && v % W32 != W32 - 1 }

  lemma ClearReads(v: nat)
    requires Clear(v) && v + 1 < W64
    ensures v >= 1 && Hi(v - 1) == Hi(v + 1) && Join(Hi(v + 1), Lo(v)) == v
  {
    NotTorn(v - 1, v, v + 1);
  }

  /** `n` cycles without an access. */
  function Waited(d: Device, n: nat): (d': Device)
    ensures d'.now == d.now + n && d'.cmp == d.cmp
  {
    if n == 0 then d else Clock(Waited(d, n - 1), Nothing)
  }

  /** increment_timecmp after `n` of its six accesses, begun in state `d` with a clear read. */
  function Stage(d: Device, base: nat, n: nat): (Pc, Device)
  {
    var v := d.now + 1;
    var c1 := Join(Hi(d.cmp), W32 - 1);
    if n == 0 then (ReadHigh, d)
    else if n == 1 then (ReadLow(Hi(d.now)), Waited(d, 1))
    else if n == 2 then (ReadAgain(Hi(d.now), Lo(v)), Waited(d, 2))
    else if n == 3 then (Write1(v), Waited(d, 3))
    else if n == 4 then (Write2(v), Device(d.now + 4, c1, false))
    else if n == 5 then (Write3(v), Device(d.now + 5, Join(Hi(v + base), Lo(c1)), false))
    else (Written(v), Device(d.now + 6, v + base, false))
  }

  /** Nothing in the way of an undisturbed rearming that begins in state `d`. */
  predicate Smooth(d: Device, base: nat)
  {
    Clear(d.now + 1) && d.now + 6 + base < W64 && d.cmp < W64
  }

  lemma StageStep(d: Device, base: nat, n: nat)
    requires Smooth(d, base) && n < 6
    ensures
      var (pc, e) := Stage(d, base, n);
      Advance(pc, e, base) == Stage(d, base, n + 1)
  {
    hide Hi, Lo, Join;
    ClearReads(d.now + 1);
    NeverBelow(d.cmp, d.now + 1 + base);
    assert Target(d.now + 1, base) == d.now + 1 + base;
    assert Hi(d.now) == Hi(d.now + 2) && Join(Hi(d.now), Lo(d.now + 1)) == d.now + 1;
    var (pc, e) := Stage(d, base, n);
    assert e.now == d.now + n && e.now % W64 == e.now;
    assert Stage(d, base, n + 1).1.now == d.now + n + 1;
    if n < 3 {
      assert Waited(d, n + 1) == Clock(Waited(d, n), Nothing);
    } else if n == 4 {
      assert Hi(Target(d.now + 1, base)) == Hi(d.now + 1 + base);
    }
  }

  // --- The laps -----------------------------------------------------------------------------------------

  /** timer_delay at `main`, the last rearming just over; `n` intervals have been counted since the time read at `start`, one
      as soon as possible after the other. */
  function Lap(p: Call, start: nat, n: nat, main: Main): Sys
  {
    var v := Due(start, n, Period(p.base));
    Sys(Device(v + 5, v + p.base, false), true, true, n, p.base, main, NotRunning, start, v, 0)
  }

  function Rearming(s: Sys, d: Device, n: nat): Sys
  {
    s.(dev := Stage(d, s.increment, n).1, handler := Rearm(Stage(d, s.increment, n).0))
  }

  lemma {:induction false} HandlerRuns(p: Call, s: Sys, d: Device, n: nat)
    requires Smooth(d, s.increment) && n <= 6
    ensures Reaches(p, Rearming(s, d, 0), Rearming(s, d, n))
  {
    hide Reaches, Advance;
    if n == 0 {
      ReachesSelf(p, Rearming(s, d, 0));
    } else {
      HandlerRuns(p, s, d, n - 1);
      StageStep(d, s.increment, n - 1);
      assert Step(p, Rearming(s, d, n - 1), RunHandler) == Rearming(s, d, n);
      ThenStep(p, Rearming(s, d, 0), Rearming(s, d, n - 1), RunHandler);
    }
  }

  lemma {:induction false} TicksRun(p: Call, s: Sys, n: nat)
    ensures Reaches(p, s, s.(dev := Waited(s.dev, n)))
  {
    hide Reaches, Clock;
    if n == 0 {
      ReachesSelf(p, s);
    } else {
      TicksRun(p, s, n - 1);
      ThenStep(p, s, s.(dev := Waited(s.dev, n - 1)), Tick);
    }
  }

  /** The interrupt shows as soon as the compare value is reached. */
  lemma {:induction false} WaitedIs(d: Device, n: nat)
    requires n > 0 && d.now + n <= W64
    ensures Waited(d, n).irq == (d.irq || d.now + n - 1 >= d.cmp)
  {
    if n == 1 {
      assert Waited(d, 0) == d;
    } else {
      WaitedIs(d, n - 1);
    }
  }

  /** One more interval, in exactly one period. */
  lemma LapRuns(p: Call, start: nat, n: nat, main: Main)
    requires Clear(Due(start, n + 1, Period(p.base))) && Due(start, n + 1, Period(p.base)) + 5 + p.base < W64
    ensures Reaches(p, Lap(p, start, n, main), Lap(p, start, n + 1, main))
  {
    hide Reaches, Due, Clear;
    DueNext(start, n, Period(p.base));
    var s := Lap(p, start, n, main);
    var m := Period(p.base) - 6;
    TicksRun(p, s, m);
    WaitedIs(s.dev, m);
    var d := Waited(s.dev, m);
    var s1 := s.(dev := d);
    assert Smooth(d, p.base);
    ThenStep(p, s, s1, TakeInterrupt);
    assert Step(p, s1, TakeInterrupt) == Rearming(s1, d, 0);
    HandlerRuns(p, s1, d, 6);
    ReachesTrans(p, s, Rearming(s1, d, 0), Rearming(s1, d, 6));
    LapEnds(p, start, n, main, s1, d);
  }

  /** The two steps of the handler after its last access. */
  lemma LapEnds(p: Call, start: nat, n: nat, main: Main, s1: Sys, d: Device)
    requires s1 == Lap(p, start, n, main).(dev := d) && d.now + 1 == Due(start, n + 1, Period(p.base))
    requires Reaches(p, Lap(p, start, n, main), Rearming(s1, d, 6))
    ensures Reaches(p, Lap(p, start, n, main), Lap(p, start, n + 1, main))
  {
    hide Reaches, Due;
    var s := Lap(p, start, n, main);
    var s2 := Rearming(s1, d, 6);
    ThenStep(p, s, s2, RunHandler);
    var s3 := Step(p, s2, RunHandler);
    ThenStep(p, s, s3, RunHandler);
    assert Step(p, s3, RunHandler) == Lap(p, start, n + 1, main);
  }

  lemma {:induction false} LapsRun(p: Call, start: nat, n: nat, main: Main)
    requires forall i: nat | i <= n :: Clear(Due(start, i, Period(p.base)))
    requires Due(start, n, Period(p.base)) + 5 + p.base < W64
    ensures Reaches(p, Lap(p, start, 0, main), Lap(p, start, n, main))
  {
    hide Reaches, Due, Clear, Lap;
    if n == 0 {
      ReachesSelf(p, Lap(p, start, 0, main));
    } else {
      DueNext(start, n - 1, Period(p.base));
      LapsRun(p, start, n - 1, main);
      LapRuns(p, start, n - 1, main);
      ReachesTrans(p, Lap(p, start, 0, main), Lap(p, start, n - 1, main), Lap(p, start, n, main));
    }
  }

  /** A state on entry with the counter at `now`. */
  function Fresh(now: nat): Sys
  {
    Sys(Device(now, 0, false), false, false, 0, 0, ClearElapsed, NotRunning, 0, 0, 0)
  }

  function Arming(p: Call, d: Device, n: nat): Sys
  {
    var (pc, e) := Stage(d, p.base, n);
    var t := if n >= 3 then d.now + 1 else 0;
    Sys(e, false, false, 0, p.base, Arm(pc), NotRunning, t, t, 0)
  }

  lemma {:induction false} ArmRuns(p: Call, d: Device, n: nat)
    requires Smooth(d, p.base) && n <= 6
    ensures Reaches(p, Arming(p, d, 0), Arming(p, d, n))
  {
    hide Reaches, Advance;
    if n == 0 {
      ReachesSelf(p, Arming(p, d, 0));
    } else {
      ArmRuns(p, d, n - 1);
      StageStep(d, p.base, n - 1);
      assert Step(p, Arming(p, d, n - 1), RunMain) == Arming(p, d, n);
      ThenStep(p, Arming(p, d, 0), Arming(p, d, n - 1), RunMain);
    }
  }

  /** timer_enable without a disturbance. */
  lemma EnableRuns(p: Call, start: nat)
    requires Clear(start) && start + 5 + p.base < W64
    ensures start >= 1 && Reaches(p, Fresh(start - 1), Lap(p, start, 0, StartTimeout))
  {
    hide Reaches;
    ClearReads(start);
    var s0 := Fresh(start - 1);
    var d := s0.dev;
    ReachesStep(p, s0, RunMain);
    ThenStep(p, s0, Step(p, s0, RunMain), RunMain);
    assert Step(p, Step(p, s0, RunMain), RunMain) == Arming(p, d, 0);
    ArmRuns(p, d, 6);
    ReachesTrans(p, s0, Arming(p, d, 0), Arming(p, d, 6));
    EnableEnds(p, start, s0, d);
  }

  lemma EnableEnds(p: Call, start: nat, s0: Sys, d: Device)
    requires d.now + 1 == start && Reaches(p, s0, Arming(p, d, 6))
    ensures Reaches(p, s0, Lap(p, start, 0, StartTimeout))
  {
    hide Reaches;
    var s1 := Arming(p, d, 6);
    ThenStep(p, s0, s1, RunMain);
    var s2 := Step(p, s1, RunMain);
    ThenStep(p, s0, s2, RunMain);
    var s3 := Step(p, s2, RunMain);
    ThenStep(p, s0, s3, RunMain);
    assert Step(p, s3, RunMain) == Lap(p, start, 0, StartTimeout);
  }

  /** With so many intervals counted that the 32-bit timeout wraps to zero, the loop is left at once. */
  lemma LoopIsLeft(p: Call, start: nat, s0: Sys)
    requires 0 < p.ms < W32 && Reaches(p, s0, Lap(p, start, W32 - p.ms, StartTimeout))
    ensures
      var s := Lap(p, start, W32 - p.ms, StartTimeout);
      Reaches(p, s0, s.(main := Done(0), mie := false, elapsed0 := s.elapsed))
  {
    hide Reaches, Due;
    var s := Lap(p, start, W32 - p.ms, StartTimeout);
    ThenStep(p, s0, s, RunMain);
    var s1 := Step(p, s, RunMain);
    assert s1.main == Poll(0);
    ThenStep(p, s0, s1, RunMain);
    var s2 := Step(p, s1, RunMain);
    ThenStep(p, s0, s2, RunMain);
  }

  // --- A start from which every read is clear -----------------------------------------------------------

  /** The residue that added to `x` gives zero. */
  function Opposite(x: nat): (r: nat)
    ensures r < W32
  {
    (W32 - x % W32) % W32
  }

  lemma OppositeOnly(x: nat, r: nat)
    requires r < W32 && !Clear(r + x)
    ensures r == Opposite(x) || r == Opposite(x + 1)
  {
    var q, m := x / W32, x % W32;
    Residue(r + m, q);
    Residue(m + 1, q);
    assert x == m + q * W32;
  }

  lemma Residue(m: nat, q: nat)
    requires m < 2 * W32
    ensures (m + q * W32) % W32 == if m < W32 then m else m - W32
  {
    assert m + q * W32 == (if m < W32 then m else m - W32) + (if m < W32 then q else q + 1) * W32;
  }

  /** The residues from which one of the first `n` reads, a period apart, is not clear. */
  function Spoiled(period: nat, n: nat): (s: set<nat>)
    ensures |s| <= 2 * n
  {
    if n == 0 then {}
    else
      Spoiled(period, n - 1) + {Opposite((n - 1) * period)} + {Opposite((n - 1) * period + 1)}
  }

  lemma {:induction false} SpoiledHasAll(period: nat, n: nat, i: nat)
    requires i < n
    ensures Opposite(i * period) in Spoiled(period, n) && Opposite(i * period + 1) in Spoiled(period, n)
  {
    if i == n - 1 {
    } else {
      SpoiledHasAll(period, n - 1, i);
    }
  }

  lemma {:induction false} Below(n: nat) returns (s: set<nat>)
    ensures |s| == n && forall x: nat :: x in s <==> x < n
  {
    if n == 0 {
      s := {};
    } else {
      s := Below(n - 1);
      s := s + {n - 1};
    }
  }

  lemma SubsetSize(a: set<nat>, b: set<nat>)
    requires a <= b
    ensures |a| <= |b|
  {
    assert b == a + (b - a);
  }

  /** Fewer than 2^31 reads leave a residue that none of them spoils. */
  lemma ClearStart(period: nat, n: nat) returns (start: nat)
    requires 2 * n < W32
    ensures start < W32 && forall i: nat | i < n :: Clear(Due(start, i, period))
  {
    hide Clear, Opposite, Spoiled;
    var all := Below(W32);
    if all <= Spoiled(period, n) {
      SubsetSize(all, Spoiled(period, n));
      assert false;
    }
    start :| start in all && start !in Spoiled(period, n);
    forall i: nat | i < n
      ensures Clear(Due(start, i, period))
    {
      SpoiledHasAll(period, n, i);
      if !Clear(start + i * period) {
        OppositeOnly(i * period, start);
      }
    }
  }

  // --- Main results -------------------------------------------------------------------------------------

  /** The interval is SYSCLK_FREQ / 1000, an int. */
  predicate IntBase(p: Call) { p.base < 0x8000_0000 && p.ms < W32 }

  lemma UnsafeIsFew(p: Call)
    requires IntBase(p) && !Safe(p)
    ensures 0 < p.ms && 2 * (W32 - p.ms + 1) < W32
    ensures W32 + (W32 - p.ms) * Period(p.base) + 5 + p.base < W64
  {
    var k := W32 - p.ms;
    MulUp(k, W32, Period(p.base));
    MulUp(p.base + 2, Period(p.base), k);
    if p.ms <= 0x8000_0001 {
      HalfIsSafe(p);
      assert false;
    }
  }

  lemma HalfIsSafe(p: Call)
    requires IntBase(p) && p.ms <= 0x8000_0001
    ensures Safe(p)
  {
    var k := W32 - p.ms;
    MulUp(p.ms, 0x8000_0001, p.base);
    MulUp(0x7FFF_FFFF, k, p.base + 2);
    MulUp(p.base + 2, Period(p.base), k);
  }

  /** Every argument that is not safe has a run from entry, without any wrap of the 64-bit sums, in which the delay is
      early. */
  lemma EarlyRun(p: Call) returns (s0: Sys, actions: seq<Action>)
    requires IntBase(p) && !Safe(p)
    ensures Entry(s0) && NoWrap(p, Run(p, s0, actions)) && Early(p, Run(p, s0, actions))
    ensures
      var s := Run(p, s0, actions);
      s.main == Done(0) && s.elapsed0 == W32 - p.ms && s.dev.now == s.start + (W32 - p.ms) * Period(p.base) + 5
  {
    hide Run, Clear, Due;
    UnsafeIsFew(p);
    var k := W32 - p.ms;
    var start := ClearStart(Period(p.base), k + 1);
    StartDue(start, k, Period(p.base));
    assert Clear(Due(start, 0, Period(p.base)));
    EnableRuns(p, start);
    LapsRun(p, start, k, StartTimeout);
    s0 := Fresh(start - 1);
    ReachesTrans(p, s0, Lap(p, start, 0, StartTimeout), Lap(p, start, k, StartTimeout));
    LoopIsLeft(p, start, s0);
    var s := Lap(p, start, k, StartTimeout);
    actions :| Run(p, s0, actions) == s.(main := Done(0), mie := false, elapsed0 := s.elapsed);
  }

  lemma StartDue(start: nat, k: nat, period: nat)
    ensures Due(start, 0, period) == start && Due(start, k, period) == start + k * period
  {
  }

  /** The delay is tight: some run from entry counts exactly ms intervals and then leaves the loop, so a loop that waited for
      one interval more, or one less, would be another program. (So many reads that none sees the high word change are
      known to exist below 2^31 only.) */
  lemma OnTimeRun(p: Call) returns (s0: Sys, actions: seq<Action>)
    requires IntBase(p) && p.ms < 0x7FFF_FFFF
    ensures Entry(s0) && NoWrap(p, Run(p, s0, actions))
    ensures
      var s := Run(p, s0, actions);
      && s.main == Done(p.ms) && s.elapsed0 == 0 && s.elapsed == p.ms
      && s.dev.now == s.start + p.ms * Period(p.base) + 5
  {
    hide Run, Clear, Due;
    MulUp(p.ms, 0x7FFF_FFFF, Period(p.base));
    var start := ClearStart(Period(p.base), p.ms + 1);
    StartDue(start, p.ms, Period(p.base));
    assert Clear(Due(start, 0, Period(p.base)));
    EnableRuns(p, start);
    s0 := Fresh(start - 1);
    var s1 := Lap(p, start, 0, Poll(p.ms));
    ThenStep(p, s0, Lap(p, start, 0, StartTimeout), RunMain);
    assert Step(p, Lap(p, start, 0, StartTimeout), RunMain) == s1;
    LapsRun(p, start, p.ms, Poll(p.ms));
    var s2 := Lap(p, start, p.ms, Poll(p.ms));
    ReachesTrans(p, s0, s1, s2);
    ThenStep(p, s0, s2, RunMain);
    var s3 := Step(p, s2, RunMain);
    assert s3 == s2.(main := Disable(p.ms));
    ThenStep(p, s0, s3, RunMain);
    actions :| Run(p, s0, actions) == Step(p, s3, RunMain);
  }

  /** No run from entry, without a wrap of the 64-bit sums, is early. */
  ghost predicate AlwaysLongEnough(p: Call)
  {
    forall s0: Sys, actions: seq<Action> {:trigger Run(p, s0, actions)} ::
      Entry(s0) && NoWrap(p, Run(p, s0, actions)) ==> !Early(p, Run(p, s0, actions))
  }

  /** Exactly when timer_delay waits long enough, in terms of its arguments. */
  lemma DelayIsExact(p: Call)
    requires IntBase(p)
    ensures AlwaysLongEnough(p) <==> Safe(p)
  {
    hide Run, Safe;
    if Safe(p) {
      forall s0: Sys, actions: seq<Action> | Entry(s0) && NoWrap(p, Run(p, s0, actions))
        ensures !Early(p, Run(p, s0, actions))
      {
        NeverEarly(p, s0, actions);
      }
    } else {
      var s0, actions := EarlyRun(p);
    }
  }

  /** A concrete run: with an interval of one cycle and the largest argument, one interrupt before the timeout is computed
      makes it zero, and the loop is left twelve cycles after the start. */
  lemma TwelveCycles() returns (s0: Sys, actions: seq<Action>)
    ensures
      var p := Call(1, 0xFFFF_FFFF);
      var s := Run(p, s0, actions);
      Entry(s0) && NoWrap(p, s) && s.main == Done(0) && s.elapsed0 == 1 && s.dev.now == s.start + 12
  {
    hide Run, NoWrap;
    s0, actions := EarlyRun(Call(1, 0xFFFF_FFFF));
  }

  /** With the interval of one millisecond at 50 MHz the largest safe argument is 2147526596. */
  lemma AtFiftyMegahertz(ms: nat)
    requires ms < W32
    ensures AlwaysLongEnough(Call(50000, ms)) <==> ms <= 2147526596
  {
    hide AlwaysLongEnough;
    DelayIsExact(Call(50000, ms));
  }
}

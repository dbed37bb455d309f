/** rtl/fpga/rst_ctrl.sv: the reset sequencer and the debouncer it feeds back on. */
module RstCtrl {
  import D = Debounce

  /** ResetPhase0Count, ResetPhase1Count, DebounceCount. */
  datatype Config = Config(phase0: nat, phase1: nat, debounce: nat)
  {
    predicate Ok() { phase0 < phase1 }
  }

  datatype Ctrl = Ctrl(counter: nat, rstN: bool, debounceRstN: bool, db: D.Db)

  /** The initial block; the debouncer's registers have no initial value. */
  function PowerUp(garbage: D.Db): Ctrl
  {
    Ctrl(0, true, true, garbage)
  }

  function NextCounter(c: Config, s: Ctrl, pll: bool): nat
  {
    if s.db.btn && s.counter >= c.phase0 then c.phase0
    else if !pll then 0
    else if s.counter < c.phase1 then s.counter + 1
    else s.counter
  }

  /** Phase 1, in which the reset is asserted. */
  predicate Asserts(c: Config, counter: nat) { c.phase0 <= counter < c.phase1 }

  /** The debouncer is reset in phase 1 from its second count on. */
  predicate Clears(c: Config, counter: nat) { c.phase0 < counter < c.phase1 }

  /** One clock edge. The debouncer's reset is a register and acts at once when it falls, and still at the edge on
      which it rises. */
  function Step(c: Config, s: Ctrl, pll: bool, button: bool): Ctrl
  {
    var clear := Clears(c, s.counter) || !s.debounceRstN;
    Ctrl(NextCounter(c, s, pll),
         !Asserts(c, s.counter),
         !Clears(c, s.counter),
         if clear then D.CLEARED else D.Step(c.debounce, s.db, button))
  }

  /** One run: the two inputs in every cycle, and what the debouncer held at power-up. */
  datatype Run = Run(c: Config, garbage: D.Db, pll: nat -> bool, button: nat -> bool)

  function At(r: Run, t: nat): (s: Ctrl)
    ensures r.c.Ok() ==> s.counter <= r.c.phase1
  {
    if t == 0 then PowerUp(r.garbage) else Step(r.c, At(r, t - 1), r.pll(t - 1), r.button(t - 1))
  }

  /** The level of rst_no. */
  predicate RstN(r: Run, t: nat) { At(r, t).rstN }

  /** rst_no is low from `from` until before `to`. */
  ghost predicate Low(r: Run, from: nat, to: nat)
  {
    forall t: nat | from <= t < to :: !RstN(r, t)
  }

  ghost predicate High(r: Run, from: nat, to: nat)
  {
    forall t: nat | from <= t < to :: RstN(r, t)
  }

  // --- Pulses ---------------------------------------------------------------------------------------

  /** The counter rises by at most one a cycle. */
  lemma {:induction false} Climbs(r: Run, t: nat, k: nat)
    requires r.c.Ok()
    ensures At(r, t + k).counter <= At(r, t).counter + k
  {
    if k == 0 {
    } else {
      Climbs(r, t, k - 1);
    }
  }

  lemma CounterStep(r: Run, t: nat)
    ensures At(r, t + 1).counter == NextCounter(r.c, At(r, t), r.pll(t))
  {
  }

  lemma RstNIs(r: Run, t: nat)
    ensures RstN(r, t + 1) == !Asserts(r.c, At(r, t).counter)
  {
  }

  /** A low pulse ends only through the end of phase 1, unless the PLL is lost in its last counted cycle; and it
      begins at the beginning of phase 1. So it lasts the whole of phase 1, whatever the button does. */
  lemma LowPulse(r: Run, from: nat, to: nat)
    requires r.c.Ok() && 1 <= from < to
    requires RstN(r, from - 1) && Low(r, from, to) && RstN(r, to)
    requires r.pll(to - 2)
    ensures to - from >= r.c.phase1 - r.c.phase0
  {
    hide At, RstN;
    assert !RstN(r, from) && !RstN(r, to - 1);
    RstNIs(r, to - 1);
    RstNIs(r, to - 2);
    CounterStep(r, to - 2);
    PulseBegins(r, from);
    assert At(r, to - 1).counter == r.c.phase1;
    Climbs(r, from - 1, to - from);
  }

  lemma PulseBegins(r: Run, from: nat)
    requires r.c.Ok() && from >= 1 && RstN(r, from - 1) && !RstN(r, from)
    ensures At(r, from - 1).counter == r.c.phase0
  {
    if from >= 2 {
      RstNIs(r, from - 2);
    }
  }

  /** The counter has just reached the end of phase 1 after counting all of it. */
  ghost predicate Counted(r: Run, t: nat)
  {
    var n := r.c.phase1 - r.c.phase0;
    n <= t && forall u: nat {:trigger At(r, u)} | t - n <= u <= t :: At(r, u).counter == r.c.phase1 - (t - u)
  }

  /** Whoever finds the counter at its end, having seen it at most at the beginning of phase 1 earlier, finds a
      complete count in between. */
  lemma {:induction false} CountedBetween(r: Run, t: nat, u: nat) returns (v: nat)
    requires r.c.Ok() && t <= u && At(r, t).counter <= r.c.phase0 && At(r, u).counter == r.c.phase1
    ensures t + (r.c.phase1 - r.c.phase0) <= v <= u && Counted(r, v)
  {
    hide At;
    if t < u && At(r, u - 1).counter == r.c.phase1 {
      v := CountedBetween(r, t, u - 1);
    } else {
      v := u;
      var n := r.c.phase1 - r.c.phase0;
      CountBack(r, t, u, n);
      forall w: nat | u - n <= w <= u
        ensures At(r, w).counter == r.c.phase1 - (u - w)
      {
        CountBack(r, t, u, u - w);
      }
    }
  }

  lemma {:induction false} CountBack(r: Run, t: nat, u: nat, i: nat)
    requires r.c.Ok() && t < u && At(r, t).counter <= r.c.phase0
    requires At(r, u).counter == r.c.phase1 && At(r, u - 1).counter != r.c.phase1
    requires i <= r.c.phase1 - r.c.phase0
    ensures i <= u - t && At(r, u - i).counter == r.c.phase1 - i
  {
    hide At;
    if i == 0 {
    } else if i == 1 {
      CounterStep(r, u - 1);
    } else {
      CountBack(r, t, u, i - 1);
      assert u - (i - 1) > t;
      CounterStep(r, u - i);
    }
  }

  /** A complete count is a complete low pulse. */
  lemma CountedIsPulse(r: Run, t: nat)
    requires r.c.Ok() && Counted(r, t)
    ensures Low(r, t + 1 - (r.c.phase1 - r.c.phase0), t + 1) && RstN(r, t + 1)
  {
    var n := r.c.phase1 - r.c.phase0;
    forall u: nat | t + 1 - n <= u < t + 1
      ensures !RstN(r, u)
    {
      RstNIs(r, u - 1);
    }
    RstNIs(r, t);
  }

  // --- Release --------------------------------------------------------------------------------------

  /** From `t` on the PLL is locked and nobody touches the button. */
  ghost predicate Calm(r: Run, t: nat)
  {
    forall u: nat {:trigger r.pll(u)} {:trigger r.button(u)} | u >= t :: r.pll(u) && !r.button(u)
  }

  /** A released button shows through the debouncer after DebounceCount + 1 cycles, whatever the debouncer held. */
  lemma {:induction false} Settles(r: Run, t: nat, k: nat)
    requires r.c.Ok() && Calm(r, t)
    ensures var db := At(r, t + k).db; db.btn ==> k <= r.c.debounce && k <= db.cnt
  {
    if k == 0 {
    } else {
      Settles(r, t, k - 1);
      assert !r.button(t + k - 1);
    }
  }

  /** From then on the counter runs to its end and stays there. */
  lemma {:induction false} RunsOut(r: Run, t: nat, k: nat)
    requires r.c.Ok() && Calm(r, t)
    ensures
      var n := At(r, t + r.c.debounce + 1 + k).counter;
      n == r.c.phase1 || n >= k
  {
    if k == 0 {
    } else {
      RunsOut(r, t, k - 1);
      Settles(r, t, r.c.debounce + k);
      assert r.pll(t + r.c.debounce + k);
    }
  }

  lemma StaysReleased(r: Run, t: nat, u: nat)
    requires r.c.Ok() && Calm(r, t) && u >= t + r.c.debounce + 1 + r.c.phase1
    ensures At(r, u).counter == r.c.phase1
  {
    RunsOut(r, t, u - t - r.c.debounce - 1);
  }

  /** One whole reset pulse begins after `t`, and the reset is released for good by a fixed bound. */
  ghost predicate PulseThenRelease(r: Run, t: nat, v: nat)
    requires r.c.Ok()
  {
    && t + (r.c.phase1 - r.c.phase0) <= v <= t + r.c.debounce + 1 + r.c.phase1
    && Low(r, v + 1 - (r.c.phase1 - r.c.phase0), v + 1)
    && RstN(r, v + 1)
    && forall u: nat | u >= t + r.c.debounce + 2 + r.c.phase1 :: RstN(r, u)
  }

  lemma PulseFrom(r: Run, t: nat) returns (v: nat)
    requires r.c.Ok() && At(r, t).counter <= r.c.phase0 && Calm(r, t)
    ensures PulseThenRelease(r, t, v)
  {
    hide At, RstN;
    StaysReleased(r, t, t + r.c.debounce + 1 + r.c.phase1);
    v := CountedBetween(r, t, t + r.c.debounce + 1 + r.c.phase1);
    CountedIsPulse(r, v);
    forall u: nat | u >= t + r.c.debounce + 2 + r.c.phase1
      ensures RstN(r, u)
    {
      StaysReleased(r, t, u - 1);
      RstNIs(r, u - 1);
    }
  }

  /** Power-on: from any contents of the debouncer, with the button released, reset is asserted and then released
      within a fixed bound. */
  lemma PowerOnReset(r: Run) returns (v: nat)
    requires r.c.Ok() && Calm(r, 0)
    ensures PulseThenRelease(r, 0, v)
  {
    v := PulseFrom(r, 0);
  }

  /** From a count of zero the reset is released for the next ResetPhase0Count cycles, whatever button and lock do. */
  lemma {:induction false} PhaseZero(r: Run, t: nat, k: nat)
    requires r.c.Ok() && At(r, t).counter == 0 && k <= r.c.phase0
    ensures At(r, t + k).counter <= k && (k >= 1 ==> RstN(r, t + k))
  {
    if k == 0 {
    } else {
      PhaseZero(r, t, k - 1);
    }
  }

  /** A loss of lock at `t` takes the counter back to phase 0, or leaves it at the beginning of phase 1 while the
      button is held. */
  lemma PllLoss(r: Run, t: nat)
    requires r.c.Ok() && !r.pll(t)
    ensures At(r, t + 1).counter <= r.c.phase0
    ensures !(At(r, t).db.btn && At(r, t).counter >= r.c.phase0) ==> At(r, t + 1).counter == 0
  {
  }

  /** Safety after a loss of lock at `t`: however the lock and the button behave afterwards, the counter is not at
      its end again before a complete pulse, all of it counted with the PLL locked. */
  lemma NoReleaseWithoutPulse(r: Run, t: nat, u: nat) returns (v: nat)
    requires r.c.Ok() && !r.pll(t) && t < u && At(r, u).counter == r.c.phase1
    ensures t + 1 + (r.c.phase1 - r.c.phase0) <= v <= u && Counted(r, v)
    ensures Low(r, v + 1 - (r.c.phase1 - r.c.phase0), v + 1) && RstN(r, v + 1)
    ensures forall w: nat {:trigger r.pll(w)} | v - (r.c.phase1 - r.c.phase0) <= w < v :: r.pll(w)
  {
    hide At, RstN;
    PllLoss(r, t);
    v := CountedBetween(r, t + 1, u);
    CountedIsPulse(r, v);
    forall w: nat {:trigger r.pll(w)} | v - (r.c.phase1 - r.c.phase0) <= w < v
      ensures r.pll(w)
    {
      CountsOnlyLocked(r, w);
    }
  }

  lemma CountsOnlyLocked(r: Run, t: nat)
    requires r.c.Ok() && At(r, t).counter >= r.c.phase0 && At(r, t + 1).counter == At(r, t).counter + 1
    ensures r.pll(t)
  {
  }

  /** Liveness after a loss of lock at `t`: once the PLL has relocked for good and the button is released, there is a
      complete new pulse and then a release, whatever happened in between. */
  lemma RelockResets(r: Run, t: nat, relock: nat) returns (v: nat)
    requires r.c.Ok() && !r.pll(t) && t < relock && Calm(r, relock)
    ensures t + 1 + (r.c.phase1 - r.c.phase0) <= v <= relock + r.c.debounce + 1 + r.c.phase1
    ensures Low(r, v + 1 - (r.c.phase1 - r.c.phase0), v + 1) && RstN(r, v + 1)
    ensures forall u: nat | u >= relock + r.c.debounce + 2 + r.c.phase1 :: RstN(r, u)
  {
    hide At, RstN;
    var end := relock + r.c.debounce + 1 + r.c.phase1;
    StaysReleased(r, relock, end);
    v := NoReleaseWithoutPulse(r, t, end);
    forall u: nat | u >= end + 1
      ensures RstN(r, u)
    {
      StaysReleased(r, relock, u - 1);
      RstNIs(r, u - 1);
    }
  }

  // --- The button -------------------------------------------------------------------------------------

  /** The button is held from `t` until before `u`. */
  ghost predicate Held(r: Run, t: nat, u: nat)
  {
    forall v: nat | t <= v < u :: r.button(v)
  }

  /** A held button holds the reset: once the debounced button is high at the beginning of phase 1 or in phase 2, with the
      debouncer out of reset, it stays high, the counter stands at the beginning of phase 1 and the reset stays asserted
      for as long as the button is held, whatever the PLL does. */
  lemma {:induction false} HeldButton(r: Run, t: nat, k: nat)
    requires r.c.Ok() && k >= 1 && Held(r, t, t + k)
    requires At(r, t).db.btn && At(r, t).debounceRstN && At(r, t).counter in {r.c.phase0, r.c.phase1}
    ensures
      var s := At(r, t + k);
      s.db.btn && s.debounceRstN && s.counter == r.c.phase0 && (k >= 2 ==> !s.rstN)
  {
    if k == 1 {
      assert r.button(t);
    } else {
      HeldButton(r, t, k - 1);
      assert r.button(t + k - 1);
    }
  }

  /** A press in phase 2 is seen through the debouncer after DebounceCount + 1 cycles at the latest. */
  lemma {:induction false} PressShows(r: Run, t: nat, k: nat) returns (v: nat)
    requires r.c.Ok() && k <= r.c.debounce + 1 && Held(r, t, t + k)
    requires At(r, t).counter == r.c.phase1 && At(r, t).debounceRstN
    requires forall w: nat {:trigger r.pll(w)} | t <= w < t + k :: r.pll(w)
    ensures t <= v <= t + k
    ensures var s := At(r, v); s.counter == r.c.phase1 && s.debounceRstN && (s.db.btn || (v == t + k && s.db.cnt >= k))
    ensures k == r.c.debounce + 1 ==> At(r, v).db.btn
  {
    if k == 0 {
      v := t;
    } else {
      v := PressShows(r, t, k - 1);
      if !At(r, v).db.btn {
        assert r.button(t + k - 1) && r.pll(t + k - 1);
        v := t + k;
      }
    }
  }

  /** Every press longer than DebounceCount cycles, in a running system with the PLL locked, asserts the reset within
      DebounceCount + 3 cycles and holds it until the button is released. */
  lemma PressResets(r: Run, t: nat, u: nat)
    requires r.c.Ok() && t + r.c.debounce + 3 <= u && Held(r, t, u)
    requires At(r, t).counter == r.c.phase1 && At(r, t).debounceRstN
    requires forall w: nat {:trigger r.pll(w)} | t <= w < u :: r.pll(w)
    ensures !RstN(r, u) && At(r, u).counter == r.c.phase0
  {
    var v := PressShows(r, t, r.c.debounce + 1);
    HeldButton(r, v, u - v);
  }

  // --- The feedback through the debouncer -----------------------------------------------------------

  /** After the debouncer was cleared at `t`, its output cannot rise for DebounceCount + 1 cycles. */
  lemma {:induction false} ClearHolds(r: Run, t: nat, k: nat)
    requires At(r, t).db == D.CLEARED && k <= r.c.debounce
    ensures var db := At(r, t + k).db; !db.btn && db.cnt <= k
  {
    if k == 0 {
    } else {
      ClearHolds(r, t, k - 1);
    }
  }

  /** With at least two counts in phase 1 the sequencer clears the debouncer on its way out, so every high period
      between two low pulses lasts DebounceCount + 3 cycles or more while the PLL stays locked: a press that began
      during a reset does not cut the next run of the system short. */
  lemma HighPulse(r: Run, from: nat, to: nat)
    requires r.c.Ok() && r.c.phase0 + 2 <= r.c.phase1
    requires 2 <= from < to
    requires !RstN(r, from - 1) && High(r, from, to) && !RstN(r, to)
    requires forall t: nat | from - 2 <= t < to :: r.pll(t)
    ensures to - from >= r.c.debounce + 3
  {
    hide At, RstN;
    assert RstN(r, from) && RstN(r, to - 1);
    RstNIs(r, from - 1);
    RstNIs(r, from - 2);
    assert r.pll(from - 2) && r.pll(to - 2);
    ClearedAtRelease(r, from);
    StaysOut(r, from - 1, to - 2);
    LeavesByButton(r, to);
    if to - from < r.c.debounce + 3 && from <= to - 2 {
      ClearHolds(r, from, to - 2 - from);
    }
  }

  lemma ClearedAtRelease(r: Run, from: nat)
    requires r.c.Ok() && r.c.phase0 + 2 <= r.c.phase1 && from >= 2 && r.pll(from - 2)
    requires Asserts(r.c, At(r, from - 2).counter) && !Asserts(r.c, At(r, from - 1).counter)
    ensures At(r, from).db == D.CLEARED && At(r, from - 1).counter == r.c.phase1 && !At(r, from - 1).db.btn
  {
    assert At(r, from - 1) == Step(r.c, At(r, from - 2), r.pll(from - 2), r.button(from - 2));
  }

  /** Out of phase 1 and locked, the counter stays at its end for as long as the output stays high. */
  lemma {:induction false} StaysOut(r: Run, t: nat, u: nat)
    requires r.c.Ok() && t <= u && At(r, t).counter == r.c.phase1
    requires High(r, t + 1, u + 2) && forall w: nat | t <= w < u :: r.pll(w)
    ensures At(r, u).counter == r.c.phase1
  {
    if t == u {
    } else {
      StaysOut(r, t, u - 1);
      assert RstN(r, u + 1) && r.pll(u - 1);
    }
  }

  lemma LeavesByButton(r: Run, to: nat)
    requires r.c.Ok() && to >= 2 && r.pll(to - 2) && At(r, to - 2).counter == r.c.phase1 && !RstN(r, to)
    ensures At(r, to - 2).db.btn
  {
    RstNIs(r, to - 1);
    CounterStep(r, to - 2);
  }

  /** A high period of the output between two low pulses, with the PLL locked. */
  ghost predicate LockedHigh(r: Run, from: nat, to: nat)
  {
    && 2 <= from < to
    && !RstN(r, from - 1) && High(r, from, to) && !RstN(r, to)
    && forall t: nat | from - 2 <= t < to :: r.pll(t)
  }

  /** In every run with this configuration every such period lasts DebounceCount + 3 cycles. */
  ghost predicate AlwaysLong(c: Config)
  {
    forall r: Run, from: nat, to: nat {:trigger LockedHigh(r, from, to)} ::
      r.c == c && LockedHigh(r, from, to) ==> to - from >= c.debounce + 3
  }

  /** With the PLL locked and a press that the debouncer lets through one cycle after the beginning of phase 1. */
  function PressAtPhase1(c: Config): Run
  {
    Run(c, D.Db(if c.debounce >= c.phase0 then c.debounce - c.phase0 else 0, false),
        t => true, (t: nat) => t + c.debounce >= c.phase0)
  }

  /** Until phase 1 the sequencer counts and so does the debouncer, from the press on. */
  lemma {:induction false} Approach(c: Config, t: nat)
    requires c.phase1 == c.phase0 + 1 && t <= c.phase0
    ensures At(PressAtPhase1(c), t) ==
            Ctrl(t, true, true, D.Db(if t + c.debounce >= c.phase0 then t + c.debounce - c.phase0 else 0, false))
  {
    if t == 0 {
    } else {
      Approach(c, t - 1);
    }
  }

  /** With one count in phase 1 the sequencer never clears the debouncer, and the high period lasts one cycle. */
  lemma OneCountIsShort(c: Config)
    requires c.phase1 == c.phase0 + 1
    ensures LockedHigh(PressAtPhase1(c), c.phase0 + 2, c.phase0 + 3)
  {
    var r, p := PressAtPhase1(c), c.phase0;
    Approach(c, p);
    var s1, s2 := At(r, p + 1), At(r, p + 2);
    assert s1.counter == p + 1 && !s1.rstN && s1.db.btn && s1.debounceRstN;
    assert s2.counter == p && s2.rstN;
    assert !At(r, p + 3).rstN;
  }

  /** Exactly which configurations keep every run of the system that long: those with two counts in phase 1. */
  lemma HighPulseIff(c: Config)
    requires c.Ok()
    ensures AlwaysLong(c) <==> c.phase0 + 2 <= c.phase1
  {
    hide RstN, High;
    if c.phase0 + 2 <= c.phase1 {
      forall r: Run, from: nat, to: nat {:trigger LockedHigh(r, from, to)} | r.c == c && LockedHigh(r, from, to)
        ensures to - from >= c.debounce + 3
      {
        HighPulse(r, from, to);
      }
    } else {
      OneCountIsShort(c);
    }
  }

  // --- The module as registers ------------------------------------------------------------------------

  class RstController {
    const c: Config
    const debouncer: D.Debouncer
    var resetCounter: nat
    var rstN: bool
    var debounceRstN: bool

    function State(): Ctrl
      reads this, debouncer
    {
      Ctrl(resetCounter, rstN, debounceRstN, debouncer.State())
    }

    constructor (c: Config, garbage: D.Db)
      ensures this.c == c && debouncer.clkCount == c.debounce && State() == PowerUp(garbage)
    {
      this.c := c;
      debouncer := new D.Debouncer(c.debounce, garbage);
      resetCounter, rstN, debounceRstN := 0, true, true;
    }

    method ClockEdge(pll: bool, button: bool)
      requires debouncer.clkCount == c.debounce
      modifies this, debouncer
      ensures State() == Step(c, old(State()), pll, button)
    {
      var next := resetCounter;
      if debouncer.btn && resetCounter >= c.phase0 {
        next := c.phase0;
      } else if pll {
        if resetCounter < c.phase1 {
          next := next + 1;
        }
      } else {
        next := 0;
      }
      debouncer.ClockEdge(debounceRstN, button);
      rstN := if resetCounter < c.phase0 then true else if resetCounter < c.phase1 then false else true;
      debounceRstN := if resetCounter <= c.phase0 then true else if resetCounter < c.phase1 then false else true;
      resetCounter := next;
      if !debounceRstN {
        debouncer.Clear();
      }
    }
  }
}

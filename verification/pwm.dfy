/** rtl/system/pwm.sv. */
module Pwm {
  import opened Integers

  datatype Pwm = Pwm(counter: nat, out: bool)

  /** A clock edge with pulse_width_i = `width` and max_counter_i = `max`. */
  function Step(width: nat, max: nat, s: Pwm): Pwm
  {
    if max == 0 then Pwm(0, false)
    else Pwm(if s.counter < max then s.counter + 1 else 0, width > s.counter)
  }

  function After(width: nat, max: nat, s: Pwm, n: nat): Pwm
  {
    if n == 0 then s else Step(width, max, After(width, max, s, n - 1))
  }

  /** In how many of the `n` cycles after `s` the output is high. */
  function HighCycles(width: nat, max: nat, s: Pwm, n: nat): nat
  {
    if n == 0 then 0
    else HighCycles(width, max, s, n - 1) + if After(width, max, s, n).out then 1 else 0
  }

  function Min(a: nat, b: nat): nat { if a < b then a else b }

  /** Before the counter wraps it has run through a stretch of consecutive values. */
  lemma {:induction false} BeforeWrap(width: nat, max: nat, s: Pwm, n: nat)
    requires max > 0 && s.counter + n <= max
    ensures After(width, max, s, n).counter == s.counter + n
    ensures HighCycles(width, max, s, n) == Min(s.counter + n, width) - Min(s.counter, width)
  {
    if n == 0 {
    } else {
      BeforeWrap(width, max, s, n - 1);
    }
  }

  /** After it has wrapped once it has also run through the values from zero on. */
  lemma {:induction false} AfterWrap(width: nat, max: nat, s: Pwm, n: nat)
    requires max > 0 && s.counter <= max && n <= max
    ensures
      var m := max - s.counter + 1 + n;
      && After(width, max, s, m).counter == n
      && HighCycles(width, max, s, m) == Min(max + 1, width) - Min(s.counter, width) + Min(n, width)
  {
    if n == 0 {
      BeforeWrap(width, max, s, max - s.counter);
    } else {
      AfterWrap(width, max, s, n - 1);
    }
  }

  /** Exact duty: in every window of max + 1 cycles that starts with the counter in range the output is high in
      exactly min(width, max + 1) of them. */
  lemma ExactDuty(width: nat, max: nat, s: Pwm)
    requires max > 0 && s.counter <= max
    ensures HighCycles(width, max, s, max + 1) == Min(width, max + 1)
    ensures After(width, max, s, max + 1).counter == s.counter
  {
    if s.counter == 0 {
      AfterWrap(width, max, s, 0);
    } else {
      AfterWrap(width, max, s, s.counter);
    }
  }

  /** From any counter value, in range or left over from a larger maximum, every later window is exact. */
  lemma {:induction false} DutySettles(width: nat, max: nat, s: Pwm, n: nat)
    requires max > 0 && n >= 1
    ensures After(width, max, s, n).counter <= max
    ensures HighCycles(width, max, After(width, max, s, n), max + 1) == Min(width, max + 1)
  {
    if n <= 1 {
    } else {
      DutySettles(width, max, s, n - 1);
    }
    ExactDuty(width, max, After(width, max, s, n));
  }

  /** A zero maximum switches the output off, from the next cycle on. */
  lemma {:induction false} ZeroIsOff(width: nat, s: Pwm, n: nat)
    requires n >= 1
    ensures After(width, 0, s, n) == Pwm(0, false) && HighCycles(width, 0, s, n) <= if s.out then 1 else 0
  {
    if n == 1 {
      assert After(width, 0, s, 0) == s && HighCycles(width, 0, s, 0) == 0;
    } else {
      ZeroIsOff(width, s, n - 1);
    }
  }

  /** The ratio width / max that the source's comment gives for the duty is right for the zero width only. */
  lemma CommentedDuty(width: nat, max: nat, s: Pwm)
    requires max > 0 && s.counter <= max
    ensures HighCycles(width, max, s, max + 1) * max == width * (max + 1) <==> width == 0
  {
    hide HighCycles;
    ExactDuty(width, max, s);
    Ratios(Min(width, max + 1), width, max);
  }

  lemma Ratios(high: nat, width: nat, max: nat)
    requires max > 0 && high == Min(width, max + 1)
    ensures high * max == width * (max + 1) <==> width == 0
  {
    assert width * (max + 1) == width * max + width;
    MulUp(high, width, max);
  }

  class PwmChannel {
    var counter: nat
    var modulated: bool

    function State(): Pwm
      reads this
    {
      Pwm(counter, modulated)
    }

    constructor ()
      ensures State() == Pwm(0, false)
    {
      counter, modulated := 0, false;
    }

    method ClockEdge(width: nat, max: nat)
      modifies this
      ensures State() == Step(width, max, old(State()))
    {
      if max == 0 {
        counter := 0;
        modulated := false;
      } else {
        modulated := width > counter;
        if counter < max { counter := counter + 1; } else { counter := 0; }
      }
    }
  }
}

/** rtl/system/pwm_wrapper.sv and the driver of sw/c/common/pwm.c. */
module PwmWrapper {
  import P = Pwm

  /** What the device bus asks for in a cycle. */
  datatype Request = Idle | Read(addr: nat) | Write(addr: nat, data: nat)

  datatype Channel = Channel(max: nat, width: nat, pwm: P.Pwm)

  /** Address bits 9 to 3 select the channel, bit 2 the register: 1 the maximum, 0 the pulse width. */
  predicate Selects(req: Request, i: nat, upper: bool)
  {
    req.Write? && req.addr / 8 % 128 == i % 128 && (req.addr / 4 % 2 == 1) == upper
  }

  /** One channel at a clock edge; `modulus` is 2 to the power PwmCtrSize. */
  function Step(modulus: nat, i: nat, ch: Channel, req: Request): Channel
    requires modulus > 0
  {
    Channel(if Selects(req, i, true) then req.data % modulus else ch.max,
            if Selects(req, i, false) then req.data % modulus else ch.width,
            P.Step(ch.width, ch.max, ch.pwm))
  }

  /** The registers software can write. */
  function Registers(ch: Channel): (nat, nat) { (ch.max, ch.width) }

  /** The address of word `word` of channel `i` (PWM_FROM_ADDR_AND_INDEX and pwm_t indexing), with a base aligned
      to the register window. */
  function Address(base: nat, i: nat, word: nat): nat
  {
    base + 8 * i + 4 * word
  }

  /** With at most 128 channels an address reaches one register of one channel. */
  lemma Decode(base: nat, i: nat, word: nat, j: nat, upper: bool, data: nat)
    requires base % 1024 == 0 && i < 128 && j < 128 && word < 2
    ensures Selects(Write(Address(base, i, word), data), j, upper) <==> i == j && (word == 1) == upper
  {
    var a, b := Address(base, i, word), base / 1024;
    DivMod(a, 8, 128 * b + i, 4 * word);
    DivMod(a, 4, 2 * (128 * b + i) + word, 0);
    DivMod(128 * b + i, 128, b, i);
    DivMod(2 * (128 * b + i) + word, 2, 128 * b + i, word);
  }

  lemma DivMod(a: nat, d: nat, q: nat, r: nat)
    requires d in {2, 4, 8, 128} && r < d && a == d * q + r
    ensures a / d == q && a % d == r
  {
    if d == 2 {
      assert a == 2 * q + r;
    } else if d == 4 {
      assert a == 4 * q + r;
    } else if d == 8 {
      assert a == 8 * q + r;
    } else {
      assert a == 128 * q + r;
    }
  }

  class Wrapper {
    const modulus: nat
    const channels: array<Channel>
    var rvalid: bool

    constructor (modulus: nat, n: nat)
      requires modulus > 0
      ensures this.modulus == modulus && channels.Length == n && fresh(channels)
      ensures forall i | 0 <= i < n :: channels[i] == Channel(0, 0, P.Pwm(0, false))
    {
      this.modulus := modulus;
      channels := new Channel[n](_ => Channel(0, 0, P.Pwm(0, false)));
      rvalid := false;
    }

    method ClockEdge(req: Request)
      requires modulus > 0
      modifies this, channels
      ensures forall i | 0 <= i < channels.Length :: channels[i] == Step(modulus, i, old(channels[i]), req)
      ensures rvalid == !req.Idle?
    {
      for i := 0 to channels.Length
        modifies channels
        invariant forall j | 0 <= j < i :: channels[j] == Step(modulus, j, old(channels[j]), req)
        invariant forall j | i <= j < channels.Length :: channels[j] == old(channels[j])
      {
        var ch := channels[i];
        var max', width' := ch.max, ch.width;
        if req.Write? && req.addr / 8 % 128 == i % 128 {
          if req.addr / 4 % 2 == 1 { max' := req.data % modulus; } else { width' := req.data % modulus; }
        }
        channels[i] := Channel(max', width', P.Step(ch.width, ch.max, ch.pwm));
      }
      rvalid := !req.Idle?;
    }

    /** Cycles without a request leave every register alone. */
    method Wait(n: nat)
      requires modulus > 0
      modifies this, channels
      ensures forall i | 0 <= i < channels.Length :: Registers(channels[i]) == old(Registers(channels[i]))
    {
      for k := 0 to n
        invariant forall i | 0 <= i < channels.Length :: Registers(channels[i]) == old(Registers(channels[i]))
      {
        ClockEdge(Idle);
      }
    }

    /** set_pwm: channel `i` gets both values, truncated to the counter width, and no other channel's registers change,
        however many cycles pass before each of the two writes. */
    method SetPwm(base: nat, i: nat, counter: nat, width: nat, gaps: (nat, nat))
      requires modulus > 0 && base % 1024 == 0 && channels.Length <= 128 && i < channels.Length
      modifies this, channels
      ensures forall j | 0 <= j < channels.Length ::
                Registers(channels[j]) == if j == i then (counter % modulus, width % modulus) else old(Registers(channels[j]))
    {
      forall j: nat, word: nat, upper: bool, data: nat | j < 128 && word < 2
        ensures Selects(Write(Address(base, i, word), data), j, upper) <==> i == j && (word == 1) == upper
      {
        Decode(base, i, word, j, upper, data);
      }
      Wait(gaps.0);
      ClockEdge(Write(Address(base, i, 1), counter));
      Wait(gaps.1);
      ClockEdge(Write(Address(base, i, 0), width));
    }
  }

  /** A channel nobody writes. */
  function AfterIdle(modulus: nat, i: nat, ch: Channel, n: nat): Channel
    requires modulus > 0
  {
    if n == 0 then ch else Step(modulus, i, AfterIdle(modulus, i, ch, n - 1), Idle)
  }

  lemma {:induction false} AfterIdleIs(modulus: nat, i: nat, ch: Channel, n: nat)
    requires modulus > 0
    ensures AfterIdle(modulus, i, ch, n) == ch.(pwm := P.After(ch.width, ch.max, ch.pwm, n))
  {
    if n == 0 {
    } else {
      AfterIdleIs(modulus, i, ch, n - 1);
    }
  }

  /** After a set_pwm, from the second cycle on, every window of counter + 1 cycles of that channel's pin is high for
      min(width, counter + 1) cycles; so the pin is always on exactly when width > counter. */
  lemma DutyAfterSet(modulus: nat, i: nat, ch: Channel, n: nat)
    requires modulus > 0 && ch.max > 0 && n >= 1
    ensures
      var later := AfterIdle(modulus, i, ch, n);
      && Registers(later) == Registers(ch)
      && P.HighCycles(ch.width, ch.max, later.pwm, ch.max + 1) == P.Min(ch.width, ch.max + 1)
      && (P.HighCycles(ch.width, ch.max, later.pwm, ch.max + 1) == ch.max + 1 <==> ch.width > ch.max)
  {
    AfterIdleIs(modulus, i, ch, n);
    P.DutySettles(ch.width, ch.max, ch.pwm, n);
  }
}

/** The machine timer seen through its 32-bit registers, and the two-word read loops of sw/c/common/timer.c and
    sw/rust/ibex-demo-system-hal/src/timer.rs. */
module TimerWords {
  import opened Integers

  const W64: nat := 0x1_0000_0000_0000_0000

  function Lo(x: nat): (l: nat)
    ensures l < W32
  {
    x % W32
  }

  function Hi(x: nat): (h: nat)
    ensures h < W32
  {
    x / W32 % W32
  }

  function Join(hi: nat, lo: nat): nat { hi * W32 + lo }

  lemma JoinIs(x: nat)
    requires x < W64
    ensures Join(Hi(x), Lo(x)) == x
    ensures Hi(x) == x / W32
  {
  }

  lemma Halves(hi: nat, lo: nat)
    requires hi < W32 && lo < W32
    ensures Join(hi, lo) < W64 && Hi(Join(hi, lo)) == hi && Lo(Join(hi, lo)) == lo
  {
  }

  /** The heart of the loop: equal high words around the low read mean that the joined value is the counter at the
      instant of the low read. */
  lemma NotTorn(t1: nat, t2: nat, t3: nat)
    requires t1 <= t2 <= t3 < W64 && Hi(t1) == Hi(t3)
    ensures Join(Hi(t1), Lo(t2)) == t2
  {
    JoinIs(t2);
    assert t1 / W32 <= t2 / W32 <= t3 / W32;
  }

  /** timecmp_update and set_cmp write the low word to all ones first. The three values the comparator takes are never
      below the smaller of the old and the new one, and the last is the new one. */
  lemma NeverBelow(was: nat, next: nat)
    requires was < W64 && next < W64
    ensures
      var c1 := Join(Hi(was), W32 - 1);
      var c2 := Join(Hi(next), Lo(c1));
      var c3 := Join(Hi(c2), Lo(next));
      c1 >= was && c2 >= next && c3 == next
  {
    JoinIs(was);
    JoinIs(next);
  }

  datatype Outcome = Ready | WouldBlock | Panic

  /** A hart reading mtime: its k-th bus access finds the counter at `mtime(k)`. */
  class Port {
    const mtime: nat -> nat
    var accesses: nat

    constructor (mtime: nat -> nat)
      ensures this.mtime == mtime && accesses == 0
    {
      this.mtime, accesses := mtime, 0;
    }

    /** The counter does not go back and does not wrap. */
    ghost predicate Steady()
    {
      && (forall k: nat :: mtime(k) < W64)
      && forall j: nat, k: nat | j <= k :: mtime(j) <= mtime(k)
    }

    method ReadHigh() returns (v: nat)
      modifies this
      ensures accesses == old(accesses) + 1 && v == Hi(mtime(old(accesses)))
    {
      v := Hi(mtime(accesses));
      accesses := accesses + 1;
    }

    method ReadLow() returns (v: nat)
      modifies this
      ensures accesses == old(accesses) + 1 && v == Lo(mtime(old(accesses)))
    {
      v := Lo(mtime(accesses));
      accesses := accesses + 1;
    }

    /** The body of the loop: high word, low word, high word again. */
    method Round() returns (high: nat, low: nat, again: nat)
      modifies this
      ensures accesses == old(accesses) + 3 && high < W32
      ensures high == Hi(mtime(old(accesses))) && low == Lo(mtime(old(accesses) + 1)) && again == Hi(mtime(old(accesses) + 2))
    {
      hide Lo;
      high := ReadHigh();
      low := ReadLow();
      again := ReadHigh();
    }

    /** timer_read, and get_counter in the same steps: no torn value, always an end, and an end within two rounds when
        the call spans at most 2^32 ticks. */
    method TimerRead() returns (value: nat, ghost at: nat)
      requires Steady()
      modifies this
      ensures old(accesses) <= at == accesses - 2 && value == mtime(at)
      ensures Brief(old(accesses)) ==> accesses <= old(accesses) + 6
    {
      hide *;
      ghost var first := accesses;
      at := first + 1;
      var high, low, again := Round();
      while high != again
        invariant at + 2 == accesses && first < at
        invariant high == Hi(mtime(at - 1)) && low == Lo(mtime(at)) && again == Hi(mtime(at + 1))
        invariant at == first + 1 || !Brief(first) || (at == first + 4 && high == again)
        decreases W32 - high
      {
        Rereads(at);
        if at == first + 1 {
          SecondRoundEnds(first);
        }
        at := at + 3;
        high, low, again := Round();
      }
      Accepted(at);
      value := Join(high, low);
    }

    /** A failed comparison around access `at` means that the high word has grown. */
    lemma Rereads(at: nat)
      requires Steady() && at >= 1
      ensures Hi(mtime(at - 1)) <= Hi(mtime(at + 1)) <= Hi(mtime(at + 2))
    {
      HighGrows(mtime(at - 1), mtime(at + 1));
      HighGrows(mtime(at + 1), mtime(at + 2));
    }

    lemma SecondRoundEnds(first: nat)
      requires Steady() && Hi(mtime(first)) != Hi(mtime(first + 2))
      ensures Brief(first) ==> Hi(mtime(first + 3)) == Hi(mtime(first + 5))
    {
      if Brief(first) {
        OneCarry(mtime(first), mtime(first + 2), mtime(first + 3), mtime(first + 5));
      }
    }

    lemma Accepted(at: nat)
      requires Steady() && at >= 1 && Hi(mtime(at - 1)) == Hi(mtime(at + 1))
      ensures Join(Hi(mtime(at - 1)), Lo(mtime(at))) == mtime(at)
    {
      NotTorn(mtime(at - 1), mtime(at), mtime(at + 1));
    }

    /** The six accesses from the `first`-th on span at most 2^32 ticks. */
    ghost predicate Brief(first: nat)
    {
      mtime(first + 5) - mtime(first) <= W32
    }
  }

  lemma HighGrows(t: nat, u: nat)
    requires t <= u < W64
    ensures Hi(t) <= Hi(u)
  {
    JoinIs(t);
    JoinIs(u);
  }

  /** A span of at most 2^32 ticks has room for one carry only. */
  lemma OneCarry(t0: nat, t2: nat, t3: nat, t5: nat)
    requires t0 <= t2 <= t3 <= t5 < W64 && t5 - t0 <= W32 && Hi(t0) != Hi(t2)
    ensures Hi(t3) == Hi(t5)
  {
    JoinIs(t0);
    JoinIs(t2);
    JoinIs(t3);
    JoinIs(t5);
  }

  /** CountDown of the Rust driver. */
  class CountDown {
    const port: Port
    var timeout: int
    var started: bool

    constructor (port: Port)
      ensures this.port == port && !started
    {
      this.port, timeout, started := port, 0, false;
    }

    /** start: fails on a clock period that rounds to zero nanoseconds. */
    method Start(count: nat, period: nat) returns (ok: bool, ghost at: nat)
      requires port.Steady()
      modifies this, port
      ensures ok == (period > 0)
      ensures ok ==> started && old(port.accesses) <= at < port.accesses
      ensures ok ==> timeout == (count / period + port.mtime(at)) % W64
    {
      at := 0;
      ok := period > 0;
      if ok {
        var now;
        now, at := port.TimerRead();
        timeout, started := (count / period + now) % W64, true;
      }
    }

    /** wait: ready exactly when the counter it read has reached the timeout. */
    method Wait() returns (r: Outcome, ghost at: nat)
      requires port.Steady()
      modifies port
      ensures r == Panic <==> !started
      ensures started ==> old(port.accesses) <= at < port.accesses
      ensures started ==> r == if port.mtime(at) < timeout then WouldBlock else Ready
    {
      at := 0;
      if !started {
        return Panic, at;
      }
      var now;
      now, at := port.TimerRead();
      r := if now < timeout then WouldBlock else Ready;
    }

    /** start followed by a wait: with no wrap, ready is never early and never late, in whole clock periods. */
    method StartThenWait(count: nat, period: nat) returns (r: Outcome, ghost t0: nat, ghost t1: nat)
      requires port.Steady() && period > 0
      modifies this, port
      ensures t0 <= t1
      ensures r != Panic
      ensures count / period + port.mtime(t0) < W64 ==> (r == Ready <==> port.mtime(t1) - port.mtime(t0) >= count / period)
    {
      var ok;
      ok, t0 := Start(count, period);
      r, t1 := Wait();
    }
  }
}

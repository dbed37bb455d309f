/** rtl/system/debounce.sv. */
module Debounce {

  datatype Db = Db(cnt: nat, btn: bool)

  const CLEARED := Db(0, false)

  /** A clock edge out of reset; `n` is ClkCount. */
  function Step(n: nat, s: Db, pin: bool): Db
  {
    Db(if pin == s.btn || s.cnt >= n then 0 else s.cnt + 1,
       if s.cnt >= n then pin else s.btn)
  }

  /** The state after the given inputs since reset. */
  function After(n: nat, pins: seq<bool>): Db
  {
    if pins == [] then CLEARED else Step(n, After(n, pins[..|pins| - 1]), pins[|pins| - 1])
  }

  // --- The specification by history -----------------------------------------------------------------

  /** `out` is the debounced output and `since` the number of inputs up to its last flip or reset. */
  datatype History = History(out: bool, since: nat)

  /** The last `n + 1` inputs, all of them after the last flip, differ from the output. */
  predicate Stable(n: nat, pins: seq<bool>, h: History)
  {
    && h.since + n + 1 <= |pins|
    && forall i | |pins| - (n + 1) <= i < |pins| :: pins[i] != h.out
  }

  /** No counter: the output flips exactly when the history is stable in the other level. */
  function Specified(n: nat, pins: seq<bool>): (h: History)
    ensures h.since <= |pins|
  {
    if pins == [] then History(false, 0)
    else
      var h := Specified(n, pins[..|pins| - 1]);
      if Stable(n, pins, h) then History(!h.out, |pins|) else h
  }

  /** The counter is the length of the longest run of differing inputs since the last flip that reaches the present. */
  ghost predicate Counts(pins: seq<bool>, h: History, cnt: nat)
  {
    && h.since + cnt <= |pins|
    && (forall i | |pins| - cnt <= i < |pins| :: pins[i] != h.out)
    && (h.since + cnt < |pins| ==> pins[|pins| - cnt - 1] == h.out)
  }

  /** The module refines the history specification in every run, and its counter never exceeds ClkCount. */
  lemma {:induction false} Refines(n: nat, pins: seq<bool>)
    ensures
      var s, h := After(n, pins), Specified(n, pins);
      s.btn == h.out && s.cnt <= n && Counts(pins, h, s.cnt)
  {
    if pins == [] {
    } else {
      var rest, pin := pins[..|pins| - 1], pins[|pins| - 1];
      Refines(n, rest);
      RefinesStep(n, rest, pin, After(n, rest), Specified(n, rest));
      assert rest + [pin] == pins;
    }
  }

  lemma RefinesStep(n: nat, rest: seq<bool>, pin: bool, s: Db, h: History)
    requires s.btn == h.out && s.cnt <= n && h.since <= |rest| && Counts(rest, h, s.cnt)
    ensures
      var pins, s' := rest + [pin], Step(n, s, pin);
      var h' := if Stable(n, pins, h) then History(!h.out, |pins|) else h;
      s'.btn == h'.out && s'.cnt <= n && Counts(pins, h', s'.cnt)
  {
    var pins := rest + [pin];
    if s.cnt < n && h.since + s.cnt < |rest| {
      assert pins[|rest| - s.cnt - 1] == h.out;
    }
    if s.cnt == n && pin != h.out {
      assert Stable(n, pins, h);
    }
    if pin == h.out {
      assert pins[|pins| - 1] == h.out;
    }
  }

  /** Flips are at least ClkCount + 1 inputs apart, and so is the first flip from the reset. */
  lemma {:induction false} FlipsAreApart(n: nat, pins: seq<bool>, k: nat)
    requires k < |pins|
    requires After(n, pins[..|pins| - 1]).btn != After(n, pins).btn
    requires k == 0 || After(n, pins[..k - 1]).btn != After(n, pins[..k]).btn
    ensures |pins| - k >= n + 1
  {
    var rest := pins[..|pins| - 1];
    Refines(n, pins);
    Refines(n, rest);
    if k == 0 {
    } else {
      Refines(n, pins[..k]);
      Refines(n, pins[..k - 1]);
      assert pins[..k][..k - 1] == pins[..k - 1];
      assert rest[..k] == pins[..k];
      SinceGrows(n, rest, k);
    }
  }

  lemma {:induction false} SinceGrows(n: nat, pins: seq<bool>, k: nat)
    requires k <= |pins|
    ensures Specified(n, pins[..k]).since <= Specified(n, pins).since
  {
    if k < |pins| {
      assert pins[..|pins| - 1][..k] == pins[..k];
      SinceGrows(n, pins[..|pins| - 1], k);
    } else {
      assert pins[..k] == pins;
    }
  }

  class Debouncer {
    const clkCount: nat
    var cnt: nat
    var btn: bool

    function State(): Db
      reads this
    {
      Db(cnt, btn)
    }

    /** Power-up: the registers have no initial value. */
    constructor (clkCount: nat, garbage: Db)
      ensures this.clkCount == clkCount && State() == garbage
    {
      this.clkCount, cnt, btn := clkCount, garbage.cnt, garbage.btn;
    }

    /** The asynchronous reset. */
    method Clear()
      modifies this
      ensures State() == CLEARED
    {
      cnt, btn := 0, false;
    }

    method ClockEdge(rstN: bool, pin: bool)
      modifies this
      ensures State() == if rstN then Step(clkCount, old(State()), pin) else CLEARED
    {
      if !rstN {
        cnt, btn := 0, false;
      } else {
        var next := if cnt >= clkCount then pin else btn;
        if pin == btn || cnt >= clkCount { cnt := 0; } else { cnt := cnt + 1; }
        btn := next;
      }
    }
  }
}

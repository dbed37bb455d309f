/** Vocabulary shared by the peripheral models. */
module Wires {

  datatype Option<+T> = None | Some(value: T)

  /** A register of eight bits; `b0` is the least significant bit. */
  datatype Byte = Byte(b0: bool, b1: bool, b2: bool, b3: bool, b4: bool, b5: bool, b6: bool, b7: bool)
  {
    function Bit(i: int): bool
    {
      if i <= 0 then b0 else if i == 1 then b1 else if i == 2 then b2 else if i == 3 then b3
      else if i == 4 then b4 else if i == 5 then b5 else if i == 6 then b6 else b7
    }

    /** The number the eight bits stand for. */
    function Value(): (v: nat)
      ensures v < 256
    {
      (if b0 then 1 else 0) + (if b1 then 2 else 0) + (if b2 then 4 else 0) + (if b3 then 8 else 0)
      + (if b4 then 16 else 0) + (if b5 then 32 else 0) + (if b6 then 64 else 0) + (if b7 then 128 else 0)
    }

    /** One place towards the least significant end, `top` entering: {top, v[7:1]}. */
    function Right(top: bool): Byte { Byte(b1, b2, b3, b4, b5, b6, b7, top) }

    /** One place towards the most significant end, `low` entering: {v[6:0], low}. */
    function Left(low: bool): Byte { Byte(low, b0, b1, b2, b3, b4, b5, b6) }
  }

  /** Bit i weighs 2 to the power i. */
  lemma ValueOfBits(b: Byte)
    ensures b.Value() == BitOf(b, 0) + 2 * BitOf(b, 1) + 4 * BitOf(b, 2) + 8 * BitOf(b, 3)
                         + 16 * BitOf(b, 4) + 32 * BitOf(b, 5) + 64 * BitOf(b, 6) + 128 * BitOf(b, 7)
  {
  }

  function BitOf(b: Byte, i: nat): nat { if b.Bit(i) then 1 else 0 }

  /** The value determines the byte. */
  lemma ValueInjective(a: Byte, b: Byte)
    requires a.Value() == b.Value()
    ensures a == b
  {
  }

  const ZERO := Byte(false, false, false, false, false, false, false, false)

  /** The elements an optional event contributes to a history. */
  function Event<T>(e: Option<T>): (s: seq<T>)
  {
    if e.Some? then [e.value] else []
  }

  /** The next contents of a synchronous FIFO (Pass = 0): a pop is ignored when the queue is empty, a push when it is full,
      even if an element leaves in the same cycle, and in the first cycle after a reset, when it is not `ready`. */
  function FifoNext<T>(q: seq<T>, depth: nat, ready: bool, push: Option<T>, pop: bool): (q': seq<T>)
    requires |q| <= depth
    ensures |q'| <= depth
  {
    (if pop && q != [] then q[1..] else q) + Event(FifoTakes(q, depth, ready, push))
  }

  /** The byte a push really enters. */
  function FifoTakes<T>(q: seq<T>, depth: nat, ready: bool, push: Option<T>): Option<T>
  {
    if ready && |q| < depth then push else None
  }

  /** A push into a full queue, or in the first cycle after a reset, is lost; any other one ends up last in the queue. */
  lemma FifoPush<T>(q: seq<T>, depth: nat, ready: bool, push: T, pop: bool)
    requires |q| <= depth
    ensures
      var q', without := FifoNext(q, depth, ready, Some(push), pop), FifoNext(q, depth, ready, None, pop);
      q' == if ready && |q| < depth then without + [push] else without
  {
  }

  /** What was taken is always what was given plus what is held. */
  lemma FifoAccount<T>(q: seq<T>, depth: nat, ready: bool, push: Option<T>, pop: bool, taken: seq<T>, given: seq<T>)
    requires |q| <= depth && taken == given + q
    ensures taken + Event(FifoTakes(q, depth, ready, push)) ==
            given + FifoGives(q, pop) + FifoNext(q, depth, ready, push, pop)
  {
    assert pop && q != [] ==> q == [q[0]] + q[1..];
  }

  /** The element a pop takes out. */
  function FifoGives<T>(q: seq<T>, pop: bool): seq<T>
  {
    if pop && q != [] then [q[0]] else []
  }

  /** The output port: zero when the queue is empty. */
  function FifoHead(q: seq<Byte>): Byte
  {
    if q == [] then ZERO else q[0]
  }

  /** A status register of two flags, bit 1 and bit 0. */
  function Status(bit1: bool, bit0: bool): (v: nat)
    ensures (v / 2 % 2 == 1) == bit1 && (v % 2 == 1) == bit0
  {
    (if bit1 then 2 else 0) + (if bit0 then 1 else 0)
  }
}

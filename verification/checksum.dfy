/** The Internet checksum of sw/c/demo/eth_test/main.c (RFC 1071). */
module Checksum {
  import opened Integers

  type Octet = x: int | 0 <= x < 256

  const ONES: nat := 65535

  /** A big-endian 16-bit word. */
  function Word(hi: nat, lo: nat): nat { hi * 256 + lo }

  /** The sum of the first `k` big-endian 16-bit words. */
  function Words(p: seq<Octet>, k: nat): (s: nat)
    requires 2 * k <= |p|
    ensures k == 0 ==> s == 0
  {
    if k == 0 then 0 else Words(p, k - 1) + Word(p[2 * k - 2], p[2 * k - 1])
  }

  /** The whole sum; a last odd octet is padded with zero. */
  function Total(p: seq<Octet>): nat
  {
    Words(p, |p| / 2) + if |p| % 2 == 1 then Word(p[|p| - 1], 0) else 0
  }

  /** The one's-complement value of a sum: zero only for zero, otherwise 1 to 65535 congruent to it modulo 65535. */
  function Residue(s: nat): (r: nat)
    ensures r <= ONES
  {
    if s == 0 then 0 else (s - 1) % ONES + 1
  }

  /** The checksum field of a message whose field is zero, and the check value of a complete message. */
  function Check(p: seq<Octet>): (c: nat)
    ensures c <= ONES
  {
    ONES - Residue(Total(p))
  }

  lemma {:induction false} WordsBound(p: seq<Octet>, k: nat)
    requires 2 * k <= |p|
    ensures Words(p, k) <= k * ONES
  {
    if k == 0 {
    } else {
      WordsBound(p, k - 1);
      assert k * ONES == (k - 1) * ONES + ONES;
    }
  }

  /** No frame is long enough for the 32-bit sum to wrap. */
  lemma NoOverflow(p: seq<Octet>)
    requires |p| <= 1536
    ensures Total(p) < W32
  {
    WordsBound(p, |p| / 2);
  }

  /** The octets csum_add sums, as the source indexes them: for a negative length only the padded last octet. */
  function TotalAt(buf: seq<Octet>, off: nat, n: int): nat
    requires 0 <= off + n <= |buf| && off <= |buf| && (n < 0 ==> off + n >= 1)
  {
    if n >= 0 then Total(buf[off..off + n]) else if n % 2 == 1 then Word(buf[off + n - 1], 0) else 0
  }

  /** csum_add in 32-bit arithmetic. */
  method CsumAdd(start: nat, buf: array<Octet>, off: nat, n: int) returns (s: nat)
    requires start < W32
    requires 0 <= off + n <= buf.Length && off <= buf.Length && (n < 0 ==> off + n >= 1)
    ensures s == (start + TotalAt(buf[..], off, n)) % W32
  {
    hide Words, Word, TotalAt;
    s := start;
    ghost var p := if n >= 0 then buf[off..off + n] else [];
    assert n >= 0 ==> p == buf[..][off..off + n];
    var i := 0;
    while i + 1 < n
      invariant i % 2 == 0 && 0 <= i && (n >= 0 ==> i <= n) && (n < 0 ==> i == 0)
      invariant s == (start + Words(p, i / 2)) % W32
    {
      WordsStep(p, i / 2);
      AddMod(start + Words(p, i / 2), Word(buf[off + i], buf[off + i + 1]));
      s := (s + Word(buf[off + i], buf[off + i + 1])) % W32;
      i := i + 2;
    }
    if n % 2 == 1 {
      AddMod(start + Words(p, i / 2), Word(buf[off + n - 1], 0));
      s := (s + Word(buf[off + n - 1], 0)) % W32;
    }
    SumOfParts(buf[..], off, n, i);
  }

  lemma SumOfParts(buf: seq<Octet>, off: nat, n: int, i: nat)
    requires 0 <= off + n <= |buf| && off <= |buf| && (n < 0 ==> off + n >= 1)
    requires if n < 0 then i == 0 else i == n / 2 * 2
    ensures TotalAt(buf, off, n) ==
            (if n >= 0 then Words(buf[off..off + n], i / 2) else 0) + if n % 2 == 1 then Word(buf[off + n - 1], 0) else 0
  {
  }

  lemma WordsStep(p: seq<Octet>, k: nat)
    requires 2 * k + 2 <= |p|
    ensures Words(p, k + 1) == Words(p, k) + Word(p[2 * k], p[2 * k + 1])
  {
  }

  lemma AddMod(a: nat, b: nat)
    ensures (a % W32 + b) % W32 == (a + b) % W32
  {
  }

  /** One fold keeps the residue and shrinks the sum. */
  lemma FoldKeeps(s: nat)
    requires s >= 65536
    ensures s % 65536 + s / 65536 < s
    ensures Residue(s % 65536 + s / 65536) == Residue(s)
  {
    var q, s' := s / 65536, s % 65536 + s / 65536;
    assert s == s' + ONES * q;
    ModShift(s' - 1, q);
  }

  lemma {:induction false} ModShift(a: nat, q: nat)
    ensures (a + ONES * q) % ONES == a % ONES
  {
  }

  /** csum_fin: the fold ends and yields the complement of the residue. */
  method CsumFin(sum: nat) returns (c: nat)
    requires sum < W32
    ensures c == ONES - Residue(sum)
  {
    var s := sum;
    while s / 65536 != 0
      invariant Residue(s) == Residue(sum)
      decreases s
    {
      FoldKeeps(s);
      s := s % 65536 + s / 65536;
    }
    c := ONES - s;
  }

  /** An odd message has the sum of the even one with a zero appended. */
  lemma OddPadding(p: seq<Octet>)
    requires |p| % 2 == 1
    ensures Total(p) == Total(p + [0])
  {
    var k := |p| / 2;
    assert |p + [0]| / 2 == k + 1;
    SameWords(p, p + [0], k);
    assert Words(p + [0], k + 1) == Words(p + [0], k) + Word(p[|p| - 1], 0);
  }

  lemma {:induction false} SameWords(p: seq<Octet>, q: seq<Octet>, k: nat)
    requires 2 * k <= |p| && 2 * k <= |q| && forall i | 0 <= i < 2 * k :: p[i] == q[i]
    ensures Words(p, k) == Words(q, k)
  {
    if k == 0 {
    } else {
      SameWords(p, q, k - 1);
    }
  }

  // --- Changing a message ---------------------------------------------------------------------------

  /** Messages that differ only in the words from `from` to `to`, whose sums agree there, have sums that differ by the
      same amount everywhere after. */
  lemma {:induction false} WordsDiffer(p: seq<Octet>, q: seq<Octet>, from: nat, k: nat)
    requires |p| == |q| && from <= k && 2 * k <= |p|
    requires forall i | 2 * from <= i < |p| :: p[i] == q[i]
    ensures Words(p, k) - Words(q, k) == Words(p, from) - Words(q, from)
  {
    if k == from {
    } else {
      WordsDiffer(p, q, from, k - 1);
    }
  }

  lemma TotalDiffers(p: seq<Octet>, q: seq<Octet>, from: nat)
    requires |p| == |q| && 2 * from <= |p| && forall i | 2 * from <= i < |p| :: p[i] == q[i]
    ensures Total(p) - Total(q) == Words(p, from) - Words(q, from)
  {
    WordsDiffer(p, q, from, |p| / 2);
  }

  /** The message with `c` stored big-endian in its second word. */
  function WithCheck(p: seq<Octet>, c: nat): seq<Octet>
    requires |p| >= 4 && c <= ONES
  {
    p[2 := c / 256][3 := c % 256]
  }

  lemma StoringAdds(p: seq<Octet>, c: nat)
    requires |p| >= 4 && p[2] == 0 && p[3] == 0 && c <= ONES
    ensures Total(WithCheck(p, c)) == Total(p) + c
  {
    var q := WithCheck(p, c);
    TotalDiffers(q, p, 2);
    SameWords(q, p, 1);
  }

  /** The law of the checksum: a message of any length, even or odd, that carries its own checksum checks to zero. */
  lemma CheckVerifies(p: seq<Octet>)
    requires |p| >= 4 && p[2] == 0 && p[3] == 0
    ensures Check(WithCheck(p, Check(p))) == 0
  {
    StoringAdds(p, Check(p));
    Completes(Total(p));
  }

  lemma Completes(t: nat)
    ensures Residue(t + (ONES - Residue(t))) == ONES
  {
    if t > 0 {
      var k := (t - 1) / ONES;
      assert t - Residue(t) == ONES * k;
      ModShift(ONES - 1, k);
    }
  }

  /** Conversely the stored word that makes a message check to zero is the checksum, up to the two forms of zero. */
  lemma CheckIsUnique(p: seq<Octet>, c: nat)
    requires |p| >= 4 && p[2] == 0 && p[3] == 0 && c <= ONES
    requires Check(WithCheck(p, c)) == 0
    ensures c % ONES == Check(p) % ONES
  {
    StoringAdds(p, c);
    var t := Total(p);
    assert Residue(t + c) == ONES;
    assert (t + c) % ONES == 0 by {
      assert (t + c - 1) % ONES == ONES - 1;
    }
    Completes(t);
    SameComplement(t, c, Check(p));
  }

  lemma SameComplement(t: nat, c: nat, d: nat)
    requires (t + c) % ONES == 0 && Residue(t + d) == ONES
    ensures c % ONES == d % ONES
  {
    assert (t + d) % ONES == 0;
  }
}

/** handle_icmp of sw/c/demo/eth_test/main.c: an echo reply built in place. */
module Icmp {
  import opened Checksum
  import opened Integers
  import E = EthDevice

  const MTU: nat := 1536
  const MY_MAC: seq<Octet> := [0x02, 0x00, 0x00, 0x4d, 0x47, 0x31]
  const MY_IP: seq<Octet> := [192, 168, 1, 42]

  type Frame = p: seq<Octet> | |p| == MTU witness seq(MTU, _ => 0)

  /** Offset of the ICMP message: 14 octets of Ethernet header and the IPv4 header length field. */
  function IcmpAt(p: Frame): nat { 14 + p[14] % 16 * 4 }

  function HeaderLen(p: Frame): nat { p[14] % 16 * 4 }

  /** The IPv4 total length field. */
  function TotalLen(p: Frame): nat { Word(p[16], p[17]) }

  function Min(a: int, b: int): int { if a < b then a else b }

  function Max(a: int, b: int): int { if a < b then b else a }

  /** The frame is an echo request for this host. */
  predicate IsEcho(p: Frame)
  {
    p[23] == 1 && p[30..34] == MY_IP && p[IcmpAt(p)] == 8
  }

  /** The filter in octets: protocol 1 at 23, this host's address at 30, and type 8 where the header length says the ICMP
      message begins. */
  lemma EchoIs(p: Frame, len: nat)
    ensures IsEcho(p) <==> p[23] == 1 && p[30..34] == [192, 168, 1, 42] && p[14 + 4 * (p[14] as int % 16)] == 8
    ensures CopyLen(p, len) == Min(len, 14 + 256 * (p[16] as int) + p[17] as int)
  {
  }

  /** Octets copied: the datagram, cut to the frame. */
  function CopyLen(p: Frame, len: nat): nat
  {
    if 14 + TotalLen(p) > len then len else 14 + TotalLen(p)
  }

  // --- The reply as a value -------------------------------------------------------------------------

  /** The copy with the two address pairs exchanged. */
  function Addressed(p: Frame, stale: Frame, len: nat): Frame
  {
    seq(MTU, i requires 0 <= i < MTU =>
      if i < 6 then p[6 + i]
      else if i < 12 then MY_MAC[i - 6]
      else if 26 <= i < 30 then p[i + 4]
      else if 30 <= i < 34 then p[i - 4]
      else if i < CopyLen(p, len) then p[i]
      else stale[i])
  }

  /** With the reply type and an empty checksum field. */
  function Typed(p: Frame, stale: Frame, len: nat): Frame
  {
    var o := IcmpAt(p);
    Addressed(p, stale, len)[o := 0][o + 2 := 0][o + 3 := 0]
  }

  /** The datagram fits the buffers. */
  predicate Fitting(p: Frame) { 14 + TotalLen(p) <= MTU }

  function Sum(p: Frame, stale: Frame, len: nat): nat
    requires Fitting(p)
  {
    TotalAt(Typed(p, stale, len), IcmpAt(p), TotalLen(p) - HeaderLen(p))
  }

  function Reply(p: Frame, stale: Frame, len: nat): Frame
    requires Fitting(p)
  {
    var o, c := IcmpAt(p), ONES - Residue(Sum(p, stale, len) % W32);
    Typed(p, stale, len)[o + 2 := c / 256][o + 3 := c % 256]
  }

  // --- Properties of the reply ----------------------------------------------------------------------

  /** A well-formed echo request: a whole IPv4 header, a whole ICMP header, and the datagram inside the frame. */
  predicate WellFormed(p: Frame, len: nat)
  {
    && IsEcho(p)
    && HeaderLen(p) >= 20
    && HeaderLen(p) + 4 <= TotalLen(p)
    && 14 + TotalLen(p) <= len
    && Fitting(p)
  }

  /** The ICMP message and the IPv4 header of a frame, where the request says they are. */
  function Message(p: Frame, f: Frame): seq<Octet>
    requires HeaderLen(p) <= TotalLen(p) <= MTU - 14
  {
    f[IcmpAt(p)..14 + TotalLen(p)]
  }

  function Header(p: Frame, f: Frame): seq<Octet>
  {
    f[14..14 + HeaderLen(p)]
  }

  /** The reply's ICMP message is the typed one with its own checksum stored. */
  lemma ReplyMessage(p: Frame, stale: Frame, len: nat)
    requires WellFormed(p, len)
    ensures
      var m := Message(p, Typed(p, stale, len));
      && m[2] == 0 && m[3] == 0
      && Message(p, Reply(p, stale, len)) == WithCheck(m, Check(m))
  {
    hide Addressed, Residue, Words, IsEcho;
    var o, f := IcmpAt(p), Typed(p, stale, len);
    var m := Message(p, f);
    NoOverflow(m);
    assert Sum(p, stale, len) == Total(m);
    var r, c := Reply(p, stale, len), Check(m);
    assert r == f[o + 2 := c / 256][o + 3 := c % 256];
    forall i | 0 <= i < |m|
      ensures Message(p, r)[i] == WithCheck(m, c)[i]
    {
    }
  }

  /** The reply's checksum verifies, for even and odd lengths, and the 32-bit sum has not wrapped. */
  lemma ReplyVerifies(p: Frame, stale: Frame, len: nat)
    requires WellFormed(p, len)
    ensures Check(Message(p, Reply(p, stale, len))) == 0
    ensures Total(Message(p, Reply(p, stale, len))) < W32
  {
    hide Reply, Typed;
    ReplyMessage(p, stale, len);
    CheckVerifies(Message(p, Typed(p, stale, len)));
    NoOverflow(Message(p, Reply(p, stale, len)));
  }

  /** Octet by octet: addresses exchanged, type 0, everything else of the datagram as in the request. */
  lemma ReplyOctet(p: Frame, stale: Frame, len: nat, i: nat)
    requires WellFormed(p, len) && i < 14 + 256 * (p[16] as int) + p[17] as int
    ensures
      var r, o := Reply(p, stale, len), 14 + 4 * (p[14] as int % 16);
      && (i < 6 ==> r[i] == p[6 + i])
      && (6 <= i < 12 ==> r[i] == [0x02, 0x00, 0x00, 0x4d, 0x47, 0x31][i - 6])
      && (26 <= i < 30 ==> r[i] == p[i + 4])
      && (30 <= i < 34 ==> r[i] == p[i - 4])
      && (i == o ==> r[i] == 0)
      && (12 <= i && !(26 <= i < 34) && i != o && i != o + 2 && i != o + 3 ==> r[i] == p[i])
  {
    hide Sum, IsEcho;
    assert CopyLen(p, len) == 14 + TotalLen(p);
    var a := Addressed(p, stale, len);
    if 12 <= i && !(26 <= i < 34) {
      assert i < CopyLen(p, len);
      assert a[i] == p[i];
    }
  }

  /** The IPv4 header's sum survives the exchange of its addresses, for every header length; so a header that checks
      to zero in the request checks to zero in the reply. */
  lemma HeaderSurvives(p: Frame, stale: Frame, len: nat)
    requires WellFormed(p, len)
    ensures Total(Header(p, Reply(p, stale, len))) == Total(Header(p, p))
    ensures Check(Header(p, Reply(p, stale, len))) == Check(Header(p, p))
  {
    hide Reply, Check;
    var h, h' := Header(p, p), Header(p, Reply(p, stale, len));
    forall i {:trigger h'[i]} | 0 <= i < |h|
      ensures h'[i] == if 12 <= i < 16 then h[i + 4] else if 16 <= i < 20 then h[i - 4] else h[i]
    {
      ReplyOctet(p, stale, len, 14 + i);
    }
    SwapKeepsTotal(h, h');
    CheckOfTotal(h, h');
  }

  lemma CheckOfTotal(h: seq<Octet>, h': seq<Octet>)
    requires Total(h) == Total(h')
    ensures Check(h) == Check(h')
  {
  }

  lemma SwapKeepsTotal(h: seq<Octet>, h': seq<Octet>)
    requires |h| == |h'| >= 20
    requires forall i {:trigger h'[i]} | 0 <= i < |h| ::
               h'[i] == if 12 <= i < 16 then h[i + 4] else if 16 <= i < 20 then h[i - 4] else h[i]
    ensures Total(h) == Total(h')
  {
    TotalDiffers(h, h', 10);
    SameWords(h, h', 6);
    FourWords(h);
    FourWords(h');
  }

  lemma FourWords(h: seq<Octet>)
    requires |h| >= 20
    ensures Words(h, 10) == Words(h, 6) + Word(h[12], h[13]) + Word(h[14], h[15]) + Word(h[16], h[17]) + Word(h[18], h[19])
  {
    assert Words(h, 8) == Words(h, 6) + Word(h[12], h[13]) + Word(h[14], h[15]);
    assert Words(h, 9) == Words(h, 8) + Word(h[16], h[17]);
  }

  // --- The buffer indices of the handler ----------------------------------------------------------------

  predicate InPair(first: nat, i: int) { i == first || i == first + 1 }

  /** The indices from which csum_add reads `n` octets at `off`. */
  ghost predicate Summed(off: nat, n: int, i: int)
  {
    || (exists j: nat :: j % 2 == 0 && j + 1 < n && InPair(off + j, i))
    || (n % 2 == 1 && i == off + n - 1)
  }

  /** The indices handle_icmp reads, in pkt or in out, and those eth_send reads for it; a mismatch in the address ends that
      comparison early. */
  ghost predicate Loads(p: Frame, len: nat, i: int)
  {
    var o := IcmpAt(p);
    || i == 14 || i == 23
    || (p[23] == 1 && 30 <= i < 34)
    || (p[23] == 1 && p[30..34] == MY_IP && i == o)
    || (IsEcho(p) &&
        (|| i == 16 || i == 17
         || 0 <= i < CopyLen(p, len)
         || 6 <= i < 12 || 26 <= i < 34
         || Summed(o, TotalLen(p) - HeaderLen(p), i)
         || 0 <= i < E.RoundUp(if CopyLen(p, len) < 60 then 60 else CopyLen(p, len))))
  }

  /** The indices it writes in out. */
  ghost predicate Stores(p: Frame, len: nat, i: int)
  {
    var o := IcmpAt(p);
    IsEcho(p) && (|| 0 <= i < CopyLen(p, len) || 0 <= i < 12 || 26 <= i < 34 || i == o || i == o + 2 || i == o + 3)
  }

  /** What the handler asks of a packet: nothing, unless it is an echo request for this host. */
  predicate Safe(p: Frame) { IsEcho(p) ==> Fitting(p) }

  /** Memory safety, reading: every index read lies inside the buffers if and only if the packet is not an echo request for
      this host or its datagram fits them, however long the frame is. */
  lemma LoadsInBoundsIff(p: Frame, len: nat)
    ensures (forall i: int | Loads(p, len, i) :: 0 <= i < MTU) <==> Safe(p)
  {
    hide IsEcho;
    if IsEcho(p) && !Fitting(p) {
      LastIsSummed(IcmpAt(p), TotalLen(p) - HeaderLen(p));
      assert Loads(p, len, 13 + TotalLen(p));
    } else if IsEcho(p) {
      forall i: int | Loads(p, len, i)
        ensures 0 <= i < MTU
      {
      }
    }
  }

  lemma LastIsSummed(off: nat, n: int)
    requires n > 0
    ensures Summed(off, n, off + n - 1)
  {
    if n % 2 == 0 {
      var j: nat := n - 2;
      assert j % 2 == 0 && InPair(off + j, off + n - 1);
    }
  }

  /** Memory safety, writing: a packet whose datagram does not fit is written past the end of out only when the frame is
      longer than the buffer too. */
  lemma StoresInBoundsIff(p: Frame, len: nat)
    ensures (forall i: int | Stores(p, len, i) :: 0 <= i < MTU) <==> Safe(p) || len <= MTU
  {
    hide IsEcho;
    if IsEcho(p) && !Fitting(p) && len > MTU {
      assert Stores(p, len, MTU);
    }
  }

  /** A frame of 60 octets, an echo request for this host whose length field says 1536. */
  function Overlong(): Frame
  {
    seq(MTU, i requires 0 <= i < MTU =>
      if i == 14 then 0x45
      else if i == 16 then 6
      else if i == 23 then 1
      else if 30 <= i < 34 then MY_IP[i - 30]
      else if i == 34 then 8
      else 0)
  }

  /** The checksum of its reply is computed over octets up to index 1549. */
  lemma OverlongReadsPast()
    ensures IsEcho(Overlong()) && Loads(Overlong(), 60, 1549) && !Safe(Overlong())
  {
    var p := Overlong();
    assert p[30..34] == MY_IP;
    assert p[14] == 0x45 && p[16] == 6 && p[17] == 0 && p[23] == 1 && p[34] == 8;
    assert IcmpAt(p) == 34 && HeaderLen(p) == 20 && TotalLen(p) == 1536;
    OverlongIs(p);
  }

  lemma OverlongIs(p: Frame)
    requires IsEcho(p) && IcmpAt(p) == 34 && HeaderLen(p) == 20 && TotalLen(p) == 1536
    ensures Loads(p, 60, 1549) && !Safe(p)
  {
    hide IsEcho, IcmpAt, HeaderLen, TotalLen, Summed, CopyLen;
    LastIsSummed(34, 1516);
  }

  // --- The handler ------------------------------------------------------------------------------------

  class Responder {
    const pkt: array<Octet>
    const out: array<Octet>
    const dev: E.EthDev

    ghost predicate Valid()
      reads this, dev
    {
      pkt.Length == MTU && out.Length == MTU && pkt != out && dev.Valid()
    }

    constructor (dev: E.EthDev)
      requires dev.Valid()
      ensures Valid() && this.dev == dev && fresh(pkt) && fresh(out)
    {
      this.dev := dev;
      pkt := new Octet[MTU](_ => 0);
      out := new Octet[MTU](_ => 0);
    }

    method IpMatch(at: nat) returns (same: bool)
      requires Valid() && at + 4 <= MTU
      ensures same == (pkt[at..at + 4] == MY_IP)
    {
      same := pkt[at] == MY_IP[0] && pkt[at + 1] == MY_IP[1] && pkt[at + 2] == MY_IP[2] && pkt[at + 3] == MY_IP[3];
    }

    /** The three copying loops. */
    method CopyAndAddress(len: nat)
      requires Valid() && CopyLen(pkt[..], len) <= MTU
      modifies out
      ensures out[..] == Addressed(pkt[..], old(out[..]), len)
    {
      var n := CopyLen(pkt[..], len);
      for i := 0 to n
        invariant forall j {:trigger out[j]} | 0 <= j < MTU :: out[j] == if j < i then pkt[j] else old(out[j])
      {
        out[i] := pkt[i];
      }
      for i := 0 to 6
        invariant forall j {:trigger out[j]} | 0 <= j < MTU :: out[j] ==
                    if j < i then pkt[6 + j] else if 6 <= j < 6 + i then MY_MAC[j - 6]
                    else if j < n then pkt[j] else old(out[j])
      {
        out[i] := pkt[6 + i];
        out[6 + i] := MY_MAC[i];
      }
      for i := 0 to 4
        invariant forall j {:trigger out[j]} | 0 <= j < MTU :: out[j] ==
                    if j < 6 then pkt[6 + j] else if j < 12 then MY_MAC[j - 6]
                    else if 26 <= j < 26 + i then pkt[j + 4] else if 30 <= j < 30 + i then pkt[j - 4]
                    else if j < n then pkt[j] else old(out[j])
      {
        out[26 + i] := pkt[30 + i];
        out[30 + i] := pkt[26 + i];
      }
    }

    /** The reply: copy, type, checksum. */
    method BuildReply(len: nat, ihl: nat)
      requires Valid() && Fitting(pkt[..]) && ihl == HeaderLen(pkt[..])
      modifies out
      ensures out[..] == Reply(pkt[..], old(out[..]), len)
    {
      hide Addressed, TotalAt, Residue;
      var iplen := Word(pkt[16], pkt[17]);
      CopyAndAddress(len);
      out[14 + ihl] := 0;
      out[14 + ihl + 2], out[14 + ihl + 3] := 0, 0;
      assert out[..] == Typed(pkt[..], old(out[..]), len);
      var s := CsumAdd(0, out, 14 + ihl, iplen - ihl);
      var c := CsumFin(s);
      out[14 + ihl + 2], out[14 + ihl + 3] := c / 256, c % 256;
    }

    /** handle_icmp: anything but an echo request for this host is ignored; otherwise the reply is built in out and its
        first max(n, 60) octets go to the transmit buffer. */
    method HandleIcmp(len: nat, status: nat, ghost idle: nat) returns (sent: nat)
      requires Valid() && Safe(pkt[..])
      requires dev.polls <= idle && !E.Busy(E.Answer(dev.mac, idle, E.TPLR))
      modifies out, dev, dev.memory
      ensures Valid()
      ensures !IsEcho(pkt[..]) ==> sent == 0 && out[..] == old(out[..])
      ensures !IsEcho(pkt[..]) ==> forall a: nat {:trigger dev.At(a)} | a < E.SIZE :: dev.At(a) == old(dev.At(a))
      ensures
        var p := pkt[..];
        var ignored := p[23] != 1 || p[30..34] != [192, 168, 1, 42] || p[14 + 4 * (p[14] as int % 16)] != 8;
        && (ignored ==>
              && sent == 0 && out[..] == old(out[..])
              && forall a: nat {:trigger dev.At(a)} | a < E.SIZE :: dev.At(a) == old(dev.At(a)))
        && (!ignored ==> sent == Max(60, Min(len, 14 + 256 * (p[16] as int) + p[17] as int)) >= 60)
      ensures IsEcho(pkt[..]) ==>
                && out[..] == Reply(pkt[..], old(out[..]), len)
                && sent == (if CopyLen(pkt[..], len) < 60 then 60 else CopyLen(pkt[..], len))
                && E.Holds32(dev, 0x0810, sent)
                && forall i: nat {:trigger out[i]} | i < sent :: dev.At(0x1000 + i) == out[i]
    {
      hide Reply, E.OctetOf, E.EthDev.Valid, Word, Residue;
      EchoIs(pkt[..], len);
      sent := 0;
      var ihl := pkt[14] as int % 16 * 4;
      if pkt[23] != 1 { return; }
      var forUs := IpMatch(30);
      if !forUs { return; }
      if pkt[14 + ihl] != 8 { return; }
      BuildReply(len, ihl);
      var n := CopyLen(pkt[..], len);
      sent := E.EthSend(dev, out, if n < 60 then 60 else n, status, idle);
    }
  }
}

/** rtl/system/eth_dev.sv in front of a 64-bit byte-enabled memory, and the buffer copies of
    sw/c/demo/eth_test/main.c. */
module EthDevice {
  import opened Checksum
  import opened Integers

  const SIZE: nat := 0x2_0000          // device_addr_i[16:0]
  const STATUS_OFF: nat := 0
  const TPLR: nat := 0x0810
  const RSR: nat := 0x0830
  const RPLR: nat := 0x0C00
  const TXBUFF: nat := 0x1000
  const RXBUFF: nat := 0x1_0000

  /** Octet `k` of a 32-bit word. */
  function OctetOf(w: nat, k: nat): Octet
  {
    if k == 0 then w % 256 else if k == 1 then w / 256 % 256 else if k == 2 then w / 65536 % 256 else w / 0x100_0000 % 256
  }

  /** The octets of a word are its digits in base 256, least significant first. */
  lemma OctetWeights(w: nat)
    requires w < W32
    ensures w == OctetOf(w, 0) + OctetOf(w, 1) * 256 + OctetOf(w, 2) * 65536 + OctetOf(w, 3) * 0x100_0000
  {
    assert w / 65536 == w / 256 / 256 && w / 0x100_0000 == w / 65536 / 256;
  }

  function Compose(b0: nat, b1: nat, b2: nat, b3: nat): nat
  {
    b0 + b1 * 256 + b2 * 65536 + b3 * 0x100_0000
  }

  lemma ComposeOctets(b0: Octet, b1: Octet, b2: Octet, b3: Octet)
    ensures
      var w := Compose(b0, b1, b2, b3);
      w < W32 && OctetOf(w, 0) == b0 && OctetOf(w, 1) == b1 && OctetOf(w, 2) == b2 && OctetOf(w, 3) == b3
  {
    OctetAt(b0, 256, b1, b2 + b3 * 256);
    OctetAt(b0 + b1 * 256, 65536, b2, b3);
    OctetAt(b0 + b1 * 256 + b2 * 65536, 0x100_0000, b3, 0);
  }

  /** The octet with weight `unit`. */
  lemma OctetAt(low: nat, unit: nat, b: Octet, high: nat)
    requires unit in {256, 65536, 0x100_0000} && low < unit
    ensures (low + (b + high * 256) * unit) / unit % 256 == b
  {
    var n := b + high * 256;
    assert (low + n * unit) / unit == n by {
      if unit == 256 {
        assert (low + n * 256) / 256 == n;
      } else if unit == 65536 {
        assert (low + n * 65536) / 65536 == n;
      }
    }
  }

  type Word64 = v: seq<Octet> | |v| == 8 witness [0, 0, 0, 0, 0, 0, 0, 0]

  datatype Request = Request(addr: nat, write: bool, be: seq<bool>, data: nat)
  {
    predicate Ok() { addr < SIZE && |be| == 4 }
  }

  /** The registers of the MAC behind the shim lie below the buffers; reading one asks the MAC. */
  predicate Register(addr: nat) { 0x0800 <= addr < TXBUFF }

  /** One half of a 64-bit word. */
  function Half(v: Word64, upper: bool): (w: nat)
    ensures w < W32
  {
    var h := if upper then 4 else 0;
    ComposeOctets(v[h], v[h + 1], v[h + 2], v[h + 3]);
    Compose(v[h], v[h + 1], v[h + 2], v[h + 3])
  }

  /** The 32 bits of a register in the k-th answer of a MAC. */
  function Answer(mac: nat -> Word64, k: nat, off: nat): nat
  {
    Half(mac(k), UpperHalf(off))
  }

  const ALL: seq<bool> := [true, true, true, true]

  predicate UpperHalf(addr: nat) { addr / 4 % 2 == 1 }

  /** eth_be[k]: address bit 2 places the four byte enables in one half of the word. */
  predicate Lane(req: Request, k: nat)
    requires req.Ok()
  {
    req.write && if UpperHalf(req.addr) then 4 <= k < 8 && req.be[k - 4] else k < 4 && req.be[k]
  }

  /** The word a request leaves behind: the 32 data bits are presented on both halves. */
  function Merge(word: Word64, req: Request): Word64
    requires req.Ok()
  {
    seq(8, k requires 0 <= k < 8 => if Lane(req, k) then OctetOf(req.data, k % 4) else word[k])
  }

  class EthDev {
    const memory: array<Word64>
    /** What the MAC shows at its k-th register read. */
    const mac: nat -> Word64
    var polls: nat
    var respValid: bool
    var respStatus: bool
    var respHalf: bool
    var respMac: bool
    var readIndex: nat

    ghost predicate Valid()
      reads this
    {
      memory.Length == SIZE / 8 && readIndex < memory.Length
    }

    /** The octet at a byte address. */
    function At(a: nat): Octet
      requires Valid() && a < SIZE
      reads this, memory
    {
      memory[a / 8][a % 8]
    }

    constructor (mac: nat -> Word64)
      ensures Valid() && fresh(memory) && this.mac == mac && polls == 0
    {
      this.mac, polls := mac, 0;
      memory := new Word64[SIZE / 8](_ => [0, 0, 0, 0, 0, 0, 0, 0]);
      respValid, respStatus, respHalf, respMac, readIndex := false, false, false, false, 0;
    }

    /** One clock edge with at most one request on the bus. */
    method ClockEdge(active: bool, req: Request)
      requires Valid() && req.Ok()
      modifies this, memory
      ensures Valid()
      ensures forall i | 0 <= i < memory.Length :: memory[i] ==
                if active && req.write && i == req.addr / 8 then Merge(old(memory[i]), req) else old(memory[i])
      ensures respValid == active && respHalf == UpperHalf(req.addr)
      ensures respStatus == (active && req.addr == STATUS_OFF && !req.write)
      ensures active && !respStatus ==> readIndex == req.addr / 8
      ensures respMac == (active && Register(req.addr) && !req.write)
      ensures polls == old(polls) + if respMac then 1 else 0
    {
      respValid := active;
      respStatus := active && req.addr == STATUS_OFF && !req.write;
      respHalf := UpperHalf(req.addr);
      respMac := active && Register(req.addr) && !req.write;
      if respMac {
        polls := polls + 1;
      }
      if active && !respStatus {
        readIndex := req.addr / 8;
        if req.write {
          memory[readIndex] := Merge(memory[readIndex], req);
        }
      }
    }

    /** device_rdata_o in the cycle after a request; `status` is the synchronised link status. */
    function ReadData(status: nat): nat
      requires Valid() && (respMac ==> polls > 0)
      reads this, memory
    {
      var v := if respMac then mac(polls - 1) else memory[readIndex];
      if respStatus then status % 65536 else Half(v, respHalf)
    }

    /** eth_read of a register of the MAC: its next answer, and nothing moves. */
    method ReadRegister(off: nat, status: nat) returns (w: nat)
      requires Valid() && off % 4 == 0 && Register(off)
      modifies this, memory
      ensures Valid() && polls == old(polls) + 1 && w == Answer(mac, old(polls), off) && w < W32
      ensures forall a: nat {:trigger At(a)} | a < SIZE :: At(a) == old(At(a))
    {
      hide OctetOf, Half, UpperHalf, Merge;
      ClockEdge(true, Request(off, false, ALL, 0));
      w := ReadData(status);
    }

    /** A write with byte enables: the enabled octets land at their byte addresses and nothing else moves. */
    method WriteBytes(off: nat, be: seq<bool>, w: nat)
      requires Valid() && off % 4 == 0 && off < SIZE && |be| == 4
      modifies this, memory
      ensures Valid() && polls == old(polls)
      ensures forall a: nat {:trigger At(a)} | a < SIZE ::
                At(a) == if off <= a < off + 4 && be[a - off] then OctetOf(w, a - off) else old(At(a))
    {
      ClockEdge(true, Request(off, true, be, w));
      forall a: nat | a < SIZE
        ensures At(a) == if off <= a < off + 4 && be[a - off] then OctetOf(w, a - off) else old(At(a))
      {
        Placement(off, a);
      }
    }

    /** eth_write: the four octets land at the four byte addresses and nothing else moves. */
    method Write(off: nat, w: nat)
      requires Valid() && off % 4 == 0 && off < SIZE
      modifies this, memory
      ensures Valid() && polls == old(polls)
      ensures forall a: nat {:trigger At(a)} | a < SIZE ::
                At(a) == if off <= a < off + 4 then OctetOf(w, a - off) else old(At(a))
    {
      WriteBytes(off, ALL, w);
    }

    /** eth_read of the first word: the synchronised link status in its low half, without asking the MAC or the memory. */
    method ReadLink(status: nat) returns (w: nat)
      requires Valid()
      modifies this, memory
      ensures Valid() && w == status % 0x1_0000 && polls == old(polls)
      ensures forall a: nat {:trigger At(a)} | a < SIZE :: At(a) == old(At(a))
    {
      hide OctetOf, Half, UpperHalf, Merge;
      ClockEdge(true, Request(STATUS_OFF, false, ALL, 0));
      w := ReadData(status);
    }

    /** eth_read of a word of a buffer. */
    method Read(off: nat, status: nat) returns (w: nat)
      requires Valid() && off % 4 == 0 && TXBUFF <= off < SIZE
      modifies this, memory
      ensures Valid() && w < W32 && polls == old(polls)
      ensures forall a: nat {:trigger At(a)} | a < SIZE :: At(a) == old(At(a))
      ensures forall k: nat | k < 4 :: OctetOf(w, k) == At(off + k)
    {
      hide OctetOf, Half, UpperHalf, Merge;
      ClockEdge(true, Request(off, false, ALL, 0));
      w := ReadData(status);
      ReadLanes(off);
    }

    /** The half of the word that a response selects holds the four octets in order. */
    lemma ReadLanes(off: nat)
      requires Valid() && off % 4 == 0 && off < SIZE
      ensures
        var w := Half(memory[off / 8], UpperHalf(off));
        forall k: nat | k < 4 :: OctetOf(w, k) == At(off + k)
    {
      hide OctetOf, Compose, UpperHalf;
      Placement(off, off);
      Placement(off, off + 1);
      Placement(off, off + 2);
      Placement(off, off + 3);
      var v, h := memory[off / 8], if UpperHalf(off) then 4 else 0;
      ComposeOctets(v[h], v[h + 1], v[h + 2], v[h + 3]);
    }
  }

  /** Where the octets of an aligned 32-bit word sit in the 64-bit words. */
  lemma Placement(off: nat, a: nat)
    requires off % 4 == 0
    ensures off <= a < off + 4 <==>
            a / 8 == off / 8 && (if UpperHalf(off) then 4 <= a % 8 else a % 8 < 4)
    ensures off <= a < off + 4 ==> a % 8 == (if UpperHalf(off) then 4 else 0) + (a - off) && a % 4 == a - off
  {
    hide UpperHalf;
    HalfOf(off);
    Within(off / 8, if UpperHalf(off) then 4 else 0, a);
  }

  lemma HalfOf(off: nat)
    requires off % 4 == 0
    ensures off == 8 * (off / 8) + if UpperHalf(off) then 4 else 0
  {
  }

  /** The octets from `8 * q + h` on are those of word `q` at positions from `h` on. */
  lemma Within(q: nat, h: nat, a: nat)
    requires h == 0 || h == 4
    ensures 8 * q + h <= a < 8 * q + h + 4 <==> a / 8 == q && h <= a % 8 < h + 4
    ensures 8 * q + h <= a < 8 * q + h + 4 ==> a % 8 == a - 8 * q && a % 4 == a - 8 * q - h
  {
    EighthsOf(a);
    FourthsOf(a, 2 * (a / 8), a % 8);
  }

  lemma EighthsOf(a: nat)
    ensures a == 8 * (a / 8) + a % 8 && 0 <= a % 8 < 8
  {
  }

  lemma FourthsOf(a: nat, q: nat, r: nat)
    requires a == 4 * q + r && r < 8
    ensures a % 4 == if r < 4 then r else r - 4
  {
    if r < 4 {
      Remainder4(a, q, r);
    } else {
      Remainder4(a, q + 1, r - 4);
    }
  }

  lemma Remainder4(a: nat, q: nat, r: nat)
    requires a == 4 * q + r && r < 4
    ensures a % 4 == r
  {
  }

  // --- The buffer copies --------------------------------------------------------------------------------

  function RoundUp(len: nat): (n: nat)
    ensures n % 4 == 0 && len <= n < len + 4
  {
    (len + 3) / 4 * 4
  }

  /** The memory outside the octets from `from` until before `to` and the word at `reg`. */
  twostate predicate OnlyChanges(dev: EthDev, from: nat, to: nat, reg: nat)
    requires old(dev.Valid()) && dev.Valid()
    reads dev, dev.memory
  {
    forall a: nat {:trigger dev.At(a)} | a < SIZE && !(from <= a < to) && !(reg <= a < reg + 4) :: dev.At(a) == old(dev.At(a))
  }

  /** The four octets from `off` on hold the word `w`. */
  ghost predicate Holds32(dev: EthDev, off: nat, w: nat)
    requires dev.Valid() && off + 4 <= SIZE
    reads dev, dev.memory
  {
    forall k: nat | k < 4 :: dev.At(off + k) == OctetOf(w, k)
  }

  /** TPLR_BUSY_MASK */
  predicate Busy(tplr: nat) { tplr / 0x8000_0000 % 2 == 1 }

  /** The wait for the transmitter: every answer but the last says busy. It ends because some answer, the `idle`-th at the
      latest, does not. */
  method WaitIdle(dev: EthDev, status: nat, ghost idle: nat)
    requires dev.Valid() && dev.polls <= idle && !Busy(Answer(dev.mac, idle, TPLR))
    modifies dev, dev.memory
    ensures dev.Valid() && OnlyChanges(dev, TXBUFF, TXBUFF, SIZE)
    ensures old(dev.polls) < dev.polls <= idle + 1 && !Busy(Answer(dev.mac, dev.polls - 1, TPLR))
    ensures Answer(dev.mac, dev.polls - 1, 0x0810) < 0x8000_0000
    ensures forall k: nat {:trigger Answer(dev.mac, k, TPLR)} | old(dev.polls) <= k < dev.polls - 1 :: Busy(Answer(dev.mac, k, TPLR))
  {
    hide Busy, Half, UpperHalf;
    var tplr := dev.ReadRegister(TPLR, status);
    while Busy(tplr)
      invariant dev.Valid() && OnlyChanges(dev, TXBUFF, TXBUFF, SIZE)
      invariant old(dev.polls) < dev.polls <= idle + 1 && tplr == Answer(dev.mac, dev.polls - 1, TPLR)
      invariant forall k: nat {:trigger Answer(dev.mac, k, TPLR)} | old(dev.polls) <= k < dev.polls - 1 :: Busy(Answer(dev.mac, k, TPLR))
      decreases idle + 1 - dev.polls
    {
      tplr := dev.ReadRegister(TPLR, status);
    }
    BusyIs(tplr);
  }

  /** The busy flag is the top bit. */
  lemma BusyIs(tplr: nat)
    requires tplr < W32
    ensures Busy(tplr) <==> tplr >= 0x8000_0000
  {
  }

  /** eth_send: it waits for the transmitter, then octet i of the transmit buffer is data[i] for every i below len, nothing
      beyond the rounded-up length is touched, and the length is written last. The copy reads whole words, so the source
      buffer must reach the rounded-up length. */
  method EthSend(dev: EthDev, data: array<Octet>, len: nat, status: nat, ghost idle: nat) returns (sent: nat)
    requires dev.Valid() && dev.polls <= idle && !Busy(Answer(dev.mac, idle, TPLR))
    requires RoundUp(len) <= data.Length && RoundUp(len) <= RXBUFF - TXBUFF
    modifies dev, dev.memory
    ensures dev.Valid() && sent == len
    ensures old(dev.polls) < dev.polls && !Busy(Answer(dev.mac, dev.polls - 1, TPLR))
    ensures forall i: nat {:trigger data[i]} | i < RoundUp(len) :: dev.At(0x1000 + i) == data[i]
    ensures OnlyChanges(dev, 0x1000, 0x1000 + RoundUp(len), 0x0810)
    ensures Holds32(dev, 0x0810, len)
  {
    hide OctetOf, Compose, Busy, Half;
    WaitIdle(dev, status, idle);
    ghost var waited := dev.polls - old(dev.polls);
    var words := (len + 3) / 4;
    for i := 0 to words
      invariant dev.Valid() && dev.polls == old(dev.polls) + waited
      invariant forall j: nat {:trigger data[j]} | j < 4 * i :: dev.At(TXBUFF + j) == data[j]
      invariant OnlyChanges(dev, TXBUFF, TXBUFF + 4 * i, TPLR)
    {
      SendWord(dev, data, 4 * i);
    }
    dev.Write(TPLR, len);
    sent := len;
  }

  /** The body of the transmit loop. */
  method SendWord(dev: EthDev, data: array<Octet>, i: nat)
    requires dev.Valid() && i % 4 == 0 && i + 4 <= data.Length && i + 4 <= RXBUFF - TXBUFF
    modifies dev, dev.memory
    ensures dev.Valid() && dev.polls == old(dev.polls) && OnlyChanges(dev, TXBUFF + i, TXBUFF + i + 4, SIZE)
    ensures forall j: nat {:trigger data[j]} | i <= j < i + 4 :: dev.At(TXBUFF + j) == data[j]
  {
    hide OctetOf, Compose;
    var w := Compose(data[i], data[i + 1], data[i + 2], data[i + 3]);
    ComposeOctets(data[i], data[i + 1], data[i + 2], data[i + 3]);
    dev.Write(TXBUFF + i, w);
  }

  /** The first octet of receive buffer `b`. */
  function RxBase(b: nat): (base: nat)
    ensures base == 0x1_0000 + 2048 * b
    ensures b < 32 ==> base % 4 == 0 && TXBUFF <= base && base + 2048 <= SIZE
  {
    RXBUFF + b * 2048
  }

  /** What eth_recv makes of the MAC's answer for the length of buffer `b`: an int, without the frame check sequence. */
  function PacketLen(mac: nat -> Word64, polls: nat, b: nat): int
  {
    Wrap(Wrap(Answer(mac, polls + 1, RPLR + b * 8)) - 4)
  }

  function Min(a: int, b: int): int { if a < b then a else b }

  /** The words read lie inside the device's address window. */
  predicate InWindow(mac: nat -> Word64, polls: nat, maxlen: nat)
  {
    var b := Answer(mac, polls, RSR) % 32;
    var n := Min(PacketLen(mac, polls, b), maxlen);
    n > 0 ==> RxBase(b) + RoundUp(n) <= SIZE
  }

  /** No more than the size of a receive buffer is always inside. */
  lemma OneBufferIsInside(mac: nat -> Word64, polls: nat, maxlen: nat)
    requires maxlen <= 2048
    ensures InWindow(mac, polls, maxlen)
  {
    hide Answer, Wrap;
  }

  /** eth_recv, with the MAC's next two answers for the ring status and the length: exactly the first min(len, maxlen)
      octets of the current buffer are copied, for every remainder modulo 4, and nothing past them is written. */
  method EthRecv(dev: EthDev, buf: array<Octet>, maxlen: nat, status: nat) returns (len: int)
    requires dev.Valid() && maxlen <= buf.Length && InWindow(dev.mac, dev.polls, maxlen)
    modifies dev, dev.memory, buf
    ensures dev.Valid()
    ensures
      var rsr := old(Answer(dev.mac, dev.polls, 0x0830));
      var b, done := rsr % 32, rsr / 0x8000 % 2 == 1;
      && len == (if done then old(PacketLen(dev.mac, dev.polls, b)) else 0)
      && (done && old(Answer(dev.mac, dev.polls + 1, 0x0C00 + 8 * b)) < 0x8000_0000 ==>
            len == old(Answer(dev.mac, dev.polls + 1, 0x0C00 + 8 * b)) - 4)
      && (forall i | 0 <= i < buf.Length ::
            buf[i] == if i < len && i < maxlen then old(dev.At(0x1_0000 + 2048 * b + i)) else old(buf[i]))
      && (done ==> Holds32(dev, 0x0830, b + 1))
      && OnlyChanges(dev, 0, 0, 0x0830)
  {
    hide OctetOf, Answer, RxBase;
    var rsr := dev.ReadRegister(RSR, status);
    if rsr / 0x8000 % 2 != 1 {
      return 0;
    }
    var b := rsr % 32;
    var rplr := dev.ReadRegister(RPLR + b * 8, status);
    len := Wrap(Wrap(rplr) - 4);
    if len > 0 {
      CopyPacket(dev, buf, RxBase(b), Min(len, maxlen), status);
    }
    dev.Write(RSR, b + 1);
  }

  lemma WordInside(base: nat, i: nat, n: nat)
    requires base % 4 == 0 && i % 4 == 0 && i < n && base + RoundUp(n) <= SIZE
    ensures (base + i) % 4 == 0 && base + i + 4 <= SIZE && (i + 4) % 4 == 0
  {
  }

  /** The receive loop. */
  method CopyPacket(dev: EthDev, buf: array<Octet>, base: nat, n: nat, status: nat)
    requires dev.Valid() && n <= buf.Length
    requires base % 4 == 0 && TXBUFF <= base && (n > 0 ==> base + RoundUp(n) <= SIZE)
    modifies dev, dev.memory, buf
    ensures dev.Valid() && OnlyChanges(dev, 0, 0, SIZE)
    ensures forall i | 0 <= i < buf.Length :: buf[i] == if i < n then old(dev.At(base + i)) else old(buf[i])
  {
    hide RoundUp;
    var i := 0;
    while i < n
      invariant i % 4 == 0 && 0 <= i < n + 4
      invariant dev.Valid() && OnlyChanges(dev, 0, 0, SIZE)
      invariant forall j | 0 <= j < buf.Length ::
                  buf[j] == if j < i && j < n then old(dev.At(base + j)) else old(buf[j])
    {
      WordInside(base, i, n);
      CopyWord(dev, buf, base, i, n, status);
      i := i + 4;
    }
  }

  /** The body of the receive loop. */
  method CopyWord(dev: EthDev, buf: array<Octet>, base: nat, i: nat, n: nat, status: nat)
    requires dev.Valid() && i < n <= buf.Length
    requires (base + i) % 4 == 0 && TXBUFF <= base + i && base + i + 4 <= SIZE
    modifies dev, dev.memory, buf
    ensures dev.Valid() && OnlyChanges(dev, 0, 0, SIZE)
    ensures forall j | 0 <= j < buf.Length ::
              buf[j] == if i <= j < i + 4 && j < n then old(dev.At(base + j)) else old(buf[j])
  {
    hide OctetOf;
    var w := dev.Read(base + i, status);
    assert OctetOf(w, 0) == dev.At(base + i) && OctetOf(w, 1) == dev.At(base + i + 1);
    assert OctetOf(w, 2) == dev.At(base + i + 2) && OctetOf(w, 3) == dev.At(base + i + 3);
    buf[i] := OctetOf(w, 0);
    if i + 1 < n { buf[i + 1] := OctetOf(w, 1); }
    if i + 2 < n { buf[i + 2] := OctetOf(w, 2); }
    if i + 3 < n { buf[i + 3] := OctetOf(w, 3); }
  }
}

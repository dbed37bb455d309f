/** Number formatting of sw/c/demo/lcd_st7735/coremark/ee_printf.c. A long has 32 bits. */
module Printf {
  import opened Integers
  import opened Wires

  datatype Flags = Flags(zeropad: bool, sign: bool, plus: bool, space: bool, left: bool, hexPrep: bool, uppercase: bool)

  const LOWER := "0123456789abcdefghijklmnopqrstuvwxyz"
  const UPPER := "0123456789ABCDEFGHIJKLMNOPQRSTUVWXYZ"

  function DigitChar(d: nat, uppercase: bool): char
    requires d < 36
  {
    if uppercase then UPPER[d] else LOWER[d]
  }

  predicate IsDigit(c: char) { '0' <= c <= '9' }

  /** `n` copies of `c`, none for a negative count. */
  function Fill(c: char, n: int): (s: string)
    ensures |s| == Max(n, 0) && forall i | 0 <= i < |s| :: s[i] == c
  {
    seq(Max(n, 0), _ => c)
  }

  function Max(a: int, b: int): int { if a > b then a else b }

  // --- Digits and their value -----------------------------------------------------------------------

  lemma Shrinks(n: nat, d: nat)
    requires 2 <= d <= n
    ensures n / d < n
  {
    Quotient(n, d);
    assert (n / d) * 2 <= (n / d) * d;
  }

  /** The digits of `n`, most significant first; zero has one. */
  function Digits(n: nat, base: nat): (ds: seq<nat>)
    requires base >= 2
    ensures |ds| >= 1 && forall i | 0 <= i < |ds| :: ds[i] < base
  {
    if n < base then [n]
    else
      Shrinks(n, base);
      Digits(n / base, base) + [n % base]
  }

  /** The value of a sequence of digits. */
  function Value(ds: seq<nat>, base: nat): nat
  {
    if ds == [] then 0 else Value(ds[..|ds| - 1], base) * base + ds[|ds| - 1]
  }

  lemma ValueAppend(ds: seq<nat>, d: nat, base: nat)
    ensures Value(ds + [d], base) == Value(ds, base) * base + d
  {
    assert (ds + [d])[..|ds|] == ds;
  }

  lemma Quotient(n: nat, d: nat)
    requires d > 0
    ensures (n / d) * d + n % d == n
  {
  }

  lemma {:induction false} DigitsHaveValue(n: nat, base: nat)
    requires base >= 2
    ensures Value(Digits(n, base), base) == n
  {
    if n < base {
      assert Value([], base) == 0;
    } else {
      DigitsHaveValue(n / base, base);
      ValueAppend(Digits(n / base, base), n % base, base);
      Quotient(n, base);
    }
  }

  /** Leading zeros do not change a value. */
  lemma {:induction false} LeadingZeros(k: nat, ds: seq<nat>, base: nat)
    ensures Value(seq(k, _ => 0) + ds, base) == Value(ds, base)
  {
    var zs := seq(k, _ => 0);
    if ds != [] {
      LeadingZeros(k, ds[..|ds| - 1], base);
      assert (zs + ds)[..k + |ds| - 1] == zs + ds[..|ds| - 1];
    } else if k > 0 {
      LeadingZeros(k - 1, [], base);
      assert (zs + ds)[..k - 1] == seq(k - 1, _ => 0) + [];
    } else {
      assert zs + ds == ds;
    }
  }

  function Chars(ds: seq<nat>, uppercase: bool): (s: string)
    requires forall i | 0 <= i < |ds| :: ds[i] < 36
    ensures |s| == |ds|
  {
    seq(|ds|, i requires 0 <= i < |ds| => DigitChar(ds[i], uppercase))
  }

  // --- The specification of number() ----------------------------------------------------------------

  /** What is printed without its sign: the magnitude of a signed number, the unsigned reading of any other. */
  function Magnitude(num: int, signed: bool): (m: nat)
    requires Fits(num)
    ensures m < W32
  {
    if signed then (if num < 0 then -num else num) else num % W32
  }

  function SignOf(num: int, f: Flags): string
  {
    if !f.sign then "" else if num < 0 then "-" else if f.plus then "+" else if f.space then " " else ""
  }

  function PrefixOf(base: nat, f: Flags): string
  {
    if !f.hexPrep then "" else if base == 8 then "0" else if base == 16 then "0x" else ""
  }

  /** Leading zeros up to the precision, then the digits. */
  function Body(num: int, base: nat, precision: int, f: Flags): (s: string)
    requires Fits(num) && 2 <= base <= 36
  {
    var ds := Digits(Magnitude(num, f.sign), base);
    Fill('0', precision - |ds|) + Chars(ds, f.uppercase)
  }

  function Padding(num: int, base: nat, size: int, precision: int, f: Flags): int
    requires Fits(num) && 2 <= base <= 36
  {
    size - |SignOf(num, f)| - |PrefixOf(base, f)| - |Body(num, base, precision, f)|
  }

  /** How often the counter of the field width is decremented below zero: once in every padding loop entered. */
  function Loops(f: Flags): nat { if f.left then 1 else if f.zeropad then 2 else 3 }

  /** No value of the int `size` in number() leaves the range of an int. */
  predicate SizeFits(num: int, base: nat, size: int, precision: int, f: Flags)
    requires Fits(num) && 2 <= base <= 36
  {
    Fits(size) && Fits(precision) && Fits(Padding(num, base, size, precision, f) - Loops(f))
  }

  function Format(num: int, base: nat, size: int, precision: int, f: Flags): string
    requires Fits(num) && 2 <= base <= 36
  {
    var pad := Padding(num, base, size, precision, f);
    (Fill(' ', if f.zeropad || f.left then 0 else pad)
     + SignOf(num, f) + PrefixOf(base, f)
     + Fill('0', if f.zeropad && !f.left then pad else 0))
    + (Body(num, base, precision, f)
       + Fill(' ', if f.left then pad else 0))
  }

  /** Exactly the field width or, when that is too small, exactly what the number needs. */
  lemma LengthIsExact(num: int, base: nat, size: int, precision: int, f: Flags)
    requires Fits(num) && 2 <= base <= 36
    ensures
      var ds := Digits(Magnitude(num, f.sign), base);
      |Format(num, base, size, precision, f)| ==
      Max(size, |SignOf(num, f)| + |PrefixOf(base, f)| + Max(|ds|, precision))
  {
  }

  function DigitOf(c: char): nat
  {
    if '0' <= c <= '9' then c as nat - '0' as nat
    else if 'a' <= c <= 'z' then c as nat - 'a' as nat + 10
    else if 'A' <= c <= 'Z' then c as nat - 'A' as nat + 10
    else 0
  }

  /** Reading a character of either case gives back its digit. */
  lemma DigitRoundTrip(d: nat, uppercase: bool)
    requires d < 36
    ensures DigitOf(DigitChar(d, uppercase)) == d
  {
    DigitCharIs(d);
  }

  lemma DigitCharIs(d: nat)
    requires d < 36
    ensures LOWER[d] == if d < 10 then '0' + d as char else 'a' + (d - 10) as char
    ensures UPPER[d] == if d < 10 then '0' + d as char else 'A' + (d - 10) as char
  {
  }

  /** The number a string of digit characters stands for. */
  function Read(s: string, base: nat): nat
  {
    Value(seq(|s|, i requires 0 <= i < |s| => DigitOf(s[i])), base)
  }

  /** Character by character: `k` zeros, then the digits. */
  lemma ZerosThenDigits(k: nat, ds: seq<nat>, uppercase: bool, i: nat)
    requires (forall j | 0 <= j < |ds| :: ds[j] < 36) && i < k + |ds|
    ensures DigitOf((Fill('0', k) + Chars(ds, uppercase))[i]) == if i < k then 0 else ds[i - k]
  {
    hide DigitOf, DigitChar;
    if i < k {
      ZeroDigit();
    } else {
      DigitRoundTrip(ds[i - k], uppercase);
    }
  }

  lemma ReadsDigits(k: nat, ds: seq<nat>, uppercase: bool, base: nat)
    requires forall j | 0 <= j < |ds| :: ds[j] < 36
    ensures Read(Fill('0', k) + Chars(ds, uppercase), base) == Value(ds, base)
  {
    hide Fill, Chars, DigitOf, Value;
    var b := Fill('0', k) + Chars(ds, uppercase);
    forall i | 0 <= i < |b|
      ensures DigitOf(b[i]) == if i < k then 0 else ds[i - k]
    {
      ZerosThenDigits(k, ds, uppercase, i);
    }
    assert seq(|b|, i requires 0 <= i < |b| => DigitOf(b[i])) == seq(k, _ => 0) + ds;
    LeadingZeros(k, ds, base);
  }

  /** The digits printed, leading zeros included, evaluate to the magnitude, for every base, precision and number, the most
      negative long included. */
  lemma BodyReads(num: int, base: nat, precision: int, f: Flags)
    requires Fits(num) && 2 <= base <= 36
    ensures Read(Body(num, base, precision, f), base) == Magnitude(num, f.sign)
  {
    hide Digits, Magnitude, Chars, Value, Read;
    var ds := Digits(Magnitude(num, f.sign), base);
    assert Fill('0', precision - |ds|) == Fill('0', Max(precision - |ds|, 0));
    ReadsDigits(Max(precision - |ds|, 0), ds, f.uppercase, base);
    DigitsHaveValue(Magnitude(num, f.sign), base);
  }

  /** The parts of what number() prints, from left to right: spaces, sign, prefix, zeros, digits, spaces. */
  datatype Parts = Parts(before: nat, sign: string, prefix: string, zeros: nat, digits: string, after: nat)
  {
    function Text(): string
    {
      (Fill(' ', before) + sign + prefix + Fill('0', zeros)) + (digits + Fill(' ', after))
    }
  }

  /** Characters of a number in `base`, in the case asked for. */
  predicate AllDigits(s: string, base: nat, uppercase: bool)
  {
    forall i | 0 <= i < |s| ::
      DigitOf(s[i]) < base && ('0' <= s[i] <= '9' || if uppercase then 'A' <= s[i] <= 'Z' else 'a' <= s[i] <= 'z')
  }

  /** What number() prints, in so many words: the sign of a signed number, the prefix, as many digits as the number or the
      precision needs, which read as its magnitude, and padding to the size, on the side and of the kind the flags say. */
  lemma FormatIs(num: int, base: nat, size: int, precision: int, f: Flags) returns (p: Parts)
    requires Fits(num) && 2 <= base <= 36
    ensures Format(num, base, size, precision, f) == p.Text()
    ensures p.sign == if !f.sign then "" else if num < 0 then "-" else if f.plus then "+" else if f.space then " " else ""
    ensures p.prefix == if !f.hexPrep then "" else if base == 16 then "0x" else if base == 8 then "0" else ""
    ensures AllDigits(p.digits, base, f.uppercase)
    ensures Read(p.digits, base) == if !f.sign then num % 0x1_0000_0000 else if num < 0 then -num else num
    ensures |p.digits| >= Max(1, precision) && (|p.digits| == Max(1, precision) || p.digits[0] != '0')
    ensures p.before + p.zeros + p.after == Max(0, size - |p.sign| - |p.prefix| - |p.digits|)
    ensures f.left ==> p.before == 0 && p.zeros == 0
    ensures !f.left && f.zeropad ==> p.before == 0 && p.after == 0
    ensures !f.left && !f.zeropad ==> p.zeros == 0 && p.after == 0
  {
    hide Digits, Magnitude, Chars, Fill, Read, AllDigits;
    var ds := Digits(Magnitude(num, f.sign), base);
    var body := Body(num, base, precision, f);
    var pad := Max(0, Padding(num, base, size, precision, f));
    p := Parts(if f.zeropad || f.left then 0 else pad, SignOf(num, f), PrefixOf(base, f),
               if f.zeropad && !f.left then pad else 0, body, if f.left then pad else 0);
    assert forall n: int :: Fill(' ', n) == Fill(' ', Max(0, n)) && Fill('0', n) == Fill('0', Max(0, n));
    BodyReads(num, base, precision, f);
    MagnitudeIs(num, f.sign);
    BodyIsDigits(num, base, precision, f);
  }

  lemma MagnitudeIs(num: int, signed: bool)
    requires Fits(num)
    ensures Magnitude(num, signed) == if !signed then num % 0x1_0000_0000 else if num < 0 then -num else num
  {
  }

  lemma DigitIsProper(d: nat, base: nat, uppercase: bool)
    requires d < base <= 36
    ensures AllDigits([DigitChar(d, uppercase)], base, uppercase)
    ensures d > 0 ==> DigitChar(d, uppercase) != '0'
  {
    DigitCharIs(d);
  }

  lemma {:induction false} FirstDigit(n: nat, base: nat)
    requires base >= 2
    ensures |Digits(n, base)| > 1 ==> Digits(n, base)[0] > 0
  {
    if n < base {
      assert Digits(n, base) == [n];
    } else {
      FirstDigit(n / base, base);
      LargeQuotient(n, base);
      if n / base < base {
        assert Digits(n / base, base) == [n / base];
      }
    }
  }

  /** The printed digits are digits, and only as many zeros lead as the precision asks for. */
  lemma BodyIsDigits(num: int, base: nat, precision: int, f: Flags)
    requires Fits(num) && 2 <= base <= 36
    ensures
      var b := Body(num, base, precision, f);
      && AllDigits(b, base, f.uppercase)
      && |b| >= Max(1, precision) && (|b| == Max(1, precision) || b[0] != '0')
  {
    hide Digits, Magnitude, DigitChar, DigitOf;
    var ds := Digits(Magnitude(num, f.sign), base);
    var b := Body(num, base, precision, f);
    var k := |b| - |ds|;
    FirstDigit(Magnitude(num, f.sign), base);
    forall i | 0 <= i < |b|
      ensures AllDigits([b[i]], base, f.uppercase)
    {
      if i < k {
        ZeroDigit();
      } else {
        DigitIsProper(ds[i - k], base, f.uppercase);
      }
    }
    Together(b, base, f.uppercase);
    if k == 0 {
      DigitIsProper(ds[0], base, f.uppercase);
    }
  }

  lemma Together(s: string, base: nat, uppercase: bool)
    requires forall i | 0 <= i < |s| :: AllDigits([s[i]], base, uppercase)
    ensures AllDigits(s, base, uppercase)
  {
    forall i | 0 <= i < |s|
      ensures DigitOf(s[i]) < base
      ensures '0' <= s[i] <= '9' || if uppercase then 'A' <= s[i] <= 'Z' else 'a' <= s[i] <= 'z'
    {
      assert AllDigits([s[i]], base, uppercase);
      assert [s[i]][0] == s[i];
    }
  }

  lemma ZeroDigit()
    ensures DigitOf('0') == 0
  {
  }

  // --- number() as a writer through a moving pointer ------------------------------------------------

  /** Since `before`, exactly `out` has been written from `str` on. */
  ghost predicate Wrote(buf: array<char>, before: seq<char>, str: nat, out: string)
    reads buf
  {
    && str + |out| <= |before| == buf.Length
    && buf[..] == before[..str] + out + before[str + |out|..]
  }

  method Put(buf: array<char>, ghost before: seq<char>, str: nat, ghost out: string, p: nat, c: char) returns (p': nat)
    requires Wrote(buf, before, str, out) && p == str + |out| < buf.Length
    modifies buf
    ensures Wrote(buf, before, str, out + [c]) && p' == p + 1
  {
    buf[p] := c;
    p' := p + 1;
  }

  /** Padding with `c`: a 32-bit counter runs down from `size` to `len`, and one further when it is tested last. */
  method Pad(buf: array<char>, ghost before: seq<char>, str: nat, ghost out: string, p: nat, c: char, len: nat, size: int)
    returns (p': nat, size': int)
    requires Fits(size) && Fits(size - 1)
    requires Wrote(buf, before, str, out) && p == str + |out| && p + Max(size - len, 0) <= buf.Length
    modifies buf
    ensures Wrote(buf, before, str, out + Fill(c, size - len)) && p' == p + Max(size - len, 0)
    ensures size' == (if size > len then len else size) - 1 && Fits(size')
  {
    p', size' := p, size;
    ghost var k := 0;
    assert out + Fill(c, 0) == out;
    while size' > len
      invariant k == size - size' && 0 <= k <= Max(size - len, 0) && p' == p + k
      invariant Wrote(buf, before, str, out + Fill(c, k))
    {
      p' := Put(buf, before, str, out + Fill(c, k), p', c);
      assert out + Fill(c, k) + [c] == out + Fill(c, k + 1);
      size' := size' - 1;
      k := k + 1;
    }
    assert Fill(c, k) == Fill(c, size - len);
    size' := size' - 1;
  }

  function Reverse(s: string): (r: string)
    ensures |r| == |s|
  {
    if s == "" then "" else [s[|s| - 1]] + Reverse(s[..|s| - 1])
  }

  function Pow2(n: nat): (p: nat)
    ensures p >= 1
  {
    if n == 0 then 1 else 2 * Pow2(n - 1)
  }

  /** The digits not yet produced from `v`. */
  function Pending(v: nat, base: nat, uppercase: bool): string
    requires 2 <= base <= 36
  {
    if v == 0 then "" else Chars(Digits(v, base), uppercase)
  }

  lemma Pending0(base: nat, uppercase: bool)
    requires 2 <= base <= 36
    ensures Pending(0, base, uppercase) == ""
  {
  }

  lemma PendingStep(v: nat, base: nat, uppercase: bool)
    requires 2 <= base <= 36 && v > 0
    ensures Pending(v, base, uppercase) == Pending(v / base, base, uppercase) + [DigitChar(v % base, uppercase)]
  {
    if v < base {
      SmallQuotient(v, base);
      assert Digits(v, base) == [v];
    } else {
      LargeQuotient(v, base);
    }
  }

  lemma SmallQuotient(v: nat, d: nat)
    requires v < d
    ensures v / d == 0 && v % d == v
  {
  }

  lemma LargeQuotient(v: nat, d: nat)
    requires v >= d > 0
    ensures v / d > 0
  {
  }

  /** The division loop: the digits, least significant first, fit the 66 characters of tmp. */
  method Convert(tmp: array<char>, v0: nat, base: nat, uppercase: bool) returns (i: nat)
    requires tmp.Length == 66 && v0 < W32 && 2 <= base <= 36
    modifies tmp
    ensures 1 <= i <= 32 && Reverse(tmp[..i]) == Chars(Digits(v0, base), uppercase)
  {
    i := 0;
    if v0 == 0 {
      tmp[0] := '0';
      i := 1;
      assert tmp[..1] == "0" && tmp[..1][..0] == "";
      assert Chars([0], uppercase) == "0";
    } else {
      var v: nat := v0;
      assert Pow2(32) == W32 by { Pow2Is(); }
      assert tmp[..0] == "";
      assert Pending(v, base, uppercase) == Chars(Digits(v0, base), uppercase);
      Pending0(base, uppercase);
      hide Pow2, Pending, Digits, Chars;
      while v != 0
        invariant i <= 32 && v < Pow2(32 - i)
        invariant Pending(v, base, uppercase) + Reverse(tmp[..i]) == Chars(Digits(v0, base), uppercase)
        decreases v
      {
        Halves(v, base, 32 - i);
        OneDigit(tmp, i, v, base, uppercase);
        v := v / base;
        i := i + 1;
      }
    }
  }

  /** The body of the division loop: the last pending digit becomes the first one produced. */
  method OneDigit(tmp: array<char>, i: nat, v: nat, base: nat, uppercase: bool)
    requires i < tmp.Length && 0 < v && 2 <= base <= 36
    modifies tmp
    ensures Pending(v / base, base, uppercase) + Reverse(tmp[..i + 1]) ==
            Pending(v, base, uppercase) + Reverse(old(tmp[..i]))
  {
    hide Pending, Reverse, DigitChar;
    ghost var done, c := tmp[..i], DigitChar(v % base, uppercase);
    PendingStep(v, base, uppercase);
    tmp[i] := DigitChar(v % base, uppercase);
    assert tmp[..i + 1] == done + [c];
    ReverseAppend(done, c);
    Regroup(Pending(v / base, base, uppercase), c, Reverse(done));
  }

  lemma Regroup(a: string, c: char, b: string)
    ensures (a + [c]) + b == a + ([c] + b)
  {
  }

  lemma ReverseAppend(s: string, c: char)
    ensures Reverse(s + [c]) == [c] + Reverse(s)
  {
    assert (s + [c])[..|s|] == s;
  }

  lemma Pow2Is()
    ensures Pow2(32) == W32
  {
    assert Pow2(8) == 256;
    assert Pow2(16) == 65536;
    assert Pow2(24) == 0x100_0000;
  }

  lemma Halves(v: nat, base: nat, n: nat)
    requires 0 < v < Pow2(n) && 2 <= base
    ensures n > 0 && 0 <= v / base < v && v / base < Pow2(n - 1)
  {
    Quotient(v, base);
    var q := v / base;
    AtLeastTwice(q, base);
  }

  lemma AtLeastTwice(q: nat, base: nat)
    requires base >= 2
    ensures q * 2 <= q * base
  {
  }

  /** number(): NULL for a bad base, otherwise exactly the specified characters and the pointer just after them; nothing
      else in the buffer changes. */
  method Number(buf: array<char>, str: nat, num: int, base: int, size0: int, precision0: int, f: Flags)
    returns (r: Option<nat>)
    requires Fits(num) && str <= buf.Length
    requires 2 <= base <= 36 ==>
               SizeFits(num, base, size0, precision0, f) && str + |Format(num, base, size0, precision0, f)| <= buf.Length
    modifies buf
    ensures r == None <==> base < 2 || base > 36
    ensures r == None ==> buf[..] == old(buf[..])
    ensures r != None ==>
              && r.value == str + |Format(num, base, size0, precision0, f)|
              && Wrote(buf, old(buf[..]), str, Format(num, base, size0, precision0, f))
  {
    hide Format, Wrote;
    if base < 2 || base > 36 {
      return None;
    }
    var p := NumberInBase(buf, str, num, base, size0, precision0, f);
    r := Some(p);
  }

  method NumberInBase(buf: array<char>, str: nat, num: int, base: nat, size0: int, precision0: int, f: Flags) returns (p: nat)
    requires Fits(num) && 2 <= base <= 36 && SizeFits(num, base, size0, precision0, f)
    requires str + |Format(num, base, size0, precision0, f)| <= buf.Length
    modifies buf
    ensures p == str + |Format(num, base, size0, precision0, f)|
    ensures Wrote(buf, old(buf[..]), str, Format(num, base, size0, precision0, f))
  {
    hide *;
    var sign, v, size := SignAndSize(num, base, size0, f);
    var tmp := new char[66];
    var i := Convert(tmp, v, base, f.uppercase);
    var precision := if i > precision0 then i else precision0;
    size := size - precision;
    ghost var digits := tmp[..i];
    LayoutFits(num, base, size0, precision0, f, digits);
    LayoutIsFormat(num, base, size0, precision0, f, digits);
    p := Field(buf, str, size, precision, f, sign, PrefixOf(base, f), tmp, i);
  }

  lemma LayoutFits(num: int, base: nat, size0: int, precision0: int, f: Flags, digits: string)
    requires Fits(num) && 2 <= base <= 36 && SizeFits(num, base, size0, precision0, f)
    requires Reverse(digits) == Chars(Digits(Magnitude(num, f.sign), base), f.uppercase) && |digits| <= 32
    ensures
      var precision := if |digits| > precision0 then |digits| else precision0;
      var size := size0 - |SignOf(num, f)| - |PrefixOf(base, f)| - precision;
      Fits(size0 - |SignOf(num, f)|) && Fits(precision) && Fits(size) && Fits(size - Loops(f))
  {
    hide Digits, Magnitude, Reverse, SignOf, PrefixOf, Chars, Fill, Loops;
  }

  /** The writing half of number(). */
  method Field(buf: array<char>, str: nat, size0: int, precision: int, f: Flags, sign: string, prefix: string,
               tmp: array<char>, i: nat) returns (p: nat)
    requires |sign| <= 1 && |prefix| <= 2 && i <= tmp.Length && tmp != buf && precision >= i
    requires Fits(precision) && Fits(size0) && Fits(size0 - Loops(f))
    requires str + |HeadOf(size0, f, sign, prefix)| + |TailOf(size0, precision, f.left, tmp[..i])| <= buf.Length
    modifies buf
    ensures
      var s := HeadOf(size0, f, sign, prefix) + TailOf(size0, precision, f.left, tmp[..i]);
      p == str + |s| && Wrote(buf, old(buf[..]), str, s)
  {
    hide Wrote, HeadOf, TailOf;
    ghost var before := buf[..];
    ghost var digits := tmp[..i];
    var size;
    p, size := Head(buf, before, str, size0, f, sign, prefix);
    assert tmp[..i] == digits;
    TailIgnores(size, size0, precision, f.left, digits);
    p := Tail(buf, before, str, HeadOf(size0, f, sign, prefix), p, size, precision, f.left, tmp, i);
  }

  lemma TailIgnores(size: int, size0: int, precision: int, left: bool, digits: string)
    requires left ==> size == size0
    ensures TailOf(size, precision, left, digits) == TailOf(size0, precision, left, digits)
  {
  }

  /** The sign and prefix decisions, and the width they leave. */
  method SignAndSize(num: int, base: int, size0: int, f: Flags) returns (sign: string, v: nat, size: int)
    requires Fits(num) && 2 <= base <= 36
    ensures sign == SignOf(num, f) && v == Magnitude(num, f.sign)
    ensures size == size0 - |SignOf(num, f)| - |PrefixOf(base, f)|
    ensures |SignOf(num, f)| <= 1 && |PrefixOf(base, f)| <= 2
  {
    size, sign := size0, "";
    if f.sign {
      if num < 0 {
        sign := "-";
      } else if f.plus {
        sign := "+";
      } else if f.space {
        sign := " ";
      }
      v := if num < 0 then -num else num;
      size := size - |sign|;
    } else {
      v := num % W32;
    }
    if f.hexPrep {
      if base == 16 { size := size - 2; } else if base == 8 { size := size - 1; }
    }
  }

  /** What comes before the digits, and what comes from them on, with `size` what is left of the field width. */
  function HeadOf(size: int, f: Flags, sign: string, prefix: string): (s: string)
    ensures |s| == |sign| + |prefix| + if f.left then 0 else Max(size, 0)
  {
    Fill(' ', if f.zeropad || f.left then 0 else size) + sign + prefix + Fill('0', if f.zeropad && !f.left then size else 0)
  }

  function TailOf(size: int, precision: int, left: bool, digits: string): (s: string)
    ensures |s| == Max(precision, |digits|) + if left then Max(size, 0) else 0
  {
    Fill('0', precision - |digits|) + Reverse(digits) + Fill(' ', if left then size else 0)
  }

  lemma LayoutIsFormat(num: int, base: nat, size0: int, precision0: int, f: Flags, digits: string)
    requires Fits(num) && 2 <= base <= 36
    requires Reverse(digits) == Chars(Digits(Magnitude(num, f.sign), base), f.uppercase)
    ensures
      var precision := if |digits| > precision0 then |digits| else precision0;
      var size := size0 - |SignOf(num, f)| - |PrefixOf(base, f)| - precision;
      HeadOf(size, f, SignOf(num, f), PrefixOf(base, f)) + TailOf(size, precision, f.left, digits)
      == Format(num, base, size0, precision0, f)
  {
    hide Digits, Magnitude, Reverse, SignOf, PrefixOf, Chars, Fill;
    var precision := Max(|digits|, precision0);
    assert Fill('0', precision - |digits|) == Fill('0', precision0 - |digits|);
    var size := size0 - |SignOf(num, f)| - |PrefixOf(base, f)| - precision;
    assert size == Padding(num, base, size0, precision0, f);
  }

  /** Padding, sign, prefix, zero padding. What is left of the width is only wanted for a left-justified field. */
  method Head(buf: array<char>, ghost before: seq<char>, str: nat, size0: int, f: Flags, sign: string, prefix: string)
    returns (p: nat, size: int)
    requires |sign| <= 1 && |prefix| <= 2 && Fits(size0) && Fits(size0 - Loops(f))
    requires before == buf[..] && str + |HeadOf(size0, f, sign, prefix)| <= buf.Length
    modifies buf
    ensures Wrote(buf, before, str, HeadOf(size0, f, sign, prefix)) && p == str + |HeadOf(size0, f, sign, prefix)|
    ensures Fits(size) && Fits(size - 1) && if f.left then size == size0 else size < 0
  {
    hide Wrote;
    size := size0;
    p := str;
    assert Wrote(buf, before, str, "") by { WroteNothing(buf, before, str); }
    ghost var out := "";
    if !f.zeropad && !f.left {
      p, size := Pad(buf, before, str, out, p, ' ', 0, size);
      out := out + Fill(' ', size0);
    }
    ghost var size1 := size;
    p, out := PutAll(buf, before, str, out, p, sign);
    p, out := PutAll(buf, before, str, out, p, prefix);
    if !f.left {
      p, size := Pad(buf, before, str, out, p, if f.zeropad && !f.left then '0' else ' ', 0, size);
      out := out + Fill(if f.zeropad then '0' else ' ', size1);
    }
    assert out == HeadOf(size0, f, sign, prefix);
  }

  lemma WroteNothing(buf: array<char>, before: seq<char>, str: nat)
    requires before == buf[..] && str <= buf.Length
    ensures Wrote(buf, before, str, "")
  {
  }

  /** A sign or prefix of at most two characters. */
  method PutAll(buf: array<char>, ghost before: seq<char>, str: nat, ghost out: string, p0: nat, s: string)
    returns (p: nat, ghost out': string)
    requires |s| <= 2 && Wrote(buf, before, str, out) && p0 == str + |out| && p0 + |s| <= buf.Length
    modifies buf
    ensures out' == out + s && Wrote(buf, before, str, out') && p == p0 + |s|
  {
    hide Wrote;
    p := p0;
    out' := out;
    if |s| > 0 {
      p := Put(buf, before, str, out', p, s[0]);
      out' := out' + [s[0]];
    }
    if |s| > 1 {
      p := Put(buf, before, str, out', p, s[1]);
      out' := out' + [s[1]];
    }
  }

  /** Precision zeros, digits, trailing spaces. */
  method Tail(buf: array<char>, ghost before: seq<char>, str: nat, ghost out0: string, p0: nat, size0: int, precision: int,
              left: bool, tmp: array<char>, i: nat) returns (p: nat)
    requires i <= tmp.Length && tmp != buf && precision >= i && (!left ==> size0 < 0)
    requires Fits(precision) && Fits(size0) && Fits(size0 - 1)
    requires Wrote(buf, before, str, out0) && p0 == str + |out0|
    requires p0 + |TailOf(size0, precision, left, tmp[..i])| <= buf.Length
    modifies buf
    ensures Wrote(buf, before, str, out0 + TailOf(size0, precision, left, tmp[..i]))
    ensures p == p0 + |TailOf(size0, precision, left, tmp[..i])|
  {
    hide Wrote, Reverse;
    ghost var out := out0;
    var unused;
    p, unused := Pad(buf, before, str, out, p0, '0', i, precision);
    out := out + Fill('0', precision - i);
    p := Backwards(buf, before, str, out, p, tmp, i);
    out := out + Reverse(tmp[..i]);
    p, unused := Pad(buf, before, str, out, p, ' ', 0, size0);
    out := out + Fill(' ', size0);
    assert out == out0 + TailOf(size0, precision, left, tmp[..i]);
  }

  /** The digits, last one produced first. */
  method Backwards(buf: array<char>, ghost before: seq<char>, str: nat, ghost out: string, p: nat, tmp: array<char>, i0: nat)
    returns (p': nat)
    requires i0 <= tmp.Length && tmp != buf
    requires Wrote(buf, before, str, out) && p == str + |out| && p + i0 <= buf.Length
    modifies buf
    ensures Wrote(buf, before, str, out + Reverse(tmp[..i0])) && p' == p + i0
  {
    hide Wrote, Reverse;
    var i := i0;
    p' := p;
    ghost var digits := tmp[..i0];
    ghost var done := "";
    assert out + done == out;
    assert digits[..i0] == digits && done + Reverse(digits) == Reverse(digits);
    while i > 0
      invariant 0 <= i <= i0 && |done| == i0 - i && p' == p + |done|
      invariant Wrote(buf, before, str, out + done)
      invariant done + Reverse(digits[..i]) == Reverse(digits)
      invariant tmp[..i0] == digits
    {
      i := i - 1;
      p' := Put(buf, before, str, out + done, p', tmp[i]);
      ReverseStep(digits, i, done);
      assert tmp[i] == digits[i];
      assert out + done + [digits[i]] == out + (done + [digits[i]]);
      done := done + [digits[i]];
    }
    ReverseNothing(digits, done);
  }

  lemma ReverseStep(digits: string, i: nat, done: string)
    requires i < |digits|
    ensures done + Reverse(digits[..i + 1]) == (done + [digits[i]]) + Reverse(digits[..i])
  {
    assert digits[..i + 1][..i] == digits[..i];
  }

  lemma ReverseNothing(digits: string, done: string)
    requires done + Reverse(digits[..0]) == Reverse(digits)
    ensures done == Reverse(digits)
  {
    assert Reverse("") == "";
  }
}

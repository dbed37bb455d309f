/** The format interpreter of sw/c/demo/lcd_st7735/coremark/ee_printf.c: skip_atoi, the directive parser and all
    conversions of ee_vsprintf, the text of a floating-point one being a parameter. */
module Vsprintf {
  import opened Integers
  import opened Wires
  import opened Printf

  /** The character a pointer into the format sees; the string ends in a zero character. */
  function CharAt(s: string, k: nat): char
  {
    if k < |s| then s[k] else '\0'
  }

  // --- skip_atoi --------------------------------------------------------------------------------------

  /** Where the run of digits that begins at `k` ends. */
  function RunEnd(s: string, k: nat): (e: nat)
    requires k <= |s|
    ensures k <= e <= |s| && forall i | k <= i < e :: IsDigit(s[i])
    ensures !IsDigit(CharAt(s, e))
    decreases |s| - k
  {
    if k < |s| && IsDigit(s[k]) then RunEnd(s, k + 1) else k
  }

  lemma ReadAppend(s: string, c: char, base: nat)
    ensures Read(s + [c], base) == Read(s, base) * base + DigitOf(c)
  {
    var t := s + [c];
    var ds := seq(|s|, i requires 0 <= i < |s| => DigitOf(s[i]));
    assert seq(|t|, i requires 0 <= i < |t| => DigitOf(t[i])) == ds + [DigitOf(c)];
    ValueAppend(ds, DigitOf(c), base);
  }

  /** One round of skip_atoi in 32 bits. */
  lemma WrapRound(r: int, d: nat)
    requires d < 10
    ensures Wrap(Wrap(Wrap(Wrap(r) * 10) + ('0' as int + d)) - '0' as int) == Wrap(r * 10 + d)
  {
    var q := WrapDistance(r);
    var x := Wrap(r) * 10;
    var q1 := WrapDistance(x);
    var y := Wrap(x) + ('0' as int + d);
    var q2 := WrapDistance(y);
    WrapShift(Wrap(y) - '0' as int, 10 * q + q1 + q2);
  }

  lemma WrapDistance(x: int) returns (q: int)
    ensures x == Wrap(x) + q * 0x1_0000_0000
  {
    q := (x + 0x8000_0000) / 0x1_0000_0000;
  }

  lemma WrapShift(x: int, q: int)
    ensures Wrap(x + q * 0x1_0000_0000) == Wrap(x)
  {
    assert (x + 0x8000_0000 + q * 0x1_0000_0000) % 0x1_0000_0000 == (x + 0x8000_0000) % 0x1_0000_0000;
  }

  /** skip_atoi: the pointer passes the whole run of digits. The result is their decimal value in 32 bits, so it is the
      value itself exactly when that fits an int; and no intermediate sum leaves the range of an int exactly when the value
      stays 48, the code of the character 0, below the largest int, because that is added before it is subtracted. */
  method SkipAtoi(s: string, k: nat) returns (i: int, k': nat, ghost fits: bool)
    requires k <= |s|
    ensures k' == RunEnd(s, k) && i == Wrap(Read(s[k..k'], 10))
    ensures i == Read(s[k..k'], 10) <==> Read(s[k..k'], 10) < 0x8000_0000
    ensures fits <==> k' == k || Read(s[k..k'], 10) + 48 < 0x8000_0000
  {
    hide Wrap, Read;
    i, k', fits := 0, k, true;
    assert s[k..k] == "";
    ReadNothing();
    while IsDigit(CharAt(s, k'))
      invariant k <= k' <= |s| && RunEnd(s, k) == RunEnd(s, k') && i == Wrap(Read(s[k..k'], 10))
      invariant k' == k ==> i == 0 && Read(s[k..k'], 10) == 0
      invariant fits <==> k' == k || Read(s[k..k'], 10) + 48 < 0x8000_0000
      decreases |s| - k'
    {
      assert s[k..k' + 1] == s[k..k'] + [s[k']];
      ReadAppend(s[k..k'], s[k'], 10);
      WrapRound(Read(s[k..k'], 10), DigitOf(s[k']));
      fits := fits && Fits(i * 10) && Fits(i * 10 + s[k'] as int);
      i := Wrap(Wrap(Wrap(i * 10) + s[k'] as int) - '0' as int);
      k' := k' + 1;
    }
  }

  lemma ReadNothing()
    ensures Read("", 10) == 0 && Wrap(0) == 0
  {
  }

  const PLAIN := Flags(false, false, false, false, false, false, false)

  /** The plain decimal text of a number. */
  function Decimal(n: nat): (s: string)
    ensures |s| >= 1
  {
    Chars(Digits(n, 10), false)
  }

  lemma DecimalIsDigits(n: nat)
    ensures forall i | 0 <= i < |Decimal(n)| :: IsDigit(Decimal(n)[i])
    ensures Read(Decimal(n), 10) == n
  {
    var ds := Digits(n, 10);
    forall i | 0 <= i < |ds|
      ensures DigitOf(Decimal(n)[i]) == ds[i] && IsDigit(Decimal(n)[i])
    {
      DigitRoundTrip(ds[i], false);
      DigitCharIs(ds[i]);
    }
    assert seq(|ds|, i requires 0 <= i < |ds| => DigitOf(Decimal(n)[i])) == ds;
    DigitsHaveValue(n, 10);
  }

  /** What number() prints for a non-negative int without flags, width or precision is its plain decimal text. */
  lemma PlainFormat(n: nat, signed: bool)
    requires n < 0x8000_0000
    ensures Format(n, 10, -1, -1, PLAIN.(sign := signed)) == Decimal(n)
  {
    assert Magnitude(n, signed) == n;
  }

  lemma {:induction false} RunOfDigits(s: string, k: nat, e: nat)
    requires k <= e <= |s| && (forall i | k <= i < e :: IsDigit(s[i])) && !IsDigit(CharAt(s, e))
    ensures RunEnd(s, k) == e
    decreases e - k
  {
    if k == e {
    } else {
      RunOfDigits(s, k + 1, e);
    }
  }

  /** The printer and the parser undo each other: skip_atoi on what number() prints returns the number, whatever follows
      that is not a digit. */
  lemma AtoiInvertsNumber(n: nat, signed: bool, rest: string)
    requires n < 0x8000_0000 && !IsDigit(CharAt(rest, 0))
    ensures
      var text := Format(n, 10, -1, -1, PLAIN.(sign := signed));
      RunEnd(text + rest, 0) == |text| && Wrap(Read((text + rest)[0..|text|], 10)) == n
  {
    PlainFormat(n, signed);
    RunAfterDecimal("", n, rest);
    DecimalIsDigits(n);
    assert (Decimal(n) + rest)[0..|Decimal(n)|] == Decimal(n);
    assert "" + Decimal(n) + rest == Decimal(n) + rest;
  }

  lemma RunAfterDecimal(before: string, n: nat, rest: string)
    requires !IsDigit(CharAt(rest, 0))
    ensures RunEnd(before + Decimal(n) + rest, |before|) == |before| + |Decimal(n)|
  {
    DecimalIsDigits(n);
    hide Decimal;
    var s := before + Decimal(n) + rest;
    var e := |before| + |Decimal(n)|;
    forall i | |before| <= i < e
      ensures IsDigit(s[i])
    {
      assert s[i] == Decimal(n)[i - |before|];
    }
    assert CharAt(s, e) == CharAt(rest, 0);
    RunOfDigits(s, |before|, e);
  }

  // --- Directives -------------------------------------------------------------------------------------

  /** A width or precision; a literal is what skip_atoi makes of its digits in 32 bits. */
  datatype Amount = Absent | Literal(n: int) | Star

  /** What stands between a percent sign and its conversion character; `qualifier` is zero when there is none. */
  datatype Directive = Directive(left: bool, plus: bool, space: bool, hexPrep: bool, zeropad: bool,
                                 width: Amount, precision: Amount, qualifier: char)

  const NOTHING := Directive(false, false, false, false, false, Absent, Absent, '\0')

  predicate IsFlag(c: char) { c in {'-', '+', ' ', '#', '0'} }

  function WithFlag(d: Directive, c: char): Directive
  {
    if c == '-' then d.(left := true)
    else if c == '+' then d.(plus := true)
    else if c == ' ' then d.(space := true)
    else if c == '#' then d.(hexPrep := true)
    else if c == '0' then d.(zeropad := true)
    else d
  }

  function ParseFlags(s: string, k: nat, d: Directive): (r: (Directive, nat))
    requires k <= |s|
    ensures k <= r.1 <= |s|
    decreases |s| - k
  {
    if IsFlag(CharAt(s, k)) && k < |s| then ParseFlags(s, k + 1, WithFlag(d, s[k])) else (d, k)
  }

  function ParseAmount(s: string, k: nat, otherwise: Amount): (r: (Amount, nat))
    requires k <= |s|
    ensures k <= r.1 <= |s|
  {
    if IsDigit(CharAt(s, k)) then (Literal(Wrap(Read(s[k..RunEnd(s, k)], 10))), RunEnd(s, k))
    else if CharAt(s, k) == '*' then (Star, k + 1)
    else (otherwise, k)
  }

  /** A point without a number means precision zero. */
  function ParsePrecision(s: string, k: nat): (r: (Amount, nat))
    requires k <= |s|
    ensures k <= r.1 <= |s|
  {
    if CharAt(s, k) == '.' then ParseAmount(s, k + 1, Literal(0)) else (Absent, k)
  }

  predicate IsQualifier(c: char) { c == 'l' || c == 'L' }

  function Parse(s: string, k: nat): (r: (Directive, nat))
    requires k <= |s|
    ensures k <= r.1 <= |s|
  {
    var (d, k1) := ParseFlags(s, k, NOTHING);
    var (w, k2) := ParseAmount(s, k1, Absent);
    var (p, k3) := ParsePrecision(s, k2);
    if IsQualifier(CharAt(s, k3)) then (d.(width := w, precision := p, qualifier := CharAt(s, k3)), k3 + 1)
    else (d.(width := w, precision := p), k3)
  }

  // --- The printer of directives ------------------------------------------------------------------------

  function If(b: bool, s: string): string { if b then s else "" }

  function ShowFlags(d: Directive): string
  {
    If(d.left, "-") + If(d.plus, "+") + If(d.space, " ") + If(d.hexPrep, "#") + If(d.zeropad, "0")
  }

  function ShowAmount(a: Amount): string
  {
    match a
    case Absent => ""
    case Literal(n) => if n >= 0 then Decimal(n) else ""
    case Star => "*"
  }

  function ShowPrecision(a: Amount): string
  {
    if a == Absent then "" else "." + ShowAmount(a)
  }

  function ShowQualifier(c: char): string { if IsQualifier(c) then [c] else "" }

  function Show(d: Directive): string
  {
    ShowFlags(d) + (ShowAmount(d.width) + (ShowPrecision(d.precision) + ShowQualifier(d.qualifier)))
  }

  /** A character that ends a directive. */
  predicate Ends(c: char) { !IsFlag(c) && !IsDigit(c) && c != '*' && c != '.' && !IsQualifier(c) }

  /** A literal that an int holds. */
  predicate Writable(a: Amount) { a.Literal? ==> 0 <= a.n < 0x8000_0000 }

  predicate Showable(d: Directive)
  {
    && d.width != Literal(0) && Writable(d.width) && Writable(d.precision)
    && (IsQualifier(d.qualifier) || d.qualifier == '\0')
  }

  /** The text after position |before| as the parser sees it. */
  lemma CharAfter(before: string, rest: string)
    ensures CharAt(before + rest, |before|) == CharAt(rest, 0)
  {
  }

  /** One optional flag: `rest` is what is left of the text after it. */
  lemma MaybeFlag(s: string, k: nat, b: bool, c: char, rest: string, d: Directive)
    requires IsFlag(c) && k <= |s| && s[k..] == If(b, [c]) + rest
    ensures k <= |s| - |rest| && s[|s| - |rest|..] == rest
    ensures ParseFlags(s, k, d) == ParseFlags(s, |s| - |rest|, Flagged(d, b, c))
  {
    if b {
      assert s[k..][0] == c && s[k..][1..] == rest;
      assert s[k + 1..] == s[k..][1..];
    }
  }

  function Flagged(d: Directive, b: bool, c: char): Directive
  {
    if b then WithFlag(d, c) else d
  }

  /** The five flags of `d` and nothing else. */
  function FlagsOnly(d: Directive): (r: Directive)
    ensures r == NOTHING.(left := d.left, plus := d.plus, space := d.space, hexPrep := d.hexPrep, zeropad := d.zeropad)
  {
    Flagged(Flagged(Flagged(Flagged(Flagged(NOTHING, d.left, '-'), d.plus, '+'), d.space, ' '), d.hexPrep, '#'), d.zeropad, '0')
  }

  lemma FlagsRoundTrip(before: string, d: Directive, rest: string)
    requires !IsFlag(CharAt(rest, 0))
    ensures ParseFlags(before + (ShowFlags(d) + rest), |before|, NOTHING) == (FlagsOnly(d), |before + ShowFlags(d)|)
  {
    hide ParseFlags, If, FlagsOnly, CharAt;
    var s := before + (ShowFlags(d) + rest);
    assert s[|before|..] == ShowFlags(d) + rest;
    FiveParts(If(d.left, "-"), If(d.plus, "+"), If(d.space, " "), If(d.hexPrep, "#"), If(d.zeropad, "0"), rest);
    FlagChain(s, |before|, d, rest);
  }

  lemma FlagChain(s: string, k: nat, d: Directive, rest: string)
    requires k <= |s| && !IsFlag(CharAt(rest, 0))
    requires s[k..] == If(d.left, "-") + (If(d.plus, "+") + (If(d.space, " ") + (If(d.hexPrep, "#") + (If(d.zeropad, "0") + rest))))
    ensures |rest| <= |s| && ParseFlags(s, k, NOTHING) == (FlagsOnly(d), |s| - |rest|)
  {
    hide ParseFlags, If, Flagged, WithFlag, CharAt;
    var r4 := If(d.zeropad, "0") + rest;
    var r3 := If(d.hexPrep, "#") + r4;
    var r2 := If(d.space, " ") + r3;
    var r1 := If(d.plus, "+") + r2;
    var n := |s|;
    var d1 := Flagged(NOTHING, d.left, '-');
    MaybeFlag(s, k, d.left, '-', r1, NOTHING);
    var d2 := Flagged(d1, d.plus, '+');
    MaybeFlag(s, n - |r1|, d.plus, '+', r2, d1);
    var d3 := Flagged(d2, d.space, ' ');
    MaybeFlag(s, n - |r2|, d.space, ' ', r3, d2);
    var d4 := Flagged(d3, d.hexPrep, '#');
    MaybeFlag(s, n - |r3|, d.hexPrep, '#', r4, d3);
    MaybeFlag(s, n - |r4|, d.zeropad, '0', rest, d4);
    NoFlag(s, n - |rest|, rest, Flagged(d4, d.zeropad, '0'));
  }

  lemma FiveParts(a: string, b: string, c: string, d: string, e: string, rest: string)
    ensures (a + b + c + d + e) + rest == a + (b + (c + (d + (e + rest))))
  {
  }

  lemma NoFlag(s: string, k: nat, rest: string, d: Directive)
    requires k <= |s| && s[k..] == rest && !IsFlag(CharAt(rest, 0))
    ensures ParseFlags(s, k, d) == (d, k)
  {
  }

  lemma AmountRoundTrip(before: string, a: Amount, rest: string, otherwise: Amount)
    requires !IsDigit(CharAt(rest, 0)) && (CharAt(rest, 0) != '*' || a == Star)
    requires Writable(a) && (a == Absent ==> otherwise == Absent)
    ensures ParseAmount(before + (ShowAmount(a) + rest), |before|, otherwise) == (a, |before + ShowAmount(a)|)
  {
    var s := before + (ShowAmount(a) + rest);
    match a
    case Absent =>
      assert s == before + rest;
      CharAfter(before, rest);
    case Star =>
      assert s[|before|] == '*';
    case Literal(n) =>
      LiteralRoundTrip(before, n, rest, otherwise);
  }

  /** A literal is read back exactly when an int holds it. */
  lemma LiteralRoundTrip(before: string, n: nat, rest: string, otherwise: Amount)
    requires !IsDigit(CharAt(rest, 0))
    ensures ParseAmount(before + (Decimal(n) + rest), |before|, otherwise) == (Literal(Wrap(n)), |before + Decimal(n)|)
    ensures Wrap(n) == n <==> n < 0x8000_0000
  {
    hide Read, RunEnd, Decimal;
    var s := before + (Decimal(n) + rest);
    assert s == before + Decimal(n) + rest;
    RunAfterDecimal(before, n, rest);
    DecimalIsDigits(n);
    assert s[|before|..|before| + |Decimal(n)|] == Decimal(n);
    assert s[|before|] == Decimal(n)[0];
  }

  lemma PrecisionRoundTrip(before: string, a: Amount, rest: string)
    requires !IsDigit(CharAt(rest, 0)) && CharAt(rest, 0) != '*' && CharAt(rest, 0) != '.' && Writable(a)
    ensures ParsePrecision(before + (ShowPrecision(a) + rest), |before|) == (a, |before + ShowPrecision(a)|)
  {
    hide ParseAmount, ShowAmount;
    if a == Absent {
      assert before + ("" + rest) == before + rest;
      CharAfter(before, rest);
    } else {
      var s := before + (("." + ShowAmount(a)) + rest);
      assert s == (before + ".") + (ShowAmount(a) + rest);
      assert s[|before|] == '.';
      AmountRoundTrip(before + ".", a, rest, Literal(0));
    }
  }

  lemma {:induction false} LeadingDigit(n: nat)
    requires n >= 1
    ensures Digits(n, 10)[0] >= 1
  {
    if n < 10 {
    } else {
      LeadingDigit(n / 10);
    }
  }

  lemma DecimalStarts(n: nat, rest: string)
    ensures IsDigit(CharAt(Decimal(n) + rest, 0))
    ensures n >= 1 ==> CharAt(Decimal(n) + rest, 0) != '0'
  {
    DecimalIsDigits(n);
    if n >= 1 {
      LeadingDigit(n);
      DigitCharIs(Digits(n, 10)[0]);
    }
  }

  /** What follows the flags of a shown directive is not taken for another flag, and so on for each part. */
  lemma PartsSeparate(d: Directive, rest: string)
    requires Showable(d) && Ends(CharAt(rest, 0))
    ensures
      var q := ShowQualifier(d.qualifier) + rest;
      var p := ShowPrecision(d.precision) + q;
      var w := ShowAmount(d.width) + p;
      && !IsDigit(CharAt(q, 0)) && CharAt(q, 0) != '*' && CharAt(q, 0) != '.'
      && !IsDigit(CharAt(p, 0)) && CharAt(p, 0) != '*' && !IsFlag(CharAt(p, 0))
      && !IsFlag(CharAt(w, 0))
  {
    hide Decimal;
    var q := ShowQualifier(d.qualifier) + rest;
    assert CharAt(q, 0) == if IsQualifier(d.qualifier) then d.qualifier else CharAt(rest, 0);
    var p := ShowPrecision(d.precision) + q;
    assert CharAt(p, 0) == if d.precision == Absent then CharAt(q, 0) else '.';
    if d.width.Literal? {
      DecimalStarts(d.width.n, p);
    } else {
      assert CharAt(ShowAmount(d.width) + p, 0) == if d.width == Star then '*' else CharAt(p, 0);
    }
  }

  /** The directive parser inverts the printer of directives: every combination of flags, width, precision and qualifier
      is read back, and the parser stops exactly at the conversion character. */
  lemma ParseInvertsShow(before: string, d: Directive, rest: string)
    requires Showable(d) && Ends(CharAt(rest, 0))
    ensures Parse(before + (Show(d) + rest), |before|) == (d, |before + Show(d)|)
  {
    hide ParseFlags, ParseAmount, ParsePrecision, ShowFlags, FlagsOnly, ShowAmount, ShowPrecision, ShowQualifier, IsFlag;
    var f, a, p, q := ShowFlags(d), ShowAmount(d.width), ShowPrecision(d.precision), ShowQualifier(d.qualifier);
    var s := before + (Show(d) + rest);
    PartsSeparate(d, rest);
    assert s == before + (f + (a + (p + (q + rest))));
    FlagsRoundTrip(before, d, a + (p + (q + rest)));
    assert s == (before + f) + (a + (p + (q + rest)));
    AmountRoundTrip(before + f, d.width, p + (q + rest), Absent);
    assert s == (before + f + a) + (p + (q + rest));
    PrecisionRoundTrip(before + f + a, d.precision, q + rest);
    assert s == (before + f + a + p) + (q + rest);
    CharAfter(before + f + a + p, q + rest);
    QualifierShown(d.qualifier, rest);
    assert before + Show(d) == before + f + a + p + q;
  }

  lemma QualifierShown(c: char, rest: string)
    requires Ends(CharAt(rest, 0)) && (IsQualifier(c) || c == '\0')
    ensures IsQualifier(c) ==> CharAt(ShowQualifier(c) + rest, 0) == c && |ShowQualifier(c)| == 1
    ensures !IsQualifier(c) ==> !IsQualifier(CharAt(ShowQualifier(c) + rest, 0)) && ShowQualifier(c) == ""
  {
    if !IsQualifier(c) {
      assert "" + rest == rest;
    }
  }

  /** The directive parser as the source runs it. */
  method ParseDirective(s: string, k: nat) returns (d: Directive, j: nat)
    requires k <= |s|
    ensures (d, j) == Parse(s, k)
  {
    hide ParseFlags, Read, RunEnd, WithFlag;
    d, j := NOTHING, k;
    while IsFlag(CharAt(s, j))
      invariant k <= j <= |s| && ParseFlags(s, j, d) == ParseFlags(s, k, NOTHING)
      decreases |s| - j
    {
      FlagLoop(s, j, d);
      d := WithFlag(d, s[j]);
      j := j + 1;
    }
    FlagLoop(s, j, d);
    var width;
    width, j := AmountAt(s, j, Absent);
    var precision := Absent;
    if CharAt(s, j) == '.' {
      precision, j := AmountAt(s, j + 1, Literal(0));
    }
    d := d.(width := width, precision := precision);
    if IsQualifier(CharAt(s, j)) {
      d := d.(qualifier := CharAt(s, j));
      j := j + 1;
    }
  }

  lemma FlagLoop(s: string, j: nat, d: Directive)
    requires j <= |s|
    ensures if IsFlag(CharAt(s, j)) then j < |s| && ParseFlags(s, j, d) == ParseFlags(s, j + 1, WithFlag(d, s[j]))
            else ParseFlags(s, j, d) == (d, j)
  {
  }

  method AmountAt(s: string, k: nat, otherwise: Amount) returns (a: Amount, j: nat)
    requires k <= |s|
    ensures (a, j) == ParseAmount(s, k, otherwise)
  {
    a, j := otherwise, k;
    if IsDigit(CharAt(s, k)) {
      var n;
      ghost var fits;
      n, j, fits := SkipAtoi(s, k);
      a := Literal(n);
    } else if CharAt(s, k) == '*' {
      a, j := Star, k + 1;
    }
  }

  // --- Conversions --------------------------------------------------------------------------------------

  /** An integer or a pointer, a string, a null string, the octets a pointer points to, a double together with the text
      that its conversion makes of it. */
  datatype Arg = Int(v: int) | Text(s: string) | NullText | Address(octets: seq<nat>) | Double(text: string)

  /** A directive with its stars replaced; -1 stands for an absent width or precision. */
  datatype Field = Field(d: Directive, width: int, precision: int)

  function TakeWidth(d: Directive, args: seq<Arg>): Option<(Field, seq<Arg>)>
  {
    match d.width
    case Absent => Some((Field(d, -1, -1), args))
    case Literal(n) => Some((Field(d, n, -1), args))
    case Star =>
      if args == [] || !args[0].Int? || !Fits(-Wrap(args[0].v)) then None
      else if Wrap(args[0].v) < 0 then Some((Field(d.(left := true), -Wrap(args[0].v), -1), args[1..]))
      else Some((Field(d, Wrap(args[0].v), -1), args[1..]))
  }

  function TakePrecision(f: Field, args: seq<Arg>): Option<(Field, seq<Arg>)>
  {
    match f.d.precision
    case Absent => Some((f, args))
    case Literal(n) => Some((f.(precision := Max(n, 0)), args))
    case Star =>
      if args == [] || !args[0].Int? then None else Some((f.(precision := Max(Wrap(args[0].v), 0)), args[1..]))
  }

  predicate IsInteger(c: char) { c in {'d', 'i', 'u', 'o', 'x', 'X'} }

  function BaseOf(c: char): nat { if c == 'o' then 8 else if c == 'x' || c == 'X' then 16 else 10 }

  function FlagsFor(d: Directive, c: char): Flags
  {
    Flags(d.zeropad, c == 'd' || c == 'i', d.plus, d.space, d.left, d.hexPrep, c == 'X')
  }

  predicate IntFits(c: char, f: Field, v: int)
  {
    SizeFits(Wrap(v), BaseOf(c), f.width, f.precision, FlagsFor(f.d, c))
  }

  predicate IsString(a: Arg) { a.Text? || a.NullText? }

  function TextOf(a: Arg): string
    requires IsString(a)
  {
    if a.Text? then CString(a.s) else "<NULL>"
  }

  function Truncated(s: string, precision: int): string
  {
    if 0 <= precision < |s| then s[..precision] else s
  }

  /** Text in a field of `width`, to the left or to the right. */
  function Justified(s: string, width: int, left: bool): (r: string)
    ensures |r| == Max(width, |s|) && if left then s <= r else r[|r| - |s|..] == s
    ensures forall i | 0 <= i < |r| :: (if left then i >= |s| else i < |r| - |s|) ==> r[i] == ' '
  {
    Fill(' ', if left then 0 else width - |s|) + s + Fill(' ', if left then width - |s| else 0)
  }

  /** The characters before a zero. */
  function CString(s: string): string
  {
    if s == "" || s[0] == '\0' then "" else [s[0]] + CString(s[1..])
  }

  /** The counter of the width in the character and string conversions stays in range: it is decremented below the length
      at most twice. */
  predicate WidthFits(width: int) { Fits(width) && Fits(width - 2) }

  /** A pointer without a width has all its digits. */
  function Pointer(f: Field): Field
  {
    if f.width == -1 then f.(width := 8, d := f.d.(zeropad := true)) else f
  }

  /** Six octets of an Ethernet address with a qualifier l, four of an Internet address without. */
  function AddressSize(d: Directive): nat { if d.qualifier == 'l' then 6 else 4 }

  predicate IsAddress(a: Arg, d: Directive)
  {
    a.Address? && |a.octets| == AddressSize(d) && forall i | 0 <= i < |a.octets| :: a.octets[i] < 256
  }

  function HexPair(o: nat, uppercase: bool): string
    requires o < 256
  {
    [DigitChar(o / 16, uppercase), DigitChar(o % 16, uppercase)]
  }

  /** The octets as `show` shows them, with `separator` in between. */
  function Joined(octets: seq<nat>, separator: char, show: nat -> string): string
  {
    if octets == [] then ""
    else if |octets| == 1 then show(octets[0])
    else
      Joined(octets[..|octets| - 1], separator, show) + ([separator] + show(octets[|octets| - 1]))
  }

  function Pairs(uppercase: bool): nat -> string
  {
    (o: nat) => if o < 256 then HexPair(o, uppercase) else ""
  }

  function Decimals(): nat -> string
  {
    (o: nat) => Decimal(o)
  }

  function AddressText(octets: seq<nat>, d: Directive, c: char): string
  {
    if d.qualifier == 'l' then Joined(octets, ':', Pairs(c == 'A'))
    else Joined(octets, '.', Decimals())
  }

  /** The text of one conversion; None without an argument of the right kind, and where an int of the source would
      overflow. */
  function Conversion(c: char, f: Field, args: seq<Arg>): Option<(string, seq<Arg>)>
  {
    if c == 'f' then
      if args == [] || !args[0].Double? then None else Some((args[0].text, args[1..]))
    else if c == 'p' then
      var g := Pointer(f);
      if args == [] || !args[0].Int? || !SizeFits(Wrap(args[0].v), 16, g.width, g.precision, FlagsFor(g.d, c)) then None
      else Some((Format(Wrap(args[0].v), 16, g.width, g.precision, FlagsFor(g.d, c)), args[1..]))
    else if c == 'a' || c == 'A' then
      if args == [] || !IsAddress(args[0], f.d) || !WidthFits(f.width) then None
      else Some((Justified(AddressText(args[0].octets, f.d, c), f.width, f.d.left), args[1..]))
    else if c == 'c' then
      if args == [] || !args[0].Int? || !WidthFits(f.width) then None
      else Some((Justified([(args[0].v % 256) as char], f.width, f.d.left), args[1..]))
    else if c == 's' then
      if args == [] || !IsString(args[0]) || !WidthFits(f.width) then None
      else Some((Justified(Truncated(TextOf(args[0]), f.precision), f.width, f.d.left), args[1..]))
    else if IsInteger(c) then
      if args == [] || !args[0].Int? || !IntFits(c, f, args[0].v) then None
      else Some((Format(Wrap(args[0].v), BaseOf(c), f.width, f.precision, FlagsFor(f.d, c)), args[1..]))
    else if c == '%' || c == '\0' then Some(("%", args))
    else Some(("%" + [c], args))
  }

  function Directed(c: char, d: Directive, args: seq<Arg>): Option<(string, seq<Arg>)>
  {
    match TakeWidth(d, args)
    case None => None
    case Some((f, args1)) =>
      match TakePrecision(f, args1)
      case None => None
      case Some((g, args2)) => Conversion(c, g, args2)
  }

  /** The whole text, from position `k` of the format on. */
  function Render(fmt: string, k: nat, args: seq<Arg>): Option<string>
    requires k <= |fmt|
    decreases |fmt| - k
  {
    if k == |fmt| then Some("")
    else if fmt[k] != '%' then
      match Render(fmt, k + 1, args)
      case None => None
      case Some(s) => Some([fmt[k]] + s)
    else
      var (d, j) := Parse(fmt, k + 1);
      match Directed(CharAt(fmt, j), d, args)
      case None => None
      case Some((text, rest)) =>
        match Render(fmt, if j < |fmt| then j + 1 else j, rest)
        case None => None
        case Some(s) => Some(text + s)
  }

  /** A format without directives is its own text. */
  lemma {:induction false} PlainText(fmt: string, k: nat, args: seq<Arg>)
    requires k <= |fmt| && forall i | k <= i < |fmt| :: fmt[i] != '%'
    ensures Render(fmt, k, args) == Some(fmt[k..])
    decreases |fmt| - k
  {
    if k < |fmt| {
      PlainText(fmt, k + 1, args);
      assert fmt[k..] == [fmt[k]] + fmt[k + 1..];
    } else {
      assert fmt[k..] == "";
    }
  }

  // --- Formats as structure ---------------------------------------------------------------------------------

  /** A format is a sequence of literal characters and directives with their conversion characters. */
  datatype Item = Plain(c: char) | Percent(d: Directive, c: char)
  {
    predicate Proper()
    {
      match this
      case Plain(c) => c != '%'
      case Percent(d, c) => Showable(d) && Ends(c) && c != '\0'
    }

    function Text(): string
    {
      if Plain? then [c] else "%" + (Show(d) + [c])
    }
  }

  function FormatText(items: seq<Item>): string
  {
    if items == [] then "" else items[0].Text() + FormatText(items[1..])
  }

  /** What the items print, one after the other, the arguments handed on from directive to directive. */
  function Meaning(items: seq<Item>, args: seq<Arg>): Option<string>
  {
    if items == [] then Some("")
    else if items[0].Plain? then Prefixed([items[0].c], Meaning(items[1..], args))
    else
      match Directed(items[0].c, items[0].d, args)
      case None => None
      case Some((text, rest)) => Prefixed(text, Meaning(items[1..], rest))
  }

  function Prefixed(s: string, r: Option<string>): Option<string>
  {
    if r.Some? then Some(s + r.value) else None
  }

  lemma RenderPlain(fmt: string, k: nat, args: seq<Arg>)
    requires k < |fmt| && fmt[k] != '%'
    ensures Render(fmt, k, args) == Prefixed([fmt[k]], Render(fmt, k + 1, args))
  {
  }

  lemma RenderPercent(fmt: string, k: nat, args: seq<Arg>, d: Directive, j: nat)
    requires k < |fmt| && fmt[k] == '%' && Parse(fmt, k + 1) == (d, j) && j < |fmt|
    ensures Render(fmt, k, args) ==
            if Directed(fmt[j], d, args) == None then None
            else
              var (text, rest) := Directed(fmt[j], d, args).value;
              Prefixed(text, Render(fmt, j + 1, rest))
  {
    hide Parse, Directed;
  }

  /** The interpreter of format strings inverts the printer of formats: for every sequence of items and all arguments,
      rendering the text of the format is printing its items. */
  lemma {:induction false} RenderInvertsText(before: string, items: seq<Item>, args: seq<Arg>)
    requires forall i | 0 <= i < |items| :: items[i].Proper()
    ensures Render(before + FormatText(items), |before|, args) == Meaning(items, args)
    decreases |items|
  {
    hide Directed, Parse, Show, Ends, Showable, Render, Prefixed, FormatText;
    if items == [] {
      RenderNothing(before, args);
    } else {
      var more := FormatText(items[1..]);
      var next := before + items[0].Text();
      var fmt := next + more;
      TextStep(before, items);
      match items[0]
      case Plain(c) =>
        RenderInvertsText(next, items[1..], args);
        RenderPlain(fmt, |before|, args);
      case Percent(d, c) =>
        ConversionFound(before, d, c, more);
        RenderPercent(fmt, |before|, args, d, |next| - 1);
        if Directed(c, d, args) != None {
          RenderInvertsText(next, items[1..], Directed(c, d, args).value.1);
        }
    }
  }

  lemma RenderNothing(fmt: string, args: seq<Arg>)
    ensures Render(fmt + FormatText([]), |fmt|, args) == Some("")
  {
  }

  lemma TextStep(before: string, items: seq<Item>)
    requires items != []
    ensures before + FormatText(items) == (before + items[0].Text()) + FormatText(items[1..])
  {
    hide Item.Text;
    assert FormatText(items) == items[0].Text() + FormatText(items[1..]);
  }

  lemma ConversionFound(before: string, d: Directive, c: char, more: string)
    requires Showable(d) && Ends(c)
    ensures
      var fmt, next := before + ("%" + (Show(d) + [c])) + more, before + ("%" + (Show(d) + [c]));
      fmt[|before|] == '%' && Parse(fmt, |before| + 1) == (d, |next| - 1) && fmt[|next| - 1] == c
  {
    hide Parse, Show, Showable, Ends;
    var fmt := before + ("%" + (Show(d) + [c])) + more;
    assert fmt == (before + "%") + (Show(d) + ([c] + more));
    ParseInvertsShow(before + "%", d, [c] + more);
  }

  /** What an amount other than a star stands for. */
  function AmountOf(a: Amount): int { if a.Literal? then a.n else -1 }

  /** Every integer directive without stars, printed as text and interpreted again, prints its argument exactly as number()
      does with the flags, width and precision it was made of. */
  lemma DirectivePrints(d: Directive, c: char, v: int)
    requires Showable(d) && !d.width.Star? && !d.precision.Star? && IsInteger(c) && Fits(v)
    requires SizeFits(v, BaseOf(c), AmountOf(d.width), AmountOf(d.precision), FlagsFor(d, c))
    ensures Render("%" + (Show(d) + [c]), 0, [Int(v)]) ==
            Some(Format(v, BaseOf(c), AmountOf(d.width), AmountOf(d.precision), FlagsFor(d, c)))
  {
    hide Show, Parse, Format, FlagsFor;
    assert Wrap(v) == v;
    var fmt := "%" + (Show(d) + [c]);
    ParseInvertsShow("%", d, [c]);
    var j := |"%" + Show(d)|;
    assert fmt == ("%" + Show(d)) + [c];
    var text := Format(v, BaseOf(c), AmountOf(d.width), AmountOf(d.precision), FlagsFor(d, c));
    var args := [Int(v)];
    assert args[1..] == [];
    assert TakeWidth(d, args) == Some((Field(d, AmountOf(d.width), -1), args));
    assert Directed(c, d, args) == Some((text, []));
    assert Render(fmt, j + 1, []) == Some("");
    assert text + "" == text;
  }

  // --- The writer -----------------------------------------------------------------------------------------

  lemma WroteIs(buf: array<char>, before: seq<char>, str: nat, out: string)
    requires Wrote(buf, before, str, out)
    ensures str + |out| <= |before| == buf.Length && buf[..] == before[..str] + out + before[str + |out|..]
  {
  }

  /** Writing `more` right after `out` is writing both. */
  lemma WroteOn(buf: array<char>, before: seq<char>, mid: seq<char>, str: nat, out: string, more: string)
    requires str + |out| <= |before| && mid == before[..str] + out + before[str + |out|..]
    requires Wrote(buf, mid, str + |out|, more)
    ensures Wrote(buf, before, str, out + more)
  {
    var n, after := str + |out|, before[str + |out|..];
    assert mid[..n] == before[..str] + out;
    assert mid[n + |more|..] == after[|more|..] == before[n + |more|..];
    assert (before[..str] + out) + more == before[..str] + (out + more);
  }

  /** A string, character by character. */
  method PutString(buf: array<char>, ghost before: seq<char>, str: nat, ghost out: string, p: nat, s: string) returns (p': nat)
    requires Wrote(buf, before, str, out) && p == str + |out| && p + |s| <= buf.Length
    modifies buf
    ensures Wrote(buf, before, str, out + s) && p' == p + |s|
  {
    hide Wrote;
    p' := p;
    assert out + s[..0] == out;
    for i := 0 to |s|
      invariant p' == p + i && Wrote(buf, before, str, out + s[..i])
    {
      p' := Put(buf, before, str, out + s[..i], p', s[i]);
      assert out + s[..i] + [s[i]] == out + s[..i + 1];
    }
    assert s[..|s|] == s;
  }

  /** The character and string conversions: spaces, text, spaces, one width counted down through all of it. */
  method PutJustified(buf: array<char>, ghost before: seq<char>, str: nat, ghost out: string, p: nat, s: string, width: int,
                      left: bool) returns (p': nat)
    requires Wrote(buf, before, str, out) && p == str + |out|
    requires WidthFits(width) && p + |Justified(s, width, left)| <= buf.Length
    modifies buf
    ensures Wrote(buf, before, str, out + Justified(s, width, left)) && p' == p + |Justified(s, width, left)|
  {
    hide Wrote;
    var size := width;
    p' := p;
    ghost var done := "";
    assert out + done == out;
    if !left {
      p', size := Pad(buf, before, str, out, p', ' ', |s|, size);
      done := Fill(' ', width - |s|);
    }
    ghost var size1 := size;
    p' := PutString(buf, before, str, out + done, p', s);
    var unused;
    p', unused := Pad(buf, before, str, out + done + s, p', ' ', |s|, size);
    assert out + done + s + Fill(' ', size1 - |s|) == out + Justified(s, width, left);
  }

  method PutInteger(buf: array<char>, ghost before: seq<char>, str: nat, ghost out: string, p: nat, num: int, base: nat,
                    width: int, precision: int, f: Flags) returns (p': nat)
    requires Fits(num) && 2 <= base <= 36 && SizeFits(num, base, width, precision, f)
    requires Wrote(buf, before, str, out) && p == str + |out|
    requires p + |Format(num, base, width, precision, f)| <= buf.Length
    modifies buf
    ensures Wrote(buf, before, str, out + Format(num, base, width, precision, f))
    ensures p' == p + |Format(num, base, width, precision, f)|
  {
    hide Format, SizeFits, Wrote;
    ghost var mid := buf[..];
    WroteIs(buf, before, str, out);
    var r := Number(buf, p, num, base, width, precision, f);
    WroteOn(buf, before, mid, str, out, Format(num, base, width, precision, f));
    p' := r.value;
  }

  lemma JoinOne(octets: seq<nat>, i: nat, separator: char, show: nat -> string)
    requires i < |octets|
    ensures Joined(octets[..i + 1], separator, show) ==
            Joined(octets[..i], separator, show) + ((if i == 0 then "" else [separator]) + show(octets[i]))
  {
    assert octets[..i + 1][..i] == octets[..i];
  }

  /** eaddr: six pairs of hexadecimal digits, in 17 of the 24 characters of its buffer. */
  method Eaddr(octets: seq<nat>, d: Directive, c: char) returns (text: string)
    requires |octets| == 6 && d.qualifier == 'l' && forall i | 0 <= i < |octets| :: octets[i] < 256
    ensures text == AddressText(octets, d, c) && |text| == 17
  {
    hide Joined, HexPair;
    ghost var show := Pairs(c == 'A');
    text := "";
    assert octets[..0] == [] && Joined([], ':', show) == "" by { JoinNothing(':', show); }
    for i := 0 to 6
      invariant text == Joined(octets[..i], ':', show) && |text| == if i == 0 then 0 else 3 * i - 1
    {
      JoinOne(octets, i, ':', show);
      PairIs(octets[i], c == 'A');
      var pair := [DigitChar(octets[i] / 16, c == 'A'), DigitChar(octets[i] % 16, c == 'A')];
      text := text + ((if i == 0 then "" else ":") + pair);
    }
    assert octets[..6] == octets;
  }

  lemma JoinNothing(separator: char, show: nat -> string)
    ensures Joined([], separator, show) == ""
  {
  }

  lemma PairIs(o: nat, uppercase: bool)
    requires o < 256
    ensures HexPair(o, uppercase) == [DigitChar(o / 16, uppercase), DigitChar(o % 16, uppercase)]
  {
  }

  /** One octet in decimal by the branches of iaddr. */
  method OctetText(octet: nat) returns (text: string)
    requires octet < 256
    ensures text == Decimal(octet) && |text| <= 3
  {
    DecimalOfOctet(octet);
    var n := octet;
    text := "";
    if n == 0 {
      text := [DigitChar(0, false)];
    } else {
      if n >= 100 {
        text := [DigitChar(n / 100, false)];
        n := n % 100;
        text := text + [DigitChar(n / 10, false)];
        n := n % 10;
      } else if n >= 10 {
        text := [DigitChar(n / 10, false)];
        n := n % 10;
      }
      text := text + [DigitChar(n, false)];
    }
  }

  lemma DecimalOfOctet(n: nat)
    requires n < 256
    ensures Decimal(n) ==
            if n < 10 then [DigitChar(n, false)]
            else if n < 100 then [DigitChar(n / 10, false), DigitChar(n % 10, false)]
            else [DigitChar(n / 100, false), DigitChar(n % 100 / 10, false), DigitChar(n % 100 % 10, false)]
  {
    hide DigitChar;
    assert n >= 100 ==> n / 10 / 10 == n / 100 && n / 10 % 10 == n % 100 / 10 && n % 10 == n % 100 % 10;
    assert n >= 10 ==> Digits(n, 10) == Digits(n / 10, 10) + [n % 10];
    assert n >= 100 ==> Digits(n / 10, 10) == Digits(n / 10 / 10, 10) + [n / 10 % 10];
    assert 10 <= n < 100 ==> Digits(n / 10, 10) == [n / 10];
    assert n >= 100 ==> Digits(n / 100, 10) == [n / 100];
  }

  /** iaddr: four numbers in plain decimal, in at most 15 of the 24 characters of its buffer. */
  method Iaddr(octets: seq<nat>, d: Directive, c: char) returns (text: string)
    requires |octets| == 4 && d.qualifier != 'l' && forall i | 0 <= i < |octets| :: octets[i] < 256
    ensures text == AddressText(octets, d, c) && |text| <= 15
  {
    hide Joined, Decimal;
    ghost var show := Decimals();
    text := "";
    assert octets[..0] == [] && Joined([], '.', show) == "" by { JoinNothing('.', show); }
    for i := 0 to 4
      invariant text == Joined(octets[..i], '.', show) && |text| <= if i == 0 then 0 else 4 * i - 1
    {
      JoinOne(octets, i, '.', show);
      var digits := OctetText(octets[i]);
      text := text + ((if i == 0 then "" else ".") + digits);
    }
    assert octets[..4] == octets;
  }

  /** The conversion switch. */
  method Convert(buf: array<char>, ghost before: seq<char>, str: nat, ghost out: string, p: nat, c: char, f: Field,
                 args: seq<Arg>) returns (p': nat, args': seq<Arg>)
    requires Conversion(c, f, args) != None
    requires Wrote(buf, before, str, out) && p == str + |out|
    requires p + |Conversion(c, f, args).value.0| <= buf.Length
    modifies buf
    ensures
      var (text, rest) := Conversion(c, f, args).value;
      Wrote(buf, before, str, out + text) && p' == p + |text| && args' == rest
  {
    hide Wrote, Justified, Format, Truncated, TextOf, WidthFits, SizeFits, Wrap, AddressText, Pointer;
    if c == 'f' {
      p' := PutString(buf, before, str, out, p, args[0].text);
      args' := args[1..];
    } else if c == 'p' {
      var g := Pointer(f);
      p' := PutInteger(buf, before, str, out, p, Wrap(args[0].v), 16, g.width, g.precision, FlagsFor(g.d, c));
      args' := args[1..];
    } else if c == 'a' || c == 'A' {
      var text;
      if f.d.qualifier == 'l' {
        text := Eaddr(args[0].octets, f.d, c);
      } else {
        text := Iaddr(args[0].octets, f.d, c);
      }
      p' := PutJustified(buf, before, str, out, p, text, f.width, f.d.left);
      args' := args[1..];
    } else if c == 'c' {
      p' := PutJustified(buf, before, str, out, p, [(args[0].v % 256) as char], f.width, f.d.left);
      args' := args[1..];
    } else if c == 's' {
      var s := Truncated(TextOf(args[0]), f.precision);
      p' := PutJustified(buf, before, str, out, p, s, f.width, f.d.left);
      args' := args[1..];
    } else if IsInteger(c) {
      p' := PutInteger(buf, before, str, out, p, Wrap(args[0].v), BaseOf(c), f.width, f.precision, FlagsFor(f.d, c));
      args' := args[1..];
    } else {
      args' := args;
      p' := Put(buf, before, str, out, p, '%');
      if c != '%' && c != '\0' {
        p' := Put(buf, before, str, out + "%", p', c);
        assert out + "%" + [c] == out + ("%" + [c]);
      }
    }
  }

  /** The text still to come, when the whole format can be rendered. */
  ghost predicate Remaining(fmt: string, k: nat, args: seq<Arg>, out: string, whole: string)
  {
    k <= |fmt| && Render(fmt, k, args) != None && out + Render(fmt, k, args).value == whole
  }

  lemma RemainingLiteral(fmt: string, k: nat, args: seq<Arg>, out: string, whole: string)
    requires Remaining(fmt, k, args, out, whole) && k < |fmt| && fmt[k] != '%'
    ensures Remaining(fmt, k + 1, args, out + [fmt[k]], whole) && |out| < |whole|
  {
    var s := Render(fmt, k + 1, args).value;
    assert out + ([fmt[k]] + s) == (out + [fmt[k]]) + s;
  }

  lemma RemainingDirective(fmt: string, k: nat, args: seq<Arg>, out: string, whole: string)
    requires Remaining(fmt, k, args, out, whole) && k < |fmt| && fmt[k] == '%'
    ensures
      var (d, j) := Parse(fmt, k + 1);
      && Directed(CharAt(fmt, j), d, args) != None
      && var (text, rest) := Directed(CharAt(fmt, j), d, args).value;
      Remaining(fmt, if j < |fmt| then j + 1 else j, rest, out + text, whole) && |out + text| <= |whole|
  {
    hide Parse, Directed, CharAt;
    var (d, j) := Parse(fmt, k + 1);
    var (text, rest) := Directed(CharAt(fmt, j), d, args).value;
    var s := Render(fmt, if j < |fmt| then j + 1 else j, rest).value;
    assert out + (text + s) == (out + text) + s;
  }

  /** ee_vsprintf: the rendered text and a closing zero, nothing else in the buffer, and the length of the text. */
  method Sprintf(buf: array<char>, fmt: string, args0: seq<Arg>) returns (n: nat)
    requires '\0' !in fmt && Render(fmt, 0, args0) != None
    requires |Render(fmt, 0, args0).value| < buf.Length
    modifies buf
    ensures n == |Render(fmt, 0, args0).value|
    ensures Wrote(buf, old(buf[..]), 0, Render(fmt, 0, args0).value + ['\0'])
  {
    hide Wrote, Render, Directed, Parse, CharAt;
    ghost var before, whole, out := buf[..], Render(fmt, 0, args0).value, "";
    var args, k, p := args0, 0, 0;
    WroteNothing(buf, before, 0);
    assert out + whole == whole;
    while k < |fmt|
      invariant Remaining(fmt, k, args, out, whole)
      invariant p == |out| && Wrote(buf, before, 0, out)
    {
      if fmt[k] != '%' {
        RemainingLiteral(fmt, k, args, out, whole);
        p := Put(buf, before, 0, out, p, fmt[k]);
        out := out + [fmt[k]];
        k := k + 1;
      } else {
        RemainingDirective(fmt, k, args, out, whole);
        var d, j := ParseDirective(fmt, k + 1);
        ghost var text := Directed(CharAt(fmt, j), d, args).value.0;
        p, args := Direct(buf, before, out, p, CharAt(fmt, j), d, args);
        out := out + text;
        k := if j < |fmt| then j + 1 else j;
      }
    }
    RenderEnd(fmt, args, out, whole);
    n := p;
    p := Put(buf, before, 0, out, p, '\0');
  }

  lemma RenderEnd(fmt: string, args: seq<Arg>, out: string, whole: string)
    requires Remaining(fmt, |fmt|, args, out, whole)
    ensures out == whole
  {
  }

  /** One directive: the stars take their arguments first. */
  method Direct(buf: array<char>, ghost before: seq<char>, ghost out: string, p: nat, c: char, d: Directive, args: seq<Arg>)
    returns (p': nat, args': seq<Arg>)
    requires Directed(c, d, args) != None
    requires Wrote(buf, before, 0, out) && p == |out| && p + |Directed(c, d, args).value.0| <= buf.Length
    modifies buf
    ensures
      var (text, rest) := Directed(c, d, args).value;
      Wrote(buf, before, 0, out + text) && p' == p + |text| && args' == rest
  {
    hide Wrote, Conversion, Wrap;
    args' := args;
    var f := Field(d, -1, -1);
    if d.width == Star {
      f := f.(width := Wrap(args'[0].v));
      if f.width < 0 {
        f := f.(width := -f.width, d := d.(left := true));
      }
      args' := args'[1..];
    } else if d.width.Literal? {
      f := f.(width := d.width.n);
    }
    if d.precision == Star {
      f := f.(precision := Wrap(args'[0].v));
      args' := args'[1..];
      if f.precision < 0 {
        f := f.(precision := 0);
      }
    } else if d.precision.Literal? {
      f := f.(precision := d.precision.n);
      if f.precision < 0 {
        f := f.(precision := 0);
      }
    }
    p', args' := Convert(buf, before, 0, out, p, c, f, args');
  }
}

/** What the conversions of ee_vsprintf print, stated on the characters of the format and of the output alone. */
module Conversions {
  import opened Integers
  import opened Wires
  import opened Printf
  import opened Vsprintf

  /** A directive as it is typed: flags, width if it is not zero, precision if it is not negative, conversion. */
  function Typed(left: bool, plus: bool, space: bool, hash: bool, zero: bool, width: nat, precision: int, c: char): string
  {
    "%" + (if left then "-" else "") + (if plus then "+" else "") + (if space then " " else "") + (if hash then "#" else "")
    + (if zero then "0" else "") + (if width > 0 then Decimal(width) else "")
    + (if precision >= 0 then "." + Decimal(precision) else "") + [c]
  }

  /** Its parse. */
  function Parsed(left: bool, plus: bool, space: bool, hash: bool, zero: bool, width: nat, precision: int): Directive
  {
    Directive(left, plus, space, hash, zero, if width > 0 then Literal(width) else Absent,
              if precision >= 0 then Literal(precision) else Absent, '\0')
  }

  lemma TypedIsShown(left: bool, plus: bool, space: bool, hash: bool, zero: bool, width: nat, precision: int, c: char)
    ensures Typed(left, plus, space, hash, zero, width, precision, c) ==
            "%" + (Show(Parsed(left, plus, space, hash, zero, width, precision)) + [c])
  {
    hide Decimal;
    var f1, f2, f3 := If(left, "-"), If(plus, "+"), If(space, " ");
    var f4, f5 := If(hash, "#"), If(zero, "0");
    var w, q := if width > 0 then Decimal(width) else "", if precision >= 0 then "." + Decimal(precision) else "";
    Reassociate("%", f1, f2, f3, f4, f5, w, q, [c]);
  }

  lemma Reassociate(p: string, a: string, b: string, c: string, d: string, e: string, w: string, q: string, z: string)
    ensures p + a + b + c + d + e + w + q + z == p + (((a + b + c + d + e) + (w + (q + ""))) + z)
  {
  }

  /** A format that is one directive prints what its conversion prints. */
  lemma OneDirective(d: Directive, c: char, args: seq<Arg>)
    requires Showable(d) && Ends(c) && c != '\0'
    ensures Render("%" + (Show(d) + [c]), 0, args) ==
            if Directed(c, d, args) == None then None else Some(Directed(c, d, args).value.0)
  {
    hide Directed, Showable, Show, Render;
    var items := [Percent(d, c)];
    assert items[1..] == [];
    assert FormatText(items) == "%" + (Show(d) + [c]) by {
      assert FormatText([]) == "";
    }
    assert "" + FormatText(items) == FormatText(items);
    RenderInvertsText("", items, args);
    if Directed(c, d, args) != None {
      var (text, rest) := Directed(c, d, args).value;
      assert Meaning([], rest) == Some("");
      assert text + "" == text;
    }
  }

  /** The same, for a directive without stars: the fields it sets are the ones written. */
  lemma PlainDirective(d: Directive, c: char, args: seq<Arg>, text: string)
    requires Showable(d) && Ends(c) && c != '\0' && !d.width.Star? && !d.precision.Star?
    requires Conversion(c, Field(d, AmountOf(d.width), AmountOf(d.precision)), args) == Some((text, []))
    ensures Render("%" + (Show(d) + [c]), 0, args) == Some(text)
  {
    hide Conversion, Show, Render, Ends;
    OneDirective(d, c, args);
    var f := Field(d, AmountOf(d.width), AmountOf(d.precision));
    assert TakeWidth(d, args) == Some((Field(d, AmountOf(d.width), -1), args));
    assert TakePrecision(Field(d, AmountOf(d.width), -1), args) == Some((f, args));
  }

  // --- Integers -----------------------------------------------------------------------------------------

  lemma {:induction false} FewDigits(n: nat, base: nat, k: nat)
    requires base >= 2 && k >= 1 && n < Pow2(k)
    ensures |Digits(n, base)| <= k
  {
    if n < base {
    } else {
      Halves(n, base, k);
      LargeQuotient(n, base);
      assert k - 1 >= 1;
      FewDigits(n / base, base, k - 1);
    }
  }

  /** Every integer directive without stars: the base of the conversion, the sign of a signed one, the prefix, precision and
      padding are what its characters say. */
  lemma IntegerConversion(left: bool, plus: bool, space: bool, hash: bool, zero: bool, width: nat, precision: int, c: char, v: int)
    returns (p: Parts)
    requires c in {'d', 'i', 'u', 'o', 'x', 'X'} && Fits(v)
    requires width < 0x8000_0000 && precision <= 0x7FFF_FFF0
    ensures Render(Typed(left, plus, space, hash, zero, width, precision, c), 0, [Int(v)]) == Some(p.Text())
    ensures
      var base := if c == 'o' then 8 else if c == 'x' || c == 'X' then 16 else 10;
      var signed := c == 'd' || c == 'i';
      && p.sign == (if !signed then "" else if v < 0 then "-" else if plus then "+" else if space then " " else "")
      && p.prefix == (if !hash then "" else if base == 16 then "0x" else if base == 8 then "0" else "")
      && AllDigits(p.digits, base, c == 'X')
      && Read(p.digits, base) == (if !signed then v % 0x1_0000_0000 else if v < 0 then -v else v)
    ensures |p.digits| >= Max(1, precision) && (|p.digits| == Max(1, precision) || p.digits[0] != '0')
    ensures p.before + p.zeros + p.after == Max(0, width - |p.sign| - |p.prefix| - |p.digits|)
    ensures left ==> p.before == 0 && p.zeros == 0
    ensures !left && zero ==> p.before == 0 && p.after == 0
    ensures !left && !zero ==> p.zeros == 0 && p.after == 0
  {
    hide Render, Format, Show, Typed, Read, AllDigits, Digits, Magnitude, Decimal;
    var d := Parsed(left, plus, space, hash, zero, width, precision);
    var f := FlagsFor(d, c);
    TypedIsShown(left, plus, space, hash, zero, width, precision, c);
    SizesFit(v, BaseOf(c), AmountOf(d.width), AmountOf(d.precision), f);
    DirectivePrints(d, c, v);
    p := FormatIs(v, BaseOf(c), AmountOf(d.width), AmountOf(d.precision), f);
  }

  lemma SizesFit(v: int, base: nat, size: int, precision: int, f: Flags)
    requires Fits(v) && 2 <= base <= 36 && -1 <= size < 0x8000_0000 && -1 <= precision <= 0x7FFF_FFF0
    ensures SizeFits(v, base, size, precision, f)
  {
    hide Digits, Magnitude;
    Pow2Is();
    FewDigits(Magnitude(v, f.sign), base, 32);
  }

  /** The plain conversions: no sign but a minus, no prefix, no padding, no leading zeros. */
  lemma PlainConversion(c: char, v: int) returns (p: Parts)
    requires c in {'d', 'i', 'u', 'o', 'x', 'X'} && Fits(v)
    ensures Render("%" + [c], 0, [Int(v)]) == Some(p.sign + p.digits)
    ensures p.sign == if (c == 'd' || c == 'i') && v < 0 then "-" else ""
    ensures c == 'x' ==> Read(p.digits, 16) == v % 0x1_0000_0000 && AllDigits(p.digits, 16, false)
    ensures c == 'X' ==> Read(p.digits, 16) == v % 0x1_0000_0000 && AllDigits(p.digits, 16, true)
    ensures c == 'o' ==> Read(p.digits, 8) == v % 0x1_0000_0000 && AllDigits(p.digits, 8, false)
    ensures c == 'u' ==> Read(p.digits, 10) == v % 0x1_0000_0000 && AllDigits(p.digits, 10, false)
    ensures c == 'd' || c == 'i' ==>
      Read(p.digits, 10) == (if v < 0 then -v else v) && AllDigits(p.digits, 10, false)
    ensures |p.digits| >= 1 && (|p.digits| == 1 || p.digits[0] != '0')
  {
    hide Render, Read, AllDigits;
    p := IntegerConversion(false, false, false, false, false, 0, -1, c, v);
    assert Typed(false, false, false, false, false, 0, -1, c) == "%" + [c];
    assert p.before == p.zeros == p.after == 0;
    assert p.Text() == p.sign + p.digits;
  }

  // --- Characters and strings ---------------------------------------------------------------------------

  /** `text` in a field of `width`. */
  function InField(text: string, width: nat, left: bool): string
  {
    if left then text + Fill(' ', width - |text|) else Fill(' ', width - |text|) + text
  }

  lemma JustifiedIs(text: string, width: int, left: bool)
    ensures Justified(text, width, left) == InField(text, Max(width, 0), left)
  {
    assert Fill(' ', width - |text|) == Fill(' ', Max(width, 0) - |text|);
    assert text + "" == text && "" + text == text;
  }

  /** A string up to its zero, cut to the precision, in the field; no string is a text of its own. */
  lemma StringConversion(left: bool, width: nat, precision: int, a: Arg)
    requires (a.Text? || a.NullText?) && width < 0x8000_0000 && precision < 0x8000_0000
    ensures
      var s := if a.NullText? then "<NULL>" else CString(a.s);
      Render(Typed(left, false, false, false, false, width, precision, 's'), 0, [a]) ==
      Some(InField(if 0 <= precision < |s| then s[..precision] else s, width, left))
  {
    hide Render, Typed, Conversion, Justified, InField, CString;
    var d := Parsed(left, false, false, false, false, width, precision);
    var s := if a.NullText? then "<NULL>" else CString(a.s);
    StringField(Field(d, AmountOf(d.width), AmountOf(d.precision)), a);
    JustifiedIs(Truncated(s, precision), AmountOf(d.width), left);
    Typeset(left, width, precision, 's', [a], InField(Truncated(s, precision), width, left));
  }

  lemma StringField(f: Field, a: Arg)
    requires (a.Text? || a.NullText?) && -1 <= f.width < 0x8000_0000
    ensures
      var s := if a.NullText? then "<NULL>" else CString(a.s);
      Conversion('s', f, [a]) == Some((Justified(Truncated(s, f.precision), f.width, f.d.left), []))
  {
    hide Justified, CString, Truncated;
    assert [a][1..] == [];
  }

  lemma {:induction false} CStringIs(s: string)
    ensures CString(s) <= s && '\0' !in CString(s)
    ensures |CString(s)| < |s| ==> s[|CString(s)|] == '\0'
  {
    if s == "" || s[0] == '\0' {
    } else {
      CStringIs(s[1..]);
      assert s == [s[0]] + s[1..];
    }
  }

  /** One character, the argument taken modulo 256. */
  lemma CharacterConversion(left: bool, width: nat, v: int)
    requires width < 0x8000_0000
    ensures Render(Typed(left, false, false, false, false, width, -1, 'c'), 0, [Int(v)]) ==
            Some(InField([(v % 256) as char], width, left))
  {
    CharacterInField(left, width, v, [(v % 256) as char]);
  }

  lemma CharacterInField(left: bool, width: nat, v: int, text: string)
    requires width < 0x8000_0000 && text == [(v % 256) as char]
    ensures Render(Typed(left, false, false, false, false, width, -1, 'c'), 0, [Int(v)]) == Some(InField(text, width, left))
  {
    hide Render, Typed, Conversion, Justified, InField;
    var d := Parsed(left, false, false, false, false, width, -1);
    CharacterField(Field(d, AmountOf(d.width), -1), v, text);
    JustifiedIs(text, AmountOf(d.width), left);
    Typeset(left, width, -1, 'c', [Int(v)], InField(text, width, left));
  }

  /** What a directive without stars that has the minus flag at most prints. */
  lemma Typeset(left: bool, width: nat, precision: int, c: char, args: seq<Arg>, text: string)
    requires c in {'c', 's', 'a', 'A'} && width < 0x8000_0000 && precision < 0x8000_0000
    requires
      var d := Parsed(left, false, false, false, false, width, precision);
      Conversion(c, Field(d, AmountOf(d.width), AmountOf(d.precision)), args) == Some((text, []))
    ensures Render(Typed(left, false, false, false, false, width, precision, c), 0, args) == Some(text)
  {
    hide Render, Show, Typed, Conversion, Decimal;
    TypedIsShown(left, false, false, false, false, width, precision, c);
    PlainDirective(Parsed(left, false, false, false, false, width, precision), c, args, text);
  }

  lemma CharacterField(f: Field, v: int, text: string)
    requires -1 <= f.width < 0x8000_0000 && text == [(v % 256) as char]
    ensures Conversion('c', f, [Int(v)]) == Some((Justified(text, f.width, f.d.left), []))
  {
    hide Justified;
    assert [Int(v)][1..] == [];
  }

  /** Two percent signs are one; a character that is no conversion stands for itself after its percent sign; a percent sign
      at the end of the format stands for itself. */
  lemma OtherCharacters(c: char, args: seq<Arg>)
    requires Ends(c) && c != '\0'
    requires c !in {'c', 's', 'p', 'a', 'A', 'f', 'd', 'i', 'u', 'o', 'x', 'X'}
    ensures Render("%" + [c], 0, args) == Some(if c == '%' then "%" else "%" + [c])
    ensures Render("%", 0, args) == Some("%")
  {
    hide Ends;
    assert Show(NOTHING) == "" && "%" + ("" + [c]) == "%" + [c];
    OneDirective(NOTHING, c, args);
    LonePercent(args);
  }

  lemma LonePercent(args: seq<Arg>)
    ensures Render("%", 0, args) == Some("%")
  {
    assert Parse("%", 1) == (NOTHING, 1);
    assert Directed('\0', NOTHING, args) == Some(("%", args));
    assert Render("%", 1, args) == Some("");
    assert "%" + "" == "%";
  }

  // --- Stars --------------------------------------------------------------------------------------------

  /** A width or precision from the arguments is like the one written out, a negative width like a minus sign and its
      magnitude, a negative precision like zero. */
  lemma StarsAreWrittenOut(c: char, w: int, p: int, args: seq<Arg>)
    requires c in {'d', 'i', 'u', 'o', 'x', 'X', 's', 'c'} && Fits(w) && Fits(-w) && w != 0 && Fits(p)
    ensures Render("%*.*" + [c], 0, [Int(w), Int(p)] + args) ==
            Render(Typed(w < 0, false, false, false, false, if w < 0 then -w else w, Max(p, 0), c), 0, args)
  {
    hide Render, Typed, Conversion, Decimal;
    var star := NOTHING.(width := Star, precision := Star);
    var given := [Int(w), Int(p)] + args;
    assert "%*.*" + [c] == "%" + (Show(star) + [c]);
    OneDirective(star, c, given);
    var width: nat := if w < 0 then -w else w;
    var d := Parsed(w < 0, false, false, false, false, width, Max(p, 0));
    TypedIsShown(w < 0, false, false, false, false, width, Max(p, 0), c);
    OneDirective(d, c, args);
    assert given[1..] == [Int(p)] + args && ([Int(p)] + args)[1..] == args;
    var f, g := Field(star.(left := w < 0), width, Max(p, 0)), Field(d, width, Max(p, 0));
    SameConversion(c, f, g, args);
  }

  /** A qualifier l or L matters to an address only: an int and a long have the same size. */
  lemma QualifierIsIgnored(left: bool, plus: bool, space: bool, hash: bool, zero: bool, width: nat, precision: int, q: char, c: char,
                           args: seq<Arg>)
    requires q in {'l', 'L'} && Ends(c) && c !in {'a', 'A', '\0'} && width < 0x8000_0000 && precision < 0x8000_0000
    ensures Render(Typed(left, plus, space, hash, zero, width, precision, q) + [c], 0, args) ==
            Render(Typed(left, plus, space, hash, zero, width, precision, c), 0, args)
  {
    hide Render, Typed, Conversion, Decimal, Ends;
    var d := Parsed(left, plus, space, hash, zero, width, precision);
    var e := d.(qualifier := q);
    QualifiedIsShown(left, plus, space, hash, zero, width, precision, q, c);
    TypedIsShown(left, plus, space, hash, zero, width, precision, c);
    hide Show;
    OneDirective(e, c, args);
    OneDirective(d, c, args);
    SameConversion(c, Field(e, AmountOf(d.width), AmountOf(d.precision)), Field(d, AmountOf(d.width), AmountOf(d.precision)), args);
  }

  lemma QualifiedIsShown(left: bool, plus: bool, space: bool, hash: bool, zero: bool, width: nat, precision: int, q: char, c: char)
    requires q in {'l', 'L'}
    ensures Typed(left, plus, space, hash, zero, width, precision, q) + [c] ==
            "%" + (Show(Parsed(left, plus, space, hash, zero, width, precision).(qualifier := q)) + [c])
  {
    hide Typed, Decimal;
    var d := Parsed(left, plus, space, hash, zero, width, precision);
    TypedIsShown(left, plus, space, hash, zero, width, precision, q);
    assert Show(d.(qualifier := q)) == Show(d) + [q] by {
      assert ShowPrecision(d.precision) + "" == ShowPrecision(d.precision);
      LastPart(ShowFlags(d), ShowAmount(d.width), ShowPrecision(d.precision), [q]);
    }
    hide Show;
    assert ("%" + (Show(d) + [q])) + [c] == "%" + ((Show(d) + [q]) + [c]);
  }

  lemma LastPart(a: string, b: string, c: string, d: string)
    ensures a + (b + (c + d)) == (a + (b + c)) + d
  {
  }

  /** A conversion other than that of an address looks at the flags, the width and the precision it is given only. */
  lemma SameConversion(c: char, f: Field, g: Field, args: seq<Arg>)
    requires f.width == g.width && f.precision == g.precision && c !in {'a', 'A'}
    requires f.d == g.d.(width := f.d.width, precision := f.d.precision, qualifier := f.d.qualifier)
    ensures Conversion(c, f, args) == Conversion(c, g, args)
  {
    hide Format, Justified, SizeFits;
    assert FlagsFor(f.d, c) == FlagsFor(g.d, c);
    assert FlagsFor(Pointer(f).d, c) == FlagsFor(Pointer(g).d, c);
  }

  // --- Pointers and addresses ---------------------------------------------------------------------------

  /** A pointer without a width is eight lower-case hexadecimal digits with its value. */
  lemma PointerConversion(v: int) returns (digits: string)
    requires Fits(v)
    ensures Render("%p", 0, [Int(v)]) == Some(digits)
    ensures |digits| == 8 && AllDigits(digits, 16, false) && Read(digits, 16) == v % 0x1_0000_0000
  {
    hide Render, Format, Read, AllDigits, Digits, Magnitude;
    var d := NOTHING;
    assert Show(d) == "" && "%p" == "%" + (Show(d) + "p");
    var f := FlagsFor(d.(zeropad := true), 'p');
    SizesFit(v, 16, 8, -1, f);
    OneDirective(d, 'p', [Int(v)]);
    var p := FormatIs(v, 16, 8, -1, f);
    EightDigits(v, f);
    assert p.Text() == Fill('0', p.zeros) + p.digits;
    digits := p.Text();
    ZerosRead(p.zeros, p.digits);
  }

  /** A pointer with a width is an unsigned hexadecimal number in the field. */
  lemma PointerField(left: bool, zero: bool, width: nat, v: int)
    requires 0 < width < 0x8000_0000 && Fits(v)
    ensures Render(Typed(left, false, false, false, zero, width, -1, 'p'), 0, [Int(v)]) ==
            Render(Typed(left, false, false, false, zero, width, -1, 'x'), 0, [Int(v)])
  {
    hide Render, Typed, Format, Decimal;
    var d := Parsed(left, false, false, false, zero, width, -1);
    TypedIsShown(left, false, false, false, zero, width, -1, 'p');
    TypedIsShown(left, false, false, false, zero, width, -1, 'x');
    hide Show;
    OneDirective(d, 'p', [Int(v)]);
    OneDirective(d, 'x', [Int(v)]);
    assert FlagsFor(d, 'p') == FlagsFor(d, 'x');
  }

  /** A floating-point conversion prints the text that flt makes of its double, whatever the field. */
  lemma DoubleConversion(left: bool, plus: bool, space: bool, hash: bool, zero: bool, width: nat, precision: int, text: string)
    requires width < 0x8000_0000 && precision < 0x8000_0000
    ensures Render(Typed(left, plus, space, hash, zero, width, precision, 'f'), 0, [Double(text)]) == Some(text)
  {
    hide Render, Typed, Decimal;
    TypedIsShown(left, plus, space, hash, zero, width, precision, 'f');
    hide Show;
    assert [Double(text)][1..] == [];
    PlainDirective(Parsed(left, plus, space, hash, zero, width, precision), 'f', [Double(text)], text);
  }

  lemma EightDigits(v: int, f: Flags)
    requires Fits(v) && !f.sign && !f.hexPrep
    ensures |Format(v, 16, 8, -1, f)| == 8
  {
    hide Digits, Magnitude;
    LengthIsExact(v, 16, 8, -1, f);
    assert Sixteen(8) == 0x1_0000_0000;
    FewHexDigits(Magnitude(v, f.sign), 8);
  }

  function Sixteen(k: nat): (n: nat)
    ensures n >= 1
  {
    if k == 0 then 1 else 16 * Sixteen(k - 1)
  }

  lemma {:induction false} FewHexDigits(n: nat, k: nat)
    requires k >= 1 && n < Sixteen(k)
    ensures |Digits(n, 16)| <= k
  {
    if n < 16 {
    } else {
      assert k >= 2;
      FewHexDigits(n / 16, k - 1);
    }
  }

  lemma ZerosRead(k: nat, s: string)
    requires AllDigits(s, 16, false)
    ensures AllDigits(Fill('0', k) + s, 16, false) && Read(Fill('0', k) + s, 16) == Read(s, 16)
  {
    hide DigitOf, Value;
    var t := Fill('0', k) + s;
    ZeroDigit();
    forall i | 0 <= i < |t|
      ensures t[i] == if i < k then '0' else s[i - k]
    {
    }
    assert seq(|t|, i requires 0 <= i < |t| => DigitOf(t[i])) == seq(k, _ => 0) + seq(|s|, i requires 0 <= i < |s| => DigitOf(s[i]));
    LeadingZeros(k, seq(|s|, i requires 0 <= i < |s| => DigitOf(s[i])), 16);
  }

  /** An Internet address is four plain decimals with points in between, in its field. */
  lemma InternetAddress(left: bool, width: nat, upper: bool, a: nat, b: nat, c: nat, d: nat)
    requires a < 256 && b < 256 && c < 256 && d < 256 && width < 0x8000_0000
    ensures Render(Typed(left, false, false, false, false, width, -1, if upper then 'A' else 'a'), 0, [Address([a, b, c, d])]) ==
            Some(InField(Decimal(a) + "." + Decimal(b) + "." + Decimal(c) + "." + Decimal(d), width, left))
  {
    hide Render, Typed, Decimal, Joined, Conversion, Justified, InField;
    var o, k := [a, b, c, d], if upper then 'A' else 'a';
    FourJoined(o);
    assert Decimal(a) + ("." + Decimal(b)) + ("." + Decimal(c)) + ("." + Decimal(d)) ==
           Decimal(a) + "." + Decimal(b) + "." + Decimal(c) + "." + Decimal(d);
    var e := Parsed(left, false, false, false, false, width, -1);
    AddressField(o, Field(e, AmountOf(e.width), -1), k);
    JustifiedIs(AddressText(o, e, k), AmountOf(e.width), left);
    Typeset(left, width, -1, k, [Address(o)], InField(AddressText(o, e, k), width, left));
  }

  lemma AddressField(o: seq<nat>, f: Field, c: char)
    requires c in {'a', 'A'} && |o| == AddressSize(f.d) && (forall i | 0 <= i < |o| :: o[i] < 256) && -1 <= f.width < 0x8000_0000
    ensures Conversion(c, f, [Address(o)]) == Some((Justified(AddressText(o, f.d, c), f.width, f.d.left), []))
  {
    hide AddressText, Justified;
    assert [Address(o)][1..] == [];
  }

  lemma FourJoined(o: seq<nat>)
    requires |o| == 4
    ensures Joined(o, '.', Decimals()) ==
            Decimal(o[0]) + ("." + Decimal(o[1])) + ("." + Decimal(o[2])) + ("." + Decimal(o[3]))
  {
    hide Decimal;
    var show := Decimals();
    assert o[..3][..2] == o[..2] && o[..2][..1] == o[..1];
    assert Joined(o[..1], '.', show) == Decimal(o[0]);
    assert Joined(o[..2], '.', show) == Decimal(o[0]) + ("." + Decimal(o[1]));
    assert Joined(o[..3], '.', show) == Joined(o[..2], '.', show) + ("." + Decimal(o[2]));
  }

  /** An octet of an Ethernet address is two hexadecimal digits with its value, upper-case for A. */
  lemma PairReads(o: nat, uppercase: bool)
    requires o < 256
    ensures |HexPair(o, uppercase)| == 2 && AllDigits(HexPair(o, uppercase), 16, uppercase) && Read(HexPair(o, uppercase), 16) == o
  {
    var s := HexPair(o, uppercase);
    DigitRoundTrip(o / 16, uppercase);
    DigitRoundTrip(o % 16, uppercase);
    DigitIsProper(o / 16, 16, uppercase);
    DigitIsProper(o % 16, 16, uppercase);
    forall i | 0 <= i < |s|
      ensures AllDigits([s[i]], 16, uppercase)
    {
    }
    Together(s, 16, uppercase);
    var ds := seq(|s|, i requires 0 <= i < |s| => DigitOf(s[i]));
    assert ds == [o / 16] + [o % 16] && [] + [o / 16] == [o / 16];
    ValueAppend([], o / 16, 16);
    ValueAppend([o / 16], o % 16, 16);
  }

  /** An Ethernet address is six such pairs with colons in between, in its field. */
  lemma EthernetAddress(left: bool, width: nat, uppercase: bool, o: seq<nat>)
    requires |o| == 6 && (forall i | 0 <= i < 6 :: o[i] < 256) && width < 0x8000_0000
    ensures
      var pair := (i: nat) requires i < 6 => HexPair(o[i], uppercase);
      var text := pair(0) + (":" + pair(1)) + (":" + pair(2)) + (":" + pair(3)) + (":" + pair(4)) + (":" + pair(5));
      Render(Typed(left, false, false, false, false, width, -1, 'l') + [if uppercase then 'A' else 'a'], 0, [Address(o)]) ==
      Some(InField(text, width, left))
  {
    hide Render, Typed, HexPair, Joined, Conversion, AddressText, Justified, InField, Decimal;
    var c := if uppercase then 'A' else 'a';
    var d := Parsed(left, false, false, false, false, width, -1).(qualifier := 'l');
    QualifiedIsShown(left, false, false, false, false, width, -1, 'l', c);
    EthernetText(o, d, uppercase);
    AddressField(o, Field(d, AmountOf(d.width), -1), c);
    JustifiedIs(AddressText(o, d, c), AmountOf(d.width), left);
    PlainDirective(d, c, [Address(o)], InField(AddressText(o, d, c), width, left));
  }

  lemma EthernetText(o: seq<nat>, d: Directive, uppercase: bool)
    requires |o| == 6 && d.qualifier == 'l' && forall i | 0 <= i < 6 :: o[i] < 256
    ensures
      var pair := (i: nat) requires i < 6 => HexPair(o[i], uppercase);
      AddressText(o, d, if uppercase then 'A' else 'a') ==
      pair(0) + (":" + pair(1)) + (":" + pair(2)) + (":" + pair(3)) + (":" + pair(4)) + (":" + pair(5))
  {
    hide HexPair, Joined;
    SixJoined(o, uppercase);
  }

  lemma SixJoined(o: seq<nat>, uppercase: bool)
    requires |o| == 6 && forall i | 0 <= i < 6 :: o[i] < 256
    ensures
      var pair := (i: nat) requires i < 6 => HexPair(o[i], uppercase);
      Joined(o, ':', Pairs(uppercase)) ==
      pair(0) + (":" + pair(1)) + (":" + pair(2)) + (":" + pair(3)) + (":" + pair(4)) + (":" + pair(5))
  {
    hide HexPair;
    var show := Pairs(uppercase);
    assert o[..5][..4] == o[..4] && o[..4][..3] == o[..3] && o[..3][..2] == o[..2] && o[..2][..1] == o[..1];
    assert Joined(o[..1], ':', show) == show(o[0]);
    assert Joined(o[..2], ':', show) == Joined(o[..1], ':', show) + (":" + show(o[1]));
    assert Joined(o[..3], ':', show) == Joined(o[..2], ':', show) + (":" + show(o[2]));
    assert Joined(o[..4], ':', show) == Joined(o[..3], ':', show) + (":" + show(o[3]));
    assert Joined(o[..5], ':', show) == Joined(o[..4], ':', show) + (":" + show(o[4]));
  }
}

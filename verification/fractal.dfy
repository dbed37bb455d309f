/** The saturating fixed-point Mandelbrot iteration of sw/c/demo/lcd_st7735/fractal_fixed.c. */
module Fractal {
  import opened Integers

  const ONE: int := 4096           // 1 << FP_EXP
  const LIMIT: int := 32768        // 1 << FP_MANT
  const FOUR: int := 16384         // MAKE_FP(4, 0, 0)

  function Clamp(x: int): (r: int)
    ensures -LIMIT <= r < LIMIT
  {
    if x < 0 && x < -LIMIT then -LIMIT else if x > 0 && x >= LIMIT then LIMIT - 1 else x
  }

  /** Saturation: the value itself where 16 bits hold it, otherwise the nearer end of their range. */
  lemma ClampIs(x: int)
    ensures -32768 <= x <= 32767 ==> Clamp(x) == x
    ensures x > 32767 ==> Clamp(x) == 32767
    ensures x < -32768 ==> Clamp(x) == -32768
  {
  }

  /** Arithmetic shift right by FP_EXP: division rounding down. */
  function Shift(x: int): int { x / ONE }

  function Add(a: int, b: int): int { Clamp(Wrap(a + b)) }

  function Mul(a: int, b: int): int { Clamp(Shift(Wrap(a * b))) }

  datatype Complex = Complex(re: int, im: int)

  // --- The code's arithmetic --------------------------------------------------------------------------

  function AbsSq(c: Complex): int { Wrap(Mul(c.re, c.re) + Mul(c.im, c.im)) }

  function CMul(a: Complex, b: Complex): Complex
  {
    Complex(Add(Mul(a.re, b.re), Wrap(-Mul(a.im, b.im))), Add(Mul(a.re, b.im), Mul(a.im, b.re)))
  }

  function CAdd(a: Complex, b: Complex): Complex { Complex(Add(a.re, b.re), Add(a.im, b.im)) }

  function Next(z: Complex, c: Complex): Complex { CAdd(CMul(z, z), c) }

  // --- The same recurrence over unbounded integers ------------------------------------------------------

  function PureAbsSq(c: Complex): int { Shift(c.re * c.re) + Shift(c.im * c.im) }

  function PureNext(z: Complex, c: Complex): Complex
  {
    Complex(Shift(z.re * z.re) - Shift(z.im * z.im) + c.re, Shift(z.re * z.im) + Shift(z.im * z.re) + c.im)
  }

  function Orbit(c: Complex, n: nat): Complex
  {
    if n == 0 then c else PureNext(Orbit(c, n - 1), c)
  }

  predicate Escapes(c: Complex, i: nat) { PureAbsSq(Orbit(c, i + 1)) > FOUR }

  /** What the count should be: the least escaping index below the limit, or the limit. */
  ghost predicate IsCount(c: Complex, limit: nat, n: nat)
  {
    && n <= limit
    && (n < limit ==> Escapes(c, n))
    && forall i: nat | i < n :: !Escapes(c, i)
  }

  lemma CountIsUnique(c: Complex, limit: nat, m: nat, n: nat)
    requires IsCount(c, limit, m) && IsCount(c, limit, n)
    ensures m == n
  {
  }

  lemma OnlyCount(c: Complex, limit: nat, n: nat)
    requires IsCount(c, limit, n)
    ensures forall m: nat :: IsCount(c, limit, m) <==> m == n
  {
    hide IsCount;
    forall m: nat | IsCount(c, limit, m)
      ensures m == n
    {
      CountIsUnique(c, limit, m, n);
    }
  }

  // --- What the recurrence computes ---------------------------------------------------------------------

  /** Complex squaring and adding, in units of 1 / 4096 and up to rounding: every point of the orbit after the first is within
      one unit in the real part, and two in the imaginary part, of the square of its predecessor plus c. */
  lemma OrbitLaw(c: Complex, i: nat)
    ensures Orbit(c, 0) == c
    ensures
      var z, w := Orbit(c, i), Orbit(c, i + 1);
      && -4096 < (z.re * z.re - z.im * z.im) - 4096 * (w.re - c.re) < 4096
      && 0 <= 2 * (z.re * z.im) - 4096 * (w.im - c.im) < 8192
  {
    hide Orbit;
    var z := Orbit(c, i);
    OrbitStep(c, i);
    Rounded(z.re * z.re);
    Rounded(z.im * z.im);
    Rounded(z.re * z.im);
    assert z.im * z.re == z.re * z.im;
  }

  lemma OrbitStep(c: Complex, i: nat)
    ensures Orbit(c, 0) == c && Orbit(c, i + 1) == PureNext(Orbit(c, i), c)
  {
  }

  lemma Rounded(x: int)
    ensures 0 <= x - 4096 * Shift(x) < 4096
  {
  }

  /** The escape test, in the same units: a point beyond radius 2 by one unit of the squares or more may escape, and a point
      beyond it by two or more does. The tested point is the next one of the orbit. */
  lemma EscapeLaw(c: Complex, i: nat)
    ensures
      var w := Orbit(c, i + 1);
      var s := w.re * w.re + w.im * w.im;
      (Escapes(c, i) ==> s >= 4 * 4096 * 4096 + 4096) && (s >= 4 * 4096 * 4096 + 2 * 4096 ==> Escapes(c, i))
  {
    hide Orbit;
    var w := Orbit(c, i + 1);
    Rounded(w.re * w.re);
    Rounded(w.im * w.im);
  }

  // --- Bounds -------------------------------------------------------------------------------------------

  /** A rectangle that contains every rendered point. */
  predicate Rendered(c: Complex) { -7168 <= c.re <= 7168 && -4096 <= c.im <= 4096 }

  /** Where an orbit that has not escaped can be: inside the rectangle at first, then within the escape radius. */
  predicate Inside(z: Complex) { Rendered(z) || PureAbsSq(z) <= FOUR }

  lemma SquareBound(x: int, b: int)
    requires -b <= x <= b
    ensures 0 <= x * x <= b * b
  {
    var a: nat := Abs(x);
    assert x * x == a * a;
    MulUp(a, b, a);
    MulUp(a, b, b);
  }

  lemma RootBound(x: int)
    ensures x * x < 8193 * 8193 ==> -8192 <= x <= 8192
  {
    if x >= 8193 {
      assert x * x >= 8193 * x >= 8193 * 8193;
    } else if x <= -8193 {
      assert (-x) * (-x) >= 8193 * (-x) >= 8193 * 8193;
    }
  }

  /** The squares of a point inside: neither exceeds 2^26 + 2^12, nor does their sum by more. */
  lemma InsideBounds(z: Complex)
    requires Inside(z)
    ensures -8192 <= z.re <= 8192 && -8192 <= z.im <= 8192
    ensures z.re * z.re + z.im * z.im <= 16641 * 4096
  {
    if Rendered(z) {
      SquareBound(z.re, 7168);
      SquareBound(z.im, 4096);
    } else {
      var a, b := z.re * z.re, z.im * z.im;
      SquareBound(z.re, Abs(z.re));
      SquareBound(z.im, Abs(z.im));
      assert a < 4096 * (Shift(a) + 1) && b < 4096 * (Shift(b) + 1);
      RootBound(z.re);
      RootBound(z.im);
    }
  }

  function Abs(x: int): nat { if x < 0 then -x else x }

  lemma CrossBound(x: int, y: int, s: int)
    requires x * x + y * y <= s
    ensures -s <= 2 * (x * y) <= s
  {
    assert (x - y) * (x - y) >= 0;
    assert (x + y) * (x + y) >= 0;
    assert (x - y) * (x - y) == x * x + y * y - 2 * (x * y);
    assert (x + y) * (x + y) == x * x + y * y + 2 * (x * y);
  }

  /** From inside, one step neither overflows 32 bits nor saturates. */
  lemma StepIsExact(z: Complex, c: Complex)
    requires Inside(z) && Rendered(c)
    ensures Next(z, c) == PureNext(z, c)
    ensures var w := Next(z, c); -24000 <= w.re <= 24000 && -21000 <= w.im <= 21000
  {
    InsideBounds(z);
    CrossBound(z.re, z.im, 16641 * 4096);
    var a, b, p := z.re * z.re, z.im * z.im, z.re * z.im;
    assert z.im * z.re == p;
    SquareBound(z.re, Abs(z.re));
    SquareBound(z.im, Abs(z.im));
    SquareBound(z.re, 8192);
    SquareBound(z.im, 8192);
    ExactParts(a, b, p);
  }

  /** The same on the three products. */
  lemma ExactParts(a: int, b: int, p: int)
    requires 0 <= a <= 8192 * 8192 && 0 <= b <= 8192 * 8192 && -16641 * 4096 <= 2 * p <= 16641 * 4096
    ensures Clamp(Shift(Wrap(a))) == Shift(a) && 0 <= Shift(a) <= 16384
    ensures Clamp(Shift(Wrap(b))) == Shift(b) && 0 <= Shift(b) <= 16384
    ensures Clamp(Shift(Wrap(p))) == Shift(p) && -16642 <= 2 * Shift(p) <= 16641
  {
  }

  /** The escape test: saturated squares pass it exactly when the true ones do, and nothing overflows. */
  lemma TestIsExact(w: Complex)
    requires -24000 <= w.re <= 24000 && -21000 <= w.im <= 21000
    ensures AbsSq(w) > FOUR <==> PureAbsSq(w) > FOUR
    ensures Fits(w.re * w.re) && Fits(w.im * w.im) && Fits(Mul(w.re, w.re) + Mul(w.im, w.im))
  {
    SquareBound(w.re, 24000);
    SquareBound(w.im, 21000);
  }

  /** No 32-bit operation of the step overflows. */
  lemma StepFits(z: Complex, c: Complex)
    requires Inside(z) && Rendered(c)
    ensures Fits(z.re * z.re) && Fits(z.im * z.im) && Fits(z.re * z.im)
    ensures Fits(Mul(z.re, z.re) + Wrap(-Mul(z.im, z.im))) && Fits(-Mul(z.im, z.im))
    ensures Fits(Mul(z.re, z.im) + Mul(z.im, z.re))
    ensures var m := CMul(z, z); Fits(m.re + c.re) && Fits(m.im + c.im)
  {
    InsideBounds(z);
    CrossBound(z.re, z.im, 16641 * 4096);
    SquareBound(z.re, 8192);
    SquareBound(z.im, 8192);
  }

  lemma {:induction false} OrbitInside(c: Complex, n: nat)
    requires Rendered(c) && forall i: nat | i < n :: !Escapes(c, i)
    ensures Inside(Orbit(c, n))
  {
    if n == 0 {
    } else {
      assert !Escapes(c, n - 1);
    }
  }

  /** In every iteration that the loop reaches, no operation overflows and none before the escape test saturates. */
  lemma IterationIsExact(c: Complex, n: nat)
    requires Rendered(c) && forall i: nat | i < n :: !Escapes(c, i)
    ensures
      var z := Orbit(c, n);
      var w := Next(z, c);
      && w == Orbit(c, n + 1)
      && (AbsSq(w) > FOUR <==> Escapes(c, n))
      && Fits(z.re * z.re) && Fits(z.im * z.im) && Fits(z.re * z.im)
      && Fits(w.re * w.re) && Fits(w.im * w.im) && Fits(Mul(w.re, w.re) + Mul(w.im, w.im))
  {
    hide Next, PureNext, AbsSq, PureAbsSq, Wrap, Mul;
    OrbitInside(c, n);
    StepIsExact(Orbit(c, n), c);
    StepFits(Orbit(c, n), c);
    assert Orbit(c, n + 1) == PureNext(Orbit(c, n), c);
    TestIsExact(Orbit(c, n + 1));
  }

  // --- The loops ------------------------------------------------------------------------------------------

  /** mandel_iters_fixed: saturation does not change the count. The result is returned as an int. */
  method MandelIters(c: Complex, maxIters: nat) returns (n: int)
    requires Rendered(c) && maxIters < 0x1_0000_0000
    ensures exists count: nat :: IsCount(c, maxIters, count) && n == Wrap(count)
    ensures maxIters < 0x8000_0000 ==> 0 <= n <= maxIters && forall m: nat :: IsCount(c, maxIters, m) <==> m == n
  {
    hide Next, PureNext, AbsSq, PureAbsSq, Wrap;
    var iterVal := c;
    for i := 0 to maxIters
      invariant iterVal == Orbit(c, i) && Inside(iterVal)
      invariant forall k: nat | k < i :: !Escapes(c, k)
    {
      StepIsExact(iterVal, c);
      iterVal := Next(iterVal, c);
      assert iterVal == Orbit(c, i + 1);
      TestIsExact(iterVal);
      if AbsSq(iterVal) > FOUR {
        assert IsCount(c, maxIters, i);
        OnlyCount(c, maxIters, i);
        return Wrap(i);
      }
      assert !Escapes(c, i);
    }
    assert IsCount(c, maxIters, maxIters);
    OnlyCount(c, maxIters, maxIters);
    n := Wrap(maxIters);
  }

  const WIDTH: nat := 160
  const HEIGHT: nat := 128
  const MAX_ITERS: nat := 50
  const PALETTE_SIZE: nat := 51

  function Pixel(x: nat, y: nat): Complex { Complex(-7168 + 64 * x, 4096 - 64 * y) }

  /** The pixel at (x, y) of a row-by-row image is the palette entry of its own point's count. */
  ghost predicate Painted(image: seq<nat>, palette: seq<nat>, x: nat, y: nat)
  {
    && y * WIDTH + x < |image|
    && exists n: nat :: n < |palette| && IsCount(Pixel(x, y), MAX_ITERS, n) && image[y * WIDTH + x] == palette[n]
  }

  /** The first `k` pixels of the image are painted. */
  ghost predicate PaintedUpTo(image: seq<nat>, palette: seq<nat>, k: nat)
  {
    forall x: nat, y: nat | x < WIDTH && y * WIDTH + x < k :: Painted(image, palette, x, y)
  }

  lemma PaintOne(image: seq<nat>, palette: seq<nat>, x: nat, y: nat, n: nat)
    requires |image| == y * WIDTH + x && x < WIDTH && PaintedUpTo(image, palette, |image|)
    requires n < |palette| && IsCount(Pixel(x, y), MAX_ITERS, n)
    ensures PaintedUpTo(image + [palette[n]], palette, |image| + 1)
  {
    hide IsCount;
    var image' := image + [palette[n]];
    forall i: nat, j: nat | i < WIDTH && j * WIDTH + i < |image| + 1
      ensures Painted(image', palette, i, j)
    {
      if j * WIDTH + i < |image| {
        assert Painted(image, palette, i, j);
      }
    }
  }

  /** A painted pixel in numbers: its point is (x / 64 - 7 / 4, 1 - y / 64), and its colour the entry of the least escaping
      index below 50, or entry 50. */
  lemma PaintedIs(image: seq<nat>, palette: seq<nat>, x: nat, y: nat)
    requires |palette| == 51
    ensures Painted(image, palette, x, y) <==>
            && 160 * y + x < |image|
            && exists n: nat :: n <= 50 && IsCount(Complex(64 * x - 7168, 4096 - 64 * y), 50, n) && image[160 * y + x] == palette[n]
  {
    hide IsCount;
    assert Pixel(x, y) == Complex(64 * x - 7168, 4096 - 64 * y);
  }

  /** The first pixel escapes at once. */
  lemma CornerEscapes()
    ensures IsCount(Complex(-7168, 4096), 50, 0)
  {
    assert Orbit(Complex(-7168, 4096), 1) == Complex(1280, -10240);
  }

  /** fractal_mandelbrot_fixed: every pixel, row by row, gets its own colour, with an index always within the palette. */
  method Render(palette: seq<nat>) returns (image: seq<nat>)
    requires |palette| == PALETTE_SIZE
    ensures |image| == 160 * 128
    ensures forall x: nat, y: nat | x < WIDTH && y < HEIGHT :: Painted(image, palette, x, y)
  {
    hide IsCount, Painted, Wrap;
    image := [];
    var cur := Complex(-7168, 4096);
    for y := 0 to HEIGHT
      invariant cur == Pixel(0, y) && |image| == y * WIDTH && PaintedUpTo(image, palette, |image|)
    {
      for x := 0 to WIDTH
        invariant cur == Pixel(x, y) && |image| == y * WIDTH + x && PaintedUpTo(image, palette, |image|)
      {
        var iters := MandelIters(cur, MAX_ITERS);
        PaintOne(image, palette, x, y, iters);
        image := image + [palette[iters]];
        cur := cur.(re := cur.re + 64);
      }
      cur := Complex(-7168, cur.im - 64);
    }
  }
}

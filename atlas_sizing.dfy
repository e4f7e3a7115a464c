/**
 * Choosing the atlas size: power-of-two rounding, the first estimate from
 * the total bitmap area, and the growth step applied after a failed attempt.
 */
module AtlasSizing {
  import opened Bitmaps

  predicate IsPowerOf2(n: int)
    decreases if n < 0 then 0 else n
  {
    n == 1 || (n > 1 && n % 2 == 0 && IsPowerOf2(n / 2))
  }

  /** Two different powers of two are at least a factor of two apart. */
  lemma {:induction false} PowerOf2Gap(a: int, b: int)
    requires IsPowerOf2(a) && IsPowerOf2(b) && a < b
    ensures 2 * a <= b
    decreases b
  {
    if a > 1 {
      PowerOf2Gap(a / 2, b / 2);
    }
  }

  /** Doubling a power of two gives a power of two. */
  lemma DoublePowerOf2(a: int)
    requires IsPowerOf2(a)
    ensures IsPowerOf2(2 * a)
  {
    assert (2 * a) / 2 == a;
  }

  /**
   * The smallest power of two that is at least `value`: the doubling loop
   * starts from 1, so anything up to 1 gives 1.
   */
  method NextPowerOf2(value: real) returns (base: int)
    ensures IsPowerOf2(base) && base as real >= value
    ensures forall p :: IsPowerOf2(p) && p as real >= value ==> base <= p
    ensures value <= 1.0 ==> base == 1
  {
    base := 1;
    while base as real < value
      invariant IsPowerOf2(base)
      invariant forall p :: IsPowerOf2(p) && p as real >= value ==> base <= p
      decreases value.Floor - base
    {
      forall p | IsPowerOf2(p) && p as real >= value ensures 2 * base <= p {
        PowerOf2Gap(base, p);
      }
      DoublePowerOf2(base);
      base := base * 2;
    }
  }

  /**
   * The same doubling loop run on the square root of `sumArea`, with the
   * comparison `base < sqrt(sumArea)` in its exact integer form
   * `base * base < sumArea`.
   */
  method NextPowerOf2OfSqrt(sumArea: nat) returns (base: int)
    ensures IsPowerOf2(base) && base * base >= sumArea
    ensures forall p :: IsPowerOf2(p) && p * p >= sumArea ==> base <= p
  {
    base := 1;
    while base * base < sumArea
      invariant IsPowerOf2(base)
      invariant forall p :: IsPowerOf2(p) && p * p >= sumArea ==> base <= p
      decreases sumArea - base
    {
      forall p | IsPowerOf2(p) && p * p >= sumArea ensures 2 * base <= p {
        SquareLess(base, p);
        PowerOf2Gap(base, p);
      }
      MulLe(1, base, base);
      DoublePowerOf2(base);
      base := base * 2;
    }
  }

  lemma MulLe(a: int, b: int, c: nat)
    requires a <= b
    ensures a * c <= b * c
  {
  }

  lemma SquareLess(a: nat, b: nat)
    requires a * a < b * b
    ensures a < b
  {
    if b <= a {
      MulLe(b, a, b);
      MulLe(b, a, a);
    }
  }

  /** The total area of the bitmaps. */
  function SumAreas(bitmaps: seq<Bitmap>): (s: nat)
    ensures forall i :: 0 <= i < |bitmaps| ==> bitmaps[i].area <= s
    ensures (forall i :: 0 <= i < |bitmaps| ==> bitmaps[i].area == 0) ==> s == 0
  {
    if bitmaps == [] then 0 else SumAreas(bitmaps[..|bitmaps| - 1]) + bitmaps[|bitmaps| - 1].area
  }

  /**
   * A square or a landscape rectangle twice as wide as it is high, with
   * power-of-two sides.
   */
  predicate Shape(width: int, height: int) {
    IsPowerOf2(width) && IsPowerOf2(height) && (width == height || width == 2 * height)
  }

  /**
   * The first guess for a total area `s`: the smallest power-of-two width
   * whose square covers `s`, then the smallest power-of-two height that with
   * that width covers it.
   */
  ghost predicate IsEstimate(s: int, w: int, h: int) {
    && IsPowerOf2(w) && w * w >= s && (forall p :: IsPowerOf2(p) && p * p >= s ==> w <= p)
    && IsPowerOf2(h) && h * w >= s && (forall p :: IsPowerOf2(p) && p * w >= s ==> h <= p)
  }

  /** Computes the first guess for the bitmaps' total area; it always has the atlas shape. */
  method EstimateDimensions(bitmaps: seq<Bitmap>) returns (dimensions: array<int>)
    ensures fresh(dimensions) && dimensions.Length == 2
    ensures IsEstimate(SumAreas(bitmaps), dimensions[0], dimensions[1]) && Shape(dimensions[0], dimensions[1])
  {
    dimensions := new int[2];
    var sumArea := 0;
    for i := 0 to |bitmaps|
      invariant sumArea == SumAreas(bitmaps[..i])
    {
      assert bitmaps[..i + 1][..i] == bitmaps[..i];
      sumArea := sumArea + bitmaps[i].area;
    }
    assert bitmaps[..|bitmaps|] == bitmaps;
    var width := NextPowerOf2OfSqrt(sumArea);
    var height := NextPowerOf2(sumArea as real / width as real);
    forall p | IsPowerOf2(p) ensures p * width >= sumArea <==> p as real >= sumArea as real / width as real {
      DivideByWidth(p, width, sumArea);
    }
    EstimateIsShape(sumArea, width, height);
    dimensions[0] := width;
    dimensions[1] := height;
  }

  lemma DivideByWidth(p: int, width: int, s: nat)
    requires width > 0
    ensures p * width >= s <==> p as real >= s as real / width as real
  {
    assert (s as real / width as real) * width as real == s as real;
    assert (p * width) as real == p as real * width as real;
  }

  /** A single 65×65 bitmap (area 4225) is first tried on a 128×64 atlas. */
  lemma EstimateOf65Square(w: int, h: int)
    requires IsEstimate(65 * 65, w, h)
    ensures w == 128 && h == 64
  {
    assert IsPowerOf2(64) && IsPowerOf2(128) by {
      assert IsPowerOf2(2) && IsPowerOf2(4) && IsPowerOf2(8) && IsPowerOf2(16) && IsPowerOf2(32);
    }
    assert w <= 128;
    if w < 128 {
      PowerOf2Gap(w, 128);
    }
    assert h <= 64;
    if h < 64 {
      PowerOf2Gap(h, 64);
    }
  }

  /** The two least powers of two chosen by the estimate form a Shape. */
  lemma EstimateIsShape(s: nat, w: int, h: int)
    requires IsEstimate(s, w, h)
    ensures Shape(w, h)
  {
    assert h <= w;
    if h < w {
      PowerOf2Gap(h, w);
      if 2 * h < w {
        DoublePowerOf2(h);
        PowerOf2Gap(2 * h, w);
        var half := w / 2;
        assert w == 2 * half && IsPowerOf2(half);
        assert half * half < s;
        QuarterArea(h, w, half);
        assert false;
      }
    }
  }

  /** With 4h <= w = 2 * half, the area h * w is at most half * half. */
  lemma QuarterArea(h: nat, w: nat, half: nat)
    requires 4 * h <= w && w == 2 * half
    ensures h * w <= half * half
  {
    MulLe(4 * h, w, w);
    assert (4 * h) * w == 4 * (h * w);
    assert w * w == 4 * (half * half);
  }

  /** The growth step: a square doubles its width, a landscape atlas its height. */
  function Grow(width: nat, height: nat): (r: (nat, nat))
    ensures r.0 * r.1 == 2 * (width * height)
    ensures width == height ==> r.0 == 2 * r.1
    ensures width == 2 * height ==> r.0 == r.1
  {
    if width == height then (width * 2, height) else (width, height * 2)
  }

  /** The size after `n` growth steps. */
  function GrowN(width: nat, height: nat, n: nat): (nat, nat) {
    if n == 0 then (width, height) else
      var (w, h) := GrowN(width, height, n - 1);
      Grow(w, h)
  }

  /**
   * Growth keeps both sides powers of two with the width at least the height,
   * and exactly doubles the area.
   */
  lemma GrowKeepsShape(width: nat, height: nat)
    requires Shape(width, height)
    ensures var (w, h) := Grow(width, height);
      Shape(w, h) && h <= w && w * h == 2 * (width * height)
  {
    DoublePowerOf2(width);
    DoublePowerOf2(height);
  }

  /** After n growth steps from a Shape the area is 2^n times the start. */
  lemma {:induction false} GrowNKeepsShape(width: nat, height: nat, n: nat)
    requires Shape(width, height)
    ensures var (w, h) := GrowN(width, height, n);
      Shape(w, h) && w * h == Pow2(n) * (width * height)
  {
    if n > 0 {
      GrowNKeepsShape(width, height, n - 1);
      var (w, h) := GrowN(width, height, n - 1);
      GrowKeepsShape(w, h);
      var (w', h') := Grow(w, h);
      assert GrowN(width, height, n) == (w', h');
      DoubleProduct(w * h, Pow2(n - 1), width * height);
    }
  }

  lemma DoubleProduct(x: int, k: int, a: int)
    requires x == k * a
    ensures 2 * x == (2 * k) * a
  {
  }

  function Pow2(n: nat): nat {
    if n == 0 then 1 else 2 * Pow2(n - 1)
  }
}

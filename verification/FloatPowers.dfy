// sdk/as/float.c: the part of ieee_flconvert that multiplies a mantissa by a power of
// five, by repeated squaring, and the error this leaves.
module FloatPowers {
  import opened Powers
  import opened RealPowers
  import opened Limbs
  import opened FloatMultiply

  // The real number that a mantissa of n limbs stands for with exponent e: 0.mant * 2^e.
  function Value(m: nat, e: int, n: nat): real {
    m as real * Two(e - 32 * n)
  }

  // One truncation keeps at least this share of a normalised product: 1 - 2^-(32n - 1).
  function Shrink(n: nat): real
    requires n > 0
  {
    1.0 - Two(1 - 32 * n)
  }

  lemma ShrinkBounds(n: nat)
    requires n > 0
    ensures 0.0 < Shrink(n) < 1.0
  {
    TwoPositive(1 - 32 * n);
    TwoAtMostHalf(32 * n - 1);
  }

  lemma {:induction false} TwoAtMostHalf(k: int)
    requires k > 0
    ensures 0.0 < Two(-k) <= 0.5
  {
    if k == 1 {
      assert RPow(0.5, 1) == 0.5 * RPow(0.5, 0);
    } else {
      TwoAtMostHalf(k - 1);
      assert RPow(0.5, k) == 0.5 * RPow(0.5, k - 1);
    }
  }

  // Truncating z to p loses less than one unit, a share of at most inv == 1 / h when
  // p >= h; s scales both.
  lemma TruncationShare(z: real, p: real, h: real, inv: real, s: real, v: real)
    requires h > 0.0 && inv * h == 1.0 && inv > 0.0 && h <= p <= z < p + 1.0 && s > 0.0 && z * s == v
    ensures v * (1.0 - inv) <= p * s <= v
  {
    Grow(h, z, inv);
    assert z * (1.0 - inv) == z - z * inv;
    Grow(z * (1.0 - inv), p, s);
    Grow(p, z, s);
    Rotate(z, 1.0 - inv, s);
  }

  // Moving factors of two between the two mantissas and their product.
  lemma ScaleProduct(x: real, y: real, a: real, b: real, c: real, w: real, z: real)
    requires w > 0.0 && z * w == x * y * c
    ensures z * (a * b * w) == x * a * (y * b) * c
  {}

  // The exact product, in units of the result's last place.
  lemma ProductValue(x: nat, y: nat, ex: int, ey: int, n: nat, z: real)
    requires n > 0
    requires var c := Correction(x * y, n);
             z * (Weight(n) as real) == (if c == 0 then x * y else 2 * (x * y)) as real
    ensures z * Two(ex + ey + Correction(x * y, n) - 32 * n) == Value(x, ex, n) * Value(y, ey, n)
  {
    hide *;
    var c := Correction(x * y, n);
    CorrectionIs(x * y, n);
    var a, b, w, t := Two(ex - 32 * n), Two(ey - 32 * n), Weight(n) as real, Two(ex + ey + c - 32 * n);
    WeightReal(n);
    TwoAdd(ex - 32 * n, ey - 32 * n);
    TwoAdd(ex + ey - 64 * n, 32 * n);
    TwoStep(ex + ey - 32 * n - 1);
    ValueIs(x, ex, n);
    ValueIs(y, ey, n);
    SameFactor(Two(ex + ey - 64 * n), a * b, w);
    assert Two(ex + ey - 32 * n) == a * b * w;
    RealProduct(x, y);
    if c == 0 {
      ScaleProduct(x as real, y as real, a, b, 1.0, w, z);
    } else {
      ScaleProduct(x as real, y as real, a, b, 2.0, w, z);
      Doubled(z, t, a * b * w, x as real * a * (y as real * b));
    }
  }

  lemma WeightReal(n: nat)
    ensures Two(32 * n) == Weight(n) as real && Weight(n) as real > 0.0
  {
    TwoIsPow2(32 * n);
  }

  lemma RealProduct(x: nat, y: nat)
    ensures (x * y) as real == x as real * y as real
    ensures (2 * (x * y)) as real == x as real * y as real * 2.0
  {}

  lemma CorrectionIs(p: nat, n: nat)
    requires n > 0
    ensures Correction(p, n) == 0 || Correction(p, n) == -1
  {}

  lemma Doubled(z: real, t: real, u: real, v: real)
    requires u == 2.0 * t && z * u == v * 2.0
    ensures z * t == v
  {
    assert z * u == 2.0 * (z * t);
  }

  // One call of float_multiply on normalised factors: the result is below the exact
  // product by at most one truncation.
  lemma MultiplyValue(x: nat, y: nat, ex: int, ey: int, n: nat)
    requires n > 0 && Normalised(x, n) && Normalised(y, n)
    ensures var p, e := TopHalf(x * y, n), ex + ey + Correction(x * y, n);
            Normalised(p, n) &&
            Value(x, ex, n) * Value(y, ey, n) * Shrink(n) <= Value(p, e, n) <= Value(x, ex, n) * Value(y, ey, n)
  {
    hide *;
    NormalisedProduct(x, y, n);
    var c, p := Correction(x * y, n), TopHalf(x * y, n);
    var t: nat := if c == 0 then x * y else 2 * (x * y);
    var s := Two(ex + ey + c - 32 * n);
    NormalisedLow(p, n);
    var z := Quotient(t, p, Weight(n));
    ProductValue(x, y, ex, ey, n, z);
    HalfInverse(n);
    TwoPositive(ex + ey + c - 32 * n);
    ShrinkIs(n);
    ValueIs(p, ex + ey + c, n);
    TruncationShare(z, p as real, Pow2(32 * n - 1) as real, Two(1 - 32 * n), s, Value(x, ex, n) * Value(y, ey, n));
  }

  lemma NormalisedLow(p: int, n: nat)
    requires n > 0 && Normalised(p, n)
    ensures p >= 0 && Pow2(32 * n - 1) <= p
  {}

  lemma ValueIs(p: nat, e: int, n: nat)
    ensures Value(p, e, n) == p as real * Two(e - 32 * n)
  {}

  lemma HalfInverse(n: nat)
    requires n > 0
    ensures Two(1 - 32 * n) * (Pow2(32 * n - 1) as real) == 1.0
    ensures Two(1 - 32 * n) > 0.0
  {
    TwoIsPow2(32 * n - 1);
    TwoAdd(1 - 32 * n, 32 * n - 1);
    TwoPositive(1 - 32 * n);
  }

  lemma ShrinkIs(n: nat)
    requires n > 0
    ensures Shrink(n) == 1.0 - Two(1 - 32 * n)
  {}

  lemma Rotate(x: real, y: real, z: real)
    ensures x * y * z == x * z * y
  {}

  lemma CastMul(a: int, b: int)
    ensures (a * b) as real == a as real * b as real
  {}

  lemma QuotientReal(p: real, w: real, t: real, z: real)
    requires w > 0.0 && p * w <= t < (p + 1.0) * w && z * w == t
    ensures p <= z < p + 1.0
  {
    RealCompare(p, z, w);
    RealCompare(z, p + 1.0, w);
  }

  lemma Quotient(t: nat, p: nat, w: nat) returns (z: real)
    requires w > 0 && p * w <= t < (p + 1) * w
    ensures p as real <= z < p as real + 1.0 && z * (w as real) == t as real
  {
    z := t as real / (w as real);
    QuotientNear(t, p, w, z);
  }

  lemma QuotientNear(t: nat, p: nat, w: nat, z: real)
    requires w > 0 && p * w <= t < (p + 1) * w && z * (w as real) == t as real
    ensures p as real <= z < p as real + 1.0
  {
    CastMul(p, w);
    CastMul(p + 1, w);
    assert (p + 1) as real == p as real + 1.0;
    QuotientReal(p as real, w as real, t as real, z);
  }

  lemma RealCompare(x: real, y: real, w: real)
    requires w > 0.0
    ensures x * w <= y * w <==> x <= y
    ensures x * w < y * w <==> x < y
  {}

  // x is g to the power k, except for at most `cuts' truncations below and for a base
  // that is itself up times too large above.
  ghost predicate Approximates(x: real, start: real, g: real, up: real, k: nat, cuts: nat, d: real) {
    start * RPow(g, k) * RPow(d, cuts) <= x <= start * RPow(g * up, k)
  }

  // Multiplying two such approximations and truncating once more.
  lemma ApproximateProduct(x: real, y: real, z: real, start: real, g: real, up: real, d: real,
                           j: nat, a: nat, k: nat, b: nat)
    requires start >= 0.0 && g > 0.0 && up > 0.0 && d > 0.0
    requires Approximates(x, start, g, up, j, a, d) && Approximates(y, 1.0, g, up, k, b, d)
    requires x * y * d <= z <= x * y
    ensures Approximates(z, start, g, up, j + k, a + b + 1, d)
  {
    ApproximateLower(x, y, z, start, g, up, d, j, a, k, b);
    ApproximateUpper(x, y, z, start, g, up, d, j, a, k, b);
  }

  lemma ApproximateLower(x: real, y: real, z: real, start: real, g: real, up: real, d: real,
                         j: nat, a: nat, k: nat, b: nat)
    requires start >= 0.0 && g > 0.0 && up > 0.0 && d > 0.0
    requires Approximates(x, start, g, up, j, a, d) && Approximates(y, 1.0, g, up, k, b, d)
    requires x * y * d <= z
    ensures start * RPow(g, j + k) * RPow(d, a + b + 1) <= z
  {
    hide *;
    ApproximationBounds(x, start, g, up, j, a, d);
    ApproximationBounds(y, 1.0, g, up, k, b, d);
    RPowAdd(g, j, k);
    OneMoreCut(d, a, b);
    RPowPositive(g, j);
    RPowPositive(g, k);
    RPowPositive(d, a);
    RPowPositive(d, b);
    LowerProduct(x, y, z, start, RPow(g, j), RPow(g, k), RPow(d, a), RPow(d, b), d,
                 RPow(g, j + k), RPow(d, a + b + 1));
  }

  lemma ApproximateUpper(x: real, y: real, z: real, start: real, g: real, up: real, d: real,
                         j: nat, a: nat, k: nat, b: nat)
    requires start >= 0.0 && g > 0.0 && up > 0.0 && d > 0.0
    requires Approximates(x, start, g, up, j, a, d) && Approximates(y, 1.0, g, up, k, b, d)
    requires z <= x * y
    ensures z <= start * RPow(g * up, j + k)
  {
    hide *;
    ApproximationBounds(x, start, g, up, j, a, d);
    ApproximationBounds(y, 1.0, g, up, k, b, d);
    RPowAdd(g * up, j, k);
    RPowPositive(g, j);
    RPowPositive(g, k);
    RPowPositive(d, a);
    RPowPositive(d, b);
    UpperProduct(x, y, start, RPow(g, j), RPow(g, k), RPow(d, a), RPow(d, b),
                 RPow(g * up, j), RPow(g * up, k), RPow(g * up, j + k));
  }

  lemma ApproximationBounds(x: real, start: real, g: real, up: real, k: nat, cuts: nat, d: real)
    requires Approximates(x, start, g, up, k, cuts, d)
    ensures start * RPow(g, k) * RPow(d, cuts) <= x <= start * RPow(g * up, k)
  {}

  lemma OneMoreCut(d: real, a: nat, b: nat)
    ensures RPow(d, a + b + 1) == d * (RPow(d, a) * RPow(d, b))
  {
    assert RPow(d, a + b + 1) == d * RPow(d, a + b);
    hide RPow;
    RPowAdd(d, a, b);
    SameFactor(RPow(d, a + b), RPow(d, a) * RPow(d, b), d);
  }

  lemma LowerProduct(x: real, y: real, z: real, start: real, gj: real, gk: real, da: real, db: real, d: real,
                     g: real, e: real)
    requires d > 0.0 && start >= 0.0 && gj > 0.0 && gk > 0.0 && da > 0.0 && db > 0.0
    requires start * gj * da <= x && 1.0 * gk * db <= y && x * y * d <= z
    requires g == gj * gk && e == d * (da * db)
    ensures start * g * e <= z
  {}

  lemma UpperProduct(x: real, y: real, start: real, gj: real, gk: real, da: real, db: real,
                     uj: real, uk: real, u: real)
    requires start >= 0.0 && gj > 0.0 && gk > 0.0 && da > 0.0 && db > 0.0
    requires start * gj * da <= x <= start * uj && 1.0 * gk * db <= y <= 1.0 * uk && u == uj * uk
    ensures x * y <= start * u
  {}

  // ----- The repeated squaring -----

  // mult starts as 5 or as 1/5 with a base that is at most `up' times too large.
  ghost predicate PowerState(x: real, mant: nat, twopwr: int, mult: nat, extratwos: int, n: nat,
                             g: real, up: real, k: nat, w: nat)
    requires n > 0
  {
    Normalised(mult, n) &&
    Approximates(Value(mult, extratwos, n), 1.0, g, up, Pow2(k), Pow2(k) - 1, Shrink(n)) &&
    (mant == 0 || Normalised(mant, n)) &&
    Approximates(Value(mant, twopwr, n), x, g, up, w, w + 1, Shrink(n))
  }

  // The mantissa times the current power: one of the set bits of tenpwr.
  lemma TakePower(x: real, mant: nat, twopwr: int, mult: nat, extratwos: int, n: nat,
                  g: real, up: real, k: nat, w: nat)
    requires n > 0 && x >= 0.0 && g > 0.0 && up > 0.0 && (mant == 0 ==> x == 0.0)
    requires PowerState(x, mant, twopwr, mult, extratwos, n, g, up, k, w)
    ensures var c := Correction(mant * mult, n);
            var p := TopHalf(mant * mult, n);
            p >= 0 && (p == 0 <==> mant == 0) &&
            PowerState(x, p, twopwr + extratwos + c, mult, extratwos, n, g, up, k, w + Pow2(k))
  {
    hide *;
    ShrinkBounds(n);
    StateParts(x, mant, twopwr, mult, extratwos, n, g, up, k, w);
    var prod := mant * mult;
    var p, e := TopHalf(prod, n), twopwr + extratwos + Correction(prod, n);
    if mant == 0 {
      ZeroProduct(n);
      ZeroValue(e, n);
      ZeroApproximates(g, up, w + Pow2(k), w + Pow2(k) + 1, Shrink(n));
    } else {
      MultiplyValue(mant, mult, twopwr, extratwos, n);
      NormalisedNonzero(p, n);
      ApproximateProduct(Value(mant, twopwr, n), Value(mult, extratwos, n), Value(p, e, n),
                         x, g, up, Shrink(n), w, w + 1, Pow2(k), Pow2(k) - 1);
      assert w + 1 + (Pow2(k) - 1) + 1 == w + Pow2(k) + 1;
    }
    MakeState(x, p, e, mult, extratwos, n, g, up, k, w + Pow2(k));
  }

  // The current power squared.
  lemma SquarePower(x: real, mant: nat, twopwr: int, mult: nat, extratwos: int, n: nat,
                    g: real, up: real, k: nat, w: nat)
    requires n > 0 && x >= 0.0 && g > 0.0 && up > 0.0
    requires PowerState(x, mant, twopwr, mult, extratwos, n, g, up, k, w)
    ensures var c := Correction(mult * mult, n);
            var p := TopHalf(mult * mult, n);
            p >= 0 && PowerState(x, mant, twopwr, p, 2 * extratwos + c, n, g, up, k + 1, w)
  {
    var c, p := Correction(mult * mult, n), TopHalf(mult * mult, n);
    ShrinkBounds(n);
    assert Pow2(k + 1) == Pow2(k) + Pow2(k);
    hide *;
    StateParts(x, mant, twopwr, mult, extratwos, n, g, up, k, w);
    MultiplyValue(mult, mult, extratwos, extratwos, n);
    NormalisedNonzero(p, n);
    assert extratwos + extratwos + c == 2 * extratwos + c;
    var v := Value(mult, extratwos, n);
    ApproximateProduct(v, v, Value(p, 2 * extratwos + c, n),
                       1.0, g, up, Shrink(n), Pow2(k), Pow2(k) - 1, Pow2(k), Pow2(k) - 1);
    assert Pow2(k) - 1 + (Pow2(k) - 1) + 1 == Pow2(k + 1) - 1;
    MakeState(x, mant, twopwr, p, 2 * extratwos + c, n, g, up, k + 1, w);
  }

  lemma StateParts(x: real, mant: nat, twopwr: int, mult: nat, extratwos: int, n: nat,
                   g: real, up: real, k: nat, w: nat)
    requires n > 0 && PowerState(x, mant, twopwr, mult, extratwos, n, g, up, k, w)
    ensures Normalised(mult, n)
    ensures Approximates(Value(mult, extratwos, n), 1.0, g, up, Pow2(k), Pow2(k) - 1, Shrink(n))
    ensures mant == 0 || Normalised(mant, n)
    ensures Approximates(Value(mant, twopwr, n), x, g, up, w, w + 1, Shrink(n))
  {}

  lemma MakeState(x: real, mant: nat, twopwr: int, mult: nat, extratwos: int, n: nat,
                  g: real, up: real, k: nat, w: nat)
    requires n > 0
    requires Normalised(mult, n)
    requires Approximates(Value(mult, extratwos, n), 1.0, g, up, Pow2(k), Pow2(k) - 1, Shrink(n))
    requires mant == 0 || Normalised(mant, n)
    requires Approximates(Value(mant, twopwr, n), x, g, up, w, w + 1, Shrink(n))
    ensures PowerState(x, mant, twopwr, mult, extratwos, n, g, up, k, w)
  {}

  lemma NormalisedNonzero(p: int, n: nat)
    requires n > 0 && Normalised(p, n)
    ensures p > 0
  {}

  lemma ZeroProduct(n: nat)
    requires n > 0
    ensures TopHalf(0, n) == 0
  {}

  lemma ZeroValue(e: int, n: nat)
    ensures Value(0, e, n) == 0.0
  {}

  lemma ZeroApproximates(g: real, up: real, k: nat, cuts: nat, d: real)
    ensures Approximates(0.0, 0.0, g, up, k, cuts, d)
  {}

  // The loop: mant becomes mant times the base to the power tenpwr. Each set bit of
  // tenpwr truncates mant once, and the k-th squaring carries 2^k - 1 truncations.
  method MultiplyByPower(mant: array<Limb>, mult: array<Limb>, tenpwr0: nat, twopwr0: int, extratwos0: int,
                         ghost x: real, ghost g: real, ghost up: real)
    returns (twopwr: int)
    requires 0 < mant.Length == mult.Length < 0x4000_0000 && mant != mult
    requires x >= 0.0 && g > 0.0 && up > 0.0 && (Val(mant[..]) == 0 ==> x == 0.0)
    requires PowerState(x, Val(mant[..]), twopwr0, Val(mult[..]), extratwos0, mant.Length, g, up, 0, 0)
    modifies mant, mult
    ensures Val(mant[..]) == 0 <==> old(Val(mant[..])) == 0
    ensures Val(mant[..]) == 0 || Normalised(Val(mant[..]), mant.Length)
    ensures Approximates(Value(Val(mant[..]), twopwr, mant.Length), x, g, up, tenpwr0, tenpwr0 + 1, Shrink(mant.Length))
  {
    hide *;
    var n := mant.Length;
    var tenpwr: nat, extratwos := tenpwr0, extratwos0;
    twopwr := twopwr0;
    ghost var k: nat, w: nat := 0, 0;
    PowZero();
    while tenpwr > 0
      invariant w + tenpwr * Pow2(k) == tenpwr0
      invariant Val(mant[..]) == 0 <==> old(Val(mant[..])) == 0
      invariant PowerState(x, Val(mant[..]), twopwr, Val(mult[..]), extratwos, n, g, up, k, w)
    {
      HalvePower(tenpwr, k);
      if tenpwr % 2 == 1 {
        TakePower(x, Val(mant[..]), twopwr, Val(mult[..]), extratwos, n, g, up, k, w);
        var c := FloatMultiply.FloatMultiply(mant, mult);
        twopwr := twopwr + extratwos + c;
        w := w + Pow2(k);
      }
      SquarePower(x, Val(mant[..]), twopwr, Val(mult[..]), extratwos, n, g, up, k, w);
      var c := FloatMultiply.FloatMultiply(mult, mult);
      extratwos := extratwos * 2 + c;
      tenpwr := tenpwr / 2;
      k := k + 1;
    }
    assert tenpwr * Pow2(k) == 0;
    StateParts(x, Val(mant[..]), twopwr, Val(mult[..]), extratwos, n, g, up, k, w);
  }

  lemma HalvePower(t: nat, k: nat)
    ensures t * Pow2(k) == (t / 2) * Pow2(k + 1) + (if t % 2 == 1 then Pow2(k) else 0)
  {
    assert Pow2(k + 1) == 2 * Pow2(k);
    MulAssoc(t / 2, 2, Pow2(k));
    MulDistrib(t / 2 * 2, t % 2, Pow2(k));
  }
}

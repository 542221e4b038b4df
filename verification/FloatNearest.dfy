// sdk/as/float.c, from end to end: when the bytes of a decimal constant are the nearest
// value of the format to the constant itself. (IEEE 754-2008, section 4.3.1.)
module FloatNearest {
  import opened Base
  import opened Powers
  import opened RealPowers
  import opened Limbs
  import opened FloatMultiply
  import opened FloatRound
  import opened FloatPowers
  import opened FloatPack
  import opened FloatConvert
  import FloatConst
  import FloatParse

  // ----- Rounding real numbers -----

  // To the nearest integer, ties to even.
  function RoundReal(z: real): int {
    var k, r := z.Floor, z - z.Floor as real;
    if r > 0.5 || (r == 0.5 && k % 2 == 1) then k + 1 else k
  }

  lemma RoundMonotone(x: real, y: real)
    requires x <= y
    ensures RoundReal(x) <= RoundReal(y)
  {
    assert x.Floor <= y.Floor;
  }

  lemma RoundInteger(k: int)
    ensures RoundReal(k as real) == k
  {}

  lemma FloorIs(z: real, k: int)
    requires k as real <= z < k as real + 1.0
    ensures z.Floor == k
  {}

  // On a quotient it is the rounding of the packing.
  lemma RoundQuotient(v: nat, u: nat, z: real)
    requires u > 0 && z * (u as real) == v as real
    ensures RoundReal(z) == RoundHalfEven(v, u)
  {
    var q, r := v / u, v % u;
    assert v as real == q as real * (u as real) + r as real;
    QuotientParts(q as real, r as real, u as real, z);
    FloorIs(z, q);
    HalfCompare(r, u, z - q as real);
  }

  lemma QuotientParts(q: real, r: real, u: real, z: real)
    requires u > 0.0 && 0.0 <= r < u && z * u == q * u + r
    ensures q <= z < q + 1.0 && (z - q) * u == r
  {
    assert (z - q) * u == r;
    if z < q { Negative(z - q, u); }
    if z - q >= 1.0 { Grow(1.0, z - q, u); }
  }

  lemma Negative(x: real, u: real)
    requires x < 0.0 && u > 0.0
    ensures x * u < 0.0
  {}

  lemma LessScaled(a: real, b: real, u: real)
    requires u > 0.0
    ensures a < b <==> a * u < b * u
    ensures a == b <==> a * u == b * u
  {
    if a < b { StrictlyLess(a, b, u); }
    if b < a { StrictlyLess(b, a, u); }
  }

  lemma StrictlyLess(a: real, b: real, u: real)
    requires u > 0.0 && a < b
    ensures a * u < b * u
  {
    var d := b - a;
    assert d * u > 0.0;
    assert (a + d) * u == a * u + d * u;
  }

  lemma HalfCompare(r: nat, u: nat, x: real)
    requires u > 0 && x * (u as real) == r as real
    ensures x > 0.5 <==> 2 * r > u
    ensures x == 0.5 <==> 2 * r == u
  {
    LessScaled(0.5, x, u as real);
    assert 0.5 * (u as real) == u as real / 2.0;
    assert (2 * r) as real == 2.0 * r as real;
  }

  // ----- The exponent of a real number -----

  lemma {:induction false} TwoMonotone(a: int, b: int)
    requires a <= b
    ensures Two(a) <= Two(b)
    decreases b - a
  {
    if a < b {
      TwoMonotone(a, b - 1);
      TwoStep(b - 1);
      TwoPositive(b - 1);
    }
  }

  lemma TwoZeroOne()
    ensures Two(0) == 1.0 && Two(1) == 2.0
  {
    assert RPow(2.0, 0) == 1.0;
  }

  ghost function Exponent(x: real): (e: int)
    requires x > 0.0
    ensures Two(e) <= x < Two(e + 1)
    decreases if x >= 1.0 then x.Floor else (1.0 / x).Floor + 1
  {
    TwoZeroOne();
    if x >= 2.0 then
      HalfFloor(x);
      var e := Exponent(x / 2.0);
      TwoStep(e);
      TwoStep(e + 1);
      e + 1
    else if x >= 1.0 then 0
    else
      Inverse(x);
      var e := Exponent(2.0 * x);
      TwoStep(e - 1);
      TwoStep(e);
      e - 1
  }

  lemma HalfFloor(x: real)
    requires x >= 2.0
    ensures 0 <= (x / 2.0).Floor < x.Floor && x / 2.0 >= 1.0
  {}

  lemma Inverse(x: real)
    requires 0.0 < x < 1.0
    ensures 1.0 / x > 1.0 && (1.0 / x).Floor >= 1
    ensures if 2.0 * x >= 1.0 then (2.0 * x).Floor <= (1.0 / x).Floor else (1.0 / (2.0 * x)).Floor < (1.0 / x).Floor
  {
    var y := 1.0 / x;
    assert y * x == 1.0;
    assert y > 1.0 by { if y <= 1.0 { Grow(y, 1.0, x); } }
    if 2.0 * x < 1.0 {
      assert 1.0 / (2.0 * x) == y / 2.0 by { assert (y / 2.0) * (2.0 * x) == 1.0; SameQuotient(y / 2.0, 2.0 * x); }
      assert y > 2.0 by { if y <= 2.0 { Grow(y, 2.0, x); } }
    }
  }

  lemma SameQuotient(z: real, d: real)
    requires d > 0.0 && z * d == 1.0
    ensures 1.0 / d == z
  {}

  lemma ExponentUnique(x: real, e: int)
    requires x > 0.0 && Two(e) <= x < Two(e + 1)
    ensures Exponent(x) == e
  {
    var d := Exponent(x);
    if d < e { TwoMonotone(d + 1, e); }
    if e < d { TwoMonotone(e + 1, d); }
  }

  lemma ExponentMonotone(x: real, y: real)
    requires 0.0 < x <= y
    ensures Exponent(x) <= Exponent(y)
  {
    if Exponent(y) < Exponent(x) { TwoMonotone(Exponent(y) + 1, Exponent(x)); }
  }

  // ----- The values of a format, in order -----

  ghost function BinadeOf(f: Format, x: real): int
    requires IsFormat(f) && x > 0.0
  {
    if Exponent(x) >= 2 - ExpMax(f) then Exponent(x) else 2 - ExpMax(f)
  }

  function Scaled(x: real, k: int): real { x * Two(k) }

  // The value of significand q in binade j; a binade has `one' values.
  function Position(j: int, one: nat, q: int): int { j * one + q }

  // The position of the value nearest to x among the format's, were its exponents unbounded.
  ghost function Code(f: Format, x: real): int
    requires IsFormat(f) && x > 0.0
  {
    var e := BinadeOf(f, x);
    Position(e - (2 - ExpMax(f)), Pow2(f.mantissa), RoundReal(Scaled(x, f.mantissa - e)))
  }

  // The datum at a position: infinity beyond the largest exponent.
  function DatumOf(f: Format, minus: bool, code: int): Datum
    requires IsFormat(f)
  {
    var one, emin := Pow2(f.mantissa), 2 - ExpMax(f);
    if code < 0 then NaN
    else if code < 2 * one then Finite(minus, code, emin - f.mantissa)
    else
      var e := emin + code / one - 1;
      if e >= ExpMax(f) then Infinite(minus) else Finite(minus, one + code % one, e - f.mantissa)
  }

  // The nearest datum to a positive real number.
  ghost function Rounding(f: Format, minus: bool, x: real): Datum
    requires IsFormat(f) && x > 0.0
  {
    DatumOf(f, minus, Code(f, x))
  }

  lemma ScaledMonotone(x: real, y: real, k: int)
    ensures x <= y ==> Scaled(x, k) <= Scaled(y, k)
    ensures x < y ==> Scaled(x, k) < Scaled(y, k)
  {
    TwoPositive(k);
    LessScaled(x, y, Two(k));
  }

  lemma TwoScaled(d: int, k: int)
    ensures Scaled(Two(d), k) == Two(d + k)
  {
    TwoAdd(d, k);
  }

  lemma IntegerRange(z: real, one: nat, normal: bool)
    requires 0.0 <= z < 2.0 * one as real && (normal ==> one as real <= z)
    ensures 0 <= RoundReal(z) <= 2 * one && (normal ==> one <= RoundReal(z))
  {
    RoundInteger(0);
    RoundInteger(one);
    RoundInteger(2 * one);
    assert (2 * one) as real == 2.0 * one as real;
    hide RoundReal;
    RoundMonotone(0.0, z);
    RoundMonotone(z, (2 * one) as real);
    if normal { RoundMonotone(one as real, z); }
  }

  lemma BinadeParts(f: Format, x: real)
    requires IsFormat(f) && x > 0.0
    ensures f.exponent > 0
    ensures Two(Exponent(x)) <= x < Two(Exponent(x) + 1) && Exponent(x) <= BinadeOf(f, x) && 2 - ExpMax(f) <= BinadeOf(f, x)
    ensures BinadeOf(f, x) > 2 - ExpMax(f) ==> Exponent(x) == BinadeOf(f, x)
  {
    hide Exponent, Two;
  }

  lemma HasExponent(f: Format)
    requires IsFormat(f)
    ensures f.exponent > 0 && ExpMax(f) >= 2
  {}

  lemma BinadeScaled(x: real, d: int, k: int)
    requires Two(d) <= x < Two(d + 1)
    ensures Two(d + k) <= Scaled(x, k) < Two(d + k + 1)
  {
    hide *;
    ScaledMonotone(Two(d), x, k);
    ScaledMonotone(x, Two(d + 1), k);
    TwoScaled(d, k);
    TwoScaled(d + 1, k);
    assert d + 1 + k == d + k + 1;
  }

  // In its binade the rounded multiple is at most two ones, and at least one if normal.
  lemma BinadeRange(f: Format, x: real)
    requires IsFormat(f) && x > 0.0
    ensures var e, one := BinadeOf(f, x), Pow2(f.mantissa);
            var q := RoundReal(Scaled(x, f.mantissa - e));
            0 <= q <= 2 * one && (e > 2 - ExpMax(f) ==> one <= q)
  {
    hide *;
    BinadeParts(f, x);
    HasExponent(f);
    var e, d := BinadeOf(f, x), Exponent(x);
    var k := f.mantissa - e;
    BinadeScaled(x, d, k);
    TwoIsPow2(f.mantissa);
    TwoStep(f.mantissa);
    TwoMonotone(d + k + 1, f.mantissa + 1);
    TwoPositive(d + k);
    IntegerRange(Scaled(x, k), Pow2(f.mantissa), e > 2 - ExpMax(f));
  }

  lemma LaterBinade(a: int, b: int, one: nat, p: int, q: int)
    requires 0 <= a < b && p <= 2 * one && one <= q
    ensures Position(a, one, p) <= Position(b, one, q)
  {
    MulMonotone(a + 1, b, one);
    MulDistrib(a, 1, one);
  }

  lemma SameBinade(a: int, one: nat, p: int, q: int)
    requires p <= q
    ensures Position(a, one, p) <= Position(a, one, q)
  {}

  lemma CodeIs(f: Format, x: real, e: int)
    requires IsFormat(f) && x > 0.0 && e == BinadeOf(f, x)
    ensures f.exponent > 0 && Code(f, x) == Position(e - (2 - ExpMax(f)), Pow2(f.mantissa), RoundReal(Scaled(x, f.mantissa - e)))
  {
    hide Position, RoundReal, Scaled, BinadeOf, Pow2, ExpMax;
  }

  // Rounding keeps the order, so numbers between two that round to the same value do too.
  lemma CodeMonotone(f: Format, x: real, y: real)
    requires IsFormat(f) && 0.0 < x <= y
    ensures Code(f, x) <= Code(f, y)
  {
    hide *;
    HasExponent(f);
    var d, e, emin := BinadeOf(f, x), BinadeOf(f, y), 2 - ExpMax(f);
    BinadeMonotone(f, x, y);
    BinadeRange(f, x);
    BinadeRange(f, y);
    CodeIs(f, x, d);
    CodeIs(f, y, e);
    var p, q := RoundReal(Scaled(x, f.mantissa - d)), RoundReal(Scaled(y, f.mantissa - e));
    if d == e {
      ScaledMonotone(x, y, f.mantissa - d);
      RoundMonotone(Scaled(x, f.mantissa - d), Scaled(y, f.mantissa - d));
      SameBinade(d - emin, Pow2(f.mantissa), p, q);
    } else {
      LaterBinade(d - emin, e - emin, Pow2(f.mantissa), p, q);
    }
  }

  lemma BinadeMonotone(f: Format, x: real, y: real)
    requires IsFormat(f) && 0.0 < x <= y
    ensures f.exponent > 0 && 2 - ExpMax(f) <= BinadeOf(f, x) <= BinadeOf(f, y)
  {
    ExponentMonotone(x, y);
    hide Exponent;
  }

  lemma Squeezed(f: Format, minus: bool, lo: real, x: real, hi: real)
    requires IsFormat(f) && 0.0 < lo <= x <= hi && Code(f, lo) == Code(f, hi)
    ensures Rounding(f, minus, x) == Rounding(f, minus, lo)
  {
    CodeMonotone(f, lo, x);
    CodeMonotone(f, x, hi);
  }

  // ----- The mantissa -----

  lemma NormalisedRange(m: nat, n: nat)
    requires n > 0 && Normalised(m, n)
    ensures Pow2(32 * n - 1) as real <= m as real < Pow2(32 * n) as real
  {
    hide Pow2;
  }

  lemma ValueIsScaled(m: nat, e: int, n: nat)
    ensures Value(m, e, n) == Scaled(m as real, e - 32 * n)
  {}

  lemma MantissaExponent(m: nat, e: int, n: nat)
    requires n > 0 && Normalised(m, n)
    ensures Value(m, e + 1, n) > 0.0 && Exponent(Value(m, e + 1, n)) == e
  {
    hide *;
    NormalisedRange(m, n);
    TwoIsPow2(32 * n - 1);
    TwoIsPow2(32 * n);
    ValueIsScaled(m, e + 1, n);
    BinadeScaled(m as real, 32 * n - 1, e + 1 - 32 * n);
    TwoPositive(e);
    ExponentUnique(Value(m, e + 1, n), e);
  }

  // A mantissa scaled down is the quotient that the packing rounds.
  lemma MantissaScaled(m: nat, e: int, n: nat, drop: nat, k: int)
    requires k == 32 * n - 1 - e - drop
    ensures RoundReal(Scaled(Value(m, e + 1, n), k)) == RoundHalfEven(m, Pow2(drop))
  {
    hide *;
    ValueIsScaled(m, e + 1, n);
    ScaledBack(m as real, e + 1 - 32 * n, k, drop);
    TwoIsPow2(drop);
    RoundQuotient(m, Pow2(drop), Scaled(Value(m, e + 1, n), k));
  }

  lemma ScaledBack(m: real, a: int, b: int, c: int)
    requires a + b + c == 0
    ensures Scaled(Scaled(m, a), b) * Two(c) == m
  {
    TwoAdd(a, b);
    TwoAdd(a + b, c);
    TwoZeroOne();
    var t, u, v := Two(a), Two(b), Two(c);
    assert Two(a + b) == t * u && Two(a + b) * v == 1.0;
    hide Two;
    SameFactor(Two(a + b), t * u, v);
    ProductOne(m, t, u, v);
  }

  lemma ProductOne(m: real, a: real, b: real, c: real)
    requires a * b * c == 1.0
    ensures m * a * b * c == m
  {
    Assoc(m, a, b);
    SameFactor(m * a * b, m * (a * b), c);
    Assoc(m, a * b, c);
    SameFactor(a * b * c, 1.0, m);
  }

  lemma PositionParts(j: nat, one: nat, sig: nat)
    requires one > 0 && sig <= 2 * one && (j > 0 ==> one <= sig)
    ensures var c := Position(j, one, sig);
            c >= 0 && (c < 2 * one <==> j == 0 && sig < 2 * one) && (j == 0 ==> c == sig) &&
            (sig == 2 * one ==> c / one == j + 2 && c % one == 0) &&
            (one <= sig < 2 * one ==> c / one == j + 1 && c % one == sig - one)
  {
    MulDistrib(j, 1, one);
    MulDistrib(j, 2, one);
    var c := Position(j, one, sig);
    if sig == 2 * one {
      DivModUnique(c, one, j + 2, 0);
    } else if sig >= one {
      DivModUnique(c, one, j + 1, sig - one);
    }
    if j > 0 { MulMonotone(1, j, one); }
  }

  lemma DatumAt(f: Format, minus: bool, j: nat, sig: nat, d: int)
    requires IsFormat(f) && sig <= 2 * Pow2(f.mantissa) && (j > 0 ==> Pow2(f.mantissa) <= sig) && d == 2 - ExpMax(f) + j
    ensures var one := Pow2(f.mantissa);
            DatumOf(f, minus, Position(j, one, sig)) ==
              if j == 0 && sig < 2 * one then Finite(minus, sig, d - f.mantissa)
              else if sig == 2 * one then if d + 1 >= ExpMax(f) then Infinite(minus) else Finite(minus, one, d + 1 - f.mantissa)
              else if d >= ExpMax(f) then Infinite(minus) else Finite(minus, sig, d - f.mantissa)
  {
    PositionParts(j, Pow2(f.mantissa), sig);
    hide Pow2, ExpMax, Position;
  }

  // The correctly rounded mantissa of the packing is the rounding of the real it stands for.
  lemma NearestIsRounding(f: Format, minus: bool, m: nat, e: int, n: nat)
    requires IsFormat(f) && Bits(f) < 32 * n && Normalised(m, n)
    ensures Value(m, e + 1, n) > 0.0 && Nearest(f, minus, m, e, n) == Rounding(f, minus, Value(m, e + 1, n))
  {
    hide *;
    HasExponent(f);
    NearestDrop(f, n);
    var emin := 2 - ExpMax(f);
    var low: nat := if e >= emin then 0 else emin - e;
    var drop: nat := 32 * n - 1 - f.mantissa + low;
    MantissaExponent(m, e, n);
    BinadeIs(f, Value(m, e + 1, n), e, e + low);
    CodeIs(f, Value(m, e + 1, n), e + low);
    MantissaScaled(m, e, n, drop, f.mantissa - (e + low));
    FloatConst.NearestBounds(f, m, n, low);
    FloatConst.ExpMaxAtLeast(f);
    DatumAt(f, minus, e + low - emin, RoundHalfEven(m, Pow2(drop)), e + low);
    NearestAt(f, minus, m, e, n, low, drop);
    RoundingIs(f, minus, Value(m, e + 1, n));
  }

  lemma NearestDrop(f: Format, n: nat)
    requires IsFormat(f) && Bits(f) < 32 * n
    ensures n > 0 && f.mantissa < 32 * n
  {}

  lemma RoundingIs(f: Format, minus: bool, x: real)
    requires IsFormat(f) && x > 0.0
    ensures Rounding(f, minus, x) == DatumOf(f, minus, Code(f, x))
  {
    hide Code, DatumOf;
  }

  lemma BinadeIs(f: Format, x: real, d: int, e: int)
    requires IsFormat(f) && x > 0.0 && Exponent(x) == d && e == if d >= 2 - ExpMax(f) then d else 2 - ExpMax(f)
    ensures BinadeOf(f, x) == e
  {
    hide Exponent;
  }

  lemma NearestAt(f: Format, minus: bool, m: nat, e: int, n: nat, low: nat, drop: nat)
    requires IsFormat(f) && n > 0 && f.mantissa < 32 * n && Normalised(m, n) && ExpMax(f) >= 2
    requires low == (if e >= 2 - ExpMax(f) then 0 else 2 - ExpMax(f) - e) && drop == 32 * n - 1 - f.mantissa + low
    requires var sig := RoundHalfEven(m, Pow2(drop)); 0 <= sig <= if low == 0 then 2 * Pow2(f.mantissa) else Pow2(f.mantissa)
    ensures var one, sig, d := Pow2(f.mantissa), RoundHalfEven(m, Pow2(drop)), e + low;
            Nearest(f, minus, m, e, n) ==
              if d == 2 - ExpMax(f) && sig < 2 * one then Finite(minus, sig, d - f.mantissa)
              else if sig == 2 * one then if d + 1 >= ExpMax(f) then Infinite(minus) else Finite(minus, one, d + 1 - f.mantissa)
              else if d >= ExpMax(f) then Infinite(minus) else Finite(minus, sig, d - f.mantissa)
  {
    hide RoundHalfEven, Normalised;
    assert Pow2(f.mantissa) >= 1;
    hide Pow2, ExpMax;
  }

  // ----- The constant -----

  function Steps(s: string): nat { if TenPower(s) >= 0 then TenPower(s) else -TenPower(s) }

  // What the constant loses in the digit buffer.
  function Dropped(s: string): real {
    if |SignificantDigits(s)| <= FloatParse.MANT_DIGITS then 0.0 else Ten(TenPower(s) - KeptCount(s))
  }

  // The interval in which the constant and its converted mantissa lie.
  function Lowest(s: string, n: nat): real
    requires n > 0
  {
    KeptValue(s) * RPow(Shrink(n), Steps(s) + 1)
  }

  function Highest(s: string, n: nat): real {
    (KeptValue(s) + Dropped(s)) * RPow(Excess(TenPower(s), n), Steps(s))
  }

  lemma {:induction false} RPowBounds(x: real, k: nat)
    requires x > 0.0
    ensures x <= 1.0 ==> 0.0 < RPow(x, k) <= 1.0
    ensures x >= 1.0 ==> RPow(x, k) >= 1.0
  {
    if k > 0 {
      RPowBounds(x, k - 1);
      if x <= 1.0 {
        Grow(x, 1.0, RPow(x, k - 1));
        assert x * RPow(x, k - 1) > 0.0;
      }
      if x >= 1.0 { Grow(1.0, x, RPow(x, k - 1)); }
    }
  }

  lemma Enclosed(k: real, d: real, x: real, lo: real, hi: real, v: real)
    requires k > 0.0 && d >= 0.0 && k <= x <= k + d && 0.0 < lo <= 1.0 && hi >= 1.0
    requires k * lo <= v <= k * hi
    ensures 0.0 < k * lo <= x <= (k + d) * hi && k * lo <= v <= (k + d) * hi
  {
    Grow(lo, 1.0, k);
    Grow(1.0, hi, k + d);
    Grow(k, k + d, hi);
  }

  lemma ConstantEnclosed(s: string, m: nat, e: int, n: nat)
    requires n > 0 && m > 0 && Converted(s, m, e, n)
    ensures 0.0 < Lowest(s, n) <= NumeralValue(s) <= Highest(s, n)
    ensures Lowest(s, n) <= Value(m, e, n) <= Highest(s, n)
  {
    hide *;
    DroppedIs(s);
    KeptValueNear(s);
    KeptPositive(s, m, e, n);
    TenPositive(TenPower(s) - KeptCount(s));
    ShrinkBounds(n);
    RPowBounds(Shrink(n), Steps(s) + 1);
    ExcessBounds(TenPower(s), n);
    RPowBounds(Excess(TenPower(s), n), Steps(s));
    ConvertedBounds(s, m, e, n);
    Enclosed(KeptValue(s), Dropped(s), NumeralValue(s), RPow(Shrink(n), Steps(s) + 1), RPow(Excess(TenPower(s), n), Steps(s)),
             Value(m, e, n));
    IntervalIs(s, n);
  }

  lemma IntervalIs(s: string, n: nat)
    requires n > 0
    ensures Lowest(s, n) == KeptValue(s) * RPow(Shrink(n), Steps(s) + 1)
    ensures Highest(s, n) == (KeptValue(s) + Dropped(s)) * RPow(Excess(TenPower(s), n), Steps(s))
  {}

  lemma DroppedIs(s: string)
    ensures Dropped(s) == if |SignificantDigits(s)| <= FloatParse.MANT_DIGITS then 0.0 else Ten(TenPower(s) - KeptCount(s))
  {}

  lemma ConvertedBounds(s: string, m: nat, e: int, n: nat)
    requires n > 0 && Converted(s, m, e, n)
    ensures KeptValue(s) * RPow(Shrink(n), Steps(s) + 1) <= Value(m, e, n) <= KeptValue(s) * RPow(Excess(TenPower(s), n), Steps(s))
    ensures m == 0 <==> FloatParse.Significand(s) == 0
  {
    hide KeptValue, Value, RPow, Shrink, Excess;
  }

  lemma KeptPositive(s: string, m: nat, e: int, n: nat)
    requires n > 0 && m > 0 && Converted(s, m, e, n)
    ensures KeptValue(s) > 0.0
  {
    ConvertedBounds(s, m, e, n);
    KeptZero(s);
    TenPositive(TenPower(s) - KeptCount(s));
    hide KeptDigitsVal, Ten, Converted, Value;
  }

  // The main result: where the interval of the conversion holds no point at which the format's
  // rounding changes, and the packing is exact, the bytes are the nearest value of the format
  // to the constant.
  lemma ConstantIsNearest(f: Format, s: string, minus: bool, m: nat, e: int, n: nat)
    requires IsFormat(f) && Bits(f) < 32 * n && Normalised(m, n) && Converted(s, m, e + 1, n)
    requires FloatConst.PackedExactly(f, m, e, n)
    requires Lowest(s, n) > 0.0 && Highest(s, n) > 0.0 && Code(f, Lowest(s, n)) == Code(f, Highest(s, n))
    ensures NumeralValue(s) > 0.0 && FloatConst.Packed(f, minus, m, e, n) == Rounding(f, minus, NumeralValue(s))
  {
    NormalisedIs(m, n);
    FloatConst.PackedIsNearest(f, minus, m, e, n);
    hide *;
    NearestIsRounding(f, minus, m, e, n);
    ConstantEnclosed(s, m, e + 1, n);
    Squeezed(f, minus, Lowest(s, n), NumeralValue(s), Highest(s, n));
    Squeezed(f, minus, Lowest(s, n), Value(m, e + 1, n), Highest(s, n));
  }

  // The same for the outcome of to_float; zero is exact.
  lemma OutcomeIsNearest(f: Format, s: string, minus: bool, n: nat, o: FloatConst.Outcome)
    requires IsFormat(f) && Bits(f) < 32 * n && FloatConst.IsOutcome(f, s, n, o)
    ensures o.Zero? ==> NumeralValue(s) == 0.0 && FloatConst.OutcomeDatum(f, minus, n, o) == DatumOf(f, minus, 0)
    ensures o.Shifted? && FloatConst.PackedExactly(f, o.m, o.e, n) && Lowest(s, n) > 0.0 && Highest(s, n) > 0.0 &&
            Code(f, Lowest(s, n)) == Code(f, Highest(s, n)) ==>
              NumeralValue(s) > 0.0 && FloatConst.OutcomeDatum(f, minus, n, o) == Rounding(f, minus, NumeralValue(s))
  {
    hide Code, Rounding, Lowest, Highest, FloatConst.Packed, FloatConst.PackedExactly, Converted, Pow2, ExpMax;
    if o.Shifted? && FloatConst.PackedExactly(f, o.m, o.e, n) && Lowest(s, n) > 0.0 && Highest(s, n) > 0.0 &&
       Code(f, Lowest(s, n)) == Code(f, Highest(s, n)) {
      ConstantIsNearest(f, s, minus, o.m, o.e, n);
    }
  }
}

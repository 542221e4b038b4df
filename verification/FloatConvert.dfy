// sdk/as/float.c: ieee_flconvert, decimal digits to a binary mantissa and exponent, with
// the error of the whole conversion.
module FloatConvert {
  import opened Base
  import opened Powers
  import opened RealPowers
  import opened Limbs
  import opened FloatMultiply
  import opened FloatDigits
  import opened FloatPowers
  import opened FloatParse

  // ----- The number a decimal constant denotes -----

  function NumeralValue(s: string): real {
    Significand(s) as real * Ten(DecimalExponent(s))
  }

  function SignificantDigits(s: string): (d: seq<nat>) {
    StripZeros(AllDigits(s[..SignificandLength(s)]))
  }

  // The source keeps at most MANT_DIGITS significant digits.
  function KeptCount(s: string): (p: nat)
    ensures p <= |SignificantDigits(s)|
  {
    if |SignificantDigits(s)| <= MANT_DIGITS then |SignificantDigits(s)| else MANT_DIGITS
  }

  function KeptDigitsVal(s: string): nat {
    DigitsVal(SignificantDigits(s)[..KeptCount(s)])
  }

  // The source's tenpwr: the constant is 0.ddd times this power of ten.
  function TenPower(s: string): int {
    |SignificantDigits(s)| + DecimalExponent(s)
  }

  function KeptValue(s: string): real {
    KeptDigitsVal(s) as real * Ten(TenPower(s) - KeptCount(s))
  }

  // Dropping digits beyond the buffer truncates: by less than one unit of the last digit
  // kept, and by nothing when they all fit.
  lemma KeptValueNear(s: string)
    ensures KeptValue(s) <= NumeralValue(s) < KeptValue(s) + Ten(TenPower(s) - KeptCount(s))
    ensures |SignificantDigits(s)| <= MANT_DIGITS ==> KeptValue(s) == NumeralValue(s)
  {
    hide *;
    var r := |SignificantDigits(s)| - KeptCount(s);
    KeptIsQuotient(s);
    TenAdd(r, DecimalExponent(s));
    TenIsPow10(r);
    TenPositive(DecimalExponent(s));
    TenPowerIs(s);
    DroppedDigits(Significand(s), KeptDigitsVal(s), Pow10(r), Ten(DecimalExponent(s)), Ten(r + DecimalExponent(s)));
  }

  lemma KeptIsQuotient(s: string)
    ensures KeptDigitsVal(s) == Significand(s) / Pow10(|SignificantDigits(s)| - KeptCount(s))
    ensures Pow10(0) == 1
  {
    var d := AllDigits(s[..SignificandLength(s)]);
    StripZerosDigits(d);
    StripZerosVal(d);
    KeptDigits(SignificantDigits(s), KeptCount(s));
  }

  lemma TenPowerIs(s: string)
    ensures TenPower(s) - KeptCount(s) == |SignificantDigits(s)| - KeptCount(s) + DecimalExponent(s)
    ensures KeptValue(s) == KeptDigitsVal(s) as real * Ten(TenPower(s) - KeptCount(s))
    ensures NumeralValue(s) == Significand(s) as real * Ten(DecimalExponent(s))
    ensures |SignificantDigits(s)| <= MANT_DIGITS ==> KeptCount(s) == |SignificantDigits(s)|
  {}

  lemma {:induction false} StripZerosDigits(d: seq<nat>)
    requires forall i :: 0 <= i < |d| ==> d[i] < 10
    ensures forall i :: 0 <= i < |StripZeros(d)| ==> StripZeros(d)[i] < 10
  {
    if |d| > 0 && d[0] == 0 {
      StripZerosDigits(d[1..]);
    }
  }

  lemma DroppedDigits(w: nat, k: nat, q: nat, t: real, u: real)
    requires q > 0 && t > 0.0 && k == w / q && u == q as real * t
    ensures k as real * u <= w as real * t < k as real * u + u
    ensures q == 1 ==> k as real * u == w as real * t
  {}

  // ----- The code -----

  // How much too large the source's 0.2 is: its last limb is rounded up.
  function Excess(tenpwr: int, n: nat): real {
    if tenpwr >= 0 then 1.0 else 1.0 + Two(-2 - 32 * n)
  }

  // The conversion's promise: the mantissa is normalised, or zero for zero, and low by at
  // most one truncation for the digits and one for each power of ten.
  ghost predicate Converted(s: string, m: nat, e: int, n: nat)
    requires n > 0
  {
    var t := TenPower(s);
    var k: nat := if t >= 0 then t else -t;
    (m == 0 <==> Significand(s) == 0) && (m == 0 || Normalised(m, n)) &&
    KeptValue(s) * RPow(Shrink(n), k + 1) <= Value(m, e, n) <= KeptValue(s) * RPow(Excess(t, n), k)
  }

  // mult = 5: 0.101 binary, times 2^3.
  method SetFive(mult: array<Limb>)
    requires mult.Length > 0
    modifies mult
    ensures Normalised(Val(mult[..]), mult.Length) && Value(Val(mult[..]), 3, mult.Length) == 5.0
  {
    mult[0] := 5 * 0x2000_0000;
    var m := 1;
    while m < mult.Length
      invariant 1 <= m <= mult.Length
      invariant mult[0] == 5 * 0x2000_0000
      invariant forall i :: 1 <= i < m ==> mult[i] == 0
    {
      mult[m] := 0;
      m := m + 1;
    }
    FiveValue(mult[..]);
  }

  lemma FiveValue(s: seq<nat>)
    requires |s| > 0 && IsLimbs(s) && s[0] == 5 * 0x2000_0000 && forall i :: 1 <= i < |s| ==> s[i] == 0
    ensures Normalised(Val(s), |s|) && Value(Val(s), 3, |s|) == 5.0
  {
    hide *;
    var n := |s|;
    FiveVal(s);
    var p := Pow2(32 * n - 3);
    TwoIsPow2(32 * n - 3);
    TwoAdd(32 * n - 3, 3 - 32 * n);
    TwoZero();
    ValueIs(Val(s), 3, n);
    assert Val(s) as real == 5.0 * (p as real);
    Assoc(5.0, p as real, Two(3 - 32 * n));
  }

  lemma FiveVal(s: seq<nat>)
    requires |s| > 0 && IsLimbs(s) && s[0] == 5 * 0x2000_0000 && forall i :: 1 <= i < |s| ==> s[i] == 0
    ensures Normalised(Val(s), |s|) && Val(s) == 5 * Pow2(32 * |s| - 3)
  {
    var n := |s|;
    hide Val, Weight;
    TopBit(s);
    ValBound(s);
    ValHead(s);
    ValZeros(s[1..]);
    Pow2TwentyNine();
    WeightIs(n - 1);
    hide Pow2;
    Pow2Add(29, 32 * (n - 1));
    MulAssoc(5, 0x2000_0000, Weight(n - 1));
  }

  lemma Pow2TwentyNine()
    ensures Pow2(29) == 0x2000_0000
  {
    Pow2Literals();
    assert Pow2(31) == 2 * Pow2(30) && Pow2(30) == 2 * Pow2(29);
  }

  lemma WeightIs(k: nat)
    ensures Weight(k) == Pow2(32 * k)
  {}

  lemma TwoZero()
    ensures Two(0) == 1.0
  {}

  // mult = 0.2: 0.110011... binary, times 2^-2, with the last limb rounded up.
  method SetFifth(mult: array<Limb>)
    requires mult.Length > 0
    modifies mult
    ensures Normalised(Val(mult[..]), mult.Length)
    ensures Value(Val(mult[..]), -2, mult.Length) == 0.2 * Excess(-1, mult.Length)
  {
    var m := 0;
    while m < mult.Length - 1
      invariant 0 <= m < mult.Length
      invariant forall i :: 0 <= i < m ==> mult[i] == 0xcccc_cccc
    {
      mult[m] := 0xcccc_cccc;
      m := m + 1;
    }
    mult[mult.Length - 1] := 0xcccc_cccc + 1;
    FifthValue(mult[..]);
  }

  lemma {:induction false} FifthVal(s: seq<nat>)
    requires forall i :: 0 <= i < |s| ==> s[i] == 0xcccc_cccc
    ensures 5 * Val(s) + 4 == 4 * Weight(|s|)
  {
    if |s| == 0 {
      WeightStep(0);
    } else {
      FifthVal(s[..|s| - 1]);
      WeightStep(|s| - 1);
    }
  }

  lemma FifthValue(s: seq<nat>)
    requires |s| > 0 && IsLimbs(s)
    requires (forall i :: 0 <= i < |s| - 1 ==> s[i] == 0xcccc_cccc) && s[|s| - 1] == 0xcccc_cccd
    ensures Normalised(Val(s), |s|)
    ensures Value(Val(s), -2, |s|) == 0.2 * Excess(-1, |s|)
  {
    hide *;
    var n := |s|;
    RoundedFifthVal(s);
    TwoIsPow2(32 * n);
    TwoAdd(32 * n, -2 - 32 * n);
    TwoQuarter();
    WeightIs(n);
    ValueIs(Val(s), -2, n);
    ExcessIs(n);
    FifthScaled(Val(s) as real, Weight(n) as real, Two(-2 - 32 * n));
  }

  lemma RoundedFifthVal(s: seq<nat>)
    requires |s| > 0 && IsLimbs(s)
    requires (forall i :: 0 <= i < |s| - 1 ==> s[i] == 0xcccc_cccc) && s[|s| - 1] == 0xcccc_cccd
    ensures Normalised(Val(s), |s|)
    ensures 5 * Val(s) == 4 * Weight(|s|) + 1
  {
    var n := |s|;
    TopBit(s);
    ValBound(s);
    FifthVal(s[..n - 1]);
    WeightStep(n - 1);
    hide Weight, Pow2;
  }

  lemma TwoQuarter()
    ensures Two(-2) == 0.25
  {}

  lemma ExcessIs(n: nat)
    ensures Excess(-1, n) == 1.0 + Two(-2 - 32 * n)
  {}

  lemma FifthScaled(v: real, w: real, t: real)
    requires 5.0 * v == 4.0 * w + 1.0 && w * t == 0.25
    ensures v * t == 0.2 * (1.0 + t)
  {}

  // The digits, as the fraction num / den, truncated to a mantissa.
  lemma DigitsApproximate(num: nat, den: nat, m: nat, rem: nat, twopwr: int, n: nat)
    requires n > 0 && twopwr <= 0 && den > 0 && rem < den
    requires num * Pow2(32 * n - twopwr) == m * den + rem
    requires m == 0 || Normalised(m, n)
    requires num == 0 <==> m == 0
    ensures num as real / (den as real) * Shrink(n) <= Value(m, twopwr, n) <= num as real / (den as real)
  {
    hide *;
    var f := num as real / (den as real);
    assert f * (den as real) == num as real;
    ValueIs(m, twopwr, n);
    if m == 0 {
      ZeroFraction(den as real, Shrink(n), Two(twopwr - 32 * n));
    } else {
      TwoIsPow2(32 * n - twopwr);
      TwoAdd(32 * n - twopwr, twopwr - 32 * n);
      TwoZero();
      TwoPositive(twopwr - 32 * n);
      HalfInverse(n);
      NormalisedLow(m, n);
      ShrinkIs(n);
      var z := f * Two(32 * n - twopwr);
      TruncatedDigits(num, den, m, rem, Pow2(32 * n - twopwr), f, z);
      Assoc(f, Two(32 * n - twopwr), Two(twopwr - 32 * n));
      TruncationShare(z, m as real, Pow2(32 * n - 1) as real, Two(1 - 32 * n), Two(twopwr - 32 * n), f);
    }
  }

  lemma ZeroFraction(d: real, x: real, y: real)
    requires d != 0.0
    ensures 0.0 / d * x == 0.0 && 0.0 * y == 0.0 && 0.0 / d == 0.0
  {}

  lemma TruncatedDigits(num: nat, den: nat, m: nat, rem: nat, p: nat, f: real, z: real)
    requires den > 0 && rem < den && num * p == m * den + rem
    requires f * (den as real) == num as real && z == f * (p as real)
    ensures m as real <= z < m as real + 1.0
  {
    var d := den as real;
    CastMul(num, p);
    CastMul(m, den);
    Rotate(f, p as real, d);
    MulDistribReal(m as real, d);
    QuotientReal(m as real, d, num as real * p as real, z);
  }

  lemma MulDistribReal(m: real, d: real)
    ensures (m + 1.0) * d == m * d + d
  {}

  // The state handed to the repeated squaring: x is the fraction times a power of two.
  lemma StartPower(m: nat, twopwr: int, tenpwr: int, mult: nat, extratwos: int, n: nat, f: real, g: real, up: real)
    requires n > 0 && f >= 0.0 && (m == 0 || Normalised(m, n))
    requires f * Shrink(n) <= Value(m, twopwr, n) <= f
    requires Normalised(mult, n) && g <= Value(mult, extratwos, n) <= g * up
    ensures PowerState(f * Two(tenpwr), m, twopwr + tenpwr, mult, extratwos, n, g, up, 0, 0)
  {
    assert Pow2(0) == 1;
    TwoPositive(tenpwr);
    ValueShift(m, twopwr, tenpwr, n);
    hide Two, Value, RPow, Shrink, Approximates, Pow2;
    var t := Two(tenpwr);
    ScaleBetween(f, Value(m, twopwr, n), Shrink(n), t);
    ApproximatesStart(Value(m, twopwr + tenpwr, n), f * t, g, up, Shrink(n));
    ApproximatesBase(Value(mult, extratwos, n), g, up, Shrink(n));
  }

  lemma ValueShift(m: nat, e: int, k: int, n: nat)
    ensures Value(m, e + k, n) == Value(m, e, n) * Two(k)
  {
    TwoAdd(e - 32 * n, k);
    Assoc(m as real, Two(e - 32 * n), Two(k));
  }

  lemma ScaleBetween(f: real, v: real, d: real, t: real)
    requires f * d <= v <= f && t > 0.0
    ensures f * t * d <= v * t <= f * t
  {}

  lemma ApproximatesStart(v: real, x: real, g: real, up: real, d: real)
    requires x * d <= v <= x
    ensures Approximates(v, x, g, up, 0, 1, d)
  {}

  lemma ApproximatesBase(v: real, g: real, up: real, d: real)
    requires g <= v <= g * up
    ensures Approximates(v, 1.0, g, up, 1, 0, d)
  {}

  // The finished mantissa, in terms of the decimal number.
  lemma FinishPower(v: real, f: real, t: int, k: nat, n: nat, g: real, up: real)
    requires n > 0 && k == (if t >= 0 then t else -t) && g == (if t >= 0 then 5.0 else 0.2) && up == Excess(t, n)
    requires Approximates(v, f * Two(t), g, up, k, k + 1, Shrink(n))
    ensures f * Ten(t) * RPow(Shrink(n), k + 1) <= v <= f * Ten(t) * RPow(up, k)
  {
    TenIsTwoTimesFive(t);
    hide *;
    ApproximationBounds(v, f * Two(t), g, up, k, k + 1, Shrink(n));
    RPowMul(g, up, k);
    Assoc(f, Two(t), RPow(g, k));
    SameFactor(RPow(g * up, k), RPow(g, k) * RPow(up, k), f * Two(t));
    Assoc(f * Two(t), RPow(g, k), RPow(up, k));
  }

  // The kept fraction times its power of ten is the kept value.
  lemma FractionValue(s: string)
    ensures KeptDigitsVal(s) as real / (Pow10(KeptCount(s)) as real) * Ten(TenPower(s)) == KeptValue(s)
  {
    var p := KeptCount(s);
    hide *;
    TenPowerIs(s);
    TenAdd(TenPower(s) - p, p);
    TenIsPow10(p);
    CancelScale(KeptDigitsVal(s) as real, Pow10(p) as real, Ten(TenPower(s) - p), Ten(TenPower(s)));
  }

  lemma CancelScale(k: real, d: real, t: real, u: real)
    requires d > 0.0 && u == t * d
    ensures k / d * u == k * t
  {}

  method MultiplyByTenPower(mant: array<Limb>, tenpwr: int, twopwr0: int, ghost f: real)
    returns (twopwr: int)
    requires 0 < mant.Length < 0x4000_0000
    requires f >= 0.0 && (Val(mant[..]) == 0 ==> f == 0.0)
    requires Val(mant[..]) == 0 || Normalised(Val(mant[..]), mant.Length)
    requires f * Shrink(mant.Length) <= Value(Val(mant[..]), twopwr0, mant.Length) <= f
    modifies mant
    ensures Val(mant[..]) == 0 <==> old(Val(mant[..])) == 0
    ensures Val(mant[..]) == 0 || Normalised(Val(mant[..]), mant.Length)
    ensures var k: nat := if tenpwr >= 0 then tenpwr else -tenpwr;
            f * Ten(tenpwr) * RPow(Shrink(mant.Length), k + 1)
            <= Value(Val(mant[..]), twopwr, mant.Length)
            <= f * Ten(tenpwr) * RPow(Excess(tenpwr, mant.Length), k)
  {
    hide *;
    var n := mant.Length;
    var mult := new Limb[n];
    var extratwos, t: nat := 0, if tenpwr >= 0 then tenpwr else -tenpwr;
    ghost var g, up := if tenpwr >= 0 then 5.0 else 0.2, Excess(tenpwr, n);
    if tenpwr < 0 {
      SetFifth(mult);
      extratwos := -2;
    } else {
      SetFive(mult);
      extratwos := 3;
    }
    ExcessBounds(tenpwr, n);
    TwoPositive(tenpwr);
    StartPower(Val(mant[..]), twopwr0, tenpwr, Val(mult[..]), extratwos, n, f, g, up);
    ghost var x := f * Two(tenpwr);
    assert x >= 0.0;
    twopwr := MultiplyByPower(mant, mult, t, twopwr0 + tenpwr, extratwos, x, g, up);
    FinishPower(Value(Val(mant[..]), twopwr, n), f, tenpwr, t, n, g, up);
  }

  lemma ExcessBounds(t: int, n: nat)
    ensures Excess(t, n) >= 1.0
    ensures t >= 0 ==> Excess(t, n) == 1.0
    ensures t < 0 ==> Excess(t, n) == Excess(-1, n)
  {
    TwoPositive(-2 - 32 * n);
  }

  method IeeeFlconvert(s: string, mant: array<Limb>) returns (ok: bool, exponent: int)
    requires 0 < mant.Length < 0x4000_0000
    modifies mant
    ensures ok <==> ValidNumeral(s)
    ensures ok ==> Converted(s, Val(mant[..]), exponent, mant.Length)
  {
    hide *;
    exponent := 0;
    var digits := new Digit[MANT_DIGITS];
    var p, tenpwr;
    ok, p, tenpwr := ParseNumeral(s, digits);
    if ok {
      exponent := ConvertDigits(digits, p, tenpwr, mant);
      ghost var f := KeptDigitsVal(s) as real / (Pow10(KeptCount(s)) as real);
      FractionValue(s);
      KeptZero(s);
      IsConverted(s, Val(mant[..]), exponent, mant.Length, f);
    }
  }

  // The scan of the significand and then, if there is an E, of the exponent.
  method ParseNumeral(s: string, digits: array<Digit>) returns (ok: bool, p: nat, tenpwr: int)
    requires digits.Length == MANT_DIGITS
    modifies digits
    ensures ok <==> ValidNumeral(s)
    ensures ok ==> p == KeptCount(s) && p <= digits.Length && DigitsVal(digits[..p]) == KeptDigitsVal(s)
    ensures ok ==> tenpwr == TenPower(s)
  {
    hide *;
    var k;
    ok, p, tenpwr, k := ScanSignificand(s, digits);
    NumeralParts(s);
    if ok {
      ScannedParts(s, digits[..p], tenpwr);
      if k < |s| {
        var e := ReadExponent(s[k + 1..], 5000);
        if e.None? {
          ok := false;
        } else {
          tenpwr := tenpwr + e.value;
        }
      }
    }
  }

  // From the digits to the mantissa and its exponent.
  method ConvertDigits(digits: array<Digit>, p: nat, tenpwr: int, mant: array<Limb>) returns (exponent: int)
    requires 0 < mant.Length < 0x4000_0000 && p <= digits.Length
    modifies digits, mant
    ensures Val(mant[..]) == 0 || Normalised(Val(mant[..]), mant.Length)
    ensures Val(mant[..]) == 0 <==> old(DigitsVal(digits[..p])) == 0
    ensures var f := old(DigitsVal(digits[..p])) as real / (Pow10(p) as real);
            var k: nat := if tenpwr >= 0 then tenpwr else -tenpwr;
            f * Ten(tenpwr) * RPow(Shrink(mant.Length), k + 1)
            <= Value(Val(mant[..]), exponent, mant.Length)
            <= f * Ten(tenpwr) * RPow(Excess(tenpwr, mant.Length), k)
  {
    hide *;
    ghost var num, den := DigitsVal(digits[..p]), Pow10(p);
    var twopwr;
    ghost var rem;
    twopwr, rem := DigitsToBits(digits, p, mant);
    NormalisedIs(Val(mant[..]), mant.Length);
    DigitsApproximate(num, den, Val(mant[..]), rem, twopwr, mant.Length);
    FractionSign(num, den);
    exponent := MultiplyByTenPower(mant, tenpwr, twopwr, num as real / (den as real));
  }

  lemma FractionSign(num: nat, den: nat)
    requires den > 0
    ensures num as real / (den as real) >= 0.0
    ensures num == 0 ==> num as real / (den as real) == 0.0
  {}

  lemma NormalisedIs(m: nat, n: nat)
    requires n > 0
    ensures Normalised(m, n) <==> Pow2(32 * n - 1) <= m < Weight(n)
    ensures Normalised(m, n) ==> m > 0
  {}

  lemma NumeralParts(s: string)
    ensures var k := SignificandLength(s);
            ValidNumeral(s) <==> ValidSignificand(s[..k]) && (k < |s| ==> ValidExponentDigits(ExponentBody(s[k + 1..])))
  {}

  // What the scan leaves, plus the exponent, is the source's decimal form of s.
  lemma ScannedParts(s: string, digits: seq<nat>, tenpwr: int)
    requires exists started, seendot :: Scanned(s[..SignificandLength(s)], digits, tenpwr, started, seendot)
    ensures digits == SignificantDigits(s)[..KeptCount(s)] && |digits| == KeptCount(s)
    ensures DigitsVal(digits) == KeptDigitsVal(s)
    ensures var k := SignificandLength(s);
            tenpwr + (if k < |s| then ExponentValue(s[k + 1..], 5000) else 0) == TenPower(s)
  {}

  // No significant digit is kept exactly when the constant is zero.
  lemma KeptZero(s: string)
    ensures KeptDigitsVal(s) == 0 <==> Significand(s) == 0
  {
    var sig := SignificantDigits(s);
    StripZerosVal(AllDigits(s[..SignificandLength(s)]));
    if |sig| > 0 {
      LeadingDigit(sig);
      LeadingDigit(sig[..KeptCount(s)]);
    }
  }

  lemma LeadingDigit(d: seq<nat>)
    requires |d| > 0 && d[0] != 0
    ensures DigitsVal(d) > 0
  {}

  lemma IsConverted(s: string, m: nat, e: int, n: nat, f: real)
    requires n > 0 && (m == 0 <==> Significand(s) == 0)
    requires m == 0 || Normalised(m, n)
    requires f * Ten(TenPower(s)) == KeptValue(s)
    requires var k: nat := if TenPower(s) >= 0 then TenPower(s) else -TenPower(s);
             f * Ten(TenPower(s)) * RPow(Shrink(n), k + 1) <= Value(m, e, n)
             <= f * Ten(TenPower(s)) * RPow(Excess(TenPower(s), n), k)
    ensures Converted(s, m, e, n)
  {
    hide Ten, TenPower, KeptValue, RPow, Shrink, Excess, Value;
  }

  // For a power of ten that is not negative the conversion never overshoots.
  lemma NonNegativePowerBelow(s: string, m: nat, e: int, n: nat)
    requires n > 0 && Converted(s, m, e, n) && TenPower(s) >= 0
    ensures KeptValue(s) * RPow(Shrink(n), TenPower(s) + 1) <= Value(m, e, n) <= KeptValue(s) <= NumeralValue(s)
  {
    RPowOne(TenPower(s));
    KeptValueNear(s);
  }
}

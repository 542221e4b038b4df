// sdk/as/float.c: to_float on a decimal constant, from characters to bytes, and exactly
// when the bytes are the nearest value of the format.
module FloatConst {
  import opened Base
  import opened Powers
  import opened Limbs
  import opened FloatMultiply
  import opened FloatRound
  import opened FloatShift
  import opened FloatPack
  import FloatDigits
  import FloatParse
  import FloatConvert

  // ----- What the source packs -----

  // How far a denormal is shifted: -(exponent + expmax - 2 - fmt->exponent) + fmt->explicit.
  function DenormalShift(f: Format, e: int): int
    requires IsFormat(f)
  {
    -(e + ExpMax(f) - 2 - f.exponent) + f.explicitOne
  }

  // The denormal shift, if there is one, stays inside the source's array.
  predicate InArray(f: Format, e: int, n: nat)
    requires IsFormat(f)
  {
    e < 2 - ExpMax(f) ==> DenormalShift(f, e) >= 0 && Shiftable(DenormalShift(f, e), n)
  }

  // The datum that the bytes for mantissa m and (decremented) exponent e decode to.
  function Packed(f: Format, minus: bool, m: nat, e: int, n: nat): Datum
    requires IsFormat(f) && Bits(f) < 32 * n && Normalised(m, n)
  {
    var one := Pow2(f.mantissa);
    if 2 - ExpMax(f) <= e <= ExpMax(f) then
      var q := KeptBits(f, m, n, Lead(f));
      var field := e + ExpMax(f) - 1;
      if q != 2 * one then DecodeNat(f, minus, field, Trailing(f, q))
      else if field + 1 >= 2 * ExpMax(f) - 1 then Infinite(minus)
      else DecodeNat(f, minus, field + 1, Trailing(f, one))
    else if e > 0 then Infinite(minus)
    else DenormalDatum(f, minus, KeptBits(f, m, n, DenormalShift(f, e)))
  }

  // Rounding a denormal up to the integer bit makes it the smallest normal number.
  function DenormalDatum(f: Format, minus: bool, q: int): Datum
    requires IsFormat(f)
  {
    var one := Pow2(f.mantissa);
    if q == one then DecodeNat(f, minus, 1, Trailing(f, one)) else DecodeNat(f, minus, 0, q)
  }

  // DecodeFields on fields that are never negative.
  function DecodeNat(f: Format, minus: bool, field: int, trailing: int): Datum
    requires IsFormat(f)
  {
    if field < 0 || trailing < 0 then NaN else DecodeFields(f, minus, field, trailing)
  }

  // Packed is Nearest exactly when no bit that decides a tie was lost in the shift and,
  // at the one exponent too many that the range test lets through, the fraction is zero.
  ghost predicate PackedExactly(f: Format, m: nat, e: int, n: nat)
    requires IsFormat(f) && Bits(f) < 32 * n && Normalised(m, n)
  {
    var u, one := Unit(n, Bits(f)), Pow2(f.mantissa);
    if e > ExpMax(f) then true
    else if e == ExpMax(f) then KeptBits(f, m, n, Lead(f)) == one || KeptBits(f, m, n, Lead(f)) == 2 * one
    else if e >= 2 - ExpMax(f) then !LostTie(m, Pow2(Lead(f)), u)
    else !LostTie(m, Pow2(DenormalShift(f, e)), u)
  }

  // Shifting first and rounding once in the end, over the same number of dropped bits.
  lemma KeptIsNearest(f: Format, m: nat, n: nat, shift: nat)
    requires IsFormat(f) && Bits(f) < 32 * n && Lead(f) <= shift
    ensures 32 * n - 1 - f.mantissa + (shift - Lead(f)) >= 0
    ensures KeptBits(f, m, n, shift) == RoundHalfEven(m, Pow2(32 * n - 1 - f.mantissa + (shift - Lead(f))))
       <==> !LostTie(m, Pow2(shift), Unit(n, Bits(f)))
  {
    FieldPlaces(f, n);
    Pow2Add(shift, 32 * n - Bits(f));
    assert shift + (32 * n - Bits(f)) == 32 * n - 1 - f.mantissa + (shift - Lead(f));
    hide Pow2, Unit, LostTie, RoundHalfEven;
    ShiftThenRound(m, Pow2(shift), Unit(n, Bits(f)));
  }

  lemma DecodeNormal(f: Format, minus: bool, field: int, q: int)
    requires IsFormat(f) && Pow2(f.mantissa) <= q < 2 * Pow2(f.mantissa)
    requires 0 < field <= 2 * ExpMax(f) - 1
    ensures field < 2 * ExpMax(f) - 1 ==>
      DecodeNat(f, minus, field, Trailing(f, q)) == Finite(minus, q, field - (ExpMax(f) - 1) - f.mantissa)
    ensures field == 2 * ExpMax(f) - 1 ==>
      DecodeNat(f, minus, field, Trailing(f, q)) == if q == Pow2(f.mantissa) then Infinite(minus) else NaN
  {}

  lemma DecodeDenormal(f: Format, minus: bool, q: nat)
    requires IsFormat(f) && q < Pow2(f.mantissa)
    ensures DecodeNat(f, minus, 0, q) == Finite(minus, q, 2 - ExpMax(f) - f.mantissa)
  {}

  // A tie loses at most one unit.
  lemma KeptRange(f: Format, m: nat, n: nat, shift: nat)
    requires IsFormat(f) && Bits(f) < 32 * n && Normalised(m, n) && Lead(f) <= shift
    ensures var q, one := KeptBits(f, m, n, shift), Pow2(f.mantissa);
            one >= 4 && if shift == Lead(f) then one <= q <= 2 * one else 0 <= q <= one
  {
    hide *;
    RoundedBits(f, false, m, n, shift);
    FieldPlaces(f, n);
  }

  // The correctly rounded significand is within the same bounds.
  lemma NearestRange(m: nat, n: nat, drop: nat, one: nat)
    requires n > 0 && Normalised(m, n) && drop < 32 * n && one * Pow2(drop) == Pow2(32 * n - 1)
    ensures one <= RoundHalfEven(m, Pow2(drop)) <= 2 * one
  {
    MulAssoc(2, one, Pow2(drop));
    DivRange(m, one, 2 * one, Pow2(drop));
  }

  lemma NearestRangeLow(m: nat, n: nat, drop: nat, one: nat)
    requires n > 0 && Normalised(m, n) && Pow2(32 * n) <= one * Pow2(drop)
    ensures 0 <= RoundHalfEven(m, Pow2(drop)) <= one
  {
    BelowProduct(m, one, Pow2(drop));
  }

  lemma NearestBounds(f: Format, m: nat, n: nat, low: nat)
    requires IsFormat(f) && Bits(f) < 32 * n && Normalised(m, n)
    ensures var drop, one := 32 * n - 1 - f.mantissa + low, Pow2(f.mantissa);
            drop >= 0 && var sig := RoundHalfEven(m, Pow2(drop));
            if low == 0 then one <= sig <= 2 * one else 0 <= sig <= one
  {
    Pow2Add(f.mantissa, 32 * n - 1 - f.mantissa);
    if low == 0 {
      hide RoundHalfEven, Pow2;
      NearestRange(m, n, 32 * n - 1 - f.mantissa, Pow2(f.mantissa));
    } else {
      Pow2Add(f.mantissa, 32 * n - 1 - f.mantissa + low);
      Pow2Monotone(32 * n, 32 * n - 1 + low);
      hide RoundHalfEven, Pow2;
      NearestRangeLow(m, n, 32 * n - 1 - f.mantissa + low, Pow2(f.mantissa));
    }
  }

  // The main result for packing, for every normalised mantissa and every exponent.
  lemma PackedIsNearest(f: Format, minus: bool, m: nat, e: int, n: nat)
    requires IsFormat(f) && Bits(f) < 32 * n && Normalised(m, n)
    ensures Packed(f, minus, m, e, n) == Nearest(f, minus, m, e, n) <==> PackedExactly(f, m, e, n)
  {
    ExpMaxAtLeast(f);
    if e > ExpMax(f) {
      NearestBounds(f, m, n, 0);
    } else if e >= 2 - ExpMax(f) {
      NormalIsNearest(f, minus, m, e, n);
    } else {
      DenormalIsNearest(f, minus, m, e, n);
    }
  }

  lemma ExpMaxAtLeast(f: Format)
    requires IsFormat(f)
    ensures ExpMax(f) >= 2
  {}

  lemma NormalIsNearest(f: Format, minus: bool, m: nat, e: int, n: nat)
    requires IsFormat(f) && Bits(f) < 32 * n && Normalised(m, n) && 2 - ExpMax(f) <= e <= ExpMax(f)
    ensures Packed(f, minus, m, e, n) == Nearest(f, minus, m, e, n) <==> PackedExactly(f, m, e, n)
  {
    var one, q, field := Pow2(f.mantissa), KeptBits(f, m, n, Lead(f)), e + ExpMax(f) - 1;
    var sig := RoundHalfEven(m, Pow2(32 * n - 1 - f.mantissa + 0));
    ExpMaxAtLeast(f);
    LeadPlace(f, n);
    KeptRange(f, m, n, Lead(f));
    KeptIsNearest(f, m, n, Lead(f));
    NearestBounds(f, m, n, 0);
    TieBelowTwo(f, m, n);
    var packed := Packed(f, minus, m, e, n);
    var nearest := Nearest(f, minus, m, e, n);
    assert nearest == if sig == 2 * one then
                        if e + 1 >= ExpMax(f) then Infinite(minus) else Finite(minus, one, e + 1 - f.mantissa)
                      else if e >= ExpMax(f) then Infinite(minus) else Finite(minus, sig, e - f.mantissa);
    if q == 2 * one {
      if field + 1 < 2 * ExpMax(f) - 1 {
        DecodeNormal(f, minus, field + 1, one);
      }
    } else {
      DecodeNormal(f, minus, field, q);
    }
    hide *;
  }

  // A lost tie leaves an even quotient, so the lost unit cannot reach two ones.
  lemma TieBelowTwo(f: Format, m: nat, n: nat)
    requires IsFormat(f) && Bits(f) < 32 * n && Normalised(m, n)
    ensures LostTie(m, Pow2(Lead(f)), Unit(n, Bits(f))) ==>
      KeptBits(f, m, n, Lead(f)) + 1 < 2 * Pow2(f.mantissa) &&
      RoundHalfEven(m, Pow2(32 * n - 1 - f.mantissa + 0)) == KeptBits(f, m, n, Lead(f)) + 1
  {
    ShiftedRange(f, m, n);
    FieldPlaces(f, n);
    Pow2Add(Lead(f), 32 * n - Bits(f));
    assert Lead(f) + (32 * n - Bits(f)) == 32 * n - 1 - f.mantissa + 0;
    MantissaEven(f);
    KeptBitsRoom(f, m, n, Lead(f));
    hide *;
    LostUnit(m, Pow2(Lead(f)), Unit(n, Bits(f)));
    BelowEven(KeptBits(f, m, n, Lead(f)), m / Pow2(Lead(f)) / Unit(n, Bits(f)), Pow2(f.mantissa));
  }

  lemma MantissaEven(f: Format)
    requires IsFormat(f)
    ensures Pow2(f.mantissa) % 2 == 0
  {}

  lemma BelowEven(k: int, q: int, one: int)
    requires q < 2 * one
    ensures k == q && k % 2 == 0 ==> k + 1 < 2 * one
  {}

  lemma LostUnit(m: nat, d: nat, u: nat)
    requires d > 0 && u > 0 && u % 2 == 0
    ensures d * u > 0
    ensures LostTie(m, d, u) ==> RoundHalfEven(m, d * u) == RoundHalfEven(m / d, u) + 1 && RoundHalfEven(m / d, u) == m / d / u
  {
    DivDiv(m, d, u);
    CompareScaled(m / d % u, m % d, d, u / 2);
    assert u == 2 * (u / 2);
  }

  lemma DenormalIsNearest(f: Format, minus: bool, m: nat, e: int, n: nat)
    requires IsFormat(f) && Bits(f) < 32 * n && Normalised(m, n)
    requires e < 2 - ExpMax(f)
    ensures Packed(f, minus, m, e, n) == Nearest(f, minus, m, e, n) <==> PackedExactly(f, m, e, n)
  {
    var one, shift := Pow2(f.mantissa), DenormalShift(f, e);
    var low: nat := 2 - ExpMax(f) - e;
    ExpMaxAtLeast(f);
    assert shift == Lead(f) + low;
    var q := KeptBits(f, m, n, shift);
    KeptRange(f, m, n, shift);
    KeptIsNearest(f, m, n, shift);
    NearestBounds(f, m, n, low);
    LowNearest(f, minus, m, e, n, 32 * n - 1 - f.mantissa + low);
    LowExactly(f, m, e, n);
    PackedCases(f, minus, m, e, n);
    assert DenormalDatum(f, minus, q) == Finite(minus, q, 2 - ExpMax(f) - f.mantissa) by {
      if q == one {
        DecodeNormal(f, minus, 1, one);
      } else {
        DecodeDenormal(f, minus, q);
      }
      hide DecodeNat, Pow2;
    }
    hide *;
  }

  lemma LowNearest(f: Format, minus: bool, m: nat, e: int, n: nat, drop: nat)
    requires IsFormat(f) && n > 0 && f.mantissa < 32 * n && Normalised(m, n) && e < 2 - ExpMax(f)
    requires drop == 32 * n - 1 - f.mantissa + (2 - ExpMax(f) - e)
    ensures Nearest(f, minus, m, e, n) == Finite(minus, RoundHalfEven(m, Pow2(drop)), 2 - ExpMax(f) - f.mantissa)
  {
    hide RoundHalfEven, Pow2;
  }

  lemma LowExactly(f: Format, m: nat, e: int, n: nat)
    requires IsFormat(f) && Bits(f) < 32 * n && Normalised(m, n) && e < 2 - ExpMax(f) && ExpMax(f) >= 2
    ensures PackedExactly(f, m, e, n) <==> !LostTie(m, Pow2(DenormalShift(f, e)), Unit(n, Bits(f)))
  {
    hide LostTie, Pow2, Unit, KeptBits;
  }

  // When the bits shifted out are all zero nothing can be lost.
  lemma ExactShiftIsNearest(f: Format, minus: bool, m: nat, e: int, n: nat)
    requires IsFormat(f) && Bits(f) < 32 * n && Normalised(m, n)
    requires 2 - ExpMax(f) <= e < ExpMax(f) && m % Pow2(Lead(f)) == 0
    ensures Packed(f, minus, m, e, n) == Nearest(f, minus, m, e, n)
  {
    PackedIsNearest(f, minus, m, e, n);
  }

  // In every format some mantissa loses a tie: one, half a unit and one bit far below.
  lemma LostTieExists(f: Format, n: nat) returns (m: nat)
    requires IsFormat(f) && Bits(f) < 32 * n
    ensures Normalised(m, n) && LostTie(m, Pow2(Lead(f)), Unit(n, Bits(f)))
    ensures Packed(f, false, m, 0, n) != Nearest(f, false, m, 0, n)
  {
    var u, one, d := Unit(n, Bits(f)), Pow2(f.mantissa), Pow2(Lead(f));
    m := (one * u + u / 2) * d + 1;
    ExpMaxAtLeast(f);
    FieldPlaces(f, n);
    OneBits(f);
    Pow2Add(32 * n - 1 - Lead(f), Lead(f));
    Pow2Monotone(1, Lead(f));
    assert Pow2(1) == 2;
    assert Pow2(32 * n - 1) == one * u * d;
    assert Weight(n) == 2 * Pow2(32 * n - 1);
    TiedMantissa(one, u, d, m);
    PackedIsNearest(f, false, m, 0, n);
  }

  lemma TiedMantissa(one: nat, u: nat, d: nat, m: nat)
    requires one >= 4 && one % 2 == 0 && u > 0 && u % 2 == 0 && d >= 2 && m == (one * u + u / 2) * d + 1
    ensures one * u * d <= m < 2 * (one * u * d)
    ensures m % d == 1 && m / d == one * u + u / 2
    ensures m / d / u == one && m / d % u == u / 2
  {
    DivModUnique(m, d, one * u + u / 2, 1);
    DivModUnique(one * u + u / 2, u, one, u / 2);
    MulMonotone(1, one, u);
    MulDistrib(one * u, u / 2, d);
    MulMonotone(u / 2 + 1, one * u, d);
    MulDistrib(u / 2, 1, d);
  }

  // In every format the first exponent past the range turns a fraction into a NaN where
  // the nearest value is infinity.
  lemma TopExponentWrong(f: Format, n: nat) returns (m: nat)
    requires IsFormat(f) && Bits(f) < 32 * n
    ensures Normalised(m, n)
    ensures Packed(f, false, m, ExpMax(f), n) == NaN && Nearest(f, false, m, ExpMax(f), n) == Infinite(false)
  {
    hide *;
    var u, one, d := Unit(n, Bits(f)), Pow2(f.mantissa), Pow2(Lead(f));
    m := (one + 1) * u * d;
    TopPlaces(f, n);
    OneUnitMore(one, u, d, m);
    NormalisedBetween(m, n);
    KeptIs(f, m, n, Lead(f));
    TopPacked(f, m, n, one);
    TopNearest(f, m, n);
  }

  lemma TopPlaces(f: Format, n: nat)
    requires IsFormat(f) && Bits(f) < 32 * n
    ensures n > 0 && Pow2(f.mantissa) >= 4 && Pow2(32 * n - 1) == Pow2(f.mantissa) * Unit(n, Bits(f)) * Pow2(Lead(f))
  {
    FieldPlaces(f, n);
    Pow2Add(32 * n - 1 - Lead(f), Lead(f));
    hide Pow2, Unit;
  }

  lemma KeptIs(f: Format, m: nat, n: nat, shift: nat)
    requires IsFormat(f) && Bits(f) < 32 * n
    ensures KeptBits(f, m, n, shift) == RoundHalfEven(m / Pow2(shift), Unit(n, Bits(f)))
  {}

  lemma NormalisedBetween(m: nat, n: nat)
    requires n > 0
    ensures Normalised(m, n) <==> Pow2(32 * n - 1) <= m < 2 * Pow2(32 * n - 1)
  {}

  lemma TopPacked(f: Format, m: nat, n: nat, one: nat)
    requires IsFormat(f) && Bits(f) < 32 * n && Normalised(m, n) && one == Pow2(f.mantissa)
    requires KeptBits(f, m, n, Lead(f)) == one + 1
    ensures Packed(f, false, m, ExpMax(f), n) == NaN
  {
    ExpMaxAtLeast(f);
    DecodeNormal(f, false, 2 * ExpMax(f) - 1, one + 1);
    hide DecodeNat, Trailing, KeptBits, Pow2, ExpMax, Normalised, RoundHalfEven;
    assert one >= 1;
  }

  lemma TopNearest(f: Format, m: nat, n: nat)
    requires IsFormat(f) && Bits(f) < 32 * n && Normalised(m, n)
    ensures Nearest(f, false, m, ExpMax(f), n) == Infinite(false)
  {
    ExpMaxAtLeast(f);
    NearestBounds(f, m, n, 0);
    hide Pow2, ExpMax, Normalised, RoundHalfEven;
  }

  lemma OneUnitMore(one: nat, u: nat, d: nat, m: nat)
    requires one >= 4 && u > 0 && d > 0 && m == (one + 1) * u * d
    ensures one * u * d <= m < 2 * (one * u * d)
    ensures m / d == (one + 1) * u && RoundHalfEven(m / d, u) == one + 1
  {
    DivModUnique(m, d, (one + 1) * u, 0);
    DivModUnique((one + 1) * u, u, one + 1, 0);
    MulDistrib(one, 1, u);
    MulDistrib(one * u, u, d);
    MulMonotone(1, u, d);
    MulMonotone(2, one, u);
    MulMonotone(2 * u, one * u, d);
    MulAssoc(2, u, d);
  }

  // ----- to_float -----

  // The case FL_NORMAL.
  method PackFloatNormal(f: Format, minus: bool, mant: array<Limb>, e: int, result: array<Byte>)
    requires IsFormat(f) && Bits(f) < 32 * mant.Length && f.bytes <= result.Length && result as object != mant
    requires Normalised(Val(mant[..]), mant.Length) && 2 - ExpMax(f) <= e <= ExpMax(f)
    modifies mant, result
    ensures Decode(f, BytesVal(result[..f.bytes])) == Packed(f, minus, old(Val(mant[..])), e, mant.Length)
  {
    hide *;
    ghost var n, m := mant.Length, Val(mant[..]);
    var overflow, field := PackNormal(f, minus, mant, e);
    if overflow {
      OverflowDatum(f, minus, m, e, n, field, Val(mant[..]));
      PackInfinite(f, minus, mant, result);
    } else {
      ghost var trailing := NormalFields(f, minus, m, e, n, field, Val(mant[..]));
      DecodeWord(f, minus, field, trailing);
      Finish(f, minus, mant, field, trailing, result);
    }
  }

  // The case FL_DENORMAL.
  method PackFloatDenormal(f: Format, minus: bool, mant: array<Limb>, shift: nat, result: array<Byte>)
    requires IsFormat(f) && Bits(f) < 32 * mant.Length && f.bytes <= result.Length && result as object != mant
    requires Normalised(Val(mant[..]), mant.Length) && Lead(f) < shift && Shiftable(shift, mant.Length)
    modifies mant, result
    ensures Decode(f, BytesVal(result[..f.bytes])) == DenormalDatum(f, minus, KeptBits(f, old(Val(mant[..])), mant.Length, shift))
  {
    hide *;
    ghost var n, m := mant.Length, Val(mant[..]);
    PackDenormal(f, minus, mant, shift);
    ghost var field, trailing := DenormalFields(f, minus, m, n, shift, Val(mant[..]));
    DecodeWord(f, minus, field, trailing);
    Finish(f, minus, mant, field, trailing, result);
  }

  // The bytes written for mantissa m, of which the exponent has been decremented to e.
  method PackFloat(f: Format, minus: bool, mant: array<Limb>, e: int, result: array<Byte>)
    requires IsFormat(f) && Bits(f) < 32 * mant.Length && f.bytes <= result.Length && result as object != mant
    requires Normalised(Val(mant[..]), mant.Length)
    requires InArray(f, e, mant.Length)
    modifies mant, result
    ensures Decode(f, BytesVal(result[..f.bytes])) == Packed(f, minus, old(Val(mant[..])), e, mant.Length)
  {
    hide *;
    ghost var m := Val(mant[..]);
    PackedCases(f, minus, m, e, mant.Length);
    var expmax: int := Pow2(f.exponent - 1);
    if 2 - expmax <= e <= expmax {
      PackFloatNormal(f, minus, mant, e, result);
    } else if e > 0 {
      PackInfinite(f, minus, mant, result);
    } else {
      var shift := -(e + expmax - 2 - f.exponent) + f.explicitOne;
      assert shift == DenormalShift(f, e);
      PackFloatDenormal(f, minus, mant, shift, result);
    }
  }

  method PackInfinite(f: Format, minus: bool, mant: array<Limb>, result: array<Byte>)
    requires IsFormat(f) && Bits(f) < 32 * mant.Length && f.bytes <= result.Length && result as object != mant
    modifies mant, result
    ensures Decode(f, BytesVal(result[..f.bytes])) == Infinite(minus)
  {
    hide *;
    PackSpecial(f, mant, false);
    SpecialDatum(f, minus);
    Finish(f, minus, mant, Pow2(f.exponent) - 1, SpecialTrailing(f, false), result);
  }

  lemma SpecialDatum(f: Format, minus: bool)
    requires IsFormat(f)
    ensures Pow2(f.exponent) - 1 >= 0
    ensures Decode(f, Word(f, minus, Pow2(f.exponent) - 1, SpecialTrailing(f, false))) == Infinite(minus)
    ensures Decode(f, Word(f, minus, Pow2(f.exponent) - 1, SpecialTrailing(f, true))) == NaN
  {
    SpecialBits(f);
    assert SpecialTrailing(f, false) <= SpecialTrailing(f, true);
    DecodeWord(f, minus, Pow2(f.exponent) - 1, SpecialTrailing(f, false));
    DecodeWord(f, minus, Pow2(f.exponent) - 1, SpecialTrailing(f, true));
  }

  lemma PackedCases(f: Format, minus: bool, m: nat, e: int, n: nat)
    requires IsFormat(f) && Bits(f) < 32 * n && Normalised(m, n)
    ensures f.exponent > 0 && ExpMax(f) == Pow2(f.exponent - 1) >= 2
    ensures e < 2 - ExpMax(f) ==> DenormalShift(f, e) == -(e + ExpMax(f) - 2 - f.exponent) + f.explicitOne
    ensures e < 2 - ExpMax(f) ==> Lead(f) < DenormalShift(f, e) && (InArray(f, e, n) ==> Shiftable(DenormalShift(f, e), n))
    ensures e < 2 - ExpMax(f) ==> Packed(f, minus, m, e, n) == DenormalDatum(f, minus, KeptBits(f, m, n, DenormalShift(f, e)))
    ensures e > ExpMax(f) ==> Packed(f, minus, m, e, n) == Infinite(minus)
  {}

  lemma OverflowDatum(f: Format, minus: bool, m: nat, e: int, n: nat, field: int, v: nat)
    requires IsFormat(f) && Bits(f) < 32 * n && Normalised(m, n) && 2 - ExpMax(f) <= e <= ExpMax(f)
    requires PackedNormal(f, m, n, e, true, field, v)
    ensures Packed(f, minus, m, e, n) == Infinite(minus)
  {}

  lemma NormalFields(f: Format, minus: bool, m: nat, e: int, n: nat, field: int, v: nat) returns (trailing: nat)
    requires IsFormat(f) && Bits(f) < 32 * n && Normalised(m, n) && 2 - ExpMax(f) <= e <= ExpMax(f)
    requires PackedNormal(f, m, n, e, false, field, v)
    ensures 0 <= field < Pow2(f.exponent) && trailing < Pow2(TrailingBits(f))
    ensures PackedFields(f, n, field, trailing, v)
    ensures Packed(f, minus, m, e, n) == DecodeFields(f, minus, field, trailing)
  {
    var one, q0 := Pow2(f.mantissa), KeptBits(f, m, n, Lead(f));
    var q := if q0 == 2 * one then one else q0;
    LeadPlace(f, n);
    KeptRange(f, m, n, Lead(f));
    DropPlaces(f, n, q);
    ExpMaxAtLeast(f);
    trailing := Trailing(f, q);
    hide KeptBits, Normalised, PackedFields, DecodeFields, Trailing;
  }

  lemma DenormalFields(f: Format, minus: bool, m: nat, n: nat, shift: nat, v: nat) returns (field: nat, trailing: nat)
    requires IsFormat(f) && Bits(f) < 32 * n && Normalised(m, n) && Lead(f) < shift
    requires PackedDenormal(f, m, n, shift, v)
    ensures field < Pow2(f.exponent) && trailing < Pow2(TrailingBits(f))
    ensures PackedFields(f, n, field, trailing, v)
    ensures DecodeFields(f, minus, field, trailing) == DenormalDatum(f, minus, KeptBits(f, m, n, shift))
  {
    var q := KeptBits(f, m, n, shift);
    KeptRange(f, m, n, shift);
    OneBits(f);
    if q == Pow2(f.mantissa) {
      field, trailing := 1, Trailing(f, q);
    } else {
      field, trailing := 0, q;
    }
  }

  // The outcome of a conversion: an invalid constant is a NaN, zero keeps its sign, and a
  // converted mantissa is packed. The source reads outside its array when a denormal is
  // shifted by more than the whole mantissa and not by whole limbs; that case is reported
  // and not modelled.
  datatype Outcome = Bad | Zero | Shifted(m: nat, e: int) | TooSmall

  ghost predicate ReadsOutside(f: Format, s: string, m: nat, e: int, n: nat)
    requires IsFormat(f) && n > 0
  {
    Normalised(m, n) && FloatConvert.Converted(s, m, e + 1, n) && !InArray(f, e, n)
  }

  ghost predicate IsOutcome(f: Format, s: string, n: nat, o: Outcome)
    requires IsFormat(f) && n > 0
  {
    match o
    case Bad => !FloatParse.ValidNumeral(s)
    case Zero => FloatParse.ValidNumeral(s) && FloatParse.Significand(s) == 0
    case Shifted(m, e) => FloatParse.ValidNumeral(s) && Normalised(m, n) && FloatConvert.Converted(s, m, e + 1, n) && InArray(f, e, n)
    case TooSmall => FloatParse.ValidNumeral(s) && exists m: nat, e :: ReadsOutside(f, s, m, e, n)
  }

  ghost function OutcomeDatum(f: Format, minus: bool, n: nat, o: Outcome): Datum
    requires IsFormat(f) && Bits(f) < 32 * n && !o.TooSmall?
    requires o.Shifted? ==> Normalised(o.m, n)
  {
    match o
    case Bad => NaN
    case Zero => Finite(minus, 0, 2 - ExpMax(f) - f.mantissa)
    case Shifted(m, e) => Packed(f, minus, m, e, n)
  }

  // The text that to_float converts as decimal: a leading 0d, 0D, 0t or 0T is dropped. None
  // for the other radixes, packed decimals, special tokens and the empty text.
  function DecimalText(str: string): Option<string> {
    if str == [] || str[|str| - 1] in "pP" || str[0] == '_' || str[0] == '$' then None
    else if str[0] == '0' && |str| > 1 then
      if str[1] in "xXhHoOqQbByYpP" then None else if str[1] in "dDtT" then Some(str[2..]) else Some(str)
    else Some(str)
  }

  // to_float for decimal constants under rounding to nearest, denormals kept.
  method ToFloat(f: Format, str: string, minus: bool, mant: array<Limb>, result: array<Byte>) returns (ghost o: Outcome, done: bool)
    requires IsFormat(f) && Bits(f) < 32 * mant.Length && mant.Length < 0x4000_0000
    requires f.bytes <= result.Length && result as object != mant && DecimalText(str).Some?
    modifies mant, result
    ensures IsOutcome(f, DecimalText(str).value, mant.Length, o) && (done <==> !o.TooSmall?)
    ensures done ==> Decode(f, BytesVal(result[..f.bytes])) == OutcomeDatum(f, minus, mant.Length, o)
  {
    var s := DecimalText(str).value;
    hide *;
    ghost var n := mant.Length;
    var ok, exponent := FloatConvert.IeeeFlconvert(s, mant);
    if !ok {
      o, done := Bad, true;
      PackSpecial(f, mant, true);
      SpecialDatum(f, minus);
      Finish(f, minus, mant, Pow2(f.exponent) - 1, SpecialTrailing(f, true), result);
      BadOutcome(f, s, minus, n);
    } else {
      ConvertedCases(s, mant[..], exponent);
      if mant[0] >= TOP_BIT {
        var e := exponent - 1;
        ShiftedOutcome(f, s, minus, n, Val(mant[..]), e);
        var expmax: int := Pow2(f.exponent - 1);
        var shift := -(e + expmax - 2 - f.exponent) + f.explicitOne;
        if e < 2 - expmax && shift >= 32 * mant.Length && shift % 32 != 0 {
          o, done := TooSmall, false;
        } else {
          o, done := Shifted(Val(mant[..]), e), true;
          PackFloat(f, minus, mant, e, result);
        }
      } else {
        o, done := Zero, true;
        FloatDigits.ClearMantissa(mant);
        ZeroOutcome(f, s, minus, n, mant[..]);
        Finish(f, minus, mant, 0, 0, result);
      }
    }
  }

  lemma ConvertedCases(s: string, m: seq<nat>, e: int)
    requires |m| > 0 && IsLimbs(m) && FloatConvert.Converted(s, Val(m), e, |m|)
    ensures m[0] >= TOP_BIT ==> Normalised(Val(m), |m|)
    ensures m[0] < TOP_BIT ==> FloatParse.Significand(s) == 0
  {
    TopBit(m);
    ValBound(m);
  }

  lemma BadOutcome(f: Format, s: string, minus: bool, n: nat)
    requires IsFormat(f) && Bits(f) < 32 * n && !FloatParse.ValidNumeral(s)
    ensures IsOutcome(f, s, n, Bad) && OutcomeDatum(f, minus, n, Bad) == NaN
  {}

  lemma ShiftedOutcome(f: Format, s: string, minus: bool, n: nat, m: nat, e: int)
    requires IsFormat(f) && Bits(f) < 32 * n && FloatParse.ValidNumeral(s)
    requires Normalised(m, n) && FloatConvert.Converted(s, m, e + 1, n)
    ensures f.exponent > 0 && ExpMax(f) == Pow2(f.exponent - 1)
    ensures DenormalShift(f, e) == -(e + ExpMax(f) - 2 - f.exponent) + f.explicitOne
    ensures InArray(f, e, n) <==> !(e < 2 - ExpMax(f) && DenormalShift(f, e) >= 32 * n && DenormalShift(f, e) % 32 != 0)
    ensures !InArray(f, e, n) ==> IsOutcome(f, s, n, TooSmall)
    ensures InArray(f, e, n) ==>
      IsOutcome(f, s, n, Shifted(m, e)) && OutcomeDatum(f, minus, n, Shifted(m, e)) == Packed(f, minus, m, e, n)
  {
    if !InArray(f, e, n) {
      assert ReadsOutside(f, s, m, e, n);
    }
  }

  lemma ZeroOutcome(f: Format, s: string, minus: bool, n: nat, m: seq<nat>)
    requires IsFormat(f) && Bits(f) < 32 * n && FloatParse.ValidNumeral(s) && FloatParse.Significand(s) == 0
    requires forall i :: 0 <= i < |m| ==> m[i] == 0
    ensures IsOutcome(f, s, n, Zero)
    ensures PackedFields(f, n, 0, 0, Val(m))
    ensures Decode(f, Word(f, minus, 0, 0)) == OutcomeDatum(f, minus, n, Zero)
  {
    ValZeros(m);
    DivModUnique(0, Unit(n, Bits(f)), 0, 0);
    OneBits(f);
    DecodeWord(f, minus, 0, 0);
  }
}

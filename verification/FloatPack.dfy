// sdk/as/float.c: to_float, packing a mantissa and a binary exponent into the bytes of an
// IEEE format, against the decoding of IEEE 754-2008, section 3.4, and the rounding of
// section 4.3.1.
module FloatPack {
  import opened Base
  import opened Powers
  import opened Limbs
  import opened FloatMultiply
  import opened FloatShift
  import opened FloatRound
  import FloatDigits

  // struct ieee_format: bytes, fraction bits, explicit integer bit (0 or 1), exponent bits.
  datatype Format = Format(bytes: nat, mantissa: nat, explicitOne: nat, exponent: nat)

  const IEEE_8 := Format(1, 3, 0, 4)
  const IEEE_16 := Format(2, 10, 0, 5)
  const IEEE_32 := Format(4, 23, 0, 8)
  const IEEE_64 := Format(8, 52, 0, 11)
  const IEEE_80 := Format(10, 63, 1, 15)
  const IEEE_128 := Format(16, 112, 0, 15)

  // The layout the source assumes: sign, exponent, integer bit if present, fraction; sign
  // and exponent fit in 16 bits.
  predicate IsFormat(f: Format) {
    f.explicitOne <= 1 && 2 <= f.exponent <= 15 && f.mantissa >= 2 &&
    8 * f.bytes == 1 + f.exponent + f.explicitOne + f.mantissa
  }

  lemma SourceFormats()
    ensures IsFormat(IEEE_8) && IsFormat(IEEE_16) && IsFormat(IEEE_32)
    ensures IsFormat(IEEE_64) && IsFormat(IEEE_80) && IsFormat(IEEE_128)
  {}

  function Bits(f: Format): nat { 8 * f.bytes }

  // Bits below the exponent field.
  function TrailingBits(f: Format): nat { f.mantissa + f.explicitOne }

  // The source's expmax; the exponent bias is expmax - 1.
  function ExpMax(f: Format): (e: nat)
    requires f.exponent > 0
    ensures e >= 1 && Pow2(f.exponent) == 2 * e
  {
    Pow2(f.exponent - 1)
  }

  // Where the integer bit goes: the number of bits the mantissa is shifted down.
  function Lead(f: Format): nat { f.exponent + f.explicitOne }

  // ----- Decoding (IEEE 754-2008, section 3.4) -----

  // A finite value is sig * 2^exp.
  datatype Datum = Finite(negative: bool, sig: nat, exp: int) | Infinite(negative: bool) | NaN

  function DecodeFields(f: Format, negative: bool, field: nat, trailing: nat): Datum
    requires IsFormat(f)
  {
    var one := Pow2(f.mantissa);
    if field == Pow2(f.exponent) - 1 then
      if trailing == (if f.explicitOne == 1 then one else 0) then Infinite(negative) else NaN
    else if field == 0 then
      Finite(negative, trailing, 2 - ExpMax(f) - f.mantissa)
    else
      Finite(negative, trailing + (if f.explicitOne == 1 then 0 else one), field - (ExpMax(f) - 1) - f.mantissa)
  }

  function Decode(f: Format, word: nat): Datum
    requires IsFormat(f)
  {
    var t := Pow2(TrailingBits(f));
    DecodeFields(f, word / Pow2(Bits(f) - 1) % 2 == 1, word / t % Pow2(f.exponent), word % t)
  }

  // The word with given fields.
  function Word(f: Format, negative: bool, field: nat, trailing: nat): nat
    requires IsFormat(f)
  {
    (if negative then Pow2(Bits(f) - 1) else 0) + field * Pow2(TrailingBits(f)) + trailing
  }

  lemma DecodeWord(f: Format, negative: bool, field: nat, trailing: nat)
    requires IsFormat(f) && field < Pow2(f.exponent) && trailing < Pow2(TrailingBits(f))
    ensures Decode(f, Word(f, negative, field, trailing)) == DecodeFields(f, negative, field, trailing)
  {
    assert Bits(f) - 1 == f.exponent + TrailingBits(f);
    hide Pow2, DecodeFields;
    Pow2Add(f.exponent, TrailingBits(f));
    WordFields(Word(f, negative, field, trailing), negative, field, trailing, Pow2(Bits(f) - 1), Pow2(f.exponent), Pow2(TrailingBits(f)));
  }

  lemma WordFields(w: nat, negative: bool, field: nat, trailing: nat, top: nat, e: nat, t: nat)
    requires field < e && trailing < t && top == e * t && w == (if negative then top else 0) + field * t + trailing
    ensures top > 0 && t > 0 && (w / top % 2 == 1) == negative && w / t % e == field && w % t == trailing
  {
    SplitWord(if negative then 1 else 0, field, trailing, e, t);
  }

  lemma SplitWord(s: nat, field: nat, trailing: nat, e: nat, t: nat)
    requires s < 2 && field < e && trailing < t
    ensures e * t > 0
    ensures var w := s * (e * t) + field * t + trailing;
            w / (e * t) % 2 == s && w / t % e == field && w % t == trailing
  {
    var w := s * (e * t) + field * t + trailing;
    MulMonotone(1, e, t);
    MulAssoc(s, e, t);
    MulDistrib(s * e, field, t);
    DivModUnique(w, t, s * e + field, trailing);
    DivModUnique(s * e + field, e, s, field);
    MulMonotone(field + 1, e, t);
    MulDistrib(field, 1, t);
    DivModUnique(w, e * t, s, field * t + trailing);
  }

  // ----- The value to be packed -----

  // m is a normalised mantissa of n limbs, standing for m * 2^(e - (32n - 1)).
  // IEEE 754-2008, sections 4.3.1 and 7.4: the nearest value of the format, infinity once
  // the rounded exponent is out of range, a denormal below the smallest normal exponent.
  function Nearest(f: Format, negative: bool, m: nat, e: int, n: nat): Datum
    requires IsFormat(f) && n > 0 && f.mantissa < 32 * n && Normalised(m, n)
  {
    var emin := 2 - ExpMax(f);
    var low: nat := if e >= emin then 0 else emin - e;
    var sig := RoundHalfEven(m, Pow2(32 * n - 1 - f.mantissa + low));
    if e < emin then Finite(negative, sig, emin - f.mantissa)
    else if sig == 2 * Pow2(f.mantissa) then
      if e + 1 >= ExpMax(f) then Infinite(negative) else Finite(negative, Pow2(f.mantissa), e + 1 - f.mantissa)
    else if e >= ExpMax(f) then Infinite(negative) else Finite(negative, sig, e - f.mantissa)
  }

  // ----- Shifting before rounding -----

  // The shift drops nonzero bits of what then looks like a tie to the even side: the only
  // case where rounding after the shift differs from rounding the whole mantissa.
  ghost predicate LostTie(m: nat, d: nat, u: nat)
    requires d > 0 && u > 0
  {
    m % d != 0 && 2 * (m / d % u) == u && m / d / u % 2 == 0
  }

  lemma CompareScaled(r: nat, t: nat, d: nat, h: nat)
    requires t < d
    ensures 2 * (r * d + t) > d * (2 * h) <==> r > h || (r == h && t > 0)
    ensures 2 * (r * d + t) == d * (2 * h) <==> r == h && t == 0
  {
    assert d * (2 * h) == 2 * (h * d);
    if r > h {
      MulMonotone(h + 1, r, d);
      MulDistrib(h, 1, d);
    } else if r < h {
      MulMonotone(r + 1, h, d);
      MulDistrib(r, 1, d);
    }
  }

  lemma ShiftThenRound(m: nat, d: nat, u: nat)
    requires d > 0 && u > 0 && u % 2 == 0
    ensures d * u > 0
    ensures RoundHalfEven(m / d, u) == RoundHalfEven(m, d * u) <==> !LostTie(m, d, u)
  {
    DivDiv(m, d, u);
    CompareScaled(m / d % u, m % d, d, u / 2);
    assert u == 2 * (u / 2);
  }

  // ----- Where the fields are in the mantissa -----

  lemma FieldPlaces(f: Format, n: nat)
    requires IsFormat(f) && Bits(f) < 32 * n
    ensures var u, one := Unit(n, Bits(f)), Pow2(f.mantissa);
            u % 2 == 0 && one >= 4 &&
            Pow2(32 * n - 1 - Lead(f)) == one * u && Pow2(32 * n - Lead(f)) == 2 * one * u &&
            Pow2(32 * n - 1 - f.exponent) == Pow2(TrailingBits(f)) * u &&
            Pow2(32 * n - 1) == Pow2(Bits(f) - 1) * u &&
            Pow2(TrailingBits(f)) == (if f.explicitOne == 1 then 2 * one else one) &&
            4 * one <= Pow2(Bits(f) - 1)
  {
    var k := 32 * n - Bits(f);
    Pow2Add(f.mantissa, k);
    Pow2Add(f.mantissa + 1, k);
    Pow2Add(TrailingBits(f), k);
    Pow2Add(Bits(f) - 1, k);
    Pow2Monotone(f.mantissa + 2, Bits(f) - 1);
    Pow2Monotone(2, f.mantissa);
    assert Pow2(2) == 4;
    assert Pow2(f.mantissa + 1) == 2 * Pow2(f.mantissa);
    assert Pow2(f.mantissa + 2) == 2 * Pow2(f.mantissa + 1);
  }

  lemma DivRange(m: nat, a: nat, b: nat, d: nat)
    requires d > 0 && a * d <= m < b * d
    ensures a <= m / d < b
  {
    var q := m / d;
    assert m == q * d + m % d;
    if q < a {
      MulMonotone(q + 1, a, d);
      MulDistrib(q, 1, d);
    }
    QuotientBelow(q, b, d);
  }

  // The shifted mantissa: its quotient by a unit is between one and two ones shifted down
  // by low, which is zero on the normal path.
  lemma ShiftedRange(f: Format, m: nat, n: nat)
    requires IsFormat(f) && Bits(f) < 32 * n && Normalised(m, n)
    ensures var v, u, one := m / Pow2(Lead(f)), Unit(n, Bits(f)), Pow2(f.mantissa);
            0 <= v < Weight(n) && one <= v / u < 2 * one
  {
    var N, s := 32 * n, Lead(f);
    FieldPlaces(f, n);
    Pow2Add(N - 1 - s, s);
    Pow2Add(N - s, s);
    Pow2Monotone(N - s, N);
    hide Pow2, Unit;
    DivRange(m, Pow2(N - 1 - s), Pow2(N - s), Pow2(s));
    DivRange(m / Pow2(s), Pow2(f.mantissa), 2 * Pow2(f.mantissa), Unit(n, Bits(f)));
  }

  lemma ShiftedRangeLow(f: Format, m: nat, n: nat, shift: nat)
    requires IsFormat(f) && Bits(f) < 32 * n && Normalised(m, n) && Lead(f) < shift
    ensures var v, u, one := m / Pow2(shift), Unit(n, Bits(f)), Pow2(f.mantissa);
            0 <= v < Weight(n) && 0 <= v / u < one
  {
    hide *;
    NormalisedBelow(m, n);
    FieldPlaces(f, n);
    LeadRoom(f, n);
    if shift >= 32 * n {
      Pow2Monotone(32 * n, shift);
      BelowWeight(m, Pow2(32 * n), Pow2(shift));
      NothingLeft(Unit(n, Bits(f)), Weight(n), Pow2(f.mantissa));
      return;
    }
    Pow2Add(32 * n - shift, shift);
    assert 32 * n - shift + shift == 32 * n;
    Pow2Monotone(32 * n - shift, 32 * n - 1 - Lead(f));
    Pow2Monotone(32 * n - shift, 32 * n);
    TwoQuotients(m, Pow2(32 * n - shift), Pow2(shift), Pow2(f.mantissa), Unit(n, Bits(f)));
  }

  lemma NothingLeft(u: int, w: int, one: int)
    requires u > 0
    ensures 0 / u == 0
  {}

  lemma NormalisedBelow(m: nat, n: nat)
    requires n > 0 && Normalised(m, n)
    ensures m < Pow2(32 * n) == Weight(n)
  {}

  lemma LeadRoom(f: Format, n: nat)
    requires IsFormat(f) && Bits(f) < 32 * n
    ensures Lead(f) < 32 * n - 1
  {}

  lemma TwoQuotients(m: nat, a: nat, p: nat, one: nat, u: nat)
    requires p > 0 && u > 0 && m < a * p && a <= one * u
    ensures 0 <= m / p < a && 0 <= m / p / u < one
  {}

  // Rounding that does not run out of the top: a multiple of the unit, or the old value
  // with at most its half bit left.
  lemma RoundedValue(minus: bool, v: nat, n: nat, bits: nat)
    requires 0 < bits < 32 * n && v < Weight(n) && v / Unit(n, bits) + 1 < Pow2(bits)
    ensures var q, u := RoundHalfEven(v, Unit(n, bits)), Unit(n, bits);
            var r := Rounded(Near, minus, v, n, bits);
            v / u <= q <= v / u + 1 && 0 <= r - q * u < u && (q == v / u + 1 ==> r == q * u)
  {
    var h, u := Half(n, bits), Unit(n, bits);
    var up := RoundsUp(Near, minus, v, h);
    RoundedIs(minus, v, n, bits);
    hide *;
    FloatRound.QuotientFits(v, n, bits);
    NearQuotient(minus, v, h);
    RoundedNumber(v / u, up, v / h % 2 * h, u, Pow2(bits), Weight(n), Rounded(Near, minus, v, n, bits));
  }

  lemma RoundedIs(minus: bool, v: nat, n: nat, bits: nat)
    requires 0 < bits < 32 * n
    ensures Half(n, bits) > 0 && Unit(n, bits) > 0
    ensures var h := Half(n, bits);
            Rounded(Near, minus, v, n, bits) ==
              if !RoundsUp(Near, minus, v, h) then v - v % h
              else if v - v % h + h < Weight(n) then v - v % h + h else v - v % h + h - Weight(n)
  {
    hide RoundsUp, Weight;
  }

  lemma RoundedNumber(q: nat, up: bool, c: nat, u: nat, top: nat, w: nat, r: int)
    requires q + 1 < top && w == top * u && c < u
    requires r == if !up then q * u + c else if q * u + u < w then q * u + u else q * u + u - w
    ensures r == if up then (q + 1) * u else q * u + c
  {
    MulDistrib(q, 1, u);
    MulMonotone(q + 2, top, u);
    MulDistrib(q, 2, u);
  }

  // ----- Single bits in place -----

  lemma BitInLimb(x: nat, d: nat, e: nat)
    requires x < BASE && d > 0 && e > 0 && 2 * d * e == BASE
    ensures x / d % 2 == 1 ==> d <= x
    ensures x / d % 2 == 0 ==> x + d < BASE
  {
    var q := x / d;
    assert x == q * d + x % d;
    assert 2 * e * d == BASE by { MulAssoc(2, e, d); MulAssoc(2, d, e); }
    QuotientBelow(q, 2 * e, d);
    if q % 2 == 1 {
      MulMonotone(1, q, d);
    } else {
      MulMonotone(q + 2, 2 * e, d);
      MulDistrib(q, 2, d);
    }
  }

  // The bit of weight d in x.
  function BitOf(x: nat, d: nat): int
    requires d > 0
  {
    x / d % 2
  }

  // A bit is the same seen in its limb and in the number; it can be taken away when it is
  // set and put in when it is clear.
  lemma BitTest(s: seq<nat>, b: nat)
    requires IsLimbs(s) && b < 32 * |s|
    ensures TestBit(s, b) == BitOf(Val(s), Half(|s|, b))
    ensures TestBit(s, b) == 0 || TestBit(s, b) == 1
    ensures TestBit(s, b) == 1 ==> Pow2(31 - b % 32) <= s[b / 32]
    ensures TestBit(s, b) == 0 ==> s[b / 32] + Pow2(31 - b % 32) < BASE
  {
    hide Val, Half, Pow2;
    TestBitMeaning(s, b);
    LimbBitSplit(b % 32);
    BitInLimb(s[b / 32], Pow2(31 - b % 32), Pow2(b % 32));
  }

  lemma BitVal(s: seq<nat>, b: nat)
    requires b < 32 * |s|
    ensures var i, d, h := b / 32, Pow2(31 - b % 32), Half(|s|, b);
            (s[i] >= d ==> Val(s[i := s[i] - d]) == Val(s) - h) &&
            Val(s[i := s[i] + d]) == Val(s) + h
  {
    hide *;
    var i, d := b / 32, Pow2(31 - b % 32);
    BitWeight(|s|, b);
    LimbChange(s, i, s[i] + d, d);
    if s[i] >= d {
      LimbChange(s, i, s[i] - d, -(d as int));
      NegatedProduct(d, Weight(|s| - 1 - i));
    }
  }

  lemma NegatedProduct(d: int, w: int)
    ensures -d * w == -(w * d)
    ensures d * w == w * d
  {}

  // mant[one_pos] &= ~one_mask.
  method ClearBit(mant: array<Limb>, b: nat)
    requires b < 32 * mant.Length
    modifies mant
    ensures Val(mant[..]) == old(Val(mant[..]))
      - (if BitOf(old(Val(mant[..])), Half(mant.Length, b)) == 1 then Half(mant.Length, b) else 0)
  {
    ghost var s: seq<nat> := mant[..];
    assert IsLimbs(s);
    hide *;
    var i, d := b / 32, Pow2(31 - b % 32);
    BitTest(s, b);
    BitVal(s, b);
    if TestBit(mant[..], b) == 1 {
      mant[i] := mant[i] - d;
      assert mant[..] == s[i := s[i] - d];
    } else {
      assert mant[..] == s;
    }
  }

  // mant[i] |= mask.
  method SetBit(mant: array<Limb>, b: nat)
    requires b < 32 * mant.Length
    modifies mant
    ensures Val(mant[..]) == old(Val(mant[..]))
      + (if BitOf(old(Val(mant[..])), Half(mant.Length, b)) == 0 then Half(mant.Length, b) else 0)
  {
    ghost var s: seq<nat> := mant[..];
    assert IsLimbs(s);
    hide *;
    var i, d := b / 32, Pow2(31 - b % 32);
    BitTest(s, b);
    BitVal(s, b);
    if TestBit(mant[..], b) == 0 {
      LimbStays(s[i] + d);
      mant[i] := mant[i] + d;
      assert mant[..] == s[i := s[i] + d];
    } else {
      assert mant[..] == s;
    }
  }

  lemma LimbStays(x: nat)
    requires x < BASE
    ensures x < 0x1_0000_0000
  {}

  lemma LimbChange(s: seq<nat>, i: nat, v: nat, d: int)
    requires i < |s| && v as int - s[i] as int == d
    ensures Val(s[i := v]) == Val(s) + d * Weight(|s| - 1 - i)
  {
    hide Val, Weight;
    ValUpdate(s, i, v);
  }

  // mant[0] |= exponent << (LIMB_BITS - 1 - fmt->exponent).
  method OrExponent(mant: array<Limb>, field: nat, e: nat)
    requires 0 < mant.Length && 0 < e < 31 && field < Pow2(e)
    requires Val(mant[..]) < Pow2(32 * mant.Length - 1 - e)
    modifies mant
    ensures Val(mant[..]) == old(Val(mant[..])) + field * Pow2(32 * mant.Length - 1 - e) < Pow2(32 * mant.Length - 1)
  {
    ghost var s: seq<nat> := mant[..];
    assert IsLimbs(s);
    hide *;
    var shift := Pow2(31 - e);
    ExponentRoom(s, field, e);
    mant[0] := mant[0] + field * shift;
    assert mant[..] == s[0 := s[0] + field * shift];
  }

  lemma ExponentRoom(s: seq<nat>, field: nat, e: nat)
    requires |s| > 0 && IsLimbs(s) && 0 < e < 31 && field < Pow2(e) && Val(s) < Pow2(32 * |s| - 1 - e)
    ensures 0 <= s[0] + field * Pow2(31 - e) < BASE
    ensures Val(s[0 := s[0] + field * Pow2(31 - e)]) == Val(s) + field * Pow2(32 * |s| - 1 - e) < Pow2(32 * |s| - 1)
  {
    var n := |s|;
    var d, w, t := Pow2(31 - e), Weight(n - 1), Pow2(e);
    Pow2Add(31 - e, 32 * (n - 1));
    Pow2Add(e, 31 - e);
    Pow2Add(e, 32 * n - 1 - e);
    Pow2Literals();
    ValHead(s);
    ValBound(s[1..]);
    assert 32 * n - 1 - e == 31 - e + 32 * (n - 1);
    assert t * d == 0x8000_0000;
    var h := Pow2(32 * n - 1 - e);
    hide *;
    RoomInLimb(s[0], Val(s[1..]), Val(s), field, d, w, t, h);
    LimbChange(s, 0, s[0] + field * d, field * d);
    TopBitIs();
  }

  // The field lands above everything there is, in the first limb and in the number.
  lemma RoomInLimb(x: nat, lo: nat, v: nat, field: nat, d: nat, w: nat, t: nat, h: nat)
    requires v == x * w + lo && lo < w && v < h && h == d * w && field < t
    ensures 0 <= x + field * d < t * d
    ensures field * d * w == field * h
    ensures v + field * h < t * h
  {
    HeadCompare(x, lo, d, w);
    FieldFits(x, field, d, t);
    FieldFits(v, field, h, t);
    MulAssoc(field, d, w);
  }

  lemma TopBitIs()
    ensures TOP_BIT < BASE && BASE == 0x1_0000_0000
  {}

  lemma FieldFits(x: nat, field: nat, d: nat, t: nat)
    requires x < d && field < t
    ensures 0 <= field * d && x + field * d < t * d
  {
    MulMonotone(field + 1, t, d);
    MulDistrib(field, 1, d);
  }

  // ----- The bytes -----

  function BytesVal(b: seq<nat>): nat {
    if |b| == 0 then 0 else BytesVal(b[..|b| - 1]) + b[|b| - 1] * Pow2(8 * (|b| - 1))
  }

  // The top k bytes of a mantissa, as a number, and how one more joins them.
  function TopBytes(s: seq<nat>, k: nat): int
    requires 8 * k <= 32 * |s|
  {
    Val(s) / Pow2(32 * |s| - 8 * k)
  }

  function ByteAt(s: seq<nat>, k: nat): int
    requires k < 4 * |s|
  {
    s[k / 4] / Pow2(8 * (3 - k % 4)) % 256
  }

  lemma NextByte(s: seq<nat>, k: nat)
    requires IsLimbs(s) && k < 4 * |s|
    ensures 0 <= ByteAt(s, k) < 256
    ensures TopBytes(s, k + 1) == TopBytes(s, k) * 256 + ByteAt(s, k)
  {
    var n, i, p := |s|, k / 4, 8 * (3 - k % 4);
    var d, w := Pow2(p), Weight(n - 1 - i);
    Pow2Add(p, 8 * (k % 4));
    Pow2Add(p + 8 * (k % 4), 8);
    Pow2Add(32 * (n - 1 - i), p);
    Pow2Add(32 * n - 8 * (k + 1), 8);
    Pow2Literals();
    assert 32 * (n - 1 - i) + p == 32 * n - 8 * (k + 1);
    SplitAtLimb(s, i);
    hide Val, Weight, Pow2;
    assert d * Pow2(8 * (k % 4)) * 256 == BASE;
    ByteInNumber(Val(s), Val(s[..i]), s[i], Val(s[i + 1..]), w, d, Pow2(8 * (k % 4)), w * d);
  }

  lemma ByteInNumber(v: nat, hi: nat, x: nat, lo: nat, w: nat, d: nat, e: nat, h: nat)
    requires w > 0 && d > 0 && lo < w && d * e * 256 == BASE && h == w * d && v == (hi * BASE + x) * w + lo
    ensures h > 0 && v / h == v / (h * 256) * 256 + x / d % 256
  {
    AroundWeight(v, hi * BASE + x, lo, w, d);
    ByteOfLimb(hi, x, d, e);
    DivDiv(v, h, 256);
  }

  lemma ByteOfLimb(hi: nat, x: nat, d: nat, e: nat)
    requires d > 0 && d * e * 256 == BASE
    ensures (hi * BASE + x) / d % 256 == x / d % 256
  {
    assert hi * BASE == hi * e * 256 * d by {
      MulAssoc(hi * e, 256, d);
      MulAssoc(hi, e, 256 * d);
      assert e * (256 * d) == BASE by { MulAssoc(d, e, 256); MulAssoc(e, 256, d); assert d * (e * 256) == e * 256 * d; }
    }
    DivModShift(hi * e * 256, x, d);
    DivModShift(hi * e, x / d, 256);
  }

  // The last loop of to_float: the top bytes of the mantissa, least significant first.
  method EmitBytes(mant: array<Limb>, bytes: nat, result: array<Byte>)
    requires bytes <= result.Length && bytes <= 4 * mant.Length
    requires result as object != mant
    modifies result
    ensures BytesVal(result[..bytes]) == Val(mant[..]) / Pow2(32 * mant.Length - 8 * bytes)
  {
    ghost var s: seq<nat> := mant[..];
    assert IsLimbs(s);
    hide *;
    var i := bytes;
    BytesStart(s, result[..0], bytes);
    while i > 0
      invariant 0 <= i <= bytes && mant[..] == s
      invariant BytesVal(result[..bytes - i]) + TopBytes(s, i) * Pow2(8 * (bytes - i)) == TopBytes(s, bytes)
    {
      i := i - 1;
      NextByte(s, i);
      ghost var done: seq<nat> := result[..bytes - i - 1];
      AppendByte(done, ByteAt(s, i), TopBytes(s, i), TopBytes(s, i + 1));
      result[bytes - i - 1] := ByteAt(mant[..], i);
      assert result[..bytes - i] == done + [result[bytes - i - 1]];
    }
    BytesEnd(s);
    TopBytesIs(s, bytes);
  }

  lemma TopBytesIs(s: seq<nat>, k: nat)
    requires 8 * k <= 32 * |s|
    ensures TopBytes(s, k) == Val(s) / Pow2(32 * |s| - 8 * k)
  {}

  lemma BytesStart(s: seq<nat>, r: seq<nat>, bytes: nat)
    requires r == [] && 8 * bytes <= 32 * |s|
    ensures BytesVal(r) + TopBytes(s, bytes) * Pow2(8 * (bytes - bytes)) == TopBytes(s, bytes)
  {}

  lemma BytesEnd(s: seq<nat>)
    requires IsLimbs(s)
    ensures TopBytes(s, 0) == 0
  {
    ValBound(s);
    DivModUnique(Val(s), Pow2(32 * |s|), 0, Val(s));
  }

  lemma AppendByte(r: seq<nat>, b: nat, top: int, top': int)
    requires top' == top * 256 + b
    ensures BytesVal(r + [b]) + top * Pow2(8 * (|r| + 1)) == BytesVal(r) + top' * Pow2(8 * |r|)
  {
    hide *;
    BytesValNext(r, b);
    EightBits(|r|);
    AppendedByte(top, b, Pow2(8 * |r|), Pow2(8 * (|r| + 1)));
  }

  lemma BytesValNext(r: seq<nat>, b: nat)
    ensures BytesVal(r + [b]) == BytesVal(r) + b * Pow2(8 * |r|)
  {}

  lemma EightBits(k: nat)
    ensures Pow2(8 * (k + 1)) == 256 * Pow2(8 * k)
  {
    Pow2Add(8, 8 * k);
    Pow2Literals();
  }

  lemma AppendedByte(top: int, b: int, p: int, p': int)
    requires p' == 256 * p
    ensures b * p + top * p' == (top * 256 + b) * p
  {}

  // ----- Packing a normal number -----

  // What goes below the exponent field: the integer bit is dropped unless it is explicit.
  function Trailing(f: Format, q: int): int {
    if f.explicitOne == 1 then q else q - Pow2(f.mantissa)
  }

  // The kept bits of a shifted mantissa, rounded.
  function KeptBits(f: Format, m: nat, n: nat, shift: nat): int
    requires IsFormat(f) && Bits(f) < 32 * n
  {
    RoundHalfEven(m / Pow2(shift), Unit(n, Bits(f)))
  }

  // After the shift and the rounding the mantissa is q units and perhaps half a unit.
  lemma RoundedBits(f: Format, minus: bool, m: nat, n: nat, shift: nat)
    requires IsFormat(f) && Bits(f) < 32 * n && Normalised(m, n) && Lead(f) <= shift
    ensures var q, u, one := KeptBits(f, m, n, shift), Unit(n, Bits(f)), Pow2(f.mantissa);
            var v := m / Pow2(shift);
            v >= 0 && var r := Rounded(Near, minus, v, n, Bits(f));
            0 <= q && (if shift == Lead(f) then one <= q <= 2 * one else q <= one) &&
            0 <= r - q * u < u && (q == (if shift == Lead(f) then 2 * one else one) ==> r == q * u)
  {
    hide *;
    KeptBitsRoom(f, m, n, shift);
    if shift == Lead(f) {
      ShiftedRange(f, m, n);
    } else {
      ShiftedRangeLow(f, m, n, shift);
    }
    RoundedValue(minus, m / Pow2(shift), n, Bits(f));
  }

  lemma KeptBitsRoom(f: Format, m: nat, n: nat, shift: nat)
    requires IsFormat(f) && Bits(f) < 32 * n
    ensures KeptBits(f, m, n, shift) == RoundHalfEven(m / Pow2(shift), Unit(n, Bits(f)))
    ensures 4 * Pow2(f.mantissa) <= Pow2(Bits(f)) && 0 < Bits(f)
  {
    FieldPlaces(f, n);
    assert Pow2(Bits(f)) == 2 * Pow2(Bits(f) - 1);
  }

  // The bit above the integer bit is set exactly when rounding has carried into it.
  lemma CarryTest(q: nat, c: nat, one: nat, u: nat, r: nat)
    requires u > 0 && one > 0 && q <= 2 * one && c < u && r == q * u + c && (q == 2 * one ==> c == 0)
    ensures 2 * one * u > 0
    ensures BitOf(r, 2 * one * u) == if q == 2 * one then 1 else 0
    ensures q == 2 * one ==> r / 2 == one * u
  {
    MulMonotone(1, 2 * one, u);
    if q == 2 * one {
      DivModUnique(r, 2 * one * u, 1, 0);
      MulAssoc(2, one, u);
      DivModUnique(r, 2, one * u, 0);
    } else {
      MulMonotone(q + 1, 2 * one, u);
      MulDistrib(q, 1, u);
      DivModUnique(r, 2 * one * u, 0, r);
    }
  }

  lemma OneTest(q: nat, c: nat, one: nat, u: nat, r: nat)
    requires u > 0 && one > 0 && one <= q < 2 * one && c < u && r == q * u + c
    ensures one * u > 0
    ensures BitOf(r, one * u) == 1
    ensures r - one * u == (q - one) * u + c
  {
    MulMonotone(1, one, u);
    MulDistrib(q - one, one, u);
    MulMonotone(q - one + 1, one, u);
    MulDistrib(q - one, 1, u);
    DivModUnique(r, one * u, 1, (q - one) * u + c);
  }

  // The field and the trailing bits, each so many units, side by side.
  lemma JoinFields(field: nat, t: nat, c: nat, p: nat, u: nat)
    requires u > 0 && c < u && t < p
    ensures t * u + c < p * u
    ensures (t * u + c + field * (p * u)) / u == field * p + t
  {
    MulMonotone(t + 1, p, u);
    MulDistrib(t, 1, u);
    MulAssoc(field, p, u);
    MulDistrib(field * p, t, u);
    DivModUnique(t * u + c + field * (p * u), u, field * p + t, c);
  }

  lemma HalfIs(n: nat, b: nat)
    requires b < 32 * n
    ensures Half(n, b) == Pow2(32 * n - b - 1)
  {}

  // Removing the integer bit, unless it is explicit.
  method DropOne(f: Format, mant: array<Limb>, ghost q: nat, ghost c: nat)
    requires IsFormat(f) && Bits(f) < 32 * mant.Length
    requires var u, one := Unit(mant.Length, Bits(f)), Pow2(f.mantissa);
             one <= q < 2 * one && c < u && Val(mant[..]) == q * u + c
    modifies mant
    ensures var u := Unit(mant.Length, Bits(f));
            0 <= Trailing(f, q) < Pow2(TrailingBits(f)) && Val(mant[..]) == Trailing(f, q) * u + c
  {
    ghost var n := mant.Length;
    DropPlaces(f, n, q);
    if f.explicitOne == 0 {
      OneTest(q, c, Pow2(f.mantissa), Unit(n, Bits(f)), Val(mant[..]));
      hide *;
      ClearBit(mant, f.exponent + f.explicitOne);
    }
  }

  lemma DropPlaces(f: Format, n: nat, q: nat)
    requires IsFormat(f) && Bits(f) < 32 * n && Pow2(f.mantissa) <= q < 2 * Pow2(f.mantissa)
    ensures Half(n, f.exponent + f.explicitOne) == Pow2(f.mantissa) * Unit(n, Bits(f))
    ensures 0 <= Trailing(f, q) < Pow2(TrailingBits(f))
    ensures Trailing(f, q) == if f.explicitOne == 0 then q - Pow2(f.mantissa) else q
    ensures f.exponent + f.explicitOne < 32 * n
  {
    FieldPlaces(f, n);
  }

  // What the normal path makes of mantissa m with exponent e: the field, whether the
  // rounding carry ran past the largest exponent, and otherwise the packed mantissa v.
  ghost predicate PackedNormal(f: Format, m: nat, n: nat, e: int, overflow: bool, field: int, v: nat)
    requires IsFormat(f) && Bits(f) < 32 * n
  {
    var one, q := Pow2(f.mantissa), KeptBits(f, m, n, Lead(f));
    var carry := q == 2 * one;
    field == e + ExpMax(f) - 1 + (if carry then 1 else 0) &&
    (overflow <==> carry && field >= 2 * ExpMax(f) - 1) &&
    (overflow || PackedFields(f, n, field, Trailing(f, if carry then one else q), v))
  }

  ghost predicate PackedFields(f: Format, n: nat, field: int, trailing: int, v: nat)
    requires IsFormat(f) && Bits(f) < 32 * n
  {
    v < Pow2(32 * n - 1) && v / Unit(n, Bits(f)) == field * Pow2(TrailingBits(f)) + trailing
  }

  method PackNormal(f: Format, minus: bool, mant: array<Limb>, exponent0: int) returns (overflow: bool, field: int)
    requires IsFormat(f) && Bits(f) < 32 * mant.Length && Normalised(Val(mant[..]), mant.Length)
    requires 2 - ExpMax(f) <= exponent0 <= ExpMax(f)
    modifies mant
    ensures PackedNormal(f, old(Val(mant[..])), mant.Length, exponent0, overflow, field, Val(mant[..]))
  {
    PackPlaces(f, mant.Length);
    hide *;
    ghost var n, m := mant.Length, Val(mant[..]);
    var expmax := Pow2(f.exponent - 1);
    field := exponent0 + expmax - 1;
    var carry;
    ghost var q, c;
    carry, q, c := RoundAtLead(f, minus, mant);
    overflow := false;
    if carry {
      field := field + 1;
      overflow := field >= 2 * expmax - 1;
    }
    if !overflow {
      DropOne(f, mant, q, c);
      JoinFields(field, Trailing(f, q), c, Pow2(TrailingBits(f)), Unit(n, Bits(f)));
      OrExponent(mant, field, f.exponent);
    }
    PackedNormalIs(f, m, n, exponent0, overflow, field, q, Val(mant[..]));
  }

  // The shift, the rounding, and one more shift when the rounding has carried: the integer
  // bit is back in its place.
  method RoundAtLead(f: Format, minus: bool, mant: array<Limb>) returns (carry: bool, ghost q: nat, ghost c: nat)
    requires IsFormat(f) && Bits(f) < 32 * mant.Length && Normalised(Val(mant[..]), mant.Length)
    modifies mant
    ensures var q0, one := KeptBits(f, old(Val(mant[..])), mant.Length, Lead(f)), Pow2(f.mantissa);
            (carry <==> q0 == 2 * one) && q == (if carry then one else q0) && one <= q < 2 * one
    ensures c < Unit(mant.Length, Bits(f)) && Val(mant[..]) == q * Unit(mant.Length, Bits(f)) + c
  {
    hide *;
    ghost var n, m := mant.Length, Val(mant[..]);
    LeadRounded(f, minus, m, n);
    q := KeptBits(f, m, n, Lead(f));
    var s := f.exponent + f.explicitOne;
    LeadPlace(f, n);
    IeeeShr(mant, s);
    var _ := IeeeRound(Near, minus, mant, 8 * f.bytes);
    c := Val(mant[..]) - q * Unit(n, Bits(f));
    LimbsOf(mant);
    BitTest(mant[..], s - 1);
    carry := TestBit(mant[..], s - 1) == 1;
    if carry {
      IeeeShr(mant, 1);
      q, c := Pow2(f.mantissa), 0;
    }
  }

  lemma LeadPlace(f: Format, n: nat)
    requires IsFormat(f) && Bits(f) < 32 * n
    ensures Lead(f) == f.exponent + f.explicitOne && 1 < Lead(f) < 32 * n
    ensures Bits(f) == 8 * f.bytes && 0 < Bits(f)
    ensures Shiftable(Lead(f), n) && Shiftable(1, n)
  {}

  // The number-level account of RoundAtLead.
  lemma LeadRounded(f: Format, minus: bool, m: nat, n: nat)
    requires IsFormat(f) && Bits(f) < 32 * n && Normalised(m, n)
    ensures var q, u, one := KeptBits(f, m, n, Lead(f)), Unit(n, Bits(f)), Pow2(f.mantissa);
            var v := ShiftRight(m, Lead(f), n);
            v >= 0 && var r := Rounded(Near, minus, v, n, Bits(f));
            0 < one <= q <= 2 * one && 0 <= r && 0 <= r - q * u < u && 1 < Lead(f) <= 32 * n &&
            BitOf(r, Half(n, Lead(f) - 1)) == (if q == 2 * one then 1 else 0) &&
            (q == 2 * one ==> ShiftRight(r, 1, n) == one * u)
  {
    hide *;
    LeadPlace(f, n);
    PackPlaces(f, n);
    ShiftIs(m, Lead(f), n);
    RoundedBits(f, minus, m, n, Lead(f));
    var q, u := KeptBits(f, m, n, Lead(f)), Unit(n, Bits(f));
    var r: nat := Rounded(Near, minus, m / Pow2(Lead(f)), n, Bits(f));
    CarryTest(q, r - q * u, Pow2(f.mantissa), u, r);
    ShiftIs(r, 1, n);
  }

  lemma PackedNormalIs(f: Format, m: nat, n: nat, e: int, overflow: bool, field: int, q: nat, v: nat)
    requires IsFormat(f) && Bits(f) < 32 * n
    requires var q0, one := KeptBits(f, m, n, Lead(f)), Pow2(f.mantissa);
             var carry := q0 == 2 * one;
             q == (if carry then one else q0) && field == e + ExpMax(f) - 1 + (if carry then 1 else 0) &&
             (overflow <==> carry && field >= 2 * ExpMax(f) - 1)
    requires !overflow ==>
      v < Pow2(32 * n - 1) && v / Unit(n, Bits(f)) == field * Pow2(TrailingBits(f)) + Trailing(f, q)
    ensures PackedNormal(f, m, n, e, overflow, field, v)
  {}

  lemma LimbsOf(mant: array<Limb>)
    ensures IsLimbs(mant[..])
  {}

  lemma ShiftIs(m: nat, s: nat, n: nat)
    requires n > 0 && 0 < s
    ensures ShiftRight(m, s, n) == m / Pow2(s) >= 0
    ensures s == 1 ==> m / Pow2(s) == m / 2
  {
    assert s == 1 ==> Pow2(1) == 2 * Pow2(0);
    BelowProduct(m, m + 1, Pow2(s));
    assert m < (m + 1) * Pow2(s) by { MulMonotone(1, Pow2(s), m + 1); assert Pow2(s) * (m + 1) == (m + 1) * Pow2(s); }
  }

  // The sizes the packing needs, without the powers behind them.
  lemma PackPlaces(f: Format, n: nat)
    requires IsFormat(f) && Bits(f) < 32 * n
    ensures var s, u, one := f.exponent + f.explicitOne, Unit(n, Bits(f)), Pow2(f.mantissa);
            Lead(f) == s && 0 < s < 32 * n && Bits(f) == 8 * f.bytes && 0 < Bits(f) && one > 0 &&
            0 < f.exponent < 31 && ExpMax(f) == Pow2(f.exponent - 1) && Pow2(f.exponent) == 2 * ExpMax(f) &&
            Half(n, s - 1) == 2 * one * u && one < 2 * one &&
            Pow2(32 * n - 1 - f.exponent) == Pow2(TrailingBits(f)) * u
  {
    FieldPlaces(f, n);
    HalfIs(n, Lead(f) - 1);
  }

  // ----- Packing a denormal -----

  // The field and the trailing bits of a denormal: rounding up to the integer bit gives
  // the smallest normal number.
  ghost predicate PackedDenormal(f: Format, m: nat, n: nat, shift: nat, v: nat)
    requires IsFormat(f) && Bits(f) < 32 * n
  {
    var one, q := Pow2(f.mantissa), KeptBits(f, m, n, shift);
    if q == one then PackedFields(f, n, 1, Trailing(f, one), v) else PackedFields(f, n, 0, q, v)
  }

  lemma DenormalRounded(f: Format, minus: bool, m: nat, n: nat, shift: nat)
    requires IsFormat(f) && Bits(f) < 32 * n && Normalised(m, n) && Lead(f) < shift
    ensures var q, u, one := KeptBits(f, m, n, shift), Unit(n, Bits(f)), Pow2(f.mantissa);
            var v := ShiftRight(m, shift, n);
            v >= 0 && var r := Rounded(Near, minus, v, n, Bits(f));
            0 <= q <= one && 0 <= r && 0 <= r - q * u < u && (q == one ==> r == q * u) && Lead(f) < 32 * n &&
            BitOf(r, Half(n, Lead(f))) == (if q == one then 1 else 0)
  {
    hide *;
    LeadPlace(f, n);
    OnePlace(f, n);
    ShiftIs(m, shift, n);
    RoundedBits(f, minus, m, n, shift);
    var q, u := KeptBits(f, m, n, shift), Unit(n, Bits(f));
    var r: nat := Rounded(Near, minus, m / Pow2(shift), n, Bits(f));
    CarryTest(q, r - q * u, Pow2(f.mantissa) / 2, u, r);
  }

  lemma OnePlace(f: Format, n: nat)
    requires IsFormat(f) && Bits(f) < 32 * n
    ensures var u, one := Unit(n, Bits(f)), Pow2(f.mantissa);
            Half(n, Lead(f)) == one * u && one == 2 * (one / 2) && one / 2 > 0 &&
            Pow2(32 * n - 1 - f.exponent) == Pow2(TrailingBits(f)) * u && one <= Pow2(TrailingBits(f)) &&
            Pow2(32 * n - 1 - f.exponent) <= Pow2(32 * n - 1) && 1 < Pow2(f.exponent) && 0 < f.exponent < 31 &&
            0 <= Trailing(f, one) < Pow2(TrailingBits(f))
  {
    hide *;
    OneBits(f);
    FieldPlaces(f, n);
    LeadPlace(f, n);
    HalfIs(n, Lead(f));
    assert 32 * n - Lead(f) - 1 == 32 * n - 1 - Lead(f);
    Pow2Monotone(32 * n - 1 - f.exponent, 32 * n - 1);
  }

  lemma OneBits(f: Format)
    requires IsFormat(f)
    ensures Pow2(f.mantissa) == 2 * (Pow2(f.mantissa) / 2) && Pow2(f.mantissa) / 2 > 0
    ensures Pow2(f.mantissa) <= Pow2(TrailingBits(f))
    ensures 0 <= Trailing(f, Pow2(f.mantissa)) < Pow2(TrailingBits(f))
    ensures 1 < Pow2(f.exponent) && 0 < f.exponent < 31 && f.exponent <= Lead(f)
  {}

  method PackDenormal(f: Format, minus: bool, mant: array<Limb>, shift: nat)
    requires IsFormat(f) && Bits(f) < 32 * mant.Length && Normalised(Val(mant[..]), mant.Length)
    requires Lead(f) < shift && Shiftable(shift, mant.Length)
    modifies mant
    ensures PackedDenormal(f, old(Val(mant[..])), mant.Length, shift, Val(mant[..]))
  {
    hide *;
    ghost var n, m := mant.Length, Val(mant[..]);
    ghost var u, one, q := Unit(n, Bits(f)), Pow2(f.mantissa), KeptBits(f, m, n, shift);
    DenormalRounded(f, minus, m, n, shift);
    OnePlace(f, n);
    LeadPlace(f, n);
    IeeeShr(mant, shift);
    var _ := IeeeRound(Near, minus, mant, 8 * f.bytes);
    ghost var c := Val(mant[..]) - q * u;
    LimbsOf(mant);
    BitTest(mant[..], f.exponent + f.explicitOne);
    if TestBit(mant[..], f.exponent + f.explicitOne) == 1 {
      OneOnly(one);
      DropOne(f, mant, one, 0);
      JoinFields(1, Trailing(f, one), 0, Pow2(TrailingBits(f)), u);
      OrExponent(mant, 1, f.exponent);
    } else {
      JoinFields(0, q, c, Pow2(TrailingBits(f)), u);
    }
    PackedDenormalIs(f, m, n, shift, Val(mant[..]));
  }

  lemma OneOnly(one: nat)
    requires one > 0
    ensures one < 2 * one
  {}

  lemma PackedDenormalIs(f: Format, m: nat, n: nat, shift: nat, v: nat)
    requires IsFormat(f) && Bits(f) < 32 * n && v < Pow2(32 * n - 1)
    requires var one, q := Pow2(f.mantissa), KeptBits(f, m, n, shift);
             v / Unit(n, Bits(f)) ==
               (if q == one then 1 * Pow2(TrailingBits(f)) + Trailing(f, one) else 0 * Pow2(TrailingBits(f)) + q)
    ensures PackedDenormal(f, m, n, shift, v)
  {}

  // ----- Zero, infinity and not-a-number -----

  // The cases FL_INFINITY and FL_QNAN: an exponent field of ones.
  method PackSpecial(f: Format, mant: array<Limb>, quiet: bool)
    requires IsFormat(f) && Bits(f) < 32 * mant.Length
    modifies mant
    ensures PackedFields(f, mant.Length, Pow2(f.exponent) - 1, SpecialTrailing(f, quiet), Val(mant[..]))
  {
    hide *;
    ghost var n := mant.Length;
    FloatDigits.ClearMantissa(mant);
    ClearedVal(mant[..]);
    SpecialPlaces(f, n);
    ghost var u, t := Unit(n, Bits(f)), 0;
    if f.explicitOne == 1 {
      SetBit(mant, f.exponent + f.explicitOne);
    }
    if quiet {
      SetBit(mant, f.exponent + f.explicitOne + 1);
    }
    JoinFields(Pow2(f.exponent) - 1, SpecialTrailing(f, quiet), 0, Pow2(TrailingBits(f)), u);
    OrExponent(mant, Pow2(f.exponent) - 1, f.exponent);
    PackedFieldsIs(f, n, Pow2(f.exponent) - 1, SpecialTrailing(f, quiet), Val(mant[..]));
  }

  lemma PackedFieldsIs(f: Format, n: nat, field: int, trailing: int, v: nat)
    requires IsFormat(f) && Bits(f) < 32 * n
    ensures PackedFields(f, n, field, trailing, v) <==>
      v < Pow2(32 * n - 1) && v / Unit(n, Bits(f)) == field * Pow2(TrailingBits(f)) + trailing
  {}

  function SpecialTrailing(f: Format, quiet: bool): nat
    requires IsFormat(f)
  {
    (if f.explicitOne == 1 then Pow2(f.mantissa) else 0) + (if quiet then Pow2(f.mantissa - 1) else 0)
  }

  // The first bit of the fraction is one in a quiet NaN (section 6.2.1 of IEEE 754-2008) and zero
  // for infinity; the integer bit, where there is one, is set in both.
  lemma QuietBit(f: Format, quiet: bool)
    requires IsFormat(f)
    ensures SpecialTrailing(f, quiet) / Pow2(f.mantissa - 1) % 2 == (if quiet then 1 else 0)
    ensures SpecialTrailing(f, quiet) / Pow2(f.mantissa) == f.explicitOne
  {
    var h := Pow2(f.mantissa - 1);
    assert Pow2(f.mantissa) == 2 * h;
    DivModUnique(SpecialTrailing(f, quiet), h, 2 * f.explicitOne + (if quiet then 1 else 0), 0);
    DivModUnique(SpecialTrailing(f, quiet), 2 * h, f.explicitOne, if quiet then h else 0);
    hide Pow2;
  }

  lemma ClearedVal(s: seq<nat>)
    requires forall i :: 0 <= i < |s| ==> s[i] == 0
    ensures Val(s) == 0
  {}

  // The two bits set among zeros, as multiples of the unit.
  lemma SpecialPlaces(f: Format, n: nat)
    requires IsFormat(f) && Bits(f) < 32 * n
    ensures var u, one, s := Unit(n, Bits(f)), Pow2(f.mantissa), f.exponent + f.explicitOne;
            s + 1 < 32 * n && 0 < f.exponent < 31 &&
            BitOf(0, Half(n, s)) == 0 && BitOf(0, Half(n, s + 1)) == 0 && BitOf(Half(n, s), Half(n, s + 1)) == 0 &&
            SpecialTrailing(f, false) * u == (if f.explicitOne == 1 then Half(n, s) else 0) &&
            SpecialTrailing(f, true) * u == (if f.explicitOne == 1 then Half(n, s) else 0) + Half(n, s + 1) &&
            SpecialTrailing(f, false) < Pow2(TrailingBits(f)) && SpecialTrailing(f, true) < Pow2(TrailingBits(f)) &&
            Pow2(32 * n - 1 - f.exponent) == Pow2(TrailingBits(f)) * u
  {
    hide *;
    var s := f.exponent + f.explicitOne;
    OneBits(f);
    LeadPlace(f, n);
    SpecialBits(f);
    FieldPlaces(f, n);
    HalfPlace(f, n);
    HalfIs(n, s);
    HalfIs(n, s + 1);
    TwoBits(Pow2(f.mantissa - 1), Pow2(f.mantissa), Unit(n, Bits(f)), Half(n, s), Half(n, s + 1),
            SpecialTrailing(f, false), SpecialTrailing(f, true), f.explicitOne == 1);
  }

  lemma SpecialBits(f: Format)
    requires IsFormat(f)
    ensures f.mantissa >= 2 && Pow2(f.mantissa) == 2 * Pow2(f.mantissa - 1)
    ensures SpecialTrailing(f, false) == if f.explicitOne == 1 then Pow2(f.mantissa) else 0
    ensures SpecialTrailing(f, true) == (if f.explicitOne == 1 then Pow2(f.mantissa) else 0) + Pow2(f.mantissa - 1)
    ensures SpecialTrailing(f, true) < Pow2(TrailingBits(f))
  {
    assert Pow2(f.mantissa + 1) == 2 * Pow2(f.mantissa);
  }

  lemma HalfPlace(f: Format, n: nat)
    requires IsFormat(f) && Bits(f) < 32 * n
    ensures f.mantissa >= 1 && Lead(f) + 2 <= 32 * n
    ensures Pow2(32 * n - (Lead(f) + 1) - 1) == Pow2(f.mantissa - 1) * Unit(n, Bits(f))
  {
    Pow2Add(f.mantissa - 1, 32 * n - Bits(f));
  }

  lemma TwoBits(q: nat, one: nat, u: nat, h1: nat, h2: nat, t1: nat, t2: nat, first: bool)
    requires t1 == (if first then one else 0) && t2 == t1 + q
    requires u > 0 && q > 0 && one == 2 * q && h1 == one * u && h2 == q * u
    ensures h1 > 0 && h2 > 0 && BitOf(0, h1) == 0 && BitOf(0, h2) == 0 && BitOf(h1, h2) == 0
    ensures t1 * u == (if first then h1 else 0) && t2 * u == (if first then h1 else 0) + h2
  {
    MulMonotone(1, q, u);
    MulAssoc(2, q, u);
    MulDistrib(t1, q, u);
    DivModUnique(h1, h2, 2, 0);
    DivModUnique(0, h2, 0, 0);
    DivModUnique(0, h1, 0, 0);
  }

  // ----- The sign and the bytes -----

  // mant[0] |= minus ? LIMB_TOP_BIT : 0, and the bytes: the word with the packed fields.
  method Finish(f: Format, minus: bool, mant: array<Limb>, ghost field: nat, ghost trailing: nat, result: array<Byte>)
    requires IsFormat(f) && Bits(f) < 32 * mant.Length && f.bytes <= result.Length
    requires result as object != mant
    requires PackedFields(f, mant.Length, field, trailing, Val(mant[..]))
    modifies mant, result
    ensures BytesVal(result[..f.bytes]) == Word(f, minus, field, trailing)
  {
    hide *;
    ghost var n := mant.Length;
    PackedFieldsIs(f, n, field, trailing, Val(mant[..]));
    SignPlace(f, n, Val(mant[..]));
    LeadPlace(f, n);
    if minus {
      SetBit(mant, 0);
    }
    EmitBytes(mant, f.bytes, result);
    WordIs(f, minus, field, trailing);
  }

  lemma SignPlace(f: Format, n: nat, v: nat)
    requires IsFormat(f) && Bits(f) < 32 * n && v < Pow2(32 * n - 1)
    ensures BitOf(v, Half(n, 0)) == 0
    ensures (v + Half(n, 0)) / Unit(n, Bits(f)) == Pow2(Bits(f) - 1) + v / Unit(n, Bits(f))
    ensures Unit(n, Bits(f)) == Pow2(32 * n - 8 * f.bytes)
  {
    FieldPlaces(f, n);
    HalfIs(n, 0);
    hide FloatRound.Half;
    DivModUnique(v, Pow2(32 * n - 1), 0, v);
    DivModShift(Pow2(Bits(f) - 1), v, Unit(n, Bits(f)));
  }

  lemma WordIs(f: Format, minus: bool, field: nat, trailing: nat)
    requires IsFormat(f)
    ensures Word(f, minus, field, trailing)
         == (if minus then Pow2(Bits(f) - 1) else 0) + (field * Pow2(TrailingBits(f)) + trailing)
  {}
}

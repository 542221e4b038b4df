// sdk/as/float.c: every decimal constant that can be written down is read as the number it
// was written for.
module FloatNumeral {
  import opened Base
  import opened Powers
  import opened RealPowers
  import opened FloatDigits
  import opened FloatParse
  import opened FloatConvert
  import FloatConst
  import FloatNearest
  import FloatPack

  // ----- Writing a number -----

  function Figure(v: nat): char
    requires v < 10
  {
    "0123456789"[v]
  }

  // The decimal figures of n, most significant first.
  function Decimal(n: nat): (d: string)
    ensures d != []
  {
    if n < 10 then [Figure(n)] else Decimal(n / 10) + [Figure(n % 10)]
  }

  function Leading(zeros: nat): string { seq(zeros, _ => '0') }

  // A text without its underscores.
  function Bare(s: string): string {
    if s == [] then []
    else Bare(s[..|s| - 1]) + if s[|s| - 1] == '_' then [] else [s[|s| - 1]]
  }

  // s writes the exponent e: with or without a sign if that is plus, with leading zeros and
  // with underscores anywhere behind the sign.
  ghost predicate WritesExponent(s: string, e: int) {
    exists zeros: nat :: ExponentText(s, e, Leading(zeros) + Decimal(if e < 0 then -e else e))
  }

  predicate ExponentText(s: string, e: int, d: string) {
    (e >= 0 && Bare(s) == d) ||
    (e >= 0 && s != [] && s[0] == '+' && Bare(s[1..]) == d) ||
    (e <= 0 && s != [] && s[0] == '-' && Bare(s[1..]) == d)
  }

  // s writes n with a period before the last f figures; without figures behind it the
  // period may be missing.
  ghost predicate WritesDigits(s: string, n: nat, f: nat) {
    exists zeros: nat :: DigitsText(s, f, Leading(zeros) + Decimal(n))
  }

  predicate DigitsText(s: string, f: nat, d: string) {
    (f == 0 && Bare(s) == d) || (f <= |d| && Bare(s) == d[..|d| - f] + "." + d[|d| - f..])
  }

  // The size of an exponent counts as at most 5000.
  function CappedExponent(e: int): int { if e > 5000 then 5000 else if e < -5000 then -5000 else e }

  // ----- Reading it -----

  lemma {:induction false} BareReads(s: string)
    ensures AllDigits(Bare(s)) == AllDigits(s)
    ensures Dots(Bare(s)) == Dots(s)
    ensures FractionDigits(Bare(s)) == FractionDigits(s)
    ensures forall i :: 0 <= i < |s| ==> s[i] == '_' || s[i] in Bare(s)
    ensures '_' !in Bare(s)
  {
    if s != [] {
      var n := |s| - 1;
      BareReads(s[..n]);
      var b := Bare(s[..n]);
      if s[n] == '_' {
        assert Bare(s) == b;
        assert AllDigits(s) == AllDigits(s[..n]) + [];
      } else {
        assert Bare(s)[..|b|] == b && Bare(s)[|b|] == s[n];
      }
      forall i | 0 <= i < |s| ensures s[i] == '_' || s[i] in Bare(s) {
        if i < n { assert s[..n][i] == s[i]; }
      }
    }
  }

  ghost predicate Figures(s: string) { forall i :: 0 <= i < |s| ==> IsDigit(s[i]) }

  lemma {:induction false} FiguresRead(d: string)
    requires Figures(d)
    ensures |AllDigits(d)| == |d| && Dots(d) == 0 && FractionDigits(d) == 0
  {
    if d != [] { FiguresRead(d[..|d| - 1]); }
  }

  lemma OneFigure(d: string, v: nat)
    requires v < 10
    ensures IsDigit(Figure(v)) && AllDigits(d + [Figure(v)]) == AllDigits(d) + [v]
  {
    assert (d + [Figure(v)])[..|d|] == d;
    assert DigitOf(Figure(v)) == v;
  }

  lemma {:induction false} DecimalReads(zeros: nat, n: nat)
    ensures var d := Leading(zeros) + Decimal(n); Figures(d) && DigitsVal(AllDigits(d)) == n
  {
    var d := Leading(zeros) + Decimal(n);
    if n < 10 {
      ZerosRead(zeros);
      LastFigure(Leading(zeros), n);
    } else {
      DecimalReads(zeros, n / 10);
      var h := Leading(zeros) + Decimal(n / 10);
      assert d == h + [Figure(n % 10)];
      LastFigure(h, n % 10);
    }
  }

  lemma LastFigure(h: string, v: nat)
    requires v < 10 && Figures(h)
    ensures Figures(h + [Figure(v)]) && DigitsVal(AllDigits(h + [Figure(v)])) == 10 * DigitsVal(AllDigits(h)) + v
  {
    OneFigure(h, v);
    var a := AllDigits(h);
    assert (a + [v])[..|a|] == a;
  }

  lemma {:induction false} ZerosRead(zeros: nat)
    ensures Figures(Leading(zeros)) && DigitsVal(AllDigits(Leading(zeros))) == 0
  {
    if zeros > 0 {
      ZerosRead(zeros - 1);
      assert Leading(zeros) == Leading(zeros - 1) + [Figure(0)];
      LastFigure(Leading(zeros - 1), 0);
    }
  }

  // A period between figures adds no digit and starts the fraction.
  lemma {:induction false} PeriodReads(a: string, b: string)
    requires Figures(a) && Figures(b)
    ensures AllDigits(a + "." + b) == AllDigits(a + b)
    ensures Dots(a + "." + b) == 1 && FractionDigits(a + "." + b) == |b|
  {
    var t := a + "." + b;
    if b == [] {
      FiguresRead(a);
      assert t == a + ['.'] && t[..|a|] == a;
      assert a + b == a;
      assert AllDigits(t) == AllDigits(a) + [];
    } else {
      var n := |b| - 1;
      PeriodReads(a, b[..n]);
      assert t[..|t| - 1] == a + "." + b[..n] && t[|t| - 1] == b[n];
      assert (a + b)[..|a + b| - 1] == a + b[..n] && (a + b)[|a + b| - 1] == b[n];
    }
  }

  // Every exponent reads back, up to the cap.
  lemma ExponentReads(s: string, e: int)
    requires WritesExponent(s, e)
    ensures ValidExponentDigits(ExponentBody(s)) && ExponentValue(s, 5000) == CappedExponent(e)
    ensures s != [] && s[|s| - 1] !in "pP"
  {
    var zeros: nat :| ExponentText(s, e, Leading(zeros) + Decimal(if e < 0 then -e else e));
    hide *;
    ExponentTextReads(s, e, zeros);
  }

  lemma ExponentTextReads(s: string, e: int, zeros: nat)
    requires ExponentText(s, e, Leading(zeros) + Decimal(if e < 0 then -e else e))
    ensures ValidExponentDigits(ExponentBody(s)) && ExponentValue(s, 5000) == CappedExponent(e)
    ensures s != [] && s[|s| - 1] !in "pP"
  {
    hide *;
    var size: nat := if e < 0 then -e else e;
    var d := Leading(zeros) + Decimal(size);
    DecimalReads(zeros, size);
    ExponentSigned(s, e, d);
    SignedValue(s, e, d, size);
  }

  // Taking off the sign leaves the figures.
  lemma ExponentSigned(s: string, e: int, d: string)
    requires ExponentText(s, e, d) && Figures(d) && d != []
    ensures Bare(ExponentBody(s)) == d
    ensures s != [] && (s[0] == '-' ==> e <= 0) && (s[0] != '-' ==> e >= 0)
  {
    BareReads(s);
    assert Bare([]) == [];
    hide Bare, AllDigits, Dots, FractionDigits;
  }

  lemma SignedValue(s: string, e: int, d: string, size: nat)
    requires Bare(ExponentBody(s)) == d && Figures(d) && d != [] && DigitsVal(AllDigits(d)) == size
    requires s != [] && (s[0] == '-' ==> e <= 0) && (s[0] != '-' ==> e >= 0) && (e == size || e == 0 - size)
    ensures ValidExponentDigits(ExponentBody(s)) && ExponentValue(s, 5000) == CappedExponent(e)
    ensures s[|s| - 1] !in "pP"
  {
    hide *;
    var b := ExponentBody(s);
    BareReads(b);
    FigureChars(b);
    DigitIsNoP(b[|b| - 1]);
    EndsAlike(s);
    ReadWithSign(s, size);
    CapIs(e, size);
  }

  lemma FigureChars(s: string)
    requires Figures(Bare(s)) && Bare(s) != []
    ensures s != [] && ValidExponentDigits(s)
  {
    assert Bare([]) == [];
    BareReads(s);
    hide Bare, AllDigits, Dots, FractionDigits;
  }

  lemma EndsAlike(s: string)
    ensures s != [] && ExponentBody(s) != [] ==> ExponentBody(s)[|ExponentBody(s)| - 1] == s[|s| - 1]
    ensures ValidExponentDigits(ExponentBody(s)) ==>
      forall i :: 0 <= i < |ExponentBody(s)| ==> IsDigit(ExponentBody(s)[i]) || ExponentBody(s)[i] in "._"
  {}

  lemma ReadWithSign(s: string, size: nat)
    requires s != [] && DigitsVal(AllDigits(ExponentBody(s))) == size
    ensures ExponentValue(s, 5000) == if s[0] == '-' then -(if size <= 5000 then size else 5000) else if size <= 5000 then size else 5000
  {
    hide AllDigits, DigitsVal, ExponentBody;
  }

  lemma CapIs(e: int, size: nat)
    requires e == size || e == 0 - size
    ensures CappedExponent(e) == if e < 0 then 0 - (if size <= 5000 then size else 5000) else if size <= 5000 then size else 5000
  {}

  // A significand reads as its figures, with the period where it was put.
  lemma DigitsRead(s: string, n: nat, f: nat)
    requires WritesDigits(s, n, f)
    ensures ValidSignificand(s) && DigitsVal(AllDigits(s)) == n && FractionDigits(s) == f
    ensures forall i :: 0 <= i < |s| ==> IsDigit(s[i]) || s[i] in "._"
    ensures s != []
  {
    var zeros: nat :| DigitsText(s, f, Leading(zeros) + Decimal(n));
    hide *;
    DecimalReads(zeros, n);
    DigitsTextRead(s, f, Leading(zeros) + Decimal(n));
  }

  lemma DigitsTextRead(s: string, f: nat, d: string)
    requires DigitsText(s, f, d) && Figures(d) && d != []
    ensures ValidSignificand(s) && AllDigits(s) == AllDigits(d) && FractionDigits(s) == f
    ensures forall i :: 0 <= i < |s| ==> IsDigit(s[i]) || s[i] in "._"
    ensures s != []
  {
    hide *;
    FiguresRead(d);
    BareReads(s);
    var a, b := d, [];
    if !WholeText(s, f, d) {
      PeriodText(s, f, d);
      a, b := d[..|d| - f], d[|d| - f..];
      FiguresParts(d, |d| - f);
      PeriodReads(a, b);
      assert a + b == d;
      CharsOf(s, a, "." + b);
      assert a + "." + b == a + ("." + b);
    } else {
      WholeIs(s, f, d);
      assert d + [] == d;
      CharsOf(s, d, []);
    }
  }

  predicate WholeText(s: string, f: nat, d: string) { f == 0 && Bare(s) == d }

  lemma WholeIs(s: string, f: nat, d: string)
    requires WholeText(s, f, d)
    ensures f == 0 && Bare(s) == d
  {}

  lemma PeriodText(s: string, f: nat, d: string)
    requires DigitsText(s, f, d) && !WholeText(s, f, d)
    ensures f <= |d| && Bare(s) == d[..|d| - f] + "." + d[|d| - f..]
  {}

  lemma FiguresParts(d: string, k: nat)
    requires Figures(d) && k <= |d|
    ensures Figures(d[..k]) && Figures(d[k..])
  {}

  // A text is a valid significand if without underscores it is figures, or figures about a period.
  lemma CharsOf(s: string, a: string, b: string)
    requires Figures(a) && (b == [] || (b[0] == '.' && Figures(b[1..]))) && a + b != []
    requires Bare(s) == a + b && Dots(s) <= 1
    requires forall i :: 0 <= i < |s| ==> s[i] == '_' || s[i] in Bare(s)
    ensures ValidSignificand(s) && s != []
    ensures forall i :: 0 <= i < |s| ==> IsDigit(s[i]) || s[i] in "._"
  {
    assert Bare([]) == [];
    hide Bare, Dots;
    forall c | c in a + b ensures IsDigit(c) || c == '.' {
      if c !in a && c != '.' { assert c in b[1..]; }
    }
  }

  lemma PlaceOfE(s: string, rest: string)
    requires forall i :: 0 <= i < |s| ==> IsDigit(s[i]) || s[i] in "._"
    requires rest == [] || rest[0] in "eE"
    ensures SignificandLength(s + rest) == |s|
  {
    SignificandStops(s + rest, |s|);
  }

  // The main result: figures that write n with f of them behind the period and an exponent
  // that writes e stand for n * 10^(e - f); without an exponent, for n * 10^-f.
  lemma NumeralReads(s: string, n: nat, f: nat, mark: char, exponent: string, e: int)
    requires WritesDigits(s, n, f) && mark in "eE" && WritesExponent(exponent, e)
    ensures ValidNumeral(s) && NumeralValue(s) == n as real * Ten(0 - f)
    ensures var t := s + [mark] + exponent;
            ValidNumeral(t) && NumeralValue(t) == n as real * Ten(CappedExponent(e) - f)
  {
    hide *;
    DigitsRead(s, n, f);
    ExponentReads(exponent, e);
    PlaceOfE(s, [mark] + exponent);
    PlaceOfE(s, []);
    assert s + [mark] + exponent == s + ([mark] + exponent) && s == s + [];
    Assembled(s, n, f, mark, exponent, CappedExponent(e));
  }

  lemma Assembled(s: string, n: nat, f: nat, mark: char, exponent: string, e: int)
    requires ValidSignificand(s) && DigitsVal(AllDigits(s)) == n && FractionDigits(s) == f
    requires ValidExponentDigits(ExponentBody(exponent)) && ExponentValue(exponent, 5000) == e
    requires SignificandLength(s) == |s| == SignificandLength(s + [mark] + exponent)
    ensures ValidNumeral(s) && NumeralValue(s) == n as real * Ten(0 - f)
    ensures var t := s + [mark] + exponent; ValidNumeral(t) && NumeralValue(t) == n as real * Ten(e - f)
  {
    hide ValidSignificand, AllDigits, DigitsVal, FractionDigits, ExponentValue, Ten, SignificandLength, ValidExponentDigits, ExponentBody;
    var t := s + [mark] + exponent;
    assert t[..|s|] == s && t[|s| + 1..] == exponent && s[..|s|] == s;
  }

  // So the bytes that to_float gives for a written constant hold the nearest value to the
  // number written, where the conversion's interval leaves only one.
  lemma WrittenIsNearest(format: FloatPack.Format, minus: bool, limbs: nat, o: FloatConst.Outcome,
                         s: string, n: nat, f: nat, mark: char, exponent: string, e: int)
    requires WritesDigits(s, n, f) && mark in "eE" && WritesExponent(exponent, e)
    requires FloatPack.IsFormat(format) && FloatPack.Bits(format) < 32 * limbs
    requires FloatConst.IsOutcome(format, s + [mark] + exponent, limbs, o)
    requires o.Shifted? ==> FloatConst.PackedExactly(format, o.m, o.e, limbs)
    requires o.Shifted? ==>
      var t := s + [mark] + exponent;
      FloatNearest.Lowest(t, limbs) > 0.0 && FloatNearest.Highest(t, limbs) > 0.0 &&
      FloatNearest.Code(format, FloatNearest.Lowest(t, limbs)) == FloatNearest.Code(format, FloatNearest.Highest(t, limbs))
    ensures !o.Bad?
    ensures o.Zero? ==> n == 0 && FloatConst.OutcomeDatum(format, minus, limbs, o) == FloatNearest.DatumOf(format, minus, 0)
    ensures o.Shifted? ==>
      var x := n as real * Ten(CappedExponent(e) - f);
      x > 0.0 && FloatConst.OutcomeDatum(format, minus, limbs, o) == FloatNearest.Rounding(format, minus, x)
  {
    hide *;
    NumeralReads(s, n, f, mark, exponent, e);
    var t := s + [mark] + exponent;
    ValidIsNotBad(format, t, limbs, o);
    FloatNearest.OutcomeIsNearest(format, t, minus, limbs, o);
    TenPositive(CappedExponent(e) - f);
  }

  lemma ValidIsNotBad(format: FloatPack.Format, t: string, limbs: nat, o: FloatConst.Outcome)
    requires FloatPack.IsFormat(format) && limbs > 0 && ValidNumeral(t) && FloatConst.IsOutcome(format, t, limbs, o)
    ensures !o.Bad?
  {
    hide ValidNumeral, FloatConst.ReadsOutside, Converted;
  }

  // to_float takes such a text as it stands, unless it starts with an underscore, and behind
  // a decimal prefix.
  lemma TakenAsDecimal(s: string, n: nat, f: nat, mark: char, exponent: string, e: int, letter: char)
    requires WritesDigits(s, n, f) && mark in "eE" && WritesExponent(exponent, e) && letter in "dDtT"
    ensures s != []
    ensures s[0] != '_' ==> FloatConst.DecimalText(s) == Some(s)
    ensures var t := s + [mark] + exponent;
            (s[0] != '_' ==> FloatConst.DecimalText(t) == Some(t)) && FloatConst.DecimalText("0" + [letter] + t) == Some(t)
    ensures FloatConst.DecimalText("0" + [letter] + s) == Some(s)
  {
    hide *;
    DigitsRead(s, n, f);
    ExponentReads(exponent, e);
    var t := s + [mark] + exponent;
    assert t[0] == s[0] && t[|t| - 1] == exponent[|exponent| - 1];
    DigitIsNoP(s[|s| - 1]);
    AsItStands(s);
    AsItStands(t);
    Prefixed(letter, s);
    Prefixed(letter, t);
  }

  lemma DigitIsNoP(c: char)
    ensures IsDigit(c) || c in "._" ==> c !in "pP"
  {}

  lemma AsItStands(t: string)
    requires t != [] && t[|t| - 1] !in "pP" && (IsDigit(t[0]) || t[0] in "._")
    requires |t| > 1 ==> IsDigit(t[1]) || t[1] in "._eE"
    ensures t[0] != '_' ==> FloatConst.DecimalText(t) == Some(t)
  {}

  lemma Prefixed(letter: char, t: string)
    requires t != [] && letter in "dDtT" && t[|t| - 1] !in "pP"
    ensures FloatConst.DecimalText("0" + [letter] + t) == Some(t)
  {
    var u := "0" + [letter] + t;
    assert u[|u| - 1] == t[|t| - 1] && u[1] == letter && u[2..] == t;
  }

  // Texts with another prefix, special tokens and packed decimals are not taken as decimal.
  lemma NotTaken(t: string, letter: char)
    requires t != []
    ensures t[|t| - 1] == 'p' || t[|t| - 1] == 'P' || t[0] == '_' || t[0] == '$' ==> FloatConst.DecimalText(t).None?
    ensures letter in "xXhHoOqQbByYpP" ==> FloatConst.DecimalText("0" + [letter] + t).None?
  {
    var u := "0" + [letter] + t;
    assert u[0] == '0' && u[1] == letter;
  }

  // Fifty-two significant digits are kept exactly.
  lemma EnoughDigits(s: string)
    requires |SignificantDigits(s)| <= 52
    ensures KeptValue(s) == NumeralValue(s)
  {
    assert |SignificantDigits(s)| <= MANT_DIGITS;
    hide *;
    KeptValueNear(s);
  }
}

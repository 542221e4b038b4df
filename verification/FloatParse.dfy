// sdk/as/float.c: read_exponent and the first loop of ieee_flconvert, which take a decimal
// constant apart, against an independent reading of the same characters.
module FloatParse {
  import opened Base
  import opened Powers
  import opened FloatDigits

  // The capacity of the source's digit buffer.
  const MANT_DIGITS: nat := 52

  function DigitOf(c: char): (d: nat)
    requires IsDigit(c)
    ensures d < 10
  {
    c as int - '0' as int
  }

  // ----- What the characters mean -----

  // All the digits of s in order, whatever else is between them.
  function AllDigits(s: string): (d: seq<nat>)
    ensures forall i :: 0 <= i < |d| ==> d[i] < 10
  {
    if |s| == 0 then []
    else
      var c := s[|s| - 1];
      AllDigits(s[..|s| - 1]) + (if IsDigit(c) then [DigitOf(c)] else [])
  }

  function Dots(s: string): nat {
    if |s| == 0 then 0 else Dots(s[..|s| - 1]) + (if s[|s| - 1] == '.' then 1 else 0)
  }

  // How many digits follow the first period.
  function FractionDigits(s: string): nat {
    if |s| == 0 then 0
    else FractionDigits(s[..|s| - 1]) + (if IsDigit(s[|s| - 1]) && Dots(s[..|s| - 1]) > 0 then 1 else 0)
  }

  predicate ValidSignificand(s: string) {
    (forall i :: 0 <= i < |s| ==> IsDigit(s[i]) || s[i] == '.' || s[i] == '_') && Dots(s) <= 1
  }

  predicate ValidExponentDigits(s: string) {
    forall i :: 0 <= i < |s| ==> IsDigit(s[i]) || s[i] == '_'
  }

  function ExponentBody(s: string): string {
    if |s| > 0 && (s[0] == '+' || s[0] == '-') then s[1..] else s
  }

  // The exponent written in s, except that its size is capped.
  function ExponentValue(s: string, max: nat): int {
    var v: int := Capped(DigitsVal(AllDigits(ExponentBody(s))), max);
    if |s| > 0 && s[0] == '-' then -v else v
  }

  function Capped(v: nat, max: nat): nat {
    if v <= max then v else max
  }

  // The part before the first E.
  function SignificandLength(s: string): (k: nat)
    ensures k <= |s|
    ensures k < |s| ==> s[k] == 'E' || s[k] == 'e'
    ensures forall i :: 0 <= i < k ==> s[i] != 'E' && s[i] != 'e'
  {
    if |s| == 0 || s[0] == 'E' || s[0] == 'e' then 0 else 1 + SignificandLength(s[1..])
  }

  predicate ValidNumeral(s: string) {
    var k := SignificandLength(s);
    ValidSignificand(s[..k]) && (k < |s| ==> ValidExponentDigits(ExponentBody(s[k + 1..])))
  }

  // The significand and the power of ten: the numeral is DigitsVal * 10^(exponent - fraction).
  function Significand(s: string): nat {
    DigitsVal(AllDigits(s[..SignificandLength(s)]))
  }

  function DecimalExponent(s: string): int {
    var k := SignificandLength(s);
    (if k < |s| then ExponentValue(s[k + 1..], 5000) else 0) - FractionDigits(s[..k])
  }

  // ----- Digits without leading zeros -----

  function StripZeros(d: seq<nat>): (r: seq<nat>)
    ensures |r| <= |d|
    ensures |r| > 0 ==> r[0] != 0
  {
    if |d| == 0 || d[0] != 0 then d else StripZeros(d[1..])
  }

  lemma {:induction false} StripZerosVal(d: seq<nat>)
    ensures DigitsVal(StripZeros(d)) == DigitsVal(d)
  {
    if |d| > 0 && d[0] == 0 {
      StripZerosVal(d[1..]);
      DigitsHead(d);
    }
  }

  lemma {:induction false} StripZerosAppend(d: seq<nat>, x: nat)
    ensures StripZeros(d + [x]) == if StripZeros(d) == [] && x == 0 then [] else StripZeros(d) + [x]
  {
    if |d| == 0 {
      assert d + [x] == [x];
      assert StripZeros([x][1..]) == [];
    } else if d[0] == 0 {
      StripZerosAppend(d[1..], x);
      assert (d + [x])[1..] == d[1..] + [x];
    }
  }

  // Keeping the first p of the digits drops the rest of the number, truncating it.
  lemma {:induction false} KeptDigits(d: seq<nat>, p: nat)
    requires p <= |d| && forall i :: 0 <= i < |d| ==> d[i] < 10
    ensures DigitsVal(d[..p]) == DigitsVal(d) / Pow10(|d| - p)
    ensures p == |d| ==> DigitsVal(d[..p]) == DigitsVal(d)
  {
    if p == |d| {
      assert d[..p] == d;
    } else {
      var n := |d| - 1;
      KeptDigits(d[..n], p);
      assert d[..n][..p] == d[..p];
      DivModUnique(DigitsVal(d), 10, DigitsVal(d[..n]), d[n]);
      DivDiv(DigitsVal(d), 10, Pow10(n - p));
    }
  }

  // ----- The code -----

  // One more character of an exponent.
  lemma ExponentStep(b: string, j: nat, max: nat)
    requires j < |b| && ValidExponentDigits(b[..j])
    ensures ValidExponentDigits(b[..j + 1]) <==> IsDigit(b[j]) || b[j] == '_'
    ensures var v := DigitsVal(AllDigits(b[..j]));
            DigitsVal(AllDigits(b[..j + 1])) == if IsDigit(b[j]) then v * 10 + DigitOf(b[j]) else v
  {
    assert b[..j + 1][..j] == b[..j] && b[..j + 1][j] == b[j];
    var d := AllDigits(b[..j]);
    if IsDigit(b[j]) {
      assert (d + [DigitOf(b[j])])[..|d|] == d;
    } else {
      assert d + [] == d;
    }
    if IsDigit(b[j]) || b[j] == '_' {
      assert forall i :: 0 <= i < j ==> b[..j][i] == b[i];
    }
  }

  // The characters of b before j are valid and write i, or more than max.
  ghost predicate ReadSoFar(b: string, j: nat, max: nat, i: nat) {
    j <= |b| && ValidExponentDigits(b[..j]) && i == Capped(DigitsVal(AllDigits(b[..j])), max)
  }

  lemma ReadStep(b: string, j: nat, max: nat, i: nat)
    requires j < |b| && ReadSoFar(b, j, max, i)
    ensures IsDigit(b[j]) ==> ReadSoFar(b, j + 1, max, Capped(i * 10 + DigitOf(b[j]), max))
    ensures b[j] == '_' ==> ReadSoFar(b, j + 1, max, i)
    ensures !IsDigit(b[j]) && b[j] != '_' ==> !ValidExponentDigits(b)
  {
    ExponentStep(b, j, max);
    hide AllDigits, DigitsVal;
  }

  lemma ReadEnds(s: string, max: nat, i: nat)
    ensures ReadSoFar(ExponentBody(s), 0, max, 0)
    ensures ReadSoFar(ExponentBody(s), |ExponentBody(s)|, max, i) ==>
              ValidExponentDigits(ExponentBody(s)) && ExponentValue(s, max) == if s != [] && s[0] == '-' then 0 - i else i
  {
    var b := ExponentBody(s);
    assert b[..0] == [] && b[..|b|] == b;
    assert AllDigits([]) == [] && DigitsVal([]) == 0;
    hide AllDigits, DigitsVal, ExponentBody;
  }

  lemma BodyIs(s: string, k: nat)
    requires k == (if s != [] && (s[0] == '+' || s[0] == '-') then 1 else 0)
    ensures ExponentBody(s) == s[k..]
  {}

  lemma CappedIs(v: nat, max: nat)
    ensures Capped(v, max) == if v > max then max else v
  {}

  method ReadExponent(s: string, max: nat) returns (r: Option<int>)
    ensures r.Some? <==> ValidExponentDigits(ExponentBody(s))
    ensures r.Some? ==> r.value == ExponentValue(s, max)
  {
    hide *;
    var i: nat, neg, k := 0, false, 0;
    if |s| > 0 && s[0] == '+' {
      k := 1;
    } else if |s| > 0 && s[0] == '-' {
      neg := true;
      k := 1;
    }
    ghost var k0 := k;
    ghost var b := ExponentBody(s);
    BodyIs(s, k0);
    ReadEnds(s, max, 0);
    while k < |s|
      invariant k0 <= k <= |s| && ReadSoFar(b, k - k0, max, i)
    {
      ReadStep(b, k - k0, max, i);
      assert b[k - k0] == s[k];
      if IsDigit(s[k]) {
        i := i * 10 + DigitOf(s[k]);
        CappedIs(i, max);
        if i > max {
          i := max;
        }
      } else if s[k] != '_' {
        return None;
      }
      k := k + 1;
    }
    ReadEnds(s, max, i);
    var e: int := i;
    return Some(if neg then -e else e);
  }

  // What the scanning loop holds after the characters b: the significant digits that fit
  // the buffer, and the power of ten of 0.ddd.
  ghost predicate Scanned(b: string, digits: seq<nat>, tenpwr: int, started: bool, seendot: bool) {
    var sig := StripZeros(AllDigits(b));
    ValidSignificand(b) && (seendot <==> Dots(b) > 0) && (started <==> sig != []) &&
    tenpwr == |sig| - FractionDigits(b) &&
    digits == sig[..if |sig| <= MANT_DIGITS then |sig| else MANT_DIGITS]
  }

  lemma ScanDigit(b: string, c: char, digits: seq<nat>, tenpwr: int, started: bool, seendot: bool)
    requires Scanned(b, digits, tenpwr, started, seendot) && IsDigit(c)
    ensures c == '0' && !started ==> Scanned(b + [c], digits, if seendot then tenpwr - 1 else tenpwr, started, seendot)
    ensures c != '0' || started ==>
      Scanned(b + [c], if |digits| < MANT_DIGITS then digits + [DigitOf(c)] else digits,
              if seendot then tenpwr else tenpwr + 1, true, seendot)
  {
    assert (b + [c])[..|b|] == b;
    assert AllDigits(b + [c]) == AllDigits(b) + [DigitOf(c)];
    StripZerosAppend(AllDigits(b), DigitOf(c));
    ValidAppend(b, c);
    assert DigitOf(c) == 0 <==> c == '0';
    var sig := StripZeros(AllDigits(b));
    if c != '0' || started {
      var sig' := sig + [DigitOf(c)];
      if |sig| < MANT_DIGITS {
        assert digits == sig;
        assert sig'[..|sig'|] == sig';
      } else {
        assert sig'[..MANT_DIGITS] == sig[..MANT_DIGITS];
      }
    }
  }

  lemma ValidAppend(b: string, c: char)
    ensures ValidSignificand(b + [c]) <==>
            ValidSignificand(b) && (IsDigit(c) || c == '_' || (c == '.' && Dots(b) == 0))
  {}

  lemma ScanOther(b: string, c: char, digits: seq<nat>, tenpwr: int, started: bool, seendot: bool)
    requires Scanned(b, digits, tenpwr, started, seendot) && (c == '_' || (c == '.' && !seendot))
    ensures Scanned(b + [c], digits, tenpwr, started, seendot || c == '.')
  {
    assert (b + [c])[..|b|] == b;
    assert AllDigits(b + [c]) == AllDigits(b) + [] == AllDigits(b);
    ValidAppend(b, c);
  }

  // A prefix that is no significand cannot be completed to one.
  lemma {:induction false} InvalidPrefix(s: string, k: nat)
    requires k <= |s| && !ValidSignificand(s[..k])
    ensures !ValidSignificand(s)
    decreases |s| - k
  {
    if k == |s| {
      assert s[..k] == s;
    } else {
      assert s[..k + 1] == s[..k] + [s[k]];
      ValidAppend(s[..k], s[k]);
      InvalidPrefix(s, k + 1);
    }
  }

  lemma {:induction false} SignificandStops(s: string, k: nat)
    requires k <= |s| && (k < |s| ==> s[k] == 'E' || s[k] == 'e')
    requires forall i :: 0 <= i < k ==> s[i] != 'E' && s[i] != 'e'
    ensures SignificandLength(s) == k
  {}

  // The scanning loop: fills the digit buffer and returns how much of it is used, the
  // power of ten so far and where the scan stopped.
  method ScanSignificand(s: string, digits: array<Digit>)
    returns (ok: bool, p: nat, tenpwr: int, k: nat)
    requires digits.Length == MANT_DIGITS
    modifies digits
    ensures ok <==> ValidSignificand(s[..SignificandLength(s)])
    ensures ok ==> k == SignificandLength(s) && p <= MANT_DIGITS
    ensures ok ==> exists started, seendot :: Scanned(s[..k], digits[..p], tenpwr, started, seendot)
  {
    hide Scanned, ValidSignificand;
    p, tenpwr, k, ok := 0, 0, 0, true;
    var started, seendot := false, false;
    ScanStart(s, digits[..0]);
    while k < |s| && s[k] != 'E' && s[k] != 'e'
      invariant k <= |s| && p <= MANT_DIGITS && ok
      invariant forall i :: 0 <= i < k ==> s[i] != 'E' && s[i] != 'e'
      invariant Scanned(s[..k], digits[..p], tenpwr, started, seendot)
    {
      ghost var b, d: seq<nat> := s[..k], digits[..p];
      assert s[..k + 1] == b + [s[k]];
      ghost var len := SignificandLength(s);
      assert k < len;
      if s[k] == '.' && !seendot {
        ScanOther(b, s[k], d, tenpwr, started, seendot);
        seendot := true;
      } else if IsDigit(s[k]) {
        ScanDigit(b, s[k], d, tenpwr, started, seendot);
        if s[k] == '0' && !started {
          if seendot {
            tenpwr := tenpwr - 1;
          }
        } else {
          started := true;
          if p < MANT_DIGITS {
            digits[p] := DigitOf(s[k]);
            p := p + 1;
            assert digits[..p] == d + [DigitOf(s[k])];
          }
          if !seendot {
            tenpwr := tenpwr + 1;
          }
        }
      } else if s[k] == '_' {
        ScanOther(b, s[k], d, tenpwr, started, seendot);
      } else {
        ScanStops(b, s[k], d, tenpwr, started, seendot);
        assert s[..len][..k + 1] == s[..k + 1];
        InvalidPrefix(s[..len], k + 1);
        ok := false;
        return;
      }
      k := k + 1;
    }
    SignificandStops(s, k);
    ScannedValid(s[..k], digits[..p], tenpwr, started, seendot);
  }

  lemma ScanStart(s: string, d: seq<nat>)
    requires d == []
    ensures Scanned(s[..0], d, 0, false, false)
  {}

  lemma ScannedValid(b: string, d: seq<nat>, tenpwr: int, started: bool, seendot: bool)
    requires Scanned(b, d, tenpwr, started, seendot)
    ensures ValidSignificand(b)
  {}

  // A second period, or any other character, is an error.
  lemma ScanStops(b: string, c: char, d: seq<nat>, tenpwr: int, started: bool, seendot: bool)
    requires Scanned(b, d, tenpwr, started, seendot)
    requires !IsDigit(c) && c != '_' && (c == '.' ==> seendot)
    ensures !ValidSignificand(b + [c])
  {}
}

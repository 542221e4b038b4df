// sdk/as/float.c: ieee_round, rounding a mantissa to its top `bits' bits in place.
module FloatRound {
  import opened Powers
  import opened Limbs

  datatype RoundMode = Near | TowardZero | Up | Down

  // ----- The number-level meaning -----

  // One unit of the last kept bit, for a mantissa of n limbs.
  function Unit(n: nat, bits: nat): (u: nat)
    requires bits <= 32 * n
    ensures u >= 1
  {
    Pow2(32 * n - bits)
  }

  // Half a unit: the first bit that is rounded away.
  function Half(n: nat, bits: nat): (h: nat)
    requires bits < 32 * n
    ensures h >= 1 && Unit(n, bits) == 2 * h
  {
    Pow2(32 * n - bits - 1)
  }

  // Round to a multiple of u, ties to the even multiple (IEEE 754-2008, section 4.3.1).
  function RoundHalfEven(v: nat, u: nat): (r: int)
    requires u > 0
    ensures r >= 0
  {
    var q, r := v / u, v % u;
    if 2 * r > u || (2 * r == u && q % 2 == 1) then q + 1 else q
  }

  // ROUND_ABS_UP is taken, rather than ROUND_ABS_DOWN.
  predicate RoundsUp(mode: RoundMode, minus: bool, v: nat, h: nat)
    requires h > 0
  {
    match mode
    case Near => v / h % 2 == 1 && (v % h != 0 || v / (2 * h) % 2 == 1)
    case TowardZero => false
    case Up => !minus && v % (2 * h) != 0
    case Down => minus && v % (2 * h) != 0
  }

  // The mantissa ieee_round leaves behind. Bits below the half bit are cleared; the
  // half bit itself survives when rounding down.
  function Rounded(mode: RoundMode, minus: bool, v: nat, n: nat, bits: nat): int
    requires bits < 32 * n
  {
    var h := Half(n, bits);
    var cleared := v - v % h;
    if !RoundsUp(mode, minus, v, h) then cleared
    else if cleared + h < Weight(n) then cleared + h
    else cleared + h - Weight(n)
  }

  // ----- From limbs to the number -----

  // The weight of limb i times one of its bits, d, is a power of two of the number.
  lemma BitWeight(n: nat, b: nat)
    requires b < 32 * n
    ensures Half(n, b) == Weight(n - 1 - b / 32) * Pow2(31 - b % 32)
  {
    var i, p := b / 32, b % 32;
    assert 32 * n - b - 1 == 32 * (n - 1 - i) + (31 - p);
    Pow2Add(32 * (n - 1 - i), 31 - p);
  }

  // Limbs above a limb do not show through in its bits below d, where 2 * d * e == 2^32.
  lemma LimbBits(hi: nat, x: nat, d: nat, e: nat)
    requires d > 0 && 2 * d * e == BASE
    ensures (hi * BASE + x) / d % 2 == x / d % 2
    ensures (hi * BASE + x) % d == x % d
  {
    MulAssoc(hi * e, 2, d);
    MulAssoc(hi, e, 2 * d);
    assert e * (2 * d) == BASE;
    DivModShift(hi * e * 2, x, d);
    DivModShift(hi * e, x / d, 2);
  }

  lemma LimbBitsBelow(hi: nat, x: nat, d: nat, e: nat)
    requires d > 0 && 2 * d * e == BASE
    ensures (hi * BASE + x) % (2 * d) == x % (2 * d)
  {
    MulAssoc(hi, e, 2 * d);
    assert e * (2 * d) == BASE;
    DivModShift(hi * e, x, 2 * d);
  }

  lemma AroundWeight(v: nat, y: nat, lo: nat, w: nat, d: nat)
    requires w > 0 && d > 0 && lo < w && v == y * w + lo
    ensures w * d > 0 && v / (w * d) == y / d && v % (w * d) == y % d * w + lo
  {
    DivModUnique(v, w, y, lo);
    DivDiv(v, w, d);
  }

  // Reading a number around bit d of the limb x that has weight w.
  lemma AroundLimb(v: nat, hi: nat, x: nat, lo: nat, w: nat, d: nat, e: nat, h: nat)
    requires w > 0 && d > 0 && e > 0 && lo < w && 2 * d * e == BASE && h == w * d
    requires v == (hi * BASE + x) * w + lo
    ensures h > 0
    ensures v / h % 2 == x / d % 2
    ensures v % h == x % d * w + lo
    ensures v % (2 * h) == x % (2 * d) * w + lo
  {
    AroundWeight(v, hi * BASE + x, lo, w, d);
    AroundWeight(v, hi * BASE + x, lo, w, 2 * d);
    assert w * (2 * d) == 2 * h;
    LimbBits(hi, x, d, e);
    LimbBitsBelow(hi, x, d, e);
  }

  lemma SplitAtLimb(s: seq<nat>, i: nat)
    requires IsLimbs(s) && i < |s|
    ensures Val(s) == (Val(s[..i]) * BASE + s[i]) * Weight(|s| - 1 - i) + Val(s[i + 1..])
    ensures Val(s[i + 1..]) < Weight(|s| - 1 - i)
  {
    hide *;
    LastLimb(s, i);
    ValSplit(s, i + 1);
    ValBound(s[i + 1..]);
    MulEqual(Val(s[..i + 1]), Val(s[..i]) * BASE + s[i], Weight(|s| - 1 - i));
  }

  lemma LastLimb(s: seq<nat>, i: nat)
    requires i < |s| && IsLimbs(s)
    ensures Val(s[..i + 1]) == Val(s[..i]) * BASE + s[i]
    ensures IsLimbs(s[i + 1..])
  {
    assert s[..i + 1][..i] == s[..i];
  }

  lemma AroundBit(s: seq<nat>, i: nat, d: nat, e: nat, h: nat)
    requires IsLimbs(s) && i < |s| && d > 0 && e > 0 && 2 * d * e == BASE
    requires h == Weight(|s| - 1 - i) * d
    ensures h > 0
    ensures Val(s) / h % 2 == s[i] / d % 2
    ensures Val(s) % h == s[i] % d * Weight(|s| - 1 - i) + Val(s[i + 1..])
    ensures Val(s) % (2 * h) == s[i] % (2 * d) * Weight(|s| - 1 - i) + Val(s[i + 1..])
  {
    hide Weight, Val;
    SplitAtLimb(s, i);
    AroundLimb(Val(s), Val(s[..i]), s[i], Val(s[i + 1..]), Weight(|s| - 1 - i), d, e, h);
  }

  // test_bit: bits are numbered from the most significant, 0, down.
  function TestBit(s: seq<nat>, b: nat): int
    requires b < 32 * |s|
  {
    s[b / LIMB_BITS] / Pow2(31 - b % LIMB_BITS) % 2
  }

  lemma LimbBitSplit(p: nat)
    requires p < 32
    ensures 2 * Pow2(31 - p) * Pow2(p) == BASE
  {
    Pow2Add(31 - p, p);
    Pow2Literals();
    MulAssoc(2, Pow2(31 - p), Pow2(p));
  }

  lemma TestBitMeaning(s: seq<nat>, b: nat)
    requires IsLimbs(s) && b < 32 * |s|
    ensures TestBit(s, b) == Val(s) / Half(|s|, b) % 2
  {
    LimbBitSplit(b % 32);
    BitWeight(|s|, b);
    hide Val, Weight, Half, Pow2;
    AroundBit(s, b / 32, Pow2(31 - b % 32), Pow2(b % 32), Half(|s|, b));
  }

  lemma {:induction false} ValZeroIffAllZero(s: seq<nat>)
    ensures Val(s) == 0 <==> forall j :: 0 <= j < |s| ==> s[j] == 0
  {
    if |s| > 0 {
      var n := |s| - 1;
      ValZeroIffAllZero(s[..n]);
      assert (forall j :: 0 <= j < |s| ==> s[j] == 0) <==>
             (forall j :: 0 <= j < n ==> s[..n][j] == 0) && s[n] == 0;
    }
  }

  // What a limb and all the limbs below it hold together is zero only when each is.
  lemma TailZero(x: nat, w: nat, lo: nat)
    requires w > 0
    ensures x * w + lo == 0 <==> x == 0 && lo == 0
  {}

  // ----- The in-place code -----

  // ROUND_COLLECT_BITS: the source ors words into m and only ever compares m with zero.
  method CollectBits(mant: array<Limb>, i: nat, bit: nat) returns (m: bool)
    requires i < mant.Length && bit > 0
    ensures m <==> mant[i] % (2 * bit) != 0 || Val(mant[i + 1..]) != 0
  {
    m := mant[i] % (2 * bit) != 0;
    var j := i + 1;
    while j < mant.Length
      invariant i < j <= mant.Length
      invariant m <==> mant[i] % (2 * bit) != 0 || exists k :: i < k < j && mant[k] != 0
    {
      m := m || mant[j] != 0;
      j := j + 1;
    }
    ghost var t: seq<nat> := mant[i + 1..];
    ValZeroIffAllZero(t);
    assert forall k :: 0 <= k < |t| ==> t[k] == mant[i + 1 + k];
    if exists k :: i < k < mant.Length && mant[k] != 0 {
      var k :| i < k < mant.Length && mant[k] != 0;
      assert t[k - i - 1] != 0;
    }
  }

  // The tail of both rounding macros: the limbs below limb i become zero.
  method ClearBelow(mant: array<Limb>, i: nat)
    requires i < mant.Length
    modifies mant
    ensures forall k :: 0 <= k <= i ==> mant[k] == old(mant[k])
    ensures forall k :: i < k < mant.Length ==> mant[k] == 0
  {
    var j := i + 1;
    while j < mant.Length
      invariant i < j <= mant.Length
      invariant forall k :: 0 <= k <= i ==> mant[k] == old(mant[k])
      invariant forall k :: i < k < j ==> mant[k] == 0
    {
      mant[j] := 0;
      j := j + 1;
    }
  }

  // The number once limb i is y and the limbs below it are zero.
  lemma ReplaceTail(s: seq<nat>, t: seq<nat>, i: nat)
    requires |s| == |t| && i < |s| && IsLimbs(s) && IsLimbs(t)
    requires t[..i] == s[..i] && forall k :: i < k < |t| ==> t[k] == 0
    ensures Val(t) == Val(s) - Val(s[i + 1..]) + (t[i] as int - s[i]) * Weight(|s| - 1 - i)
  {
    hide Weight, Val;
    SplitAtLimb(s, i);
    SplitAtLimb(t, i);
    ValZeros(t[i + 1..]);
    MovedLimb(Val(s[..i]) * BASE, s[i], t[i], Weight(|s| - 1 - i));
  }

  lemma MovedLimb(a: int, x: int, y: int, w: int)
    ensures (a + y) * w == (a + x) * w + (y - x) * w
  {}

  // ROUND_ABS_DOWN. The half bit of the number is h.
  method AbsDown(mant: array<Limb>, i: nat, bit: nat, ghost e: nat, ghost h: nat)
    requires i < mant.Length && bit > 0 && e > 0 && 2 * bit * e == BASE
    requires h == Weight(mant.Length - 1 - i) * bit
    modifies mant
    ensures h > 0 && Val(mant[..]) == old(Val(mant[..])) - old(Val(mant[..])) % h
  {
    hide Val, Weight;
    ghost var s: seq<nat> := mant[..];
    mant[i] := mant[i] - mant[i] % bit;
    ClearBelow(mant, i);
    ClearedVal(s, mant[..], i, bit, e, h);
  }

  lemma ClearedVal(s: seq<nat>, t: seq<nat>, i: nat, bit: nat, e: nat, h: nat)
    requires |s| == |t| && i < |s| && IsLimbs(s) && IsLimbs(t) && bit > 0 && e > 0 && 2 * bit * e == BASE
    requires h == Weight(|s| - 1 - i) * bit
    requires t[..i] == s[..i] && t[i] == s[i] - s[i] % bit && forall k :: i < k < |t| ==> t[k] == 0
    ensures h > 0 && Val(t) == Val(s) - Val(s) % h
  {
    hide Weight, Val;
    AroundBit(s, i, bit, e, h);
    ReplaceTail(s, t, i);
    ClearedLimb(s[i], t[i], bit, Weight(|s| - 1 - i));
  }

  lemma ClearedLimb(x: nat, y: nat, bit: nat, w: int)
    requires bit > 0 && y == x - x % bit
    ensures (y as int - x) * w == -(x % bit * w)
  {}

  // ROUND_ABS_UP: add the bit, clear what is below, ripple the carry up the limbs.
  method AbsUp(mant: array<Limb>, i: nat, bit: nat, ghost e: nat, ghost h: nat) returns (ret: bool)
    requires i < mant.Length && bit > 0 && e > 0 && 2 * bit * e == BASE
    requires h == Weight(mant.Length - 1 - i) * bit
    modifies mant
    ensures h > 0
    ensures var t := old(Val(mant[..])) - old(Val(mant[..])) % h + h;
            Val(mant[..]) == if t < Weight(mant.Length) then t else t - Weight(mant.Length)
    ensures ret <==> mant[0] == 0
  {
    hide Weight, Val;
    ghost var s: seq<nat> := mant[..];
    AroundBit(s, i, bit, e, h);
    ghost var target := Val(s) - Val(s) % h + h;
    CarryOut(mant[i], bit, e);
    mant[i] := (mant[i] - mant[i] % bit + bit) % BASE;
    ClearBelow(mant, i);
    RaisedVal(s, mant[..], i, bit, e, h);
    var k := i;
    while k > 0 && mant[k] == 0
      invariant 0 <= k < mant.Length
      invariant Val(mant[..]) + Pending(mant[..], k) == target
    {
      ghost var t: seq<nat> := mant[..];
      k := k - 1;
      mant[k] := (mant[k] + 1) % BASE;
      CarryStep(t, mant[..], k);
    }
    CarryEnd(mant[..], k, target);
    ret := mant[0] == 0;
  }

  // The carry still owed to the limb above limb k: limb k has wrapped to zero.
  ghost function Pending(s: seq<nat>, k: nat): nat
    requires k < |s|
  {
    if s[k] == 0 then Weight(|s| - k) else 0
  }

  lemma CarryOut(x: nat, bit: nat, e: nat)
    requires x < BASE && bit > 0 && e > 0 && 2 * bit * e == BASE
    ensures 0 < x - x % bit + bit <= BASE
  {
    var q := x / bit;
    assert q * bit == x - x % bit;
    assert 2 * e * bit == BASE by { MulAssoc(2, e, bit); MulAssoc(2, bit, e); }
    QuotientBelow(q, 2 * e, bit);
  }

  lemma QuotientBelow(q: nat, t: nat, d: nat)
    requires d > 0 && q * d < t * d
    ensures q < t && q * d + d <= t * d
  {
    if q >= t {
      MulMonotone(t, q, d);
    } else {
      MulMonotone(q + 1, t, d);
      MulDistrib(q, 1, d);
    }
  }

  lemma RaisedVal(s: seq<nat>, t: seq<nat>, i: nat, bit: nat, e: nat, h: nat)
    requires |s| == |t| && i < |s| && IsLimbs(s) && IsLimbs(t) && bit > 0 && e > 0 && 2 * bit * e == BASE
    requires h == Weight(|s| - 1 - i) * bit
    requires t[..i] == s[..i] && t[i] == (s[i] - s[i] % bit + bit) % BASE
    requires forall k :: i < k < |t| ==> t[k] == 0
    ensures h > 0 && Val(t) + Pending(t, i) == Val(s) - Val(s) % h + h
  {
    hide Weight, Val;
    WeightStep(|s| - 1 - i);
    CarryOut(s[i], bit, e);
    ReplaceTail(s, t, i);
    AroundBit(s, i, bit, e, h);
    RaisedLimb(s[i], t[i], bit, Weight(|s| - 1 - i));
  }

  lemma RaisedLimb(x: nat, y: nat, bit: nat, w: int)
    requires bit > 0 && 0 < x - x % bit + bit <= BASE && y == (x - x % bit + bit) % BASE
    ensures (y as int - x) * w + (if y == 0 then w * BASE else 0) == w * bit - x % bit * w
  {
    var r: int := x % bit;
    assert y == if x - r + bit == BASE then 0 else x - r + bit;
    MulDistrib(bit, -r, w);
    MulDistrib(bit - r, -BASE, w);
  }

  lemma CarryStep(s: seq<nat>, t: seq<nat>, k: nat)
    requires k + 1 < |s| && IsLimbs(s) && s[k + 1] == 0 && t == s[k := (s[k] + 1) % BASE]
    ensures Val(t) + Pending(t, k) == Val(s) + Pending(s, k + 1)
  {
    hide *;
    LimbAt(s, k);
    ValUpdate(s, k, t[k]);
    PendingIs(s, k + 1);
    PendingIs(t, k);
    WeightStep(|s| - 1 - k);
    CarriedLimb(s[k], t[k], Weight(|s| - 1 - k));
  }

  lemma LimbAt(s: seq<nat>, k: nat)
    requires k < |s| && IsLimbs(s)
    ensures s[k] < BASE
  {}

  lemma PendingIs(s: seq<nat>, k: nat)
    requires k < |s|
    ensures Pending(s, k) == if s[k] == 0 then Weight(|s| - k) else 0
  {}

  lemma CarriedLimb(x: nat, y: nat, w: int)
    requires x < BASE && y == (x + 1) % BASE
    ensures (y as int - x) * w + (if y == 0 then w * BASE else 0) == w
  {
    assert y == if x + 1 == BASE then 0 else x + 1;
    if y == 0 {
      MulDistrib(1, -BASE, w);
    }
  }

  lemma CarryEnd(s: seq<nat>, k: nat, target: nat)
    requires k < |s| && IsLimbs(s) && (k == 0 || s[k] != 0)
    requires Val(s) + Pending(s, k) == target
    ensures Val(s) == if target < Weight(|s|) then target else target - Weight(|s|)
  {
    ValBound(s);
  }

  method IeeeRound(mode: RoundMode, minus: bool, mant: array<Limb>, bits: nat) returns (ret: bool)
    requires 0 < bits < 32 * mant.Length
    modifies mant
    ensures Val(mant[..]) == Rounded(mode, minus, old(Val(mant[..])), mant.Length, bits)
    ensures ret <==> mant[0] == 0 && RoundsUp(mode, minus, old(Val(mant[..])), Half(mant.Length, bits))
  {
    hide Val, Weight, Half, Pow2;
    ghost var s: seq<nat> := mant[..];
    var i, p := bits / LIMB_BITS, bits % LIMB_BITS;
    var bit := Pow2(31 - p);
    ghost var e, h := Pow2(p), Half(mant.Length, bits);
    LimbBitSplit(p);
    BitWeight(mant.Length, bits);
    var up := RoundDecision(mode, minus, mant, i, bit, bits);
    assert mant[..] == s;
    if up {
      ret := AbsUp(mant, i, bit, e, h);
    } else {
      AbsDown(mant, i, bit, e, h);
      ret := false;
    }
  }

  // The tests of ieee_round: which of the two macros is reached.
  method RoundDecision(mode: RoundMode, minus: bool, mant: array<Limb>, i: nat, bit: nat, bits: nat) returns (up: bool)
    requires 0 < bits < 32 * mant.Length && i == bits / 32 && bit == Pow2(31 - bits % 32)
    modifies mant
    ensures mant[..] == old(mant[..])
    ensures up <==> RoundsUp(mode, minus, Val(mant[..]), Half(mant.Length, bits))
  {
    hide Val, Pow2;
    DecisionMeaning(mode, minus, mant[..], bits);
    if mode == Near {
      if mant[i] / bit % 2 == 1 {
        up := NearTail(mant, i, bit, bits);
      } else {
        up := false;
      }
    } else if mode == TowardZero || mode == (if minus then Up else Down) {
      up := false;
    } else {
      up := CollectBits(mant, i, bit);
    }
  }

  // The tests on limbs decide what RoundsUp says of the number.
  lemma DecisionMeaning(mode: RoundMode, minus: bool, s: seq<nat>, bits: nat)
    requires IsLimbs(s) && 0 < bits < 32 * |s|
    ensures var i, bit := bits / 32, Pow2(31 - bits % 32);
            RoundsUp(mode, minus, Val(s), Half(|s|, bits)) <==>
            match mode
            case Near => s[i] / bit % 2 == 1 &&
              (s[i] % bit != 0 || Val(s[i + 1..]) != 0 || Val(s) / Unit(|s|, bits) % 2 == 1)
            case TowardZero => false
            case Up => !minus && (s[i] % (2 * bit) != 0 || Val(s[i + 1..]) != 0)
            case Down => minus && (s[i] % (2 * bit) != 0 || Val(s[i + 1..]) != 0)
  {
    var i, bit, h := bits / 32, Pow2(31 - bits % 32), Half(|s|, bits);
    assert Unit(|s|, bits) == 2 * h;
    LimbBitSplit(bits % 32);
    BitWeight(|s|, bits);
    hide Val, Weight, Half, Unit, Pow2;
    AroundBit(s, i, bit, Pow2(bits % 32), h);
    var w := Weight(|s| - 1 - i);
    TailZero(s[i] % (2 * bit), w, Val(s[i + 1..]));
    TailZero(s[i] % bit, w, Val(s[i + 1..]));
  }

  // Nearest with the half bit set: any lower bit rounds up, a tie goes to the even side.
  method NearTail(mant: array<Limb>, i: nat, bit: nat, bits: nat) returns (up: bool)
    requires 0 < bits < 32 * mant.Length && i == bits / 32 && bit == Pow2(31 - bits % 32)
    requires mant[i] / bit % 2 == 1
    modifies mant
    ensures mant[..] == old(mant[..])
    ensures up <==> mant[i] % bit != 0 || Val(mant[i + 1..]) != 0 || Val(mant[..]) / Unit(mant.Length, bits) % 2 == 1
  {
    hide Val, Pow2;
    ghost var s: seq<nat> := mant[..];
    HalfBitOff(mant[i], bit);
    mant[i] := mant[i] - bit;
    var m := CollectBits(mant, i, bit);
    assert mant[i + 1..] == s[i + 1..];
    mant[i] := mant[i] + bit;
    assert mant[..] == s;
    TestBitMeaning(s, bits - 1);
    up := m || TestBit(mant[..], bits - 1) == 1;
  }

  lemma HalfBitOff(x: nat, bit: nat)
    requires bit > 0 && x / bit % 2 == 1
    ensures x >= bit
    ensures (x - bit) % (2 * bit) == x % bit
  {
    var q := x / bit;
    assert x == q * bit + x % bit;
    MulMonotone(1, q, bit);
    assert q == 2 * (q / 2) + 1;
    MulDistrib(2 * (q / 2), 1, bit);
    assert 2 * (q / 2) * bit == q / 2 * (2 * bit) by { MulAssoc(q / 2, 2, bit); }
    DivModUnique(x - bit, 2 * bit, q / 2, x % bit);
  }

  // ----- What the rounding achieves -----

  lemma HalfSplit(v: nat, h: nat)
    requires h > 0
    ensures v == v / (2 * h) * (2 * h) + v % (2 * h)
    ensures v % (2 * h) == v / h % 2 * h + v % h
    ensures v - v % h == v / (2 * h) * (2 * h) + v / h % 2 * h
  {
    DivDiv(v, h, 2);
    assert h * 2 == 2 * h;
  }

  // Every quotient of an n-limb number by a unit fits in the top bits.
  lemma QuotientFits(v: nat, n: nat, bits: nat)
    requires 0 < bits < 32 * n && v < Weight(n)
    ensures Weight(n) == Pow2(bits) * Unit(n, bits)
    ensures 0 <= v / Unit(n, bits) < Pow2(bits)
    ensures v / Unit(n, bits) * Unit(n, bits) <= v < v / Unit(n, bits) * Unit(n, bits) + Unit(n, bits) <= Weight(n)
    ensures Pow2(bits) >= 2
  {
    var u, top := Unit(n, bits), Pow2(bits);
    assert Weight(n) == top * u by { Pow2Add(bits, 32 * n - bits); }
    assert top >= 2;
    hide Weight, Unit, Pow2;
    BelowProduct(v, top, u);
  }

  lemma BelowProduct(v: nat, top: nat, u: nat)
    requires u > 0 && v < top * u
    ensures 0 <= v / u < top && v / u * u <= v < v / u * u + u <= top * u
  {
    var q := v / u;
    assert v == q * u + v % u;
    QuotientBelow(q, top, u);
  }

  // q + 1 units, kept below top units by dropping a whole turn.
  lemma NextUnit(q: nat, top: nat, u: nat)
    requires u > 0 && q < top && top >= 2
    ensures q * u + u == (q + 1) * u
    ensures (q + 1) % top == if q + 1 == top then 0 else q + 1
    ensures q + 1 < top <==> q * u + u < top * u
    ensures q + 1 < top ==> (q * u + u) / u == q + 1
  {
    MulDistrib(q, 1, u);
    if q + 1 == top {
      DivModUnique(top, top, 1, 0);
    } else {
      DivModUnique(q + 1, top, 0, q + 1);
      MulMonotone(q + 2, top, u);
      MulDistrib(q + 1, 1, u);
      DivModUnique((q + 1) * u, u, q + 1, 0);
    }
  }

  // A value that rounding leaves: the old quotient, with the half bit perhaps set.
  lemma SameUnit(q: nat, c: nat, top: nat, u: nat)
    requires u > 0 && c < u && q < top
    ensures (q * u + c) / u == q && q % top == q
  {
    DivModUnique(q * u + c, u, q, c);
    DivModUnique(q, top, 0, q);
  }

  // The two outcomes of rounding, as quotients: q itself, or q + 1 around the top.
  lemma Settle(q: nat, up: bool, c: nat, top: nat, u: nat, r: int)
    requires u > 0 && q < top && top >= 2 && c < u && q * u + u <= top * u
    requires r == if !up then q * u + c
                  else if q * u + u < top * u then q * u + u
                  else q * u + u - top * u
    ensures 0 <= r < top * u
    ensures r / u == if up then (q + 1) % top else q % top
  {
    if up {
      NextUnit(q, top, u);
      DivModUnique(0, u, 0, 0);
    } else {
      SameUnit(q, c, top, u);
    }
  }

  // The remainder against half a unit, by its half bit b and the rest c.
  lemma CompareHalf(b: nat, c: nat, h: nat)
    requires b < 2 && c < h
    ensures 2 * (b * h + c) > 2 * h <==> b == 1 && c > 0
    ensures 2 * (b * h + c) == 2 * h <==> b == 1 && c == 0
    ensures b * h + c == 0 <==> b == 0 && c == 0
    ensures b * h < 2 * h
  {}

  lemma NearQuotient(minus: bool, v: nat, h: nat)
    requires h > 0
    ensures RoundHalfEven(v, 2 * h) == v / (2 * h) + (if RoundsUp(Near, minus, v, h) then 1 else 0)
    ensures RoundsUp(Near, minus, v, h) ==> v - v % h + h == v / (2 * h) * (2 * h) + 2 * h
    ensures v - v % h == v / (2 * h) * (2 * h) + v / h % 2 * h
    ensures v / h % 2 * h < 2 * h
  {
    HalfSplit(v, h);
    CompareHalf(v / h % 2, v % h, h);
  }

  // Rounding to nearest leaves the half-even quotient in the top bits, wrapping to zero
  // when the carry runs out of the top.
  lemma RoundNear(minus: bool, v: nat, n: nat, bits: nat)
    requires 0 < bits < 32 * n && v < Weight(n)
    ensures 0 <= Rounded(Near, minus, v, n, bits) < Weight(n)
    ensures Rounded(Near, minus, v, n, bits) / Unit(n, bits) == RoundHalfEven(v, Unit(n, bits)) % Pow2(bits)
  {
    var h, u, top := Half(n, bits), Unit(n, bits), Pow2(bits);
    hide Weight, Half, Unit, Pow2, RoundsUp, RoundHalfEven;
    QuotientFits(v, n, bits);
    NearQuotient(minus, v, h);
    Settle(v / u, RoundsUp(Near, minus, v, h), v / h % 2 * h, top, u, Rounded(Near, minus, v, n, bits));
    DivModUnique(v / u, top, 0, v / u);
  }

  lemma RoundTowardZero(minus: bool, v: nat, n: nat, bits: nat)
    requires 0 < bits < 32 * n && v < Weight(n)
    ensures 0 <= Rounded(TowardZero, minus, v, n, bits) < Weight(n)
    ensures Rounded(TowardZero, minus, v, n, bits) / Unit(n, bits) == v / Unit(n, bits)
  {
    var h, u := Half(n, bits), Unit(n, bits);
    hide Weight, Half, Unit, Pow2;
    QuotientFits(v, n, bits);
    HalfSplit(v, h);
    CompareHalf(v / h % 2, v % h, h);
    SameUnit(v / u, v / h % 2 * h, Pow2(bits), u);
  }

  // The quotient rounded away from zero.
  function RoundAway(v: nat, u: nat): int
    requires u > 0
  {
    if v % u == 0 then v / u else v / u + 1
  }

  // The directed modes add the half bit where they should add a unit, so away from zero
  // they are right exactly when nothing is lost or the half bit is already set.
  lemma RoundDirected(mode: RoundMode, minus: bool, v: nat, n: nat, bits: nat)
    requires 0 < bits < 32 * n && v < Weight(n)
    requires mode == if minus then Down else Up
    ensures Rounded(mode, minus, v, n, bits) / Unit(n, bits) == RoundAway(v, Unit(n, bits)) % Pow2(bits)
       <==> v % Unit(n, bits) == 0 || v / Half(n, bits) % 2 == 1
  {
    var h, u, top := Half(n, bits), Unit(n, bits), Pow2(bits);
    hide Weight, Half, Unit, Pow2;
    QuotientFits(v, n, bits);
    AwayQuotient(v, h);
    AwaySettles(v / u, v % u == 0, v / h % 2 == 1, h, top, Rounded(mode, minus, v, n, bits));
  }

  // The same in terms of the quotient q by a unit 2 * h, whether it is exact and whether
  // the half bit is set.
  lemma AwaySettles(q: nat, exact: bool, half: bool, h: nat, top: nat, r: int)
    requires h > 0 && q < top && top >= 2 && q * (2 * h) + 2 * h <= top * (2 * h) && (exact ==> !half)
    requires r == if exact then q * (2 * h)
                  else if !half then q * (2 * h) + h
                  else if q * (2 * h) + 2 * h < top * (2 * h) then q * (2 * h) + 2 * h
                  else q * (2 * h) + 2 * h - top * (2 * h)
    ensures r / (2 * h) == (if exact then q else q + 1) % top <==> exact || half
  {
    var u := 2 * h;
    Settle(q, half, if exact then 0 else h, top, u, r);
    NextUnit(q, top, u);
  }

  lemma AwayQuotient(v: nat, h: nat)
    requires h > 0
    ensures v % (2 * h) == 0 ==> v % h == 0 && v / h % 2 == 0
    ensures v - v % h == v / (2 * h) * (2 * h) + (if v / h % 2 == 1 then h else 0)
  {
    HalfSplit(v, h);
    CompareHalf(v / h % 2, v % h, h);
  }
}

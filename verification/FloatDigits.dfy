// sdk/as/float.c: the digit loop of ieee_flconvert, which doubles a decimal fraction in
// place and collects the carries as mantissa bits.
module FloatDigits {
  import opened Powers
  import opened Limbs
  import FloatRound

  type Digit = x: nat | x < 10

  // The digits read as one decimal integer; 0.ddd is this over 10^|s|.
  function DigitsVal(s: seq<nat>): nat
  {
    if |s| == 0 then 0 else DigitsVal(s[..|s| - 1]) * 10 + s[|s| - 1]
  }

  lemma {:induction false} DigitsBound(s: seq<nat>)
    requires forall i :: 0 <= i < |s| ==> s[i] < 10
    ensures DigitsVal(s) < Pow10(|s|)
  {
    if |s| > 0 {
      DigitsBound(s[..|s| - 1]);
    }
  }

  lemma {:induction false} DigitsHead(s: seq<nat>)
    requires |s| > 0
    ensures DigitsVal(s) == s[0] * Pow10(|s| - 1) + DigitsVal(s[1..])
  {
    var n := |s| - 1;
    if n == 0 {
      assert s[..0] == [];
    } else {
      DigitsHead(s[..n]);
      assert s[..n][1..] == s[1..][..n - 1];
      MulAssoc(s[0], Pow10(n - 1), 10);
    }
  }

  // One digit of the doubling, from the right: d is the digit, c the carry in, p the
  // weight 10^k of the digits already doubled and `high' those still to do.
  lemma DoubleStep(high: nat, d: nat, c: nat, p: nat, done: nat)
    requires d < 10 && c < 2
    ensures var i := 2 * d + c;
            var c' := if i >= 10 then 1 else 0;
            (2 * high + c') * (10 * p) + ((i - 10 * c') * p + done) == (2 * (high * 10 + d) + c) * p + done
  {}

  // s is the old digits and t the new ones, done from position r on, with a carry into
  // position r - 1 pending.
  ghost predicate Doubling(s: seq<nat>, t: seq<nat>, r: nat, carry: nat)
    requires r <= |s| == |t|
  {
    carry <= 1 && t[..r] == s[..r] &&
    (2 * DigitsVal(s[..r]) + carry) * Pow10(|s| - r) + DigitsVal(t[r..]) == 2 * DigitsVal(s)
  }

  lemma DoublingEnds(s: seq<nat>, t: seq<nat>, carry: nat)
    requires |s| == |t|
    ensures Doubling(s, s, |s|, 0)
    ensures Doubling(s, t, 0, carry) ==> 2 * DigitsVal(s) == carry * Pow10(|s|) + DigitsVal(t)
  {
    assert s[..|s|] == s && s[|s|..] == [];
    assert s[..0] == [] && t[0..] == t;
  }

  lemma DoublingStep(s: seq<nat>, t: seq<nat>, r: nat, carry: nat)
    requires 0 < r <= |s| == |t| && Doubling(s, t, r, carry) && s[r - 1] < 10
    ensures var i := 2 * s[r - 1] + carry;
            if i >= 10 then Doubling(s, t[r - 1 := i - 10], r - 1, 1)
            else Doubling(s, t[r - 1 := i], r - 1, 0)
  {
    var i := 2 * s[r - 1] + carry;
    var c' := if i >= 10 then 1 else 0;
    var t' := t[r - 1 := i - 10 * c'];
    assert s[..r][..r - 1] == s[..r - 1];
    assert DigitsVal(s[..r]) == DigitsVal(s[..r - 1]) * 10 + s[r - 1];
    assert Pow10(|s| - (r - 1)) == 10 * Pow10(|s| - r);
    DigitsHead(t'[r - 1..]);
    assert t'[r - 1..][1..] == t[r..];
    hide Pow10, DigitsVal;
    DoubleStep(DigitsVal(s[..r - 1]), s[r - 1], carry, Pow10(|s| - r), DigitsVal(t[r..]));
    MulEqual(2 * DigitsVal(s[..r]) + carry, 2 * (DigitsVal(s[..r - 1]) * 10 + s[r - 1]) + carry, Pow10(|s| - r));
  }

  method DoubleDigits(digits: array<Digit>, p: nat) returns (carry: nat)
    requires p <= digits.Length
    modifies digits
    ensures carry <= 1
    ensures 2 * old(DigitsVal(digits[..p])) == carry * Pow10(p) + DigitsVal(digits[..p])
  {
    hide Doubling, DigitsVal, Pow10;
    ghost var s: seq<nat> := digits[..p];
    carry := 0;
    var r := p;
    DoublingEnds(s, s, 0);
    while r > 0
      invariant 0 <= r <= p && carry <= 1
      invariant forall k :: 0 <= k < r ==> digits[k] == s[k]
      invariant Doubling(s, digits[..p], r, carry)
    {
      r := r - 1;
      ghost var t: seq<nat> := digits[..p];
      DoublingStep(s, t, r + 1, carry);
      var i := 2 * digits[r] as nat + carry;
      if i >= 10 {
        carry := 1;
        i := i - 10;
      } else {
        carry := 0;
      }
      digits[r] := i;
      assert digits[..p] == t[r := i];
    }
    DoublingEnds(s, digits[..p], carry);
  }

  // The fraction kept in the first p digits of p0, scaled to all p0 of them.
  function Remainder(s: seq<nat>, p0: nat): nat
    requires |s| <= p0
  {
    DigitsVal(s) * Pow10(p0 - |s|)
  }

  // Dropping trailing zero digits keeps the fraction and empties the buffer only at zero.
  method TrimZeros(digits: array<Digit>, p: nat, ghost p0: nat) returns (p': nat)
    requires p <= digits.Length && p <= p0
    ensures p' <= p
    ensures Remainder(digits[..p'], p0) == Remainder(digits[..p], p0)
    ensures p' > 0 ==> digits[p' - 1] != 0
  {
    p' := p;
    while p' > 0 && digits[p' - 1] == 0
      invariant p' <= p
      invariant Remainder(digits[..p'], p0) == Remainder(digits[..p], p0)
    {
      ghost var s: seq<nat> := digits[..p'];
      assert s[..p' - 1] == digits[..p' - 1];
      assert Pow10(p0 - p' + 1) == 10 * Pow10(p0 - p');
      MulAssoc(DigitsVal(s[..p' - 1]), 10, Pow10(p0 - p'));
      p' := p' - 1;
    }
  }

  lemma RemainderFacts(s: seq<nat>, p0: nat)
    requires |s| <= p0 && forall i :: 0 <= i < |s| ==> s[i] < 10
    ensures Remainder(s, p0) < Pow10(p0)
    ensures |s| > 0 && s[|s| - 1] != 0 ==> Remainder(s, p0) > 0
    ensures |s| == 0 ==> Remainder(s, p0) == 0
  {
    DigitsBound(s);
    Pow10Add(|s|, p0 - |s|);
    hide Pow10, DigitsVal;
    MulMonotone(DigitsVal(s) + 1, Pow10(|s|), Pow10(p0 - |s|));
    MulDistrib(DigitsVal(s), 1, Pow10(p0 - |s|));
    if |s| > 0 && s[|s| - 1] != 0 {
      assert DigitsVal(s) >= 1 by { DigitsPositive(s); }
      MulMonotone(1, DigitsVal(s), Pow10(p0 - |s|));
    }
  }

  lemma DigitsPositive(s: seq<nat>)
    requires |s| > 0 && s[|s| - 1] != 0
    ensures DigitsVal(s) >= 1
  {}

  lemma DoubledRemainder(s: seq<nat>, t: seq<nat>, carry: nat, p0: nat)
    requires |s| == |t| <= p0 && 2 * DigitsVal(s) == carry * Pow10(|s|) + DigitsVal(t)
    ensures 2 * Remainder(s, p0) == carry * Pow10(p0) + Remainder(t, p0)
  {
    Pow10Add(|s|, p0 - |s|);
    hide Pow10, DigitsVal;
    var w := Pow10(p0 - |s|);
    MulEqual(2 * DigitsVal(s), carry * Pow10(|s|) + DigitsVal(t), w);
    MulDistrib(carry * Pow10(|s|), DigitsVal(t), w);
    MulAssoc(carry, Pow10(|s|), w);
    MulAssoc(2, DigitsVal(s), w);
  }

  // The state of the loop after `steps' doublings, k of them kept as bits: the bits so far
  // and the remainder make up the fraction times 2^steps, exactly.
  ghost predicate DigitState(num: nat, den: nat, steps: nat, bits: nat, k: nat, rem: nat) {
    rem < den && num * Pow2(steps) == bits * den + rem && (k == 0 ==> bits == 0) &&
    (k > 0 ==> Pow2(k - 1) <= bits < Pow2(k))
  }

  // One doubling: a carry becomes the next bit, and the first carry starts the bits.
  lemma DigitStep(num: nat, den: nat, steps: nat, bits: nat, k: nat, rem: nat, carry: nat, rem': nat)
    requires DigitState(num, den, steps, bits, k, rem)
    requires carry <= 1 && 2 * rem == carry * den + rem' && rem' < den
    ensures DigitState(num, den, steps + 1, 2 * bits + carry, if k > 0 || carry > 0 then k + 1 else 0, rem')
  {
    assert Pow2(steps + 1) == 2 * Pow2(steps);
    assert k > 0 ==> Pow2(k) == 2 * Pow2(k - 1);
    assert Pow2(k + 1) == 2 * Pow2(k) && Pow2(0) == 1;
    hide Pow2;
    DoubledState(num, den, Pow2(steps), bits, rem, carry, rem');
  }

  lemma DoubledState(num: nat, den: nat, p: nat, bits: nat, rem: nat, carry: nat, rem': nat)
    requires num * p == bits * den + rem && 2 * rem == carry * den + rem'
    ensures num * (2 * p) == (2 * bits + carry) * den + rem'
  {}

  // The mantissa when the k bits found so far fill its top and the rest is zero.
  ghost predicate BitsStored(s: seq<nat>, bits: nat, k: nat) {
    k <= 32 * |s| && IsLimbs(s) && Val(s) == bits * Pow2(32 * |s| - k) &&
    (k < 32 * |s| ==> s[k / 32] % Pow2(32 - k % 32) == 0) &&
    forall i :: k / 32 < i < |s| ==> s[i] == 0
  }

  // Where the next bit goes: limb k / 32, of weight 2^(31 - k % 32) in it.
  lemma BitPlace(n: nat, k: nat)
    requires k < 32 * n
    ensures Pow2(32 - k % 32) == 2 * Pow2(31 - k % 32)
    ensures Pow2(32 * n - k) == 2 * Pow2(32 * n - k - 1)
    ensures Weight(n - 1 - k / 32) * Pow2(31 - k % 32) == Pow2(32 * n - k - 1)
    ensures 2 * Pow2(31 - k % 32) * Pow2(k % 32) == BASE
  {
    FloatRound.BitWeight(n, k);
    FloatRound.LimbBitSplit(k % 32);
  }

  // A limb whose low bits are free has room for the next bit.
  lemma RoomForBit(x: nat, d: nat, e: nat, c: nat)
    requires d > 0 && 2 * d * e == BASE && x < BASE && x % (2 * d) == 0 && c <= 1
    ensures x + c * d < BASE
    ensures (x + c * d) % d == 0
  {
    var q := x / (2 * d);
    assert x == q * (2 * d);
    assert e * (2 * d) == BASE;
    FloatRound.QuotientBelow(q, e, 2 * d);
    assert c * d == if c == 1 then d else 0;
    assert x + c * d == (2 * q + c) * d + 0 by { MulAssoc(q, 2, d); MulDistrib(2 * q, c, d); }
    DivModUnique(x + c * d, d, 2 * q + c, 0);
  }

  // The mask `bit' of the source moves down its limb and then to the top of the next one.
  lemma BitMoves(k: nat)
    ensures Pow2(31 - k % 32) == 1 <==> k % 32 == 31
    ensures k % 32 < 31 ==> (k + 1) / 32 == k / 32 && Pow2(31 - k % 32) / 2 == Pow2(31 - (k + 1) % 32)
    ensures k % 32 < 31 ==> Pow2(32 - (k + 1) % 32) == Pow2(31 - k % 32)
    ensures k % 32 == 31 ==> (k + 1) / 32 == k / 32 + 1 && (k + 1) % 32 == 0
  {}

  // Storing one more bit.
  lemma StoreBit(s: seq<nat>, bits: nat, k: nat, c: nat)
    requires BitsStored(s, bits, k) && k < 32 * |s| && c <= 1
    ensures s[k / 32] + c * Pow2(31 - k % 32) < BASE
    ensures BitsStored(s[k / 32 := s[k / 32] + c * Pow2(31 - k % 32)], 2 * bits + c, k + 1)
  {
    hide Val, Weight, Pow2, BitsStored;
    var n, i, d := |s|, k / 32, Pow2(31 - k % 32);
    StoredFacts(s, bits, k);
    BitPlace(n, k);
    RoomForBit(s[i], d, Pow2(k % 32), c);
    ValUpdate(s, i, s[i] + c * d);
    StoredBitVal(bits, c, d, Weight(n - 1 - i), Pow2(32 * n - k), Pow2(32 * n - k - 1));
    MoreStored(s, s[i := s[i] + c * d], bits, 2 * bits + c, k);
  }

  lemma StoredFacts(s: seq<nat>, bits: nat, k: nat)
    requires BitsStored(s, bits, k) && k < 32 * |s|
    ensures k / 32 < |s| && s[k / 32] < BASE && s[k / 32] % Pow2(32 - k % 32) == 0 && Val(s) == bits * Pow2(32 * |s| - k)
  {}

  // The state after bit k, in limb k / 32.
  lemma MoreStored(s: seq<nat>, t: seq<nat>, bits: nat, bits': nat, k: nat)
    requires BitsStored(s, bits, k) && k < 32 * |s| && |t| == |s| && k / 32 < |t| && t == s[k / 32 := t[k / 32]]
    requires t[k / 32] < BASE && t[k / 32] % Pow2(31 - k % 32) == 0 && Val(t) == bits' * Pow2(32 * |s| - k - 1)
    ensures BitsStored(t, bits', k + 1)
  {
    BitMoves(k);
    Pow2Literals();
    hide Val, Pow2;
  }

  lemma StoredBitVal(bits: nat, c: nat, d: nat, w: nat, p: nat, p': nat)
    requires w * d == p' && p == 2 * p'
    ensures bits * p + c * d * w == (2 * bits + c) * p'
  {}

  // With every bit stored, or with nothing left over, the mantissa is the fraction times
  // 2^(32n + e), truncated.
  lemma DigitsDone(num: nat, den: nat, steps: nat, bits: nat, k: nat, rem: nat, n: nat)
    requires den > 0 && k <= 32 * n && k <= steps && DigitState(num, den, steps, bits, k, rem)
    requires k == 32 * n || rem == 0
    ensures num * Pow2(steps - k + 32 * n) == bits * Pow2(32 * n - k) * den + rem
    ensures n > 0 && k > 0 ==> Pow2(32 * n - 1) <= bits * Pow2(32 * n - k) < Weight(n)
  {
    var d := 32 * n - k;
    Pow2Add(steps, d);
    assert steps - k + 32 * n == steps + d;
    if k > 0 {
      Pow2Add(k - 1, d);
      Pow2Add(k, d);
      MulMonotone(Pow2(k - 1), bits, Pow2(d));
      MulMonotone(bits + 1, Pow2(k), Pow2(d));
      MulDistrib(bits, 1, Pow2(d));
    }
    hide Pow2;
    MulAssoc(num, Pow2(steps), Pow2(d));
    MulEqual(num * Pow2(steps), bits * den + rem, Pow2(d));
    MulDistrib(bits * den, rem, Pow2(d));
    MulAssoc(bits, den, Pow2(d));
    MulAssoc(bits, Pow2(d), den);
    if k == 32 * n {
      assert Pow2(d) == 1 by { assert d == 0; PowZero(); }
    }
  }

  method ClearMantissa(mant: array<Limb>)
    modifies mant
    ensures forall i :: 0 <= i < mant.Length ==> mant[i] == 0
  {
    var m := 0;
    while m < mant.Length
      invariant 0 <= m <= mant.Length
      invariant forall i :: 0 <= i < m ==> mant[i] == 0
    {
      mant[m] := 0;
      m := m + 1;
    }
  }

  // *m |= bit: the bit is free, so the limb does not overflow.
  method PutBit(mant: array<Limb>, m: nat, bit: nat, carry: nat, ghost bits: nat, ghost k: nat)
    requires k < 32 * mant.Length && m == k / 32 && bit == Pow2(31 - k % 32) && carry <= 1
    requires BitsStored(mant[..], bits, k)
    modifies mant
    ensures BitsStored(mant[..], 2 * bits + carry, k + 1)
  {
    hide Pow2, BitsStored;
    ghost var b: seq<nat> := mant[..];
    StoreBit(b, bits, k, carry);
    assert carry * bit == if carry == 1 then bit else 0;
    if carry == 1 {
      mant[m] := mant[m] + bit;
    }
    assert mant[..] == b[m := b[m] + carry * bit];
  }

  // The fraction 0.ddd of the p digits becomes mant * 2^(twopwr - 32n), truncated: rem is
  // what the truncation drops. The loop ends for every digit string.
  method DigitsToBits(digits: array<Digit>, p: nat, mant: array<Limb>) returns (twopwr: int, ghost rem: nat)
    requires 0 < mant.Length && p <= digits.Length
    modifies digits, mant
    ensures twopwr <= 0
    ensures rem < Pow10(p)
    ensures old(DigitsVal(digits[..p])) * Pow2(32 * mant.Length - twopwr) == Val(mant[..]) * Pow10(p) + rem
    ensures old(DigitsVal(digits[..p])) > 0 ==> Pow2(32 * mant.Length - 1) <= Val(mant[..]) < Weight(mant.Length)
    ensures old(DigitsVal(digits[..p])) == 0 ==> Val(mant[..]) == 0
  {
    hide *;
    ghost var num, den := DigitsVal(digits[..p]), Pow10(p);
    var n := mant.Length;
    ClearMantissa(mant);
    ghost var k, steps, bits := 0, 0, 0;
    var m, bit, started, p' := 0, Pow2(31), false, p;
    twopwr := 0;
    StartState(digits[..p], mant[..]);
    rem := num;
    while m < n
      invariant 0 <= k <= 32 * n && m == k / 32 && bit == Pow2(31 - k % 32)
      invariant started <==> k > 0
      invariant twopwr <= 0 && steps == k - twopwr
      invariant p' <= p && rem == Remainder(digits[..p'], p) && rem < den
      invariant DigitState(num, den, steps, bits, k, rem)
      invariant BitsStored(mant[..], bits, k)
      decreases 32 * n - k, den - rem
    {
      p' := TrimZeros(digits, p', p);
      RemainderFacts(digits[..p'], p);
      if p' == 0 {
        break;
      }
      ghost var rem' := rem;
      var carry := DoubleStepped(digits, p', p);
      rem := Remainder(digits[..p'], p);
      DigitStep(num, den, steps, bits, k, rem', carry, rem);
      steps := steps + 1;
      if started || carry == 1 {
        started := true;
        PutBit(mant, m, bit, carry, bits, k);
        BitMoves(k);
        bits, k := 2 * bits + carry, k + 1;
        if bit == 1 {
          bit := Pow2(31);
          m := m + 1;
        } else {
          bit := bit / 2;
        }
      } else {
        NoBitYet(num, den, steps - 1, bits, k, rem');
        twopwr := twopwr - 1;
      }
    }
    DigitsDone(num, den, steps, bits, k, rem, n);
    BitsIffValue(num, den, steps, bits, k, rem, n);
    BitsStoredVal(mant[..], bits, k);
  }

  // One doubling, seen on the remainder: without a carry it strictly grows.
  method DoubleStepped(digits: array<Digit>, p': nat, ghost p: nat) returns (carry: nat)
    requires 0 < p' <= p && p' <= digits.Length && digits[p' - 1] != 0
    modifies digits
    ensures carry <= 1
    ensures 2 * old(Remainder(digits[..p'], p)) == carry * Pow10(p) + Remainder(digits[..p'], p)
    ensures Remainder(digits[..p'], p) < Pow10(p)
    ensures carry == 0 ==> Remainder(digits[..p'], p) > old(Remainder(digits[..p'], p))
  {
    hide *;
    ghost var s: seq<nat> := digits[..p'];
    RemainderFacts(s, p);
    carry := DoubleDigits(digits, p');
    DoubledRemainder(s, digits[..p'], carry, p);
    RemainderFacts(digits[..p'], p);
  }

  lemma NoBitYet(num: nat, den: nat, steps: nat, bits: nat, k: nat, rem: nat)
    requires k == 0 && DigitState(num, den, steps, bits, k, rem)
    ensures bits == 0
  {}

  lemma BitsStoredVal(s: seq<nat>, bits: nat, k: nat)
    requires BitsStored(s, bits, k)
    ensures Val(s) == bits * Pow2(32 * |s| - k)
  {}

  // Bits are found exactly when the fraction is not zero.
  lemma BitsIffValue(num: nat, den: nat, steps: nat, bits: nat, k: nat, rem: nat, n: nat)
    requires n > 0 && DigitState(num, den, steps, bits, k, rem) && (k == 32 * n || rem == 0)
    ensures num > 0 <==> k > 0
    ensures num == 0 ==> bits == 0
  {}

  lemma StartState(s: seq<nat>, m: seq<nat>)
    requires |m| > 0 && (forall i :: 0 <= i < |m| ==> m[i] == 0) && forall i :: 0 <= i < |s| ==> s[i] < 10
    ensures Remainder(s, |s|) == DigitsVal(s)
    ensures DigitState(DigitsVal(s), Pow10(|s|), 0, 0, 0, DigitsVal(s))
    ensures BitsStored(m, 0, 0)
  {
    DigitsBound(s);
    ValZeros(m);
  }
}

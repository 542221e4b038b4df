// sdk/as/float.c: ieee_shr, the in-place right shift of a mantissa.
module FloatShift {
  import opened Base
  import opened Powers
  import opened Limbs

  // Limb k of s shifted right by sr bits, where 2^sr == p and 2^(32 - sr) == q.
  ghost function ShiftedLimb(s: seq<nat>, k: nat, p: nat, q: nat): int
    requires k < |s| && p > 0
  {
    (if k == 0 then 0 else s[k - 1] % p * q) + s[k] / p
  }

  ghost predicate ShiftedBits(s: seq<nat>, t: seq<nat>, p: nat, q: nat)
    requires p > 0
  {
    |t| == |s| && forall k :: 0 <= k < |s| ==> t[k] == ShiftedLimb(s, k, p, q)
  }

  // One limb of the shift: what the limb above loses is what this limb gains.
  lemma ShiftLimb(v: nat, c: nat, p: nat, q: nat)
    requires p > 0 && p * q == BASE
    ensures (v * BASE + c) / p == v / p * BASE + v % p * q + c / p
    ensures (v * BASE + c) % p == c % p
  {
    var d, r := v / p, v % p;
    assert v * BASE == p * (d * BASE + r * q) by {
      assert v == d * p + r;
      MulDistrib(d * p, r, BASE);
      MulAssoc(d, p, BASE);
      assert r * BASE == p * (r * q) by { MulAssoc(r, p, q); MulAssoc(p, r, q); }
      assert d * (p * BASE) == p * (d * BASE) by { MulAssoc(d, p, BASE); MulAssoc(p, d, BASE); }
      MulDistrib(d * BASE, r * q, p);
    }
    MulDistrib(d * BASE + r * q, c / p, p);
    DivModUnique(v * BASE + c, p, d * BASE + r * q + c / p, c % p);
  }

  lemma {:induction false} ShiftVal(s: seq<nat>, t: seq<nat>, p: nat, q: nat)
    requires |s| > 0 && p > 0 && p * q == BASE && ShiftedBits(s, t, p, q)
    ensures Val(t) == Val(s) / p
    ensures Val(s) % p == s[|s| - 1] % p
  {
    var n := |s| - 1;
    assert t[n] == ShiftedLimb(s, n, p, q);
    if n == 0 {
      ValSingleton(s);
      ValSingleton(t);
    } else {
      forall k | 0 <= k < n ensures t[..n][k] == ShiftedLimb(s[..n], k, p, q) {
        assert t[k] == ShiftedLimb(s, k, p, q);
      }
      ShiftVal(s[..n], t[..n], p, q);
      ShiftLimb(Val(s[..n]), s[n], p, q);
    }
  }

  // Bits shifted up out of a 32-bit limb are lost.
  lemma ShiftOut(m: nat, p: nat, q: nat)
    requires p > 0 && q > 0 && p * q == BASE
    ensures m * q % BASE == m % p * q
    ensures m / q < p <==> m < BASE
  {
    DivDiv(m * q, q, p);
    assert q * p == BASE;
    assert m * q / q == m && m * q % q == 0 by { DivModUnique(m * q, q, m, 0); }
    assert m == m / q * q + m % q;
    if m / q >= p {
      MulMonotone(p, m / q, q);
    } else {
      MulMonotone(m / q + 1, p, q);
      MulDistrib(m / q, 1, q);
    }
  }

  lemma ShiftedLimbFits(a: nat, c: nat, p: nat, q: nat)
    requires p > 0 && q > 0 && p * q == BASE && c < BASE
    ensures 0 <= a % p * q + c / p < BASE
  {}

  // Leading zero limbs leave the number unchanged.
  lemma ValLeadingZeros(z: seq<nat>, t: seq<nat>)
    requires forall i :: 0 <= i < |z| ==> z[i] == 0
    ensures Val(z + t) == Val(t)
  {
    ValSplit(z + t, |z|);
    assert (z + t)[..|z|] == z && (z + t)[|z|..] == t;
    ValZeros(z);
  }

  // The result of the shift: exact except that a shift by zero clears the top limb.
  function ShiftRight(v: nat, i: nat, n: nat): int
    requires n > 0
  {
    if i == 0 then v % Weight(n - 1) else v / Pow2(i)
  }

  // A shift by whole limbs and then by bits is one division.
  lemma ShiftSplit(v: nat, i: nat)
    ensures v / Weight(i / 32) / Pow2(i % 32) == v / Pow2(i)
  {
    var a, b := i / 32, i % 32;
    assert 32 * a + b == i;
    assert Pow2(32 * a + b) == Weight(a) * Pow2(b) by { Pow2Add(32 * a, b); }
    hide Weight, Pow2;
    DivDiv(v, Weight(a), Pow2(b));
  }

  // Shifts for which the source stays inside its array: of less than the whole mantissa, or
  // of whole limbs.
  predicate Shiftable(i: nat, n: nat) { i < 32 * n || i % 32 == 0 }

  method IeeeShr(mant: array<Limb>, i: nat)
    requires 0 < mant.Length && Shiftable(i, mant.Length)
    modifies mant
    ensures Val(mant[..]) == ShiftRight(old(Val(mant[..])), i, mant.Length)
  {
    hide Zeros;
    ghost var x: seq<nat> := mant[..];
    var sr, offs := i % LIMB_BITS, i / LIMB_BITS;
    if sr == 0 {
      ShiftWholeLimbs(mant, offs);
      WholeLimbsVal(x, offs);
    } else {
      ShiftBits(mant, sr, offs);
    }
    ShiftSplit(Val(x), i);
  }

  ghost function WholeLimbs(x: seq<nat>, offs: nat): seq<nat>
    requires |x| > 0
  {
    if offs == 0 then Zeros(1) + x[1..] else if offs >= |x| then Zeros(|x|) else Zeros(offs) + x[..|x| - offs]
  }

  lemma AllCleared(x: seq<nat>, offs: nat)
    requires offs >= |x| > 0 && IsLimbs(x)
    ensures Val(Zeros(|x|)) == 0 == Val(x) / Weight(offs)
  {
    hide Zeros;
    ValZeros(Zeros(|x|));
    ValBound(x);
    WeightMonotone(|x|, offs);
    hide *;
    BelowWeight(Val(x), Weight(|x|), Weight(offs));
  }

  lemma SomeMoved(x: seq<nat>, offs: nat)
    requires 0 < offs < |x| && IsLimbs(x)
    ensures Val(Zeros(offs) + x[..|x| - offs]) == Val(x) / Weight(offs)
  {
    hide Zeros;
    hide Val, Weight;
    ValLeadingZeros(Zeros(offs), x[..|x| - offs]);
    ValPrefix(x, |x| - offs);
  }

  lemma WholeLimbsVal(x: seq<nat>, offs: nat)
    requires |x| > 0 && IsLimbs(x)
    ensures Val(WholeLimbs(x, offs)) == if offs == 0 then Val(x) % Weight(|x| - 1) else Val(x) / Weight(offs)
  {
    hide Zeros;
    hide Val, Weight;
    if offs == 0 {
      ValLeadingZeros(Zeros(1), x[1..]);
      ValPrefix(x, 1);
    } else if offs >= |x| {
      AllCleared(x, offs);
    } else {
      SomeMoved(x, offs);
    }
  }

  lemma WeightMonotone(a: nat, b: nat)
    requires a <= b
    ensures Weight(a) <= Weight(b)
  {
    Pow2Monotone(32 * a, 32 * b);
  }

  lemma BelowWeight(v: nat, w: nat, u: nat)
    requires v < w <= u
    ensures v / u == 0
  {
    DivModUnique(v, u, 0, v);
  }

  // sr == 0: limbs move, and with them when offs is zero the source still clears limb 0.
  method ShiftWholeLimbs(mant: array<Limb>, offs: nat)
    requires mant.Length > 0
    modifies mant
    ensures mant[..] == WholeLimbs(old(mant[..]), offs)
  {
    hide Zeros;
    ghost var x: seq<nat> := mant[..];
    var j := 0;
    if offs > 0 {
      j := MoveLimbs(mant, offs);
    }
    ClearFrom(mant, j);
    assert offs == 0 ==> mant[1..] == x[1..];
  }

  method MoveLimbs(mant: array<Limb>, offs: nat) returns (j: int)
    requires 0 < mant.Length && 0 < offs
    modifies mant
    ensures j == (if offs < mant.Length then offs else mant.Length) - 1
    ensures mant[j + 1..] == old(mant[..mant.Length - 1 - j])
  {
    ghost var x: seq<nat> := mant[..];
    j := mant.Length - 1;
    while j >= offs
      invariant -1 <= j < mant.Length && (offs <= mant.Length ==> offs - 1 <= j) && (offs > mant.Length ==> j == mant.Length - 1)
      invariant forall k :: 0 <= k <= j ==> mant[k] == x[k]
      invariant forall k :: j < k < mant.Length ==> mant[k] == x[k - offs]
    {
      mant[j] := mant[j - offs];
      j := j - 1;
    }
    assert old(mant[..mant.Length - 1 - j]) == x[..mant.Length - 1 - j];
  }

  // The last loop of ieee_shr: limbs j, j - 1, ... 0 become zero.
  method ClearFrom(mant: array<Limb>, j: int)
    requires -1 <= j < mant.Length
    modifies mant
    ensures mant[..] == Zeros(j + 1) + old(mant[j + 1..])
  {
    hide Zeros;
    var k := j;
    while k >= 0
      invariant -1 <= k <= j
      invariant forall l :: k < l <= j ==> mant[l] == 0
      invariant forall l :: j < l < mant.Length ==> mant[l] == old(mant[l])
    {
      mant[k] := 0;
      k := k - 1;
    }
  }

  method ShiftBits(mant: array<Limb>, sr: nat, offs: nat)
    requires 0 < sr < 32 && offs < mant.Length
    modifies mant
    ensures Val(mant[..]) == old(Val(mant[..])) / Weight(offs) / Pow2(sr)
  {
    hide Zeros;
    ghost var x: seq<nat> := mant[..];
    ghost var s := x[..|x| - offs];
    var p, q := Pow2(sr), Pow2(32 - sr);
    Pow2Add(sr, 32 - sr);
    Pow2Literals();
    MoveBits(mant, p, q, offs);
    ghost var t: seq<nat> := mant[offs..];
    assert mant[..] == Zeros(offs) + t;
    hide Val, Weight, Pow2, ShiftedBits;
    ShiftedValue(x, s, t, offs, p, q);
  }

  lemma ShiftedValue(x: seq<nat>, s: seq<nat>, t: seq<nat>, offs: nat, p: nat, q: nat)
    requires offs < |x| && s == x[..|x| - offs] && IsLimbs(x) && p > 0 && p * q == BASE && ShiftedBits(s, t, p, q)
    ensures Val(Zeros(offs) + t) == Val(x) / Weight(offs) / p
  {
    hide Val, Weight, Zeros;
    ValLeadingZeros(Zeros(offs), t);
    ShiftVal(s, t, p, q);
    ValPrefix(x, |x| - offs);
    hide ShiftedBits;
  }

  // (m << sl) | n, where n has no bit in common with the shifted limb.
  function Join(m: nat, q: nat, n: nat): int {
    m * q % BASE + n
  }

  // One iteration of the bit loop: limb k from the low bits of the limb above it and the
  // high bits kept from its own old value.
  lemma JoinedLimb(x: seq<nat>, k: nat, p: nat, q: nat, n: int)
    requires 0 < k < |x| && IsLimbs(x) && p > 0 && q > 0 && p * q == BASE && n == x[k] / p
    ensures Join(x[k - 1], q, n) == ShiftedLimb(x, k, p, q)
    ensures 0 <= Join(x[k - 1], q, n) < BASE
    ensures 0 <= x[k - 1] / p < BASE
  {
    ShiftOut(x[k - 1], p, q);
    ShiftOut(x[k - 1], q, p);
    ShiftedLimbFits(x[k - 1], x[k], p, q);
  }

  // sr != 0: the limbs are rebuilt from the last one down, each read before it is written.
  method MoveBits(mant: array<Limb>, p: nat, q: nat, offs: nat)
    requires p > 0 && q > 0 && p * q == BASE && offs < mant.Length
    modifies mant
    ensures forall k :: 0 <= k < offs ==> mant[k] == 0
    ensures ShiftedBits(old(mant[..mant.Length - offs]), mant[offs..], p, q)
  {
    hide Zeros;
    hide Join, ShiftedLimb;
    ghost var x: seq<nat> := mant[..mant.Length - offs];
    QuotientFits(x[|x| - 1], p, q);
    var n: Limb := mant[mant.Length - 1 - offs] / p;
    var j := mant.Length - 1;
    while j > offs
      invariant offs <= j < mant.Length
      invariant n == x[j - offs] / p
      invariant forall k :: 0 <= k <= j - offs ==> mant[k] == x[k]
      invariant forall k :: j < k < mant.Length ==> mant[k] == ShiftedLimb(x, k - offs, p, q)
    {
      var m: Limb := mant[j - offs - 1];
      JoinedLimb(x, j - offs, p, q, n);
      mant[j] := Join(m, q, n);
      n := m / p;
      j := j - 1;
    }
    FirstLimb(x, p, q);
    mant[j] := n;
    ClearFrom(mant, j - 1);
    assert forall k :: 0 <= k < |x| ==> mant[offs..][k] == mant[k + offs];
  }

  lemma FirstLimb(x: seq<nat>, p: nat, q: nat)
    requires |x| > 0 && p > 0
    ensures ShiftedLimb(x, 0, p, q) == x[0] / p
  {}

  lemma QuotientFits(m: nat, p: nat, q: nat)
    requires p > 0 && q > 0 && p * q == BASE && m < BASE
    ensures 0 <= m / p < BASE
  {}

  lemma TopLimbCleared(v: nat, w: nat, hi: nat, lo: nat)
    requires w > 0 && lo < w && v == hi * w + lo
    ensures v % w == v <==> hi == 0
  {}

  // The documented meaning, a right shift by i bits, holds exactly when something is
  // shifted or the top limb was clear to begin with.
  lemma ShiftRightIsDivision(s: seq<nat>, i: nat)
    requires |s| > 0 && IsLimbs(s)
    ensures ShiftRight(Val(s), i, |s|) == Val(s) / Pow2(i) <==> i > 0 || s[0] == 0
  {
    hide Val, Weight;
    if i == 0 {
      assert Val(s) / Pow2(0) == Val(s);
      ValHead(s);
      ValBound(s[1..]);
      TopLimbCleared(Val(s), Weight(|s| - 1), s[0], Val(s[1..]));
    }
  }
}

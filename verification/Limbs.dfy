// Multi-limb numbers: a sequence of 32-bit limbs, most significant first.
module Limbs {
  import opened Powers

  const BASE := 0x1_0000_0000
  const LIMB_BITS := 32
  const TOP_BIT := 0x8000_0000

  // fp_limb and fp_2limb: unsigned 32- and 64-bit words. Storing a larger value
  // in an array of these does not verify, so every addition is shown not to wrap.
  type Limb = x: nat | x < BASE
  type DoubleLimb = x: nat | x < 0x1_0000_0000_0000_0000

  function Val(s: seq<nat>): nat
  {
    if |s| == 0 then 0 else Val(s[..|s| - 1]) * BASE + s[|s| - 1]
  }

  ghost predicate IsLimbs(s: seq<nat>) {
    forall i :: 0 <= i < |s| ==> s[i] < BASE
  }

  // The weight of one unit in the last of k trailing limbs' predecessor: 2^(32k).
  function Weight(k: nat): (w: nat)
    ensures w >= 1
  {
    Pow2(32 * k)
  }

  lemma WeightStep(k: nat)
    ensures Weight(0) == 1
    ensures Weight(k + 1) == Weight(k) * BASE
  {
    Pow2Literals();
    Pow2Add(32 * k, 32);
  }

  lemma {:induction false} ValSplit(s: seq<nat>, k: nat)
    requires k <= |s|
    ensures Val(s) == Val(s[..k]) * Weight(|s| - k) + Val(s[k..])
  {
    if k == |s| {
      assert s[..k] == s;
      WeightStep(0);
    } else {
      var t := s[..|s| - 1];
      ValSplit(t, k);
      assert t[..k] == s[..k];
      assert s[k..][..|s| - k - 1] == t[k..];
      WeightStep(|t| - k);
      MulDistrib(Val(t[..k]) * Weight(|t| - k), Val(t[k..]), BASE);
      MulAssoc(Val(t[..k]), Weight(|t| - k), BASE);
    }
  }

  lemma {:induction false} ValBound(s: seq<nat>)
    requires IsLimbs(s)
    ensures Val(s) < Weight(|s|)
  {
    if |s| == 0 {
      WeightStep(0);
    } else {
      ValBound(s[..|s| - 1]);
      WeightStep(|s| - 1);
    }
  }

  // Changing limb k by x changes the number by x times the limb's weight.
  lemma {:induction false} ValUpdate(s: seq<nat>, k: nat, v: nat)
    requires k < |s|
    ensures Val(s[k := v]) == Val(s) + (v - s[k]) * Weight(|s| - 1 - k)
  {
    var n := |s| - 1;
    var t := s[k := v];
    if k == n {
      assert t[..n] == s[..n];
      WeightStep(0);
    } else {
      assert t[..n] == s[..n][k := v];
      ValUpdate(s[..n], k, v);
      WeightStep(n - 1 - k);
      MulDistrib(Val(s[..n]), (v - s[k]) * Weight(n - 1 - k), BASE);
      MulAssoc(v - s[k], Weight(n - 1 - k), BASE);
    }
  }

  lemma {:induction false} ValZeros(s: seq<nat>)
    requires forall i :: 0 <= i < |s| ==> s[i] == 0
    ensures Val(s) == 0
  {
    if |s| > 0 {
      ValZeros(s[..|s| - 1]);
    }
  }

  lemma ValSingleton(s: seq<nat>)
    requires |s| == 1
    ensures Val(s) == s[0]
  {}

  // A number is its first limb times the weight of the rest, plus the rest.
  lemma ValHead(s: seq<nat>)
    requires |s| > 0
    ensures Val(s) == s[0] * Weight(|s| - 1) + Val(s[1..])
  {
    ValSplit(s, 1);
    ValSingleton(s[..1]);
  }

  // Dropping the last k limbs divides by 2^(32k) and keeps them as the remainder.
  lemma ValPrefix(s: seq<nat>, k: nat)
    requires IsLimbs(s) && k <= |s|
    ensures Val(s[..k]) == Val(s) / Weight(|s| - k)
    ensures Val(s[k..]) == Val(s) % Weight(|s| - k)
  {
    ValSplit(s, k);
    ValBound(s[k..]);
    DivModUnique(Val(s), Weight(|s| - k), Val(s[..k]), Val(s[k..]));
  }

  lemma HeadCompare(x: nat, y: nat, t: nat, w: nat)
    requires y < w
    ensures x >= t <==> x * w + y >= t * w
  {
    if x >= t {
      MulMonotone(t, x, w);
    } else {
      MulMonotone(x + 1, t, w);
      MulDistrib(x, 1, w);
    }
  }

  // The top bit of the first limb is the top bit of the number.
  lemma TopBitWeight(n: nat)
    requires n > 0
    ensures Pow2(32 * n - 1) == TOP_BIT * Weight(n - 1)
  {
    Pow2Literals();
    hide Pow2;
    Pow2Add(31, 32 * (n - 1));
    assert 31 + 32 * (n - 1) == 32 * n - 1;
  }

  lemma TopBit(s: seq<nat>)
    requires |s| > 0 && IsLimbs(s)
    ensures s[0] >= TOP_BIT <==> Val(s) >= Pow2(32 * |s| - 1)
  {
    TopBitWeight(|s|);
    assert IsLimbs(s[1..]);
    hide *;
    ValHead(s);
    ValBound(s[1..]);
    HeadCompare(s[0], Val(s[1..]), TOP_BIT, Weight(|s| - 1));
  }
}

// sdk/as/float.c: float_multiply, the full product of two mantissas. The source fixes
// MANT_LIMBS at 6; here the number of limbs is the length of the arrays.
module FloatMultiply {
  import opened Powers
  import opened Limbs

  // The two halves of a 64-bit word, weighed separately.
  lemma SplitWord(m: nat, w: int)
    ensures m / BASE * (w * BASE) + m % BASE * w == m * w
  {}

  // A 64-bit product added with its high half at limb k and its low half at the next.
  ghost function AddAt(t: seq<nat>, k: nat, m: nat): seq<nat>
    requires k + 1 < |t|
  {
    t[k := t[k] + m / BASE][k + 1 := t[k + 1] + m % BASE]
  }

  lemma AddProduct(t: seq<nat>, k: nat, m: nat)
    requires k + 1 < |t|
    ensures Val(AddAt(t, k, m)) == Val(t) + m * Weight(|t| - 2 - k)
  {
    hide Val, Weight;
    ValUpdate(t, k, t[k] + m / BASE);
    ValUpdate(t[k := t[k] + m / BASE], k + 1, t[k + 1] + m % BASE);
    WeightStep(|t| - 2 - k);
    SplitWord(m, Weight(|t| - 2 - k));
  }

  // Moving the overflow of limb k into limb k - 1 does not change the number.
  lemma MoveCarry(t: seq<nat>, k: nat)
    requires 0 < k < |t|
    ensures Val(t[k - 1 := t[k - 1] + t[k] / BASE][k := t[k] % BASE]) == Val(t)
  {
    var u := t[k := t[k] % BASE];
    ValUpdate(t, k, t[k] % BASE);
    ValUpdate(u, k - 1, t[k - 1] + t[k] / BASE);
    assert t[k - 1 := t[k - 1] + t[k] / BASE][k := t[k] % BASE] == u[k - 1 := t[k - 1] + t[k] / BASE];
    WeightStep(|t| - 1 - k);
    SplitWord(t[k], Weight(|t| - 1 - k));
    CarryCancels(t[k] / BASE, t[k] % BASE, t[k], Weight(|t| - 1 - k));
  }

  lemma CarryCancels(hi: int, lo: int, m: int, w: int)
    requires hi * (w * BASE) + lo * w == m * w
    ensures (lo - m) * w + hi * (w * BASE) == 0
  {}

  // What the accumulator holds once rows 0..i and j products of row i are in it.
  ghost function Accumulated(x: seq<nat>, y: seq<nat>, i: nat, j: nat): int
    requires i < |x| == |y| && j <= |y|
  {
    Val(x[..i]) * Weight(|x| - i) * Val(y) + x[i] * Weight(|x| - 1 - i) * (Val(y[..j]) * Weight(|y| - j))
  }

  lemma AccumulateStep(x: seq<nat>, y: seq<nat>, i: nat, j: nat)
    requires i < |x| == |y| && j < |y|
    ensures Accumulated(x, y, i, j + 1)
         == Accumulated(x, y, i, j) + x[i] * y[j] * Weight((|x| - 1 - i) + (|y| - 1 - j))
  {
    var a, b := |x| - 1 - i, |y| - 1 - j;
    assert y[..j + 1][..j] == y[..j];
    WeightStep(b);
    assert Val(y[..j + 1]) * Weight(b) == Val(y[..j]) * Weight(b + 1) + y[j] * Weight(b) by {
      MulDistrib(Val(y[..j]) * BASE, y[j], Weight(b));
      MulAssoc(Val(y[..j]), BASE, Weight(b));
    }
    MulDistrib(Val(y[..j]) * Weight(b + 1), y[j] * Weight(b), x[i] * Weight(a));
    WeightAdd(a, b);
    Rearrange(x[i], Weight(a), y[j], Weight(b));
  }

  lemma WeightAdd(a: nat, b: nat)
    ensures Weight(a + b) == Weight(a) * Weight(b)
  {
    Pow2Add(32 * a, 32 * b);
  }

  lemma Rearrange(a: int, b: int, c: int, d: int)
    ensures a * b * (c * d) == a * c * (b * d)
  {}

  // What it holds once i whole rows are in it.
  ghost function RowTotal(x: seq<nat>, y: seq<nat>, i: nat): int
    requires i <= |x|
  {
    Val(x[..i]) * Weight(|x| - i) * Val(y)
  }

  lemma RowStart(x: seq<nat>, y: seq<nat>, t: seq<nat>)
    requires forall k :: 0 <= k < |t| ==> t[k] == 0
    ensures Val(t) == RowTotal(x, y, 0) == 0
  {}

  lemma RowDone(x: seq<nat>, y: seq<nat>, i: nat)
    requires i < |x| == |y|
    ensures Accumulated(x, y, i, 0) == RowTotal(x, y, i)
    ensures Accumulated(x, y, i, |y|) == RowTotal(x, y, i + 1)
  {
    var a := |x| - 1 - i;
    assert y[..0] == [] && y[..|y|] == y;
    assert x[..i + 1][..i] == x[..i];
    WeightStep(0);
    WeightStep(a);
    assert Val(x[..i + 1]) * Weight(a) == Val(x[..i]) * Weight(a + 1) + x[i] * Weight(a) by {
      MulDistrib(Val(x[..i]) * BASE, x[i], Weight(a));
      MulAssoc(Val(x[..i]), BASE, Weight(a));
    }
    MulDistrib(Val(x[..i]) * Weight(a + 1), x[i] * Weight(a), Val(y));
  }

  lemma RowsDone(x: seq<nat>, y: seq<nat>)
    ensures RowTotal(x, y, |x|) == Val(x) * Val(y)
  {
    assert x[..|x|] == x;
    WeightStep(0);
  }

  lemma ProductBelow(x: nat, y: nat, m: nat)
    requires x < m && y < m
    ensures x * y < m * m
  {}

  // Two 32-bit limbs multiply to a 64-bit word.
  lemma LimbProduct(x: nat, y: nat, m: nat)
    requires x <= m && y <= m
    ensures 0 <= x * y <= m * m
  {}

  function TopBitSet(x: nat): (b: nat) {
    if x >= TOP_BIT then 1 else 0
  }

  // One bit of left shift across limbs, each 64-bit word truncated to a limb, loses
  // nothing when the top bit is clear.
  lemma {:induction false} ShiftLeftOne(t: seq<nat>, s: seq<nat>)
    requires IsLimbs(t) && 0 < |s| < |t| && t[0] < TOP_BIT
    requires forall i :: 0 <= i < |s| ==> s[i] == 2 * t[i] % BASE + TopBitSet(t[i + 1])
    ensures Val(s) == 2 * Val(t[..|s|]) + TopBitSet(t[|s|])
  {
    var n := |s| - 1;
    assert t[..|s|][..n] == t[..n];
    assert Val(t[..|s|]) == Val(t[..n]) * BASE + t[n];
    assert Val(s) == Val(s[..n]) * BASE + s[n];
    assert 2 * t[n] == TopBitSet(t[n]) * BASE + 2 * t[n] % BASE;
    if n > 0 {
      ShiftLeftOne(t, s[..n]);
    }
  }

  // The exponent correction: zero when the top bit of the exact 2n-limb product is set.
  function Correction(p: nat, n: nat): int
    requires n > 0
  {
    if p >= Pow2(64 * n - 1) then 0 else -1
  }

  // The top n limbs of the product, after the shift that the correction stands for.
  function TopHalf(p: nat, n: nat): int
    requires n > 0
  {
    (if Correction(p, n) == 0 then p else 2 * p) / Weight(n)
  }

  // Accumulator limb k after i whole rows and j products of row i has had at most this
  // many limbs added to it.
  function Additions(k: int, i: nat, j: nat): nat {
    2 * i + (if k < i + j then 2 else if k == i + j && j > 0 then 1 else 0)
  }

  ghost predicate AccumulatorBound(t: seq<nat>, i: nat, j: nat) {
    forall k :: 0 <= k < |t| ==> t[k] <= Additions(k, i, j) * (BASE - 1)
  }

  lemma BoundStep(t: seq<nat>, i: nat, j: nat, m: nat)
    requires i + j + 1 < |t| && AccumulatorBound(t, i, j) && m <= (BASE - 1) * (BASE - 1)
    ensures AccumulatorBound(AddAt(t, i + j, m), i, j + 1)
  {}

  method FloatMultiply(to: array<Limb>, from: array<Limb>) returns (r: int)
    requires 0 < to.Length == from.Length < 0x4000_0000
    modifies to
    ensures r == Correction(old(Val(to[..])) * old(Val(from[..])), to.Length)
    ensures Val(to[..]) == TopHalf(old(Val(to[..])) * old(Val(from[..])), to.Length)
  {
    var temp := MultiplyRows(to, from);
    PropagateCarries(temp, 2 * to.Length + 2);
    FirstLimbFits(temp[..], to[..], from[..]);
    TopBit(temp[..]);
    if temp[0] >= TOP_BIT {
      ValPrefix(temp[..], to.Length);
      CopyTop(to, temp);
      r := 0;
    } else {
      DoubledTopHalf(temp[..], to.Length);
      ShiftTop(to, temp);
      r := -1;
    }
  }

  method CopyTop(to: array<Limb>, temp: array<DoubleLimb>)
    requires to.Length <= temp.Length && IsLimbs(temp[..])
    modifies to
    ensures to[..] == temp[..to.Length]
  {
    var i := 0;
    while i < to.Length
      invariant 0 <= i <= to.Length
      invariant to[..i] == temp[..i]
    {
      assert temp[i] == temp[..][i] < BASE;
      to[i] := temp[i] % BASE;
      i := i + 1;
    }
  }

  method ShiftTop(to: array<Limb>, temp: array<DoubleLimb>)
    requires 0 < to.Length < temp.Length && IsLimbs(temp[..]) && temp[0] < TOP_BIT
    modifies to
    ensures Val(to[..]) == 2 * Val(temp[..to.Length]) + TopBitSet(temp[to.Length])
  {
    var i := 0;
    while i < to.Length
      invariant 0 <= i <= to.Length
      invariant forall k :: 0 <= k < i ==> to[k] == 2 * temp[k] % BASE + TopBitSet(temp[k + 1])
    {
      to[i] := 2 * temp[i] % BASE + TopBitSet(temp[i + 1]);
      i := i + 1;
    }
    ShiftLeftOne(temp[..], to[..]);
    assert temp[..][..to.Length] == temp[..to.Length];
  }

  method MultiplyRows(to: array<Limb>, from: array<Limb>) returns (temp: array<DoubleLimb>)
    requires 0 < to.Length == from.Length < 0x4000_0000
    ensures fresh(temp) && temp.Length == 2 * to.Length
    ensures Val(temp[..]) == Val(to[..]) * Val(from[..])
    ensures forall k :: 0 <= k < temp.Length ==> temp[k] <= (2 * to.Length + 2) * (BASE - 1)
  {
    hide Accumulated, RowTotal, Val, Weight;
    ghost var x: seq<nat>, y: seq<nat> := to[..], from[..];
    var n := to.Length;
    temp := new DoubleLimb[2 * n](_ => 0);
    RowStart(x, y, temp[..]);
    var i := 0;
    while i < n
      invariant 0 <= i <= n
      invariant Val(temp[..]) == RowTotal(x, y, i)
      invariant AccumulatorBound(temp[..], i, 0)
    {
      AccumulateRow(temp, to, from, i);
      RowDone(x, y, i);
      i := i + 1;
    }
    RowsDone(x, y);
    forall k | 0 <= k < temp.Length ensures temp[k] <= (2 * n + 2) * (BASE - 1) {
      assert temp[..][k] <= Additions(k, n, 0) * (BASE - 1);
    }
  }

  // The inner loop: limb i of one factor times every limb of the other.
  method AccumulateRow(temp: array<DoubleLimb>, to: array<Limb>, from: array<Limb>, i: nat)
    requires i < to.Length == from.Length < 0x4000_0000 && temp.Length == 2 * to.Length
    requires Val(temp[..]) == RowTotal(to[..], from[..], i)
    requires AccumulatorBound(temp[..], i, 0)
    modifies temp
    ensures Val(temp[..]) == Accumulated(to[..], from[..], i, to.Length)
    ensures AccumulatorBound(temp[..], i + 1, 0)
  {
    hide Accumulated, RowTotal, Val, Weight;
    ghost var x: seq<nat>, y: seq<nat> := to[..], from[..];
    RowDone(x, y, i);
    var j := 0;
    while j < to.Length
      invariant 0 <= j <= to.Length
      invariant Val(temp[..]) == Accumulated(x, y, i, j)
      invariant AccumulatorBound(temp[..], i, j)
      invariant to[..] == x && from[..] == y
    {
      ghost var t: seq<nat> := temp[..];
      LimbProduct(to[i], from[j], BASE - 1);
      var m: DoubleLimb := (to[i] as nat) * (from[j] as nat);
      BoundStep(t, i, j, m);
      assert t[i + j] <= Additions(i + j, i, j) * (BASE - 1);
      assert t[i + j + 1] <= Additions(i + j + 1, i, j) * (BASE - 1);
      temp[i + j] := temp[i + j] + m / BASE;
      temp[i + j + 1] := temp[i + j + 1] + m % BASE;
      assert temp[..] == AddAt(t, i + j, m);
      AddProduct(t, i + j, m);
      AccumulateStep(x, y, i, j);
      j := j + 1;
    }
    forall k | 0 <= k < temp.Length ensures temp[k] <= Additions(k, i + 1, 0) * (BASE - 1) {
      assert temp[..][k] <= Additions(k, i, to.Length) * (BASE - 1);
    }
  }

  method PropagateCarries(temp: array<DoubleLimb>, n: nat)
    requires temp.Length > 0 && n < BASE
    requires forall k :: 0 <= k < temp.Length ==> temp[k] <= n * (BASE - 1)
    modifies temp
    ensures Val(temp[..]) == old(Val(temp[..]))
    ensures forall k :: 0 < k < temp.Length ==> temp[k] < BASE
  {
    var i := temp.Length - 1;
    while i > 0
      invariant 0 <= i < temp.Length
      invariant Val(temp[..]) == old(Val(temp[..]))
      invariant temp[i] <= n * BASE
      invariant forall k :: 0 <= k < i ==> temp[k] <= n * (BASE - 1)
      invariant forall k :: i < k < temp.Length ==> temp[k] < BASE
    {
      ghost var t: seq<nat> := temp[..];
      MoveCarry(t, i);
      temp[i - 1] := temp[i - 1] + temp[i] / BASE;
      temp[i] := temp[i] % BASE;
      assert temp[..] == t[i - 1 := t[i - 1] + t[i] / BASE][i := t[i] % BASE];
      i := i - 1;
    }
  }

  // After the carry pass the first limb is below 2^32 too: n limbs by n limbs fit in 2n.
  lemma FirstLimbFits(t: seq<nat>, x: seq<nat>, y: seq<nat>)
    requires 0 < |x| == |y| && |t| == 2 * |x| && IsLimbs(x) && IsLimbs(y)
    requires forall k :: 0 < k < |t| ==> t[k] < BASE
    requires Val(t) == Val(x) * Val(y)
    ensures IsLimbs(t)
  {
    ValBound(x);
    ValBound(y);
    ProductBelow(Val(x), Val(y), Weight(|x|));
    WeightAdd(|x|, |x|);
    ValHead(t);
    WeightStep(|t| - 1);
    if t[0] >= BASE {
      MulMonotone(BASE, t[0], Weight(|t| - 1));
    }
  }

  lemma DoubledTopHalf(t: seq<nat>, n: nat)
    requires n > 0 && |t| == 2 * n && IsLimbs(t)
    ensures 2 * Val(t) / Weight(n) == 2 * Val(t[..n]) + TopBitSet(t[n])
  {
    ValSplit(t, n);
    ValBound(t[n..]);
    TopBit(t[n..]);
    var w := Weight(n);
    assert w == 2 * Pow2(32 * n - 1);
    var hi, lo, b := Val(t[..n]), Val(t[n..]), TopBitSet(t[n]);
    MulDistrib(2 * hi, b, w);
    MulAssoc(2, hi, w);
    DivModUnique(2 * Val(t), w, 2 * hi + b, 2 * lo - b * w);
  }

  // A normalised mantissa of n limbs has its top bit set: it lies in [2^(32n-1), 2^(32n)).
  ghost predicate Normalised(m: int, n: nat)
    requires n > 0
  {
    Pow2(32 * n - 1) <= m < Weight(n)
  }

  lemma SquareBounds(x: nat, y: nat, h: nat, w: nat)
    requires h <= x < w && h <= y < w && w == 2 * h
    ensures h * h <= x * y < w * w
    ensures h * w == 2 * (h * h) && w * w == 2 * (h * w)
  {
    MulMonotone(h, x, h);
    MulMonotone(h, y, x);
    ProductBelow(x, y, w);
    MulAssoc(2, h, w);
    MulAssoc(2, h, h);
  }

  // Between h * w and w * w the quotient by w is between h and w.
  lemma QuotientBounds(p: nat, h: nat, w: nat)
    requires w > 0 && h * w <= p < w * w
    ensures h <= p / w < w
    ensures p / w * w <= p < (p / w + 1) * w
  {
    var q := p / w;
    assert p == q * w + p % w;
    MulDistrib(q, 1, w);
    if q < h {
      MulMonotone(q + 1, h, w);
    } else if q >= w {
      MulMonotone(w, q, w);
    }
  }

  // One bit of left shift is always enough, and the kept half of the product is the
  // exact one truncated: it is low by less than one unit.
  lemma NormalisedProduct(x: nat, y: nat, n: nat)
    requires n > 0 && Normalised(x, n) && Normalised(y, n)
    ensures Normalised(TopHalf(x * y, n), n)
    ensures var p := if Correction(x * y, n) == 0 then x * y else 2 * (x * y);
            TopHalf(x * y, n) * Weight(n) <= p < (TopHalf(x * y, n) + 1) * Weight(n)
  {
    var h, w := Pow2(32 * n - 1), Weight(n);
    assert w == 2 * h;
    SquareBounds(x, y, h, w);
    assert Pow2(64 * n - 1) == h * w by { Pow2Add(32 * n - 1, 32 * n); }
    QuotientBounds(if Correction(x * y, n) == 0 then x * y else 2 * (x * y), h, w);
  }
}

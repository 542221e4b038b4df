// Powers of two and the division facts every other module leans on.
module Powers {

  function Pow2(n: nat): (r: nat)
    ensures r >= 1
  {
    if n == 0 then 1 else 2 * Pow2(n - 1)
  }

  function Pow10(n: nat): (r: nat)
    ensures r >= 1
  {
    if n == 0 then 1 else 10 * Pow10(n - 1)
  }

  lemma {:induction false} Pow2Add(m: nat, n: nat)
    ensures Pow2(m + n) == Pow2(m) * Pow2(n)
  {
    if m > 0 {
      Pow2Add(m - 1, n);
      MulAssoc(2, Pow2(m - 1), Pow2(n));
    }
  }

  lemma {:induction false} Pow10Add(m: nat, n: nat)
    ensures Pow10(m + n) == Pow10(m) * Pow10(n)
  {
    if m > 0 {
      Pow10Add(m - 1, n);
      MulAssoc(10, Pow10(m - 1), Pow10(n));
    }
  }

  lemma {:induction false} Pow2Monotone(m: nat, n: nat)
    requires m <= n
    ensures Pow2(m) <= Pow2(n)
    decreases n
  {
    if m < n {
      Pow2Monotone(m, n - 1);
    }
  }

  lemma PowZero()
    ensures Pow2(0) == 1
  {}

  lemma Pow2Literals()
    ensures Pow2(1) == 2 && Pow2(2) == 4 && Pow2(3) == 8 && Pow2(4) == 16
    ensures Pow2(5) == 32 && Pow2(8) == 256 && Pow2(10) == 1024
    ensures Pow2(16) == 0x1_0000
    ensures Pow2(31) == 0x8000_0000 && Pow2(32) == 0x1_0000_0000
    ensures Pow2(63) == 0x8000_0000_0000_0000
    ensures Pow2(64) == 0x1_0000_0000_0000_0000
  {
    assert Pow2(4) == 16;
    assert Pow2(8) == 256 by { Pow2Add(4, 4); }
    assert Pow2(10) == 1024;
    assert Pow2(16) == 0x1_0000 by { Pow2Add(8, 8); }
    assert Pow2(32) == 0x1_0000_0000 by { Pow2Add(16, 16); }
    assert Pow2(32) == 2 * Pow2(31);
    assert Pow2(64) == 0x1_0000_0000_0000_0000 by { Pow2Add(32, 32); }
    assert Pow2(64) == 2 * Pow2(63);
  }

  lemma MulAssoc(a: int, b: int, c: int)
    ensures a * b * c == a * (b * c)
  {}

  lemma MulEqual(a: int, b: int, c: int)
    requires a == b
    ensures a * c == b * c
  {}

  lemma MulMonotone(a: int, b: int, c: int)
    requires a <= b && 0 <= c
    ensures a * c <= b * c
  {}

  lemma MulDistrib(a: int, b: int, c: int)
    ensures (a + b) * c == a * c + b * c
    ensures c * (a + b) == c * a + c * b
  {}

  // The quotient and remainder are the only pair with these two properties.
  lemma DivModUnique(x: int, d: int, q: int, r: int)
    requires d > 0 && 0 <= r < d && x == q * d + r
    ensures x / d == q && x % d == r
  {
    var q', r' := x / d, x % d;
    assert x == q' * d + r';
    assert (q - q') * d == r' - r by { MulDistrib(q, -q', d); }
    assert (q' - q) * d == r - r' by { MulDistrib(q', -q, d); }
    if q > q' {
      MulMonotone(1, q - q', d);
    } else if q < q' {
      MulMonotone(1, q' - q, d);
    }
  }

  lemma DivModShift(a: nat, x: nat, d: nat)
    requires d > 0
    ensures (a * d + x) / d == a + x / d
    ensures (a * d + x) % d == x % d
  {
    MulDistrib(a, x / d, d);
    DivModUnique(a * d + x, d, a + x / d, x % d);
  }

  lemma DivDiv(x: nat, a: int, b: int)
    requires a > 0 && b > 0
    ensures a * b > 0
    ensures x / (a * b) == x / a / b
    ensures x % (a * b) == (x / a % b) * a + x % a
  {
    assert a * b > 0 by { MulMonotone(1, a, b); }
    var y := x / a;
    var q, r := y / b, y % b;
    assert x == y * a + x % a;
    assert y == q * b + r;
    assert y * a == q * (a * b) + r * a by {
      MulDistrib(q * b, r, a);
      MulAssoc(q, b, a);
      assert b * a == a * b;
    }
    MulMonotone(0, r, a);
    MulMonotone(r, b - 1, a);
    MulDistrib(b, -1, a);
    assert r * a + x % a < a * b;
    DivModUnique(x, a * b, q, r * a + x % a);
  }
}

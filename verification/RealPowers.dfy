// Powers of real numbers, for the error bounds of the decimal conversion.
module RealPowers {
  import opened Powers

  function RPow(x: real, n: nat): real {
    if n == 0 then 1.0 else x * RPow(x, n - 1)
  }

  // 2^z for a negative or positive z.
  function Two(z: int): real {
    if z >= 0 then RPow(2.0, z) else RPow(0.5, -z)
  }

  // 10^z likewise.
  function Ten(z: int): real {
    if z >= 0 then RPow(10.0, z) else RPow(0.1, -z)
  }

  lemma Assoc(x: real, y: real, z: real)
    ensures x * y * z == x * (y * z)
  {}

  lemma Swap(a: real, b: real, c: real, d: real)
    ensures a * b * (c * d) == a * c * (b * d)
  {}

  lemma SameFactor(x: real, y: real, z: real)
    requires x == y
    ensures z * x == z * y && x * z == y * z
  {}

  lemma Grow(x: real, y: real, z: real)
    requires x <= y && 0.0 <= z
    ensures x * z <= y * z
  {}

  lemma {:induction false} RPowAdd(x: real, m: nat, n: nat)
    ensures RPow(x, m + n) == RPow(x, m) * RPow(x, n)
  {
    if m > 0 {
      RPowAdd(x, m - 1, n);
      Assoc(x, RPow(x, m - 1), RPow(x, n));
    }
  }

  lemma {:induction false} RPowMul(x: real, y: real, n: nat)
    ensures RPow(x * y, n) == RPow(x, n) * RPow(y, n)
  {
    if n > 0 {
      RPowMul(x, y, n - 1);
      Swap(x, y, RPow(x, n - 1), RPow(y, n - 1));
    }
  }

  lemma {:induction false} RPowPositive(x: real, n: nat)
    requires x > 0.0
    ensures RPow(x, n) > 0.0
  {
    if n > 0 {
      RPowPositive(x, n - 1);
    }
  }

  lemma {:induction false} TwoStep(z: int)
    ensures Two(z + 1) == 2.0 * Two(z)
  {
    if z == -1 {
      assert RPow(0.5, 1) == 0.5 * RPow(0.5, 0);
    }
  }

  lemma {:induction false} TwoAdd(y: int, z: int)
    ensures Two(y + z) == Two(y) * Two(z)
    decreases if z >= 0 then z else -z
  {
    if z > 0 {
      TwoAdd(y, z - 1);
      TwoStep(y + z - 1);
      TwoStep(z - 1);
      Assoc(Two(y), 2.0, Two(z - 1));
    } else if z < 0 {
      TwoAdd(y, z + 1);
      TwoStep(y + z);
      TwoStep(z);
      Assoc(Two(y), 2.0, Two(z));
    }
  }

  lemma TwoPositive(z: int)
    ensures Two(z) > 0.0
  {
    if z >= 0 { RPowPositive(2.0, z); } else { RPowPositive(0.5, -z); }
  }

  lemma {:induction false} TwoIsPow2(n: nat)
    ensures Two(n) == Pow2(n) as real
  {
    if n > 0 {
      TwoIsPow2(n - 1);
    }
  }

  lemma {:induction false} TenIsPow10(n: nat)
    ensures Ten(n) == Pow10(n) as real
  {
    if n > 0 {
      TenIsPow10(n - 1);
    }
  }

  lemma TenStep(z: int)
    ensures Ten(z + 1) == 10.0 * Ten(z)
  {
    if z < -1 {
      assert RPow(0.1, -z) == 0.1 * RPow(0.1, -(z + 1));
    } else if z == -1 {
      assert RPow(0.1, 1) == 0.1 * RPow(0.1, 0);
    }
  }

  lemma {:induction false} TenAdd(y: int, z: int)
    ensures Ten(y + z) == Ten(y) * Ten(z)
    decreases if z >= 0 then z else -z
  {
    if z > 0 {
      TenAdd(y, z - 1);
      TenStep(y + z - 1);
      TenStep(z - 1);
      Assoc(Ten(y), 10.0, Ten(z - 1));
    } else if z < 0 {
      TenAdd(y, z + 1);
      TenStep(y + z);
      TenStep(z);
      Assoc(Ten(y), 10.0, Ten(z));
    }
  }

  lemma TenPositive(z: int)
    ensures Ten(z) > 0.0
  {
    if z >= 0 { RPowPositive(10.0, z); } else { RPowPositive(0.1, -z); }
  }

  // The power of five that, with the power of two, makes a power of ten.
  lemma TenIsTwoTimesFive(z: int)
    ensures z >= 0 ==> Two(z) * RPow(5.0, z) == Ten(z)
    ensures z < 0 ==> Two(z) * RPow(0.2, -z) == Ten(z)
  {
    if z >= 0 { RPowMul(2.0, 5.0, z); } else { RPowMul(0.5, 0.2, -z); }
  }

  lemma RPowOne(n: nat)
    ensures RPow(1.0, n) == 1.0
  {}
}

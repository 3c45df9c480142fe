/** Powers, quotients and remainders of naturals, as the number-crunching components need them. */
module Numbers {

  const U64: nat := 0x1_0000_0000_0000_0000

  function Max(x: int, y: int): int {
    if x < y then y else x
  }

  function Pow(b: nat, e: nat): (p: nat)
    ensures b > 0 ==> p > 0
  {
    if e == 0 then 1 else b * Pow(b, e - 1)
  }

  lemma MulMono(x: nat, y: nat, k: nat)
    requires x <= y
    ensures x * k <= y * k && k * x <= k * y
  {
  }

  lemma MulAssoc(x: int, y: int, z: int)
    ensures x * y * z == x * (y * z)
  {
  }

  lemma MulDist(x: int, y: int, z: int)
    ensures x * (y + z) == x * y + x * z && (y + z) * x == y * x + z * x
  {
  }

  lemma {:induction false} PowAdd(b: nat, m: nat, n: nat)
    ensures Pow(b, m + n) == Pow(b, m) * Pow(b, n)
  {
    if m > 0 {
      PowAdd(b, m - 1, n);
      MulAssoc(b, Pow(b, m - 1), Pow(b, n));
    }
  }

  lemma {:induction false} PowMul(b: nat, m: nat, n: nat)
    ensures Pow(Pow(b, m), n) == Pow(b, m * n)
    decreases n
  {
    if n > 0 {
      PowMul(b, m, n - 1);
      assert m * n == m + m * (n - 1) by {
        MulDist(m, 1, n - 1);
      }
      PowAdd(b, m, m * (n - 1));
    } else {
      assert m * n == 0;
    }
  }

  lemma {:induction false} PowBase(x: nat, y: nat, e: nat)
    requires x <= y
    ensures Pow(x, e) <= Pow(y, e)
  {
    if e > 0 {
      PowBase(x, y, e - 1);
      MulMono(Pow(x, e - 1), Pow(y, e - 1), x);
      MulMono(x, y, Pow(y, e - 1));
    }
  }

  lemma {:induction false} PowBaseStrict(x: nat, y: nat, e: nat)
    requires x < y && e > 0
    ensures Pow(x, e) < Pow(y, e)
  {
    PowBase(x, y, e - 1);
    MulMono(Pow(x, e - 1), Pow(y, e - 1), x);
    assert x * Pow(y, e - 1) < y * Pow(y, e - 1) by {
      assert Pow(y, e - 1) > 0;
      MulDist(Pow(y, e - 1), x, y - x);
      MulMono(1, y - x, Pow(y, e - 1));
    }
  }

  lemma PowExp(b: nat, m: nat, n: nat)
    requires b > 0 && m <= n
    ensures Pow(b, m) <= Pow(b, n)
  {
    PowAdd(b, m, n - m);
    MulMono(1, Pow(b, n - m), Pow(b, m));
  }

  /** Quotient and remainder are the only pair that fits. */
  lemma DivModUnique(x: int, d: int, q: int, r: int)
    requires d > 0 && x == q * d + r && 0 <= r < d
    ensures x / d == q && x % d == r
  {
    var q', r' := x / d, x % d;
    assert x == d * q' + r';
    assert (q' - q) * d == r - r' by {
      MulDist(d, q', -q);
    }
    assert (q - q') * d == r' - r;
    if q' > q {
      MulMono(1, q' - q, d);
    } else if q' < q {
      MulMono(1, q - q', d);
    }
  }

  lemma DivMod(x: int, d: int)
    requires d > 0
    ensures x == x / d * d + x % d && 0 <= x % d < d
  {
  }

  lemma ModSmall(x: int, d: int)
    requires 0 <= x < d
    ensures x % d == x && x / d == 0
  {
    DivModUnique(x, d, 0, x);
  }

  /** Multiples of the modulus do not matter. */
  lemma ModAddMul(x: int, k: int, d: int)
    requires d > 0
    ensures (x + k * d) % d == x % d && (x + k * d) / d == x / d + k
  {
    DivMod(x, d);
    MulDist(d, x / d, k);
    DivModUnique(x + k * d, d, x / d + k, x % d);
  }

  lemma ModCong(x: int, y: int, c: int, d: int)
    requires d > 0 && x % d == y % d
    ensures (x + c) % d == (y + c) % d
  {
    DivMod(x, d);
    DivMod(y, d);
    var k := x / d - y / d;
    assert x == y + k * d by {
      MulDist(d, x / d, -(y / d));
    }
    ModAddMul(y + c, k, d);
  }

  /** Dividing twice is dividing by the product. */
  lemma DivDiv(x: nat, a: nat, b: nat)
    requires a > 0 && b > 0
    ensures a * b > 0 && x / a / b == x / (a * b)
  {
    var q := x / a;
    var p := q / b;
    assert a * b > 0 by {
      MulMono(1, b, a);
    }
    DivMod(x, a);
    DivMod(q, b);
    var r := q % b * a + x % a;
    assert x == p * (a * b) + r by {
      MulDist(a, p * b, q % b);
      MulAssoc(p, b, a);
    }
    assert 0 <= r < a * b by {
      MulMono(q % b, b - 1, a);
      MulDist(a, b, -1);
    }
    DivModUnique(x, a * b, p, r);
  }

  lemma CancelLess(x: nat, y: nat, k: nat)
    requires x * k < y * k
    ensures x < y
  {
    if y <= x {
      MulMono(y, x, k);
    }
  }

  /** Multiplication under a name, for proofs that only need its laws. */
  function Times(x: int, y: int): (p: int)
    ensures x >= 0 && y >= 0 ==> p >= 0
  {
    x * y
  }

  lemma TimesIs(x: int, y: int)
    ensures Times(x, y) == x * y == y * x
  {
  }

  lemma TimesUnit(x: int)
    ensures Times(0, x) == 0 && Times(1, x) == x && Times(x, 0) == 0 && Times(x, 1) == x
  {
  }

  lemma TimesSwap(x: int, y: int)
    ensures Times(x, y) == Times(y, x)
  {
  }

  lemma TimesAssoc(x: int, y: int, z: int)
    ensures Times(Times(x, y), z) == Times(x, Times(y, z))
  {
  }

  lemma TimesAdd(x: int, y: int, z: int)
    ensures Times(x, y + z) == Times(x, y) + Times(x, z)
    ensures Times(y + z, x) == Times(y, x) + Times(z, x)
  {
  }

  lemma TimesMono(x: int, y: int, k: int)
    requires x <= y && k >= 0
    ensures Times(x, k) <= Times(y, k) && Times(k, x) <= Times(k, y)
  {
    MulMono(0, y - x, k);
    MulDist(k, x, y - x);
  }

  /** The number from 0 to `m` - 1 that differs from `x` by a multiple of `m`. */
  function Mod(x: int, m: nat): (r: nat)
    requires m > 0
    ensures r < m
  {
    x % m
  }

  /** The whole part of a quotient. */
  function Div(x: nat, d: nat): nat
    requires d > 0
  {
    x / d
  }

  lemma ModIs(x: int, m: nat, k: int, r: nat)
    requires r < m && x == r + Times(k, m)
    ensures Mod(x, m) == r
  {
    DivModUnique(x, m, k, r);
  }

  lemma ModShift(x: int, k: int, m: nat)
    requires m > 0
    ensures Mod(x + Times(k, m), m) == Mod(x, m)
  {
    ModAddMul(x, k, m);
  }

  lemma ModSame(x: int, y: int, c: int, m: nat)
    requires m > 0 && Mod(x, m) == Mod(y, m)
    ensures Mod(x + c, m) == Mod(y + c, m)
  {
    ModCong(x, y, c, m);
  }

  lemma ModFits(x: nat, m: nat)
    requires x < m
    ensures Mod(x, m) == x
  {
    ModSmall(x, m);
  }
}

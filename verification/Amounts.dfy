/**
 The compressed form of amounts: trailing zeros of a decimal number, up to nine, are replaced by an exponent.

 Over the naturals compressing is a bijection. The source computes modulo 2^64, where it is one exactly as long as
 the compressed number does not wrap.
 */
module Amounts {
  import opened Numbers

  // ---------- Over the naturals ----------

  datatype Scaled = Scaled(digits: nat, exponent: nat)

  /** Dividing by ten while that leaves no remainder, up to exponent nine. */
  function Strip(n: nat, e: nat): Scaled
    requires e <= 9
    decreases 9 - e
  {
    if n % 10 == 0 && e < 9 then Strip(n / 10, e + 1) else Scaled(n, e)
  }

  /** The parts that a compressed number is made of. */
  predicate IsStripped(s: Scaled) {
    s.digits > 0 && s.exponent <= 9 && (s.exponent < 9 ==> s.digits % 10 != 0)
  }

  function Amount(s: Scaled): nat {
    Times(s.digits, Pow(10, s.exponent))
  }

  function Packed(s: Scaled): nat
    requires IsStripped(s)
  {
    if s.exponent < 9 then 1 + 10 * (9 * (s.digits / 10) + s.digits % 10 - 1) + s.exponent
    else 1 + 10 * (s.digits - 1) + 9
  }

  function Unpacked(x: nat): Scaled
    requires x > 0
  {
    var e, q := (x - 1) % 10, (x - 1) / 10;
    Scaled(if e < 9 then 10 * (q / 9) + q % 9 + 1 else q + 1, e)
  }

  function Compress(n: nat): nat {
    if n == 0 then 0
    else
      StripIs(n, 0);
      Packed(Strip(n, 0))
  }

  function Decompress(x: nat): nat {
    if x == 0 then 0 else Amount(Unpacked(x))
  }

  lemma {:induction false} StripIs(n: nat, e: nat)
    requires n > 0 && e <= 9
    ensures var s := Strip(n, e);
      IsStripped(s) && s.exponent >= e && n == Times(s.digits, Pow(10, s.exponent - e))
    decreases 9 - e
  {
    if n % 10 == 0 && e < 9 {
      StripIs(n / 10, e + 1);
      var s := Strip(n / 10, e + 1);
      TenTimes(s.digits, s.exponent - e - 1);
    }
  }

  lemma TenTimes(d: nat, e: nat)
    ensures Times(d, Pow(10, e + 1)) == 10 * Times(d, Pow(10, e))
  {
    MulAssoc(d, 10, Pow(10, e));
    MulAssoc(10, d, Pow(10, e));
  }

  lemma {:induction false} StripOf(d: nat, k: nat, e: nat)
    requires e + k <= 9 && IsStripped(Scaled(d, e + k))
    ensures Times(d, Pow(10, k)) > 0 && Strip(Times(d, Pow(10, k)), e) == Scaled(d, e + k)
    decreases k
  {
    if k > 0 {
      hide Times, Pow;
      TenTimes(d, k - 1);
      StripOf(d, k - 1, e + 1);
      var n := Times(d, Pow(10, k - 1));
      assert 10 * n % 10 == 0 && 10 * n / 10 == n;
    }
  }

  lemma UnpackedPacked(s: Scaled)
    requires IsStripped(s)
    ensures Packed(s) > 0 && Unpacked(Packed(s)) == s
  {
  }

  lemma PackedUnpacked(x: nat)
    requires x > 0
    ensures IsStripped(Unpacked(x)) && Packed(Unpacked(x)) == x
  {
    var e, q := (x - 1) % 10, (x - 1) / 10;
    if e < 9 {
      var d := 10 * (q / 9) + q % 9 + 1;
      assert d / 10 == q / 9 && d % 10 == q % 9 + 1;
    }
  }

  /** Decompressing undoes compressing, for every natural number. */
  lemma CompressDecompress(n: nat)
    ensures Decompress(Compress(n)) == n
  {
    if n > 0 {
      hide Packed, Unpacked, Strip;
      StripIs(n, 0);
      UnpackedPacked(Strip(n, 0));
    }
  }

  /** Compressing undoes decompressing, for every natural number. */
  lemma DecompressCompress(x: nat)
    ensures Compress(Decompress(x)) == x
  {
    if x > 0 {
      hide Packed, Unpacked, Strip;
      PackedUnpacked(x);
      var s := Unpacked(x);
      StripOf(s.digits, s.exponent, 0);
      StripIs(Amount(s), 0);
    }
  }

  // ---------- Modulo 2^64 ----------

  /** The value that a 64-bit unsigned operation keeps. */
  function Wrap(x: int): nat {
    x % U64
  }

  lemma WrapFits(x: nat)
    requires x < U64
    ensures Wrap(x) == x
  {
  }

  lemma WrapAdd(x: int, c: int)
    ensures Wrap(Wrap(x) + c) == Wrap(x + c)
  {
    ModAddMul(Wrap(x) + c, x / U64, U64);
  }

  lemma WrapTen(x: nat)
    ensures Wrap(Wrap(x) * 10) == Wrap(10 * x)
  {
    ModAddMul(Wrap(x) * 10, x / U64 * 10, U64);
  }

  /** The last step of compressing with exponent below nine, operation by operation. */
  lemma PackWrapped(m: nat, d: nat, e: nat)
    requires 10 * m + d < U64 && 1 <= d <= 9
    ensures Wrap(Wrap(1 + Wrap(Wrap(Wrap(Wrap(m * 9) + d) - 1) * 10)) + e) == Wrap(1 + 10 * (9 * m + d - 1) + e)
  {
    hide Wrap;
    WrapFits(m * 9);
    WrapFits(m * 9 + d);
    WrapFits(m * 9 + d - 1);
    WrapAdd(10 * (m * 9 + d - 1), 1);
    WrapAdd(1 + 10 * (m * 9 + d - 1), e);
  }

  lemma PackWrappedTop(n: nat)
    requires 0 < n < U64
    ensures Wrap(Wrap(1 + Wrap(Wrap(n - 1) * 10)) + 9) == Wrap(1 + 10 * (n - 1) + 9)
  {
    hide Wrap;
    WrapFits(n - 1);
    WrapAdd(10 * (n - 1), 1);
    WrapAdd(1 + 10 * (n - 1), 9);
  }

  method CompressAmount(amount: nat) returns (r: nat)
    requires amount < U64
    ensures r == Wrap(Compress(amount))
  {
    if amount == 0 {
      return 0;
    }
    var n, e := amount, 0;
    while n % 10 == 0 && e < 9
      invariant 0 <= e <= 9 && 0 < n < U64 && Strip(amount, 0) == Strip(n, e)
      decreases 9 - e
    {
      n := n / 10;
      e := e + 1;
    }
    StripIs(amount, 0);
    hide Wrap, Strip;
    if e < 9 {
      var d := n % 10;
      assert 1 <= d <= 9;
      n := n / 10;
      PackWrapped(n, d, e);
      r := Wrap(Wrap(1 + Wrap(Wrap(Wrap(Wrap(n * 9) + d) - 1) * 10)) + e);
    } else {
      PackWrappedTop(n);
      r := Wrap(Wrap(1 + Wrap(Wrap(n - 1) * 10)) + 9);
    }
  }

  lemma NoScale(n: nat)
    ensures Times(n, Pow(10, 0)) == n
  {
  }

  method DecompressAmount(compressed: nat) returns (n: nat)
    requires compressed < U64
    ensures n == Wrap(Decompress(compressed))
  {
    if compressed == 0 {
      return 0;
    }
    hide Wrap, Pow, Times;
    var x := compressed - 1;
    var e := x % 10;
    x := x / 10;
    n := 0;
    if e < 9 {
      var d := x % 9 + 1;
      x := x / 9;
      WrapFits(x * 10);
      WrapFits(x * 10 + d);
      n := Wrap(Wrap(x * 10) + d);
    } else {
      WrapFits(x + 1);
      n := Wrap(x + 1);
    }
    ghost var s := Unpacked(compressed);
    assert n == s.digits && e == s.exponent;
    hide Unpacked;
    NoScale(n);
    WrapFits(n);
    while e > 0
      invariant 0 <= e <= s.exponent && n == Wrap(Times(s.digits, Pow(10, s.exponent - e)))
    {
      TenTimes(s.digits, s.exponent - e);
      WrapTen(Times(s.digits, Pow(10, s.exponent - e)));
      n := Wrap(n * 10);
      e := e - 1;
    }
  }

  // ---------- When 64 bits suffice ----------

  /** The compressed number in terms of the digits and the exponent. */
  lemma PackedIs(s: Scaled)
    requires IsStripped(s)
    ensures Packed(s) == if s.exponent < 9 then 9 * s.digits + s.digits % 10 - 9 + s.exponent else 10 * s.digits
  {
  }

  lemma AmountAtLeast(s: Scaled)
    ensures s.exponent == 0 ==> Amount(s) == s.digits
    ensures s.exponent > 0 ==> Amount(s) >= 10 * s.digits
  {
    if s.exponent > 0 {
      PowExp(10, 1, s.exponent);
      assert Pow(10, 1) == 10;
      MulMono(10, Pow(10, s.exponent), s.digits);
    }
  }

  /** Compressing an amount takes at most nine times the amount, and less than 2^64 if the amount ends in zero. */
  lemma CompressBound(n: nat)
    ensures Compress(n) <= 9 * n
    ensures n < U64 && n % 10 == 0 ==> Compress(n) < U64
    ensures n % 10 != 0 ==> Compress(n) == 9 * n + n % 10 - 9
  {
    if n > 0 {
      StripIs(n, 0);
      var s := Strip(n, 0);
      assert s.exponent == 0 <==> n % 10 != 0;
      hide Strip, Packed, Amount;
      AmountAtLeast(s);
      PackedIs(s);
      AmountIs(s, n);
    }
  }

  lemma AmountIs(s: Scaled, n: nat)
    requires n == Times(s.digits, Pow(10, s.exponent))
    ensures Amount(s) == n
  {
  }

  /** Nothing wraps for amounts up to (2^64 - 1) / 9, and the round trip is exact there. */
  lemma SmallAmounts(n: nat)
    requires n <= (U64 - 1) / 9
    ensures Compress(n) < U64 && Wrap(Decompress(Wrap(Compress(n)))) == n
  {
    hide Compress, Decompress, Wrap;
    CompressBound(n);
    CompressDecompress(n);
    WrapFits(Compress(n));
    WrapFits(n);
  }

  /** The number with index q among those that do not end in zero. */
  function Nth(q: nat): nat {
    q + q / 9 + 1
  }

  /** An equation with an odd factor has one solution modulo 2^64; this one is too large. */
  lemma NoSolution(p: nat, u: nat, w: nat, f: nat, r: nat, s: nat)
    requires p > 0 && u * (p - 1) == 1 + w * U64 && f < u * r - s * U64 < U64
    ensures Wrap(f * p) != f + r
  {
    if Wrap(f * p) == f + r {
      var j := f * p / U64;
      assert f * p == f + r + j * U64;
      assert f * (p - 1) == r + j * U64 by {
        MulDist(f, p - 1, 1);
      }
      Multiplied(p, u, w, f, r, j);
      NotMultiple(f, u * r - s * U64, s + (u * j - w * f));
    }
  }

  lemma NotMultiple(f: nat, g: nat, t: int)
    requires f < g < U64
    ensures f != g + t * U64
  {
  }

  lemma Multiplied(p: nat, u: nat, w: nat, f: nat, r: nat, j: nat)
    requires p > 0 && u * (p - 1) == 1 + w * U64 && f * (p - 1) == r + j * U64
    ensures f == u * r + (u * j - w * f) * U64
  {
    MulAssoc(u, p - 1, f);
    MulDist(u, r, j * U64);
    MulAssoc(u, j, U64);
    MulDist(f, 1, w * U64);
    MulAssoc(w, U64, f);
    MulAssoc(w, f, U64);
    MulDist(U64, u * j, -(w * f));
  }

  /** A wrapped number does not decompress to the amount it came from, whichever of the two carries occurs. */
  lemma NeverMeets(p: nat, u: nat, w: nat, x: nat, delta: nat, s0: nat, s1: nat)
    requires p > 0 && x <= U64 / 10 && u * (p - 1) == 1 + w * U64
    requires U64 / 9 + 2 <= u * (delta + delta / 9) - s0 * U64 < U64
    requires U64 / 9 + 2 <= u * (delta + delta / 9 + 1) - s1 * U64 < U64
    ensures Wrap(Nth(x) * p) != Nth(x + delta)
  {
    var c := Nth(x + delta) - Nth(x) - (delta + delta / 9);
    assert c == 0 || c == 1;
    hide Wrap;
    if c == 0 {
      NoSolution(p, u, w, Nth(x), delta + delta / 9, s0);
    } else {
      NoSolution(p, u, w, Nth(x), delta + delta / 9 + 1, s1);
    }
  }

  lemma Shorter(x: nat, delta: nat)
    requires x <= U64 / 10 && delta > 0
    ensures Wrap(Nth(x) * 1) != Nth(x + delta)
  {
  }

  /** The power of ten that a wrapped number decompresses with, and how far its index lies below. */
  function WrappedExponent(k: nat): nat {
    (4 * k) % 10
  }

  lemma WrappedMisses(k: nat, x: nat, delta: nat)
    requires 1 <= k <= 8 && x <= U64 / 10 && 10 * delta == k * U64 + WrappedExponent(k)
    ensures Wrap(Nth(x) * Pow(10, WrappedExponent(k))) != Nth(x + delta)
  {
    PowersOfTen();
    hide Wrap, Nth, Pow;
    if k == 1 {
      NeverMeets(10000, 13458245626333751279, 7295, x, 1844674407370955162, 1495360625148194586, 1495360625148194587);
    } else if k == 2 {
      NeverMeets(100000000, 300153063250403071, 1627133, x, 3689348814741910324, 66700680722311793, 66700680722311793);
    } else if k == 3 {
      NeverMeets(100, 12670490878911611211, 68, x, 5534023222112865485, 4223496959637203736, 4223496959637203737);
    } else if k == 4 {
      NeverMeets(1000000, 1672254362768354751, 90653, x, 7378697629483820647, 743224161230379889, 743224161230379889);
    } else if k == 5 {
      Shorter(x, 9223372036854775808);
    } else if k == 6 {
      NeverMeets(10000, 13458245626333751279, 7295, x, 11068046444225730970, 8972163750889167519, 8972163750889167520);
    } else if k == 7 {
      NeverMeets(100000000, 300153063250403071, 1627133, x, 12912720851596686132, 233452382528091277, 233452382528091277);
    } else {
      NeverMeets(100, 12670490878911611211, 68, x, 14757395258967641293, 11262658559032543298, 11262658559032543299);
    }
  }

  lemma PowersOfTen()
    ensures Pow(10, 0) == 1 && Pow(10, 2) == 100 && Pow(10, 4) == 10000
    ensures Pow(10, 6) == 1000000 && Pow(10, 8) == 100000000
  {
    assert Pow(10, 3) == 1000;
    PowAdd(10, 3, 3);
    PowAdd(10, 4, 4);
  }

  /** A number that wraps, taken apart the way the decompressor does. */
  lemma WrappedParts(y: nat, k: nat)
    requires k == (10 * y + 1) / U64
    ensures var x := Wrap(10 * y + 1);
      var delta := (k * U64 + WrappedExponent(k)) / 10;
      && x > 0 && 10 * delta == k * U64 + WrappedExponent(k) && 0 <= y - delta <= U64 / 10
      && Unpacked(x) == Scaled(Nth(y - delta), WrappedExponent(k))
  {
    var e := WrappedExponent(k);
    var delta := Apart(k);
    var x := Remainder(y, k);
    hide Unpacked, WrappedExponent, Nth, Wrap;
    UnpackedIs(y - delta, e);
  }

  lemma Apart(k: nat) returns (delta: nat)
    ensures delta == (k * U64 + WrappedExponent(k)) / 10 && 10 * delta == k * U64 + WrappedExponent(k)
    ensures WrappedExponent(k) < 9
  {
    delta := k * ((U64 + 4) / 10) - 4 * k / 10;
    assert 10 * delta == k * U64 + WrappedExponent(k);
  }

  lemma Remainder(y: nat, k: nat) returns (x: nat)
    requires k == (10 * y + 1) / U64
    ensures x == Wrap(10 * y + 1) == 10 * y + 1 - k * U64 && 0 < x < U64
  {
    x := 10 * y + 1 - k * U64;
    assert x % 2 == 1;
  }

  lemma UnpackedIs(q: nat, e: nat)
    requires e < 9
    ensures Unpacked(10 * q + e + 1) == Scaled(Nth(q), e)
  {
  }

  /** The amount that compresses to 10 y + 1. */
  lemma UnscaledIs(n: nat)
    requires n % 10 != 0
    ensures var y := 9 * (n / 10) + n % 10 - 1; n == Nth(y) && 9 * n + n % 10 - 9 == 10 * y + 1
  {
    var y := 9 * (n / 10) + n % 10 - 1;
    assert y / 9 == n / 10;
  }

  /** The amounts that fit 64 bits when compressed: those that end in zero, and those up to a ninth of the range. */
  predicate CompressedFits(n: nat) {
    n % 10 == 0 || 9 * n + n % 10 - 9 < U64
  }

  /** In 64 bits an amount survives compressing and decompressing exactly when its compressed form does not wrap. */
  lemma RoundTripExactly(n: nat)
    requires n < U64
    ensures Wrap(Decompress(Wrap(Compress(n)))) == n <==> CompressedFits(n)
    ensures CompressedFits(n) <==> Compress(n) < U64
  {
    CompressBound(n);
    if Compress(n) < U64 {
      hide Compress, Decompress, Wrap;
      CompressDecompress(n);
      WrapFits(Compress(n));
      WrapFits(n);
    } else {
      hide Compress, Wrap, Unpacked, Nth, WrappedExponent, Pow, Times;
      UnscaledIs(n);
      var y := 9 * (n / 10) + n % 10 - 1;
      var k := (10 * y + 1) / U64;
      WrappedParts(y, k);
      var delta := (k * U64 + WrappedExponent(k)) / 10;
      WrappedMisses(k, y - delta, delta);
      TimesIs(Nth(y - delta), Pow(10, WrappedExponent(k)));
    }
  }

  /** The largest amount of money does not survive. */
  lemma LargestAmountLost()
    ensures var n := 9223372036854775807; Wrap(Decompress(Wrap(Compress(n)))) != n
  {
    hide Compress, Decompress, Wrap;
    RoundTripExactly(9223372036854775807);
  }
}

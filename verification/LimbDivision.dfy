/** Comparison and bit length of limb arrays, and division by shifting and subtracting. */
module LimbDivision {
  import opened Numbers
  import opened Limbs
  import opened LimbShifts

  // ---------- Comparison ----------

  /** The highest limb in which two numbers differ decides. */
  lemma TopLimbDecides(x: seq<nat>, y: seq<nat>, i: nat)
    requires |x| == |y| && i < |x| && IsLimbs(x) && IsLimbs(y) && x[i + 1..] == y[i + 1..] && x[i] < y[i]
    ensures Value(x) < Value(y)
  {
    hide Value, Range, Times;
    ValueSplit(x, i + 1);
    ValueSplit(y, i + 1);
    ValueSnoc(x, i);
    ValueSnoc(y, i);
    ValueBound(x[..i]);
    TimesMono(x[i] + 1, y[i], Range(i));
    TimesAdd(Range(i), x[i], 1);
    TimesUnit(Range(i));
  }

  /** `CompareTo`: the sign of the difference. */
  method CompareTo(a: array<nat>, b: array<nat>) returns (r: int)
    requires a.Length == b.Length && IsLimbs(a[..]) && IsLimbs(b[..])
    ensures r == if Value(a[..]) < Value(b[..]) then -1 else if Value(a[..]) > Value(b[..]) then 1 else 0
  {
    hide Value;
    var i := a.Length - 1;
    while i >= 0
      invariant -1 <= i < a.Length
      invariant a[..][i + 1..] == b[..][i + 1..]
    {
      if a[i] < b[i] {
        TopLimbDecides(a[..], b[..], i);
        return -1;
      }
      if a[i] > b[i] {
        TopLimbDecides(b[..], a[..], i);
        return 1;
      }
      i := i - 1;
    }
    assert a[..] == b[..];
    r := 0;
  }

  // ---------- Bit length ----------

  /** `n` is the number of bits of `v`: the place of its highest bit plus one, or 0 for 0. */
  ghost predicate HasBits(v: nat, n: nat) {
    v < Pow2(n) && (n > 0 ==> Pow2(n - 1) <= v)
  }

  lemma BitStep(n: nat)
    ensures Pow2(n + 1) == 2 * Pow2(n)
  {
  }

  /** The bit length of one limb, found from the top bit down. */
  method LimbBits(x: nat) returns (n: nat)
    requires 0 < x < BASE
    ensures 1 <= n <= LIMB_BITS && HasBits(x, n)
  {
    hide Pow2;
    BaseIsPow2();
    var bit := LIMB_BITS - 1;
    while bit > 0
      invariant 0 <= bit < LIMB_BITS && x < Pow2(bit + 1)
    {
      TopBit(x, bit);
      if Div(x, Pow2(bit)) % 2 == 1 {
        return bit + 1;
      }
      bit := bit - 1;
    }
    NoBits();
    n := 1;
  }

  lemma NoBits()
    ensures Pow2(0) == 1
  {
  }

  /** A number below 2^(bit+1) has that bit set exactly when it is at least 2^bit. */
  lemma TopBit(x: nat, bit: nat)
    requires x < Pow2(bit + 1)
    ensures Div(x, Pow2(bit)) % 2 == 1 <==> Pow2(bit) <= x
  {
    var p := Pow2(bit);
    BitStep(bit);
    if p <= x {
      DivModUnique(x, p, 1, x - p);
    } else {
      DivModUnique(x, p, 0, x);
    }
  }

  /** The bits of a number are those of its highest non-zero limb and all of the limbs below. */
  lemma TopLimbBits(x: seq<nat>, pos: nat, n: nat)
    requires pos < |x| && IsLimbs(x) && (forall i | pos < i < |x| :: x[i] == 0)
    requires 1 <= n <= LIMB_BITS && HasBits(x[pos], n)
    ensures HasBits(Value(x), LIMB_BITS * pos + n)
  {
    hide Value, Range, Times, Pow2;
    ValueSplit(x, pos + 1);
    ValueZero(x[pos + 1..]);
    TimesUnit(Range(pos + 1));
    ValueSnoc(x, pos);
    ValueBound(x[..pos]);
    RangeIsPow2(pos);
    Pow2Sum(LIMB_BITS * pos, n);
    Pow2Sum(LIMB_BITS * pos, n - 1);
    TimesMono(Pow2(n - 1), x[pos], Range(pos));
    TimesMono(x[pos] + 1, Pow2(n), Range(pos));
    TimesAdd(Range(pos), x[pos], 1);
    TimesUnit(Range(pos));
    TimesSwap(Range(pos), Pow2(n));
    TimesSwap(Range(pos), Pow2(n - 1));
  }

  /** `bits()`. */
  method Bits(a: array<nat>) returns (n: nat)
    requires IsLimbs(a[..])
    ensures n <= LIMB_BITS * a.Length && HasBits(Value(a[..]), n)
  {
    hide Value, Pow2;
    var pos := a.Length - 1;
    while pos >= 0
      invariant -1 <= pos < a.Length
      invariant forall i | pos < i < a.Length :: a[i] == 0
    {
      if a[pos] != 0 {
        var bits := LimbBits(a[pos]);
        TopLimbBits(a[..], pos, bits);
        return LIMB_BITS * pos + bits;
      }
      pos := pos - 1;
    }
    ValueZero(a[..]);
    NoBits();
    n := 0;
  }

  // ---------- Division ----------

  /**
   Long division with bits `shift` and below still to do: `q` divisors of size 2^(shift+1) times `d` have been
   taken off `n`, and what is left is less than one of them.
   */
  ghost predicate Dividing(n: nat, d: nat, shift: int, quotient: nat, num: nat, q: nat) {
    && -1 <= shift && n == Times(quotient, d) + num
    && num < Times(d, Pow2(shift + 1)) && quotient == Times(q, Pow2(shift + 1))
  }

  lemma DivideTake(n: nat, d: nat, shift: nat, quotient: nat, num: nat, q: nat)
    requires Dividing(n, d, shift, quotient, num, q) && Times(d, Pow2(shift)) <= num
    ensures Dividing(n, d, shift - 1, quotient + Pow2(shift), num - Times(d, Pow2(shift)), 2 * q + 1)
  {
    var p := Pow2(shift);
    BitStep(shift);
    MulDist(d, quotient, p);
    MulDist(d, p, p);
    MulDist(p, 2 * q, 1);
    MulAssoc(q, 2, p);
  }

  lemma DivideSkip(n: nat, d: nat, shift: nat, quotient: nat, num: nat, q: nat)
    requires Dividing(n, d, shift, quotient, num, q) && num < Times(d, Pow2(shift))
    ensures Dividing(n, d, shift - 1, quotient, num, 2 * q)
  {
    BitStep(shift);
    MulAssoc(q, 2, Pow2(shift));
  }

  lemma DivideStart(n: nat, d: nat, numBits: nat, divBits: nat)
    requires HasBits(n, numBits) && HasBits(d, divBits) && 0 < divBits <= numBits
    ensures Dividing(n, d, numBits - divBits, 0, n, 0)
    ensures Times(d, Pow2(numBits - divBits)) < Pow2(numBits)
  {
    hide Times, Pow2;
    var shift := numBits - divBits;
    Pow2Sum(divBits - 1, shift + 1);
    Pow2Sum(divBits, shift);
    TimesMono(Pow2(divBits - 1), d, Pow2(shift + 1));
    TimesMono(d + 1, Pow2(divBits), Pow2(shift));
    TimesAdd(Pow2(shift), d, 1);
    TimesUnit(Pow2(shift));
    TimesUnit(Pow2(shift + 1));
    TimesUnit(d);
  }

  lemma DivideEnd(n: nat, d: nat, quotient: nat, num: nat, q: nat)
    requires Dividing(n, d, -1, quotient, num, q) && d > 0
    ensures quotient == Div(n, d) && num == Mod(n, d)
  {
    NoBits();
    TimesUnit(d);
    DivModUnique(n, d, quotient, num);
  }

  /** A limb of a multiple of 2^(shift+1) has bit `shift` free, and the bits below it too. */
  lemma BitFree(x: seq<nat>, shift: nat, q: nat) returns (y: nat)
    requires IsLimbs(x) && shift / LIMB_BITS < |x| && Value(x) == Times(q, Pow2(shift + 1))
    ensures x[shift / LIMB_BITS] == Times(y, Pow2(shift % LIMB_BITS + 1))
  {
    hide Value, Range, Pow2;
    var i, t := shift / LIMB_BITS, shift % LIMB_BITS;
    ValueSplit(x, i);
    ValueSplit(x[i..], 1);
    assert x[i..][..1] == [x[i]];
    Single(x[i]);
    Nothing();
    RangeStep(0);
    ValueBound(x[..i]);
    Pow2Sum(LIMB_BITS * i, t + 1);
    RangeIsPow2(i);
    Pow2Sum(t + 1, LIMB_BITS - 1 - t);
    BaseIsPow2();
    y := LowLimb(Value(x[..i]), x[i], Value(x[i..][1..]), q, Range(i), Pow2(t + 1), Pow2(LIMB_BITS - 1 - t));
  }

  lemma LowLimb(low: nat, limb: nat, high: nat, q: nat, r: nat, p: nat, p': nat) returns (y: nat)
    requires low < r && p > 0
    requires low + Times(r, limb + Times(Times(p, p'), high)) == Times(q, Times(r, p))
    ensures limb == Times(y, p)
  {
    hide Times;
    var rest, k := limb + Times(Times(p, p'), high), Times(p', high);
    Rotate(q, r, p);
    NoRemainder(low, rest, Times(q, p), r);
    TimesAssoc(p, p', high);
    TimesSwap(q, p);
    TimesAdd(p, q - k, k);
    y := Quotient(limb, p, q - k);
  }

  lemma NoRemainder(low: nat, rest: int, whole: int, r: nat)
    requires low < r && low + Times(r, rest) == Times(r, whole)
    ensures rest == whole
  {
    DivModUnique(low + r * rest, r, rest, low);
    DivModUnique(r * whole, r, whole, 0);
  }

  lemma SignOf(p: nat, k: int)
    requires p > 0 && Times(p, k) >= 0
    ensures k >= 0
  {
  }

  lemma Quotient(limb: nat, p: nat, k: int) returns (y: nat)
    requires p > 0 && limb == Times(p, k)
    ensures limb == Times(y, p)
  {
    SignOf(p, k);
    y := k;
  }

  /** `pn[shift / 32] |= 1 << (shift & 31)` on a number whose bits from `shift` down are free. */
  method SetBit(a: array<nat>, shift: nat, ghost q: nat)
    requires IsLimbs(a[..]) && shift / LIMB_BITS < a.Length && Value(a[..]) == Times(q, Pow2(shift + 1))
    modifies a
    ensures IsLimbs(a[..]) && Value(a[..]) == old(Value(a[..])) + Pow2(shift)
  {
    hide Value, Range, Pow2, Times, BitOr;
    var i, t := shift / LIMB_BITS, shift % LIMB_BITS;
    ghost var x: seq<nat> := a[..];
    ghost var y := BitFree(x, shift, q);
    BitStep(t);
    OrIsPlus(y, Pow2(t), t + 1);
    LimbRoom(y, t);
    a[i] := BitOr(a[i], Pow2(t));
    assert a[..] == x[i := x[i] + Pow2(t)];
    AddAtLimb(x, i, Pow2(t));
    Pow2Sum(LIMB_BITS * i, t);
    RangeIsPow2(i);
    TimesSwap(Pow2(t), Range(i));
  }

  lemma LimbRoom(y: nat, t: nat)
    requires t < LIMB_BITS && Times(y, Pow2(t + 1)) < BASE
    ensures Times(y, Pow2(t + 1)) + Pow2(t) < BASE
  {
    var p, r := Pow2(t + 1), Pow2(LIMB_BITS - 1 - t);
    Pow2Sum(t + 1, LIMB_BITS - 1 - t);
    BaseIsPow2();
    BitStep(t);
    assert y < r by {
      CancelLess(y, r, p);
    }
    MulMono(y + 1, r, p);
    MulDist(p, y, 1);
  }

  lemma AddAtLimb(x: seq<nat>, i: nat, d: nat)
    requires i < |x|
    ensures Value(x[i := x[i] + d]) == Value(x) + Times(d, Range(i))
  {
    hide Value, Range, Times;
    var z := x[i := x[i] + d];
    ValueSplit(x, i + 1);
    ValueSplit(z, i + 1);
    ValueSnoc(x, i);
    ValueSnoc(z, i);
    assert z[..i] == x[..i] && z[i + 1..] == x[i + 1..];
    TimesAdd(Range(i), x[i], d);
  }

  /** Shifting the divisor back by one bit. */
  lemma HalfDivisor(d: nat, shift: nat)
    requires shift > 0
    ensures Div(Times(d, Pow2(shift)), Pow2(1)) == Times(d, Pow2(shift - 1))
  {
    assert Pow2(1) == 2 by {
      BitStep(0);
    }
    BitStep(shift - 1);
    MulAssoc(d, 2, Pow2(shift - 1));
    assert d * Pow2(shift) == 2 * (d * Pow2(shift - 1));
  }

  /**
   `a /= b`, where `b` may be `a` itself. It fails exactly on a zero divisor, leaving zero behind; otherwise it
   leaves the quotient in `a`, and the remainder in the local copy `num`.
   */
  method DivAssign(a: array<nat>, b: array<nat>) returns (ok: bool, ghost rem: nat)
    requires a.Length == b.Length > 0 && IsLimbs(a[..]) && IsLimbs(b[..])
    modifies a
    ensures IsLimbs(a[..])
    ensures ok <==> old(Value(b[..])) != 0
    ensures !ok ==> Value(a[..]) == 0
    ensures ok ==> Value(a[..]) == Div(old(Value(a[..])), old(Value(b[..]))) && rem == Mod(old(Value(a[..])), old(Value(b[..])))
  {
    hide Value, Range, Pow2, Times, Div, Mod;
    ghost var n, d := Value(a[..]), Value(b[..]);
    var div := Copy(b);
    var num := Copy(a);
    ClearAll(a);
    ValueZero(a[..]);
    var numBits := Bits(num);
    var divBits := Bits(div);
    BitsOfZero(d, divBits);
    rem := 0;
    if divBits == 0 {
      return false, rem;
    }
    ok := true;
    if divBits > numBits {
      SmallDividend(n, d, numBits, divBits);
      rem := n;
      return;
    }
    var shift: int := numBits - divBits;
    DivideStart(n, d, numBits, divBits);
    AlignedDivisor(d, numBits, divBits, a.Length);
    ShiftLeft(div, shift);
    ghost var q: nat := 0;
    while shift >= 0
      invariant -1 <= shift <= numBits - divBits && fresh(num) && fresh(div)
      invariant num != a && div != a && num != div && num.Length == div.Length == a.Length
      invariant IsLimbs(a[..]) && IsLimbs(num[..]) && IsLimbs(div[..])
      invariant Dividing(n, d, shift, Value(a[..]), Value(num[..]), q)
      invariant shift >= 0 ==> Value(div[..]) == Times(d, Pow2(shift))
      decreases shift
    {
      var order := CompareTo(num, div);
      if order >= 0 {
        DivideTake(n, d, shift, Value(a[..]), Value(num[..]), q);
        SubtractExact(Value(num[..]), Value(div[..]), num[..]);
        SubAssign(num, div);
        assert shift / LIMB_BITS < a.Length;
        SetBit(a, shift, q);
        q := 2 * q + 1;
      } else {
        DivideSkip(n, d, shift, Value(a[..]), Value(num[..]), q);
        q := 2 * q;
      }
      ShiftRight(div, 1);
      if shift > 0 {
        HalfDivisor(d, shift);
      }
      shift := shift - 1;
    }
    DivideEnd(n, d, Value(a[..]), Value(num[..]), q);
    rem := Value(num[..]);
  }

  lemma BitsOfZero(d: nat, bits: nat)
    requires HasBits(d, bits)
    ensures bits == 0 <==> d == 0
  {
  }

  lemma SmallDividend(n: nat, d: nat, numBits: nat, divBits: nat)
    requires HasBits(n, numBits) && HasBits(d, divBits) && numBits < divBits
    ensures d > 0 && Div(n, d) == 0 && Mod(n, d) == n
  {
    PowExp(2, numBits, divBits - 1);
    ModSmall(n, d);
  }

  /** The aligned divisor still fits, so the shift loses nothing. */
  lemma AlignedDivisor(d: nat, numBits: nat, divBits: nat, width: nat)
    requires divBits <= numBits <= LIMB_BITS * width && Times(d, Pow2(numBits - divBits)) < Pow2(numBits)
    ensures Mod(Times(d, Pow2(numBits - divBits)), Range(width)) == Times(d, Pow2(numBits - divBits))
  {
    hide Mod;
    RangeIsPow2(width);
    PowExp(2, numBits, LIMB_BITS * width);
    ModFits(Times(d, Pow2(numBits - divBits)), Range(width));
  }

  lemma SubtractExact(x: nat, y: nat, limbs: seq<nat>)
    requires y <= x == Value(limbs) && IsLimbs(limbs)
    ensures Mod(x - y, Range(|limbs|)) == x - y
  {
    hide Mod;
    ValueBound(limbs);
    ModFits(x - y, Range(|limbs|));
  }
}

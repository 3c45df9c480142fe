/**
 Unsigned big integers (`base_uint`): arrays of 32-bit limbs, least significant first, of any width. Every operator
 works on the limbs in place and is proved to compute what it should on the integers they stand for.
 */
module Limbs {
  import opened Numbers

  const BASE: nat := 0x1_0000_0000

  ghost predicate IsLimbs(s: seq<nat>) {
    forall i | 0 <= i < |s| :: s[i] < BASE
  }

  function Value(s: seq<nat>): nat {
    if s == [] then 0 else s[0] + BASE * Value(s[1..])
  }

  /** One more than the largest value of `width` limbs. */
  function Range(width: nat): (r: nat)
    ensures r > 0
  {
    Pow(BASE, width)
  }

  lemma Nothing()
    ensures Value([]) == 0 && Range(0) == 1
  {
  }

  lemma RangeStep(i: nat)
    ensures Range(i + 1) == BASE * Range(i)
  {
  }

  lemma RangeSum(i: nat, j: nat)
    ensures Range(i + j) == Times(Range(i), Range(j))
  {
    PowAdd(BASE, i, j);
  }

  lemma {:induction false} ValueBound(s: seq<nat>)
    requires IsLimbs(s)
    ensures Value(s) < Range(|s|)
  {
    if s != [] {
      ValueBound(s[1..]);
      MulMono(Value(s[1..]), Range(|s| - 1) - 1, BASE);
      MulDist(BASE, Range(|s| - 1), -1);
    }
  }

  lemma {:induction false} ValueConcat(s: seq<nat>, t: seq<nat>)
    ensures Value(s + t) == Value(s) + Times(Range(|s|), Value(t))
  {
    if s == [] {
      assert s + t == t;
    } else {
      ValueConcat(s[1..], t);
      assert (s + t)[1..] == s[1..] + t;
      MulDist(BASE, Value(s[1..]), Range(|s| - 1) * Value(t));
      MulAssoc(BASE, Range(|s| - 1), Value(t));
    }
  }

  lemma ValueSnoc(s: seq<nat>, n: nat)
    requires n < |s|
    ensures Value(s[..n + 1]) == Value(s[..n]) + Times(s[n], Range(n))
  {
    assert s[..n + 1] == s[..n] + [s[n]];
    ValueConcat(s[..n], [s[n]]);
    assert Value([s[n]]) == s[n];
    TimesSwap(s[n], Range(n));
  }

  lemma ValueSplit(s: seq<nat>, n: nat)
    requires n <= |s|
    ensures Value(s) == Value(s[..n]) + Times(Range(n), Value(s[n..]))
  {
    assert s == s[..n] + s[n..];
    ValueConcat(s[..n], s[n..]);
  }

  lemma {:induction false} ValueZero(s: seq<nat>)
    requires forall i | 0 <= i < |s| :: s[i] == 0
    ensures Value(s) == 0
  {
    if s != [] {
      ValueZero(s[1..]);
    }
  }

  /** A limb result splits into what stays at place `i` and what is carried to the next. */
  lemma Ripple(n: nat, i: nat)
    ensures Times(n % BASE, Range(i)) + Times(n / BASE, Range(i + 1)) == Times(n, Range(i))
  {
    DivMod(n, BASE);
    MulAssoc(n / BASE, BASE, Range(i));
    MulDist(Range(i), n % BASE, n / BASE * BASE);
  }

  // ---------- Addition and subtraction ----------

  /** The lowest `i` limbs of `cur` and the carry hold the sum of those of `x` and `y`; the rest is still `x`. */
  ghost predicate Summed(x: seq<nat>, y: seq<nat>, cur: seq<nat>, i: nat, carry: nat) {
    && |cur| == |x| == |y| && i <= |x| && carry <= 1 && IsLimbs(cur) && cur[i..] == x[i..]
    && Value(cur[..i]) + Times(carry, Range(i)) == Value(x[..i]) + Value(y[..i])
  }

  lemma SummedStep(x: seq<nat>, y: seq<nat>, cur: seq<nat>, i: nat, carry: nat)
    requires Summed(x, y, cur, i, carry) && i < |x| && IsLimbs(x) && IsLimbs(y)
    ensures var n := carry + x[i] + y[i]; Summed(x, y, cur[i := n % BASE], i + 1, n / BASE)
  {
    hide Value, Range, Times;
    var n := carry + x[i] + y[i];
    var cur' := cur[i := n % BASE];
    ValueSnoc(x, i);
    ValueSnoc(y, i);
    ValueSnoc(cur', i);
    assert cur'[..i] == cur[..i];
    Ripple(n, i);
    TimesAdd(Range(i), carry, x[i] + y[i]);
    TimesAdd(Range(i), x[i], y[i]);
  }

  lemma SummedAll(x: seq<nat>, y: seq<nat>, cur: seq<nat>, carry: nat)
    requires Summed(x, y, cur, |x|, carry)
    ensures Value(cur) == Mod(Value(x) + Value(y), Range(|x|))
  {
    hide Value, Range, Times, Mod;
    assert cur[..|x|] == cur && x[..|x|] == x && y[..|x|] == y;
    ValueBound(cur);
    ModIs(Value(x) + Value(y), Range(|x|), carry, Value(cur));
  }

  /** `a += b`, where `b` may be `a` itself. */
  method AddAssign(a: array<nat>, b: array<nat>)
    requires a.Length == b.Length && IsLimbs(a[..]) && IsLimbs(b[..])
    modifies a
    ensures IsLimbs(a[..])
    ensures Value(a[..]) == Mod(old(Value(a[..])) + old(Value(b[..])), Range(a.Length))
  {
    hide Value, Range, Times, Mod;
    Nothing();
    TimesUnit(1);
    ghost var x, y := a[..], b[..];
    var carry: nat := 0;
    for i := 0 to a.Length
      invariant Summed(x, y, a[..], i, carry)
      invariant b != a ==> b[..] == y
    {
      ghost var cur: seq<nat> := a[..];
      assert a[i] == cur[i..][0] == x[i] && b[i] == y[i];
      SummedStep(x, y, cur, i, carry);
      var n: nat := carry + a[i] + b[i];
      a[i] := n % BASE;
      carry := n / BASE;
      assert a[..] == cur[i := n % BASE];
    }
    SummedAll(x, y, a[..], carry);
  }

  /** Limb `i` has just been incremented: either that was all, or it and all below have wrapped to zero. */
  ghost predicate Incremented(x: seq<nat>, cur: seq<nat>, i: nat) {
    && |cur| == |x| && i < |x| && IsLimbs(cur) && cur[i + 1..] == x[i + 1..]
    && Value(cur[..i + 1]) + (if cur[i] == 0 then Range(i + 1) else 0) == Value(x[..i + 1]) + 1
    && (cur[i] == 0 ==> Value(cur[..i + 1]) == 0)
  }

  lemma IncrementStep(x: seq<nat>, cur: seq<nat>, i: nat)
    requires |cur| == |x| && i < |x| && IsLimbs(x)
    requires if i == 0 then cur == x else Incremented(x, cur, i - 1) && cur[i - 1] == 0
    ensures cur[i] == x[i] && Incremented(x, cur[i := (cur[i] + 1) % BASE], i)
  {
    hide Value, Range, Times;
    Nothing();
    assert cur[i..] == x[i..];
    assert cur[i] == cur[i..][0] == x[i];
    var cur' := cur[i := (cur[i] + 1) % BASE];
    ValueSnoc(x, i);
    ValueSnoc(cur', i);
    assert cur'[..i] == cur[..i];
    assert i == 0 ==> cur[..i] == [] && x[..i] == [];
    assert Value(cur[..i]) == 0 && Range(i) == Value(x[..i]) + 1;
    TimesAdd(Range(i), x[i], 1);
    TimesUnit(Range(i));
    IncrementLimb(x[i], i);
  }

  lemma IncrementLimb(x: nat, i: nat)
    requires x < BASE
    ensures if (x + 1) % BASE == 0 then x + 1 == BASE && Times(x + 1, Range(i)) == Range(i + 1) else (x + 1) % BASE == x + 1
  {
  }

  lemma IncrementedAll(x: seq<nat>, cur: seq<nat>, i: nat)
    requires Incremented(x, cur, i) && (cur[i] == 0 ==> i == |x| - 1)
    ensures Value(cur) == Mod(Value(x) + 1, Range(|x|))
  {
    hide Value, Range, Times, Mod;
    ValueSplit(x, i + 1);
    ValueSplit(cur, i + 1);
    ValueBound(cur);
    TimesUnit(Range(|x|));
    ModIs(Value(x) + 1, Range(|x|), if cur[i] == 0 then 1 else 0, Value(cur));
  }

  /** `++a`: the carry runs only as far as it has to. */
  method Increment(a: array<nat>)
    requires a.Length > 0 && IsLimbs(a[..])
    modifies a
    ensures IsLimbs(a[..])
    ensures Value(a[..]) == Mod(old(Value(a[..])) + 1, Range(a.Length))
  {
    hide Value, Range, Times, Mod;
    ghost var x: seq<nat> := a[..];
    var i := 0;
    IncrementStep(x, x, 0);
    a[0] := (a[0] + 1) % BASE;
    assert a[..] == x[0 := (x[0] + 1) % BASE];
    while a[i] == 0 && i < a.Length - 1
      invariant 0 <= i < a.Length && Incremented(x, a[..], i)
      decreases a.Length - i
    {
      ghost var cur: seq<nat> := a[..];
      i := i + 1;
      IncrementStep(x, cur, i);
      a[i] := (a[i] + 1) % BASE;
      assert a[..] == cur[i := (cur[i] + 1) % BASE];
    }
    IncrementedAll(x, a[..], i);
  }

  /** The lowest `i` limbs of `cur` complement those of `x`; the rest is still `x`. */
  ghost predicate Complemented(x: seq<nat>, cur: seq<nat>, i: nat) {
    && |cur| == |x| && i <= |x| && IsLimbs(cur) && cur[i..] == x[i..]
    && Value(cur[..i]) + Value(x[..i]) == Range(i) - 1
  }

  lemma ComplementStep(x: seq<nat>, cur: seq<nat>, i: nat)
    requires Complemented(x, cur, i) && i < |x| && IsLimbs(x)
    ensures cur[i] == x[i] && Complemented(x, cur[i := BASE - 1 - x[i]], i + 1)
  {
    hide Value, Range, Times;
    assert cur[i] == cur[i..][0] == x[i];
    var cur' := cur[i := BASE - 1 - x[i]];
    ValueSnoc(x, i);
    ValueSnoc(cur', i);
    assert cur'[..i] == cur[..i];
    TimesAdd(Range(i), BASE - 1 - x[i], x[i]);
    BelowNext(i);
  }

  lemma BelowNext(i: nat)
    ensures Times(BASE - 1, Range(i)) + Range(i) == Range(i + 1)
  {
  }

  /** `~a`, limb by limb. */
  method Complement(a: array<nat>)
    requires IsLimbs(a[..])
    modifies a
    ensures IsLimbs(a[..])
    ensures Value(a[..]) == Range(a.Length) - 1 - old(Value(a[..]))
  {
    hide Value, Range, Times;
    Nothing();
    ghost var x: seq<nat> := a[..];
    for i := 0 to a.Length
      invariant Complemented(x, a[..], i)
    {
      ghost var cur: seq<nat> := a[..];
      ComplementStep(x, cur, i);
      a[i] := BASE - 1 - a[i];
      assert a[..] == cur[i := BASE - 1 - x[i]];
    }
    assert a[..][..a.Length] == a[..] && x[..a.Length] == x;
  }

  method Copy(a: array<nat>) returns (c: array<nat>)
    ensures fresh(c) && c.Length == a.Length && c[..] == a[..]
  {
    c := new nat[a.Length](i requires 0 <= i < a.Length reads a => a[i]);
  }

  lemma SubtractMod(x: nat, y: nat, m: nat)
    requires y < m
    ensures Mod(x + Mod(m - 1 - y + 1, m), m) == Mod(x - y, m)
  {
    hide Mod, Times;
    TimesUnit(m);
    if y == 0 {
      ModIs(m, m, 1, 0);
    } else {
      ModFits(m - y, m);
      ModShift(x - y, 1, m);
    }
  }

  /** `a -= b`, computed as `a += -b` with `-b` the complement plus one. */
  method SubAssign(a: array<nat>, b: array<nat>)
    requires a.Length == b.Length > 0 && IsLimbs(a[..]) && IsLimbs(b[..])
    modifies a
    ensures IsLimbs(a[..])
    ensures Value(a[..]) == Mod(old(Value(a[..])) - old(Value(b[..])), Range(a.Length))
  {
    hide Value, Range, Times, Mod;
    ValueBound(b[..]);
    SubtractMod(Value(a[..]), Value(b[..]), Range(a.Length));
    var c := Copy(b);
    Complement(c);
    Increment(c);
    AddAssign(a, c);
  }

  // ---------- Multiplication ----------

  /** A limb product with two limbs added still fits in 64 bits, and its carry in 32. */
  lemma LimbProduct(base: nat, carry: nat, p: nat, x: nat, y: nat)
    requires carry < base && p < base && x < base && y < base
    ensures carry + p + x * y < base * base
    ensures (carry + p + x * y) / base < base
  {
    var n := carry + p + x * y;
    assert n < base * base by {
      MulMono(x, base - 1, y);
      MulMono(y, base - 1, base - 1);
      MulDist(base - 1, base, -1);
      MulDist(base, base, -1);
    }
    DivMod(n, base);
    CancelLess(n / base, base, base);
  }

  /** The lowest `i` limbs of `cur` and the carry hold `b` times those of `x`; the rest is still `x`. */
  ghost predicate Scaled(x: seq<nat>, b: nat, cur: seq<nat>, i: nat, carry: nat) {
    && |cur| == |x| && i <= |x| && carry < BASE && IsLimbs(cur) && cur[i..] == x[i..]
    && Value(cur[..i]) + Times(carry, Range(i)) == Times(b, Value(x[..i]))
  }

  lemma ScaledStep(x: seq<nat>, b: nat, cur: seq<nat>, i: nat, carry: nat)
    requires Scaled(x, b, cur, i, carry) && i < |x| && IsLimbs(x) && b < BASE
    ensures cur[i] == x[i]
    ensures var n: nat := carry + Times(b, x[i]); Scaled(x, b, cur[i := n % BASE], i + 1, n / BASE)
  {
    assert (carry + Times(b, x[i])) / BASE < BASE by {
      LimbProduct(BASE, carry, 0, b, x[i]);
    }
    hide Value, Range, Times;
    assert cur[i] == cur[i..][0] == x[i];
    var n: nat := carry + Times(b, x[i]);
    var cur' := cur[i := n % BASE];
    ValueSnoc(x, i);
    ValueSnoc(cur', i);
    assert cur'[..i] == cur[..i];
    Ripple(n, i);
    TimesAdd(Range(i), carry, Times(b, x[i]));
    TimesAssoc(b, x[i], Range(i));
    TimesAdd(b, Value(x[..i]), Times(x[i], Range(i)));
  }

  /** `a *= b32`. */
  method MulAssign32(a: array<nat>, b32: nat)
    requires IsLimbs(a[..]) && b32 < BASE
    modifies a
    ensures IsLimbs(a[..])
    ensures Value(a[..]) == Mod(Times(b32, old(Value(a[..]))), Range(a.Length))
  {
    hide Value, Range, Mod;
    Nothing();
    ghost var x: seq<nat> := a[..];
    var carry: nat := 0;
    for i := 0 to a.Length
      invariant Scaled(x, b32, a[..], i, carry)
    {
      ghost var cur: seq<nat> := a[..];
      ScaledStep(x, b32, cur, i, carry);
      var n: nat := carry + b32 * a[i];
      a[i] := n % BASE;
      carry := n / BASE;
      assert a[..] == cur[i := n % BASE];
    }
    assert a[..][..a.Length] == a[..] && x[..a.Length] == x;
    ValueBound(a[..]);
    ModIs(Times(b32, Value(x)), Range(a.Length), carry, Value(a[..]));
  }

  /** Row `j` of the long multiplication, `i` limbs done: the row so far has been added at place `j`. */
  ghost predicate Row(start: seq<nat>, d: nat, b: seq<nat>, cur: seq<nat>, j: nat, i: nat, carry: nat) {
    && |cur| == |start| == |b| && i + j <= |b| && carry < BASE && IsLimbs(cur)
    && cur[..j] == start[..j] && cur[j + i..] == start[j + i..]
    && Value(cur[j..j + i]) + Times(carry, Range(i)) == Value(start[j..j + i]) + Times(d, Value(b[..i]))
  }

  lemma SliceSnoc(s: seq<nat>, j: nat, i: nat)
    requires j + i < |s|
    ensures Value(s[j..j + i + 1]) == Value(s[j..j + i]) + Times(s[j + i], Range(i))
  {
    hide Value, Range, Times;
    ValueSnoc(s[j..], i);
    assert s[j..][..i + 1] == s[j..j + i + 1] && s[j..][..i] == s[j..j + i];
  }

  lemma RowStep(start: seq<nat>, d: nat, b: seq<nat>, cur: seq<nat>, j: nat, i: nat, carry: nat)
    requires Row(start, d, b, cur, j, i, carry) && i + j < |b| && d < BASE && IsLimbs(b) && IsLimbs(start)
    ensures cur[i + j] == start[i + j]
    ensures var n: nat := carry + start[i + j] + Times(d, b[i]);
      Row(start, d, b, cur[i + j := n % BASE], j, i + 1, n / BASE)
  {
    var n: nat := carry + start[i + j] + Times(d, b[i]);
    assert n / BASE < BASE by {
      LimbProduct(BASE, carry, start[i + j], d, b[i]);
    }
    hide Value, Range, Times;
    assert cur[i + j] == cur[j + i..][0] == start[i + j];
    var cur' := cur[i + j := n % BASE];
    SliceSnoc(start, j, i);
    SliceSnoc(cur', j, i);
    ValueSnoc(b, i);
    assert cur'[j..j + i] == cur[j..j + i];
    Ripple(n, i);
    TimesAdd(Range(i), carry + start[i + j], Times(d, b[i]));
    TimesAdd(Range(i), carry, start[i + j]);
    TimesAssoc(d, b[i], Range(i));
    TimesAdd(d, Value(b[..i]), Times(b[i], Range(i)));
  }

  /** With the carry and the limbs of `b` beyond the end put back, the row is exact. */
  lemma RowAlgebra(c1: int, s1: int, carry: int, d: int, low: int, high: int, rj: int, rk: int)
    requires c1 + Times(carry, rk) == s1 + Times(d, low)
    ensures Times(rj, c1) + Times(carry + Times(d, high), Times(rj, rk))
         == Times(rj, s1) + Times(Times(d, rj), low + Times(rk, high))
  {
    hide Times;
    TimesAdd(rj, c1, Times(carry, rk));
    TimesAdd(rj, s1, Times(d, low));
    TimesAdd(Times(rj, rk), carry, Times(d, high));
    Rotate(carry, rj, rk);
    TimesAssoc(d, high, Times(rj, rk));
    Rotate(high, rj, rk);
    TimesAdd(Times(d, rj), low, Times(rk, high));
    TimesAssoc(d, rj, low);
    TimesAssoc(d, rj, Times(rk, high));
    Rotate(d, rj, low);
    TimesSwap(high, rk);
  }

  lemma Rotate(x: int, y: int, z: int)
    ensures Times(x, Times(y, z)) == Times(y, Times(x, z))
  {
    MulAssoc(x, y, z);
    MulAssoc(y, x, z);
  }

  /** A finished row, as an equation between the values of its parts. */
  lemma RowEquation(start: seq<nat>, d: nat, b: seq<nat>, cur: seq<nat>, j: nat, k: nat, carry: nat)
    requires k + j == |b| && Row(start, d, b, cur, j, k, carry)
    ensures Value(cur[..j]) == Value(start[..j])
    ensures Value(cur[j..]) + Times(carry, Range(k)) == Value(start[j..]) + Times(d, Value(b[..k]))
  {
    hide Value, Range, Times;
    assert cur[j..j + k] == cur[j..] && start[j..j + k] == start[j..];
  }

  /** A finished row has added its limb times `b`, shifted to its place, modulo the range. */
  lemma RowDone(start: seq<nat>, d: nat, b: seq<nat>, cur: seq<nat>, j: nat, k: nat, carry: nat)
    requires k + j == |b| == |start| == |cur|
    requires Value(cur[..j]) == Value(start[..j])
    requires Value(cur[j..]) + Times(carry, Range(k)) == Value(start[j..]) + Times(d, Value(b[..k]))
    ensures Mod(Value(cur), Range(|b|)) == Mod(Value(start) + Times(Times(d, Range(j)), Value(b)), Range(|b|))
  {
    hide Value, Range, Times, Mod;
    ValueSplit(cur, j);
    ValueSplit(start, j);
    ValueSplit(b, k);
    RangeSum(j, k);
    RowMod(Value(cur[..j]), Value(cur[j..]), Value(start[j..]), carry, d, Value(b[..k]), Value(b[k..]),
           Range(j), Range(k), Range(|b|));
  }

  lemma RowMod(c0: int, c1: int, s1: int, carry: int, d: int, low: int, high: int, rj: int, rk: int, m: nat)
    requires m > 0 && m == Times(rj, rk) && c1 + Times(carry, rk) == s1 + Times(d, low)
    ensures Mod(c0 + Times(rj, c1), m) == Mod(c0 + Times(rj, s1) + Times(Times(d, rj), low + Times(rk, high)), m)
  {
    hide Times, Mod;
    RowAlgebra(c1, s1, carry, d, low, high, rj, rk);
    ModShift(c0 + Times(rj, c1), carry + Times(d, high), m);
  }

  ghost predicate AllZero(s: seq<nat>) {
    forall i | 0 <= i < |s| :: s[i] == 0
  }

  /**
   One row of the long multiplication, in place. The second factor is the target itself only when that has been cleared.
   */
  method MulRow(p: array<nat>, d: nat, b: array<nat>, j: nat)
    requires p.Length == b.Length && j <= p.Length && d < BASE && IsLimbs(p[..]) && IsLimbs(b[..])
    requires p == b ==> AllZero(p[..])
    modifies p
    ensures IsLimbs(p[..]) && b[..] == old(b[..])
    ensures Mod(Value(p[..]), Range(p.Length))
         == Mod(old(Value(p[..])) + Times(Times(d, Range(j)), old(Value(b[..]))), Range(p.Length))
  {
    hide Value, Range, Mod;
    Nothing();
    ghost var start: seq<nat>, y: seq<nat> := p[..], b[..];
    var carry: nat := 0;
    var i := 0;
    while i + j < p.Length
      invariant i + j <= p.Length && Row(start, d, y, p[..], j, i, carry)
      invariant b[..] == y && (p == b ==> carry == 0 && AllZero(p[..]))
    {
      ghost var cur: seq<nat> := p[..];
      RowStep(start, d, y, cur, j, i, carry);
      assert b[i] == y[i];
      var n: nat := carry + p[i + j] + d * b[i];
      p[i + j] := n % BASE;
      carry := n / BASE;
      assert p[..] == cur[i + j := n % BASE];
      i := i + 1;
    }
    RowEquation(start, d, y, p[..], j, i, carry);
    RowDone(start, d, y, p[..], j, i, carry);
  }

  /** After row `j` the product of the limbs so far has been formed. */
  lemma RowsStep(x: seq<nat>, v: nat, before: nat, after: nat, j: nat, m: nat)
    requires j < |x| && m > 0
    requires Mod(before, m) == Mod(Times(Value(x[..j]), v), m)
    requires Mod(after, m) == Mod(before + Times(Times(x[j], Range(j)), v), m)
    ensures Mod(after, m) == Mod(Times(Value(x[..j + 1]), v), m)
  {
    hide Value, Range, Times, Mod;
    ValueSnoc(x, j);
    ModSame(before, Times(Value(x[..j]), v), Times(Times(x[j], Range(j)), v), m);
    TimesAdd(v, Value(x[..j]), Times(x[j], Range(j)));
  }

  /** The loop of `*this = 0`, which also clears the second factor when that is the same object. */
  method ClearAll(a: array<nat>)
    modifies a
    ensures AllZero(a[..]) && IsLimbs(a[..]) && Value(a[..]) == 0
  {
    for i := 0 to a.Length
      invariant forall k | 0 <= k < i :: a[k] == 0
    {
      a[i] := 0;
    }
    ValueZero(a[..]);
  }

  /**
   `a *= b` by long multiplication, dropping what does not fit. When `b` is `a` itself the first step clears it, and
   the result is zero.
   */
  method MulAssign(a: array<nat>, b: array<nat>)
    requires a.Length == b.Length && IsLimbs(a[..]) && IsLimbs(b[..])
    modifies a
    ensures IsLimbs(a[..])
    ensures a != b ==> Value(a[..]) == Mod(Times(old(Value(a[..])), Value(b[..])), Range(a.Length))
    ensures a == b ==> Value(a[..]) == 0
  {
    hide Value, Range, Times, Mod, AllZero;
    Nothing();
    ghost var x: seq<nat> := a[..];
    var c := Copy(a);
    ClearAll(a);
    ghost var y: seq<nat> := b[..];
    TimesUnit(Value(y));
    for j := 0 to a.Length
      invariant IsLimbs(a[..]) && c[..] == x && b[..] == y && (a == b ==> AllZero(a[..]))
      invariant Mod(Value(a[..]), Range(a.Length)) == Mod(Times(Value(x[..j]), Value(y)), Range(a.Length))
    {
      ghost var before := Value(a[..]);
      assert c[j] == x[j];
      MulRow(a, c[j], b, j);
      RowsStep(x, Value(y), before, Value(a[..]), j, Range(a.Length));
    }
    assert x[..a.Length] == x;
    ValueBound(a[..]);
    ModFits(Value(a[..]), Range(a.Length));
  }
}

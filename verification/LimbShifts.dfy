/** Shifts of limb arrays as multiplication and division by powers of two. */
module LimbShifts {
  import opened Numbers
  import opened Limbs

  const LIMB_BITS: nat := 32

  function Pow2(n: nat): (p: nat)
    ensures p > 0
  {
    Pow(2, n)
  }

  lemma BaseIsPow2()
    ensures Pow2(LIMB_BITS) == BASE
  {
    assert Pow(2, 8) == 256;
    PowAdd(2, 8, 8);
    PowAdd(2, 16, 16);
  }

  lemma Pow2Sum(m: nat, n: nat)
    ensures Pow2(m + n) == Times(Pow2(m), Pow2(n))
  {
    PowAdd(2, m, n);
  }

  lemma RangeIsPow2(k: nat)
    ensures Range(k) == Pow2(LIMB_BITS * k)
  {
    BaseIsPow2();
    PowMul(2, LIMB_BITS, k);
  }

  // ---------- Bitwise or ----------

  /** `|` on naturals, bit by bit. */
  function BitOr(x: nat, y: nat): nat
    decreases x + y
  {
    if x == 0 && y == 0 then 0
    else (if x % 2 == 1 || y % 2 == 1 then 1 else 0) + 2 * BitOr(x / 2, y / 2)
  }

  lemma {:induction false} OrNothing(y: nat)
    ensures BitOr(0, y) == y && BitOr(y, 0) == y
  {
    if y > 0 {
      OrNothing(y / 2);
    }
  }

  /** Numbers without a common bit are added by `|`. */
  lemma {:induction false} OrIsPlus(q: nat, y: nat, s: nat)
    requires y < Pow2(s)
    ensures BitOr(Times(q, Pow2(s)), y) == Times(q, Pow2(s)) + y == BitOr(y, Times(q, Pow2(s)))
    decreases s
  {
    var x := Times(q, Pow2(s));
    if s == 0 {
      OrNothing(x);
    } else {
      var h := Times(q, Pow2(s - 1));
      assert x == 2 * h by {
        MulAssoc(q, 2, Pow2(s - 1));
      }
      OrIsPlus(q, y / 2, s - 1);
      if x > 0 || y > 0 {
        assert x / 2 == h && x % 2 == 0;
      }
    }
  }

  // ---------- What one limb contributes ----------

  /** The part of a limb shifted left by `s` that stays, and the part that goes to the next limb. */
  function Stay(x: nat, s: nat): nat {
    Times(x, Pow2(s)) % BASE
  }

  function Spill(x: nat, s: nat): nat {
    Times(x, Pow2(s)) / BASE
  }

  lemma StaySpill(x: nat, s: nat)
    requires x < BASE && s < LIMB_BITS
    ensures Stay(x, s) + BASE * Spill(x, s) == Times(x, Pow2(s)) && Stay(x, s) < BASE
    ensures Spill(x, s) < Pow2(s)
    ensures s > 0 ==> Spill(x, s) == x / Pow2(LIMB_BITS - s)
    ensures s == 0 ==> Spill(x, s) == 0
  {
    var p := Pow2(s);
    assert Spill(x, s) < p by {
      MulMono(x, BASE - 1, p);
      MulDist(p, BASE, -1);
      DivMod(x * p, BASE);
      CancelLess(x * p / BASE, p, BASE);
    }
    if s > 0 {
      var q := Pow2(LIMB_BITS - s);
      BaseIsPow2();
      Pow2Sum(s, LIMB_BITS - s);
      CommonFactor(x, p, q);
    }
  }

  lemma CommonFactor(x: nat, p: nat, q: nat)
    requires p > 0 && q > 0
    ensures p * q > 0 && x * p / (p * q) == x / q
  {
    MulMono(1, p, q);
    DivMod(x, q);
    var d, r := x / q, x % q;
    assert x * p == d * (p * q) + r * p by {
      MulDist(p, d * q, r);
      MulAssoc(d, q, p);
    }
    assert r * p < p * q by {
      MulMono(r, q - 1, p);
      MulDist(p, q, -1);
    }
    DivModUnique(x * p, p * q, d, r * p);
  }

  /** The low bits of what stays are free for what is spilled into it. */
  lemma StayAligned(x: nat, s: nat)
    requires x < BASE && s < LIMB_BITS
    ensures Stay(x, s) == Times(x % Pow2(LIMB_BITS - s), Pow2(s))
  {
    var p, q := Pow2(s), Pow2(LIMB_BITS - s);
    BaseIsPow2();
    Pow2Sum(s, LIMB_BITS - s);
    DivMod(x, q);
    var d, r := x / q, x % q;
    assert x * p == d * (p * q) + r * p by {
      MulDist(p, d * q, r);
      MulAssoc(d, q, p);
    }
    assert r * p < p * q by {
      MulMono(r, q - 1, p);
      MulDist(p, q, -1);
    }
    DivModUnique(x * p, p * q, d, r * p);
  }

  /** A limb that holds the spill of its neighbour takes in what stays of its own. */
  lemma OrLimb(x: nat, s: nat, spill: nat)
    requires x < BASE && s < LIMB_BITS && spill < Pow2(s)
    ensures BitOr(spill, Stay(x, s)) == spill + Stay(x, s) < BASE
  {
    StayAligned(x, s);
    OrIsPlus(x % Pow2(LIMB_BITS - s), spill, s);
    var p, q := Pow2(s), Pow2(LIMB_BITS - s);
    BaseIsPow2();
    Pow2Sum(s, LIMB_BITS - s);
    MulMono(x % q, q - 1, p);
    MulDist(p, q, -1);
  }

  // ---------- Left shift ----------

  /** What limb `i` - 1 of `x` has spilled. */
  function Carry(x: seq<nat>, s: nat, i: nat): nat
    requires i <= |x|
  {
    if i == 0 then 0 else Spill(x[i - 1], s)
  }

  /** The lowest `i` limbs of `x` have been shifted into `cur`, by `k` limbs and `s` bits; the rest is zero. */
  ghost predicate ShiftedLeft(x: seq<nat>, k: nat, s: nat, cur: seq<nat>, i: nat) {
    && |cur| == |x| && i + k <= |x| && IsLimbs(cur)
    && (i + k < |x| ==> cur[i + k] == Carry(x, s, i))
    && (forall t | i + k < t < |x| :: cur[t] == 0)
    && Value(cur[..i + k]) + Times(Carry(x, s, i), Range(i + k)) == Times(Range(k), Times(Pow2(s), Value(x[..i])))
  }

  /** The limbs of `cur` after one turn of the loop. */
  function LeftTurn(x: seq<nat>, k: nat, s: nat, cur: seq<nat>, i: nat): seq<nat>
    requires i + k < |x| == |cur| && s < LIMB_BITS
  {
    var first := if i + k + 1 < |x| && s != 0
      then cur[i + k + 1 := BitOr(cur[i + k + 1], x[i] / Pow2(LIMB_BITS - s))] else cur;
    first[i + k := BitOr(first[i + k], Stay(x[i], s))]
  }

  lemma LeftTurnLimbs(x: seq<nat>, k: nat, s: nat, cur: seq<nat>, i: nat)
    requires ShiftedLeft(x, k, s, cur, i) && i + k < |x| && s < LIMB_BITS && IsLimbs(x)
    ensures var r := LeftTurn(x, k, s, cur, i);
      && |r| == |x| && r[..i + k] == cur[..i + k] && IsLimbs(r)
      && r[i + k] == Carry(x, s, i) + Stay(x[i], s)
      && (i + k + 1 < |x| ==> r[i + k + 1] == Spill(x[i], s))
      && (forall t | i + k + 1 < t < |x| :: r[t] == 0)
  {
    hide Value, Range, Times, BitOr, Pow2, Stay, Spill;
    StaySpill(x[i], s);
    OrNothing(x[i] / Pow2(LIMB_BITS - s));
    if i > 0 {
      StaySpill(x[i - 1], s);
    }
    OrLimb(x[i], s, Carry(x, s, i));
    SpillBound(x[i], s);
  }

  lemma SpillBound(x: nat, s: nat)
    requires x < BASE && s < LIMB_BITS
    ensures Spill(x, s) < BASE
  {
    StaySpill(x, s);
    BaseIsPow2();
    PowExp(2, s, LIMB_BITS);
  }

  lemma LeftStep(x: seq<nat>, k: nat, s: nat, cur: seq<nat>, i: nat)
    requires ShiftedLeft(x, k, s, cur, i) && i + k < |x| && s < LIMB_BITS && IsLimbs(x)
    ensures ShiftedLeft(x, k, s, LeftTurn(x, k, s, cur, i), i + 1)
  {
    LeftTurnLimbs(x, k, s, cur, i);
    LeftEquation(x, k, s, cur, LeftTurn(x, k, s, cur, i), i);
  }

  lemma LeftEquation(x: seq<nat>, k: nat, s: nat, cur: seq<nat>, r: seq<nat>, i: nat)
    requires |cur| == |r| == |x| && i + k < |x| && s < LIMB_BITS && x[i] < BASE
    requires r[..i + k] == cur[..i + k] && r[i + k] == Carry(x, s, i) + Stay(x[i], s)
    requires Value(cur[..i + k]) + Times(Carry(x, s, i), Range(i + k)) == Times(Range(k), Times(Pow2(s), Value(x[..i])))
    ensures Value(r[..i + k + 1]) + Times(Carry(x, s, i + 1), Range(i + 1 + k))
         == Times(Range(k), Times(Pow2(s), Value(x[..i + 1])))
  {
    hide Value, Range, Times, Pow2, Stay, Spill;
    ValueSnoc(r, i + k);
    ValueSnoc(x, i);
    StaySpill(x[i], s);
    TimesAdd(Range(i + k), Carry(x, s, i), Stay(x[i], s));
    LimbUp(Stay(x[i], s), Spill(x[i], s), Times(x[i], Pow2(s)), i + k);
    TimesAdd(Pow2(s), Value(x[..i]), Times(x[i], Range(i)));
    TimesAdd(Range(k), Times(Pow2(s), Value(x[..i])), Times(Pow2(s), Times(x[i], Range(i))));
    LimbPlace(x[i], Pow2(s), i, k);
  }

  lemma LimbUp(stay: nat, spill: nat, whole: int, n: nat)
    requires stay + BASE * spill == whole
    ensures Times(stay, Range(n)) + Times(spill, Range(n + 1)) == Times(whole, Range(n))
  {
    MulDist(Range(n), stay, BASE * spill);
    MulAssoc(spill, BASE, Range(n));
    RangeStep(n);
  }

  lemma LimbPlace(x: nat, p: nat, i: nat, k: nat)
    ensures Times(Range(k), Times(p, Times(x, Range(i)))) == Times(Times(x, p), Range(i + k))
  {
    hide Range, Times;
    RangeSum(k, i);
    Rotate(p, x, Range(i));
    Rotate(Range(k), x, Times(p, Range(i)));
    Rotate(Range(k), p, Range(i));
    TimesAssoc(x, p, Times(Range(k), Range(i)));
  }

  lemma LeftStart(x: seq<nat>, k: nat, s: nat, cur: seq<nat>)
    requires |cur| == |x| && k <= |x| && forall i | 0 <= i < |cur| :: cur[i] == 0
    ensures ShiftedLeft(x, k, s, cur, 0)
  {
    ValueZero(cur[..k]);
    assert x[..0] == [];
  }

  /** What was shifted out at the top is a multiple of the range. */
  lemma LeftDone(x: seq<nat>, k: nat, s: nat, cur: seq<nat>, m: nat)
    requires m + k == |x| && ShiftedLeft(x, k, s, cur, m)
    ensures IsLimbs(cur)
    ensures Value(cur) == Mod(Times(Value(x), Times(Range(k), Pow2(s))), Range(|x|))
  {
    hide Value, Range, Times, Mod, Pow2, Carry;
    var w, r := |x|, Range(|x|);
    assert cur[..w] == cur;
    ValueSplit(x, m);
    ValueBound(cur);
    RangeSum(k, m);
    LeftAlgebra(Value(x[..m]), Value(x[m..]), Range(k), Range(m), Pow2(s));
    ModIs(Times(Range(k), Times(Pow2(s), Value(x[..m]))), r, Carry(x, s, m), Value(cur));
    ModShift(Times(Range(k), Times(Pow2(s), Value(x[..m]))), Times(Pow2(s), Value(x[m..])), r);
  }

  lemma LeftAlgebra(low: int, high: int, rk: int, rm: int, p: int)
    ensures Times(low + Times(rm, high), Times(rk, p))
         == Times(rk, Times(p, low)) + Times(Times(p, high), Times(rk, rm))
  {
    hide Times;
    TimesAdd(Times(rk, p), low, Times(rm, high));
    TimesSwap(low, Times(rk, p));
    TimesAssoc(rk, p, low);
    TimesSwap(Times(rm, high), Times(rk, p));
    TimesAssoc(rk, p, Times(rm, high));
    Rotate(p, rm, high);
    TimesAssoc(rk, rm, Times(p, high));
    TimesSwap(Times(rk, rm), Times(p, high));
  }

  /** Shifting by the whole width or more leaves nothing. */
  lemma LeftAllGone(v: nat, k: nat, s: nat, w: nat)
    requires w <= k
    ensures Mod(Times(v, Times(Range(k), Pow2(s))), Range(w)) == 0
  {
    hide Times, Mod, Range, Pow2;
    RangeSum(w, k - w);
    TimesAssoc(Range(w), Range(k - w), Pow2(s));
    Rotate(v, Range(w), Times(Range(k - w), Pow2(s)));
    TimesSwap(Range(w), Times(v, Times(Range(k - w), Pow2(s))));
    ModIs(Times(v, Times(Range(k), Pow2(s))), Range(w), Times(v, Times(Range(k - w), Pow2(s))), 0);
  }

  lemma ShiftAmount(shift: nat)
    ensures Times(Range(shift / LIMB_BITS), Pow2(shift % LIMB_BITS)) == Pow2(shift)
  {
    RangeIsPow2(shift / LIMB_BITS);
    Pow2Sum(LIMB_BITS * (shift / LIMB_BITS), shift % LIMB_BITS);
    assert LIMB_BITS * (shift / LIMB_BITS) + shift % LIMB_BITS == shift;
  }

  /** One turn of the loop in `operator<<=`. */
  method LeftLimb(a: array<nat>, c: array<nat>, k: nat, s: nat, i: nat)
    requires a != c && a.Length == c.Length && i < c.Length && s < LIMB_BITS
    modifies a
    ensures a[..] == if i + k < a.Length then LeftTurn(c[..], k, s, old(a[..]), i) else old(a[..])
  {
    hide Pow2, BitOr, Stay;
    if i + k + 1 < a.Length && s != 0 {
      a[i + k + 1] := BitOr(a[i + k + 1], c[i] / Pow2(LIMB_BITS - s));
    }
    if i + k < a.Length {
      a[i + k] := BitOr(a[i + k], Stay(c[i], s));
    }
  }

  /** `a <<= shift`. */
  method ShiftLeft(a: array<nat>, shift: nat)
    requires IsLimbs(a[..])
    modifies a
    ensures IsLimbs(a[..])
    ensures Value(a[..]) == Mod(Times(old(Value(a[..])), Pow2(shift)), Range(a.Length))
  {
    hide Value, Range, Times, Mod, Pow2, ShiftedLeft, LeftTurn;
    ghost var x: seq<nat> := a[..];
    var c := Copy(a);
    ClearAll(a);
    ghost var zero: seq<nat> := a[..];
    var k, s := shift / LIMB_BITS, shift % LIMB_BITS;
    ShiftAmount(shift);
    ValueZero(a[..]);
    if k > a.Length {
      LeftAllGone(Value(x), k, s, a.Length);
    } else {
      LeftStart(x, k, s, a[..]);
    }
    for i := 0 to a.Length
      invariant c[..] == x && (k > a.Length ==> a[..] == zero)
      invariant k <= a.Length ==> ShiftedLeft(x, k, s, a[..], if i + k <= a.Length then i else a.Length - k)
    {
      if i + k < a.Length {
        LeftStep(x, k, s, a[..], i);
      }
      LeftLimb(a, c, k, s, i);
    }
    if k <= a.Length {
      LeftDone(x, k, s, a[..], a.Length - k);
    }
  }

  // ---------- Right shift ----------

  /** Limbs `k` to `k` + `n` of `x` have been shifted right by `s` bits into the lowest `n` of `cur`. */
  ghost predicate ShiftedRight(x: seq<nat>, k: nat, s: nat, cur: seq<nat>, n: nat, rest: nat) {
    && |cur| == |x| && k + n <= |x| && IsLimbs(cur) && rest < Pow2(s)
    && (n > 0 ==> cur[n - 1] == Div(x[k + n - 1], Pow2(s)))
    && (forall t | n <= t < |x| :: cur[t] == 0)
    && Value(x[k..k + n]) == Times(Pow2(s), Value(cur[..n])) + rest
  }

  /** The limbs of `cur` after the turn of the loop that visits limb `k` + `n` of `x`. */
  function RightTurn(x: seq<nat>, k: nat, s: nat, cur: seq<nat>, n: nat): seq<nat>
    requires k + n < |x| == |cur| && s < LIMB_BITS
  {
    var first := if n > 0 && s != 0
      then cur[n - 1 := BitOr(cur[n - 1], Stay(x[k + n], LIMB_BITS - s))] else cur;
    first[n := BitOr(first[n], Div(x[k + n], Pow2(s)))]
  }

  /** A limb splits into its high part, which stays in place, and its low part, which goes down one limb. */
  lemma DownSplit(x: nat, s: nat)
    requires x < BASE && 0 < s < LIMB_BITS
    ensures var q := Pow2(LIMB_BITS - s);
      && Times(x, q) == Stay(x, LIMB_BITS - s) + BASE * Div(x, Pow2(s))
      && Div(x, Pow2(s)) < q && BASE == Times(Pow2(s), q)
  {
    BaseIsPow2();
    Pow2Sum(s, LIMB_BITS - s);
    StaySpill(x, LIMB_BITS - s);
  }

  lemma RightTurnLimbs(x: seq<nat>, k: nat, s: nat, cur: seq<nat>, n: nat, rest: nat)
    requires ShiftedRight(x, k, s, cur, n, rest) && k + n < |x| && s < LIMB_BITS && IsLimbs(x)
    ensures var r := RightTurn(x, k, s, cur, n);
      && |r| == |x| && IsLimbs(r) && r[n] == Div(x[k + n], Pow2(s))
      && (forall t | n < t < |x| :: r[t] == 0)
      && (n > 0 ==> r[..n - 1] == cur[..n - 1])
      && (n > 0 ==> r[n - 1] == cur[n - 1] + (if s == 0 then 0 else Stay(x[k + n], LIMB_BITS - s)))
  {
    hide Value, Range, Times, BitOr, Pow2, Stay, Spill, Div;
    OrNothing(Div(x[k + n], Pow2(s)));
    QuotientFits(x[k + n], s);
    if n > 0 && s != 0 {
      DownSplit(x[k + n - 1], s);
      OrLimb(x[k + n], LIMB_BITS - s, cur[n - 1]);
    }
  }

  lemma QuotientFits(x: nat, s: nat)
    requires x < BASE
    ensures Div(x, Pow2(s)) < BASE
  {
    DivDown(x, Pow2(s));
  }

  lemma DivDown(x: nat, d: nat)
    requires d > 0
    ensures 0 <= x / d <= x
  {
    DivMod(x, d);
    MulMono(1, d, x / d);
  }

  lemma RightFirst(x: seq<nat>, k: nat, s: nat, cur: seq<nat>)
    requires ShiftedRight(x, k, s, cur, 0, 0) && k < |x| && s < LIMB_BITS && IsLimbs(x)
    ensures ShiftedRight(x, k, s, RightTurn(x, k, s, cur, 0), 1, Mod(x[k], Pow2(s)))
  {
    var r := RightTurn(x, k, s, cur, 0);
    RightTurnLimbs(x, k, s, cur, 0, 0);
    hide RightTurn, Pow2, Times, BitOr, Stay;
    assert r[..1] == [r[0]] && x[k..k + 1] == [x[k]];
    DivMod(x[k], Pow2(s));
    TimesIs(Pow2(s), Div(x[k], Pow2(s)));
    Single(r[0]);
    Single(x[k]);
  }

  lemma Single(x: nat)
    ensures Value([x]) == x
  {
  }

  lemma RightNext(x: seq<nat>, k: nat, s: nat, cur: seq<nat>, n: nat, rest: nat)
    requires ShiftedRight(x, k, s, cur, n, rest) && n > 0 && k + n < |x| && s < LIMB_BITS && IsLimbs(x)
    ensures ShiftedRight(x, k, s, RightTurn(x, k, s, cur, n), n + 1, rest)
  {
    RightTurnLimbs(x, k, s, cur, n, rest);
    RightEquation(x, k, s, cur, RightTurn(x, k, s, cur, n), n, rest);
  }

  lemma RightEquation(x: seq<nat>, k: nat, s: nat, cur: seq<nat>, r: seq<nat>, n: nat, rest: nat)
    requires |cur| == |r| == |x| && 0 < n && k + n < |x| && s < LIMB_BITS && x[k + n] < BASE
    requires r[..n - 1] == cur[..n - 1] && r[n] == Div(x[k + n], Pow2(s))
    requires r[n - 1] == cur[n - 1] + (if s == 0 then 0 else Stay(x[k + n], LIMB_BITS - s))
    requires Value(x[k..k + n]) == Times(Pow2(s), Value(cur[..n])) + rest
    ensures Value(x[k..k + n + 1]) == Times(Pow2(s), Value(r[..n + 1])) + rest
  {
    hide Value, Range, Times, Pow2, Stay, Spill, Div;
    var y, added := x[k + n], r[n - 1] - cur[n - 1];
    SliceSnoc(x, k, n);
    ValueSnoc(cur, n - 1);
    ValueSnoc(r, n - 1);
    ValueSnoc(r, n);
    TimesAdd(Range(n - 1), cur[n - 1], added);
    DownPlace(y, s, n, added);
    TimesAdd(Pow2(s), Value(cur[..n]), Times(added, Range(n - 1)) + Times(Div(y, Pow2(s)), Range(n)));
  }

  /** Shifted right and multiplied back, the two parts of a limb make up the limb again. */
  lemma DownPlace(y: nat, s: nat, n: nat, added: nat)
    requires y < BASE && s < LIMB_BITS && n > 0
    requires added == if s == 0 then 0 else Stay(y, LIMB_BITS - s)
    ensures Times(Pow2(s), Times(added, Range(n - 1)) + Times(Div(y, Pow2(s)), Range(n))) == Times(y, Range(n))
  {
    if s == 0 {
      assert Pow2(0) == 1;
    } else {
      var p, q, r := Pow2(s), Pow2(LIMB_BITS - s), Range(n - 1);
      DownSplit(y, s);
      RangeStep(n - 1);
      DownAlgebra(y, p, q, added, Div(y, p), r);
    }
  }

  lemma DownAlgebra(y: nat, p: nat, q: nat, stay: nat, high: nat, r: nat)
    requires Times(y, q) == stay + BASE * high && BASE == Times(p, q)
    ensures Times(p, Times(stay, r) + Times(high, BASE * r)) == Times(y, BASE * r)
  {
    calc {
      p * (stay * r + high * (BASE * r));
      { MulAssoc(high, BASE, r); MulDist(r, stay, high * BASE); }
      p * ((y * q) * r);
      { MulAssoc(y, q, r); MulAssoc(p, y, q * r); MulAssoc(y, p, q * r); MulAssoc(p, q, r); }
      y * (p * q * r);
    }
  }

  lemma RightStart(x: seq<nat>, k: nat, s: nat, cur: seq<nat>)
    requires |cur| == |x| && k <= |x| && forall i | 0 <= i < |cur| :: cur[i] == 0
    ensures ShiftedRight(x, k, s, cur, 0, 0)
  {
    assert x[k..k + 0] == [] && cur[..0] == [];
  }

  /** What was shifted out at the bottom is less than the divisor. */
  lemma RightDone(x: seq<nat>, k: nat, s: nat, cur: seq<nat>, n: nat, rest: nat)
    requires k + n == |x| && ShiftedRight(x, k, s, cur, n, rest) && IsLimbs(x)
    ensures IsLimbs(cur)
    ensures Times(Range(k), Pow2(s)) > 0 && Value(cur) == Div(Value(x), Times(Range(k), Pow2(s)))
  {
    hide Value, Range, Pow2;
    assert x[k..k + n] == x[k..];
    ValueSplit(x, k);
    ValueSplit(cur, n);
    ValueZero(cur[n..]);
    ValueBound(x[..k]);
    RightQuotient(Value(x), Value(x[..k]), Value(x[k..]), Value(cur), rest, Range(k), Pow2(s));
  }

  lemma RightQuotient(v: nat, low: nat, high: nat, c: nat, rest: nat, rk: nat, p: nat)
    requires v == low + Times(rk, high) && low < rk && high == Times(p, c) + rest && rest < p
    ensures Times(rk, p) > 0 && c == Div(v, Times(rk, p))
  {
    MulMono(1, p, rk);
    MulDist(rk, p * c, rest);
    MulAssoc(rk, p, c);
    MulMono(rest, p - 1, rk);
    MulDist(rk, p, -1);
    DivModUnique(v, rk * p, c, low + rk * rest);
  }

  lemma RightAllGone(v: nat, k: nat, s: nat, w: nat)
    requires w <= k && v < Range(w)
    ensures Times(Range(k), Pow2(s)) > 0 && Div(v, Times(Range(k), Pow2(s))) == 0
  {
    PowExp(BASE, w, k);
    MulMono(1, Pow2(s), Range(k));
    ModSmall(v, Range(k) * Pow2(s));
  }

  /** One turn of the loop in `operator>>=`. */
  method RightLimb(a: array<nat>, c: array<nat>, k: nat, s: nat, i: nat)
    requires a != c && a.Length == c.Length && i < c.Length && s < LIMB_BITS
    modifies a
    ensures a[..] == if i >= k then RightTurn(c[..], k, s, old(a[..]), i - k) else old(a[..])
  {
    hide Pow2, BitOr, Stay, Div;
    if i - k - 1 >= 0 && s != 0 {
      a[i - k - 1] := BitOr(a[i - k - 1], Stay(c[i], LIMB_BITS - s));
    }
    if i - k >= 0 {
      a[i - k] := BitOr(a[i - k], Div(c[i], Pow2(s)));
    }
  }

  /** `a >>= shift`. */
  method ShiftRight(a: array<nat>, shift: nat)
    requires IsLimbs(a[..])
    modifies a
    ensures IsLimbs(a[..])
    ensures Value(a[..]) == Div(old(Value(a[..])), Pow2(shift))
  {
    hide Value, Range, Times, Pow2, Div, Mod, ShiftedRight, RightTurn;
    ghost var x: seq<nat> := a[..];
    var c := Copy(a);
    ClearAll(a);
    ghost var zero: seq<nat> := a[..];
    var k, s := shift / LIMB_BITS, shift % LIMB_BITS;
    ShiftAmount(shift);
    ValueZero(a[..]);
    ValueBound(x);
    ghost var rest: nat := 0;
    if k > a.Length {
      RightAllGone(Value(x), k, s, a.Length);
    } else {
      RightStart(x, k, s, a[..]);
    }
    for i := 0 to a.Length
      invariant c[..] == x && (k > a.Length ==> a[..] == zero)
      invariant k <= a.Length ==> ShiftedRight(x, k, s, a[..], if i <= k then 0 else i - k, rest)
      invariant i <= k ==> rest == 0
    {
      if i == k {
        RightFirst(x, k, s, a[..]);
        rest := Mod(x[k], Pow2(s));
      } else if i > k {
        RightNext(x, k, s, a[..], i - k, rest);
      }
      RightLimb(a, c, k, s, i);
    }
    if k <= a.Length {
      RightDone(x, k, s, a[..], a.Length - k, rest);
    }
  }

  // ---------- Squares that vanish ----------

  lemma OddSquare(v: nat)
    requires v % 2 == 1
    ensures v * v % 2 == 1
  {
    var h := v / 2;
    assert v == 2 * h + 1;
    assert v * v == 2 * (2 * h * h + 2 * h) + 1;
  }

  lemma EvenSquare(u: nat)
    ensures 2 * u * (2 * u) == 4 * (u * u)
  {
  }

  /** A square is a multiple of 4^k exactly when the number is one of 2^k. */
  lemma {:induction false} SquareMultiple(v: nat, k: nat, q: nat) returns (r: nat)
    requires v * v == q * Pow(4, k)
    ensures v == r * Pow(2, k)
    decreases k
  {
    if k == 0 {
      r := v;
    } else {
      MulAssoc(q, 4, Pow(4, k - 1));
      MulAssoc(4, q, Pow(4, k - 1));
      assert v * v == 4 * (q * Pow(4, k - 1));
      if v % 2 == 1 {
        OddSquare(v);
      }
      var u := v / 2;
      assert v == 2 * u;
      EvenSquare(u);
      r := SquareMultiple(u, k - 1, q);
      MulAssoc(r, 2, Pow(2, k - 1));
      MulAssoc(2, r, Pow(2, k - 1));
    }
  }

  lemma TwoSquared()
    ensures Pow(2, 2) == 4
  {
  }

  lemma FourIsTwice(k: nat)
    ensures Pow(4, k) == Times(Pow2(k), Pow2(k)) == Pow2(2 * k)
  {
    hide Pow, Times;
    TwoSquared();
    PowMul(2, 2, k);
    Pow2Sum(k, k);
  }

  lemma MultipleIs(x: nat, m: nat)
    requires m > 0
    ensures x == x / m * m + Mod(x, m)
  {
    DivMod(x, m);
  }

  lemma MultipleMod(q: nat, m: nat)
    requires m > 0
    ensures Mod(q * m, m) == 0
  {
    ModIs(q * m, m, q, 0);
  }

  lemma SquareOfMultiple(r: nat, p: nat)
    ensures r * p * (r * p) == r * r * (p * p)
  {
    MulAssoc(r, p, r * p);
    MulAssoc(p, r, p);
    MulAssoc(r, r, p * p);
    assert p * (r * p) == r * (p * p);
  }

  /**
   `a *= a`, which gives zero, is right exactly when the lower half of the number is zero: only then does the square
   vanish modulo the range.
   */
  lemma SquareVanishes(v: nat, width: nat)
    ensures Mod(Times(v, v), Range(width)) == 0 <==> Mod(v, Pow2(LIMB_BITS / 2 * width)) == 0
  {
    var k := LIMB_BITS / 2 * width;
    var p, m := Pow2(k), Range(width);
    RangeIsPow2(width);
    FourIsTwice(k);
    assert LIMB_BITS * width == 2 * k;
    assert m == Pow(4, k) == p * p && p == Pow(2, k) && Times(v, v) == v * v;
    hide Range, Pow2, Pow, Times, Mod;
    if Mod(v * v, m) == 0 {
      MultipleIs(v * v, m);
      var r := SquareMultiple(v, k, v * v / m);
      MultipleMod(r, p);
    }
    if Mod(v, p) == 0 {
      MultipleIs(v, p);
      SquareOfMultiple(v / p, p);
      MultipleMod(v / p * (v / p), m);
    }
  }

  /** Multiplying 1 by itself in place gives 0. */
  lemma SquareOfOneLost(width: nat)
    requires width > 0
    ensures Mod(Times(1, 1), Range(width)) != 0
  {
    RangeStep(width - 1);
    ModFits(1, Range(width));
  }
}

/**
 Numbers written in a base, most significant digit first, and the change of base that Base58 performs: leading zeros
 are kept one for one, and the rest is rewritten as a number.
 */
module Radix {
  import opened Numbers

  predicate InBase(b: nat, ds: seq<nat>) {
    forall i | 0 <= i < |ds| :: ds[i] < b
  }

  /** The number that the digits write. */
  function Val(b: nat, ds: seq<nat>): nat {
    if ds == [] then 0 else Times(Val(b, ds[..|ds| - 1]), b) + ds[|ds| - 1]
  }

  /** The digits of a number, without leading zeros. */
  function Digits(b: nat, v: nat): seq<nat>
    requires b > 1
  {
    if v == 0 then []
    else
      Quotient(v, b);
      Digits(b, Div(v, b)) + [Mod(v, b)]
  }

  predicate NoLeadingZero(ds: seq<nat>) {
    ds != [] ==> ds[0] > 0
  }

  lemma ValSnoc(b: nat, ds: seq<nat>, d: nat)
    ensures Val(b, ds + [d]) == Times(Val(b, ds), b) + d
  {
    assert (ds + [d])[..|ds|] == ds;
  }

  lemma {:induction false} ValCons(b: nat, d: nat, ds: seq<nat>)
    ensures Val(b, [d] + ds) == Times(d, Pow(b, |ds|)) + Val(b, ds)
  {
    if ds == [] {
      assert [d] + ds == [] + [d];
      ValSnoc(b, [], d);
    } else {
      var n := |ds| - 1;
      var front, last := ds[..n], ds[n];
      assert ds == front + [last];
      assert [d] + ds == ([d] + front) + [last];
      ValSnoc(b, [d] + front, last);
      ValSnoc(b, front, last);
      ValCons(b, d, front);
      PowShift(b, d, n, Val(b, front));
    }
  }

  lemma PowShift(b: nat, d: nat, n: nat, v: nat)
    ensures Times(Times(d, Pow(b, n)) + v, b) == Times(d, Pow(b, n + 1)) + Times(v, b)
  {
    MulDist(b, d * Pow(b, n), v);
    MulAssoc(d, Pow(b, n), b);
  }

  lemma {:induction false} ValBound(b: nat, ds: seq<nat>)
    requires InBase(b, ds)
    ensures Val(b, ds) < Pow(b, |ds|)
  {
    if ds != [] {
      var n := |ds| - 1;
      ValBound(b, ds[..n]);
      MulMono(Val(b, ds[..n]) + 1, Pow(b, n), b);
      MulDist(b, Val(b, ds[..n]), 1);
    }
  }

  lemma DigitsStep(b: nat, v: nat)
    requires b > 1 && v > 0
    ensures Div(v, b) < v && Digits(b, v) == Digits(b, Div(v, b)) + [Mod(v, b)]
  {
    Quotient(v, b);
  }

  lemma {:induction false} ValDigits(b: nat, v: nat)
    requires b > 1
    ensures Val(b, Digits(b, v)) == v
  {
    if v > 0 {
      Quotient(v, b);
      DigitsStep(b, v);
      hide Div, Mod, Times, Val, Digits;
      ValDigits(b, Div(v, b));
      ValSnoc(b, Digits(b, Div(v, b)), Mod(v, b));
    }
  }

  /** The digits are in range, and the first of them is not zero. */
  lemma {:induction false} DigitsAre(b: nat, v: nat)
    requires b > 1
    ensures InBase(b, Digits(b, v)) && NoLeadingZero(Digits(b, v)) && (v > 0 ==> Digits(b, v) != [])
  {
    if v > 0 {
      Quotient(v, b);
      DigitsStep(b, v);
      hide Div, Mod, Times, Digits;
      DigitsAre(b, Div(v, b));
      if Div(v, b) == 0 {
        NoDigits(b);
      }
    }
  }

  lemma NoDigits(b: nat)
    requires b > 1
    ensures Digits(b, 0) == []
  {
  }

  lemma Quotient(v: nat, b: nat)
    requires b > 1 && v > 0
    ensures Div(v, b) < v && Times(Div(v, b), b) + Mod(v, b) == v
    ensures Div(v, b) == 0 ==> Mod(v, b) == v
  {
    DivMod(v, b);
    MulMono(2, b, v / b);
  }

  lemma QuotientOf(b: nat, q: nat, r: nat)
    requires r < b
    ensures Div(Times(q, b) + r, b) == q && Mod(Times(q, b) + r, b) == r
  {
    DivModUnique(q * b + r, b, q, r);
  }

  lemma {:induction false} DigitsVal(b: nat, ds: seq<nat>)
    requires b > 1 && InBase(b, ds) && NoLeadingZero(ds)
    ensures Digits(b, Val(b, ds)) == ds && (ds != [] ==> Val(b, ds) > 0)
  {
    if ds != [] {
      var n := |ds| - 1;
      var front, last := ds[..n], ds[n];
      assert ds == front + [last];
      DigitsVal(b, front);
      ValSnoc(b, front, last);
      hide Div, Mod, Val, Times;
      QuotientOf(b, Val(b, front), last);
      if front == [] {
        assert last == ds[0];
      } else {
        TimesMono(1, Val(b, front), b);
        TimesUnit(b);
      }
    }
  }

  // ---------- Leading zeros ----------

  function Zeros(n: nat): seq<nat> {
    seq(n, _ => 0)
  }

  function LeadingZeros(ds: seq<nat>): (n: nat)
    ensures n <= |ds|
  {
    if ds == [] || ds[0] != 0 then 0 else 1 + LeadingZeros(ds[1..])
  }

  lemma {:induction false} LeadingZerosAre(ds: seq<nat>)
    ensures var n := LeadingZeros(ds); ds[..n] == Zeros(n) && NoLeadingZero(ds[n..])
  {
    if ds != [] && ds[0] == 0 {
      var n := LeadingZeros(ds[1..]);
      LeadingZerosAre(ds[1..]);
      assert ds[1..][n..] == ds[n + 1..];
      forall i | 0 <= i < n + 1
        ensures ds[i] == 0
      {
        if i > 0 {
          assert ds[i] == ds[1..][..n][i - 1];
        }
      }
    }
  }

  lemma {:induction false} LeadingZerosOf(n: nat, ds: seq<nat>)
    requires NoLeadingZero(ds)
    ensures LeadingZeros(Zeros(n) + ds) == n
  {
    var all := Zeros(n) + ds;
    if n > 0 {
      LeadingZerosOf(n - 1, ds);
      assert all[1..] == Zeros(n - 1) + ds;
    } else {
      assert all == ds;
    }
  }

  lemma {:induction false} ValZeros(b: nat, n: nat, ds: seq<nat>)
    ensures Val(b, Zeros(n) + ds) == Val(b, ds)
  {
    if n == 0 {
      assert Zeros(0) + ds == ds;
    } else {
      var rest := Zeros(n - 1) + ds;
      assert Zeros(n) + ds == [0] + rest;
      ValCons(b, 0, rest);
      ValZeros(b, n - 1, ds);
      assert Times(0, Pow(b, |rest|)) == 0;
    }
  }

  // ---------- Change of base ----------

  function Convert(from: nat, to: nat, ds: seq<nat>): seq<nat>
    requires to > 1
  {
    Zeros(LeadingZeros(ds)) + Digits(to, Val(from, ds))
  }

  /** Changing the base and back gives the same digits. */
  lemma ConvertBack(from: nat, to: nat, ds: seq<nat>)
    requires from > 1 && to > 1 && InBase(from, ds)
    ensures Convert(to, from, Convert(from, to, ds)) == ds
    ensures InBase(to, Convert(from, to, ds))
  {
    hide Val, Digits, LeadingZeros;
    var n := LeadingZeros(ds);
    var rest := ds[n..];
    LeadingZerosAre(ds);
    assert ds == Zeros(n) + rest;
    assert InBase(from, rest);
    ValZeros(from, n, rest);
    var v := Val(from, rest);
    DigitsVal(from, rest);
    ValDigits(to, v);
    DigitsAre(to, v);
    var other := Digits(to, v);
    LeadingZerosOf(n, other);
    ValZeros(to, n, other);
  }
}

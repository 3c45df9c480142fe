/**
 The serialized form of coins: version, a header code, a bit mask of the available outputs beyond the second, the
 available outputs and the height.
 */
module CoinsCodec {
  import opened Options
  import opened Coins
  import opened Numbers
  import opened VarInts
  import opened Compressor

  // ---------- Bits of a mask byte ----------

  /** Flags as a number, the first flag in the lowest bit. */
  function Bits(flags: seq<bool>): nat {
    if flags == [] then 0 else (if flags[0] then 1 else 0) + 2 * Bits(flags[1..])
  }

  predicate BitAt(byte: nat, p: nat)
    decreases p
  {
    if p == 0 then byte % 2 == 1 else BitAt(byte / 2, p - 1)
  }

  lemma {:induction false} BitsSnoc(flags: seq<bool>, f: bool)
    ensures Bits(flags + [f]) == Bits(flags) + if f then Pow(2, |flags|) else 0
  {
    if flags == [] {
      assert [] + [f] == [f] && [f][1..] == [];
    } else {
      assert (flags + [f])[1..] == flags[1..] + [f];
      BitsSnoc(flags[1..], f);
    }
  }

  lemma {:induction false} BitOfBits(flags: seq<bool>, p: nat)
    ensures BitAt(Bits(flags), p) <==> p < |flags| && flags[p]
    decreases p
  {
    if flags == [] {
      if p > 0 {
        BitOfBits([], p - 1);
      }
    } else if p > 0 {
      BitOfBits(flags[1..], p - 1);
    }
  }

  /** A byte is zero exactly when no flag is set. */
  lemma {:induction false} BitsZero(flags: seq<bool>)
    ensures Bits(flags) == 0 <==> forall i | 0 <= i < |flags| :: !flags[i]
  {
    if flags != [] {
      BitsZero(flags[1..]);
      if !flags[0] && Bits(flags[1..]) == 0 {
        forall i | 0 <= i < |flags|
          ensures !flags[i]
        {
          if i > 0 {
            assert !flags[1..][i - 1];
          }
        }
      } else if flags[0] {
      } else {
        var i :| 0 <= i < |flags[1..]| && flags[1..][i];
        assert flags[i + 1];
      }
    }
  }

  // ---------- The mask ----------

  /** The eight flags of a mask byte; fewer at the end of the outputs. */
  function Window(vout: seq<TxOut>, b: nat): (w: seq<bool>)
    ensures |w| <= 8
  {
    var from := 2 + 8 * b;
    var n := if |vout| <= from then 0 else if |vout| - from < 8 then |vout| - from else 8;
    seq(n, i requires 0 <= i < n => !vout[from + i].IsNull())
  }

  function MaskByte(vout: seq<TxOut>, b: nat): nat {
    Bits(Window(vout, b))
  }

  /** The number of mask bytes with a flag among the first n, and the number of bytes up to the last such. */
  function NonZero(vout: seq<TxOut>, n: nat): nat {
    if n == 0 then 0 else NonZero(vout, n - 1) + if MaskByte(vout, n - 1) != 0 then 1 else 0
  }

  function LastUsed(vout: seq<TxOut>, n: nat): (m: nat)
    ensures m <= n
  {
    if n == 0 then 0 else if MaskByte(vout, n - 1) != 0 then n else LastUsed(vout, n - 1)
  }

  /** The number of windows that reach into the outputs. */
  function Windows(vout: seq<TxOut>): nat {
    if |vout| <= 2 then 0 else (|vout| - 2 + 7) / 8
  }

  function MaskSize(vout: seq<TxOut>): nat {
    LastUsed(vout, Windows(vout))
  }

  function MaskCode(vout: seq<TxOut>): nat {
    NonZero(vout, Windows(vout))
  }

  lemma {:induction false} UnusedAbove(vout: seq<TxOut>, n: nat, b: nat)
    requires LastUsed(vout, n) <= b < n
    ensures MaskByte(vout, b) == 0
  {
    if b < n - 1 {
      UnusedAbove(vout, n - 1, b);
    }
  }

  lemma {:induction false} CodeOfUsed(vout: seq<TxOut>, n: nat)
    ensures NonZero(vout, n) == NonZero(vout, LastUsed(vout, n))
    ensures LastUsed(vout, n) > 0 ==> MaskByte(vout, LastUsed(vout, n) - 1) != 0
  {
    if n > 0 && MaskByte(vout, n - 1) == 0 {
      CodeOfUsed(vout, n - 1);
    }
  }

  lemma UsedStep(vout: seq<TxOut>, b: nat)
    ensures LastUsed(vout, b + 1) == if MaskByte(vout, b) != 0 then b + 1 else LastUsed(vout, b)
    ensures NonZero(vout, b + 1) == NonZero(vout, b) + if MaskByte(vout, b) != 0 then 1 else 0
  {
    hide MaskByte;
  }

  /** The inner loop: whether a mask byte has no flag. */
  method IsZeroByte(vout: seq<TxOut>, b: nat) returns (fZero: bool)
    ensures fZero <==> MaskByte(vout, b) == 0
  {
    fZero := true;
    var i := 0;
    ghost var w := Window(vout, b);
    while i < 8 && 2 + b * 8 + i < |vout|
      invariant 0 <= i <= |w|
      invariant fZero <==> forall k | 0 <= k < i :: !w[k]
    {
      assert w[i] <==> !vout[2 + b * 8 + i].IsNull();
      if !vout[2 + b * 8 + i].IsNull() {
        fZero := false;
      }
      i := i + 1;
    }
    BitsZero(w);
  }

  lemma WindowInside(vout: seq<TxOut>, b: nat)
    ensures b < Windows(vout) <==> 2 + b * 8 < |vout|
  {
  }

  method CalcMaskSize(vout: seq<TxOut>) returns (nBytes: nat, nNonzeroBytes: nat)
    ensures nBytes == MaskSize(vout) && nNonzeroBytes == MaskCode(vout)
  {
    nBytes, nNonzeroBytes := 0, 0;
    assert LastUsed(vout, 0) == 0 && NonZero(vout, 0) == 0;
    hide MaskByte, LastUsed, NonZero, Windows;
    var b: nat := 0;
    WindowInside(vout, 0);
    while 2 + b * 8 < |vout|
      invariant b <= Windows(vout) && (b < Windows(vout) <==> 2 + b * 8 < |vout|)
      invariant nBytes == LastUsed(vout, b) && nNonzeroBytes == NonZero(vout, b)
    {
      WindowInside(vout, b + 1);
      var fZero := IsZeroByte(vout, b);
      UsedStep(vout, b);
      if !fZero {
        nBytes := b + 1;
        nNonzeroBytes := nNonzeroBytes + 1;
      }
      b := b + 1;
    }
  }

  // ---------- Writing ----------

  predicate Available(vout: seq<TxOut>, i: nat) {
    i < |vout| && !vout[i].IsNull()
  }

  /** Coins that are not pruned have a flag set somewhere: the assertion of `Serialize` holds. */
  lemma SomeFlag(c: Coins)
    requires !c.IsPruned()
    ensures c.IsAvailable(0) || c.IsAvailable(1) || MaskCode(c.vout) > 0
  {
    var i :| 0 <= i < |c.vout| && !c.vout[i].IsNull();
    if i >= 2 {
      var b := (i - 2) / 8;
      var w := Window(c.vout, b);
      assert w[i - 2 - 8 * b];
      BitsZero(w);
      CountsIt(c.vout, Windows(c.vout), b);
    }
  }

  lemma {:induction false} CountsIt(vout: seq<TxOut>, n: nat, b: nat)
    requires b < n && MaskByte(vout, b) != 0
    ensures NonZero(vout, n) > 0
  {
    if b < n - 1 {
      CountsIt(vout, n - 1, b);
    }
  }

  /** The header code. */
  function Code(c: Coins): nat
    requires !c.IsPruned()
  {
    SomeFlag(c);
    var few := c.IsAvailable(0) || c.IsAvailable(1);
    8 * (MaskCode(c.vout) - if few then 0 else 1)
    + (if c.coinBase then 1 else 0) + (if c.IsAvailable(0) then 2 else 0) + (if c.IsAvailable(1) then 4 else 0)
  }

  /** The mask bytes from m up to n. */
  function Mask(vout: seq<TxOut>, m: nat, n: nat): Bytes
    decreases n - m
  {
    if m >= n then [] else [MaskByte(vout, m)] + Mask(vout, m + 1, n)
  }

  function Outs(curve: Curve, vout: seq<TxOut>): Bytes {
    if vout == [] then [] else (if vout[0].IsNull() then [] else WrittenOut(curve, vout[0])) + Outs(curve, vout[1..])
  }

  function Serialized(curve: Curve, c: Coins): Bytes
    requires !c.IsPruned()
  {
    SignedVarInt(c.version) + (VarInt(Code(c)) + (Mask(c.vout, 0, MaskSize(c.vout)) +
    (Outs(curve, c.vout) + SignedVarInt(c.height))))
  }

  // ---------- Reading ----------

  function Flags(byte: nat): (f: seq<bool>)
    ensures |f| == 8
  {
    seq(8, p requires 0 <= p < 8 => BitAt(byte, p))
  }

  /** Mask bytes up to and including the k-th that is not zero. */
  function ReadMask(k: nat, s: Bytes): Option<Read<seq<bool>>>
    decreases |s|
  {
    if k == 0 then Some(Read([], s))
    else if s == [] then None
    else
      var r := ReadMask(if s[0] != 0 then k - 1 else k, s[1..]);
      if r.None? then None else Some(Read(Flags(s[0]) + r.value.value, r.value.rest))
  }

  function ReadOuts(curve: Curve, avail: seq<bool>, s: Bytes): Option<Read<seq<TxOut>>> {
    if avail == [] then Some(Read([], s))
    else if !avail[0] then Prefix(SPENT, ReadOuts(curve, avail[1..], s))
    else
      var o := ReadOut(curve, s);
      if o.None? then None else Prefix(o.value.value, ReadOuts(curve, avail[1..], o.value.rest))
  }

  function Prefix(o: TxOut, r: Option<Read<seq<TxOut>>>): Option<Read<seq<TxOut>>> {
    if r.None? then None else Some(Read([o] + r.value.value, r.value.rest))
  }

  function CodeMask(code: nat): nat {
    code / 8 + if code / 2 % 4 != 0 then 0 else 1
  }

  /** The flags of the first two outputs. */
  function CodeFlags(code: nat): seq<bool> {
    [code / 2 % 2 == 1, code / 4 % 2 == 1]
  }

  /** `Unserialize` into a fresh object. */
  function Unserialized(curve: Curve, s: Bytes): Option<Read<Coins>> {
    var v := ReadFrom(0, s);
    if v.None? then None else
    var h := ReadFrom(0, v.value.rest);
    if h.None? then None else
    var code := h.value.value;
    var mask := ReadMask(CodeMask(code), h.value.rest);
    if mask.None? then None else
    var outs := ReadOuts(curve, CodeFlags(code) + mask.value.value, mask.value.rest);
    if outs.None? then None else
    var height := ReadFrom(0, outs.value.rest);
    if height.None? then None else
    Some(Read(Coins(code % 2 == 1, false, TrimOutputs(outs.value.value), height.value.value, v.value.value),
              height.value.rest))
  }

  // ---------- The mask is read back ----------

  function Count(m: Bytes): nat {
    if m == [] then 0 else (if m[0] != 0 then 1 else 0) + Count(m[1..])
  }

  function FlagsOf(m: Bytes): seq<bool> {
    if m == [] then [] else Flags(m[0]) + FlagsOf(m[1..])
  }

  predicate EndsUsed(m: Bytes) {
    m != [] ==> m[|m| - 1] != 0
  }

  lemma {:induction false} CountPositive(m: Bytes)
    requires m != [] && EndsUsed(m)
    ensures Count(m) > 0
  {
    if |m| > 1 {
      CountPositive(m[1..]);
    }
  }

  lemma ReadMaskStep(k: nat, byte: nat, s: Bytes)
    requires k > 0
    ensures ReadMask(k, [byte] + s) ==
      var r := ReadMask(if byte != 0 then k - 1 else k, s);
      if r.None? then None else Some(Read(Flags(byte) + r.value.value, r.value.rest))
  {
    assert ([byte] + s)[1..] == s;
  }

  /** The loop over the mask consumes exactly the bytes written, since the last of them is not zero. */
  lemma {:induction false} ReadMaskBack(m: Bytes, s: Bytes)
    requires EndsUsed(m)
    ensures ReadMask(Count(m), m + s) == Some(Read(FlagsOf(m), s))
  {
    if m == [] {
      assert m + s == s;
    } else {
      CountPositive(m);
      ReadMaskBack(m[1..], s);
      hide ReadMask, Flags;
      assert m + s == [m[0]] + (m[1..] + s);
      ReadMaskStep(Count(m), m[0], m[1..] + s);
    }
  }

  lemma MaskStep(vout: seq<TxOut>, m: nat, n: nat)
    requires m < n
    ensures Mask(vout, m, n) == [MaskByte(vout, m)] + Mask(vout, m + 1, n)
  {
    hide MaskByte;
  }

  lemma {:induction false} MaskCount(vout: seq<TxOut>, m: nat, n: nat)
    requires m <= n
    ensures Count(Mask(vout, m, n)) + NonZero(vout, m) == NonZero(vout, n)
    decreases n - m
  {
    if m == n {
      assert Mask(vout, m, n) == [];
    } else {
      UsedStep(vout, m);
      hide Mask, MaskByte, NonZero;
      MaskCount(vout, m + 1, n);
      MaskStep(vout, m, n);
      assert Mask(vout, m, n)[1..] == Mask(vout, m + 1, n);
    }
  }

  lemma {:induction false} MaskLength(vout: seq<TxOut>, m: nat, n: nat)
    requires m <= n
    ensures |Mask(vout, m, n)| == n - m
    decreases n - m
  {
    if m == n {
      assert Mask(vout, m, n) == [];
    } else {
      hide Mask, MaskByte;
      MaskStep(vout, m, n);
      MaskLength(vout, m + 1, n);
    }
  }

  lemma {:induction false} MaskLast(vout: seq<TxOut>, m: nat, n: nat)
    requires m < n && |Mask(vout, m, n)| == n - m
    ensures Mask(vout, m, n)[n - m - 1] == MaskByte(vout, n - 1)
    decreases n - m
  {
    hide Mask, MaskByte;
    MaskStep(vout, m, n);
    if m + 1 < n {
      MaskLength(vout, m + 1, n);
      MaskLast(vout, m + 1, n);
    }
  }

  lemma {:induction false} MaskFlagsOf(vout: seq<TxOut>, m: nat, n: nat)
    requires m <= n
    ensures FlagsOf(Mask(vout, m, n)) == MaskFlags(vout, m, n)
    decreases n - m
  {
    if m < n {
      hide MaskByte, Flags;
      MaskFlagsOf(vout, m + 1, n);
      assert Mask(vout, m, n)[1..] == Mask(vout, m + 1, n);
    }
  }

  /** The flags of the mask bytes from m up to n. */
  function MaskFlags(vout: seq<TxOut>, m: nat, n: nat): seq<bool>
    decreases n - m
  {
    if m >= n then [] else Flags(MaskByte(vout, m)) + MaskFlags(vout, m + 1, n)
  }

  lemma ReadWholeMask(vout: seq<TxOut>, s: Bytes)
    ensures ReadMask(MaskCode(vout), Mask(vout, 0, MaskSize(vout)) + s) ==
      Some(Read(MaskFlags(vout, 0, MaskSize(vout)), s))
  {
    var n := Windows(vout);
    CodeOfUsed(vout, n);
    hide MaskByte, LastUsed, ReadMask, Mask, MaskFlags, Flags;
    var k := LastUsed(vout, n);
    MaskCount(vout, 0, k);
    MaskLength(vout, 0, k);
    if k > 0 {
      MaskLast(vout, 0, k);
    }
    MaskFlagsOf(vout, 0, k);
    ReadMaskBack(Mask(vout, 0, k), s);
  }

  lemma FlagsStep(vout: seq<TxOut>, m: nat, n: nat)
    requires m < n
    ensures MaskFlags(vout, m, n) == Flags(MaskByte(vout, m)) + MaskFlags(vout, m + 1, n)
  {
    hide MaskByte, Flags;
  }

  /** The flags of one mask byte. */
  lemma ByteFlag(vout: seq<TxOut>, b: nat, i: nat)
    requires i < 8
    ensures Flags(MaskByte(vout, b))[i] == Available(vout, 2 + 8 * b + i)
  {
    BitOfBits(Window(vout, b), i);
  }

  lemma {:induction false} FlagsLength(vout: seq<TxOut>, m: nat, n: nat)
    requires m <= n
    ensures |MaskFlags(vout, m, n)| == 8 * (n - m)
    decreases n - m
  {
    if m == n {
      assert MaskFlags(vout, m, n) == [];
    } else {
      hide MaskFlags, MaskByte;
      FlagsStep(vout, m, n);
      FlagsLength(vout, m + 1, n);
    }
  }

  lemma {:induction false} MaskFlagAt(vout: seq<TxOut>, m: nat, n: nat, i: nat)
    requires m <= n && i < 8 * (n - m) == |MaskFlags(vout, m, n)|
    ensures MaskFlags(vout, m, n)[i] == Available(vout, 2 + 8 * m + i)
    decreases n - m
  {
    hide MaskFlags, MaskByte, Flags, Available;
    FlagsStep(vout, m, n);
    if i < 8 {
      ByteFlag(vout, m, i);
    } else {
      FlagsLength(vout, m + 1, n);
      MaskFlagAt(vout, m + 1, n, i - 8);
    }
  }

  /** Flags that tell of every output whether it is available. */
  predicate Describes(avail: seq<bool>, vout: seq<TxOut>) {
    && (forall i: nat | i < |avail| :: avail[i] == Available(vout, i))
    && (forall i: nat | |avail| <= i < |vout| :: vout[i].IsNull())
  }

  function AllFlags(c: Coins): seq<bool> {
    [c.IsAvailable(0), c.IsAvailable(1)] + MaskFlags(c.vout, 0, MaskSize(c.vout))
  }

  lemma AllFlagsDescribe(c: Coins)
    ensures Describes(AllFlags(c), c.vout)
  {
    var n := MaskSize(c.vout);
    FlagsLength(c.vout, 0, n);
    var avail := AllFlags(c);
    forall i: nat | i < |avail|
      ensures avail[i] == Available(c.vout, i)
    {
      if i >= 2 {
        MaskFlagAt(c.vout, 0, n, i - 2);
      }
    }
    forall i: nat | |avail| <= i < |c.vout|
      ensures c.vout[i].IsNull()
    {
      NoneAbove(c.vout, i);
    }
  }

  lemma NoneAbove(vout: seq<TxOut>, i: nat)
    requires 2 + 8 * MaskSize(vout) <= i
    ensures !Available(vout, i)
  {
    var b := (i - 2) / 8;
    if i < |vout| {
      var w := Window(vout, b);
      UnusedAbove(vout, Windows(vout), b);
      BitsZero(w);
      assert !w[i - 2 - 8 * b];
    }
  }

  // ---------- The outputs are read back ----------

  /** The outputs as they come back: the available ones, and plain spent ones in between. */
  function Restored(avail: seq<bool>, vout: seq<TxOut>): seq<TxOut>
    requires Describes(avail, vout)
  {
    seq(|avail|, i requires 0 <= i < |avail| => if avail[i] then ReturnedOut(vout[i]) else SPENT)
  }

  lemma {:induction false} NoOuts(curve: Curve, vout: seq<TxOut>)
    requires forall i: nat | i < |vout| :: vout[i].IsNull()
    ensures Outs(curve, vout) == []
  {
    if vout != [] {
      NoOuts(curve, vout[1..]);
    }
  }

  lemma DescribesTail(avail: seq<bool>, vout: seq<TxOut>)
    requires avail != [] && Describes(avail, vout)
    ensures var rest := if vout == [] then [] else vout[1..];
      && Describes(avail[1..], rest)
      && Restored(avail, vout) == [if avail[0] then ReturnedOut(vout[0]) else SPENT] + Restored(avail[1..], rest)
  {
    var rest := if vout == [] then [] else vout[1..];
    forall i: nat
      ensures Available(rest, i) <==> Available(vout, i + 1)
    {
    }
    forall i: nat | |avail| - 1 <= i < |rest|
      ensures rest[i].IsNull()
    {
      assert vout[i + 1].IsNull();
    }
  }

  /** The first output that is available is written and read. */
  lemma OutsFirst(curve: Curve, avail: seq<bool>, vout: seq<TxOut>, s: Bytes)
    requires Sound(curve) && avail != [] && avail[0] && vout != [] && !vout[0].IsNull()
    ensures ReadOuts(curve, avail, Outs(curve, vout) + s) ==
      Prefix(ReturnedOut(vout[0]), ReadOuts(curve, avail[1..], Outs(curve, vout[1..]) + s))
  {
    var rest := Outs(curve, vout[1..]) + s;
    assert Outs(curve, vout) + s == WrittenOut(curve, vout[0]) + rest;
    hide Sound, Outs, Prefix, WrittenOut, ReadOut, ReturnedOut;
    ReadOutBack(curve, vout[0], rest);
  }

  /** One that is not is skipped on both sides. */
  lemma OutsSkipped(curve: Curve, avail: seq<bool>, vout: seq<TxOut>, s: Bytes)
    requires avail != [] && !avail[0] && !Available(vout, 0)
    ensures ReadOuts(curve, avail, Outs(curve, vout) + s) ==
      Prefix(SPENT, ReadOuts(curve, avail[1..], Outs(curve, if vout == [] then [] else vout[1..]) + s))
  {
    hide Prefix, WrittenOut, ReadOut;
    var rest := if vout == [] then [] else vout[1..];
    assert Outs(curve, vout) == Outs(curve, rest);
  }

  lemma {:induction false} ReadOutsBack(curve: Curve, avail: seq<bool>, vout: seq<TxOut>, s: Bytes)
    requires Sound(curve) && Describes(avail, vout)
    ensures ReadOuts(curve, avail, Outs(curve, vout) + s) == Some(Read(Restored(avail, vout), s))
  {
    if avail == [] {
      NoOuts(curve, vout);
      assert [] + s == s;
      assert Restored(avail, vout) == [];
    } else {
      var rest := if vout == [] then [] else vout[1..];
      DescribesTail(avail, vout);
      assert avail[0] == Available(vout, 0);
      hide Sound, Outs, ReadOuts, WrittenOut, ReadOut, ReturnedOut, Restored, Describes;
      ReadOutsBack(curve, avail[1..], rest, s);
      if avail[0] {
        OutsFirst(curve, avail, vout, s);
      } else {
        OutsSkipped(curve, avail, vout, s);
      }
    }
  }

  // ---------- The round trip ----------

  /** The header code is taken apart again. */
  lemma CodeBack(c: Coins)
    requires !c.IsPruned()
    ensures CodeMask(Code(c)) == MaskCode(c.vout) && CodeFlags(Code(c)) == [c.IsAvailable(0), c.IsAvailable(1)]
    ensures Code(c) % 2 == 1 <==> c.coinBase
  {
    SomeFlag(c);
    var first, second := c.IsAvailable(0), c.IsAvailable(1);
    hide MaskCode, CodeMask, CodeFlags;
    CodeParts(MaskCode(c.vout) - if first || second then 0 else 1, c.coinBase, first, second);
  }

  lemma CodeParts(k: nat, base: bool, first: bool, second: bool)
    ensures var code := 8 * k + (if base then 1 else 0) + (if first then 2 else 0) + (if second then 4 else 0);
      && CodeMask(code) == k + (if first || second then 0 else 1)
      && CodeFlags(code) == [first, second] && (code % 2 == 1 <==> base)
  {
    var b, f, s := if base then 1 else 0, if first then 1 else 0, if second then 1 else 0;
    var code := 8 * k + b + 2 * f + 4 * s;
    assert code / 2 == 4 * k + f + 2 * s;
    assert code / 4 == 2 * k + s;
    assert code / 8 == k;
  }

  /** What a signed number comes back as. */
  function Unsigned(n: int): nat {
    if n < 0 then n % 0x80 else n
  }

  lemma ReadUnsigned(n: int, s: Bytes)
    ensures ReadFrom(0, SignedVarInt(n) + s) == Some(Read(Unsigned(n), s))
  {
    if n >= 0 {
      ReadVarIntBack(n, s);
    } else {
      assert ([n % 0x80] + s)[1..] == s;
    }
  }

  /** The coins that reading gives back. */
  function Returned(c: Coins): Coins {
    AllFlagsDescribe(c);
    Coins(c.coinBase, false, TrimOutputs(Restored(AllFlags(c), c.vout)), Unsigned(c.height), Unsigned(c.version))
  }

  /** Reading consumes exactly what was written. */
  lemma UnserializeSerialized(curve: Curve, c: Coins, s: Bytes)
    requires Sound(curve) && !c.IsPruned()
    ensures Unserialized(curve, Serialized(curve, c) + s) == Some(Read(Returned(c), s))
  {
    AllFlagsDescribe(c);
    CodeBack(c);
    hide Sound, ReadFrom, ReadMask, ReadOuts, Mask, MaskFlags, Outs, Code, CodeMask, CodeFlags, SignedVarInt, VarInt,
         Restored, TrimOutputs, MaskSize, MaskCode, Describes;
    var version, code, mask, outs, height := SignedVarInt(c.version), VarInt(Code(c)),
      Mask(c.vout, 0, MaskSize(c.vout)), Outs(curve, c.vout), SignedVarInt(c.height);
    assert Serialized(curve, c) + s == version + (code + (mask + (outs + (height + s))));
    ReadUnsigned(c.version, code + (mask + (outs + (height + s))));
    ReadVarIntBack(Code(c), mask + (outs + (height + s)));
    ReadWholeMask(c.vout, outs + (height + s));
    ReadOutsBack(curve, AllFlags(c), c.vout, height + s);
    ReadUnsigned(c.height, s);
  }

  /** Every spent output is as `SetNull` leaves it. */
  predicate PlainlySpent(vout: seq<TxOut>) {
    forall i | 0 <= i < |vout| && vout[i].IsNull() :: vout[i] == SPENT
  }

  lemma TrimmedAlike(a: seq<TxOut>, b: seq<TxOut>)
    requires forall i: nat :: Available(a, i) <==> Available(b, i)
    ensures |TrimOutputs(a)| == |TrimOutputs(b)|
  {
    hide TrimOutputs;
    var m, n := |TrimOutputs(a)|, |TrimOutputs(b)|;
    if m > 0 {
      assert Available(a, m - 1) && Available(b, m - 1);
    }
    if n > 0 {
      assert Available(b, n - 1) && Available(a, n - 1);
    }
  }

  /** What reading gives back at each position. */
  lemma RestoredAt(c: Coins, i: nat)
    ensures Describes(AllFlags(c), c.vout)
    ensures var vout := Restored(AllFlags(c), c.vout);
      && (Available(c.vout, i) ==> i < |vout| && vout[i] == ReturnedOut(c.vout[i]))
      && (i < |vout| && !Available(c.vout, i) ==> vout[i] == SPENT)
  {
    AllFlagsDescribe(c);
  }

  predicate AllSurvive(vout: seq<TxOut>) {
    forall i | 0 <= i < |vout| && !vout[i].IsNull() :: Survives(vout[i])
  }

  /** The amounts are 64-bit words. */
  predicate AmountsFit(vout: seq<TxOut>) {
    forall i | 0 <= i < |vout| :: IsAmount(vout[i].nValue)
  }

  lemma RestoredSame(c: Coins, vout: seq<TxOut>, i: nat)
    requires AmountsFit(c.vout) && AllSurvive(c.vout)
    requires Describes(AllFlags(c), c.vout) && vout == Restored(AllFlags(c), c.vout)
    ensures Available(vout, i) <==> Available(c.vout, i)
    ensures Available(vout, i) ==> vout[i] == c.vout[i]
    ensures i < |vout| && !Available(vout, i) ==> vout[i] == SPENT
  {
    hide AllFlags, Restored, Survives, ReturnedOut, Describes;
    RestoredAt(c, i);
    if i < |c.vout| {
      ReturnedExactly(c.vout[i]);
    }
  }

  lemma TrimmedSame(a: seq<TxOut>, b: seq<TxOut>, i: nat)
    requires |TrimOutputs(a)| == |TrimOutputs(b)| && i < |TrimOutputs(a)|
    requires Available(a, i) <==> Available(b, i)
    requires Available(a, i) ==> a[i] == b[i]
    requires !Available(a, i) ==> a[i] == SPENT
    requires PlainlySpent(TrimOutputs(b))
    ensures TrimOutputs(a)[i] == TrimOutputs(b)[i]
  {
  }

  lemma ReturnedOutputs(c: Coins)
    requires AmountsFit(c.vout) && AllSurvive(c.vout) && PlainlySpent(c.Trimmed().vout)
    ensures Returned(c).vout == c.Trimmed().vout
  {
    RestoredAt(c, 0);
    var vout := Restored(AllFlags(c), c.vout);
    hide AllFlags, Restored, Survives, ReturnedOut, Describes, TrimOutputs, AllSurvive, AmountsFit, PlainlySpent;
    forall i: nat
      ensures Available(vout, i) <==> Available(c.vout, i)
    {
      RestoredSame(c, vout, i);
    }
    TrimmedAlike(vout, c.vout);
    var r, t := TrimOutputs(vout), c.Trimmed().vout;
    forall i | 0 <= i < |r|
      ensures r[i] == t[i]
    {
      RestoredSame(c, vout, i);
      TrimmedSame(vout, c.vout, i);
    }
  }

  lemma ReturnedOnlyIf(c: Coins)
    requires AmountsFit(c.vout) && Returned(c).vout == c.Trimmed().vout
    ensures AllSurvive(c.vout) && PlainlySpent(c.Trimmed().vout)
  {
    RestoredAt(c, 0);
    var vout := Restored(AllFlags(c), c.vout);
    hide AllFlags, Restored, Survives, ReturnedOut, Describes;
    var r, t := TrimOutputs(vout), c.Trimmed().vout;
    forall i | 0 <= i < |c.vout| && !c.vout[i].IsNull()
      ensures Survives(c.vout[i])
    {
      TrimKeepsAvailable(c, i);
      assert r[i] == vout[i];
      RestoredAt(c, i);
      ReturnedExactly(c.vout[i]);
    }
    forall i | 0 <= i < |t| && t[i].IsNull()
      ensures t[i] == SPENT
    {
      assert r[i] == vout[i];
      RestoredAt(c, i);
    }
  }

  /**
   Serializing and reading back gives the cleaned-up coins, up to the comparison that ignores the coin stake mark,
   exactly when version and height are not negative, no spent output inside carries a script, and no available output
   has an overlong script or an amount whose compressed form wraps.
   */
  lemma RoundTripExactly(curve: Curve, c: Coins, s: Bytes)
    requires Sound(curve) && !c.IsPruned() && AmountsFit(c.vout)
    ensures Unserialized(curve, Serialized(curve, c) + s).Some?
    ensures var r := Unserialized(curve, Serialized(curve, c) + s).value;
      && r.rest == s
      && (r.value.Same(c.Trimmed()) <==>
          c.version >= 0 && c.height >= 0 && PlainlySpent(c.Trimmed().vout) && AllSurvive(c.vout))
  {
    UnserializeSerialized(curve, c, s);
    var r, t := Returned(c), c.Trimmed();
    hide Unserialized, Serialized, Sound, TrimOutputs, Restored, Survives;
    var i :| 0 <= i < |c.vout| && !c.vout[i].IsNull();
    TrimKeepsAvailable(c, i);
    assert !t.IsPruned();
    if PlainlySpent(t.vout) && AllSurvive(c.vout) {
      ReturnedOutputs(c);
    }
    if r.vout == t.vout {
      ReturnedOnlyIf(c);
    }
  }

  /** Coins of the largest amount of money do not come back. */
  lemma LargestCoinsLost(curve: Curve, s: Bytes)
    requires Sound(curve)
    ensures var c := Coins(false, false, [LARGEST], 0, 1);
      && !c.IsPruned() && PlainlySpent(c.Trimmed().vout)
      && Unserialized(curve, Serialized(curve, c) + s).Some?
      && !Unserialized(curve, Serialized(curve, c) + s).value.value.Same(c.Trimmed())
  {
    var c := Coins(false, false, [LARGEST], 0, 1);
    LargestLost();
    assert !c.vout[0].IsNull() && c.Trimmed() == c;
    hide Unserialized, Serialized, Sound, Survives;
    RoundTripExactly(curve, c, s);
  }

  // ---------- The methods ----------

  /** One mask byte, flag by flag. */
  method WriteMaskByte(vout: seq<TxOut>, b: nat) returns (chAvail: nat)
    ensures chAvail == MaskByte(vout, b)
  {
    chAvail := 0;
    ghost var w := Window(vout, b);
    var i := 0;
    while i < 8 && 2 + b * 8 + i < |vout|
      invariant 0 <= i <= |w| && chAvail == Bits(w[..i])
    {
      assert w[..i + 1] == w[..i] + [w[i]];
      BitsSnoc(w[..i], w[i]);
      if !vout[2 + b * 8 + i].IsNull() {
        chAvail := chAvail + Pow(2, i);
      }
      i := i + 1;
    }
    assert w[..i] == w;
  }

  method Serialize(curve: Curve, c: Coins) returns (out: Bytes)
    requires !c.IsPruned()
    ensures out == Serialized(curve, c)
  {
    SomeFlag(c);
    var nMaskSize, nMaskCode := CalcMaskSize(c.vout);
    var fFirst := |c.vout| > 0 && !c.vout[0].IsNull();
    var fSecond := |c.vout| > 1 && !c.vout[1].IsNull();
    assert fFirst || fSecond || nMaskCode > 0;
    var nCode := 8 * (nMaskCode - if fFirst || fSecond then 0 else 1)
      + (if c.coinBase then 1 else 0) + (if fFirst then 2 else 0) + (if fSecond then 4 else 0);
    assert nCode == Code(c);
    hide Code, MaskSize, MaskCode, MaskByte, VarInt, SignedVarInt;
    var version := WriteVarInt(c.version);
    var code := WriteVarInt(nCode);
    CodeIsPlain(nCode);
    var mask := WriteMask(c.vout, nMaskSize);
    var outs := WriteOuts(curve, c.vout);
    var height := WriteVarInt(c.height);
    hide Mask, Outs;
    out := version + (code + (mask + (outs + height)));
  }

  method WriteMask(vout: seq<TxOut>, nMaskSize: nat) returns (mask: Bytes)
    ensures mask == Mask(vout, 0, nMaskSize)
  {
    hide MaskByte;
    mask := [];
    for b := 0 to nMaskSize
      invariant Mask(vout, 0, nMaskSize) == mask + Mask(vout, b, nMaskSize)
    {
      var chAvail := WriteMaskByte(vout, b);
      mask := mask + [chAvail];
    }
  }

  method WriteOuts(curve: Curve, vout: seq<TxOut>) returns (outs: Bytes)
    ensures outs == Outs(curve, vout)
  {
    hide WrittenOut;
    outs := [];
    assert vout[0..] == vout;
    for i := 0 to |vout|
      invariant Outs(curve, vout) == outs + Outs(curve, vout[i..])
    {
      assert vout[i..][1..] == vout[i + 1..];
      if !vout[i].IsNull() {
        outs := outs + WrittenOut(curve, vout[i]);
      }
    }
  }

  lemma CodeIsPlain(n: nat)
    ensures SignedVarInt(n) == VarInt(n)
  {
  }

  method SizeOfOuts(curve: Curve, vout: seq<TxOut>) returns (nSize: nat)
    ensures nSize == |Outs(curve, vout)|
  {
    hide WrittenOut;
    nSize := 0;
    assert vout[0..] == vout;
    for i := 0 to |vout|
      invariant |Outs(curve, vout)| == nSize + |Outs(curve, vout[i..])|
    {
      assert vout[i..][1..] == vout[i + 1..];
      if !vout[i].IsNull() {
        nSize := nSize + |WrittenOut(curve, vout[i])|;
      }
    }
  }

  /** The size announced for the coins is the number of bytes written. */
  method GetSerializeSize(curve: Curve, c: Coins) returns (nSize: nat)
    requires !c.IsPruned()
    ensures nSize == |Serialized(curve, c)|
  {
    SomeFlag(c);
    var nMaskSize, nMaskCode := CalcMaskSize(c.vout);
    var fFirst := |c.vout| > 0 && !c.vout[0].IsNull();
    var fSecond := |c.vout| > 1 && !c.vout[1].IsNull();
    assert fFirst || fSecond || nMaskCode > 0;
    var nCode := 8 * (nMaskCode - if fFirst || fSecond then 0 else 1)
      + (if c.coinBase then 1 else 0) + (if fFirst then 2 else 0) + (if fSecond then 4 else 0);
    assert nCode == Code(c);
    MaskLength(c.vout, 0, nMaskSize);
    hide Code, MaskSize, MaskCode, MaskByte, VarInt, SignedVarInt, Mask, WrittenOut;
    nSize := GetSizeOfVarInt(c.version);
    var size := GetSizeOfVarInt(nCode);
    CodeIsPlain(nCode);
    nSize := nSize + size + nMaskSize;
    size := SizeOfOuts(curve, c.vout);
    nSize := nSize + size;
    hide Outs;
    size := GetSizeOfVarInt(c.height);
    nSize := nSize + size;
  }

  /** Reading the mask: bytes are taken until enough of them were not zero. */
  method UnserializeMask(code: nat, s: Bytes) returns (r: Option<Read<seq<bool>>>)
    ensures r == ReadMask(code, s)
  {
    var nMaskCode, rest := code, s;
    var vAvail: seq<bool> := [];
    AppendedNothing(ReadMask(code, s));
    while nMaskCode > 0
      invariant Appended(vAvail, ReadMask(nMaskCode, rest)) == ReadMask(code, s)
      decreases |rest|
    {
      if rest == [] {
        return None;
      }
      var chAvail := rest[0];
      ghost var before := vAvail;
      for p := 0 to 8
        invariant vAvail == before + Flags(chAvail)[..p]
      {
        vAvail := vAvail + [BitAt(chAvail, p)];
      }
      assert Flags(chAvail)[..8] == Flags(chAvail);
      AppendedTwice(before, Flags(chAvail), ReadMask(if chAvail != 0 then nMaskCode - 1 else nMaskCode, rest[1..]));
      rest := rest[1..];
      if chAvail != 0 {
        nMaskCode := nMaskCode - 1;
      }
    }
    assert vAvail + [] == vAvail;
    r := Some(Read(vAvail, rest));
  }

  function Appended(front: seq<bool>, r: Option<Read<seq<bool>>>): Option<Read<seq<bool>>> {
    if r.None? then None else Some(Read(front + r.value.value, r.value.rest))
  }

  lemma AppendedNothing(r: Option<Read<seq<bool>>>)
    ensures Appended([], r) == r
  {
    if r.Some? {
      assert [] + r.value.value == r.value.value;
    }
  }

  lemma AppendedTwice(a: seq<bool>, b: seq<bool>, r: Option<Read<seq<bool>>>)
    ensures Appended(a, Appended(b, r)) == Appended(a + b, r)
  {
    if r.Some? {
      assert a + (b + r.value.value) == a + b + r.value.value;
    }
  }

  method UnserializeOuts(curve: Curve, vAvail: seq<bool>, s: Bytes) returns (r: Option<Read<seq<TxOut>>>)
    ensures r == ReadOuts(curve, vAvail, s)
  {
    hide ReadOut;
    var vout := seq(|vAvail|, _ => SPENT);
    var rest := s;
    assert vAvail[0..] == vAvail && vout[..0] == [];
    AfterNothing(ReadOuts(curve, vAvail, s));
    for i := 0 to |vAvail|
      invariant |vout| == |vAvail| && forall k | i <= k < |vout| :: vout[k] == SPENT
      invariant ReadOuts(curve, vAvail, s) == After(vout[..i], ReadOuts(curve, vAvail[i..], rest))
    {
      assert vAvail[i..][1..] == vAvail[i + 1..];
      ghost var before := vout[..i];
      if vAvail[i] {
        var o := ReadOut(curve, rest);
        if o.None? {
          return None;
        }
        vout := vout[i := o.value.value];
        rest := o.value.rest;
      }
      assert vout[..i + 1] == before + [vout[i]];
      AfterStep(before, vout[i], ReadOuts(curve, vAvail[i + 1..], rest));
    }
    assert vout[..|vAvail|] == vout && vout + [] == vout;
    r := Some(Read(vout, rest));
  }

  function After(front: seq<TxOut>, r: Option<Read<seq<TxOut>>>): Option<Read<seq<TxOut>>> {
    if r.None? then None else Some(Read(front + r.value.value, r.value.rest))
  }

  lemma AfterNothing(r: Option<Read<seq<TxOut>>>)
    ensures After([], r) == r
  {
    if r.Some? {
      assert [] + r.value.value == r.value.value;
    }
  }

  lemma AfterStep(front: seq<TxOut>, o: TxOut, r: Option<Read<seq<TxOut>>>)
    ensures After(front, Prefix(o, r)) == After(front + [o], r)
  {
    if r.Some? {
      assert front + ([o] + r.value.value) == front + [o] + r.value.value;
    }
  }

  method Unserialize(curve: Curve, s: Bytes) returns (r: Option<Read<Coins>>)
    ensures r == Unserialized(curve, s)
  {
    hide ReadFrom, ReadMask, ReadOuts, TrimOutputs;
    var version := ReadVarInt(s);
    if version.None? {
      return None;
    }
    var header := ReadVarInt(version.value.rest);
    if header.None? {
      return None;
    }
    var nCode := header.value.value;
    var fCoinBase := nCode % 2 == 1;
    var vAvail := [nCode / 2 % 2 == 1, nCode / 4 % 2 == 1];
    var nMaskCode := nCode / 8 + if nCode / 2 % 4 != 0 then 0 else 1;
    var mask := UnserializeMask(nMaskCode, header.value.rest);
    if mask.None? {
      return None;
    }
    var outs := UnserializeOuts(curve, vAvail + mask.value.value, mask.value.rest);
    if outs.None? {
      return None;
    }
    var height := ReadVarInt(outs.value.rest);
    if height.None? {
      return None;
    }
    var c := Cleanup(Coins(fCoinBase, false, outs.value.value, height.value.value, version.value.value));
    r := Some(Read(c, height.value.rest));
  }
}

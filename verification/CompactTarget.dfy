/** The "compact" form of difficulty targets (`SetCompact`, `GetCompact`) and the work a target stands for. */
module CompactTarget {
  import opened Numbers
  import opened Limbs
  import opened LimbShifts
  import opened LimbDivision

  const WIDTH: nat := 8
  const MANTISSA: nat := 0x80_0000
  const BYTE: nat := 256

  function Bytes(n: nat): (p: nat)
    ensures p > 0
  {
    Pow(BYTE, n)
  }

  // ---------- The format ----------

  function SizeOf(nCompact: nat): nat {
    nCompact / 0x100_0000
  }

  function MantissaOf(nCompact: nat): nat {
    nCompact % MANTISSA
  }

  predicate SignOf(nCompact: nat) {
    nCompact / MANTISSA % 2 == 1
  }

  /** The whole number a compact value stands for, sign aside: mantissa * 256^(size-3), rounded down. */
  function Decode(nCompact: nat): nat {
    var size := SizeOf(nCompact);
    if size <= 3 then Div(MantissaOf(nCompact), Bytes(3 - size)) else Times(MantissaOf(nCompact), Bytes(size - 3))
  }

  /** The number of bytes of a number. */
  ghost predicate HasBytes(v: nat, n: nat) {
    v < Bytes(n) && (n > 0 ==> Bytes(n - 1) <= v)
  }

  /** Mantissa and size for a number of `n` bytes, before the sign bit is made free. */
  function RawWord(v: nat, n: nat): nat {
    if n <= 3 then Times(v, Bytes(3 - n)) else Div(v, Bytes(n - 3))
  }

  function Pack(word: nat, size: nat, fNegative: bool): nat {
    word + size * 0x100_0000 + (if fNegative && word != 0 then MANTISSA else 0)
  }

  /** The compact form of a number of `n` bytes. */
  function Encode(v: nat, n: nat, fNegative: bool): nat {
    var word := RawWord(v, n);
    if word < MANTISSA then Pack(word, n, fNegative) else Pack(word / BYTE, n + 1, fNegative)
  }

  lemma BytesSum(m: nat, n: nat)
    ensures Bytes(m + n) == Times(Bytes(m), Bytes(n))
  {
    PowAdd(BYTE, m, n);
  }

  lemma BytesMono(m: nat, n: nat)
    requires m <= n
    ensures Bytes(m) <= Bytes(n)
  {
    PowExp(BYTE, m, n);
  }

  lemma FewBytes()
    ensures Bytes(0) == 1 && Bytes(1) == 256 && Bytes(2) == 0x1_0000 && Bytes(3) == 0x100_0000
  {
  }

  lemma BytesArePow2(n: nat)
    ensures Bytes(n) == Pow2(8 * n)
  {
    assert Pow(2, 8) == 256;
    PowMul(2, 8, n);
  }

  /** The parts of a packed value: the word, and above it the sign bit and the size. */
  lemma PackParts(word: nat, size: nat, fNegative: bool)
    requires word < MANTISSA
    ensures var c, sign := Pack(word, size, fNegative), if fNegative && word != 0 then 1 else 0;
      c / MANTISSA == 2 * size + sign && c % MANTISSA == word && c / 0x100_0000 == size
  {
    var c, sign := Pack(word, size, fNegative), if fNegative && word != 0 then 1 else 0;
    DivModUnique(c, MANTISSA, 2 * size + sign, word);
    DivModUnique(c, 0x100_0000, size, word + sign * MANTISSA);
  }

  /** A packed value comes apart again. */
  lemma Unpack(word: nat, size: nat, fNegative: bool)
    requires word < MANTISSA
    ensures var c := Pack(word, size, fNegative);
      SizeOf(c) == size && MantissaOf(c) == word && (SignOf(c) <==> fNegative && word != 0)
  {
    PackParts(word, size, fNegative);
    hide Pack;
  }

  // ---------- The word of a number ----------

  /** The leading three bytes: at least two bytes' worth and less than three. */
  lemma RawWordRange(v: nat, n: nat)
    requires HasBytes(v, n)
    ensures RawWord(v, n) < 0x100_0000
    ensures v > 0 ==> n > 0 && RawWord(v, n) >= 0x1_0000
  {
    hide Times, Bytes;
    FewBytes();
    if n <= 3 {
      BytesSum(n, 3 - n);
      TimesMono(v + 1, Bytes(n), Bytes(3 - n));
      TimesAdd(Bytes(3 - n), v, 1);
      TimesUnit(Bytes(3 - n));
      if n > 0 {
        BytesSum(n - 1, 3 - n);
        TimesMono(Bytes(n - 1), v, Bytes(3 - n));
      }
    } else {
      BytesSum(3, n - 3);
      BytesSum(2, n - 3);
      QuotientRange(v, 0x1_0000, 0x100_0000, Bytes(n - 3));
    }
  }

  lemma QuotientRange(v: nat, lo: nat, hi: nat, d: nat)
    requires d > 0 && Times(lo, d) <= v < Times(hi, d)
    ensures lo <= Div(v, d) < hi
  {
    DivMod(v, d);
    CancelLess(v / d, hi, d);
    MulDist(d, v / d, 1);
    CancelLess(lo, v / d + 1, d);
  }

  /** The mantissa and the size that `Encode` packs. */
  function Mantissa(v: nat, n: nat): nat {
    if RawWord(v, n) < MANTISSA then RawWord(v, n) else RawWord(v, n) / BYTE
  }

  function Size(v: nat, n: nat): nat {
    if RawWord(v, n) < MANTISSA then n else n + 1
  }

  lemma EncodeParts(v: nat, n: nat, fNegative: bool)
    requires HasBytes(v, n)
    ensures Mantissa(v, n) < MANTISSA && Encode(v, n, fNegative) == Pack(Mantissa(v, n), Size(v, n), fNegative)
    ensures var c := Encode(v, n, fNegative);
      SizeOf(c) == Size(v, n) && MantissaOf(c) == Mantissa(v, n) && (SignOf(c) <==> fNegative && Mantissa(v, n) != 0)
  {
    hide RawWord;
    RawWordRange(v, n);
    Unpack(Mantissa(v, n), Size(v, n), fNegative);
  }

  /** The mantissa keeps the leading bytes, exactly while all of them fit. */
  lemma MantissaIs(v: nat, n: nat)
    requires HasBytes(v, n)
    ensures var s := Size(v, n);
      Mantissa(v, n) == if s <= 3 then Times(v, Bytes(3 - s)) else Div(v, Bytes(s - 3))
  {
    FewBytes();
    hide Bytes;
    var word := RawWord(v, n);
    if word >= MANTISSA {
      if n <= 2 {
        BytesSum(2 - n, 1);
        TimesAssoc(v, Bytes(2 - n), 256);
        ByteOff(Times(v, Bytes(2 - n)));
      } else if n == 3 {
      } else {
        BytesSum(n - 3, 1);
        DivDiv(v, Bytes(n - 3), 256);
      }
    }
  }

  lemma ByteOff(x: nat)
    ensures Times(x, 256) / BYTE == x
  {
  }

  function Unit(size: nat): nat {
    if size <= 3 then 1 else Bytes(size - 3)
  }

  /** Decoding what was encoded rounds down, by less than one unit of the exponent. */
  lemma DecodeEncode(v: nat, n: nat, fNegative: bool)
    requires HasBytes(v, n)
    ensures var c := Encode(v, n, fNegative); Decode(c) <= v < Decode(c) + Unit(SizeOf(c))
  {
    hide Bytes, Mantissa, Size, Encode;
    EncodeParts(v, n, fNegative);
    MantissaIs(v, n);
    var s := Size(v, n);
    if s <= 3 {
      ExactQuotient(v, Bytes(3 - s));
    } else {
      RoundedDown(v, Bytes(s - 3));
    }
  }

  lemma ExactQuotient(v: nat, d: nat)
    requires d > 0
    ensures Div(Times(v, d), d) == v
  {
    DivModUnique(v * d, d, v, 0);
  }

  lemma RoundedDown(v: nat, d: nat)
    requires d > 0
    ensures Times(Div(v, d), d) <= v < Times(Div(v, d), d) + d
  {
    DivMod(v, d);
  }

  /** The rounded number has as many bytes as the original and the same compact form. */
  lemma EncodeAgain(v: nat, n: nat, fNegative: bool)
    requires HasBytes(v, n)
    ensures var d := Decode(Encode(v, n, fNegative)); HasBytes(d, n) && Encode(d, n, fNegative) == Encode(v, n, fNegative)
  {
    hide Bytes, RawWord, Decode, Pack;
    var d := Decode(Encode(v, n, fNegative));
    DecodeEncode(v, n, fNegative);
    EncodeParts(v, n, fNegative);
    MantissaIs(v, n);
    RawWordRange(v, n);
    if Size(v, n) > 3 {
      DecodeLong(v, n, fNegative);
      if n == 3 {
        LongSame(d, Mantissa(v, n), 3, true);
      } else {
        LongSame(d, Mantissa(v, n), n, RawWord(v, n) >= MANTISSA);
      }
    } else {
      DecodeShort(v, n, fNegative);
    }
  }

  // ---------- The byte count ----------

  function ByteCount(v: nat): nat {
    if v == 0 then 0 else 1 + ByteCount(v / BYTE)
  }

  lemma {:induction false} CountIs(v: nat)
    ensures HasBytes(v, ByteCount(v))
  {
    if v > 0 {
      CountIs(v / BYTE);
      MoreBytes(v, ByteCount(v / BYTE));
    }
  }

  lemma MoreBytes(v: nat, n: nat)
    requires v > 0 && HasBytes(v / BYTE, n)
    ensures HasBytes(v, n + 1)
  {
    assert Bytes(n + 1) == BYTE * Bytes(n);
    if n > 0 {
      assert Bytes(n) == BYTE * Bytes(n - 1);
    }
    hide Bytes;
  }

  /** A number has one byte count. */
  lemma OneCount(v: nat, m: nat, n: nat)
    requires HasBytes(v, m) && HasBytes(v, n)
    ensures m == n
  {
    hide Bytes;
    if m < n {
      BytesMono(m, n - 1);
    } else if n < m {
      BytesMono(n, m - 1);
    }
  }

  /** The compact form of a number. */
  function Compact(v: nat, fNegative: bool): nat {
    Encode(v, ByteCount(v), fNegative)
  }

  lemma CompactIs(v: nat, n: nat, fNegative: bool)
    requires HasBytes(v, n)
    ensures n == ByteCount(v) && Compact(v, fNegative) == Encode(v, n, fNegative)
  {
    CountIs(v);
    OneCount(v, n, ByteCount(v));
  }

  /** The compact form of a 256-bit number is a 32-bit number. */
  lemma CompactFits(v: nat, fNegative: bool)
    requires v < Range(WIDTH)
    ensures ByteCount(v) <= 32 && Compact(v, fNegative) < BASE
  {
    hide Bytes, Range, RawWord;
    var n := ByteCount(v);
    CountIs(v);
    RangeIsBytes();
    if n > 32 {
      BytesMono(32, n - 1);
    }
    RawWordRange(v, n);
  }

  /** A number and the one its compact form stands for have the same compact form, sign and all. */
  lemma CompactAgain(v: nat, fNegative: bool)
    ensures var c := Compact(v, fNegative);
      Decode(c) <= v && Compact(Decode(c), SignOf(c) && Decode(c) != 0) == c
  {
    hide Bytes, Encode, Decode, SignOf, ByteCount;
    var n, c := ByteCount(v), Compact(v, fNegative);
    CountIs(v);
    DecodeEncode(v, n, fNegative);
    EncodeAgain(v, n, fNegative);
    SignKept(v, n, fNegative);
    CompactIs(Decode(c), n, SignOf(c) && Decode(c) != 0);
  }

  /** The sign read back gives the same compact form as the sign written. */
  lemma SignKept(v: nat, n: nat, fNegative: bool)
    requires HasBytes(v, n) && HasBytes(Decode(Encode(v, n, fNegative)), n)
    ensures var c := Encode(v, n, fNegative);
      Encode(Decode(c), n, SignOf(c) && Decode(c) != 0) == Encode(Decode(c), n, fNegative)
  {
    var c := Encode(v, n, fNegative);
    var d := Decode(c);
    EncodeParts(v, n, fNegative);
    hide Bytes, RawWord, Decode, SignOf;
    RawWordRange(v, n);
    RawWordRange(d, n);
    assert v == 0 ==> n == 0 by {
      ZeroCount(v, n);
    }
    assert d == 0 ==> n == 0 by {
      ZeroCount(d, n);
    }
    NoBytes(v, d, n);
  }

  lemma ZeroCount(v: nat, n: nat)
    requires HasBytes(v, n)
    ensures v == 0 <==> n == 0
  {
    if n == 0 {
      assert Bytes(0) == 1;
    }
  }

  lemma NoBytes(v: nat, d: nat, n: nat)
    requires HasBytes(v, n) && HasBytes(d, n)
    ensures n == 0 ==> v == 0 && d == 0 && RawWord(v, n) == 0 && RawWord(d, n) == 0
  {
    ZeroCount(v, n);
    ZeroCount(d, n);
  }

  lemma DecodeShort(v: nat, n: nat, fNegative: bool)
    requires HasBytes(v, n) && Size(v, n) <= 3
    ensures Decode(Encode(v, n, fNegative)) == v
  {
    hide Bytes, Mantissa, Size, Encode;
    EncodeParts(v, n, fNegative);
    MantissaIs(v, n);
    ExactQuotient(v, Bytes(3 - Size(v, n)));
  }

  lemma DecodeLong(v: nat, n: nat, fNegative: bool)
    requires HasBytes(v, n) && Size(v, n) > 3
    ensures Decode(Encode(v, n, fNegative)) == Times(Mantissa(v, n), Bytes(Size(v, n) - 3))
  {
    hide Bytes, Mantissa, Size, Encode;
    EncodeParts(v, n, fNegative);
  }

  /** A mantissa shifted to its place is found again, whether or not it had made way for the sign bit. */
  lemma LongSame(d: nat, m: nat, n: nat, carried: bool)
    requires n >= 3 && (n == 3 ==> carried)
    requires if carried then 0x8000 <= m < 0x1_0000 && d == Times(m, Bytes(n - 2))
             else 0x1_0000 <= m < MANTISSA && d == Times(m, Bytes(n - 3))
    ensures HasBytes(d, n) && Mantissa(d, n) == m && Size(d, n) == if carried then n + 1 else n
  {
    FewBytes();
    hide Bytes, Times, Div;
    if carried {
      BytesSum(n - 3, 1);
      TimesSwap(Bytes(n - 3), 256);
      TimesAssoc(m, 256, Bytes(n - 3));
      ByteUp(m);
      LongPlace(d, Times(m, 256), n);
    } else {
      LongPlace(d, m, n);
    }
  }

  lemma ByteUp(m: nat)
    ensures Times(m, 256) == 256 * m && Times(m, 256) / BYTE == m
  {
  }

  lemma LongPlace(d: nat, word: nat, n: nat)
    requires n >= 3 && 0x1_0000 <= word < 0x100_0000 && d == Times(word, Bytes(n - 3))
    ensures HasBytes(d, n) && RawWord(d, n) == word
  {
    FewBytes();
    hide Bytes, Times, Div;
    BytesSum(3, n - 3);
    BytesSum(2, n - 3);
    TimesMono(0x1_0000, word, Bytes(n - 3));
    TimesMono(word + 1, 0x100_0000, Bytes(n - 3));
    TimesAdd(Bytes(n - 3), word, 1);
    TimesUnit(Bytes(n - 3));
    TimesUnit(word);
    TimesUnit(d);
    ExactQuotient(word, Bytes(n - 3));
  }

  // ---------- The operations on limbs ----------

  /** `*this = b` for a 64-bit `b`. */
  method SetWord(a: array<nat>, b: nat)
    requires a.Length >= 2 && b < BASE * BASE
    modifies a
    ensures IsLimbs(a[..]) && Value(a[..]) == b
  {
    a[0] := b % BASE;
    a[1] := b / BASE;
    for i := 2 to a.Length
      invariant a[0] == b % BASE && a[1] == b / BASE
      invariant forall k | 2 <= k < i :: a[k] == 0
    {
      a[i] := 0;
    }
    TwoLimbs(a[..], b);
  }

  lemma TwoLimbs(x: seq<nat>, b: nat)
    requires |x| >= 2 && b < BASE * BASE && x[0] == b % BASE && x[1] == b / BASE
    requires forall k | 2 <= k < |x| :: x[k] == 0
    ensures IsLimbs(x) && Value(x) == b
  {
    ValueZero(x[2..]);
    assert x[1..][1..] == x[2..];
    assert b / BASE < BASE;
  }

  /** The overflow test of `SetCompact`, on the mantissa and the size. */
  predicate OverflowTest(word: nat, size: nat) {
    word != 0 && (size > 34 || (word > 0xff && size > 33) || (word > 0xffff && size > 32))
  }

  lemma RangeIsBytes()
    ensures Range(WIDTH) == Bytes(32)
  {
    RangeIsPow2(WIDTH);
    BytesArePow2(32);
  }

  /** The flag is set exactly when the number does not fit in 256 bits. */
  lemma OverflowExact(word: nat, size: nat)
    requires size > 3 && word < MANTISSA
    ensures OverflowTest(word, size) <==> Times(word, Bytes(size - 3)) >= Range(WIDTH)
  {
    FewBytes();
    hide Bytes, Times;
    RangeIsBytes();
    TimesUnit(Bytes(size - 3));
    if size > 34 {
      BytesMono(32, size - 3);
      if word > 0 {
        TimesMono(1, word, Bytes(size - 3));
      }
    } else if size == 34 {
      BytesSum(1, 31);
      Threshold(word, 256, Bytes(31));
    } else if size == 33 {
      BytesSum(2, 30);
      Threshold(word, 0x1_0000, Bytes(30));
    } else {
      BytesSum(3, 29);
      BytesMono(size - 3, 29);
      TimesMono(Bytes(size - 3), Bytes(29), word);
      Threshold(word, 0x100_0000, Bytes(29));
    }
  }

  lemma Threshold(word: nat, limit: nat, unit: nat)
    requires unit > 0
    ensures Times(word, unit) >= Times(limit, unit) <==> word >= limit
  {
    if word >= limit {
      TimesMono(limit, word, unit);
    } else {
      MulMono(word + 1, limit, unit);
      MulDist(unit, word, 1);
    }
  }

  lemma SmallDecode(nCompact: nat)
    requires SizeOf(nCompact) <= 3
    ensures Decode(nCompact) < MANTISSA < Range(WIDTH)
  {
    DivDown(MantissaOf(nCompact), Bytes(3 - SizeOf(nCompact)));
    RangeIsBytes();
    FewBytes();
    BytesMono(3, 32);
  }

  lemma LargeDecode(nCompact: nat)
    requires SizeOf(nCompact) > 3
    ensures Decode(nCompact) == 0 <==> MantissaOf(nCompact) == 0
  {
    if MantissaOf(nCompact) > 0 {
      MulMono(1, MantissaOf(nCompact), Bytes(SizeOf(nCompact) - 3));
    }
  }

  /**
   `SetCompact`: the number modulo 2^256, the sign flag for negative numbers other than zero, and the overflow flag
   exactly when the number does not fit.
   */
  method SetCompact(a: array<nat>, nCompact: nat) returns (fNegative: bool, fOverflow: bool)
    requires a.Length == WIDTH && nCompact < BASE
    modifies a
    ensures IsLimbs(a[..]) && Value(a[..]) == Mod(Decode(nCompact), Range(WIDTH))
    ensures fNegative <==> SignOf(nCompact) && Decode(nCompact) != 0
    ensures fOverflow <==> Decode(nCompact) >= Range(WIDTH)
  {
    hide Value, Range, Mod, Times, Bytes, Div, Pow2;
    var nSize := nCompact / 0x100_0000;
    var nWord := nCompact % MANTISSA;
    if nSize <= 3 {
      nWord := Div(nWord, Bytes(3 - nSize));
      SmallDecode(nCompact);
      SetWord(a, nWord);
      ModFits(nWord, Range(WIDTH));
    } else {
      SetWord(a, nWord);
      BytesArePow2(nSize - 3);
      ShiftLeft(a, 8 * (nSize - 3));
      OverflowExact(nWord, nSize);
      LargeDecode(nCompact);
    }
    fNegative := nWord != 0 && nCompact / MANTISSA % 2 == 1;
    fOverflow := nWord != 0 && (nSize > 34 || (nWord > 0xff && nSize > 33) || (nWord > 0xffff && nSize > 32));
  }

  /** Rounding the bit length up to whole bytes gives the byte length. */
  lemma BitsToBytes(v: nat, bits: nat)
    requires HasBits(v, bits)
    ensures HasBytes(v, (bits + 7) / 8)
  {
    hide Pow2, Bytes;
    var n := (bits + 7) / 8;
    BytesArePow2(n);
    PowerGrows(bits, 8 * n);
    if n > 0 {
      BytesArePow2(n - 1);
      PowerGrows(8 * (n - 1), bits - 1);
    }
  }

  lemma PowerGrows(m: nat, n: nat)
    requires m <= n
    ensures Pow2(m) <= Pow2(n)
  {
    PowExp(2, m, n);
  }

  /** `GetLow64`: the low 64 bits. */
  method GetLow64(a: array<nat>) returns (r: nat)
    requires a.Length >= 2 && IsLimbs(a[..])
    ensures r == Mod(Value(a[..]), BASE * BASE)
  {
    LowLimbs(a[..]);
    r := a[0] + BASE * a[1];
  }

  lemma LowLimbs(x: seq<nat>)
    requires |x| >= 2 && IsLimbs(x)
    ensures Mod(Value(x), BASE * BASE) == x[0] + BASE * x[1]
  {
    assert x[1..][1..] == x[2..];
    assert Value(x) == x[0] + BASE * (x[1] + BASE * Value(x[2..]));
    ModIs(Value(x), BASE * BASE, Value(x[2..]), x[0] + BASE * x[1]);
  }

  /** `GetCompact`. The asserts in it hold: the word fits below the sign bit and the size in a byte. */
  method GetCompact(a: array<nat>, fNegative: bool) returns (nCompact: nat)
    requires a.Length == WIDTH && IsLimbs(a[..])
    ensures nCompact == Compact(Value(a[..]), fNegative) && nCompact < BASE
  {
    hide Value, Range, Mod, Times, Bytes, Div, Pow2, ByteCount;
    var bits := Bits(a);
    BitsToBytes(Value(a[..]), bits);
    var nSize := (bits + 7) / 8;
    CompactIs(Value(a[..]), nSize, fNegative);
    ValueBound(a[..]);
    CompactFits(Value(a[..]), fNegative);
    RawWordRange(Value(a[..]), nSize);
    if nSize <= 3 {
      ShortFits(Value(a[..]), nSize);
      ModFits(Value(a[..]), BASE * BASE);
      var low := GetLow64(a);
      nCompact := Times(low, Bytes(3 - nSize));
    } else {
      var bn := Copy(a);
      BytesArePow2(nSize - 3);
      ShiftRight(bn, 8 * (nSize - 3));
      ModFits(Value(bn[..]), BASE * BASE);
      nCompact := GetLow64(bn);
    }
    if nCompact / MANTISSA % 2 == 1 {
      nCompact := nCompact / BYTE;
      nSize := nSize + 1;
    }
    assert nCompact < MANTISSA && nSize < 256;
    nCompact := Pack(nCompact, nSize, fNegative);
  }

  /** `GetCompact`, `SetCompact` and `GetCompact` again: the two compact forms are equal. */
  method Recompact(a: array<nat>, fNegative: bool) returns (first: nat, again: nat)
    requires a.Length == WIDTH && IsLimbs(a[..])
    ensures first == Compact(Value(a[..]), fNegative) && again == first
  {
    hide Value, Range, Mod, Decode, SignOf, Compact;
    first := GetCompact(a, fNegative);
    var b := new nat[WIDTH](_ => 0);
    var negative, overflow := SetCompact(b, first);
    CompactAgain(Value(a[..]), fNegative);
    ValueBound(a[..]);
    ModFits(Decode(first), Range(WIDTH));
    assert !overflow;
    again := GetCompact(b, negative);
  }

  lemma ShortFits(v: nat, n: nat)
    requires HasBytes(v, n) && n <= 3
    ensures v < BASE
  {
    BytesMono(n, 3);
    FewBytes();
  }

  // ---------- Block proof ----------

  /** Every target that decodes without overflow leaves room for adding one. */
  lemma TargetBelowTop(nCompact: nat)
    requires nCompact < BASE && Decode(nCompact) < Range(WIDTH)
    ensures Decode(nCompact) + 1 < Range(WIDTH)
  {
    hide Range, Bytes, Times, Div;
    if SizeOf(nCompact) <= 3 {
      SmallDecode(nCompact);
    } else {
      RangeIsBytes();
      MultipleBelow(MantissaOf(nCompact), SizeOf(nCompact) - 3);
    }
  }

  /** A multiple of 256 below 2^256 is not the largest number below it. */
  lemma MultipleBelow(m: nat, k: nat)
    requires k > 0 && Times(m, Bytes(k)) < Bytes(32)
    ensures Times(m, Bytes(k)) + 1 < Bytes(32)
  {
    assert Bytes(32) == 256 * Bytes(31);
    assert Bytes(k) == 256 * Bytes(k - 1);
    MulAssoc(m, 256, Bytes(k - 1));
    assert Times(m, Bytes(k)) == 256 * (m * Bytes(k - 1));
  }

  /** The identity behind the formula: ~t / (t+1) + 1 is 2^256 / (t+1). */
  lemma ProofIdentity(t: nat, r: nat)
    requires t + 1 < r
    ensures Div(r - 1 - t, t + 1) + 1 == Div(r, t + 1)
  {
    ModAddMul(r - 1 - t, 1, t + 1);
  }

  lemma ProofFits(t: nat, r: nat)
    requires 0 < t && t + 1 < r
    ensures Div(r, t + 1) < r
  {
    DivMod(r, t + 1);
    MulMono(2, t + 1, r / (t + 1));
  }

  /** `GetBlockProof`: no work for an invalid target, otherwise 2^256 / (target + 1), and no division by zero. */
  method GetBlockProof(nBits: nat) returns (proof: array<nat>)
    requires nBits < BASE
    ensures fresh(proof) && proof.Length == WIDTH && IsLimbs(proof[..])
    ensures var t := Decode(nBits);
      Value(proof[..]) == if SignOf(nBits) || t == 0 || t >= Range(WIDTH) then 0 else Div(Range(WIDTH), t + 1)
  {
    hide Value, Range, Mod, Times, Bytes, Div, Pow2, Decode;
    proof := new nat[WIDTH](_ => 0);
    ValueZero(proof[..]);
    var target := new nat[WIDTH](_ => 0);
    var fNegative, fOverflow := SetCompact(target, nBits);
    ghost var t := Decode(nBits);
    var zero := new nat[WIDTH](_ => 0);
    ValueZero(zero[..]);
    var order := CompareTo(target, zero);
    ZeroTarget(nBits);
    if fNegative || fOverflow || order == 0 {
      return;
    }
    ModFits(t, Range(WIDTH));
    TargetBelowTop(nBits);
    proof := Copy(target);
    Complement(proof);
    Increment(target);
    ModFits(t + 1, Range(WIDTH));
    var ok, rem := DivAssign(proof, target);
    assert ok;
    ProofIdentity(t, Range(WIDTH));
    ProofFits(t, Range(WIDTH));
    ModFits(Div(Range(WIDTH), t + 1), Range(WIDTH));
    Increment(proof);
  }

  /** A zero target, as opposed to one that wraps to zero, has no sign and no overflow. */
  lemma ZeroTarget(nBits: nat)
    ensures Decode(nBits) < Range(WIDTH) ==> Mod(Decode(nBits), Range(WIDTH)) == Decode(nBits)
  {
    if Decode(nBits) < Range(WIDTH) {
      ModFits(Decode(nBits), Range(WIDTH));
    }
  }
}

/**
 Base58 and Base58Check: byte strings to text and back, with the carry loops over fixed buffers.

 A C string is the sequence of the characters before its terminator.
 */
module Base58 {
  import opened Numbers
  import opened Options
  import opened Radix

  /** The 58 digits in order of value: digits and letters without the four that are easily taken for another. */
  const ALPHABET: string :=
    "123456789" + "ABCDEFGH" + "JKLMN" + "PQRSTUVWXYZ" + "abcdefghijk" + "mnopqrstuvwxyz"

  // ---------- Characters ----------

  /** The character of a digit. */
  function Symbol(d: nat): char
    requires d < 58
  {
    if d < 9 then '1' + d as char
    else if d < 17 then 'A' + (d - 9) as char
    else if d < 22 then 'J' + (d - 17) as char
    else if d < 33 then 'P' + (d - 22) as char
    else if d < 44 then 'a' + (d - 33) as char
    else 'm' + (d - 44) as char
  }

  /** The digit of a character, if it is in the alphabet. */
  function Digit(c: char): Option<nat> {
    if '1' <= c <= '9' then Some((c - '1') as nat)
    else if 'A' <= c <= 'H' then Some((c - 'A') as nat + 9)
    else if 'J' <= c <= 'N' then Some((c - 'J') as nat + 17)
    else if 'P' <= c <= 'Z' then Some((c - 'P') as nat + 22)
    else if 'a' <= c <= 'k' then Some((c - 'a') as nat + 33)
    else if 'm' <= c <= 'z' then Some((c - 'm') as nat + 44)
    else None
  }

  lemma SymbolDigit(d: nat)
    requires d < 58
    ensures Digit(Symbol(d)) == Some(d) && !IsSpace(Symbol(d))
  {
  }

  lemma DigitSymbol(c: char)
    ensures Digit(c).Some? ==> Digit(c).value < 58 && Symbol(Digit(c).value) == c && !IsSpace(c)
  {
  }

  predicate IsSpace(c: char) {
    c == ' ' || ('\t' <= c <= '\r')
  }

  /** The spaces are the characters 9 to 13 and 32. */
  lemma SpacesAre(c: char)
    ensures IsSpace(c) <==> c as int in {9, 10, 11, 12, 13, 32}
  {
  }

  lemma AlphabetIs(d: nat)
    requires d < 58
    ensures |ALPHABET| == 58 && ALPHABET[d] == Symbol(d)
  {
  }

  // ---------- The values ----------

  predicate InAlphabet(s: string) {
    forall i | 0 <= i < |s| :: Digit(s[i]).Some?
  }

  function Numerals(s: string): seq<nat>
    requires InAlphabet(s)
  {
    seq(|s|, i requires 0 <= i < |s| => Digit(s[i]).value)
  }

  function Text(ds: seq<nat>): string
    requires InBase(58, ds)
  {
    seq(|ds|, i requires 0 <= i < |ds| => Symbol(ds[i]))
  }

  lemma TextNumerals(ds: seq<nat>)
    requires InBase(58, ds)
    ensures InAlphabet(Text(ds)) && Numerals(Text(ds)) == ds
  {
    var s := Text(ds);
    forall i | 0 <= i < |s|
      ensures Digit(s[i]) == Some(ds[i])
    {
      SymbolDigit(ds[i]);
    }
  }

  lemma NumeralsText(s: string)
    requires InAlphabet(s)
    ensures InBase(58, Numerals(s)) && Text(Numerals(s)) == s
  {
    forall i | 0 <= i < |s|
      ensures Numerals(s)[i] < 58 && Symbol(Numerals(s)[i]) == s[i]
    {
      DigitSymbol(s[i]);
    }
  }

  predicate IsBytes(b: seq<nat>) {
    InBase(256, b)
  }

  /** The text of a byte string. */
  function Encoded(bytes: seq<nat>): string
    requires IsBytes(bytes)
  {
    ConvertBack(256, 58, bytes);
    Text(Convert(256, 58, bytes))
  }

  /** The first position from i on that holds no space. */
  function SkipSpaces(s: string, i: nat): (j: nat)
    requires i <= |s|
    ensures i <= j <= |s|
    decreases |s| - i
  {
    if i < |s| && IsSpace(s[i]) then SkipSpaces(s, i + 1) else i
  }

  /** The first position from i on that holds a space. */
  function WordEnd(s: string, i: nat): (j: nat)
    requires i <= |s|
    ensures i <= j <= |s|
    decreases |s| - i
  {
    if i < |s| && !IsSpace(s[i]) then WordEnd(s, i + 1) else i
  }

  /** One word of the alphabet with spaces around it, or nothing. */
  function Word(s: string): Option<string> {
    var a := SkipSpaces(s, 0);
    var e := WordEnd(s, a);
    if InAlphabet(s[a..e]) && SkipSpaces(s, e) == |s| then Some(s[a..e]) else None
  }

  function Decoded(s: string): Option<seq<nat>> {
    var w := Word(s);
    if w.Some? then
      WordInAlphabet(s);
      Some(Convert(58, 256, Numerals(w.value)))
    else None
  }

  lemma WordInAlphabet(s: string)
    ensures Word(s).Some? ==> InAlphabet(Word(s).value)
  {
  }

  lemma {:induction false} WordEndOf(s: string, i: nat)
    requires InAlphabet(s) && i <= |s|
    ensures WordEnd(s, i) == |s|
    decreases |s| - i
  {
    if i < |s| {
      DigitSymbol(s[i]);
      WordEndOf(s, i + 1);
    }
  }

  lemma WordOf(s: string)
    requires InAlphabet(s)
    ensures Word(s) == Some(s)
  {
    if s != [] {
      DigitSymbol(s[0]);
    }
    WordEndOf(s, 0);
    assert s[0..|s|] == s;
  }

  /** Decoding the text of a byte string gives the byte string back. */
  lemma EncodeDecode(bytes: seq<nat>)
    requires IsBytes(bytes)
    ensures InAlphabet(Encoded(bytes)) && Decoded(Encoded(bytes)) == Some(bytes)
  {
    hide Convert, Word;
    ConvertBack(256, 58, bytes);
    var ds := Convert(256, 58, bytes);
    TextNumerals(ds);
    WordOf(Text(ds));
  }

  /** Encoding what a text decodes to gives back its word; without spaces, the text itself. */
  lemma DecodeEncode(s: string)
    requires Decoded(s).Some?
    ensures IsBytes(Decoded(s).value) && Word(s) == Some(Encoded(Decoded(s).value))
    ensures InAlphabet(s) ==> Encoded(Decoded(s).value) == s
  {
    hide Convert, Word;
    var w := Word(s).value;
    WordInAlphabet(s);
    NumeralsText(w);
    ConvertBack(58, 256, Numerals(w));
    if InAlphabet(s) {
      WordOf(s);
    }
  }

  /** Every text over the alphabet decodes. */
  lemma AlphabetDecodes(s: string)
    requires InAlphabet(s)
    ensures Decoded(s).Some?
  {
    WordOf(s);
  }

  // ---------- The buffers are large enough ----------

  lemma {:induction false} PowLess(a: nat, b: nat, k: nat)
    requires k > 0 && Pow(a, k) <= Pow(b, k)
    ensures a <= b
  {
    if b < a {
      PowBaseStrict(b, a, k);
    }
  }

  lemma PowTimes(b: nat, m: nat, n: nat)
    ensures Pow(Pow(b, m), n) == Pow(b, Times(m, n))
  {
    PowMul(b, m, n);
  }

  /** If a^p <= b^q and q n <= p s then a^n <= b^s: one comparison of two numbers settles every size. */
  lemma Suffices(a: nat, p: nat, b: nat, q: nat, n: nat, s: nat)
    requires a > 0 && b > 0 && p > 0 && Pow(a, p) <= Pow(b, q) && Times(q, n) <= Times(p, s)
    ensures Pow(a, n) <= Pow(b, s)
  {
    hide Pow, Times;
    PowTimes(a, p, n);
    PowTimes(b, q, n);
    PowBase(Pow(a, p), Pow(b, q), n);
    PowTimes(a, n, p);
    PowTimes(b, s, p);
    TimesSwap(n, p);
    TimesSwap(s, p);
    PowExp(b, Times(q, n), Times(p, s));
    PowLess(Pow(a, n), Pow(b, s), p);
  }

  lemma ByteBlock()
    ensures Pow(256, 8) <= Pow(58, 11)
  {
    assert Pow(256, 4) == 0x1_0000_0000;
    PowAdd(256, 4, 4);
    assert Pow(58, 5) == 656356768;
    PowAdd(58, 5, 5);
    PowAdd(58, 10, 1);
  }

  lemma PowJoin(b: nat, m: nat, n: nat, v: nat, w: nat)
    requires Pow(b, m) == v && Pow(b, n) == w
    ensures Pow(b, m + n) == v * w
  {
    PowAdd(b, m, n);
  }

  lemma TextBlock()
    ensures Pow(58, 71) <= Pow(256, 52)
  {
    assert Pow(58, 4) == 11316496 && Pow(58, 3) == 195112 && Pow(256, 4) == 0x1_00000000;
    hide Pow;
    PowJoin(58, 4, 4, 11316496, 11316496);
    PowJoin(58, 4, 3, 11316496, 195112);
    PowJoin(58, 8, 8, 128_063081718016, 128_063081718016);
    PowJoin(58, 16, 16, 16400_152899115243_850138976256, 16400_152899115243_850138976256);
    PowJoin(58, 32, 32, 268965015_114358137726_910587140455_987105619365_599731777536,
            268965015_114358137726_910587140455_987105619365_599731777536);
    PowJoin(58, 64, 7,
            0x7853026ae25f4c_e0c69893e6f1f86f_67aef4db69563516_064adeb967a9d66f_4fe64b09ec94e501_0000000000000000,
            2_207984167552);
    PowJoin(256, 4, 4, 0x1_00000000, 0x1_00000000);
    PowJoin(256, 8, 8, 0x1_0000000000000000, 0x1_0000000000000000);
    PowJoin(256, 16, 16, 0x1_0000000000000000_0000000000000000, 0x1_0000000000000000_0000000000000000);
    PowJoin(256, 32, 16, 0x1_0000000000000000_0000000000000000_0000000000000000_0000000000000000,
            0x1_0000000000000000_0000000000000000);
    PowJoin(256, 48, 4,
            0x1_0000000000000000_0000000000000000_0000000000000000_0000000000000000_0000000000000000_0000000000000000,
            0x1_00000000);
  }

  /** The buffer of the encoder holds every number of that many bytes. */
  lemma EncodeBufferSuffices(n: nat)
    ensures Pow(256, n) <= Pow(58, n * 138 / 100 + 1)
  {
    ByteBlock();
    hide Pow;
    Suffices(256, 8, 58, 11, n, n * 138 / 100 + 1);
  }

  /** The buffer of the decoder holds every number of that many characters. */
  lemma DecodeBufferSuffices(n: nat)
    ensures Pow(58, n) <= Pow(256, n * 733 / 1000 + 1)
  {
    TextBlock();
    hide Pow;
    Suffices(58, 71, 256, 52, n, n * 733 / 1000 + 1);
  }

  // ---------- The carry loop ----------

  /** One digit of the carry loop. */
  lemma CarryStep(base: nat, power: nat, low: nat, carry: nat, mult: nat, digit: nat, lowBefore: nat, ch: nat, t: nat)
    requires base > 0 && low + Times(carry, power) == Times(mult, lowBefore) + ch && t == carry + Times(mult, digit)
    ensures Times(Mod(t, base), power) + low + Times(Div(t, base), Times(base, power)) ==
      Times(mult, Times(digit, power) + lowBefore) + ch
  {
    var q, r := Div(t, base), Mod(t, base);
    assert t == Times(q, base) + r;
    hide Times, Div, Mod;
    TimesAssoc(q, base, power);
    TimesAdd(power, Times(q, base), r);
    TimesAdd(power, carry, Times(mult, digit));
    TimesAssoc(mult, digit, power);
    TimesAdd(mult, Times(digit, power), lowBefore);
  }

  /** The digits with index p and above grow by one digit to the left. */
  lemma SuffixStep(base: nat, ds: seq<nat>, p: nat)
    requires p < |ds|
    ensures Val(base, ds[p..]) == Times(ds[p], Pow(base, |ds| - 1 - p)) + Val(base, ds[p + 1..])
  {
    assert ds[p..] == [ds[p]] + ds[p + 1..];
    ValCons(base, ds[p], ds[p + 1..]);
  }

  lemma PowStep(base: nat, i: nat)
    ensures Pow(base, i + 1) == Times(base, Pow(base, i))
  {
  }

  /**
   The inner loop of both directions: the number in the buffer is multiplied and increased. The encoder stops early,
   once the carry is used up and the digits used so far are done; `length` counts these.
   */
  method MulAdd(buf: array<nat>, base: nat, mult: nat, ch: nat, length: nat) returns (carry: nat, i: nat)
    requires base > 1 && InBase(base, buf[..]) && length <= buf.Length
    requires buf[..buf.Length - length] == Zeros(buf.Length - length)
    requires Times(mult, Val(base, buf[..])) + ch < Pow(base, buf.Length)
    modifies buf
    ensures carry == 0 && length <= i <= buf.Length
    ensures InBase(base, buf[..]) && Val(base, buf[..]) == old(Times(mult, Val(base, buf[..]))) + ch
    ensures buf[..buf.Length - i] == Zeros(buf.Length - i)
  {
    hide Val, Times, Pow, InBase, Div, Mod;
    ghost var before: seq<nat> := buf[..];
    carry, i := ch, 0;
    StartOfLoop(base, mult, before, ch);
    while (carry != 0 || i < length) && i < buf.Length
      invariant i <= buf.Length && InBase(base, buf[..])
      invariant PartlyDone(base, mult, before, buf[..], ch, carry, i)
      decreases buf.Length - i
    {
      var p := buf.Length - 1 - i;
      var t := carry + Times(mult, buf[p]);
      LoopStep(base, mult, before, buf[..], ch, carry, i, p, t);
      buf[p] := Mod(t, base);
      carry := Div(t, base);
      i := i + 1;
    }
    EndOfLoop(base, mult, before, buf[..], ch, carry, i, length);
  }

  /** The last i digits are done, up to the carry, and the others are untouched. */
  ghost predicate PartlyDone(base: nat, mult: nat, before: seq<nat>, now: seq<nat>, ch: nat, carry: nat, i: nat) {
    && |now| == |before| && i <= |before|
    && var p := |before| - i;
       && now[..p] == before[..p]
       && Val(base, now[p..]) + Times(carry, Pow(base, i)) == Times(mult, Val(base, before[p..])) + ch
  }

  lemma LoopStep(base: nat, mult: nat, before: seq<nat>, now: seq<nat>, ch: nat, carry: nat, i: nat, p: nat, t: nat)
    requires base > 1 && InBase(base, now) && PartlyDone(base, mult, before, now, ch, carry, i)
    requires p + 1 + i == |before| && t == carry + Times(mult, now[p])
    ensures InBase(base, now[p := Mod(t, base)])
    ensures PartlyDone(base, mult, before, now[p := Mod(t, base)], ch, Div(t, base), i + 1)
  {
    hide Val, Times, Pow, Div, Mod;
    assert now[p] == now[..p + 1][p] == before[p];
    var d := now[p];
    CarryStep(base, Pow(base, i), Val(base, now[p + 1..]), carry, mult, d, Val(base, before[p + 1..]), ch, t);
    PowStep(base, i);
    SuffixStep(base, before, p);
    var next := now[p := Mod(t, base)];
    SuffixStep(base, next, p);
    assert next[p + 1..] == now[p + 1..];
    assert next[..p] == now[..p + 1][..p] == before[..p + 1][..p] == before[..p];
  }

  lemma StartOfLoop(base: nat, mult: nat, before: seq<nat>, ch: nat)
    ensures PartlyDone(base, mult, before, before, ch, ch, 0)
  {
  }

  lemma EndOfLoop(base: nat, mult: nat, before: seq<nat>, now: seq<nat>, ch: nat, carry: nat, i: nat, length: nat)
    requires base > 1 && |now| == |before| && length <= |before| && i <= |before| && InBase(base, now)
    requires before[..|before| - length] == Zeros(|before| - length)
    requires Times(mult, Val(base, before)) + ch < Pow(base, |before|)
    requires PartlyDone(base, mult, before, now, ch, carry, i)
    requires (carry == 0 && i >= length) || i == |before|
    ensures carry == 0 && i >= length && Val(base, now) == Times(mult, Val(base, before)) + ch
    ensures now[..|before| - i] == Zeros(|before| - i)
  {
    hide Val, Pow, Times, InBase;
    if i == |before| {
      assert now[0..] == now && before[0..] == before;
      NoCarry(Val(base, now), carry, Pow(base, i));
    } else {
      var zeros := |before| - i;
      assert before[..zeros] == before[..|before| - length][..zeros] == Zeros(zeros);
      DropZeros(base, now, zeros);
      DropZeros(base, before, zeros);
      TimesUnit(Pow(base, i));
    }
  }

  lemma NoCarry(v: nat, carry: nat, power: nat)
    requires v + Times(carry, power) < power
    ensures carry == 0 && Times(carry, power) == 0
  {
    if carry > 0 {
      MulMono(1, carry, power);
    }
  }

  lemma DropZeros(base: nat, ds: seq<nat>, n: nat)
    requires n <= |ds| && ds[..n] == Zeros(n)
    ensures Val(base, ds) == Val(base, ds[n..])
  {
    assert ds == Zeros(n) + ds[n..];
    ValZeros(base, n, ds[n..]);
  }

  /** The digits from the first one that is not zero. */
  method Significant(buf: array<nat>, base: nat, from: nat) returns (ds: seq<nat>)
    requires base > 1 && InBase(base, buf[..]) && from <= buf.Length && buf[..from] == Zeros(from)
    ensures ds == Digits(base, Val(base, buf[..]))
  {
    var it := from;
    while it < buf.Length && buf[it] == 0
      invariant it <= buf.Length && buf[..it] == Zeros(it)
    {
      assert buf[..it + 1] == buf[..it] + [0];
      assert Zeros(it + 1) == Zeros(it) + [0];
      it := it + 1;
    }
    ds := buf[it..];
    hide Val, Digits;
    DropZeros(base, buf[..], it);
    assert buf[..][it..] == ds;
    DigitsVal(base, ds);
  }

  // ---------- Encoding ----------

  method CountZeros(bytes: seq<nat>) returns (zeroes: nat)
    ensures zeroes == LeadingZeros(bytes)
  {
    zeroes := 0;
    while zeroes < |bytes| && bytes[zeroes] == 0
      invariant zeroes <= |bytes| && LeadingZeros(bytes) == zeroes + LeadingZeros(bytes[zeroes..])
    {
      assert bytes[zeroes..][1..] == bytes[zeroes + 1..];
      zeroes := zeroes + 1;
    }
  }

  lemma FreshBuffer(base: nat, ds: seq<nat>)
    requires base > 1 && ds == Zeros(|ds|)
    ensures InBase(base, ds) && Val(base, ds) == 0
  {
    DropZeros(base, ds, |ds|);
  }

  /** Taking in one more digit of the input leaves the number within the buffer. */
  lemma NextDigit(from: nat, to: nat, ds: seq<nat>, a: nat, k: nat, size: nat)
    requires from > 1 && to > 1 && a <= k < |ds| && InBase(from, ds) && Pow(from, |ds| - a) <= Pow(to, size)
    ensures Val(from, ds[a..k + 1]) == Times(from, Val(from, ds[a..k])) + ds[k]
    ensures Times(from, Val(from, ds[a..k])) + ds[k] < Pow(to, size)
  {
    assert ds[a..k + 1] == ds[a..k] + [ds[k]];
    ValSnoc(from, ds[a..k], ds[k]);
    TimesSwap(from, Val(from, ds[a..k]));
    ValBound(from, ds[a..k + 1]);
    PowExp(from, k + 1 - a, |ds| - a);
  }

  lemma ConvertedIs(from: nat, to: nat, ds: seq<nat>)
    requires to > 1
    ensures var n := LeadingZeros(ds); Convert(from, to, ds) == Zeros(n) + Digits(to, Val(from, ds[n..]))
  {
    LeadingZerosAre(ds);
    DropZeros(from, ds, LeadingZeros(ds));
  }

  /** The digits as characters, looked up in the alphabet. */
  method Translate(ds: seq<nat>) returns (str: string)
    requires InBase(58, ds)
    ensures str == Text(ds)
  {
    hide Symbol;
    str := [];
    for i := 0 to |ds|
      invariant |str| == i && forall k | 0 <= k < i :: str[k] == Symbol(ds[k])
    {
      AlphabetIs(ds[i]);
      str := str + [ALPHABET[ds[i]]];
    }
  }

  lemma TextOfZeros(n: nat, ds: seq<nat>)
    requires InBase(58, ds)
    ensures InBase(58, Zeros(n) + ds) && Text(Zeros(n) + ds) == seq(n, _ => '1') + Text(ds)
  {
    assert Symbol(0) == '1';
    hide Symbol;
  }

  method EncodeBase58(bytes: seq<nat>) returns (str: string)
    requires IsBytes(bytes)
    ensures str == Encoded(bytes)
  {
    hide Val, Pow, Times, Digits, Convert, Text, LeadingZeros, InBase;
    var zeroes := CountZeros(bytes);
    var size := (|bytes| - zeroes) * 138 / 100 + 1;
    EncodeBufferSuffices(|bytes| - zeroes);
    ConvertedIs(256, 58, bytes);
    ConvertBack(256, 58, bytes);
    var b58 := new nat[size](_ => 0);
    assert b58[..] == Zeros(size);
    FreshBuffer(58, b58[..]);
    FreshBuffer(256, bytes[zeroes..zeroes]);
    var length := 0;
    for k := zeroes to |bytes|
      invariant length <= size && InBase(58, b58[..]) && b58[..size - length] == Zeros(size - length)
      invariant Val(58, b58[..]) == Val(256, bytes[zeroes..k])
    {
      NextDigit(256, 58, bytes, zeroes, k, size);
      var carry, i := MulAdd(b58, 58, 256, bytes[k], length);
      assert carry == 0;
      length := i;
    }
    assert bytes[zeroes..|bytes|] == bytes[zeroes..];
    var ds := Significant(b58, 58, size - length);
    ValDigits(58, Val(58, b58[..]));
    DigitsAre(58, Val(58, b58[..]));
    TextOfZeros(zeroes, ds);
    str := Translate(ds);
    str := seq(zeroes, _ => '1') + str;
  }

  // ---------- Decoding ----------

  /** The characters up to the first terminator. */
  function CString(s: string): string {
    if s == [] || s[0] == '\0' then [] else [s[0]] + CString(s[1..])
  }

  /** A text over the alphabet has no terminator inside. */
  lemma {:induction false} AlphabetIsCString(s: string)
    requires InAlphabet(s)
    ensures CString(s) == s
  {
    if s != [] {
      assert Digit(s[0]).Some?;
      AlphabetIsCString(s[1..]);
    }
  }

  /** The end of a run of ones within a word. */
  function SkipOnes(s: string, i: nat): (j: nat)
    requires i <= |s|
    ensures i <= j <= |s|
    decreases |s| - i
  {
    if i < |s| && s[i] == '1' then SkipOnes(s, i + 1) else i
  }

  lemma {:induction false} OnesInWord(s: string, i: nat)
    requires i <= |s|
    ensures SkipOnes(s, i) <= WordEnd(s, i) == WordEnd(s, SkipOnes(s, i))
    decreases |s| - i
  {
    if i < |s| && s[i] == '1' {
      OnesInWord(s, i + 1);
    }
  }

  /** The ones are the leading zeros of the numerals. */
  lemma {:induction false} OnesAreZeros(s: string, a: nat, e: nat)
    requires a <= e <= |s| && e == WordEnd(s, a) && InAlphabet(s[a..e])
    ensures SkipOnes(s, a) <= e
    ensures LeadingZeros(Numerals(s[a..e])) == SkipOnes(s, a) - a
    decreases e - a
  {
    OnesInWord(s, a);
    if a < e {
      var ds := Numerals(s[a..e]);
      assert s[a..e][0] == s[a];
      DigitSymbol(s[a]);
      if s[a] == '1' {
        assert s[a..e][1..] == s[a + 1..e];
        assert ds[1..] == Numerals(s[a + 1..e]);
        OnesAreZeros(s, a + 1, e);
      } else {
        assert ds[0] != 0;
      }
    }
  }

  lemma {:induction false} OnesAre(s: string, i: nat, k: nat)
    requires i <= |s| && i <= k < SkipOnes(s, i)
    ensures s[k] == '1'
    decreases |s| - i
  {
    if i < k {
      OnesAre(s, i + 1, k);
    }
  }

  /** A word is in the alphabet when its part after the ones is. */
  lemma AfterOnes(s: string, a: nat, e: nat)
    requires a <= |s| && SkipOnes(s, a) <= e <= |s|
    ensures InAlphabet(s[a..e]) <==> InAlphabet(s[SkipOnes(s, a)..e])
  {
    var z := SkipOnes(s, a);
    var word, tail := s[a..e], s[z..e];
    forall i | 0 <= i < z - a
      ensures Digit(word[i]).Some?
    {
      OnesAre(s, a, a + i);
    }
    assert forall i | 0 <= i < |tail| :: tail[i] == word[z - a + i];
    assert forall i | z - a <= i < |word| :: word[i] == tail[i - (z - a)];
  }

  lemma NextSymbol(s: string, z: nat, p: nat, size: nat)
    requires z <= p < |s| && InAlphabet(s[z..p]) && Digit(s[p]).Some? && Pow(58, |s| - z) <= Pow(256, size)
    ensures InAlphabet(s[z..p + 1])
    ensures var v := Times(58, Val(58, Numerals(s[z..p]))) + Digit(s[p]).value;
      Val(58, Numerals(s[z..p + 1])) == v < Pow(256, size)
  {
    hide Val, Times, Pow, Digit;
    var before, after := s[z..p], s[z..p + 1];
    assert after == before + [s[p]];
    var ds := Numerals(after);
    assert ds == Numerals(before) + [Digit(s[p]).value];
    NumeralsText(after);
    ValSnoc(58, Numerals(before), Digit(s[p]).value);
    TimesSwap(58, Val(58, Numerals(before)));
    ValBound(58, ds);
    PowExp(58, |ds|, |s| - z);
  }

  lemma ConvertWord(s: string, a: nat, z: nat, e: nat)
    requires a <= e <= |s| && z == SkipOnes(s, a) && e == WordEnd(s, a) && InAlphabet(s[a..e])
    ensures z <= e && InAlphabet(s[z..e])
    ensures Convert(58, 256, Numerals(s[a..e])) == Zeros(z - a) + Digits(256, Val(58, Numerals(s[z..e])))
  {
    hide Val, Digits, LeadingZeros, Convert, SkipOnes, WordEnd, Digit, Numerals, InAlphabet, Zeros;
    OnesAreZeros(s, a, e);
    ConvertedIs(58, 256, Numerals(s[a..e]));
    NumeralsFrom(s[a..e], z - a);
    assert s[a..e][z - a..] == s[z..e];
  }

  lemma NumeralsFrom(w: string, k: nat)
    requires InAlphabet(w) && k <= |w|
    ensures InAlphabet(w[k..]) && Numerals(w)[k..] == Numerals(w[k..])
  {
    hide Digit;
  }

  lemma DecodedWord(s: string, a: nat, e: nat)
    requires a == SkipSpaces(s, 0) && e == WordEnd(s, a)
    ensures Decoded(s) ==
      if InAlphabet(s[a..e]) && SkipSpaces(s, e) == |s| then Some(Convert(58, 256, Numerals(s[a..e]))) else None
  {
    hide Convert, SkipSpaces, WordEnd, Numerals, InAlphabet;
  }

  /** What the decoder has to return, in terms of the positions it passes. */
  lemma DecodedIs(s: string, a: nat, z: nat, e: nat)
    requires a == SkipSpaces(s, 0) && z == SkipOnes(s, a) && e == WordEnd(s, z)
    ensures Decoded(s) ==
      if InAlphabet(s[z..e]) && SkipSpaces(s, e) == |s|
      then Some(Zeros(z - a) + Digits(256, Val(58, Numerals(s[z..e]))))
      else None
  {
    hide Val, Digits, Convert, SkipSpaces, WordEnd, SkipOnes, Numerals, InAlphabet, Decoded, Zeros;
    OnesInWord(s, a);
    DecodedWord(s, a, e);
    AfterOnes(s, a, e);
    if InAlphabet(s[a..e]) {
      ConvertWord(s, a, z, e);
    }
  }

  method DecodeBase58(s: string) returns (r: Option<seq<nat>>)
    ensures r == Decoded(s)
  {
    hide Val, Pow, Times, Digits, InBase, Digit, Decoded, SkipSpaces, SkipOnes, WordEnd, Numerals, InAlphabet;
    var p := PassSpaces(s, 0);
    var zeroes := PassOnes(s, p);
    DecodedIs(s, p, p + zeroes, WordEnd(s, p + zeroes));
    p := p + zeroes;
    var size := (|s| - p) * 733 / 1000 + 1;
    DecodeBufferSuffices(|s| - p);
    var b256 := new nat[size](_ => 0);
    var ok;
    ok, p := Accumulate(s, p, b256);
    if !ok {
      return None;
    }
    p := PassSpaces(s, p);
    if p < |s| {
      return None;
    }
    var ds := Significant(b256, 256, 0);
    r := Some(Zeros(zeroes) + ds);
  }

  /** The loop over the characters of the word. */
  method Accumulate(s: string, z: nat, b256: array<nat>) returns (ok: bool, p: nat)
    requires z <= |s| && b256[..] == Zeros(b256.Length) && Pow(58, |s| - z) <= Pow(256, b256.Length)
    modifies b256
    ensures ok <==> InAlphabet(s[z..WordEnd(s, z)])
    ensures ok ==> p == WordEnd(s, z) && InBase(256, b256[..]) && Val(256, b256[..]) == Val(58, Numerals(s[z..p]))
  {
    p := z;
    ghost var e := WordEnd(s, z);
    assert s[z..p] == [];
    FreshBuffer(256, b256[..]);
    FreshBuffer(58, Numerals(s[z..p]));
    hide Val, Pow, Times, InBase, Digit, Numerals;
    while p < |s| && !IsSpace(s[p])
      invariant z <= p <= |s| && WordEnd(s, p) == e && InAlphabet(s[z..p])
      invariant InBase(256, b256[..]) && Val(256, b256[..]) == Val(58, Numerals(s[z..p]))
      decreases |s| - p
    {
      var d := Digit(s[p]);
      if d.None? {
        assert p < e;
        assert s[z..e][p - z] == s[p];
        return false, p;
      }
      NextSymbol(s, z, p, b256.Length);
      var carry, i := MulAdd(b256, 256, 58, d.value, b256.Length);
      assert carry == 0;
      p := p + 1;
    }
    ok := true;
  }

  /** Decoding a string object: what follows a terminator inside it is ignored. */
  method DecodeBase58String(s: string) returns (r: Option<seq<nat>>)
    ensures r == Decoded(CString(s))
    ensures InAlphabet(s) ==> r.Some? && IsBytes(r.value) && Encoded(r.value) == s
  {
    hide Decoded, Encoded;
    r := DecodeBase58(CString(s));
    if InAlphabet(s) {
      AlphabetIsCString(s);
      AlphabetDecodes(s);
      DecodeEncode(s);
    }
  }

  method PassSpaces(s: string, from: nat) returns (p: nat)
    requires from <= |s|
    ensures p == SkipSpaces(s, from)
  {
    p := from;
    while p < |s| && IsSpace(s[p])
      invariant p <= |s| && SkipSpaces(s, p) == SkipSpaces(s, from)
    {
      p := p + 1;
    }
  }

  method PassOnes(s: string, from: nat) returns (zeroes: nat)
    requires from <= |s|
    ensures from + zeroes == SkipOnes(s, from)
  {
    zeroes := 0;
    while from + zeroes < |s| && s[from + zeroes] == '1'
      invariant from + zeroes <= |s| && SkipOnes(s, from + zeroes) == SkipOnes(s, from)
    {
      zeroes := zeroes + 1;
    }
  }

  // ---------- With a checksum ----------

  /** The hash function returns 32 bytes for the data. */
  predicate IsHash(hash: seq<nat> -> seq<nat>, data: seq<nat>) {
    |hash(data)| == 32 && IsBytes(hash(data))
  }

  ghost predicate IsHasher(hash: seq<nat> -> seq<nat>) {
    forall data :: IsHash(hash, data)
  }

  /** The data followed by the first four bytes of its hash. */
  ghost function Guarded(hash: seq<nat> -> seq<nat>, data: seq<nat>): (r: seq<nat>)
    requires IsHasher(hash) && IsBytes(data)
    ensures IsBytes(r)
  {
    assert IsHash(hash, data);
    data + hash(data)[..4]
  }

  method EncodeBase58Check(hash: seq<nat> -> seq<nat>, data: seq<nat>) returns (str: string)
    requires IsHasher(hash) && IsBytes(data)
    ensures str == Encoded(Guarded(hash, data))
  {
    assert IsHash(hash, data);
    var vch := data + hash(data)[..4];
    str := EncodeBase58(vch);
  }

  /** The data in front of its checksum, if the checksum is right. */
  ghost function Unguarded(hash: seq<nat> -> seq<nat>, d: Option<seq<nat>>): Option<seq<nat>>
    requires IsHasher(hash)
  {
    if d.None? || |d.value| < 4 then None
    else
      var data := d.value[..|d.value| - 4];
      assert IsHash(hash, data);
      if hash(data)[..4] == d.value[|data|..] then Some(data) else None
  }

  method DecodeBase58Check(hash: seq<nat> -> seq<nat>, s: string) returns (r: Option<seq<nat>>)
    requires IsHasher(hash)
    ensures r == Unguarded(hash, Decoded(s))
  {
    hide Decoded;
    var d := DecodeBase58(s);
    if d.None? || |d.value| < 4 {
      return None;
    }
    var n := |d.value| - 4;
    assert IsHash(hash, d.value[..n]);
    if hash(d.value[..n])[..4] != d.value[n..] {
      return None;
    }
    r := Some(d.value[..n]);
  }

  /** A byte string is accepted exactly when it is data followed by its checksum, and the result is that data. */
  lemma UnguardedIs(hash: seq<nat> -> seq<nat>, bytes: seq<nat>, data: seq<nat>)
    requires IsHasher(hash) && IsBytes(bytes) && IsBytes(data)
    ensures Unguarded(hash, Some(bytes)) == Some(data) <==> bytes == Guarded(hash, data)
  {
    assert IsHash(hash, data);
    if bytes == Guarded(hash, data) {
      assert bytes[..|bytes| - 4] == data;
      assert bytes[|data|..] == hash(data)[..4];
    }
    if Unguarded(hash, Some(bytes)) == Some(data) {
      assert bytes == data + bytes[|data|..];
    }
  }

  /** What `EncodeBase58Check` writes, `DecodeBase58Check` reads. */
  lemma CheckedRoundTrip(hash: seq<nat> -> seq<nat>, data: seq<nat>)
    requires IsHasher(hash) && IsBytes(data)
    ensures Unguarded(hash, Decoded(Encoded(Guarded(hash, data)))) == Some(data)
  {
    hide Decoded, Encoded;
    EncodeDecode(Guarded(hash, data));
    UnguardedIs(hash, Guarded(hash, data), data);
  }

  /** A text over the alphabet that `DecodeBase58Check` accepts is the one that `EncodeBase58Check` writes. */
  lemma CheckedUnique(hash: seq<nat> -> seq<nat>, s: string, data: seq<nat>)
    requires IsHasher(hash) && InAlphabet(s) && Unguarded(hash, Decoded(s)) == Some(data)
    ensures IsBytes(data) && s == Encoded(Guarded(hash, data))
  {
    hide Decoded, Encoded;
    DecodeEncode(s);
    var bytes := Decoded(s).value;
    assert data == bytes[..|bytes| - 4];
    UnguardedIs(hash, bytes, data);
  }
}

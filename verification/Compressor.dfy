/**
 The compact form of a transaction output: the compressed amount, then the script, which is cut down to its hash or
 key where it has one of six common shapes. The curve arithmetic behind public keys is a parameter.
 */
module Compressor {
  import opened Options
  import opened Numbers
  import opened Coins
  import opened VarInts
  import opened Amounts

  const SPECIAL_SCRIPTS := 6
  const MAX_SCRIPT_SIZE := 10000

  const OP_RETURN := 0x6a
  const OP_DUP := 0x76
  const OP_EQUAL := 0x87
  const OP_EQUALVERIFY := 0x88
  const OP_HASH160 := 0xa9
  const OP_CHECKSIG := 0xac

  /** Whether 65 bytes are a point of the curve, and the point that 33 bytes stand for. */
  datatype Curve = Curve(isFullyValid: Bytes -> bool, decompress: Bytes -> Option<Bytes>)

  /** A valid key is found again from its first coordinate and the parity of its second. */
  ghost predicate Sound(curve: Curve) {
    forall key: Bytes | |key| == 65 && key[0] == 4 && curve.isFullyValid(key) :: Recovers(curve, key)
  }

  ghost predicate Recovers(curve: Curve, key: Bytes)
    requires |key| == 65
  {
    curve.decompress([2 + key[64] % 2] + key[1..33]) == Some(key)
  }

  // ---------- Scripts ----------

  predicate IsToKeyID(s: Bytes) {
    |s| == 25 && s[0] == OP_DUP && s[1] == OP_HASH160 && s[2] == 20 && s[23] == OP_EQUALVERIFY && s[24] == OP_CHECKSIG
  }

  predicate IsToScriptID(s: Bytes) {
    |s| == 23 && s[0] == OP_HASH160 && s[1] == 20 && s[22] == OP_EQUAL
  }

  predicate IsToShortKey(s: Bytes) {
    |s| == 35 && s[0] == 33 && s[34] == OP_CHECKSIG && (s[1] == 2 || s[1] == 3)
  }

  predicate IsToLongKey(curve: Curve, s: Bytes) {
    |s| == 67 && s[0] == 65 && s[66] == OP_CHECKSIG && s[1] == 4 && curve.isFullyValid(s[1..66])
  }

  /** `Compress`. */
  function Shortened(curve: Curve, s: Bytes): Option<Bytes> {
    if IsToKeyID(s) then Some([0] + s[3..23])
    else if IsToScriptID(s) then Some([1] + s[2..22])
    else if IsToShortKey(s) then Some([s[1]] + s[2..34])
    else if IsToLongKey(curve, s) then Some([4 + s[65] % 2] + s[2..34])
    else None
  }

  function WrittenScript(curve: Curve, s: Bytes): Bytes {
    var short := Shortened(curve, s);
    if short.Some? then short.value else VarInt(|s| + SPECIAL_SCRIPTS) + s
  }

  function SpecialSize(kind: nat): nat {
    if kind < 2 then 20 else 32
  }

  /** `Decompress` into an empty script, which stays empty where the key is not on the curve. */
  function Lengthened(curve: Curve, kind: nat, data: Bytes): Bytes
    requires kind < SPECIAL_SCRIPTS
  {
    if kind == 0 then [OP_DUP, OP_HASH160, 20] + data + [OP_EQUALVERIFY, OP_CHECKSIG]
    else if kind == 1 then [OP_HASH160, 20] + data + [OP_EQUAL]
    else if kind < 4 then [33, kind] + data + [OP_CHECKSIG]
    else
      var key := curve.decompress([kind - 2] + data);
      if key.None? then [] else [65] + key.value + [OP_CHECKSIG]
  }

  function ReadScript(curve: Curve, s: Bytes): Option<Read<Bytes>> {
    var n := ReadFrom(0, s);
    if n.None? then None
    else if n.value.value < SPECIAL_SCRIPTS then ReadSpecial(curve, n.value.value, n.value.rest)
    else ReadPlain(n.value.value - SPECIAL_SCRIPTS, n.value.rest)
  }

  function ReadSpecial(curve: Curve, kind: nat, s: Bytes): Option<Read<Bytes>>
    requires kind < SPECIAL_SCRIPTS
  {
    var size := SpecialSize(kind);
    if |s| < size then None else Some(Read(Lengthened(curve, kind, s[..size]), s[size..]))
  }

  /** An overlong script is skipped and replaced by a short one that cannot be spent. */
  function ReadPlain(size: nat, s: Bytes): Option<Read<Bytes>> {
    if |s| < size then None else Some(Read(if size > MAX_SCRIPT_SIZE then [OP_RETURN] else s[..size], s[size..]))
  }

  lemma ReadSpecialBack(curve: Curve, kind: nat, data: Bytes, s: Bytes)
    requires kind < SPECIAL_SCRIPTS && |data| == SpecialSize(kind)
    ensures ReadScript(curve, [kind] + data + s) == Some(Read(Lengthened(curve, kind, data), s))
  {
    hide Lengthened;
    var t := data + s;
    assert [kind] + data + s == [kind] + t && ([kind] + t)[1..] == t;
    assert t[..|data|] == data && t[|data|..] == s;
  }

  lemma ReadPlainBack(curve: Curve, script: Bytes, s: Bytes)
    ensures ReadScript(curve, VarInt(|script| + SPECIAL_SCRIPTS) + script + s) == ReadPlain(|script|, script + s)
  {
    hide ReadFrom, VarInt, ReadPlain;
    var head := VarInt(|script| + SPECIAL_SCRIPTS);
    assert head + script + s == head + (script + s);
    ReadVarIntBack(|script| + SPECIAL_SCRIPTS, script + s);
  }

  /** A shortened script is lengthened again, whichever shape it has. */
  lemma LengthenedShortened(curve: Curve, script: Bytes)
    requires Sound(curve) && Shortened(curve, script).Some?
    ensures var short := Shortened(curve, script).value;
      && |short| == 1 + SpecialSize(short[0]) && short[0] < SPECIAL_SCRIPTS
      && Lengthened(curve, short[0], short[1..]) == script
  {
    if IsToKeyID(script) {
      assert script == [OP_DUP, OP_HASH160, 20] + script[3..23] + [OP_EQUALVERIFY, OP_CHECKSIG];
    } else if IsToScriptID(script) {
      assert script == [OP_HASH160, 20] + script[2..22] + [OP_EQUAL];
    } else if IsToShortKey(script) {
      assert script == [33, script[1]] + script[2..34] + [OP_CHECKSIG];
    } else {
      LongKeyBack(curve, script);
    }
  }

  lemma LongKeyBack(curve: Curve, script: Bytes)
    requires Sound(curve) && IsToLongKey(curve, script)
    ensures Lengthened(curve, 4 + script[65] % 2, script[2..34]) == script
  {
    var key := script[1..66];
    assert Recovers(curve, key);
    assert key[1..33] == script[2..34] && key[64] == script[65];
    assert script == [65] + key + [OP_CHECKSIG];
  }

  /** The script that comes back: the same one, unless it is overlong. */
  function Kept(script: Bytes): Bytes {
    if |script| > MAX_SCRIPT_SIZE then [OP_RETURN] else script
  }

  /** Reading a script consumes exactly what was written. */
  lemma ReadScriptBack(curve: Curve, script: Bytes, s: Bytes)
    requires Sound(curve)
    ensures ReadScript(curve, WrittenScript(curve, script) + s) == Some(Read(Kept(script), s))
  {
    hide ReadScript, VarInt, Lengthened, Sound;
    var short := Shortened(curve, script);
    if short.Some? {
      LengthenedShortened(curve, script);
      assert short.value == [short.value[0]] + short.value[1..];
      ReadSpecialBack(curve, short.value[0], short.value[1..], s);
      ShortIsShort(curve, script);
    } else {
      ReadPlainBack(curve, script, s);
      assert (script + s)[..|script|] == script && (script + s)[|script|..] == s;
    }
  }

  lemma ShortIsShort(curve: Curve, script: Bytes)
    requires Shortened(curve, script).Some?
    ensures |script| <= 67
  {
  }

  // ---------- What is written ----------

  /** The script that pays to the hash of a key. */
  function ToKeyHash(d: Bytes): Bytes {
    [OP_DUP, OP_HASH160, 20] + d + [OP_EQUALVERIFY, OP_CHECKSIG]
  }

  /** The script that pays to the hash of a script. */
  function ToScriptHash(d: Bytes): Bytes {
    [OP_HASH160, 20] + d + [OP_EQUAL]
  }

  /** The script that pays to a key. */
  function ToKey(key: Bytes): Bytes {
    [|key|] + key + [OP_CHECKSIG]
  }

  predicate IsShortKey(key: Bytes) {
    |key| == 33 && (key[0] == 2 || key[0] == 3)
  }

  predicate IsLongKey(curve: Curve, key: Bytes) {
    |key| == 65 && key[0] == 4 && curve.isFullyValid(key)
  }

  /** A key hash is written in 21 bytes. */
  lemma KeyHashWritten(curve: Curve, d: Bytes)
    requires |d| == 20
    ensures WrittenScript(curve, ToKeyHash(d)) == [0] + d
  {
    assert ToKeyHash(d)[3..23] == d;
  }

  /** A script hash is written in 21 bytes. */
  lemma ScriptHashWritten(curve: Curve, d: Bytes)
    requires |d| == 20
    ensures WrittenScript(curve, ToScriptHash(d)) == [1] + d
  {
    assert ToScriptHash(d)[2..22] == d;
  }

  /** A compressed key is written as it is. */
  lemma ShortKeyWritten(curve: Curve, key: Bytes)
    requires IsShortKey(key)
    ensures WrittenScript(curve, ToKey(key)) == key
  {
    var s := ToKey(key);
    assert s[1] == key[0] && s[2..34] == key[1..];
    assert key == [key[0]] + key[1..];
  }

  /** Of a valid uncompressed key only the first coordinate and the parity of the second are written. */
  lemma LongKeyWritten(curve: Curve, key: Bytes)
    requires IsLongKey(curve, key)
    ensures WrittenScript(curve, ToKey(key)) == [4 + key[64] % 2] + key[1..33]
  {
    var s := ToKey(key);
    assert s[1..66] == key && s[2..34] == key[1..33] && s[65] == key[64];
  }

  /** The scripts that have a short form. */
  ghost predicate IsSpecial(curve: Curve, script: Bytes) {
    || (exists d :: |d| == 20 && script == ToKeyHash(d))
    || (exists d :: |d| == 20 && script == ToScriptHash(d))
    || (exists key :: (IsShortKey(key) || IsLongKey(curve, key)) && script == ToKey(key))
  }

  /** Exactly these are shortened. */
  lemma ShortenedExactly(curve: Curve, script: Bytes)
    ensures Shortened(curve, script).Some? <==> IsSpecial(curve, script)
  {
    if IsToKeyID(script) {
      assert script == ToKeyHash(script[3..23]);
    } else if IsToScriptID(script) {
      assert script == ToScriptHash(script[2..22]);
    } else if IsToShortKey(script) {
      assert script == ToKey(script[1..34]) && IsShortKey(script[1..34]);
    } else if IsToLongKey(curve, script) {
      assert script == ToKey(script[1..66]) && IsLongKey(curve, script[1..66]);
    } else {
      NotSpecial(curve, script);
    }
  }

  lemma NotSpecial(curve: Curve, script: Bytes)
    requires Shortened(curve, script).None?
    ensures !IsSpecial(curve, script)
  {
    forall d: Bytes | |d| == 20
      ensures script != ToKeyHash(d) && script != ToScriptHash(d)
    {
    }
    forall key | IsShortKey(key) || IsLongKey(curve, key)
      ensures script != ToKey(key)
    {
      if |key| == 65 {
        assert ToKey(key)[1..66] == key;
      }
    }
  }

  /** Every other script is written as its length plus six, then itself. */
  lemma OtherWritten(curve: Curve, script: Bytes)
    requires !IsSpecial(curve, script)
    ensures WrittenScript(curve, script) == VarInt(|script| + 6) + script
  {
    ShortenedExactly(curve, script);
  }

  // ---------- Outputs ----------

  /** A 64-bit word read as a signed amount. */
  function Signed(x: nat): int {
    if x < U64 / 2 then x else x - U64
  }

  predicate IsAmount(n: int) {
    -(U64 / 2) <= n < U64 / 2
  }

  function WrittenOut(curve: Curve, o: TxOut): Bytes {
    VarInt(Wrap(Compress(Wrap(o.nValue)))) + WrittenScript(curve, o.script)
  }

  function ReadOut(curve: Curve, s: Bytes): Option<Read<TxOut>> {
    var n := ReadFrom(0, s);
    if n.None? then None else
    var script := ReadScript(curve, n.value.rest);
    if script.None? then None else
    Some(Read(TxOut(Signed(Wrap(Decompress(Wrap(n.value.value)))), script.value.value), script.value.rest))
  }

  /** The output that comes back. */
  function ReturnedOut(o: TxOut): TxOut {
    TxOut(Signed(Wrap(Decompress(Wrap(Compress(Wrap(o.nValue)))))), Kept(o.script))
  }

  lemma WrapAgain(x: nat)
    ensures Wrap(Wrap(x)) == Wrap(x)
  {
  }

  /** Reading an output consumes exactly what was written. */
  lemma ReadOutBack(curve: Curve, o: TxOut, s: Bytes)
    requires Sound(curve)
    ensures ReadOut(curve, WrittenOut(curve, o) + s) == Some(Read(ReturnedOut(o), s))
  {
    hide ReadFrom, VarInt, ReadScript, WrittenScript, Compress, Decompress, Wrap, Signed, Kept, Sound;
    var x, script := Wrap(Compress(Wrap(o.nValue))), WrittenScript(curve, o.script);
    assert WrittenOut(curve, o) + s == VarInt(x) + (script + s);
    ReadVarIntBack(x, script + s);
    WrapAgain(Compress(Wrap(o.nValue)));
    ReadScriptBack(curve, o.script, s);
  }

  /** What an output must be like to come back: its compressed amount fits 64 bits and its script is not overlong. */
  predicate Survives(o: TxOut) {
    CompressedFits(Wrap(o.nValue)) && |o.script| <= MAX_SCRIPT_SIZE
  }

  lemma SignedWrap(n: int, x: nat)
    requires IsAmount(n) && x < U64
    ensures Wrap(n) < U64 && (Signed(x) == n <==> x == Wrap(n))
  {
  }

  lemma ReturnedExactly(o: TxOut)
    requires IsAmount(o.nValue)
    ensures ReturnedOut(o) == o <==> Survives(o)
  {
    var x := Wrap(Decompress(Wrap(Compress(Wrap(o.nValue)))));
    hide Compress, Decompress, CompressedFits;
    SignedWrap(o.nValue, x);
    hide Wrap, Signed;
    RoundTripExactly(Wrap(o.nValue));
  }

  /** The largest amount of money, which the range check on amounts lets through. */
  const LARGEST := TxOut(0x7FFF_FFFF_FFFF_FFFF, [])

  lemma LargestLost()
    ensures IsAmount(LARGEST.nValue) && !LARGEST.IsNull() && !Survives(LARGEST)
  {
  }
}

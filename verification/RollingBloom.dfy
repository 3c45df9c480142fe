/**
 The rolling bloom filter: a table of two-bit cells, each empty or carrying the number 1, 2 or 3 of the generation that
 wrote it last. The two bits of a cell are kept in two neighbouring words.
 */
module RollingBloom {
  import opened Numbers

  // ---------- Bits ----------

  predicate Bit(w: bv64, b: bv6) {
    (w >> b) & 1 == 1
  }

  function And(v: bv64, w: bv64): bv64 {
    v & w
  }

  function Or(v: bv64, w: bv64): bv64 {
    v | w
  }

  function Xor(v: bv64, w: bv64): bv64 {
    v ^ w
  }

  function Not(w: bv64): bv64 {
    !w
  }

  lemma PlainAnd(v: bv64, w: bv64, c: bv6)
    ensures Bit(v & w, c) <==> Bit(v, c) && Bit(w, c)
  {
  }

  lemma BitAnd(v: bv64, w: bv64, c: bv6)
    ensures Bit(And(v, w), c) <==> Bit(v, c) && Bit(w, c)
  {
    hide Bit;
    PlainAnd(v, w, c);
  }

  lemma PlainOr(v: bv64, w: bv64, c: bv6)
    ensures Bit(v | w, c) <==> Bit(v, c) || Bit(w, c)
  {
  }

  lemma BitOr(v: bv64, w: bv64, c: bv6)
    ensures Bit(Or(v, w), c) <==> Bit(v, c) || Bit(w, c)
  {
    hide Bit;
    PlainOr(v, w, c);
  }

  lemma PlainXor(v: bv64, w: bv64, c: bv6)
    ensures Bit(v ^ w, c) <==> Bit(v, c) != Bit(w, c)
  {
  }

  lemma BitXor(v: bv64, w: bv64, c: bv6)
    ensures Bit(Xor(v, w), c) <==> Bit(v, c) != Bit(w, c)
  {
    hide Bit;
    PlainXor(v, w, c);
  }

  lemma BitNot(w: bv64, c: bv6)
    ensures Bit(Not(w), c) <==> !Bit(w, c)
  {
  }

  function Shifted(on: bool, b: bv6): bv64 {
    (if on then 1 else 0) << b
  }

  lemma BitShifted(on: bool, b: bv6, c: bv6)
    ensures Bit(Shifted(on, b), c) <==> on && b == c
  {
  }

  /** All ones or all zeros. */
  function Mask(on: bool): bv64 {
    if on then 0xFFFF_FFFF_FFFF_FFFF else 0
  }

  lemma BitMask(on: bool, c: bv6)
    ensures Bit(Mask(on), c) <==> on
  {
  }

  /** Clearing a bit and or-ing in another. */
  function WithBit(w: bv64, b: bv6, on: bool): bv64 {
    Or(And(w, Not(Shifted(true, b))), Shifted(on, b))
  }

  lemma BitOfWithBit(w: bv64, b: bv6, on: bool, c: bv6)
    ensures Bit(WithBit(w, b, on), c) <==> if b == c then on else Bit(w, c)
  {
    hide Bit, Shifted, And, Or, Not;
    BitOr(And(w, Not(Shifted(true, b))), Shifted(on, b), c);
    BitAnd(w, Not(Shifted(true, b)), c);
    BitNot(Shifted(true, b), c);
    BitShifted(true, b, c);
    BitShifted(on, b, c);
  }

  function Survivors(p1: bv64, p2: bv64, on1: bool, on2: bool): bv64 {
    Or(Xor(p1, Mask(on1)), Xor(p2, Mask(on2)))
  }

  lemma BitOfSurvivors(p1: bv64, p2: bv64, on1: bool, on2: bool, c: bv6)
    ensures Bit(Survivors(p1, p2, on1, on2), c) <==> Bit(p1, c) != on1 || Bit(p2, c) != on2
  {
    hide Bit, Mask, Or, Xor;
    BitOr(Xor(p1, Mask(on1)), Xor(p2, Mask(on2)), c);
    BitXor(p1, Mask(on1), c);
    BitXor(p2, Mask(on2), c);
    BitMask(on1, c);
    BitMask(on2, c);
  }

  // ---------- Cells ----------

  /** The words, an even number of them. */
  predicate IsTable(data: seq<bv64>) {
    |data| > 0 && |data| % 2 == 0
  }

  /** What a cell holds: 0 for nothing, otherwise the number of a generation. */
  function Cell(data: seq<bv64>, pos: nat, b: bv6): nat
    requires IsTable(data) && pos < |data|
  {
    (if Bit(data[pos / 2 * 2], b) then 1 else 0) + if Bit(data[pos / 2 * 2 + 1], b) then 2 else 0
  }

  lemma CellEither(data: seq<bv64>, pos: nat, b: bv6)
    requires IsTable(data) && pos < |data|
    ensures Bit(Or(data[pos / 2 * 2], data[pos / 2 * 2 + 1]), b) <==> Cell(data, pos, b) != 0
  {
    hide Bit, Or;
    BitOr(data[pos / 2 * 2], data[pos / 2 * 2 + 1], b);
  }

  predicate IsGeneration(g: nat) {
    1 <= g <= 3
  }

  function Marked(data: seq<bv64>, pos: nat, b: bv6, g: nat): (r: seq<bv64>)
    requires IsTable(data) && pos < |data|
    ensures IsTable(r) && |r| == |data|
  {
    var p := pos / 2 * 2;
    data[p := WithBit(data[p], b, g % 2 == 1)][p + 1 := WithBit(data[p + 1], b, g / 2 == 1)]
  }

  lemma CellMarked(data: seq<bv64>, pos: nat, b: bv6, g: nat, at: nat, c: bv6)
    requires IsTable(data) && pos < |data| && at < |data| && IsGeneration(g)
    ensures Cell(Marked(data, pos, b, g), at, c) == if at / 2 == pos / 2 && b == c then g else Cell(data, at, c)
  {
    hide Bit, WithBit;
    BitOfWithBit(data[pos / 2 * 2], b, g % 2 == 1, c);
    BitOfWithBit(data[pos / 2 * 2 + 1], b, g / 2 == 1, c);
  }

  /** A pair of words with every cell of one generation emptied. */
  function PairWiped(data: seq<bv64>, p: nat, g: nat): (r: seq<bv64>)
    requires IsTable(data) && p + 1 < |data|
    ensures IsTable(r) && |r| == |data|
  {
    var mask := Survivors(data[p], data[p + 1], g % 2 == 1, g / 2 == 1);
    data[p := And(data[p], mask)][p + 1 := And(data[p + 1], mask)]
  }

  lemma CellPairWiped(data: seq<bv64>, p: nat, g: nat, at: nat, c: bv6)
    requires IsTable(data) && p < |data| && p % 2 == 0 && at < |data| && IsGeneration(g)
    ensures Cell(PairWiped(data, p, g), at, c) ==
      if at / 2 * 2 == p && Cell(data, at, c) == g then 0 else Cell(data, at, c)
  {
    hide Bit, Survivors, And;
    var mask := Survivors(data[p], data[p + 1], g % 2 == 1, g / 2 == 1);
    BitOfSurvivors(data[p], data[p + 1], g % 2 == 1, g / 2 == 1, c);
    BitAnd(data[p], mask, c);
    BitAnd(data[p + 1], mask, c);
  }

  /** The pairs from p on, wiped one after the other. */
  function WipedFrom(data: seq<bv64>, g: nat, p: nat): (r: seq<bv64>)
    requires IsTable(data) && p <= |data| && p % 2 == 0
    ensures IsTable(r) && |r| == |data|
    decreases |data| - p
  {
    if p == |data| then data else WipedFrom(PairWiped(data, p, g), g, p + 2)
  }

  lemma {:induction false} CellWiped(data: seq<bv64>, g: nat, p: nat, at: nat, c: bv6)
    requires IsTable(data) && p <= |data| && p % 2 == 0 && at < |data| && IsGeneration(g)
    ensures Cell(WipedFrom(data, g, p), at, c) ==
      if at / 2 * 2 >= p && Cell(data, at, c) == g then 0 else Cell(data, at, c)
    decreases |data| - p
  {
    if p < |data| {
      hide Cell, PairWiped;
      CellWiped(PairWiped(data, p, g), g, p + 2, at, c);
      CellPairWiped(data, p, g, at, c);
    }
  }

  // ---------- Inserting ----------

  type Key = seq<nat>

  /** A hash, as the number above its six low bits and those six bits. */
  datatype Spot = Spot(high: nat, bit: bv6)

  /** What stays fixed between resets; `hash` takes the number of the hash function, the tweak and the key. */
  datatype Config = Config(perGeneration: nat, hashFuncs: nat, tweak: nat, hash: (nat, nat, Key) -> Spot)

  datatype State = State(data: seq<bv64>, generation: nat, entries: nat)

  predicate IsState(s: State) {
    IsTable(s.data) && IsGeneration(s.generation)
  }

  function Pos(cfg: Config, size: nat, key: Key, n: nat): (p: nat)
    requires size > 0
    ensures p < size
  {
    cfg.hash(n, cfg.tweak, key).high % size
  }

  function BitOf(cfg: Config, key: Key, n: nat): bv6 {
    cfg.hash(n, cfg.tweak, key).bit
  }

  /** The cell of a key under one hash function. */
  function KeyCell(cfg: Config, data: seq<bv64>, key: Key, n: nat): nat
    requires IsTable(data)
  {
    Cell(data, Pos(cfg, |data|, key, n), BitOf(cfg, key, n))
  }

  /** The table after writing the cells of the first n hash functions. */
  function MarkedUpTo(cfg: Config, data: seq<bv64>, g: nat, key: Key, n: nat): (r: seq<bv64>)
    requires IsTable(data)
    ensures IsTable(r) && |r| == |data|
  {
    if n == 0 then data
    else Marked(MarkedUpTo(cfg, data, g, key, n - 1), Pos(cfg, |data|, key, n - 1), BitOf(cfg, key, n - 1), g)
  }

  function NextGeneration(g: nat): nat {
    if g + 1 == 4 then 1 else g + 1
  }

  /** A full generation gives way to the next, whose old entries are wiped. */
  function Turned(cfg: Config, s: State): (t: State)
    requires IsState(s)
    ensures IsState(t) && |t.data| == |s.data|
  {
    if s.entries == cfg.perGeneration then
      var g := NextGeneration(s.generation);
      State(WipedFrom(s.data, g, 0), g, 0)
    else s
  }

  function Inserted(cfg: Config, s: State, key: Key): (t: State)
    requires IsState(s)
    ensures IsState(t) && |t.data| == |s.data|
  {
    var u := Turned(cfg, s);
    State(MarkedUpTo(cfg, u.data, u.generation, key, cfg.hashFuncs), u.generation, u.entries + 1)
  }

  /** The answer of `contains`. */
  predicate MayContain(cfg: Config, s: State, key: Key)
    requires IsState(s)
  {
    forall n: nat | n < cfg.hashFuncs :: KeyCell(cfg, s.data, key, n) != 0
  }

  // ---------- Which cells are set ----------

  /** How many generations ago a cell was written. */
  function Age(g: nat, cell: nat): nat {
    (g + 3 - cell) % 3
  }

  /** The cell was written at most j generations ago. */
  predicate Written(s: State, at: nat, c: bv6, j: nat)
    requires IsState(s) && at < |s.data|
  {
    var cell := Cell(s.data, at, c);
    cell != 0 && Age(s.generation, cell) <= j
  }

  /** The key has the cell under one of the first n hash functions. */
  predicate Hits(cfg: Config, size: nat, key: Key, n: nat, at: nat, c: bv6)
    requires size > 0
  {
    exists m: nat | m < n :: Pos(cfg, size, key, m) / 2 == at / 2 && BitOf(cfg, key, m) == c
  }

  /** Inserting writes exactly the cells of the key. */
  lemma {:induction false} CellMarkedUpTo(cfg: Config, data: seq<bv64>, g: nat, key: Key, n: nat, at: nat, c: bv6)
    requires IsTable(data) && at < |data| && IsGeneration(g)
    ensures Cell(MarkedUpTo(cfg, data, g, key, n), at, c) ==
      if Hits(cfg, |data|, key, n, at, c) then g else Cell(data, at, c)
  {
    hide Cell, Marked, MarkedUpTo, Pos, BitOf, Hits;
    if n == 0 {
      NothingMarked(cfg, data, g, key, at, c);
    } else {
      CellMarkedUpTo(cfg, data, g, key, n - 1, at, c);
      MarkedNext(cfg, data, g, key, n - 1);
      HitsNext(cfg, |data|, key, n - 1, at, c);
      CellMarked(MarkedUpTo(cfg, data, g, key, n - 1), Pos(cfg, |data|, key, n - 1), BitOf(cfg, key, n - 1), g, at, c);
    }
  }

  lemma NothingMarked(cfg: Config, data: seq<bv64>, g: nat, key: Key, at: nat, c: bv6)
    requires IsTable(data)
    ensures MarkedUpTo(cfg, data, g, key, 0) == data && !Hits(cfg, |data|, key, 0, at, c)
  {
  }

  lemma MarkedNext(cfg: Config, data: seq<bv64>, g: nat, key: Key, n: nat)
    requires IsTable(data)
    ensures MarkedUpTo(cfg, data, g, key, n + 1) ==
      Marked(MarkedUpTo(cfg, data, g, key, n), Pos(cfg, |data|, key, n), BitOf(cfg, key, n), g)
  {
    hide Marked, Pos, BitOf;
  }

  lemma HitsNext(cfg: Config, size: nat, key: Key, n: nat, at: nat, c: bv6)
    requires size > 0
    ensures Hits(cfg, size, key, n + 1, at, c) <==>
      Hits(cfg, size, key, n, at, c) || (Pos(cfg, size, key, n) / 2 == at / 2 && BitOf(cfg, key, n) == c)
  {
    hide Pos, BitOf;
  }

  lemma CellRange(data: seq<bv64>, at: nat, c: bv6)
    requires IsTable(data) && at < |data|
    ensures Cell(data, at, c) == 0 || IsGeneration(Cell(data, at, c))
  {
    hide Bit;
  }

  /** A turn makes every cell one generation older, and empties those that would be three generations old. */
  lemma WrittenAfterTurn(cfg: Config, s: State, at: nat, c: bv6, j: nat)
    requires IsState(s) && s.entries == cfg.perGeneration && at < |s.data| && j <= 2
    ensures Written(Turned(cfg, s), at, c, j) <==> j > 0 && Written(s, at, c, j - 1)
  {
    CellRange(s.data, at, c);
    hide Cell, WipedFrom;
    CellWiped(s.data, NextGeneration(s.generation), 0, at, c);
  }

  /** An insert renews exactly the cells of its key. */
  lemma WrittenAfterInsert(cfg: Config, s: State, key: Key, at: nat, c: bv6, j: nat)
    requires IsState(s) && at < |s.data|
    ensures Written(Inserted(cfg, s, key), at, c, j) <==>
      Hits(cfg, |s.data|, key, cfg.hashFuncs, at, c) || Written(Turned(cfg, s), at, c, j)
  {
    var u := Turned(cfg, s);
    hide Cell, Turned, MarkedUpTo, Hits;
    CellMarkedUpTo(cfg, u.data, u.generation, key, cfg.hashFuncs, at, c);
  }

  function Fresh(size: nat): State {
    State(seq(size, _ => 0), 1, 0)
  }

  /** The state after a reset and a run of inserts. */
  function Run(cfg: Config, size: nat, keys: seq<Key>): (s: State)
    requires size > 0 && size % 2 == 0
    ensures IsState(s) && |s.data| == size
  {
    if keys == [] then Fresh(size)
    else Inserted(cfg, Run(cfg, size, keys[..|keys| - 1]), keys[|keys| - 1])
  }

  /** The number of inserts in j full generations. */
  function Span(cfg: Config, j: nat): nat {
    j * cfg.perGeneration
  }

  /** A key from index `from` on has the cell. */
  predicate HitSince(cfg: Config, size: nat, keys: seq<Key>, from: int, at: nat, c: bv6)
    requires size > 0
  {
    exists i: nat | from <= i < |keys| :: Hits(cfg, size, keys[i], cfg.hashFuncs, at, c)
  }

  lemma HitSinceNext(cfg: Config, size: nat, keys: seq<Key>, key: Key, from: int, at: nat, c: bv6)
    requires size > 0 && from <= |keys|
    ensures HitSince(cfg, size, keys + [key], from, at, c) <==>
      Hits(cfg, size, key, cfg.hashFuncs, at, c) || HitSince(cfg, size, keys, from, at, c)
  {
    hide Hits;
    var all := keys + [key];
    if Hits(cfg, size, key, cfg.hashFuncs, at, c) {
      assert all[|keys|] == key;
    }
    if HitSince(cfg, size, keys, from, at, c) {
      var i: nat :| from <= i < |keys| && Hits(cfg, size, keys[i], cfg.hashFuncs, at, c);
      assert all[i] == keys[i];
    }
  }

  /** In every run a cell was written at most j generations ago exactly when a key of those generations has it. */
  lemma {:induction false} RunWritten(cfg: Config, size: nat, keys: seq<Key>, at: nat, c: bv6, j: nat)
    requires size > 0 && size % 2 == 0 && at < size && j <= 2
    ensures var s := Run(cfg, size, keys);
      Written(s, at, c, j) <==> HitSince(cfg, size, keys, |keys| - s.entries - Span(cfg, j), at, c)
  {
    hide Written, HitSince, Run, Inserted, Span;
    if keys == [] {
      FreshWritten(cfg, size, at, c, j);
    } else {
      var before, key := keys[..|keys| - 1], keys[|keys| - 1];
      RunWritten(cfg, size, before, at, c, j);
      if j > 0 {
        RunWritten(cfg, size, before, at, c, j - 1);
      }
      RunStep(cfg, size, keys);
      assert before + [key] == keys;
      WrittenNext(cfg, Run(cfg, size, before), before, key, at, c, j);
    }
  }

  lemma FreshWritten(cfg: Config, size: nat, at: nat, c: bv6, j: nat)
    requires size > 0 && size % 2 == 0 && at < size
    ensures !Written(Run(cfg, size, []), at, c, j) && forall from :: !HitSince(cfg, size, [], from, at, c)
  {
    ZeroCell(size, at, c);
    hide Cell;
  }

  lemma SpanNext(cfg: Config, j: nat)
    requires j > 0
    ensures Span(cfg, j) == Span(cfg, j - 1) + cfg.perGeneration
  {
  }

  lemma WrittenNext(cfg: Config, s: State, keys: seq<Key>, key: Key, at: nat, c: bv6, j: nat)
    requires IsState(s) && at < |s.data| && j <= 2
    requires Written(s, at, c, j) <==> HitSince(cfg, |s.data|, keys, |keys| - s.entries - Span(cfg, j), at, c)
    requires j > 0 ==>
      (Written(s, at, c, j - 1) <==> HitSince(cfg, |s.data|, keys, |keys| - s.entries - Span(cfg, j - 1), at, c))
    ensures var t, all := Inserted(cfg, s, key), keys + [key];
      Written(t, at, c, j) <==> HitSince(cfg, |s.data|, all, |all| - t.entries - Span(cfg, j), at, c)
  {
    var u := Turned(cfg, s);
    assert Inserted(cfg, s, key).entries == u.entries + 1;
    assert u.entries == if s.entries == cfg.perGeneration then 0 else s.entries;
    assert Span(cfg, 0) == 0;
    if s.entries == cfg.perGeneration {
      WrittenAfterTurn(cfg, s, at, c, j);
      if j > 0 {
        SpanNext(cfg, j);
      } else {
        assert !HitSince(cfg, |s.data|, keys, |keys|, at, c);
      }
    } else {
      assert u == s;
    }
    hide Written, Hits, HitSince, Turned, Inserted, Span;
    assert Written(u, at, c, j) <==> HitSince(cfg, |s.data|, keys, |keys| - u.entries - Span(cfg, j), at, c);
    WrittenAfterInsert(cfg, s, key, at, c, j);
    HitSinceNext(cfg, |s.data|, keys, key, |keys| - u.entries - Span(cfg, j), at, c);
  }

  /** How many of n inserts are in the current generation. */
  function EntriesAfter(cfg: Config, n: nat): nat {
    if n == 0 then 0 else if cfg.perGeneration == 0 then n else (n - 1) % cfg.perGeneration + 1
  }

  lemma {:induction false} RunEntries(cfg: Config, size: nat, keys: seq<Key>)
    requires size > 0 && size % 2 == 0
    ensures Run(cfg, size, keys).entries == EntriesAfter(cfg, |keys|)
  {
    if keys != [] {
      RunEntries(cfg, size, keys[..|keys| - 1]);
      RunStep(cfg, size, keys);
      var s := Run(cfg, size, keys[..|keys| - 1]);
      hide MarkedUpTo, WipedFrom, Run;
      if |keys| > 1 && cfg.perGeneration > 0 {
        NextRemainder(|keys| - 2, cfg.perGeneration);
      }
    }
  }

  lemma NextRemainder(n: nat, p: nat)
    requires p > 0
    ensures (n + 1) % p == if n % p + 1 == p then 0 else n % p + 1
  {
    var q, r := n / p, n % p;
    assert n + 1 == q * p + (r + 1);
    if r + 1 == p {
      DivModUnique(n + 1, p, q + 1, 0);
    } else {
      DivModUnique(n + 1, p, q, r + 1);
    }
  }

  /** The first key that the filter still remembers: those of this generation and of the two full ones before it. */
  function Oldest(cfg: Config, n: nat): int {
    n - EntriesAfter(cfg, n) - 2 * cfg.perGeneration
  }

  /** After every run a cell is set exactly when one of the remembered keys has it: all older ones are forgotten. */
  lemma CellsExactly(cfg: Config, size: nat, keys: seq<Key>, at: nat, c: bv6)
    requires size > 0 && size % 2 == 0 && at < size
    ensures Cell(Run(cfg, size, keys).data, at, c) != 0 <==>
      HitSince(cfg, size, keys, Oldest(cfg, |keys|), at, c)
  {
    hide Cell, Run, HitSince;
    RunWritten(cfg, size, keys, at, c, 2);
    RunEntries(cfg, size, keys);
  }

  /** Every cell of the key is a cell of a remembered key. */
  predicate Remembered(cfg: Config, size: nat, keys: seq<Key>, key: Key)
    requires size > 0
  {
    forall n: nat | n < cfg.hashFuncs ::
      HitSince(cfg, size, keys, Oldest(cfg, |keys|), Pos(cfg, size, key, n), BitOf(cfg, key, n))
  }

  /** The answer after every run, from the list of keys alone. */
  lemma ContainsExactly(cfg: Config, size: nat, keys: seq<Key>, key: Key)
    requires size > 0 && size % 2 == 0
    ensures MayContain(cfg, Run(cfg, size, keys), key) <==> Remembered(cfg, size, keys, key)
  {
    hide Cell, Run, HitSince, Oldest;
    var s := Run(cfg, size, keys);
    forall n: nat
      ensures KeyCell(cfg, s.data, key, n) != 0 <==>
        HitSince(cfg, size, keys, Oldest(cfg, |keys|), Pos(cfg, size, key, n), BitOf(cfg, key, n))
    {
      CellsExactly(cfg, size, keys, Pos(cfg, size, key, n), BitOf(cfg, key, n));
    }
  }

  /** A key without a cell in common with the remembered keys is not contained, however often it was inserted before. */
  lemma Forgets(cfg: Config, size: nat, keys: seq<Key>, key: Key, n: nat)
    requires size > 0 && size % 2 == 0 && n < cfg.hashFuncs
    requires forall i: nat | Oldest(cfg, |keys|) <= i < |keys| ::
      !Hits(cfg, size, keys[i], cfg.hashFuncs, Pos(cfg, size, key, n), BitOf(cfg, key, n))
    ensures !MayContain(cfg, Run(cfg, size, keys), key)
  {
    hide Run, Hits, Oldest;
    ContainsExactly(cfg, size, keys, key);
    assert !HitSince(cfg, size, keys, Oldest(cfg, |keys|), Pos(cfg, size, key, n), BitOf(cfg, key, n));
  }

  /**
   No false negatives: after any run of inserts, each key among the last entries of this generation and the two full
   generations before it is contained.
   */
  lemma NoFalseNegatives(cfg: Config, size: nat, keys: seq<Key>, i: nat)
    requires size > 0 && size % 2 == 0 && i < |keys|
    requires i >= |keys| - Run(cfg, size, keys).entries - 2 * cfg.perGeneration
    ensures MayContain(cfg, Run(cfg, size, keys), keys[i])
  {
    RunEntries(cfg, size, keys);
    hide Run;
    ContainsExactly(cfg, size, keys, keys[i]);
    forall n: nat | n < cfg.hashFuncs
      ensures Hits(cfg, size, keys[i], cfg.hashFuncs, Pos(cfg, size, keys[i], n), BitOf(cfg, keys[i], n))
    {
    }
  }

  /** A filter built for some number of elements contains each of that many last inserts. */
  lemma LastElementsContained(cfg: Config, size: nat, keys: seq<Key>, elements: nat, i: nat)
    requires size > 0 && size % 2 == 0 && cfg.perGeneration == (elements + 1) / 2
    requires |keys| - elements <= i < |keys|
    ensures MayContain(cfg, Run(cfg, size, keys), keys[i])
  {
    NoFalseNegatives(cfg, size, keys, i);
  }

  /** And right after a reset it contains nothing. */
  lemma EmptyContainsNothing(cfg: Config, size: nat, key: Key)
    requires size > 0 && size % 2 == 0 && cfg.hashFuncs > 0
    ensures !MayContain(cfg, Run(cfg, size, []), key)
  {
    ZeroCell(size, Pos(cfg, size, key, 0), BitOf(cfg, key, 0));
    assert KeyCell(cfg, Fresh(size).data, key, 0) == 0;
  }

  lemma ZeroCell(size: nat, pos: nat, b: bv6)
    requires size > 0 && size % 2 == 0 && pos < size
    ensures Cell(Fresh(size).data, pos, b) == 0
  {
    BitMask(false, b);
    hide Bit;
  }

  // ---------- The class ----------

  class RollingBloomFilter {
    const perGeneration: nat
    const hashFuncs: nat
    const hash: (nat, nat, Key) -> Spot
    const data: array<bv64>
    var tweak: nat
    var generation: nat
    var entries: nat
    ghost var keys: seq<Key>

    ghost function Settings(): Config
      reads this
    {
      Config(perGeneration, hashFuncs, tweak, hash)
    }

    ghost function Now(): State
      reads this, data
    {
      State(data[..], generation, entries)
    }

    /** The state is the one that the inserts since the last reset lead to. */
    ghost predicate Valid()
      reads this, data
    {
      data.Length > 0 && data.Length % 2 == 0 && Now() == Run(Settings(), data.Length, keys)
    }

    constructor (elements: nat, words: nat, hashFuncs: nat, hash: (nat, nat, Key) -> Spot, tweak: nat)
      requires words > 0
      ensures Valid() && keys == [] && fresh(data) && perGeneration == (elements + 1) / 2
    {
      perGeneration := (elements + 1) / 2;
      this.hashFuncs := hashFuncs;
      this.hash := hash;
      data := new bv64[2 * words];
      keys := [];
      new;
      Reset(tweak);
    }

    method Reset(tweak: nat)
      requires data.Length > 0 && data.Length % 2 == 0
      modifies this, data
      ensures Valid() && keys == []
    {
      this.tweak, entries, generation, keys := tweak, 0, 1, [];
      for i := 0 to data.Length
        invariant this.tweak == tweak && entries == 0 && generation == 1 && keys == []
        invariant forall k: nat | k < i :: data[k] == 0
      {
        data[i] := 0;
      }
      assert data[..] == Fresh(data.Length).data;
    }

    /** Wiping the old entries of a generation number. */
    method Wipe(g: nat)
      requires data.Length > 0 && data.Length % 2 == 0 && IsGeneration(g)
      modifies data
      ensures data[..] == WipedFrom(old(data[..]), g, 0)
    {
      hide PairWiped;
      var p := 0;
      while p < data.Length
        invariant p <= data.Length && p % 2 == 0
        invariant WipedFrom(data[..], g, p) == WipedFrom(old(data[..]), g, 0)
      {
        WipePair(p, g);
        p := p + 2;
      }
    }

    method WipePair(p: nat, g: nat)
      requires IsTable(data[..]) && p + 1 < data.Length
      modifies data
      ensures data[..] == PairWiped(old(data[..]), p, g)
    {
      hide Survivors, And;
      var p1, p2 := data[p], data[p + 1];
      var mask := Survivors(p1, p2, g % 2 == 1, g / 2 == 1);
      data[p] := And(p1, mask);
      data[p + 1] := And(p2, mask);
    }

    method Insert(key: Key)
      requires Valid()
      modifies this, data
      ensures Valid() && keys == old(keys) + [key] && tweak == old(tweak)
    {
      hide WithBit, WipedFrom, Run, Marked;
      ghost var cfg, before := Settings(), Now();
      if entries == perGeneration {
        entries := 0;
        generation := generation + 1;
        if generation == 4 {
          generation := 1;
        }
        Wipe(generation);
      }
      entries := entries + 1;
      ghost var turned := Turned(cfg, before);
      assert turned.data == data[..] && turned.generation == generation && turned.entries + 1 == entries;
      for n := 0 to hashFuncs
        invariant generation == turned.generation && entries == turned.entries + 1 && keys == old(keys)
        invariant Settings() == cfg
        invariant data[..] == MarkedUpTo(cfg, turned.data, turned.generation, key, n)
      {
        Mark(key, n);
      }
      keys := keys + [key];
      RunStep(cfg, data.Length, keys);
      assert keys[..|keys| - 1] == old(keys);
    }

    /** Writing the cell of one hash function. */
    method Mark(key: Key, n: nat)
      requires data.Length > 0 && data.Length % 2 == 0
      modifies data
      ensures data[..] ==
        Marked(old(data[..]), Pos(Settings(), data.Length, key, n), BitOf(Settings(), key, n), generation)
    {
      hide WithBit;
      var spot := hash(n, tweak, key);
      var pos := spot.high % data.Length;
      var p := pos / 2 * 2;
      data[p] := WithBit(data[p], spot.bit, generation % 2 == 1);
      data[p + 1] := WithBit(data[p + 1], spot.bit, generation / 2 == 1);
    }

    method Contains(key: Key) returns (r: bool)
      requires Valid()
      ensures r <==> Remembered(Settings(), data.Length, keys, key)
      ensures forall i: nat | |keys| - entries - 2 * perGeneration <= i < |keys| :: key == keys[i] ==> r
    {
      ghost var cfg := Settings();
      AllContained(cfg, data.Length, keys);
      ContainsExactly(cfg, data.Length, keys, key);
      r := ProbeAll(key);
    }

    method ProbeAll(key: Key) returns (r: bool)
      requires data.Length > 0 && data.Length % 2 == 0 && IsState(Now())
      ensures r <==> MayContain(Settings(), Now(), key)
    {
      ghost var cfg, s := Settings(), Now();
      hide KeyCell;
      for n := 0 to hashFuncs
        invariant forall m: nat | m < n :: KeyCell(cfg, s.data, key, m) != 0
      {
        var there := Probe(key, n);
        if !there {
          return false;
        }
      }
      r := true;
    }

    /** The test of one hash function. */
    method Probe(key: Key, n: nat) returns (there: bool)
      requires data.Length > 0 && data.Length % 2 == 0
      ensures there <==> KeyCell(Settings(), data[..], key, n) != 0
    {
      hide Bit, Cell, Or;
      var spot := hash(n, tweak, key);
      var pos := spot.high % data.Length;
      CellEither(data[..], pos, spot.bit);
      there := Bit(Or(data[pos / 2 * 2], data[pos / 2 * 2 + 1]), spot.bit);
    }
  }

  lemma AllContained(cfg: Config, size: nat, keys: seq<Key>)
    requires size > 0 && size % 2 == 0
    ensures var s := Run(cfg, size, keys);
      forall i: nat | |keys| - s.entries - 2 * cfg.perGeneration <= i < |keys| :: MayContain(cfg, s, keys[i])
  {
    var s := Run(cfg, size, keys);
    forall i: nat | |keys| - s.entries - 2 * cfg.perGeneration <= i < |keys|
      ensures MayContain(cfg, s, keys[i])
    {
      NoFalseNegatives(cfg, size, keys, i);
    }
  }

  lemma RunStep(cfg: Config, size: nat, keys: seq<Key>)
    requires size > 0 && size % 2 == 0 && keys != []
    ensures Run(cfg, size, keys) == Inserted(cfg, Run(cfg, size, keys[..|keys| - 1]), keys[|keys| - 1])
  {
  }
}

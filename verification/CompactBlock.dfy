/**
 Compact block relay: announcing a block by short transaction ids, laying out the receiver's slots, matching the
 memory pool, requesting what is missing and filling the block.

 Hashes are parameters: `SipHash` stands for the keyed hash whose key comes from the header and the nonce. The memory
 pool is a sequence of transactions in the order of its hash list.
 */
module CompactBlock {
  import opened Options
  import opened IndexCodec
  import opened Sequences

  const SHORT_ID_RANGE: nat := 0x1_0000_0000_0000

  datatype Tx = Tx(hash: nat, isNull: bool, body: seq<nat>)

  datatype Header = Header(isNull: bool, body: seq<nat>)

  datatype Block = Block(header: Header, vtx: seq<Tx>)

  datatype Prefilled = Prefilled(index: nat, tx: Tx)

  datatype Message = Message(header: Header, nonce: nat, shortIds: seq<nat>, prefilled: seq<Prefilled>) {
    function BlockTxCount(): nat {
      |shortIds| + |prefilled|
    }
  }

  /** The status of a call, and `Endless` for a call that does not return. */
  datatype ReadStatus = Ok | Invalid | Failed | Endless

  /** The verdict of the block check that `FillBlock` runs last. */
  datatype Verdict = Accepted | Corrupted | Rejected

  type SipHash = (Header, nat, nat) -> nat

  function ShortId(hash: SipHash, header: Header, nonce: nat, tx: Tx): nat {
    hash(header, nonce, tx.hash) % SHORT_ID_RANGE
  }

  // ---------- Where the prefilled transactions go ----------

  /** The slot of the k-th prefilled transaction, from the differences sent. */
  function Pos(pre: seq<Prefilled>, k: nat): nat
    requires k < |pre|
  {
    if k == 0 then pre[0].index else Pos(pre, k - 1) + pre[k].index + 1
  }

  lemma {:induction false} PosIncreases(pre: seq<Prefilled>, i: nat, j: nat)
    requires i < j < |pre|
    ensures Pos(pre, i) < Pos(pre, j)
  {
    if i < j - 1 {
      PosIncreases(pre, i, j - 1);
    }
  }

  predicate Fits(m: Message, k: nat)
    requires k < |m.prefilled|
  {
    && !m.prefilled[k].tx.isNull
    && Pos(m.prefilled, k) < U16
    && Pos(m.prefilled, k) <= |m.shortIds| + k
  }

  /** The first n prefilled transactions pass the checks of `InitData`. */
  predicate FitUpTo(m: Message, n: nat)
    requires n <= |m.prefilled|
  {
    forall k: nat | k < n :: Fits(m, k)
  }

  predicate WellFormed(m: Message) {
    FitUpTo(m, |m.prefilled|)
  }

  /** The slots after placing the first i prefilled transactions. */
  function Placed(m: Message, i: nat): (a: seq<Option<Tx>>)
    requires i <= |m.prefilled| && FitUpTo(m, i)
    ensures |a| == m.BlockTxCount()
  {
    if i == 0 then seq(m.BlockTxCount(), _ => None)
    else
      assert Fits(m, i - 1);
      Placed(m, i - 1)[Pos(m.prefilled, i - 1) := Some(m.prefilled[i - 1].tx)]
  }

  lemma {:induction false} PlacedAt(m: Message, i: nat, k: nat)
    requires k < i <= |m.prefilled| && FitUpTo(m, i)
    ensures Fits(m, k) && Placed(m, i)[Pos(m.prefilled, k)] == Some(m.prefilled[k].tx)
  {
    if k < i - 1 {
      PlacedAt(m, i - 1, k);
      PosIncreases(m.prefilled, k, i - 1);
    }
  }

  lemma {:induction false} PlacedNowhereElse(m: Message, i: nat, s: nat)
    requires i <= |m.prefilled| && FitUpTo(m, i) && s < m.BlockTxCount()
    requires forall k: nat | k < i :: Pos(m.prefilled, k) != s
    ensures Placed(m, i)[s] == None
  {
    if i > 0 {
      PlacedNowhereElse(m, i - 1, s);
    }
  }

  // ---------- The remaining slots ----------

  function Gaps(a: seq<Option<Tx>>): seq<nat> {
    if a == [] then []
    else Gaps(a[..|a| - 1]) + if a[|a| - 1].None? then [|a| - 1] else []
  }

  /** The gaps are exactly the empty slots, in increasing order. */
  lemma {:induction false} GapsAre(a: seq<Option<Tx>>)
    ensures Increasing(Gaps(a))
    ensures forall i: nat | i < |Gaps(a)| :: Gaps(a)[i] < |a| && a[Gaps(a)[i]].None?
    ensures forall s: nat | s < |a| && a[s].None? :: s in Gaps(a)
  {
    if a != [] {
      var b := a[..|a| - 1];
      GapsAre(b);
      forall s: nat | s < |a| && a[s].None?
        ensures s in Gaps(a)
      {
        if s < |b| {
          assert b[s].None?;
        }
      }
      forall i: nat | i < |Gaps(a)|
        ensures Gaps(a)[i] < |a| && a[Gaps(a)[i]].None?
      {
        if i < |Gaps(b)| {
          assert b[Gaps(b)[i]].None?;
        }
      }
    }
  }

  lemma {:induction false} GapsPrefix(a: seq<Option<Tx>>, c: nat)
    requires c <= |a|
    ensures Gaps(a[..c]) <= Gaps(a)
  {
    if c == |a| {
      assert a[..c] == a;
    } else {
      GapsPrefix(a[..|a| - 1], c);
      assert a[..|a| - 1][..c] == a[..c];
    }
  }

  lemma GapsStep(a: seq<Option<Tx>>, c: nat)
    requires c < |a|
    ensures Gaps(a[..c + 1]) == Gaps(a[..c]) + if a[c].None? then [c] else []
  {
    assert a[..c + 1][..c] == a[..c];
  }

  lemma {:induction false} GapsFilled(a: seq<Option<Tx>>, s: nat, t: Tx)
    requires s < |a| && a[s].None?
    ensures |Gaps(a[s := Some(t)])| == |Gaps(a)| - 1
  {
    var b := a[s := Some(t)];
    var last := |a| - 1;
    if s == last {
      assert b[..last] == a[..last];
    } else {
      assert b[..last] == a[..last][s := Some(t)];
      GapsFilled(a[..last], s, t);
    }
  }

  lemma {:induction false} GapsOfEmpty(n: nat)
    ensures |Gaps(seq(n, _ => None))| == n
  {
    if n > 0 {
      var a: seq<Option<Tx>> := seq(n, _ => None);
      assert a[..n - 1] == seq(n - 1, _ => None);
      GapsOfEmpty(n - 1);
    }
  }

  /** As many slots remain as there are short ids. */
  lemma {:induction false} GapCount(m: Message, i: nat)
    requires i <= |m.prefilled| && FitUpTo(m, i)
    ensures |Gaps(Placed(m, i))| == m.BlockTxCount() - i
  {
    if i == 0 {
      GapsOfEmpty(m.BlockTxCount());
    } else {
      GapCount(m, i - 1);
      assert Fits(m, i - 1);
      var s := Pos(m.prefilled, i - 1);
      forall k: nat | k < i - 1
        ensures Pos(m.prefilled, k) != s
      {
        PosIncreases(m.prefilled, k, i - 1);
      }
      PlacedNowhereElse(m, i - 1, s);
      GapsFilled(Placed(m, i - 1), s, m.prefilled[i - 1].tx);
    }
  }

  /** The slot of each short id: the i-th short id belongs to the i-th slot without a prefilled transaction. */
  function Slots(m: Message): seq<nat>
    requires WellFormed(m)
  {
    Gaps(Placed(m, |m.prefilled|))
  }

  /** Slot numbers are kept in 16 bits. */
  function Stored(slots: seq<nat>): seq<nat> {
    seq(|slots|, i requires 0 <= i < |slots| => slots[i] % U16)
  }

  /** No slot from 65536 on is taken. */
  predicate TopEmpty(a: seq<Option<Tx>>) {
    forall s: nat | U16 <= s < |a| :: a[s].None?
  }

  lemma PlacedTopEmpty(m: Message)
    requires WellFormed(m)
    ensures TopEmpty(Placed(m, |m.prefilled|))
  {
    var a := Placed(m, |m.prefilled|);
    hide Placed;
    forall s: nat | U16 <= s < |a|
      ensures a[s].None?
    {
      forall k: nat | k < |m.prefilled|
        ensures Pos(m.prefilled, k) != s
      {
        assert Fits(m, k);
      }
      PlacedNowhereElse(m, |m.prefilled|, s);
    }
  }

  /**
   The slot numbers stored are the right ones exactly when the block has at most 65536 transactions, because no
   prefilled transaction lies beyond that.
   */
  lemma SlotsStored(m: Message)
    requires WellFormed(m)
    ensures Stored(Slots(m)) == Slots(m) <==> m.BlockTxCount() <= U16
    ensures m.BlockTxCount() > U16 ==>
      var n := |m.shortIds|; n > 0 && |Slots(m)| == n && Slots(m)[n - 1] == m.BlockTxCount() - 1
  {
    var a := Placed(m, |m.prefilled|);
    PlacedTopEmpty(m);
    GapCount(m, |m.prefilled|);
    hide Placed;
    if m.BlockTxCount() > U16 {
      LastGap(a);
      assert Stored(Slots(m))[|Slots(m)| - 1] != |a| - 1;
    } else {
      SmallGaps(a);
    }
  }

  lemma LastGap(a: seq<Option<Tx>>)
    requires a != [] && a[|a| - 1].None?
    ensures |Gaps(a)| > 0 && Gaps(a)[|Gaps(a)| - 1] == |a| - 1
  {
  }

  lemma SmallGaps(a: seq<Option<Tx>>)
    requires |a| <= U16
    ensures Stored(Gaps(a)) == Gaps(a)
  {
  }

  // ---------- Matching the memory pool ----------

  /** The pool transactions with a given short id. */
  function Matching(hash: SipHash, m: Message, pool: seq<Tx>, id: nat): seq<Tx> {
    if pool == [] then []
    else
      var n := |pool| - 1;
      Matching(hash, m, pool[..n], id) + if ShortId(hash, m.header, m.nonce, pool[n]) == id then [pool[n]] else []
  }

  lemma {:induction false} MatchingFrom(hash: SipHash, m: Message, pool: seq<Tx>, id: nat, i: nat)
    requires i < |Matching(hash, m, pool, id)|
    ensures var t := Matching(hash, m, pool, id)[i]; t in pool && ShortId(hash, m.header, m.nonce, t) == id
  {
    var n := |pool| - 1;
    if i < |Matching(hash, m, pool[..n], id)| {
      MatchingFrom(hash, m, pool[..n], id, i);
    }
  }

  /** A slot is filled by the pool when one transaction matches, and left to a request when several do. */
  function Only(found: seq<Tx>): Option<Tx> {
    if |found| == 1 then Some(found[0]) else None
  }

  /** The slots of short ids that are filled. */
  function Filled(a: seq<Option<Tx>>, slots: seq<nat>): set<nat> {
    set s | s in slots && s < |a| && a[s].Some?
  }

  // ---------- Short ids to slots ----------

  /** The table from short ids to slots sends each id to its own slot. */
  predicate TableFor(table: map<nat, nat>, ids: seq<nat>, slots: seq<nat>)
    requires |ids| <= |slots|
  {
    && table.Keys == ToSet(ids)
    && (Distinct(ids) ==> forall i: nat | i < |ids| :: ids[i] in table && table[ids[i]] == slots[i])
  }

  lemma TableStep(table: map<nat, nat>, ids: seq<nat>, slots: seq<nat>, i: nat)
    requires i < |ids| <= |slots| && TableFor(table, ids[..i], slots)
    ensures TableFor(table[ids[i] := slots[i]], ids[..i + 1], slots)
  {
  }

  /** The table that the loop over the short ids builds. */
  function Table(ids: seq<nat>, slots: seq<nat>): map<nat, nat>
    requires |ids| <= |slots|
  {
    if ids == [] then map[]
    else
      var n := |ids| - 1;
      Table(ids[..n], slots)[ids[n] := slots[n]]
  }

  lemma {:induction false} TableIs(ids: seq<nat>, slots: seq<nat>)
    requires |ids| <= |slots|
    ensures TableFor(Table(ids, slots), ids, slots)
  {
    if ids == [] {
      assert ids[..0] == ids;
      EmptyTable(ids, slots);
    } else {
      var n := |ids| - 1;
      TableIs(ids[..n], slots);
      hide TableFor;
      TableStep(Table(ids[..n], slots), ids, slots, n);
      assert ids[..n + 1] == ids;
    }
  }

  lemma TableNext(ids: seq<nat>, slots: seq<nat>, i: nat)
    requires i < |ids| <= |slots|
    ensures Table(ids[..i + 1], slots) == Table(ids[..i], slots)[ids[i] := slots[i]]
  {
    assert ids[..i + 1][..i] == ids[..i];
  }

  // ---------- The inner loop ----------

  /** The test of the inner loop, within range. */
  predicate Taken(a: seq<Option<Tx>>, i: nat, indexOffset: nat) {
    i + indexOffset < |a| && a[i + indexOffset].Some?
  }

  /** The test holds on every turn, as the 16-bit offset goes round: the loop never ends. */
  ghost predicate Spins(a: seq<Option<Tx>>, i: nat, offset: nat) {
    forall n: nat :: Taken(a, i, Turned(offset, n))
  }

  /** The offset after n turns. */
  function Turned(offset: nat, n: nat): nat {
    (offset + n) % U16
  }

  /** Every slot that an offset reaches from the first short id is taken. */
  predicate AllTaken(a: seq<Option<Tx>>) {
    U16 <= |a| && forall s: nat | s < U16 :: a[s].Some?
  }

  lemma {:induction false} GapsAbove(a: seq<Option<Tx>>, c: nat)
    requires TopEmpty(a) && U16 <= c <= |a|
    ensures |Gaps(a[..c])| == |Gaps(a[..U16])| + c - U16
    decreases c
  {
    if c > U16 {
      hide Gaps;
      GapsAbove(a, c - 1);
      GapsStep(a, c - 1);
    }
  }

  lemma NoGaps(a: seq<Option<Tx>>)
    ensures Gaps(a) == [] <==> forall s: nat | s < |a| :: a[s].Some?
  {
  }

  lemma TakenAlways(a: seq<Option<Tx>>)
    requires U16 <= |a|
    ensures AllTaken(a) <==> |Gaps(a[..U16])| == 0
  {
    hide Gaps;
    NoGaps(a[..U16]);
    assert forall s: nat | s < U16 :: a[..U16][s] == a[s];
  }

  /** A well-formed message takes every slot in reach exactly when it has 65536 prefilled transactions. */
  lemma AllTakenExactly(m: Message)
    requires WellFormed(m)
    ensures AllTaken(Placed(m, |m.prefilled|)) <==> |m.prefilled| == U16
  {
    var a := Placed(m, |m.prefilled|);
    PlacedTopEmpty(m);
    GapCount(m, |m.prefilled|);
    hide Placed, Gaps;
    if U16 <= |a| {
      GapsAbove(a, |a|);
      assert a[..|a|] == a;
      TakenAlways(a);
    }
  }

  lemma SpinsWhenTaken(a: seq<Option<Tx>>, offset: nat)
    requires AllTaken(a)
    ensures Spins(a, 0, offset)
  {
  }

  lemma StopsAt(a: seq<Option<Tx>>, i: nat, offset: nat, indexOffset: nat)
    requires offset <= indexOffset < U16 && !Taken(a, i, indexOffset)
    ensures !Spins(a, i, offset)
  {
    assert !Taken(a, i, Turned(offset, indexOffset - offset));
  }

  /** A cursor at a gap, with an offset of 16 bits: then not every slot in reach is taken. */
  lemma NotAllTaken(a: seq<Option<Tx>>, i: nat, indexOffset: nat)
    requires TopEmpty(a) && indexOffset < U16 && i + indexOffset < |a| && a[i + indexOffset].None?
    requires |Gaps(a[..i + indexOffset])| == i
    ensures !AllTaken(a)
  {
    hide Gaps;
    if U16 <= i + indexOffset {
      GapsAbove(a, i + indexOffset);
      TakenAlways(a);
    }
  }

  /** An offset that is about to go round: it started at the first short id, and every slot in reach is taken. */
  lemma GoesRound(a: seq<Option<Tx>>, i: nat)
    requires TopEmpty(a) && Taken(a, i, U16 - 1) && |Gaps(a[..i + U16 - 1])| == i
    ensures i == 0 && AllTaken(a)
  {
    hide Gaps;
    assert i + U16 - 1 < U16;
    GapsStep(a, U16 - 1);
    TakenAlways(a);
  }

  /**
   The inner loop: from the i-th short id's cursor to the next slot without a prefilled transaction. It ends at the
   right slot, unless every slot that the 16-bit offset reaches is taken.
   */
  method SkipFilled(a: seq<Option<Tx>>, i: nat, offset: nat) returns (r: Option<nat>)
    requires TopEmpty(a) && i < |Gaps(a)| && i + offset <= |a| && offset < U16
    requires Gaps(a[..i + offset]) == Gaps(a)[..i]
    ensures r.None? <==> Spins(a, i, offset)
    ensures r.None? <==> AllTaken(a)
    ensures r.Some? ==> r.value < U16 && Gaps(a)[i] == i + r.value < |a|
    ensures r.Some? ==> Gaps(a[..i + r.value + 1]) == Gaps(a)[..i + 1]
  {
    hide Gaps, Spins, AllTaken, TopEmpty;
    var indexOffset := offset;
    BeforeEnd(a, i + indexOffset);
    while a[i + indexOffset].Some?
      invariant offset <= indexOffset < U16 && i + indexOffset < |a|
      invariant Gaps(a[..i + indexOffset]) == Gaps(a)[..i]
      decreases |a| - indexOffset
    {
      if indexOffset == U16 - 1 {
        GoesRound(a, i);
        SpinsWhenTaken(a, offset);
        return None;
      }
      GapsStep(a, i + indexOffset);
      BeforeEnd(a, i + indexOffset + 1);
      indexOffset := indexOffset + 1;
    }
    NotAllTaken(a, i, indexOffset);
    StopsAt(a, i, offset, indexOffset);
    GapsStep(a, i + indexOffset);
    GapsPrefix(a, i + indexOffset + 1);
    assert Gaps(a)[..i + 1] == Gaps(a)[..i] + [Gaps(a)[i]];
    r := Some(indexOffset);
  }

  /**
   The loop that assigns slots, with the 16-bit offset and slot numbers of the source. The bucket size test first fires
   after insertion number `crowded`, if there is one.
   */
  method MapSlots(ids: seq<nat>, a: seq<Option<Tx>>, crowded: nat) returns (status: ReadStatus, table: map<nat, nat>)
    requires TopEmpty(a) && |Gaps(a)| == |ids|
    ensures status == Endless <==> AllTaken(a) && ids != []
    ensures status != Endless ==> (status == Failed <==> crowded < |ids| || !Distinct(ids))
    ensures status != Invalid && (status == Ok ==> table == Table(ids, Stored(Gaps(a))))
  {
    assert a[..0] == [];
    ghost var slots, stored := Gaps(a), Stored(Gaps(a));
    assert Table(ids[..0], stored) == map[];
    hide Gaps, Distinct, Spins, TopEmpty, AllTaken, Table;
    table := map[];
    var indexOffset: nat := 0;
    for i := 0 to |ids|
      invariant i + indexOffset <= |a| && indexOffset < U16
      invariant Gaps(a[..i + indexOffset]) == slots[..i]
      invariant table == Table(ids[..i], stored)
      invariant crowded >= i && (i > 0 ==> !AllTaken(a))
    {
      var next := SkipFilled(a, i, indexOffset);
      if next.None? {
        return Endless, table;
      }
      indexOffset := next.value;
      TableNext(ids, stored, i);
      table := table[ids[i] := (i + indexOffset) % U16];
      if i == crowded {
        return Failed, table;
      }
    }
    assert ids[..|ids|] == ids;
    TableIs(ids, stored);
    TableSize(table, ids, stored);
    status := if |table| != |ids| then Failed else Ok;
  }

  lemma BeforeEnd(a: seq<Option<Tx>>, c: nat)
    requires c <= |a|
    ensures |Gaps(a[..c])| < |Gaps(a)| ==> c < |a|
  {
    assert a[..|a|] == a;
  }

  lemma EmptyTable(ids: seq<nat>, slots: seq<nat>)
    requires |ids| <= |slots|
    ensures TableFor(map[], ids[..0], slots)
  {
  }

  lemma TableSize(table: map<nat, nat>, ids: seq<nat>, slots: seq<nat>)
    requires |ids| <= |slots| && TableFor(table, ids, slots)
    ensures |table| == |ids| <==> Distinct(ids)
  {
    DistinctSize(ids);
    assert |table| == |table.Keys|;
  }

  // ---------- The scan of the memory pool ----------

  /** Increasing slots within range, one for each short id. */
  predicate SlotsFor(a: seq<Option<Tx>>, m: Message, slots: seq<nat>) {
    |slots| == |m.shortIds| && Increasing(slots) && forall i: nat | i < |slots| :: slots[i] < |a|
  }

  /** The slot of the i-th short id holds the only match among the transactions seen, and remembers any match. */
  predicate Matched(hash: SipHash, m: Message, seen: seq<Tx>, a: seq<Option<Tx>>, have: seq<bool>, slots: seq<nat>,
                    i: nat)
    requires |have| == |a| && SlotsFor(a, m, slots) && i < |slots|
  {
    var found := Matching(hash, m, seen, m.shortIds[i]);
    a[slots[i]] == Only(found) && (have[slots[i]] <==> found != [])
  }

  predicate AllMatched(hash: SipHash, m: Message, seen: seq<Tx>, a: seq<Option<Tx>>, have: seq<bool>, slots: seq<nat>)
    requires |have| == |a| && SlotsFor(a, m, slots)
  {
    forall i: nat | i < |slots| :: Matched(hash, m, seen, a, have, slots, i)
  }

  lemma MatchingNext(hash: SipHash, m: Message, pool: seq<Tx>, p: nat, id: nat)
    requires p < |pool|
    ensures Matching(hash, m, pool[..p + 1], id) ==
      Matching(hash, m, pool[..p], id) + if ShortId(hash, m.header, m.nonce, pool[p]) == id then [pool[p]] else []
  {
    assert pool[..p + 1][..p] == pool[..p];
  }

  /** A transaction whose short id is not in the announcement changes nothing. */
  lemma Miss(hash: SipHash, m: Message, pool: seq<Tx>, p: nat, a: seq<Option<Tx>>, have: seq<bool>, slots: seq<nat>)
    requires p < |pool| && |have| == |a| && SlotsFor(a, m, slots)
    requires ShortId(hash, m.header, m.nonce, pool[p]) !in m.shortIds
    requires AllMatched(hash, m, pool[..p], a, have, slots)
    ensures AllMatched(hash, m, pool[..p + 1], a, have, slots)
  {
    hide Matching, ShortId;
    var seen := pool[..p + 1];
    forall i: nat | i < |slots|
      ensures Matched(hash, m, seen, a, have, slots, i)
    {
      assert Matched(hash, m, pool[..p], a, have, slots, i);
      assert m.shortIds[i] in m.shortIds;
      MatchingNext(hash, m, pool, p, m.shortIds[i]);
    }
  }

  lemma Hit(hash: SipHash, m: Message, pool: seq<Tx>, p: nat, a: seq<Option<Tx>>, have: seq<bool>, slots: seq<nat>,
            i: nat)
    requires p < |pool| && |have| == |a| && SlotsFor(a, m, slots) && i < |slots| && Distinct(m.shortIds)
    requires ShortId(hash, m.header, m.nonce, pool[p]) == m.shortIds[i]
    requires AllMatched(hash, m, pool[..p], a, have, slots)
    ensures var x := if have[slots[i]] then None else Some(pool[p]);
      AllMatched(hash, m, pool[..p + 1], a[slots[i] := x], have[slots[i] := true], slots)
  {
    hide Matching, ShortId;
    var x := if have[slots[i]] then None else Some(pool[p]);
    var a', have' := a[slots[i] := x], have[slots[i] := true];
    var seen := pool[..p + 1];
    forall j: nat | j < |slots|
      ensures Matched(hash, m, seen, a', have', slots, j)
    {
      assert Matched(hash, m, pool[..p], a, have, slots, j);
      MatchingNext(hash, m, pool, p, m.shortIds[j]);
      assert j != i ==> slots[j] != slots[i] && m.shortIds[j] != m.shortIds[i];
    }
  }

  /** Slots of prefilled transactions are left alone. */
  predicate SameOutside(a: seq<Option<Tx>>, b: seq<Option<Tx>>, slots: seq<nat>) {
    |a| == |b| && forall s: nat | s < |a| && s !in slots :: a[s] == b[s]
  }

  lemma FindId(table: map<nat, nat>, ids: seq<nat>, slots: seq<nat>, id: nat) returns (i: nat)
    requires |ids| == |slots| && TableFor(table, ids, slots) && Distinct(ids) && id in table
    ensures i < |ids| && ids[i] == id && table[id] == slots[i]
  {
    assert id in table.Keys;
    i :| i < |ids| && ids[i] == id;
  }

  /** The state of the scan: the slots, which of them were ever matched, and the counter. */
  datatype Scan = Scan(slots: seq<Option<Tx>>, have: seq<bool>, count: int) {
    /** The slots that hold a match. */
    function Held(): set<nat>
      requires |have| == |slots|
    {
      set s: nat | s < |slots| && have[s] && slots[s].Some?
    }
  }

  predicate InRange(table: map<nat, nat>, st: Scan) {
    |st.have| == |st.slots| && forall id | id in table :: table[id] < |st.slots|
  }

  /** One transaction of the pool. */
  function ScanOne(hash: SipHash, m: Message, table: map<nat, nat>, st: Scan, t: Tx): (r: Scan)
    requires InRange(table, st)
    ensures InRange(table, r) && |r.slots| == |st.slots|
  {
    var id := ShortId(hash, m.header, m.nonce, t);
    if id !in table then st
    else if !st.have[table[id]] then
      Scan(st.slots[table[id] := Some(t)], st.have[table[id] := true], st.count + 1)
    else if st.slots[table[id]].Some? then st.(slots := st.slots[table[id] := None], count := st.count - 1)
    else st
  }

  function ScanAll(hash: SipHash, m: Message, table: map<nat, nat>, st: Scan, pool: seq<Tx>): (r: Scan)
    requires InRange(table, st)
    ensures InRange(table, r) && |r.slots| == |st.slots|
  {
    if pool == [] then st
    else
      var n := |pool| - 1;
      ScanOne(hash, m, table, ScanAll(hash, m, table, st, pool[..n]), pool[n])
  }

  lemma ScanNone(hash: SipHash, m: Message, table: map<nat, nat>, st: Scan)
    requires InRange(table, st)
    ensures ScanAll(hash, m, table, st, []) == st
  {
  }

  lemma ScanNext(hash: SipHash, m: Message, table: map<nat, nat>, st: Scan, pool: seq<Tx>, p: nat)
    requires InRange(table, st) && p < |pool|
    ensures ScanAll(hash, m, table, st, pool[..p + 1]) ==
      ScanOne(hash, m, table, ScanAll(hash, m, table, st, pool[..p]), pool[p])
  {
    assert pool[..p + 1][..p] == pool[..p];
  }

  /** The counter is the number of slots that hold a match, whatever the table. */
  predicate Counted(st: Scan) {
    |st.have| == |st.slots| && st.count == |st.Held()|
  }

  lemma CountOne(hash: SipHash, m: Message, table: map<nat, nat>, st: Scan, t: Tx)
    requires InRange(table, st) && Counted(st)
    ensures Counted(ScanOne(hash, m, table, st, t))
  {
    var r := ScanOne(hash, m, table, st, t);
    var id := ShortId(hash, m.header, m.nonce, t);
    hide ShortId;
    if id in table {
      var s := table[id];
      if !st.have[s] {
        HeldMore(st, s, t);
      } else if st.slots[s].Some? {
        HeldLess(st, s);
      }
    }
  }

  lemma HeldMore(st: Scan, s: nat, t: Tx)
    requires |st.have| == |st.slots| && s < |st.slots| && !st.have[s]
    ensures |Scan(st.slots[s := Some(t)], st.have[s := true], st.count + 1).Held()| == |st.Held()| + 1
  {
    assert Scan(st.slots[s := Some(t)], st.have[s := true], st.count + 1).Held() == st.Held() + {s};
  }

  lemma HeldLess(st: Scan, s: nat)
    requires |st.have| == |st.slots| && s < |st.slots| && st.have[s] && st.slots[s].Some?
    ensures |st.(slots := st.slots[s := None], count := st.count - 1).Held()| == |st.Held()| - 1
  {
    assert st.(slots := st.slots[s := None], count := st.count - 1).Held() == st.Held() - {s};
  }

  lemma StartCounted(a: seq<Option<Tx>>)
    ensures Counted(Start(a))
  {
    assert Start(a).Held() == {};
  }

  function Start(a: seq<Option<Tx>>): Scan {
    Scan(a, seq(|a|, _ => false), 0)
  }

  /** The scan has not stopped after any of its first n turns. */
  ghost predicate GoesOn(hash: SipHash, m: Message, table: map<nat, nat>, st: Scan, pool: seq<Tx>, n: nat)
    requires InRange(table, st) && n <= |pool|
  {
    forall k: nat | 0 < k <= n :: ScanAll(hash, m, table, st, pool[..k]).count != |table|
  }

  lemma GoesOnNext(hash: SipHash, m: Message, table: map<nat, nat>, st: Scan, pool: seq<Tx>, n: nat)
    requires InRange(table, st) && n < |pool| && GoesOn(hash, m, table, st, pool, n)
    requires ScanAll(hash, m, table, st, pool[..n + 1]).count != |table|
    ensures GoesOn(hash, m, table, st, pool, n + 1)
  {
    hide ScanAll;
  }

  lemma GoesOnLess(hash: SipHash, m: Message, table: map<nat, nat>, st: Scan, pool: seq<Tx>)
    requires InRange(table, st) && |pool| > 0 && GoesOn(hash, m, table, st, pool, |pool|)
    ensures GoesOn(hash, m, table, st, pool, |pool| - 1)
  {
    hide ScanAll;
  }

  lemma CountedNat(st: Scan)
    requires Counted(st)
    ensures st.count >= 0
  {
  }

  /** The scan of the pool, with its early stop. */
  method MatchPool(hash: SipHash, m: Message, pool: seq<Tx>, before: seq<Option<Tx>>, table: map<nat, nat>)
    returns (a: seq<Option<Tx>>, count: nat, scanned: nat)
    requires InRange(table, Start(before))
    ensures scanned <= |pool| && (scanned == |pool| || count == |table|)
    ensures scanned > 0 ==> GoesOn(hash, m, table, Start(before), pool, scanned - 1)
    ensures var st := ScanAll(hash, m, table, Start(before), pool[..scanned]);
      a == st.slots && count == st.count && Counted(st)
  {
    ghost var st0 := Start(before);
    var st := Start(before);
    StartCounted(before);
    ScanNone(hash, m, table, st0);
    assert pool[..0] == [] && GoesOn(hash, m, table, st0, pool, 0);
    hide Start, ScanAll, ScanOne, GoesOn, Counted;
    for p := 0 to |pool|
      invariant st == ScanAll(hash, m, table, st0, pool[..p]) && Counted(st)
      invariant GoesOn(hash, m, table, st0, pool, p)
    {
      ScanNext(hash, m, table, st0, pool, p);
      CountOne(hash, m, table, st, pool[p]);
      st := ScanOne(hash, m, table, st, pool[p]);
      if st.count == |table| {
        return st.slots, st.count, p + 1;
      }
      GoesOnNext(hash, m, table, st0, pool, p);
    }
    CountedNat(st);
    scanned := |pool|;
    if scanned > 0 {
      GoesOnLess(hash, m, table, st0, pool);
    }
    a, count := st.slots, st.count;
  }

  predicate MarkedOnly(have: seq<bool>, slots: seq<nat>) {
    forall s: nat | s < |have| && have[s] :: s in slots
  }

  /** With the right slot numbers, every slot of a short id ends up with the only match. */
  lemma {:induction false} ScanMatches(hash: SipHash, m: Message, pool: seq<Tx>, p: nat, before: seq<Option<Tx>>,
                                       table: map<nat, nat>, slots: seq<nat>)
    requires p <= |pool| && SlotsFor(before, m, slots) && TableFor(table, m.shortIds, slots) && Distinct(m.shortIds)
    requires forall i: nat | i < |slots| :: before[slots[i]] == None
    requires InRange(table, Start(before))
    ensures var st := ScanAll(hash, m, table, Start(before), pool[..p]);
      && SlotsFor(st.slots, m, slots) && SameOutside(before, st.slots, slots) && MarkedOnly(st.have, slots)
      && AllMatched(hash, m, pool[..p], st.slots, st.have, slots)
    decreases p
  {
    if p == 0 {
      assert pool[..0] == [];
      NothingSeen(hash, m, pool, before, Start(before).have, slots);
    } else {
      hide ScanAll, ScanOne, Start, TableFor, Distinct, AllMatched, MarkedOnly, SameOutside;
      ScanMatches(hash, m, pool, p - 1, before, table, slots);
      var st := ScanAll(hash, m, table, Start(before), pool[..p - 1]);
      ScanNext(hash, m, table, Start(before), pool, p - 1);
      ScanMatchesOne(hash, m, pool, p - 1, before, table, slots, st);
    }
  }

  lemma ScanMatchesOne(hash: SipHash, m: Message, pool: seq<Tx>, p: nat, before: seq<Option<Tx>>,
                       table: map<nat, nat>, slots: seq<nat>, st: Scan)
    requires p < |pool| && InRange(table, st) && SlotsFor(st.slots, m, slots) && SameOutside(before, st.slots, slots)
    requires TableFor(table, m.shortIds, slots) && Distinct(m.shortIds)
    requires MarkedOnly(st.have, slots) && AllMatched(hash, m, pool[..p], st.slots, st.have, slots)
    ensures var r := ScanOne(hash, m, table, st, pool[p]);
      && SlotsFor(r.slots, m, slots) && SameOutside(before, r.slots, slots) && MarkedOnly(r.have, slots)
      && AllMatched(hash, m, pool[..p + 1], r.slots, r.have, slots)
  {
    assert |m.shortIds| == |slots|;
    hide TableFor, Distinct, SlotsFor, SameOutside, AllMatched, ShortId;
    var id := ShortId(hash, m.header, m.nonce, pool[p]);
    if id in table {
      var i := FindId(table, m.shortIds, slots, id);
      var x := if st.have[slots[i]] then None else Some(pool[p]);
      SlotInRange(st.slots, m, slots, i);
      Hit(hash, m, pool, p, st.slots, st.have, slots, i);
      StillOutside(before, st.slots, m, slots, i, x);
      var r := ScanOne(hash, m, table, st, pool[p]);
      assert r.slots == st.slots[slots[i] := x] && r.have == st.have[slots[i] := true];
    } else {
      NotAnnounced(table, m.shortIds, slots, id);
      Miss(hash, m, pool, p, st.slots, st.have, slots);
    }
  }

  lemma NothingSeen(hash: SipHash, m: Message, pool: seq<Tx>, a: seq<Option<Tx>>, have: seq<bool>, slots: seq<nat>)
    requires |have| == |a| && SlotsFor(a, m, slots)
    requires forall s: nat | s < |have| :: !have[s]
    requires forall i: nat | i < |slots| :: a[slots[i]] == None
    ensures AllMatched(hash, m, pool[..0], a, have, slots) && SameOutside(a, a, slots)
  {
  }

  lemma SlotInRange(a: seq<Option<Tx>>, m: Message, slots: seq<nat>, i: nat)
    requires SlotsFor(a, m, slots) && i < |slots|
    ensures slots[i] < |a|
  {
  }

  lemma StillOutside(before: seq<Option<Tx>>, a: seq<Option<Tx>>, m: Message, slots: seq<nat>, i: nat, x: Option<Tx>)
    requires SlotsFor(a, m, slots) && i < |slots| && SameOutside(before, a, slots)
    ensures SameOutside(before, a[slots[i] := x], slots) && SlotsFor(a[slots[i] := x], m, slots)
  {
    assert slots[i] in slots;
  }

  lemma NotAnnounced(table: map<nat, nat>, ids: seq<nat>, slots: seq<nat>, id: nat)
    requires |ids| <= |slots| && TableFor(table, ids, slots) && id !in table
    ensures id !in ids
  {
    assert id !in table.Keys;
  }

  lemma Report(hash: SipHash, m: Message, seen: seq<Tx>, a: seq<Option<Tx>>, have: seq<bool>, slots: seq<nat>)
    requires |have| == |a| && SlotsFor(a, m, slots) && AllMatched(hash, m, seen, a, have, slots)
    ensures forall i: nat | i < |slots| :: a[slots[i]] == Only(Matching(hash, m, seen, m.shortIds[i]))
  {
    forall i: nat | i < |slots|
      ensures a[slots[i]] == Only(Matching(hash, m, seen, m.shortIds[i]))
    {
      assert Matched(hash, m, seen, a, have, slots, i);
    }
  }

  // ---------- The partially downloaded block ----------

  /** What `InitData` promises when it succeeds, after scanning a first part of the pool. */
  ghost predicate Initialised(hash: SipHash, m: Message, seen: seq<Tx>, a: seq<Option<Tx>>)
    requires WellFormed(m)
  {
    && |a| == m.BlockTxCount()
    && SlotsFor(a, m, Slots(m))
    && (forall k: nat | k < |m.prefilled| ::
          Pos(m.prefilled, k) < |a| && a[Pos(m.prefilled, k)] == Some(m.prefilled[k].tx))
    && (forall i: nat | i < |m.shortIds| :: a[Slots(m)[i]] == Only(Matching(hash, m, seen, m.shortIds[i])))
  }

  /** The receiver's scan, from the slots after placing the prefilled transactions and with the slot numbers stored. */
  ghost function Received(hash: SipHash, m: Message, seen: seq<Tx>): Scan
    requires WellFormed(m)
  {
    TableInRange(m);
    ScanAll(hash, m, ReceivedTable(m), Start(Placed(m, |m.prefilled|)), seen)
  }

  ghost function ReceivedTable(m: Message): map<nat, nat>
    requires WellFormed(m)
  {
    GapCount(m, |m.prefilled|);
    Table(m.shortIds, Stored(Slots(m)))
  }

  lemma {:induction false} TableValues(ids: seq<nat>, slots: seq<nat>, id: nat)
    requires |ids| <= |slots| && id in Table(ids, slots)
    ensures Table(ids, slots)[id] in slots
  {
    var n := |ids| - 1;
    if id != ids[n] {
      TableValues(ids[..n], slots, id);
    }
  }

  /** The slot numbers stored are always within range, even when they are not the right ones. */
  lemma TableInRange(m: Message)
    requires WellFormed(m)
    ensures InRange(ReceivedTable(m), Start(Placed(m, |m.prefilled|)))
  {
    var a, table := Placed(m, |m.prefilled|), ReceivedTable(m);
    GapCount(m, |m.prefilled|);
    hide Placed, Table, Slots, Stored;
    forall id | id in table
      ensures table[id] < |a|
    {
      TableValues(m.shortIds, Stored(Slots(m)), id);
      StoredInRange(m, table[id]);
    }
  }

  lemma StoredInRange(m: Message, s: nat)
    requires WellFormed(m) && s in Stored(Slots(m))
    ensures s < m.BlockTxCount() && s < U16
  {
    GapsAre(Placed(m, |m.prefilled|));
    hide Placed, Gaps;
  }

  lemma ReceivedScan(hash: SipHash, m: Message, seen: seq<Tx>)
    requires WellFormed(m) && Distinct(m.shortIds) && m.BlockTxCount() <= U16
    ensures var st := Received(hash, m, seen);
      && |st.have| == |st.slots|
      && SlotsFor(st.slots, m, Slots(m)) && SameOutside(Placed(m, |m.prefilled|), st.slots, Slots(m))
      && MarkedOnly(st.have, Slots(m)) && AllMatched(hash, m, seen, st.slots, st.have, Slots(m))
  {
    TableInRange(m);
    PlacedReady(m);
    SlotsStored(m);
    TableIs(m.shortIds, Slots(m));
    hide Placed, Distinct, TableFor, Table, Start, Slots, Stored, SameOutside, MarkedOnly, AllMatched;
    assert seen[..|seen|] == seen;
    ScanMatches(hash, m, seen, |seen|, Placed(m, |m.prefilled|), ReceivedTable(m), Slots(m));
  }

  /** Up to 65536 transactions the receiver has what it should have, whatever the pool. */
  lemma ReceivedRight(hash: SipHash, m: Message, seen: seq<Tx>)
    requires WellFormed(m) && Distinct(m.shortIds) && m.BlockTxCount() <= U16
    ensures var st := Received(hash, m, seen);
      && Initialised(hash, m, seen, st.slots)
      && (Counted(st) ==> st.count == |Filled(st.slots, Slots(m))|)
  {
    var st, slots := Received(hash, m, seen), Slots(m);
    ReceivedScan(hash, m, seen);
    hide Placed, Distinct, Slots, Received, Matching, AllMatched, MarkedOnly, SameOutside, Pos;
    Report(hash, m, seen, st.slots, st.have, slots);
    forall k: nat | k < |m.prefilled|
      ensures Pos(m.prefilled, k) < |st.slots| && st.slots[Pos(m.prefilled, k)] == Some(m.prefilled[k].tx)
    {
      KeepsPrefilled(m, st.slots, k);
    }
    HeldIsFilled(hash, m, seen, st);
  }

  lemma HeldIsFilled(hash: SipHash, m: Message, seen: seq<Tx>, st: Scan)
    requires WellFormed(m) && |st.have| == |st.slots| && SlotsFor(st.slots, m, Slots(m))
    requires AllMatched(hash, m, seen, st.slots, st.have, Slots(m))
    requires MarkedOnly(st.have, Slots(m))
    ensures st.Held() == Filled(st.slots, Slots(m))
  {
    var slots := Slots(m);
    hide Slots, Matching;
    forall s: nat | s in slots && st.slots[s].Some?
      ensures st.have[s]
    {
      var i: nat :| i < |slots| && slots[i] == s;
      assert Matched(hash, m, seen, st.slots, st.have, slots, i);
    }
  }

  /** Beyond 65536, a transaction that matches the last short id lands 65536 slots or more too low. */
  lemma ReceivedWrong(hash: SipHash, m: Message, t: Tx)
    requires WellFormed(m) && Distinct(m.shortIds) && m.BlockTxCount() > U16
    requires m.shortIds != [] && ShortId(hash, m.header, m.nonce, t) == m.shortIds[|m.shortIds| - 1]
    ensures var a, last := Received(hash, m, [t]).slots, m.BlockTxCount() - 1;
      |a| == last + 1 && a[last % U16] == Some(t) && a[last].None? && !Initialised(hash, m, [t], a)
  {
    var n, last := |m.shortIds| - 1, m.BlockTxCount() - 1;
    var before, table := Placed(m, |m.prefilled|), ReceivedTable(m);
    SlotsStored(m);
    TableInRange(m);
    PlacedTopEmpty(m);
    TableIs(m.shortIds, Stored(Slots(m)));
    hide Placed, Distinct, Table, Slots, Pos, ShortId, ScanAll, Start, Matching;
    assert m.shortIds[n] in table && table[m.shortIds[n]] == last % U16;
    ScanSingle(hash, m, table, before, t);
    OnlyOne(hash, m, t);
    assert Slots(m)[n] == last;
  }

  lemma ScanSingle(hash: SipHash, m: Message, table: map<nat, nat>, before: seq<Option<Tx>>, t: Tx)
    requires InRange(table, Start(before)) && ShortId(hash, m.header, m.nonce, t) in table
    ensures ScanAll(hash, m, table, Start(before), [t]).slots ==
      before[table[ShortId(hash, m.header, m.nonce, t)] := Some(t)]
  {
  }

  lemma OnlyOne(hash: SipHash, m: Message, t: Tx)
    ensures Only(Matching(hash, m, [t], ShortId(hash, m.header, m.nonce, t))) == Some(t)
  {
  }

  lemma {:induction false} PosOfZeros(pre: seq<Prefilled>, k: nat)
    requires k < |pre| && forall i | 0 <= i < |pre| :: pre[i].index == 0
    ensures Pos(pre, k) == k
  {
    if k > 0 {
      PosOfZeros(pre, k - 1);
    }
  }

  /** A well-formed message that sends the inner loop round forever. */
  lemma EndlessMessage(header: Header, nonce: nat, tx: Tx, ids: seq<nat>)
    requires !tx.isNull && ids != []
    ensures var m := Message(header, nonce, ids, seq(U16, _ => Prefilled(0, tx)));
      WellFormed(m) && m.BlockTxCount() == U16 + |ids| && Spins(Placed(m, U16), 0, 0)
  {
    var m := Message(header, nonce, ids, seq(U16, _ => Prefilled(0, tx)));
    hide Placed, Pos, Spins;
    forall k: nat | k < U16
      ensures Fits(m, k)
    {
      PosOfZeros(m.prefilled, k);
    }
    assert WellFormed(m);
    AllTakenExactly(m);
    SpinsWhenTaken(Placed(m, U16), 0);
  }

  /** One prefilled transaction and 65536 short ids: the match of the last one replaces the prefilled transaction. */
  lemma PrefilledReplaced(hash: SipHash, header: Header, nonce: nat, first: Tx, t: Tx)
    requires !first.isNull
    ensures var id := ShortId(hash, header, nonce, t);
      var m := Message(header, nonce, seq(U16, i => (id + U16 - 1 - i) % SHORT_ID_RANGE), [Prefilled(0, first)]);
      && WellFormed(m) && Distinct(m.shortIds) && |Received(hash, m, [t]).slots| == U16 + 1
      && Received(hash, m, [t]).slots[0] == Some(t) && Received(hash, m, [t]).slots[U16].None?
  {
    var id := ShortId(hash, header, nonce, t);
    var m := Message(header, nonce, seq(U16, i => (id + U16 - 1 - i) % SHORT_ID_RANGE), [Prefilled(0, first)]);
    assert Fits(m, 0);
    assert m.shortIds[U16 - 1] == id;
    hide Received, ShortId, Initialised;
    ReceivedWrong(hash, m, t);
  }

  /** The slots are right for every pool exactly when there are at most 65536, if the last short id is anyone's. */
  lemma ReceivedExactly(hash: SipHash, m: Message, t: Tx)
    requires WellFormed(m) && Distinct(m.shortIds)
    requires m.shortIds != [] ==> ShortId(hash, m.header, m.nonce, t) == m.shortIds[|m.shortIds| - 1]
    ensures (forall seen :: Initialised(hash, m, seen, Received(hash, m, seen).slots)) <==> m.BlockTxCount() <= U16
  {
    hide Initialised, Received, Distinct, ShortId;
    if m.BlockTxCount() <= U16 {
      forall seen
        ensures Initialised(hash, m, seen, Received(hash, m, seen).slots)
      {
        ReceivedRight(hash, m, seen);
      }
    } else {
      SlotsStored(m);
      ReceivedWrong(hash, m, t);
    }
  }

  lemma PlacedReady(m: Message)
    requires WellFormed(m)
    ensures var a := Placed(m, |m.prefilled|);
      SlotsFor(a, m, Slots(m)) && forall i: nat | i < |Slots(m)| :: a[Slots(m)[i]] == None
  {
    GapCount(m, |m.prefilled|);
    GapsAre(Placed(m, |m.prefilled|));
  }

  lemma KeepsPrefilled(m: Message, a: seq<Option<Tx>>, k: nat)
    requires WellFormed(m) && SameOutside(Placed(m, |m.prefilled|), a, Slots(m)) && k < |m.prefilled|
    ensures Pos(m.prefilled, k) < |a| && a[Pos(m.prefilled, k)] == Some(m.prefilled[k].tx)
  {
    PlacedAt(m, |m.prefilled|, k);
    GapsAre(Placed(m, |m.prefilled|));
  }

  class PartialBlock {
    var header: Header
    var txnAvailable: seq<Option<Tx>>
    var prefilledCount: nat
    var mempoolCount: nat

    constructor ()
      ensures header.isNull && txnAvailable == [] && prefilledCount == 0 && mempoolCount == 0
    {
      header := Header(true, []);
      txnAvailable := [];
      prefilledCount := 0;
      mempoolCount := 0;
    }

    /** The loop over the prefilled transactions. */
    method PlacePrefilled(m: Message) returns (ok: bool)
      modifies this`txnAvailable
      ensures ok <==> WellFormed(m)
      ensures ok ==> txnAvailable == Placed(m, |m.prefilled|)
    {
      txnAvailable := seq(m.BlockTxCount(), _ => None);
      var last: int := -1;
      for i := 0 to |m.prefilled|
        invariant last == if i == 0 then -1 else Pos(m.prefilled, i - 1)
        invariant FitUpTo(m, i)
        invariant txnAvailable == Placed(m, i)
      {
        last := last + m.prefilled[i].index + 1;
        if m.prefilled[i].tx.isNull || last >= U16 || last > |m.shortIds| + i {
          assert !Fits(m, i);
          return false;
        }
        assert Fits(m, i);
        txnAvailable := txnAvailable[last := Some(m.prefilled[i].tx)];
      }
      ok := true;
    }

    /** `InitData`. `limit` is the largest transaction count a block can have. */
    method InitData(hash: SipHash, m: Message, limit: nat, pool: seq<Tx>, crowded: nat)
      returns (status: ReadStatus, ghost scanned: nat)
      requires header.isNull && txnAvailable == [] && mempoolCount == 0
      modifies this
      ensures status == Invalid <==>
        m.header.isNull || m.BlockTxCount() == 0 || m.BlockTxCount() > limit || !WellFormed(m)
      ensures status == Endless <==> status != Invalid && |m.prefilled| == U16 && m.shortIds != []
      ensures status == Failed ==> crowded < |m.shortIds| || !Distinct(m.shortIds)
      ensures status == Ok ==> crowded >= |m.shortIds| && Distinct(m.shortIds)
      ensures status == Ok ==> header == m.header && prefilledCount == |m.prefilled|
      ensures status == Ok ==> scanned <= |pool| && (scanned == |pool| || mempoolCount == |m.shortIds|)
      ensures status == Ok ==>
        var st := Received(hash, m, pool[..scanned]);
        txnAvailable == st.slots && mempoolCount == st.count && Counted(st)
      ensures status == Ok && m.BlockTxCount() <= U16 ==>
        && Initialised(hash, m, pool[..scanned], txnAvailable)
        && mempoolCount == |Filled(txnAvailable, Slots(m))|
    {
      scanned := 0;
      if m.header.isNull || (|m.shortIds| == 0 && |m.prefilled| == 0) || m.BlockTxCount() > limit {
        return Invalid, 0;
      }
      header := m.header;
      var ok := PlacePrefilled(m);
      if !ok {
        return Invalid, 0;
      }
      prefilledCount := |m.prefilled|;
      GapCount(m, |m.prefilled|);
      PlacedTopEmpty(m);
      AllTakenExactly(m);
      TableInRange(m);
      hide Placed, Distinct, Table, AllTaken, TopEmpty, Start, ScanAll, Stored, Gaps, WellFormed, Initialised, Filled,
           Counted, GoesOn, InRange, TableFor;
      var table;
      status, table := MapSlots(m.shortIds, txnAvailable, crowded);
      if status != Ok {
        return status, 0;
      }
      txnAvailable, mempoolCount, scanned := MatchPool(hash, m, pool, txnAvailable, table);
      TableIs(m.shortIds, Stored(Slots(m)));
      TableSize(table, m.shortIds, Stored(Slots(m)));
      if m.BlockTxCount() <= U16 {
        ReceivedRight(hash, m, pool[..scanned]);
      }
    }

    method IsTxAvailable(index: nat) returns (r: bool)
      requires !header.isNull && index < |txnAvailable|
      ensures r <==> index !in Gaps(txnAvailable)
    {
      GapsAre(txnAvailable);
      r := txnAvailable[index].Some?;
    }

    /** `FillBlock`: too few or too many transactions are rejected; otherwise the block check decides. */
    method FillBlock(missing: seq<Tx>, check: Block -> Verdict) returns (status: ReadStatus, block: Block)
      requires !header.isNull
      ensures |missing| != |Gaps(txnAvailable)| ==> status == Invalid
      ensures |missing| == |Gaps(txnAvailable)| ==>
        && block.header == header
        && Completes(block.vtx, txnAvailable, missing)
        && (status == Ok <==> check(block) == Accepted)
        && (status == Failed <==> check(block) == Corrupted)
        && (status == Invalid <==> check(block) == Rejected)
    {
      block := Block(header, []);
      var offset := 0;
      for i := 0 to |txnAvailable|
        invariant |block.vtx| == i && block.header == header
        invariant offset == |Gaps(txnAvailable[..i])| <= |missing|
        invariant Completes(block.vtx, txnAvailable[..i], missing[..offset])
      {
        GapsStep(txnAvailable, i);
        CompletesStep(block.vtx, txnAvailable, missing, i, offset);
        if txnAvailable[i].None? {
          if |missing| <= offset {
            GapsPrefix(txnAvailable, i + 1);
            return Invalid, block;
          }
          block := block.(vtx := block.vtx + [missing[offset]]);
          offset := offset + 1;
        } else {
          block := block.(vtx := block.vtx + [txnAvailable[i].value]);
        }
      }
      assert txnAvailable[..|txnAvailable|] == txnAvailable;
      if |missing| != offset {
        return Invalid, block;
      }
      assert missing[..offset] == missing;
      match check(block)
      case Accepted => status := Ok;
      case Corrupted => status := Failed;
      case Rejected => status := Invalid;
    }
  }

  /** The block's transactions are the available ones in their slots and the missing ones in the gaps, in order. */
  predicate Completes(vtx: seq<Tx>, a: seq<Option<Tx>>, missing: seq<Tx>) {
    && |vtx| == |a| && |missing| == |Gaps(a)|
    && (forall s: nat | s < |a| && a[s].Some? :: vtx[s] == a[s].value)
    && (forall k: nat | k < |missing| :: Gaps(a)[k] < |vtx| && vtx[Gaps(a)[k]] == missing[k])
  }

  lemma CompletesStep(vtx: seq<Tx>, a: seq<Option<Tx>>, missing: seq<Tx>, i: nat, k: nat)
    requires i < |a| && |vtx| == i && k == |Gaps(a[..i])| <= |missing|
    requires Completes(vtx, a[..i], missing[..k])
    ensures a[i].Some? ==> Completes(vtx + [a[i].value], a[..i + 1], missing[..k])
    ensures a[i].None? && k < |missing| ==> Completes(vtx + [missing[k]], a[..i + 1], missing[..k + 1])
  {
    GapsStep(a, i);
    hide Gaps;
    var b, c := a[..i], a[..i + 1];
    assert forall s: nat | s < i :: c[s] == b[s];
    if a[i].Some? {
      assert Gaps(c) == Gaps(b);
    } else if k < |missing| {
      assert Gaps(c) == Gaps(b) + [i];
      var more := missing[..k + 1];
      assert forall j: nat | j < k :: more[j] == missing[..k][j];
    }
  }

  /** There is only one way to complete a block. */
  lemma CompletesUniquely(vtx: seq<Tx>, other: seq<Tx>, a: seq<Option<Tx>>, missing: seq<Tx>)
    requires Completes(vtx, a, missing) && Completes(other, a, missing)
    ensures vtx == other
  {
    GapsAre(a);
    forall s: nat | s < |a|
      ensures vtx[s] == other[s]
    {
      if a[s].None? {
        var k: nat :| k < |Gaps(a)| && Gaps(a)[k] == s;
      }
    }
  }

  // ---------- The whole exchange ----------

  /** `CBlockHeaderAndShortTxIDs`: the first transaction in full, the others by their short ids. */
  method Announce(hash: SipHash, block: Block, nonce: nat) returns (m: Message)
    requires |block.vtx| > 0
    ensures Announces(hash, block, nonce, m)
  {
    var shortIds: seq<nat> := [];
    for i := 1 to |block.vtx|
      invariant |shortIds| == i - 1
      invariant forall k | 0 <= k < i - 1 :: shortIds[k] == ShortId(hash, block.header, nonce, block.vtx[k + 1])
    {
      shortIds := shortIds + [ShortId(hash, block.header, nonce, block.vtx[i])];
    }
    m := Message(block.header, nonce, shortIds, [Prefilled(0, block.vtx[0])]);
  }

  predicate Announces(hash: SipHash, block: Block, nonce: nat, m: Message) {
    && m.header == block.header && m.nonce == nonce
    && |block.vtx| > 0 && m.prefilled == [Prefilled(0, block.vtx[0])]
    && |m.shortIds| == |block.vtx| - 1
    && forall i | 0 <= i < |m.shortIds| :: m.shortIds[i] == ShortId(hash, block.header, nonce, block.vtx[i + 1])
  }

  /** A pool transaction with the short id of a block transaction is that transaction. */
  predicate Genuine(hash: SipHash, block: Block, nonce: nat, pool: seq<Tx>) {
    forall p, i | 0 <= p < |pool| && 0 < i < |block.vtx| ::
      SameId(hash, block, nonce, pool[p], block.vtx[i]) ==> pool[p] == block.vtx[i]
  }

  predicate SameId(hash: SipHash, block: Block, nonce: nat, t: Tx, u: Tx) {
    ShortId(hash, block.header, nonce, t) == ShortId(hash, block.header, nonce, u)
  }

  lemma AnnouncedForm(hash: SipHash, block: Block, nonce: nat, m: Message)
    requires Announces(hash, block, nonce, m)
    ensures WellFormed(m) <==> !block.vtx[0].isNull
    ensures Pos(m.prefilled, 0) == 0
  {
    assert WellFormed(m) ==> Fits(m, 0);
  }

  lemma {:induction false} GapsAfterFirst(a: seq<Option<Tx>>)
    requires |a| > 0 && a[0].Some? && forall s | 0 < s < |a| :: a[s].None?
    ensures |Gaps(a)| == |a| - 1 && forall i: nat | i < |Gaps(a)| :: Gaps(a)[i] == i + 1
  {
    var n := |a| - 1;
    if n == 0 {
      assert a[..0] == [];
    } else {
      GapsAfterFirst(a[..n]);
    }
  }

  /** In an announcement each short id belongs to the slot after it. */
  lemma AnnouncedSlots(hash: SipHash, block: Block, nonce: nat, m: Message)
    requires Announces(hash, block, nonce, m) && WellFormed(m)
    ensures |Slots(m)| == |m.shortIds| && forall i: nat | i < |m.shortIds| :: Slots(m)[i] == i + 1
  {
    AnnouncedForm(hash, block, nonce, m);
    var a := Placed(m, 1);
    PlacedAt(m, 1, 0);
    forall s | 0 < s < |a|
      ensures a[s].None?
    {
      PlacedNowhereElse(m, 1, s);
    }
    GapsAfterFirst(a);
  }

  /** Every slot the receiver has filled holds the block's own transaction. */
  lemma AvailableIsReal(hash: SipHash, block: Block, nonce: nat, m: Message, pool: seq<Tx>, seen: seq<Tx>,
                        a: seq<Option<Tx>>, s: nat)
    requires Announces(hash, block, nonce, m) && WellFormed(m) && Genuine(hash, block, nonce, pool)
    requires seen <= pool && Initialised(hash, m, seen, a) && s < |a| == |block.vtx| && a[s].Some?
    ensures a[s].value == block.vtx[s]
  {
    AnnouncedForm(hash, block, nonce, m);
    AnnouncedSlots(hash, block, nonce, m);
    hide Slots, Matching;
    if s == 0 {
      assert a[Pos(m.prefilled, 0)] == Some(m.prefilled[0].tx);
    } else {
      var i: nat := s - 1;
      assert a[Slots(m)[i]] == Only(Matching(hash, m, seen, m.shortIds[i]));
      MatchingFrom(hash, m, seen, m.shortIds[i], 0);
      var p: nat :| p < |seen| && seen[p] == a[s].value;
      assert pool[p] == a[s].value;
      assert SameId(hash, block, nonce, pool[p], block.vtx[s]);
    }
  }

  /** The request lists the empty slots, and the answer holds the block's transactions at them. */
  predicate Answers(block: Block, a: seq<Option<Tx>>, missing: seq<Tx>) {
    && |missing| == |Gaps(a)|
    && forall k: nat | k < |missing| :: Gaps(a)[k] < |block.vtx| && missing[k] == block.vtx[Gaps(a)[k]]
  }

  /** Filling an announced block with the answer gives back the block's transactions and nothing else. */
  lemma Reconstructs(hash: SipHash, block: Block, nonce: nat, m: Message, pool: seq<Tx>, seen: seq<Tx>,
                     a: seq<Option<Tx>>, missing: seq<Tx>, vtx: seq<Tx>)
    requires Announces(hash, block, nonce, m) && WellFormed(m) && Genuine(hash, block, nonce, pool)
    requires seen <= pool && Initialised(hash, m, seen, a) && Answers(block, a, missing) && Completes(vtx, a, missing)
    ensures vtx == block.vtx
  {
    hide Initialised, Genuine, Announces, Slots, Gaps;
    SameCount(hash, block, nonce, m, seen, a);
    forall s: nat | s < |a| && a[s].Some?
      ensures block.vtx[s] == a[s].value
    {
      AvailableIsReal(hash, block, nonce, m, pool, seen, a, s);
    }
    assert Completes(block.vtx, a, missing);
    CompletesUniquely(vtx, block.vtx, a, missing);
  }

  lemma SameCount(hash: SipHash, block: Block, nonce: nat, m: Message, seen: seq<Tx>, a: seq<Option<Tx>>)
    requires Announces(hash, block, nonce, m) && WellFormed(m) && Initialised(hash, m, seen, a)
    ensures |a| == |block.vtx|
  {
  }

  /** The handler of an announcement asks for every slot it has nothing for; the indexes are 16-bit words. */
  method Request(partial: PartialBlock) returns (indexes: seq<nat>)
    requires !partial.header.isNull
    ensures indexes == Stored(Gaps(partial.txnAvailable))
  {
    indexes := [];
    for i := 0 to |partial.txnAvailable|
      invariant indexes == Stored(Gaps(partial.txnAvailable[..i]))
    {
      GapsStep(partial.txnAvailable, i);
      GapsAre(partial.txnAvailable);
      hide Gaps;
      var available := partial.IsTxAvailable(i);
      if !available {
        indexes := indexes + [i % U16];
      }
    }
    assert partial.txnAvailable[..|partial.txnAvailable|] == partial.txnAvailable;
  }

  /** The handler of a request: the transactions at the indexes, or nothing when one is out of bounds. */
  method Respond(block: Block, indexes: seq<nat>) returns (r: Option<seq<Tx>>)
    ensures r.Some? <==> forall i: nat | i < |indexes| :: indexes[i] < |block.vtx|
    ensures r.Some? ==>
      && |r.value| == |indexes|
      && forall i: nat | i < |indexes| :: indexes[i] < |block.vtx| && r.value[i] == block.vtx[indexes[i]]
  {
    var txn: seq<Tx> := [];
    for i := 0 to |indexes|
      invariant |txn| == i
      invariant forall k: nat | k < i :: indexes[k] < |block.vtx| && txn[k] == block.vtx[indexes[k]]
    {
      if indexes[i] >= |block.vtx| {
        return None;
      }
      txn := txn + [block.vtx[indexes[i]]];
    }
    r := Some(txn);
  }

  /**
   Sender and receiver together: the announcement, the receiver's slots, the encoded request, its answer and the
   filled block. Up to 65536 transactions the result is the sender's block. Beyond that, an accepted block would have
   an earlier transaction of the sender's block in its last place.
   */
  method Relay(hash: SipHash, block: Block, nonce: nat, limit: nat, pool: seq<Tx>, crowded: nat,
               check: Block -> Verdict)
    returns (accepted: bool, result: Block)
    requires 0 < |block.vtx| && Genuine(hash, block, nonce, pool)
    ensures accepted && |block.vtx| <= U16 ==> result == block
    ensures |block.vtx| <= U16 ==> (accepted <==>
      && !block.header.isNull && |block.vtx| <= limit && !block.vtx[0].isNull && crowded >= |block.vtx| - 1
      && DistinctIds(hash, block, nonce) && check(block) == Accepted)
    ensures accepted && |block.vtx| > U16 ==>
      var last := |block.vtx| - 1;
      |result.vtx| == |block.vtx| && result.vtx[last] == block.vtx[last % U16] && check(result) == Accepted
  {
    accepted, result := false, block;
    var m := Announce(hash, block, nonce);
    var partial := new PartialBlock();
    var status;
    ghost var scanned;
    status, scanned := partial.InitData(hash, m, limit, pool, crowded);
    AnnouncedForm(hash, block, nonce, m);
    AnnouncedIds(hash, block, nonce, m);
    hide WellFormed, Initialised, Genuine, Gaps, Distinct, DistinctIds, Filled, Words, Increasing, Stored, Received,
         ReceivedTable, Slots, TopEmpty, Answers, Completes, Counted;
    if status != Ok {
      return;
    }
    ghost var a := partial.txnAvailable;
    ReceivedCount(hash, m, pool[..scanned]);
    LastEmpty(hash, m, pool[..scanned]);
    ghost var missing;
    accepted, result, missing := Exchange(partial, block, check);
    if |block.vtx| <= U16 {
      Reconstructs(hash, block, nonce, m, pool, pool[..scanned], a, missing, result.vtx);
    }
  }

  /** The request, its encoding, its answer and the filled block. */
  method Exchange(partial: PartialBlock, block: Block, check: Block -> Verdict)
    returns (accepted: bool, result: Block, ghost missing: seq<Tx>)
    requires !partial.header.isNull && |partial.txnAvailable| == |block.vtx| > 0 && TopEmpty(partial.txnAvailable)
    ensures accepted ==> check(result) == Accepted
    ensures |block.vtx| <= U16 ==>
      && result.header == partial.header
      && Answers(block, partial.txnAvailable, missing) && Completes(result.vtx, partial.txnAvailable, missing)
      && (accepted <==> check(result) == Accepted)
    ensures accepted && |block.vtx| > U16 ==>
      var last := |block.vtx| - 1; |result.vtx| == |block.vtx| && result.vtx[last] == block.vtx[last % U16]
  {
    accepted, result, missing := false, block, [];
    ghost var a := partial.txnAvailable;
    assert |a| > U16 ==> a[|a| - 1].None?;
    hide Gaps, Words, Increasing, Stored, EncodedFrom, DecodedFrom, TopEmpty;
    var indexes := Request(partial);
    RequestForm(a);
    EncodeDecode(indexes);
    var numbers := Encode(indexes);
    SameLength(0, indexes);
    var received := Decode(|indexes|, numbers);
    assert numbers[..|indexes|] == numbers;
    if received.None? {
      return;
    }
    var answer := Respond(block, received.value);
    if answer.None? {
      return;
    }
    missing := answer.value;
    var status;
    status, result := partial.FillBlock(answer.value, check);
    accepted := status == Ok;
    if |block.vtx| > U16 {
      LastRequested(block, a, missing, result.vtx);
    }
  }

  lemma ReceivedCount(hash: SipHash, m: Message, seen: seq<Tx>)
    requires WellFormed(m)
    ensures |Received(hash, m, seen).slots| == m.BlockTxCount()
  {
  }

  lemma {:induction false} ScanKeepsTop(hash: SipHash, m: Message, table: map<nat, nat>, st: Scan, pool: seq<Tx>)
    requires InRange(table, st) && TopEmpty(st.slots) && forall id | id in table :: table[id] < U16
    ensures TopEmpty(ScanAll(hash, m, table, st, pool).slots)
  {
    if pool != [] {
      ScanKeepsTop(hash, m, table, st, pool[..|pool| - 1]);
      hide ShortId;
    }
  }

  /** Beyond 65536 slots the last one is never filled. */
  lemma LastEmpty(hash: SipHash, m: Message, seen: seq<Tx>)
    requires WellFormed(m)
    ensures TopEmpty(Received(hash, m, seen).slots)
  {
    var table := ReceivedTable(m);
    TableInRange(m);
    PlacedTopEmpty(m);
    GapCount(m, |m.prefilled|);
    hide Placed, Table, Slots;
    forall id | id in table
      ensures table[id] < U16
    {
      TableValues(m.shortIds, Stored(Slots(m)), id);
      StoredInRange(m, table[id]);
    }
    ScanKeepsTop(hash, m, table, Start(Placed(m, |m.prefilled|)), seen);
  }

  /** The last place of a filled block, when its slot was empty and its index does not fit 16 bits. */
  lemma LastRequested(block: Block, a: seq<Option<Tx>>, missing: seq<Tx>, vtx: seq<Tx>)
    requires a != [] && a[|a| - 1].None? && Completes(vtx, a, missing)
    requires forall k: nat | k < |missing| ::
      Stored(Gaps(a))[k] < |block.vtx| && missing[k] == block.vtx[Stored(Gaps(a))[k]]
    ensures (|a| - 1) % U16 < |block.vtx| && vtx[|a| - 1] == block.vtx[(|a| - 1) % U16]
  {
  }

  lemma {:induction false} SameLength(low: nat, indexes: seq<nat>)
    ensures |EncodedFrom(low, indexes)| == |indexes|
    decreases |indexes|
  {
    if indexes != [] {
      SameLength(indexes[0] + 1, indexes[1..]);
    }
  }

  lemma RequestForm(a: seq<Option<Tx>>)
    ensures Words(Stored(Gaps(a)))
    ensures |a| <= U16 ==> Stored(Gaps(a)) == Gaps(a) && Increasing(Gaps(a))
    ensures forall i: nat | i < |Gaps(a)| :: Gaps(a)[i] < |a|
  {
    GapsAre(a);
    hide Gaps;
    if |a| <= U16 {
      SmallGaps(a);
    }
  }

  /** No two transactions after the first share a short id. */
  predicate DistinctIds(hash: SipHash, block: Block, nonce: nat) {
    forall i, j | 0 < i < j < |block.vtx| :: !SameId(hash, block, nonce, block.vtx[i], block.vtx[j])
  }

  lemma AnnouncedIds(hash: SipHash, block: Block, nonce: nat, m: Message)
    requires Announces(hash, block, nonce, m)
    ensures Distinct(m.shortIds) <==> DistinctIds(hash, block, nonce)
  {
    if Distinct(m.shortIds) {
      forall i, j | 0 < i < j < |block.vtx|
        ensures !SameId(hash, block, nonce, block.vtx[i], block.vtx[j])
      {
        assert m.shortIds[i - 1] != m.shortIds[j - 1];
      }
    }
    if DistinctIds(hash, block, nonce) {
      forall i, j | 0 <= i < j < |m.shortIds|
        ensures m.shortIds[i] != m.shortIds[j]
      {
        assert !SameId(hash, block, nonce, block.vtx[i + 1], block.vtx[j + 1]);
      }
    }
  }
}

/**
 The saved form of the address manager: what `Serialize` writes and what `Unserialize` builds from it in a fresh
 manager. The stream is taken apart into its fields; the key of the bucket hashes is represented by the hashes.
 */
module AddrFile {
  import opened AddrBook
  import opened Sequences

  /** What is written of one entry. */
  datatype Record = Record(
    service: Service, nServices: set<nat>, nTime: int, source: int, nLastSuccess: int, nAttempts: int)

  datatype File = File(
    version: int, keySize: int, key: Hasher, nNew: int, nTried: int, nUBuckets: int,
    newEntries: seq<Record>, triedEntries: seq<Record>, buckets: seq<seq<int>>)

  const BIT30: int := 0x4000_0000

  /** `x ^ (1 << 30)`. */
  function FlipBit30(x: int): int {
    if x / BIT30 % 2 == 0 then x + BIT30 else x - BIT30
  }

  /** Bit 30 is flipped and the bits below and above it stay; the number of buckets gets that bit set. */
  lemma FlipsBit30(x: int)
    ensures var y := FlipBit30(x);
      && y % BIT30 == x % BIT30 && y / (2 * BIT30) == x / (2 * BIT30) && y / BIT30 % 2 == 1 - x / BIT30 % 2
      && FlipBit30(y) == x
    ensures FlipBit30(NEW_BUCKET_COUNT) == 0x4000_0400
  {
  }

  function RecordOf(e: Info): Record {
    Record(e.service, e.stats.nServices, e.stats.nTime, e.stats.source, e.stats.nLastSuccess, e.stats.nAttempts)
  }

  /** An entry as it is read: what lives only in memory starts afresh. */
  function Reload(r: Record, refs: int, tried: bool, place: int): Info {
    Info(r.service, Stats(r.nServices, r.nTime, r.source, r.nLastSuccess, 0, 0, r.nAttempts), refs, tried, place)
  }

  /** The record is read as it was written, and nothing is known of tries since. */
  lemma ReloadIs(r: Record, refs: int, tried: bool, place: int)
    ensures var e := Reload(r, refs, tried, place);
      && RecordOf(e) == r && e.stats.nLastTry == 0 && e.stats.nLastCountAttempt == 0
      && e.nRefCount == refs && e.fInTried == tried && e.nRandomPos == place
  {
  }

  // ---------- Renaming ----------

  /** The numbers from a up to b. */
  ghost function Range(a: int, b: int): (s: set<int>)
    ensures forall i :: i in s <==> a <= i < b
    ensures a <= b ==> |s| == b - a
    decreases b - a
  {
    if a >= b then {} else Range(a, b - 1) + {b - 1}
  }

  /** The old ids in the order in which they are read: all new entries, then all tried ones. */
  ghost predicate IsOrder(b: Book, ids: seq<int>) {
    && |ids| == b.nNew + b.nTried && 0 <= b.nNew && 0 <= b.nTried
    && (forall i | 0 <= i < |ids| :: ids[i] in b.info && (b.info[ids[i]].fInTried <==> i >= b.nNew))
    && (forall i, j | 0 <= i < j < |ids| :: ids[i] != ids[j])
    && (forall id | id in b.info :: id in ids)
  }

  ghost predicate SameTable(b: map<Slot, int>, r: map<Slot, int>, ids: seq<int>) {
    r.Keys == b.Keys && forall s | s in r :: s in b && 0 <= r[s] < |ids| && ids[r[s]] == b[s]
  }

  /** The two books are the same up to the ids, and what is not saved is reset. */
  ghost predicate Renamed(b: Book, r: Book, ids: seq<int>) {
    && r.info.Keys == Range(0, |ids|)
    && (forall i | 0 <= i < |ids| :: EntryRenamed(b, r, ids, i))
    && r.addr.Keys == b.addr.Keys
    && (forall ip | ip in r.addr :: ip in b.addr && 0 <= r.addr[ip] < |ids| && ids[r.addr[ip]] == b.addr[ip])
    && |r.random| == |ids| && (forall i | 0 <= i < |ids| :: r.random[i] == i)
    && SameTable(b.newTable, r.newTable, ids) && SameTable(b.triedTable, r.triedTable, ids)
    && r.nNew == b.nNew && r.nTried == b.nTried && r.nIdCount == |ids| && r.nLastGood == 1
  }

  ghost predicate EntryRenamed(b: Book, r: Book, ids: seq<int>, i: int) {
    && 0 <= i < |ids| && ids[i] in b.info && i in r.info
    && var e := b.info[ids[i]]; r.info[i] == Reload(RecordOf(e), e.nRefCount, e.fInTried, i)
  }

  // What the relations say of single ids, addresses and slots.

  lemma RenamedAt(b: Book, r: Book, ids: seq<int>, i: int)
    requires Renamed(b, r, ids) && i in r.info
    ensures EntryRenamed(b, r, ids, i) && r.random[i] == i
  {
    assert i in r.info.Keys;
  }

  lemma RenamedId(b: Book, r: Book, ids: seq<int>, i: int)
    requires Renamed(b, r, ids) && 0 <= i < |ids|
    ensures i in r.info
  {
  }

  lemma AddrAt(b: Book, r: Book, ids: seq<int>, ip: int)
    requires Renamed(b, r, ids)
    ensures ip in b.addr <==> ip in r.addr
    ensures ip in r.addr ==> 0 <= r.addr[ip] < |ids| && ids[r.addr[ip]] == b.addr[ip]
  {
    assert ip in b.addr.Keys <==> ip in r.addr.Keys;
  }

  lemma TableAt(b: map<Slot, int>, r: map<Slot, int>, ids: seq<int>, s: Slot)
    requires SameTable(b, r, ids)
    ensures s in b <==> s in r
    ensures s in r ==> 0 <= r[s] < |ids| && ids[r[s]] == b[s]
  {
    assert s in b.Keys <==> s in r.Keys;
  }

  lemma OrderAt(b: Book, ids: seq<int>, i: int, j: int)
    requires IsOrder(b, ids) && 0 <= i < |ids| && 0 <= j < |ids|
    ensures ids[i] in b.info && (b.info[ids[i]].fInTried <==> i >= b.nNew)
    ensures ids[i] == ids[j] ==> i == j
  {
  }

  lemma OldEntry(h: Hasher, b: Book, id: int)
    requires Consistent(h, b) && id in b.info
    ensures var e := b.info[id];
      && e.service.ip in b.addr && b.addr[e.service.ip] == id
      && EntryOk(e, false) && e.nRefCount == |Slots(b.newTable, id)|
      && (e.fInTried ==> h.TriedSlot(e.service) in b.triedTable && b.triedTable[h.TriedSlot(e.service)] == id)
      && e.stats.nLastSuccess >= 0 && (e.fInTried ==> e.stats.nLastSuccess != 0)
  {
    assert EntryOk(b.info[id], id in {});
  }

  lemma OldSlots(h: Hasher, b: Book, s: Slot)
    requires Consistent(h, b)
    ensures s in b.newTable ==> SlotOk(h, b.info, s, b.newTable[s])
    ensures s in b.triedTable ==> b.triedTable[s] in b.info && s == h.TriedSlot(b.info[b.triedTable[s]].service)
    ensures s in b.triedTable ==> b.info[b.triedTable[s]].fInTried
  {
  }

  // The parts of the invariant.

  lemma EntryIndexed(h: Hasher, b: Book, r: Book, ids: seq<int>, i: int)
    requires Consistent(h, b) && IsOrder(b, ids) && Renamed(b, r, ids) && i in r.info
    ensures 0 <= i < |ids| && r.info[i].service.ip in r.addr && r.addr[r.info[i].service.ip] == i
    ensures r.info[i].nRandomPos == i
  {
    hide Consistent, IsOrder, Renamed, Slots, EntryOk;
    RenamedAt(b, r, ids, i);
    OldEntry(h, b, ids[i]);
    AddrAt(b, r, ids, r.info[i].service.ip);
    OrderAt(b, ids, i, r.addr[r.info[i].service.ip]);
  }

  lemma AddressIndexed(h: Hasher, b: Book, r: Book, ids: seq<int>, ip: int)
    requires Consistent(h, b) && Renamed(b, r, ids) && ip in r.addr
    ensures r.addr[ip] in r.info && r.info[r.addr[ip]].service.ip == ip
  {
    hide Consistent, Renamed;
    AddrAt(b, r, ids, ip);
    RenamedId(b, r, ids, r.addr[ip]);
    RenamedAt(b, r, ids, r.addr[ip]);
    OldAddr(h, b, ip);
  }

  lemma RenamedSizes(b: Book, r: Book, ids: seq<int>)
    requires Renamed(b, r, ids)
    ensures r.nIdCount == |ids| == |r.random|
  {
  }

  lemma RenamedAddr(h: Hasher, b: Book, r: Book, ids: seq<int>)
    requires Consistent(h, b) && IsOrder(b, ids) && Renamed(b, r, ids)
    ensures IdsOk(r) && AddrOk(r.info, r.addr)
  {
    hide Consistent, IsOrder, Renamed;
    RenamedSizes(b, r, ids);
    forall i | i in r.info
      ensures 0 <= i < |ids| && r.info[i].service.ip in r.addr && r.addr[r.info[i].service.ip] == i
    {
      EntryIndexed(h, b, r, ids, i);
    }
    forall ip | ip in r.addr
      ensures r.addr[ip] in r.info && r.info[r.addr[ip]].service.ip == ip
    {
      AddressIndexed(h, b, r, ids, ip);
    }
  }

  lemma RenamedRandom(h: Hasher, b: Book, r: Book, ids: seq<int>)
    requires Consistent(h, b) && IsOrder(b, ids) && Renamed(b, r, ids)
    ensures RandomOk(r.info, r.random)
  {
    hide Consistent, IsOrder, Renamed;
    RenamedSizes(b, r, ids);
    forall i | i in r.info
      ensures 0 <= i < |ids| && r.info[i].nRandomPos == i && r.random[i] == i
    {
      EntryIndexed(h, b, r, ids, i);
      RenamedAt(b, r, ids, i);
    }
    forall i | 0 <= i < |r.random|
      ensures i in r.info
    {
      RenamedId(b, r, ids, i);
    }
  }

  lemma OldAddr(h: Hasher, b: Book, ip: int)
    requires Consistent(h, b) && ip in b.addr
    ensures b.addr[ip] in b.info && b.info[b.addr[ip]].service.ip == ip
  {
  }

  lemma RenamedSlots(b: Book, r: Book, ids: seq<int>, i: int)
    requires IsOrder(b, ids) && SameTable(b.newTable, r.newTable, ids) && 0 <= i < |ids|
    ensures Slots(r.newTable, i) == Slots(b.newTable, ids[i])
  {
  }

  lemma RenamedEntries(h: Hasher, b: Book, r: Book, ids: seq<int>)
    requires Consistent(h, b) && IsOrder(b, ids) && Renamed(b, r, ids)
    ensures EntriesOk(r.info, {}) && StatsOk(r.info) && CountsOk(r, 0)
  {
    assert r.nNew == b.nNew && r.nTried == b.nTried && |ids| == b.nNew + b.nTried && 0 <= b.nNew && 0 <= b.nTried;
    hide Consistent, IsOrder, Renamed, Slots;
    forall i | i in r.info
      ensures 0 <= i < |ids| && EntryOk(r.info[i], false) && (r.info[i].fInTried <==> i >= b.nNew)
      ensures r.info[i].stats.nLastTry == 0 && r.info[i].stats.nLastSuccess >= 0
      ensures r.info[i].fInTried ==> r.info[i].stats.nLastSuccess != 0
    {
      RenamedAt(b, r, ids, i);
      OldEntry(h, b, ids[i]);
      OrderAt(b, ids, i, i);
    }
    forall i
      ensures i in TriedIds(r.info) <==> i in Range(b.nNew, |ids|)
      ensures i in NewIds(r.info) <==> i in Range(0, b.nNew)
    {
      if 0 <= i < |ids| {
        RenamedId(b, r, ids, i);
      }
    }
    assert TriedIds(r.info) == Range(b.nNew, |ids|);
    assert NewIds(r.info) == Range(0, b.nNew);
  }

  lemma TriedSlotRenamed(h: Hasher, b: Book, r: Book, ids: seq<int>, s: Slot)
    requires Consistent(h, b) && Renamed(b, r, ids) && s in r.triedTable
    ensures r.triedTable[s] in r.info && r.info[r.triedTable[s]].fInTried
    ensures s == h.TriedSlot(r.info[r.triedTable[s]].service)
  {
    assert SameTable(b.triedTable, r.triedTable, ids);
    hide Consistent, Renamed, SameTable;
    TableAt(b.triedTable, r.triedTable, ids, s);
    RenamedId(b, r, ids, r.triedTable[s]);
    RenamedAt(b, r, ids, r.triedTable[s]);
    OldSlots(h, b, s);
  }

  lemma TriedEntryRenamed(h: Hasher, b: Book, r: Book, ids: seq<int>, i: int)
    requires Consistent(h, b) && IsOrder(b, ids) && Renamed(b, r, ids) && i in r.info && r.info[i].fInTried
    ensures h.TriedSlot(r.info[i].service) in r.triedTable && r.triedTable[h.TriedSlot(r.info[i].service)] == i
  {
    assert SameTable(b.triedTable, r.triedTable, ids);
    hide Consistent, IsOrder, Renamed, Slots, SameTable, EntryOk;
    RenamedAt(b, r, ids, i);
    OldEntry(h, b, ids[i]);
    var s := h.TriedSlot(r.info[i].service);
    TableAt(b.triedTable, r.triedTable, ids, s);
    OrderAt(b, ids, i, r.triedTable[s]);
  }

  lemma RenamedTried(h: Hasher, b: Book, r: Book, ids: seq<int>)
    requires Consistent(h, b) && IsOrder(b, ids) && Renamed(b, r, ids)
    ensures TriedOk(h, r.info, r.triedTable)
  {
    hide Consistent, IsOrder, Renamed;
    forall s | s in r.triedTable
      ensures r.triedTable[s] in r.info && r.info[r.triedTable[s]].fInTried
      ensures s == h.TriedSlot(r.info[r.triedTable[s]].service)
    {
      TriedSlotRenamed(h, b, r, ids, s);
    }
    forall i | i in r.info && r.info[i].fInTried
      ensures h.TriedSlot(r.info[i].service) in r.triedTable && r.triedTable[h.TriedSlot(r.info[i].service)] == i
    {
      TriedEntryRenamed(h, b, r, ids, i);
    }
  }

  lemma RenamedNew(h: Hasher, b: Book, r: Book, ids: seq<int>)
    requires Consistent(h, b) && IsOrder(b, ids) && Renamed(b, r, ids)
    ensures NewOk(h, r.info, r.newTable)
  {
    assert SameTable(b.newTable, r.newTable, ids);
    hide Consistent, IsOrder, Renamed, Slots, SameTable, EntryOk;
    forall s | s in r.newTable
      ensures SlotOk(h, r.info, s, r.newTable[s])
    {
      TableAt(b.newTable, r.newTable, ids, s);
      RenamedId(b, r, ids, r.newTable[s]);
      RenamedAt(b, r, ids, r.newTable[s]);
      OldSlots(h, b, s);
    }
    forall i | i in r.info
      ensures r.info[i].nRefCount == |Slots(r.newTable, i)|
    {
      RenamedAt(b, r, ids, i);
      OldEntry(h, b, ids[i]);
      RenamedSlots(b, r, ids, i);
    }
  }

  /** A renamed book is consistent when the original is. */
  lemma RenamedConsistent(h: Hasher, b: Book, r: Book, ids: seq<int>)
    requires Consistent(h, b) && IsOrder(b, ids) && Renamed(b, r, ids)
    ensures Consistent(h, r)
  {
    RenamedAddr(h, b, r, ids);
    RenamedRandom(h, b, r, ids);
    RenamedEntries(h, b, r, ids);
    RenamedTried(h, b, r, ids);
    RenamedNew(h, b, r, ids);
  }

  // ---------- Writing ----------

  predicate Chosen(info: map<int, Info>, id: int, tried: bool) {
    id in info && if tried then info[id].fInTried else info[id].nRefCount != 0
  }

  /** The chosen ids below n, in increasing order, as the map is iterated. */
  function Selected(info: map<int, Info>, n: nat, tried: bool): seq<int> {
    if n == 0 then []
    else Selected(info, n - 1, tried) + if Chosen(info, n - 1, tried) then [n - 1] else []
  }

  lemma {:induction false} SelectedAre(info: map<int, Info>, n: nat, tried: bool)
    ensures forall i | 0 <= i < |Selected(info, n, tried)| ::
      Chosen(info, Selected(info, n, tried)[i], tried) && 0 <= Selected(info, n, tried)[i] < n
    ensures forall i, j | 0 <= i < j < |Selected(info, n, tried)| ::
      Selected(info, n, tried)[i] < Selected(info, n, tried)[j]
  {
    if n > 0 {
      hide Chosen;
      SelectedAre(info, n - 1, tried);
    }
  }

  /** A chosen id stands at the place that counts the chosen ids below it. */
  lemma {:induction false} SelectedAt(info: map<int, Info>, n: nat, tried: bool, id: nat)
    requires id < n && Chosen(info, id, tried)
    ensures var k := |Selected(info, id, tried)|; k < |Selected(info, n, tried)| && Selected(info, n, tried)[k] == id
  {
    if id < n - 1 {
      hide Chosen;
      SelectedAt(info, n - 1, tried, id);
    }
  }

  function Records(info: map<int, Info>, ids: seq<int>): seq<Record>
    requires forall i | 0 <= i < |ids| :: ids[i] in info
  {
    seq(|ids|, i requires 0 <= i < |ids| => RecordOf(info[ids[i]]))
  }

  /** The number under which a new entry is written. */
  function Rank(info: map<int, Info>, id: int): nat {
    |Selected(info, if id < 0 then 0 else id, false)|
  }

  /** The entries of a bucket at positions below p. */
  function BucketList(b: Book, bucket: int, p: nat): seq<int> {
    if p == 0 then []
    else
      BucketList(b, bucket, p - 1) +
      if (bucket, p - 1) in b.newTable then [Rank(b.info, b.newTable[(bucket, p - 1)])] else []
  }

  function Saved(h: Hasher, b: Book): File
    requires b.nIdCount >= 0
  {
    var n := b.nIdCount;
    SelectedAre(b.info, n, false);
    SelectedAre(b.info, n, true);
    File(1, 32, h, b.nNew, b.nTried, FlipBit30(NEW_BUCKET_COUNT),
         Records(b.info, Selected(b.info, n, false)), Records(b.info, Selected(b.info, n, true)),
         seq(NEW_BUCKET_COUNT, i requires 0 <= i < NEW_BUCKET_COUNT => BucketList(b, i, BUCKET_SIZE)))
  }

  ghost function Order(b: Book): seq<int>
    requires b.nIdCount >= 0
  {
    Selected(b.info, b.nIdCount, false) + Selected(b.info, b.nIdCount, true)
  }

  ghost function Ids(info: map<int, Info>, tried: bool): set<int> {
    if tried then TriedIds(info) else NewIds(info)
  }

  lemma SelectedCount(h: Hasher, b: Book, tried: bool)
    requires Consistent(h, b)
    ensures |Selected(b.info, b.nIdCount, tried)| == |Ids(b.info, tried)|
    ensures Lists(b.info, Selected(b.info, b.nIdCount, tried), tried)
  {
    var list := Selected(b.info, b.nIdCount, tried);
    SelectedAre(b.info, b.nIdCount, tried);
    hide Selected;
    forall id
      ensures id in Ids(b.info, tried) ==> id in list
    {
      if id in Ids(b.info, tried) {
        OldEntry(h, b, id);
        assert 0 <= id < b.nIdCount;
        SelectedAt(b.info, b.nIdCount, tried, id);
      }
    }
    forall i | 0 <= i < |list|
      ensures list[i] in Ids(b.info, tried)
    {
      OldEntry(h, b, list[i]);
    }
    assert ToSet(list) == Ids(b.info, tried);
    DistinctSize(list);
  }

  /** The list holds the tried ids, or the new ones, in increasing order. */
  ghost predicate Lists(info: map<int, Info>, list: seq<int>, tried: bool) {
    && (forall i, j | 0 <= i < j < |list| :: list[i] < list[j])
    && (forall id :: id in Ids(info, tried) <==> id in list)
  }

  lemma JoinedAt(info: map<int, Info>, first: seq<int>, second: seq<int>, i: nat)
    requires Lists(info, first, false) && Lists(info, second, true) && i < |first + second|
    ensures (first + second)[i] in info && (info[(first + second)[i]].fInTried <==> i >= |first|)
  {
    var ids := first + second;
    if i < |first| {
      assert ids[i] == first[i] && first[i] in first;
    } else {
      assert ids[i] == second[i - |first|] && second[i - |first|] in second;
    }
  }

  lemma JoinedDistinct(info: map<int, Info>, first: seq<int>, second: seq<int>, i: nat, j: nat)
    requires Lists(info, first, false) && Lists(info, second, true) && i < j < |first + second|
    ensures (first + second)[i] != (first + second)[j]
  {
    if j < |first| {
      assert first[i] < first[j];
    } else if i >= |first| {
      assert second[i - |first|] < second[j - |first|];
    } else {
      JoinedAt(info, first, second, i);
      JoinedAt(info, first, second, j);
    }
  }

  lemma JoinedOrder(b: Book, first: seq<int>, second: seq<int>)
    requires Lists(b.info, first, false) && Lists(b.info, second, true)
    requires |first| == b.nNew && |second| == b.nTried
    ensures IsOrder(b, first + second)
  {
    hide Lists;
    var ids := first + second;
    forall i | 0 <= i < |ids|
      ensures ids[i] in b.info && (b.info[ids[i]].fInTried <==> i >= b.nNew)
    {
      JoinedAt(b.info, first, second, i);
    }
    forall i, j | 0 <= i < j < |ids|
      ensures ids[i] != ids[j]
    {
      JoinedDistinct(b.info, first, second, i, j);
    }
    forall id | id in b.info
      ensures id in ids
    {
      InList(b.info, if b.info[id].fInTried then second else first, id);
    }
  }

  lemma OldCounts(h: Hasher, b: Book)
    requires Consistent(h, b)
    ensures b.nIdCount >= 0 && b.nNew == |Ids(b.info, false)| && b.nTried == |Ids(b.info, true)|
  {
  }

  /** The entries written first are the new ones, and all entries are written. */
  lemma OrderIs(h: Hasher, b: Book)
    requires Consistent(h, b)
    ensures b.nIdCount >= 0 && IsOrder(b, Order(b)) && |Selected(b.info, b.nIdCount, false)| == b.nNew
  {
    hide Consistent, Lists, IsOrder, Selected, Ids;
    OldCounts(h, b);
    SelectedCount(h, b, false);
    SelectedCount(h, b, true);
    JoinedOrder(b, Selected(b.info, b.nIdCount, false), Selected(b.info, b.nIdCount, true));
  }

  lemma InList(info: map<int, Info>, list: seq<int>, id: int)
    requires id in info && Lists(info, list, info[id].fInTried)
    ensures id in list
  {
    assert id in Ids(info, info[id].fInTried);
  }
}

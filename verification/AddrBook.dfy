/**
 The address manager (`CAddrMan`) as a value: its five cross-linked indexes, its reference counts and its two
 counters, the invariant, most of which `Check_` tests, and the steps the operations are made of.
 */
module AddrBook {
  import opened Sequences

  const TRIED_BUCKET_COUNT := 256
  const NEW_BUCKET_COUNT := 1024
  const BUCKET_SIZE := 64
  const NEW_BUCKETS_PER_ADDRESS := 8

  datatype Service = Service(ip: int, port: int)

  datatype Address = Address(service: Service, nServices: set<nat>, nTime: int)

  /** The keyed hashes behind the bucket choices; nothing is assumed about them. */
  datatype Hasher = Hasher(tried: Service -> nat, unknown: (Service, int) -> nat, place: (bool, int, Service) -> nat) {
    function TriedBucket(s: Service): (b: nat)
      ensures b < TRIED_BUCKET_COUNT
    {
      tried(s) % TRIED_BUCKET_COUNT
    }

    function NewBucket(s: Service, source: int): (b: nat)
      ensures b < NEW_BUCKET_COUNT
    {
      unknown(s, source) % NEW_BUCKET_COUNT
    }

    function Position(isNew: bool, bucket: int, s: Service): (p: nat)
      ensures p < BUCKET_SIZE
    {
      place(isNew, bucket, s) % BUCKET_SIZE
    }

    function TriedSlot(s: Service): Slot {
      (TriedBucket(s), Position(false, TriedBucket(s), s))
    }

    function NewSlot(s: Service, source: int): Slot {
      (NewBucket(s, source), Position(true, NewBucket(s, source), s))
    }
  }

  /** Bucket and position within the bucket. */
  type Slot = (int, int)

  /** What is known about an address, as far as no index depends on it. */
  datatype Stats = Stats(
    nServices: set<nat>, nTime: int, source: int,
    nLastSuccess: int, nLastTry: int, nLastCountAttempt: int, nAttempts: int)
  {
    /** `CAddrInfo::IsTerrible`. */
    predicate IsTerrible(now: int) {
      if nLastTry != 0 && nLastTry >= now - 60 then false
      else if nTime > now + 10 * 60 then true
      else if nTime == 0 || now - nTime > 30 * 24 * 60 * 60 then true
      else if nLastSuccess == 0 && nAttempts >= 3 then true
      else now - nLastSuccess > 7 * 24 * 60 * 60 && nAttempts >= 10
    }
  }

  /** `CAddrInfo`. */
  datatype Info = Info(service: Service, stats: Stats, nRefCount: int, fInTried: bool, nRandomPos: int)

  /** The tables hold no entry for an empty slot (-1 in the arrays). */
  datatype Book = Book(
    nIdCount: int, info: map<int, Info>, addr: map<int, int>, random: seq<int>,
    newTable: map<Slot, int>, triedTable: map<Slot, int>, nNew: int, nTried: int, nLastGood: int)

  const EMPTY_BOOK := Book(0, map[], map[], [], map[], map[], 0, 0, 1)

  // ---------- The invariant ----------

  ghost predicate IdsOk(b: Book) {
    0 <= b.nIdCount && forall id | id in b.info :: 0 <= id < b.nIdCount
  }

  /** `mapAddr` and `mapInfo` name each other. */
  ghost predicate AddrOk(info: map<int, Info>, addr: map<int, int>) {
    && (forall id | id in info :: info[id].service.ip in addr && addr[info[id].service.ip] == id)
    && (forall ip | ip in addr :: addr[ip] in info && info[addr[ip]].service.ip == ip)
  }

  /** `vRandom` lists every id once, and every entry knows its place in it. */
  ghost predicate RandomOk(info: map<int, Info>, random: seq<int>) {
    && (forall id | id in info :: 0 <= info[id].nRandomPos < |random| && random[info[id].nRandomPos] == id)
    && (forall i | 0 <= i < |random| :: random[i] in info && info[random[i]].nRandomPos == i)
  }

  /** An entry is tried with no references, or new with one to eight; entries in `idle` have none yet. */
  ghost predicate EntryOk(e: Info, idle: bool) {
    && (e.fInTried ==> e.nRefCount == 0 && !idle)
    && (!e.fInTried ==> if idle then e.nRefCount == 0 else 1 <= e.nRefCount <= NEW_BUCKETS_PER_ADDRESS)
  }

  ghost predicate EntriesOk(info: map<int, Info>, idle: set<int>) {
    forall id | id in info :: EntryOk(info[id], id in idle)
  }

  ghost function TriedIds(info: map<int, Info>): set<int> {
    set id | id in info && info[id].fInTried
  }

  ghost function NewIds(info: map<int, Info>): set<int> {
    set id | id in info && !info[id].fInTried
  }

  /** The tried table holds every tried entry in its one slot, and nothing else. */
  ghost predicate TriedOk(h: Hasher, info: map<int, Info>, table: map<Slot, int>) {
    && (forall s | s in table ::
          table[s] in info && info[table[s]].fInTried && s == h.TriedSlot(info[table[s]].service))
    && (forall id | id in info && info[id].fInTried ::
          h.TriedSlot(info[id].service) in table && table[h.TriedSlot(info[id].service)] == id)
  }

  function Slots(table: map<Slot, int>, id: int): set<Slot> {
    set s | s in table && table[s] == id
  }

  ghost predicate SlotOk(h: Hasher, info: map<int, Info>, s: Slot, id: int) {
    id in info && !info[id].fInTried && 0 <= s.0 < NEW_BUCKET_COUNT && s.1 == h.Position(true, s.0, info[id].service)
  }

  /** The new table holds new entries at their positions, each as often as its reference count says. */
  ghost predicate NewOk(h: Hasher, info: map<int, Info>, table: map<Slot, int>) {
    && (forall s | s in table :: SlotOk(h, info, s, table[s]))
    && (forall id | id in info :: info[id].nRefCount == |Slots(table, id)|)
  }

  /** The counters, `nNew` being short by `missing`. */
  ghost predicate CountsOk(b: Book, missing: int) {
    b.nTried == |TriedIds(b.info)| && b.nNew == |NewIds(b.info)| - missing
  }

  /**
   The state in the middle of an operation: the entries in `idle` are in no table and have no references, and
   `nNew` is short by `missing`.
   */
  ghost predicate Almost(h: Hasher, b: Book, idle: set<int>, missing: int) {
    && IdsOk(b) && AddrOk(b.info, b.addr) && RandomOk(b.info, b.random)
    && EntriesOk(b.info, idle) && idle <= b.info.Keys
    && TriedOk(h, b.info, b.triedTable) && NewOk(h, b.info, b.newTable)
    && CountsOk(b, missing)
  }

  /** Times are not negative, and a tried entry has succeeded. */
  ghost predicate StatsOk(info: map<int, Info>) {
    forall id | id in info ::
      && info[id].stats.nLastTry >= 0 && info[id].stats.nLastSuccess >= 0
      && (info[id].fInTried ==> info[id].stats.nLastSuccess != 0)
  }

  /** The state between operations. */
  ghost predicate Consistent(h: Hasher, b: Book) {
    Almost(h, b, {}, 0) && StatsOk(b.info)
  }

  // ---------- What `Check_` tests ----------

  /** The test of `mapAddr`, which a lookup fills with 0 where there is nothing: an entry 0 passes unnamed. */
  predicate NamedBy(addr: map<int, int>, ip: int, id: int) {
    if ip in addr then addr[ip] == id else id == 0
  }

  ghost predicate NamesOk(info: map<int, Info>, addr: map<int, int>) {
    forall id | id in info :: NamedBy(addr, info[id].service.ip, id)
  }

  /** Every part of the invariant that `Check_` determines. */
  ghost predicate Passes(h: Hasher, b: Book) {
    && NamesOk(b.info, b.addr) && RandomOk(b.info, b.random)
    && EntriesOk(b.info, {}) && TriedOk(h, b.info, b.triedTable) && NewOk(h, b.info, b.newTable)
    && CountsOk(b, 0) && StatsOk(b.info)
  }

  /** `Check_` does not look at the id counter, at names without an entry, and at a missing name of entry 0. */
  ghost predicate Unchecked(b: Book) {
    && IdsOk(b)
    && (forall ip | ip in b.addr :: b.addr[ip] in b.info && b.info[b.addr[ip]].service.ip == ip)
    && (0 in b.info ==> b.info[0].service.ip in b.addr)
  }

  /** The invariant is what `Check_` tests together with what it does not. */
  lemma ConsistentExactly(h: Hasher, b: Book)
    ensures Consistent(h, b) <==> Passes(h, b) && Unchecked(b)
  {
    hide RandomOk, TriedOk, NewOk, EntriesOk, StatsOk, CountsOk, IdsOk;
  }

  /** While the indexes are in step, `Check_` passes exactly when the times are in order. */
  lemma PassesExactly(h: Hasher, b: Book)
    requires Almost(h, b, {}, 0)
    ensures Passes(h, b) <==> Consistent(h, b)
  {
    hide RandomOk, TriedOk, NewOk, EntriesOk, StatsOk, CountsOk, IdsOk;
  }

  /** Entries that know their places fill a vector of their number. */
  lemma RandomFilled(info: map<int, Info>, random: seq<int>)
    requires forall id | id in info :: 0 <= info[id].nRandomPos < |random| && random[info[id].nRandomPos] == id
    requires |random| == |info.Keys|
    ensures RandomOk(info, random)
  {
    forall id | id in info.Keys
      ensures id in ToSet(random)
    {
      assert random[info[id].nRandomPos] == id;
    }
    DistinctSize(random);
    SubsetWhole(info.Keys, ToSet(random));
    forall i | 0 <= i < |random|
      ensures random[i] in info && info[random[i]].nRandomPos == i
    {
      assert random[i] in ToSet(random);
      assert random[i] in info.Keys;
      assert random[info[random[i]].nRandomPos] == random[i];
    }
  }

  lemma SubsetWhole(a: set<int>, b: set<int>)
    requires a <= b && |b| <= |a|
    ensures a == b
  {
    assert b == a + (b - a);
  }

  /** Every entry of `r` comes from `b` with its statistics, and is newly tried only if it is `id`. */
  ghost predicate StatsFrom(b: Book, r: Book, id: int) {
    forall x | x in r.info ::
      && x in b.info
      && r.info[x].stats == b.info[x].stats
      && (r.info[x].fInTried ==> b.info[x].fInTried || x == id)
  }

  lemma EmptyConsistent(h: Hasher)
    ensures Consistent(h, EMPTY_BOOK)
  {
  }

  /** `vRandom` has one place for every entry, so its size is `nTried + nNew`. */
  lemma RandomSize(h: Hasher, b: Book)
    requires Consistent(h, b)
    ensures |b.random| == |b.info.Keys| == b.nTried + b.nNew
  {
    assert b.info.Keys == TriedIds(b.info) + NewIds(b.info);
    RandomCount(b.info, b.random);
  }

  lemma RandomCount(info: map<int, Info>, random: seq<int>)
    requires RandomOk(info, random)
    ensures |random| == |info.Keys|
  {
    assert ToSet(random) == info.Keys by {
      forall id | id in info ensures id in random {
        assert random[info[id].nRandomPos] == id;
      }
    }
    DistinctSize(random);
  }

  // ---------- Steps ----------

  function WithInfo(b: Book, id: int, e: Info): Book {
    b.(info := b.info[id := e])
  }

  // What each part of the invariant depends on.

  ghost predicate SameServices(i: map<int, Info>, j: map<int, Info>) {
    i.Keys == j.Keys && forall id | id in i :: i[id].service == j[id].service
  }

  ghost predicate SamePlaces(i: map<int, Info>, j: map<int, Info>) {
    i.Keys == j.Keys && forall id | id in i :: i[id].nRandomPos == j[id].nRandomPos
  }

  ghost predicate SameTried(i: map<int, Info>, j: map<int, Info>) {
    i.Keys == j.Keys && forall id | id in i :: i[id].fInTried == j[id].fInTried
  }

  ghost predicate SameRefs(i: map<int, Info>, j: map<int, Info>) {
    i.Keys == j.Keys && forall id | id in i :: i[id].nRefCount == j[id].nRefCount
  }

  lemma AddrTransfer(i: map<int, Info>, j: map<int, Info>, addr: map<int, int>)
    requires SameServices(i, j) && AddrOk(i, addr)
    ensures AddrOk(j, addr)
  {
  }

  lemma RandomTransfer(i: map<int, Info>, j: map<int, Info>, random: seq<int>)
    requires SamePlaces(i, j) && RandomOk(i, random)
    ensures RandomOk(j, random)
  {
  }

  lemma TriedTransfer(h: Hasher, i: map<int, Info>, j: map<int, Info>, table: map<Slot, int>)
    requires SameServices(i, j) && SameTried(i, j) && TriedOk(h, i, table)
    ensures TriedOk(h, j, table)
  {
    forall id | id in j ensures id in i && i[id].service == j[id].service && i[id].fInTried == j[id].fInTried {
      assert id in i.Keys;
    }
  }

  lemma NewTransfer(h: Hasher, i: map<int, Info>, j: map<int, Info>, table: map<Slot, int>)
    requires SameServices(i, j) && SameTried(i, j) && SameRefs(i, j) && NewOk(h, i, table)
    ensures NewOk(h, j, table)
  {
  }

  lemma CountsTransfer(i: map<int, Info>, j: map<int, Info>)
    requires SameTried(i, j)
    ensures TriedIds(i) == TriedIds(j) && NewIds(i) == NewIds(j)
  {
    forall id ensures id in TriedIds(i) <==> id in TriedIds(j) {
      assert id in i.Keys <==> id in j.Keys;
    }
    forall id ensures id in NewIds(i) <==> id in NewIds(j) {
      assert id in i.Keys <==> id in j.Keys;
    }
  }

  /** Entries that differ only in statistics, or in their places in `vRandom`. */
  lemma InfoTransfer(h: Hasher, b: Book, r: Book, idle: set<int>, missing: int)
    requires Almost(h, b, idle, missing)
    requires r == b.(info := r.info, random := r.random)
    requires SameServices(b.info, r.info) && SameTried(b.info, r.info) && SameRefs(b.info, r.info)
    requires RandomOk(r.info, r.random)
    ensures Almost(h, r, idle, missing)
  {
    AddrTransfer(b.info, r.info, b.addr);
    TriedTransfer(h, b.info, r.info, b.triedTable);
    NewTransfer(h, b.info, r.info, b.newTable);
    CountsTransfer(b.info, r.info);
    EntriesTransfer(b.info, r.info, idle);
  }

  /** Entries that differ only in their reference counts, with a new table to match. */
  lemma RefsTransfer(h: Hasher, b: Book, r: Book, idle: set<int>, idle': set<int>, missing: int)
    requires Almost(h, b, idle, missing)
    requires r == b.(info := r.info, newTable := r.newTable)
    requires SameServices(b.info, r.info) && SameTried(b.info, r.info) && SamePlaces(b.info, r.info)
    requires NewOk(h, r.info, r.newTable) && EntriesOk(r.info, idle') && idle' <= r.info.Keys
    ensures Almost(h, r, idle', missing)
  {
    AddrTransfer(b.info, r.info, b.addr);
    RandomTransfer(b.info, r.info, b.random);
    TriedTransfer(h, b.info, r.info, b.triedTable);
    CountsTransfer(b.info, r.info);
  }

  lemma EntryChanged(info: map<int, Info>, id: int, e: Info, idle: set<int>, idle': set<int>)
    requires EntriesOk(info, idle) && EntryOk(e, id in idle') && idle - {id} == idle' - {id}
    ensures EntriesOk(info[id := e], idle')
  {
    forall x | x in info && x != id ensures EntryOk(info[x], x in idle') {
      assert x in idle <==> x in idle - {id};
      assert x in idle' <==> x in idle' - {id};
    }
  }

  /** The same entry as far as the indexes are concerned. */
  predicate SameIndexes(e: Info, f: Info) {
    e.service == f.service && e.fInTried == f.fInTried && e.nRefCount == f.nRefCount && e.nRandomPos == f.nRandomPos
  }

  /** Changing statistics of an entry keeps everything else. */
  lemma TouchKeeps(h: Hasher, b: Book, id: int, e: Info, idle: set<int>, missing: int)
    requires Almost(h, b, idle, missing) && id in b.info && SameIndexes(e, b.info[id])
    ensures Almost(h, WithInfo(b, id, e), idle, missing)
  {
    RandomTransfer(b.info, b.info[id := e], b.random);
    InfoTransfer(h, b, WithInfo(b, id, e), idle, missing);
  }

  function SwapRandom(b: Book, i: nat, j: nat): Book
    requires i < |b.random| && j < |b.random| && b.random[i] in b.info && b.random[j] in b.info
  {
    if i == j then b
    else
      var x, y := b.random[i], b.random[j];
      var info := b.info[x := b.info[x].(nRandomPos := j)];
      b.(info := info[y := info[y].(nRandomPos := i)], random := b.random[i := y][j := x])
  }

  lemma SwapRandomOk(b: Book, i: nat, j: nat)
    requires RandomOk(b.info, b.random) && i < |b.random| && j < |b.random|
    ensures RandomOk(SwapRandom(b, i, j).info, SwapRandom(b, i, j).random)
  {
  }

  lemma SwapKeeps(h: Hasher, b: Book, i: nat, j: nat, idle: set<int>, missing: int)
    requires Almost(h, b, idle, missing) && i < |b.random| && j < |b.random|
    ensures Almost(h, SwapRandom(b, i, j), idle, missing)
  {
    SwapRandomOk(b, i, j);
    SwapMoves(b, i, j);
    var r := SwapRandom(b, i, j);
    InfoTransfer(h, b, r, idle, missing);
  }

  /** Swapping exchanges two ids and changes nothing in the entries but their places. */
  lemma SwapMoves(b: Book, i: nat, j: nat)
    requires i < |b.random| && j < |b.random| && RandomOk(b.info, b.random)
    ensures var r := SwapRandom(b, i, j);
      && |r.random| == |b.random| && r.random[j] == b.random[i] && r.random[i] == b.random[j]
      && r.info.Keys == b.info.Keys
      && (forall id | id in b.info :: r.info[id] == b.info[id].(nRandomPos := r.info[id].nRandomPos))
  {
    SwapInfos(b, i, j);
  }

  lemma SwapInfos(b: Book, i: nat, j: nat)
    requires i < |b.random| && j < |b.random| && b.random[i] in b.info && b.random[j] in b.info
    ensures var r := SwapRandom(b, i, j);
      && r.info.Keys == b.info.Keys
      && (forall id | id in b.info :: r.info[id] == b.info[id].(nRandomPos := r.info[id].nRandomPos))
  {
  }

  lemma CanSwap(b: Book, id: int)
    requires id in b.info && RandomOk(b.info, b.random)
    ensures 0 <= b.info[id].nRandomPos < |b.random|
    ensures b.random[b.info[id].nRandomPos] in b.info && b.random[|b.random| - 1] in b.info
  {
  }

  lemma SwapToEnd(b: Book, id: int)
    requires id in b.info && RandomOk(b.info, b.random)
    ensures var s := SwapRandom(b, b.info[id].nRandomPos, |b.random| - 1);
      s.random != [] && s.random[|s.random| - 1] == id && id in s.info
  {
  }

  /** The same entries, but for their places in `vRandom`. */
  ghost predicate SameButPlaces(i: map<int, Info>, j: map<int, Info>) {
    i.Keys == j.Keys && forall id | id in i :: j[id] == i[id].(nRandomPos := j[id].nRandomPos)
  }

  lemma EntriesTransfer(i: map<int, Info>, j: map<int, Info>, idle: set<int>)
    requires SameTried(i, j) && SameRefs(i, j) && EntriesOk(i, idle)
    ensures EntriesOk(j, idle)
  {
  }

  // Adding and removing entries.

  function Create(b: Book, a: Address, source: int): Book {
    var e := Info(a.service, Stats(a.nServices, a.nTime, source, 0, 0, 0, 0), 0, false, |b.random|);
    b.(nIdCount := b.nIdCount + 1, info := b.info[b.nIdCount := e], addr := b.addr[a.service.ip := b.nIdCount],
       random := b.random + [b.nIdCount])
  }

  /** A new entry that nothing refers to yet. */
  ghost predicate Newcomer(b: Book, r: Book, id: int, e: Info) {
    && id !in b.info && e.service.ip !in b.addr && !e.fInTried && e.nRefCount == 0 && e.nRandomPos == |b.random|
    && r.info == b.info[id := e] && r.addr == b.addr[e.service.ip := id] && r.random == b.random + [id]
  }

  lemma NewcomerIndexes(b: Book, r: Book, id: int, e: Info)
    requires Newcomer(b, r, id, e)
    ensures AddrOk(b.info, b.addr) ==> AddrOk(r.info, r.addr)
    ensures RandomOk(b.info, b.random) ==> RandomOk(r.info, r.random)
  {
  }

  lemma NewcomerTables(h: Hasher, b: Book, r: Book, id: int, e: Info)
    requires Newcomer(b, r, id, e)
    ensures TriedOk(h, b.info, b.triedTable) ==> TriedOk(h, r.info, b.triedTable)
    ensures NewOk(h, b.info, b.newTable) ==> NewOk(h, r.info, b.newTable)
  {
    if NewOk(h, b.info, b.newTable) {
      forall s | s in b.newTable ensures b.newTable[s] != id && SlotOk(h, r.info, s, b.newTable[s]) {
        assert SlotOk(h, b.info, s, b.newTable[s]);
      }
      assert Slots(b.newTable, id) == {};
    }
  }

  lemma NewcomerCounts(b: Book, r: Book, id: int, e: Info)
    requires Newcomer(b, r, id, e)
    ensures TriedIds(r.info) == TriedIds(b.info) && |NewIds(r.info)| == |NewIds(b.info)| + 1
  {
    assert NewIds(r.info) == NewIds(b.info) + {id};
  }

  lemma NewcomerKeeps(h: Hasher, b: Book, r: Book, e: Info, idle: set<int>, missing: int)
    requires Almost(h, b, idle, missing) && Newcomer(b, r, b.nIdCount, e) && r.nIdCount == b.nIdCount + 1
    requires r.newTable == b.newTable && r.triedTable == b.triedTable && r.nTried == b.nTried
    ensures Almost(h, r, idle + {b.nIdCount}, missing + 1 + b.nNew - r.nNew)
  {
    var id := b.nIdCount;
    NewcomerIndexes(b, r, id, e);
    NewcomerTables(h, b, r, id, e);
    NewcomerCounts(b, r, id, e);
    EntryChanged(b.info, id, e, idle, idle + {id});
  }

  function DropLast(b: Book, id: int): Book
    requires id in b.info && b.random != []
  {
    b.(random := b.random[..|b.random| - 1], addr := b.addr - {b.info[id].service.ip}, info := b.info - {id},
       nNew := b.nNew - 1)
  }

  /** Swap the entry's id to the end of `vRandom`, then drop it there and from both maps. */
  ghost function Delete(b: Book, id: int): Book
    requires id in b.info && RandomOk(b.info, b.random)
  {
    DropLast(SwapRandom(b, b.info[id].nRandomPos, |b.random| - 1), id)
  }

  /** `r` is `b` without entry `id`, the others unchanged but for their places. */
  ghost predicate Gone(b: Book, r: Book, id: int) {
    && id in b.info && r.info.Keys == b.info.Keys - {id} && r.addr == b.addr - {b.info[id].service.ip}
    && (forall x | x in r.info :: x in b.info && r.info[x] == b.info[x].(nRandomPos := r.info[x].nRandomPos))
    && r.nIdCount == b.nIdCount && r.nNew == b.nNew - 1 && r.nTried == b.nTried
    && r.newTable == b.newTable && r.triedTable == b.triedTable
  }

  lemma GoneMember(b: Book, r: Book, id: int, x: int)
    requires Gone(b, r, id)
    ensures x in r.info <==> x in b.info && x != id
    ensures x in r.info ==> r.info[x] == b.info[x].(nRandomPos := r.info[x].nRandomPos)
  {
    assert x in r.info.Keys <==> x in b.info.Keys - {id};
  }

  lemma DropLastGone(b: Book, s: Book, id: int)
    requires id in b.info && s.random != [] && s == b.(info := s.info, random := s.random)
    requires s.info.Keys == b.info.Keys
    requires forall x | x in b.info :: s.info[x] == b.info[x].(nRandomPos := s.info[x].nRandomPos)
    ensures Gone(b, DropLast(s, id), id)
  {
  }

  lemma DropLastRandom(b: Book, id: int)
    requires id in b.info && b.random != [] && b.random[|b.random| - 1] == id && RandomOk(b.info, b.random)
    ensures RandomOk(DropLast(b, id).info, DropLast(b, id).random)
  {
  }

  lemma DeleteGone(b: Book, id: int)
    requires RandomOk(b.info, b.random) && id in b.info
    ensures Gone(b, Delete(b, id), id)
  {
    CanSwap(b, id);
    var place, last := b.info[id].nRandomPos, |b.random| - 1;
    SwapToEnd(b, id);
    SwapInfos(b, place, last);
    hide RandomOk, SwapRandom, DropLast;
    DropLastGone(b, SwapRandom(b, place, last), id);
  }

  lemma DeleteRandom(b: Book, id: int)
    requires RandomOk(b.info, b.random) && id in b.info
    ensures RandomOk(Delete(b, id).info, Delete(b, id).random)
  {
    CanSwap(b, id);
    hide RandomOk, SwapRandom, DropLast;
    SwapToEnd(b, id);
    SwapRandomOk(b, b.info[id].nRandomPos, |b.random| - 1);
    DropLastRandom(SwapRandom(b, b.info[id].nRandomPos, |b.random| - 1), id);
  }

  lemma GoneAddr(b: Book, r: Book, id: int)
    requires Gone(b, r, id) && AddrOk(b.info, b.addr)
    ensures AddrOk(r.info, r.addr)
  {
    forall ip | ip in r.addr ensures r.addr[ip] in r.info {
      assert r.addr[ip] in b.info.Keys - {id};
    }
  }

  lemma GoneTables(h: Hasher, b: Book, r: Book, id: int)
    requires Gone(b, r, id) && !b.info[id].fInTried && b.info[id].nRefCount == 0
    requires TriedOk(h, b.info, b.triedTable) && NewOk(h, b.info, b.newTable)
    ensures TriedOk(h, r.info, r.triedTable) && NewOk(h, r.info, r.newTable)
  {
    forall x ensures x in r.info <==> x in b.info && x != id {
      GoneMember(b, r, id, x);
    }
    assert Slots(b.newTable, id) == {};
    forall s | s in b.newTable ensures SlotOk(h, r.info, s, b.newTable[s]) {
      assert s !in Slots(b.newTable, id);
      assert SlotOk(h, b.info, s, b.newTable[s]);
    }
    forall x | x in r.info ensures r.info[x].nRefCount == |Slots(b.newTable, x)| {
      assert b.info[x].nRefCount == |Slots(b.newTable, x)|;
    }
  }

  lemma GoneCounts(b: Book, r: Book, id: int)
    requires Gone(b, r, id) && !b.info[id].fInTried
    ensures TriedIds(r.info) == TriedIds(b.info) && |NewIds(r.info)| == |NewIds(b.info)| - 1
  {
    forall x ensures x in TriedIds(r.info) <==> x in TriedIds(b.info) {
      GoneMember(b, r, id, x);
    }
    forall x ensures x in NewIds(b.info) <==> x in NewIds(r.info) + {id} {
      GoneMember(b, r, id, x);
    }
    assert NewIds(b.info) == NewIds(r.info) + {id};
  }

  lemma GoneEntries(b: Book, r: Book, id: int, idle: set<int>)
    requires Gone(b, r, id) && EntriesOk(b.info, idle) && IdsOk(b)
    ensures EntriesOk(r.info, idle - {id}) && IdsOk(r)
  {
  }

  lemma GoneKeeps(h: Hasher, b: Book, r: Book, id: int, idle: set<int>, missing: int)
    requires Almost(h, b, idle, missing) && id in idle && Gone(b, r, id) && RandomOk(r.info, r.random)
    ensures Almost(h, r, idle - {id}, missing)
  {
    assert EntryOk(b.info[id], id in idle);
    GoneAddr(b, r, id);
    GoneTables(h, b, r, id);
    GoneCounts(b, r, id);
    GoneEntries(b, r, id, idle);
  }

  lemma DeleteKeeps(h: Hasher, b: Book, id: int, idle: set<int>, missing: int)
    requires Almost(h, b, idle, missing) && id in idle
    ensures Almost(h, Delete(b, id), idle - {id}, missing)
  {
    DeleteGone(b, id);
    DeleteRandom(b, id);
    GoneKeeps(h, b, Delete(b, id), id, idle, missing);
  }

  // The new table.

  lemma SlotsWithout(table: map<Slot, int>, s: Slot, id: int)
    requires s in table
    ensures Slots(table - {s}, id) == Slots(table, id) - (if table[s] == id then {s} else {})
  {
  }

  lemma SlotsWith(table: map<Slot, int>, s: Slot, id: int, other: int)
    requires s !in table
    ensures Slots(table[s := id], other) == Slots(table, other) + (if other == id then {s} else {})
    ensures s !in Slots(table, other)
  {
  }

  /** Take one reference away from whatever is in slot `s`. */
  function TakeSlot(b: Book, s: Slot): Book
    requires s in b.newTable && b.newTable[s] in b.info
  {
    var id := b.newTable[s];
    WithInfo(b, id, b.info[id].(nRefCount := b.info[id].nRefCount - 1)).(newTable := b.newTable - {s})
  }

  lemma TakeNewOk(h: Hasher, b: Book, s: Slot)
    requires NewOk(h, b.info, b.newTable) && s in b.newTable
    ensures b.newTable[s] in b.info && b.info[b.newTable[s]].nRefCount > 0 && !b.info[b.newTable[s]].fInTried
    ensures NewOk(h, TakeSlot(b, s).info, TakeSlot(b, s).newTable)
  {
    var id, r := b.newTable[s], TakeSlot(b, s);
    assert SlotOk(h, b.info, s, id);
    assert s in Slots(b.newTable, id);
    forall x | x in r.info ensures r.info[x].nRefCount == |Slots(r.newTable, x)| {
      SlotsWithout(b.newTable, s, x);
      assert b.info[x].nRefCount == |Slots(b.newTable, x)|;
    }
    forall t | t in r.newTable ensures SlotOk(h, r.info, t, r.newTable[t]) {
      assert SlotOk(h, b.info, t, b.newTable[t]);
    }
  }

  lemma TakeKeeps(h: Hasher, b: Book, s: Slot, idle: set<int>, missing: int)
    requires Almost(h, b, idle, missing) && s in b.newTable && b.newTable[s] in b.info
    ensures b.newTable[s] !in idle
    ensures var id := b.newTable[s];
      Almost(h, TakeSlot(b, s), if b.info[id].nRefCount == 1 then idle + {id} else idle, missing)
  {
    var id, r := b.newTable[s], TakeSlot(b, s);
    TakeNewOk(h, b, s);
    assert EntryOk(b.info[id], id in idle);
    var idle' := if b.info[id].nRefCount == 1 then idle + {id} else idle;
    EntryChanged(b.info, id, r.info[id], idle, idle');
    RefsTransfer(h, b, r, idle, idle', missing);
  }

  /** `ClearNew`: take the reference away and delete the entry if it was the last one. */
  ghost function ClearNew(b: Book, s: Slot): Book
    requires Clearable(b, s)
  {
    if s !in b.newTable then b
    else
      var id, r := b.newTable[s], TakeSlot(b, s);
      if r.info[id].nRefCount == 0 then Delete(r, id) else r
  }

  lemma CanClear(h: Hasher, b: Book, s: Slot)
    requires NewOk(h, b.info, b.newTable) && RandomOk(b.info, b.random)
    ensures Clearable(b, s)
  {
    if s in b.newTable {
      assert SlotOk(h, b.info, s, b.newTable[s]);
      RandomTransfer(b.info, TakeSlot(b, s).info, b.random);
    }
  }

  /** Whether `ClearNew` may run: its asserts hold and no index is out of range. */
  ghost predicate Clearable(b: Book, s: Slot) {
    s in b.newTable ==> b.newTable[s] in b.info && RandomOk(TakeSlot(b, s).info, b.random)
  }

  /** After `ClearNew` the slot is free, and entries it did not hold are as they were, but for their place. */
  lemma ClearFrame(b: Book, s: Slot)
    requires Clearable(b, s)
    ensures s !in ClearNew(b, s).newTable
    ensures ClearNew(b, s).triedTable == b.triedTable
    ensures forall id | id in b.info && (s in b.newTable ==> b.newTable[s] != id) ::
        id in ClearNew(b, s).info &&
        ClearNew(b, s).info[id] == b.info[id].(nRandomPos := ClearNew(b, s).info[id].nRandomPos)
  {
    if s in b.newTable {
      var id, r := b.newTable[s], TakeSlot(b, s);
      if r.info[id].nRefCount == 0 {
        DeleteGone(r, id);
      }
    }
  }

  /** `ClearNew` leaves the book as consistent as it was. */
  lemma ClearKeeps(h: Hasher, b: Book, s: Slot, idle: set<int>, missing: int)
    requires Almost(h, b, idle, missing) && Clearable(b, s)
    ensures Almost(h, ClearNew(b, s), idle, missing)
  {
    hide Almost, Delete;
    if s in b.newTable {
      var id, r := b.newTable[s], TakeSlot(b, s);
      TakeKeeps(h, b, s, idle, missing);
      if r.info[id].nRefCount == 0 {
        assert Almost(h, r, idle + {id}, missing);
        DeleteKeeps(h, r, id, idle + {id}, missing);
        assert idle + {id} - {id} == idle;
      }
    }
  }

  /** Give entry `id` a reference in the free slot `s`. */
  function PutSlot(b: Book, s: Slot, id: int): Book
    requires id in b.info
  {
    WithInfo(b, id, b.info[id].(nRefCount := b.info[id].nRefCount + 1)).(newTable := b.newTable[s := id])
  }

  lemma PutNewOk(h: Hasher, b: Book, s: Slot, id: int)
    requires NewOk(h, b.info, b.newTable) && s !in b.newTable && SlotOk(h, b.info, s, id)
    ensures NewOk(h, PutSlot(b, s, id).info, PutSlot(b, s, id).newTable)
  {
    var r := PutSlot(b, s, id);
    forall x | x in r.info ensures r.info[x].nRefCount == |Slots(r.newTable, x)| {
      SlotsWith(b.newTable, s, id, x);
      assert b.info[x].nRefCount == |Slots(b.newTable, x)|;
    }
    forall t | t in r.newTable ensures SlotOk(h, r.info, t, r.newTable[t]) {
      if t != s {
        assert SlotOk(h, b.info, t, b.newTable[t]);
      }
    }
  }

  lemma PutKeeps(h: Hasher, b: Book, s: Slot, id: int, idle: set<int>, missing: int)
    requires Almost(h, b, idle, missing) && s !in b.newTable && SlotOk(h, b.info, s, id)
    requires b.info[id].nRefCount < NEW_BUCKETS_PER_ADDRESS
    ensures Almost(h, PutSlot(b, s, id), idle - {id}, missing)
  {
    var r := PutSlot(b, s, id);
    PutNewOk(h, b, s, id);
    assert EntryOk(b.info[id], id in idle);
    EntryChanged(b.info, id, r.info[id], idle, idle - {id});
    RefsTransfer(h, b, r, idle, idle - {id}, missing);
  }

  /** Take away every reference to entry `id`. */
  ghost function ForgetSlots(b: Book, id: int): Book
    requires id in b.info
  {
    WithInfo(b, id, b.info[id].(nRefCount := 0)).(newTable := b.newTable - Slots(b.newTable, id))
  }

  lemma ForgetNewOk(h: Hasher, b: Book, id: int)
    requires NewOk(h, b.info, b.newTable) && id in b.info
    ensures NewOk(h, ForgetSlots(b, id).info, ForgetSlots(b, id).newTable)
  {
    var r := ForgetSlots(b, id);
    forall x | x in r.info ensures r.info[x].nRefCount == |Slots(r.newTable, x)| {
      assert Slots(r.newTable, x) == if x == id then {} else Slots(b.newTable, x);
      assert b.info[x].nRefCount == |Slots(b.newTable, x)|;
    }
    forall t | t in r.newTable ensures SlotOk(h, r.info, t, r.newTable[t]) {
      assert SlotOk(h, b.info, t, b.newTable[t]);
    }
  }

  lemma ForgetKeeps(h: Hasher, b: Book, id: int, idle: set<int>, missing: int)
    requires Almost(h, b, idle, missing) && id in b.info && !b.info[id].fInTried
    ensures Almost(h, ForgetSlots(b, id), idle + {id}, missing)
  {
    var r := ForgetSlots(b, id);
    ForgetNewOk(h, b, id);
    assert EntryOk(b.info[id], id in idle);
    EntryChanged(b.info, id, r.info[id], idle, idle + {id});
    RefsTransfer(h, b, r, idle, idle + {id}, missing);
  }
}

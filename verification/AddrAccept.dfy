/** Loading an arbitrary file: what holds of the entries read, and exactly when pruning leaves a consistent manager. */
module AddrAccept {
  import opened AddrBook
  import opened AddrFile
  import opened AddrLoad

  // ---------- What holds of any file ----------

  /** `mapAddr` names every address, and the names lead to entries with that address. */
  ghost predicate Named(info: map<int, Info>, addr: map<int, int>) {
    && (forall id | id in info :: info[id].service.ip in addr)
    && (forall ip | ip in addr :: addr[ip] in info && info[addr[ip]].service.ip == ip)
  }

  /** Entries that were just read have no failed attempts in memory, and at most eight references. */
  ghost predicate JustRead(info: map<int, Info>) {
    forall id | id in info ::
      0 <= id && info[id].stats.nLastTry == 0 && info[id].nRefCount <= NEW_BUCKETS_PER_ADDRESS
  }

  ghost predicate Tables(h: Hasher, b: Book) {
    TriedOk(h, b.info, b.triedTable) && NewOk(h, b.info, b.newTable) && JustRead(b.info)
  }

  lemma EnteredTables(h: Hasher, b: Book, r: Record, id: int)
    requires Tables(h, b) && id !in b.info && 0 <= id
    ensures Tables(h, Entered(b, r, id, false))
  {
  }

  lemma EnteredNamed(b: Book, r: Record, id: int, tried: bool)
    requires Named(b.info, b.addr) && id !in b.info
    ensures Named(Entered(b, r, id, tried).info, Entered(b, r, id, tried).addr)
  {
  }

  lemma PutTables(h: Hasher, b: Book, s: Slot, id: int)
    requires Tables(h, b) && s !in b.newTable && SlotOk(h, b.info, s, id)
    requires b.info[id].nRefCount < NEW_BUCKETS_PER_ADDRESS
    ensures Tables(h, PutSlot(b, s, id))
  {
    PutNewOk(h, b, s, id);
    var c := PutSlot(b, s, id);
    hide NewOk;
    TriedTransfer(h, b.info, c.info, b.triedTable);
  }

  lemma WithTriedNew(h: Hasher, c: Book, r: Record, s: Slot)
    requires NewOk(h, c.info, c.newTable) && c.nIdCount !in c.info
    ensures NewOk(h, WithTried(c, r, s).info, c.newTable)
  {
  }

  lemma WithTriedTables(h: Hasher, c: Book, r: Record, s: Slot)
    requires Tables(h, c) && c.nIdCount !in c.info && 0 <= c.nIdCount
    requires s == h.TriedSlot(r.service) && s !in c.triedTable
    ensures Tables(h, WithTried(c, r, s))
  {
    WithTriedNew(h, c, r, s);
    hide NewOk;
    var d := WithTried(c, r, s);
    forall id | id in d.info && d.info[id].fInTried
      ensures h.TriedSlot(d.info[id].service) in d.triedTable && d.triedTable[h.TriedSlot(d.info[id].service)] == id
    {
      if id != c.nIdCount {
        assert id in c.info && c.info[id].fInTried;
      }
    }
  }

  // ---------- The three loops ----------

  /** After n new entries: they have the ids below n. */
  ghost predicate NewRead(f: File, c: Book, n: nat) {
    && Tables(f.key, c) && Named(c.info, c.addr)
    && NewIds(c.info) == Range(0, n) && TriedIds(c.info) == {} && c.nNew == f.nNew && c.nTried == f.nTried
  }

  lemma FreshId(info: map<int, Info>, id: int)
    requires id !in NewIds(info) && id !in TriedIds(info)
    ensures id !in info
  {
  }

  lemma EnteredIds(b: Book, r: Record, id: int, tried: bool)
    requires id !in b.info
    ensures var c := Entered(b, r, id, tried);
      && NewIds(c.info) == NewIds(b.info) + (if tried then {} else {id})
      && TriedIds(c.info) == TriedIds(b.info) + (if tried then {id} else {})
  {
  }

  lemma PutIds(b: Book, s: Slot, id: int)
    requires id in b.info
    ensures var c := PutSlot(b, s, id); NewIds(c.info) == NewIds(b.info) && TriedIds(c.info) == TriedIds(b.info)
  {
  }

  lemma PutNamed(b: Book, s: Slot, id: int)
    requires Named(b.info, b.addr) && id in b.info
    ensures Named(PutSlot(b, s, id).info, PutSlot(b, s, id).addr)
  {
  }

  lemma NewReadNext(f: File, c: Book, n: nat)
    requires n < |f.newEntries| && NewRead(f, c, n)
    ensures NewRead(f, WithNew(f, c, n), n + 1)
  {
    var r := f.newEntries[n];
    var b, s := Entered(c, r, n, false), f.key.NewSlot(r.service, r.source);
    FreshId(c.info, n);
    EnteredTables(f.key, c, r, n);
    EnteredNamed(c, r, n, false);
    EnteredIds(c, r, n, false);
    assert Range(0, n + 1) == Range(0, n) + {n};
    hide Tables, Named, NewIds, TriedIds;
    if !Usable(f) && s !in b.newTable {
      assert SlotOk(f.key, b.info, s, n);
      PutTables(f.key, b, s, n);
      PutNamed(b, s, n);
      PutIds(b, s, n);
    }
  }

  lemma NewReadStart(f: File)
    ensures NewRead(f, LoadNew(f, 0), 0)
  {
    assert Range(0, 0) == {};
  }

  lemma {:induction false} NewReadAll(f: File, n: nat)
    requires n <= |f.newEntries|
    ensures NewRead(f, LoadNew(f, n), n)
  {
    hide NewRead, WithNew;
    if n == 0 {
      NewReadStart(f);
    } else {
      NewReadAll(f, n - 1);
      NewReadNext(f, LoadNew(f, n - 1), n - 1);
    }
  }

  /** After n tried entries: those kept have the ids from `nNew` up to the counter. */
  ghost predicate TriedRead(f: File, c: Book, n: nat) {
    && Tables(f.key, c) && Named(c.info, c.addr)
    && 0 <= f.nNew <= c.nIdCount && NewIds(c.info) == Range(0, f.nNew) && TriedIds(c.info) == Range(f.nNew, c.nIdCount)
    && c.nNew == f.nNew && c.nTried == f.nTried - n + (c.nIdCount - f.nNew)
  }

  lemma TriedReadNext(f: File, c: Book, n: nat)
    requires n < |f.triedEntries| && TriedRead(f, c, n)
    ensures var r := f.triedEntries[n];
      var s := f.key.TriedSlot(r.service);
      TriedRead(f, if s in c.triedTable then c.(nTried := c.nTried - 1) else WithTried(c, r, s), n + 1)
  {
    var r := f.triedEntries[n];
    var s := f.key.TriedSlot(r.service);
    if s in c.triedTable {
      FewerTables(f.key, c);
      hide Tables, Named, NewIds, TriedIds;
    } else {
      TriedReadOne(f, c, n, r, s);
    }
  }

  lemma TriedReadOne(f: File, c: Book, n: nat, r: Record, s: Slot)
    requires TriedRead(f, c, n) && s == f.key.TriedSlot(r.service) && s !in c.triedTable
    ensures TriedRead(f, WithTried(c, r, s), n + 1)
  {
    FreshCount(f, c, n);
    WithTriedTables(f.key, c, r, s);
    WithTriedNamed(c, r, s);
    WithTriedIds(c, r, s);
    WithTriedIs(c, r, s);
    RangeNext(f.nNew, c.nIdCount);
    hide Tables, Named, NewIds, TriedIds, WithTried, Range;
  }

  lemma WithTriedNamed(c: Book, r: Record, s: Slot)
    requires Named(c.info, c.addr) && c.nIdCount !in c.info
    ensures Named(WithTried(c, r, s).info, WithTried(c, r, s).addr)
  {
    EnteredNamed(c, r, c.nIdCount, true);
  }

  lemma WithTriedIds(c: Book, r: Record, s: Slot)
    requires c.nIdCount !in c.info
    ensures NewIds(WithTried(c, r, s).info) == NewIds(c.info)
    ensures TriedIds(WithTried(c, r, s).info) == TriedIds(c.info) + {c.nIdCount}
  {
    EnteredIds(c, r, c.nIdCount, true);
  }

  lemma FreshCount(f: File, c: Book, n: nat)
    requires TriedRead(f, c, n)
    ensures 0 <= c.nIdCount && c.nIdCount !in c.info
  {
    hide Tables, Named;
    FreshId(c.info, c.nIdCount);
  }

  lemma RangeNext(a: int, b: int)
    requires a <= b
    ensures Range(a, b + 1) == Range(a, b) + {b}
  {
  }

  lemma FewerTables(h: Hasher, c: Book)
    requires Tables(h, c)
    ensures Tables(h, c.(nTried := c.nTried - 1))
  {
  }

  lemma WithTriedIs(c: Book, r: Record, s: Slot)
    ensures var d := WithTried(c, r, s); d.nIdCount == c.nIdCount + 1 && d.nNew == c.nNew && d.nTried == c.nTried
  {
  }

  lemma TriedReadStart(f: File, b: Book)
    requires 0 <= f.nNew && NewRead(f, b, f.nNew)
    ensures TriedRead(f, b.(nIdCount := f.nNew), 0)
  {
  }

  lemma {:induction false} TriedReadAll(f: File, b: Book, n: nat)
    requires n <= |f.triedEntries| && 0 <= f.nNew && NewRead(f, b, f.nNew)
    ensures TriedRead(f, LoadTried(f, b, n), n)
  {
    hide TriedRead, NewRead, WithTried;
    if n == 0 {
      TriedReadStart(f, b);
    } else {
      TriedReadAll(f, b, n - 1);
      TriedReadNext(f, LoadTried(f, b, n - 1), n - 1);
    }
  }

  /** Reading positions touches nothing but references. */
  ghost predicate Read(f: File, c: Book) {
    TriedRead(f, c, Natural(f.nTried))
  }

  lemma IndexKeeps(f: File, c: Book, bucket: int, i: int)
    requires Read(f, c) && (Usable(f) ==> 0 <= bucket < NEW_BUCKET_COUNT)
    ensures Read(f, LoadIndex(f, c, bucket, i))
  {
    if 0 <= i < f.nNew && i in c.info {
      var s := (bucket, f.key.Position(true, bucket, c.info[i].service));
      if Usable(f) && s !in c.newTable && c.info[i].nRefCount < NEW_BUCKETS_PER_ADDRESS {
        assert i in NewIds(c.info);
        assert SlotOk(f.key, c.info, s, i);
        PutTables(f.key, c, s, i);
        PutNamed(c, s, i);
        PutIds(c, s, i);
      }
    }
  }

  lemma {:induction false} BucketKeeps(f: File, c: Book, bucket: int, list: seq<int>)
    requires Read(f, c) && (Usable(f) ==> 0 <= bucket < NEW_BUCKET_COUNT)
    ensures Read(f, LoadBucket(f, c, bucket, list))
  {
    hide Read, LoadIndex, Usable;
    if list != [] {
      BucketKeeps(f, c, bucket, list[..|list| - 1]);
      IndexKeeps(f, LoadBucket(f, c, bucket, list[..|list| - 1]), bucket, list[|list| - 1]);
    }
  }

  lemma {:induction false} BucketsKeep(f: File, c: Book, n: nat)
    requires Read(f, c) && n <= |f.buckets| && (Usable(f) ==> n <= NEW_BUCKET_COUNT)
    ensures Read(f, LoadBuckets(f, c, n))
  {
    hide Read, LoadBucket, Usable;
    if n > 0 {
      BucketsKeep(f, c, n - 1);
      BucketKeeps(f, LoadBuckets(f, c, n - 1), n - 1, f.buckets[n - 1]);
    }
  }

  /** Before pruning, both tables and both counters are right, whatever the file holds. */
  lemma FilledIs(f: File)
    requires Complete(f) && 0 <= f.nNew && 0 <= f.nTried
    ensures Read(f, Filled(f))
  {
    hide TriedRead, NewRead, LoadNew, LoadTried, LoadBuckets;
    NewReadAll(f, f.nNew);
    TriedReadAll(f, LoadNew(f, f.nNew), f.nTried);
    BucketsKeep(f, LoadTried(f, LoadNew(f, f.nNew), f.nTried), Natural(Buckets(f)));
  }

  // ---------- Pruning ----------

  /** The new entries below n that got no place. */
  ghost function Lost(b: Book, n: int): set<int> {
    set id | id in b.info && id < n && Unreferenced(b, id)
  }

  /** `c` is `b` without the entries in `lost` and without their names. */
  ghost predicate Without(b: Book, c: Book, lost: set<int>) {
    && (forall id :: id in c.info <==> id in b.info && id !in lost)
    && (forall id | id in c.info :: c.info[id] == b.info[id].(nRandomPos := c.info[id].nRandomPos))
    && (forall ip :: ip in c.addr <==>
          ip in b.addr && forall id | id in lost && id in b.info :: b.info[id].service.ip != ip)
    && (forall ip | ip in c.addr :: c.addr[ip] == b.addr[ip])
    && c.nIdCount == b.nIdCount
  }

  ghost predicate Counts(b: Book) {
    b.nTried == |TriedIds(b.info)| && b.nNew == |NewIds(b.info)|
  }

  lemma WithoutNext(b: Book, c: Book, d: Book, lost: set<int>, id: int)
    requires Without(b, c, lost) && Gone(c, d, id)
    ensures Without(b, d, lost + {id})
  {
  }

  lemma PruneStep(h: Hasher, c: Book, id: int)
    requires RandomOk(c.info, c.random) && Tables(h, c) && Counts(c) && Unreferenced(c, id)
    ensures Gone(c, Delete(c, id), id) && Tables(h, Delete(c, id)) && Counts(Delete(c, id))
  {
    DeleteGone(c, id);
    var d := Delete(c, id);
    hide Delete;
    GoneTables(h, c, d, id);
    GoneCounts(c, d, id);
    forall x | x in d.info
      ensures 0 <= x && d.info[x].stats.nLastTry == 0 && d.info[x].nRefCount <= NEW_BUCKETS_PER_ADDRESS
    {
      GoneMember(c, d, id, x);
    }
  }

  lemma {:induction false} PrunedIs(h: Hasher, b: Book, n: nat)
    requires RandomOk(b.info, b.random) && Tables(h, b) && Counts(b) && forall id | id in b.info :: 0 <= id
    ensures var c := Pruned(b, 0, n); Tables(h, c) && Counts(c) && Without(b, c, Lost(b, n))
  {
    hide RandomOk, Tables, Counts, Without, Lost, Unreferenced, Delete, Gone;
    if n == 0 {
      NothingLost(b);
    } else {
      var c, id := Pruned(b, 0, n - 1), n - 1;
      PrunedIs(h, b, n - 1);
      LostNext(b, c, id);
      if Unreferenced(c, id) {
        UnreferencedThere(c, id);
        PruneStep(h, c, id);
        WithoutNext(b, c, Delete(c, id), Lost(b, id), id);
      } else {
        assert Lost(b, id) + {} == Lost(b, id);
      }
    }
  }

  lemma UnreferencedThere(c: Book, id: int)
    requires Unreferenced(c, id)
    ensures id in c.info
  {
  }

  lemma NothingLost(b: Book)
    requires forall id | id in b.info :: 0 <= id
    ensures Without(b, b, Lost(b, 0))
  {
  }

  lemma LostNext(b: Book, c: Book, id: int)
    requires Without(b, c, Lost(b, id))
    ensures Lost(b, id + 1) == Lost(b, id) + (if Unreferenced(c, id) then {id} else {})
  {
  }

  // ---------- The exact condition ----------

  /** Entries that are not pruned. */
  predicate Kept(b: Book, id: int) {
    id in b.info && !Unreferenced(b, id)
  }

  /** No other entry has the address. */
  ghost predicate Alone(b: Book, id: int)
    requires id in b.info
  {
    forall other | other in b.info && other != id :: b.info[id].service.ip != b.info[other].service.ip
  }

  /** An entry that will be pruned has the address. */
  ghost predicate SharesLost(b: Book, id: int)
    requires id in b.info
  {
    exists other | other in b.info :: Unreferenced(b, other) && b.info[id].service.ip == b.info[other].service.ip
  }

  /** The entry has its address for itself. `lenient` lets entry 0 share it with entries that are pruned. */
  ghost predicate HasName(b: Book, id: int, lenient: bool)
    requires id in b.info
  {
    Alone(b, id) || (lenient && id == 0 && SharesLost(b, id))
  }

  /** No entry that is kept shares its address with another entry, kept or not. */
  ghost predicate OwnNames(b: Book, lenient: bool) {
    forall id | Kept(b, id) :: HasName(b, id, lenient)
  }

  /** The last success of an entry that is kept is not negative, and a tried entry has had one. */
  ghost predicate TimesRead(b: Book) {
    forall id | Kept(b, id) ::
      b.info[id].stats.nLastSuccess >= 0 && (b.info[id].fInTried ==> b.info[id].stats.nLastSuccess != 0)
  }

  /** What pruning does to a single name. */
  lemma NameAfter(b: Book, c: Book, n: int, id: int)
    requires Named(b.info, b.addr) && Without(b, c, Lost(b, n)) && (forall x | x in b.info :: x < n) && id in b.info
    ensures id in c.info <==> Kept(b, id)
    ensures b.info[id].service.ip in c.addr <==> !SharesLost(b, id)
    ensures b.info[id].service.ip in c.addr && Alone(b, id) ==> c.addr[b.info[id].service.ip] == id
  {
    var ip := b.info[id].service.ip;
    assert ip in b.addr && b.addr[ip] in b.info && b.info[b.addr[ip]].service.ip == ip;
    if SharesLost(b, id) {
      var other :| other in b.info && Unreferenced(b, other) && ip == b.info[other].service.ip;
      assert other in Lost(b, n);
    }
  }

  /** A name that is left leads to every entry with that address. */
  lemma OnlyName(b: Book, c: Book, n: int, id: int)
    requires Named(b.info, b.addr) && Without(b, c, Lost(b, n)) && (forall x | x in b.info :: x < n) && id in b.info
    requires NamesOk(c.info, c.addr) && b.info[id].service.ip in c.addr
    ensures c.addr[b.info[id].service.ip] == id
  {
    NameAfter(b, c, n, id);
    assert id in c.info && NamedBy(c.addr, c.info[id].service.ip, id);
  }

  lemma NamedAlone(b: Book, c: Book, n: int, id: int)
    requires Named(b.info, b.addr) && Without(b, c, Lost(b, n)) && (forall x | x in b.info :: x < n) && id in b.info
    requires NamesOk(c.info, c.addr) && b.info[id].service.ip in c.addr
    ensures Alone(b, id)
  {
    OnlyName(b, c, n, id);
    forall other | other in b.info && other != id
      ensures b.info[id].service.ip != b.info[other].service.ip
    {
      if b.info[other].service.ip in c.addr {
        OnlyName(b, c, n, other);
      }
    }
  }

  lemma AloneUnlost(b: Book, id: int)
    requires Kept(b, id) && Alone(b, id)
    ensures !SharesLost(b, id)
  {
  }

  /** The name of an entry that has its address for itself survives pruning. */
  lemma NameKept(b: Book, c: Book, n: int, id: int)
    requires Named(b.info, b.addr) && Without(b, c, Lost(b, n)) && forall x | x in b.info :: x < n
    requires Kept(b, id) && Alone(b, id)
    ensures id in c.info && c.info[id].service.ip in c.addr && c.addr[c.info[id].service.ip] == id
  {
    NameAfter(b, c, n, id);
    AloneUnlost(b, id);
  }

  lemma CheckedNamesOk(b: Book, c: Book, n: int)
    requires Named(b.info, b.addr) && Without(b, c, Lost(b, n)) && forall id | id in b.info :: id < n
    requires OwnNames(b, true)
    ensures NamesOk(c.info, c.addr)
  {
    forall id | id in c.info
      ensures NamedBy(c.addr, c.info[id].service.ip, id)
    {
      NameAfter(b, c, n, id);
      hide Alone, SharesLost, Without, Named, Lost;
      if Alone(b, id) {
        NameKept(b, c, n, id);
      }
      SameServiceKept(b, c, Lost(b, n), id);
    }
  }

  lemma SameServiceKept(b: Book, c: Book, lost: set<int>, id: int)
    requires Without(b, c, lost) && id in c.info
    ensures id in b.info && c.info[id].service == b.info[id].service
  {
  }

  /** Pruning takes the name of the address along, which only entry 0 survives in the eyes of `Check_`. */
  lemma CheckedNamesExactly(b: Book, c: Book, n: int)
    requires Named(b.info, b.addr) && Without(b, c, Lost(b, n)) && forall id | id in b.info :: id < n
    ensures NamesOk(c.info, c.addr) <==> OwnNames(b, true)
  {
    if OwnNames(b, true) {
      CheckedNamesOk(b, c, n);
    }
    if NamesOk(c.info, c.addr) {
      forall id | Kept(b, id)
        ensures HasName(b, id, true)
      {
        NameAfter(b, c, n, id);
        assert NamedBy(c.addr, c.info[id].service.ip, id);
        SameServiceKept(b, c, Lost(b, n), id);
        hide Alone, SharesLost, Without, Named, Lost, NamesOk;
        if b.info[id].service.ip in c.addr {
          NamedAlone(b, c, n, id);
        }
      }
    }
  }

  lemma NamesExactly(b: Book, c: Book, n: int)
    requires Named(b.info, b.addr) && Without(b, c, Lost(b, n)) && forall id | id in b.info :: id < n
    ensures AddrOk(c.info, c.addr) <==> OwnNames(b, false)
  {
    if OwnNames(b, false) {
      forall id | id in c.info
        ensures c.info[id].service.ip in c.addr && c.addr[c.info[id].service.ip] == id
      {
        NameAfter(b, c, n, id);
        NameKept(b, c, n, id);
      }
      forall ip | ip in c.addr
        ensures c.addr[ip] in c.info && c.info[c.addr[ip]].service.ip == ip
      {
        assert b.addr[ip] !in Lost(b, n);
      }
    }
    if AddrOk(c.info, c.addr) {
      assert NamesOk(c.info, c.addr);
      forall id | Kept(b, id)
        ensures HasName(b, id, false)
      {
        NameAfter(b, c, n, id);
        NamedAlone(b, c, n, id);
      }
    }
  }

  lemma KeptEntries(h: Hasher, b: Book, c: Book, n: int)
    requires Tables(h, c) && Without(b, c, Lost(b, n)) && forall id | id in b.info :: id < n
    ensures EntriesOk(c.info, {}) && (StatsOk(c.info) <==> TimesRead(b))
  {
  }

  /** With counts that are not negative: consistent exactly when names and times are. */
  lemma PrunedExactly(h: Hasher, b: Book, c: Book)
    requires Tables(h, b) && Named(b.info, b.addr) && Counts(b) && RandomOk(b.info, b.random)
    requires 0 <= b.nIdCount && c == Pruned(b, 0, b.nIdCount) && forall id | id in b.info :: id < b.nIdCount
    ensures Consistent(h, c) <==> OwnNames(b, false) && TimesRead(b)
    ensures Passes(h, c) <==> OwnNames(b, true) && TimesRead(b)
  {
    hide NamesOk, Pruned, Without, OwnNames, TimesRead, AddrOk, RandomOk, StatsOk, EntriesOk, TriedOk, NewOk, IdsOk,
         Named;
    assert JustRead(b.info);
    PrunedIs(h, b, b.nIdCount);
    KeptEntries(h, b, c, b.nIdCount);
    NamesExactly(b, c, b.nIdCount);
    CheckedNamesExactly(b, c, b.nIdCount);
    KeptIds(b, c, Lost(b, b.nIdCount));
  }

  lemma KeptIds(b: Book, c: Book, lost: set<int>)
    requires Without(b, c, lost) && 0 <= b.nIdCount && forall id | id in b.info :: 0 <= id < b.nIdCount
    ensures IdsOk(c)
  {
  }

  lemma DeleteCounts(c: Book, id: int)
    requires RandomOk(c.info, c.random) && id in c.info
    ensures Delete(c, id).nNew == c.nNew - 1 && Delete(c, id).nTried == c.nTried
  {
  }

  lemma {:induction false} PrunedCounts(b: Book, from: int, n: nat)
    requires RandomOk(b.info, b.random)
    ensures Pruned(b, from, n).nNew <= b.nNew && Pruned(b, from, n).nTried == b.nTried
  {
    if n > 0 {
      PrunedCounts(b, from, n - 1);
      var c, id := Pruned(b, from, n - 1), from + n - 1;
      if Unreferenced(c, id) {
        DeleteCounts(c, id);
      }
      hide RandomOk, Delete;
    }
  }

  lemma ReadBounds(f: File, b: Book)
    requires Read(f, b) && 0 <= f.nTried
    ensures Tables(f.key, b) && Named(b.info, b.addr) && Counts(b) && 0 <= b.nIdCount
    ensures forall id | id in b.info :: id < b.nIdCount
  {
    forall id | id in b.info
      ensures id < b.nIdCount
    {
      assert id in NewIds(b.info) || id in TriedIds(b.info);
    }
  }

  lemma {:induction false} LoadKeepsCounts(f: File, b: Book, n: nat)
    requires n <= |f.buckets|
    ensures LoadBuckets(f, b, n).nNew == b.nNew && LoadBuckets(f, b, n).nTried == b.nTried
  {
    if n > 0 {
      LoadKeepsCounts(f, b, n - 1);
      BucketKeepsCounts(f, LoadBuckets(f, b, n - 1), n - 1, f.buckets[n - 1]);
    }
  }

  lemma {:induction false} BucketKeepsCounts(f: File, b: Book, bucket: int, list: seq<int>)
    ensures LoadBucket(f, b, bucket, list).nNew == b.nNew && LoadBucket(f, b, bucket, list).nTried == b.nTried
  {
    if list != [] {
      BucketKeepsCounts(f, b, bucket, list[..|list| - 1]);
    }
  }

  lemma {:induction false} TriedKeepsNew(f: File, b: Book, n: nat)
    requires n <= |f.triedEntries|
    ensures LoadTried(f, b, n).nNew == b.nNew && (n == 0 ==> LoadTried(f, b, n).nTried == b.nTried)
  {
    if n > 0 {
      TriedKeepsNew(f, b, n - 1);
    }
  }

  /** Negative counts in the file stay negative. */
  lemma NegativeCounts(f: File)
    requires Complete(f) && (f.nNew < 0 || f.nTried < 0)
    ensures Filled(f).nNew < 0 || Filled(f).nTried < 0
  {
    var b := LoadNew(f, Natural(f.nNew));
    assert b.nNew == f.nNew && b.nTried == f.nTried by {
      NewReadAll(f, Natural(f.nNew));
    }
    TriedKeepsNew(f, b, Natural(f.nTried));
    LoadKeepsCounts(f, LoadTried(f, b, Natural(f.nTried)), Natural(Buckets(f)));
  }

  /** The condition on the entries before pruning. */
  lemma FilledExactly(f: File)
    requires Loaded(f).Some?
    ensures Consistent(f.key, Loaded(f).value) <==>
      f.nNew >= 0 && f.nTried >= 0 && OwnNames(Filled(f), false) && TimesRead(Filled(f))
    ensures Passes(f.key, Loaded(f).value) <==>
      f.nNew >= 0 && f.nTried >= 0 && OwnNames(Filled(f), true) && TimesRead(Filled(f))
  {
    FilledRandom(f);
    var b := Filled(f);
    if f.nNew >= 0 && f.nTried >= 0 {
      FilledIs(f);
      ReadBounds(f, b);
      hide Filled, Pruned, Read;
      PrunedExactly(f.key, b, Loaded(f).value);
    } else {
      NegativeCounts(f);
      hide Filled, Pruned;
      var from := if f.nNew < 0 then f.nNew else 0;
      PrunedCounts(b, from, Natural(b.nIdCount - from));
    }
  }
}

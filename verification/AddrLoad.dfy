/** Reading a saved address manager into a fresh one, and the round trip. */
module AddrLoad {
  import opened Options
  import opened AddrBook
  import opened AddrFile

  // ---------- Reading ----------

  /** The bucket count of the file; files of version 0 did not hide it. */
  function Buckets(f: File): int {
    if f.version != 0 then FlipBit30(f.nUBuckets) else f.nUBuckets
  }

  /** Whether the positions in the new table can be taken over. */
  predicate Usable(f: File) {
    f.version == 1 && Buckets(f) == NEW_BUCKET_COUNT
  }

  /** An entry is stored under a fresh id. */
  function Entered(b: Book, r: Record, id: int, tried: bool): Book {
    b.(info := b.info[id := Reload(r, 0, tried, |b.random|)],
       addr := b.addr[r.service.ip := id],
       random := b.random + [id])
  }

  /** One new entry. Without usable positions it gets a place from its own source. */
  function WithNew(f: File, c: Book, n: nat): Book
    requires n < |f.newEntries|
  {
    var r := f.newEntries[n];
    var b := Entered(c, r, n, false);
    var s := f.key.NewSlot(r.service, r.source);
    if !Usable(f) && s !in b.newTable then PutSlot(b, s, n) else b
  }

  /** After the first n new entries. */
  function LoadNew(f: File, n: nat): Book
    requires n <= |f.newEntries|
  {
    if n == 0 then EMPTY_BOOK.(nNew := f.nNew, nTried := f.nTried)
    else WithNew(f, LoadNew(f, n - 1), n - 1)
  }

  /** A write to a free slot. The id -1, which a negative count of new entries leads to, leaves it free. */
  function WithSlot(table: map<Slot, int>, s: Slot, id: int): map<Slot, int> {
    if id == -1 then table else table[s := id]
  }

  /** One tried entry, put into its slot. */
  function WithTried(c: Book, r: Record, s: Slot): Book {
    Entered(c, r, c.nIdCount, true).(triedTable := WithSlot(c.triedTable, s, c.nIdCount), nIdCount := c.nIdCount + 1)
  }

  /** After the first n tried entries; those that find their slot taken are lost. */
  function LoadTried(f: File, b: Book, n: nat): Book
    requires n <= |f.triedEntries|
  {
    if n == 0 then b.(nIdCount := f.nNew)
    else
      var c := LoadTried(f, b, n - 1);
      var r := f.triedEntries[n - 1];
      var s := f.key.TriedSlot(r.service);
      if s in c.triedTable then c.(nTried := c.nTried - 1) else WithTried(c, r, s)
  }

  /** One index of a bucket. */
  function LoadIndex(f: File, b: Book, bucket: int, i: int): Book {
    if 0 <= i < f.nNew && i in b.info then
      var s := (bucket, f.key.Position(true, bucket, b.info[i].service));
      if Usable(f) && s !in b.newTable && b.info[i].nRefCount < NEW_BUCKETS_PER_ADDRESS then PutSlot(b, s, i) else b
    else b
  }

  function LoadBucket(f: File, b: Book, bucket: int, list: seq<int>): Book {
    if list == [] then b
    else LoadIndex(f, LoadBucket(f, b, bucket, list[..|list| - 1]), bucket, list[|list| - 1])
  }

  function LoadBuckets(f: File, b: Book, n: nat): Book
    requires n <= |f.buckets|
  {
    if n == 0 then b else LoadBucket(f, LoadBuckets(f, b, n - 1), n - 1, f.buckets[n - 1])
  }

  /** The stream does not end too early. */
  predicate Complete(f: File) {
    f.nNew <= |f.newEntries| && f.nTried <= |f.triedEntries| && Buckets(f) <= |f.buckets|
  }

  /** Before pruning. */
  function Filled(f: File): Book
    requires Complete(f)
  {
    LoadBuckets(f, LoadTried(f, LoadNew(f, Natural(f.nNew)), Natural(f.nTried)), Natural(Buckets(f)))
  }

  /** A loop up to a negative bound does nothing. */
  function Natural(n: int): nat {
    if n < 0 then 0 else n
  }

  // ---------- What was loaded of a saved book ----------

  /** The first n entries of the order are stored under the ids below n, with some reference counts. */
  ghost predicate Stored(b: Book, c: Book, ids: seq<int>, n: int) {
    && 0 <= n <= |ids| && c.info.Keys == Range(0, n)
    && (forall i | 0 <= i < n :: StoredAt(b, c, ids, i))
    && |c.random| == n && (forall i | 0 <= i < n :: c.random[i] == i)
    && (forall ip | ip in c.addr :: AddrStored(b, c, ids, n, ip))
  }

  ghost predicate StoredAt(b: Book, c: Book, ids: seq<int>, i: int) {
    && 0 <= i < |ids| && ids[i] in b.info && i in c.info
    && var e := b.info[ids[i]];
       && c.info[i] == Reload(RecordOf(e), c.info[i].nRefCount, e.fInTried, i)
       && e.service.ip in c.addr
  }

  ghost predicate AddrStored(b: Book, c: Book, ids: seq<int>, n: int, ip: int)
    requires ip in c.addr
  {
    0 <= c.addr[ip] < n <= |ids| && ids[c.addr[ip]] in b.info && b.info[ids[c.addr[ip]]].service.ip == ip
  }

  lemma StoredNext(b: Book, c: Book, ids: seq<int>, n: int)
    requires Stored(b, c, ids, n) && n < |ids| && ids[n] in b.info
    ensures var e := b.info[ids[n]];
      var d := Entered(c, RecordOf(e), n, e.fInTried);
      Stored(b, d, ids, n + 1) && d.info[n].nRefCount == 0
  {
    var e := b.info[ids[n]];
    var d := Entered(c, RecordOf(e), n, e.fInTried);
    var m := n + 1;
    assert d.info.Keys == Range(0, m);
    forall i | 0 <= i < m
      ensures StoredAt(b, d, ids, i)
    {
      if i < n {
        assert StoredAt(b, c, ids, i);
      }
    }
    forall ip | ip in d.addr
      ensures AddrStored(b, d, ids, m, ip)
    {
      if ip != e.service.ip {
        assert ip in c.addr && AddrStored(b, c, ids, n, ip);
      }
    }
  }

  lemma StoredPut(b: Book, c: Book, ids: seq<int>, n: int, s: Slot, id: int)
    requires Stored(b, c, ids, n) && id in c.info
    ensures Stored(b, PutSlot(c, s, id), ids, n)
  {
    var d := PutSlot(c, s, id);
    assert d.info.Keys == c.info.Keys;
    forall i | 0 <= i < n
      ensures StoredAt(b, d, ids, i)
    {
      assert StoredAt(b, c, ids, i);
    }
    forall ip | ip in d.addr
      ensures AddrStored(b, d, ids, n, ip)
    {
      assert AddrStored(b, c, ids, n, ip);
    }
  }

  /** Only the indexes of the entries matter for `Stored`. */
  lemma StoredFrame(b: Book, c: Book, d: Book, ids: seq<int>, n: int)
    requires Stored(b, c, ids, n) && d.info == c.info && d.addr == c.addr && d.random == c.random
    ensures Stored(b, d, ids, n)
  {
    forall i | 0 <= i < n
      ensures StoredAt(b, d, ids, i)
    {
      assert StoredAt(b, c, ids, i);
    }
    forall ip | ip in d.addr
      ensures AddrStored(b, d, ids, n, ip)
    {
      assert AddrStored(b, c, ids, n, ip);
    }
  }

  // ---------- The new entries ----------

  ghost predicate NoRefs(c: Book) {
    forall i | i in c.info :: c.info[i].nRefCount == 0
  }

  /** The file lists the entries of a book in the given order. */
  ghost predicate ListsEntries(f: File, h: Hasher, b: Book, ids: seq<int>) {
    && IsOrder(b, ids) && Usable(f) && f.key == h
    && f.nNew == b.nNew == |f.newEntries| && f.nTried == b.nTried == |f.triedEntries|
    && (forall i | 0 <= i < b.nNew :: ids[i] in b.info && f.newEntries[i] == RecordOf(b.info[ids[i]]))
    && (forall i | 0 <= i < b.nTried ::
          ids[b.nNew + i] in b.info && f.triedEntries[i] == RecordOf(b.info[ids[b.nNew + i]]))
  }

  lemma ListedNew(f: File, h: Hasher, b: Book, ids: seq<int>, i: nat)
    requires ListsEntries(f, h, b, ids) && i < |f.newEntries|
    ensures Usable(f) && i < |ids| && ids[i] in b.info && !b.info[ids[i]].fInTried
    ensures f.newEntries[i] == RecordOf(b.info[ids[i]])
  {
    assert ids[i] in b.info;
  }

  lemma ListedTried(f: File, h: Hasher, b: Book, ids: seq<int>, i: nat)
    requires ListsEntries(f, h, b, ids) && i < |f.triedEntries|
    ensures 0 <= b.nNew && b.nNew + i < |ids| && ids[b.nNew + i] in b.info && b.info[ids[b.nNew + i]].fInTried
    ensures f.key == h && f.triedEntries[i] == RecordOf(b.info[ids[b.nNew + i]])
  {
    assert ids[b.nNew + i] in b.info;
  }

  lemma ListedCounts(f: File, h: Hasher, b: Book, ids: seq<int>)
    requires ListsEntries(f, h, b, ids)
    ensures f.nNew == b.nNew == |f.newEntries| && f.nTried == b.nTried == |f.triedEntries|
    ensures |ids| == b.nNew + b.nTried && IsOrder(b, ids) && f.key == h && Usable(f)
  {
  }

  /** Nothing but entries so far. */
  ghost predicate Bare(b: Book, c: Book) {
    && NoRefs(c) && c.newTable == map[]
    && c.nNew == b.nNew && c.nTried == b.nTried && c.nLastGood == 1
  }

  /** Only new entries, without places. */
  ghost predicate OnlyNew(b: Book, c: Book, ids: seq<int>, n: int) {
    Stored(b, c, ids, n) && Bare(b, c) && c.triedTable == map[]
  }

  lemma OnlyNewStart(f: File, b: Book, ids: seq<int>)
    requires f.nNew == b.nNew && f.nTried == b.nTried
    ensures OnlyNew(b, LoadNew(f, 0), ids, 0)
  {
    assert LoadNew(f, 0).info.Keys == Range(0, 0);
  }

  lemma OnlyNewNext(b: Book, c: Book, ids: seq<int>, n: int)
    requires OnlyNew(b, c, ids, n) && 0 <= n < |ids| && ids[n] in b.info && !b.info[ids[n]].fInTried
    ensures OnlyNew(b, Entered(c, RecordOf(b.info[ids[n]]), n, false), ids, n + 1)
  {
    hide Stored;
    StoredNext(b, c, ids, n);
  }

  lemma {:induction false} LoadedNew(f: File, h: Hasher, b: Book, ids: seq<int>, n: nat)
    requires ListsEntries(f, h, b, ids) && n <= |f.newEntries|
    ensures OnlyNew(b, LoadNew(f, n), ids, n)
  {
    hide ListsEntries, OnlyNew, Entered, Usable;
    if n == 0 {
      ListedCounts(f, h, b, ids);
      OnlyNewStart(f, b, ids);
    } else {
      LoadedNew(f, h, b, ids, n - 1);
      ListedNew(f, h, b, ids, n - 1);
      OnlyNewNext(b, LoadNew(f, n - 1), ids, n - 1);
    }
  }

  // ---------- The tried entries ----------

  ghost predicate TriedStored(h: Hasher, b: Book, c: Book, ids: seq<int>, n: int) {
    && 0 <= b.nNew <= n <= |ids|
    && (forall s | s in c.triedTable ::
          && b.nNew <= c.triedTable[s] < n && ids[c.triedTable[s]] in b.info
          && s == h.TriedSlot(b.info[ids[c.triedTable[s]]].service))
    && (forall i | b.nNew <= i < n :: TriedAt(h, b, c, ids, i))
  }

  ghost predicate TriedAt(h: Hasher, b: Book, c: Book, ids: seq<int>, i: int) {
    && 0 <= i < |ids| && ids[i] in b.info
    && var s := h.TriedSlot(b.info[ids[i]].service); s in c.triedTable && c.triedTable[s] == i
  }

  /** No tried entry finds its slot taken. */
  lemma SlotIsFree(h: Hasher, b: Book, c: Book, ids: seq<int>, n: int)
    requires Consistent(h, b) && IsOrder(b, ids) && TriedStored(h, b, c, ids, n) && n < |ids|
    ensures ids[n] in b.info && h.TriedSlot(b.info[ids[n]].service) !in c.triedTable
  {
    OrderAt(b, ids, n, n);
    var s := h.TriedSlot(b.info[ids[n]].service);
    if s in c.triedTable {
      var i := c.triedTable[s];
      hide Consistent, IsOrder;
      OrderAt(b, ids, i, i);
      OldEntry(h, b, ids[i]);
      OldEntry(h, b, ids[n]);
      OrderAt(b, ids, i, n);
    }
  }

  lemma TriedNext(h: Hasher, b: Book, c: Book, ids: seq<int>, n: int)
    requires TriedStored(h, b, c, ids, n) && n < |ids| && ids[n] in b.info
    requires h.TriedSlot(b.info[ids[n]].service) !in c.triedTable
    ensures var s := h.TriedSlot(b.info[ids[n]].service);
      TriedStored(h, b, c.(triedTable := c.triedTable[s := n]), ids, n + 1)
  {
    var s := h.TriedSlot(b.info[ids[n]].service);
    var d := c.(triedTable := c.triedTable[s := n]);
    var m := n + 1;
    forall i | b.nNew <= i < m
      ensures TriedAt(h, b, d, ids, i)
    {
      if i < n {
        assert TriedAt(h, b, c, ids, i);
      }
    }
  }

  lemma TriedFrame(h: Hasher, b: Book, c: Book, d: Book, ids: seq<int>, n: int)
    requires TriedStored(h, b, c, ids, n) && d.triedTable == c.triedTable
    ensures TriedStored(h, b, d, ids, n)
  {
    forall i | b.nNew <= i < n
      ensures TriedAt(h, b, d, ids, i)
    {
      assert TriedAt(h, b, c, ids, i);
    }
  }

  lemma NoTried(h: Hasher, b: Book, c: Book, ids: seq<int>)
    requires IsOrder(b, ids) && c.triedTable == map[]
    ensures TriedStored(h, b, c, ids, b.nNew)
  {
  }

  /** The first n entries are stored, and the tried ones among them are in the tried table. */
  ghost predicate Half(h: Hasher, b: Book, c: Book, ids: seq<int>, n: int) {
    Stored(b, c, ids, n) && Bare(b, c) && TriedStored(h, b, c, ids, n) && c.nIdCount == n
  }

  lemma HalfStart(f: File, h: Hasher, b: Book, ids: seq<int>)
    requires ListsEntries(f, h, b, ids) && 0 <= b.nNew <= |f.newEntries|
    ensures Half(h, b, LoadTried(f, LoadNew(f, b.nNew), 0), ids, b.nNew)
  {
    var start := LoadNew(f, b.nNew);
    ListedCounts(f, h, b, ids);
    hide Stored, TriedStored, IsOrder, LoadNew, ListsEntries;
    LoadedNew(f, h, b, ids, b.nNew);
    var c := LoadTried(f, start, 0);
    StoredFrame(b, start, c, ids, b.nNew);
    NoTried(h, b, c, ids);
  }

  lemma WithTriedBare(b: Book, c: Book, r: Record, s: Slot)
    requires Bare(b, c)
    ensures Bare(b, WithTried(c, r, s))
  {
  }

  /** A tried entry with a free slot. */
  lemma HalfNext(h: Hasher, b: Book, c: Book, ids: seq<int>, n: int)
    requires Half(h, b, c, ids, n) && 0 <= n < |ids| && ids[n] in b.info && b.info[ids[n]].fInTried
    requires h.TriedSlot(b.info[ids[n]].service) !in c.triedTable
    ensures var e := b.info[ids[n]]; Half(h, b, WithTried(c, RecordOf(e), h.TriedSlot(e.service)), ids, n + 1)
  {
    hide Stored, TriedStored, Bare;
    var e := b.info[ids[n]];
    var s := h.TriedSlot(e.service);
    var d := WithTried(c, RecordOf(e), s);
    WithTriedBare(b, c, RecordOf(e), s);
    StoredNext(b, c, ids, n);
    TriedNext(h, b, c, ids, n);
    StoredFrame(b, Entered(c, RecordOf(e), n, true), d, ids, n + 1);
    TriedFrame(h, b, c.(triedTable := d.triedTable), d, ids, n + 1);
  }

  lemma LoadTriedNext(f: File, start: Book, k: nat)
    requires k < |f.triedEntries|
    requires f.key.TriedSlot(f.triedEntries[k].service) !in LoadTried(f, start, k).triedTable
    ensures LoadTried(f, start, k + 1) ==
      WithTried(LoadTried(f, start, k), f.triedEntries[k], f.key.TriedSlot(f.triedEntries[k].service))
  {
    hide Entered;
  }

  lemma {:induction false} LoadedTried(f: File, h: Hasher, b: Book, ids: seq<int>, k: nat)
    requires Consistent(h, b) && ListsEntries(f, h, b, ids) && k <= |f.triedEntries| && 0 <= b.nNew <= |f.newEntries|
    ensures Half(h, b, LoadTried(f, LoadNew(f, b.nNew), k), ids, b.nNew + k)
  {
    hide Half, IsOrder, Consistent, LoadNew, ListsEntries, LoadTried, WithTried;
    var start := LoadNew(f, b.nNew);
    if k == 0 {
      HalfStart(f, h, b, ids);
    } else {
      LoadedTried(f, h, b, ids, k - 1);
      var c := LoadTried(f, start, k - 1);
      var n := b.nNew + k - 1;
      ListedCounts(f, h, b, ids);
      ListedTried(f, h, b, ids, k - 1);
      HalfFree(h, b, c, ids, n);
      LoadTriedNext(f, start, k - 1);
      HalfNext(h, b, c, ids, n);
    }
  }

  lemma HalfFree(h: Hasher, b: Book, c: Book, ids: seq<int>, n: int)
    requires Consistent(h, b) && IsOrder(b, ids) && Half(h, b, c, ids, n) && n < |ids|
    ensures 0 <= n && ids[n] in b.info && h.TriedSlot(b.info[ids[n]].service) !in c.triedTable
  {
    hide Consistent, IsOrder;
    SlotIsFree(h, b, c, ids, n);
  }

  // ---------- The positions in the new table ----------

  /** The slots done so far hold the entries they held, and the reference counts go with them. */
  ghost predicate Placed(b: Book, c: Book, ids: seq<int>, done: set<Slot>) {
    && c.newTable.Keys == done && done <= b.newTable.Keys
    && (forall s | s in c.newTable :: s in b.newTable && SlotSame(b, c, ids, s))
    && (forall i | i in c.info :: c.info[i].nRefCount == |Slots(c.newTable, i)|)
  }

  ghost predicate SlotSame(b: Book, c: Book, ids: seq<int>, s: Slot)
    requires s in b.newTable && s in c.newTable
  {
    0 <= c.newTable[s] < b.nNew && c.newTable[s] < |ids| && ids[c.newTable[s]] == b.newTable[s]
  }

  lemma NothingPlaced(b: Book, c: Book, ids: seq<int>)
    requires c.newTable == map[] && NoRefs(c)
    ensures Placed(b, c, ids, {})
  {
  }

  lemma RefsRoom(h: Hasher, b: Book, c: Book, ids: seq<int>, done: set<Slot>, s: Slot, v: int)
    requires Consistent(h, b) && Placed(b, c, ids, done) && s in b.newTable && s !in done
    requires v in c.info && 0 <= v < |ids| && ids[v] == b.newTable[s]
    ensures c.info[v].nRefCount < NEW_BUCKETS_PER_ADDRESS
  {
    var id := b.newTable[s];
    OldSlots(h, b, s);
    OldEntry(h, b, id);
    hide Consistent;
    var mine, theirs := Slots(c.newTable, v), Slots(b.newTable, id);
    assert s in theirs && s !in mine;
    assert mine <= theirs - {s} by {
      forall t | t in mine
        ensures t in theirs && t != s
      {
        assert t in c.newTable.Keys;
        assert SlotSame(b, c, ids, t);
      }
    }
    SubsetSize(mine, theirs - {s});
  }

  lemma SubsetSize(x: set<Slot>, y: set<Slot>)
    requires x <= y
    ensures |x| <= |y|
  {
    assert y == x + (y - x);
  }

  lemma PlacedNext(b: Book, c: Book, ids: seq<int>, done: set<Slot>, s: Slot, v: int)
    requires Placed(b, c, ids, done) && s in b.newTable && s !in done && v in c.info
    requires 0 <= v < b.nNew && v < |ids| && ids[v] == b.newTable[s]
    ensures Placed(b, PutSlot(c, s, v), ids, done + {s})
  {
    var d := PutSlot(c, s, v);
    assert s !in c.newTable.Keys;
    assert d.newTable.Keys == done + {s};
    hide Slots;
    forall t | t in d.newTable
      ensures t in b.newTable && SlotSame(b, d, ids, t)
    {
      if t != s {
        assert t in c.newTable.Keys;
        assert SlotSame(b, c, ids, t);
      }
    }
    forall i | i in d.info
      ensures d.info[i].nRefCount == |Slots(d.newTable, i)|
    {
      assert i in c.info;
      RefsNext(c, s, v, i);
    }
  }

  lemma RefsNext(c: Book, s: Slot, v: int, i: int)
    requires s !in c.newTable && v in c.info && i in c.info && c.info[i].nRefCount == |Slots(c.newTable, i)|
    ensures PutSlot(c, s, v).info[i].nRefCount == |Slots(PutSlot(c, s, v).newTable, i)|
  {
    SlotsWith(c.newTable, s, v, i);
  }

  /** The index written for a slot names the entry in it. */
  lemma RankIs(h: Hasher, b: Book, s: Slot)
    requires Consistent(h, b) && s in b.newTable
    ensures var v := Rank(b.info, b.newTable[s]);
      b.nIdCount >= 0 && 0 <= v < b.nNew && v < |Order(b)| && Order(b)[v] == b.newTable[s]
  {
    var id := b.newTable[s];
    OldSlots(h, b, s);
    OldEntry(h, b, id);
    OrderIs(h, b);
    assert 0 <= id < b.nIdCount;
    SelectedAt(b.info, b.nIdCount, false, id);
  }

  /** Everything but some slots of the new table is in place. */
  ghost predicate Most(h: Hasher, b: Book, c: Book, ids: seq<int>, done: set<Slot>) {
    && Stored(b, c, ids, |ids|) && TriedStored(h, b, c, ids, |ids|) && Placed(b, c, ids, done)
    && c.nNew == b.nNew && c.nTried == b.nTried && c.nLastGood == 1 && c.nIdCount == |ids|
  }

  lemma MostStart(h: Hasher, b: Book, c: Book, ids: seq<int>)
    requires Half(h, b, c, ids, |ids|)
    ensures Most(h, b, c, ids, {})
  {
    assert Bare(b, c);
    NothingPlaced(b, c, ids);
  }

  lemma StoredEntry(b: Book, c: Book, ids: seq<int>, v: int)
    requires Stored(b, c, ids, |ids|) && 0 <= v < |ids|
    ensures ids[v] in b.info && v in c.info && c.info[v].service == b.info[ids[v]].service
    ensures c.info[v].fInTried == b.info[ids[v]].fInTried
  {
    assert StoredAt(b, c, ids, v);
  }

  /** Reading the index of a slot puts the entry back into that slot. */
  lemma IndexRead(f: File, h: Hasher, b: Book, c: Book, done: set<Slot>, s: Slot)
    requires Consistent(h, b) && b.nIdCount >= 0 && ListsEntries(f, h, b, Order(b))
    requires Most(h, b, c, Order(b), done) && s in b.newTable && s !in done
    ensures Most(h, b, LoadIndex(f, c, s.0, Rank(b.info, b.newTable[s])), Order(b), done + {s})
  {
    hide Consistent, ListsEntries, Stored, TriedStored, Placed, Order, Rank;
    var ids, v := Order(b), Rank(b.info, b.newTable[s]);
    RankIs(h, b, s);
    ListedCounts(f, h, b, ids);
    StoredEntry(b, c, ids, v);
    OldSlots(h, b, s);
    RefsRoom(h, b, c, ids, done, s, v);
    PlacedNext(b, c, ids, done, s, v);
    PlacedKeys(b, c, ids, done, s);
    StoredPut(b, c, ids, |ids|, s, v);
    TriedFrame(h, b, c, PutSlot(c, s, v), ids, |ids|);
    assert LoadIndex(f, c, s.0, v) == PutSlot(c, s, v);
  }

  lemma PlacedKeys(b: Book, c: Book, ids: seq<int>, done: set<Slot>, s: Slot)
    requires Placed(b, c, ids, done) && s !in done
    ensures s !in c.newTable
  {
    assert s !in c.newTable.Keys;
  }

  // ---------- All buckets ----------

  /** The slots that have been read: whole buckets below k, and positions below p of bucket k. */
  ghost function Done(b: Book, k: int, p: int): set<Slot> {
    set s: Slot | s in b.newTable && (s.0 < k || (s.0 == k && s.1 < p))
  }

  lemma DoneNext(b: Book, k: int, p: int)
    ensures Done(b, k, p + 1) == Done(b, k, p) + if (k, p) in b.newTable then {(k, p)} else {}
    ensures (k, p) !in Done(b, k, p)
  {
  }

  lemma DoneBucket(h: Hasher, b: Book, k: int)
    requires Consistent(h, b)
    ensures Done(b, k, BUCKET_SIZE) == Done(b, k + 1, 0)
  {
    forall s: Slot | s in b.newTable
      ensures 0 <= s.1 < BUCKET_SIZE
    {
      OldSlots(h, b, s);
    }
  }

  lemma DoneAll(h: Hasher, b: Book)
    requires Consistent(h, b)
    ensures Done(b, 0, 0) == {} && Done(b, NEW_BUCKET_COUNT, 0) == b.newTable.Keys
  {
  }

  lemma {:induction false} BucketRead(f: File, h: Hasher, b: Book, c: Book, k: int, p: nat)
    requires Consistent(h, b) && b.nIdCount >= 0 && ListsEntries(f, h, b, Order(b))
    requires Most(h, b, c, Order(b), Done(b, k, 0))
    ensures Most(h, b, LoadBucket(f, c, k, BucketList(b, k, p)), Order(b), Done(b, k, p))
  {
    hide Consistent, ListsEntries, Most, Done, LoadIndex, Order, Rank;
    if p > 0 {
      BucketRead(f, h, b, c, k, p - 1);
      hide LoadBucket, BucketList;
      DoneNext(b, k, p - 1);
      var s, list := (k, p - 1), BucketList(b, k, p - 1);
      BucketSnoc(f, b, c, k, p - 1);
      if s in b.newTable {
        IndexRead(f, h, b, LoadBucket(f, c, k, list), Done(b, k, p - 1), s);
      } else {
        assert Done(b, k, p - 1) + {} == Done(b, k, p - 1);
      }
    }
  }

  lemma BucketSnoc(f: File, b: Book, c: Book, k: int, p: nat)
    ensures var list := BucketList(b, k, p);
      LoadBucket(f, c, k, BucketList(b, k, p + 1)) ==
      if (k, p) in b.newTable then LoadIndex(f, LoadBucket(f, c, k, list), k, Rank(b.info, b.newTable[(k, p)]))
      else LoadBucket(f, c, k, list)
  {
    hide LoadIndex, Rank;
    var list := BucketList(b, k, p);
    if (k, p) in b.newTable {
      var v := Rank(b.info, b.newTable[(k, p)]);
      assert (list + [v])[..|list|] == list;
    } else {
      assert list + [] == list;
    }
  }

  /** The file holds the buckets of a book. */
  ghost predicate ListsBuckets(f: File, b: Book) {
    |f.buckets| == NEW_BUCKET_COUNT && forall k: nat | k < |f.buckets| :: f.buckets[k] == BucketList(b, k, BUCKET_SIZE)
  }

  lemma {:induction false} BucketsRead(f: File, h: Hasher, b: Book, c: Book, n: nat)
    requires Consistent(h, b) && b.nIdCount >= 0 && ListsEntries(f, h, b, Order(b)) && ListsBuckets(f, b)
    requires Most(h, b, c, Order(b), {}) && n <= |f.buckets|
    ensures Most(h, b, LoadBuckets(f, c, n), Order(b), Done(b, n, 0))
  {
    hide Consistent, ListsEntries, Most, Done, Order, BucketList;
    DoneAll(h, b);
    if n > 0 {
      BucketsRead(f, h, b, c, n - 1);
      BucketRead(f, h, b, LoadBuckets(f, c, n - 1), n - 1, BUCKET_SIZE);
      DoneBucket(h, b, n - 1);
    }
  }

  // ---------- Everything is back ----------

  lemma InOrder(b: Book, ids: seq<int>, id: int) returns (i: nat)
    requires IsOrder(b, ids) && id in b.info
    ensures i < |ids| && ids[i] == id && (b.info[id].fInTried <==> i >= b.nNew)
  {
    assert id in ids;
    i :| i < |ids| && ids[i] == id;
  }

  lemma TriedSlotBack(h: Hasher, b: Book, c: Book, ids: seq<int>, s: Slot)
    requires Consistent(h, b) && IsOrder(b, ids) && TriedStored(h, b, c, ids, |ids|)
    ensures s in b.triedTable <==> s in c.triedTable
    ensures s in c.triedTable ==> 0 <= c.triedTable[s] < |ids| && ids[c.triedTable[s]] == b.triedTable[s]
  {
    if s in b.triedTable {
      OldSlots(h, b, s);
      var i := InOrder(b, ids, b.triedTable[s]);
      assert TriedAt(h, b, c, ids, i);
    }
    if s in c.triedTable {
      var i := c.triedTable[s];
      OrderAt(b, ids, i, i);
      OldEntry(h, b, ids[i]);
    }
  }

  lemma AddrBack(h: Hasher, b: Book, c: Book, ids: seq<int>, ip: int)
    requires Consistent(h, b) && IsOrder(b, ids) && Stored(b, c, ids, |ids|)
    ensures ip in b.addr <==> ip in c.addr
    ensures ip in c.addr ==> 0 <= c.addr[ip] < |ids| && ids[c.addr[ip]] == b.addr[ip]
  {
    if ip in b.addr {
      OldAddr(h, b, ip);
      var i := InOrder(b, ids, b.addr[ip]);
      assert StoredAt(b, c, ids, i);
    }
    if ip in c.addr {
      assert AddrStored(b, c, ids, |ids|, ip);
      OldEntry(h, b, ids[c.addr[ip]]);
    }
  }

  lemma NewTableBack(b: Book, c: Book, ids: seq<int>)
    requires Placed(b, c, ids, b.newTable.Keys)
    ensures SameTable(b.newTable, c.newTable, ids)
  {
  }

  lemma TriedTableBack(h: Hasher, b: Book, c: Book, ids: seq<int>)
    requires Consistent(h, b) && IsOrder(b, ids) && TriedStored(h, b, c, ids, |ids|)
    ensures SameTable(b.triedTable, c.triedTable, ids)
  {
    hide Consistent, IsOrder, TriedStored;
    forall s: Slot
      ensures s in b.triedTable.Keys <==> s in c.triedTable.Keys
      ensures s in c.triedTable ==>
        s in b.triedTable && 0 <= c.triedTable[s] < |ids| && ids[c.triedTable[s]] == b.triedTable[s]
    {
      TriedSlotBack(h, b, c, ids, s);
    }
    assert b.triedTable.Keys == c.triedTable.Keys;
  }

  lemma EntryBack(h: Hasher, b: Book, c: Book, ids: seq<int>, i: int)
    requires Consistent(h, b) && IsOrder(b, ids) && Most(h, b, c, ids, b.newTable.Keys) && 0 <= i < |ids|
    ensures EntryRenamed(b, c, ids, i)
  {
    assert StoredAt(b, c, ids, i);
    assert c.info[i].nRefCount == |Slots(c.newTable, i)|;
    NewTableBack(b, c, ids);
    OldEntry(h, b, ids[i]);
    RenamedSlots(b, c, ids, i);
  }

  lemma AddrsBack(h: Hasher, b: Book, c: Book, ids: seq<int>)
    requires Consistent(h, b) && IsOrder(b, ids) && Stored(b, c, ids, |ids|)
    ensures c.addr.Keys == b.addr.Keys
    ensures forall ip | ip in c.addr :: ip in b.addr && 0 <= c.addr[ip] < |ids| && ids[c.addr[ip]] == b.addr[ip]
  {
    hide Consistent, IsOrder, Stored;
    forall ip
      ensures ip in b.addr.Keys <==> ip in c.addr.Keys
      ensures ip in c.addr ==> ip in b.addr && 0 <= c.addr[ip] < |ids| && ids[c.addr[ip]] == b.addr[ip]
    {
      AddrBack(h, b, c, ids, ip);
    }
    assert b.addr.Keys == c.addr.Keys;
  }

  lemma StoredSizes(b: Book, c: Book, ids: seq<int>)
    requires Stored(b, c, ids, |ids|)
    ensures c.info.Keys == Range(0, |ids|) && |c.random| == |ids| && forall i | 0 <= i < |ids| :: c.random[i] == i
  {
  }

  /** With all slots read, the loaded book is the saved one under new ids. */
  lemma AllBack(h: Hasher, b: Book, c: Book, ids: seq<int>)
    requires Consistent(h, b) && IsOrder(b, ids) && Most(h, b, c, ids, b.newTable.Keys)
    ensures Renamed(b, c, ids)
  {
    hide Consistent, IsOrder, TriedStored, Placed, SameTable, Stored, EntryRenamed, Range;
    StoredSizes(b, c, ids);
    NewTableBack(b, c, ids);
    TriedTableBack(h, b, c, ids);
    AddrsBack(h, b, c, ids);
    forall i | 0 <= i < |ids|
      ensures EntryRenamed(b, c, ids, i)
    {
      EntryBack(h, b, c, ids, i);
    }
  }

  // ---------- Pruning ----------

  predicate Unreferenced(b: Book, id: int) {
    id in b.info && !b.info[id].fInTried && b.info[id].nRefCount == 0
  }

  /** Deleting, among n ids, the new entries that got no place. */
  ghost function Pruned(b: Book, from: int, n: nat): (c: Book)
    requires RandomOk(b.info, b.random)
    ensures RandomOk(c.info, c.random)
  {
    if n == 0 then b
    else
      var c := Pruned(b, from, n - 1);
      var id := from + n - 1;
      if Unreferenced(c, id) then
        DeleteRandom(c, id);
        Delete(c, id)
      else c
  }

  lemma {:induction false} NothingPruned(b: Book, from: int, n: nat)
    requires RandomOk(b.info, b.random) && forall id | id in b.info :: !Unreferenced(b, id)
    ensures Pruned(b, from, n) == b
  {
    if n > 0 {
      hide RandomOk, Unreferenced;
      NothingPruned(b, from, n - 1);
      Missing(b, from + n - 1);
    }
  }

  lemma Missing(b: Book, id: int)
    ensures id !in b.info ==> !Unreferenced(b, id)
  {
  }

  lemma EnteredRandom(b: Book, r: Record, id: int, tried: bool)
    requires RandomOk(b.info, b.random) && id !in b.info
    ensures RandomOk(Entered(b, r, id, tried).info, Entered(b, r, id, tried).random)
  {
  }

  lemma PutRandom(b: Book, s: Slot, id: int)
    requires RandomOk(b.info, b.random) && id in b.info
    ensures RandomOk(PutSlot(b, s, id).info, PutSlot(b, s, id).random)
  {
  }

  ghost predicate Below(b: Book, n: int) {
    forall id | id in b.info :: id < n
  }

  lemma WithNewRandom(f: File, c: Book, n: nat)
    requires n < |f.newEntries| && RandomOk(c.info, c.random) && Below(c, n)
    ensures RandomOk(WithNew(f, c, n).info, WithNew(f, c, n).random) && Below(WithNew(f, c, n), n + 1)
  {
    hide RandomOk;
    var r := f.newEntries[n];
    EnteredRandom(c, r, n, false);
    PutRandom(Entered(c, r, n, false), f.key.NewSlot(r.service, r.source), n);
  }

  lemma EmptyRandom(f: File)
    ensures RandomOk(LoadNew(f, 0).info, LoadNew(f, 0).random) && Below(LoadNew(f, 0), 0)
  {
  }

  lemma {:induction false} NewRandom(f: File, n: nat)
    requires n <= |f.newEntries|
    ensures RandomOk(LoadNew(f, n).info, LoadNew(f, n).random) && Below(LoadNew(f, n), n)
  {
    hide RandomOk, WithNew, Below;
    if n == 0 {
      EmptyRandom(f);
    } else {
      NewRandom(f, n - 1);
      WithNewRandom(f, LoadNew(f, n - 1), n - 1);
    }
  }

  lemma {:induction false} TriedRandom(f: File, b: Book, n: nat)
    requires n <= |f.triedEntries| && RandomOk(b.info, b.random) && Below(b, f.nNew)
    ensures var c := LoadTried(f, b, n); RandomOk(c.info, c.random) && Below(c, c.nIdCount)
  {
    if n > 0 {
      hide RandomOk;
      TriedRandom(f, b, n - 1);
      var c := LoadTried(f, b, n - 1);
      EnteredRandom(c, f.triedEntries[n - 1], c.nIdCount, true);
    }
  }

  lemma {:induction false} BucketRandom(f: File, b: Book, bucket: int, list: seq<int>)
    requires RandomOk(b.info, b.random)
    ensures RandomOk(LoadBucket(f, b, bucket, list).info, LoadBucket(f, b, bucket, list).random)
  {
    if list != [] {
      hide RandomOk;
      var n := |list| - 1;
      BucketRandom(f, b, bucket, list[..n]);
      var c, i := LoadBucket(f, b, bucket, list[..n]), list[n];
      if i in c.info {
        PutRandom(c, (bucket, f.key.Position(true, bucket, c.info[i].service)), i);
      }
    }
  }

  lemma {:induction false} BucketsRandom(f: File, b: Book, n: nat)
    requires n <= |f.buckets| && RandomOk(b.info, b.random)
    ensures RandomOk(LoadBuckets(f, b, n).info, LoadBuckets(f, b, n).random)
  {
    if n > 0 {
      hide RandomOk;
      BucketsRandom(f, b, n - 1);
      BucketRandom(f, LoadBuckets(f, b, n - 1), n - 1, f.buckets[n - 1]);
    }
  }

  /** Whatever the file holds, `vRandom` and the entries fit together, so that pruning can delete. */
  lemma FilledRandom(f: File)
    requires Complete(f)
    ensures RandomOk(Filled(f).info, Filled(f).random)
  {
    hide RandomOk, LoadNew, LoadTried, LoadBuckets;
    NewRandom(f, Natural(f.nNew));
    var b := LoadNew(f, Natural(f.nNew));
    if f.nNew < 0 {
      NoEntries(f);
    }
    TriedRandom(f, b, Natural(f.nTried));
    BucketsRandom(f, LoadTried(f, b, Natural(f.nTried)), Natural(Buckets(f)));
  }

  lemma NoEntries(f: File)
    ensures Below(LoadNew(f, 0), f.nNew)
  {
  }

  const MAX_NEW: int := NEW_BUCKET_COUNT * BUCKET_SIZE
  const MAX_TRIED: int := TRIED_BUCKET_COUNT * BUCKET_SIZE

  /** `Unserialize` into a fresh manager; `None` stands for its exceptions. */
  ghost function Loaded(f: File): Option<Book> {
    if f.keySize != 32 || f.nNew > MAX_NEW || f.nTried > MAX_TRIED || !Complete(f) then None
    else
      FilledRandom(f);
      var b := Filled(f);
      var from := if f.nNew < 0 then f.nNew else 0;
      Some(Pruned(b, from, Natural(b.nIdCount - from)))
  }

  // ---------- A consistent book is small enough ----------

  /** Slots with numbers below n. */
  lemma {:induction false} FewSlots(slots: set<Slot>, n: nat)
    requires forall s | s in slots :: 0 <= s.1 < BUCKET_SIZE && 0 <= BUCKET_SIZE * s.0 + s.1 < n
    ensures |slots| <= n
    decreases n
  {
    if n == 0 {
      assert slots == {} by {
        forall s | s in slots
          ensures false
        {
        }
      }
    } else {
      var last := ((n - 1) / BUCKET_SIZE, (n - 1) % BUCKET_SIZE);
      var rest := slots - {last};
      forall s | s in rest
        ensures BUCKET_SIZE * s.0 + s.1 < n - 1
      {
        OnlySlot(s, n - 1);
      }
      FewSlots(rest, n - 1);
      assert slots <= rest + {last};
      SubsetSize(slots, rest + {last});
    }
  }

  lemma OnlySlot(s: Slot, n: nat)
    requires 0 <= s.1 < BUCKET_SIZE
    ensures BUCKET_SIZE * s.0 + s.1 == n ==> s == (n / BUCKET_SIZE, n % BUCKET_SIZE)
  {
  }

  lemma MemberSlot(slots: set<Slot>) returns (s: Slot)
    requires slots != {}
    ensures s in slots
  {
    s :| s in slots;
  }

  /** There are no more entries than slots that hold them. */
  lemma {:induction false} FewEntries(table: map<Slot, int>, ids: set<int>)
    requires forall id | id in ids :: Slots(table, id) != {}
    ensures |ids| <= |table.Keys|
    decreases |table.Keys|
  {
    if table.Keys == {} {
      forall id
        ensures id !in ids
      {
        NoSlots(table, id);
      }
      assert ids == {};
    } else {
      var s := MemberSlot(table.Keys);
      var id := table[s];
      var rest := map t | t in table && table[t] != id :: table[t];
      assert rest.Keys <= table.Keys - {s};
      SubsetSize(rest.Keys, table.Keys - {s});
      forall x | x in ids - {id}
        ensures Slots(rest, x) != {}
      {
        assert Slots(rest, x) == Slots(table, x);
      }
      FewEntries(rest, ids - {id});
      WithOne(ids, id);
    }
  }

  lemma NoSlots(table: map<Slot, int>, id: int)
    requires table.Keys == {}
    ensures Slots(table, id) == {}
  {
  }

  lemma WithOne(ids: set<int>, id: int)
    ensures |ids| <= |ids - {id}| + 1
  {
    assert ids - {id} + {id} == if id in ids then ids else ids + {id};
  }

  lemma WithinLimits(h: Hasher, b: Book)
    requires Consistent(h, b)
    ensures b.nNew <= MAX_NEW && b.nTried <= MAX_TRIED
  {
    OldCounts(h, b);
    hide Consistent;
    forall id | id in NewIds(b.info)
      ensures Slots(b.newTable, id) != {}
    {
      OldEntry(h, b, id);
    }
    FewEntries(b.newTable, NewIds(b.info));
    forall id | id in TriedIds(b.info)
      ensures Slots(b.triedTable, id) != {}
    {
      OldEntry(h, b, id);
      assert h.TriedSlot(b.info[id].service) in Slots(b.triedTable, id);
    }
    FewEntries(b.triedTable, TriedIds(b.info));
    forall s | s in b.newTable
      ensures 0 <= s.0 < NEW_BUCKET_COUNT && 0 <= s.1 < BUCKET_SIZE
    {
      OldSlots(h, b, s);
    }
    FewSlots(b.newTable.Keys, MAX_NEW);
    forall s | s in b.triedTable
      ensures 0 <= s.0 < TRIED_BUCKET_COUNT && 0 <= s.1 < BUCKET_SIZE
    {
      OldSlots(h, b, s);
    }
    FewSlots(b.triedTable.Keys, MAX_TRIED);
  }

  // ---------- The round trip ----------

  lemma SavedLists(h: Hasher, b: Book)
    requires Consistent(h, b)
    ensures b.nIdCount >= 0 && ListsEntries(Saved(h, b), h, b, Order(b)) && ListsBuckets(Saved(h, b), b)
    ensures Saved(h, b).keySize == 32 && Buckets(Saved(h, b)) == NEW_BUCKET_COUNT
  {
    OrderIs(h, b);
    SelectedAre(b.info, b.nIdCount, false);
    SelectedAre(b.info, b.nIdCount, true);
    hide Consistent, Selected, BucketList;
    OrderSizes(b, Order(b));
  }

  lemma OrderSizes(b: Book, ids: seq<int>)
    requires IsOrder(b, ids)
    ensures |ids| == b.nNew + b.nTried && 0 <= b.nNew && 0 <= b.nTried
  {
  }

  lemma AllReferenced(h: Hasher, r: Book)
    requires Consistent(h, r)
    ensures RandomOk(r.info, r.random) && forall id | id in r.info :: !Unreferenced(r, id)
  {
  }

  lemma CanLoad(f: File, h: Hasher, b: Book, ids: seq<int>)
    requires ListsEntries(f, h, b, ids) && ListsBuckets(f, b)
    ensures Complete(f) && Buckets(f) == NEW_BUCKET_COUNT == |f.buckets| && 0 <= b.nNew && 0 <= b.nTried
    ensures Filled(f) == LoadBuckets(f, LoadTried(f, LoadNew(f, b.nNew), b.nTried), NEW_BUCKET_COUNT)
  {
    hide LoadBuckets, LoadTried, LoadNew;
    ListedCounts(f, h, b, ids);
    OrderSizes(b, ids);
  }

  /** Before pruning the book is already complete. */
  lemma FilledBack(h: Hasher, b: Book, f: File)
    requires Consistent(h, b) && b.nIdCount >= 0 && ListsEntries(f, h, b, Order(b)) && ListsBuckets(f, b)
    ensures Complete(f) && Renamed(b, Filled(f), Order(b)) && Consistent(h, Filled(f))
  {
    hide Consistent, ListsEntries, Half, Most, Order, Done, Renamed, IsOrder, LoadNew, LoadTried, LoadBuckets, Buckets,
         Filled, Complete, ListsBuckets, Selected;
    OrderIs(h, b);
    var ids := Order(b);
    CanLoad(f, h, b, ids);
    ListedCounts(f, h, b, ids);
    LoadedTried(f, h, b, ids, b.nTried);
    var c := LoadTried(f, LoadNew(f, b.nNew), b.nTried);
    MostStart(h, b, c, ids);
    BucketsRead(f, h, b, c, NEW_BUCKET_COUNT);
    DoneAll(h, b);
    AllBack(h, b, Filled(f), ids);
    RenamedConsistent(h, b, Filled(f), ids);
  }

  /**
   Saving any consistent manager and loading it into a fresh one gives the same manager up to a renaming of
   the ids: every entry with its saved fields and reference count, and the same slots of both tables. The result is
   consistent again.
   */
  lemma RoundTrip(h: Hasher, b: Book)
    requires Consistent(h, b)
    ensures b.nIdCount >= 0 && IsOrder(b, Order(b)) && Loaded(Saved(h, b)).Some?
    ensures Renamed(b, Loaded(Saved(h, b)).value, Order(b)) && Consistent(h, Loaded(Saved(h, b)).value)
  {
    hide Consistent, ListsEntries, ListsBuckets, Order, Renamed, IsOrder, Pruned, Saved, RandomOk, Unreferenced,
         Buckets, Filled, Complete, Selected;
    OrderIs(h, b);
    SavedLists(h, b);
    WithinLimits(h, b);
    var f := Saved(h, b);
    ListedCounts(f, h, b, Order(b));
    FilledBack(h, b, f);
    AllReferenced(h, Filled(f));
    var from := if f.nNew < 0 then f.nNew else 0;
    NothingPruned(Filled(f), from, Natural(Filled(f).nIdCount - from));
  }

  // ---------- The loops ----------

  /** The first loop of `Serialize`: numbers for the ids, and the new entries. Its assertion on the counter holds. */
  method SaveNew(info: map<int, Info>, count: nat, nNew: int) returns (entries: seq<Record>, unkIds: map<int, int>)
    requires |Selected(info, count, false)| == nNew && forall id | id in info :: 0 <= id < count
    ensures Writes(info, Selected(info, count, false), entries)
    ensures forall id | id in info :: id in unkIds && unkIds[id] == Rank(info, id)
  {
    entries, unkIds := [], map[];
    var nIds := 0;
    for id := 0 to count
      invariant nIds == |Selected(info, id, false)|
      invariant Writes(info, Selected(info, id, false), entries)
      invariant forall x | x in info && x < id :: x in unkIds && unkIds[x] == Rank(info, x)
    {
      WritesNext(info, id, false, entries);
      assert Rank(info, id) == nIds;
      if id in info {
        unkIds := unkIds[id := nIds];
        if info[id].nRefCount != 0 {
          SelectedAt(info, count, false, id);
          assert nIds != nNew;
          entries := entries + [RecordOf(info[id])];
          nIds := nIds + 1;
        }
      }
    }
  }

  /** The second loop: the tried entries. */
  method SaveTried(info: map<int, Info>, count: nat, nTried: int) returns (entries: seq<Record>)
    requires |Selected(info, count, true)| == nTried
    ensures Writes(info, Selected(info, count, true), entries)
  {
    entries := [];
    var nIds := 0;
    for id := 0 to count
      invariant nIds == |Selected(info, id, true)|
      invariant Writes(info, Selected(info, id, true), entries)
    {
      WritesNext(info, id, true, entries);
      if id in info && info[id].fInTried {
        SelectedAt(info, count, true, id);
        assert nIds != nTried;
        entries := entries + [RecordOf(info[id])];
        nIds := nIds + 1;
      }
    }
  }

  lemma WritesNext(info: map<int, Info>, id: nat, tried: bool, entries: seq<Record>)
    requires Writes(info, Selected(info, id, tried), entries)
    ensures Selected(info, id + 1, tried) == Selected(info, id, tried) + if Chosen(info, id, tried) then [id] else []
    ensures Chosen(info, id, tried) ==>
      Writes(info, Selected(info, id + 1, tried), entries + [RecordOf(info[id])])
    ensures !Chosen(info, id, tried) ==> Writes(info, Selected(info, id + 1, tried), entries)
  {
  }

  lemma WritesRecords(info: map<int, Info>, ids: seq<int>, entries: seq<Record>)
    requires Writes(info, ids, entries)
    ensures (forall i | 0 <= i < |ids| :: ids[i] in info) && entries == Records(info, ids)
  {
  }

  lemma Counted(h: Hasher, b: Book)
    requires Consistent(h, b)
    ensures b.nIdCount >= 0 && forall id | id in b.info :: 0 <= id < b.nIdCount
    ensures |Selected(b.info, b.nIdCount, false)| == b.nNew && |Selected(b.info, b.nIdCount, true)| == b.nTried
    ensures forall s | s in b.newTable :: b.newTable[s] in b.info
  {
    OrderIs(h, b);
    OrderSizes(b, Order(b));
    forall s | s in b.newTable
      ensures b.newTable[s] in b.info
    {
      OldSlots(h, b, s);
    }
  }

  ghost predicate Writes(info: map<int, Info>, ids: seq<int>, records: seq<Record>) {
    |records| == |ids| && forall i | 0 <= i < |ids| :: ids[i] in info && records[i] == RecordOf(info[ids[i]])
  }

  /** `Serialize`. */
  method Serialize(h: Hasher, b: Book) returns (f: File)
    requires Consistent(h, b)
    ensures b.nIdCount >= 0 && f == Saved(h, b)
  {
    hide Consistent, Selected, Rank;
    Counted(h, b);
    var newEntries, unkIds := SaveNew(b.info, b.nIdCount, b.nNew);
    var triedEntries := SaveTried(b.info, b.nIdCount, b.nTried);
    WritesRecords(b.info, Selected(b.info, b.nIdCount, false), newEntries);
    WritesRecords(b.info, Selected(b.info, b.nIdCount, true), triedEntries);
    hide Writes, Records;
    var buckets: seq<seq<int>> := [];
    for bucket := 0 to NEW_BUCKET_COUNT
      invariant |buckets| == bucket && forall k: nat | k < bucket :: buckets[k] == BucketList(b, k, BUCKET_SIZE)
    {
      var list: seq<int> := [];
      for i := 0 to BUCKET_SIZE
        invariant list == BucketList(b, bucket, i)
      {
        if (bucket, i) in b.newTable {
          list := list + [unkIds[b.newTable[(bucket, i)]]];
        }
      }
      buckets := buckets + [list];
    }
    f := File(1, 32, h, b.nNew, b.nTried, FlipBit30(NEW_BUCKET_COUNT), newEntries, triedEntries, buckets);
  }

  /** `Unserialize`: errors for a wrong key size, for counts over the limits and for a stream that ends early. */
  method Unserialize(f: File) returns (r: Option<Book>)
    ensures r == Loaded(f)
  {
    if f.keySize != 32 || f.nNew > MAX_NEW || f.nTried > MAX_TRIED || !Complete(f) {
      return None;
    }
    FilledRandom(f);
    var b := ReadEntries(f);
    b := ReadTried(f, b);
    hide LoadNew, LoadTried;
    for bucket := 0 to Natural(Buckets(f))
      invariant b == LoadBuckets(f, LoadTried(f, LoadNew(f, Natural(f.nNew)), Natural(f.nTried)), bucket)
    {
      b := ReadBucket(f, b, bucket);
    }
    var from := if f.nNew < 0 then f.nNew else 0;
    b := PruneBook(b, from, Natural(b.nIdCount - from));
    r := Some(b);
  }

  method ReadEntries(f: File) returns (b: Book)
    requires f.nNew <= |f.newEntries|
    ensures b == LoadNew(f, Natural(f.nNew))
  {
    b := EMPTY_BOOK.(nNew := f.nNew, nTried := f.nTried);
    hide WithNew;
    for n := 0 to Natural(f.nNew)
      invariant b == LoadNew(f, n)
    {
      b := ReadEntry(f, b, n);
    }
  }

  method ReadEntry(f: File, c: Book, n: nat) returns (b: Book)
    requires n < |f.newEntries|
    ensures b == WithNew(f, c, n)
  {
    var info := f.newEntries[n];
    b := Entered(c, info, n, false);
    if !Usable(f) {
      var slot := f.key.NewSlot(info.service, info.source);
      if slot !in b.newTable {
        b := PutSlot(b, slot, n);
      }
    }
  }

  method ReadTried(f: File, start: Book) returns (b: Book)
    requires f.nTried <= |f.triedEntries|
    ensures b == LoadTried(f, start, Natural(f.nTried))
  {
    b := start.(nIdCount := f.nNew);
    var nLost := 0;
    for n := 0 to Natural(f.nTried)
      invariant b.(nTried := b.nTried - nLost) == LoadTried(f, start, n)
    {
      var info := f.triedEntries[n];
      var slot := f.key.TriedSlot(info.service);
      if slot !in b.triedTable {
        b := WithTried(b, info, slot);
      } else {
        nLost := nLost + 1;
      }
    }
    b := b.(nTried := b.nTried - nLost);
  }

  method ReadBucket(f: File, start: Book, bucket: nat) returns (b: Book)
    requires bucket < |f.buckets|
    ensures b == LoadBucket(f, start, bucket, f.buckets[bucket])
  {
    var list := f.buckets[bucket];
    b := start;
    for n := 0 to |list|
      invariant b == LoadBucket(f, start, bucket, list[..n])
    {
      var nIndex := list[n];
      assert list[..n + 1][..n] == list[..n];
      if 0 <= nIndex < f.nNew && nIndex in b.info {
        var slot := (bucket, f.key.Position(true, bucket, b.info[nIndex].service));
        if Usable(f) && slot !in b.newTable && b.info[nIndex].nRefCount < NEW_BUCKETS_PER_ADDRESS {
          b := PutSlot(b, slot, nIndex);
        }
      }
    }
    assert list[..|list|] == list;
  }

  /** `Delete`. */
  method DeleteEntry(b: Book, id: int) returns (r: Book)
    requires RandomOk(b.info, b.random) && id in b.info
    ensures r == Delete(b, id)
  {
    r := DropLast(SwapRandom(b, b.info[id].nRandomPos, |b.random| - 1), id);
  }

  method PruneBook(start: Book, from: int, count: nat) returns (b: Book)
    requires RandomOk(start.info, start.random)
    ensures b == Pruned(start, from, count)
  {
    hide RandomOk, Delete;
    b := start;
    for n := 0 to count
      invariant b == Pruned(start, from, n) && RandomOk(b.info, b.random)
    {
      if Unreferenced(b, from + n) {
        DeleteRandom(b, from + n);
        b := DeleteEntry(b, from + n);
      }
    }
  }
}

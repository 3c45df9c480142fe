/** The manager's own consistency check, `Check_`, with its loops, its counts and its error codes. */
module AddrCheck {
  import opened AddrBook
  import opened AddrMan

  // ---------- The entries ----------

  /** The tests on one entry, and the code of the first that fails. */
  function EntryCode(e: Info, id: int, addr: map<int, int>, random: seq<int>): int {
    if e.fInTried && e.stats.nLastSuccess == 0 then -1
    else if e.fInTried && e.nRefCount != 0 then -2
    else if !e.fInTried && (e.nRefCount < 0 || e.nRefCount > NEW_BUCKETS_PER_ADDRESS) then -3
    else if !e.fInTried && e.nRefCount == 0 then -4
    else if !NamedBy(addr, e.service.ip, id) then -5
    else if e.nRandomPos < 0 || e.nRandomPos >= |random| || random[e.nRandomPos] != id then -14
    else if e.stats.nLastTry < 0 then -6
    else if e.stats.nLastSuccess < 0 then -8
    else 0
  }

  ghost predicate EntriesPass(info: map<int, Info>, addr: map<int, int>, random: seq<int>) {
    forall id | id in info :: EntryCode(info[id], id, addr, random) == 0
  }

  /** The references that the new entries should have. */
  ghost function Refs(info: map<int, Info>): map<int, int> {
    map id | id in info && !info[id].fInTried :: info[id].nRefCount
  }

  /** `mapAddr` after lookups: nothing is lost, and what is added leads to 0. */
  ghost predicate Looked(before: map<int, int>, after: map<int, int>) {
    && (forall ip | ip in before :: ip in after && after[ip] == before[ip])
    && (forall ip | ip in after && ip !in before :: after[ip] == 0)
  }

  /** The lookup `mapAddr[..]`, which makes an entry where there is none. */
  method LookUp(m: Manager, ip: int) returns (id: int)
    modifies m`mapAddr
    ensures Looked(old(m.mapAddr), m.mapAddr) && ip in m.mapAddr && id == m.mapAddr[ip]
    ensures id == if ip in old(m.mapAddr) then old(m.mapAddr)[ip] else 0
  {
    if ip !in m.mapAddr {
      m.mapAddr := m.mapAddr[ip := 0];
    }
    id := m.mapAddr[ip];
  }

  lemma LookedTwice(a: map<int, int>, b: map<int, int>, c: map<int, int>, ip: int, id: int)
    requires Looked(a, b) && Looked(b, c)
    ensures Looked(a, c) && (NamedBy(a, ip, id) <==> NamedBy(b, ip, id))
  {
  }

  method CheckEntry(m: Manager, id: int) returns (code: int)
    requires id in m.mapInfo
    modifies m`mapAddr
    ensures Looked(old(m.mapAddr), m.mapAddr)
    ensures code == EntryCode(m.mapInfo[id], id, old(m.mapAddr), m.vRandom)
    ensures code in {0, -1, -2, -3, -4, -5, -6, -8, -14}
    ensures code == 0 ==> m.mapInfo[id].service.ip in m.mapAddr
  {
    var info := m.mapInfo[id];
    if info.fInTried {
      if info.stats.nLastSuccess == 0 {
        return -1;
      }
      if info.nRefCount != 0 {
        return -2;
      }
    } else {
      if info.nRefCount < 0 || info.nRefCount > NEW_BUCKETS_PER_ADDRESS {
        return -3;
      }
      if info.nRefCount == 0 {
        return -4;
      }
    }
    var named := LookUp(m, info.service.ip);
    if named != id {
      return -5;
    }
    if info.nRandomPos < 0 || info.nRandomPos >= |m.vRandom| || m.vRandom[info.nRandomPos] != id {
      return -14;
    }
    if info.stats.nLastTry < 0 {
      return -6;
    }
    if info.stats.nLastSuccess < 0 {
      return -8;
    }
    code := 0;
  }

  lemma Inhabited(ids: set<int>)
    requires ids != {}
    ensures exists id :: id in ids
  {
    assert (forall id :: id !in ids) ==> ids == {};
  }

  /** The entries outside `todo` have passed, and are sorted into the two collections. */
  ghost predicate Sorted(info: map<int, Info>, addr: map<int, int>, random: seq<int>, after: map<int, int>,
                         todo: set<int>, setTried: set<int>, mapNew: map<int, int>)
  {
    && todo <= info.Keys
    && (forall id | id in info && id !in todo ::
          EntryCode(info[id], id, addr, random) == 0 && info[id].service.ip in after)
    && setTried == TriedIds(info) - todo && mapNew == Refs(info) - todo
  }

  lemma SortedNext(info: map<int, Info>, addr: map<int, int>, random: seq<int>, after: map<int, int>,
                   todo: set<int>, setTried: set<int>, mapNew: map<int, int>, id: int)
    requires Sorted(info, addr, random, after, todo, setTried, mapNew) && id in todo && id in info
    requires EntryCode(info[id], id, addr, random) == 0 && info[id].service.ip in after
    ensures Sorted(info, addr, random, after, todo - {id},
                   if info[id].fInTried then setTried + {id} else setTried,
                   if info[id].fInTried then mapNew else mapNew[id := info[id].nRefCount])
  {
    hide EntryCode;
    if info[id].fInTried {
      assert TriedIds(info) - todo + {id} == TriedIds(info) - (todo - {id});
      assert Refs(info) - todo == Refs(info) - (todo - {id});
    } else {
      assert TriedIds(info) - todo == TriedIds(info) - (todo - {id});
      assert (Refs(info) - todo)[id := info[id].nRefCount] == Refs(info) - (todo - {id});
    }
  }

  lemma SortedLooked(info: map<int, Info>, addr: map<int, int>, random: seq<int>, a: map<int, int>, b: map<int, int>,
                     todo: set<int>, setTried: set<int>, mapNew: map<int, int>)
    requires Sorted(info, addr, random, a, todo, setTried, mapNew) && Looked(a, b)
    ensures Sorted(info, addr, random, b, todo, setTried, mapNew)
  {
    hide EntryCode;
  }

  /** The loop over `mapInfo`, in any order. */
  method CheckEntries(m: Manager) returns (code: int, setTried: set<int>, mapNew: map<int, int>)
    modifies m`mapAddr
    ensures Looked(old(m.mapAddr), m.mapAddr)
    ensures code == 0 <==> EntriesPass(m.mapInfo, old(m.mapAddr), m.vRandom)
    ensures code == 0 ==> setTried == TriedIds(m.mapInfo) && mapNew == Refs(m.mapInfo)
    ensures code == 0 ==> forall id | id in m.mapInfo :: m.mapInfo[id].service.ip in m.mapAddr
    ensures code != 0 ==>
      exists id | id in m.mapInfo :: code == EntryCode(m.mapInfo[id], id, old(m.mapAddr), m.vRandom)
    ensures code in {0, -1, -2, -3, -4, -5, -6, -8, -14}
  {
    setTried, mapNew := {}, map[];
    var todo := m.mapInfo.Keys;
    ghost var info, addr := m.mapInfo, m.mapAddr;
    assert Sorted(info, addr, m.vRandom, m.mapAddr, todo, setTried, mapNew);
    hide Sorted, Looked, EntryCode, EntriesPass;
    while todo != {}
      invariant todo <= info.Keys && Looked(addr, m.mapAddr)
      invariant Sorted(info, addr, m.vRandom, m.mapAddr, todo, setTried, mapNew)
      decreases |todo|
    {
      Inhabited(todo);
      var id :| id in todo;
      assert id in m.mapInfo.Keys;
      ghost var before := m.mapAddr;
      code := CheckEntry(m, id);
      LookedTwice(addr, before, m.mapAddr, info[id].service.ip, id);
      SameCode(info[id], id, addr, before, m.vRandom);
      SortedLooked(info, addr, m.vRandom, before, m.mapAddr, todo, setTried, mapNew);
      if code != 0 {
        NotAllPass(info, addr, m.vRandom, id);
        return;
      }
      SortedNext(info, addr, m.vRandom, m.mapAddr, todo, setTried, mapNew, id);
      if m.mapInfo[id].fInTried {
        setTried := setTried + {id};
      } else {
        mapNew := mapNew[id := m.mapInfo[id].nRefCount];
      }
      todo := todo - {id};
    }
    code := 0;
    SortedAll(info, addr, m.vRandom, m.mapAddr, setTried, mapNew);
  }

  lemma SameCode(e: Info, id: int, a: map<int, int>, b: map<int, int>, random: seq<int>)
    requires NamedBy(a, e.service.ip, id) <==> NamedBy(b, e.service.ip, id)
    ensures EntryCode(e, id, a, random) == EntryCode(e, id, b, random)
  {
  }

  lemma NotAllPass(info: map<int, Info>, addr: map<int, int>, random: seq<int>, id: int)
    requires id in info && EntryCode(info[id], id, addr, random) != 0
    ensures !EntriesPass(info, addr, random)
  {
  }

  lemma SortedAll(info: map<int, Info>, addr: map<int, int>, random: seq<int>, after: map<int, int>,
                  setTried: set<int>, mapNew: map<int, int>)
    requires Sorted(info, addr, random, after, {}, setTried, mapNew)
    ensures EntriesPass(info, addr, random) && setTried == TriedIds(info) && mapNew == Refs(info)
    ensures forall id | id in info :: info[id].service.ip in after
  {
  }

  // ---------- The tables ----------

  /** The slots that the loops have passed on reaching position i of bucket n. */
  predicate Before(s: Slot, n: nat, i: nat) {
    s.0 < n || (s.0 == n && s.1 < i)
  }

  /** Every slot passed holds a tried entry in its place, and those entries are crossed off. */
  ghost predicate TriedSoFar(h: Hasher, info: map<int, Info>, table: map<Slot, int>, left: set<int>, n: nat, i: nat) {
    && left <= TriedIds(info)
    && (forall s | s in table && Before(s, n, i) ::
          table[s] in TriedIds(info) && table[s] !in left && s == h.TriedSlot(info[table[s]].service))
    && (forall id | id in TriedIds(info) && id !in left ::
          var s := h.TriedSlot(info[id].service); Before(s, n, i) && s in table && table[s] == id)
  }

  lemma TriedFree(h: Hasher, info: map<int, Info>, table: map<Slot, int>, left: set<int>, n: nat, i: nat)
    requires TriedSoFar(h, info, table, left, n, i) && (n, i) !in table
    ensures TriedSoFar(h, info, table, left, n, i + 1)
  {
  }

  lemma TriedTaken(h: Hasher, info: map<int, Info>, table: map<Slot, int>, left: set<int>, n: nat, i: nat)
    requires TriedSoFar(h, info, table, left, n, i) && (n, i) in table && table[(n, i)] in left
    requires h.TriedSlot(info[table[(n, i)]].service) == (n, i)
    ensures TriedSoFar(h, info, table, left - {table[(n, i)]}, n, i + 1)
  {
  }

  /** An occupant that is not left over, or not in its place, breaks the invariant. */
  lemma TriedBroken(h: Hasher, info: map<int, Info>, table: map<Slot, int>, left: set<int>, n: nat, i: nat)
    requires TriedSoFar(h, info, table, left, n, i) && (n, i) in table
    requires table[(n, i)] in left ==> h.TriedSlot(info[table[(n, i)]].service) != (n, i)
    ensures !TriedOk(h, info, table)
  {
    var id := table[(n, i)];
    if id in TriedIds(info) && id !in left {
      assert Before(h.TriedSlot(info[id].service), n, i);
    }
  }

  lemma TriedNextBucket(h: Hasher, info: map<int, Info>, table: map<Slot, int>, left: set<int>, n: nat)
    requires TriedSoFar(h, info, table, left, n, BUCKET_SIZE)
    requires forall s | s in table :: 0 <= s.1 < BUCKET_SIZE
    ensures TriedSoFar(h, info, table, left, n + 1, 0)
  {
  }

  lemma TriedDone(h: Hasher, info: map<int, Info>, table: map<Slot, int>, left: set<int>)
    requires TriedSoFar(h, info, table, left, TRIED_BUCKET_COUNT, 0)
    requires forall s | s in table :: 0 <= s.0 < TRIED_BUCKET_COUNT
    ensures left == {} <==> TriedOk(h, info, table)
  {
    if left != {} {
      Inhabited(left);
      var id :| id in left;
      assert id in TriedIds(info);
      assert h.TriedSlot(info[id].service).0 < TRIED_BUCKET_COUNT;
    }
  }

  /** One place of the tried table. */
  method CheckTriedSlot(m: Manager, setTried: set<int>, n: nat, i: nat) returns (code: int, left: set<int>)
    requires m.Shaped() && n < TRIED_BUCKET_COUNT && i < BUCKET_SIZE
    requires TriedSoFar(m.h, m.mapInfo, Occupied(m.vvTried), setTried, n, i)
    ensures code == 0 ==> TriedSoFar(m.h, m.mapInfo, Occupied(m.vvTried), left, n, i + 1)
    ensures code != 0 ==> code in {-11, -17, -18} && !TriedOk(m.h, m.mapInfo, Occupied(m.vvTried))
  {
    ghost var table := Occupied(m.vvTried);
    left := setTried;
    assert (n, i) in table <==> m.vvTried[n, i] != -1;
    assert left <= TriedIds(m.mapInfo);
    hide TriedSoFar, TriedOk, Occupied;
    if m.vvTried[n, i] == -1 {
      TriedFree(m.h, m.mapInfo, table, left, n, i);
      return 0, left;
    }
    var id := m.vvTried[n, i];
    assert table[(n, i)] == id;
    if id !in left {
      TriedBroken(m.h, m.mapInfo, table, left, n, i);
      return -11, left;
    }
    assert id in TriedIds(m.mapInfo);
    var service := m.mapInfo[id].service;
    if m.h.TriedBucket(service) != n {
      TriedBroken(m.h, m.mapInfo, table, left, n, i);
      return -17, left;
    }
    if m.h.Position(false, n, service) != i {
      TriedBroken(m.h, m.mapInfo, table, left, n, i);
      return -18, left;
    }
    TriedTaken(m.h, m.mapInfo, table, left, n, i);
    return 0, left - {id};
  }

  /** The loops over the tried table: each entry found is crossed off. */
  method CheckTried(m: Manager, setTried: set<int>) returns (code: int, left: set<int>)
    requires m.Shaped() && setTried == TriedIds(m.mapInfo)
    ensures code == 0 ==> (left == {} <==> TriedOk(m.h, m.mapInfo, Occupied(m.vvTried)))
    ensures code != 0 ==> code in {-11, -17, -18} && !TriedOk(m.h, m.mapInfo, Occupied(m.vvTried))
  {
    left := setTried;
    ghost var table := Occupied(m.vvTried);
    assert forall s | s in table :: 0 <= s.0 < TRIED_BUCKET_COUNT && 0 <= s.1 < BUCKET_SIZE;
    assert TriedSoFar(m.h, m.mapInfo, table, left, 0, 0);
    hide TriedSoFar, TriedOk, Occupied;
    for n := 0 to TRIED_BUCKET_COUNT
      invariant TriedSoFar(m.h, m.mapInfo, table, left, n, 0)
    {
      for i := 0 to BUCKET_SIZE
        invariant TriedSoFar(m.h, m.mapInfo, table, left, n, i)
      {
        code, left := CheckTriedSlot(m, left, n, i);
        if code != 0 {
          return;
        }
      }
      TriedNextBucket(m.h, m.mapInfo, table, left, n);
    }
    code := 0;
    TriedDone(m.h, m.mapInfo, table, left);
  }

  /** The slots of an entry among those passed. */
  ghost function Used(table: map<Slot, int>, id: int, n: nat, i: nat): set<Slot> {
    set s | s in table && table[s] == id && Before(s, n, i)
  }

  /** Every slot passed holds a new entry in its place, and the references left are those not yet found. */
  ghost predicate NewSoFar(h: Hasher, info: map<int, Info>, table: map<Slot, int>, left: map<int, int>, n: nat, i: nat)
  {
    && (forall s | s in table && Before(s, n, i) :: SlotOk(h, info, s, table[s]))
    && (forall id | id in left :: id in NewIds(info))
    && (forall id | id in NewIds(info) :: Remains(info, table, left, n, i, id))
  }

  ghost predicate Remains(info: map<int, Info>, table: map<Slot, int>, left: map<int, int>, n: nat, i: nat, id: int)
    requires id in info
  {
    var rest := info[id].nRefCount - |Used(table, id, n, i)|;
    if id in left then left[id] == rest > 0 else rest == 0
  }

  lemma UsedNext(table: map<Slot, int>, id: int, n: nat, i: nat)
    ensures |Used(table, id, n, i + 1)| ==
      |Used(table, id, n, i)| + if (n, i) in table && table[(n, i)] == id then 1 else 0
  {
    var a, b := Used(table, id, n, i), Used(table, id, n, i + 1);
    if (n, i) in table && table[(n, i)] == id {
      assert b == a + {(n, i)};
    } else {
      assert b == a;
    }
  }

  /** The references left after the slot at position i. */
  function Counted(left: map<int, int>, id: int): map<int, int>
    requires id in left
  {
    if left[id] - 1 == 0 then left - {id} else left[id := left[id] - 1]
  }

  lemma NewFree(h: Hasher, info: map<int, Info>, table: map<Slot, int>, left: map<int, int>, n: nat, i: nat)
    requires NewSoFar(h, info, table, left, n, i) && (n, i) !in table
    ensures NewSoFar(h, info, table, left, n, i + 1)
  {
    hide Used, SlotOk;
    forall id | id in NewIds(info)
      ensures Remains(info, table, left, n, i + 1, id)
    {
      assert Remains(info, table, left, n, i, id);
      UsedNext(table, id, n, i);
    }
  }

  lemma NewTaken(h: Hasher, info: map<int, Info>, table: map<Slot, int>, left: map<int, int>, n: nat, i: nat)
    requires NewSoFar(h, info, table, left, n, i) && (n, i) in table && table[(n, i)] in left
    requires SlotOk(h, info, (n, i), table[(n, i)])
    ensures NewSoFar(h, info, table, Counted(left, table[(n, i)]), n, i + 1)
  {
    hide Used, SlotOk;
    var next := Counted(left, table[(n, i)]);
    forall id | id in NewIds(info)
      ensures Remains(info, table, next, n, i + 1, id)
    {
      assert Remains(info, table, left, n, i, id);
      UsedNext(table, id, n, i);
    }
  }

  lemma UsedWithin(table: map<Slot, int>, id: int, n: nat, i: nat)
    ensures |Used(table, id, n, i)| <= |Slots(table, id)|
  {
    var a, b := Used(table, id, n, i), Slots(table, id);
    assert b == a + (b - a);
  }

  /** An occupant without a reference left, or out of place, breaks the invariant. */
  lemma NewBroken(h: Hasher, info: map<int, Info>, table: map<Slot, int>, left: map<int, int>, n: nat, i: nat)
    requires NewSoFar(h, info, table, left, n, i) && (n, i) in table
    requires table[(n, i)] in left ==> !SlotOk(h, info, (n, i), table[(n, i)])
    ensures !NewOk(h, info, table)
  {
    var id := table[(n, i)];
    if SlotOk(h, info, (n, i), id) {
      assert id in NewIds(info);
      assert Remains(info, table, left, n, i, id);
      UsedNext(table, id, n, i);
      UsedWithin(table, id, n, i + 1);
    }
  }

  lemma NewNextBucket(h: Hasher, info: map<int, Info>, table: map<Slot, int>, left: map<int, int>, n: nat)
    requires NewSoFar(h, info, table, left, n, BUCKET_SIZE)
    requires forall s | s in table :: 0 <= s.1 < BUCKET_SIZE
    ensures NewSoFar(h, info, table, left, n + 1, 0)
  {
    hide SlotOk;
    forall s | s in table
      ensures Before(s, n, BUCKET_SIZE) <==> Before(s, n + 1, 0)
    {
    }
    forall id | id in NewIds(info)
      ensures Remains(info, table, left, n + 1, 0, id)
    {
      assert Remains(info, table, left, n, BUCKET_SIZE, id);
      assert Used(table, id, n, BUCKET_SIZE) == Used(table, id, n + 1, 0);
    }
  }

  lemma NewDone(h: Hasher, info: map<int, Info>, table: map<Slot, int>, left: map<int, int>)
    requires NewSoFar(h, info, table, left, NEW_BUCKET_COUNT, 0) && EntriesOk(info, {})
    requires forall s | s in table :: 0 <= s.0 < NEW_BUCKET_COUNT
    ensures left == map[] <==> NewOk(h, info, table)
  {
    assert forall s | s in table :: Before(s, NEW_BUCKET_COUNT, 0) && SlotOk(h, info, s, table[s]);
    hide Before;
    forall id | id in info
      ensures info[id].nRefCount == |Slots(table, id)| <==> id !in left
    {
      assert EntryOk(info[id], id in {});
      assert Used(table, id, NEW_BUCKET_COUNT, 0) == Slots(table, id);
      if id in NewIds(info) {
        assert Remains(info, table, left, NEW_BUCKET_COUNT, 0, id);
      } else {
        assert Slots(table, id) == {};
      }
    }
    if left != map[] {
      assert left.Keys != {};
      Inhabited(left.Keys);
      var id :| id in left.Keys;
      assert id in NewIds(info);
    }
  }

  /** One place of the new table. */
  method CheckNewSlot(m: Manager, mapNew: map<int, int>, n: nat, i: nat) returns (code: int, left: map<int, int>)
    requires m.Shaped() && n < NEW_BUCKET_COUNT && i < BUCKET_SIZE
    requires NewSoFar(m.h, m.mapInfo, Occupied(m.vvNew), mapNew, n, i)
    ensures code == 0 ==> NewSoFar(m.h, m.mapInfo, Occupied(m.vvNew), left, n, i + 1)
    ensures code != 0 ==> code in {-12, -19} && !NewOk(m.h, m.mapInfo, Occupied(m.vvNew))
  {
    ghost var table := Occupied(m.vvNew);
    left := mapNew;
    assert (n, i) in table <==> m.vvNew[n, i] != -1;
    assert forall id | id in left :: id in NewIds(m.mapInfo);
    hide NewSoFar, NewOk, Occupied;
    if m.vvNew[n, i] == -1 {
      NewFree(m.h, m.mapInfo, table, left, n, i);
      return 0, left;
    }
    var id := m.vvNew[n, i];
    assert table[(n, i)] == id;
    if id !in left {
      NewBroken(m.h, m.mapInfo, table, left, n, i);
      return -12, left;
    }
    assert id in NewIds(m.mapInfo);
    if m.h.Position(true, n, m.mapInfo[id].service) != i {
      NewBroken(m.h, m.mapInfo, table, left, n, i);
      return -19, left;
    }
    NewTaken(m.h, m.mapInfo, table, left, n, i);
    return 0, if left[id] - 1 == 0 then left - {id} else left[id := left[id] - 1];
  }

  /** The loops over the new table: each reference found is counted down. */
  method CheckNew(m: Manager, mapNew: map<int, int>) returns (code: int, left: map<int, int>)
    requires m.Shaped() && mapNew == Refs(m.mapInfo) && EntriesOk(m.mapInfo, {})
    ensures code == 0 ==> (left == map[] <==> NewOk(m.h, m.mapInfo, Occupied(m.vvNew)))
    ensures code != 0 ==> code in {-12, -19} && !NewOk(m.h, m.mapInfo, Occupied(m.vvNew))
  {
    left := mapNew;
    ghost var table := Occupied(m.vvNew);
    assert forall s | s in table :: 0 <= s.0 < NEW_BUCKET_COUNT && 0 <= s.1 < BUCKET_SIZE;
    NewStart(m.h, m.mapInfo, table, left);
    hide NewSoFar, NewOk, Occupied, EntriesOk;
    for n := 0 to NEW_BUCKET_COUNT
      invariant NewSoFar(m.h, m.mapInfo, table, left, n, 0)
    {
      for i := 0 to BUCKET_SIZE
        invariant NewSoFar(m.h, m.mapInfo, table, left, n, i)
      {
        code, left := CheckNewSlot(m, left, n, i);
        if code != 0 {
          return;
        }
      }
      NewNextBucket(m.h, m.mapInfo, table, left, n);
    }
    code := 0;
    NewDone(m.h, m.mapInfo, table, left);
  }

  lemma NewStart(h: Hasher, info: map<int, Info>, table: map<Slot, int>, left: map<int, int>)
    requires left == Refs(info) && EntriesOk(info, {}) && forall s | s in table :: s.0 >= 0 && s.1 >= 0
    ensures NewSoFar(h, info, table, left, 0, 0)
  {
  }

  // ---------- The whole check ----------

  lemma EntriesDetermine(b: Book)
    requires EntriesPass(b.info, b.addr, b.random)
    ensures NamesOk(b.info, b.addr) && EntriesOk(b.info, {}) && StatsOk(b.info)
    ensures |b.random| == b.nTried + b.nNew && CountsOk(b, 0) ==> RandomOk(b.info, b.random)
  {
    forall id | id in b.info
      ensures NamedBy(b.addr, b.info[id].service.ip, id) && EntryOk(b.info[id], id in {})
    {
      assert EntryCode(b.info[id], id, b.addr, b.random) == 0;
    }
    if |b.random| == b.nTried + b.nNew && CountsOk(b, 0) {
      assert b.info.Keys == TriedIds(b.info) + NewIds(b.info);
      RandomFilled(b.info, b.random);
    }
  }

  lemma PassesEntry(h: Hasher, b: Book, id: int)
    requires Passes(h, b) && id in b.info
    ensures EntryCode(b.info[id], id, b.addr, b.random) == 0
  {
    assert EntryOk(b.info[id], id in {});
    hide TriedOk, NewOk, CountsOk;
  }

  lemma PassesEntries(h: Hasher, b: Book)
    requires Passes(h, b)
    ensures EntriesPass(b.info, b.addr, b.random) && |b.random| == b.nTried + b.nNew
  {
    hide TriedOk, NewOk, EntriesOk, RandomOk, StatsOk, EntryCode;
    forall id | id in b.info
      ensures EntryCode(b.info[id], id, b.addr, b.random) == 0
    {
      PassesEntry(h, b, id);
    }
    RandomCount(b.info, b.random);
    assert b.info.Keys == TriedIds(b.info) + NewIds(b.info);
  }

  lemma RefsCount(info: map<int, Info>)
    ensures |Refs(info)| == |NewIds(info)|
  {
    assert Refs(info).Keys == NewIds(info);
  }

  /** What a code other than 0 says of the manager. */
  ghost predicate Blames(h: Hasher, b: Book, nKeyIsNull: bool, code: int) {
    if code == -7 then |b.random| != b.nTried + b.nNew
    else if code == -9 then b.nTried != |TriedIds(b.info)|
    else if code == -10 then b.nNew != |NewIds(b.info)|
    else if code in {-11, -13, -17, -18} then !TriedOk(h, b.info, b.triedTable)
    else if code in {-12, -15, -19} then !NewOk(h, b.info, b.newTable)
    else if code == -16 then nKeyIsNull && Passes(h, b)
    else exists id | id in b.info :: code == EntryCode(b.info[id], id, b.addr, b.random)
  }

  lemma BlamesCounts(h: Hasher, b: Book, nKeyIsNull: bool)
    ensures |b.random| != b.nTried + b.nNew ==> Blames(h, b, nKeyIsNull, -7)
    ensures b.nTried != |TriedIds(b.info)| ==> Blames(h, b, nKeyIsNull, -9)
    ensures b.nNew != |NewIds(b.info)| ==> Blames(h, b, nKeyIsNull, -10)
    ensures nKeyIsNull && Passes(h, b) ==> Blames(h, b, nKeyIsNull, -16)
  {
    hide Passes;
  }

  lemma BlamesTables(h: Hasher, b: Book, nKeyIsNull: bool, code: int)
    ensures code in {-11, -13, -17, -18} && !TriedOk(h, b.info, b.triedTable) ==> Blames(h, b, nKeyIsNull, code)
    ensures code in {-12, -15, -19} && !NewOk(h, b.info, b.newTable) ==> Blames(h, b, nKeyIsNull, code)
  {
    hide TriedOk, NewOk;
  }

  lemma BlamesEntry(h: Hasher, b: Book, nKeyIsNull: bool, code: int)
    requires code in {-1, -2, -3, -4, -5, -6, -8, -14}
    requires exists id | id in b.info :: code == EntryCode(b.info[id], id, b.addr, b.random)
    ensures Blames(h, b, nKeyIsNull, code)
  {
    hide EntryCode;
  }

  /** A code other than 0 is never given to a manager that passes, unless the key is missing. */
  lemma BlamesRightly(h: Hasher, b: Book, nKeyIsNull: bool, code: int)
    requires code != 0 && Blames(h, b, nKeyIsNull, code)
    ensures nKeyIsNull || !Passes(h, b)
  {
    if Passes(h, b) {
      PassesEntries(h, b);
      hide TriedOk, NewOk, EntriesOk, RandomOk, StatsOk, EntryCode;
      assert EntriesPass(b.info, b.addr, b.random);
    }
  }

  lemma AllParts(h: Hasher, b: Book)
    requires |b.random| == b.nTried + b.nNew && EntriesPass(b.info, b.addr, b.random)
    requires |TriedIds(b.info)| == b.nTried && |NewIds(b.info)| == b.nNew
    requires TriedOk(h, b.info, b.triedTable) && NewOk(h, b.info, b.newTable)
    ensures Passes(h, b)
  {
    hide TriedOk, NewOk, EntriesOk, RandomOk, StatsOk, EntriesPass;
    EntriesDetermine(b);
  }

  /** Both tables, and then what is left over from either. */
  method CheckTables(m: Manager, tried: set<int>, unknown: map<int, int>) returns (code: int)
    requires m.Shaped() && tried == TriedIds(m.mapInfo) && unknown == Refs(m.mapInfo) && EntriesOk(m.mapInfo, {})
    ensures code == 0 ==> TriedOk(m.h, m.mapInfo, Occupied(m.vvTried)) && NewOk(m.h, m.mapInfo, Occupied(m.vvNew))
    ensures code != 0 ==>
      || (code in {-11, -13, -17, -18} && !TriedOk(m.h, m.mapInfo, Occupied(m.vvTried)))
      || (code in {-12, -15, -19} && !NewOk(m.h, m.mapInfo, Occupied(m.vvNew)))
  {
    hide TriedOk, NewOk, EntriesOk, Occupied;
    var setTried, mapNew;
    code, setTried := CheckTried(m, tried);
    if code != 0 {
      return;
    }
    code, mapNew := CheckNew(m, unknown);
    if code != 0 {
      return;
    }
    if setTried != {} {
      return -13;
    }
    if mapNew != map[] {
      return -15;
    }
  }

  method CheckParts(m: Manager, nKeyIsNull: bool) returns (code: int)
    requires m.Shaped()
    modifies m`mapAddr
    ensures code == 0 ==> !nKeyIsNull && Passes(m.h, old(m.Contents()))
    ensures code != 0 ==> Blames(m.h, old(m.Contents()), nKeyIsNull, code)
    ensures Looked(old(m.mapAddr), m.mapAddr)
    ensures code == 0 ==> forall id | id in m.mapInfo :: m.mapInfo[id].service.ip in m.mapAddr
  {
    ghost var b := m.Contents();
    hide EntriesPass, TriedOk, NewOk, EntriesOk, Occupied, EntryCode, Passes, Looked, Blames;
    LookedSame(m.mapAddr);
    BlamesCounts(m.h, b, nKeyIsNull);
    if |m.vRandom| != m.nTried + m.nNew {
      return -7;
    }
    var setTried, mapNew;
    code, setTried, mapNew := CheckEntries(m);
    if code != 0 {
      BlamesEntry(m.h, b, nKeyIsNull, code);
      return;
    }
    RefsCount(m.mapInfo);
    if |setTried| != m.nTried {
      return -9;
    }
    if |mapNew| != m.nNew {
      return -10;
    }
    EntriesDetermine(b);
    code := CheckTables(m, setTried, mapNew);
    BlamesTables(m.h, b, nKeyIsNull, code);
    if code != 0 {
      return;
    }
    AllParts(m.h, b);
    if nKeyIsNull {
      return -16;
    }
    code := 0;
  }

  lemma NowNamed(b: Book, after: map<int, int>)
    requires NamesOk(b.info, b.addr) && Looked(b.addr, after)
    requires forall id | id in b.info :: b.info[id].service.ip in after
    ensures forall id | id in b.info :: after[b.info[id].service.ip] == id
  {
  }

  lemma LookedSame(addr: map<int, int>)
    ensures Looked(addr, addr)
  {
  }

  /**
   `Check_` returns 0 exactly when every part of the invariant that it determines holds and there is a key. Where it
   does, every entry is named in `mapAddr`, if need be through the lookup itself.
   */
  method Check(m: Manager, nKeyIsNull: bool) returns (code: int)
    requires m.Shaped()
    modifies m`mapAddr
    ensures code == 0 <==> !nKeyIsNull && Passes(m.h, old(m.Contents()))
    ensures code != 0 ==> Blames(m.h, old(m.Contents()), nKeyIsNull, code)
    ensures Looked(old(m.mapAddr), m.mapAddr)
    ensures code == 0 ==> forall id | id in m.mapInfo ::
      m.mapInfo[id].service.ip in m.mapAddr && m.mapAddr[m.mapInfo[id].service.ip] == id
  {
    ghost var b := m.Contents();
    hide Blames, Occupied, Looked;
    code := CheckParts(m, nKeyIsNull);
    if code != 0 {
      BlamesRightly(m.h, b, nKeyIsNull, code);
    } else {
      assert b.info == m.mapInfo && NamesOk(b.info, b.addr);
      NowNamed(b, m.mapAddr);
    }
  }
}

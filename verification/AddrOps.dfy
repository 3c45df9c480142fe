/** The operations of the address manager, built from the steps of `AddrBook`, and the invariant over every run. */
module AddrOps {
  import opened Numbers
  import opened AddrBook

  // ---------- Moving an entry to the tried table ----------

  /** Take the occupant of tried slot `s` out of the tried table. */
  function Untry(b: Book, s: Slot): Book
    requires s in b.triedTable && b.triedTable[s] in b.info
  {
    var id := b.triedTable[s];
    WithInfo(b, id, b.info[id].(fInTried := false)).(triedTable := b.triedTable - {s}, nTried := b.nTried - 1)
  }

  lemma UntryTables(h: Hasher, b: Book, s: Slot)
    requires TriedOk(h, b.info, b.triedTable) && NewOk(h, b.info, b.newTable) && s in b.triedTable
    ensures TriedOk(h, Untry(b, s).info, Untry(b, s).triedTable) && NewOk(h, Untry(b, s).info, b.newTable)
  {
    var id, r := b.triedTable[s], Untry(b, s);
    forall t | t in b.newTable ensures SlotOk(h, r.info, t, b.newTable[t]) {
      assert SlotOk(h, b.info, t, b.newTable[t]);
    }
    forall x | x in r.info ensures r.info[x].nRefCount == |Slots(b.newTable, x)| {
      assert b.info[x].nRefCount == |Slots(b.newTable, x)|;
    }
  }

  lemma FlipCounts(info: map<int, Info>, id: int, tried: bool)
    requires id in info && info[id].fInTried != tried
    ensures var j := info[id := info[id].(fInTried := tried)];
      && |TriedIds(j)| == |TriedIds(info)| + (if tried then 1 else -1)
      && |NewIds(j)| == |NewIds(info)| - (if tried then 1 else -1)
  {
    var j := info[id := info[id].(fInTried := tried)];
    if tried {
      assert TriedIds(j) == TriedIds(info) + {id};
      assert NewIds(info) == NewIds(j) + {id};
    } else {
      assert TriedIds(info) == TriedIds(j) + {id};
      assert NewIds(j) == NewIds(info) + {id};
    }
  }

  lemma UntryKeeps(h: Hasher, b: Book, s: Slot, idle: set<int>, missing: int)
    requires Almost(h, b, idle, missing) && s in b.triedTable && b.triedTable[s] in b.info
    ensures Almost(h, Untry(b, s), idle + {b.triedTable[s]}, missing + 1)
  {
    var id, r := b.triedTable[s], Untry(b, s);
    UntryTables(h, b, s);
    assert b.info[id].fInTried && EntryOk(b.info[id], id in idle);
    assert AddrOk(r.info, r.addr) by {
      AddrTransfer(b.info, r.info, b.addr);
    }
    assert RandomOk(r.info, r.random) by {
      RandomTransfer(b.info, r.info, b.random);
    }
    FlipCounts(b.info, id, false);
  }

  /** Put the idle entry `id` in its tried slot. */
  function Try(h: Hasher, b: Book, id: int): Book
    requires id in b.info
  {
    WithInfo(b, id, b.info[id].(fInTried := true))
      .(triedTable := b.triedTable[h.TriedSlot(b.info[id].service) := id], nTried := b.nTried + 1)
  }

  lemma TryTables(h: Hasher, b: Book, id: int)
    requires TriedOk(h, b.info, b.triedTable) && NewOk(h, b.info, b.newTable)
    requires id in b.info && b.info[id].nRefCount == 0 && h.TriedSlot(b.info[id].service) !in b.triedTable
    ensures TriedOk(h, Try(h, b, id).info, Try(h, b, id).triedTable) && NewOk(h, Try(h, b, id).info, b.newTable)
  {
    var r := Try(h, b, id);
    assert Slots(b.newTable, id) == {};
    forall t | t in b.newTable ensures SlotOk(h, r.info, t, b.newTable[t]) {
      assert t !in Slots(b.newTable, id);
      assert SlotOk(h, b.info, t, b.newTable[t]);
    }
    forall x | x in r.info ensures r.info[x].nRefCount == |Slots(b.newTable, x)| {
      assert b.info[x].nRefCount == |Slots(b.newTable, x)|;
    }
  }

  lemma TryKeeps(h: Hasher, b: Book, id: int, idle: set<int>, missing: int)
    requires Almost(h, b, idle, missing) && id in idle && id in b.info
    requires h.TriedSlot(b.info[id].service) !in b.triedTable
    ensures Almost(h, Try(h, b, id), idle - {id}, missing - 1)
  {
    var r := Try(h, b, id);
    assert EntryOk(b.info[id], id in idle);
    TryTables(h, b, id);
    assert AddrOk(r.info, r.addr) by {
      AddrTransfer(b.info, r.info, b.addr);
    }
    assert RandomOk(r.info, r.random) by {
      RandomTransfer(b.info, r.info, b.random);
    }
    FlipCounts(b.info, id, true);
  }

  lemma CountNew(h: Hasher, b: Book, idle: set<int>, missing: int, n: int)
    requires Almost(h, b, idle, missing)
    ensures Almost(h, b.(nNew := n), idle, missing + b.nNew - n)
  {
  }

  ghost predicate Evictable(h: Hasher, b: Book, s: Slot) {
    && s in b.triedTable && b.triedTable[s] in b.info
    && var id, u := b.triedTable[s], Untry(b, s);
       var n := h.NewSlot(u.info[id].service, u.info[id].stats.source);
       Clearable(u, n) && id in ClearNew(u, n).info
  }

  /** The evicted tried entry goes back to its first new bucket, pushing out what is there. */
  ghost function Evict(h: Hasher, b: Book, s: Slot): Book
    requires Evictable(h, b, s)
  {
    var id, u := b.triedTable[s], Untry(b, s);
    var n := h.NewSlot(u.info[id].service, u.info[id].stats.source);
    var r := PutSlot(ClearNew(u, n), n, id);
    r.(nNew := r.nNew + 1)
  }

  lemma EvictKeeps(h: Hasher, b: Book, s: Slot, idle: set<int>, missing: int)
    requires Almost(h, b, idle, missing) && s in b.triedTable
    ensures Evictable(h, b, s)
    ensures Almost(h, Evict(h, b, s), idle, missing)
    ensures s !in Evict(h, b, s).triedTable
    ensures forall x | x in idle ::
        && x in Evict(h, b, s).info
        && Evict(h, b, s).info[x] == b.info[x].(nRandomPos := Evict(h, b, s).info[x].nRandomPos)
  {
    var id, u := b.triedTable[s], Untry(b, s);
    var n := h.NewSlot(b.info[id].service, b.info[id].stats.source);
    assert Almost(h, u, idle + {id}, missing + 1) by {
      UntryKeeps(h, b, s, idle, missing);
    }
    assert id !in idle by {
      assert b.info[id].fInTried && EntryOk(b.info[id], id in idle);
    }
    CanClear(h, u, n);
    var c := ClearNew(u, n);
    IdleKept(h, u, n, idle + {id}, missing + 1);
    assert Almost(h, c, idle + {id}, missing + 1) by {
      ClearKeeps(h, u, n, idle + {id}, missing + 1);
    }
    assert Almost(h, PutSlot(c, n, id), idle, missing + 1) by {
      PutKeeps(h, c, n, id, idle + {id}, missing + 1);
      assert idle + {id} - {id} == idle;
    }
    CountNew(h, PutSlot(c, n, id), idle, missing + 1, c.nNew + 1);
  }

  /** `ClearNew` does not touch idle entries. */
  lemma IdleKept(h: Hasher, b: Book, s: Slot, idle: set<int>, missing: int)
    requires Almost(h, b, idle, missing) && Clearable(b, s)
    ensures s !in ClearNew(b, s).newTable && ClearNew(b, s).triedTable == b.triedTable
    ensures forall x | x in idle ::
        && x in b.info && x in ClearNew(b, s).info
        && ClearNew(b, s).info[x] == b.info[x].(nRandomPos := ClearNew(b, s).info[x].nRandomPos)
  {
    ClearFrame(b, s);
    if s in b.newTable {
      TakeKeeps(h, b, s, idle, missing);
    }
  }

  /** The book after `MakeTried` has removed all references to the entry. */
  ghost function Forgotten(b: Book, id: int): Book
    requires id in b.info
  {
    ForgetSlots(b, id).(nNew := b.nNew - 1)
  }

  ghost predicate HasRoom(h: Hasher, b: Book, id: int) {
    && id in b.info
    && var s := h.TriedSlot(b.info[id].service);
       s in b.triedTable ==> Evictable(h, b, s) && id in Evict(h, b, s).info
  }

  /** The entry's tried slot is made free, evicting what is in it. */
  ghost function MakeRoom(h: Hasher, b: Book, id: int): (r: Book)
    requires HasRoom(h, b, id)
    ensures id in r.info
  {
    var s := h.TriedSlot(b.info[id].service);
    if s in b.triedTable then Evict(h, b, s) else b
  }

  /** Whether `MakeTried` may run: none of its asserts can fail. */
  ghost predicate Movable(h: Hasher, b: Book, id: int) {
    id in b.info && HasRoom(h, Forgotten(b, id), id)
  }

  ghost function MakeTried(h: Hasher, b: Book, id: int): Book
    requires Movable(h, b, id)
  {
    Try(h, MakeRoom(h, Forgotten(b, id), id), id)
  }

  /** `MakeTried` of a new entry keeps all indexes in step, evictions and deletions included. */
  lemma MakeTriedKeeps(h: Hasher, b: Book, id: int)
    requires Almost(h, b, {}, 0) && id in b.info && !b.info[id].fInTried
    ensures Movable(h, b, id)
    ensures Almost(h, MakeTried(h, b, id), {}, 0)
  {
    var f := Forgotten(b, id);
    ForgottenKeeps(h, b, id);
    MakeRoomKeeps(h, f, id);
    TryKeeps(h, MakeRoom(h, f, id), id, {id}, 1);
    assert {id} - {id} == {};
  }

  lemma ForgottenKeeps(h: Hasher, b: Book, id: int)
    requires Almost(h, b, {}, 0) && id in b.info && !b.info[id].fInTried
    ensures Almost(h, Forgotten(b, id), {id}, 1)
  {
    ForgetKeeps(h, b, id, {}, 0);
    assert {} + {id} == {id};
    CountNew(h, ForgetSlots(b, id), {id}, 0, b.nNew - 1);
  }

  lemma MakeRoomKeeps(h: Hasher, b: Book, id: int)
    requires Almost(h, b, {id}, 1) && id in b.info
    ensures HasRoom(h, b, id)
    ensures Almost(h, MakeRoom(h, b, id), {id}, 1)
    ensures var r := MakeRoom(h, b, id);
      r.info[id].service == b.info[id].service && h.TriedSlot(b.info[id].service) !in r.triedTable
  {
    var s := h.TriedSlot(b.info[id].service);
    if s in b.triedTable {
      EvictKeeps(h, b, s, {id}, 1);
    }
  }

  lemma ClearStats(b: Book, s: Slot, id: int)
    requires Clearable(b, s)
    ensures StatsFrom(b, ClearNew(b, s), id)
  {
    if s in b.newTable {
      var x, r := b.newTable[s], TakeSlot(b, s);
      if r.info[x].nRefCount == 0 {
        DeleteGone(r, x);
      }
    }
  }

  lemma EvictStats(h: Hasher, b: Book, s: Slot, id: int)
    requires Evictable(h, b, s)
    ensures StatsFrom(b, Evict(h, b, s), id)
  {
    var x, u := b.triedTable[s], Untry(b, s);
    var n := h.NewSlot(u.info[x].service, u.info[x].stats.source);
    ClearStats(u, n, id);
    var c := ClearNew(u, n);
    assert Evict(h, b, s).info.Keys == c.info.Keys;
    forall y | y in c.info ensures y in b.info {
      assert y in u.info;
    }
  }

  lemma StatsTrans(b: Book, c: Book, d: Book, id: int)
    requires StatsFrom(b, c, id) && StatsFrom(c, d, id)
    ensures StatsFrom(b, d, id)
  {
  }

  lemma TryStats(h: Hasher, b: Book, id: int)
    requires id in b.info
    ensures StatsFrom(b, Try(h, b, id), id)
  {
  }

  lemma MakeTriedStats(h: Hasher, b: Book, id: int)
    requires Movable(h, b, id)
    ensures StatsFrom(b, MakeTried(h, b, id), id)
    ensures id in MakeTried(h, b, id).info && MakeTried(h, b, id).info[id].fInTried
  {
    var f := Forgotten(b, id);
    var e := MakeRoom(h, f, id);
    assert StatsFrom(b, f, id);
    assert StatsFrom(f, e, id) by {
      if h.TriedSlot(f.info[id].service) in f.triedTable {
        EvictStats(h, f, h.TriedSlot(f.info[id].service), id);
      }
    }
    StatsTrans(b, f, e, id);
    TryStats(h, e, id);
    StatsTrans(b, e, Try(h, e, id), id);
  }

  // ---------- Good ----------

  /** `Find`, and the test that address and port are both the ones asked for. */
  predicate Known(b: Book, s: Service) {
    s.ip in b.addr && b.addr[s.ip] in b.info && b.info[b.addr[s.ip]].service == s
  }

  function Noted(b: Book, s: Service, nTime: int): Book
    requires Known(b, s)
  {
    var id := b.addr[s.ip];
    var t := b.info[id].stats.(nLastSuccess := nTime, nLastTry := nTime, nAttempts := 0);
    WithInfo(b, id, b.info[id].(stats := t)).(nLastGood := nTime)
  }

  lemma NotedKeeps(h: Hasher, b: Book, s: Service, nTime: int)
    requires Almost(h, b, {}, 0) && Known(b, s)
    ensures Almost(h, Noted(b, s, nTime), {}, 0)
  {
    var id := b.addr[s.ip];
    var e := b.info[id].(stats := b.info[id].stats.(nLastSuccess := nTime, nLastTry := nTime, nAttempts := 0));
    TouchKeeps(h, b, id, e, {}, 0);
    LastGoodKeeps(h, WithInfo(b, id, e), nTime);
  }

  lemma LastGoodKeeps(h: Hasher, b: Book, nTime: int)
    requires Almost(h, b, {}, 0)
    ensures Almost(h, b.(nLastGood := nTime), {}, 0)
  {
  }

  ghost function Good(h: Hasher, b: Book, s: Service, nTime: int): Book
    requires Almost(h, b, {}, 0)
  {
    if !Known(b, s) then b.(nLastGood := nTime)
    else if b.info[b.addr[s.ip]].fInTried then Noted(b, s, nTime)
    else
      var id, n := b.addr[s.ip], Noted(b, s, nTime);
      NotedKeeps(h, b, s, nTime);
      MakeTriedKeeps(h, n, id);
      MakeTried(h, n, id)
  }

  /** The statistics after `Good_` are acceptable exactly when the time is positive. */
  lemma GoodStats(b: Book, s: Service, nTime: int, r: Book)
    requires StatsOk(b.info) && Known(b, s) && StatsFrom(Noted(b, s, nTime), r, b.addr[s.ip])
    requires b.addr[s.ip] in r.info && r.info[b.addr[s.ip]].fInTried
    ensures StatsOk(r.info) <==> nTime > 0
    ensures r.info[b.addr[s.ip]].stats.nLastSuccess == nTime
  {
  }

  /**
   `Good_` keeps every index in step whatever the time given; what `Check_` tests holds afterwards exactly when
   the time is positive or the address is not known under this port.
   */
  lemma GoodKeeps(h: Hasher, b: Book, s: Service, nTime: int)
    requires Consistent(h, b)
    ensures Almost(h, Good(h, b, s, nTime), {}, 0)
    ensures Consistent(h, Good(h, b, s, nTime)) <==> nTime > 0 || !Known(b, s)
    ensures Passes(h, Good(h, b, s, nTime)) <==> nTime > 0 || !Known(b, s)
    ensures Known(b, s) ==>
      var r, id := Good(h, b, s, nTime), b.addr[s.ip];
      id in r.info && r.info[id].fInTried && r.info[id].stats.nLastSuccess == nTime
  {
    hide Passes;
    if Known(b, s) {
      var id, n := b.addr[s.ip], Noted(b, s, nTime);
      assert Almost(h, n, {}, 0) by {
        NotedKeeps(h, b, s, nTime);
      }
      if b.info[id].fInTried {
        GoodStats(b, s, nTime, n);
      } else {
        MakeTriedKeeps(h, n, id);
        MakeTriedStats(h, n, id);
        GoodStats(b, s, nTime, MakeTried(h, n, id));
      }
    } else {
      LastGoodKeeps(h, b, nTime);
    }
    PassesExactly(h, Good(h, b, s, nTime));
  }

  // ---------- Add ----------

  /** Whether the occupant of `s` may be overwritten by entry `id`. */
  predicate Overwrites(b: Book, s: Slot, id: int, now: int)
    requires s in b.newTable && b.newTable[s] in b.info && id in b.info
  {
    var there := b.info[b.newTable[s]];
    there.stats.IsTerrible(now) || (there.nRefCount > 1 && b.info[id].nRefCount == 0)
  }

  /** The last part of `Add_`: find the bucket for this source, and put the entry there if it may go there. */
  ghost function Insert(h: Hasher, b: Book, id: int, source: int, now: int): Book
    requires id in b.info && NewOk(h, b.info, b.newTable) && RandomOk(b.info, b.random)
  {
    var s := h.NewSlot(b.info[id].service, source);
    CanClear(h, b, s);
    if s in b.newTable && b.newTable[s] == id then b
    else if s !in b.newTable || Overwrites(b, s, id, now) then
      ClearFrame(b, s);
      PutSlot(ClearNew(b, s), s, id)
    else if b.info[id].nRefCount == 0 then Delete(b, id)
    else b
  }

  lemma InsertKeeps(h: Hasher, b: Book, id: int, source: int, now: int)
    requires id in b.info && Almost(h, b, if b.info[id].nRefCount == 0 then {id} else {}, 0)
    requires !b.info[id].fInTried && b.info[id].nRefCount < NEW_BUCKETS_PER_ADDRESS
    ensures Almost(h, Insert(h, b, id, source, now), {}, 0)
  {
    var idle := if b.info[id].nRefCount == 0 then {id} else {};
    var s := h.NewSlot(b.info[id].service, source);
    CanClear(h, b, s);
    if s in b.newTable && b.newTable[s] == id {
      assert SlotOk(h, b.info, s, id) && s in Slots(b.newTable, id);
    } else if s !in b.newTable || Overwrites(b, s, id, now) {
      ClearFrame(b, s);
      var c := ClearNew(b, s);
      assert Almost(h, c, idle, 0) by {
        ClearKeeps(h, b, s, idle, 0);
      }
      assert Almost(h, PutSlot(c, s, id), {}, 0) by {
        PutKeeps(h, c, s, id, idle, 0);
        assert idle - {id} == {};
      }
    } else if b.info[id].nRefCount == 0 {
      DeleteKeeps(h, b, id, idle, 0);
      assert idle - {id} == {};
    }
  }

  lemma InsertStats(h: Hasher, b: Book, id: int, source: int, now: int)
    requires id in b.info && NewOk(h, b.info, b.newTable) && RandomOk(b.info, b.random)
    requires StatsOk(b.info)
    ensures StatsOk(Insert(h, b, id, source, now).info)
  {
    var s := h.NewSlot(b.info[id].service, source);
    CanClear(h, b, s);
    if s !in b.newTable || Overwrites(b, s, id, now) {
      ClearFrame(b, s);
      ClearStats(b, s, -1);
      var c := ClearNew(b, s);
      forall x | x in c.info ensures c.info[x].fInTried ==> c.info[x].stats.nLastSuccess != 0 {
        assert x in b.info;
        ClearTried(b, s, x);
      }
    } else if b.info[id].nRefCount == 0 {
      DeleteGone(b, id);
    }
  }

  lemma ClearTried(b: Book, s: Slot, x: int)
    requires Clearable(b, s) && x in ClearNew(b, s).info
    ensures x in b.info && ClearNew(b, s).info[x].fInTried == b.info[x].fInTried
  {
    if s in b.newTable {
      var id, r := b.newTable[s], TakeSlot(b, s);
      if r.info[id].nRefCount == 0 {
        DeleteGone(r, id);
      }
    }
  }

  /** `nFactor`: how much harder each further reference is to get. */
  function Factor(refs: int): (f: nat)
    ensures f >= 1
    decreases Max(refs, 0)
  {
    if refs <= 0 then 1 else 2 * Factor(refs - 1)
  }

  /** The entry after the part of `Add_` that refreshes its time and services. */
  function Refreshed(e: Info, a: Address, penalty: int, now: int): Info {
    var interval := if now - a.nTime < 24 * 60 * 60 then 60 * 60 else 24 * 60 * 60;
    var t := e.stats;
    var stale := a.nTime != 0 && (t.nTime == 0 || t.nTime < a.nTime - interval - penalty);
    e.(stats := t.(nTime := if stale then Max(0, a.nTime - penalty) else t.nTime, nServices := t.nServices + a.nServices))
  }

  /** Whether a known, refreshed entry is to get a further reference; `roll` is the random number drawn. */
  predicate WantsMore(e: Info, a: Address, roll: nat) {
    && a.nTime != 0 && !(e.stats.nTime != 0 && a.nTime <= e.stats.nTime)
    && !e.fInTried && e.nRefCount != NEW_BUCKETS_PER_ADDRESS
    && (Factor(e.nRefCount) > 1 ==> roll % Factor(e.nRefCount) == 0)
  }

  /** A new entry, counted and with its time penalised, not yet in any bucket. */
  function Introduced(b: Book, a: Address, source: int, penalty: int): Book {
    var c, id := Create(b, a, source), b.nIdCount;
    WithInfo(c, id, c.info[id].(stats := c.info[id].stats.(nTime := Max(0, a.nTime - penalty)))).(nNew := b.nNew + 1)
  }

  lemma IntroducedKeeps(h: Hasher, b: Book, a: Address, source: int, penalty: int)
    requires Almost(h, b, {}, 0) && a.service.ip !in b.addr
    ensures Almost(h, Introduced(b, a, source, penalty), {b.nIdCount}, 0)
  {
    var r := Introduced(b, a, source, penalty);
    assert {} + {b.nIdCount} == {b.nIdCount};
    NewcomerKeeps(h, b, r, r.info[b.nIdCount], {}, 0);
  }

  lemma RefreshedKeeps(h: Hasher, b: Book, id: int, a: Address, penalty: int, now: int)
    requires Almost(h, b, {}, 0) && id in b.info
    ensures Almost(h, WithInfo(b, id, Refreshed(b.info[id], a, penalty, now)), {}, 0)
  {
    TouchKeeps(h, b, id, Refreshed(b.info[id], a, penalty, now), {}, 0);
  }

  /** `Add_`. The answer tells whether the address was not known before. */
  ghost function Add(h: Hasher, b: Book, a: Address, routable: bool, source: int, penalty: int, now: int, roll: nat)
    : (r: (Book, bool))
    requires Almost(h, b, {}, 0)
    ensures r.1 <==> routable && a.service.ip !in b.addr
  {
    if !routable then (b, false)
    else if a.service.ip in b.addr then
      var id := b.addr[a.service.ip];
      var e := Refreshed(b.info[id], a, penalty, now);
      RefreshedKeeps(h, b, id, a, penalty, now);
      if WantsMore(e, a, roll) then (Insert(h, WithInfo(b, id, e), id, source, now), false) else (WithInfo(b, id, e), false)
    else
      IntroducedKeeps(h, b, a, source, penalty);
      (Insert(h, Introduced(b, a, source, penalty), b.nIdCount, source, now), true)
  }

  lemma AddKnownKeeps(h: Hasher, b: Book, a: Address, source: int, penalty: int, now: int, roll: nat)
    requires Consistent(h, b) && a.service.ip in b.addr
    ensures Consistent(h, Add(h, b, a, true, source, penalty, now, roll).0)
  {
    var id := b.addr[a.service.ip];
    var e := Refreshed(b.info[id], a, penalty, now);
    var w := WithInfo(b, id, e);
    assert Almost(h, w, {}, 0) by {
      RefreshedKeeps(h, b, id, a, penalty, now);
    }
    assert StatsOk(w.info);
    if WantsMore(e, a, roll) {
      assert EntryOk(w.info[id], id in {});
      InsertKeeps(h, w, id, source, now);
      InsertStats(h, w, id, source, now);
    }
  }

  lemma AddUnknownKeeps(h: Hasher, b: Book, a: Address, source: int, penalty: int, now: int, roll: nat)
    requires Consistent(h, b) && a.service.ip !in b.addr
    ensures Consistent(h, Add(h, b, a, true, source, penalty, now, roll).0)
  {
    var w := Introduced(b, a, source, penalty);
    assert Almost(h, w, {b.nIdCount}, 0) by {
      IntroducedKeeps(h, b, a, source, penalty);
    }
    assert StatsOk(w.info);
    InsertKeeps(h, w, b.nIdCount, source, now);
    InsertStats(h, w, b.nIdCount, source, now);
  }

  lemma AddKeeps(h: Hasher, b: Book, a: Address, routable: bool, source: int, penalty: int, now: int, roll: nat)
    requires Consistent(h, b)
    ensures Consistent(h, Add(h, b, a, routable, source, penalty, now, roll).0)
  {
    if routable {
      if a.service.ip in b.addr {
        AddKnownKeeps(h, b, a, source, penalty, now, roll);
      } else {
        AddUnknownKeeps(h, b, a, source, penalty, now, roll);
      }
    }
  }

  /**
   `Add_` of a known address never drops it: the entry keeps its id and service, gains the services, and its time does
   not go back.
   */
  lemma KnownAddressKept(h: Hasher, b: Book, a: Address, source: int, penalty: int, now: int, roll: nat)
    requires Consistent(h, b) && a.service.ip in b.addr
    ensures var r, id := Add(h, b, a, true, source, penalty, now, roll).0, b.addr[a.service.ip];
      && id in r.info && r.info[id].service == b.info[id].service && r.info[id].fInTried == b.info[id].fInTried
      && r.info[id].stats.nServices == b.info[id].stats.nServices + a.nServices
      && r.info[id].stats.nTime >= b.info[id].stats.nTime
  {
    var id := b.addr[a.service.ip];
    var e := Refreshed(b.info[id], a, penalty, now);
    RefreshedKeeps(h, b, id, a, penalty, now);
    if WantsMore(e, a, roll) {
      assert EntryOk(b.info[id], id in {});
      InsertOwn(h, WithInfo(b, id, e), id, source, now);
    }
  }

  /** Inserting an entry that has references changes nothing of it but their number. */
  lemma InsertOwn(h: Hasher, b: Book, id: int, source: int, now: int)
    requires id in b.info && NewOk(h, b.info, b.newTable) && RandomOk(b.info, b.random) && b.info[id].nRefCount > 0
    ensures var r := Insert(h, b, id, source, now);
      id in r.info && r.info[id] == b.info[id].(nRefCount := r.info[id].nRefCount, nRandomPos := r.info[id].nRandomPos)
  {
    var s := h.NewSlot(b.info[id].service, source);
    CanClear(h, b, s);
    ClearFrame(b, s);
  }

  /**
   `Add_` answers true for every routable address it did not know, but the address is there afterwards exactly when
   its slot was free, or held an entry that is terrible or has other references.
   */
  lemma NewAddressKept(h: Hasher, b: Book, a: Address, source: int, penalty: int, now: int, roll: nat)
    requires Consistent(h, b) && a.service.ip !in b.addr
    ensures var (r, added), s := Add(h, b, a, true, source, penalty, now, roll), h.NewSlot(a.service, source);
      && added
      && (a.service.ip in r.addr <==>
            s !in b.newTable || b.info[b.newTable[s]].stats.IsTerrible(now) || b.info[b.newTable[s]].nRefCount > 1)
  {
    var id, w := b.nIdCount, Introduced(b, a, source, penalty);
    var s := h.NewSlot(a.service, source);
    var r := Add(h, b, a, true, source, penalty, now, roll).0;
    IntroducedKeeps(h, b, a, source, penalty);
    CanClear(h, w, s);
    if s in b.newTable {
      assert SlotOk(h, b.info, s, b.newTable[s]);
    }
    if s !in w.newTable || Overwrites(w, s, id, now) {
      ClearFrame(w, s);
      InsertKeeps(h, w, id, source, now);
      assert id in r.info && r.info[id].service == a.service;
    }
  }

  // ---------- Small updates ----------

  function Attempt(b: Book, s: Service, countFailure: bool, nTime: int): Book {
    if !Known(b, s) then b
    else
      var id := b.addr[s.ip];
      var t := b.info[id].stats.(nLastTry := nTime);
      var counted := t.(nLastCountAttempt := nTime, nAttempts := t.nAttempts + 1);
      WithInfo(b, id, b.info[id].(stats := if countFailure && t.nLastCountAttempt < b.nLastGood then counted else t))
  }

  lemma AttemptKeeps(h: Hasher, b: Book, s: Service, countFailure: bool, nTime: int)
    requires Consistent(h, b)
    ensures Almost(h, Attempt(b, s, countFailure, nTime), {}, 0)
    ensures Consistent(h, Attempt(b, s, countFailure, nTime)) <==> nTime >= 0 || !Known(b, s)
    ensures Passes(h, Attempt(b, s, countFailure, nTime)) <==> nTime >= 0 || !Known(b, s)
  {
    hide Passes;
    if Known(b, s) {
      var id, r := b.addr[s.ip], Attempt(b, s, countFailure, nTime);
      TouchKeeps(h, b, id, r.info[id], {}, 0);
      assert r.info[id].stats.nLastTry == nTime;
    }
    PassesExactly(h, Attempt(b, s, countFailure, nTime));
  }

  function Connected(b: Book, s: Service, nTime: int): Book {
    if !Known(b, s) then b
    else
      var id := b.addr[s.ip];
      var t := b.info[id].stats;
      if nTime - t.nTime > 20 * 60 then WithInfo(b, id, b.info[id].(stats := t.(nTime := nTime))) else b
  }

  lemma ConnectedKeeps(h: Hasher, b: Book, s: Service, nTime: int)
    requires Consistent(h, b)
    ensures Consistent(h, Connected(b, s, nTime))
  {
    if Known(b, s) {
      var id := b.addr[s.ip];
      TouchKeeps(h, b, id, b.info[id].(stats := b.info[id].stats.(nTime := nTime)), {}, 0);
    }
  }

  function SetServices(b: Book, s: Service, nServices: set<nat>): Book {
    if !Known(b, s) then b
    else
      var id := b.addr[s.ip];
      WithInfo(b, id, b.info[id].(stats := b.info[id].stats.(nServices := nServices)))
  }

  lemma SetServicesKeeps(h: Hasher, b: Book, s: Service, nServices: set<nat>)
    requires Consistent(h, b)
    ensures Consistent(h, SetServices(b, s, nServices))
  {
    if Known(b, s) {
      var id := b.addr[s.ip];
      TouchKeeps(h, b, id, b.info[id].(stats := b.info[id].stats.(nServices := nServices)), {}, 0);
    }
  }

  // ---------- GetAddr ----------

  const GETADDR_MAX_PCT := 23
  const GETADDR_MAX := 2500

  /** How many addresses `GetAddr_` hands out at most. */
  function Quota(b: Book): nat {
    var n := GETADDR_MAX_PCT * |b.random| / 100;
    if n > GETADDR_MAX then GETADDR_MAX else n
  }

  /** `RandomInt(size - n) + n`. */
  function Draw(rnd: nat -> nat, n: nat, size: nat): (j: nat)
    requires n < size
    ensures n <= j < size
  {
    n + rnd(n) % (size - n)
  }

  /** One turn of the loop in `GetAddr_`: a random one of the remaining ids comes to place `n`. */
  ghost function Turn(b: Book, rnd: nat -> nat, n: nat): (s: Book)
    requires RandomOk(b.info, b.random) && n < |b.random|
    ensures RandomOk(s.info, s.random) && |s.random| == |b.random|
  {
    var j := Draw(rnd, n, |b.random|);
    SwapRandomOk(b, n, j);
    SwapRandom(b, n, j)
  }

  ghost function Collect(b: Book, now: int, n: nat, got: seq<int>): seq<int>
    requires RandomOk(b.info, b.random) && n < |b.random|
  {
    if b.info[b.random[n]].stats.IsTerrible(now) then got else got + [b.random[n]]
  }

  /** The loop of `GetAddr_` from turn `n` on: it shuffles `vRandom` and collects the ids of good entries. */
  ghost function Gather(b: Book, rnd: nat -> nat, now: int, n: nat, quota: nat, got: seq<int>): (Book, seq<int>)
    requires RandomOk(b.info, b.random) && n <= |b.random|
    decreases |b.random| - n
  {
    if n == |b.random| || |got| >= quota then (b, got)
    else
      var s := Turn(b, rnd, n);
      Gather(s, rnd, now, n + 1, quota, Collect(s, now, n, got))
  }

  /** `GetAddr_` changes nothing but the order of `vRandom`. */
  lemma {:induction false} GatherFrame(b: Book, rnd: nat -> nat, now: int, n: nat, quota: nat, got: seq<int>)
    requires RandomOk(b.info, b.random) && n <= |b.random|
    ensures var r := Gather(b, rnd, now, n, quota, got).0;
      RandomOk(r.info, r.random) && SameButPlaces(b.info, r.info) && r == b.(info := r.info, random := r.random)
    decreases |b.random| - n
  {
    hide Gather, Turn, Collect, RandomOk, SameButPlaces;
    if n < |b.random| && |got| < quota {
      var s := Turn(b, rnd, n);
      var more := Collect(s, now, n, got);
      TurnFrame(b, rnd, n, s);
      GatherNext(b, rnd, now, n, quota, got);
      GatherFrame(s, rnd, now, n + 1, quota, more);
      PlacesTwice(b.info, s.info, Gather(s, rnd, now, n + 1, quota, more).0.info);
    } else {
      GatherEnd(b, rnd, now, n, quota, got);
    }
  }

  lemma GatherNext(b: Book, rnd: nat -> nat, now: int, n: nat, quota: nat, got: seq<int>)
    requires RandomOk(b.info, b.random) && n < |b.random| && |got| < quota
    ensures var s := Turn(b, rnd, n);
      Gather(b, rnd, now, n, quota, got) == Gather(s, rnd, now, n + 1, quota, Collect(s, now, n, got))
  {
    hide Turn, Collect, RandomOk;
  }

  lemma GatherEnd(b: Book, rnd: nat -> nat, now: int, n: nat, quota: nat, got: seq<int>)
    requires RandomOk(b.info, b.random) && n <= |b.random| && (n == |b.random| || |got| >= quota)
    ensures Gather(b, rnd, now, n, quota, got) == (b, got) && SameButPlaces(b.info, b.info)
  {
    hide Turn, Collect, RandomOk;
  }

  lemma PlacesTwice(i: map<int, Info>, j: map<int, Info>, k: map<int, Info>)
    requires SameButPlaces(i, j) && SameButPlaces(j, k)
    ensures SameButPlaces(i, k)
  {
  }

  lemma TurnFrame(b: Book, rnd: nat -> nat, n: nat, s: Book)
    requires RandomOk(b.info, b.random) && n < |b.random| && s == Turn(b, rnd, n)
    ensures SameButPlaces(b.info, s.info) && s == b.(info := s.info, random := s.random)
  {
    SwapInfos(b, n, Draw(rnd, n, |b.random|));
  }

  lemma GatherKeeps(h: Hasher, b: Book, rnd: nat -> nat, now: int, n: nat, quota: nat, got: seq<int>)
    requires Consistent(h, b) && n <= |b.random|
    ensures Consistent(h, Gather(b, rnd, now, n, quota, got).0)
  {
    var r := Gather(b, rnd, now, n, quota, got).0;
    GatherFrame(b, rnd, now, n, quota, got);
    InfoTransfer(h, b, r, {}, 0);
    forall id | id in r.info ensures id in b.info && r.info[id].stats == b.info[id].stats {
      assert id in b.info.Keys;
    }
  }

  /** The ids collected so far: the good ones among the first `n` of `vRandom`, each once. */
  ghost predicate Collected(b: Book, now: int, n: nat, got: seq<int>) {
    && n <= |b.random|
    && (forall i, k | 0 <= i < k < |got| :: got[i] != got[k])
    && (forall id :: id in got <==> id in b.random[..n] && id in b.info && !b.info[id].stats.IsTerrible(now))
  }

  lemma CollectedStep(b: Book, now: int, n: nat, got: seq<int>, j: nat)
    requires RandomOk(b.info, b.random) && Collected(b, now, n, got) && n <= j < |b.random|
    ensures var s := SwapRandom(b, n, j);
      RandomOk(s.info, s.random) && Collected(s, now, n + 1, Collect(s, now, n, got))
  {
    var s := SwapRandom(b, n, j);
    SwapRandomOk(b, n, j);
    SwapMoves(b, n, j);
    assert s.random[..n] == b.random[..n];
    assert s.random[..n + 1] == b.random[..n] + [s.random[n]];
    assert s.random[n] !in b.random[..n] by {
      assert s.random[n] == b.random[j] && b.info[b.random[j]].nRandomPos == j;
    }
    forall id | id in b.info ensures s.info[id].stats.IsTerrible(now) == b.info[id].stats.IsTerrible(now) {
    }
  }

  ghost predicate HandedOut(b: Book, now: int, quota: nat, ids: seq<int>) {
    && |ids| <= quota
    && (forall i, k | 0 <= i < k < |ids| :: ids[i] != ids[k])
    && (forall id | id in ids :: id in b.info && !b.info[id].stats.IsTerrible(now))
    && (|ids| < quota ==> forall id | id in b.info && !b.info[id].stats.IsTerrible(now) :: id in ids)
  }

  lemma SameHandedOut(b: Book, s: Book, now: int, quota: nat, ids: seq<int>)
    requires HandedOut(s, now, quota, ids) && s.info.Keys == b.info.Keys
    requires forall id | id in b.info :: s.info[id] == b.info[id].(nRandomPos := s.info[id].nRandomPos)
    ensures HandedOut(b, now, quota, ids)
  {
  }

  lemma CollectedAll(b: Book, now: int, quota: nat, n: nat, got: seq<int>)
    requires RandomOk(b.info, b.random) && Collected(b, now, n, got) && |got| <= quota
    requires n == |b.random| || |got| == quota
    ensures HandedOut(b, now, quota, got)
  {
  }

  /**
   `GetAddr_` hands out distinct known addresses, none of them terrible and no more than the quota; if it hands out
   fewer, it has handed out every address that is not terrible.
   */
  lemma {:induction false} GatherResult(b: Book, rnd: nat -> nat, now: int, n: nat, quota: nat, got: seq<int>)
    requires RandomOk(b.info, b.random) && Collected(b, now, n, got) && |got| <= quota
    ensures HandedOut(b, now, quota, Gather(b, rnd, now, n, quota, got).1)
    decreases |b.random| - n
  {
    if n == |b.random| || |got| >= quota {
      CollectedAll(b, now, quota, n, got);
    } else {
      var s := Turn(b, rnd, n);
      var more := Collect(s, now, n, got);
      assert Collected(s, now, n + 1, more) by {
        CollectedStep(b, now, n, got, Draw(rnd, n, |b.random|));
      }
      GatherResult(s, rnd, now, n + 1, quota, more);
      SwapMoves(b, n, Draw(rnd, n, |b.random|));
      SameHandedOut(b, s, now, quota, Gather(s, rnd, now, n + 1, quota, more).1);
    }
  }

  // ---------- Inputs that break the promises ----------

  /** The manager with one routable address. */
  ghost function First(h: Hasher, a: Address, now: int): Book {
    EmptyConsistent(h);
    Add(h, EMPTY_BOOK, a, true, a.service.ip, 0, now, 0).0
  }

  lemma FirstIs(h: Hasher, a: Address, now: int)
    ensures var b := First(h, a, now);
      && Consistent(h, b) && Known(b, a.service) && b.addr == map[a.service.ip := 0] && 0 in b.info
      && b.info[0].stats.nTime == Max(0, a.nTime) && b.info[0].stats.nLastTry == 0
      && b.info[0].stats.nAttempts == 0 && b.info[0].nRefCount == 1
      && b.newTable == map[h.NewSlot(a.service, a.service.ip) := 0]
  {
    EmptyConsistent(h);
    AddKeeps(h, EMPTY_BOOK, a, true, a.service.ip, 0, now, 0);
    hide Consistent;
    var w, s := Introduced(EMPTY_BOOK, a, a.service.ip, 0), h.NewSlot(a.service, a.service.ip);
    assert s !in w.newTable && ClearNew(w, s) == w;
    assert First(h, a, now) == PutSlot(w, s, 0);
  }

  /** An address marked good at time 0: `Check_` fails. */
  lemma GoodAtZero(h: Hasher, a: Address, now: int)
    ensures Consistent(h, First(h, a, now)) && !Passes(h, Good(h, First(h, a, now), a.service, 0))
  {
    hide Consistent, Passes, First;
    FirstIs(h, a, now);
    GoodKeeps(h, First(h, a, now), a.service, 0);
  }

  /** A connection attempt at a negative time: `Check_` fails. */
  lemma AttemptBeforeZero(h: Hasher, a: Address, now: int)
    ensures Consistent(h, First(h, a, now)) && !Passes(h, Attempt(First(h, a, now), a.service, false, -1))
  {
    hide Consistent, Passes, First;
    FirstIs(h, a, now);
    AttemptKeeps(h, First(h, a, now), a.service, false, -1);
  }

  /** Two addresses with one slot: the second is reported as added and is not there. */
  lemma SecondDropped(h: Hasher, a: Address, c: Address, now: int)
    requires a.nTime == now > 0 && a.service.ip != c.service.ip
    requires h.NewSlot(a.service, a.service.ip) == h.NewSlot(c.service, c.service.ip)
    ensures var b := First(h, a, now);
      && Consistent(h, b)
      && Add(h, b, c, true, c.service.ip, 0, now, 0).1
      && c.service.ip !in Add(h, b, c, true, c.service.ip, 0, now, 0).0.addr
  {
    hide Consistent, First;
    FirstIs(h, a, now);
    NewAddressKept(h, First(h, a, now), c, c.service.ip, 0, now, 0);
  }

  /** Hashes under which all addresses share one slot. */
  const ONE_SLOT := Hasher(_ => 0, (_, _) => 0, (_, _, _) => 0)

  lemma AddressDropped(a: Address, c: Address, now: int)
    requires a.nTime == now > 0 && a.service.ip != c.service.ip
    ensures var b := First(ONE_SLOT, a, now);
      && Consistent(ONE_SLOT, b)
      && Add(ONE_SLOT, b, c, true, c.service.ip, 0, now, 0).1
      && c.service.ip !in Add(ONE_SLOT, b, c, true, c.service.ip, 0, now, 0).0.addr
  {
    assert ONE_SLOT.NewSlot(a.service, a.service.ip) == ONE_SLOT.NewSlot(c.service, c.service.ip);
    SecondDropped(ONE_SLOT, a, c, now);
  }

  // ---------- Runs ----------

  datatype Op =
    | AddOp(address: Address, routable: bool, source: int, penalty: int, now: int, roll: nat)
    | GoodOp(service: Service, nTime: int)
    | AttemptOp(service: Service, countFailure: bool, nTime: int)
    | ConnectedOp(service: Service, nTime: int)
    | SetServicesOp(service: Service, nServices: set<nat>)
    | GetAddrOp(rnd: nat -> nat, now: int)

  ghost predicate Timely(op: Op) {
    (op.GoodOp? ==> op.nTime > 0) && (op.AttemptOp? ==> op.nTime >= 0)
  }

  ghost function Exec(h: Hasher, b: Book, op: Op): Book
    requires Almost(h, b, {}, 0)
  {
    match op
    case AddOp(a, routable, source, penalty, now, roll) => Add(h, b, a, routable, source, penalty, now, roll).0
    case GoodOp(s, nTime) => Good(h, b, s, nTime)
    case AttemptOp(s, countFailure, nTime) => Attempt(b, s, countFailure, nTime)
    case ConnectedOp(s, nTime) => Connected(b, s, nTime)
    case SetServicesOp(s, nServices) => SetServices(b, s, nServices)
    case GetAddrOp(rnd, now) => Gather(b, rnd, now, 0, Quota(b), []).0
  }

  lemma StepKeeps(h: Hasher, b: Book, op: Op)
    requires Consistent(h, b) && Timely(op)
    ensures Consistent(h, Exec(h, b, op))
  {
    match op
    case AddOp(a, routable, source, penalty, now, roll) => AddKeeps(h, b, a, routable, source, penalty, now, roll);
    case GoodOp(s, nTime) => GoodKeeps(h, b, s, nTime);
    case AttemptOp(s, countFailure, nTime) => AttemptKeeps(h, b, s, countFailure, nTime);
    case ConnectedOp(s, nTime) => ConnectedKeeps(h, b, s, nTime);
    case SetServicesOp(s, nServices) => SetServicesKeeps(h, b, s, nServices);
    case GetAddrOp(rnd, now) => GatherKeeps(h, b, rnd, now, 0, Quota(b), []);
  }

  /** Every run of the manager from empty is consistent after every operation. */
  ghost function Run(h: Hasher, ops: seq<Op>): (b: Book)
    requires forall op | op in ops :: Timely(op)
    ensures Consistent(h, b)
    decreases |ops|
  {
    if ops == [] then
      EmptyConsistent(h);
      EMPTY_BOOK
    else
      var a := Run(h, ops[..|ops| - 1]);
      StepKeeps(h, a, ops[|ops| - 1]);
      Exec(h, a, ops[|ops| - 1])
  }
}

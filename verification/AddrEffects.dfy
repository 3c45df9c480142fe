/**
 What the operations of the address manager do, entry by entry and slot by slot, and what failures add up to over a
 run: an address that never answers becomes terrible and is no longer handed out.
 */
module AddrEffects {
  import opened Numbers
  import opened AddrBook
  import opened AddrOps

  /** The same entry, but for its place in `vRandom`. */
  predicate Like(e: Info, f: Info) {
    e == f.(nRandomPos := e.nRandomPos)
  }

  predicate Holds(b: Book, n: Slot, x: int) {
    n in b.newTable && b.newTable[n] == x
  }

  ghost predicate Stays(b: Book, r: Book, x: int)
    requires x in b.info
  {
    x in r.info && Like(r.info[x], b.info[x])
  }

  /** Entry x after new slot n has been cleared: its holder loses one reference, and goes with the last one. */
  ghost predicate AfterLoss(b: Book, r: Book, n: Slot, x: int)
    requires x in b.info
  {
    if !Holds(b, n, x) then Stays(b, r, x)
    else if b.info[x].nRefCount == 1 then x !in r.info
    else x in r.info && Like(r.info[x], b.info[x].(nRefCount := b.info[x].nRefCount - 1))
  }

  // ---------- Clearing and evicting ----------

  lemma Cleared(b: Book, n: Slot)
    requires Clearable(b, n)
    ensures var c := ClearNew(b, n);
      && c.newTable == b.newTable - {n} && c.triedTable == b.triedTable && c.nLastGood == b.nLastGood
      && c.nIdCount == b.nIdCount
      && (forall x | x in b.info :: AfterLoss(b, c, n, x)) && (forall x | x in c.info :: x in b.info)
  {
    if n in b.newTable {
      var id, r := b.newTable[n], TakeSlot(b, n);
      if r.info[id].nRefCount == 0 {
        DeleteGone(r, id);
        forall x | x in b.info
          ensures AfterLoss(b, Delete(r, id), n, x)
        {
          GoneMember(r, Delete(r, id), id, x);
        }
      }
    }
  }

  /** The slot that an evicted entry goes back to: the one from its own source. */
  function BackSlot(h: Hasher, e: Info): Slot {
    h.NewSlot(e.service, e.stats.source)
  }

  /** The occupant of a tried slot becomes a new entry again, with one reference, and pushes out what is there. */
  lemma Evicted(h: Hasher, b: Book, s: Slot)
    requires Evictable(h, b, s)
    requires b.info[b.triedTable[s]].nRefCount == 0 && Slots(b.newTable, b.triedTable[s]) == {}
    ensures var r, y := Evict(h, b, s), b.triedTable[s];
      var back := BackSlot(h, b.info[y]);
      && r.triedTable == b.triedTable - {s} && r.newTable == b.newTable[back := y]
      && r.nLastGood == b.nLastGood && r.nIdCount == b.nIdCount
      && y in r.info && Like(r.info[y], b.info[y].(nRefCount := 1, fInTried := false))
      && (forall x | x in b.info && x != y :: AfterLoss(b, r, back, x)) && (forall x | x in r.info :: x in b.info)
  {
    hide ClearNew, Clearable;
    var y, u := b.triedTable[s], Untry(b, s);
    var back := BackSlot(h, b.info[y]);
    Cleared(u, back);
    var c := ClearNew(u, back);
    assert back !in Slots(b.newTable, y);
    assert AfterLoss(u, c, back, y);
    forall x | x in b.info && x != y
      ensures AfterLoss(b, Evict(h, b, s), back, x)
    {
      assert AfterLoss(u, c, back, x);
    }
  }

  // ---------- Good ----------

  function Succeeded(t: Stats, nTime: int): Stats {
    t.(nLastSuccess := nTime, nLastTry := nTime, nAttempts := 0)
  }

  /** The entry that `Good_` marks: it is tried, without references. */
  ghost predicate Moved(b: Book, r: Book, id: int, nTime: int)
    requires id in b.info
  {
    && id in r.info
    && Like(r.info[id], b.info[id].(stats := Succeeded(b.info[id].stats, nTime), nRefCount := 0, fInTried := true))
  }

  /** Nobody else is affected. */
  ghost predicate OthersStay(b: Book, r: Book, id: int) {
    forall x | x in b.info && x != id :: Stays(b, r, x)
  }

  /** The entry before in the tried slot is back in the new table, and only what it pushes out is affected. */
  ghost predicate MovedBack(h: Hasher, b: Book, r: Book, id: int, y: int)
    requires y in b.info
  {
    var back := BackSlot(h, b.info[y]);
    && Holds(r, back, y) && y in r.info && Like(r.info[y], b.info[y].(nRefCount := 1, fInTried := false))
    && forall x | x in b.info && x != id && x != y :: AfterLoss(b, r, back, x)
  }

  lemma ForgottenIs(b: Book, s: Service, nTime: int, f: Book)
    requires Known(b, s) && f == Forgotten(Noted(b, s, nTime), b.addr[s.ip])
    ensures var id := b.addr[s.ip];
      && f.triedTable == b.triedTable && f.newTable == b.newTable - Slots(b.newTable, id)
      && f.nLastGood == nTime && f.nIdCount == b.nIdCount
      && f.info == b.info[id := b.info[id].(stats := Succeeded(b.info[id].stats, nTime), nRefCount := 0)]
  {
  }

  lemma TriedHasNone(h: Hasher, b: Book, y: int)
    requires NewOk(h, b.info, b.newTable) && y in b.info && b.info[y].fInTried
    ensures Slots(b.newTable, y) == {} && b.info[y].nRefCount == 0
  {
    forall s | s in b.newTable
      ensures b.newTable[s] != y
    {
      assert SlotOk(h, b.info, s, b.newTable[s]);
    }
  }

  /** What `Good_` is made of when the address is new. */
  lemma GoodSteps(h: Hasher, b: Book, s: Service, nTime: int, f: Book)
    requires Almost(h, b, {}, 0) && Known(b, s) && !b.info[b.addr[s.ip]].fInTried
    requires f == Forgotten(Noted(b, s, nTime), b.addr[s.ip])
    ensures HasRoom(h, f, b.addr[s.ip])
    ensures Good(h, b, s, nTime) == Try(h, MakeRoom(h, f, b.addr[s.ip]), b.addr[s.ip])
  {
    hide Almost, Forgotten, Try, MakeRoom, HasRoom, Noted;
    NotedKeeps(h, b, s, nTime);
    assert Noted(b, s, nTime).info[b.addr[s.ip]].fInTried == false by {
      NotedFlag(b, s, nTime);
    }
    MakeTriedKeeps(h, Noted(b, s, nTime), b.addr[s.ip]);
  }

  lemma NotedFlag(b: Book, s: Service, nTime: int)
    requires Known(b, s)
    ensures b.addr[s.ip] in Noted(b, s, nTime).info
    ensures Noted(b, s, nTime).info[b.addr[s.ip]].fInTried == b.info[b.addr[s.ip]].fInTried
  {
  }

  lemma OccupantOf(h: Hasher, b: Book, s: Slot)
    requires Almost(h, b, {}, 0) && s in b.triedTable
    ensures var y := b.triedTable[s];
      y in b.info && b.info[y].fInTried && b.info[y].nRefCount == 0 && Slots(b.newTable, y) == {}
  {
    TriedHasNone(h, b, b.triedTable[s]);
  }

  /**
   `Good_` of a known address that is not tried yet moves it to its tried slot. An address before in that slot goes back
   to the new table with one reference. The only entry that can disappear is one that had its last reference there, and
   all others are untouched.
   */
  lemma GoodMoves(h: Hasher, b: Book, s: Service, nTime: int)
    requires Almost(h, b, {}, 0) && Known(b, s) && !b.info[b.addr[s.ip]].fInTried
    ensures var r, id, place := Good(h, b, s, nTime), b.addr[s.ip], h.TriedSlot(s);
      var rest := b.newTable - Slots(b.newTable, id);
      && Moved(b, r, id, nTime) && r.triedTable == b.triedTable[place := id] && r.nLastGood == nTime
      && (forall x | x in r.info :: x in b.info) && r.nIdCount == b.nIdCount
      && (place !in b.triedTable ==> OthersStay(b, r, id) && r.newTable == rest)
      && (place in b.triedTable ==>
            var y := b.triedTable[place];
            && y in b.info && y != id && MovedBack(h, b, r, id, y)
            && r.newTable == rest[BackSlot(h, b.info[y]) := y])
  {
    hide Almost, Good, Evict, Evictable, Forgotten, Noted, MovedBack, Moved;
    var id, place := b.addr[s.ip], h.TriedSlot(s);
    NotedFlag(b, s, nTime);
    var f, r := Forgotten(Noted(b, s, nTime), id), Good(h, b, s, nTime);
    ForgottenIs(b, s, nTime, f);
    GoodSteps(h, b, s, nTime, f);
    if place in b.triedTable {
      var y := b.triedTable[place];
      OccupantOf(h, b, place);
      assert Slots(f.newTable, y) == {};
      Evicted(h, f, place);
      EvictedFor(h, b, f, r, id, y, nTime, place);
    } else {
      MovedFree(h, b, f, id, nTime);
    }
  }

  lemma MovedFree(h: Hasher, b: Book, f: Book, id: int, nTime: int)
    requires id in b.info
    requires f.info == b.info[id := b.info[id].(stats := Succeeded(b.info[id].stats, nTime), nRefCount := 0)]
    ensures Moved(b, Try(h, f, id), id, nTime) && OthersStay(b, Try(h, f, id), id)
    ensures forall x | x in Try(h, f, id).info :: x in b.info
  {
  }

  lemma EvictedFor(h: Hasher, b: Book, f: Book, r: Book, id: int, y: int, nTime: int, place: Slot)
    requires id in b.info && y in b.info && y != id && Slots(b.newTable, y) == {}
    requires f.newTable == b.newTable - Slots(b.newTable, id)
    requires f.info == b.info[id := b.info[id].(stats := Succeeded(b.info[id].stats, nTime), nRefCount := 0)]
    requires Evictable(h, f, place) && f.triedTable[place] == y
    requires var e, back := Evict(h, f, place), BackSlot(h, f.info[y]);
      && e.newTable == f.newTable[back := y]
      && y in e.info && Like(e.info[y], f.info[y].(nRefCount := 1, fInTried := false))
      && (forall x | x in f.info && x != y :: AfterLoss(f, e, back, x)) && (forall x | x in e.info :: x in f.info)
      && id in e.info && r == Try(h, e, id)
    ensures Moved(b, r, id, nTime) && MovedBack(h, b, r, id, y) && forall x | x in r.info :: x in b.info
  {
    hide Evict, Evictable;
    var e, back := Evict(h, f, place), BackSlot(h, f.info[y]);
    assert AfterLoss(f, e, back, id);
    forall x | x in b.info && x != id && x != y
      ensures AfterLoss(b, r, back, x)
    {
      assert AfterLoss(f, e, back, x);
      assert Holds(f, back, x) <==> Holds(b, back, x);
    }
  }

  /** Of any other address `Good_` only notes the time, and of a tried one the success. */
  lemma GoodNotes(h: Hasher, b: Book, s: Service, nTime: int)
    requires Almost(h, b, {}, 0) && (!Known(b, s) || b.info[b.addr[s.ip]].fInTried)
    ensures var r := Good(h, b, s, nTime);
      && r == b.(info := r.info, nLastGood := nTime) && r.info.Keys == b.info.Keys
      && (forall x | x in b.info && !(Known(b, s) && x == b.addr[s.ip]) :: r.info[x] == b.info[x])
      && (Known(b, s) ==>
            var e := b.info[b.addr[s.ip]]; r.info[b.addr[s.ip]] == e.(stats := Succeeded(e.stats, nTime)))
  {
    hide Almost;
  }

  // ---------- Add ----------

  /** Whether entry `id` gets slot `s`: it is free, or its occupant may be overwritten. */
  predicate Gets(b: Book, s: Slot, id: int, now: int)
    requires id in b.info && (s in b.newTable ==> b.newTable[s] in b.info)
  {
    s !in b.newTable || (b.newTable[s] != id && Overwrites(b, s, id, now))
  }

  /** What is outside the entries, the names and the new table stays. */
  ghost predicate SameRest(b: Book, r: Book) {
    r.triedTable == b.triedTable && r.nLastGood == b.nLastGood && r.nIdCount == b.nIdCount
  }

  lemma OccupantKnown(h: Hasher, b: Book, s: Slot)
    requires NewOk(h, b.info, b.newTable) && s in b.newTable
    ensures b.newTable[s] in b.info && b.info[b.newTable[s]].nRefCount >= 1
  {
    TakeNewOk(h, b, s);
  }

  /** An entry that gets its slot has one reference more, and takes one from whoever was there. */
  lemma InsertGets(h: Hasher, b: Book, id: int, source: int, now: int, s: Slot)
    requires id in b.info && NewOk(h, b.info, b.newTable) && RandomOk(b.info, b.random)
    requires s == h.NewSlot(b.info[id].service, source) && (s in b.newTable ==> b.newTable[s] in b.info)
    requires Gets(b, s, id, now)
    ensures var r := Insert(h, b, id, source, now);
      && id in r.info && Like(r.info[id], b.info[id].(nRefCount := b.info[id].nRefCount + 1))
      && r.newTable == b.newTable[s := id] && SameRest(b, r)
      && (forall x | x in b.info && x != id :: AfterLoss(b, r, s, x)) && (forall x | x in r.info :: x in b.info)
  {
    hide ClearNew, Clearable, NewOk, RandomOk;
    CanClear(h, b, s);
    Cleared(b, s);
    var c := ClearNew(b, s);
    assert AfterLoss(b, c, s, id);
    assert Insert(h, b, id, source, now) == PutSlot(c, s, id);
    forall x | x in b.info && x != id
      ensures AfterLoss(b, PutSlot(c, s, id), s, x)
    {
      assert AfterLoss(b, c, s, x);
    }
  }

  /** An entry that does not get its slot stays as it was, and is dropped if it has no references. */
  lemma InsertFails(h: Hasher, b: Book, id: int, source: int, now: int, s: Slot)
    requires id in b.info && NewOk(h, b.info, b.newTable) && RandomOk(b.info, b.random)
    requires s == h.NewSlot(b.info[id].service, source) && (s in b.newTable ==> b.newTable[s] in b.info)
    requires !Gets(b, s, id, now)
    ensures var r := Insert(h, b, id, source, now);
      && r.newTable == b.newTable && SameRest(b, r)
      && OthersStay(b, r, id) && (forall x | x in r.info :: x in b.info)
      && (if b.info[id].nRefCount == 0 then id !in r.info else Stays(b, r, id))
  {
    hide ClearNew, Clearable;
    OccupantKnown(h, b, s);
    CanClear(h, b, s);
    if b.newTable[s] == id {
    } else if b.info[id].nRefCount == 0 {
      DeleteGone(b, id);
      var r := Delete(b, id);
      DeleteRest(b, id);
      hide Delete, NewOk, RandomOk;
      forall x | x in b.info
        ensures x != id ==> Stays(b, r, x)
        ensures x == id ==> x !in r.info
      {
        GoneMember(b, r, id, x);
      }
    }
  }

  lemma DeleteRest(b: Book, id: int)
    requires RandomOk(b.info, b.random) && id in b.info
    ensures SameRest(b, Delete(b, id))
  {
  }

  /**
   `Add_` of an address that is not known: kept, it has its penalised time and one reference, in the slot of its source;
   whoever was there loses one, and goes with the last. Not kept, nothing has changed.
   */
  lemma AddsNew(h: Hasher, b: Book, a: Address, source: int, penalty: int, now: int, roll: nat)
    requires Almost(h, b, {}, 0) && a.service.ip !in b.addr
    ensures var r, id, s := Add(h, b, a, true, source, penalty, now, roll).0, b.nIdCount, h.NewSlot(a.service, source);
      && (forall x | x in r.info :: x in b.info || x == id) && SameRest(b.(nIdCount := id + 1), r)
      && (s in b.newTable ==> b.newTable[s] in b.info)
      && if s !in b.newTable || b.info[b.newTable[s]].stats.IsTerrible(now) || b.info[b.newTable[s]].nRefCount > 1 then
           && id in r.info && r.newTable == b.newTable[s := id]
           && Like(r.info[id], NewEntry(a, source, penalty))
           && forall x | x in b.info :: AfterLoss(b, r, s, x)
         else id !in r.info && r.newTable == b.newTable && forall x | x in b.info :: Stays(b, r, x)
  {
    hide Almost, Insert, Add, NewOk, RandomOk;
    var id, s, w := b.nIdCount, h.NewSlot(a.service, source), Introduced(b, a, source, penalty);
    AddIs(h, b, a, source, penalty, now, roll, w);
    if s in b.newTable {
      OccupantKnown(h, b, s);
    }
    if Gets(w, s, id, now) {
      InsertGets(h, w, id, source, now, s);
      var r := Insert(h, w, id, source, now);
      forall x | x in b.info
        ensures AfterLoss(b, r, s, x)
      {
        assert AfterLoss(w, r, s, x);
      }
    } else {
      InsertFails(h, w, id, source, now, s);
      var r := Insert(h, w, id, source, now);
      forall x | x in b.info
        ensures Stays(b, r, x)
      {
        assert Stays(w, r, x);
      }
    }
  }

  /** The entry of an address just heard of; its place in `vRandom` does not matter here. */
  function NewEntry(a: Address, source: int, penalty: int): Info {
    var nTime := if a.nTime > penalty then a.nTime - penalty else 0;
    Info(a.service, Stats(a.nServices, nTime, source, 0, 0, 0, 0), 1, false, 0)
  }

  lemma AddIs(h: Hasher, b: Book, a: Address, source: int, penalty: int, now: int, roll: nat, w: Book)
    requires Almost(h, b, {}, 0) && a.service.ip !in b.addr && w == Introduced(b, a, source, penalty)
    ensures b.nIdCount !in b.info && b.nIdCount in w.info && NewOk(h, b.info, b.newTable)
    ensures NewOk(h, w.info, w.newTable) && RandomOk(w.info, w.random)
    ensures Add(h, b, a, true, source, penalty, now, roll).0 == Insert(h, w, b.nIdCount, source, now)
  {
    IntroducedKeeps(h, b, a, source, penalty);
    hide RandomOk, NewOk, Insert;
  }

  const HOUR := 3600
  const DAY := 86400

  /** The time of an entry seen at `seen` after it is announced for `heard`: taken over only if clearly newer. */
  function TimeAfter(seen: int, heard: int, penalty: int, now: int): int {
    var lag := penalty + if now < heard + DAY then HOUR else DAY;
    if heard != 0 && (seen == 0 || seen + lag < heard) then Max(0, heard - penalty) else seen
  }

  lemma {:induction false} FactorIs(refs: nat)
    ensures Factor(refs) == Pow(2, refs)
  {
    if refs > 0 {
      FactorIs(refs - 1);
    }
  }

  /** Whether a known entry gets a further reference, in slot `s`. */
  ghost predicate Deserves(b: Book, id: int, heard: int, time: int, roll: nat, s: Slot, now: int)
    requires id in b.info && b.info[id].nRefCount >= 0 && (s in b.newTable ==> b.newTable[s] in b.info)
  {
    && heard != 0 && (time == 0 || heard > time) && !b.info[id].fInTried
    && b.info[id].nRefCount < NEW_BUCKETS_PER_ADDRESS && roll % Pow(2, b.info[id].nRefCount) == 0
    && (s in b.newTable ==> b.newTable[s] != id && b.info[b.newTable[s]].stats.IsTerrible(now))
  }

  /**
   `Add_` of a known address: its time is taken over only if clearly newer, its services add up, and it gets a further
   reference, in a slot that is free or held by a terrible entry, with a chance halved by each one it has.
   */
  lemma AddsKnown(h: Hasher, b: Book, a: Address, source: int, penalty: int, now: int, roll: nat)
    requires Almost(h, b, {}, 0) && a.service.ip in b.addr
    ensures var r, id := Add(h, b, a, true, source, penalty, now, roll).0, b.addr[a.service.ip];
      && id in b.info && id in r.info && 0 <= b.info[id].nRefCount
      && (forall x | x in r.info :: x in b.info) && SameRest(b, r)
      && var e := b.info[id];
         var s, time := h.NewSlot(e.service, source), TimeAfter(e.stats.nTime, a.nTime, penalty, now);
         var stats := e.stats.(nTime := time, nServices := e.stats.nServices + a.nServices);
         && (s in b.newTable ==> b.newTable[s] in b.info)
         && if Deserves(b, id, a.nTime, time, roll, s, now) then
              && Like(r.info[id], e.(stats := stats, nRefCount := e.nRefCount + 1))
              && r.newTable == b.newTable[s := id] && forall x | x in b.info && x != id :: AfterLoss(b, r, s, x)
            else
              Like(r.info[id], e.(stats := stats)) && r.newTable == b.newTable && OthersStay(b, r, id)
  {
    hide Almost, Insert, NewOk, RandomOk;
    var id := b.addr[a.service.ip];
    KnownEntry(h, b, a.service.ip);
    var e, w := b.info[id], WithInfo(b, id, Refreshed(b.info[id], a, penalty, now));
    var s := h.NewSlot(e.service, source);
    RefreshedKeeps(h, b, id, a, penalty, now);
    PartsOf(h, w);
    if s in b.newTable {
      OccupantKnown(h, w, s);
    }
    FactorIs(e.nRefCount);
    var r := Insert(h, w, id, source, now);
    if WantsMore(w.info[id], a, roll) {
      if Gets(w, s, id, now) {
        InsertGets(h, w, id, source, now, s);
        forall x | x in b.info && x != id
          ensures AfterLoss(b, r, s, x)
        {
          assert AfterLoss(w, r, s, x);
        }
      } else {
        InsertFails(h, w, id, source, now, s);
        forall x | x in b.info && x != id
          ensures Stays(b, r, x)
        {
          assert Stays(w, r, x);
        }
      }
    }
  }

  lemma KnownEntry(h: Hasher, b: Book, ip: int)
    requires Almost(h, b, {}, 0) && ip in b.addr
    ensures var id := b.addr[ip];
      && id in b.info && b.info[id].service.ip == ip && 0 <= b.info[id].nRefCount <= NEW_BUCKETS_PER_ADDRESS
      && (b.info[id].nRefCount == 0 <==> b.info[id].fInTried)
  {
    var id := b.addr[ip];
    assert EntryOk(b.info[id], id in {});
  }

  lemma PartsOf(h: Hasher, b: Book)
    requires Almost(h, b, {}, 0)
    ensures NewOk(h, b.info, b.newTable) && RandomOk(b.info, b.random)
  {
    hide NewOk, RandomOk;
  }

  // ---------- The small updates ----------

  /** Nothing but one entry has changed. */
  ghost predicate OnlyEntry(b: Book, r: Book, id: int) {
    && r == b.(info := r.info) && r.info.Keys == b.info.Keys
    && forall x | x in b.info && x != id :: x in r.info && r.info[x] == b.info[x]
  }

  /**
   `Attempt_` of a known address notes the time of the try, and counts a failure exactly if it is to count and the last
   one counted is from before the last success of any address. It changes nothing else, and of an unknown one nothing.
   */
  lemma AttemptNotes(h: Hasher, b: Book, s: Service, countFailure: bool, nTime: int)
    requires Almost(h, b, {}, 0)
    ensures var r := Attempt(b, s, countFailure, nTime);
      if !Known(b, s) then r == b
      else
        var id := b.addr[s.ip];
        var t := b.info[id].stats;
        && OnlyEntry(b, r, id) && id in r.info
        && r.info[id] == b.info[id].(stats := r.info[id].stats)
        && r.info[id].stats ==
             t.(nLastTry := nTime, nAttempts := r.info[id].stats.nAttempts,
                nLastCountAttempt := r.info[id].stats.nLastCountAttempt)
        && (r.info[id].stats.nAttempts, r.info[id].stats.nLastCountAttempt) ==
             if countFailure && t.nLastCountAttempt < b.nLastGood then (t.nAttempts + 1, nTime)
             else (t.nAttempts, t.nLastCountAttempt)
  {
    hide Almost;
  }

  /** `Connected_` moves the time of a known address, to the one given, if that is more than twenty minutes later. */
  lemma ConnectedNotes(b: Book, s: Service, nTime: int)
    ensures var r := Connected(b, s, nTime);
      if !Known(b, s) then r == b
      else
        var id := b.addr[s.ip];
        && OnlyEntry(b, r, id) && id in r.info
        && r.info[id] == b.info[id].(stats := b.info[id].stats.(nTime := r.info[id].stats.nTime))
        && r.info[id].stats.nTime == if b.info[id].stats.nTime + 1200 < nTime then nTime else b.info[id].stats.nTime
  {
  }

  /** `SetServices_` stores the services of a known address, and changes nothing else. */
  lemma SetServicesNotes(b: Book, s: Service, nServices: set<nat>)
    ensures var r := SetServices(b, s, nServices);
      if !Known(b, s) then r == b
      else
        var id := b.addr[s.ip];
        && OnlyEntry(b, r, id) && id in r.info
        && r.info[id] == b.info[id].(stats := b.info[id].stats.(nServices := nServices))
  {
  }

  /**
   An address is terrible exactly if it was not tried within the last minute and: its time is unknown, more than ten
   minutes ahead or more than 30 days back; or it never answered in three attempts; or not in ten, for a week.
   */
  lemma TerribleExactly(t: Stats, now: int)
    ensures t.IsTerrible(now) <==>
      && (t.nLastTry == 0 || t.nLastTry + 60 < now)
      && (|| t.nTime == 0 || t.nTime > now + 600 || t.nTime + 30 * DAY < now
          || (t.nAttempts >= 3 && t.nLastSuccess == 0)
          || (t.nAttempts >= 10 && t.nLastSuccess + 7 * DAY < now))
  {
  }

  /** The quota is the greatest whole number that is at most 2500 and at most 23 of every 100 addresses. */
  lemma QuotaIs(b: Book, q: nat)
    ensures q <= Quota(b) <==> q <= 2500 && 100 * q <= 23 * |b.random|
  {
    var n := 23 * |b.random|;
    assert q <= n / 100 <==> 100 * q <= n;
  }
}

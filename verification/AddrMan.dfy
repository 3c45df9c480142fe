/**
 The address manager as it runs: maps, a vector and two bucket arrays updated in place. Each method does to the
 manager what the function of `AddrBook` or `AddrOps` of the same name says, so every run keeps the invariant,
 and the asserts of the code stand in the bodies as asserts.
 */
module AddrMan {
  import opened Numbers
  import opened AddrBook
  import opened AddrOps

  ghost function AllSlots(buckets: nat, size: nat): (all: set<Slot>)
    ensures forall s: Slot :: s in all <==> 0 <= s.0 < buckets && 0 <= s.1 < size
  {
    set b, p | 0 <= b < buckets && 0 <= p < size :: (b, p)
  }

  /** The occupied slots of a bucket array, in which -1 marks a free one. */
  ghost function Occupied(a: array2<int>): map<Slot, int>
    reads a
  {
    map s | s in AllSlots(a.Length0, a.Length1) && a[s.0, s.1] != -1 :: a[s.0, s.1]
  }

  /** One write to a bucket array. */
  method Write(a: array2<int>, b: nat, p: nat, x: int)
    requires b < a.Length0 && p < a.Length1
    modifies a
    ensures Occupied(a) == if x == -1 then old(Occupied(a)) - {(b, p)} else old(Occupied(a))[(b, p) := x]
    ensures forall c: nat, q: nat | c < a.Length0 && q < a.Length1 && (c, q) != (b, p) :: a[c, q] == old(a[c, q])
    ensures a[b, p] == x
  {
    a[b, p] := x;
  }

  /** Frees a slot if it holds `id`. */
  method Erase(a: array2<int>, b: nat, p: nat, id: int) returns (hit: bool)
    requires b < a.Length0 && p < a.Length1 && id != -1
    modifies a
    ensures hit <==> (b, p) in old(Occupied(a)) && old(Occupied(a))[(b, p)] == id
    ensures Occupied(a) == if hit then old(Occupied(a)) - {(b, p)} else old(Occupied(a))
  {
    hit := a[b, p] == id;
    if hit {
      Write(a, b, p, -1);
    }
  }

  class Manager {
    const h: Hasher
    var nIdCount: int
    var mapInfo: map<int, Info>
    var mapAddr: map<int, int>
    var vRandom: seq<int>
    const vvNew: array2<int>
    const vvTried: array2<int>
    var nNew: int
    var nTried: int
    var nLastGood: int

    ghost predicate Shaped()
      reads this
    {
      && vvNew.Length0 == NEW_BUCKET_COUNT && vvNew.Length1 == BUCKET_SIZE
      && vvTried.Length0 == TRIED_BUCKET_COUNT && vvTried.Length1 == BUCKET_SIZE
      && vvNew != vvTried
    }

    ghost function Contents(): Book
      reads this, vvNew, vvTried
    {
      Book(nIdCount, mapInfo, mapAddr, vRandom, Occupied(vvNew), Occupied(vvTried), nNew, nTried, nLastGood)
    }

    ghost predicate Valid()
      reads this, vvNew, vvTried
    {
      Shaped() && Almost(h, Contents(), {}, 0)
    }

    /** A freshly built manager is empty and consistent. */
    constructor (h: Hasher)
      ensures Shaped() && fresh(vvNew) && fresh(vvTried)
      ensures this.h == h && Contents() == EMPTY_BOOK && Consistent(h, Contents())
    {
      this.h := h;
      nIdCount, mapInfo, mapAddr, vRandom, nNew, nTried, nLastGood := 0, map[], map[], [], 0, 0, 1;
      vvNew := new int[NEW_BUCKET_COUNT, BUCKET_SIZE]((_, _) => -1);
      vvTried := new int[TRIED_BUCKET_COUNT, BUCKET_SIZE]((_, _) => -1);
      new;
      EmptyConsistent(h);
    }

    method SwapRandom(i: nat, j: nat)
      requires i < |vRandom| && j < |vRandom| && RandomOk(mapInfo, vRandom)
      modifies this
      ensures Contents() == AddrBook.SwapRandom(old(Contents()), i, j)
    {
      if i == j {
        return;
      }
      assert i < |vRandom| && j < |vRandom|;
      var x, y := vRandom[i], vRandom[j];
      assert x in mapInfo && y in mapInfo;
      mapInfo := mapInfo[x := mapInfo[x].(nRandomPos := j)];
      mapInfo := mapInfo[y := mapInfo[y].(nRandomPos := i)];
      vRandom := vRandom[i := y];
      vRandom := vRandom[j := x];
    }

    method Delete(id: int)
      requires id in mapInfo && RandomOk(mapInfo, vRandom) && !mapInfo[id].fInTried && mapInfo[id].nRefCount == 0
      modifies this
      ensures Contents() == AddrBook.Delete(old(Contents()), id)
    {
      assert id in mapInfo && !mapInfo[id].fInTried && mapInfo[id].nRefCount == 0;
      SwapRandom(mapInfo[id].nRandomPos, |vRandom| - 1);
      vRandom := vRandom[..|vRandom| - 1];
      mapAddr := mapAddr - {mapInfo[id].service.ip};
      mapInfo := mapInfo - {id};
      nNew := nNew - 1;
    }

    method ClearNew(bucket: nat, pos: nat)
      requires Shaped() && bucket < NEW_BUCKET_COUNT && pos < BUCKET_SIZE
      requires NewOk(h, mapInfo, Occupied(vvNew)) && RandomOk(mapInfo, vRandom)
      modifies this, vvNew
      ensures Clearable(old(Contents()), (bucket, pos))
      ensures Contents() == AddrBook.ClearNew(old(Contents()), (bucket, pos))
    {
      CanClear(h, Contents(), (bucket, pos));
      if vvNew[bucket, pos] != -1 {
        var id := TakeNew(bucket, pos);
        if mapInfo[id].nRefCount == 0 {
          Delete(id);
        }
      }
    }

    /** The first half of `ClearNew`: the reference in an occupied slot is taken away. */
    method TakeNew(bucket: nat, pos: nat) returns (id: int)
      requires Shaped() && bucket < NEW_BUCKET_COUNT && pos < BUCKET_SIZE && vvNew[bucket, pos] != -1
      requires NewOk(h, mapInfo, Occupied(vvNew))
      modifies this, vvNew
      ensures id == old(vvNew[bucket, pos]) && id in mapInfo && !mapInfo[id].fInTried
      ensures Contents() == TakeSlot(old(Contents()), (bucket, pos))
    {
      id := vvNew[bucket, pos];
      TakeNewOk(h, Contents(), (bucket, pos));
      assert mapInfo[id].nRefCount > 0;
      mapInfo := mapInfo[id := mapInfo[id].(nRefCount := mapInfo[id].nRefCount - 1)];
      Write(vvNew, bucket, pos, -1);
    }

    /** The loop of `MakeTried` that removes an entry from all new buckets, with the assert after it. */
    method ForgetNew(id: int)
      requires Shaped() && 0 <= id && id in mapInfo && NewOk(h, mapInfo, Occupied(vvNew))
      modifies this, vvNew
      ensures Contents() == ForgetSlots(old(Contents()), id)
    {
      ForgetNewOk(h, Contents(), id);
      Placed(h, mapInfo, Occupied(vvNew), id);
      var hits := EraseAll(h, vvNew, mapInfo[id].service, id);
      assert mapInfo[id].nRefCount - hits == 0;
      mapInfo := mapInfo[id := mapInfo[id].(nRefCount := mapInfo[id].nRefCount - hits)];
    }

    method LeaveTried(bucket: nat, pos: nat) returns (id: int)
      requires Shaped() && bucket < TRIED_BUCKET_COUNT && pos < BUCKET_SIZE && vvTried[bucket, pos] != -1
      requires vvTried[bucket, pos] in mapInfo
      modifies this, vvTried
      ensures id == old(vvTried[bucket, pos])
      ensures Contents() == Untry(old(Contents()), (bucket, pos))
    {
      id := vvTried[bucket, pos];
      mapInfo := mapInfo[id := mapInfo[id].(fInTried := false)];
      Write(vvTried, bucket, pos, -1);
      nTried := nTried - 1;
    }

    method EnterTried(id: int, bucket: nat, pos: nat)
      requires Shaped() && bucket < TRIED_BUCKET_COUNT && pos < BUCKET_SIZE && vvTried[bucket, pos] == -1
      requires id in mapInfo && 0 <= id && (bucket, pos) == h.TriedSlot(mapInfo[id].service)
      modifies this, vvTried
      ensures Contents() == Try(h, old(Contents()), id)
    {
      Write(vvTried, bucket, pos, id);
      nTried := nTried + 1;
      mapInfo := mapInfo[id := mapInfo[id].(fInTried := true)];
    }

    /** The branch of `MakeTried` that makes room: the tried entry moves back to its first new bucket. */
    method EvictTried(bucket: nat, pos: nat, ghost idle: set<int>, ghost missing: int)
      requires Shaped() && bucket < TRIED_BUCKET_COUNT && pos < BUCKET_SIZE && vvTried[bucket, pos] != -1
      requires Almost(h, Contents(), idle, missing)
      modifies this, vvNew, vvTried
      ensures Evictable(h, old(Contents()), (bucket, pos))
      ensures Contents() == Evict(h, old(Contents()), (bucket, pos))
    {
      ghost var b := Contents();
      CanEvict(h, b, (bucket, pos), idle, missing);
      var id := LeaveTried(bucket, pos);
      assert Almost(h, Contents(), idle + {id}, missing + 1) by {
        UntryKeeps(h, b, (bucket, pos), idle, missing);
      }
      var nUBucket := h.NewBucket(mapInfo[id].service, mapInfo[id].stats.source);
      var nUBucketPos := h.Position(true, nUBucket, mapInfo[id].service);
      Refile(id, nUBucket, nUBucketPos, idle + {id}, missing + 1);
    }

    method Refile(id: int, nUBucket: nat, nUBucketPos: nat, ghost idle: set<int>, ghost missing: int)
      requires Shaped() && nUBucket < NEW_BUCKET_COUNT && nUBucketPos < BUCKET_SIZE
      requires Almost(h, Contents(), idle, missing) && id in idle
      modifies this, vvNew
      ensures var u, s := old(Contents()), (nUBucket, nUBucketPos);
        && Clearable(u, s) && id in AddrBook.ClearNew(u, s).info
        && Contents() == var r := PutSlot(AddrBook.ClearNew(u, s), s, id); r.(nNew := r.nNew + 1)
    {
      ghost var u := Contents();
      assert 0 <= id && u.info[id].nRefCount == 0;
      CanClear(h, u, (nUBucket, nUBucketPos));
      IdleKept(h, u, (nUBucket, nUBucketPos), idle, missing);
      ClearNew(nUBucket, nUBucketPos);
      assert vvNew[nUBucket, nUBucketPos] == -1 by {
        assert (nUBucket, nUBucketPos) !in Occupied(vvNew);
      }
      EnterNew(id, nUBucket, nUBucketPos);
      nNew := nNew + 1;
    }

    /** An entry without references gets its first one. */
    method EnterNew(id: int, bucket: nat, pos: nat)
      requires Shaped() && bucket < NEW_BUCKET_COUNT && pos < BUCKET_SIZE
      requires id in mapInfo && 0 <= id && mapInfo[id].nRefCount == 0
      modifies this`mapInfo, vvNew
      ensures Contents() == PutSlot(old(Contents()), (bucket, pos), id)
    {
      mapInfo := mapInfo[id := mapInfo[id].(nRefCount := 1)];
      Write(vvNew, bucket, pos, id);
    }

    /** All references to an entry are removed, and it is no longer counted as new. */
    method LeaveNew(id: int)
      requires Valid() && id in mapInfo
      modifies this, vvNew
      ensures 0 <= id && Contents() == Forgotten(old(Contents()), id)
    {
      ForgetNew(id);
      nNew := nNew - 1;
    }

    /** The tried slot of an entry is freed if it is taken. */
    method MakeRoom(id: int, nKBucket: nat, nKBucketPos: nat)
      requires Shaped() && nKBucket < TRIED_BUCKET_COUNT && nKBucketPos < BUCKET_SIZE
      requires Almost(h, Contents(), {id}, 1) && id in mapInfo && HasRoom(h, Contents(), id)
      requires (nKBucket, nKBucketPos) == h.TriedSlot(mapInfo[id].service)
      modifies this, vvNew, vvTried
      ensures Contents() == AddrOps.MakeRoom(h, old(Contents()), id) && vvTried[nKBucket, nKBucketPos] == -1
      ensures id in mapInfo && mapInfo[id].service == old(mapInfo[id].service)
    {
      ghost var f, s := Contents(), (nKBucket, nKBucketPos);
      assert s in f.triedTable <==> vvTried[nKBucket, nKBucketPos] != -1;
      if vvTried[nKBucket, nKBucketPos] != -1 {
        EvictTried(nKBucket, nKBucketPos, {id}, 1);
        EvictFrees(h, f, s, id);
        assert s !in Occupied(vvTried);
      }
    }

    method MakeTried(id: int)
      requires Valid() && id in mapInfo && !mapInfo[id].fInTried
      modifies this, vvNew, vvTried
      ensures Movable(h, old(Contents()), id)
      ensures Contents() == AddrOps.MakeTried(h, old(Contents()), id)
    {
      ghost var b := Contents();
      CanMove(h, b, id);
      ForgottenKeeps(h, b, id);
      LeaveNew(id);
      hide Almost, Forgotten, Occupied, HasRoom, AddrOps.MakeRoom, Try;
      var nKBucket := h.TriedBucket(mapInfo[id].service);
      var nKBucketPos := h.Position(false, nKBucket, mapInfo[id].service);
      MakeRoom(id, nKBucket, nKBucketPos);
      assert vvTried[nKBucket, nKBucketPos] == -1;
      EnterTried(id, nKBucket, nKBucketPos);
    }

    /** The loop of `Good_`: some bucket the entry is in, from a random start, or -1 if there is none. */
    method FindBucket(id: int, service: Service, nRnd: nat) returns (bucket: int)
      requires Shaped() && id != -1 && PlacedAt(h, Occupied(vvNew), service, id)
      ensures bucket == -1 <==> Slots(Occupied(vvNew), id) == {}
      ensures bucket != -1 ==> exists s | s in Slots(Occupied(vvNew), id) :: s.0 == bucket
    {
      bucket := -1;
      for n := 0 to NEW_BUCKET_COUNT
        invariant forall t: nat | nRnd <= t < nRnd + n :: !Here(id, service, t)
      {
        var nB := (n + nRnd) % NEW_BUCKET_COUNT;
        if vvNew[nB, h.Position(true, nB, service)] == id {
          assert (nB, h.Position(true, nB, service)) in Slots(Occupied(vvNew), id);
          return nB;
        }
      }
      forall s: Slot ensures s !in Slots(Occupied(vvNew), id) {
        if 0 <= s.0 < NEW_BUCKET_COUNT {
          var m := (s.0 - nRnd) % NEW_BUCKET_COUNT;
          assert (m + nRnd) % NEW_BUCKET_COUNT == s.0;
          assert !Here(id, service, m + nRnd);
        }
      }
    }

    /** Whether the entry is in the bucket that turn `turn` looks at. */
    ghost predicate Here(id: int, service: Service, turn: nat)
      requires Shaped()
      reads this, vvNew
    {
      var bucket := turn % NEW_BUCKET_COUNT;
      vvNew[bucket, h.Position(true, bucket, service)] == id
    }

    method Good(service: Service, nTime: int, nRnd: nat)
      requires Valid()
      modifies this, vvNew, vvTried
      ensures Contents() == AddrOps.Good(h, old(Contents()), service, nTime)
    {
      ghost var b := Contents();
      nLastGood := nTime;
      if service.ip !in mapAddr {
        return;
      }
      var id := mapAddr[service.ip];
      if mapInfo[id].service != service {
        return;
      }
      var stats := mapInfo[id].stats.(nLastSuccess := nTime, nLastTry := nTime, nAttempts := 0);
      mapInfo := mapInfo[id := mapInfo[id].(stats := stats)];
      assert Contents() == Noted(b, service, nTime);
      NotedKeeps(h, b, service, nTime);
      if mapInfo[id].fInTried {
        return;
      }
      Placed(h, mapInfo, Occupied(vvNew), id);
      NewIsSomewhere(h, Contents(), id);
      var nUBucket := FindBucket(id, service, nRnd);
      if nUBucket == -1 {
        return;
      }
      MakeTried(id);
    }

    method Refer(id: int, bucket: nat, pos: nat)
      requires Shaped() && bucket < NEW_BUCKET_COUNT && pos < BUCKET_SIZE && id in mapInfo && id != -1
      modifies this, vvNew
      ensures Contents() == PutSlot(old(Contents()), (bucket, pos), id)
    {
      mapInfo := mapInfo[id := mapInfo[id].(nRefCount := mapInfo[id].nRefCount + 1)];
      Write(vvNew, bucket, pos, id);
    }

    /** The last part of `Add_`. */
    method Insert(id: int, source: int, now: int)
      requires Shaped() && id in mapInfo && 0 <= id && !mapInfo[id].fInTried
      requires NewOk(h, mapInfo, Occupied(vvNew)) && RandomOk(mapInfo, vRandom)
      modifies this, vvNew
      ensures Contents() == AddrOps.Insert(h, old(Contents()), id, source, now)
    {
      ghost var b := Contents();
      var nUBucket := h.NewBucket(mapInfo[id].service, source);
      var nUBucketPos := h.Position(true, nUBucket, mapInfo[id].service);
      ghost var s: Slot := (nUBucket, nUBucketPos);
      CanClear(h, b, s);
      assert s in b.newTable <==> vvNew[nUBucket, nUBucketPos] != -1;
      if vvNew[nUBucket, nUBucketPos] != id {
        var fInsert := vvNew[nUBucket, nUBucketPos] == -1;
        if !fInsert {
          var existing := mapInfo[vvNew[nUBucket, nUBucketPos]];
          if existing.stats.IsTerrible(now) || (existing.nRefCount > 1 && mapInfo[id].nRefCount == 0) {
            fInsert := true;
          }
        }
        if fInsert {
          ClearFrame(b, s);
          ClearNew(nUBucket, nUBucketPos);
          Refer(id, nUBucket, nUBucketPos);
        } else if mapInfo[id].nRefCount == 0 {
          Delete(id);
        }
      }
    }

    method Refresh(id: int, a: Address, penalty: int, now: int)
      requires id in mapInfo
      modifies this
      ensures Contents() == WithInfo(old(Contents()), id, Refreshed(old(mapInfo[id]), a, penalty, now))
    {
      var info := mapInfo[id].stats;
      var fCurrentlyOnline := now - a.nTime < 24 * 60 * 60;
      var interval := if fCurrentlyOnline then 60 * 60 else 24 * 60 * 60;
      if a.nTime != 0 && (info.nTime == 0 || info.nTime < a.nTime - interval - penalty) {
        info := info.(nTime := Max(0, a.nTime - penalty));
      }
      info := info.(nServices := info.nServices + a.nServices);
      mapInfo := mapInfo[id := mapInfo[id].(stats := info)];
    }

    method Introduce(a: Address, source: int, penalty: int) returns (id: int)
      modifies this
      ensures Contents() == Introduced(old(Contents()), a, source, penalty) && id == old(nIdCount)
    {
      id := Create(a, source);
      var stats := mapInfo[id].stats;
      mapInfo := mapInfo[id := mapInfo[id].(stats := stats.(nTime := Max(0, stats.nTime - penalty)))];
      nNew := nNew + 1;
    }

    method Add(a: Address, routable: bool, source: int, penalty: int, now: int, roll: nat) returns (fNew: bool)
      requires Valid()
      modifies this, vvNew
      ensures (Contents(), fNew) == AddrOps.Add(h, old(Contents()), a, routable, source, penalty, now, roll)
    {
      ghost var b := Contents();
      if !routable {
        return false;
      }
      var id: int;
      if a.service.ip in mapAddr {
        fNew := false;
        id := mapAddr[a.service.ip];
        KnownReady(h, b, id, a, penalty, now);
        Refresh(id, a, penalty, now);
        var info := mapInfo[id];
        if a.nTime == 0 || (info.stats.nTime != 0 && a.nTime <= info.stats.nTime) {
          return;
        }
        if info.fInTried {
          return;
        }
        if info.nRefCount == NEW_BUCKETS_PER_ADDRESS {
          return;
        }
        var nFactor := ComputeFactor(info.nRefCount);
        if nFactor > 1 && roll % nFactor != 0 {
          return;
        }
      } else {
        NewcomerReady(h, b, a, source, penalty);
        id := Introduce(a, source, penalty);
        fNew := true;
      }
      Insert(id, source, now);
    }

    method Create(a: Address, source: int) returns (id: int)
      modifies this
      ensures Contents() == AddrBook.Create(old(Contents()), a, source) && id == old(nIdCount)
    {
      id := nIdCount;
      nIdCount := nIdCount + 1;
      mapInfo := mapInfo[id := Info(a.service, Stats(a.nServices, a.nTime, source, 0, 0, 0, 0), 0, false, -1)];
      mapAddr := mapAddr[a.service.ip := id];
      mapInfo := mapInfo[id := mapInfo[id].(nRandomPos := |vRandom|)];
      vRandom := vRandom + [id];
    }

    method Attempt(service: Service, countFailure: bool, nTime: int)
      requires AddrOk(mapInfo, mapAddr)
      modifies this
      ensures Contents() == AddrOps.Attempt(old(Contents()), service, countFailure, nTime)
    {
      if service.ip !in mapAddr || mapInfo[mapAddr[service.ip]].service != service {
        return;
      }
      var id := mapAddr[service.ip];
      var stats := mapInfo[id].stats.(nLastTry := nTime);
      if countFailure && stats.nLastCountAttempt < nLastGood {
        stats := stats.(nLastCountAttempt := nTime, nAttempts := stats.nAttempts + 1);
      }
      mapInfo := mapInfo[id := mapInfo[id].(stats := stats)];
    }

    method Connected(service: Service, nTime: int)
      requires AddrOk(mapInfo, mapAddr)
      modifies this
      ensures Contents() == AddrOps.Connected(old(Contents()), service, nTime)
    {
      if service.ip !in mapAddr || mapInfo[mapAddr[service.ip]].service != service {
        return;
      }
      var id := mapAddr[service.ip];
      if nTime - mapInfo[id].stats.nTime > 20 * 60 {
        mapInfo := mapInfo[id := mapInfo[id].(stats := mapInfo[id].stats.(nTime := nTime))];
      }
    }

    method SetServices(service: Service, nServices: set<nat>)
      requires AddrOk(mapInfo, mapAddr)
      modifies this
      ensures Contents() == AddrOps.SetServices(old(Contents()), service, nServices)
    {
      if service.ip !in mapAddr || mapInfo[mapAddr[service.ip]].service != service {
        return;
      }
      var id := mapAddr[service.ip];
      mapInfo := mapInfo[id := mapInfo[id].(stats := mapInfo[id].stats.(nServices := nServices))];
    }

    /** Shuffles `vRandom` and hands out a quota of good addresses. */
    method GetAddr(rnd: nat -> nat, now: int) returns (vAddr: seq<Address>)
      requires RandomOk(mapInfo, vRandom)
      modifies this
      ensures var (b, ids) := Gather(old(Contents()), rnd, now, 0, Quota(old(Contents())), []);
        && Contents() == b && HandedOut(old(Contents()), now, Quota(old(Contents())), ids)
        && Addresses(old(mapInfo), ids, vAddr)
    {
      hide Turn, Collect, SameButPlaces, Addresses, RandomOk, HandedOut, Occupied, Quota, Gather;
      ghost var b := Contents();
      ghost var ids: seq<int> := [];
      NoAddresses(b.info);
      GatherAll(b, rnd, now, Quota(b));
      var quota := AddrQuota();
      vAddr := [];
      var n := 0;
      while n < |vRandom| && |vAddr| < quota
        invariant n <= |vRandom| == |b.random| && RandomOk(mapInfo, vRandom) && SameButPlaces(b.info, mapInfo)
        invariant |ids| == |vAddr| <= quota && Addresses(b.info, ids, vAddr)
        invariant Gather(Contents(), rnd, now, n, quota, ids) == Gather(b, rnd, now, 0, quota, [])
        decreases |b.random| - n
      {
        GatherNext(Contents(), rnd, now, n, quota, ids);
        vAddr, ids := Harvest(rnd, now, n, vAddr, b.info, ids);
        n := n + 1;
      }
      GatherEnd(Contents(), rnd, now, n, quota, ids);
    }

    method AddrQuota() returns (quota: nat)
      ensures quota == Quota(Contents())
    {
      quota := GETADDR_MAX_PCT * |vRandom| / 100;
      if quota > GETADDR_MAX {
        quota := GETADDR_MAX;
      }
    }

    /** One turn: a random entry comes to place n, and is handed out unless it is terrible. */
    method Harvest(rnd: nat -> nat, now: int, n: nat, vAddr: seq<Address>, ghost info: map<int, Info>, ghost ids: seq<int>)
      returns (more: seq<Address>, ghost moreIds: seq<int>)
      requires n < |vRandom| && RandomOk(mapInfo, vRandom)
      requires SameButPlaces(info, mapInfo) && Addresses(info, ids, vAddr)
      modifies this
      ensures RandomOk(mapInfo, vRandom) && Contents() == Turn(old(Contents()), rnd, n)
      ensures |vRandom| == old(|vRandom|) && SameButPlaces(info, mapInfo)
      ensures moreIds == Collect(Contents(), now, n, ids) && Addresses(info, moreIds, more)
      ensures |moreIds| == |more| <= |vAddr| + 1
    {
      Shuffle(rnd, n);
      assert vRandom[n] in mapInfo;
      var ai := mapInfo[vRandom[n]];
      CollectAddress(info, Contents(), now, n, ids, vAddr);
      moreIds := Collect(Contents(), now, n, ids);
      more := vAddr;
      if !ai.stats.IsTerrible(now) {
        more := more + [AddressOf(ai)];
      }
    }

    method Shuffle(rnd: nat -> nat, n: nat)
      requires n < |vRandom| && RandomOk(mapInfo, vRandom)
      modifies this
      ensures Contents() == Turn(old(Contents()), rnd, n)
      ensures SameButPlaces(old(mapInfo), mapInfo)
    {
      SwapMoves(Contents(), n, Draw(rnd, n, |vRandom|));
      SwapRandom(n, Draw(rnd, n, |vRandom|));
    }
  }

  ghost predicate Addresses(info: map<int, Info>, ids: seq<int>, vAddr: seq<Address>) {
    |vAddr| == |ids| && forall i | 0 <= i < |ids| :: ids[i] in info && vAddr[i] == AddressOf(info[ids[i]])
  }

  lemma NoAddresses(info: map<int, Info>)
    ensures Addresses(info, [], []) && SameButPlaces(info, info)
  {
  }

  lemma CollectAddress(info: map<int, Info>, b: Book, now: int, n: nat, ids: seq<int>, vAddr: seq<Address>)
    requires RandomOk(b.info, b.random) && n < |b.random| && SameButPlaces(info, b.info) && Addresses(info, ids, vAddr)
    ensures var e := b.info[b.random[n]];
      Addresses(info, Collect(b, now, n, ids), if e.stats.IsTerrible(now) then vAddr else vAddr + [AddressOf(e)])
  {
    var id := b.random[n];
    assert id in info.Keys && b.info[id] == info[id].(nRandomPos := b.info[id].nRandomPos);
    assert AddressOf(b.info[id]) == AddressOf(info[id]);
    var more := Collect(b, now, n, ids);
    forall i | 0 <= i < |more| ensures more[i] in info {
      assert i < |ids| ==> ids[i] in info;
    }
  }

  lemma GatherAll(b: Book, rnd: nat -> nat, now: int, quota: nat)
    requires RandomOk(b.info, b.random)
    ensures HandedOut(b, now, quota, Gather(b, rnd, now, 0, quota, []).1)
  {
    GatherResult(b, rnd, now, 0, quota, []);
  }

  lemma KnownReady(h: Hasher, b: Book, id: int, a: Address, penalty: int, now: int)
    requires Almost(h, b, {}, 0) && id in b.info
    ensures var w := WithInfo(b, id, Refreshed(b.info[id], a, penalty, now));
      NewOk(h, w.info, w.newTable) && RandomOk(w.info, w.random) && 0 <= id
  {
    RefreshedKeeps(h, b, id, a, penalty, now);
  }

  lemma NewcomerReady(h: Hasher, b: Book, a: Address, source: int, penalty: int)
    requires Almost(h, b, {}, 0) && a.service.ip !in b.addr
    ensures var w := Introduced(b, a, source, penalty);
      NewOk(h, w.info, w.newTable) && RandomOk(w.info, w.random) && 0 <= b.nIdCount
  {
    IntroducedKeeps(h, b, a, source, penalty);
  }

  function AddressOf(e: Info): Address {
    Address(e.service, e.stats.nServices, e.stats.nTime)
  }

  method ComputeFactor(refs: int) returns (nFactor: nat)
    ensures nFactor == Factor(refs)
  {
    nFactor := 1;
    var n := 0;
    while n < refs
      invariant 0 <= n <= Max(refs, 0)
      invariant nFactor == Factor(n)
    {
      nFactor := nFactor * 2;
      n := n + 1;
    }
  }

  lemma NewIsSomewhere(h: Hasher, b: Book, id: int)
    requires Almost(h, b, {}, 0) && id in b.info && !b.info[id].fInTried
    ensures Slots(b.newTable, id) != {} && 0 <= id
  {
    assert EntryOk(b.info[id], id in {});
  }

  lemma CanEvict(h: Hasher, b: Book, s: Slot, idle: set<int>, missing: int)
    requires Almost(h, b, idle, missing) && s in b.triedTable
    ensures Evictable(h, b, s)
  {
    EvictKeeps(h, b, s, idle, missing);
  }

  lemma CanMove(h: Hasher, b: Book, id: int)
    requires Almost(h, b, {}, 0) && id in b.info && !b.info[id].fInTried
    ensures Movable(h, b, id)
  {
    MakeTriedKeeps(h, b, id);
  }

  lemma EvictFrees(h: Hasher, b: Book, s: Slot, id: int)
    requires Almost(h, b, {id}, 1) && Evictable(h, b, s) && id in b.info
    ensures var r := Evict(h, b, s); s !in r.triedTable && id in r.info && r.info[id].service == b.info[id].service
  {
    EvictKeeps(h, b, s, {id}, 1);
  }

  /** Every slot of `id` is in a bucket of the table, at the position of `service` there. */
  ghost predicate PlacedAt(h: Hasher, table: map<Slot, int>, service: Service, id: int) {
    forall s | s in Slots(table, id) :: 0 <= s.0 < NEW_BUCKET_COUNT && s.1 == h.Position(true, s.0, service)
  }

  lemma Placed(h: Hasher, info: map<int, Info>, table: map<Slot, int>, id: int)
    requires NewOk(h, info, table) && id in info
    ensures PlacedAt(h, table, info[id].service, id) && info[id].nRefCount == |Slots(table, id)|
  {
  }

  /** Visits every bucket once and frees the entry's slot there, if it has one; that frees all its slots. */
  method EraseAll(h: Hasher, a: array2<int>, service: Service, id: int) returns (hits: nat)
    requires a.Length0 == NEW_BUCKET_COUNT && a.Length1 == BUCKET_SIZE && id != -1
    requires PlacedAt(h, Occupied(a), service, id)
    modifies a
    ensures Occupied(a) == old(Occupied(a)) - Slots(old(Occupied(a)), id)
    ensures hits == |Slots(old(Occupied(a)), id)|
  {
    ghost var table := Occupied(a);
    hits := 0;
    for bucket := 0 to NEW_BUCKET_COUNT
      invariant Occupied(a) == table - SlotsBelow(table, id, bucket)
      invariant hits == |SlotsBelow(table, id, bucket)|
    {
      ghost var below, s := SlotsBelow(table, id, bucket), (bucket, h.Position(true, bucket, service));
      BelowStep(h, table, service, id, bucket);
      var hit := Erase(a, bucket, h.Position(true, bucket, service), id);
      if hit {
        hits := hits + 1;
        MinusStep(table, below, s);
      }
    }
    assert SlotsBelow(table, id, NEW_BUCKET_COUNT) == Slots(table, id);
  }

  lemma MinusStep(table: map<Slot, int>, below: set<Slot>, s: Slot)
    ensures table - below - {s} == table - (below + {s})
  {
  }

  ghost function SlotsBelow(table: map<Slot, int>, id: int, bucket: int): set<Slot> {
    set s | s in Slots(table, id) && s.0 < bucket
  }

  /** An entry has at most one slot in a bucket, at its position there. */
  lemma BelowStep(h: Hasher, table: map<Slot, int>, service: Service, id: int, bucket: nat)
    requires PlacedAt(h, table, service, id)
    ensures var s := (bucket, h.Position(true, bucket, service));
      && s !in SlotsBelow(table, id, bucket)
      && SlotsBelow(table, id, bucket + 1)
         == SlotsBelow(table, id, bucket) + (if s in table && table[s] == id then {s} else {})
  {
  }
}

/**
 Which saved files give a consistent address manager, told from the records and the bucket lists of the file alone:
 which records are stored, which of them get a place, and what those must be like.
 */
module AddrRecords {
  import opened AddrBook
  import opened AddrFile
  import opened AddrLoad
  import opened AddrAccept

  // ---------- On the file ----------

  /** The counts are not negative, and the records and bucket lists are all there. */
  predicate Whole(f: File) {
    Complete(f) && 0 <= f.nNew && 0 <= f.nTried
  }

  function TriedPlace(f: File, n: nat): Slot
    requires n < |f.triedEntries|
  {
    f.key.TriedSlot(f.triedEntries[n].service)
  }

  /** The slot that a new record gets from its own source. */
  function OwnPlace(f: File, n: nat): Slot
    requires n < |f.newEntries|
  {
    f.key.NewSlot(f.newEntries[n].service, f.newEntries[n].source)
  }

  /** No tried record before this one has the same slot. */
  predicate FirstTried(f: File, n: nat)
    requires n < |f.triedEntries|
  {
    forall k: nat | k < n :: TriedPlace(f, k) != TriedPlace(f, n)
  }

  /** The slot of a record in a bucket. */
  function SlotIn(f: File, bucket: int, i: int): Slot
    requires 0 <= i < |f.newEntries|
  {
    (bucket, f.key.Position(true, bucket, f.newEntries[i].service))
  }

  /** One index of a bucket list: a free slot goes to the record, unless that has eight places already. */
  function Place(f: File, table: map<Slot, int>, bucket: int, i: int): map<Slot, int>
    requires f.nNew <= |f.newEntries|
  {
    if 0 <= i < f.nNew then
      var s := SlotIn(f, bucket, i);
      if s !in table && |Slots(table, i)| < NEW_BUCKETS_PER_ADDRESS then table[s := i] else table
    else table
  }

  function PlaceList(f: File, table: map<Slot, int>, bucket: int, list: seq<int>): map<Slot, int>
    requires f.nNew <= |f.newEntries|
  {
    if list == [] then table
    else Place(f, PlaceList(f, table, bucket, list[..|list| - 1]), bucket, list[|list| - 1])
  }

  /** The first n bucket lists, first come, first served. */
  function PlaceLists(f: File, n: nat): map<Slot, int>
    requires f.nNew <= |f.newEntries| && n <= |f.buckets|
  {
    if n == 0 then map[] else PlaceList(f, PlaceLists(f, n - 1), n - 1, f.buckets[n - 1])
  }

  /**
   A new record gets a place: one from the bucket lists where those can be used, and otherwise its own slot, if no
   record before it has the same.
   */
  predicate KeptNew(f: File, i: nat)
    requires Whole(f) && i < f.nNew
  {
    if Usable(f) then Slots(PlaceLists(f, NEW_BUCKET_COUNT), i) != {}
    else forall k: nat | k < i :: OwnPlace(f, k) != OwnPlace(f, i)
  }

  /** No other record that is stored has the address. */
  predicate SoleAddress(f: File, ip: int, isNew: bool, n: nat)
    requires Whole(f)
  {
    && (forall j: nat | j < f.nNew && !(isNew && j == n) :: f.newEntries[j].service.ip != ip)
    && (forall k: nat | k < f.nTried && !(!isNew && k == n) && FirstTried(f, k) :: f.triedEntries[k].service.ip != ip)
  }

  predicate SoleNew(f: File, i: nat)
    requires Whole(f) && i < f.nNew
  {
    SoleAddress(f, f.newEntries[i].service.ip, true, i)
  }

  predicate SoleTried(f: File, n: nat)
    requires Whole(f) && n < f.nTried
  {
    SoleAddress(f, f.triedEntries[n].service.ip, false, n)
  }

  /** A new record without a place has the address of the first one. */
  predicate FirstShared(f: File)
    requires Whole(f) && 0 < f.nNew
  {
    exists j: nat | j < f.nNew :: !KeptNew(f, j) && f.newEntries[j].service.ip == f.newEntries[0].service.ip
  }

  /**
   No record that is kept shares its address with another record that is stored. `lenient` lets the first new record
   share it with new records without a place.
   */
  predicate OwnAddresses(f: File, lenient: bool)
    requires Whole(f)
  {
    && (forall i: nat | i < f.nNew && KeptNew(f, i) :: SoleNew(f, i) || (lenient && i == 0 && FirstShared(f)))
    && (forall n: nat | n < f.nTried && FirstTried(f, n) :: SoleTried(f, n))
  }

  /** The last success is not negative in new records with a place, and positive in tried records that are stored. */
  predicate TimesInOrder(f: File)
    requires Whole(f)
  {
    && (forall i: nat | i < f.nNew && KeptNew(f, i) :: f.newEntries[i].nLastSuccess >= 0)
    && (forall n: nat | n < f.nTried && FirstTried(f, n) :: f.triedEntries[n].nLastSuccess > 0)
  }

  // ---------- What the first-come rule gives ----------

  /** Every place is one that the lists name, at the position of its record. */
  ghost predicate Warranted(f: File, table: map<Slot, int>, lists: seq<seq<int>>)
    requires f.nNew <= |f.newEntries|
  {
    forall s | s in table ::
      0 <= s.0 < |lists| && 0 <= table[s] < f.nNew && table[s] in lists[s.0] && s == SlotIn(f, s.0, table[s])
  }

  ghost predicate AtMostEight(table: map<Slot, int>) {
    forall i :: |Slots(table, i)| <= NEW_BUCKETS_PER_ADDRESS
  }

  /** A record named for a bucket finds its slot there taken, or has its eight places. */
  ghost predicate Served(f: File, table: map<Slot, int>, lists: seq<seq<int>>)
    requires f.nNew <= |f.newEntries|
  {
    forall k, i | 0 <= k < |lists| && i in lists[k] && 0 <= i < f.nNew ::
      SlotIn(f, k, i) in table || |Slots(table, i)| == NEW_BUCKETS_PER_ADDRESS
  }

  ghost predicate Fair(f: File, table: map<Slot, int>, lists: seq<seq<int>>)
    requires f.nNew <= |f.newEntries|
  {
    Warranted(f, table, lists) && AtMostEight(table) && Served(f, table, lists)
  }

  /** A place more for one record at most, and only below the limit. */
  lemma PlaceSlots(f: File, table: map<Slot, int>, bucket: int, i: int, j: int)
    requires f.nNew <= |f.newEntries|
    ensures |Slots(table, j)| <= |Slots(Place(f, table, bucket, i), j)|
    ensures |Slots(table, j)| <= NEW_BUCKETS_PER_ADDRESS ==>
      |Slots(Place(f, table, bucket, i), j)| <= NEW_BUCKETS_PER_ADDRESS
  {
    hide Slots;
    if 0 <= i < f.nNew && SlotIn(f, bucket, i) !in table {
      SlotsWith(table, SlotIn(f, bucket, i), i, j);
    }
  }

  lemma MoreListed(lists: seq<seq<int>>, list: seq<int>, i: int, k: nat, j: int)
    requires k <= |lists|
    ensures j in (lists + [list + [i]])[k] <==> j in (lists + [list])[k] || (k == |lists| && j == i)
  {
  }

  lemma PlaceWarranted(f: File, table: map<Slot, int>, lists: seq<seq<int>>, list: seq<int>, i: int)
    requires f.nNew <= |f.newEntries| && Warranted(f, table, lists + [list])
    ensures Warranted(f, Place(f, table, |lists|, i), lists + [list + [i]])
  {
    var t, all := Place(f, table, |lists|, i), lists + [list + [i]];
    hide Slots;
    forall s | s in t
      ensures 0 <= s.0 < |all| && 0 <= t[s] < f.nNew && t[s] in all[s.0] && s == SlotIn(f, s.0, t[s])
    {
      MoreListed(lists, list, i, s.0, t[s]);
    }
  }

  lemma PlaceServed(f: File, table: map<Slot, int>, lists: seq<seq<int>>, list: seq<int>, i: int)
    requires f.nNew <= |f.newEntries| && AtMostEight(table) && Served(f, table, lists + [list])
    ensures Served(f, Place(f, table, |lists|, i), lists + [list + [i]])
  {
    var t, all := Place(f, table, |lists|, i), lists + [list + [i]];
    hide Slots;
    forall k, j | 0 <= k < |all| && j in all[k] && 0 <= j < f.nNew
      ensures SlotIn(f, k, j) in t || |Slots(t, j)| == NEW_BUCKETS_PER_ADDRESS
    {
      MoreListed(lists, list, i, k, j);
      PlaceSlots(f, table, |lists|, i, j);
    }
  }

  lemma PlaceFair(f: File, table: map<Slot, int>, lists: seq<seq<int>>, list: seq<int>, i: int)
    requires f.nNew <= |f.newEntries| && Fair(f, table, lists + [list])
    ensures Fair(f, Place(f, table, |lists|, i), lists + [list + [i]])
  {
    hide Warranted, Served, Place, Slots;
    PlaceWarranted(f, table, lists, list, i);
    PlaceServed(f, table, lists, list, i);
    forall j
      ensures |Slots(Place(f, table, |lists|, i), j)| <= NEW_BUCKETS_PER_ADDRESS
    {
      PlaceSlots(f, table, |lists|, i, j);
    }
  }

  lemma {:induction false} ListFair(f: File, table: map<Slot, int>, lists: seq<seq<int>>, list: seq<int>)
    requires f.nNew <= |f.newEntries| && Fair(f, table, lists)
    ensures Fair(f, PlaceList(f, table, |lists|, list), lists + [list])
  {
    if list == [] {
    } else {
      var n := |list| - 1;
      ListFair(f, table, lists, list[..n]);
      hide Fair, Place;
      PlaceFair(f, PlaceList(f, table, |lists|, list[..n]), lists, list[..n], list[n]);
      assert list[..n] + [list[n]] == list;
    }
  }

  /**
   The table that the bucket lists give: every place is one that they name, no record has more than eight, and a record
   is passed over only for a slot that is taken or when it has its eight.
   */
  lemma {:induction false} ListsFair(f: File, n: nat)
    requires f.nNew <= |f.newEntries| && n <= |f.buckets|
    ensures Fair(f, PlaceLists(f, n), f.buckets[..n])
  {
    if n > 0 {
      ListsFair(f, n - 1);
      hide Fair, PlaceList;
      ListFair(f, PlaceLists(f, n - 1), f.buckets[..n - 1], f.buckets[n - 1]);
      assert f.buckets[..n - 1] + [f.buckets[n - 1]] == f.buckets[..n];
    }
  }

  /** A record is lost exactly when every slot the lists name for it is another record's. */
  lemma LostExactly(f: File, i: nat)
    requires Whole(f) && Usable(f) && i < f.nNew
    ensures var table := PlaceLists(f, NEW_BUCKET_COUNT);
      !KeptNew(f, i) <==> forall k: nat | k < NEW_BUCKET_COUNT && i in f.buckets[k] ::
        SlotIn(f, k, i) in table && table[SlotIn(f, k, i)] != i
  {
    ListsFair(f, NEW_BUCKET_COUNT);
    var table, lists := PlaceLists(f, NEW_BUCKET_COUNT), f.buckets[..NEW_BUCKET_COUNT];
    hide PlaceLists;
    if KeptNew(f, i) {
      var s :| s in Slots(table, i);
      assert i in lists[s.0] && s == SlotIn(f, s.0, i);
    } else {
      forall k: nat | k < NEW_BUCKET_COUNT && i in f.buckets[k]
        ensures SlotIn(f, k, i) in table && table[SlotIn(f, k, i)] != i
      {
        assert i in lists[k];
        assert SlotIn(f, k, i) !in Slots(table, i);
      }
    }
  }

  // ---------- New records ----------

  /** The entry is the record as it is read, up to references and place in `vRandom`. */
  ghost predicate Same(e: Info, r: Record, tried: bool) {
    e == Reload(r, e.nRefCount, tried, e.nRandomPos)
  }

  ghost predicate NewHeld(f: File, c: Book, n: nat)
    requires n <= |f.newEntries|
  {
    forall i: nat | i < n :: i in c.info && Same(c.info[i], f.newEntries[i], false)
  }

  /** Own slots, first come, first served. */
  function FirstCome(f: File, n: nat): map<Slot, int>
    requires n <= |f.newEntries|
  {
    if n == 0 then map[]
    else
      var t, s := FirstCome(f, n - 1), OwnPlace(f, n - 1);
      if s in t then t else t[s := n - 1]
  }

  lemma WithNewHeld(f: File, c: Book, n: nat)
    requires n < |f.newEntries| && NewHeld(f, c, n)
    ensures var d, s := WithNew(f, c, n), OwnPlace(f, n);
      && NewHeld(f, d, n + 1) && d.triedTable == c.triedTable
      && d.newTable == if Usable(f) || s in c.newTable then c.newTable else c.newTable[s := n]
  {
  }

  lemma {:induction false} NewHeldAll(f: File, n: nat)
    requires n <= |f.newEntries|
    ensures var c := LoadNew(f, n);
      NewHeld(f, c, n) && c.triedTable == map[] && c.newTable == if Usable(f) then map[] else FirstCome(f, n)
  {
    if n > 0 {
      NewHeldAll(f, n - 1);
      var c := LoadNew(f, n - 1);
      WithNewHeld(f, c, n - 1);
      hide WithNew, NewHeld, OwnPlace;
    }
  }

  lemma {:induction false} FirstComeAt(f: File, n: nat, s: Slot)
    requires n <= |f.newEntries|
    ensures s in FirstCome(f, n) <==> exists k: nat | k < n :: OwnPlace(f, k) == s
    ensures s in FirstCome(f, n) ==>
      var i := FirstCome(f, n)[s];
      0 <= i < n && OwnPlace(f, i) == s && forall k: nat | k < i :: OwnPlace(f, k) != s
  {
    if n > 0 {
      FirstComeAt(f, n - 1, s);
    }
  }

  /** A record has its own slot exactly when no record before it has the same. */
  lemma FirstComeKept(f: File, n: nat, i: nat)
    requires i < n <= |f.newEntries|
    ensures Slots(FirstCome(f, n), i) != {} <==> forall k: nat | k < i :: OwnPlace(f, k) != OwnPlace(f, i)
  {
    var t, own := FirstCome(f, n), OwnPlace(f, i);
    forall s
      ensures s in Slots(t, i) <==> s == own && forall k: nat | k < i :: OwnPlace(f, k) != own
    {
      FirstComeAt(f, n, s);
    }
    assert own in Slots(t, i) || Slots(t, i) == {};
  }

  // ---------- Tried records ----------

  /** The number of tried records stored among the first n; a stored record n gets id `nNew` plus this number. */
  function StoredBefore(f: File, n: nat): nat
    requires n <= |f.triedEntries|
  {
    if n == 0 then 0 else StoredBefore(f, n - 1) + if FirstTried(f, n - 1) then 1 else 0
  }

  function TriedId(f: File, n: nat): int
    requires n < |f.triedEntries|
  {
    f.nNew + StoredBefore(f, n)
  }

  lemma {:induction false} StoredGrows(f: File, k: nat, n: nat)
    requires k < n <= |f.triedEntries|
    ensures StoredBefore(f, k) + (if FirstTried(f, k) then 1 else 0) <= StoredBefore(f, n)
  {
    hide FirstTried;
    if k < n - 1 {
      StoredGrows(f, k, n - 1);
    }
  }

  /** Different stored records have different ids. */
  lemma TriedIdsDiffer(f: File, k: nat, n: nat)
    requires k < |f.triedEntries| && n < |f.triedEntries| && k != n && FirstTried(f, k) && FirstTried(f, n)
    ensures TriedId(f, k) != TriedId(f, n)
  {
    hide FirstTried;
    if k < n {
      StoredGrows(f, k, n);
    } else {
      StoredGrows(f, n, k);
    }
  }

  /** The record that a number belongs to. */
  lemma {:induction false} TriedOf(f: File, n: nat, m: nat) returns (k: nat)
    requires n <= |f.triedEntries| && m < StoredBefore(f, n)
    ensures k < n && FirstTried(f, k) && StoredBefore(f, k) == m
  {
    hide FirstTried;
    if m < StoredBefore(f, n - 1) {
      k := TriedOf(f, n - 1, m);
    } else {
      k := n - 1;
    }
  }

  ghost predicate TriedHeld(f: File, c: Book, n: nat)
    requires n <= |f.triedEntries|
  {
    && c.nIdCount == f.nNew + StoredBefore(f, n)
    && forall k: nat | k < n && FirstTried(f, k) :: HeldAs(f, c, k)
  }

  ghost predicate HeldAs(f: File, c: Book, k: nat)
    requires k < |f.triedEntries|
  {
    TriedId(f, k) in c.info && Same(c.info[TriedId(f, k)], f.triedEntries[k], true)
  }

  /** A slot of the tried table is taken exactly when a record read so far has it. */
  ghost predicate TriedTaken(f: File, c: Book, n: nat)
    requires n <= |f.triedEntries|
  {
    forall s :: s in c.triedTable <==> exists k: nat | k < n :: TriedPlace(f, k) == s
  }

  lemma TakenNext(f: File, c: Book, n: nat)
    requires n < |f.triedEntries| && TriedTaken(f, c, n) && 0 <= c.nIdCount
    ensures TriedPlace(f, n) in c.triedTable <==> !FirstTried(f, n)
    ensures TriedTaken(f, if FirstTried(f, n) then WithTried(c, f.triedEntries[n], TriedPlace(f, n))
                          else c.(nTried := c.nTried - 1), n + 1)
  {
    var place := TriedPlace(f, n);
    hide TriedPlace;
    assert place in c.triedTable <==> exists k: nat | k < n :: TriedPlace(f, k) == place;
  }

  lemma HeldNext(f: File, c: Book, n: nat, k: nat)
    requires n < |f.triedEntries| && 0 <= f.nNew && TriedHeld(f, c, n) && FirstTried(f, n)
    requires k <= n && FirstTried(f, k)
    ensures HeldAs(f, WithTried(c, f.triedEntries[n], TriedPlace(f, n)), k)
  {
    hide FirstTried, StoredBefore;
    if k < n {
      assert HeldAs(f, c, k);
      StoredGrows(f, k, n);
    }
  }

  lemma NewHeldNext(f: File, c: Book, r: Record, s: Slot)
    requires 0 <= f.nNew <= |f.newEntries| && NewHeld(f, c, f.nNew) && f.nNew <= c.nIdCount
    ensures NewHeld(f, WithTried(c, r, s), f.nNew)
  {
  }

  /** Everything read so far is held. */
  ghost predicate SoFar(f: File, c: Book, n: nat)
    requires 0 <= f.nNew <= |f.newEntries| && n <= |f.triedEntries|
  {
    TriedHeld(f, c, n) && TriedTaken(f, c, n) && NewHeld(f, c, f.nNew)
  }

  /** The manager after one more tried record. */
  function NextTried(f: File, c: Book, n: nat): Book
    requires n < |f.triedEntries|
  {
    if TriedPlace(f, n) in c.triedTable then c.(nTried := c.nTried - 1)
    else WithTried(c, f.triedEntries[n], TriedPlace(f, n))
  }

  lemma SoFarNext(f: File, c: Book, n: nat)
    requires 0 <= f.nNew <= |f.newEntries| && n < |f.triedEntries| && SoFar(f, c, n)
    ensures TriedPlace(f, n) in c.triedTable <==> !FirstTried(f, n)
    ensures SoFar(f, NextTried(f, c, n), n + 1) && NextTried(f, c, n).newTable == c.newTable
  {
    hide FirstTried, HeldAs, NewHeld, TriedTaken;
    TakenNext(f, c, n);
    if FirstTried(f, n) {
      var r, s := f.triedEntries[n], TriedPlace(f, n);
      NewHeldNext(f, c, r, s);
      forall k: nat | k < n + 1 && FirstTried(f, k)
        ensures HeldAs(f, WithTried(c, r, s), k)
      {
        HeldNext(f, c, n, k);
      }
    } else {
      OneFewer(f, c, n);
    }
  }

  lemma {:induction false} TriedHeldAll(f: File, b: Book, n: nat)
    requires 0 <= f.nNew <= |f.newEntries| && n <= |f.triedEntries| && NewHeld(f, b, f.nNew) && b.triedTable == map[]
    ensures SoFar(f, LoadTried(f, b, n), n) && LoadTried(f, b, n).newTable == b.newTable
  {
    hide SoFar, NewHeld, NextTried, LoadTried;
    if n == 0 {
      SoFarStart(f, b);
    } else {
      TriedHeldAll(f, b, n - 1);
      SoFarNext(f, LoadTried(f, b, n - 1), n - 1);
      TriedStep(f, b, n - 1);
    }
  }

  lemma TriedStep(f: File, b: Book, n: nat)
    requires n < |f.triedEntries|
    ensures LoadTried(f, b, n + 1) == NextTried(f, LoadTried(f, b, n), n)
  {
    hide WithTried;
  }

  lemma SoFarStart(f: File, b: Book)
    requires 0 <= f.nNew <= |f.newEntries| && NewHeld(f, b, f.nNew) && b.triedTable == map[]
    ensures SoFar(f, LoadTried(f, b, 0), 0) && LoadTried(f, b, 0).newTable == b.newTable
  {
  }

  lemma OneFewer(f: File, c: Book, n: nat)
    requires 0 <= f.nNew <= |f.newEntries| && n < |f.triedEntries|
    requires TriedHeld(f, c, n) && !FirstTried(f, n) && NewHeld(f, c, f.nNew)
    ensures TriedHeld(f, c.(nTried := c.nTried - 1), n + 1) && NewHeld(f, c.(nTried := c.nTried - 1), f.nNew)
  {
    hide FirstTried;
    forall k: nat | k < n + 1 && FirstTried(f, k)
      ensures HeldAs(f, c.(nTried := c.nTried - 1), k)
    {
      assert HeldAs(f, c, k);
    }
  }

  // ---------- Places ----------

  /** Every stored record is there, and the tables and counters are right. */
  ghost predicate AllHeld(f: File, c: Book)
    requires Whole(f)
  {
    NewHeld(f, c, f.nNew) && TriedHeld(f, c, f.nTried) && Read(f, c)
  }

  lemma PutHeld(f: File, c: Book, s: Slot, i: int)
    requires Whole(f) && NewHeld(f, c, f.nNew) && TriedHeld(f, c, f.nTried) && i in c.info
    ensures NewHeld(f, PutSlot(c, s, i), f.nNew) && TriedHeld(f, PutSlot(c, s, i), f.nTried)
  {
    hide FirstTried;
    forall k: nat | k < f.nTried && FirstTried(f, k)
      ensures HeldAs(f, PutSlot(c, s, i), k)
    {
      assert HeldAs(f, c, k);
    }
  }

  /** An entry has as many references as slots, and the service of its record. */
  lemma RefsRead(f: File, c: Book, i: int)
    requires Whole(f) && AllHeld(f, c) && 0 <= i < f.nNew
    ensures i in c.info && c.info[i].service == f.newEntries[i].service
    ensures c.info[i].nRefCount == |Slots(c.newTable, i)|
  {
    assert Same(c.info[i], f.newEntries[i], false);
  }

  lemma IndexTable(f: File, c: Book, bucket: int, i: int)
    requires Whole(f) && AllHeld(f, c)
    ensures LoadIndex(f, c, bucket, i).newTable == if Usable(f) then Place(f, c.newTable, bucket, i) else c.newTable
  {
    hide AllHeld, Slots, Usable;
    if 0 <= i < f.nNew {
      RefsRead(f, c, i);
    }
  }

  lemma IndexHeld(f: File, c: Book, bucket: int, i: int)
    requires Whole(f) && NewHeld(f, c, f.nNew) && TriedHeld(f, c, f.nTried)
    ensures var d := LoadIndex(f, c, bucket, i); NewHeld(f, d, f.nNew) && TriedHeld(f, d, f.nTried)
  {
    hide NewHeld, TriedHeld;
    if 0 <= i < f.nNew && i in c.info {
      PutHeld(f, c, (bucket, f.key.Position(true, bucket, c.info[i].service)), i);
    }
  }

  lemma IndexPlaces(f: File, c: Book, bucket: int, i: int)
    requires Whole(f) && AllHeld(f, c) && (Usable(f) ==> 0 <= bucket < NEW_BUCKET_COUNT)
    ensures AllHeld(f, LoadIndex(f, c, bucket, i))
    ensures LoadIndex(f, c, bucket, i).newTable == if Usable(f) then Place(f, c.newTable, bucket, i) else c.newTable
  {
    hide NewHeld, TriedHeld, Read, LoadIndex, Place;
    IndexKeeps(f, c, bucket, i);
    IndexTable(f, c, bucket, i);
    IndexHeld(f, c, bucket, i);
  }

  lemma {:induction false} ListPlaces(f: File, c: Book, bucket: int, list: seq<int>)
    requires Whole(f) && AllHeld(f, c) && (Usable(f) ==> 0 <= bucket < NEW_BUCKET_COUNT)
    ensures AllHeld(f, LoadBucket(f, c, bucket, list))
    ensures LoadBucket(f, c, bucket, list).newTable ==
      if Usable(f) then PlaceList(f, c.newTable, bucket, list) else c.newTable
  {
    hide AllHeld, LoadIndex, Place, Usable;
    if list != [] {
      var front := list[..|list| - 1];
      ListPlaces(f, c, bucket, front);
      IndexPlaces(f, LoadBucket(f, c, bucket, front), bucket, list[|list| - 1]);
    }
  }

  lemma {:induction false} ListsPlace(f: File, c: Book, n: nat)
    requires Whole(f) && AllHeld(f, c) && n <= |f.buckets| && (Usable(f) ==> n <= NEW_BUCKET_COUNT)
    requires Usable(f) ==> c.newTable == map[]
    ensures AllHeld(f, LoadBuckets(f, c, n))
    ensures LoadBuckets(f, c, n).newTable == if Usable(f) then PlaceLists(f, n) else c.newTable
  {
    hide AllHeld, LoadBucket, PlaceList, Usable;
    if n > 0 {
      ListsPlace(f, c, n - 1);
      ListPlaces(f, LoadBuckets(f, c, n - 1), n - 1, f.buckets[n - 1]);
    }
  }

  /** The new table of the file. */
  function Places(f: File): map<Slot, int>
    requires Whole(f)
  {
    if Usable(f) then PlaceLists(f, NEW_BUCKET_COUNT) else FirstCome(f, f.nNew)
  }

  /** Before pruning, the manager holds exactly the stored records, and the new table is the one told from the file. */
  lemma FilledRecords(f: File)
    requires Whole(f)
    ensures AllHeld(f, Filled(f)) && Filled(f).newTable == Places(f)
  {
    var b := LoadNew(f, f.nNew);
    NewHeldAll(f, f.nNew);
    NewReadAll(f, f.nNew);
    var c := LoadTried(f, b, f.nTried);
    TriedHeldAll(f, b, f.nTried);
    TriedReadAll(f, b, f.nTried);
    hide LoadNew, LoadTried, LoadBuckets, NewHeld, TriedHeld, TriedRead, NewRead, FirstCome, PlaceLists, TriedTaken;
    ListsPlace(f, c, Natural(Buckets(f)));
  }

  // ---------- From the file to the manager ----------

  lemma NewIs(f: File, b: Book, i: nat)
    requires Whole(f) && AllHeld(f, b) && b.newTable == Places(f) && i < f.nNew
    ensures i in b.info && Same(b.info[i], f.newEntries[i], false) && (Kept(b, i) <==> KeptNew(f, i))
  {
    assert i in b.info && b.info[i].nRefCount == |Slots(b.newTable, i)|;
    if !Usable(f) {
      FirstComeKept(f, f.nNew, i);
    }
  }

  lemma TriedIs(f: File, b: Book, k: nat)
    requires Whole(f) && AllHeld(f, b) && k < f.nTried && FirstTried(f, k)
    ensures TriedId(f, k) >= f.nNew && TriedId(f, k) in b.info && Kept(b, TriedId(f, k))
    ensures Same(b.info[TriedId(f, k)], f.triedEntries[k], true)
  {
    hide FirstTried, Read;
    assert HeldAs(f, b, k);
  }

  /** Every entry is a new record or a stored tried one. */
  lemma EntryIs(f: File, b: Book, id: int) returns (k: nat)
    requires Whole(f) && AllHeld(f, b) && id in b.info
    ensures 0 <= id < f.nNew || (k < f.nTried && FirstTried(f, k) && id == TriedId(f, k))
  {
    assert id in NewIds(b.info) || id in TriedIds(b.info);
    hide FirstTried;
    k := 0;
    if id >= f.nNew {
      k := TriedOf(f, f.nTried, id - f.nNew);
    }
  }

  /** Sharing an address means the same on both sides. */
  lemma SoleIs(f: File, b: Book, id: int, ip: int, isNew: bool, n: nat)
    requires Whole(f) && AllHeld(f, b) && b.newTable == Places(f) && id in b.info && b.info[id].service.ip == ip
    requires if isNew then id == n < f.nNew else n < f.nTried && FirstTried(f, n) && id == TriedId(f, n)
    ensures Alone(b, id) <==> SoleAddress(f, ip, isNew, n)
  {
    hide FirstTried, AllHeld, Places, StoredBefore;
    if Alone(b, id) {
      SoleIf(f, b, id, ip, isNew, n);
    }
    if SoleAddress(f, ip, isNew, n) {
      SoleOnlyIf(f, b, id, ip, isNew, n);
    }
  }

  lemma SoleIf(f: File, b: Book, id: int, ip: int, isNew: bool, n: nat)
    requires Whole(f) && AllHeld(f, b) && b.newTable == Places(f) && id in b.info && b.info[id].service.ip == ip
    requires if isNew then id == n < f.nNew else n < f.nTried && FirstTried(f, n) && id == TriedId(f, n)
    requires Alone(b, id)
    ensures SoleAddress(f, ip, isNew, n)
  {
    hide FirstTried, AllHeld, Places, StoredBefore;
    forall j: nat | j < f.nNew && !(isNew && j == n)
      ensures f.newEntries[j].service.ip != ip
    {
      NewIs(f, b, j);
    }
    forall k: nat | k < f.nTried && !(!isNew && k == n) && FirstTried(f, k)
      ensures f.triedEntries[k].service.ip != ip
    {
      TriedIs(f, b, k);
      if !isNew {
        TriedIdsDiffer(f, k, n);
      }
    }
  }

  lemma SoleOnlyIf(f: File, b: Book, id: int, ip: int, isNew: bool, n: nat)
    requires Whole(f) && AllHeld(f, b) && b.newTable == Places(f) && id in b.info && b.info[id].service.ip == ip
    requires if isNew then id == n < f.nNew else n < f.nTried && FirstTried(f, n) && id == TriedId(f, n)
    requires SoleAddress(f, ip, isNew, n)
    ensures Alone(b, id)
  {
    hide FirstTried, AllHeld, Places, StoredBefore;
    forall other | other in b.info && other != id
      ensures b.info[id].service.ip != b.info[other].service.ip
    {
      var k := EntryIs(f, b, other);
      if 0 <= other < f.nNew {
        NewIs(f, b, other);
      } else {
        TriedIs(f, b, k);
      }
    }
  }

  /** The address of entry 0 is shared with a pruned entry exactly when the file says so. */
  lemma SharedIs(f: File, b: Book)
    requires Whole(f) && AllHeld(f, b) && b.newTable == Places(f) && 0 < f.nNew
    ensures 0 in b.info && (SharesLost(b, 0) <==> FirstShared(f))
  {
    hide FirstTried, AllHeld, Places, StoredBefore, KeptNew;
    NewIs(f, b, 0);
    if SharesLost(b, 0) {
      var other :| other in b.info && Unreferenced(b, other) && b.info[0].service.ip == b.info[other].service.ip;
      var k := EntryIs(f, b, other);
      if 0 <= other < f.nNew {
        NewIs(f, b, other);
      } else {
        TriedIs(f, b, k);
      }
    }
    if FirstShared(f) {
      var j: nat :| j < f.nNew && !KeptNew(f, j) && f.newEntries[j].service.ip == f.newEntries[0].service.ip;
      NewIs(f, b, j);
    }
  }

  lemma NewRight(f: File, b: Book, i: nat, lenient: bool)
    requires Whole(f) && AllHeld(f, b) && b.newTable == Places(f) && i < f.nNew
    ensures i in b.info
    ensures HasName(b, i, lenient) <==> SoleNew(f, i) || (lenient && i == 0 && FirstShared(f))
  {
    hide AllHeld, Places, SoleAddress, Alone, SharesLost, FirstShared;
    NewIs(f, b, i);
    SoleIs(f, b, i, f.newEntries[i].service.ip, true, i);
    if i == 0 {
      SharedIs(f, b);
    }
  }

  lemma TriedRight(f: File, b: Book, k: nat, lenient: bool)
    requires Whole(f) && AllHeld(f, b) && b.newTable == Places(f) && k < f.nTried && FirstTried(f, k)
    ensures Kept(b, TriedId(f, k)) && (HasName(b, TriedId(f, k), lenient) <==> SoleTried(f, k))
  {
    hide AllHeld, Places, SoleAddress, Alone, FirstTried, StoredBefore;
    TriedIs(f, b, k);
    SoleIs(f, b, TriedId(f, k), f.triedEntries[k].service.ip, false, k);
    if TriedId(f, k) == 0 {
      NothingLost(f, b);
    }
  }

  /** Without new records nothing is pruned. */
  lemma NothingLost(f: File, b: Book)
    requires Whole(f) && AllHeld(f, b) && f.nNew == 0
    ensures forall id | id in b.info :: !Unreferenced(b, id)
  {
    forall id | id in b.info
      ensures !Unreferenced(b, id)
    {
      var k := EntryIs(f, b, id);
      TriedIs(f, b, k);
    }
  }

  lemma NamesAre(f: File, b: Book, lenient: bool)
    requires Whole(f) && AllHeld(f, b) && b.newTable == Places(f)
    ensures OwnNames(b, lenient) <==> OwnAddresses(f, lenient)
  {
    hide AllHeld, Places, FirstTried, KeptNew, Kept, HasName, SoleNew, SoleTried, FirstShared, TriedId;
    if OwnNames(b, lenient) {
      forall i: nat | i < f.nNew && KeptNew(f, i)
        ensures SoleNew(f, i) || (lenient && i == 0 && FirstShared(f))
      {
        NewIs(f, b, i);
        NewRight(f, b, i, lenient);
      }
      forall k: nat | k < f.nTried && FirstTried(f, k)
        ensures SoleTried(f, k)
      {
        TriedRight(f, b, k, lenient);
      }
    }
    if OwnAddresses(f, lenient) {
      forall id | Kept(b, id)
        ensures id in b.info && HasName(b, id, lenient)
      {
        KeptThere(b, id);
        var k := EntryIs(f, b, id);
        if 0 <= id < f.nNew {
          NewIs(f, b, id);
          NewRight(f, b, id, lenient);
        } else {
          TriedRight(f, b, k, lenient);
        }
      }
    }
  }

  lemma KeptThere(b: Book, id: int)
    requires Kept(b, id)
    ensures id in b.info
  {
  }

  lemma TimesAre(f: File, b: Book)
    requires Whole(f) && AllHeld(f, b) && b.newTable == Places(f)
    ensures TimesRead(b) <==> TimesInOrder(f)
  {
    hide AllHeld, Places, FirstTried, KeptNew, StoredBefore;
    forall i: nat | i < f.nNew
      ensures i in b.info && Same(b.info[i], f.newEntries[i], false) && (Kept(b, i) <==> KeptNew(f, i))
    {
      NewIs(f, b, i);
    }
    if TimesRead(b) {
      forall k: nat | k < f.nTried && FirstTried(f, k)
        ensures f.triedEntries[k].nLastSuccess > 0
      {
        TriedIs(f, b, k);
      }
    }
    if TimesInOrder(f) {
      forall id | Kept(b, id)
        ensures b.info[id].stats.nLastSuccess >= 0
        ensures b.info[id].fInTried ==> b.info[id].stats.nLastSuccess != 0
      {
        var k := EntryIs(f, b, id);
        if !(0 <= id < f.nNew) {
          TriedIs(f, b, k);
        }
      }
    }
  }

  // ---------- The exact conditions ----------

  lemma ConditionsAre(f: File)
    requires Whole(f)
    ensures OwnNames(Filled(f), false) <==> OwnAddresses(f, false)
    ensures OwnNames(Filled(f), true) <==> OwnAddresses(f, true)
    ensures TimesRead(Filled(f)) <==> TimesInOrder(f)
  {
    var b := Filled(f);
    hide Filled, AllHeld, Places, OwnNames, OwnAddresses;
    FilledRecords(f);
    NamesAre(f, b, false);
    NamesAre(f, b, true);
    TimesAre(f, b);
  }

  /**
   A file that is read without an error gives a consistent manager exactly when its counts are not negative, no record
   that is kept shares its address with another record that is stored, and the times of last success are in order.
   `Check_` accepts the manager under the same conditions, but lets the first new record share its address with new
   records that get no place.
   */
  lemma LoadedExactly(f: File)
    requires Loaded(f).Some?
    ensures Consistent(f.key, Loaded(f).value) <==> Whole(f) && OwnAddresses(f, false) && TimesInOrder(f)
    ensures Passes(f.key, Loaded(f).value) <==> Whole(f) && OwnAddresses(f, true) && TimesInOrder(f)
  {
    hide Consistent, Passes, Filled, OwnNames, TimesRead, OwnAddresses, TimesInOrder;
    FilledExactly(f);
    if Whole(f) {
      ConditionsAre(f);
    }
  }

  // ---------- Inputs ----------

  /** A file whose one entry is tried and has never succeeded: it is read without an error. */
  lemma NeverSucceeded(h: Hasher, r: Record)
    requires r.nLastSuccess == 0
    ensures var f := File(0, 32, h, 0, 1, 0, [], [r], []);
      Loaded(f).Some? && !Consistent(h, Loaded(f).value) && !Passes(h, Loaded(f).value)
  {
    var f := File(0, 32, h, 0, 1, 0, [], [r], []);
    assert FirstTried(f, 0);
    hide Consistent, Passes, Filled;
    LoadedExactly(f);
  }

  /** A record that is there twice: the second is pruned with the name of the first, and `Check_` does not notice. */
  lemma NameLost(h: Hasher, r: Record)
    requires r.nLastSuccess == 0
    ensures var f := File(0, 32, h, 2, 0, 0, [r, r], [], []);
      Loaded(f).Some? && Passes(h, Loaded(f).value) && !Consistent(h, Loaded(f).value)
  {
    var f := File(0, 32, h, 2, 0, 0, [r, r], [], []);
    assert OwnPlace(f, 0) == OwnPlace(f, 1);
    assert KeptNew(f, 0) && !KeptNew(f, 1);
    assert !SoleNew(f, 0) && FirstShared(f) by {
      assert f.newEntries[1].service.ip == f.newEntries[0].service.ip;
    }
    hide Consistent, Passes, Filled;
    LoadedExactly(f);
  }
}

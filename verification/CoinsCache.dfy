/**
 The coins part of a stack of `CStateViewCache`s over one bottom view. Every cache holds entries with
 DIRTY and FRESH flags; reads fill the caches they pass through, writes go to the top cache, and a flush
 merges the top cache into the one below. The stack must behave like a stack of plain maps.
 */
module CoinsCache {
  import opened Options
  import opened Coins

  type Txid = nat

  datatype Entry = Entry(coins: Coins, isDirty: bool, isFresh: bool)

  type Entries = map<Txid, Entry>

  /** An open `CCoinsModifier`: the entry it points at and the usage it will subtract when closed. */
  datatype Modifier = Modifier(txid: Txid, recorded: nat)

  /** One `CStateViewCache`. `usage` is `cachedCoinsUsage`; `modifier` is `hasModifier` with its target. */
  datatype Layer = Layer(entries: Entries, modifier: Option<Modifier>, usage: int)

  const NEW_LAYER := Layer(map[], None, 0)

  datatype Stack = Stack(bottom: map<Txid, Coins>, layers: seq<Layer>) {
    function Top(): Layer
      requires layers != []
    {
      layers[|layers| - 1]
    }

    function WithTop(l: Layer): Stack
      requires layers != []
    {
      this.(layers := layers[|layers| - 1 := l])
    }
  }

  // ---------- What a reader sees ----------

  /** An answer read as unspent coins: pruned coins count as absent, spent outputs at the end do not matter. */
  function Unspent(answer: Option<Coins>): Option<Coins> {
    if answer.Some? && !answer.value.IsPruned() then Some(answer.value.Trimmed()) else None
  }

  /** What `GetCoins` answers at height `n` of the stack: the nearest cached entry, or the bottom's. */
  function Lookup(s: Stack, n: nat, t: Txid): Option<Coins>
    requires n <= |s.layers|
  {
    if n == 0 then if t in s.bottom then Some(s.bottom[t]) else None
    else if t in s.layers[n - 1].entries then Some(s.layers[n - 1].entries[t].coins)
    else Lookup(s, n - 1, t)
  }

  /** The unspent coins visible through the lowest `n` caches. */
  function Seen(s: Stack, n: nat, t: Txid): Option<Coins>
    requires n <= |s.layers|
  {
    Unspent(Lookup(s, n, t))
  }

  // ---------- The invariant ----------

  /** FRESH: nothing unspent below. Not DIRTY: the same unspent coins as below. */
  ghost predicate EntryOk(below: Option<Coins>, e: Entry) {
    && (e.isFresh ==> below == None)
    && (!e.isDirty ==> Unspent(Some(e.coins)) == below)
  }

  /** The flags of every entry for `t` are sound. */
  ghost predicate FlagsOk(s: Stack, t: Txid) {
    forall i | 0 <= i < |s.layers| && t in s.layers[i].entries :: EntryOk(Seen(s, i, t), s.layers[i].entries[t])
  }

  /** At most one modifier is open; it is in the top cache and its entry is there and DIRTY. */
  ghost predicate ModifiersOk(s: Stack) {
    && (forall i | 0 <= i < |s.layers| - 1 :: s.layers[i].modifier.None?)
    && (s.layers != [] && s.Top().modifier.Some? ==>
          var t := s.Top().modifier.value.txid; t in s.Top().entries && s.Top().entries[t].isDirty)
  }

  ghost predicate StackOk(s: Stack) {
    ModifiersOk(s) && forall t :: FlagsOk(s, t)
  }

  /** What is seen of `t` depends only on the entries for `t`. */
  lemma {:induction false} SeenLocal(s: Stack, r: Stack, n: nat, t: Txid)
    requires n <= |s.layers| && n <= |r.layers|
    requires t in s.bottom <==> t in r.bottom
    requires t in s.bottom ==> s.bottom[t] == r.bottom[t]
    requires forall i | 0 <= i < n :: SameEntry(s.layers[i], r.layers[i], t)
    ensures Lookup(s, n, t) == Lookup(r, n, t)
  {
    if n > 0 {
      assert SameEntry(s.layers[n - 1], r.layers[n - 1], t);
      SeenLocal(s, r, n - 1, t);
    }
  }

  ghost predicate SameEntry(l: Layer, m: Layer, t: Txid) {
    (t in l.entries <==> t in m.entries) && (t in l.entries ==> l.entries[t] == m.entries[t])
  }

  // ---------- Reading ----------

  function Fetched(l: Layer, t: Txid, c: Coins): Layer {
    l.(entries := l.entries[t := Entry(c, false, c.IsPruned())], usage := l.usage + c.DynamicMemoryUsage())
  }

  /** `FetchCoins` at height `n`: every cache on the way down that lacks the entry takes a copy of the answer. */
  function Fetch(s: Stack, n: nat, t: Txid): (r: Stack)
    requires n <= |s.layers|
    ensures |r.layers| == |s.layers| && r.bottom == s.bottom
    ensures forall i | n <= i < |s.layers| :: r.layers[i] == s.layers[i]
  {
    if n == 0 || t in s.layers[n - 1].entries then s
    else
      var below := Fetch(s, n - 1, t);
      match Lookup(s, n - 1, t)
      case None => below
      case Some(c) => below.(layers := below.layers[n - 1 := Fetched(below.layers[n - 1], t, c)])
  }

  lemma FetchNothing(s: Stack, n: nat, t: Txid)
    requires n <= |s.layers| && (n == 0 || t in s.layers[n - 1].entries)
    ensures Fetch(s, n, t) == s
  {
  }

  lemma FetchStep(s: Stack, n: nat, t: Txid)
    requires 0 < n <= |s.layers| && t !in s.layers[n - 1].entries
    ensures var below := Fetch(s, n - 1, t);
      Fetch(s, n, t) == match Lookup(s, n - 1, t)
        case None => below
        case Some(c) => below.(layers := below.layers[n - 1 := Fetched(below.layers[n - 1], t, c)])
  {
  }

  /** Reading touches only entries for `t`, and modifiers not at all. */
  lemma {:induction false} FetchFrame(s: Stack, n: nat, t: Txid)
    requires n <= |s.layers|
    ensures var r := Fetch(s, n, t); forall i | 0 <= i < |s.layers| ::
        && r.layers[i].modifier == s.layers[i].modifier
        && (forall u | u != t :: SameEntry(s.layers[i], r.layers[i], u))
        && (t in s.layers[i].entries ==> SameEntry(s.layers[i], r.layers[i], t))
  {
    if n > 0 && t !in s.layers[n - 1].entries {
      FetchFrame(s, n - 1, t);
    }
  }

  /** Reading answers the same as before, and leaves the answer cached where it was asked for. */
  lemma {:induction false} FetchAnswer(s: Stack, n: nat, t: Txid)
    requires n <= |s.layers|
    ensures Lookup(Fetch(s, n, t), n, t) == Lookup(s, n, t)
    ensures n > 0 && Lookup(s, n, t).Some? ==> t in Fetch(s, n, t).layers[n - 1].entries
  {
    if n > 0 && t !in s.layers[n - 1].entries {
      FetchAnswer(s, n - 1, t);
    }
  }

  /** Reading changes no view and keeps the flags sound. */
  lemma {:induction false} FetchColumn(s: Stack, n: nat, t: Txid)
    requires n <= |s.layers| && FlagsOk(s, t)
    ensures FlagsOk(Fetch(s, n, t), t)
    ensures forall k: nat | k <= |s.layers| :: Seen(Fetch(s, n, t), k, t) == Seen(s, k, t)
  {
    hide Fetch, Lookup, FlagsOk;
    if n == 0 || t in s.layers[n - 1].entries {
      FetchNothing(s, n, t);
    } else {
      FetchStep(s, n, t);
      FetchColumn(s, n - 1, t);
      FetchFrame(s, n - 1, t);
      if Lookup(s, n - 1, t).Some? {
        FillColumn(Fetch(s, n - 1, t), n - 1, t, Lookup(s, n - 1, t).value);
      }
    }
  }

  /** Caching the answer of the base changes no view. */
  lemma FillColumn(s: Stack, i: nat, t: Txid, c: Coins)
    requires i < |s.layers| && t !in s.layers[i].entries && FlagsOk(s, t)
    requires Unspent(Some(c)) == Seen(s, i, t)
    ensures var r := s.(layers := s.layers[i := Fetched(s.layers[i], t, c)]);
      && FlagsOk(r, t)
      && (forall k: nat | k <= |s.layers| :: Seen(r, k, t) == Seen(s, k, t))
  {
    var r := s.(layers := s.layers[i := Fetched(s.layers[i], t, c)]);
    forall k: nat | k <= |s.layers| ensures Seen(r, k, t) == Seen(s, k, t) {
      FillSeen(s, r, i, t, k);
    }
  }

  lemma {:induction false} FillSeen(s: Stack, r: Stack, i: nat, t: Txid, k: nat)
    requires i < |s.layers| == |r.layers| && k <= |s.layers| && s.bottom == r.bottom
    requires t !in s.layers[i].entries && t in r.layers[i].entries
    requires Unspent(Some(r.layers[i].entries[t].coins)) == Seen(s, i, t)
    requires forall j | 0 <= j < |s.layers| && j != i :: r.layers[j] == s.layers[j]
    ensures Seen(r, k, t) == Seen(s, k, t)
  {
    if k > 0 {
      FillSeen(s, r, i, t, k - 1);
    }
  }

  // ---------- Writing at the top ----------

  lemma TopLookup(s: Stack, l: Layer, t: Txid)
    requires s.layers != []
    ensures var r, n := s.WithTop(l), |s.layers|;
      && (forall k: nat | k < n :: Lookup(r, k, t) == Lookup(s, k, t))
      && Lookup(r, n, t) == (if t in l.entries then Some(l.entries[t].coins) else Lookup(s, n - 1, t))
  {
    var r := s.WithTop(l);
    forall k: nat | k < |s.layers| ensures Lookup(r, k, t) == Lookup(s, k, t) {
      SeenLocal(s, r, k, t);
    }
  }

  lemma TopFlags(s: Stack, l: Layer, t: Txid)
    requires s.layers != [] && FlagsOk(s, t)
    requires t in l.entries ==> EntryOk(Seen(s, |s.layers| - 1, t), l.entries[t])
    ensures FlagsOk(s.WithTop(l), t)
  {
    var r := s.WithTop(l);
    TopLookup(s, l, t);
    hide Lookup;
    forall i | 0 <= i < |r.layers| && t in r.layers[i].entries
      ensures EntryOk(Seen(r, i, t), r.layers[i].entries[t])
    {
      assert Lookup(r, i, t) == Lookup(s, i, t);
    }
  }

  /** Replacing the top layer leaves every lower view alone; the top view follows the new entries. */
  lemma TopChange(s: Stack, l: Layer, t: Txid)
    requires s.layers != []
    ensures var r, n := s.WithTop(l), |s.layers|;
      && (forall k: nat | k < n :: Lookup(r, k, t) == Lookup(s, k, t))
      && Lookup(r, n, t) == (if t in l.entries then Some(l.entries[t].coins) else Lookup(s, n - 1, t))
      && (FlagsOk(s, t) && (t in l.entries ==> EntryOk(Seen(s, n - 1, t), l.entries[t])) ==> FlagsOk(r, t))
  {
    hide Lookup, FlagsOk;
    TopLookup(s, l, t);
    if FlagsOk(s, t) && (t in l.entries ==> EntryOk(Seen(s, |s.layers| - 1, t), l.entries[t])) {
      TopFlags(s, l, t);
    }
  }

  ghost predicate CanOpen(s: Stack) {
    s.layers != [] && s.Top().modifier.None?
  }

  /** `ModifyCoins`: the entry becomes DIRTY, and FRESH if it is new and the base has nothing unspent. */
  function OpenCoins(s: Stack, t: Txid): Stack
    requires s.layers != []
  {
    var n, l := |s.layers|, s.Top();
    if t in l.entries then
      var e := l.entries[t];
      s.WithTop(l.(entries := l.entries[t := e.(isDirty := true)],
                   modifier := Some(Modifier(t, e.coins.DynamicMemoryUsage()))))
    else
      var answer := Lookup(s, n - 1, t);
      var c := if answer.Some? then answer.value else EMPTY;
      Fetch(s, n - 1, t).WithTop(l.(entries := l.entries[t := Entry(c, true, c.IsPruned())],
                                    modifier := Some(Modifier(t, 0))))
  }

  /** `ModifyNewCoins`: the entry is cleared and DIRTY; unless it is a coinbase it is marked FRESH unchecked. */
  function OpenNew(s: Stack, t: Txid, coinbase: bool): Stack
    requires s.layers != []
  {
    var l := s.Top();
    var wasFresh := t in l.entries && l.entries[t].isFresh;
    s.WithTop(l.(entries := l.entries[t := Entry(EMPTY, true, !coinbase || wasFresh)],
                 modifier := Some(Modifier(t, 0))))
  }

  ghost predicate IsOpen(s: Stack) {
    s.layers != [] && s.Top().modifier.Some? && s.Top().modifier.value.txid in s.Top().entries
  }

  /** The holder of the open modifier writes new coins through it. */
  function Assign(s: Stack, c: Coins): Stack
    requires s.layers != [] && s.Top().modifier.Some? && s.Top().modifier.value.txid in s.Top().entries
  {
    var l := s.Top();
    var t := l.modifier.value.txid;
    s.WithTop(l.(entries := l.entries[t := l.entries[t].(coins := c)]))
  }

  /** The destructor of `CCoinsModifier`. */
  function Close(s: Stack): Stack
    requires s.layers != [] && s.Top().modifier.Some? && s.Top().modifier.value.txid in s.Top().entries
  {
    var l := s.Top();
    var m := l.modifier.value;
    var e := l.entries[m.txid].(coins := l.entries[m.txid].coins.Trimmed());
    if e.isFresh && e.coins.IsPruned() then
      s.WithTop(Layer(l.entries - {m.txid}, None, l.usage - m.recorded))
    else
      s.WithTop(Layer(l.entries[m.txid := e], None, l.usage - m.recorded + e.coins.DynamicMemoryUsage()))
  }

  /** `Uncache`: only an entry with no flag at all may leave the cache. */
  function Uncache(s: Stack, i: nat, t: Txid): Stack
    requires i < |s.layers|
  {
    var l := s.layers[i];
    if t in l.entries && !l.entries[t].isDirty && !l.entries[t].isFresh then
      s.(layers := s.layers[i := l.(entries := l.entries - {t}, usage := l.usage - l.entries[t].coins.DynamicMemoryUsage())])
    else s
  }

  lemma {:induction false} UncacheSeen(s: Stack, i: nat, t: Txid, u: Txid, k: nat)
    requires i < |s.layers| && k <= |s.layers| && FlagsOk(s, u)
    ensures Seen(Uncache(s, i, t), k, u) == Seen(s, k, u)
  {
    var r := Uncache(s, i, t);
    if k == 0 {
      assert Lookup(r, 0, u) == Lookup(s, 0, u);
    } else {
      hide Lookup, Uncache;
      UncacheSeen(s, i, t, u, k - 1);
      UncacheEntry(s, i, t, u, k - 1);
      SeenStep(s, k, u);
      SeenStep(r, k, u);
    }
  }

  /** An entry that leaves the cache showed what is below it. */
  lemma UncacheEntry(s: Stack, i: nat, t: Txid, u: Txid, j: nat)
    requires i < |s.layers| && j < |s.layers| && FlagsOk(s, u)
    ensures |Uncache(s, i, t).layers| == |s.layers|
    ensures var a, b := EntryAt(s.layers[j].entries, u), EntryAt(Uncache(s, i, t).layers[j].entries, u);
      b == a || (b == None && Shown(Seen(s, j, u), a) == Seen(s, j, u))
  {
  }

  /** An entry leaves exactly if it is the one asked for and has no flag; its memory is no longer counted. */
  lemma UncacheExactly(s: Stack, i: nat, t: Txid)
    requires i < |s.layers|
    ensures var r, l := Uncache(s, i, t), s.layers[i];
      && |r.layers| == |s.layers| && r.bottom == s.bottom && r.layers[i].modifier == l.modifier
      && (forall j: nat | j < |s.layers| && j != i :: r.layers[j] == s.layers[j])
      && (forall u: Txid ::
            EntryAt(r.layers[i].entries, u) ==
            match EntryAt(l.entries, u)
            case Some(Entry(_, false, false)) => if u == t then None else EntryAt(l.entries, u)
            case e => e)
      && r.layers[i].usage == l.usage -
           (match EntryAt(l.entries, t)
            case Some(Entry(c, false, false)) => c.DynamicMemoryUsage()
            case _ => 0)
  {
  }

  lemma UncacheColumn(s: Stack, i: nat, t: Txid, u: Txid)
    requires i < |s.layers| && FlagsOk(s, u)
    ensures FlagsOk(Uncache(s, i, t), u)
    ensures forall k: nat | k <= |s.layers| :: Seen(Uncache(s, i, t), k, u) == Seen(s, k, u)
  {
    forall k: nat | k <= |s.layers| ensures Seen(Uncache(s, i, t), k, u) == Seen(s, k, u) {
      UncacheSeen(s, i, t, u, k);
    }
  }

  // ---------- Flushing ----------

  /** What `BatchWrite` makes of a parent's entry when the child hands up its own. */
  function MergeEntry(ours: Option<Entry>, theirs: Entry): Option<Entry> {
    if !theirs.isDirty then ours
    else match ours
      case None =>
        if theirs.isFresh && theirs.coins.IsPruned() then None else Some(Entry(theirs.coins, true, theirs.isFresh))
      case Some(e) =>
        if e.isFresh && theirs.coins.IsPruned() then None else Some(Entry(theirs.coins, true, e.isFresh))
  }

  function EntryAt(entries: Entries, t: Txid): Option<Entry> {
    if t in entries then Some(entries[t]) else None
  }

  function MergedAt(ours: Entries, theirs: Entries, t: Txid): Option<Entry> {
    if t in theirs then MergeEntry(EntryAt(ours, t), theirs[t]) else EntryAt(ours, t)
  }

  /** The parent's entries after `BatchWrite`, whatever order the child's entries are visited in. */
  function Merged(ours: Entries, theirs: Entries): Entries {
    map t | t in ours.Keys + theirs.Keys && MergedAt(ours, theirs, t).Some? :: MergedAt(ours, theirs, t).value
  }

  lemma MergedPointwise(ours: Entries, theirs: Entries, t: Txid)
    ensures EntryAt(Merged(ours, theirs), t) == MergedAt(ours, theirs, t)
  {
  }

  /** The database below the stack: DIRTY entries are written, or erased when pruned. */
  function BottomMerged(bottom: map<Txid, Coins>, theirs: Entries): map<Txid, Coins> {
    map t | t in bottom.Keys + theirs.Keys && (if Writes(theirs, t) then !theirs[t].coins.IsPruned() else t in bottom) ::
      if Writes(theirs, t) then theirs[t].coins else bottom[t]
  }

  predicate Writes(theirs: Entries, t: Txid) {
    t in theirs && theirs[t].isDirty
  }

  ghost function Flush(s: Stack): Stack
    requires s.layers != []
  {
    var n, top := |s.layers|, s.Top();
    if n == 1 then Stack(BottomMerged(s.bottom, top.entries), [NEW_LAYER])
    else Stack(s.bottom, s.layers[..n - 2] + [FlushedInto(s.layers[n - 2], top.entries), NEW_LAYER])
  }

  ghost function FlushedInto(l: Layer, theirs: Entries): Layer {
    l.(entries := Merged(l.entries, theirs), usage := l.usage + Usage(Merged(l.entries, theirs)) - Usage(l.entries))
  }

  // ---------- Memory accounting ----------

  ghost function Usage(entries: Entries): nat
    decreases |entries|
  {
    if entries == map[] then 0
    else
      var t :| t in entries;
      entries[t].coins.DynamicMemoryUsage() + Usage(entries - {t})
  }

  lemma {:induction false} UsageTake(entries: Entries, t: Txid)
    requires t in entries
    ensures Usage(entries) == entries[t].coins.DynamicMemoryUsage() + Usage(entries - {t})
    decreases |entries|
  {
    var p :| p in entries && Usage(entries) == entries[p].coins.DynamicMemoryUsage() + Usage(entries - {p});
    if p != t {
      UsageTake(entries - {p}, t);
      UsageTake(entries - {t}, p);
      assert entries - {p} - {t} == entries - {t} - {p};
    }
  }

  lemma UsagePut(entries: Entries, t: Txid, e: Entry)
    ensures Usage(entries[t := e]) == e.coins.DynamicMemoryUsage() + Usage(entries - {t})
    ensures t !in entries ==> entries - {t} == entries
  {
    UsageTake(entries[t := e], t);
    assert entries[t := e] - {t} == entries - {t};
  }

  /** What `cachedCoinsUsage` should be: the usage of the entries, an open modifier's entry at its recorded usage. */
  ghost function Accounted(l: Layer): nat {
    match l.modifier
    case None => Usage(l.entries)
    case Some(m) => Usage(l.entries - {m.txid}) + m.recorded
  }

  /** By how much `cachedCoinsUsage` is off. */
  ghost function Drift(l: Layer): int {
    l.usage - Accounted(l)
  }

  /** A flush makes the parent show what the child showed, and changes nothing that was seen anywhere else. */
  lemma FlushColumn(s: Stack, t: Txid)
    requires s.layers != [] && FlagsOk(s, t)
    ensures FlagsOk(Flush(s), t)
    ensures forall k: nat | k <= |s.layers| ::
        Seen(Flush(s), k, t) == Seen(s, if k == |s.layers| - 1 then |s.layers| else k, t)
  {
    if |s.layers| == 1 {
      FlushBottomColumn(s, t);
    } else {
      FlushParentColumn(s, t);
    }
  }

  lemma FlushBottomColumn(s: Stack, t: Txid)
    requires |s.layers| == 1 && FlagsOk(s, t)
    ensures FlagsOk(Flush(s), t)
    ensures Seen(Flush(s), 0, t) == Seen(Flush(s), 1, t) == Seen(s, 1, t)
  {
    var r, theirs := Flush(s), s.layers[0].entries;
    assert s.Top() == s.layers[0];
    assert t in theirs ==> EntryOk(Seen(s, 0, t), theirs[t]);
    assert Lookup(s, 1, t) == if t in theirs then Some(theirs[t].coins) else Lookup(s, 0, t);
    assert Lookup(r, 1, t) == Lookup(r, 0, t);
  }

  lemma FlushParentColumn(s: Stack, t: Txid)
    requires |s.layers| > 1 && FlagsOk(s, t)
    ensures FlagsOk(Flush(s), t)
    ensures forall k: nat | k <= |s.layers| ::
        Seen(Flush(s), k, t) == Seen(s, if k == |s.layers| - 1 then |s.layers| else k, t)
  {
    var n, r := |s.layers|, Flush(s);
    MergedPointwise(s.layers[n - 2].entries, s.layers[n - 1].entries, t);
    MergedColumn(s, r, t);
  }

  /** The parent holds the merged entries and the child is empty; everything below is as it was. */
  ghost predicate FlushedFrom(s: Stack, r: Stack, t: Txid) {
    && |s.layers| == |r.layers| > 1 && r.bottom == s.bottom
    && (forall i | 0 <= i < |s.layers| - 2 :: r.layers[i] == s.layers[i])
    && r.layers[|s.layers| - 1].entries == map[]
    && var n := |s.layers|;
       EntryAt(r.layers[n - 2].entries, t) == MergedAt(s.layers[n - 2].entries, s.layers[n - 1].entries, t)
  }

  lemma MergedTop(s: Stack, r: Stack, t: Txid)
    requires FlushedFrom(s, r, t) && FlagsOk(s, t)
    ensures var n := |s.layers|;
      && Seen(r, n, t) == Seen(r, n - 1, t) == Seen(s, n, t)
      && (t in r.layers[n - 2].entries ==> EntryOk(Seen(s, n - 2, t), r.layers[n - 2].entries[t]))
  {
    hide Lookup;
    var n := |s.layers|;
    SeenLocal(s, r, n - 2, t);
    SeenStep(s, n - 1, t);
    SeenStep(s, n, t);
    SeenStep(r, n - 1, t);
    SeenStep(r, n, t);
    MergeKeeps(Seen(s, n - 2, t), EntryAt(s.layers[n - 2].entries, t), EntryAt(s.layers[n - 1].entries, t));
  }

  lemma MergedSeen(s: Stack, r: Stack, t: Txid, k: nat)
    requires FlushedFrom(s, r, t) && FlagsOk(s, t) && k <= |s.layers|
    ensures Seen(r, k, t) == Seen(s, if k == |s.layers| - 1 then |s.layers| else k, t)
  {
    hide Lookup;
    if k <= |s.layers| - 2 {
      SeenLocal(s, r, k, t);
    } else {
      MergedTop(s, r, t);
    }
  }

  lemma MergedColumn(s: Stack, r: Stack, t: Txid)
    requires FlushedFrom(s, r, t) && FlagsOk(s, t)
    ensures FlagsOk(r, t)
    ensures forall k: nat | k <= |s.layers| ::
      Seen(r, k, t) == Seen(s, if k == |s.layers| - 1 then |s.layers| else k, t)
  {
    hide Seen;
    forall k: nat | k <= |s.layers|
      ensures Seen(r, k, t) == Seen(s, if k == |s.layers| - 1 then |s.layers| else k, t)
    {
      MergedSeen(s, r, t, k);
    }
    MergedTop(s, r, t);
    hide EntryOk;
  }

  lemma SeenStep(s: Stack, n: nat, t: Txid)
    requires 0 < n <= |s.layers|
    ensures Seen(s, n, t) == Shown(Seen(s, n - 1, t), EntryAt(s.layers[n - 1].entries, t))
  {
  }

  /** What an entry shows over a base. */
  ghost function Shown(below: Option<Coins>, e: Option<Entry>): Option<Coins> {
    if e.Some? then Unspent(Some(e.value.coins)) else below
  }

  /** The four cases of `BatchWrite`: the merged entry shows what the child showed, and its flags are sound. */
  lemma MergeKeeps(below: Option<Coins>, ours: Option<Entry>, theirs: Option<Entry>)
    requires ours.Some? ==> EntryOk(below, ours.value)
    requires theirs.Some? ==> EntryOk(Shown(below, ours), theirs.value)
    ensures var m := if theirs.Some? then MergeEntry(ours, theirs.value) else ours;
      && (m.Some? ==> EntryOk(below, m.value))
      && Shown(below, m) == Shown(Shown(below, ours), theirs)
  {
  }

  // ---------- Runs ----------

  datatype Op =
    | Push
    | Discard
    | Read(height: nat, txid: Txid)
    | Evict(height: nat, txid: Txid)
    | Modify(txid: Txid)
    | ModifyNew(txid: Txid, coinbase: bool)
    | Write(coins: Coins)
    | Done
    | FlushTop

  /** What the code demands of its callers, asserts included. */
  ghost predicate Legal(s: Stack, op: Op) {
    match op
    case Push => s.layers != [] ==> s.Top().modifier.None?
    case Discard => CanOpen(s)
    case Read(n, _) => n <= |s.layers|
    case Evict(i, _) => i < |s.layers|
    case Modify(_) => CanOpen(s)
    case ModifyNew(t, coinbase) => CanOpen(s) && (!coinbase ==> Seen(s, |s.layers| - 1, t) == None)
    case Write(_) => IsOpen(s)
    case Done => IsOpen(s)
    case FlushTop => CanOpen(s)
  }

  ghost function Exec(s: Stack, op: Op): Stack
    requires Legal(s, op)
  {
    match op
    case Push => s.(layers := s.layers + [NEW_LAYER])
    case Discard => s.(layers := s.layers[..|s.layers| - 1])
    case Read(n, t) => Fetch(s, n, t)
    case Evict(i, t) => Uncache(s, i, t)
    case Modify(t) => OpenCoins(s, t)
    case ModifyNew(t, coinbase) => OpenNew(s, t, coinbase)
    case Write(c) => Assign(s, c)
    case Done => Close(s)
    case FlushTop => Flush(s)
  }

  /** The same operations on a stack of plain maps from transaction to unspent coins, the bottom one first. */
  datatype Plain = Plain(views: seq<map<Txid, Coins>>, target: Option<Txid>)

  ghost function Put(view: map<Txid, Coins>, t: Txid, c: Coins): map<Txid, Coins> {
    if c.IsPruned() then view - {t} else view[t := c.Trimmed()]
  }

  ghost function PlainExec(p: Plain, op: Op): Plain {
    var last := |p.views| - 1;
    if last < 0 then p else
    match op
    case Push => p.(views := p.views + [p.views[last]])
    case Discard => p.(views := p.views[..last])
    case Read(_, _) => p
    case Evict(_, _) => p
    case Modify(t) => p.(target := Some(t))
    case ModifyNew(t, _) => Plain(p.views[last := p.views[last] - {t}], Some(t))
    case Write(c) => if p.target.None? then p else p.(views := p.views[last := Put(p.views[last], p.target.value, c)])
    case Done => p.(target := None)
    case FlushTop => if last == 0 then p else p.(views := p.views[last - 1 := p.views[last]])
  }

  ghost function At(view: map<Txid, Coins>, t: Txid): Option<Coins> {
    if t in view then Some(view[t]) else None
  }

  ghost predicate Refines(s: Stack, p: Plain) {
    && |p.views| == |s.layers| + 1
    && p.target == (if s.layers != [] && s.Top().modifier.Some? then Some(s.Top().modifier.value.txid) else None)
    && forall k: nat, t: Txid | k <= |s.layers| :: Seen(s, k, t) == At(p.views[k], t)
  }

  lemma PushRefines(s: Stack, p: Plain)
    requires StackOk(s) && Refines(s, p) && Legal(s, Push)
    ensures StackOk(Exec(s, Push)) && Refines(Exec(s, Push), PlainExec(p, Push))
  {
    var r := Exec(s, Push);
    forall k: nat, t | k <= |s.layers| ensures Lookup(r, k, t) == Lookup(s, k, t) {
      SeenLocal(s, r, k, t);
    }
    forall t ensures FlagsOk(r, t) {
      assert FlagsOk(s, t);
    }
  }

  lemma DiscardRefines(s: Stack, p: Plain)
    requires StackOk(s) && Refines(s, p) && Legal(s, Discard)
    ensures StackOk(Exec(s, Discard)) && Refines(Exec(s, Discard), PlainExec(p, Discard))
  {
    var r := Exec(s, Discard);
    forall k: nat, t | k <= |r.layers| ensures Lookup(r, k, t) == Lookup(s, k, t) {
      SeenLocal(s, r, k, t);
    }
    forall t ensures FlagsOk(r, t) {
      assert FlagsOk(s, t);
    }
  }

  lemma FetchAny(s: Stack, n: nat, t: Txid, u: Txid)
    requires n <= |s.layers| && FlagsOk(s, u)
    ensures FlagsOk(Fetch(s, n, t), u)
    ensures forall k: nat | k <= |s.layers| :: Seen(Fetch(s, n, t), k, u) == Seen(s, k, u)
  {
    hide Lookup, Fetch, FlagsOk;
    if u == t {
      FetchColumn(s, n, t);
    } else {
      FetchFrame(s, n, t);
      OtherColumn(s, Fetch(s, n, t), u);
    }
  }

  /** Two stacks with the same entries for `u`. */
  lemma OtherColumn(s: Stack, r: Stack, u: Txid)
    requires |r.layers| == |s.layers| && r.bottom == s.bottom && FlagsOk(s, u)
    requires forall i | 0 <= i < |s.layers| :: SameEntry(s.layers[i], r.layers[i], u)
    ensures FlagsOk(r, u) && forall k: nat | k <= |s.layers| :: Seen(r, k, u) == Seen(s, k, u)
  {
    hide Lookup;
    forall k: nat | k <= |s.layers| ensures Lookup(r, k, u) == Lookup(s, k, u) {
      SeenLocal(s, r, k, u);
    }
    forall i | 0 <= i < |r.layers| && u in r.layers[i].entries
      ensures EntryOk(Seen(r, i, u), r.layers[i].entries[u])
    {
      assert SameEntry(s.layers[i], r.layers[i], u);
      assert Lookup(r, i, u) == Lookup(s, i, u);
    }
  }

  /** A step that changes no view and no modifier refines doing nothing. */
  lemma SilentRefines(s: Stack, r: Stack, p: Plain)
    requires StackOk(s) && Refines(s, p) && |r.layers| == |s.layers|
    requires forall i | 0 <= i < |s.layers| :: r.layers[i].modifier == s.layers[i].modifier
    requires ModifiersOk(r)
    requires forall u :: FlagsOk(r, u)
    requires forall u: Txid, k: nat | k <= |s.layers| :: Seen(r, k, u) == Seen(s, k, u)
    ensures StackOk(r) && Refines(r, p)
  {
  }

  lemma ReadRefines(s: Stack, p: Plain, n: nat, t: Txid)
    requires StackOk(s) && Refines(s, p) && n <= |s.layers|
    ensures StackOk(Fetch(s, n, t)) && Refines(Fetch(s, n, t), p)
  {
    FetchFrame(s, n, t);
    forall u: Txid ensures FlagsOk(Fetch(s, n, t), u) {
      FetchAny(s, n, t, u);
    }
    forall u: Txid, k: nat | k <= |s.layers| ensures Seen(Fetch(s, n, t), k, u) == Seen(s, k, u) {
      FetchAny(s, n, t, u);
    }
    SilentRefines(s, Fetch(s, n, t), p);
  }

  lemma EvictRefines(s: Stack, p: Plain, i: nat, t: Txid)
    requires StackOk(s) && Refines(s, p) && i < |s.layers|
    ensures StackOk(Uncache(s, i, t)) && Refines(Uncache(s, i, t), p)
  {
    forall u: Txid ensures FlagsOk(Uncache(s, i, t), u) {
      UncacheColumn(s, i, t, u);
    }
    forall u: Txid, k: nat | k <= |s.layers| ensures Seen(Uncache(s, i, t), k, u) == Seen(s, k, u) {
      UncacheColumn(s, i, t, u);
    }
    SilentRefines(s, Uncache(s, i, t), p);
  }

  /** A step that rewrites the top layer's entry for `t` refines putting the new coins in the top plain map. */
  lemma TopRefines(s: Stack, l: Layer, p: Plain, view: map<Txid, Coins>, t: Txid)
    requires StackOk(s) && Refines(s, p) && s.layers != [] && ModifiersOk(s.WithTop(l))
    requires forall u | u != t :: SameEntry(s.Top(), l, u) && At(view, u) == At(p.views[|s.layers|], u)
    requires t in l.entries ==> EntryOk(Seen(s, |s.layers| - 1, t), l.entries[t])
    requires Shown(Seen(s, |s.layers| - 1, t), EntryAt(l.entries, t)) == At(view, t)
    ensures StackOk(s.WithTop(l))
    ensures Refines(s.WithTop(l),
                    Plain(p.views[|s.layers| := view], if l.modifier.Some? then Some(l.modifier.value.txid) else None))
  {
    var r, n := s.WithTop(l), |s.layers|;
    forall u: Txid ensures FlagsOk(r, u) {
      TopChange(s, l, u);
      assert FlagsOk(s, u);
      assert u != t ==> SameEntry(s.layers[n - 1], l, u);
    }
    forall u: Txid, k: nat | k <= n ensures Seen(r, k, u) == At(p.views[n := view][k], u) {
      TopChange(s, l, u);
      SeenStep(s, n, u);
      SeenStep(r, n, u);
      assert u != t ==> SameEntry(s.layers[n - 1], l, u);
    }
  }

  lemma ModifyCachedRefines(s: Stack, p: Plain, t: Txid)
    requires StackOk(s) && Refines(s, p) && CanOpen(s) && t in s.Top().entries
    ensures StackOk(OpenCoins(s, t)) && Refines(OpenCoins(s, t), p.(target := Some(t)))
  {
    var n, l := |s.layers|, s.Top();
    assert p.views[n := p.views[n]] == p.views;
    SeenStep(s, n, t);
    assert FlagsOk(s, t);
    TopRefines(s, OpenCoins(s, t).Top(), p, p.views[n], t);
  }

  lemma ModifyUncachedRefines(f: Stack, p: Plain, t: Txid, c: Coins)
    requires StackOk(f) && Refines(f, p) && CanOpen(f) && t !in f.Top().entries
    requires Unspent(Some(c)) == Seen(f, |f.layers| - 1, t)
    ensures var l := f.Top();
      var r := f.WithTop(l.(entries := l.entries[t := Entry(c, true, c.IsPruned())], modifier := Some(Modifier(t, 0))));
      StackOk(r) && Refines(r, p.(target := Some(t)))
  {
    var n, l := |f.layers|, f.Top();
    assert p.views[n := p.views[n]] == p.views;
    SeenStep(f, n, t);
    TopRefines(f, l.(entries := l.entries[t := Entry(c, true, c.IsPruned())], modifier := Some(Modifier(t, 0))),
               p, p.views[n], t);
  }

  lemma ModifyRefines(s: Stack, p: Plain, t: Txid)
    requires StackOk(s) && Refines(s, p) && CanOpen(s)
    ensures StackOk(OpenCoins(s, t)) && Refines(OpenCoins(s, t), p.(target := Some(t)))
  {
    if t in s.Top().entries {
      ModifyCachedRefines(s, p, t);
    } else {
      var n := |s.layers|;
      assert FlagsOk(s, t);
      ReadRefines(s, p, n - 1, t);
      FetchAny(s, n - 1, t, t);
      var answer := Lookup(s, n - 1, t);
      ModifyUncachedRefines(Fetch(s, n - 1, t), p, t, if answer.Some? then answer.value else EMPTY);
    }
  }

  lemma ModifyNewRefines(s: Stack, p: Plain, t: Txid, coinbase: bool)
    requires StackOk(s) && Refines(s, p) && Legal(s, ModifyNew(t, coinbase))
    ensures StackOk(OpenNew(s, t, coinbase))
    ensures Refines(OpenNew(s, t, coinbase), PlainExec(p, ModifyNew(t, coinbase)))
  {
    var n, l := |s.layers|, s.Top();
    assert FlagsOk(s, t);
    var wasFresh := t in l.entries && l.entries[t].isFresh;
    TopRefines(s, l.(entries := l.entries[t := Entry(EMPTY, true, !coinbase || wasFresh)], modifier := Some(Modifier(t, 0))),
               p, p.views[n] - {t}, t);
  }

  lemma WriteRefines(s: Stack, p: Plain, c: Coins)
    requires StackOk(s) && Refines(s, p) && IsOpen(s)
    ensures StackOk(Assign(s, c)) && Refines(Assign(s, c), PlainExec(p, Write(c)))
  {
    var n, l := |s.layers|, s.Top();
    var t := l.modifier.value.txid;
    assert FlagsOk(s, t);
    TopRefines(s, l.(entries := l.entries[t := l.entries[t].(coins := c)]), p, Put(p.views[n], t, c), t);
  }

  lemma DoneRefines(s: Stack, p: Plain)
    requires StackOk(s) && Refines(s, p) && IsOpen(s)
    ensures StackOk(Close(s)) && Refines(Close(s), PlainExec(p, Done))
  {
    var n, l := |s.layers|, s.Top();
    var t := l.modifier.value.txid;
    assert FlagsOk(s, t);
    hide Lookup, TrimOutputs;
    SeenStep(s, n, t);
    TrimTwice(l.entries[t].coins);
    assert p.views[n := p.views[n]] == p.views;
    var r := Close(s);
    assert r == s.WithTop(r.Top());
    TopRefines(s, r.Top(), p, p.views[n], t);
  }

  lemma FlushRefines(s: Stack, p: Plain)
    requires StackOk(s) && Refines(s, p) && CanOpen(s)
    ensures StackOk(Flush(s)) && Refines(Flush(s), PlainExec(p, FlushTop))
  {
    var r, q := Flush(s), PlainExec(p, FlushTop);
    forall u: Txid ensures FlagsOk(r, u) {
      FlushColumn(s, u);
    }
    forall u: Txid, k: nat | k <= |s.layers| ensures Seen(r, k, u) == At(q.views[k], u) {
      FlushColumn(s, u);
    }
  }

  /** Every legal step keeps the invariant and does to the views exactly what it does to the plain maps. */
  lemma StepRefines(s: Stack, p: Plain, op: Op)
    requires StackOk(s) && Refines(s, p) && Legal(s, op)
    ensures StackOk(Exec(s, op)) && Refines(Exec(s, op), PlainExec(p, op))
  {
    match op
    case Push => PushRefines(s, p);
    case Discard => DiscardRefines(s, p);
    case Read(n, t) => ReadRefines(s, p, n, t);
    case Evict(i, t) => EvictRefines(s, p, i, t);
    case Modify(t) => ModifyRefines(s, p, t);
    case ModifyNew(t, coinbase) => ModifyNewRefines(s, p, t, coinbase);
    case Write(c) => WriteRefines(s, p, c);
    case Done => DoneRefines(s, p);
    case FlushTop => FlushRefines(s, p);
  }

  ghost predicate LegalRun(s: Stack, ops: seq<Op>)
    decreases |ops|
  {
    ops == [] || (Legal(s, ops[0]) && LegalRun(Exec(s, ops[0]), ops[1..]))
  }

  ghost function Run(s: Stack, ops: seq<Op>): Stack
    requires LegalRun(s, ops)
    decreases |ops|
  {
    if ops == [] then s else Run(Exec(s, ops[0]), ops[1..])
  }

  ghost function PlainRun(p: Plain, ops: seq<Op>): Plain
    decreases |ops|
  {
    if ops == [] then p else PlainRun(PlainExec(p, ops[0]), ops[1..])
  }

  /** For a stack of any depth and any legal sequence of operations, every cache shows exactly the plain map. */
  lemma {:induction false} RunRefines(s: Stack, p: Plain, ops: seq<Op>)
    requires StackOk(s) && Refines(s, p) && LegalRun(s, ops)
    ensures StackOk(Run(s, ops)) && Refines(Run(s, ops), PlainRun(p, ops))
    decreases |ops|
  {
    if ops != [] {
      StepRefines(s, p, ops[0]);
      RunRefines(Exec(s, ops[0]), PlainExec(p, ops[0]), ops[1..]);
    }
  }

  /** A stack with no cache yet shows the bottom's unspent coins. */
  lemma StartRefines(bottom: map<Txid, Coins>)
    ensures StackOk(Stack(bottom, []))
    ensures Refines(Stack(bottom, []), Plain([map t | t in bottom && !bottom[t].IsPruned() :: bottom[t].Trimmed()], None))
  {
  }

  // ---------- Why `ModifyNewCoins` needs the transaction to be absent ----------

  /** Coins `c` written through `ModifyNewCoins`, not for a coinbase. */
  ghost function WrittenNew(s: Stack, t: Txid, c: Coins): (r: Stack)
    requires CanOpen(s)
    ensures CanOpen(r) && |r.layers| == |s.layers|
  {
    Close(Assign(OpenNew(s, t, false), c))
  }

  /** Coins `c` written through `ModifyCoins`. */
  ghost function Rewritten(s: Stack, t: Txid, c: Coins): (r: Stack)
    requires CanOpen(s)
    ensures CanOpen(r) && |r.layers| == |s.layers|
  {
    Close(Assign(OpenCoins(s, t), c))
  }

  /** Coins written as new: pruned ones leave no entry, others one that is DIRTY and FRESH. */
  lemma NewEntry(s: Stack, t: Txid, c: Coins)
    requires CanOpen(s)
    ensures var n, r := |s.layers|, WrittenNew(s, t, c);
      && r == s.WithTop(r.Top())
      && (if c.IsPruned() then t !in r.Top().entries
          else t in r.Top().entries && r.Top().entries[t] == Entry(c.Trimmed(), true, true))
      && (forall k: nat | k < n :: Lookup(r, k, t) == Lookup(s, k, t))
      && Seen(r, n, t) == if c.IsPruned() then Seen(s, n - 1, t) else Unspent(Some(c))
  {
    var n, r := |s.layers|, WrittenNew(s, t, c);
    assert r == s.WithTop(r.Top());
    TopChange(s, r.Top(), t);
    SeenStep(r, n, t);
    TrimTwice(c);
  }

  /** What the view below shows after a flush: nothing new without an entry, and any unspent coins written. */
  lemma FlushShows(s: Stack, t: Txid)
    requires s.layers != []
    requires t in s.Top().entries ==> s.Top().entries[t].isDirty && !s.Top().entries[t].coins.IsPruned()
    ensures Seen(Flush(s), |s.layers| - 1, t) ==
      if t in s.Top().entries then Unspent(Some(s.Top().entries[t].coins)) else Seen(s, |s.layers| - 1, t)
  {
    if |s.layers| > 1 {
      FlushShowsParent(s, t);
    } else {
      assert Lookup(Flush(s), 0, t) == if t in s.Top().entries then Some(s.Top().entries[t].coins) else Lookup(s, 0, t);
    }
  }

  lemma FlushShowsParent(s: Stack, t: Txid)
    requires |s.layers| > 1
    requires t in s.Top().entries ==> s.Top().entries[t].isDirty && !s.Top().entries[t].coins.IsPruned()
    ensures Seen(Flush(s), |s.layers| - 1, t) ==
      if t in s.Top().entries then Unspent(Some(s.Top().entries[t].coins)) else Seen(s, |s.layers| - 1, t)
  {
    var n, r := |s.layers|, Flush(s);
    MergedPointwise(s.layers[n - 2].entries, s.layers[n - 1].entries, t);
    hide Merged, Lookup, Usage;
    SeenLocal(s, r, n - 2, t);
    SeenStep(s, n - 1, t);
    SeenStep(r, n - 1, t);
  }

  /**
   Coins written through `ModifyNewCoins` show, in the cache and in the view below after a flush, exactly when they
   are unspent or the view below had nothing unspent. Otherwise the entry is dropped as FRESH and the old coins stay.
   */
  lemma ModifyNewNeedsAbsence(s: Stack, t: Txid, c: Coins)
    requires CanOpen(s)
    ensures var n, r := |s.layers|, WrittenNew(s, t, c);
      && (Seen(r, n, t) == Unspent(Some(c)) <==> !c.IsPruned() || Seen(s, n - 1, t) == None)
      && (Seen(Flush(r), n - 1, t) == Unspent(Some(c)) <==> !c.IsPruned() || Seen(s, n - 1, t) == None)
  {
    hide Flush, WrittenNew, Lookup;
    NewEntry(s, t, c);
    TrimTwice(c);
    FlushShows(WrittenNew(s, t, c), t);
  }

  /** What closing a modifier leaves of the entry it was opened for. */
  function LeftOf(e: Entry, d: Coins): Option<Entry> {
    if e.isFresh && d.IsPruned() then None else Some(e.(coins := d.Trimmed()))
  }

  lemma RewrittenIs(s: Stack, o: Stack, t: Txid, d: Coins)
    requires CanOpen(s) && o == OpenCoins(s, t)
    ensures o.layers != [] && |o.layers| == |s.layers| && t in o.Top().entries
    ensures var r := Rewritten(s, t, d);
      r == o.WithTop(r.Top()) && EntryAt(r.Top().entries, t) == LeftOf(o.Top().entries[t], d)
  {
    hide Lookup, Fetch, TrimOutputs;
  }

  /** Coins created over nothing unspent are FRESH; below the top, only the read of what is there leaves a trace. */
  lemma CreatedFresh(s: Stack, t: Txid, c: Coins)
    requires CanOpen(s) && t !in s.Top().entries && Seen(s, |s.layers| - 1, t) == None && !c.IsPruned()
    ensures var r := Rewritten(s, t, c);
      && r == Fetch(s, |s.layers| - 1, t).WithTop(r.Top())
      && EntryAt(r.Top().entries, t) == Some(Entry(c.Trimmed(), true, true))
  {
    hide Fetch, Lookup, Rewritten, TrimOutputs;
    assert EMPTY.IsPruned();
    RewrittenIs(s, OpenCoins(s, t), t, c);
  }

  /** FRESH coins that are spent leave no entry. */
  lemma FreshSpent(s: Stack, t: Txid, d: Coins)
    requires CanOpen(s) && t in s.Top().entries && s.Top().entries[t].isFresh && d.IsPruned()
    ensures Rewritten(s, t, d).bottom == s.bottom && t !in Rewritten(s, t, d).Top().entries
  {
    hide Rewritten, TrimOutputs;
    RewrittenIs(s, OpenCoins(s, t), t, d);
  }

  /** Reading leaves a trace only of coins that are there, spent ones FRESH. */
  lemma FetchedFresh(s: Stack, n: nat, t: Txid)
    requires 0 < n <= |s.layers| && t !in s.layers[n - 1].entries && Seen(s, n, t) == None
    ensures var e := EntryAt(Fetch(s, n, t).layers[n - 1].entries, t);
      e.Some? ==> e.value.isFresh && !e.value.isDirty
  {
    hide Lookup;
    FetchStep(s, n, t);
    LookupBelow(s, n, t);
  }

  lemma LookupBelow(s: Stack, n: nat, t: Txid)
    requires 0 < n <= |s.layers| && t !in s.layers[n - 1].entries
    ensures Lookup(s, n, t) == Lookup(s, n - 1, t)
  {
  }

  /**
   Coins created in one cache, flushed into the one below and spent there leave no entry in either, so that nothing is
   ever written of them further down.
   */
  lemma CreatedAndSpent(s: Stack, t: Txid, c: Coins, d: Coins)
    requires CanOpen(s) && ModifiersOk(s) && |s.layers| >= 2 && !c.IsPruned() && d.IsPruned()
    requires t !in s.Top().entries && t !in s.layers[|s.layers| - 2].entries && Seen(s, |s.layers| - 1, t) == None
    ensures var f := Flush(Rewritten(s, t, c));
      && |f.layers| == |s.layers| && t !in f.Top().entries
      && var p := f.(layers := f.layers[..|f.layers| - 1]);
         CanOpen(p) && Rewritten(p, t, d).bottom == s.bottom && t !in Rewritten(p, t, d).Top().entries
  {
    hide Rewritten, Fetch, Lookup;
    var n, w := |s.layers|, Rewritten(s, t, c);
    CreatedFresh(s, t, c);
    FetchFrame(s, n - 1, t);
    FetchedFresh(s, n - 1, t);
    var parent := w.layers[n - 2];
    assert parent == Fetch(s, n - 1, t).layers[n - 2];
    assert parent.modifier == s.layers[n - 2].modifier;
    MergedPointwise(parent.entries, w.Top().entries, t);
    var p := Flush(w).(layers := Flush(w).layers[..n - 1]);
    assert p.Top() == FlushedInto(parent, w.Top().entries);
    FreshSpent(p, t, d);
  }

  /** Unspent coins written as new and spent later: the spend shows exactly when nothing unspent was below. */
  lemma SpentAfterNew(s: Stack, t: Txid, c: Coins, d: Coins)
    requires CanOpen(s) && !c.IsPruned() && d.IsPruned()
    ensures var n, r := |s.layers|, Rewritten(WrittenNew(s, t, c), t, d);
      && (Seen(r, n, t) == None <==> Seen(s, n - 1, t) == None)
      && (Seen(Flush(r), n - 1, t) == None <==> Seen(s, n - 1, t) == None)
  {
    var w := WrittenNew(s, t, c);
    NewEntry(s, t, c);
    hide Flush, WrittenNew, Rewritten, Lookup;
    SpentFresh(w, t, d);
  }

  lemma SpentFresh(w: Stack, t: Txid, d: Coins)
    requires CanOpen(w) && t in w.Top().entries && w.Top().entries[t].isFresh && d.IsPruned()
    ensures var n, r := |w.layers|, Rewritten(w, t, d);
      Seen(r, n, t) == Seen(w, n - 1, t) && Seen(Flush(r), n - 1, t) == Seen(w, n - 1, t)
  {
    var n, o, r := |w.layers|, OpenCoins(w, t), Rewritten(w, t, d);
    assert o == w.WithTop(o.Top()) && o.Top().entries[t].isFresh;
    RewrittenIs(w, o, t, d);
    hide Flush, OpenCoins, Rewritten, Lookup;
    TopChange(w, o.Top(), t);
    TopChange(o, r.Top(), t);
    SeenStep(r, n, t);
    FlushShows(r, t);
  }

  lemma NewColumn(s: Stack, t: Txid, c: Coins)
    requires CanOpen(s) && FlagsOk(s, t) && Seen(s, |s.layers| - 1, t) == None
    ensures FlagsOk(WrittenNew(s, t, c), t)
  {
    NewEntry(s, t, c);
    var r := WrittenNew(s, t, c);
    hide WrittenNew, Lookup;
    TopChange(s, r.Top(), t);
  }

  lemma OpenedColumn(s: Stack, t: Txid)
    requires CanOpen(s) && FlagsOk(s, t)
    ensures var n, o := |s.layers|, OpenCoins(s, t);
      && |o.layers| == n && t in o.Top().entries && o.Top().entries[t].isDirty
      && (o.Top().entries[t].isFresh ==> Seen(s, n - 1, t) == None)
      && FlagsOk(o, t) && Seen(o, n - 1, t) == Seen(s, n - 1, t)
  {
    var n, o := |s.layers|, OpenCoins(s, t);
    if t in s.Top().entries {
      assert EntryOk(Seen(s, n - 1, t), s.layers[n - 1].entries[t]);
      TopChange(s, o.Top(), t);
    } else {
      var f := Fetch(s, n - 1, t);
      FetchColumn(s, n - 1, t);
      hide Fetch, FlagsOk, Lookup;
      assert o == f.WithTop(o.Top());
      TopChange(f, o.Top(), t);
    }
  }

  lemma RewriteColumn(s: Stack, t: Txid, d: Coins)
    requires CanOpen(s) && FlagsOk(s, t)
    ensures FlagsOk(Rewritten(s, t, d), t) && Seen(Rewritten(s, t, d), |s.layers|, t) == Unspent(Some(d))
  {
    var n, o, r := |s.layers|, OpenCoins(s, t), Rewritten(s, t, d);
    OpenedColumn(s, t);
    RewrittenIs(s, o, t, d);
    hide Lookup, OpenCoins, Rewritten, FlagsOk;
    TopChange(o, r.Top(), t);
    SeenStep(r, n, t);
    TrimTwice(d);
  }

  /** Coins `c` written as new and then `d`: after a flush the view below shows `d`. */
  ghost predicate Follows(s: Stack, t: Txid, c: Coins, d: Coins)
    requires CanOpen(s)
  {
    Seen(Flush(Rewritten(WrittenNew(s, t, c), t, d)), |s.layers| - 1, t) == Unspent(Some(d))
  }

  ghost predicate FollowsWrites(s: Stack, t: Txid)
    requires CanOpen(s)
  {
    forall c, d :: Follows(s, t, c, d)
  }

  lemma FollowsAbsent(s: Stack, t: Txid, c: Coins, d: Coins)
    requires CanOpen(s) && FlagsOk(s, t) && Seen(s, |s.layers| - 1, t) == None
    ensures Follows(s, t, c, d)
  {
    hide Flush, Rewritten, WrittenNew, Lookup, FlagsOk;
    NewColumn(s, t, c);
    RewriteColumn(WrittenNew(s, t, c), t, d);
    FlushColumn(Rewritten(WrittenNew(s, t, c), t, d), t);
  }

  lemma FollowsNot(s: Stack, t: Txid, c: Coins, d: Coins)
    requires CanOpen(s) && Seen(s, |s.layers| - 1, t) != None && !c.IsPruned() && d.IsPruned()
    ensures !Follows(s, t, c, d)
  {
    assert Unspent(Some(d)) == None;
    hide Flush, Rewritten, WrittenNew, Seen, Unspent;
    SpentAfterNew(s, t, c, d);
  }

  /** `ModifyNewCoins` is right for whatever is written afterwards exactly when the view below has nothing unspent. */
  lemma ModifyNewExactly(s: Stack, t: Txid)
    requires CanOpen(s) && FlagsOk(s, t)
    ensures FollowsWrites(s, t) <==> Seen(s, |s.layers| - 1, t) == None
  {
    hide Follows, FlagsOk, Seen;
    if Seen(s, |s.layers| - 1, t) == None {
      forall c, d
        ensures Follows(s, t, c, d)
      {
        FollowsAbsent(s, t, c, d);
      }
    } else {
      assert !ONE_COIN.vout[0].IsNull();
      FollowsNot(s, t, ONE_COIN, EMPTY);
    }
  }

  const ONE_COIN := Coins(false, false, [TxOut(1, [])], 0, 1)

  /** Spent coins come back: the database holds an output, and an empty entry is written as new over it. */
  lemma SpentComesBack()
    ensures var s := Stack(map[0 := ONE_COIN], [NEW_LAYER]);
      CanOpen(s) && Unspent(Some(EMPTY)) == None && Seen(Flush(WrittenNew(s, 0, EMPTY)), 0, 0).Some?
  {
    var s := Stack(map[0 := ONE_COIN], [NEW_LAYER]);
    assert !ONE_COIN.vout[0].IsNull();
    assert Seen(s, 0, 0).Some?;
    hide Flush, WrittenNew;
    ModifyNewNeedsAbsence(s, 0, EMPTY);
  }

  // ---------- The usage counter ----------

  /**
   How far the counter of cache `i` is off after a step: `ModifyNewCoins` forgets the usage of an entry that was
   already cached, a flush starts the top cache afresh, and every other step counts exactly.
   */
  ghost function DriftAfter(s: Stack, op: Op, i: nat): int
    requires Legal(s, op) && i < |Exec(s, op).layers|
  {
    var last := |s.layers| - 1;
    if i > last || (op.FlushTop? && i == last) then 0
    else if op.ModifyNew? && i == last && op.txid in s.Top().entries then
      Drift(s.layers[i]) + s.Top().entries[op.txid].coins.DynamicMemoryUsage()
    else Drift(s.layers[i])
  }

  lemma {:induction false} FetchDrift(s: Stack, n: nat, t: Txid, i: nat)
    requires n <= |s.layers| && i < |s.layers|
    requires s.layers[i].modifier.Some? ==> s.layers[i].modifier.value.txid in s.layers[i].entries
    ensures Drift(Fetch(s, n, t).layers[i]) == Drift(s.layers[i])
  {
    if n > 0 && t !in s.layers[n - 1].entries {
      FetchDrift(s, n - 1, t, i);
      var c := Lookup(s, n - 1, t);
      if c.Some? && i == n - 1 {
        FetchedDrift(s.layers[i], t, c.value);
      }
    }
  }

  lemma FetchedDrift(l: Layer, t: Txid, c: Coins)
    requires t !in l.entries
    requires l.modifier.Some? ==> l.modifier.value.txid in l.entries
    ensures Drift(Fetched(l, t, c)) == Drift(l)
  {
    var e := Entry(c, false, c.IsPruned());
    match l.modifier
    case None =>
      UsagePut(l.entries, t, e);
    case Some(m) =>
      UsagePut(l.entries - {m.txid}, t, e);
      assert l.entries[t := e] - {m.txid} == (l.entries - {m.txid})[t := e];
  }

  lemma UncacheDrift(s: Stack, i: nat, t: Txid, j: nat)
    requires StackOk(s) && i < |s.layers| && j < |s.layers|
    ensures Drift(Uncache(s, i, t).layers[j]) == Drift(s.layers[j])
  {
    var l := s.layers[i];
    if j == i && t in l.entries && !l.entries[t].isDirty && !l.entries[t].isFresh {
      match l.modifier
      case None =>
        UsageTake(l.entries, t);
      case Some(m) =>
        assert s.Top() == l;
        UsageTake(l.entries - {m.txid}, t);
        assert l.entries - {t} - {m.txid} == l.entries - {m.txid} - {t};
    }
  }

  /** With the entry rewritten and its usage recorded, the counter is as far off as before. */
  lemma OpenDrift(l: Layer, t: Txid, e: Entry, recorded: nat)
    requires l.modifier.None?
    ensures Drift(l.(entries := l.entries[t := e], modifier := Some(Modifier(t, recorded))))
         == Drift(l) + (if t in l.entries then l.entries[t].coins.DynamicMemoryUsage() else 0) - recorded
  {
    UsagePut(l.entries, t, e);
    assert l.entries[t := e] - {t} == l.entries - {t};
    if t in l.entries {
      UsageTake(l.entries, t);
    }
  }

  lemma CloseDrift(s: Stack)
    requires IsOpen(s)
    ensures Drift(Close(s).Top()) == Drift(s.Top())
  {
    var l := s.Top();
    var m := l.modifier.value;
    var e := l.entries[m.txid].(coins := l.entries[m.txid].coins.Trimmed());
    UsagePut(l.entries, m.txid, e);
  }

  lemma ModifyDrift(s: Stack, t: Txid, i: nat)
    requires StackOk(s) && CanOpen(s) && i < |s.layers|
    ensures |OpenCoins(s, t).layers| == |s.layers| && Drift(OpenCoins(s, t).layers[i]) == Drift(s.layers[i])
  {
    var last, r := |s.layers| - 1, OpenCoins(s, t);
    hide Drift, FlagsOk, Lookup, Fetch;
    if i == last {
      OpenDrift(s.Top(), t, r.Top().entries[t], r.Top().modifier.value.recorded);
    } else if t !in s.Top().entries {
      FetchDrift(s, last, t, i);
    }
  }

  lemma WriteDrift(s: Stack, c: Coins, i: nat)
    requires IsOpen(s) && i < |s.layers|
    ensures Drift(Assign(s, c).layers[i]) == Drift(s.layers[i])
  {
    if i == |s.layers| - 1 {
      var t := s.Top().modifier.value.txid;
      assert Assign(s, c).Top().entries - {t} == s.Top().entries - {t};
    }
  }

  /** The exact drift of every cache after every legal step. */
  lemma StepDrift(s: Stack, op: Op, i: nat)
    requires StackOk(s) && Legal(s, op) && i < |Exec(s, op).layers|
    ensures Drift(Exec(s, op).layers[i]) == DriftAfter(s, op, i)
  {
    var last := |s.layers| - 1;
    match op
    case Push =>
    case Discard =>
    case Read(n, t) => FetchDrift(s, n, t, i);
    case Evict(j, t) => UncacheDrift(s, j, t, i);
    case Modify(t) => ModifyDrift(s, t, i);
    case ModifyNew(t, coinbase) =>
      if i == last {
        OpenDrift(s.Top(), t, OpenNew(s, t, coinbase).Top().entries[t], 0);
      }
    case Write(c) => WriteDrift(s, c, i);
    case Done =>
      if i == last {
        CloseDrift(s);
      }
    case FlushTop =>
  }

  /**
   `cachedCoinsUsage` stays exact under a step exactly when the step is not a `ModifyNewCoins` of an entry that is
   already cached with a non-zero usage.
   */
  lemma UsageExactIff(s: Stack, op: Op)
    requires StackOk(s) && Legal(s, op)
    requires forall i | 0 <= i < |s.layers| :: Drift(s.layers[i]) == 0
    ensures (forall i | 0 <= i < |Exec(s, op).layers| :: Drift(Exec(s, op).layers[i]) == 0)
       <==> !Overcounts(s, op)
  {
    forall i | 0 <= i < |Exec(s, op).layers| ensures Drift(Exec(s, op).layers[i]) == DriftAfter(s, op, i) {
      StepDrift(s, op, i);
    }
    if op.ModifyNew? {
      assert Drift(Exec(s, op).layers[|s.layers| - 1]) == DriftAfter(s, op, |s.layers| - 1);
    }
  }

  /** A spent output in the cache and nothing in the database: creating the transaction anew is legal and counts on. */
  lemma OvercountedOutput()
    ensures var s := Stack(map[], [Layer(map[0 := Entry(Coins(false, false, [SPENT], 0, 1), true, false)], None, 64)]);
      && StackOk(s) && Legal(s, ModifyNew(0, false)) && Drift(s.Top()) == 0
      && Drift(Exec(s, ModifyNew(0, false)).Top()) == 64
  {
    var c := Coins(false, false, [SPENT], 0, 1);
    var l := Layer(map[0 := Entry(c, true, false)], None, 64);
    var s := Stack(map[], [l]);
    assert c.vout[0].IsNull() && c.IsPruned();
    assert ScriptUsage(c.vout) == ScriptUsage(c.vout[1..]) == 0;
    assert c.DynamicMemoryUsage() == 64;
    UsageTake(l.entries, 0);
    assert l.entries - {0} == map[];
    StepDrift(s, ModifyNew(0, false), 0);
  }

  /** A `ModifyNewCoins` of an entry already cached with a non-zero usage. */
  ghost predicate Overcounts(s: Stack, op: Op)
    requires Legal(s, op)
  {
    op.ModifyNew? && op.txid in s.Top().entries && s.Top().entries[op.txid].coins.DynamicMemoryUsage() != 0
  }

  ghost predicate NeverOvercounts(s: Stack, ops: seq<Op>)
    requires LegalRun(s, ops)
    decreases |ops|
  {
    ops != [] ==> !Overcounts(s, ops[0]) && NeverOvercounts(Exec(s, ops[0]), ops[1..])
  }

  /** Over a whole run without such a step, the counter of every cache with no modifier open is the exact sum. */
  lemma {:induction false} RunUsageExact(s: Stack, p: Plain, ops: seq<Op>)
    requires StackOk(s) && Refines(s, p) && LegalRun(s, ops) && NeverOvercounts(s, ops)
    requires forall i | 0 <= i < |s.layers| :: Drift(s.layers[i]) == 0
    ensures forall l | l in Run(s, ops).layers && l.modifier.None? :: l.usage == Usage(l.entries)
    decreases |ops|
  {
    if ops == [] {
      forall l | l in s.layers && l.modifier.None? ensures l.usage == Usage(l.entries) {
        assert Drift(l) == 0;
      }
    } else {
      StepRefines(s, p, ops[0]);
      UsageExactIff(s, ops[0]);
      RunUsageExact(Exec(s, ops[0]), PlainExec(p, ops[0]), ops[1..]);
    }
  }

  // ---------- HaveCoins ----------

  /** `HaveCoins` tests for any output at all, spent or not. */
  predicate Have(s: Stack, n: nat, t: Txid)
    requires n <= |s.layers|
  {
    var answer := Lookup(s, n, t);
    answer.Some? && answer.value.vout != []
  }

  predicate UnderModifier(l: Layer, t: Txid) {
    l.modifier.Some? && l.modifier.value.txid == t
  }

  ghost predicate LayerClean(l: Layer) {
    forall t | t in l.entries && !UnderModifier(l, t) :: l.entries[t].coins.IsClean()
  }

  /** No stored coins end in a spent output, except those under an open modifier. */
  ghost predicate AllClean(s: Stack) {
    && (forall t | t in s.bottom :: s.bottom[t].IsClean())
    && (forall i | 0 <= i < |s.layers| :: LayerClean(s.layers[i]))
  }

  lemma {:induction false} LookupClean(s: Stack, n: nat, t: Txid)
    requires AllClean(s) && ModifiersOk(s) && n <= |s.layers|
    requires n == |s.layers| > 0 ==> !UnderModifier(s.Top(), t)
    ensures Lookup(s, n, t).Some? ==> Lookup(s, n, t).value.IsClean()
  {
    if n > 0 {
      assert LayerClean(s.layers[n - 1]);
      if t !in s.layers[n - 1].entries {
        LookupClean(s, n - 1, t);
      }
    }
  }

  lemma {:induction false} FetchClean(s: Stack, n: nat, t: Txid)
    requires AllClean(s) && ModifiersOk(s) && n <= |s.layers|
    requires n == |s.layers| > 0 ==> !UnderModifier(s.Top(), t)
    ensures AllClean(Fetch(s, n, t))
  {
    hide Fetch, Lookup, AllClean, ModifiersOk;
    if n == 0 || t in s.layers[n - 1].entries {
      FetchNothing(s, n, t);
    } else {
      FetchStep(s, n, t);
      FetchClean(s, n - 1, t);
      LookupClean(s, n - 1, t);
      var answer := Lookup(s, n - 1, t);
      if answer.Some? {
        FetchedClean(Fetch(s, n - 1, t), n - 1, t, answer.value);
      }
    }
  }

  lemma FetchedClean(s: Stack, i: nat, t: Txid, c: Coins)
    requires AllClean(s) && i < |s.layers| && c.IsClean()
    ensures AllClean(s.(layers := s.layers[i := Fetched(s.layers[i], t, c)]))
  {
  }

  lemma TopClean(s: Stack, l: Layer)
    requires AllClean(s) && s.layers != [] && LayerClean(l)
    ensures AllClean(s.WithTop(l))
  {
  }

  lemma FlushClean(s: Stack)
    requires AllClean(s) && CanOpen(s) && ModifiersOk(s)
    ensures AllClean(Flush(s))
  {
    var n, r := |s.layers|, Flush(s);
    assert LayerClean(s.layers[n - 1]);
    if n > 1 {
      assert LayerClean(s.layers[n - 2]);
      assert LayerClean(r.layers[n - 2]);
    }
  }

  lemma UncacheClean(s: Stack, i: nat, t: Txid)
    requires AllClean(s) && i < |s.layers|
    ensures AllClean(Uncache(s, i, t))
  {
  }

  lemma ModifyClean(s: Stack, t: Txid)
    requires AllClean(s) && CanOpen(s) && ModifiersOk(s)
    ensures AllClean(OpenCoins(s, t))
  {
    var n, r := |s.layers|, OpenCoins(s, t);
    assert LayerClean(s.layers[n - 1]);
    var f := if t in s.Top().entries then s else Fetch(s, n - 1, t);
    FetchClean(s, n - 1, t);
    assert LayerClean(r.Top());
    TopClean(f, r.Top());
  }

  lemma DoneClean(s: Stack)
    requires AllClean(s) && IsOpen(s)
    ensures AllClean(Close(s))
  {
    var r := Close(s);
    assert LayerClean(s.layers[|s.layers| - 1]);
    assert LayerClean(r.Top());
    TopClean(s, r.Top());
  }

  /** Every legal step keeps the stored coins clean. */
  lemma StepClean(s: Stack, op: Op)
    requires StackOk(s) && AllClean(s) && Legal(s, op)
    ensures AllClean(Exec(s, op))
  {
    match op
    case Push =>
    case Discard =>
    case Read(n, t) =>
      if !(n == |s.layers| > 0 && UnderModifier(s.Top(), t)) {
        FetchClean(s, n, t);
      }
    case Evict(i, t) => UncacheClean(s, i, t);
    case Modify(t) => ModifyClean(s, t);
    case ModifyNew(t, coinbase) =>
      assert LayerClean(s.layers[|s.layers| - 1]);
      TopClean(s, OpenNew(s, t, coinbase).Top());
    case Write(c) =>
      assert LayerClean(s.layers[|s.layers| - 1]);
      TopClean(s, Assign(s, c).Top());
    case Done => DoneClean(s);
    case FlushTop => FlushClean(s);
  }

  /**
   `HaveCoins` never misses unspent coins, and over clean coins it is true for nothing else. It can be true for
   spent coins only while they end in spent outputs, as they may under an open modifier.
   */
  lemma HaveIsUnspent(s: Stack, n: nat, t: Txid)
    requires StackOk(s) && n <= |s.layers|
    ensures Seen(s, n, t).Some? ==> Have(s, n, t)
    ensures AllClean(s) && (n == |s.layers| > 0 ==> !UnderModifier(s.Top(), t)) ==>
              (Have(s, n, t) <==> Seen(s, n, t).Some?)
  {
    if AllClean(s) && (n == |s.layers| > 0 ==> !UnderModifier(s.Top(), t)) {
      LookupClean(s, n, t);
      if Lookup(s, n, t).Some? {
        CleanPrunedIsEmpty(Lookup(s, n, t).value);
      }
    }
  }
}

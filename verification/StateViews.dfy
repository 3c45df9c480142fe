/**
 The operations of `CStateViewCache` as they run, on a stack of caches updated in place. Each method does to the
 stack what the function of `CoinsCache` with the same purpose says, so the results proved there hold of it.
 */
module StateViews {
  import opened Options
  import opened Coins
  import opened CoinsCache

  class ViewStack {
    var bottom: map<Txid, Coins>
    var layers: seq<Layer>

    function State(): Stack
      reads this
    {
      Stack(bottom, layers)
    }

    /** An empty stack over a bottom view. */
    constructor (bottom: map<Txid, Coins>)
      ensures State() == Stack(bottom, [])
    {
      this.bottom := bottom;
      this.layers := [];
    }

    method FetchCoins(n: nat, t: Txid) returns (found: bool)
      requires 0 < n <= |layers|
      modifies this
      ensures State() == Fetch(old(State()), n, t)
      ensures found <==> t in layers[n - 1].entries
      ensures found <==> old(Lookup(State(), n, t)).Some?
      ensures found ==> old(Lookup(State(), n, t)).value == layers[n - 1].entries[t].coins
      decreases n, 0
    {
      if t in layers[n - 1].entries {
        return true;
      }
      var answer := GetCoins(n - 1, t);
      if answer.None? {
        return false;
      }
      var entry := Entry(answer.value, false, false);
      if answer.value.IsPruned() {
        entry := entry.(isFresh := true);
      }
      var l := layers[n - 1];
      layers := layers[n - 1 := l.(entries := l.entries[t := entry],
                                   usage := l.usage + answer.value.DynamicMemoryUsage())];
      found := true;
    }

    /** The answer at height `n`; caches it passes through are filled on the way. */
    method GetCoins(n: nat, t: Txid) returns (answer: Option<Coins>)
      requires n <= |layers|
      modifies this
      ensures State() == Fetch(old(State()), n, t)
      ensures answer == old(Lookup(State(), n, t))
      decreases n, 1
    {
      if n == 0 {
        return if t in bottom then Some(bottom[t]) else None;
      }
      var found := FetchCoins(n, t);
      answer := if found then Some(layers[n - 1].entries[t].coins) else None;
    }

    method HaveCoins(n: nat, t: Txid) returns (have: bool)
      requires 0 < n <= |layers|
      modifies this
      ensures State() == Fetch(old(State()), n, t)
      ensures have == old(Have(State(), n, t))
    {
      var found := FetchCoins(n, t);
      have := found && layers[n - 1].entries[t].coins.vout != [];
    }

    /** Opens a modifier and hands out the coins found: the visible unspent ones, or pruned coins if there are none. */
    method ModifyCoins(t: Txid) returns (c: Coins)
      requires layers != [] && layers[|layers| - 1].modifier.None?
      modifies this
      ensures State() == OpenCoins(old(State()), t)
      ensures Unspent(Some(c)) == old(Seen(State(), |layers|, t))
      ensures t in State().Top().entries && c == State().Top().entries[t].coins
    {
      var n := |layers|;
      var l := layers[n - 1];
      var recorded := 0;
      var entry := Entry(EMPTY, false, false);
      if t !in l.entries {
        var answer := GetCoins(n - 1, t);
        if answer.None? {
          entry := Entry(EMPTY, false, true);
        } else {
          entry := entry.(coins := answer.value);
          if answer.value.IsPruned() {
            entry := entry.(isFresh := true);
          }
        }
      } else {
        entry := l.entries[t];
        recorded := entry.coins.DynamicMemoryUsage();
      }
      entry := entry.(isDirty := true);
      layers := layers[n - 1 := l.(entries := l.entries[t := entry], modifier := Some(Modifier(t, recorded)))];
      c := entry.coins;
    }

    method ModifyNewCoins(t: Txid, coinbase: bool)
      requires layers != [] && layers[|layers| - 1].modifier.None?
      modifies this
      ensures State() == OpenNew(old(State()), t, coinbase)
    {
      var l := State().Top();
      var entry := if t in l.entries then l.entries[t] else Entry(EMPTY, false, false);
      entry := entry.(coins := EMPTY);
      if !coinbase {
        entry := entry.(isFresh := true, isDirty := false);
      }
      entry := entry.(isDirty := true);
      layers := layers[|layers| - 1 := l.(entries := l.entries[t := entry], modifier := Some(Modifier(t, 0)))];
    }

    /** The end of a modifier's life. */
    method CloseModifier()
      requires layers != [] && State().Top().modifier.Some? && State().Top().modifier.value.txid in State().Top().entries
      modifies this
      ensures State() == Close(old(State()))
    {
      var l := State().Top();
      var m := l.modifier.value;
      var entry := l.entries[m.txid];
      var cleaned := Cleanup(entry.coins);
      entry := entry.(coins := cleaned);
      var usage := l.usage - m.recorded;
      if entry.isFresh && entry.coins.IsPruned() {
        l := Layer(l.entries - {m.txid}, None, usage);
      } else {
        l := Layer(l.entries[m.txid := entry], None, usage + entry.coins.DynamicMemoryUsage());
      }
      layers := layers[|layers| - 1 := l];
    }

    method UncacheCoins(i: nat, t: Txid)
      requires i < |layers|
      modifies this
      ensures State() == Uncache(old(State()), i, t)
    {
      var l := layers[i];
      if t in l.entries && !l.entries[t].isDirty && !l.entries[t].isFresh {
        layers := layers[i := l.(usage := l.usage - l.entries[t].coins.DynamicMemoryUsage(), entries := l.entries - {t})];
      }
    }

    /** One turn of the loop in `BatchWrite`: the entry of `t` is merged and the counter follows. */
    static method MergeOne(entries: Entries, usage: int, t: Txid, entry: Entry) returns (merged: Entries, counter: int)
      ensures EntryAt(merged, t) == MergeEntry(EntryAt(entries, t), entry)
      ensures forall u | u != t :: EntryAt(merged, u) == EntryAt(entries, u)
      ensures counter - Usage(merged) == usage - Usage(entries)
    {
      merged, counter := entries, usage;
      if entry.isDirty {
        if t !in entries {
          if !(entry.isFresh && entry.coins.IsPruned()) {
            UsagePut(entries, t, Entry(entry.coins, true, entry.isFresh));
            merged := entries[t := Entry(entry.coins, true, entry.isFresh)];
            counter := counter + entry.coins.DynamicMemoryUsage();
          }
        } else {
          UsageTake(entries, t);
          counter := counter - entries[t].coins.DynamicMemoryUsage();
          if entries[t].isFresh && entry.coins.IsPruned() {
            merged := entries - {t};
          } else {
            UsagePut(entries, t, Entry(entry.coins, true, entries[t].isFresh));
            merged := entries[t := entries[t].(coins := entry.coins, isDirty := true)];
            counter := counter + entry.coins.DynamicMemoryUsage();
          }
        }
      }
    }

    /** The loop of `BatchWrite`, visiting the child's entries in any order. */
    static method MergeAll(ours: Entries, usage: int, theirs: Entries) returns (entries: Entries, counter: int)
      ensures entries == Merged(ours, theirs)
      ensures counter - Usage(entries) == usage - Usage(ours)
    {
      var todo := theirs.Keys;
      entries, counter := ours, usage;
      while todo != {}
        invariant todo <= theirs.Keys
        invariant MergedBut(entries, ours, theirs, todo)
        invariant counter - Usage(entries) == usage - Usage(ours)
        decreases |todo|
      {
        var t :| t in todo;
        assert EntryAt(entries, t) == EntryAt(ours, t);
        entries, counter := MergeOne(entries, counter, t, theirs[t]);
        todo := todo - {t};
      }
      SamePointwise(entries, ours, theirs);
    }

    method BatchWrite(i: nat, theirs: Entries)
      requires i < |layers| && layers[i].modifier.None?
      modifies this
      ensures State() == old(State()).(layers := old(layers)[i := FlushedInto(old(layers[i]), theirs)])
    {
      var entries, usage := MergeAll(layers[i].entries, layers[i].usage, theirs);
      layers := layers[i := layers[i].(entries := entries, usage := usage)];
    }

    /** `BatchWrite` of the database. */
    method BatchWriteBottom(theirs: Entries)
      modifies this
      ensures State() == Stack(BottomMerged(old(bottom), theirs), old(layers))
    {
      var todo := theirs.Keys;
      var db := bottom;
      while todo != {}
        invariant todo <= theirs.Keys
        invariant forall t :: t in db <==> if t !in todo && Writes(theirs, t) then !theirs[t].coins.IsPruned() else t in bottom
        invariant forall t | t in db :: db[t] == if t !in todo && Writes(theirs, t) then theirs[t].coins else bottom[t]
        decreases |todo|
      {
        var t :| t in todo;
        if theirs[t].isDirty {
          if theirs[t].coins.IsPruned() {
            db := db - {t};
          } else {
            db := db[t := theirs[t].coins];
          }
        }
        todo := todo - {t};
      }
      assert db == BottomMerged(bottom, theirs);
      bottom := db;
    }

    method FlushTop()
      requires layers != [] && State().Top().modifier.None?
      requires |layers| > 1 ==> layers[|layers| - 2].modifier.None?
      modifies this
      ensures State() == Flush(old(State()))
    {
      var n := |layers|;
      if n == 1 {
        BatchWriteBottom(layers[0].entries);
      } else {
        BatchWrite(n - 2, layers[n - 1].entries);
      }
      layers := layers[n - 1 := layers[n - 1].(entries := map[], usage := 0)];
      assert n > 1 ==> layers == old(layers)[..n - 2] + [layers[n - 2], NEW_LAYER];
    }
  }

  /** Every entry is merged, except those still to do, which are as they were. */
  ghost predicate MergedBut(entries: Entries, ours: Entries, theirs: Entries, todo: set<Txid>) {
    forall t :: EntryAt(entries, t) == (if t in todo then EntryAt(ours, t) else MergedAt(ours, theirs, t))
  }

  lemma SamePointwise(entries: Entries, ours: Entries, theirs: Entries)
    requires MergedBut(entries, ours, theirs, {})
    ensures entries == Merged(ours, theirs)
  {
    forall t ensures EntryAt(entries, t) == EntryAt(Merged(ours, theirs), t) {
      MergedPointwise(ours, theirs, t);
    }
    assert forall t :: (t in entries <==> EntryAt(entries, t).Some?);
  }
}

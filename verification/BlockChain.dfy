/**
 The block index: a tree of blocks linked to their predecessors, with skip pointers for fast access to ancestors, and
 the active chain, a vector of the blocks from genesis to the tip.
 */
module BlockChain {
  import opened Numbers

  // ---------- Skip heights ----------

  /** Bitwise and of two natural numbers. */
  function And(x: nat, y: nat): nat {
    if x == 0 || y == 0 then 0 else 2 * And(x / 2, y / 2) + if x % 2 == 1 && y % 2 == 1 then 1 else 0
  }

  lemma {:induction false} AndBelow(x: nat, y: nat)
    ensures And(x, y) <= x && And(x, y) <= y
  {
    if x > 0 && y > 0 {
      AndBelow(x / 2, y / 2);
    }
  }

  lemma {:induction false} AndSelf(x: nat)
    ensures And(x, x) == x
  {
    if x > 0 {
      AndSelf(x / 2);
    }
  }

  function InvertLowestOne(n: nat): nat {
    if n == 0 then 0 else And(n, n - 1)
  }

  /** A number shifted left by k bits. */
  function Shifted(n: nat, k: nat): nat {
    if k == 0 then n else 2 * Shifted(n, k - 1)
  }

  lemma {:induction false} ShiftedPositive(n: nat, k: nat)
    requires n > 0
    ensures Shifted(n, k) > 0
  {
    if k > 0 {
      ShiftedPositive(n, k - 1);
    }
  }

  lemma AndDoubled(n: nat)
    requires n > 0
    ensures And(2 * n, 2 * n - 1) == 2 * And(n, n - 1)
  {
    assert 2 * n / 2 == n && (2 * n - 1) / 2 == n - 1 && 2 * n % 2 == 0;
  }

  /** The lowest one bit, at position k, is turned off and the rest stays. */
  lemma {:induction false} LowestOneInverted(q: nat, k: nat)
    ensures InvertLowestOne(Shifted(2 * q + 1, k)) == Shifted(2 * q, k)
  {
    if k == 0 {
      AndSelf(q);
    } else {
      LowestOneInverted(q, k - 1);
      ShiftedPositive(2 * q + 1, k - 1);
      AndDoubled(Shifted(2 * q + 1, k - 1));
    }
  }

  lemma InvertBelow(n: nat)
    ensures InvertLowestOne(n) <= n && (n > 0 ==> InvertLowestOne(n) < n)
  {
    if n > 0 {
      AndBelow(n, n - 1);
    }
  }

  function GetSkipHeight(height: int): nat {
    if height < 2 then 0
    else if height % 2 == 1 then InvertLowestOne(InvertLowestOne(height - 1)) + 1
    else InvertLowestOne(height)
  }

  /** A skip goes strictly back, so following skips ends. */
  lemma SkipGoesBack(height: nat)
    requires height > 0
    ensures GetSkipHeight(height) < height
  {
    if height >= 2 {
      InvertBelow(height - 1);
      InvertBelow(InvertLowestOne(height - 1));
      InvertBelow(height);
    }
  }

  /** The value of the lowest one bit: the greatest power of two that divides the number. */
  function LowestOne(n: nat): nat {
    if n == 0 then 0 else if n % 2 == 1 then 1 else 2 * LowestOne(n / 2)
  }

  lemma {:induction false} LowestOneShifted(q: nat, k: nat)
    ensures LowestOne(Shifted(2 * q + 1, k)) == Shifted(1, k)
  {
    if k > 0 {
      LowestOneShifted(q, k - 1);
      ShiftedPositive(2 * q + 1, k - 1);
    }
  }

  lemma {:induction false} InvertIs(n: nat)
    ensures LowestOne(n) <= n && InvertLowestOne(n) == n - LowestOne(n)
  {
    if n % 2 == 1 {
      AndSelf(n / 2);
    } else if n > 0 {
      InvertIs(n / 2);
      AndDoubled(n / 2);
    }
  }

  /** How far a skip goes: from an even height the lowest one bit, from an odd one the two lowest of the one before. */
  lemma SkipExactly(height: nat)
    requires height >= 2
    ensures height % 2 == 0 ==> GetSkipHeight(height) == height - LowestOne(height)
    ensures height % 2 == 1 ==>
      var even := height - 1;
      var less := even - LowestOne(even);
      less >= 0 && GetSkipHeight(height) == less - LowestOne(less) + 1
  {
    hide InvertLowestOne, LowestOne;
    InvertIs(height);
    InvertIs(height - 1);
    InvertIs(InvertLowestOne(height - 1));
  }

  // ---------- The tree ----------

  class BlockIndex {
    const hash: nat
    const pprev: BlockIndex?
    const nHeight: nat
    var pskip: BlockIndex?
    /** The blocks from genesis to this one. */
    ghost const path: seq<BlockIndex>

    /** `path` is the line of predecessors. */
    ghost predicate Linked() {
      |path| == nHeight + 1 && path[nHeight] == this && forall i: nat | i < |path| :: OnPath(path, i)
    }

    static ghost predicate OnPath(path: seq<BlockIndex>, i: nat)
      requires i < |path|
    {
      path[i].path == path[..i + 1] && path[i].nHeight == i && path[i].pprev == if i == 0 then null else path[i - 1]
    }

    /** The skip pointers on the path that are set are right. */
    ghost predicate Valid()
      reads path
    {
      Linked() && forall i: nat | i < |path| :: SkipsRight(path, i)
    }

    static ghost predicate SkipsRight(path: seq<BlockIndex>, i: nat)
      requires i < |path|
      reads path[i]
    {
      path[i].pskip != null ==> GetSkipHeight(i) <= i && path[i].pskip == path[GetSkipHeight(i)]
    }

    /** A new block on top of another, or a block without predecessor. */
    constructor (hash: nat, prev: BlockIndex?)
      requires prev != null ==> prev.Valid()
      ensures this.hash == hash && pprev == prev && pskip == null && Valid()
      ensures path == (if prev == null then [] else prev.path) + [this]
    {
      this.hash := hash;
      pprev := prev;
      nHeight := if prev == null then 0 else prev.nHeight + 1;
      pskip := null;
      path := (if prev == null then [] else prev.path) + [this];
      new;
      forall i: nat | i < |path|
        ensures OnPath(path, i) && SkipsRight(path, i)
      {
        if i < nHeight {
          assert OnPath(prev.path, i) && SkipsRight(prev.path, i);
          assert path[..i + 1] == prev.path[..i + 1];
        } else {
          assert path[..i + 1] == path;
        }
      }
    }

    /** The path of a block on the path is the path up to it. */
    lemma PathLinked(i: nat)
      requires Linked() && i < |path|
      ensures path[i].Linked() && path[i].path == path[..i + 1] && path[i].nHeight == i
    {
      assert OnPath(path, i);
      var b := path[i];
      forall k: nat | k < |b.path|
        ensures OnPath(b.path, k)
      {
        assert OnPath(path, k);
        assert b.path[..k + 1] == path[..k + 1];
      }
    }

    lemma PathValid(i: nat)
      requires Valid() && i < |path|
      ensures path[i].Valid() && path[i].path == path[..i + 1] && path[i].nHeight == i
    {
      PathLinked(i);
      var b := path[i];
      forall k: nat | k < |b.path|
        ensures SkipsRight(b.path, k)
      {
        assert SkipsRight(path, k);
      }
    }

    /** `GetAncestor`, with its choice between skipping and stepping back. */
    method GetAncestor(height: int) returns (r: BlockIndex?)
      requires Valid()
      ensures r == if 0 <= height <= nHeight then path[height] else null
    {
      if height > nHeight || height < 0 {
        return null;
      }
      var walk: BlockIndex := this;
      var heightWalk := nHeight;
      while heightWalk > height
        invariant height <= heightWalk <= nHeight && walk == path[heightWalk]
      {
        var heightSkip := GetSkipHeight(heightWalk);
        var heightSkipPrev := GetSkipHeight(heightWalk - 1);
        SkipGoesBack(heightWalk);
        assert OnPath(path, heightWalk) && SkipsRight(path, heightWalk);
        if walk.pskip != null &&
           (heightSkip == height ||
            (heightSkip > height && !(heightSkipPrev < heightSkip - 2 && heightSkipPrev >= height)))
        {
          walk := walk.pskip;
          heightWalk := heightSkip;
        } else {
          assert walk.pprev != null;
          walk := walk.pprev;
          heightWalk := heightWalk - 1;
        }
      }
      return walk;
    }

    /** `BuildSkip` keeps every valid block valid. */
    method BuildSkip(ghost tree: set<BlockIndex>)
      requires Valid() && forall b <- tree :: b.Valid()
      modifies this`pskip
      ensures Valid() && forall b <- tree :: b.Valid()
      ensures pprev != null ==> GetSkipHeight(nHeight) < nHeight && pskip == path[GetSkipHeight(nHeight)]
    {
      if pprev != null {
        assert OnPath(path, nHeight);
        PathValid(nHeight - 1);
        SkipGoesBack(nHeight);
        var skip := pprev.GetAncestor(GetSkipHeight(nHeight));
        pskip := skip;
        forall b <- tree + {this}
          ensures b.Valid()
        {
          forall i: nat | i < |b.path|
            ensures SkipsRight(b.path, i)
          {
            assert old(SkipsRight(b.path, i)) && OnPath(b.path, i);
          }
        }
      }
    }
  }

  /** The plain walk back through the predecessors. */
  function Back(b: BlockIndex?, n: nat): BlockIndex? {
    if n == 0 || b == null then b else Back(b.pprev, n - 1)
  }

  /** What `GetAncestor` returns is what the plain walk arrives at. */
  lemma {:induction false} BackIsPath(b: BlockIndex, n: nat)
    requires b.Linked()
    ensures Back(b, n) == if n <= b.nHeight then b.path[b.nHeight - n] else null
    decreases n
  {
    assert BlockIndex.OnPath(b.path, b.nHeight);
    if n > 0 && b.nHeight > 0 {
      b.PathLinked(b.nHeight - 1);
      BackIsPath(b.pprev, n - 1);
    } else if n > 0 {
      assert Back(b, n) == Back(null, n - 1);
    }
  }

  /** The blocks of an index and all blocks before them. */
  ghost function Reached(index: map<nat, BlockIndex>): (r: set<BlockIndex>)
    ensures forall hash, i: nat | hash in index && i < |index[hash].path| :: index[hash].path[i] in r
  {
    set hash, i: nat | hash in index && i < |index[hash].path| :: index[hash].path[i]
  }

  /** The block index: blocks by their hashes. */
  class BlockMap {
    var mapBlockIndex: map<nat, BlockIndex>

    /** Every block is under its own hash and valid. */
    ghost predicate Valid()
      reads this, Reached(mapBlockIndex)
    {
      forall hash | hash in mapBlockIndex :: mapBlockIndex[hash].hash == hash && mapBlockIndex[hash].Valid()
    }

    constructor ()
      ensures Valid() && mapBlockIndex == map[]
    {
      mapBlockIndex := map[];
    }

    /**
     `AddToBlockIndex`: a known block is returned as it is. Another one gets its predecessor, if that is known, and its
     skip pointer, and every block stays valid.
     */
    method AddToBlockIndex(hash: nat, hashPrev: nat) returns (b: BlockIndex)
      requires Valid() && hash != hashPrev
      modifies this
      ensures Valid() && mapBlockIndex == old(mapBlockIndex)[hash := b]
      ensures hash in old(mapBlockIndex) ==> b == old(mapBlockIndex)[hash]
      ensures hash !in old(mapBlockIndex) ==>
        && fresh(b) && b.hash == hash
        && b.pprev == (if hashPrev in old(mapBlockIndex) then old(mapBlockIndex)[hashPrev] else null)
        && (b.pprev == null ==> b.pskip == null)
        && (b.pprev != null ==> GetSkipHeight(b.nHeight) < b.nHeight)
        && (b.pprev != null ==> b.pskip == Back(b, b.nHeight - GetSkipHeight(b.nHeight)))
    {
      if hash in mapBlockIndex {
        return mapBlockIndex[hash];
      }
      var prev: BlockIndex? := null;
      if hashPrev in mapBlockIndex {
        prev := mapBlockIndex[hashPrev];
      }
      ghost var tree := mapBlockIndex.Values;
      b := new BlockIndex(hash, prev);
      if prev != null {
        b.BuildSkip(tree);
        SkipGoesBack(b.nHeight);
        BackIsPath(b, b.nHeight - GetSkipHeight(b.nHeight));
      }
      assert forall k | k in mapBlockIndex :: mapBlockIndex[k] in tree;
      mapBlockIndex := mapBlockIndex[hash := b];
    }
  }

  // ---------- The active chain ----------

  /** The vector holds exactly the blocks of a path. */
  ghost predicate Holds(v: seq<BlockIndex?>, path: seq<BlockIndex>) {
    |v| == |path| && forall i: nat | i < |v| :: v[i] == path[i]
  }

  /** The vector is empty, or the path of its last element. */
  ghost predicate IsChain(v: seq<BlockIndex?>) {
    v != [] ==> var tip := v[|v| - 1]; tip != null && tip.Linked() && Holds(v, tip.path)
  }

  /** A block on the chain has its whole path on the chain. */
  lemma PathOnChain(v: seq<BlockIndex?>, b: BlockIndex)
    requires IsChain(v) && b.Linked() && b.nHeight < |v| && v[b.nHeight] == b
    ensures forall i: nat | i < |b.path| :: v[i] == b.path[i]
  {
    var tip := v[|v| - 1];
    assert BlockIndex.OnPath(tip.path, b.nHeight);
  }

  class Chain {
    var vChain: seq<BlockIndex?>

    ghost predicate Valid()
      reads this
    {
      IsChain(vChain)
    }

    constructor ()
      ensures Valid() && vChain == []
    {
      vChain := [];
    }

    function Height(): int
      reads this
    {
      |vChain| - 1
    }

    function Tip(): BlockIndex?
      reads this
    {
      if |vChain| > 0 then vChain[|vChain| - 1] else null
    }

    function At(height: int): BlockIndex?
      reads this
    {
      if height < 0 || height >= |vChain| then null else vChain[height]
    }

    predicate Contains(b: BlockIndex)
      reads this
    {
      At(b.nHeight) == b
    }

    function Next(b: BlockIndex): (n: BlockIndex?)
      requires Valid()
      reads this
      ensures n != null <==> Contains(b) && b.nHeight < Height()
      ensures n != null ==> n.pprev == b && Contains(n)
    {
      assert Contains(b) && b.nHeight + 1 < |vChain| ==> BlockIndex.OnPath(Tip().path, b.nHeight + 1);
      if Contains(b) then At(b.nHeight + 1) else null
    }

    /** `SetTip`: despite stopping at the first block already in place, the vector becomes the path of the tip. */
    method SetTip(b: BlockIndex?)
      requires Valid() && (b != null ==> b.Linked())
      modifies this
      ensures Valid() && Tip() == b
      ensures Holds(vChain, if b == null then [] else b.path)
    {
      if b == null {
        vChain := [];
        return;
      }
      ghost var before := vChain;
      vChain := if |vChain| >= b.nHeight + 1 then vChain[..b.nHeight + 1]
                else vChain + seq(b.nHeight + 1 - |vChain|, _ => null);
      ghost var resized := vChain;
      var pindex: BlockIndex? := b;
      while pindex != null && vChain[pindex.nHeight] != pindex
        invariant |vChain| == b.nHeight + 1
        invariant pindex != null ==> pindex.nHeight <= b.nHeight && pindex == b.path[pindex.nHeight]
        invariant forall i: nat | Left(pindex) <= i <= b.nHeight :: vChain[i] == b.path[i]
        invariant forall i: nat | i < Left(pindex) :: vChain[i] == resized[i]
        decreases Left(pindex)
      {
        assert BlockIndex.OnPath(b.path, pindex.nHeight);
        assert pindex.nHeight > 0 ==> BlockIndex.OnPath(b.path, pindex.nHeight - 1);
        vChain := vChain[pindex.nHeight := pindex];
        pindex := pindex.pprev;
      }
      if pindex != null {
        b.PathLinked(pindex.nHeight);
        PathOnChain(before, pindex);
      }
    }

    /** `FindFork`: the highest block on the chain among a block and its ancestors, if there is one. */
    method FindFork(b: BlockIndex?) returns (r: BlockIndex?)
      requires Valid() && (b != null ==> b.Valid())
      ensures r != null ==> b != null && r.nHeight <= b.nHeight && r == b.path[r.nHeight] && Contains(r)
      ensures b != null ==> forall i: nat | i < |b.path| && At(i) == b.path[i] :: r != null && i <= r.nHeight
    {
      if b == null {
        return null;
      }
      r := b;
      if b.nHeight > Height() {
        r := b.GetAncestor(Height());
        if r != null {
          assert BlockIndex.OnPath(b.path, Height());
        }
      }
      while r != null && !Contains(r)
        invariant r != null ==> r.nHeight <= b.nHeight && r == b.path[r.nHeight]
        invariant forall i: nat | i < |b.path| && At(i) == b.path[i] :: i < Left(r)
        decreases Left(r)
      {
        assert BlockIndex.OnPath(b.path, r.nHeight);
        assert r.nHeight > 0 ==> BlockIndex.OnPath(b.path, r.nHeight - 1);
        r := r.pprev;
      }
    }

    /** A block the locator can start from: on the chain, or with right skip pointers. */
    ghost predicate Usable(b: BlockIndex)
      reads this, b.path
    {
      b.Linked() && (Contains(b) || b.Valid())
    }

    /** One lookup of the locator, in the vector when possible and through the skip pointers otherwise. */
    method LookBack(b: BlockIndex, height: nat) returns (r: BlockIndex)
      requires Valid() && Usable(b) && height <= b.nHeight
      ensures r == b.path[height] && Usable(r) && r.nHeight == height && OnPathOf(b, r)
    {
      b.PathLinked(height);
      if Contains(b) {
        PathOnChain(vChain, b);
        r := At(height);
      } else {
        b.PathValid(height);
        r := b.GetAncestor(height);
      }
    }

    /**
     `GetLocator`: the hashes of the block and of its ancestors at the locator's heights, whether each is looked up in
     the vector or through the skip pointers.
     */
    method GetLocator(start: BlockIndex?) returns (vHave: seq<nat>)
      requires Valid() && (start != null ==> start.Valid())
      ensures var from := if start == null then Tip() else start;
        && (from == null ==> vHave == [])
        && (from != null ==> HashesAt(vHave, from.path, LocatorHeights(from.nHeight, 1, 0)))
    {
      var from := if start == null then Tip() else start;
      if from == null {
        return [];
      }
      assert Usable(from);
      assert from.path[..from.nHeight + 1] == from.path;
      LocatorHashes(from.path, from.nHeight, 1, 0);
      var nStep;
      vHave, nStep := LocateFrom(from);
    }

    /** The loop, with the last value of its step. */
    method LocateFrom(from: BlockIndex) returns (vHave: seq<nat>, nStep: nat)
      requires Valid() && Usable(from) && OnPathOf(from, from)
      ensures vHave == Locator(from.path, from.nHeight, 1, 0)
      ensures nStep == LastStep(from.nHeight, 1, 0)
    {
      hide Usable, Locator, OnPathOf, IsChain;
      OnPathInside(from, from);
      var pindex: BlockIndex := from;
      nStep := 1;
      vHave := [];
      while true
        invariant nStep > 0 && LastStep(from.nHeight, 1, 0) == LastStep(pindex.nHeight, nStep, |vHave|)
        invariant Usable(pindex) && OnPathOf(from, pindex) && pindex.nHeight < |from.path|
        invariant Locator(from.path, from.nHeight, 1, 0) ==
          vHave + Locator(from.path, pindex.nHeight, nStep, |vHave|)
        decreases pindex.nHeight
      {
        LocatorStep(from, pindex, nStep, vHave);
        vHave := vHave + [pindex.hash];
        if pindex.nHeight == 0 {
          break;
        }
        var nHeight := if pindex.nHeight - nStep > 0 then pindex.nHeight - nStep else 0;
        var next := LookBack(pindex, nHeight);
        FurtherBack(from, pindex, next);
        pindex := next;
        if |vHave| > 10 {
          nStep := nStep * 2;
        }
      }
    }

    /** The number of blocks still to be set. */
    static ghost function Left(b: BlockIndex?): nat {
      if b == null then 0 else b.nHeight + 1
    }
  }

  // ---------- Locators ----------

  /** The heights of a locator: one step back at first, and from the eleventh entry on steps that double. */
  function LocatorHeights(h: nat, step: nat, size: nat): seq<nat>
    requires step > 0
    decreases h
  {
    if h == 0 then [0]
    else
      [h] + LocatorHeights(if h - step > 0 then h - step else 0, if size + 1 > 10 then 2 * step else step, size + 1)
  }

  /** The hashes that go with the heights. */
  ghost function Locator(path: seq<BlockIndex>, h: nat, step: nat, size: nat): seq<nat>
    requires step > 0 && h < |path|
    decreases h
  {
    if h == 0 then [path[h].hash]
    else
      [path[h].hash] +
      Locator(path, if h - step > 0 then h - step else 0, if size + 1 > 10 then 2 * step else step, size + 1)
  }

  lemma {:induction false} LocatorHashes(path: seq<BlockIndex>, h: nat, step: nat, size: nat)
    requires step > 0 && h < |path|
    ensures HashesAt(Locator(path, h, step, size), path, LocatorHeights(h, step, size))
    decreases h
  {
    if h > 0 {
      LocatorHashes(path, if h - step > 0 then h - step else 0, if size + 1 > 10 then 2 * step else step, size + 1);
    }
  }

  lemma LocatorStep(from: BlockIndex, b: BlockIndex, step: nat, have: seq<nat>)
    requires step > 0 && OnPathOf(from, b)
    ensures have + Locator(from.path, b.nHeight, step, |have|) ==
      if b.nHeight == 0 then have + [b.hash]
      else have + [b.hash] +
           Locator(from.path, if b.nHeight - step > 0 then b.nHeight - step else 0,
                   if |have| + 1 > 10 then 2 * step else step, |have| + 1)
  {
  }

  lemma OnPathInside(from: BlockIndex, b: BlockIndex)
    requires OnPathOf(from, b)
    ensures b.nHeight < |from.path|
  {
  }

  ghost predicate OnPathOf(from: BlockIndex, b: BlockIndex) {
    b.nHeight < |from.path| && b == from.path[b.nHeight] && b.path == from.path[..b.nHeight + 1]
  }

  lemma FurtherBack(from: BlockIndex, b: BlockIndex, c: BlockIndex)
    requires OnPathOf(from, b) && OnPathOf(b, c)
    ensures OnPathOf(from, c) && c.nHeight < |from.path|
  {
  }

  /** The heights go strictly down and end at genesis. */
  lemma {:induction false} LocatorDescends(h: nat, step: nat, size: nat)
    requires step > 0
    ensures var s := LocatorHeights(h, step, size);
      && |s| > 0 && s[0] == h && s[|s| - 1] == 0
      && forall i, j | 0 <= i < j < |s| :: s[i] > s[j]
    decreases h
  {
    if h > 0 {
      var next := if h - step > 0 then h - step else 0;
      var rest := LocatorHeights(next, if size + 1 > 10 then 2 * step else step, size + 1);
      LocatorDescends(next, if size + 1 > 10 then 2 * step else step, size + 1);
      var s := LocatorHeights(h, step, size);
      assert s == [h] + rest;
      forall i, j | 0 <= i < j < |s|
        ensures s[i] > s[j]
      {
        assert s[j] == rest[j - 1];
        if i > 0 {
          assert s[i] == rest[i - 1];
        }
      }
    }
  }

  /** The first twelve entries are consecutive. */
  lemma {:induction false} LocatorDense(h: nat, size: nat, i: nat)
    requires size <= 11 && i <= h && i + size <= 11
    ensures var s := LocatorHeights(h, 1, size); i < |s| && s[i] == h - i
    decreases h
  {
    if i > 0 {
      LocatorDense(h - 1, size + 1, i - 1);
    }
  }

  /** The last value of the step, which is also the largest. */
  function LastStep(h: nat, step: nat, size: nat): (last: nat)
    requires step > 0
    ensures last >= step
    decreases h
  {
    if h == 0 then step
    else LastStep(if h - step > 0 then h - step else 0, if size + 1 > 10 then 2 * step else step, size + 1)
  }

  /** From the eleventh entry on the step doubles each time. */
  lemma {:induction false} Doubling(h: nat, step: nat, size: nat)
    requires step > 0 && size >= 10
    ensures |LocatorHeights(h, step, size)| > 0
    ensures LastStep(h, step, size) == step * Pow(2, |LocatorHeights(h, step, size)| - 1)
    decreases h
  {
    if h > 0 {
      var next := if h - step > 0 then h - step else 0;
      Doubling(next, 2 * step, size + 1);
      var n := |LocatorHeights(next, 2 * step, size + 1)|;
      assert |LocatorHeights(h, step, size)| == n + 1;
      assert Pow(2, n) == 2 * Pow(2, n - 1);
      MulAssoc(step, 2, Pow(2, n - 1));
    }
  }

  /** The heights covered by doubling steps. */
  lemma {:induction false} Covered(h: nat, step: nat, size: nat)
    requires step > 0 && size >= 10 && h > 0
    ensures var n := |LocatorHeights(h, step, size)|;
      n >= 2 && step * Pow(2, n - 2) - step < h <= step * Pow(2, n - 1) - step
    decreases h
  {
    var next := if h - step > 0 then h - step else 0;
    var n := |LocatorHeights(h, step, size)|;
    var rest := LocatorHeights(next, 2 * step, size + 1);
    assert n == |rest| + 1;
    if next > 0 {
      Covered(next, 2 * step, size + 1);
      CoveredStep(h, step, n);
    } else {
      assert rest == [0] && Pow(2, 0) == 1 && Pow(2, 1) == 2;
    }
  }

  lemma CoveredStep(h: nat, step: nat, n: nat)
    requires n >= 3 && 2 * step * Pow(2, n - 3) - 2 * step < h - step <= 2 * step * Pow(2, n - 2) - 2 * step
    ensures step * Pow(2, n - 2) - step < h <= step * Pow(2, n - 1) - step
  {
    assert Pow(2, n - 2) == 2 * Pow(2, n - 3) && Pow(2, n - 1) == 2 * Pow(2, n - 2);
    MulAssoc(step, 2, Pow(2, n - 3));
    MulAssoc(step, 2, Pow(2, n - 2));
  }

  lemma {:induction false} FirstTen(h: nat, size: nat)
    requires size <= 10 && h > 10 - size
    ensures |LocatorHeights(h, 1, size)| == 10 - size + |LocatorHeights(h - (10 - size), 1, 10)|
    ensures LastStep(h, 1, size) == LastStep(h - (10 - size), 1, 10)
    decreases 10 - size
  {
    if size < 10 {
      FirstTen(h - 1, size + 1);
    }
  }

  /** A locator has about twelve entries more than the binary logarithm of the height. */
  lemma LocatorLength(h: nat)
    requires h > 10
    ensures var n := |LocatorHeights(h, 1, 0)|;
      n >= 12 && Pow(2, n - 12) + 9 < h <= Pow(2, n - 11) + 9 && LastStep(h, 1, 0) == Pow(2, n - 11)
  {
    hide Pow;
    FirstTen(h, 0);
    Doubling(h - 10, 1, 10);
    Covered(h - 10, 1, 10);
  }

  /** The step stays within a signed 32-bit integer exactly for heights up to 2^30 + 9. */
  lemma StepFits(h: nat)
    ensures LastStep(h, 1, 0) < 0x8000_0000 <==> h <= 0x4000_0009
  {
    Powers();
    if h > 10 {
      LocatorLength(h);
      var n := |LocatorHeights(h, 1, 0)|;
      hide Pow, LocatorHeights, LastStep;
      if n - 11 <= 30 {
        PowExp(2, n - 11, 30);
      } else {
        PowExp(2, 31, n - 11);
        PowExp(2, 30, n - 12);
      }
    } else {
      SmallStep(h, 0);
    }
  }

  /** The lowest height at which the step overflows. */
  lemma StepOverflows()
    ensures LastStep(0x4000_000A, 1, 0) == 0x8000_0000
  {
    hide Pow, LocatorHeights, LastStep;
    var n := |LocatorHeights(0x4000_000A, 1, 0)|;
    LocatorLength(0x4000_000A);
    StepFits(0x4000_000A);
    DoubledPow(n - 12);
  }

  lemma DoubledPow(e: nat)
    ensures Pow(2, e + 1) == 2 * Pow(2, e)
  {
  }

  lemma {:induction false} SmallStep(h: nat, size: nat)
    requires h + size <= 10
    ensures LastStep(h, 1, size) == 1
    decreases h
  {
    if h > 0 {
      SmallStep(h - 1, size + 1);
    }
  }

  lemma Powers()
    ensures Pow(2, 30) == 0x4000_0000 && Pow(2, 31) == 0x8000_0000
  {
    assert Pow(2, 5) == 32;
    PowAdd(2, 5, 5);
    PowAdd(2, 10, 10);
    PowAdd(2, 20, 10);
  }

  ghost predicate HashesAt(hashes: seq<nat>, path: seq<BlockIndex>, heights: seq<nat>) {
    |hashes| == |heights| && forall i: nat | i < |heights| :: heights[i] < |path| && hashes[i] == path[heights[i]].hash
  }
}

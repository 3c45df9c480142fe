/** The unspent outputs of one transaction (`CCoins`), as a value. */
module Coins {

  datatype TxOut = TxOut(nValue: int, script: seq<nat>) {
    predicate IsNull() {
      nValue == -1
    }
  }

  /** A spent output, as `CTxOut::SetNull` leaves it. */
  const SPENT := TxOut(-1, [])

  datatype Coins = Coins(coinBase: bool, coinStake: bool, vout: seq<TxOut>, height: int, version: int) {
    predicate IsPruned() {
      forall i | 0 <= i < |vout| :: vout[i].IsNull()
    }

    /** The form `Cleanup` leaves: no spent output at the end. */
    function Trimmed(): (r: Coins)
      ensures r.IsPruned() == IsPruned()
      ensures r.vout <= vout
      ensures forall i | |r.vout| <= i < |vout| :: vout[i].IsNull()
      ensures r.vout != [] ==> !r.vout[|r.vout| - 1].IsNull()
    {
      this.(vout := TrimOutputs(vout))
    }

    predicate IsClean() {
      vout != [] ==> !vout[|vout| - 1].IsNull()
    }

    predicate IsAvailable(nPos: nat) {
      nPos < |vout| && !vout[nPos].IsNull()
    }

    /** The bytes owned by the outputs, on a 64-bit platform with exact vector capacities. */
    function DynamicMemoryUsage(): nat {
      MallocUsage(|vout| * TXOUT_BYTES) + ScriptUsage(vout)
    }

    /** `operator==`: pruned coins are all equal, and `fCoinStake` is not compared. */
    predicate Same(other: Coins) {
      (IsPruned() && other.IsPruned()) ||
      (coinBase == other.coinBase && height == other.height && version == other.version && vout == other.vout)
    }
  }

  /** `CCoins::Clear` and the default constructor. */
  const EMPTY := Coins(false, false, [], 0, 0)

  const TXOUT_BYTES := 40
  const INLINE_SCRIPT_BYTES := 28

  function MallocUsage(alloc: nat): nat {
    if alloc == 0 then 0 else (alloc + 31) / 16 * 16
  }

  /** A block is a multiple of 16 bytes with at least 16 more than asked for, and no more than needed. */
  lemma MallocBlock(alloc: nat)
    ensures MallocUsage(alloc) % 16 == 0
    ensures alloc > 0 ==> alloc + 16 <= MallocUsage(alloc) < alloc + 32
  {
  }

  function ScriptUsage(vout: seq<TxOut>): nat {
    if vout == [] then 0
    else
      (if |vout[0].script| <= INLINE_SCRIPT_BYTES then 0 else MallocUsage(|vout[0].script|)) + ScriptUsage(vout[1..])
  }

  function TrimOutputs(vout: seq<TxOut>): (r: seq<TxOut>)
    ensures r <= vout
    ensures forall i | |r| <= i < |vout| :: vout[i].IsNull()
    ensures r != [] ==> !r[|r| - 1].IsNull()
  {
    if vout != [] && vout[|vout| - 1].IsNull() then TrimOutputs(vout[..|vout| - 1]) else vout
  }

  /** A list without a spent output at its end is already trimmed. */
  lemma TrimIdempotent(c: Coins)
    requires c.IsClean()
    ensures c.Trimmed() == c
  {
  }

  lemma TrimTwice(c: Coins)
    ensures c.Trimmed().Trimmed() == c.Trimmed()
  {
    TrimIdempotent(c.Trimmed());
  }

  /** Clean coins are pruned exactly when they have no output at all, which is the test `HaveCoins` makes. */
  lemma CleanPrunedIsEmpty(c: Coins)
    requires c.IsClean()
    ensures c.IsPruned() <==> c.vout == []
  {
  }

  /** Dropping spent outputs at the end changes no output's availability. */
  lemma TrimKeepsAvailable(c: Coins, i: nat)
    ensures c.Trimmed().IsAvailable(i) <==> c.IsAvailable(i)
    ensures c.IsAvailable(i) ==> c.Trimmed().vout[i] == c.vout[i]
  {
  }

  method Cleanup(c: Coins) returns (r: Coins)
    ensures r == c.Trimmed()
  {
    var vout := c.vout;
    while |vout| > 0 && vout[|vout| - 1].IsNull()
      invariant TrimOutputs(vout) == TrimOutputs(c.vout)
    {
      vout := vout[..|vout| - 1];
    }
    r := c.(vout := vout);
  }

  /** Spend one output: it fails exactly on a missing or spent position, and otherwise takes that one output away. */
  method Spend(c: Coins, nPos: nat) returns (ok: bool, r: Coins)
    ensures ok == c.IsAvailable(nPos)
    ensures !ok ==> r == c
    ensures ok ==> forall i: nat :: r.IsAvailable(i) <==> c.IsAvailable(i) && i != nPos
    ensures ok ==> forall i: nat | r.IsAvailable(i) :: c.IsAvailable(i) && r.vout[i] == c.vout[i]
    ensures ok ==> r.IsClean()
    ensures r == c.(vout := r.vout)
  {
    if nPos >= |c.vout| || c.vout[nPos].IsNull() {
      return false, c;
    }
    ok := true;
    ghost var spent := c.(vout := c.vout[nPos := SPENT]);
    r := Cleanup(c.(vout := c.vout[nPos := SPENT]));
    forall i: nat ensures r.IsAvailable(i) <==> c.IsAvailable(i) && i != nPos {
      TrimKeepsAvailable(spent, i);
    }
  }
}

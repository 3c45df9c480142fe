/**
 The differential encoding of a request for block transactions: each index is sent as its distance from the one
 after its predecessor. Indexes are 16-bit words, and so is the running offset of the decoder.
 */
module IndexCodec {
  import opened Options
  import opened Numbers

  const U16: nat := 0x1_0000

  predicate Words(s: seq<nat>) {
    forall i | 0 <= i < |s| :: s[i] < U16
  }

  predicate Increasing(s: seq<nat>) {
    forall i, j | 0 <= i < j < |s| :: s[i] < s[j]
  }

  /** The number sent for `index` when the smallest one still expected is `low`, as an unsigned 64-bit number. */
  function Distance(index: nat, low: nat): nat {
    (index - low) % U64
  }

  /** The offset is kept in 16 bits. */
  function Carried(n: nat): nat {
    n % U16
  }

  lemma CarriedWord(n: nat)
    ensures n < U16 ==> Carried(n) == n
    ensures n == U16 ==> Carried(n) == 0
  {
  }

  function EncodedFrom(low: nat, indexes: seq<nat>): seq<nat>
    decreases |indexes|
  {
    if indexes == [] then []
    else [Distance(indexes[0], low)] + EncodedFrom(indexes[0] + 1, indexes[1..])
  }

  /** What the decoder makes of the numbers received, from a given offset; `None` is its exception. */
  function DecodedFrom(offset: nat, numbers: seq<nat>): Option<seq<nat>>
    decreases |numbers|
  {
    if numbers == [] then Some([])
    else if numbers[0] + offset >= U16 then None
    else Prepend([numbers[0] + offset], DecodedFrom(Carried(numbers[0] + offset + 1), numbers[1..]))
  }

  function Prepend(front: seq<nat>, rest: Option<seq<nat>>): Option<seq<nat>> {
    if rest.None? then None else Some(front + rest.value)
  }

  /** The indexes continue upward from `low`. */
  predicate Rising(low: nat, indexes: seq<nat>)
    decreases |indexes|
  {
    indexes == [] || (low <= indexes[0] && Rising(indexes[0] + 1, indexes[1..]))
  }

  // ---------- Unfolding by one element ----------

  lemma DecodedCons(offset: nat, x: nat, rest: seq<nat>)
    ensures DecodedFrom(offset, [x] + rest) ==
      if x + offset >= U16 then None else Prepend([x + offset], DecodedFrom(Carried(x + offset + 1), rest))
  {
    assert ([x] + rest)[1..] == rest;
  }

  lemma EncodedCons(low: nat, x: nat, rest: seq<nat>)
    ensures EncodedFrom(low, [x] + rest) == [Distance(x, low)] + EncodedFrom(x + 1, rest)
  {
    assert ([x] + rest)[1..] == rest;
  }

  lemma RisingCons(low: nat, x: nat, rest: seq<nat>)
    ensures Rising(low, [x] + rest) <==> (low <= x && Rising(x + 1, rest))
  {
    assert ([x] + rest)[1..] == rest;
  }

  lemma DistanceIs(index: nat, low: nat)
    requires index < U16 && low <= U16
    ensures if low <= index then Distance(index, low) == index - low else Distance(index, low) >= U16
  {
  }

  // ---------- The loops ----------

  method Encode(indexes: seq<nat>) returns (numbers: seq<nat>)
    ensures numbers == EncodedFrom(0, indexes)
  {
    numbers := [];
    ghost var low := 0;
    for i := 0 to |indexes|
      invariant low == if i == 0 then 0 else indexes[i - 1] + 1
      invariant EncodedFrom(0, indexes) == numbers + EncodedFrom(low, indexes[i..])
    {
      var index := Distance(indexes[i], if i == 0 then 0 else indexes[i - 1] + 1);
      assert indexes[i..][1..] == indexes[i + 1..];
      numbers := numbers + [index];
      low := indexes[i] + 1;
    }
  }

  /** Reading `size` numbers in chunks of a thousand, then adding up the offsets in place. */
  method Decode(size: nat, stream: seq<nat>) returns (r: Option<seq<nat>>)
    ensures r == if size <= |stream| then DecodedFrom(0, stream[..size]) else None
  {
    var indexes: seq<nat> := [];
    while |indexes| < size
      invariant |indexes| <= size && |indexes| <= |stream| && indexes == stream[..|indexes|] && Words(indexes)
    {
      var chunk := if 1000 + |indexes| < size then 1000 + |indexes| else size;
      while |indexes| < chunk
        invariant |indexes| <= chunk && |indexes| <= |stream| && indexes == stream[..|indexes|] && Words(indexes)
      {
        if |indexes| == |stream| {
          return None;
        }
        var index := stream[|indexes|];
        if index >= U16 {
          if size <= |stream| {
            TooBig(0, stream[..size], |indexes|);
          }
          return None;
        }
        indexes := indexes + [index];
      }
    }
    r := AddOffsets(indexes);
  }

  method AddOffsets(numbers: seq<nat>) returns (r: Option<seq<nat>>)
    ensures r == DecodedFrom(0, numbers)
  {
    var indexes: seq<nat> := numbers;
    var offset: nat := 0;
    assert numbers[0..] == numbers && indexes[..0] == [];
    PrependNothing(DecodedFrom(0, numbers));
    for i := 0 to |numbers|
      invariant |indexes| == |numbers| && indexes[i..] == numbers[i..]
      invariant DecodedFrom(0, numbers) == Prepend(indexes[..i], DecodedFrom(offset, numbers[i..]))
    {
      assert indexes[i] == indexes[i..][0] == numbers[i..][0];
      if indexes[i] + offset >= U16 {
        return None;
      }
      ghost var before := indexes[..i];
      assert numbers[i..][1..] == numbers[i + 1..];
      var index: nat := indexes[i] + offset;
      indexes := indexes[i := index];
      assert indexes[..i + 1] == before + [index];
      assert indexes[i + 1..] == numbers[i + 1..];
      offset := Carried(indexes[i] + 1);
      PrependTwice(before, [index], DecodedFrom(offset, numbers[i + 1..]));
    }
    assert indexes[..|numbers|] == indexes && numbers[|numbers|..] == [];
    assert indexes + [] == indexes;
    r := Some(indexes);
  }

  lemma PrependNothing(rest: Option<seq<nat>>)
    ensures Prepend([], rest) == rest
  {
    if rest.Some? {
      assert [] + rest.value == rest.value;
    }
  }

  lemma PrependTwice(a: seq<nat>, b: seq<nat>, rest: Option<seq<nat>>)
    ensures Prepend(a, Prepend(b, rest)) == Prepend(a + b, rest)
  {
    if rest.Some? {
      assert a + (b + rest.value) == a + b + rest.value;
    }
  }

  lemma {:induction false} TooBig(offset: nat, numbers: seq<nat>, k: nat)
    requires k < |numbers| && numbers[k] >= U16
    ensures DecodedFrom(offset, numbers) == None
    decreases |numbers|
  {
    if k > 0 && numbers[0] + offset < U16 {
      TooBig(Carried(numbers[0] + offset + 1), numbers[1..], k - 1);
    }
  }

  // ---------- Round trips ----------

  lemma {:induction false} RisingBounds(low: nat, indexes: seq<nat>)
    requires Rising(low, indexes)
    ensures Increasing(indexes) && forall i | 0 <= i < |indexes| :: low <= indexes[i]
    decreases |indexes|
  {
    if indexes != [] {
      RisingBounds(indexes[0] + 1, indexes[1..]);
      forall i, j | 0 <= i < j < |indexes|
        ensures indexes[i] < indexes[j]
      {
        assert indexes[j] == indexes[1..][j - 1];
        if i > 0 {
          assert indexes[i] == indexes[1..][i - 1];
        }
      }
      forall i | 0 <= i < |indexes|
        ensures low <= indexes[i]
      {
        if i > 0 {
          assert indexes[i] == indexes[1..][i - 1];
        }
      }
    }
  }

  lemma {:induction false} IncreasingRises(low: nat, indexes: seq<nat>)
    requires Increasing(indexes) && (indexes != [] ==> low <= indexes[0])
    ensures Rising(low, indexes)
    decreases |indexes|
  {
    if indexes != [] {
      IncreasingRises(indexes[0] + 1, indexes[1..]);
    }
  }

  lemma {:induction false} EncodeDecodeFrom(low: nat, indexes: seq<nat>)
    requires low <= U16 && Words(indexes)
    ensures DecodedFrom(Carried(low), EncodedFrom(low, indexes)) == if Rising(low, indexes) then Some(indexes) else None
    decreases |indexes|
  {
    if indexes == [] {
    } else {
      hide DecodedFrom, EncodedFrom, Rising, Distance, Prepend, Carried, Words;
      var x, rest := indexes[0], indexes[1..];
      assert indexes == [x] + rest;
      WordsTail(indexes);
      EncodedCons(low, x, rest);
      RisingCons(low, x, rest);
      DistanceIs(x, low);
      DecodedCons(Carried(low), Distance(x, low), EncodedFrom(x + 1, rest));
      EncodeDecodeFrom(x + 1, rest);
      PrependIs(x, rest);
      if low <= x {
        CarriedWord(low);
      }
    }
  }

  lemma WordsTail(indexes: seq<nat>)
    requires Words(indexes) && indexes != []
    ensures indexes[0] < U16 && Words(indexes[1..])
  {
  }

  lemma PrependIs(x: nat, rest: seq<nat>)
    ensures Prepend([x], None) == None && Prepend([x], Some(rest)) == Some([x] + rest)
  {
  }

  /** What is sent is read back exactly when the indexes increase; otherwise the receiver rejects the message. */
  lemma EncodeDecode(indexes: seq<nat>)
    requires Words(indexes)
    ensures DecodedFrom(0, EncodedFrom(0, indexes)) == if Increasing(indexes) then Some(indexes) else None
  {
    EncodeDecodeFrom(0, indexes);
    IncreasingIs(indexes);
  }

  function Sum(numbers: seq<nat>): nat {
    if numbers == [] then 0 else numbers[0] + Sum(numbers[1..])
  }

  lemma SumCons(x: nat, more: seq<nat>)
    ensures Sum([x] + more) == x + Sum(more)
  {
    assert ([x] + more)[1..] == more;
  }

  /** The index after the last one is at most 65536. */
  predicate SumFits(low: nat, numbers: seq<nat>) {
    low + Sum(numbers) + |numbers| <= U16
  }

  /** The message decodes to indexes that go up from `low` and that it is the encoding of. */
  predicate Proper(low: nat, offset: nat, numbers: seq<nat>) {
    var r := DecodedFrom(offset, numbers);
    r.Some? && Rising(low, r.value) && EncodedFrom(low, r.value) == numbers
  }

  /** The message decodes to indexes that do not go up from `low`, or to none. */
  predicate Improper(low: nat, offset: nat, numbers: seq<nat>) {
    var r := DecodedFrom(offset, numbers);
    r.Some? ==> !Rising(low, r.value)
  }

  lemma {:induction false} DecodedWords(offset: nat, numbers: seq<nat>)
    requires DecodedFrom(offset, numbers).Some?
    ensures |DecodedFrom(offset, numbers).value| == |numbers| && Words(DecodedFrom(offset, numbers).value)
    decreases |numbers|
  {
    if numbers != [] {
      DecodedWords(Carried(numbers[0] + offset + 1), numbers[1..]);
    }
  }

  /** A number after the top index: the receiver goes on from zero, so the indexes do not go up. */
  lemma AfterTop(more: seq<nat>)
    requires more != []
    ensures Improper(U16, 0, more)
  {
  }

  lemma {:induction false} DecodeFrom(low: nat, numbers: seq<nat>)
    requires low <= U16
    ensures if SumFits(low, numbers) then Proper(low, Carried(low), numbers) else Improper(low, Carried(low), numbers)
    decreases |numbers|
  {
    if numbers == [] {
    } else if low == U16 {
      AfterTop(numbers);
    } else {
      hide DecodedFrom, EncodedFrom, Rising, Distance, Carried, Sum;
      var x, more := numbers[0], numbers[1..];
      assert numbers == [x] + more;
      SumCons(x, more);
      CarriedWord(low);
      DecodedCons(low, x, more);
      var index := x + low;
      if index < U16 {
        DecodeFrom(index + 1, more);
        DistanceIs(index, low);
        var rest := DecodedFrom(Carried(index + 1), more);
        if rest.Some? {
          RisingCons(low, index, rest.value);
          EncodedCons(low, index, rest.value);
        }
      }
    }
  }

  /**
   The receiver's indexes increase, and the message is their encoding, exactly when the numbers and their count add up
   to at most 65536. Messages above that are rejected, or accepted with an offset that has wrapped to zero.
   */
  lemma DecodeEncode(numbers: seq<nat>)
    ensures var r := DecodedFrom(0, numbers);
      && (Sum(numbers) + |numbers| <= U16 <==> r.Some? && Increasing(r.value))
      && (Sum(numbers) + |numbers| <= U16 <==> r.Some? && EncodedFrom(0, r.value) == numbers)
  {
    DecodeFrom(0, numbers);
    var r := DecodedFrom(0, numbers);
    hide DecodedFrom, EncodedFrom, Sum, Rising, Increasing;
    if r.Some? {
      DecodedWords(0, numbers);
      EncodeDecode(r.value);
      IncreasingIs(r.value);
    }
  }

  lemma IncreasingIs(indexes: seq<nat>)
    ensures Increasing(indexes) <==> Rising(0, indexes)
  {
    if Rising(0, indexes) {
      RisingBounds(0, indexes);
    }
    if Increasing(indexes) {
      IncreasingRises(0, indexes);
    }
  }

  /** Two numbers the receiver accepts that give indexes going down. */
  lemma WrappedOffset()
    ensures DecodedFrom(0, [U16 - 1, 3]) == Some([U16 - 1, 3]) && !Increasing([U16 - 1, 3])
  {
    assert [U16 - 1, 3][0] > [U16 - 1, 3][1];
    assert [U16 - 1, 3][1..] == [3];
    assert [3][1..] == [];
    assert DecodedFrom(4, []) == Some([]);
    assert [3] + [] == [3];
    assert DecodedFrom(0, [3]) == Some([3]);
    assert [U16 - 1] + [3] == [U16 - 1, 3];
  }
}

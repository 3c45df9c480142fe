/**
 The check queue (`CCheckQueue`): one master adds verifications and then helps a pool of workers until all are done.
 Every critical section under the mutex is one atomic step; evaluating one check outside the mutex is one step too.
 Thread 0 is the master, which alone calls `Add` and `Wait`; all others are workers.
 */
module CheckQueue {
  import opened Numbers
  import opened Sequences

  /** A verification; `passes` is what its `operator()` returns. */
  datatype Check = Check(name: int, passes: bool)

  ghost predicate AllPass(checks: seq<Check>) {
    forall c | c in checks :: c.passes
  }

  /** What the mutex protects. */
  datatype Shared = Shared(queue: seq<Check>, nIdle: int, nTotal: int, fAllOk: bool, nTodo: int)

  const NEW_QUEUE := Shared([], 0, 0, true, 0)

  /** How a thread comes into the critical section of `Loop`. */
  datatype Arrival = First | Back(nNow: nat, fOk: bool) | Woken

  /** How it leaves again. */
  datatype Departure = Return(fRet: bool) | Block | Take(batch: seq<Check>, fOk: bool)

  // ---------- The critical sections ----------

  function Min(x: int, y: int): int {
    if x < y then x else y
  }

  /** How many checks to take at once. */
  function BatchSize(sh: Shared, nBatchSize: nat): int
    requires sh.nTotal + sh.nIdle + 1 > 0
  {
    Max(1, Min(nBatchSize, |sh.queue| / (sh.nTotal + sh.nIdle + 1)))
  }

  lemma BatchFits(sh: Shared, nBatchSize: nat)
    requires sh.nTotal + sh.nIdle + 1 > 0 && sh.queue != []
    ensures 1 <= BatchSize(sh, nBatchSize) <= |sh.queue|
  {
    QuotientBound(|sh.queue|, sh.nTotal + sh.nIdle + 1);
  }

  lemma QuotientBound(x: nat, d: int)
    requires d > 0
    ensures 0 <= x / d <= x
  {
    var q := x / d;
    assert d * q <= x;
    assert q <= d * q by {
      assert 0 <= (d - 1) * q;
    }
  }

  /** The clean-up of the previous turn. */
  function Tidy(sh: Shared, arrival: Arrival): Shared {
    match arrival
    case First => sh.(nTotal := sh.nTotal + 1)
    case Back(nNow, fOk) => sh.(fAllOk := sh.fAllOk && fOk, nTodo := sh.nTodo - nNow)
    case Woken => sh.(nIdle := sh.nIdle - 1)
  }

  /** Whether the thread that has tidied up tells the master that nothing is left to do. */
  predicate TellsMaster(sh: Shared, arrival: Arrival, isMaster: bool) {
    arrival.Back? && sh.nTodo == 0 && !isMaster
  }

  /** The rest of the critical section: return, block, or take a batch from the end of the queue. */
  function Settle(sh: Shared, isMaster: bool, nBatchSize: nat): (Shared, Departure)
    requires sh.nTotal + sh.nIdle + 1 > 0
  {
    if sh.queue == [] then
      if isMaster && sh.nTodo == 0 then (sh.(nTotal := sh.nTotal - 1, fAllOk := true), Return(sh.fAllOk))
      else (sh.(nIdle := sh.nIdle + 1), Block)
    else
      BatchFits(sh, nBatchSize);
      var keep := |sh.queue| - BatchSize(sh, nBatchSize);
      (sh.(queue := sh.queue[..keep]), Take(Reversed(sh.queue[keep..]), sh.fAllOk))
  }

  /**
   A batch is the end of the queue, as many checks as fit into the batch size and into a fair share for all threads,
   but at least one. Once a failure is known, the batch is taken as failed, so that none of its checks is evaluated.
   */
  lemma TakenExactly(sh: Shared, isMaster: bool, nBatchSize: nat, m: nat)
    requires sh.nTotal + sh.nIdle + 1 > 0 && sh.queue != []
    ensures var (r, d) := Settle(sh, isMaster, nBatchSize);
      && r == sh.(queue := r.queue) && d.Take? && d.fOk == sh.fAllOk
      && sh.queue == r.queue + Reversed(d.batch)
      && (1 <= m <= |d.batch| <==> m == 1 || (1 <= m <= nBatchSize && m * (sh.nTotal + sh.nIdle + 1) <= |sh.queue|))
  {
    var share, k := sh.nTotal + sh.nIdle + 1, BatchSize(sh, nBatchSize);
    BatchFits(sh, nBatchSize);
    var keep := |sh.queue| - k;
    assert sh.queue == sh.queue[..keep] + sh.queue[keep..];
    assert Reversed(Reversed(sh.queue[keep..])) == sh.queue[keep..];
    AtMostQuotient(|sh.queue|, share, m);
  }

  lemma AtMostQuotient(x: nat, d: int, m: nat)
    requires d > 0
    ensures m <= x / d <==> m * d <= x
  {
    var q := x / d;
    assert x == q * d + x % d && 0 <= x % d < d;
    if m <= q {
      assert m * d + (q - m) * d == q * d && 0 <= (q - m) * d;
    } else {
      assert m * d == q * d + (m - q) * d && (m - q) * d >= d by {
        assert (m - q) * d == d + (m - q - 1) * d && 0 <= (m - q - 1) * d;
      }
    }
  }

  predicate IsIdle(sh: Shared) {
    sh.nTotal == sh.nIdle && sh.nTodo == 0 && sh.fAllOk
  }

  // ---------- Threads ----------

  datatype Thread =
    | Outside
    | Working(batch: seq<Check>, done: nat, fOk: bool)
    | Waiting(notified: bool)

  /** `added` holds the checks of this round, `finished` those of them that are done with. */
  datatype State = State(sh: Shared, threads: seq<Thread>, nBatchSize: nat,
                         added: seq<Check>, finished: seq<Check>, verdicts: seq<(bool, seq<Check>)>)

  datatype Step =
    | Enter(i: nat)
    | Finish(i: nat)
    | Wake(i: nat)
    | Evaluate(i: nat)
    | Add(checks: seq<Check>, pick: nat)

  /** Which steps can happen. A blocked thread may also wake up without being notified. */
  predicate Enabled(s: State, step: Step) {
    match step
    case Enter(i) => i < |s.threads| && s.threads[i].Outside?
    case Finish(i) => i < |s.threads| && s.threads[i].Working? && s.threads[i].done == |s.threads[i].batch|
    case Wake(i) => i < |s.threads| && s.threads[i].Waiting?
    case Evaluate(i) => i < |s.threads| && s.threads[i].Working? && s.threads[i].done < |s.threads[i].batch|
    case Add(checks, pick) =>
      && s.threads != [] && s.threads[0].Outside?
      && ((exists i | 1 <= i < |s.threads| :: s.threads[i] == Waiting(false)) ==>
            1 <= pick < |s.threads| && s.threads[pick] == Waiting(false))
  }

  /** No call, `notify_one` or `notify_all` on the workers' condition variable. */
  datatype Wakeup = Nobody | OneWorker | AllWorkers

  function WakeupFor(count: nat): Wakeup {
    if count == 0 then Nobody else if count == 1 then OneWorker else AllWorkers
  }

  function NotifyWorkers(threads: seq<Thread>, wakeup: Wakeup, pick: nat): (r: seq<Thread>)
    ensures |r| == |threads|
  {
    match wakeup
    case Nobody => threads
    case OneWorker =>
      if 1 <= pick < |threads| && threads[pick] == Waiting(false) then threads[pick := Waiting(true)] else threads
    case AllWorkers =>
      seq(|threads|, i requires 0 <= i < |threads| =>
                       if i > 0 && threads[i].Waiting? then Waiting(true) else threads[i])
  }

  /** `notify_one` on the master's condition variable. */
  function NotifyMaster(threads: seq<Thread>): (r: seq<Thread>)
    ensures |r| == |threads|
  {
    if threads != [] && threads[0].Waiting? then threads[0 := Waiting(true)] else threads
  }

  /** Thread `i` comes into the critical section and tidies up; inside it, it counts as `Outside`. */
  function Come(s: State, i: nat): State
    requires i < |s.threads|
  {
    match s.threads[i]
    case Outside => s.(sh := Tidy(s.sh, First))
    case Working(batch, _, fOk) =>
      var sh := Tidy(s.sh, Back(|batch|, fOk));
      var threads := s.threads[i := Outside];
      s.(sh := sh, finished := s.finished + batch,
         threads := if TellsMaster(sh, Back(|batch|, fOk), i == 0) then NotifyMaster(threads) else threads)
    case Waiting(_) => s.(sh := Tidy(s.sh, Woken), threads := s.threads[i := Outside])
  }

  /** Thread `i` settles what to do next and leaves the critical section. */
  function Leave(s: State, i: nat): State
    requires i < |s.threads| && s.sh.nTotal + s.sh.nIdle + 1 > 0
  {
    var (sh, departure) := Settle(s.sh, i == 0, s.nBatchSize);
    match departure
    case Return(fRet) => s.(sh := sh, added := [], finished := [], verdicts := s.verdicts + [(fRet, s.added)])
    case Block => s.(sh := sh, threads := s.threads[i := Waiting(false)])
    case Take(batch, fOk) => s.(sh := sh, threads := s.threads[i := Working(batch, 0, fOk)])
  }

  ghost function Exec(s: State, step: Step): State
    requires Enabled(s, step) && Proper(s)
  {
    match step
    case Evaluate(i) =>
      var t := s.threads[i];
      s.(threads := s.threads[i := t.(done := t.done + 1, fOk := t.fOk && t.batch[t.done].passes)])
    case Add(checks, pick) =>
      s.(sh := s.sh.(queue := s.sh.queue + checks, nTodo := s.sh.nTodo + |checks|),
         threads := NotifyWorkers(s.threads, WakeupFor(|checks|), pick),
         added := s.added + checks)
    case _ =>
      ComeCounts(s, step.i);
      Leave(Come(s, step.i), step.i)
  }

  // ---------- Counting threads ----------

  function Waits(t: Thread): nat {
    if t.Waiting? then 1 else 0
  }

  function Works(t: Thread): nat {
    if t.Working? then 1 else 0
  }

  function Total(threads: seq<Thread>, f: Thread -> nat): nat {
    if threads == [] then 0 else f(threads[0]) + Total(threads[1..], f)
  }

  /** The checks in the batches of all threads. */
  function Held(threads: seq<Thread>): multiset<Check> {
    if threads == [] then multiset{}
    else Batch(threads[0]) + Held(threads[1..])
  }

  function Batch(t: Thread): multiset<Check> {
    if t.Working? then multiset(t.batch) else multiset{}
  }

  lemma {:induction false} TotalUpdate(threads: seq<Thread>, f: Thread -> nat, i: nat, t: Thread)
    requires i < |threads|
    ensures Total(threads[i := t], f) + f(threads[i]) == Total(threads, f) + f(t)
  {
    if i > 0 {
      TotalUpdate(threads[1..], f, i - 1, t);
      assert threads[i := t][1..] == threads[1..][i - 1 := t];
    } else {
      assert threads[0 := t][1..] == threads[1..];
    }
  }

  lemma {:induction false} HeldUpdate(threads: seq<Thread>, i: nat, t: Thread)
    requires i < |threads|
    ensures Held(threads[i := t]) + Batch(threads[i]) == Held(threads) + Batch(t)
  {
    if i > 0 {
      HeldUpdate(threads[1..], i - 1, t);
      assert threads[i := t][1..] == threads[1..][i - 1 := t];
      var first, rest, rest' := Batch(threads[0]), Held(threads[1..]), Held(threads[1..][i - 1 := t]);
      assert first + rest' + Batch(threads[i]) == first + (rest' + Batch(threads[i]));
      assert first + rest + Batch(t) == first + (rest + Batch(t));
    } else {
      assert threads[0 := t][1..] == threads[1..];
    }
  }

  lemma HeldSame(threads: seq<Thread>, i: nat, t: Thread)
    requires i < |threads| && Batch(t) == Batch(threads[i])
    ensures Held(threads[i := t]) == Held(threads)
  {
    HeldUpdate(threads, i, t);
    assert Held(threads[i := t]) + Batch(t) - Batch(t) == Held(threads[i := t]);
    assert Held(threads) + Batch(t) - Batch(t) == Held(threads);
  }

  lemma HeldTake(threads: seq<Thread>, i: nat, t: Thread)
    requires i < |threads| && !threads[i].Working? && t.Working?
    ensures Held(threads[i := t]) == Held(threads) + multiset(t.batch)
    ensures |Held(threads[i := t])| == |Held(threads)| + |t.batch|
  {
    HeldUpdate(threads, i, t);
    assert Held(threads[i := t]) + multiset{} == Held(threads[i := t]);
  }

  lemma HeldGive(threads: seq<Thread>, i: nat, t: Thread)
    requires i < |threads| && threads[i].Working? && !t.Working?
    ensures Held(threads) == Held(threads[i := t]) + multiset(threads[i].batch)
    ensures |Held(threads)| == |Held(threads[i := t])| + |threads[i].batch|
  {
    HeldUpdate(threads, i, t);
    assert Held(threads) + multiset{} == Held(threads);
  }

  /** Notifying changes nobody's kind and nobody's batch. */
  ghost predicate SameKinds(a: seq<Thread>, b: seq<Thread>) {
    && |a| == |b|
    && forall i | 0 <= i < |a| :: a[i] == b[i] || (a[i].Waiting? && b[i].Waiting?)
  }

  lemma {:induction false} SameCounts(a: seq<Thread>, b: seq<Thread>)
    requires SameKinds(a, b)
    ensures Total(a, Waits) == Total(b, Waits) && Total(a, Works) == Total(b, Works) && Held(a) == Held(b)
  {
    if a != [] {
      SameCounts(a[1..], b[1..]);
    }
  }

  // ---------- The invariant ----------

  /** The counters of threads are right. */
  ghost predicate Proper(s: State) {
    && s.threads != []
    && s.sh.nIdle == Total(s.threads, Waits)
    && s.sh.nTotal == Total(s.threads, Waits) + Total(s.threads, Works)
  }

  /** `nTodo` counts the checks queued and in flight, and no check of the round gets lost or done twice. */
  ghost predicate Balanced(s: State) {
    && s.sh.nTodo == |s.sh.queue| + |Held(s.threads)|
    && multiset(s.added) == multiset(s.sh.queue) + Held(s.threads) + multiset(s.finished)
  }

  /** A batch is never empty; while `fOk` holds, everything evaluated so far has passed. */
  ghost predicate ThreadOk(s: State, t: Thread) {
    t.Working? ==>
      && 1 <= |t.batch| && t.done <= |t.batch|
      && (t.fOk ==> AllPass(t.batch[..t.done]))
      && (!t.fOk ==> !AllPass(s.added))
  }

  ghost predicate ThreadsOk(s: State) {
    forall i | 0 <= i < |s.threads| :: ThreadOk(s, s.threads[i])
  }

  /** While `fAllOk` holds everything finished has passed; once it is false something added has failed. */
  ghost predicate ResultOk(s: State) {
    (s.sh.fAllOk ==> AllPass(s.finished)) && (!s.sh.fAllOk ==> !AllPass(s.added))
  }

  /** The master does not sleep through the end: blocked and not notified, it still has something to wait for. */
  ghost predicate MasterOk(s: State) {
    s.threads != [] && s.threads[0] == Waiting(false) ==> s.sh.queue == [] && s.sh.nTodo > 0
  }

  /** Every verdict given so far was true exactly when all checks of its round pass. */
  ghost predicate VerdictsOk(s: State) {
    forall v | v in s.verdicts :: v.0 <==> AllPass(v.1)
  }

  ghost predicate Inv(s: State) {
    Proper(s) && Balanced(s) && ThreadsOk(s) && ResultOk(s) && MasterOk(s) && VerdictsOk(s)
  }

  // ---------- Steps keep the invariant ----------

  /** The state while thread `i` is in the critical section. */
  ghost predicate Inside(s: State, i: nat) {
    && i < |s.threads| && s.threads[i].Outside?
    && s.sh.nIdle == Total(s.threads, Waits)
    && s.sh.nTotal == Total(s.threads, Waits) + Total(s.threads, Works) + 1
    && Balanced(s) && ThreadsOk(s) && ResultOk(s) && MasterOk(s) && VerdictsOk(s)
  }

  lemma ComeCounts(s: State, i: nat)
    requires Proper(s) && i < |s.threads|
    ensures var m := Come(s, i);
      && |m.threads| == |s.threads|
      && m.threads[i].Outside?
      && m.sh.nIdle == Total(m.threads, Waits)
      && m.sh.nTotal == Total(m.threads, Waits) + Total(m.threads, Works) + 1
  {
    var m := Come(s, i);
    var threads := s.threads[i := Outside];
    TotalUpdate(s.threads, Waits, i, Outside);
    TotalUpdate(s.threads, Works, i, Outside);
    if s.threads[i].Outside? {
      assert threads == s.threads;
    }
    SameCounts(threads, m.threads);
  }

  lemma ComeFirst(s: State, i: nat)
    requires Inv(s) && i < |s.threads| && s.threads[i].Outside?
    ensures Inside(Come(s, i), i)
  {
    ComeCounts(s, i);
    forall j | 0 <= j < |s.threads| ensures ThreadOk(Come(s, i), s.threads[j]) {
      assert ThreadOk(s, s.threads[j]);
    }
  }

  lemma ComeWoken(s: State, i: nat)
    requires Inv(s) && i < |s.threads| && s.threads[i].Waiting?
    ensures Inside(Come(s, i), i)
  {
    ComeCounts(s, i);
    HeldSame(s.threads, i, Outside);
    forall j | 0 <= j < |s.threads| && j != i ensures ThreadOk(Come(s, i), s.threads[j]) {
      assert ThreadOk(s, s.threads[j]);
    }
  }

  lemma ComeBackBalanced(s: State, i: nat)
    requires Balanced(s) && i < |s.threads| && s.threads[i].Working?
    ensures Balanced(Come(s, i))
  {
    var batch := s.threads[i].batch;
    HeldGive(s.threads, i, Outside);
    SameCounts(s.threads[i := Outside], Come(s, i).threads);
    assert multiset(s.finished + batch) == multiset(s.finished) + multiset(batch);
  }

  lemma ComeBackResult(s: State, i: nat)
    requires ThreadsOk(s) && ResultOk(s)
    requires i < |s.threads| && s.threads[i].Working? && s.threads[i].done == |s.threads[i].batch|
    ensures ResultOk(Come(s, i)) && ThreadsOk(Come(s, i))
  {
  }

  lemma ComeBack(s: State, i: nat)
    requires Inv(s) && i < |s.threads| && s.threads[i].Working? && s.threads[i].done == |s.threads[i].batch|
    ensures Inside(Come(s, i), i)
  {
    ComeCounts(s, i);
    ComeBackBalanced(s, i);
    ComeBackResult(s, i);
  }

  lemma ComeKeeps(s: State, i: nat)
    requires Inv(s) && i < |s.threads| && (s.threads[i].Working? ==> s.threads[i].done == |s.threads[i].batch|)
    ensures Inside(Come(s, i), i)
  {
    match s.threads[i]
    case Outside => ComeFirst(s, i);
    case Working(_, _, _) => ComeBack(s, i);
    case Waiting(_) => ComeWoken(s, i);
  }

  lemma LeaveReturn(s: State, i: nat)
    requires Inside(s, i) && i == 0 && s.sh.queue == [] && s.sh.nTodo == 0
    ensures Inv(Leave(s, i))
    ensures s.sh.fAllOk <==> AllPass(s.added)
  {
    assert Held(s.threads) == multiset{};
    assert multiset(s.added) == multiset(s.finished);
    forall c | c in s.added ensures c in s.finished {
      assert c in multiset(s.added);
    }
    forall j | 0 <= j < |s.threads| ensures !s.threads[j].Working? {
      assert ThreadOk(s, s.threads[j]);
      HoldsItsBatch(s.threads, j);
    }
  }

  lemma {:induction false} HoldsItsBatch(threads: seq<Thread>, j: nat)
    requires j < |threads|
    ensures Batch(threads[j]) <= Held(threads)
  {
    if j > 0 {
      HoldsItsBatch(threads[1..], j - 1);
    }
  }

  lemma LeaveBlock(s: State, i: nat)
    requires Inside(s, i) && s.sh.queue == [] && !(i == 0 && s.sh.nTodo == 0)
    ensures Inv(Leave(s, i))
  {
    var r := Leave(s, i);
    TotalUpdate(s.threads, Waits, i, Waiting(false));
    TotalUpdate(s.threads, Works, i, Waiting(false));
    HeldSame(s.threads, i, Waiting(false));
    forall j | 0 <= j < |s.threads| && j != i ensures ThreadOk(r, s.threads[j]) {
      assert ThreadOk(s, s.threads[j]);
    }
  }

  /** Thread `i` leaves with the last `k` checks of the queue. */
  ghost function TakeOff(s: State, i: nat, k: nat): State
    requires i < |s.threads| && k <= |s.sh.queue|
  {
    var keep := |s.sh.queue| - k;
    s.(sh := s.sh.(queue := s.sh.queue[..keep]),
       threads := s.threads[i := Working(Reversed(s.sh.queue[keep..]), 0, s.sh.fAllOk)])
  }

  lemma TakeBalanced(s: State, i: nat, k: nat)
    requires Balanced(s) && i < |s.threads| && !s.threads[i].Working? && k <= |s.sh.queue|
    ensures Balanced(TakeOff(s, i, k))
  {
    var keep := |s.sh.queue| - k;
    var front, back := s.sh.queue[..keep], s.sh.queue[keep..];
    HeldTake(s.threads, i, Working(Reversed(back), 0, s.sh.fAllOk));
    ReversedSame(back);
    hide Held, Reversed;
    assert s.sh.queue == front + back;
    assert multiset(s.sh.queue) == multiset(front) + multiset(back);
    Regroup(multiset(front), multiset(back), Held(s.threads), multiset(s.finished));
  }

  lemma Regroup(a: multiset<Check>, b: multiset<Check>, c: multiset<Check>, d: multiset<Check>)
    ensures a + b + c + d == a + (c + b) + d
  {
  }

  lemma TakeKeeps(s: State, i: nat, k: nat)
    requires Inside(s, i) && 1 <= k <= |s.sh.queue|
    ensures Inv(TakeOff(s, i, k))
  {
    var r := TakeOff(s, i, k);
    TakeBalanced(s, i, k);
    TotalUpdate(s.threads, Waits, i, r.threads[i]);
    TotalUpdate(s.threads, Works, i, r.threads[i]);
    forall j | 0 <= j < |s.threads| ensures ThreadOk(r, r.threads[j]) {
      assert ThreadOk(s, s.threads[j]);
    }
  }

  lemma LeaveTake(s: State, i: nat)
    requires Inside(s, i) && s.sh.queue != []
    ensures Inv(Leave(s, i))
  {
    BatchFits(s.sh, s.nBatchSize);
    TakeKeeps(s, i, BatchSize(s.sh, s.nBatchSize));
    assert Leave(s, i) == TakeOff(s, i, BatchSize(s.sh, s.nBatchSize));
  }

  lemma {:induction false} ReversedSame(s: seq<Check>)
    ensures multiset(Reversed(s)) == multiset(s)
  {
    if s != [] {
      ReversedSame(s[1..]);
      assert Reversed(s) == Reversed(s[1..]) + [s[0]];
      assert s == [s[0]] + s[1..];
    }
  }

  /** The thread after evaluating one more check of its batch. */
  function Evaluated(t: Thread): Thread
    requires t.Working? && t.done < |t.batch|
  {
    t.(done := t.done + 1, fOk := t.fOk && t.batch[t.done].passes)
  }

  lemma EvaluatedOk(s: State, i: nat)
    requires Balanced(s) && ThreadsOk(s) && Enabled(s, Evaluate(i))
    ensures ThreadOk(s, Evaluated(s.threads[i]))
  {
    var t := s.threads[i];
    assert ThreadOk(s, t);
    assert t.batch[..t.done + 1] == t.batch[..t.done] + [t.batch[t.done]];
    assert t.batch[t.done] in s.added by {
      HoldsItsBatch(s.threads, i);
      assert t.batch[t.done] in multiset(t.batch);
      assert t.batch[t.done] in multiset(s.added);
    }
  }

  lemma OneThreadOk(s: State, i: nat, t: Thread)
    requires ThreadsOk(s) && i < |s.threads| && ThreadOk(s, t)
    ensures ThreadsOk(s.(threads := s.threads[i := t]))
  {
  }

  lemma EvaluateKeeps(s: State, i: nat)
    requires Inv(s) && Enabled(s, Evaluate(i))
    ensures Inv(Exec(s, Evaluate(i)))
  {
    var r := Exec(s, Evaluate(i));
    var t := Evaluated(s.threads[i]);
    assert r == s.(threads := s.threads[i := t]);
    hide ThreadsOk, ThreadOk, AllPass;
    TotalUpdate(s.threads, Waits, i, t);
    TotalUpdate(s.threads, Works, i, t);
    HeldSame(s.threads, i, t);
    EvaluatedOk(s, i);
    OneThreadOk(s, i, t);
  }

  lemma AddBalanced(s: State, checks: seq<Check>, pick: nat)
    requires Proper(s) && Balanced(s) && Enabled(s, Add(checks, pick))
    ensures Balanced(Exec(s, Add(checks, pick)))
  {
    SameCounts(s.threads, NotifyWorkers(s.threads, WakeupFor(|checks|), pick));
    var q, h, f, c := multiset(s.sh.queue), Held(s.threads), multiset(s.finished), multiset(checks);
    assert q + h + f + c == (q + c) + h + f;
  }

  lemma AddKeeps(s: State, checks: seq<Check>, pick: nat)
    requires Inv(s) && Enabled(s, Add(checks, pick))
    ensures Inv(Exec(s, Add(checks, pick)))
  {
    var r := Exec(s, Add(checks, pick));
    SameCounts(s.threads, r.threads);
    AddBalanced(s, checks, pick);
    MoreAdded(s.added, checks);
    hide Balanced, AllPass, VerdictsOk;
    forall j | 0 <= j < |r.threads| ensures ThreadOk(r, r.threads[j]) {
      assert ThreadOk(s, s.threads[j]);
    }
  }

  lemma MoreAdded(added: seq<Check>, checks: seq<Check>)
    ensures !AllPass(added) ==> !AllPass(added + checks)
  {
  }

  /** Every step of every thread keeps the invariant. */
  lemma StepKeeps(s: State, step: Step)
    requires Inv(s) && Enabled(s, step)
    ensures Inv(Exec(s, step))
  {
    match step
    case Evaluate(i) => EvaluateKeeps(s, i);
    case Add(checks, pick) => AddKeeps(s, checks, pick);
    case _ =>
      var m := Come(s, step.i);
      ComeKeeps(s, step.i);
      if m.sh.queue != [] {
        LeaveTake(m, step.i);
      } else if step.i == 0 && m.sh.nTodo == 0 {
        LeaveReturn(m, step.i);
      } else {
        LeaveBlock(m, step.i);
      }
  }

  // ---------- Runs ----------

  function Start(workers: nat, nBatchSize: nat): State {
    State(NEW_QUEUE, seq(workers + 1, _ => Outside), nBatchSize, [], [], [])
  }

  lemma {:induction false} NobodyInside(threads: seq<Thread>)
    requires forall i | 0 <= i < |threads| :: threads[i].Outside?
    ensures Total(threads, Waits) == 0 && Total(threads, Works) == 0 && Held(threads) == multiset{}
  {
    if threads != [] {
      NobodyInside(threads[1..]);
    }
  }

  lemma StartInv(workers: nat, nBatchSize: nat)
    ensures Inv(Start(workers, nBatchSize))
  {
    NobodyInside(Start(workers, nBatchSize).threads);
  }

  /** The state after each step of an interleaving; a run stops at the first step that cannot happen. */
  ghost function Run(workers: nat, nBatchSize: nat, steps: seq<Step>): (s: State)
    ensures Inv(s)
    decreases |steps|
  {
    if steps == [] then
      StartInv(workers, nBatchSize);
      Start(workers, nBatchSize)
    else
      var s := Run(workers, nBatchSize, steps[..|steps| - 1]);
      var step := steps[|steps| - 1];
      if Enabled(s, step) then
        StepKeeps(s, step);
        Exec(s, step)
      else s
  }

  /** In every interleaving, every verdict of `Wait` was true exactly when all checks of its round pass. */
  lemma VerdictsCorrect(workers: nat, nBatchSize: nat, steps: seq<Step>)
    ensures forall v | v in Run(workers, nBatchSize, steps).verdicts :: v.0 <==> AllPass(v.1)
  {
    assert VerdictsOk(Run(workers, nBatchSize, steps));
  }

  /** Whether this step is the one in which the master returns from `Wait`. */
  ghost predicate Returns(s: State, step: Step)
    requires Inv(s) && Enabled(s, step)
  {
    Exec(s, step).verdicts != s.verdicts
  }

  /**
   `Wait` returns only when no check is queued and no thread has one in flight, with the verdict on exactly the
   checks added in this round, and leaves the queue ready for the next round.
   */
  lemma WaitReturns(s: State, step: Step)
    requires Inv(s) && Enabled(s, step) && Returns(s, step)
    ensures var r := Exec(s, step);
      && r.verdicts == s.verdicts + [(AllPass(s.added), s.added)]
      && r.threads[0].Outside? && r.sh.queue == [] && Held(r.threads) == multiset{}
      && r.added == [] && IsIdle(r.sh)
  {
    ReturnCase(s, step);
    var m := Come(s, 0);
    assert Inside(m, 0) by {
      ComeKeeps(s, 0);
    }
    LeaveReturn(m, 0);
    assert Exec(s, step) == Leave(m, 0);
    IdleBetweenRounds(Leave(m, 0));
  }

  lemma ReturnCase(s: State, step: Step)
    requires Inv(s) && Enabled(s, step) && Returns(s, step)
    ensures !step.Evaluate? && !step.Add? && step.i == 0
    ensures var m := Come(s, 0);
      m.sh.queue == [] && m.sh.nTodo == 0 && m.added == s.added && m.verdicts == s.verdicts
  {
    if !step.Evaluate? && !step.Add? {
      ComeCounts(s, step.i);
    }
  }

  /** Between rounds the queue is idle, whatever the workers are doing, so `CCheckQueueControl` may be constructed. */
  lemma IdleBetweenRounds(s: State)
    requires Inv(s) && s.threads[0].Outside? && s.added == []
    ensures IsIdle(s.sh) && s.sh.queue == [] && Held(s.threads) == multiset{}
  {
    assert |multiset(s.added)| == |s.sh.queue| + |Held(s.threads)| + |s.finished|;
    NobodyWorks(s);
  }

  lemma NobodyWorks(s: State)
    requires ThreadsOk(s) && Held(s.threads) == multiset{}
    ensures Total(s.threads, Works) == 0
  {
    forall j | 0 <= j < |s.threads| ensures !s.threads[j].Working? {
      assert ThreadOk(s, s.threads[j]);
      HoldsItsBatch(s.threads, j);
    }
    NoWorkCount(s.threads);
  }

  lemma {:induction false} NoWorkCount(threads: seq<Thread>)
    requires forall j | 0 <= j < |threads| :: !threads[j].Working?
    ensures Total(threads, Works) == 0
  {
    if threads != [] {
      NoWorkCount(threads[1..]);
    }
  }

  /** No lost wakeup: while the master is blocked and has not been notified, some worker still has a batch. */
  lemma NoLostWakeup(s: State)
    requires Inv(s) && s.threads[0] == Waiting(false)
    ensures s.sh.nTodo > 0
    ensures exists i | 1 <= i < |s.threads| :: s.threads[i].Working?
  {
    if forall i | 1 <= i < |s.threads| :: !s.threads[i].Working? {
      NoHolder(s.threads);
    }
  }

  ghost predicate Asleep(s: State, i: nat) {
    1 <= i < |s.threads| && s.threads[i] == Waiting(false)
  }

  /**
   `Add` touches no thread but workers asleep without a notification, and notifies those: all of them for several
   checks, exactly one, if there is one, for a single check, and none for no checks.
   */
  lemma AddWakes(s: State, checks: seq<Check>, pick: nat)
    requires Proper(s) && Enabled(s, Add(checks, pick))
    ensures var r := Exec(s, Add(checks, pick));
      && |r.threads| == |s.threads|
      && (forall i: nat | i < |s.threads| && r.threads[i] != s.threads[i] ::
            Asleep(s, i) && r.threads[i] == Waiting(true))
      && (|checks| > 1 ==> forall i: nat :: !Asleep(r, i))
      && (|checks| == 1 && (exists i: nat :: Asleep(s, i)) ==>
            Asleep(s, pick) && r.threads == s.threads[pick := Waiting(true)])
      && (|checks| == 0 ==> r.threads == s.threads)
  {
    assert (exists i: nat :: Asleep(s, i)) ==> Asleep(s, pick);
  }

  /** With checks in the queue, not all workers are asleep without a notification. */
  ghost predicate SomeoneUp(s: State) {
    s.sh.queue != [] && |s.threads| > 1 ==> exists i: nat | 1 <= i < |s.threads| :: !Asleep(s, i)
  }

  lemma AddSomeoneUp(s: State, checks: seq<Check>, pick: nat)
    requires Inv(s) && SomeoneUp(s) && Enabled(s, Add(checks, pick))
    ensures SomeoneUp(Exec(s, Add(checks, pick)))
  {
    AddWakes(s, checks, pick);
    var r := Exec(s, Add(checks, pick));
    assert r.sh.queue == s.sh.queue + checks;
    hide Exec, Inv;
    if |s.threads| > 1 {
      if checks != [] {
        assert !Asleep(r, if exists i: nat :: Asleep(s, i) then pick else 1);
      } else if s.sh.queue != [] {
        var j: nat :| 1 <= j < |s.threads| && !Asleep(s, j);
        assert !Asleep(r, j);
      }
    }
  }

  lemma ComeFrame(s: State, i: nat)
    requires i < |s.threads|
    ensures var m := Come(s, i);
      && |m.threads| == |s.threads| && m.sh.queue == s.sh.queue
      && forall j: nat | 1 <= j < |s.threads| && j != i :: m.threads[j] == s.threads[j]
  {
  }

  /** A thread that leaves the critical section blocks only over an empty queue. */
  lemma LeaveFrame(m: State, i: nat)
    requires i < |m.threads| && m.sh.nTotal + m.sh.nIdle + 1 > 0
    ensures var r := Leave(m, i);
      && |r.threads| == |m.threads| && (r.sh.queue != [] ==> m.sh.queue != [])
      && (m.sh.queue != [] ==> r.threads[i].Working?)
      && forall j: nat | j < |m.threads| && j != i :: r.threads[j] == m.threads[j]
  {
    hide Reversed;
  }

  lemma LeaveSomeoneUp(s: State, i: nat)
    requires SomeoneUp(s) && i < |s.threads| && Come(s, i).sh.nTotal + Come(s, i).sh.nIdle + 1 > 0
    ensures SomeoneUp(Leave(Come(s, i), i))
  {
    ComeFrame(s, i);
    LeaveFrame(Come(s, i), i);
    var r := Leave(Come(s, i), i);
    hide Come, Leave;
    if r.sh.queue != [] && |r.threads| > 1 {
      var j: nat :| 1 <= j < |s.threads| && !Asleep(s, j);
      assert !Asleep(r, j);
    }
  }

  lemma StepSomeoneUp(s: State, step: Step)
    requires Inv(s) && SomeoneUp(s) && Enabled(s, step)
    ensures SomeoneUp(Exec(s, step))
  {
    match step
    case Add(checks, pick) => AddSomeoneUp(s, checks, pick);
    case Evaluate(i) =>
      if s.sh.queue != [] && |s.threads| > 1 {
        var j: nat :| 1 <= j < |s.threads| && !Asleep(s, j);
        assert !Asleep(Exec(s, step), j);
      }
    case _ =>
      ComeKeeps(s, step.i);
      LeaveSomeoneUp(s, step.i);
  }

  /** In every run, checks in the queue never meet workers that are all asleep without a notification. */
  lemma {:induction false} WorkersWoken(workers: nat, nBatchSize: nat, steps: seq<Step>)
    ensures SomeoneUp(Run(workers, nBatchSize, steps))
  {
    if steps == [] {
      assert Run(workers, nBatchSize, steps).sh.queue == [];
    } else {
      var s, step := Run(workers, nBatchSize, steps[..|steps| - 1]), steps[|steps| - 1];
      WorkersWoken(workers, nBatchSize, steps[..|steps| - 1]);
      hide SomeoneUp, Inv, Exec, Enabled;
      if Enabled(s, step) {
        StepSomeoneUp(s, step);
      }
    }
  }

  lemma {:induction false} NoHolder(threads: seq<Thread>)
    requires forall j | 0 <= j < |threads| :: !threads[j].Working?
    ensures Held(threads) == multiset{}
  {
    if threads != [] {
      NoHolder(threads[1..]);
    }
  }

  // ---------- Wait comes to an end ----------

  /** A step that is not a wakeup without notification. */
  predicate Genuine(s: State, step: Step)
    requires Enabled(s, step)
  {
    step.Wake? ==> s.threads[step.i].notified
  }

  /** While the master is in `Wait`, some thread can always take a genuine step: there is no deadlock. */
  lemma NoDeadlock(s: State) returns (step: Step)
    requires Inv(s) && !s.threads[0].Outside?
    ensures Enabled(s, step) && Genuine(s, step) && !step.Add?
  {
    var i := 0;
    if s.threads[0] == Waiting(false) {
      NoLostWakeup(s);
      i :| 1 <= i < |s.threads| && s.threads[i].Working?;
    }
    assert ThreadOk(s, s.threads[i]);
    if s.threads[i].Waiting? {
      step := Wake(i);
    } else if s.threads[i].done < |s.threads[i].batch| {
      step := Evaluate(i);
    } else {
      step := Finish(i);
    }
  }

  /** What a thread may still do before the master returns. */
  function Effort(t: Thread): nat {
    match t
    case Outside => 1
    case Working(batch, done, _) => (if done <= |batch| then |batch| - done else 0) + 2
    case Waiting(notified) => if notified then 1 else 0
  }

  function Measure(s: State): nat {
    4 * |s.sh.queue| + Total(s.threads, Effort)
  }

  lemma NotifyEffort(threads: seq<Thread>)
    ensures Total(threads, Effort) <= Total(NotifyMaster(threads), Effort) <= Total(threads, Effort) + 1
  {
  }

  lemma ComeMeasure(s: State, i: nat)
    requires i < |s.threads|
    requires s.threads[i].Working? ==> s.threads[i].done == |s.threads[i].batch|
    requires s.threads[i].Waiting? ==> s.threads[i].notified
    ensures Come(s, i).sh.queue == s.sh.queue
    ensures Total(Come(s, i).threads, Effort) <= Total(s.threads, Effort)
  {
    TotalUpdate(s.threads, Effort, i, Outside);
    NotifyEffort(s.threads[i := Outside]);
    assert s.threads[i].Outside? ==> s.threads[i := Outside] == s.threads;
  }

  lemma LeaveMeasure(m: State, i: nat)
    requires Inside(m, i) && !(m.sh.queue == [] && i == 0 && m.sh.nTodo == 0)
    ensures Measure(Leave(m, i)) < Measure(m)
  {
    var r := Leave(m, i);
    TotalUpdate(m.threads, Effort, i, r.threads[i]);
    if m.sh.queue != [] {
      BatchFits(m.sh, m.nBatchSize);
    }
  }

  /** Every genuine step while the master is in `Wait`, other than its return, uses up some of a finite measure. */
  lemma StepMeasure(s: State, step: Step)
    requires Inv(s) && Enabled(s, step) && Genuine(s, step) && !s.threads[0].Outside? && !Returns(s, step)
    ensures Measure(Exec(s, step)) < Measure(s)
  {
    if step.Evaluate? {
      TotalUpdate(s.threads, Effort, step.i, Exec(s, step).threads[step.i]);
    } else {
      ComeKeeps(s, step.i);
      ComeMeasure(s, step.i);
      LeaveMeasure(Come(s, step.i), step.i);
    }
  }

  /** The run `steps` from `s` is all genuine, with the master in `Wait` and not returning. */
  ghost predicate StillWaiting(s: State, steps: seq<Step>)
    requires Inv(s)
    decreases |steps|
  {
    steps != [] ==>
      && Enabled(s, steps[0]) && Genuine(s, steps[0]) && !s.threads[0].Outside? && !Returns(s, steps[0])
      && (StepKeeps(s, steps[0]); StillWaiting(Exec(s, steps[0]), steps[1..]))
  }

  /** `Wait` always comes to an end: no run without it returning is longer than the measure at its start. */
  lemma {:induction false} WaitEnds(s: State, steps: seq<Step>)
    requires Inv(s) && StillWaiting(s, steps)
    ensures |steps| <= Measure(s)
    decreases |steps|
  {
    if steps != [] {
      StepMeasure(s, steps[0]);
      StepKeeps(s, steps[0]);
      WaitEnds(Exec(s, steps[0]), steps[1..]);
    }
  }

  // ---------- The class ----------

  /** The shared state as the code keeps it; every method is one critical section under the mutex. */
  class Queue {
    var queue: seq<Check>
    var nIdle: int
    var nTotal: int
    var fAllOk: bool
    var nTodo: int
    const nBatchSize: nat

    function Snapshot(): Shared
      reads this
    {
      Shared(queue, nIdle, nTotal, fAllOk, nTodo)
    }

    constructor (nBatchSizeIn: nat)
      ensures Snapshot() == NEW_QUEUE && nBatchSize == nBatchSizeIn
    {
      queue, nIdle, nTotal, fAllOk, nTodo := [], 0, 0, true, 0;
      nBatchSize := nBatchSizeIn;
    }

    /**
     One pass of `Loop` through its critical section, up to `cond.wait` or the end of the section, and whether it
     notifies the master.
     */
    method Section(arrival: Arrival, isMaster: bool) returns (departure: Departure, notify: bool)
      requires arrival.Back? ==> arrival.nNow > 0
      requires var t := Tidy(Snapshot(), arrival); t.nTotal + t.nIdle + 1 > 0
      modifies this
      ensures (Snapshot(), departure) == Settle(Tidy(old(Snapshot()), arrival), isMaster, nBatchSize)
      ensures notify <==> TellsMaster(Tidy(old(Snapshot()), arrival), arrival, isMaster)
    {
      notify := false;
      match arrival {
        case Back(nNow, fOk) =>
          fAllOk := fAllOk && fOk;
          nTodo := nTodo - nNow;
          if nTodo == 0 && !isMaster {
            notify := true;
          }
        case First =>
          nTotal := nTotal + 1;
        case Woken =>
          nIdle := nIdle - 1;
      }
      if queue == [] {
        if isMaster && nTodo == 0 {
          nTotal := nTotal - 1;
          var fRet := fAllOk;
          fAllOk := true;
          departure := Return(fRet);
          return;
        }
        nIdle := nIdle + 1;
        departure := Block;
        return;
      }
      var nNow := Max(1, Min(nBatchSize, |queue| / (nTotal + nIdle + 1)));
      BatchFits(Snapshot(), nBatchSize);
      var vChecks, rest := Swap(queue, nNow);
      queue := rest;
      departure := Take(vChecks, fAllOk);
    }

    /** The loop that moves checks from the end of the queue to the local batch. */
    static method Swap(queue: seq<Check>, nNow: nat) returns (vChecks: seq<Check>, rest: seq<Check>)
      requires nNow <= |queue|
      ensures rest == queue[..|queue| - nNow] && vChecks == Reversed(queue[|queue| - nNow..])
    {
      vChecks, rest := [], queue;
      for i := 0 to nNow
        invariant rest == queue[..|queue| - i]
        invariant vChecks == Reversed(queue[|queue| - i..])
      {
        vChecks := vChecks + [rest[|rest| - 1]];
        rest := rest[..|rest| - 1];
      }
    }

    /** `Add`, and the notification it makes. */
    method AddChecks(vChecks: seq<Check>) returns (wakeup: Wakeup)
      modifies this
      ensures Snapshot() == old(Snapshot()).(queue := old(queue) + vChecks, nTodo := old(nTodo) + |vChecks|)
      ensures wakeup == WakeupFor(|vChecks|)
      ensures (wakeup == AllWorkers <==> |vChecks| > 1) && (wakeup == OneWorker <==> |vChecks| == 1)
    {
      var i := 0;
      while i < |vChecks|
        invariant 0 <= i <= |vChecks|
        invariant Snapshot() == old(Snapshot()).(queue := old(queue) + vChecks[..i])
      {
        queue := queue + [vChecks[i]];
        i := i + 1;
      }
      assert vChecks[..i] == vChecks;
      nTodo := nTodo + |vChecks|;
      wakeup := Nobody;
      if |vChecks| == 1 {
        wakeup := OneWorker;
      } else if |vChecks| > 1 {
        wakeup := AllWorkers;
      }
    }
  }

  /** The local loop that evaluates a batch: once something has failed, the rest is skipped. */
  method EvaluateBatch(vChecks: seq<Check>, fOkIn: bool) returns (fOk: bool)
    ensures fOk <==> fOkIn && AllPass(vChecks)
  {
    fOk := fOkIn;
    for i := 0 to |vChecks|
      invariant fOk <==> fOkIn && AllPass(vChecks[..i])
    {
      assert vChecks[..i + 1] == vChecks[..i] + [vChecks[i]];
      if fOk {
        fOk := vChecks[i].passes;
      }
    }
    assert vChecks[..|vChecks|] == vChecks;
  }
}

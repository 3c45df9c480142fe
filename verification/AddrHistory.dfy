/**
 What the address manager remembers of one address over a run, whatever happens to the others: the statistics of its
 connections are those of its own history, so that failures add up and an address that never answers is given up.
 */
module AddrHistory {
  import opened AddrBook
  import opened AddrOps
  import opened AddrEffects

  /** What connections have taught about an address, and when any address last succeeded. */
  datatype History = History(nAttempts: int, nLastCountAttempt: int, nLastTry: int, nLastSuccess: int, nLastGood: int)

  function HistoryOf(b: Book, id: int): History
    requires id in b.info
  {
    var t := b.info[id].stats;
    History(t.nAttempts, t.nLastCountAttempt, t.nLastTry, t.nLastSuccess, b.nLastGood)
  }

  /** What one operation adds to the history of address `s`. No other address matters, but for its successes. */
  function Lived(t: History, s: Service, op: Op): History {
    match op
    case GoodOp(g, nTime) =>
      if g == s then History(0, t.nLastCountAttempt, nTime, nTime, nTime) else t.(nLastGood := nTime)
    case AttemptOp(a, countFailure, nTime) =>
      if a != s then t
      else if countFailure && t.nLastCountAttempt < t.nLastGood then
        t.(nAttempts := t.nAttempts + 1, nLastCountAttempt := nTime, nLastTry := nTime)
      else t.(nLastTry := nTime)
    case _ => t
  }

  function LivedAll(t: History, s: Service, ops: seq<Op>): History
    decreases |ops|
  {
    if ops == [] then t else LivedAll(Lived(t, s, ops[0]), s, ops[1..])
  }

  /** Entry `id` is the one of address `s`. */
  ghost predicate Stands(b: Book, s: Service, id: int) {
    id in b.info && b.info[id].service == s
  }

  /** The entry of `s`, if still there, has lived the operation. */
  ghost predicate Lives(b: Book, r: Book, s: Service, id: int, op: Op)
    requires Stands(b, s, id)
  {
    id in r.info ==> Stands(r, s, id) && HistoryOf(r, id) == Lived(HistoryOf(b, id), s, op)
  }

  lemma NamedAs(h: Hasher, b: Book, s: Service, id: int)
    requires Almost(h, b, {}, 0) && Stands(b, s, id)
    ensures Known(b, s) && b.addr[s.ip] == id
    ensures forall g | Known(b, g) && b.addr[g.ip] == id :: g == s
  {
  }

  lemma AddLives(h: Hasher, b: Book, op: Op, s: Service, id: int)
    requires Almost(h, b, {}, 0) && Stands(b, s, id) && op.AddOp? && op.routable
    ensures Lives(b, Exec(h, b, op), s, id, op)
  {
    hide Almost, Add, Deserves;
    var AddOp(a, routable, source, penalty, now, roll) := op;
    if a.service.ip in b.addr {
      AddsKnown(h, b, a, source, penalty, now, roll);
    } else {
      AddsNew(h, b, a, source, penalty, now, roll);
    }
  }

  lemma GoodLives(h: Hasher, b: Book, op: Op, s: Service, id: int)
    requires Almost(h, b, {}, 0) && Stands(b, s, id) && op.GoodOp?
    ensures Lives(b, Exec(h, b, op), s, id, op)
  {
    hide Almost, Good;
    var g := op.service;
    NamedAs(h, b, s, id);
    if Known(b, g) && !b.info[b.addr[g.ip]].fInTried {
      GoodMoves(h, b, g, op.nTime);
    } else {
      GoodNotes(h, b, g, op.nTime);
    }
  }

  /** One operation changes what is remembered of an address as its own history says. */
  lemma StepLives(h: Hasher, b: Book, op: Op, s: Service, id: int)
    requires Almost(h, b, {}, 0) && Stands(b, s, id)
    ensures Lives(b, Exec(h, b, op), s, id, op)
  {
    hide Almost, Add, Good, Gather;
    match op
    case AddOp(_, _, _, _, _, _) =>
      if op.routable {
        AddLives(h, b, op, s, id);
      } else {
        UnroutableIgnored(h, b, op);
      }
    case GoodOp(_, _) => GoodLives(h, b, op, s, id);
    case AttemptOp(a, countFailure, nTime) =>
      NamedAs(h, b, s, id);
      AttemptNotes(h, b, a, countFailure, nTime);
    case ConnectedOp(_, _) =>
    case SetServicesOp(_, _) =>
    case GetAddrOp(rnd, now) =>
      PartsOf(h, b);
      GatherFrame(b, rnd, now, 0, Quota(b), []);
  }

  lemma UnroutableIgnored(h: Hasher, b: Book, op: Op)
    requires Almost(h, b, {}, 0) && op.AddOp? && !op.routable
    ensures Exec(h, b, op) == b
  {
    hide Almost;
  }

  /** Ids are never given twice: what is there after a step was there before, or has the next id. */
  ghost predicate IdsGrow(b: Book, r: Book) {
    b.nIdCount <= r.nIdCount && forall x | x in r.info :: x in b.info || x >= b.nIdCount
  }

  lemma StepIds(h: Hasher, b: Book, op: Op)
    requires Almost(h, b, {}, 0)
    ensures IdsGrow(b, Exec(h, b, op))
  {
    hide Almost, Add, Good, Gather, Deserves;
    match op
    case AddOp(a, routable, source, penalty, now, roll) =>
      if !routable {
        UnroutableIgnored(h, b, op);
      } else if a.service.ip in b.addr {
        AddsKnown(h, b, a, source, penalty, now, roll);
      } else {
        AddsNew(h, b, a, source, penalty, now, roll);
      }
    case GoodOp(g, nTime) =>
      if Known(b, g) && !b.info[b.addr[g.ip]].fInTried {
        GoodMoves(h, b, g, nTime);
      } else {
        GoodNotes(h, b, g, nTime);
      }
    case AttemptOp(_, _, _) =>
    case ConnectedOp(_, _) =>
    case SetServicesOp(_, _) =>
    case GetAddrOp(rnd, now) =>
      PartsOf(h, b);
      GatherFrame(b, rnd, now, 0, Quota(b), []);
      assert Exec(h, b, op).info.Keys == b.info.Keys;
  }

  // ---------- Runs from any state ----------

  ghost predicate AllTimely(ops: seq<Op>) {
    forall op | op in ops :: Timely(op)
  }

  ghost function After(h: Hasher, b: Book, ops: seq<Op>): (r: Book)
    requires Consistent(h, b) && AllTimely(ops)
    ensures Consistent(h, r)
    decreases |ops|
  {
    if ops == [] then b
    else
      StepKeeps(h, b, ops[0]);
      After(h, Exec(h, b, ops[0]), ops[1..])
  }

  lemma AfterIds(h: Hasher, b: Book, ops: seq<Op>)
    requires Consistent(h, b) && AllTimely(ops)
    ensures IdsGrow(b, After(h, b, ops))
    decreases |ops|
  {
    hide Exec, Consistent, Timely;
    if ops != [] {
      AfterNext(h, b, ops);
      StepIdsOf(h, b, ops[0]);
      AfterIds(h, Exec(h, b, ops[0]), ops[1..]);
    }
  }

  lemma AfterNext(h: Hasher, b: Book, ops: seq<Op>)
    requires Consistent(h, b) && AllTimely(ops) && ops != []
    ensures Almost(h, b, {}, 0) && Consistent(h, Exec(h, b, ops[0])) && AllTimely(ops[1..])
    ensures After(h, b, ops) == After(h, Exec(h, b, ops[0]), ops[1..])
  {
    hide Exec, Almost, Timely;
    assert Timely(ops[0]);
    StepKeeps(h, b, ops[0]);
  }

  lemma StepIdsOf(h: Hasher, b: Book, op: Op)
    requires Consistent(h, b)
    ensures Almost(h, b, {}, 0) && IdsGrow(b, Exec(h, b, op)) && forall x | x in b.info :: x < b.nIdCount
  {
    hide Exec;
    StepIds(h, b, op);
  }

  /**
   Over every run, whatever happens to other addresses, the entry of an address that is still there remembers of its
   connections exactly what its own history is.
   */
  lemma {:induction false} HistoryExactly(h: Hasher, b: Book, ops: seq<Op>, s: Service, id: int)
    requires Consistent(h, b) && AllTimely(ops) && Stands(b, s, id) && id in After(h, b, ops).info
    ensures Stands(After(h, b, ops), s, id)
    ensures HistoryOf(After(h, b, ops), id) == LivedAll(HistoryOf(b, id), s, ops)
    decreases |ops|
  {
    hide Exec, Consistent, Almost, Timely, HistoryOf, Lived;
    if ops != [] {
      AfterNext(h, b, ops);
      var r := Exec(h, b, ops[0]);
      AfterIds(h, r, ops[1..]);
      StepIdsOf(h, b, ops[0]);
      StepLives(h, b, ops[0], s, id);
      HistoryExactly(h, r, ops[1..], s, id);
    }
  }

  // ---------- Giving up ----------

  /** Operations that neither mark an address good nor try address `s`. */
  predicate Quiet(s: Service, op: Op) {
    !op.GoodOp? && (op.AttemptOp? ==> op.service != s)
  }

  ghost predicate AllQuiet(s: Service, ops: seq<Op>) {
    forall op | op in ops :: Quiet(s, op)
  }

  /** Another address succeeds, then `s` fails; quiet operations in between and afterwards. */
  datatype Round = Round(other: Service, nGood: int, between: seq<Op>, nTry: int, rest: seq<Op>)

  function Played(s: Service, round: Round): seq<Op> {
    [GoodOp(round.other, round.nGood)] + round.between + [AttemptOp(s, true, round.nTry)] + round.rest
  }

  function PlayedAll(s: Service, rounds: seq<Round>): seq<Op>
    decreases |rounds|
  {
    if rounds == [] then [] else Played(s, rounds[0]) + PlayedAll(s, rounds[1..])
  }

  ghost predicate Fits(s: Service, last: int, round: Round) {
    && round.other != s && AllQuiet(s, round.between) && AllQuiet(s, round.rest) && last < round.nGood
  }

  /** Every success is later than the failure counted before it, the first one later than `last`. */
  ghost predicate Rounds(s: Service, last: int, rounds: seq<Round>)
    decreases |rounds|
  {
    rounds != [] ==> Fits(s, last, rounds[0]) && Rounds(s, rounds[0].nTry, rounds[1..])
  }

  lemma {:induction false} LivedJoin(t: History, s: Service, xs: seq<Op>, ys: seq<Op>)
    ensures LivedAll(t, s, xs + ys) == LivedAll(LivedAll(t, s, xs), s, ys)
    decreases |xs|
  {
    hide Lived;
    if xs == [] {
      assert xs + ys == ys;
    } else {
      assert (xs + ys)[0] == xs[0] && (xs + ys)[1..] == xs[1..] + ys;
      LivedJoin(Lived(t, s, xs[0]), s, xs[1..], ys);
    }
  }

  lemma {:induction false} QuietLived(t: History, s: Service, ops: seq<Op>)
    requires AllQuiet(s, ops)
    ensures LivedAll(t, s, ops) == t
    decreases |ops|
  {
    if ops != [] {
      assert Quiet(s, ops[0]);
      QuietLived(t, s, ops[1..]);
    }
  }

  lemma OneLived(t: History, s: Service, op: Op)
    ensures LivedAll(t, s, [op]) == Lived(t, s, op)
  {
    hide Lived;
    assert [op][1..] == [];
  }

  /** A round counts one failure. */
  lemma RoundLived(t: History, s: Service, round: Round)
    requires Fits(s, t.nLastCountAttempt, round)
    ensures LivedAll(t, s, Played(s, round))
         == History(t.nAttempts + 1, round.nTry, round.nTry, t.nLastSuccess, round.nGood)
  {
    hide LivedAll;
    var good, try := [GoodOp(round.other, round.nGood)], [AttemptOp(s, true, round.nTry)];
    LivedJoin(t, s, good + round.between + try, round.rest);
    LivedJoin(t, s, good + round.between, try);
    LivedJoin(t, s, good, round.between);
    OneLived(t, s, good[0]);
    var u := Lived(t, s, good[0]);
    QuietLived(u, s, round.between);
    OneLived(u, s, try[0]);
    QuietLived(Lived(u, s, try[0]), s, round.rest);
  }

  /** As many failures are counted as there are rounds. */
  lemma {:induction false} RoundsLived(t: History, s: Service, rounds: seq<Round>)
    requires Rounds(s, t.nLastCountAttempt, rounds)
    ensures var u := LivedAll(t, s, PlayedAll(s, rounds));
      && u.nAttempts == t.nAttempts + |rounds| && u.nLastSuccess == t.nLastSuccess
      && (rounds != [] ==> u.nLastTry == rounds[|rounds| - 1].nTry)
    decreases |rounds|
  {
    hide Played, Fits;
    if rounds != [] {
      LivedJoin(t, s, Played(s, rounds[0]), PlayedAll(s, rounds[1..]));
      RoundLived(t, s, rounds[0]);
      RoundsLived(LivedAll(t, s, Played(s, rounds[0])), s, rounds[1..]);
    }
  }

  /**
   An address that never succeeded is given up with the third failure counted in such rounds: more than a minute after
   the last try its entry, if still there, is terrible, and `GetAddr_` does not hand it out.
   */
  lemma FailuresGivenUp(h: Hasher, b: Book, s: Service, id: int, rounds: seq<Round>, now: int, rnd: nat -> nat)
    requires Consistent(h, b) && Stands(b, s, id) && b.info[id].stats.nLastSuccess == 0
    requires Rounds(s, b.info[id].stats.nLastCountAttempt, rounds) && AllTimely(PlayedAll(s, rounds))
    requires b.info[id].stats.nAttempts + |rounds| >= 3 && rounds != [] && rounds[|rounds| - 1].nTry < now - 60
    ensures var r := After(h, b, PlayedAll(s, rounds));
      && RandomOk(r.info, r.random)
      && (id in r.info ==> r.info[id].stats.IsTerrible(now))
      && id !in Gather(r, rnd, now, 0, Quota(r), []).1
  {
    var ops := PlayedAll(s, rounds);
    var r := After(h, b, ops);
    hide After, PlayedAll, Rounds, Gather, AllTimely;
    if id in r.info {
      HistoryExactly(h, b, ops, s, id);
      RoundsLived(HistoryOf(b, id), s, rounds);
    }
    NotHandedOut(h, r, id, now, rnd);
  }

  lemma NotHandedOut(h: Hasher, b: Book, id: int, now: int, rnd: nat -> nat)
    requires Consistent(h, b) && (id in b.info ==> b.info[id].stats.IsTerrible(now))
    ensures RandomOk(b.info, b.random) && id !in Gather(b, rnd, now, 0, Quota(b), []).1
  {
    PartsOf(h, b);
    hide Consistent, Gather, RandomOk;
    assert b.random[..0] == [];
    GatherResult(b, rnd, now, 0, Quota(b), []);
  }
}

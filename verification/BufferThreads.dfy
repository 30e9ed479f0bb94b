/**
 * The write buffer under threads (internal/proxy/clickhouse/buffer.go): request handlers that
 * enqueue, the timer that flushes, and the closing flush, interleaved one small step at a time
 * around the mutex. Every call to MySQL is a step of its own.
 */
module BufferThreads {
  import opened Sequences
  import opened Wrappers
  import opened WriteBuffer

  /** Where a thread stands; all but Idle and Waiting hold the mutex. */
  datatype PC =
    | Idle
    | Waiting(op: Op)
    | Holding(op: Op)
    | Checking
    | Beginning(q: seq<string>)
    | Alone(q: seq<string>, i: nat, oks: seq<bool>)
    | InTx(q: seq<string>, i: nat)
    | Committing(q: seq<string>)
    | Leaving

  type Thread = nat

  /** log lists the operations in the order in which they took the mutex. */
  datatype System = System(shared: State, lock: Option<Thread>, pcs: map<Thread, PC>, log: seq<Op>, closed: bool)

  function PcOf(sys: System, t: Thread): PC
  {
    if t in sys.pcs then sys.pcs[t] else Idle
  }

  predicate InCritical(pc: PC)
  {
    !pc.Idle? && !pc.Waiting?
  }

  predicate Shaped(pc: PC)
  {
    (pc.InTx? ==> pc.i <= |pc.q|) && (pc.Alone? ==> pc.i <= |pc.q| && |pc.oks| == pc.i)
  }

  // ---- Steps ----

  /** A step of the thread that holds the mutex, up to the unlock. */
  function Advance(s: State, pc: PC, maxSize: nat, ok: Oracle): (State, PC)
    requires InCritical(pc) && !pc.Leaving? && Shaped(pc)
  {
    match pc
    case Holding(Enqueue(sql)) =>
      var t := s.(buffer := s.buffer + [sql]);
      (t, if |t.buffer| >= maxSize then Checking else Leaving)
    case Holding(Flush) => (s, Checking)
    case Checking => if s.buffer == [] then (s, Leaving) else (Take(s), Beginning(s.buffer))
    case Beginning(q) => (s.(clock := s.clock + 1), if ok(s.clock) then InTx(q, 0) else Alone(q, 0, []))
    case Alone(q, i, oks) =>
      if i == |q| then (s.(landings := s.landings + [Each(oks)]), Leaving)
      else (ExecAlone(s, q[i], ok), Alone(q, i + 1, oks + [ok(s.clock)]))
    case InTx(q, i) =>
      if i == |q| then (s, Committing(q))
      else if ok(s.clock) then (s.(clock := s.clock + 1), InTx(q, i + 1))
      else (s.(clock := s.clock + 1, landings := s.landings + [Nothing]), Leaving)
    case Committing(q) => (Commit(s, q, ok), Leaving)
  }

  /** Thread t calls an operation; closing also stops the timer, once. */
  ghost predicate Call(sys: System, sys': System, t: Thread)
  {
    && PcOf(sys, t).Idle?
    && (|| (exists op: Op :: sys' == sys.(pcs := sys.pcs[t := Waiting(op)]))
        || (!sys.closed && sys' == sys.(pcs := sys.pcs[t := Waiting(Flush)], closed := true)))
  }

  predicate Lock(sys: System, sys': System, t: Thread)
  {
    && PcOf(sys, t).Waiting? && sys.lock.None?
    && var op := PcOf(sys, t).op;
       sys' == sys.(lock := Some(t), pcs := sys.pcs[t := Holding(op)], log := sys.log + [op])
  }

  predicate Work(sys: System, sys': System, t: Thread, maxSize: nat, ok: Oracle)
  {
    var pc := PcOf(sys, t);
    && InCritical(pc) && !pc.Leaving? && Shaped(pc)
    && var (s, next) := Advance(sys.shared, pc, maxSize, ok);
       sys' == sys.(shared := s, pcs := sys.pcs[t := next])
  }

  predicate Unlock(sys: System, sys': System, t: Thread)
  {
    PcOf(sys, t).Leaving? && sys' == sys.(lock := None, pcs := sys.pcs[t := Idle])
  }

  ghost predicate Step(sys: System, sys': System, t: Thread, maxSize: nat, ok: Oracle)
  {
    Call(sys, sys', t) || Lock(sys, sys', t) || Work(sys, sys', t, maxSize, ok) || Unlock(sys, sys', t)
  }

  const START := System(INITIAL, None, map[], [], false)

  ghost predicate AnyStep(sys: System, sys': System, maxSize: nat, ok: Oracle)
  {
    exists t: Thread :: Step(sys, sys', t, maxSize, ok)
  }

  /** An execution: threads step in any order. */
  ghost predicate Execution(run: seq<System>, maxSize: nat, ok: Oracle)
  {
    if |run| <= 1 then run == [START]
    else Execution(run[..|run| - 1], maxSize, ok) && AnyStep(run[|run| - 2], run[|run| - 1], maxSize, ok)
  }

  // ---- What every execution keeps ----

  /** What remains of the critical section, run to its end without interruption. */
  function Finish(s: State, pc: PC, maxSize: nat, ok: Oracle): State
    requires InCritical(pc) && Shaped(pc)
  {
    match pc
    case Holding(op) => Apply(s, op, maxSize, ok)
    case Checking => FlushSpec(s, ok)
    case Beginning(q) => RunBatch(s, q, ok)
    case Alone(q, i, oks) => OneByOne(s, q, i, oks, ok)
    case InTx(q, i) => InTransaction(s, q, i, ok)
    case Committing(q) => Commit(s, q, ok)
    case Leaving => s
  }

  lemma FinishKept(s: State, pc: PC, maxSize: nat, ok: Oracle)
    requires InCritical(pc) && !pc.Leaving? && Shaped(pc)
    ensures var (s', pc') := Advance(s, pc, maxSize, ok);
      InCritical(pc') && Shaped(pc') && Finish(s', pc', maxSize, ok) == Finish(s, pc, maxSize, ok)
  {
  }

  /** The program counter of the holder; a free mutex is as one about to be released. */
  function Current(sys: System): PC
  {
    if sys.lock.None? then Leaving else PcOf(sys, sys.lock.value)
  }

  /** The statements appended to the buffer so far. */
  function Appended(log: seq<Op>, pc: PC): seq<string>
  {
    if pc.Holding? && log != [] then Enqueued(log[..|log| - 1]) else Enqueued(log)
  }

  /** What is known of the outcomes at each point of the critical section. */
  predicate Accounted(s: State, pc: PC)
    requires Shaped(pc)
  {
    match pc
    case Beginning(q) => Unsettled(s, q, [])
    case Alone(q, i, oks) => Unsettled(s, q, Kept(q, oks))
    case InTx(q, _) => Unsettled(s, q, [])
    case Committing(q) => Unsettled(s, q, [])
    case _ => Settled(s)
  }

  predicate OwnsLast(log: seq<Op>, pc: PC)
  {
    pc.Holding? ==> log != [] && log[|log| - 1] == pc.op
  }

  ghost predicate Exclusive(sys: System)
  {
    && (forall t: Thread :: InCritical(PcOf(sys, t)) <==> sys.lock == Some(t))
    && Shaped(Current(sys)) && OwnsLast(sys.log, Current(sys))
  }

  predicate Conserved(sys: System)
  {
    Flatten(sys.shared.batches) + sys.shared.buffer == Appended(sys.log, Current(sys))
  }

  ghost predicate Linear(sys: System, maxSize: nat, ok: Oracle)
    requires InCritical(Current(sys)) && Shaped(Current(sys))
  {
    Finish(sys.shared, Current(sys), maxSize, ok) == After(sys.log, maxSize, ok)
  }

  ghost predicate Inv(sys: System, maxSize: nat, ok: Oracle)
  {
    Exclusive(sys) && InCritical(Current(sys)) && Linear(sys, maxSize, ok) && Conserved(sys)
    && Accounted(sys.shared, Current(sys))
  }

  lemma CallKeeps(sys: System, sys': System, t: Thread, maxSize: nat, ok: Oracle)
    requires Inv(sys, maxSize, ok) && Call(sys, sys', t)
    ensures Inv(sys', maxSize, ok)
  {
    hide Finish, After, Flatten, Settled, Unsettled, Kept, Enqueued;
    assert PcOf(sys', t).Waiting?;
    assert forall u: Thread :: u != t ==> PcOf(sys', u) == PcOf(sys, u);
    assert Current(sys') == Current(sys);
  }

  lemma LockKeeps(sys: System, sys': System, t: Thread, maxSize: nat, ok: Oracle)
    requires Inv(sys, maxSize, ok) && Lock(sys, sys', t)
    ensures Inv(sys', maxSize, ok)
  {
    hide Flatten, Settled, Unsettled, Kept, Enqueued, Apply;
    assert forall u: Thread :: u != t ==> PcOf(sys', u) == PcOf(sys, u);
    assert sys'.log[..|sys'.log| - 1] == sys.log;
  }

  lemma UnlockKeeps(sys: System, sys': System, t: Thread, maxSize: nat, ok: Oracle)
    requires Inv(sys, maxSize, ok) && Unlock(sys, sys', t)
    ensures Inv(sys', maxSize, ok)
  {
    hide After, Flatten, Settled, Unsettled, Kept, Enqueued;
    assert forall u: Thread :: u != t ==> PcOf(sys', u) == PcOf(sys, u);
  }

  lemma WorkKeeps(sys: System, sys': System, t: Thread, maxSize: nat, ok: Oracle)
    requires Inv(sys, maxSize, ok) && Work(sys, sys', t, maxSize, ok)
    ensures Inv(sys', maxSize, ok)
  {
    hide Finish, After, Flatten, Settled, Unsettled, Kept, Enqueued, Advance;
    var pc := PcOf(sys, t);
    FinishKept(sys.shared, pc, maxSize, ok);
    WorkConserves(sys.shared, pc, sys.log, maxSize, ok);
    WorkAccounts(sys.shared, pc, maxSize, ok);
    AdvanceLeavesHolding(sys.shared, pc, maxSize, ok);
    assert forall u: Thread :: u != t ==> PcOf(sys', u) == PcOf(sys, u);
    assert Current(sys') == PcOf(sys', t);
  }

  lemma AdvanceLeavesHolding(s: State, pc: PC, maxSize: nat, ok: Oracle)
    requires InCritical(pc) && !pc.Leaving? && Shaped(pc)
    ensures !Advance(s, pc, maxSize, ok).1.Holding?
  {
  }

  /** Talking to MySQL leaves the pending statements and the batches alone. */
  lemma MySQLKeepsBatches(s: State, pc: PC, maxSize: nat, ok: Oracle)
    requires pc.Beginning? || pc.Alone? || pc.InTx? || pc.Committing?
    requires Shaped(pc)
    ensures var s' := Advance(s, pc, maxSize, ok).0; s'.batches == s.batches && s'.buffer == s.buffer
  {
  }

  lemma FlattenTaken(s: State)
    ensures Flatten(Take(s).batches) == Flatten(s.batches) + s.buffer && Take(s).buffer == []
  {
    FlattenSnoc(s.batches, s.buffer);
  }

  lemma EnqueuedStep(log: seq<Op>)
    requires log != []
    ensures Enqueued(log) == Enqueued(log[..|log| - 1]) + match log[|log| - 1] { case Enqueue(sql) => [sql] case Flush => [] }
  {
    assert Enqueued(log[..|log| - 1]) + [] == Enqueued(log[..|log| - 1]);
  }

  lemma WorkConserves(s: State, pc: PC, log: seq<Op>, maxSize: nat, ok: Oracle)
    requires InCritical(pc) && !pc.Leaving? && Shaped(pc) && OwnsLast(log, pc)
    requires Flatten(s.batches) + s.buffer == Appended(log, pc)
    ensures var (s', pc') := Advance(s, pc, maxSize, ok);
      Flatten(s'.batches) + s'.buffer == Appended(log, pc')
  {
    hide Flatten, Enqueued, Take, Commit, ExecAlone;
    match pc
    case Holding(op) =>
      EnqueuedStep(log);
      match op {
        case Enqueue(sql) =>
          assert Flatten(s.batches) + (s.buffer + [sql]) == Flatten(s.batches) + s.buffer + [sql];
        case Flush =>
          assert Enqueued(log[..|log| - 1]) + [] == Enqueued(log[..|log| - 1]);
      }
    case Checking =>
      FlattenTaken(s);
      assert Flatten(s.batches) + s.buffer + [] == Flatten(s.batches) + s.buffer;
    case _ =>
      MySQLKeepsBatches(s, pc, maxSize, ok);
  }

  lemma AloneAccounts(s: State, q: seq<string>, i: nat, oks: seq<bool>, ok: Oracle)
    requires i < |q| && |oks| == i && Unsettled(s, q, Kept(q, oks))
    ensures Unsettled(ExecAlone(s, q[i], ok), q, Kept(q, oks + [ok(s.clock)]))
  {
    hide AllLanded;
    assert (oks + [ok(s.clock)])[..i] == oks;
  }

  lemma WorkAccounts(s: State, pc: PC, maxSize: nat, ok: Oracle)
    requires InCritical(pc) && !pc.Leaving? && Shaped(pc) && Accounted(s, pc)
    ensures var (s', pc') := Advance(s, pc, maxSize, ok);
      Shaped(pc') && Accounted(s', pc')
  {
    hide AllLanded, Kept, Commit, ExecAlone;
    match pc
    case Checking =>
      TakeUnsettles(s);
    case Alone(q, i, oks) =>
      if i == |q| {
        Settles(s, q, Kept(q, oks), Each(oks));
      } else {
        AloneAccounts(s, q, i, oks, ok);
      }
    case InTx(q, i) =>
      if i < |q| && !ok(s.clock) { Settles(s.(clock := s.clock + 1), q, [], Nothing); }
    case Committing(q) =>
      CommitSettles(s, q, ok);
    case Beginning(q) =>
      assert Kept(q, []) == [] by { KeptNothing(q); }
    case Holding(op) =>
  }

  lemma KeptNothing(q: seq<string>)
    ensures Kept(q, []) == []
  {
  }

  lemma StartKeeps(maxSize: nat, ok: Oracle)
    ensures Inv(START, maxSize, ok)
  {
  }

  lemma {:induction false} ExecutionKeeps(run: seq<System>, maxSize: nat, ok: Oracle)
    requires run != [] && Execution(run, maxSize, ok)
    ensures Inv(run[|run| - 1], maxSize, ok)
    decreases |run|
  {
    hide Inv, Call, Lock, Work, Unlock;
    if |run| == 1 {
      StartKeeps(maxSize, ok);
    } else {
      var before := run[..|run| - 1];
      ExecutionKeeps(before, maxSize, ok);
      var sys, sys' := run[|run| - 2], run[|run| - 1];
      var t: Thread :| Step(sys, sys', t, maxSize, ok);
      if Call(sys, sys', t) {
        CallKeeps(sys, sys', t, maxSize, ok);
      } else if Lock(sys, sys', t) {
        LockKeeps(sys, sys', t, maxSize, ok);
      } else if Work(sys, sys', t, maxSize, ok) {
        WorkKeeps(sys, sys', t, maxSize, ok);
      } else {
        UnlockKeeps(sys, sys', t, maxSize, ok);
      }
    }
  }

  // ---- The guarantees ----

  /**
   * In every execution, at every moment: one thread at most is in a critical section; the
   * batches handed to MySQL and the pending statements are exactly the statements appended so
   * far, in order and once each; what MySQL applied is that history with some statements left out.
   */
  lemma EveryMoment(run: seq<System>, maxSize: nat, ok: Oracle)
    requires run != [] && Execution(run, maxSize, ok)
    ensures var sys := run[|run| - 1];
      && (forall t: Thread, u: Thread :: InCritical(PcOf(sys, t)) && InCritical(PcOf(sys, u)) ==> t == u)
      && Flatten(sys.shared.batches) + sys.shared.buffer == Appended(sys.log, Current(sys))
      && Subsequence(sys.shared.applied, Appended(sys.log, Current(sys)))
  {
    hide Execution, Finish, After, Subsequence, Flatten;
    ExecutionKeeps(run, maxSize, ok);
    var sys := run[|run| - 1];
    AccountedIsSubsequence(sys.shared, Current(sys));
    SubsequenceLonger(sys.shared.applied, Flatten(sys.shared.batches), sys.shared.buffer);
  }

  lemma AccountedIsSubsequence(s: State, pc: PC)
    requires Shaped(pc) && Accounted(s, pc)
    ensures Subsequence(s.applied, Flatten(s.batches))
  {
    hide Subsequence, AllLanded, Flatten, Kept;
    var n := |s.landings|;
    AllLandedIsSubsequence(s.batches, s.landings);
    if pc.Beginning? || pc.Alone? || pc.InTx? || pc.Committing? {
      var q := pc.q;
      var part := if pc.Alone? then Kept(q, pc.oks) else [];
      PartIsSubsequence(q, pc);
      assert s.batches == s.batches[..n] + [q];
      FlattenSnoc(s.batches[..n], q);
      SubsequenceAppend(AllLanded(s.batches, s.landings), Flatten(s.batches[..n]), part, q);
    } else {
      assert s.batches[..n] == s.batches;
    }
  }

  lemma PartIsSubsequence(q: seq<string>, pc: PC)
    requires Shaped(pc) && (pc.Alone? ==> pc.q == q)
    ensures Subsequence(if pc.Alone? then Kept(q, pc.oks) else [], q)
  {
    hide Subsequence;
    if pc.Alone? {
      KeptIsSubsequence(q, pc.oks);
      SubsequenceLonger(Kept(q, pc.oks), q[..pc.i], q[pc.i..]);
      assert q[..pc.i] + q[pc.i..] == q;
    } else {
      SubsequenceSelf([]);
      SubsequenceLonger([], [], q);
      assert [] + q == q;
    }
  }

  /**
   * The buffer is linearizable: whenever the mutex is free the shared state is that of the
   * operations performed one after another in the order in which they took the mutex. So fewer
   * than max(1, maxSize) statements are pending, none right after a flush (the closing one
   * included), and every batch has its outcome.
   */
  lemma FreeMutex(run: seq<System>, maxSize: nat, ok: Oracle)
    requires run != [] && Execution(run, maxSize, ok) && run[|run| - 1].lock.None?
    ensures var sys := run[|run| - 1];
      && sys.shared == After(sys.log, maxSize, ok)
      && Settled(sys.shared) && Small(sys.shared, maxSize)
      && (sys.log != [] && sys.log[|sys.log| - 1] == Flush ==> sys.shared.buffer == [])
  {
    hide Execution, After;
    ExecutionKeeps(run, maxSize, ok);
    HistoryKept(run[|run| - 1].log, maxSize, ok);
  }

  /**
   * How full the buffer is whenever the mutex is free, told from the operations in the order in
   * which they took it: the pending statements are those since the last Flush modulo
   * max(1, maxSize); without a Flush every batch has exactly that many; and the last operation
   * handed over one batch with all that was pending, or left everything but the pending alone.
   */
  lemma FreeMutexFills(run: seq<System>, maxSize: nat, ok: Oracle)
    requires run != [] && Execution(run, maxSize, ok) && run[|run| - 1].lock.None?
    ensures var sys := run[|run| - 1]; var t, m := sys.shared, Full(maxSize);
      && |t.buffer| == SinceFlush(sys.log) % m
      && (NoFlush(sys.log) ==>
            (forall i :: 0 <= i < |t.batches| ==> |t.batches[i]| == m) && |t.batches| == |Enqueued(sys.log)| / m)
      && (sys.log != [] ==>
            var s, op := After(sys.log[..|sys.log| - 1], maxSize, ok), sys.log[|sys.log| - 1];
            var q := s.buffer + match op { case Enqueue(sql) => [sql] case Flush => [] };
            if Takes(sys.log, maxSize) then OneBatch(s, t, q) else t == s.(buffer := q))
  {
    hide Execution, After, SinceFlush, Takes, Enqueued, OneBatch, NoFlush, Full, Settled;
    FreeMutex(run, maxSize, ok);
    var log := run[|run| - 1].log;
    PendingCount(log, maxSize, ok);
    FullBatches(log, maxSize, ok);
    if log != [] { BatchTaken(log, maxSize, ok); }
  }
}

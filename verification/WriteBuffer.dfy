/**
 * The write buffer of the ClickHouse proxy (internal/proxy/clickhouse/buffer.go), one operation
 * at a time: the specification of Enqueue and Flush, and the class that keeps the pending
 * statements in a reused backing array.
 *
 * MySQL is an oracle: its k-th answer is ok(k). A commit that returns an error may or may not
 * have taken effect, which one more answer decides.
 */
module WriteBuffer {
  import opened Sequences

  type Oracle = nat -> bool

  /** What became of a batch: all of it, none of it, or the statements that succeeded one by one. */
  datatype Landing = Whole | Nothing | Each(oks: seq<bool>)

  /** The pending statements, the batches taken from them, their outcomes, and what MySQL applied. */
  datatype State = State(buffer: seq<string>, batches: seq<seq<string>>, landings: seq<Landing>,
                         applied: seq<string>, clock: nat)

  datatype Op = Enqueue(sql: string) | Flush

  const INITIAL := State([], [], [], [], 0)

  // ---- Specification ----

  /** Statements i.. of a batch, each executed on its own because no transaction could begin. */
  function OneByOne(s: State, q: seq<string>, i: nat, oks: seq<bool>, ok: Oracle): State
    requires i <= |q|
    decreases |q| - i
  {
    if i == |q| then s.(landings := s.landings + [Each(oks)])
    else OneByOne(ExecAlone(s, q[i], ok), q, i + 1, oks + [ok(s.clock)], ok)
  }

  function ExecAlone(s: State, sql: string, ok: Oracle): State
  {
    s.(applied := s.applied + (if ok(s.clock) then [sql] else []), clock := s.clock + 1)
  }

  /** Statements i.. of a batch inside a transaction: the first failure rolls everything back. */
  function InTransaction(s: State, q: seq<string>, i: nat, ok: Oracle): State
    requires i <= |q|
    decreases |q| - i
  {
    if i == |q| then Commit(s, q, ok)
    else if ok(s.clock) then InTransaction(s.(clock := s.clock + 1), q, i + 1, ok)
    else s.(clock := s.clock + 1, landings := s.landings + [Nothing])
  }

  function Commit(s: State, q: seq<string>, ok: Oracle): State
  {
    if ok(s.clock) then s.(clock := s.clock + 1, applied := s.applied + q, landings := s.landings + [Whole])
    else if ok(s.clock + 1) then s.(clock := s.clock + 2, applied := s.applied + q, landings := s.landings + [Whole])
    else s.(clock := s.clock + 2, landings := s.landings + [Nothing])
  }

  /** A batch already taken from the buffer: begin, then one of the two paths. */
  function RunBatch(s: State, q: seq<string>, ok: Oracle): State
  {
    if ok(s.clock) then InTransaction(s.(clock := s.clock + 1), q, 0, ok)
    else OneByOne(s.(clock := s.clock + 1), q, 0, [], ok)
  }

  function Take(s: State): State
  {
    s.(buffer := [], batches := s.batches + [s.buffer])
  }

  function FlushSpec(s: State, ok: Oracle): State
  {
    if s.buffer == [] then s else RunBatch(Take(s), s.buffer, ok)
  }

  function EnqueueSpec(s: State, sql: string, maxSize: nat, ok: Oracle): State
  {
    var t := s.(buffer := s.buffer + [sql]);
    if |t.buffer| >= maxSize then FlushSpec(t, ok) else t
  }

  function Apply(s: State, op: Op, maxSize: nat, ok: Oracle): State
  {
    match op
    case Enqueue(sql) => EnqueueSpec(s, sql, maxSize, ok)
    case Flush => FlushSpec(s, ok)
  }

  /** The state after a history of operations, the latest last. */
  function After(ops: seq<Op>, maxSize: nat, ok: Oracle): State
  {
    if ops == [] then INITIAL else Apply(After(ops[..|ops| - 1], maxSize, ok), ops[|ops| - 1], maxSize, ok)
  }

  // ---- MySQL ----

  class Backend {
    const ok: Oracle
    var clock: nat
    var applied: seq<string>
    var staged: seq<string>

    constructor (ok: Oracle)
      ensures this.ok == ok && clock == 0 && applied == [] && staged == []
    {
      this.ok := ok;
      clock, applied, staged := 0, [], [];
    }

    method Begin() returns (success: bool)
      modifies this
      ensures success == ok(old(clock)) && clock == old(clock) + 1 && applied == old(applied) && staged == []
    {
      success := ok(clock);
      clock := clock + 1;
      staged := [];
    }

    /** A statement outside any transaction. */
    method Exec(sql: string) returns (success: bool)
      modifies this
      ensures success == ok(old(clock)) && clock == old(clock) + 1
      ensures applied == old(applied) + (if success then [sql] else [])
    {
      success := ok(clock);
      clock := clock + 1;
      if success {
        applied := applied + [sql];
      }
    }

    /** A statement of the open transaction. */
    method TxExec(sql: string) returns (success: bool)
      modifies this
      ensures success == ok(old(clock)) && clock == old(clock) + 1 && applied == old(applied)
      ensures staged == old(staged) + (if success then [sql] else [])
    {
      success := ok(clock);
      clock := clock + 1;
      if success {
        staged := staged + [sql];
      }
    }

    method Rollback()
      modifies this
      ensures staged == [] && clock == old(clock) && applied == old(applied)
    {
      staged := [];
    }

    /** landed says whether the transaction took effect, which a failed commit does not tell. */
    method Commit() returns (success: bool, ghost landed: bool)
      modifies this
      ensures success == ok(old(clock)) && landed == (success || ok(old(clock) + 1))
      ensures clock == old(clock) + (if success then 1 else 2)
      ensures applied == old(applied) + (if landed then old(staged) else [])
    {
      success := ok(clock);
      landed := success || ok(clock + 1);
      if success || ok(clock + 1) {
        applied := applied + staged;
      }
      clock := clock + (if success then 1 else 2);
      staged := [];
    }
  }

  // ---- The buffer ----

  class Buffer {
    var data: array<string>
    var len: nat
    const maxSize: nat
    const pool: Backend
    var stopped: bool
    ghost var batches: seq<seq<string>>
    ghost var landings: seq<Landing>

    ghost predicate Valid()
      reads this
    {
      len <= data.Length && maxSize <= data.Length
    }

    /** The state the fields stand for. */
    ghost function Abstract(): State
      requires Valid()
      reads this, data, pool
    {
      State(data[..len], batches, landings, pool.applied, pool.clock)
    }

    constructor (maxSize: nat, pool: Backend)
      requires pool.clock == 0 && pool.applied == []
      ensures Valid() && fresh(data) && this.maxSize == maxSize && this.pool == pool
      ensures Abstract() == INITIAL && !stopped
    {
      this.maxSize := maxSize;
      this.pool := pool;
      data := new string[maxSize];
      len := 0;
      stopped := false;
      batches, landings := [], [];
    }

    /** Go's append: writes in place while the capacity lasts, else moves to a larger array. */
    method Append(sql: string)
      requires Valid()
      modifies this`data, this`len, data
      ensures Valid() && (data == old(data) || fresh(data))
      ensures old(len) < old(data.Length) ==> data == old(data)
      ensures data[..len] == old(data[..len]) + [sql]
    {
      if len == data.Length {
        var grown := new string[2 * len + 1];
        forall i | 0 <= i < len {
          grown[i] := data[i];
        }
        data := grown;
      }
      data[len] := sql;
      len := len + 1;
    }

    method Enqueue(sql: string)
      requires Valid()
      modifies this, data, pool
      ensures Valid() && (data == old(data) || fresh(data)) && stopped == old(stopped)
      ensures old(len) < old(data.Length) ==> data == old(data)
      ensures Abstract() == EnqueueSpec(old(Abstract()), sql, maxSize, pool.ok)
    {
      Append(sql);
      if len >= maxSize {
        FlushLocked();
      }
    }

    method Flush()
      requires Valid()
      modifies this, pool
      ensures Valid() && data == old(data) && stopped == old(stopped)
      ensures Abstract() == FlushSpec(old(Abstract()), pool.ok)
    {
      FlushLocked();
    }

    method FlushLocked()
      requires Valid()
      modifies this`len, this`batches, this`landings, pool
      ensures Valid()
      ensures Abstract() == FlushSpec(old(Abstract()), pool.ok)
    {
      if len == 0 {
        return;
      }
      var queries := data[..len];
      len := 0;
      batches := batches + [queries];
      ghost var taken := Abstract();
      assert taken == Take(old(Abstract()));

      var begun := pool.Begin();
      if !begun {
        ExecuteOneByOne(queries);
        return;
      }
      ExecuteInTransaction(queries);
    }

    /** The loop taken when Begin fails. */
    method ExecuteOneByOne(queries: seq<string>)
      requires Valid()
      modifies this`landings, pool
      ensures Valid()
      ensures Abstract() == OneByOne(old(Abstract()), queries, 0, [], pool.ok)
    {
      ghost var oks: seq<bool> := [];
      var i := 0;
      while i < |queries|
        invariant 0 <= i <= |queries| && landings == old(landings)
        invariant OneByOne(Abstract(), queries, i, oks, pool.ok) == OneByOne(old(Abstract()), queries, 0, [], pool.ok)
      {
        ghost var before := Abstract();
        var success := pool.Exec(queries[i]);
        oks := oks + [success];
        assert Abstract() == ExecAlone(before, queries[i], pool.ok);
        i := i + 1;
      }
      landings := landings + [Each(oks)];
    }

    /** The transaction path: roll back at the first failure, else commit. */
    method ExecuteInTransaction(queries: seq<string>)
      requires Valid() && pool.staged == []
      modifies this`landings, pool
      ensures Valid()
      ensures Abstract() == InTransaction(old(Abstract()), queries, 0, pool.ok)
    {
      var i := 0;
      while i < |queries|
        invariant 0 <= i <= |queries| && landings == old(landings) && pool.staged == queries[..i]
        invariant InTransaction(Abstract(), queries, i, pool.ok) == InTransaction(old(Abstract()), queries, 0, pool.ok)
      {
        ghost var before := Abstract();
        var success := pool.TxExec(queries[i]);
        assert Abstract() == before.(clock := before.clock + 1);
        if !success {
          pool.Rollback();
          landings := landings + [Nothing];
          return;
        }
        i := i + 1;
      }
      assert queries[..i] == queries;
      ghost var before := Abstract();
      var success, landed := pool.Commit();
      landings := landings + [if landed then Whole else Nothing];
      assert Abstract() == Commit(before, queries, pool.ok);
    }

    /** Closing twice panics, as closing a closed channel does. */
    method Close()
      requires Valid() && !stopped
      modifies this, pool
      ensures Valid() && data == old(data) && stopped
      ensures Abstract() == FlushSpec(old(Abstract()), pool.ok)
    {
      stopped := true;
      Flush();
    }
  }

  // ---- What every history of operations keeps ----

  /** The statements enqueued, in order. */
  function Enqueued(ops: seq<Op>): seq<string>
  {
    if ops == [] then []
    else
      var last := ops[|ops| - 1];
      Enqueued(ops[..|ops| - 1]) + (if last.Enqueue? then [last.sql] else [])
  }

  /** The statements whose flag is set. */
  function Kept(q: seq<string>, oks: seq<bool>): seq<string>
    requires |oks| <= |q|
  {
    if oks == [] then []
    else
      var i := |oks| - 1;
      Kept(q, oks[..i]) + (if oks[i] then [q[i]] else [])
  }

  predicate Fitting(q: seq<string>, l: Landing)
  {
    l.Each? ==> |l.oks| == |q|
  }

  function Landed(q: seq<string>, l: Landing): seq<string>
    requires Fitting(q, l)
  {
    match l
    case Whole => q
    case Nothing => []
    case Each(oks) => Kept(q, oks)
  }

  predicate AllFitting(batches: seq<seq<string>>, ls: seq<Landing>)
  {
    |ls| <= |batches| && forall i :: 0 <= i < |ls| ==> Fitting(batches[i], ls[i])
  }

  /** What landed of the batches that have an outcome, in order. */
  function AllLanded(batches: seq<seq<string>>, ls: seq<Landing>): seq<string>
    requires AllFitting(batches, ls)
  {
    if ls == [] then []
    else
      var i := |ls| - 1;
      AllLanded(batches, ls[..i]) + Landed(batches[i], ls[i])
  }

  /** Every batch has an outcome, and MySQL applied exactly what landed of each, in order. */
  predicate Settled(s: State)
  {
    |s.landings| == |s.batches| && AllFitting(s.batches, s.landings) && s.applied == AllLanded(s.batches, s.landings)
  }

  /** As Settled, but for the last batch, of which only some statements were applied so far. */
  predicate Unsettled(s: State, q: seq<string>, part: seq<string>)
  {
    && |s.batches| == |s.landings| + 1 && s.batches[|s.landings|] == q
    && AllFitting(s.batches, s.landings)
    && s.applied == AllLanded(s.batches, s.landings) + part
  }

  lemma {:induction false} LandedPrefix(batches: seq<seq<string>>, q: seq<string>, ls: seq<Landing>)
    requires AllFitting(batches, ls)
    ensures AllFitting(batches + [q], ls)
    ensures AllLanded(batches + [q], ls) == AllLanded(batches, ls)
  {
    hide Landed;
    if ls != [] {
      LandedPrefix(batches, q, ls[..|ls| - 1]);
    }
  }

  /** The last batch settles with the outcome that accounts for what was applied of it. */
  lemma Settles(s: State, q: seq<string>, part: seq<string>, l: Landing)
    requires Unsettled(s, q, part) && Fitting(q, l) && Landed(q, l) == part
    ensures Settled(s.(landings := s.landings + [l]))
  {
    hide Landed;
    var ls := s.landings + [l];
    assert ls[..|ls| - 1] == s.landings;
  }

  lemma {:induction false} OneByOneSettles(s: State, q: seq<string>, i: nat, oks: seq<bool>, ok: Oracle)
    requires i <= |q| && |oks| == i && Unsettled(s, q, Kept(q, oks))
    ensures var t := OneByOne(s, q, i, oks, ok);
      Settled(t) && t.buffer == s.buffer && t.batches == s.batches
    decreases |q| - i
  {
    hide AllLanded;
    if i == |q| {
      Settles(s, q, Kept(q, oks), Each(oks));
    } else {
      var t := ExecAlone(s, q[i], ok);
      var more := oks + [ok(s.clock)];
      assert more[..i] == oks;
      assert Unsettled(t, q, Kept(q, more));
      OneByOneSettles(t, q, i + 1, more, ok);
    }
  }

  lemma {:induction false} TransactionSettles(s: State, q: seq<string>, i: nat, ok: Oracle)
    requires i <= |q| && Unsettled(s, q, [])
    ensures var t := InTransaction(s, q, i, ok);
      && Settled(t) && t.buffer == s.buffer && t.batches == s.batches
      && t.landings[|s.landings|] in {Whole, Nothing}
    decreases |q| - i
  {
    hide AllLanded;
    if i == |q| {
      CommitSettles(s, q, ok);
    } else {
      var t := s.(clock := s.clock + 1);
      if ok(s.clock) {
        TransactionSettles(t, q, i + 1, ok);
      } else {
        Settles(t, q, [], Nothing);
      }
    }
  }

  lemma CommitSettles(s: State, q: seq<string>, ok: Oracle)
    requires Unsettled(s, q, [])
    ensures var t := Commit(s, q, ok);
      && Settled(t) && t.buffer == s.buffer && t.batches == s.batches
      && t.landings[|s.landings|] in {Whole, Nothing}
  {
    hide AllLanded;
    var c := s.clock + (if ok(s.clock) then 1 else 2);
    if ok(s.clock) || ok(s.clock + 1) {
      assert s.applied + q == AllLanded(s.batches, s.landings) + q;
      Settles(s.(clock := c, applied := s.applied + q), q, q, Whole);
    } else {
      Settles(s.(clock := c), q, [], Nothing);
    }
  }

  lemma TakeUnsettles(s: State)
    requires Settled(s)
    ensures Unsettled(Take(s), s.buffer, []) && Flatten(Take(s).batches) == Flatten(s.batches) + s.buffer
  {
    LandedPrefix(s.batches, s.buffer, s.landings);
    FlattenSnoc(s.batches, s.buffer);
    var t := Take(s);
    assert t.batches[..|t.batches| - 1] == s.batches;
  }

  lemma BatchSettles(s: State, q: seq<string>, ok: Oracle)
    requires Unsettled(s, q, [])
    ensures var t := RunBatch(s, q, ok);
      && Settled(t) && t.buffer == s.buffer && t.batches == s.batches
  {
    hide AllLanded;
    var t := s.(clock := s.clock + 1);
    if ok(s.clock) {
      TransactionSettles(t, q, 0, ok);
    } else {
      OneByOneSettles(t, q, 0, [], ok);
    }
  }

  lemma FlushKeeps(s: State, ok: Oracle)
    requires Settled(s)
    ensures var t := FlushSpec(s, ok);
      Settled(t) && t.buffer == [] && Flatten(t.batches) == Flatten(s.batches) + s.buffer
  {
    hide RunBatch, Flatten, Unsettled, Settled, Take;
    if s.buffer != [] {
      TakeUnsettles(s);
      BatchSettles(Take(s), s.buffer, ok);
      TakeEmpties(s);
    } else {
      assert Flatten(s.batches) + s.buffer == Flatten(s.batches);
    }
  }

  lemma TakeEmpties(s: State)
    ensures Take(s).buffer == []
  {
  }

  predicate Small(s: State, maxSize: nat)
  {
    |s.buffer| < if maxSize > 1 then maxSize else 1
  }

  /**
   * After any history: the batches and the pending statements are the enqueued statements, in
   * order and once each; the applied statements are what landed of each batch; fewer than
   * max(1, maxSize) statements are pending, and none after a flush.
   */
  lemma {:induction false} HistoryKept(ops: seq<Op>, maxSize: nat, ok: Oracle)
    ensures var s := After(ops, maxSize, ok);
      && Flatten(s.batches) + s.buffer == Enqueued(ops)
      && Settled(s) && Small(s, maxSize)
      && (ops != [] && ops[|ops| - 1] == Flush ==> s.buffer == [])
  {
    hide FlushSpec, Flatten, Settled;
    if ops == [] {
      NothingFlushed();
    } else {
      var before, op := ops[..|ops| - 1], ops[|ops| - 1];
      HistoryKept(before, maxSize, ok);
      var s := After(before, maxSize, ok);
      match op
      case Flush =>
        FlushKeeps(s, ok);
        assert Flatten(s.batches) + s.buffer + [] == Flatten(s.batches) + s.buffer;
      case Enqueue(sql) =>
        var t := s.(buffer := s.buffer + [sql]);
        assert Settled(t) by { PendingIsNoOutcome(s, t); }
        FlushKeeps(t, ok);
        assert Flatten(s.batches) + (s.buffer + [sql]) == Flatten(s.batches) + s.buffer + [sql];
    }
  }

  lemma PendingIsNoOutcome(s: State, t: State)
    requires Settled(s) && t == s.(buffer := t.buffer)
    ensures Settled(t)
  {
  }

  lemma NothingFlushed()
    ensures Flatten(INITIAL.batches) == [] && Settled(INITIAL)
  {
  }

  // ---- When a batch is taken ----

  /** The number of pending statements at which a batch is taken. */
  function Full(maxSize: nat): (m: nat)
    ensures m >= 1
  {
    if maxSize > 1 then maxSize else 1
  }

  /** The statements enqueued since the last Flush. */
  function SinceFlush(ops: seq<Op>): nat
  {
    if ops == [] || ops[|ops| - 1] == Flush then 0 else SinceFlush(ops[..|ops| - 1]) + 1
  }

  predicate NoFlush(ops: seq<Op>)
  {
    forall i :: 0 <= i < |ops| ==> ops[i].Enqueue?
  }

  /** Nothing but the pending statements is touched. */
  predicate OnlyPending(s: State, t: State, sql: string)
  {
    t == s.(buffer := s.buffer + [sql])
  }

  /** One batch was taken, with all of these statements, and none is pending. */
  predicate OneBatch(s: State, t: State, q: seq<string>)
  {
    t.batches == s.batches + [q] && t.buffer == []
  }

  lemma FlushTakes(s: State, ok: Oracle)
    requires Settled(s)
    ensures s.buffer == [] ==> FlushSpec(s, ok) == s
    ensures s.buffer != [] ==> OneBatch(s, FlushSpec(s, ok), s.buffer)
  {
    hide RunBatch, Unsettled, Settled, Flatten;
    if s.buffer != [] {
      TakeUnsettles(s);
      BatchSettles(Take(s), s.buffer, ok);
    }
  }

  lemma EnqueueTakes(s: State, sql: string, maxSize: nat, ok: Oracle)
    requires Settled(s) && Small(s, maxSize)
    ensures |s.buffer| + 1 < Full(maxSize) ==> OnlyPending(s, EnqueueSpec(s, sql, maxSize, ok), sql)
    ensures |s.buffer| + 1 == Full(maxSize) ==> OneBatch(s, EnqueueSpec(s, sql, maxSize, ok), s.buffer + [sql])
  {
    hide FlushSpec, Settled, Take;
    var t := s.(buffer := s.buffer + [sql]);
    PendingIsNoOutcome(s, t);
    FlushTakes(t, ok);
  }

  /** The remainder counts up to m - 1 and starts again. */
  lemma NextRemainder(n: nat, m: nat)
    requires m >= 1
    ensures (n + 1) % m == if n % m + 1 == m then 0 else n % m + 1
    ensures (n + 1) / m == if n % m + 1 == m then n / m + 1 else n / m
  {
    var q, r := n / m, n % m;
    assert n == m * q + r;
    if r + 1 == m {
      assert n + 1 == m * (q + 1);
      DivisionIs(n + 1, m, q + 1, 0);
    } else {
      DivisionIs(n + 1, m, q, r + 1);
    }
  }

  lemma DivisionIs(n: nat, m: nat, q: nat, r: nat)
    requires m >= 1 && r < m && n == m * q + r
    ensures n / m == q && n % m == r
  {
    var a, b := n / m, n % m;
    assert m * a + b == n;
    Products(m, a, q);
    Products(m, q, a);
  }

  lemma {:induction false} Products(m: nat, a: nat, q: nat)
    ensures a < q ==> m * a + m <= m * q
  {
    if a < q {
      Products(m, a, q - 1);
      assert m * q == m * (q - 1) + m;
    }
  }

  /** The pending statements number those enqueued since the last Flush, modulo max(1, maxSize). */
  lemma {:induction false} PendingCount(ops: seq<Op>, maxSize: nat, ok: Oracle)
    ensures |After(ops, maxSize, ok).buffer| == SinceFlush(ops) % Full(maxSize)
  {
    hide FlushSpec, EnqueueSpec, Flatten, Settled;
    var m := Full(maxSize);
    if ops == [] {
      DivisionIs(0, m, 0, 0);
    } else {
      var before, op := ops[..|ops| - 1], ops[|ops| - 1];
      PendingCount(before, maxSize, ok);
      HistoryKept(before, maxSize, ok);
      var s := After(before, maxSize, ok);
      match op
      case Flush =>
        FlushTakes(s, ok);
        DivisionIs(0, m, 0, 0);
      case Enqueue(sql) =>
        EnqueueTakes(s, sql, maxSize, ok);
        NextRemainder(SinceFlush(before), m);
    }
  }

  /** The last operation takes a batch. */
  predicate Takes(ops: seq<Op>, maxSize: nat)
  {
    && ops != []
    && if ops[|ops| - 1] == Flush then SinceFlush(ops[..|ops| - 1]) % Full(maxSize) != 0
       else SinceFlush(ops) % Full(maxSize) == 0
  }

  /**
   * When batches are taken, told from the operations alone. An Enqueue takes one exactly when
   * with it the statements since the last Flush are a multiple of max(1, maxSize), a Flush
   * exactly when they are not; the batch is all that was pending. Otherwise an Enqueue adds its
   * statement to the pending ones and a Flush does nothing: no batch, no outcome, no word to MySQL.
   */
  lemma BatchTaken(ops: seq<Op>, maxSize: nat, ok: Oracle)
    requires ops != []
    ensures var before := ops[..|ops| - 1]; var op := ops[|ops| - 1];
      var s, t := After(before, maxSize, ok), After(ops, maxSize, ok);
      var q := s.buffer + match op { case Enqueue(sql) => [sql] case Flush => [] };
      && (Takes(ops, maxSize) ==> OneBatch(s, t, q) && 1 <= |q| <= Full(maxSize) && (op.Enqueue? ==> |q| == Full(maxSize)))
      && (!Takes(ops, maxSize) ==> t == s.(buffer := q))
  {
    hide FlushSpec, EnqueueSpec, Flatten, Settled;
    var before, op := ops[..|ops| - 1], ops[|ops| - 1];
    var s := After(before, maxSize, ok);
    PendingCount(before, maxSize, ok);
    PendingCount(ops, maxSize, ok);
    HistoryKept(before, maxSize, ok);
    NextRemainder(SinceFlush(before), Full(maxSize));
    match op
    case Flush =>
      FlushTakes(s, ok);
      assert s.buffer + [] == s.buffer;
    case Enqueue(sql) =>
      EnqueueTakes(s, sql, maxSize, ok);
  }

  /** Without a Flush every batch has exactly max(1, maxSize) statements, and the rest is pending. */
  lemma {:induction false} FullBatches(ops: seq<Op>, maxSize: nat, ok: Oracle)
    ensures NoFlush(ops) ==>
      var s, m := After(ops, maxSize, ok), Full(maxSize);
      && (forall i :: 0 <= i < |s.batches| ==> |s.batches[i]| == m)
      && |s.batches| == |Enqueued(ops)| / m && |s.buffer| == |Enqueued(ops)| % m
  {
    hide After, Enqueued, Takes;
    if NoFlush(ops) {
      if ops == [] {
        NothingTaken(maxSize, ok);
      } else {
        var before := ops[..|ops| - 1];
        FullBatches(before, maxSize, ok);
        BatchTaken(ops, maxSize, ok);
        OneMore(ops, maxSize);
        NextRemainder(|Enqueued(before)|, Full(maxSize));
        PendingCount(ops, maxSize, ok);
      }
    }
  }

  lemma NothingTaken(maxSize: nat, ok: Oracle)
    ensures After([], maxSize, ok) == INITIAL && Enqueued([]) == []
    ensures 0 / Full(maxSize) == 0 && 0 % Full(maxSize) == 0
  {
    DivisionIs(0, Full(maxSize), 0, 0);
  }

  lemma {:induction false} OneMore(ops: seq<Op>, maxSize: nat)
    requires ops != [] && NoFlush(ops)
    ensures |Enqueued(ops)| == |Enqueued(ops[..|ops| - 1])| + 1
    ensures SinceFlush(ops) == |Enqueued(ops)|
    ensures Takes(ops, maxSize) <==> |Enqueued(ops)| % Full(maxSize) == 0
  {
    var before := ops[..|ops| - 1];
    if before == [] {
      assert Enqueued(before) == [];
    } else {
      OneMore(before, maxSize);
    }
  }

  // ---- Subsequences and outcomes ----

  /** part is history with some statements left out: the positions kept are increasing. */
  predicate Subsequence(part: seq<string>, history: seq<string>)
  {
    if part == [] then true
    else if history == [] then false
    else if part[|part| - 1] == history[|history| - 1] then Subsequence(part[..|part| - 1], history[..|history| - 1])
    else Subsequence(part, history[..|history| - 1])
  }

  lemma {:induction false} SubsequenceSkip(part: seq<string>, history: seq<string>, x: string)
    requires Subsequence(part, history)
    ensures Subsequence(part, history + [x])
    decreases |history|, 1
  {
    assert (history + [x])[..|history|] == history;
    if part != [] && part[|part| - 1] == x {
      SubsequenceShorter(part, history);
    }
  }

  lemma {:induction false} SubsequenceShorter(part: seq<string>, history: seq<string>)
    requires part != [] && Subsequence(part, history)
    ensures Subsequence(part[..|part| - 1], history)
    decreases |history|, 0
  {
    var h := history[..|history| - 1];
    assert history == h + [history[|history| - 1]];
    if part[|part| - 1] == history[|history| - 1] {
      SubsequenceSkip(part[..|part| - 1], h, history[|history| - 1]);
    } else {
      SubsequenceShorter(part, h);
      SubsequenceSkip(part[..|part| - 1], h, history[|history| - 1]);
    }
  }

  lemma SubsequenceTake(part: seq<string>, history: seq<string>, x: string)
    requires Subsequence(part, history)
    ensures Subsequence(part + [x], history + [x])
  {
    assert (part + [x])[..|part|] == part && (history + [x])[..|history|] == history;
  }

  lemma {:induction false} SubsequenceAppend(part: seq<string>, history: seq<string>, more: seq<string>, rest: seq<string>)
    requires Subsequence(part, history) && Subsequence(more, rest)
    ensures Subsequence(part + more, history + rest)
    decreases |rest|
  {
    if rest == [] {
      assert part + more == part && history + rest == history;
    } else {
      var r, x := rest[..|rest| - 1], rest[|rest| - 1];
      assert history + rest == history + r + [x];
      if more != [] && more[|more| - 1] == x {
        var m := more[..|more| - 1];
        SubsequenceAppend(part, history, m, r);
        SubsequenceTake(part + m, history + r, x);
        assert part + more == part + m + [x];
      } else {
        SubsequenceAppend(part, history, more, r);
        SubsequenceSkip(part + more, history + r, x);
      }
    }
  }

  lemma {:induction false} SubsequenceSelf(q: seq<string>)
    ensures Subsequence(q, q)
  {
    if q != [] { SubsequenceSelf(q[..|q| - 1]); }
  }

  lemma {:induction false} KeptIsSubsequence(q: seq<string>, oks: seq<bool>)
    requires |oks| <= |q|
    ensures Subsequence(Kept(q, oks), q[..|oks|])
  {
    if oks != [] {
      var i := |oks| - 1;
      KeptIsSubsequence(q, oks[..i]);
      assert q[..i + 1] == q[..i] + [q[i]];
      if oks[i] {
        SubsequenceTake(Kept(q, oks[..i]), q[..i], q[i]);
      } else {
        SubsequenceSkip(Kept(q, oks[..i]), q[..i], q[i]);
        assert Kept(q, oks) == Kept(q, oks[..i]);
      }
    }
  }

  lemma LandedIsSubsequence(q: seq<string>, l: Landing)
    requires Fitting(q, l)
    ensures Subsequence(Landed(q, l), q)
  {
    match l
    case Whole => SubsequenceSelf(q);
    case Nothing =>
    case Each(oks) =>
      KeptIsSubsequence(q, oks);
      assert q[..|q|] == q;
  }

  lemma {:induction false} AllLandedIsSubsequence(batches: seq<seq<string>>, ls: seq<Landing>)
    requires AllFitting(batches, ls)
    ensures Subsequence(AllLanded(batches, ls), Flatten(batches[..|ls|]))
  {
    hide Subsequence, Landed;
    if ls == [] {
      SubsequenceSelf([]);
    } else {
      var i := |ls| - 1;
      AllLandedIsSubsequence(batches, ls[..i]);
      LandedIsSubsequence(batches[i], ls[i]);
      assert batches[..i + 1] == batches[..i] + [batches[i]];
      FlattenSnoc(batches[..i], batches[i]);
      SubsequenceAppend(AllLanded(batches, ls[..i]), Flatten(batches[..i]), Landed(batches[i], ls[i]), batches[i]);
    }
  }

  lemma {:induction false} SubsequenceLonger(part: seq<string>, history: seq<string>, more: seq<string>)
    requires Subsequence(part, history)
    ensures Subsequence(part, history + more)
  {
    SubsequenceAppend(part, history, [], more);
    assert part + [] == part;
  }

  /** Whatever MySQL answers, what it applied is the enqueued history with some statements left out. */
  lemma AppliedIsSubsequence(ops: seq<Op>, maxSize: nat, ok: Oracle)
    ensures Subsequence(After(ops, maxSize, ok).applied, Enqueued(ops))
  {
    hide After, Subsequence;
    var s := After(ops, maxSize, ok);
    HistoryKept(ops, maxSize, ok);
    AllLandedIsSubsequence(s.batches, s.landings);
    assert s.batches[..|s.landings|] == s.batches;
    SubsequenceLonger(s.applied, Flatten(s.batches), s.buffer);
  }

  /** The answers from time lo up to time hi are all successes. */
  predicate AllOk(ok: Oracle, lo: nat, hi: nat)
  {
    forall t :: lo <= t < hi ==> ok(t)
  }

  /** The first failing answer from lo on is at f. */
  predicate FirstFailure(ok: Oracle, lo: nat, f: nat)
  {
    lo <= f && AllOk(ok, lo, f) && !ok(f)
  }

  /**
   * The transaction path lands a batch whole or not at all: whole when the statements and the
   * commit succeed, nothing when a statement fails.
   */
  lemma TransactionAllOrNothing(s: State, q: seq<string>, ok: Oracle)
    ensures ok(s.clock) ==>
      var t := RunBatch(s, q, ok);
      var end := s.clock + 1 + |q|;
      && |t.landings| == |s.landings| + 1
      && (|| (t.landings[|s.landings|] == Whole && t.applied == s.applied + q)
          || (t.landings[|s.landings|] == Nothing && t.applied == s.applied))
      && (AllOk(ok, s.clock, end + 1) ==> t.landings[|s.landings|] == Whole && t.clock == end + 1)
      && (!AllOk(ok, s.clock, end) ==> t.landings[|s.landings|] == Nothing)
  {
    TransactionOutcome(s.(clock := s.clock + 1), q, 0, ok);
  }

  lemma {:induction false} TransactionOutcome(s: State, q: seq<string>, i: nat, ok: Oracle)
    requires i <= |q|
    ensures var t := InTransaction(s, q, i, ok);
      var end := s.clock + (|q| - i);
      && |t.landings| == |s.landings| + 1
      && (|| (t.landings[|s.landings|] == Whole && t.applied == s.applied + q)
          || (t.landings[|s.landings|] == Nothing && t.applied == s.applied))
      && (AllOk(ok, s.clock, end + 1) ==> t.landings[|s.landings|] == Whole && t.clock == end + 1)
      && (!AllOk(ok, s.clock, end) ==> t.landings[|s.landings|] == Nothing)
    decreases |q| - i
  {
    if i < |q| && ok(s.clock) {
      TransactionOutcome(s.(clock := s.clock + 1), q, i + 1, ok);
    }
  }

  /**
   * The first statement of a transaction that fails is the last one sent; a commit that reports
   * an error may have taken effect all the same, which the next answer says.
   */
  lemma StopsAtFailure(s: State, q: seq<string>, f: nat, ok: Oracle)
    ensures ok(s.clock) && FirstFailure(ok, s.clock, f) ==>
      var t, end := RunBatch(s, q, ok), s.clock + 1 + |q|;
      && (f < end ==> t.clock == f + 1)
      && (f == end ==> t.landings == s.landings + [if ok(end + 1) then Whole else Nothing])
  {
    if ok(s.clock) && FirstFailure(ok, s.clock, f) {
      assert f != s.clock;
      assert AllOk(ok, s.clock + 1, f);
      StatementFails(s.(clock := s.clock + 1), q, 0, f, ok);
    }
  }

  lemma {:induction false} StatementFails(s: State, q: seq<string>, i: nat, f: nat, ok: Oracle)
    requires i <= |q| && FirstFailure(ok, s.clock, f)
    ensures var t, end := InTransaction(s, q, i, ok), s.clock + (|q| - i);
      && (f < end ==> t.clock == f + 1)
      && (f == end ==> t.landings == s.landings + [if ok(end + 1) then Whole else Nothing])
    decreases |q| - i
  {
    if i < |q| && f > s.clock {
      assert ok(s.clock);
      assert AllOk(ok, s.clock + 1, f);
      StatementFails(s.(clock := s.clock + 1), q, i + 1, f, ok);
    }
  }

  lemma {:induction false} KeptCons(q: seq<string>, oks: seq<bool>)
    requires 0 < |oks| <= |q|
    ensures Kept(q, oks) == (if oks[0] then [q[0]] else []) + Kept(q[1..], oks[1..])
  {
    var n := |oks| - 1;
    if n == 0 {
      assert oks[..0] == [] && oks[1..] == [];
    } else {
      KeptCons(q, oks[..n]);
      assert oks[..n][1..] == oks[1..][..n - 1];
      assert oks[1..][n - 1] == oks[n] && q[1..][n - 1] == q[n];
    }
  }

  /** When Begin fails exactly the statements that succeed on their own land: flagged, and applied in order. */
  lemma {:induction false} OneByOneOutcome(s: State, q: seq<string>, i: nat, oks: seq<bool>, ok: Oracle)
    requires i <= |q| && |oks| == i
    ensures var t := OneByOne(s, q, i, oks, ok);
      && |t.landings| == |s.landings| + 1 && t.landings[|s.landings|].Each?
      && var all := t.landings[|s.landings|].oks;
         && |all| == |q| && all[..i] == oks && (forall k :: i <= k < |q| ==> all[k] == ok(s.clock - i + k))
         && t.applied == s.applied + Kept(q[i..], all[i..])
    decreases |q| - i
  {
    hide Kept;
    if i < |q| {
      var t := ExecAlone(s, q[i], ok);
      OneByOneOutcome(t, q, i + 1, oks + [ok(s.clock)], ok);
      var all := OneByOne(s, q, i, oks, ok).landings[|s.landings|].oks;
      assert all[..i] == all[..i + 1][..i] && all[i] == all[..i + 1][i];
      KeptCons(q[i..], all[i..]);
      assert q[i..][1..] == q[i + 1..] && all[i..][1..] == all[i + 1..];
      var now := if all[i] then [q[i]] else [];
      assert s.applied + (now + Kept(q[i + 1..], all[i + 1..])) == s.applied + now + Kept(q[i + 1..], all[i + 1..]);
    } else {
      NoneKept(q[i..]);
      assert oks[i..] == [] && s.applied + [] == s.applied;
    }
  }

  /** A batch whose Begin fails: statement k lands exactly when MySQL accepts it, in order; all are sent. */
  lemma BeginFails(s: State, q: seq<string>, ok: Oracle)
    ensures !ok(s.clock) ==>
      var t := RunBatch(s, q, ok);
      && |t.landings| == |s.landings| + 1 && t.landings[|s.landings|].Each?
      && var all := t.landings[|s.landings|].oks;
         && |all| == |q| && (forall k :: 0 <= k < |q| ==> all[k] == ok(s.clock + 1 + k))
         && t.applied == s.applied + Kept(q, all) && t.clock == s.clock + 1 + |q|
  {
    hide Kept, OneByOne;
    if !ok(s.clock) {
      OneByOneOutcome(s.(clock := s.clock + 1), q, 0, [], ok);
      AllSent(s.(clock := s.clock + 1), q, 0, [], ok);
      var all := RunBatch(s, q, ok).landings[|s.landings|].oks;
      assert q[0..] == q && all[0..] == all;
    }
  }

  lemma {:induction false} AllSent(s: State, q: seq<string>, i: nat, oks: seq<bool>, ok: Oracle)
    requires i <= |q|
    ensures OneByOne(s, q, i, oks, ok).clock == s.clock + (|q| - i)
    decreases |q| - i
  {
    if i < |q| { AllSent(ExecAlone(s, q[i], ok), q, i + 1, oks + [ok(s.clock)], ok); }
  }

  lemma NoneKept(q: seq<string>)
    ensures Kept(q, []) == []
  {
  }
}

/**
 * What holds over every run of a PostgreSQL connection: the transaction status, the
 * ReadyForQuery messages, the rows before a tag, and what a portal refers to, each told from
 * the messages alone.
 */
module ConnectionRuns {
  import opened Wrappers
  import opened Queries
  import opened QueryTexts
  import opened Replies
  import opened Connection
  import ParamOids

  // ---- One step ----

  lemma LastStep(run: Run, tr: Translator)
    requires run != []
    ensures var m := |run| - 1;
      After(run, tr) == Next(After(run[..m], tr), run[m].message, tr, run[m].env)
  {
    hide Next;
  }

  function ReplyOf(s: State, m: ClientMessage, tr: Translator, e: Env): Reply
    requires WellFormed(s)
  {
    Handled(s, m, tr, e).1
  }

  lemma NextParts(s: State, m: ClientMessage, tr: Translator, e: Env)
    requires WellFormed(s)
    ensures var (t, r) := Handled(s, m, tr, e);
      && Next(s, m, tr, e).out == s.out + Sent(r, t.flags)
      && Next(s, m, tr, e) == t.(out := Next(s, m, tr, e).out)
  {
    hide Handled, Sent;
  }

  // ---- Transaction status ----

  predicate Begins(m: ClientMessage)
  {
    m.Query? && SaysBegin(m.text)
  }

  predicate Commits(m: ClientMessage)
  {
    m.Query? && SaysCommit(m.text)
  }

  predicate RollsBack(m: ClientMessage)
  {
    m.Query? && SaysRollback(m.text)
  }

  predicate Saves(m: ClientMessage)
  {
    m.Query? && SaysSavepoint(m.text)
  }

  predicate Releases(m: ClientMessage)
  {
    m.Query? && SaysRelease(m.text)
  }

  /** The texts of BEGIN and SAVEPOINT open, those of COMMIT, END and ROLLBACK close. */
  predicate Opens(m: ClientMessage)
  {
    Begins(m) || Saves(m)
  }

  predicate Closes(m: ClientMessage)
  {
    Commits(m) || RollsBack(m)
  }

  predicate NoneCloses(run: Run, i: nat)
  {
    forall j :: i < j < |run| ==> !Closes(run[j].message)
  }

  /** Some opening command is not yet closed. */
  predicate IsOpen(run: Run)
  {
    exists i :: 0 <= i < |run| && Opens(run[i].message) && NoneCloses(run, i)
  }

  /** A BEGIN outside a transaction, a SAVEPOINT or a RELEASE that MySQL refuses. */
  predicate FailsAt(run: Run, i: nat)
    requires i < |run|
  {
    var m := run[i].message;
    !run[i].env.execOk && (Saves(m) || Releases(m) || (Begins(m) && !IsOpen(run[..i])))
  }

  /** A BEGIN outside a transaction, a ROLLBACK inside one, or a refused COMMIT inside one. */
  predicate ClearsAt(run: Run, i: nat)
    requires i < |run|
  {
    var m := run[i].message;
    || (Begins(m) && !IsOpen(run[..i]))
    || (RollsBack(m) && IsOpen(run[..i]))
    || (Commits(m) && IsOpen(run[..i]) && !run[i].env.execOk)
  }

  predicate NoneClears(run: Run, i: nat)
  {
    forall j :: i < j < |run| ==> !ClearsAt(run, j)
  }

  predicate HasFailed(run: Run)
  {
    exists i :: 0 <= i < |run| && FailsAt(run, i) && NoneClears(run, i)
  }

  lemma OpenStep(run: Run)
    requires run != []
    ensures var m := |run| - 1;
      IsOpen(run) <==> Opens(run[m].message) || (IsOpen(run[..m]) && !Closes(run[m].message))
  {
    hide Opens, Closes;
    var m := |run| - 1;
    var before := run[..m];
    if IsOpen(run) {
      var i :| 0 <= i < |run| && Opens(run[i].message) && NoneCloses(run, i);
      if i < m { assert NoneCloses(before, i); }
    }
    if Opens(run[m].message) {
      assert NoneCloses(run, m);
    }
    if IsOpen(before) && !Closes(run[m].message) {
      var i :| 0 <= i < m && Opens(before[i].message) && NoneCloses(before, i);
      ClosesNot(run, i);
    }
  }

  lemma ClosesNot(run: Run, i: nat)
    requires run != [] && !Closes(run[|run| - 1].message) && NoneCloses(run[..|run| - 1], i)
    ensures NoneCloses(run, i)
  {
    hide Closes;
    forall j | i < j < |run|
      ensures !Closes(run[j].message)
    {
      if j < |run| - 1 { assert run[..|run| - 1][j] == run[j]; }
    }
  }

  lemma PrefixEvents(run: Run, i: nat)
    requires run != [] && i < |run| - 1
    ensures var before := run[..|run| - 1];
      FailsAt(before, i) == FailsAt(run, i) && ClearsAt(before, i) == ClearsAt(run, i)
  {
    hide IsOpen, Begins, Commits, RollsBack, Saves, Releases;
    assert run[..|run| - 1][..i] == run[..i];
  }

  lemma FailedStep(run: Run)
    requires run != []
    ensures var m := |run| - 1;
      HasFailed(run) <==> FailsAt(run, m) || (HasFailed(run[..m]) && !ClearsAt(run, m))
  {
    hide FailsAt, ClearsAt;
    var m := |run| - 1;
    var before := run[..m];
    forall i | 0 <= i < m
      ensures FailsAt(before, i) == FailsAt(run, i) && ClearsAt(before, i) == ClearsAt(run, i)
    {
      PrefixEvents(run, i);
    }
    if HasFailed(run) {
      var i :| 0 <= i < |run| && FailsAt(run, i) && NoneClears(run, i);
      if i < m { assert NoneClears(before, i); }
    }
    if FailsAt(run, m) {
      assert NoneClears(run, m);
    }
    if HasFailed(before) && !ClearsAt(run, m) {
      var i :| 0 <= i < m && FailsAt(before, i) && NoneClears(before, i);
      assert NoneClears(run, i);
    }
  }

  /** Messages of the extended protocol never change the transaction flags. */
  lemma ExtendedKeepsFlags(s: State, m: ClientMessage, tr: Translator, e: Env)
    requires WellFormed(s) && !m.Query?
    ensures Next(s, m, tr, e).flags == s.flags
  {
    hide PreparedReply, ShowsRows, Sent, SimpleReply, IsDeallocate;
  }

  lemma QueryFlags(s: State, m: ClientMessage, tr: Translator, e: Env)
    requires WellFormed(s) && m.Query?
    ensures Next(s, m, tr, e).flags == SimpleReply(s.flags, m.text, tr, e).0
  {
    hide Sent, SimpleReply, IsDeallocate;
  }

  lemma CommandFlags(f: Flags, text: string, tr: Translator, e: Env)
    ensures var g := SimpleReply(f, text, tr, e).0;
      && g.inTransaction == (SaysBegin(text) || SaysSavepoint(text) || (f.inTransaction && !SaysCommit(text) && !SaysRollback(text)))
      && g.failed == if !e.execOk && (SaysSavepoint(text) || SaysRelease(text) || (SaysBegin(text) && !f.inTransaction)) then true
                     else if SaysBegin(text) && !f.inTransaction then false
                     else if SaysRollback(text) && f.inTransaction then false
                     else if SaysCommit(text) && f.inTransaction && !e.execOk then false
                     else f.failed
  {
    hide Classify, PlainReply, SaysBegin, SaysCommit, SaysRollback, SaysSavepoint, SaysRelease;
    CommandsExactly(text);
  }

  /** No text is two commands. */
  lemma CommandsApart(text: string)
    ensures SaysCommit(text) || SaysRollback(text) ==> !SaysBegin(text) && !SaysSavepoint(text) && !SaysRelease(text)
    ensures !(SaysCommit(text) && SaysRollback(text))
  {
    hide Classify, SaysBegin, SaysCommit, SaysRollback, SaysSavepoint, SaysRelease;
    CommandsExactly(text);
  }

  /** The status is told from the messages and from what MySQL refused. */
  lemma {:induction false} StatusIsHistory(run: Run, tr: Translator)
    ensures After(run, tr).flags == Flags(IsOpen(run), HasFailed(run))
    ensures StatusOf(After(run, tr).flags) == if HasFailed(run) then Failed else if IsOpen(run) then InTransaction else Idle
  {
    hide Next, IsOpen, HasFailed, SimpleReply, SaysBegin, SaysCommit, SaysRollback, SaysSavepoint, SaysRelease;
    if run == [] {
      NothingOpen();
    } else {
      var m := |run| - 1;
      StatusIsHistory(run[..m], tr);
      LastStep(run, tr);
      OpenStep(run);
      FailedStep(run);
      var s, step := After(run[..m], tr), run[m];
      if step.message.Query? {
        QueryFlags(s, step.message, tr, step.env);
        CommandFlags(s.flags, step.message.text, tr, step.env);
        CommandsApart(step.message.text);
      } else {
        ExtendedKeepsFlags(s, step.message, tr, step.env);
      }
    }
  }

  lemma NothingOpen()
    ensures !IsOpen([]) && !HasFailed([]) && START.flags == Flags(false, false)
  {
  }

  /** When no BEGIN, SAVEPOINT or RELEASE was refused, the status says whether a transaction is open. */
  lemma StatusWithoutFailure(run: Run, tr: Translator)
    requires forall i :: 0 <= i < |run| ==>
      Begins(run[i].message) || Saves(run[i].message) || Releases(run[i].message) ==> run[i].env.execOk
    ensures StatusOf(After(run, tr).flags) == if IsOpen(run) then InTransaction else Idle
  {
    hide Begins, Saves, Releases, IsOpen, After, NoneClears;
    StatusIsHistory(run, tr);
  }

  predicate EndsInCommit(run: Run)
  {
    run != [] && Commits(run[|run| - 1].message) && run[|run| - 1].env.execOk
  }

  lemma CommitEvents(run: Run)
    ensures EndsInCommit(run) ==>
      var m := |run| - 1;
      Closes(run[m].message) && !Opens(run[m].message) && !FailsAt(run, m) && !ClearsAt(run, m)
  {
    hide IsOpen, SaysBegin, SaysCommit, SaysRollback, SaysSavepoint, SaysRelease;
    if EndsInCommit(run) { CommandsApart(run[|run| - 1].message.text); }
  }

  /** A successful COMMIT leaves the failed flag as it is. */
  lemma CommitKeepsFailure(run: Run, tr: Translator)
    ensures EndsInCommit(run) ==>
      && !IsOpen(run) && (HasFailed(run) <==> HasFailed(run[..|run| - 1]))
      && StatusOf(After(run, tr).flags) == if HasFailed(run[..|run| - 1]) then Failed else Idle
  {
    hide IsOpen, HasFailed, After, FailsAt, ClearsAt, Commits, Opens, Closes;
    if EndsInCommit(run) {
      CommitEvents(run);
      OpenStep(run);
      FailedStep(run);
      StatusIsHistory(run, tr);
    }
  }

  lemma PlainCommands()
    ensures SaysBegin("begin") && SaysCommit("commit") && SaysSavepoint("savepoint a")
  {
    hide Classify, SaysBegin, SaysCommit, SaysSavepoint;
    Commands();
    CommandsExactly("begin");
    CommandsExactly("commit");
    CommandsExactly("savepoint a");
  }

  /** After BEGIN, a refused SAVEPOINT and a successful COMMIT the server reports a failed transaction that is over. */
  lemma FailedAfterCommit(good: Env, bad: Env, tr: Translator)
    requires good.execOk && !bad.execOk
    ensures var run := [Step(Query("begin"), good), Step(Query("savepoint a"), bad), Step(Query("commit"), good)];
      !IsOpen(run) && StatusOf(After(run, tr).flags) == Failed
  {
    hide After, IsOpen, HasFailed, SaysBegin, SaysCommit, SaysSavepoint;
    PlainCommands();
    var two := [Step(Query("begin"), good), Step(Query("savepoint a"), bad)];
    var run := two + [Step(Query("commit"), good)];
    assert run == [Step(Query("begin"), good), Step(Query("savepoint a"), bad), Step(Query("commit"), good)];
    assert run[..2] == two;
    FailedStep(two);
    CommitKeepsFailure(run, tr);
  }

  // ---- Bodies ----

  lemma QueryBody(s: State, m: ClientMessage, tr: Translator, e: Env) returns (body: Reply)
    requires WellFormed(s) && m.Query?
    ensures IsAnswer(body)
    ensures var r := ReplyOf(s, m, tr, e); var flags := Next(s, m, tr, e).flags;
      && r.failed == body.failed
      && (body.failed ==> !IsDeallocate(m.text))
      && r.out == body.out + if body.failed || IsDeallocate(m.text) then [] else [ReadyForQuery(StatusOf(flags))]
  {
    hide IsAnswer, SimpleReply, IsDeallocate, Sent, Classify;
    body := SimpleReply(s.flags, m.text, tr, e).1;
    SimpleAnswers(s.flags, m.text, tr, e);
    QueryFlags(s, m, tr, e);
    DeallocateSucceeds(s.flags, m.text, tr, e);
    assert body.out + [] == body.out;
  }

  lemma DeallocateSucceeds(f: Flags, text: string, tr: Translator, e: Env)
    ensures IsDeallocate(text) ==> !SimpleReply(f, text, tr, e).1.failed
  {
    hide Classify, IsDeallocate;
    DeallocateIsLocal(text);
  }

  lemma ExtendedBody(s: State, m: ClientMessage, tr: Translator, e: Env)
    requires WellFormed(s) && !m.Query? && !m.Sync?
    ensures IsAnswer(ReplyOf(s, m, tr, e))
  {
    hide IsAnswer, PreparedReply, DescribeFound;
    match m
    case Execute(portal) =>
      PlainFailure();
      if portal in s.portals { PreparedAnswers(BoundOf(s, portal), tr, e); }
    case DescribeStatement(name) =>
      PlainFailure();
      if name in s.statements { DescribeBody(s, s.statements[name], name, tr, e); }
    case _ => ShortBodies(s, m);
  }

  lemma PlainFailure()
    ensures IsAnswer(Reply([], true))
  {
  }

  lemma DescribeBody(s: State, id: nat, name: string, tr: Translator, e: Env)
    requires id < |s.objects|
    ensures IsAnswer(DescribeFound(s, id, name, tr, e).1)
  {
    hide ShowsRows, ParamOids.Resolve;
  }

  lemma ShortBodies(s: State, m: ClientMessage)
    ensures IsAnswer(Reply([ParseComplete], false)) && IsAnswer(Reply([CloseComplete], false))
    ensures IsAnswer(Reply([NoData], false)) && IsAnswer(Reply([], false))
    ensures m.Bind? ==> IsAnswer(BindStep(s, m).1)
  {
  }

  // ---- ReadyForQuery ----

  function ReadyCount(out: seq<ServerMessage>): nat
  {
    if out == [] then 0
    else ReadyCount(out[..|out| - 1]) + if out[|out| - 1].ReadyForQuery? then 1 else 0
  }

  lemma {:induction false} ReadySplits(a: seq<ServerMessage>, b: seq<ServerMessage>)
    ensures ReadyCount(a + b) == ReadyCount(a) + ReadyCount(b)
  {
    if b == [] {
      assert a + b == a;
    } else {
      ReadySplits(a, b[..|b| - 1]);
      assert (a + b)[..|a + b| - 1] == a + b[..|b| - 1];
    }
  }

  lemma {:induction false} BodyHasNone(out: seq<ServerMessage>)
    requires IsBody(out)
    ensures ReadyCount(out) == 0
  {
    if out != [] { BodyHasNone(out[..|out| - 1]); }
  }

  lemma ReadyShort(s: Status)
    ensures ReadyCount([ReadyForQuery(s)]) == 1 && ReadyCount([ErrorResponse, ReadyForQuery(s)]) == 1 && ReadyCount([]) == 0
  {
    assert [ReadyForQuery(s)][..0] == [] && [ErrorResponse, ReadyForQuery(s)][..1] == [ErrorResponse];
    assert [ErrorResponse][..0] == [];
  }

  /** The Sync messages. */
  function Syncs(run: Run): nat
  {
    if run == [] then 0 else Syncs(run[..|run| - 1]) + if run[|run| - 1].message.Sync? then 1 else 0
  }

  /** The simple queries other than DEALLOCATE. */
  function Simples(run: Run): nat
  {
    if run == [] then 0
    else
      var m := run[|run| - 1].message;
      Simples(run[..|run| - 1]) + if m.Query? && !IsDeallocate(m.text) then 1 else 0
  }

  predicate ExtendedFailure(s: State, m: ClientMessage, tr: Translator, e: Env)
    requires WellFormed(s)
  {
    !m.Query? && ReplyOf(s, m, tr, e).failed
  }

  /** The extended messages that failed. */
  function Failures(run: Run, tr: Translator): nat
  {
    if run == [] then 0
    else
      var m := |run| - 1;
      Failures(run[..m], tr) + if ExtendedFailure(After(run[..m], tr), run[m].message, tr, run[m].env) then 1 else 0
  }

  lemma StepReady(s: State, m: ClientMessage, tr: Translator, e: Env)
    requires WellFormed(s)
    ensures ReadyCount(Next(s, m, tr, e).out) == ReadyCount(s.out)
      + (if m.Sync? then 1 else 0)
      + (if m.Query? && !IsDeallocate(m.text) then 1 else 0)
      + (if ExtendedFailure(s, m, tr, e) then 1 else 0)
  {
    hide Handled, IsAnswer, IsDeallocate, ReadyCount, Next;
    NextParts(s, m, tr, e);
    var (t, r) := Handled(s, m, tr, e);
    ReadySplits(s.out, Sent(r, t.flags));
    ReadyShort(StatusOf(t.flags));
    if m.Query? {
      var body := QueryBody(s, m, tr, e);
      AnswerIsBody(body);
      BodyHasNone(body.out);
      ReadySplits(body.out, [ReadyForQuery(StatusOf(t.flags))]);
      ReadySplits(body.out, [ErrorResponse, ReadyForQuery(StatusOf(t.flags))]);
      assert body.out + [] == body.out;
      assert r.out + [] == r.out;
    } else if m.Sync? {
      SyncReply(s, m, tr, e);
      assert r.out + [] == r.out;
    } else {
      ExtendedBody(s, m, tr, e);
      AnswerIsBody(r);
      BodyHasNone(r.out);
      ReadySplits(r.out, [ErrorResponse, ReadyForQuery(StatusOf(t.flags))]);
      assert r.out + [] == r.out;
    }
  }

  lemma AnswerIsBody(r: Reply)
    requires IsAnswer(r)
    ensures IsBody(r.out)
  {
  }

  lemma SyncReply(s: State, m: ClientMessage, tr: Translator, e: Env)
    requires WellFormed(s) && m.Sync?
    ensures Handled(s, m, tr, e) == (s, Reply([ReadyForQuery(StatusOf(s.flags))], false))
  {
  }

  lemma GreetingReady()
    ensures ReadyCount(GREETING) == 1
  {
    var g := GREETING[..|GREETING| - 1];
    BodyHasNone(g);
  }

  /** One ReadyForQuery for startup, for each Sync, each simple query other than DEALLOCATE, and each failed extended message. */
  lemma {:induction false} ReadyForQueryCount(run: Run, tr: Translator)
    ensures ReadyCount(After(run, tr).out) == 1 + Syncs(run) + Simples(run) + Failures(run, tr)
  {
    hide Next, ReadyCount, ExtendedFailure, IsDeallocate;
    if run == [] {
      GreetingReady();
    } else {
      var m := |run| - 1;
      ReadyForQueryCount(run[..m], tr);
      LastStep(run, tr);
      StepReady(After(run[..m], tr), run[m].message, tr, run[m].env);
    }
  }

  // ---- What a step sends ----

  /**
   * The shape of what one message adds: an answer, then a ReadyForQuery with the new status, an
   * ErrorResponse and a ReadyForQuery with the new status, or nothing.
   */
  lemma StepSends(s: State, m: ClientMessage, tr: Translator, e: Env) returns (body: Reply, tail: seq<ServerMessage>)
    requires WellFormed(s)
    ensures IsAnswer(body)
    ensures var next := Next(s, m, tr, e); var ready := ReadyForQuery(StatusOf(next.flags));
      && next.out == s.out + (body.out + tail)
      && body.failed == ReplyOf(s, m, tr, e).failed
      && (tail == if body.failed then [ErrorResponse, ready]
                  else if m.Sync? || (m.Query? && !IsDeallocate(m.text)) then [ready] else [])
      && (m.Execute? ==> body == ReplyOf(s, m, tr, e))
  {
    hide Handled, IsAnswer, IsDeallocate, Next;
    NextParts(s, m, tr, e);
    var (t, r) := Handled(s, m, tr, e);
    if m.Query? {
      body := QueryBody(s, m, tr, e);
      tail := if body.failed then [ErrorResponse, ReadyForQuery(StatusOf(t.flags))]
              else if IsDeallocate(m.text) then [] else [ReadyForQuery(StatusOf(t.flags))];
      assert r.out + [] == r.out && body.out + [] == body.out;
    } else if m.Sync? {
      SyncReply(s, m, tr, e);
      PlainFailure();
      ShortBodies(s, m);
      body, tail := Reply([], false), r.out;
      assert r.out + [] == r.out && [] + r.out == r.out;
    } else {
      ExtendedBody(s, m, tr, e);
      body := r;
      tail := if r.failed then [ErrorResponse, ReadyForQuery(StatusOf(t.flags))] else [];
    }
  }

  /** Every ErrorResponse is followed by a ReadyForQuery. */
  predicate ErrorsAnswered(out: seq<ServerMessage>)
  {
    forall i :: 0 <= i < |out| && out[i].ErrorResponse? ==> i + 1 < |out| && out[i + 1].ReadyForQuery?
  }

  lemma AnsweredStep(out: seq<ServerMessage>, body: Reply, tail: seq<ServerMessage>)
    requires ErrorsAnswered(out) && IsBody(body.out) && ErrorsAnswered(tail)
    ensures ErrorsAnswered(out + (body.out + tail))
  {
    var all := out + (body.out + tail);
    forall j | |out| <= j < |out| + |body.out|
      ensures !all[j].ErrorResponse?
    {
      assert all[j] == body.out[j - |out|];
    }
    forall i | 0 <= i < |all| && all[i].ErrorResponse?
      ensures i + 1 < |all| && all[i + 1].ReadyForQuery?
    {
      if i < |out| {
        assert out[i + 1].ReadyForQuery?;
      } else {
        var k := i - |out| - |body.out|;
        assert k >= 0 && all[i] == tail[k];
        assert tail[k + 1].ReadyForQuery?;
        assert all[i + 1] == tail[k + 1];
      }
    }
  }

  /** In every run an ErrorResponse is followed by ReadyForQuery at once. */
  lemma {:induction false} ErrorThenReady(run: Run, tr: Translator)
    ensures ErrorsAnswered(After(run, tr).out)
  {
    hide Next, ErrorsAnswered, IsAnswer, IsDeallocate, Handled;
    if run == [] {
      GreetingIsQuiet();
    } else {
      var m := |run| - 1;
      ErrorThenReady(run[..m], tr);
      LastStep(run, tr);
      var s := After(run[..m], tr);
      var body, tail := StepSends(s, run[m].message, tr, run[m].env);
      AnswerIsBody(body);
      TailsAnswered(StatusOf(After(run, tr).flags));
      AnsweredStep(s.out, body, tail);
    }
  }

  lemma TailsAnswered(s: Status)
    ensures ErrorsAnswered([]) && ErrorsAnswered([ReadyForQuery(s)]) && ErrorsAnswered([ErrorResponse, ReadyForQuery(s)])
  {
  }

  lemma GreetingIsQuiet()
    ensures ErrorsAnswered(GREETING)
  {
  }

  // ---- Rows before a tag ----

  predicate TaggedSelect(out: seq<ServerMessage>, i: nat)
  {
    i < |out| && out[i].CommandComplete? && out[i].tag.Select?
  }

  /** Before a tag SELECT n stand exactly n DataRows, and no more. */
  predicate RowsBefore(out: seq<ServerMessage>, i: nat)
    requires TaggedSelect(out, i)
  {
    var n := out[i].tag.n;
    n < i && !out[i - n - 1].DataRow? && forall k :: i - n <= k < i ==> out[k].DataRow?
  }

  predicate RowsCounted(out: seq<ServerMessage>)
  {
    && out != [] && !out[|out| - 1].DataRow?
    && forall i :: 0 <= i < |out| && TaggedSelect(out, i) ==> RowsBefore(out, i)
  }

  lemma SelectRows(out: seq<ServerMessage>, described: bool, n: nat)
    requires RowsCounted(out)
    ensures RowsCounted(out + SelectReply(described, n).out)
  {
    var body := SelectReply(described, n).out;
    var all := out + body;
    forall i | 0 <= i < |all| && TaggedSelect(all, i)
      ensures RowsBefore(all, i)
    {
      if i < |out| {
        assert TaggedSelect(out, i);
        assert RowsBefore(out, i);
      } else {
        assert all[i] == body[i - |out|];
        assert i == |all| - 1;
      }
    }
  }

  lemma OtherRows(out: seq<ServerMessage>, body: seq<ServerMessage>)
    requires RowsCounted(out)
    requires forall i :: 0 <= i < |body| ==> !TaggedSelect(body, i)
    requires body != [] ==> !body[|body| - 1].DataRow?
    ensures RowsCounted(out + body)
  {
    var all := out + body;
    forall i | 0 <= i < |all| && TaggedSelect(all, i)
      ensures RowsBefore(all, i)
    {
      if i >= |out| {
        assert all[i] == body[i - |out|];
        assert TaggedSelect(body, i - |out|);
      } else {
        assert TaggedSelect(out, i);
        assert RowsBefore(out, i);
      }
    }
  }

  lemma AnswerRows(out: seq<ServerMessage>, body: Reply, tail: seq<ServerMessage>)
    requires RowsCounted(out) && IsAnswer(body)
    requires forall k :: 0 <= k < |tail| ==> tail[k].ErrorResponse? || tail[k].ReadyForQuery?
    requires body.failed ==> tail != []
    ensures RowsCounted(out + (body.out + tail))
  {
    hide RowsCounted, SelectReply, IsAnswer;
    if i: nat :| TaggedSelect(body.out, i) {
      SelectOnly(body, i);
      SelectRows(out, true, body.out[i].tag.n);
      SelectRows(out, false, body.out[i].tag.n);
      OtherRows(out + body.out, tail);
      assert out + (body.out + tail) == out + body.out + tail;
    } else {
      LastIsNoRow(body);
      forall i | 0 <= i < |body.out + tail|
        ensures !TaggedSelect(body.out + tail, i)
      {
        if i < |body.out| {
          assert (body.out + tail)[i] == body.out[i] && !TaggedSelect(body.out, i);
        } else {
          assert (body.out + tail)[i] == tail[i - |body.out|];
        }
      }
      if tail == [] { assert body.out + tail == body.out; }
      OtherRows(out, body.out + tail);
    }
  }

  lemma SelectOnly(body: Reply, i: nat)
    requires IsAnswer(body) && TaggedSelect(body.out, i)
    ensures body == SelectReply(true, body.out[i].tag.n) || body == SelectReply(false, body.out[i].tag.n)
  {
  }

  lemma LastIsNoRow(body: Reply)
    requires IsAnswer(body)
    ensures !body.failed && body.out != [] ==> !body.out[|body.out| - 1].DataRow?
  {
  }

  /** In every run a tag SELECT n comes right after exactly n DataRows. */
  lemma {:induction false} SelectCountsRows(run: Run, tr: Translator)
    ensures RowsCounted(After(run, tr).out)
  {
    hide Next, RowsCounted, IsAnswer, IsDeallocate, Handled;
    if run == [] {
      GreetingHasNoRows();
    } else {
      var m := |run| - 1;
      SelectCountsRows(run[..m], tr);
      LastStep(run, tr);
      var s := After(run[..m], tr);
      var body, tail := StepSends(s, run[m].message, tr, run[m].env);
      AnswerRows(s.out, body, tail);
    }
  }

  lemma GreetingHasNoRows()
    ensures RowsCounted(GREETING)
  {
  }

  /**
   * A message whose answer holds a tag SELECT n is answered by at most one RowDescription, n
   * DataRows, the tag and, for a simple query, ReadyForQuery; nothing stands between them.
   */
  lemma SelectIsWhole(s: State, m: ClientMessage, tr: Translator, e: Env, i: nat)
    requires WellFormed(s) && |s.out| <= i
    ensures TaggedSelect(Next(s, m, tr, e).out, i) ==>
      var next := Next(s, m, tr, e); var n := next.out[i].tag.n;
      exists described, tail ::
        && next.out == s.out + (SelectReply(described, n).out + tail)
        && i == |s.out| + |SelectReply(described, n).out| - 1
        && (tail == [] || tail == [ReadyForQuery(StatusOf(next.flags))])
  {
    hide Next, IsAnswer, IsDeallocate, Handled;
    var next := Next(s, m, tr, e);
    var body, tail := StepSends(s, m, tr, e);
    forall j | |s.out| + |body.out| <= j < |next.out|
      ensures !TaggedSelect(next.out, j)
    {
      assert next.out[j] == tail[j - |s.out| - |body.out|];
    }
    if TaggedSelect(next.out, i) {
      assert TaggedSelect(body.out, i - |s.out|);
      SelectOnly(body, i - |s.out|);
      var n := next.out[i].tag.n;
      var described := body == SelectReply(true, n);
      assert body == SelectReply(described, n);
      assert next.out == s.out + (SelectReply(described, n).out + tail);
    }
  }

  // ---- What names and portals refer to ----

  predicate Parses(m: ClientMessage, name: string)
  {
    m.Parse? && m.name == name
  }

  predicate Drops(m: ClientMessage, name: string)
  {
    m.CloseStatement? && m.name == name
  }

  /** The Parse a statement name refers to after a run, or -1. */
  function LastParse(run: Run, name: string): (j: int)
    ensures -1 <= j < |run|
    ensures j >= 0 ==> Parses(run[j].message, name)
    ensures j >= 0 ==> forall k :: j < k < |run| ==> !Parses(run[k].message, name) && !Drops(run[k].message, name)
  {
    if run == [] then -1
    else
      var m := |run| - 1;
      if Parses(run[m].message, name) then m
      else if Drops(run[m].message, name) then -1
      else LastParse(run[..m], name)
  }

  /** The name was parsed at step j and neither parsed nor closed since. */
  predicate Stands(run: Run, j: nat, name: string)
  {
    && j < |run| && Parses(run[j].message, name)
    && forall k :: j < k < |run| ==> !Parses(run[k].message, name) && !Drops(run[k].message, name)
  }

  lemma {:induction false} ParseStands(run: Run, name: string, j: nat)
    requires Stands(run, j, name)
    ensures LastParse(run, name) == j
  {
    hide Parses, Drops;
    var m := |run| - 1;
    if j < m {
      assert Stands(run[..m], j, name);
      ParseStands(run[..m], name, j);
    }
  }

  /** LastParse finds the one Parse that stands, if there is one. */
  lemma LastParseExactly(run: Run, name: string)
    ensures LastParse(run, name) >= 0 <==> exists j :: Stands(run, j, name)
    ensures forall j :: Stands(run, j, name) ==> j == LastParse(run, name)
  {
    hide LastParse, Parses, Drops;
    forall j | Stands(run, j, name)
      ensures j == LastParse(run, name)
    {
      ParseStands(run, name, j);
    }
    if LastParse(run, name) >= 0 {
      assert Stands(run, LastParse(run, name), name);
    }
  }

  predicate Binds(m: ClientMessage, portal: string)
  {
    m.Bind? && m.portal == portal
  }

  /** The Bind a portal comes from after a run, or -1: the latest one whose statement existed, unless the portal was closed. */
  function LastBind(run: Run, portal: string): (k: int)
    ensures -1 <= k < |run|
    ensures k >= 0 ==> Binds(run[k].message, portal) && LastParse(run[..k], run[k].message.name) >= 0
  {
    if run == [] then -1
    else
      var m := |run| - 1;
      if Binds(run[m].message, portal) && LastParse(run[..m], run[m].message.name) >= 0 then m
      else if run[m].message.ClosePortal? && run[m].message.portal == portal then -1
      else
        var k := LastBind(run[..m], portal);
        assert k >= 0 ==> run[..m][..k] == run[..k];
        k
  }

  predicate BindsAt(run: Run, k: nat, portal: string)
    requires k < |run|
  {
    Binds(run[k].message, portal) && LastParse(run[..k], run[k].message.name) >= 0
  }

  predicate Unbinds(m: ClientMessage, portal: string)
  {
    m.ClosePortal? && m.portal == portal
  }

  /** The portal was bound at step k, and neither bound to an existing statement nor closed since. */
  predicate Holds(run: Run, k: nat, portal: string)
  {
    && k < |run| && BindsAt(run, k, portal)
    && forall i :: k < i < |run| ==> !BindsAt(run, i, portal) && !Unbinds(run[i].message, portal)
  }

  lemma BindsBefore(run: Run, k: nat, portal: string)
    requires run != [] && k < |run| - 1
    ensures BindsAt(run[..|run| - 1], k, portal) == BindsAt(run, k, portal)
  {
    hide LastParse;
    assert run[..|run| - 1][..k] == run[..k];
  }

  lemma {:induction false} BindHolds(run: Run, portal: string, k: nat)
    requires Holds(run, k, portal)
    ensures LastBind(run, portal) == k
  {
    hide BindsAt, LastBind;
    LastBindStep(run, portal);
    var m := |run| - 1;
    if k < m {
      forall i | 0 <= i < m
        ensures BindsAt(run[..m], i, portal) == BindsAt(run, i, portal)
      {
        BindsBefore(run, i, portal);
      }
      assert !BindsAt(run, m, portal);
      NotBound(run, m, portal);
      BindHolds(run[..m], portal, k);
    } else {
      NotBound(run, m, portal);
    }
  }

  lemma NotBound(run: Run, k: nat, portal: string)
    requires k < |run|
    ensures BindsAt(run, k, portal) <==> Binds(run[k].message, portal) && LastParse(run[..k], run[k].message.name) >= 0
  {
  }

  lemma {:induction false} LastBindHolds(run: Run, portal: string)
    requires LastBind(run, portal) >= 0
    ensures Holds(run, LastBind(run, portal), portal)
  {
    hide BindsAt, LastBind;
    var m := |run| - 1;
    NotBound(run, m, portal);
    LastBindStep(run, portal);
    if LastBind(run, portal) < m {
      LastBindHolds(run[..m], portal);
      forall i | 0 <= i < m
        ensures BindsAt(run[..m], i, portal) == BindsAt(run, i, portal)
      {
        BindsBefore(run, i, portal);
      }
    }
  }

  /** LastBind finds the one Bind that holds, if there is one. */
  lemma LastBindExactly(run: Run, portal: string)
    ensures LastBind(run, portal) >= 0 <==> exists k :: Holds(run, k, portal)
    ensures forall k :: Holds(run, k, portal) ==> k == LastBind(run, portal)
  {
    hide LastBind, Holds;
    forall k | Holds(run, k, portal)
      ensures k == LastBind(run, portal)
    {
      BindHolds(run, portal, k);
    }
    if LastBind(run, portal) >= 0 {
      LastBindHolds(run, portal);
    }
  }

  /** Step d sent the columns of the statement a name referred to. */
  predicate DescribedAt(run: Run, d: nat, name: string, tr: Translator)
    requires d < |run|
  {
    var j := LastParse(run[..d], name);
    && run[d].message == DescribeStatement(name) && j >= 0
    && ShowsRows(run[j].message.query, tr, run[d].env)
  }

  predicate WasDescribed(run: Run, name: string, tr: Translator)
  {
    exists d :: 0 <= d < |run| && DescribedAt(run, d, name, tr)
  }

  lemma DescribedStep(run: Run, name: string, tr: Translator)
    requires run != []
    ensures var m := |run| - 1;
      WasDescribed(run, name, tr) <==> WasDescribed(run[..m], name, tr) || DescribedAt(run, m, name, tr)
  {
    hide LastParse, ShowsRows;
    var m := |run| - 1;
    var before := run[..m];
    forall d | 0 <= d < m
      ensures DescribedAt(before, d, name, tr) == DescribedAt(run, d, name, tr)
    {
      assert before[..d] == run[..d];
    }
    if WasDescribed(run, name, tr) {
      var d :| 0 <= d < |run| && DescribedAt(run, d, name, tr);
      assert d < m ==> DescribedAt(before, d, name, tr);
    }
    if WasDescribed(before, name, tr) {
      var d :| 0 <= d < m && DescribedAt(before, d, name, tr);
      assert DescribedAt(run, d, name, tr);
    }
  }

  /** A name refers to the object of its latest Parse. */
  predicate NameRight(s: State, run: Run, name: string)
    requires WellFormed(s)
  {
    var j := LastParse(run, name);
    && (name in s.statements <==> j >= 0)
    && (j >= 0 ==> s.objects[s.statements[name]].query == run[j].message.query)
  }

  /** The text, the parameters and the flag of a portal, from its Bind and the messages before it. */
  function BoundBy(run: Run, k: nat, tr: Translator): Bound
    requires k < |run| && run[k].message.Bind? && LastParse(run[..k], run[k].message.name) >= 0
  {
    var b := run[k].message;
    Bound(run[LastParse(run[..k], b.name)].message.query, b.params, b.formats, WasDescribed(run[..k], b.name, tr))
  }

  predicate PortalRight(s: State, run: Run, portal: string, tr: Translator)
    requires WellFormed(s)
  {
    var k := LastBind(run, portal);
    && (portal in s.portals <==> k >= 0)
    && (k >= 0 ==> BoundOf(s, portal) == BoundBy(run, k, tr))
  }

  predicate DescribedRight(s: State, run: Run, name: string, tr: Translator)
  {
    name in s.described <==> WasDescribed(run, name, tr)
  }

  /** Objects are only added; the text of an object never changes. */
  lemma TextsStay(s: State, m: ClientMessage, tr: Translator, e: Env)
    requires WellFormed(s)
    ensures var t := Next(s, m, tr, e);
      |s.objects| <= |t.objects| && forall i :: 0 <= i < |s.objects| ==> t.objects[i].query == s.objects[i].query
  {
    hide PreparedReply, ShowsRows, Sent, SimpleReply, IsDeallocate, ParamOids.Resolve;
  }

  lemma NextNames(s: State, m: ClientMessage, tr: Translator, e: Env)
    requires WellFormed(s)
    ensures var t := Next(s, m, tr, e);
      && t.statements == (match m
          case Parse(name, _, _) => s.statements[name := |s.objects|]
          case CloseStatement(name) => s.statements - {name}
          case _ => s.statements)
      && (m.Parse? ==> |t.objects| == |s.objects| + 1 && t.objects[|s.objects|].query == m.query)
  {
    hide PreparedReply, ShowsRows, Sent, SimpleReply, IsDeallocate, ParamOids.Resolve;
  }

  lemma NextPortals(s: State, m: ClientMessage, tr: Translator, e: Env)
    requires WellFormed(s)
    ensures Next(s, m, tr, e).portals == (match m
      case Bind(portal, name, params, formats) =>
        if name in s.statements then s.portals[portal := Portal(s.statements[name], params, formats, name in s.described)]
        else s.portals
      case ClosePortal(portal) => s.portals - {portal}
      case _ => s.portals)
  {
    hide PreparedReply, ShowsRows, Sent, SimpleReply, IsDeallocate, ParamOids.Resolve;
  }

  lemma NextDescribed(s: State, m: ClientMessage, tr: Translator, e: Env)
    requires WellFormed(s)
    ensures Next(s, m, tr, e).described ==
      if m.DescribeStatement? && m.name in s.statements && ShowsRows(s.objects[s.statements[m.name]].query, tr, e)
      then s.described + {m.name} else s.described
  {
    hide PreparedReply, ShowsRows, Sent, SimpleReply, IsDeallocate, ParamOids.Resolve;
  }

  /** The described set only grows. */
  lemma DescribedGrows(s: State, m: ClientMessage, tr: Translator, e: Env)
    requires WellFormed(s)
    ensures s.described <= Next(s, m, tr, e).described
  {
    hide Next, ShowsRows;
    NextDescribed(s, m, tr, e);
  }

  lemma NameStep(s: State, run: Run, name: string, tr: Translator)
    requires run != [] && WellFormed(s) && NameRight(s, run[..|run| - 1], name)
    ensures NameRight(Next(s, run[|run| - 1].message, tr, run[|run| - 1].env), run, name)
  {
    hide Next;
    var m := |run| - 1;
    NextNames(s, run[m].message, tr, run[m].env);
    TextsStay(s, run[m].message, tr, run[m].env);
    assert name in s.statements ==> s.statements[name] < |s.objects|;
  }

  lemma BoundByPrefix(run: Run, k: nat, tr: Translator)
    requires run != [] && k < |run| - 1 && run[k].message.Bind? && LastParse(run[..k], run[k].message.name) >= 0
    ensures var before := run[..|run| - 1];
      before[..k] == run[..k] && BoundBy(before, k, tr) == BoundBy(run, k, tr)
  {
    hide LastParse, WasDescribed;
    assert run[..|run| - 1][..k] == run[..k];
  }

  lemma OtherPortal(s: State, t: State, portal: string)
    requires WellFormed(s) && WellFormed(t)
    requires |s.objects| <= |t.objects| && forall i :: 0 <= i < |s.objects| ==> t.objects[i].query == s.objects[i].query
    requires portal in s.portals && portal in t.portals && t.portals[portal] == s.portals[portal]
    ensures BoundOf(t, portal) == BoundOf(s, portal)
  {
  }

  lemma NewPortal(s: State, t: State, run: Run, m: ClientMessage, portal: string, tr: Translator)
    requires WellFormed(s) && WellFormed(t) && run != [] && m == run[|run| - 1].message
    requires Binds(m, portal) && m.name in s.statements && portal in t.portals && t.objects == s.objects
    requires t.portals[portal] == Portal(s.statements[m.name], m.params, m.formats, m.name in s.described)
    requires NameRight(s, run[..|run| - 1], m.name) && DescribedRight(s, run[..|run| - 1], m.name, tr)
    ensures LastBind(run, portal) == |run| - 1 && BoundOf(t, portal) == BoundBy(run, |run| - 1, tr)
  {
    hide LastParse, WasDescribed;
  }

  lemma BindKeepsObjects(s: State, m: ClientMessage, tr: Translator, e: Env)
    requires WellFormed(s) && m.Bind?
    ensures Next(s, m, tr, e).objects == s.objects
  {
    hide Sent;
  }

  lemma LastBindStep(run: Run, portal: string)
    requires run != []
    ensures var m := |run| - 1;
      LastBind(run, portal) ==
        if Binds(run[m].message, portal) && LastParse(run[..m], run[m].message.name) >= 0 then m
        else if run[m].message.ClosePortal? && run[m].message.portal == portal then -1
        else LastBind(run[..m], portal)
  {
    hide LastParse;
  }

  lemma PortalStep(s: State, run: Run, before: Run, portal: string, tr: Translator)
    requires run != [] && before == run[..|run| - 1] && WellFormed(s) && PortalRight(s, before, portal, tr)
    requires forall name :: NameRight(s, before, name)
    requires forall name :: DescribedRight(s, before, name, tr)
    ensures PortalRight(Next(s, run[|run| - 1].message, tr, run[|run| - 1].env), run, portal, tr)
  {
    hide Next, LastParse, LastBind, WasDescribed, BoundOf, BoundBy, DescribedRight;
    var m := |run| - 1;
    var msg := run[m].message;
    var t := Next(s, msg, tr, run[m].env);
    NextPortals(s, msg, tr, run[m].env);
    TextsStay(s, msg, tr, run[m].env);
    LastBindStep(run, portal);
    if Binds(msg, portal) && msg.name in s.statements {
      assert NameRight(s, before, msg.name) && DescribedRight(s, before, msg.name, tr);
      BindKeepsObjects(s, msg, tr, run[m].env);
      NewPortal(s, t, run, msg, portal, tr);
    } else {
      assert msg.Bind? ==> NameRight(s, before, msg.name);
      if portal in t.portals {
        OtherPortal(s, t, portal);
        BoundByPrefix(run, LastBind(before, portal), tr);
      }
    }
  }

  lemma DescribedRightStep(s: State, run: Run, name: string, tr: Translator)
    requires run != [] && WellFormed(s) && DescribedRight(s, run[..|run| - 1], name, tr) && NameRight(s, run[..|run| - 1], name)
    ensures DescribedRight(Next(s, run[|run| - 1].message, tr, run[|run| - 1].env), run, name, tr)
  {
    hide Next, LastParse, WasDescribed, ShowsRows;
    var m := |run| - 1;
    NextDescribed(s, run[m].message, tr, run[m].env);
    DescribedStep(run, name, tr);
  }

  /**
   * In every run a statement name refers to the text of its latest Parse; a portal to the text
   * its statement name had at the portal's Bind, whatever was parsed or closed since; and a name
   * is in the described set exactly when some Describe of it sent columns, however long ago.
   */
  lemma {:induction false} NamesAreHistory(run: Run, tr: Translator)
    ensures var s := After(run, tr);
      && (forall name :: NameRight(s, run, name))
      && (forall name :: DescribedRight(s, run, name, tr))
      && (forall portal :: PortalRight(s, run, portal, tr))
  {
    hide Next, NameRight, DescribedRight, PortalRight;
    if run == [] {
      NothingNamed(tr);
    } else {
      var m := |run| - 1;
      NamesAreHistory(run[..m], tr);
      LastStep(run, tr);
      var s := After(run[..m], tr);
      forall name
        ensures NameRight(After(run, tr), run, name) && DescribedRight(After(run, tr), run, name, tr)
      {
        NameStep(s, run, name, tr);
        DescribedRightStep(s, run, name, tr);
      }
      forall portal
        ensures PortalRight(After(run, tr), run, portal, tr)
      {
        PortalStep(s, run, run[..m], portal, tr);
      }
    }
  }

  lemma NothingNamed(tr: Translator)
    ensures WellFormed(START)
    ensures (forall name :: NameRight(START, [], name)) && (forall name :: DescribedRight(START, [], name, tr))
    ensures forall portal :: PortalRight(START, [], portal, tr)
  {
  }

  /** Execute fails exactly when no Bind gives the portal; otherwise it runs the text parsed before that Bind. */
  lemma ExecuteRunsBound(run: Run, portal: string, tr: Translator, e: Env)
    ensures var k := LastBind(run, portal);
      ReplyOf(After(run, tr), Execute(portal), tr, e)
        == if k < 0 then Reply([], true) else PreparedReply(BoundBy(run, k, tr), tr, e)
  {
    hide After, PreparedReply, BoundBy, BoundOf, LastBind, NameRight, DescribedRight;
    NamesAreHistory(run, tr);
    assert PortalRight(After(run, tr), run, portal, tr);
  }

  /**
   * A portal bound after a Describe of its statement name sent columns never sends a
   * RowDescription, except for a query the catalog passes through; otherwise it sends at most
   * one, and exactly one when it answers a select.
   */
  lemma RowDescriptionOnce(run: Run, portal: string, tr: Translator, e: Env)
    requires LastBind(run, portal) >= 0
    ensures var k := LastBind(run, portal);
      var bound := BoundBy(run, k, tr);
      var hidden := WasDescribed(run[..k], run[k].message.name, tr) && !PassesThrough(bound, e);
      DescribesOnce(ReplyOf(After(run, tr), Execute(portal), tr, e), hidden)
  {
    hide After, PreparedReply, LastBind, LastParse, WasDescribed, DescribesOnce, PassesThrough, ReplyOf;
    ExecuteRunsBound(run, portal, tr, e);
    PortalDescribesOnce(BoundBy(run, LastBind(run, portal), tr), tr, e);
  }

  /**
   * A statement parsed anew under a described name: its rows are sent without any
   * RowDescription, though nothing described the new text.
   */
  lemma ReparsedIsNeverDescribed(name: string, portal: string, first: string, second: string, tr: Translator, e: Env, last: Env)
    requires ShowsRows(first, tr, e)
    ensures var b := Bound(second, [], [], true);
      var run := [Step(Parse(name, first, []), e), Step(DescribeStatement(name), e), Step(Parse(name, second, []), e),
                  Step(Bind(portal, name, [], []), e)];
      var r := ReplyOf(After(run, tr), Execute(portal), tr, last);
      r == PreparedReply(b, tr, last) && DescribesOnce(r, !PassesThrough(b, last))
  {
    hide After, PreparedReply, ShowsRows, DescribesOnce, PassesThrough, ReplyOf;
    var one := [Step(Parse(name, first, []), e)];
    var two := one + [Step(DescribeStatement(name), e)];
    var three := two + [Step(Parse(name, second, []), e)];
    var run := three + [Step(Bind(portal, name, [], []), e)];
    assert run == [Step(Parse(name, first, []), e), Step(DescribeStatement(name), e), Step(Parse(name, second, []), e),
                   Step(Bind(portal, name, [], []), e)];
    assert run[..3] == three && three[..2] == two && three[..1] == one && two[..1] == one;
    assert LastParse(three, name) == 2;
    assert LastParse(one, name) == 0;
    assert DescribedAt(three, 1, name, tr);
    assert LastBind(run, portal) == 3;
    ExecuteRunsBound(run, portal, tr, last);
    PortalDescribesOnce(Bound(second, [], [], true), tr, last);
  }

  // ---- Parameter types over a run ----

  /** The first Describe of a name since its latest Parse, or -1. */
  function FirstDescribe(run: Run, name: string): (d: int)
    ensures -1 <= d < |run|
  {
    if run == [] then -1
    else
      var m := |run| - 1;
      if Parses(run[m].message, name) || Drops(run[m].message, name) then -1
      else
        var d := FirstDescribe(run[..m], name);
        if d >= 0 then d
        else if run[m].message == DescribeStatement(name) && LastParse(run[..m], name) >= 0 then m
        else -1
  }

  lemma LastParseStep(run: Run, name: string)
    requires run != []
    ensures var m := |run| - 1;
      LastParse(run, name) == if Parses(run[m].message, name) then m
        else if Drops(run[m].message, name) then -1 else LastParse(run[..m], name)
  {
    hide Parses, Drops;
  }

  lemma {:induction false} FirstDescribeIs(run: Run, name: string)
    requires LastParse(run, name) >= 0
    ensures var j, d := LastParse(run, name), FirstDescribe(run, name);
      && (d >= 0 ==> j < d && run[d].message == DescribeStatement(name))
      && forall k :: j < k < (if d >= 0 then d else |run|) ==> run[k].message != DescribeStatement(name)
  {
    hide LastParse, Parses, Drops;
    var m := |run| - 1;
    LastParseStep(run, name);
    if LastParse(run, name) < m {
      FirstDescribeIs(run[..m], name);
      var j, d := LastParse(run, name), FirstDescribe(run, name);
      forall k | j < k < (if d >= 0 then d else |run|)
        ensures run[k].message != DescribeStatement(name)
      {
        if k < m { assert run[..m][k] == run[k]; }
      }
    }
  }

  /** The parameter types of a statement as the messages tell them. */
  function OidsTold(run: Run, name: string): seq<nat>
    requires LastParse(run, name) >= 0
  {
    var parsed, d := run[LastParse(run, name)].message, FirstDescribe(run, name);
    if d < 0 then parsed.oids else ParamOids.Resolve(parsed.query, parsed.oids, run[d].env.inferred)
  }

  /** No two names share an object. */
  predicate Distinct(s: State)
  {
    forall a, b :: a in s.statements && b in s.statements && a != b ==> s.statements[a] != s.statements[b]
  }

  predicate OidsRight(s: State, run: Run, name: string)
    requires WellFormed(s)
  {
    name in s.statements && LastParse(run, name) >= 0 ==> s.objects[s.statements[name]].oids == OidsTold(run, name)
  }

  lemma NextObjects(s: State, m: ClientMessage, tr: Translator, e: Env)
    requires WellFormed(s)
    ensures Next(s, m, tr, e).objects == match m
      case Parse(_, query, oids) => s.objects + [Statement(query, oids)]
      case DescribeStatement(name) =>
        if name in s.statements then
          var id := s.statements[name];
          s.objects[id := Statement(s.objects[id].query, ParamOids.Resolve(s.objects[id].query, s.objects[id].oids, e.inferred))]
        else s.objects
      case _ => s.objects
  {
    hide PreparedReply, ShowsRows, Sent, SimpleReply, IsDeallocate, ParamOids.Resolve;
  }

  lemma DistinctStep(s: State, m: ClientMessage, tr: Translator, e: Env)
    requires WellFormed(s) && Distinct(s)
    ensures Distinct(Next(s, m, tr, e))
  {
    hide Next;
    NextNames(s, m, tr, e);
    assert forall n :: n in s.statements ==> s.statements[n] < |s.objects|;
  }

  /** A Describe of the name resolves its types once; everything else leaves them alone. */
  lemma OidsStep(s: State, run: Run, name: string, tr: Translator)
    requires run != [] && WellFormed(s) && Distinct(s)
    requires NameRight(s, run[..|run| - 1], name) && OidsRight(s, run[..|run| - 1], name)
    ensures OidsRight(Next(s, run[|run| - 1].message, tr, run[|run| - 1].env), run, name)
  {
    hide Next, LastParse, ParamOids.Resolve;
    var m := |run| - 1;
    var msg, before, e := run[m].message, run[..m], run[m].env;
    NextNames(s, msg, tr, e);
    NextObjects(s, msg, tr, e);
    LastParseStep(run, name);
    assert name in s.statements ==> s.statements[name] < |s.objects|;
    var j := LastParse(before, name);
    if msg == DescribeStatement(name) && j >= 0 {
      assert before[j] == run[j];
      var parsed, d := run[j].message, FirstDescribe(before, name);
      if d >= 0 {
        assert before[d] == run[d];
        ParamOids.SecondDescribe(parsed.query, parsed.oids, run[d].env.inferred, e.inferred);
      }
    } else if j >= 0 {
      assert before[j] == run[j];
      var d := FirstDescribe(before, name);
      if d >= 0 { assert before[d] == run[d]; }
    }
  }

  lemma {:induction false} OidsAreHistory(run: Run, tr: Translator)
    ensures Distinct(After(run, tr)) && forall name :: OidsRight(After(run, tr), run, name)
  {
    hide Next, OidsRight, Distinct, NameRight, DescribedRight, PortalRight;
    if run == [] {
      NothingDescribed();
    } else {
      var m := |run| - 1;
      OidsAreHistory(run[..m], tr);
      NamesAreHistory(run[..m], tr);
      LastStep(run, tr);
      var s := After(run[..m], tr);
      DistinctStep(s, run[m].message, tr, run[m].env);
      forall name
        ensures OidsRight(After(run, tr), run, name)
      {
        OidsStep(s, run, name, tr);
      }
    }
  }

  lemma NothingDescribed()
    ensures WellFormed(START) && Distinct(START) && forall name :: OidsRight(START, [], name)
  {
  }

  /**
   * Every Describe of a name since its latest Parse sends the list of the first one, whatever
   * the catalog answers later and whatever happened to other names and portals.
   */
  lemma DescribesSendFirst(run: Run, name: string, tr: Translator, e: Env)
    requires LastParse(run, name) >= 0
    ensures var parsed, d := run[LastParse(run, name)].message, FirstDescribe(run, name);
      var r := ReplyOf(After(run, tr), DescribeStatement(name), tr, e);
      && !r.failed && r.out != []
      && r.out[0] == ParameterDescription(
           ParamOids.Resolve(parsed.query, parsed.oids, if d >= 0 then run[d].env.inferred else e.inferred))
  {
    hide After, LastParse, FirstDescribe, ShowsRows, ParamOids.Resolve, DescribedRight, PortalRight;
    NamesAreHistory(run, tr);
    OidsAreHistory(run, tr);
    var s := After(run, tr);
    assert NameRight(s, run, name) && OidsRight(s, run, name);
    var parsed, d := run[LastParse(run, name)].message, FirstDescribe(run, name);
    if d >= 0 {
      ParamOids.SecondDescribe(parsed.query, parsed.oids, run[d].env.inferred, e.inferred);
    }
  }
}

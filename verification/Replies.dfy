/**
 * What the PostgreSQL server answers to a query (internal/proxy/postgresql/server.go): the
 * messages of executeQuery and executePreparedStatement, with MySQL, the catalog and the
 * translator as oracles. Writing to the socket succeeds.
 */
module Replies {
  import opened Wrappers
  import opened Texts
  import opened Queries
  import Placeholders

  datatype Status = Idle | InTransaction | Failed

  datatype Tag = Select(n: nat) | Text(text: string)

  datatype ServerMessage =
    | AuthenticationOk | ParameterStatus | BackendKeyData
    | ReadyForQuery(status: Status) | ErrorResponse
    | EmptyQueryResponse | CommandComplete(tag: Tag)
    | RowDescription | DataRow
    | ParseComplete | BindComplete | CloseComplete | NoData
    | ParameterDescription(oids: seq<nat>)

  /** Rows of a query: how many were sent, and whether reading them broke off. */
  datatype QueryResult = Refused | NoColumns | Rows(n: nat, broken: bool)

  /** The catalog fails, passes the query through to MySQL, or builds a table. */
  datatype CatalogResult = CatalogFailed | PassThrough | Table(n: nat)

  /** What the world answers while one message is handled. */
  datatype Env = Env(
    execOk: bool, affected: nat,
    result: QueryResult,
    retryOk: bool,
    catalog: CatalogResult,
    inferred: Option<seq<nat>>,
    describeOk: bool,
    returning: bool)

  type Translator = string -> Option<string>

  datatype Reply = Reply(out: seq<ServerMessage>, failed: bool)

  function Done(tag: string): Reply
  {
    Reply([CommandComplete(Text(tag))], false)
  }

  function Data(n: nat): (rows: seq<ServerMessage>)
    ensures |rows| == n && forall i :: 0 <= i < n ==> rows[i] == DataRow
  {
    seq(n, _ => DataRow)
  }

  /** RowDescription unless Describe sent it already. */
  function Head(described: bool): seq<ServerMessage>
  {
    if described then [] else [RowDescription]
  }

  /** A complete result of n rows. */
  function SelectReply(described: bool, n: nat): Reply
  {
    Reply(Head(described) + Data(n) + [CommandComplete(Select(n))], false)
  }

  // ---- Queries run on MySQL ----

  function ResultReply(r: QueryResult, described: bool): Reply
    requires !r.Refused?
  {
    if r.NoColumns? then Reply([], true)
    else if r.broken then Reply(Head(described) + Data(r.n), true)
    else SelectReply(described, r.n)
  }

  function MySQLReply(query: string, described: bool, e: Env): Reply
  {
    if IsWrite(query) then (if e.execOk then Done(CommandTag(query, e.affected)) else Reply([], true))
    else if e.result.Refused? then Reply([], true)
    else ResultReply(e.result, described)
  }

  function ParameterizedReply(query: string, described: bool, e: Env): Reply
  {
    if IsWrite(query) then (if e.execOk then Done(CommandTag(query, e.affected)) else Reply([], true))
    else if e.result.Refused? then (if e.retryOk then Done(CommandTag(query, e.affected)) else Reply([], true))
    else ResultReply(e.result, described)
  }

  /** A write with RETURNING: the row is selected back, without a RowDescription, and the tag is fixed. */
  function ReturningReply(hasParams: bool, e: Env): Reply
  {
    if !e.execOk then Reply([], true)
    else if e.returning && hasParams && e.result.Rows? then
      Reply(Data(e.result.n) + [CommandComplete(Text("INSERT 0 1"))], false)
    else Done("INSERT 0 1")
  }

  /** Only a query passed through to MySQL loses the flag described. */
  function CatalogReply(query: string, described: bool, e: Env): Reply
  {
    match e.catalog
    case CatalogFailed => Reply([], true)
    case PassThrough => MySQLReply(query, false, e)
    case Table(n) => SelectReply(described, n)
  }

  predicate IsShown(q: string)
  {
    q in SHOWN
  }

  function ShowReply(q: string, e: Env): Reply
  {
    if IsShown(q) then Reply([RowDescription, DataRow, CommandComplete(Text("SHOW 1"))], false)
    else MySQLReply(q, false, e)
  }

  // ---- Simple queries ----

  datatype Flags = Flags(inTransaction: bool, failed: bool)

  function StatusOf(f: Flags): Status
  {
    if f.failed then Failed else if f.inTransaction then InTransaction else Idle
  }

  /** A transaction command run on MySQL: the flags when it succeeds and when it fails. */
  function Ran(e: Env, ok: Flags, bad: Flags, tag: string): (Flags, Reply)
  {
    if e.execOk then (ok, Done(tag)) else (bad, Reply([], true))
  }

  predicate IsTransaction(c: Simple)
  {
    c.Begin? || c.Commit? || c.Rollback? || c.Savepoint? || c.Release? || c.RollbackTo?
  }

  /** BEGIN inside a transaction, and COMMIT and ROLLBACK outside one, do nothing and answer nothing. */
  function TransactionReply(f: Flags, c: Simple, e: Env): (Flags, Reply)
    requires IsTransaction(c)
  {
    match c
    case Begin =>
      if f.inTransaction then (f, Reply([], false))
      else Ran(e, Flags(true, false), Flags(true, true), "BEGIN")
    case Commit =>
      if !f.inTransaction then (f, Reply([], false))
      else Ran(e, Flags(false, f.failed), Flags(false, false), "COMMIT")
    case Rollback =>
      if !f.inTransaction then (f, Reply([], false))
      else Ran(e, Flags(false, false), Flags(false, false), "ROLLBACK")
    case Savepoint => Ran(e, f.(inTransaction := true), Flags(true, true), "SAVEPOINT")
    case Release => Ran(e, f, f.(failed := true), "RELEASE")
    case RollbackTo => Ran(e, f, f.(failed := true), "ROLLBACK TO SAVEPOINT")
  }

  /** The queries that leave the transaction alone. */
  function PlainReply(c: Simple, query: string, tr: Translator, e: Env): Reply
    requires !IsTransaction(c)
  {
    match c
    case Empty => Reply([EmptyQueryResponse], false)
    case CreateSchema => Done("CREATE SCHEMA")
    case DoBlock => Done("DO")
    case AdvisoryLock => SelectReply(false, 1)
    case IgnoredSet => Done("SET")
    case Deallocate => Done("DEALLOCATE")
    case Isolation => Done("SET")
    case OtherSet => Done("SET")
    case ShowIsolation => Done("SHOW")
    case Show => ShowReply(Normalize(Normalize(query)), e)
    case Catalog => CatalogReply(query, false, e)
    case Version => SelectReply(false, 1)
    case Translated =>
      match tr(query)
      case None => Reply([], true)
      case Some(translated) => MySQLReply(translated, false, e)
  }

  /** Flags and messages of executeQuery. */
  function SimpleReply(f: Flags, query: string, tr: Translator, e: Env): (Flags, Reply)
  {
    if IsTransaction(Classify(query)) then TransactionReply(f, Classify(query), e)
    else (f, PlainReply(Classify(query), query, tr, e))
  }

  // ---- Prepared statements ----

  /** What a portal carries: the text, the parameters and the flag described. */
  datatype Bound = Bound(query: string, params: seq<Option<string>>, formats: seq<int>, described: bool)

  function PreparedReply(b: Bound, tr: Translator, e: Env): Reply
  {
    match ClassifyPrepared(b.query)
    case Lock => SelectReply(b.described, 1)
    case Startup => SelectReply(b.described, 1)
    case VersionText => SelectReply(b.described, 1)
    case CatalogQuery => CatalogReply(CatalogText(b), b.described, e)
    case MySQLQuery =>
      match tr(b.query)
      case None => Reply([], true)
      case Some(translated) =>
        if HasReturning(b.query) && IsWrite(translated) then ReturningReply(b.params != [], e)
        else if b.params != [] then ParameterizedReply(translated, b.described, e)
        else MySQLReply(translated, b.described, e)
  }

  /** The text executeCatalogQueryExtended makes of a portal. */
  function CatalogText(b: Bound): string
  {
    Placeholders.ReplaceDown(b.query, Placeholders.ParamTexts(b.params, b.formats), |b.params|)
  }

  /** The information_schema pass-through of a portal. */
  predicate PassesThrough(b: Bound, e: Env)
  {
    ClassifyPrepared(b.query).CatalogQuery? && e.catalog.PassThrough?
  }

  // ---- Describe ----

  /** Describe of a statement with this text answers with a RowDescription. */
  predicate ShowsRows(query: string, tr: Translator, e: Env)
  {
    match ClassifyDescribe(query)
    case FixedRow => true
    case SelectRow =>
      IsTypeDescription(query) || (tr(NullParams(Placeholders.Cut(query))).Some? && e.describeOk)
    case ReturningRow => e.returning && e.describeOk
    case NoRow => false
  }

  // ---- What every answer looks like ----

  /** A body holds no ErrorResponse and no ReadyForQuery: only the message loop sends those. */
  predicate IsBody(out: seq<ServerMessage>)
  {
    forall i :: 0 <= i < |out| ==> !out[i].ErrorResponse? && !out[i].ReadyForQuery?
  }

  /**
   * A successful answer tagged SELECT n is at most one RowDescription, exactly n DataRows and the
   * tag; no other tagged answer is a select, and no answer that succeeds ends in a DataRow.
   */
  predicate IsAnswer(r: Reply)
  {
    && IsBody(r.out)
    && (forall i :: 0 <= i < |r.out| && r.out[i].CommandComplete? && r.out[i].tag.Select? ==>
          !r.failed && (r == SelectReply(true, r.out[i].tag.n) || r == SelectReply(false, r.out[i].tag.n)))
    && (!r.failed && r.out != [] ==> !r.out[|r.out| - 1].DataRow?)
  }

  lemma TableIsAnswer(described: bool, n: nat)
    ensures IsAnswer(SelectReply(described, n))
  {
  }

  lemma BrokenIsAnswer(described: bool, n: nat)
    ensures IsAnswer(Reply(Head(described) + Data(n), true))
  {
  }

  lemma ShortIsAnswer(r: Reply)
    requires r.out == [] || exists t :: r.out == [CommandComplete(Text(t))]
    ensures IsAnswer(r)
  {
  }

  lemma MySQLAnswers(query: string, described: bool, e: Env)
    ensures IsAnswer(MySQLReply(query, described, e)) && IsAnswer(ParameterizedReply(query, described, e))
  {
    hide IsAnswer, IsWrite, CommandTag, SelectReply, Data;
    ShortIsAnswer(Done(CommandTag(query, e.affected)));
    ShortIsAnswer(Reply([], true));
    if e.result.Rows? {
      TableIsAnswer(described, e.result.n);
      BrokenIsAnswer(described, e.result.n);
    }
  }

  lemma CatalogAnswers(query: string, described: bool, e: Env)
    ensures IsAnswer(MySQLReply(query, false, e))
    ensures IsAnswer(CatalogReply(query, described, e))
  {
    hide IsAnswer, MySQLReply, SelectReply;
    MySQLAnswers(query, false, e);
    ShortIsAnswer(Reply([], true));
    if e.catalog.Table? { TableIsAnswer(described, e.catalog.n); }
  }

  lemma ReturningAnswers(hasParams: bool, e: Env)
    ensures IsAnswer(ReturningReply(hasParams, e))
  {
  }

  lemma ShownAnswers()
    ensures IsAnswer(Reply([RowDescription, DataRow, CommandComplete(Text("SHOW 1"))], false))
  {
  }

  lemma ShowAnswers(q: string, e: Env)
    ensures IsAnswer(ShowReply(q, e))
  {
    hide MySQLReply, IsShown, IsAnswer;
    MySQLAnswers(q, false, e);
    ShownAnswers();
  }

  lemma PreparedAnswers(b: Bound, tr: Translator, e: Env)
    ensures IsAnswer(PreparedReply(b, tr, e))
  {
    hide IsAnswer, MySQLReply, ParameterizedReply, CatalogReply, ReturningReply, SelectReply, ClassifyPrepared, IsWrite, HasReturning, CatalogText;
    TableIsAnswer(b.described, 1);
    CatalogAnswers(CatalogText(b), b.described, e);
    ReturningAnswers(b.params != [], e);
    ShortIsAnswer(Reply([], true));
    if tr(b.query).Some? { MySQLAnswers(tr(b.query).value, b.described, e); }
  }

  lemma TransactionAnswers(f: Flags, c: Simple, e: Env)
    requires IsTransaction(c)
    ensures IsAnswer(TransactionReply(f, c, e).1)
  {
  }

  lemma DoneAnswers()
    ensures forall tag :: IsAnswer(Done(tag))
  {
  }

  lemma FixedAnswers()
    ensures IsAnswer(Reply([], true)) && IsAnswer(Reply([EmptyQueryResponse], false))
    ensures IsAnswer(SelectReply(false, 1))
  {
  }

  lemma PlainAnswers(c: Simple, query: string, tr: Translator, e: Env)
    requires !IsTransaction(c)
    ensures IsAnswer(PlainReply(c, query, tr, e))
  {
    hide IsAnswer, MySQLReply, ParameterizedReply, CatalogReply, ShowReply, SelectReply, Done, Normalize;
    FixedAnswers();
    DoneAnswers();
    ShowAnswers(Normalize(Normalize(query)), e);
    CatalogAnswers(query, false, e);
    if tr(query).Some? { MySQLAnswers(tr(query).value, false, e); }
  }

  lemma SimpleAnswers(f: Flags, query: string, tr: Translator, e: Env)
    ensures IsAnswer(SimpleReply(f, query, tr, e).1)
  {
    hide IsAnswer, Classify, PlainReply, TransactionReply;
    if IsTransaction(Classify(query)) {
      TransactionAnswers(f, Classify(query), e);
    } else {
      PlainAnswers(Classify(query), query, tr, e);
    }
  }

  // ---- RowDescriptions ----

  function Descriptions(out: seq<ServerMessage>): nat
  {
    if out == [] then 0
    else Descriptions(out[..|out| - 1]) + if out[|out| - 1].RowDescription? then 1 else 0
  }

  lemma {:induction false} DescriptionsSplit(a: seq<ServerMessage>, b: seq<ServerMessage>)
    ensures Descriptions(a + b) == Descriptions(a) + Descriptions(b)
  {
    if b == [] {
      assert a + b == a;
    } else {
      DescriptionsSplit(a, b[..|b| - 1]);
      assert (a + b)[..|a + b| - 1] == a + b[..|b| - 1];
    }
  }

  lemma {:induction false} NoDescriptions(out: seq<ServerMessage>)
    requires forall i :: 0 <= i < |out| ==> !out[i].RowDescription?
    ensures Descriptions(out) == 0
  {
    if out != [] { NoDescriptions(out[..|out| - 1]); }
  }

  lemma HeadDescriptions(described: bool, tail: seq<ServerMessage>)
    requires forall i :: 0 <= i < |tail| ==> !tail[i].RowDescription?
    ensures Descriptions(Head(described) + tail) == if described then 0 else 1
  {
    DescriptionsSplit(Head(described), tail);
    NoDescriptions(tail);
    assert [RowDescription][..0] == [];
  }

  lemma TableDescriptions(described: bool, n: nat)
    ensures Descriptions(SelectReply(described, n).out) == if described then 0 else 1
    ensures Descriptions(Head(described) + Data(n)) == if described then 0 else 1
  {
    HeadDescriptions(described, Data(n) + [CommandComplete(Select(n))]);
    HeadDescriptions(described, Data(n));
    assert Head(described) + (Data(n) + [CommandComplete(Select(n))]) == SelectReply(described, n).out;
  }

  /** An answer of a portal carries rows: it is tagged as a select. */
  predicate IsSelect(r: Reply)
  {
    !r.failed && r.out != [] && r.out[|r.out| - 1].CommandComplete? && r.out[|r.out| - 1].tag.Select?
  }

  /**
   * A reply to a portal carries at most one RowDescription. When the portal is marked as
   * described it carries none, except for a query passed through to MySQL; a select carries
   * exactly one in the other cases.
   */
  predicate DescribesOnce(r: Reply, hidden: bool)
  {
    && Descriptions(r.out) <= (if hidden then 0 else 1)
    && (IsSelect(r) ==> Descriptions(r.out) == if hidden then 0 else 1)
  }

  lemma TableDescribes(described: bool, n: nat)
    ensures DescribesOnce(SelectReply(described, n), described)
    ensures DescribesOnce(Reply(Head(described) + Data(n), true), described)
  {
    hide Descriptions;
    TableDescriptions(described, n);
  }

  lemma NothingDescribes(r: Reply, hidden: bool)
    requires r.out == [] || exists t :: r.out == [CommandComplete(Text(t))]
    ensures DescribesOnce(r, hidden)
  {
    hide Descriptions;
    NoDescriptions(r.out);
  }

  lemma MySQLDescribes(query: string, described: bool, e: Env)
    ensures DescribesOnce(MySQLReply(query, described, e), described)
    ensures DescribesOnce(ParameterizedReply(query, described, e), described)
  {
    hide DescribesOnce, IsWrite, CommandTag, SelectReply, Data;
    NothingDescribes(Done(CommandTag(query, e.affected)), described);
    NothingDescribes(Reply([], true), described);
    if e.result.Rows? { TableDescribes(described, e.result.n); }
  }

  lemma ReturningDescribes(hasParams: bool, e: Env, hidden: bool)
    ensures DescribesOnce(ReturningReply(hasParams, e), hidden)
  {
    hide Descriptions;
    NoDescriptions(ReturningReply(hasParams, e).out);
  }

  lemma PortalDescribesOnce(b: Bound, tr: Translator, e: Env)
    ensures DescribesOnce(PreparedReply(b, tr, e), b.described && !PassesThrough(b, e))
  {
    hide DescribesOnce, MySQLReply, ParameterizedReply, ReturningReply, SelectReply, ClassifyPrepared, IsWrite, HasReturning, CatalogText;
    TableDescribes(b.described, 1);
    MySQLDescribes(CatalogText(b), false, e);
    NothingDescribes(Reply([], true), b.described);
    ReturningDescribes(b.params != [], e, b.described);
    if e.catalog.Table? { TableDescribes(b.described, e.catalog.n); }
    if tr(b.query).Some? { MySQLDescribes(tr(b.query).value, b.described, e); }
  }
}

/**
 * A PostgreSQL connection as a state machine (internal/proxy/postgresql/server.go): prepared
 * statements, portals that point at statement objects, the described set, the two transaction
 * flags and the messages sent.
 */
module Connection {
  import opened Wrappers
  import opened Queries
  import opened Replies
  import ParamOids
  import Placeholders

  datatype ClientMessage =
    | Query(text: string)
    | Parse(name: string, query: string, oids: seq<nat>)
    | Bind(portal: string, name: string, params: seq<Option<string>>, formats: seq<int>)
    | Execute(portal: string)
    | DescribeStatement(name: string) | DescribePortal(portal: string)
    | CloseStatement(name: string) | ClosePortal(portal: string)
    | Sync | Flush | Terminate | Password | Unknown

  /** A statement object. A portal holds the number of its object, which outlives the name. */
  datatype Statement = Statement(query: string, oids: seq<nat>)

  datatype Portal = Portal(object_: nat, params: seq<Option<string>>, formats: seq<int>, described: bool)

  datatype State = State(
    objects: seq<Statement>,
    statements: map<string, nat>,
    portals: map<string, Portal>,
    described: set<string>,
    flags: Flags,
    out: seq<ServerMessage>)

  predicate WellFormed(s: State)
  {
    && (forall n :: n in s.statements ==> s.statements[n] < |s.objects|)
    && (forall p :: p in s.portals ==> s.portals[p].object_ < |s.objects|)
  }

  /** The messages before the loop: authentication, nine parameters, the key, ReadyForQuery. */
  const GREETING: seq<ServerMessage> :=
    [AuthenticationOk,
     ParameterStatus, ParameterStatus, ParameterStatus, ParameterStatus, ParameterStatus,
     ParameterStatus, ParameterStatus, ParameterStatus, ParameterStatus,
     BackendKeyData, ReadyForQuery(Idle)]

  const START: State := State([], map[], map[], {}, Flags(false, false), GREETING)

  // ---- One message ----

  function QueryStep(s: State, text: string, tr: Translator, e: Env): (State, Reply)
  {
    var (flags, r) := SimpleReply(s.flags, text, tr, e);
    (s.(flags := flags),
     if r.failed || IsDeallocate(text) then r else Reply(r.out + [ReadyForQuery(StatusOf(flags))], false))
  }

  /** A new object takes the name. */
  function ParseStep(s: State, name: string, query: string, oids: seq<nat>): (State, Reply)
  {
    (s.(objects := s.objects + [Statement(query, oids)], statements := s.statements[name := |s.objects|]),
     Reply([ParseComplete], false))
  }

  function CloseStatementStep(s: State, name: string): (State, Reply)
  {
    (s.(statements := s.statements - {name}), Reply([CloseComplete], false))
  }

  function ClosePortalStep(s: State, portal: string): (State, Reply)
  {
    (s.(portals := s.portals - {portal}), Reply([CloseComplete], false))
  }

  function BindStep(s: State, m: ClientMessage): (State, Reply)
    requires m.Bind?
  {
    if m.name !in s.statements then (s, Reply([], true))
    else
      var p := Portal(s.statements[m.name], m.params, m.formats, m.name in s.described);
      (s.(portals := s.portals[m.portal := p]), Reply([BindComplete], false))
  }

  /** A portal with the text its object has now. */
  function BoundOf(s: State, portal: string): Bound
    requires WellFormed(s) && portal in s.portals
  {
    var p := s.portals[portal];
    Bound(s.objects[p.object_].query, p.params, p.formats, p.described)
  }

  function ExecuteStep(s: State, portal: string, tr: Translator, e: Env): Reply
    requires WellFormed(s)
  {
    if portal !in s.portals then Reply([], true) else PreparedReply(BoundOf(s, portal), tr, e)
  }

  /** The OIDs are resolved in the object; the name joins the described set when columns are sent. */
  function DescribeFound(s: State, id: nat, name: string, tr: Translator, e: Env): (State, Reply)
    requires id < |s.objects|
  {
    var query := s.objects[id].query;
    var oids := ParamOids.Resolve(query, s.objects[id].oids, e.inferred);
    var shown := ShowsRows(query, tr, e);
    (s.(objects := s.objects[id := Statement(query, oids)],
        described := if shown then s.described + {name} else s.described),
     Reply([ParameterDescription(oids), if shown then RowDescription else NoData], false))
  }

  function DescribeStep(s: State, name: string, tr: Translator, e: Env): (State, Reply)
    requires WellFormed(s)
  {
    if name !in s.statements then (s, Reply([], true)) else DescribeFound(s, s.statements[name], name, tr, e)
  }

  function Handled(s: State, m: ClientMessage, tr: Translator, e: Env): (State, Reply)
    requires WellFormed(s)
  {
    match m
    case Query(text) => QueryStep(s, text, tr, e)
    case Parse(name, query, oids) => ParseStep(s, name, query, oids)
    case Bind(_, _, _, _) => BindStep(s, m)
    case Execute(portal) => (s, ExecuteStep(s, portal, tr, e))
    case DescribeStatement(name) => DescribeStep(s, name, tr, e)
    case DescribePortal(_) => (s, Reply([NoData], false))
    case CloseStatement(name) => CloseStatementStep(s, name)
    case ClosePortal(portal) => ClosePortalStep(s, portal)
    case Sync => (s, Reply([ReadyForQuery(StatusOf(s.flags))], false))
    case _ => (s, Reply([], false))
  }

  lemma HandledKeeps(s: State, m: ClientMessage, tr: Translator, e: Env)
    requires WellFormed(s)
    ensures WellFormed(Handled(s, m, tr, e).0)
  {
    hide SimpleReply, PreparedReply, ShowsRows, ParamOids.Resolve, IsDeallocate;
  }

  /** The message loop answers an error with ErrorResponse and ReadyForQuery at once. */
  function Sent(r: Reply, flags: Flags): seq<ServerMessage>
  {
    r.out + if r.failed then [ErrorResponse, ReadyForQuery(StatusOf(flags))] else []
  }

  function Next(s: State, m: ClientMessage, tr: Translator, e: Env): (t: State)
    requires WellFormed(s)
    ensures WellFormed(t)
  {
    HandledKeeps(s, m, tr, e);
    var (u, r) := Handled(s, m, tr, e);
    u.(out := s.out + Sent(r, u.flags))
  }

  // ---- Runs ----

  datatype Step = Step(message: ClientMessage, env: Env)

  type Run = seq<Step>

  function After(run: Run, tr: Translator): (s: State)
    ensures WellFormed(s)
  {
    if run == [] then START
    else Next(After(run[..|run| - 1], tr), run[|run| - 1].message, tr, run[|run| - 1].env)
  }

  // ---- The server's objects ----

  /** A portal of the server: it points at the statement object. */
  datatype PortalRef = PortalRef(stmt: ParamOids.PreparedStmt, params: seq<Option<string>>, formats: seq<int>, described: bool)

  /** connState. */
  class Session {
    var preparedStatements: map<string, ParamOids.PreparedStmt>
    var portals: map<string, PortalRef>
    var describedPortals: set<string>
    var inTransaction: bool
    var transactionFailed: bool
    var out: seq<ServerMessage>

    // All statement objects in the order of their Parse messages, their values, and where names and portals point.
    ghost var objects: seq<ParamOids.PreparedStmt>
    ghost var values: seq<Statement>
    ghost var ids: map<string, nat>
    ghost var portalValues: map<string, Portal>
    ghost var Repr: set<object>

    ghost predicate Separate()
      reads `objects, `Repr, Repr
    {
      && this !in Repr
      && (forall i :: 0 <= i < |objects| ==> objects[i] in Repr && objects[i].paramOids in Repr)
      && (forall i, j :: 0 <= i < j < |objects| ==> objects[i] != objects[j] && objects[i].paramOids != objects[j].paramOids)
    }

    ghost predicate Named()
      reads `objects, `ids, `preparedStatements
    {
      && ids.Keys == preparedStatements.Keys
      && forall n :: n in ids ==> ids[n] < |objects| && objects[ids[n]] == preparedStatements[n]
    }

    ghost predicate Pointed()
      reads `objects, `portalValues, `portals
    {
      && portalValues.Keys == portals.Keys
      && forall p :: p in portalValues ==>
          var v := portalValues[p];
          v.object_ < |objects| && portals[p] == PortalRef(objects[v.object_], v.params, v.formats, v.described)
    }

    ghost predicate Valued()
      reads `objects, `values, `Repr, Repr
      requires Separate()
    {
      && |values| == |objects|
      && forall i :: 0 <= i < |objects| ==> values[i] == Statement(objects[i].query, objects[i].paramOids[..])
    }

    ghost predicate Valid()
      reads `objects, `Repr, `ids, `preparedStatements, `portalValues, `portals, `values, Repr
      ensures Valid() ==> this !in Repr
    {
      Separate() && Named() && Pointed() && Valued()
    }

    ghost function FlagsNow(): Flags
      reads this
    {
      Flags(inTransaction, transactionFailed)
    }

    /** The state machine's view. */
    ghost function Now(): State
      reads this
    {
      State(values, ids, portalValues, describedPortals, FlagsNow(), out)
    }

    constructor ()
      ensures Valid() && fresh(Repr) && Now() == START
    {
      preparedStatements, portals, describedPortals := map[], map[], {};
      inTransaction, transactionFailed := false, false;
      out := GREETING;
      objects, values, ids, portalValues, Repr := [], [], map[], map[], {};
    }

    method Send(m: ServerMessage)
      modifies `out
      ensures out == old(out) + [m]
    {
      out := out + [m];
    }

    // ---- Queries on MySQL ----

    /** The rows of an open result, then the tag with their count. */
    method SendRows(r: QueryResult, described: bool) returns (failed: bool)
      requires !r.Refused?
      modifies `out
      ensures out == old(out) + ResultReply(r, described).out && failed == ResultReply(r, described).failed
    {
      if r.NoColumns? {
        assert out + [] == out;
        return true;
      }
      if !described {
        Send(RowDescription);
      }
      ghost var start := old(out) + Head(described);
      assert out == start + Data(0);
      var rowCount := 0;
      while rowCount < r.n
        invariant 0 <= rowCount <= r.n
        invariant out == start + Data(rowCount)
      {
        Send(DataRow);
        rowCount := rowCount + 1;
      }
      if r.broken {
        return true;
      }
      Send(CommandComplete(Select(rowCount)));
      return false;
    }

    /** executeMySQLQuery. */
    method ExecuteMySQLQuery(query: string, described: bool, e: Env) returns (failed: bool)
      modifies `out
      ensures out == old(out) + MySQLReply(query, described, e).out && failed == MySQLReply(query, described, e).failed
    {
      hide ResultReply, IsWrite, CommandTag;
      assert out + [] == out;
      if IsWrite(query) {
        if !e.execOk {
          return true;
        }
        Send(CommandComplete(Text(CommandTag(query, e.affected))));
        return false;
      }
      if e.result.Refused? {
        return true;
      }
      failed := SendRows(e.result, described);
    }

    /** executeParameterizedMySQLQuery: a query MySQL refuses is tried once more as a statement. */
    method ExecuteParameterized(query: string, described: bool, e: Env) returns (failed: bool)
      modifies `out
      ensures out == old(out) + ParameterizedReply(query, described, e).out
      ensures failed == ParameterizedReply(query, described, e).failed
    {
      hide ResultReply, IsWrite, CommandTag;
      assert out + [] == out;
      if IsWrite(query) {
        if !e.execOk {
          return true;
        }
        Send(CommandComplete(Text(CommandTag(query, e.affected))));
        return false;
      }
      if e.result.Refused? {
        if !e.retryOk {
          return true;
        }
        Send(CommandComplete(Text(CommandTag(query, e.affected))));
        return false;
      }
      failed := SendRows(e.result, described);
    }

    /** executeWriteReturning. */
    method ExecuteWriteReturning(hasParams: bool, e: Env) returns (failed: bool)
      modifies `out
      ensures out == old(out) + ReturningReply(hasParams, e).out && failed == ReturningReply(hasParams, e).failed
    {
      assert out + [] == out;
      if !e.execOk {
        return true;
      }
      if e.returning && hasParams && e.result.Rows? {
        assert out == old(out) + Data(0);
        for i := 0 to e.result.n
          invariant out == old(out) + Data(i)
        {
          Send(DataRow);
        }
      }
      Send(CommandComplete(Text("INSERT 0 1")));
      return false;
    }

    /** executeCatalogQuery. */
    method ExecuteCatalogQuery(query: string, described: bool, e: Env) returns (failed: bool)
      modifies `out
      ensures out == old(out) + CatalogReply(query, described, e).out && failed == CatalogReply(query, described, e).failed
    {
      hide MySQLReply;
      assert out + [] == out;
      match e.catalog
      case CatalogFailed =>
        failed := true;
      case PassThrough =>
        failed := ExecuteMySQLQuery(query, false, e);
      case Table(n) =>
        failed := SendRows(Rows(n, false), described);
    }

    method SendFixedRow(described: bool)
      modifies `out
      ensures out == old(out) + SelectReply(described, 1).out
    {
      var failed := SendRows(Rows(1, false), described);
    }

    /** handleShowCommand. */
    method HandleShow(q: string, e: Env) returns (failed: bool)
      modifies `out
      ensures out == old(out) + ShowReply(q, e).out && failed == ShowReply(q, e).failed
    {
      hide MySQLReply, IsShown;
      if IsShown(q) {
        Send(RowDescription);
        Send(DataRow);
        Send(CommandComplete(Text("SHOW 1")));
        return false;
      }
      failed := ExecuteMySQLQuery(q, false, e);
    }

    // ---- executeQuery ----

    /** The transaction commands, in the order of the assignments around the call to MySQL. */
    method ExecuteTransaction(c: Simple, e: Env) returns (failed: bool)
      requires IsTransaction(c)
      modifies `out, `inTransaction, `transactionFailed
      ensures var (f, r) := TransactionReply(old(FlagsNow()), c, e);
        FlagsNow() == f && out == old(out) + r.out && failed == r.failed
    {
      failed := false;
      assert out + [] == out;
      match c
      case Begin =>
        if inTransaction {
          return;
        }
        inTransaction := true;
        transactionFailed := false;
        if !e.execOk {
          transactionFailed := true;
          return true;
        }
        Send(CommandComplete(Text("BEGIN")));
      case Commit =>
        if !inTransaction {
          return;
        }
        inTransaction := false;
        if !e.execOk {
          transactionFailed := false;
          return true;
        }
        Send(CommandComplete(Text("COMMIT")));
      case Rollback =>
        if !inTransaction {
          return;
        }
        inTransaction := false;
        transactionFailed := false;
        if !e.execOk {
          return true;
        }
        Send(CommandComplete(Text("ROLLBACK")));
      case Savepoint =>
        if !inTransaction {
          inTransaction := true;
        }
        if !e.execOk {
          transactionFailed := true;
          return true;
        }
        Send(CommandComplete(Text("SAVEPOINT")));
      case Release =>
        if !e.execOk {
          transactionFailed := true;
          return true;
        }
        Send(CommandComplete(Text("RELEASE")));
      case RollbackTo =>
        if !e.execOk {
          transactionFailed := true;
          return true;
        }
        Send(CommandComplete(Text("ROLLBACK TO SAVEPOINT")));
    }

    /** The other branches of executeQuery. */
    method ExecutePlain(c: Simple, query: string, tr: Translator, e: Env) returns (failed: bool)
      requires !IsTransaction(c)
      modifies `out
      ensures out == old(out) + PlainReply(c, query, tr, e).out && failed == PlainReply(c, query, tr, e).failed
    {
      hide MySQLReply, CatalogReply, ShowReply, SelectReply, Normalize;
      failed := false;
      assert out + [] == out;
      SelectSucceeds(false, 1);
      match c
      case Empty => Send(EmptyQueryResponse);
      case CreateSchema => Send(CommandComplete(Text("CREATE SCHEMA")));
      case DoBlock => Send(CommandComplete(Text("DO")));
      case AdvisoryLock => SendFixedRow(false);
      case IgnoredSet => Send(CommandComplete(Text("SET")));
      case Deallocate => Send(CommandComplete(Text("DEALLOCATE")));
      case Isolation => Send(CommandComplete(Text("SET")));
      case OtherSet => Send(CommandComplete(Text("SET")));
      case ShowIsolation => Send(CommandComplete(Text("SHOW")));
      case Show => failed := HandleShow(Normalize(Normalize(query)), e);
      case Catalog => failed := ExecuteCatalogQuery(query, false, e);
      case Version => SendFixedRow(false);
      case Translated =>
        match tr(query)
        case None => failed := true;
        case Some(translated) => failed := ExecuteMySQLQuery(translated, false, e);
    }

    /** executeQuery. */
    method ExecuteQuery(query: string, tr: Translator, e: Env) returns (failed: bool)
      modifies `out, `inTransaction, `transactionFailed
      ensures var (f, r) := SimpleReply(old(FlagsNow()), query, tr, e);
        FlagsNow() == f && out == old(out) + r.out && failed == r.failed
    {
      hide Classify, TransactionReply, PlainReply;
      var c := Classify(query);
      if IsTransaction(c) {
        failed := ExecuteTransaction(c, e);
      } else {
        failed := ExecutePlain(c, query, tr, e);
      }
    }

    // ---- executePreparedStatement ----

    method ExecutePrepared(p: PortalRef, tr: Translator, e: Env) returns (failed: bool)
      modifies `out
      ensures var r := PreparedReply(Bound(p.stmt.query, p.params, p.formats, p.described), tr, e);
        out == old(out) + r.out && failed == r.failed
    {
      hide ClassifyPrepared, MySQLReply, ParameterizedReply, ReturningReply, CatalogReply, SelectReply, IsWrite, HasReturning,
        Placeholders.ReplaceDown;
      failed := false;
      assert out + [] == out;
      SelectSucceeds(p.described, 1);
      var query := p.stmt.query;
      match ClassifyPrepared(query)
      case CatalogQuery =>
        var text := Placeholders.Substitute(query, p.params, p.formats);
        failed := ExecuteCatalogQuery(text, p.described, e);
      case MySQLQuery =>
        match tr(query) {
          case None =>
            failed := true;
          case Some(translated) =>
            if HasReturning(query) && IsWrite(translated) {
              failed := ExecuteWriteReturning(p.params != [], e);
            } else if p.params != [] {
              failed := ExecuteParameterized(translated, p.described, e);
            } else {
              failed := ExecuteMySQLQuery(translated, p.described, e);
            }
        }
      case _ =>
        SendFixedRow(p.described);
    }

    // ---- Handlers ----

    /** The handler of a message did what the state machine does, and said whether it failed. */
    ghost predicate Matches(before: State, after: (State, Reply), failed: bool)
      reads this
    {
      Now() == after.0.(out := before.out + after.1.out) && failed == after.1.failed
    }

    method HandleSimpleQuery(text: string, tr: Translator, e: Env) returns (failed: bool)
      requires Valid()
      modifies `out, `inTransaction, `transactionFailed
      ensures Valid()
      ensures Matches(old(Now()), QueryStep(old(Now()), text, tr, e), failed)
    {
      hide SimpleReply, IsDeallocate;
      failed := ExecuteQuery(text, tr, e);
      if failed || IsDeallocate(text) {
        return;
      }
      ghost var sent := SimpleReply(old(FlagsNow()), text, tr, e).1.out;
      assert old(out) + sent + [ReadyForQuery(StatusOf(FlagsNow()))] == old(out) + (sent + [ReadyForQuery(StatusOf(FlagsNow()))]);
      Send(ReadyForQuery(Status()));
    }

    /** A new statement object joins the others. */
    ghost method Adopt(stmt: ParamOids.PreparedStmt)
      requires Valid() && {stmt, stmt.paramOids} !! Repr
      modifies `objects, `values, `Repr
      ensures Valid() && Repr == old(Repr) + {stmt, stmt.paramOids}
      ensures objects == old(objects) + [stmt] && values == old(values) + [Statement(stmt.query, stmt.paramOids[..])]
    {
      objects := objects + [stmt];
      values := values + [Statement(stmt.query, stmt.paramOids[..])];
      Repr := Repr + {stmt, stmt.paramOids};
    }

    /** The name now stands for the newest object. */
    method Rename(name: string, stmt: ParamOids.PreparedStmt)
      requires Valid() && objects != [] && stmt == objects[|objects| - 1]
      modifies `preparedStatements, `ids
      ensures Valid() && ids == old(ids)[name := |values| - 1]
    {
      hide Pointed;
      preparedStatements := preparedStatements[name := stmt];
      ids := ids[name := |objects| - 1];
    }

    method NewStatement(query: string, oids: seq<nat>) returns (stmt: ParamOids.PreparedStmt)
      requires Valid()
      modifies `objects, `values, `Repr
      ensures Valid() && fresh(Repr - old(Repr))
      ensures objects == old(objects) + [stmt] && values == old(values) + [Statement(query, oids)]
    {
      hide Separate, Valued, Pointed, Named;
      stmt := new ParamOids.PreparedStmt(query, oids);
      Adopt(stmt);
    }

    /** handleParse: a new object takes the name; portals keep the old one. */
    method HandleParse(name: string, query: string, oids: seq<nat>)
      requires Valid()
      modifies this
      ensures Valid() && fresh(Repr - old(Repr))
      ensures Matches(old(Now()), ParseStep(old(Now()), name, query, oids), false)
    {
      hide Separate, Valued, Pointed, Named;
      var stmt := NewStatement(query, oids);
      Rename(name, stmt);
      Send(ParseComplete);
    }

    lemma PointsRight()
      requires Valid()
      ensures WellFormed(Now())
    {
    }

    lemma PortalOf(portal: string)
      requires Valid()
      ensures WellFormed(Now()) && (portal in portals <==> portal in portalValues)
      ensures portal in portals ==>
        var p := portals[portal]; BoundOf(Now(), portal) == Bound(p.stmt.query, p.params, p.formats, p.described)
    {
    }

    /** handleBind. */
    method HandleBind(m: ClientMessage) returns (failed: bool)
      requires Valid() && m.Bind?
      modifies this
      ensures Valid() && Repr == old(Repr)
      ensures Matches(old(Now()), BindStep(old(Now()), m), failed)
    {
      if m.name !in preparedStatements {
        assert out + [] == out;
        return true;
      }
      portals := portals[m.portal := PortalRef(preparedStatements[m.name], m.params, m.formats, m.name in describedPortals)];
      portalValues := portalValues[m.portal := Portal(ids[m.name], m.params, m.formats, m.name in describedPortals)];
      Send(BindComplete);
      return false;
    }

    /** handleExecute: the text is the one of the object the portal points at. */
    method HandleExecute(portal: string, tr: Translator, e: Env) returns (failed: bool)
      requires Valid()
      modifies `out
      ensures Valid()
      ensures WellFormed(old(Now()))
      ensures Matches(old(Now()), (old(Now()), ExecuteStep(old(Now()), portal, tr, e)), failed)
    {
      PortalOf(portal);
      hide PreparedReply, Separate, Valued, Pointed, Named, WellFormed, BoundOf;
      if portal !in portals {
        assert out + [] == out;
        return true;
      }
      failed := ExecutePrepared(portals[portal], tr, e);
    }

    /** Resolves the parameter types of one object; the other objects stay as they are. */
    method DescribeObject(stmt: ParamOids.PreparedStmt, ghost id: nat, e: Env) returns (sent: seq<nat>)
      requires Valid() && id < |objects| && objects[id] == stmt
      modifies `values, `Repr, stmt, stmt.paramOids
      ensures Valid() && fresh(Repr - old(Repr)) && old(Repr) <= Repr
      ensures sent == ParamOids.Resolve(stmt.query, old(values)[id].oids, e.inferred)
      ensures values == old(values)[id := Statement(stmt.query, sent)]
    {
      hide ParamOids.Resolve;
      sent := stmt.DescribeParameters(e.inferred);
      values := values[id := Statement(stmt.query, sent)];
      Repr := Repr + {stmt.paramOids};
    }

    /** The columns of a statement, and the mark that they were sent. */
    method DescribeRows(name: string, query: string, tr: Translator, e: Env)
      modifies `out, `describedPortals
      ensures out == old(out) + [if ShowsRows(query, tr, e) then RowDescription else NoData]
      ensures describedPortals == if ShowsRows(query, tr, e) then old(describedPortals) + {name} else old(describedPortals)
    {
      hide ShowsRows;
      if ShowsRows(query, tr, e) {
        Send(RowDescription);
        describedPortals := describedPortals + {name};
      } else {
        Send(NoData);
      }
    }

    lemma StatementOf(name: string)
      requires Valid() && name in preparedStatements
      ensures name in ids && ids[name] < |objects| == |values| && objects[ids[name]] == preparedStatements[name]
      ensures values[ids[name]].query == preparedStatements[name].query
      ensures {preparedStatements[name], preparedStatements[name].paramOids} <= Repr
    {
    }

    method ResolveStatement(name: string, e: Env) returns (query: string, sent: seq<nat>)
      requires Valid() && name in preparedStatements
      modifies `values, `Repr, Repr
      ensures Valid() && fresh(Repr - old(Repr))
      ensures name in ids && ids[name] < |old(values)| && query == old(values)[ids[name]].query
      ensures sent == ParamOids.Resolve(query, old(values)[ids[name]].oids, e.inferred)
      ensures values == old(values)[ids[name] := Statement(query, sent)]
    {
      hide ParamOids.Resolve, Separate, Valued, Pointed, Named;
      StatementOf(name);
      var stmt := preparedStatements[name];
      sent := DescribeObject(stmt, ids[name], e);
      query := stmt.query;
    }

    method DescribeKnown(name: string, tr: Translator, e: Env)
      requires Valid() && name in preparedStatements
      modifies this, Repr
      ensures Valid() && fresh(Repr - old(Repr))
      ensures name in old(ids) && old(ids)[name] < |old(values)|
      ensures Matches(old(Now()), DescribeFound(old(Now()), old(ids)[name], name, tr, e), false)
    {
      hide ShowsRows, ParamOids.Resolve, Separate, Valued, Pointed, Named;
      var query, sent := ResolveStatement(name, e);
      Send(ParameterDescription(sent));
      DescribeRows(name, query, tr, e);
      assert out == old(out) + [ParameterDescription(sent), if ShowsRows(query, tr, e) then RowDescription else NoData];
    }

    /** handleDescribe of a statement: its object is updated in place, for every portal that shares it. */
    method HandleDescribe(name: string, tr: Translator, e: Env) returns (failed: bool)
      requires Valid()
      modifies this, Repr
      ensures Valid() && fresh(Repr - old(Repr))
      ensures WellFormed(old(Now()))
      ensures Matches(old(Now()), DescribeStep(old(Now()), name, tr, e), failed)
    {
      PointsRight();
      SameNames();
      hide DescribeFound, Separate, Valued, Pointed, Named, WellFormed;
      if name !in preparedStatements {
        assert out + [] == out;
        return true;
      }
      DescribeKnown(name, tr, e);
      return false;
    }

    lemma SameNames()
      requires Valid()
      ensures ids.Keys == preparedStatements.Keys
    {
    }

    /** handleClose. */
    method HandleCloseStatement(name: string)
      requires Valid()
      modifies this
      ensures Valid() && Repr == old(Repr)
      ensures Matches(old(Now()), CloseStatementStep(old(Now()), name), false)
    {
      preparedStatements := preparedStatements - {name};
      ids := ids - {name};
      Send(CloseComplete);
    }

    method HandleClosePortal(portal: string)
      requires Valid()
      modifies this
      ensures Valid() && Repr == old(Repr)
      ensures Matches(old(Now()), ClosePortalStep(old(Now()), portal), false)
    {
      portals := portals - {portal};
      portalValues := portalValues - {portal};
      Send(CloseComplete);
    }

    /** handleMessage. */
    method HandleMessage(m: ClientMessage, tr: Translator, e: Env) returns (failed: bool)
      requires Valid()
      modifies this, Repr
      ensures Valid() && fresh(Repr - old(Repr))
      ensures WellFormed(old(Now()))
      ensures Matches(old(Now()), Handled(old(Now()), m, tr, e), failed)
    {
      hide QueryStep, ParseStep, BindStep, ExecuteStep, DescribeStep, CloseStatementStep, ClosePortalStep;
      failed := false;
      match m
      case Query(text) => failed := HandleSimpleQuery(text, tr, e);
      case Parse(name, query, oids) => HandleParse(name, query, oids);
      case Bind(_, _, _, _) => failed := HandleBind(m);
      case Execute(portal) => failed := HandleExecute(portal, tr, e);
      case DescribeStatement(name) => failed := HandleDescribe(name, tr, e);
      case DescribePortal(_) => Send(NoData);
      case CloseStatement(name) => HandleCloseStatement(name);
      case ClosePortal(portal) => HandleClosePortal(portal);
      case Sync => Send(ReadyForQuery(Status()));
      case _ => assert out + [] == out;
    }

    /** One turn of the message loop in handleConn. */
    method Turn(m: ClientMessage, tr: Translator, e: Env)
      requires Valid()
      modifies this, Repr
      ensures Valid() && fresh(Repr - old(Repr))
      ensures WellFormed(old(Now()))
      ensures Now() == Next(old(Now()), m, tr, e)
    {
      hide Handled;
      var failed := HandleMessage(m, tr, e);
      ghost var r := Handled(old(Now()), m, tr, e).1;
      if failed {
        Send(ErrorResponse);
        Send(ReadyForQuery(Status()));
        assert old(out) + r.out + [ErrorResponse] + [ReadyForQuery(StatusOf(FlagsNow()))]
            == old(out) + (r.out + [ErrorResponse, ReadyForQuery(StatusOf(FlagsNow()))]);
      } else {
        assert r.out + [] == r.out;
      }
    }

    /** getTransactionStatus. */
    function Status(): (s: Replies.Status)
      reads this
      ensures s == StatusOf(FlagsNow())
    {
      if transactionFailed then Failed else if inTransaction then InTransaction else Idle
    }
  }

  /** handleConn after the startup message: the server's objects follow the state machine. */
  method HandleConn(run: Run, tr: Translator) returns (session: Session)
    ensures fresh(session) && session.Valid() && session.Now() == After(run, tr)
  {
    hide Next, START, After;
    session := new Session();
    Begins(tr);
    for i := 0 to |run|
      invariant session.Valid() && fresh(session) && fresh(session.Repr)
      invariant session.Now() == After(run[..i], tr)
    {
      Continues(run, i, tr);
      session.Turn(run[i].message, tr, run[i].env);
    }
    assert run[..|run|] == run;
  }

  lemma Begins(tr: Translator)
    ensures forall run: Run :: After(run[..0], tr) == START
  {
  }

  lemma Continues(run: Run, i: nat, tr: Translator)
    requires i < |run|
    ensures After(run[..i + 1], tr) == Next(After(run[..i], tr), run[i].message, tr, run[i].env)
  {
    hide Next;
    assert run[..i + 1][..i] == run[..i];
  }

  lemma SelectSucceeds(described: bool, n: nat)
    ensures !SelectReply(described, n).failed
  {
  }
}

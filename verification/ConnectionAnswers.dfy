/**
 * What a client gets for a text (internal/proxy/postgresql/server.go): the answers to simple
 * queries and to portals after any run, told from the words of the query.
 */
module ConnectionAnswers {
  import opened Wrappers
  import opened Texts
  import opened Queries
  import opened QueryTexts
  import opened Replies
  import opened Connection
  import opened ConnectionRuns
  import ParamOids
  import Placeholders

  // ---- Shapes of answers ----

  /** The status a run ends with, told from its messages. */
  function StatusTold(run: Run): Status
  {
    if HasFailed(run) then Failed else if IsOpen(run) then InTransaction else Idle
  }

  const FAILURE: Reply := Reply([], true)

  /** A finished answer to a simple query: the messages, then ReadyForQuery. */
  function Ended(body: seq<ServerMessage>, status: Status): Reply
  {
    Reply(body + [ReadyForQuery(status)], false)
  }

  function Tagged(tag: string, status: Status): Reply
  {
    Ended([CommandComplete(Text(tag))], status)
  }

  /** A statement MySQL is asked to run: its tag, or a failure. */
  function Tried(ok: bool, tag: string, status: Status): Reply
  {
    if ok then Tagged(tag, status) else FAILURE
  }

  /** An answer to a simple query, with ReadyForQuery unless it failed. */
  function Closed(r: Reply, status: Status): Reply
  {
    if r.failed then r else Ended(r.out, status)
  }

  function FixedRow(described: bool): Reply
  {
    Reply((if described then [] else [RowDescription]) + [DataRow, CommandComplete(Select(1))], false)
  }

  // ---- Simple queries ----

  lemma QueryReply(run: Run, query: string, tr: Translator, e: Env)
    ensures var s := After(run, tr); var r := ReplyOf(s, Query(query), tr, e);
      var (flags, body) := SimpleReply(s.flags, query, tr, e);
      && s.flags == Flags(IsOpen(run), HasFailed(run))
      && StatusOf(flags) == StatusTold(run + [Step(Query(query), e)])
      && r == if body.failed || SaysDeallocate(query) then body else Ended(body.out, StatusOf(flags))
  {
    hide After, SimpleReply, IsOpen, HasFailed, Next, Normalize;
    var more := run + [Step(Query(query), e)];
    assert more[..|more| - 1] == run;
    StatusIsHistory(run, tr);
    StatusIsHistory(more, tr);
    LastStep(more, tr);
    QueryFlags(After(run, tr), Query(query), tr, e);
    SliceIs(Normalize(query), "deallocate ");
  }

  /**
   * A transaction command is answered with its own tag when MySQL accepts it, and fails
   * otherwise; BEGIN inside a transaction and COMMIT and ROLLBACK outside one are answered with
   * nothing but ReadyForQuery.
   */
  lemma CommandAnswers(run: Run, query: string, tr: Translator, e: Env)
    ensures var r := ReplyOf(After(run, tr), Query(query), tr, e);
      var status := StatusTold(run + [Step(Query(query), e)]);
      && (SaysBegin(query) ==> r == if IsOpen(run) then Ended([], status) else Tried(e.execOk, "BEGIN", status))
      && (SaysCommit(query) ==> r == if IsOpen(run) then Tried(e.execOk, "COMMIT", status) else Ended([], status))
      && (SaysRollback(query) ==> r == if IsOpen(run) then Tried(e.execOk, "ROLLBACK", status) else Ended([], status))
      && (SaysSavepoint(query) ==> r == Tried(e.execOk, "SAVEPOINT", status))
      && (SaysRelease(query) ==> r == Tried(e.execOk, "RELEASE", status))
  {
    hide After, IsOpen, HasFailed, ReplyOf, StatusTold, Classify, Normalize, SaysLock, PlainReply;
    hide SaysBegin, SaysCommit, SaysRollback, SaysSavepoint, SaysRelease, SaysDeallocate;
    QueryReply(run, query, tr, e);
    CommandsExactly(query);
    SettingsExactly(query);
    DeallocateIsNoCommand(query);
  }

  lemma DeallocateIsNoCommand(query: string)
    ensures SaysDeallocate(query) ==> Classify(query) in {Deallocate, AdvisoryLock}
  {
    hide Classify, Normalize;
    SliceIs(Normalize(query), "deallocate ");
    DeallocateIsLocal(query);
  }

  // ---- Answers by the words of the text ----

  /** The rows of a query: all of them and the tag, or those before reading broke off. */
  function QueryAnswer(result: QueryResult, described: bool): Reply
  {
    match result
    case Refused => FAILURE
    case NoColumns => FAILURE
    case Rows(n, broken) =>
      var sent := (if described then [] else [RowDescription]) + Data(n);
      Reply(if broken then sent else sent + [CommandComplete(Select(n))], broken)
  }

  /** A write answers with its tag; TagsExactly says which. */
  function WriteAnswer(t: string, ok: bool, affected: nat): Reply
  {
    if ok then Reply([CommandComplete(Text(CommandTag(t, affected)))], false) else FAILURE
  }

  /** A text run on MySQL without parameters. */
  function RunAnswer(t: string, described: bool, e: Env): Reply
  {
    if SaysWrite(t) then WriteAnswer(t, e.execOk, e.affected) else QueryAnswer(e.result, described)
  }

  /** With parameters a query MySQL refuses is tried once more as a statement. */
  function BoundAnswer(t: string, described: bool, e: Env): Reply
  {
    if SaysWrite(t) then WriteAnswer(t, e.execOk, e.affected)
    else if e.result.Refused? then WriteAnswer(t, e.retryOk, e.affected)
    else QueryAnswer(e.result, described)
  }

  /** A write with RETURNING: rows without a RowDescription, and one fixed tag. */
  function ReturnedAnswer(bound: bool, e: Env): Reply
  {
    var done := [CommandComplete(Text("INSERT 0 1"))];
    if !e.execOk then FAILURE
    else Reply(if bound && e.returning && e.result.Rows? then Data(e.result.n) + done else done, false)
  }

  /** The catalog's table, its failure, or the text run on MySQL with a RowDescription in any case. */
  function CatalogAnswer(t: string, described: bool, e: Env): Reply
  {
    match e.catalog
    case CatalogFailed => FAILURE
    case PassThrough => RunAnswer(t, false, e)
    case Table(n) => QueryAnswer(Rows(n, false), described)
  }

  /** A translated text, or a failure when the translator gives up. */
  function TranslatedAnswer(t: Option<string>, e: Env): Reply
  {
    if t.None? then FAILURE else RunAnswer(t.value, false, e)
  }

  lemma OnMySQL(t: string, described: bool, e: Env)
    ensures MySQLReply(t, described, e) == RunAnswer(t, described, e)
    ensures ParameterizedReply(t, described, e) == BoundAnswer(t, described, e)
  {
    hide IsWrite, SaysWrite, CommandTag;
    WritesExactly(t);
  }

  lemma WholeTable(described: bool, n: nat)
    ensures SelectReply(described, n) == QueryAnswer(Rows(n, false), described)
  {
  }

  lemma FromCatalog(t: string, described: bool, e: Env)
    ensures CatalogReply(t, described, e) == CatalogAnswer(t, described, e)
  {
    hide MySQLReply, RunAnswer, SelectReply, QueryAnswer, ParameterizedReply, BoundAnswer;
    OnMySQL(t, false, e);
    if e.catalog.Table? { WholeTable(described, e.catalog.n); }
  }

  lemma OneRow(described: bool)
    ensures SelectReply(described, 1) == FixedRow(described)
  {
    assert Data(1) == [DataRow];
  }

  // ---- SHOW ----

  /** The settings that are answered without MySQL. */
  predicate SaysShown(query: string)
  {
    var q := Normalize(Normalize(query));
    || q == "show server_version" || q == "show server_version_num" || q == "show standard_conforming_strings"
    || q == "show timezone" || q == "show datestyle" || q == "show transaction isolation level"
  }

  /** The first character of a text comes from its spaces, or from its middle. */
  lemma FirstOf(a: string, t: string, b: string)
    requires AllSpace(a) && AllSpace(b) && a + t + b != ""
    ensures a != "" || t == "" ==> IsSpace((a + t + b)[0])
    ensures a == "" && t != "" ==> t[0] == (a + t + b)[0]
  {
    hide IsSpace;
    if a != "" {
      assert (a + t + b)[0] == a[0];
    } else if t == "" {
      assert a + t + b == b;
    }
  }

  lemma FirstKept(s: string)
    requires s != "" && !IsSpace(s[0])
    ensures TrimSpace(s) != "" && TrimSpace(s)[0] == s[0]
  {
    hide IsSpace, TrimSpace, AllSpace;
    var a, b := TrimParts(s);
    FirstOf(a, TrimSpace(s), b);
  }

  /** SHOW stays a query however often it is normalised. */
  lemma ShowIsNoWrite(query: string)
    ensures SaysShow(query) ==> !SaysWrite(Normalize(Normalize(query)))
  {
    hide Normalize, IsSpace, TrimSpace;
    var nq := Normalize(query);
    if SaysShow(query) {
      NormalFirst(nq);
      LetterIsNoSpace();
      FirstKept(Normalize(nq));
      NoWriteBegins(Normalize(nq));
    }
  }

  lemma NoWriteBegins(t: string)
    requires TrimSpace(t) != "" && TrimSpace(t)[0] == 's'
    ensures !SaysWrite(t)
  {
    hide TrimSpace, StartsWith;
    WordBegins(t, "INSERT");
    WordBegins(t, "UPDATE");
    WordBegins(t, "DELETE");
    WordBegins(t, "CREATE");
    WordBegins(t, "ALTER");
    WordBegins(t, "DROP");
  }

  lemma WordBegins(t: string, word: string)
    requires word != "" && TrimSpace(t) != ""
    ensures StartsWith(t, word) ==> UpperChar(TrimSpace(t)[0]) == UpperChar(word[0])
  {
    hide TrimSpace, UpperChar;
    if StartsWith(t, word) { assert UpperChar(TrimSpace(t)[0 + 0]) == UpperChar(word[0]); }
  }

  lemma NormalFirst(q: string)
    requires q != "" && q[0] == 's'
    ensures Normalize(q) != "" && Normalize(q)[0] == 's'
  {
    hide IsSpace, TrimSpace, ToLower;
    LetterIsNoSpace();
    var s := if q[|q| - 1] == '\0' then q[..|q| - 1] else q;
    FirstKept(s);
  }

  lemma LetterIsNoSpace()
    ensures !IsSpace('s')
  {
  }

  lemma ShownTexts(query: string)
    ensures IsShown(Normalize(Normalize(query))) <==> SaysShown(query)
  {
    hide Normalize;
  }

  function ShowAnswer(query: string, e: Env): Reply
  {
    if SaysShown(query) then Reply([RowDescription, DataRow, CommandComplete(Text("SHOW 1"))], false)
    else QueryAnswer(e.result, false)
  }

  lemma Shows(query: string, e: Env)
    ensures SaysShow(query) ==> ShowReply(Normalize(Normalize(query)), e) == ShowAnswer(query, e)
  {
    hide Normalize, MySQLReply, SaysWrite, SaysShow, SaysShown, IsShown, QueryAnswer;
    ShowIsNoWrite(query);
    ShownTexts(query);
    OnMySQL(Normalize(Normalize(query)), false, e);
  }

  // ---- Simple queries that leave the transaction alone ----

  /** The answers that depend on the first words alone. */
  lemma WordAnswers(query: string, tr: Translator, e: Env)
    ensures var f := (tag: string) => Reply([CommandComplete(Text(tag))], false);
      var r := if IsTransaction(Classify(query)) then FAILURE else PlainReply(Classify(query), query, tr, e);
      && (SaysNothing(query) ==> r == Reply([EmptyQueryResponse], false))
      && (SaysSchema(query) ==> r == f("CREATE SCHEMA"))
      && (SaysDo(query) ==> r == f("DO"))
      && (SaysLock(query) && !SaysNothing(query) && !SaysSchema(query) && !SaysDo(query) ==> r == FixedRow(false))
      && (SaysSet(query) && !SaysLock(query) ==> r == f("SET"))
      && (SaysDeallocate(query) && !SaysLock(query) ==> r == f("DEALLOCATE"))
      && (SaysShowIsolation(query) ==> r == f("SHOW"))
      && (SaysShow(query) && !SaysShowIsolation(query) && !SaysLock(query) ==> r == ShowAnswer(query, e))
  {
    hide Classify, Normalize, MySQLReply, ShowReply, CatalogReply, SelectReply, FixedRow, ShowAnswer;
    hide SaysNothing, SaysSchema, SaysDo, SaysLock, SaysSet, SaysDeallocate, SaysShowIsolation, SaysShow, SaysIgnored, SaysIsolation;
    SettingsExactly(query);
    OneRow(false);
    Shows(query, e);
  }

  /** The answers of the catalog, of the version, and of MySQL to everything else. */
  lemma OtherAnswers(query: string, tr: Translator, e: Env)
    ensures !SaysCommand(query) ==>
      !IsTransaction(Classify(query)) && PlainReply(Classify(query), query, tr, e) ==
        if SaysCatalog(query) then CatalogAnswer(query, false, e)
        else if SaysVersion(query) then FixedRow(false)
        else TranslatedAnswer(tr(query), e)
  {
    hide Classify, Normalize, MySQLReply, ShowReply, CatalogReply, SelectReply, FixedRow, CatalogAnswer, RunAnswer;
    hide SaysCommand, SaysCatalog, SaysVersion;
    OthersExactly(query);
    OneRow(false);
    FromCatalog(query, false, e);
    if tr(query).Some? { OnMySQL(tr(query).value, false, e); }
  }

  lemma NoCommand(query: string)
    ensures SaysNothing(query) || SaysSchema(query) || SaysDo(query) || SaysSet(query) || SaysShow(query) || SaysLock(query) || SaysDeallocate(query)
      ==> !IsTransaction(Classify(query))
  {
    hide Classify, Normalize, SaysLock, SaysIgnored, SaysShowIsolation, SaysIsolation;
    SettingsExactly(query);
    ExactSettings(query);
  }

  /**
   * What a simple query is answered with after any run, told from its words: each answer is
   * followed by ReadyForQuery unless it failed or the text begins with DEALLOCATE.
   */
  lemma SimpleAnswersByText(run: Run, query: string, tr: Translator, e: Env)
    ensures var r := ReplyOf(After(run, tr), Query(query), tr, e);
      var status := StatusTold(run + [Step(Query(query), e)]);
      && (SaysNothing(query) ==> r == Ended([EmptyQueryResponse], status))
      && (SaysSchema(query) ==> r == Tagged("CREATE SCHEMA", status))
      && (SaysDo(query) ==> r == Tagged("DO", status))
      && (SaysLock(query) && !SaysNothing(query) && !SaysSchema(query) && !SaysDo(query) ==>
            r == if SaysDeallocate(query) then FixedRow(false) else Ended(FixedRow(false).out, status))
      && (SaysSet(query) && !SaysLock(query) ==> r == Tagged("SET", status))
      && (SaysDeallocate(query) && !SaysLock(query) ==> r == Reply([CommandComplete(Text("DEALLOCATE"))], false))
      && (SaysShowIsolation(query) ==> r == Tagged("SHOW", status))
      && (SaysShow(query) && !SaysShowIsolation(query) && !SaysLock(query) ==> r == Closed(ShowAnswer(query, e), status))
      && (!SaysCommand(query) ==> r == Closed(
            if SaysCatalog(query) then CatalogAnswer(query, false, e)
            else if SaysVersion(query) then FixedRow(false)
            else TranslatedAnswer(tr(query), e), status))
  {
    hide After, IsOpen, HasFailed, ReplyOf, StatusTold, Classify, Normalize, PlainReply, TransactionReply, FixedRow, ShowAnswer, CatalogAnswer, TranslatedAnswer;
    hide SaysLock, SaysCatalog, SaysVersion, SaysIgnored;
    QueryReply(run, query, tr, e);
    WordAnswers(query, tr, e);
    OtherAnswers(query, tr, e);
    NoCommand(query);
    FixedSucceeds();
    WordsApart(query);
  }

  lemma FixedSucceeds()
    ensures !FixedRow(false).failed
  {
  }

  /** DEALLOCATE is none of the other first words. */
  lemma WordsApart(query: string)
    ensures SaysDeallocate(query) ==> !SaysNothing(query) && !SaysSchema(query) && !SaysDo(query) && !SaysSet(query) && !SaysShow(query)
    ensures SaysDeallocate(query) ==> SaysCommand(query)
    ensures SaysShowIsolation(query) ==> SaysShow(query)
  {
    hide Normalize, SaysLock;
    var nq := Normalize(query);
    BeginsAt(nq, "deallocate ", 0);
    BeginsAt(nq, "deallocate ", 1);
    BeginsAt(nq, "do", 1);
    BeginsAt(nq, "--", 0);
    BeginsAt(nq, "create schema", 0);
    BeginsAt(nq, "set ", 0);
    BeginsAt(nq, "show ", 0);
    ExactSettings(query);
  }

  // ---- Portals ----

  /** The text is answered with one fixed row. */
  predicate SaysMarker(query: string)
  {
    SaysLock(query) || SaysStartup(query) || SaysSelectVersion(query)
  }

  /** The answer of MySQL to a portal whose text was translated to t. */
  function PortalAnswer(b: Bound, t: string, e: Env): Reply
  {
    if Mentions(b.query, "RETURNING") && SaysWrite(t) then ReturnedAnswer(b.params != [], e)
    else if b.params != [] then BoundAnswer(t, b.described, e)
    else RunAnswer(t, b.described, e)
  }

  lemma ReturningWords(query: string)
    ensures HasReturning(query) <==> Mentions(query, "RETURNING")
  {
    hide Contains, Mentions;
    UpperMentions(query, "RETURNING");
  }

  lemma PortalOnMySQL(b: Bound, t: string, e: Env)
    ensures PortalAnswer(b, t, e) ==
      if HasReturning(b.query) && IsWrite(t) then ReturningReply(b.params != [], e)
      else if b.params != [] then ParameterizedReply(t, b.described, e)
      else MySQLReply(t, b.described, e)
  {
    hide HasReturning, IsWrite, SaysWrite, Mentions, ParameterizedReply, MySQLReply, BoundAnswer, RunAnswer;
    ReturningWords(b.query);
    WritesExactly(t);
    OnMySQL(t, b.described, e);
  }

  /**
   * The answer to a portal by the words of its text: a lock, startup or version marker gives one
   * fixed row; a catalog name without a marker gives the catalog's answer to the text with the
   * parameters put in; every other text gives MySQL's answer to its translation t.
   */
  function AnswerByText(b: Bound, t: Option<string>, e: Env): Reply
  {
    if SaysMarker(b.query) then FixedRow(b.described)
    else if SaysCatalog(b.query) then CatalogAnswer(CatalogText(b), b.described, e)
    else if t.None? then FAILURE
    else PortalAnswer(b, t.value, e)
  }

  lemma PreparedByText(b: Bound, tr: Translator, e: Env)
    ensures PreparedReply(b, tr, e) == AnswerByText(b, tr(b.query), e)
  {
    hide ClassifyPrepared, SaysLock, SaysStartup, SaysSelectVersion, SaysCatalog, CatalogText, CatalogAnswer, CatalogReply;
    hide PortalAnswer, SelectReply, FixedRow, HasReturning, IsWrite, ReturningReply, ParameterizedReply, MySQLReply;
    PreparedExactly(b.query);
    OneRow(b.described);
    FromCatalog(CatalogText(b), b.described, e);
    if tr(b.query).Some? { PortalOnMySQL(b, tr(b.query).value, e); }
  }

  /** What a portal is answered with after any run, told from the words of the text it was bound to. */
  lemma ExecuteAnswersByText(run: Run, portal: string, tr: Translator, e: Env)
    ensures var k := LastBind(run, portal);
      ReplyOf(After(run, tr), Execute(portal), tr, e)
        == if k < 0 then FAILURE else AnswerByText(BoundBy(run, k, tr), tr(BoundBy(run, k, tr).query), e)
  {
    hide After, BoundBy, PreparedReply, LastBind, LastParse, AnswerByText, ReplyOf;
    ExecuteRunsBound(run, portal, tr, e);
    if LastBind(run, portal) >= 0 { PreparedByText(BoundBy(run, LastBind(run, portal), tr), tr, e); }
  }

  lemma BoundReply(run: Run, portal: string, tr: Translator, other: Translator, e: Env) returns (b: Bound)
    requires LastBind(run, portal) >= 0
    ensures b == BoundBy(run, LastBind(run, portal), tr)
    ensures ReplyOf(After(run, tr), Execute(portal), other, e) == PreparedReply(b, other, e)
  {
    hide After, PreparedReply, BoundBy, BoundOf, LastBind, NameRight, DescribedRight;
    NamesAreHistory(run, tr);
    assert PortalRight(After(run, tr), run, portal, tr);
    b := BoundOf(After(run, tr), portal);
  }

  lemma AnswerIgnores(b: Bound, t: Option<string>, u: Option<string>, e: Env, e': Env, catalog: CatalogResult)
    ensures SaysMarker(b.query) ==> AnswerByText(b, u, e') == AnswerByText(b, t, e)
    ensures !SaysMarker(b.query) && SaysCatalog(b.query) ==> AnswerByText(b, u, e) == AnswerByText(b, t, e)
    ensures !SaysMarker(b.query) && !SaysCatalog(b.query) ==> AnswerByText(b, t, e.(catalog := catalog)) == AnswerByText(b, t, e)
  {
    hide SaysMarker, SaysCatalog, CatalogText, CatalogAnswer, FixedRow, SaysWrite, Mentions, Data, CommandTag;
  }

  lemma PreparedIgnores(b: Bound, tr: Translator, other: Translator, e: Env, e': Env, catalog: CatalogResult)
    ensures SaysMarker(b.query) ==> PreparedReply(b, other, e') == PreparedReply(b, tr, e)
    ensures !SaysMarker(b.query) && SaysCatalog(b.query) ==> PreparedReply(b, other, e) == PreparedReply(b, tr, e)
    ensures !SaysMarker(b.query) && !SaysCatalog(b.query) ==> PreparedReply(b, tr, e.(catalog := catalog)) == PreparedReply(b, tr, e)
  {
    hide PreparedReply, SaysMarker, SaysCatalog, AnswerByText;
    PreparedByText(b, tr, e);
    PreparedByText(b, other, e');
    PreparedByText(b, other, e);
    PreparedByText(b, tr, e.(catalog := catalog));
    AnswerIgnores(b, tr(b.query), other(b.query), e, e', catalog);
  }

  /**
   * What the answer to a portal does not depend on: with a marker, neither on the translator nor
   * on what the world answers; with a catalog name and no marker, not on the translator; with
   * neither, not on the catalog.
   */
  lemma ExecuteIgnores(run: Run, portal: string, tr: Translator, other: Translator, e: Env, e': Env, catalog: CatalogResult)
    ensures LastBind(run, portal) >= 0 ==>
      var s, m, query := After(run, tr), Execute(portal), BoundBy(run, LastBind(run, portal), tr).query;
      && (SaysMarker(query) ==> ReplyOf(s, m, other, e') == ReplyOf(s, m, tr, e))
      && (!SaysMarker(query) && SaysCatalog(query) ==> ReplyOf(s, m, other, e) == ReplyOf(s, m, tr, e))
      && (!SaysMarker(query) && !SaysCatalog(query) ==> ReplyOf(s, m, tr, e.(catalog := catalog)) == ReplyOf(s, m, tr, e))
  {
    hide After, BoundBy, PreparedReply, LastBind, LastParse, SaysMarker, SaysCatalog, ReplyOf;
    if LastBind(run, portal) >= 0 {
      var b := BoundReply(run, portal, tr, tr, e);
      var c := BoundReply(run, portal, tr, other, e');
      var d := BoundReply(run, portal, tr, other, e);
      var f := BoundReply(run, portal, tr, tr, e.(catalog := catalog));
      PreparedIgnores(b, tr, other, e, e', catalog);
    }
  }

  // ---- Describe ----

  /** The catalog's type query, whose columns are known without MySQL. */
  predicate SaysTypes(query: string)
  {
    var t := NullParams(Placeholders.Cut(query));
    Mentions(t, "PG_TYPE") && Mentions(t, "TYPTYPE")
  }

  /**
   * Columns are known for the version and startup texts; for a SELECT when it asks for types or
   * is translated and described by MySQL; for another text with RETURNING when MySQL describes
   * the columns named there.
   */
  predicate HasColumns(query: string, tr: Translator, e: Env)
  {
    if SaysSelectVersion(query) || SaysStartup(query) then true
    else if SaysSelect(query) then
      SaysTypes(query) || (tr(NullParams(Placeholders.Cut(query))).Some? && e.describeOk)
    else SaysReturning(query) && e.returning && e.describeOk
  }

  lemma TypeWords(query: string)
    ensures IsTypeDescription(query) <==> SaysTypes(query)
  {
    hide Contains, Mentions, NullParams, Placeholders.Cut;
    var t := NullParams(Placeholders.Cut(query));
    UpperContains(t, "PG_TYPE");
    UpperContains(t, "TYPTYPE");
  }

  lemma ColumnsByText(query: string, tr: Translator, e: Env)
    ensures ShowsRows(query, tr, e) <==> HasColumns(query, tr, e)
  {
    hide ClassifyDescribe, IsTypeDescription, SaysTypes, SaysSelectVersion, SaysStartup, SaysSelect, SaysReturning, NullParams, Placeholders.Cut;
    DescribeExactly(query);
    TypeWords(query);
  }

  /** Describe of a name sends RowDescription or NoData by the words of the text the name refers to. */
  lemma DescribeAnswersByText(run: Run, name: string, tr: Translator, e: Env)
    ensures LastParse(run, name) >= 0 ==>
      var query := run[LastParse(run, name)].message.query;
      var r := ReplyOf(After(run, tr), DescribeStatement(name), tr, e);
      && !r.failed && |r.out| == 2 && r.out[0].ParameterDescription?
      && r.out[1] == if HasColumns(query, tr, e) then RowDescription else NoData
  {
    hide After, LastParse, ShowsRows, HasColumns, ParamOids.Resolve, DescribedRight, PortalRight;
    NamesAreHistory(run, tr);
    assert NameRight(After(run, tr), run, name);
    if LastParse(run, name) >= 0 { ColumnsByText(run[LastParse(run, name)].message.query, tr, e); }
  }
}

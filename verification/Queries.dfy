/**
 * How the PostgreSQL server tells queries apart by their text (internal/proxy/postgresql/server.go,
 * internal/proxy/postgresql/catalog.go): the branches of executeQuery, executePreparedStatement
 * and handleDescribe, in their order.
 */
module Queries {
  import opened Texts
  import Placeholders

  /** normalizeQuery: one trailing zero byte dropped, spaces trimmed, lower case. */
  function Normalize(q: string): string
  {
    ToLower(TrimSpace(if q != "" && q[|q| - 1] == '\0' then q[..|q| - 1] else q))
  }

  // ---- Simple queries ----

  datatype Simple =
    | Empty | CreateSchema | DoBlock | AdvisoryLock
    | Begin | Commit | Rollback | Savepoint | Release | RollbackTo
    | IgnoredSet | Deallocate | Isolation | OtherSet | ShowIsolation | Show
    | Catalog | Version | Translated

  predicate TakesLock(nq: string)
  {
    Contains(nq, "pg_advisory_lock") || Contains(nq, "pg_advisory_unlock")
  }

  /** A slice compared with a literal, at the length the code gives. */
  predicate Slice(q: string, length: nat, literal: string)
  {
    |q| >= length && q[..length] == literal
  }

  /** The cases of the switch in executeQuery; Translated when none applies. */
  function Command(q: string): Simple
  {
    if q == "begin" then Begin
    else if q == "commit" || q == "commit work" || q == "end" then Commit
    else if q == "rollback" || q == "rollback work" then Rollback
    else if Slice(q, 9, "savepoint") then Savepoint
    else if Slice(q, 17, "release savepoint") then Release
    else if Slice(q, 22, "rollback to savepoint") then RollbackTo
    else if q == "set session character set to 'utf8'" || q == "set client_encoding to 'utf8'"
            || Slice(q, 18, "set session_replica") then IgnoredSet
    else if Slice(q, 11, "deallocate ") then Deallocate
    else if Slice(q, 4, "set ") then (if Contains(q, "isolation level") then Isolation else OtherSet)
    else if q == "show transaction isolation level" then ShowIsolation
    else if Slice(q, 5, "show ") then Show
    else Translated
  }

  /** What executeQuery answers before its switch; Translated when it goes on. */
  function Early(nq: string): Simple
  {
    if nq == "" || HasPrefix(nq, "--") then Empty
    else if HasPrefix(nq, "create schema") then CreateSchema
    else if HasPrefix(nq, "do") then DoBlock
    else if TakesLock(nq) then AdvisoryLock
    else Translated
  }

  function Classify(query: string): Simple
  {
    var nq := Normalize(query);
    if Early(nq) != Translated then Early(nq)
    else if Command(nq) != Translated then Command(nq)
    else if IsCatalogQuery(query) then Catalog
    else if nq == "select version()" || (|query| >= 15 && ToLower(query[..14]) == "select version") then Version
    else Translated
  }

  const CATALOG_NAMES: seq<string> :=
    ["PG_CATALOG", "PG_TYPE", "PG_CLASS", "PG_ATTRIBUTE", "PG_NAMESPACE", "PG_INDEX", "PG_PROC",
     "PG_ENUM", "PG_DESCRIPTION", "PG_DATABASE", "PG_CONSTRAINT", "PG_EXTENSION", "PG_AM",
     "PG_SETTINGS", "PG_OPCLASS", "PG_OPERATOR", "PG_SECLABEL", "PG_TRIGGER", "PG_RANGE"]

  predicate IsCatalogQuery(query: string)
  {
    exists i :: 0 <= i < |CATALOG_NAMES| && Contains(ToUpper(query), CATALOG_NAMES[i])
  }

  /** handleSimpleQuery sends no ReadyForQuery after these. */
  predicate IsDeallocate(query: string)
  {
    Slice(Normalize(query), 11, "deallocate ")
  }

  lemma SliceAt(q: string, length: nat, literal: string, i: nat)
    requires i < length == |literal|
    ensures Slice(q, length, literal) ==> |q| >= length && q[i] == literal[i]
  {
  }

  lemma SliceLength(q: string, length: nat, literal: string)
    requires |literal| != length
    ensures !Slice(q, length, literal)
  {
  }

  lemma PrefixAt(q: string, literal: string, i: nat)
    requires i < |literal|
    ensures HasPrefix(q, literal) ==> |q| >= |literal| && q[i] == literal[i]
  {
  }

  lemma DeallocateCommand(q: string)
    requires Slice(q, 11, "deallocate ")
    ensures Command(q) == Deallocate
  {
    hide Slice, Contains;
    SliceAt(q, 11, "deallocate ", 0);
    SliceAt(q, 9, "savepoint", 0);
    SliceAt(q, 17, "release savepoint", 0);
    SliceLength(q, 22, "rollback to savepoint");
    SliceLength(q, 18, "set session_replica");
    assert q[0] == 'd';
  }

  lemma DeallocateEarly(q: string)
    requires Slice(q, 11, "deallocate ")
    ensures Early(q) in {Translated, AdvisoryLock}
  {
    hide TakesLock, HasPrefix, Slice;
    SliceAt(q, 11, "deallocate ", 0);
    SliceAt(q, 11, "deallocate ", 1);
    PrefixAt(q, "--", 0);
    PrefixAt(q, "create schema", 0);
    PrefixAt(q, "do", 1);
  }

  /** DEALLOCATE is acknowledged, unless its text mentions an advisory lock; it never reaches MySQL. */
  lemma DeallocateIsLocal(query: string)
    ensures IsDeallocate(query) ==> Classify(query) in {Deallocate, AdvisoryLock}
  {
    hide Slice, Early, Command, IsCatalogQuery, Normalize;
    if IsDeallocate(query) {
      DeallocateEarly(Normalize(query));
      DeallocateCommand(Normalize(query));
    }
  }

  lemma RollbackToCommand(q: string)
    requires HasPrefix(q, "rollback to savepoint")
    ensures Command(q) !in {Begin, Commit, Rollback, Savepoint, Release}
  {
    hide Slice, Contains, HasPrefix;
    PrefixAt(q, "rollback to savepoint", 0);
    PrefixAt(q, "rollback to savepoint", 1);
    SliceAt(q, 9, "savepoint", 0);
    SliceAt(q, 17, "release savepoint", 1);
    assert |q| >= 21 && |"rollback work"| == 13 && |"commit work"| == 11;
  }

  lemma EarlyIsNoCommand(nq: string)
    ensures Early(nq) in {Translated, Empty, CreateSchema, DoBlock, AdvisoryLock}
  {
  }

  lemma DeadCommands(q: string)
    ensures Command(q) != RollbackTo
    ensures Command(q) == IgnoredSet ==> q == "set session character set to 'utf8'" || q == "set client_encoding to 'utf8'"
  {
    hide Slice, Contains;
    SliceLength(q, 22, "rollback to savepoint");
    SliceLength(q, 18, "set session_replica");
  }

  /**
   * Two cases compare a slice with a literal of another length and are never taken. So ROLLBACK
   * TO SAVEPOINT is not handled as a transaction command at all.
   */
  lemma DeadCases(query: string)
    ensures Classify(query) != RollbackTo
    ensures var nq := Normalize(query);
      Classify(query) == IgnoredSet ==> nq == "set session character set to 'utf8'" || nq == "set client_encoding to 'utf8'"
    ensures HasPrefix(Normalize(query), "rollback to savepoint") ==> Classify(query) !in {Begin, Commit, Rollback, Savepoint, Release}
  {
    hide Early, Command, IsCatalogQuery, Normalize, HasPrefix;
    var nq := Normalize(query);
    EarlyIsNoCommand(nq);
    DeadCommands(nq);
    if HasPrefix(nq, "rollback to savepoint") {
      RollbackToCommand(nq);
    }
  }

  lemma ContainsFits(s: string, p: string)
    requires |s| < |p|
    ensures !Contains(s, p)
  {
  }

  lemma NormalStays(s: string)
    requires Trimmed(s) && s != "" && s[|s| - 1] != '\0'
    requires forall i :: 0 <= i < |s| ==> !('A' <= s[i] <= 'Z')
    ensures Normalize(s) == s
  {
    TrimmedStays(s);
    assert ToLower(s) == s;
  }

  lemma NotEarly(q: string)
    requires 0 < |q| < 13 && q[0] != '-' && (q[0] != 'd' || |q| < 2 || q[1] != 'o')
    ensures Early(q) == Translated
  {
    hide Contains;
    ContainsFits(q, "pg_advisory_lock");
    ContainsFits(q, "pg_advisory_unlock");
    PrefixAt(q, "--", 0);
    PrefixAt(q, "create schema", 0);
    if HasPrefix(q, "do") { PrefixAt(q, "do", 0); PrefixAt(q, "do", 1); }
  }

  lemma SavepointCommand()
    ensures Command("savepoint a") == Savepoint
  {
    hide Contains;
    assert "savepoint a"[..9] == "savepoint";
  }

  /** Texts of the transaction commands. */
  lemma Commands()
    ensures Classify("begin") == Begin && Classify("commit") == Commit && Classify("rollback") == Rollback
    ensures Classify("savepoint a") == Savepoint
  {
    CommandText("begin");
    CommandText("commit");
    CommandText("rollback");
    CommandText("savepoint a");
    SavepointCommand();
    hide Early, Normalize, IsCatalogQuery;
  }

  lemma CommandText(q: string)
    requires q in {"begin", "commit", "rollback", "savepoint a"}
    ensures Normalize(q) == q && Early(q) == Translated
  {
    hide Early, Normalize, ToLower, ToUpper;
    NormalStays(q);
    NotEarly(q);
  }

  // ---- Writes and their tags ----

  predicate IsWrite(query: string)
  {
    var upper := ToUpper(TrimSpace(query));
    || HasPrefix(upper, "INSERT") || HasPrefix(upper, "UPDATE") || HasPrefix(upper, "DELETE")
    || HasPrefix(upper, "CREATE") || HasPrefix(upper, "ALTER") || HasPrefix(upper, "DROP")
  }

  /** getCommandTag. */
  function CommandTag(query: string, affected: nat): string
  {
    var upper := ToUpper(TrimSpace(query));
    if HasPrefix(upper, "INSERT") then "INSERT " + Placeholders.Digits(affected)
    else if HasPrefix(upper, "UPDATE") then "UPDATE " + Placeholders.Digits(affected)
    else if HasPrefix(upper, "DELETE") then "DELETE " + Placeholders.Digits(affected)
    else if HasPrefix(upper, "CREATE") then "CREATE TABLE"
    else if HasPrefix(upper, "ALTER") then "ALTER TABLE"
    else if HasPrefix(upper, "DROP") then "DROP TABLE"
    else "OK"
  }

  // ---- SHOW ----

  /** The settings SHOW answers without MySQL. */
  const SHOWN: set<string> :=
    {"show server_version", "show server_version_num", "show standard_conforming_strings",
     "show timezone", "show datestyle", "show transaction isolation level"}

  // ---- Prepared statements ----

  datatype Prepared = Lock | Startup | VersionText | CatalogQuery | MySQLQuery

  predicate IsStartup(nq: string)
  {
    Contains(nq, "pg_namespace") && Contains(nq, "version()") && Contains(nq, "current_setting")
  }

  predicate IsVersion(nq: string)
  {
    nq == "select version()" || Slice(nq, 14, "select version")
  }

  function ClassifyPrepared(query: string): Prepared
  {
    var nq := Normalize(query);
    if TakesLock(nq) then Lock
    else if IsStartup(nq) then Startup
    else if IsVersion(nq) then VersionText
    else if IsCatalogQuery(query) then CatalogQuery
    else MySQLQuery
  }

  predicate HasReturning(query: string)
  {
    Contains(ToUpper(query), "RETURNING")
  }

  // ---- Describe ----

  datatype Described = FixedRow | SelectRow | ReturningRow | NoRow

  /** How handleDescribe finds the columns of a statement. */
  function ClassifyDescribe(query: string): Described
  {
    var nq := Normalize(query);
    if IsVersion(nq) || IsStartup(nq) then FixedRow
    else if Slice(nq, 6, "select") then SelectRow
    else if HasReturning(query) && (Contains(ToUpper(query), "INSERT INTO") || Contains(ToUpper(query), "UPDATE")) then ReturningRow
    else NoRow
  }

  /** substituteParams: every placeholder becomes NULL. */
  function NullParams(ps: seq<Placeholders.Piece>): string
  {
    if ps == [] then ""
    else (if ps[0].Chr? then [ps[0].c] else "NULL") + NullParams(ps[1..])
  }

  /** The fast path of describeSelectColumns. */
  predicate IsTypeDescription(query: string)
  {
    var upper := ToUpper(NullParams(Placeholders.Cut(query)));
    Contains(upper, "PG_TYPE") && Contains(upper, "TYPTYPE")
  }
}

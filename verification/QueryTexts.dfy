/**
 * What the texts of queries decide (internal/proxy/postgresql/server.go): for every text, the
 * words and prefixes that put it in each class of `Queries`, without the order of its branches.
 */
module QueryTexts {
  import opened Texts
  import opened Queries
  import Placeholders

  // ---- Normalised texts ----

  lemma SpaceStays(c: char, d: char)
    requires (IsSpace(c) || c == '\0') && !IsSpace(d) && d != '\0'
    ensures UpperChar(c) != UpperChar(d)
  {
  }

  /** Normalizing drops one trailing zero byte, then the spaces around the text, then the case of letters. */
  lemma NormalizePads(a: string, w: string, b: string)
    requires AllSpace(a) && Trimmed(w) && AllSpace(b)
    ensures Normalize(a + w + b + "\0") == ToLower(w)
    ensures b != "" || w == "" || w[|w| - 1] != '\0' ==> Normalize(a + w + b) == ToLower(w)
  {
    hide IsSpace, TrimSpace, ToLower, AllSpace;
    var s := a + w + b;
    TrimPads(a, w, b);
    assert (s + "\0")[..|s|] == s;
    SpaceIsNoZero(a);
    SpaceIsNoZero(b);
    if b != "" {
      assert s[|s| - 1] == b[|b| - 1];
    } else if w != "" {
      assert s[|s| - 1] == w[|w| - 1];
    } else {
      assert s == a;
    }
  }

  lemma SpaceIsNoZero(a: string)
    requires AllSpace(a)
    ensures a != "" ==> a[|a| - 1] != '\0'
  {
  }

  /** Every text is a trimmed middle between spaces, with or without one more zero byte. */
  lemma NormalParts(q: string) returns (a: string, w: string, b: string, z: string)
    ensures q == a + w + b + z && AllSpace(a) && Trimmed(w) && AllSpace(b) && (z == "" || z == "\0")
    ensures Normalize(q) == ToLower(w)
  {
    hide IsSpace, TrimSpace, ToLower, AllSpace, Trimmed;
    z := if q != "" && q[|q| - 1] == '\0' then "\0" else "";
    var s := q[..|q| - |z|];
    assert q == s + z;
    if z == "" { assert s == q; }
    a, b := TrimParts(s);
    w := TrimSpace(s);
  }

  predicate Lower(p: string)
  {
    p != "" && (forall k :: 0 <= k < |p| ==> LowerChar(p[k]) == p[k])
  }

  predicate NoPadding(c: char)
  {
    !IsSpace(c) && c != '\0'
  }

  /** A word is in the normalised text exactly when the raw text mentions it in any case. */
  lemma NormalMentions(q: string, p: string)
    requires Lower(p) && NoPadding(p[0]) && NoPadding(p[|p| - 1])
    ensures Contains(Normalize(q), p) <==> Mentions(q, p)
  {
    hide IsSpace, Normalize, Mentions, Contains, UpperChar;
    var a, w, b, z := NormalParts(q);
    LowerContains(w, p);
    forall i | 0 <= i < |a|
      ensures UpperChar(a[i]) != UpperChar(p[0])
    {
      SpaceStays(a[i], p[0]);
    }
    forall i | 0 <= i < |b + z|
      ensures UpperChar((b + z)[i]) != UpperChar(p[|p| - 1])
    {
      if i < |b| { assert IsSpace(b[i]); }
      SpaceStays((b + z)[i], p[|p| - 1]);
    }
    PaddedMentions(a, w, b + z, p);
    assert a + w + (b + z) == q;
  }

  /** A word longer than the text is not in it. */
  lemma NoRoom(s: string, p: string)
    requires |s| < |p|
    ensures !Contains(s, p)
  {
  }

  /** A text that contains a word has each of its letters. */
  lemma HasLetter(s: string, p: string, k: nat)
    requires k < |p|
    ensures Contains(s, p) ==> p[k] in s
  {
    if Contains(s, p) {
      var i := Index(s, p);
      assert s[i..i + |p|][k] == s[i + k];
    }
  }

  lemma BeginsAt(q: string, literal: string, i: nat)
    requires i < |literal|
    ensures literal <= q ==> |q| >= |literal| && q[i] == literal[i]
  {
  }

  lemma SliceIs(q: string, literal: string)
    ensures Slice(q, |literal|, literal) <==> literal <= q
  {
  }

  lemma PrefixIs(q: string, literal: string)
    ensures HasPrefix(q, literal) <==> literal <= q
  {
  }

  // ---- Words ----

  /** The text mentions an advisory lock. */
  predicate SaysLock(query: string)
  {
    Mentions(query, "pg_advisory_lock") || Mentions(query, "pg_advisory_unlock")
  }

  lemma LockWords(query: string)
    ensures TakesLock(Normalize(query)) <==> SaysLock(query)
  {
    hide Contains, Mentions, Normalize;
    NormalMentions(query, "pg_advisory_lock");
    NormalMentions(query, "pg_advisory_unlock");
  }

  // ---- Simple queries ----

  predicate SaysBegin(query: string)
  {
    Normalize(query) == "begin"
  }

  predicate SaysCommit(query: string)
  {
    var nq := Normalize(query);
    nq == "commit" || nq == "commit work" || nq == "end"
  }

  predicate SaysRollback(query: string)
  {
    var nq := Normalize(query);
    nq == "rollback" || nq == "rollback work"
  }

  /** A savepoint is told by its first word alone, unless the text mentions an advisory lock. */
  predicate SaysSavepoint(query: string)
  {
    "savepoint" <= Normalize(query) && !SaysLock(query)
  }

  predicate SaysRelease(query: string)
  {
    "release savepoint" <= Normalize(query) && !SaysLock(query)
  }

  /** Answered by the first word alone: an empty text, a comment, CREATE SCHEMA, or anything that begins with "do". */
  predicate SaysNothing(query: string)
  {
    Normalize(query) == "" || "--" <= Normalize(query)
  }

  predicate SaysSchema(query: string)
  {
    "create schema" <= Normalize(query)
  }

  predicate SaysDo(query: string)
  {
    "do" <= Normalize(query)
  }

  predicate SaysDeallocate(query: string)
  {
    "deallocate " <= Normalize(query)
  }

  predicate SaysSet(query: string)
  {
    "set " <= Normalize(query)
  }

  predicate SaysShow(query: string)
  {
    "show " <= Normalize(query)
  }

  lemma TooShort(nq: string)
    ensures |nq| < 16 ==> !TakesLock(nq)
  {
    hide Contains;
    if |nq| < 16 {
      NoRoom(nq, "pg_advisory_lock");
      NoRoom(nq, "pg_advisory_unlock");
    }
  }

  /** What a text that begins with this letter is not. */
  lemma EarlyByLetter(nq: string)
    requires nq != "" && nq[0] != '-' && nq[0] != 'c' && nq[0] != 'd'
    ensures Early(nq) == if TakesLock(nq) then AdvisoryLock else Translated
  {
    hide TakesLock, HasPrefix;
    PrefixAt(nq, "--", 0);
    PrefixAt(nq, "create schema", 0);
    PrefixAt(nq, "do", 0);
  }

  lemma EarlyOfCommit(nq: string)
    requires nq == "commit" || nq == "commit work"
    ensures Early(nq) == Translated
  {
    hide TakesLock, HasPrefix;
    TooShort(nq);
    PrefixAt(nq, "--", 0);
    PrefixAt(nq, "create schema", 1);
    PrefixAt(nq, "do", 0);
  }

  lemma TransactionCommands(q: string)
    ensures Command(q) == Begin <==> q == "begin"
    ensures Command(q) == Commit <==> q == "commit" || q == "commit work" || q == "end"
    ensures Command(q) == Rollback <==> q == "rollback" || q == "rollback work"
  {
    hide Slice, Contains;
    assert "rollback"[0] == 'r' && "rollback work"[0] == 'r' && "commit"[0] == 'c' && "commit work"[0] == 'c' && "end"[0] == 'e';
  }

  lemma SavepointCommands(q: string)
    ensures Command(q) == Savepoint <==> "savepoint" <= q
    ensures Command(q) == Release <==> "release savepoint" <= q
  {
    hide Slice, Contains;
    SliceIs(q, "savepoint");
    SliceIs(q, "release savepoint");
    BeginsAt(q, "savepoint", 0);
    BeginsAt(q, "release savepoint", 0);
    BeginsAt(q, "release savepoint", 1);
    assert "rollback"[1] == 'o' && "rollback work"[1] == 'o' && "commit"[0] == 'c' && "commit work"[0] == 'c' && "end"[0] == 'e';
  }

  /** A transaction command that is not answered earlier. */
  lemma TransactionEarly(query: string)
    ensures var nq := Normalize(query);
      && (SaysBegin(query) || SaysCommit(query) || SaysRollback(query) ==> Early(nq) == Translated)
      && ("savepoint" <= nq || "release savepoint" <= nq ==> Early(nq) == if SaysLock(query) then AdvisoryLock else Translated)
  {
    hide Early, Normalize, TakesLock, SaysLock;
    var nq := Normalize(query);
    LockWords(query);
    TooShort(nq);
    BeginsAt(nq, "savepoint", 0);
    BeginsAt(nq, "release savepoint", 0);
    assert "rollback"[0] == 'r' && "rollback work"[0] == 'r' && "begin"[0] == 'b' && "end"[0] == 'e';
    if nq == "commit" || nq == "commit work" {
      EarlyOfCommit(nq);
    } else if nq != "" && nq[0] != '-' && nq[0] != 'c' && nq[0] != 'd' {
      EarlyByLetter(nq);
    }
  }

  /** Which texts are transaction commands: each of the five classes, and no text is RollbackTo. */
  lemma CommandsExactly(query: string)
    ensures Classify(query) == Begin <==> SaysBegin(query)
    ensures Classify(query) == Commit <==> SaysCommit(query)
    ensures Classify(query) == Rollback <==> SaysRollback(query)
    ensures Classify(query) == Savepoint <==> SaysSavepoint(query)
    ensures Classify(query) == Release <==> SaysRelease(query)
    ensures Classify(query) != RollbackTo
  {
    hide Early, Command, Normalize, SaysLock, IsCatalogQuery;
    var nq := Normalize(query);
    EarlyIsNoCommand(nq);
    TransactionCommands(nq);
    SavepointCommands(nq);
    TransactionEarly(query);
    DeadCases(query);
  }

  /** What is answered before the commands. */
  lemma EarlyExactly(query: string)
    ensures var early := Early(Normalize(query));
      && (early == Empty <==> SaysNothing(query))
      && (early == CreateSchema <==> SaysSchema(query))
      && (early == DoBlock <==> SaysDo(query))
      && (early == AdvisoryLock <==> SaysLock(query) && !SaysNothing(query) && !SaysSchema(query) && !SaysDo(query))
  {
    hide TakesLock, HasPrefix, Normalize, SaysLock;
    var nq := Normalize(query);
    LockWords(query);
    PrefixIs(nq, "--");
    PrefixIs(nq, "create schema");
    PrefixIs(nq, "do");
    BeginsAt(nq, "--", 0);
    BeginsAt(nq, "create schema", 0);
    BeginsAt(nq, "do", 0);
  }

  /** The two settings that are acknowledged without MySQL. */
  predicate SaysIgnored(query: string)
  {
    var nq := Normalize(query);
    nq == "set session character set to 'utf8'" || nq == "set client_encoding to 'utf8'"
  }

  predicate SaysShowIsolation(query: string)
  {
    Normalize(query) == "show transaction isolation level"
  }

  predicate SaysIsolation(query: string)
  {
    Mentions(query, "isolation level")
  }

  lemma SetCommands(q: string)
    ensures Command(q) == IgnoredSet <==> q == "set session character set to 'utf8'" || q == "set client_encoding to 'utf8'"
    ensures Command(q) == Deallocate <==> "deallocate " <= q
  {
    hide Slice, Contains, HasPrefix;
    SliceIs(q, "deallocate ");
    DeadCommands(q);
    if "deallocate " <= q { DeallocateCommand(q); }
    SliceLength(q, 18, "set session_replica");
    SliceAt(q, 9, "savepoint", 1);
    SliceAt(q, 17, "release savepoint", 0);
    SliceLength(q, 22, "rollback to savepoint");
    assert "set session character set to 'utf8'"[1] == 'e' && "set client_encoding to 'utf8'"[1] == 'e';
    assert "set session character set to 'utf8'"[0] == 's' && "set client_encoding to 'utf8'"[0] == 's';
  }

  /** The second letter tells SET, SHOW and SAVEPOINT apart. */
  lemma SecondLetter(q: string)
    requires |q| >= 4 && q[0] == 's' && (q[1] == 'e' || q[1] == 'h')
    ensures Command(q) == IgnoredSet || Command(q) ==
      if Slice(q, 4, "set ") then (if Contains(q, "isolation level") then Isolation else OtherSet)
      else if q == "show transaction isolation level" then ShowIsolation
      else if Slice(q, 5, "show ") then Show
      else Translated
  {
    hide Slice, Contains;
    SliceAt(q, 9, "savepoint", 1);
    SliceAt(q, 17, "release savepoint", 0);
    SliceLength(q, 22, "rollback to savepoint");
    SliceLength(q, 18, "set session_replica");
    SliceAt(q, 11, "deallocate ", 0);
    assert "rollback"[0] == 'r' && "rollback work"[0] == 'r' && "begin"[0] == 'b' && "end"[0] == 'e';
    assert "commit"[0] == 'c' && "commit work"[0] == 'c';
  }

  lemma LastCommands(q: string)
    ensures Command(q) in {Isolation, OtherSet} ==> Slice(q, 4, "set ")
    ensures Command(q) == Show ==> Slice(q, 5, "show ")
    ensures Command(q) == ShowIsolation ==> q == "show transaction isolation level"
  {
    hide Slice, Contains;
  }

  lemma ShowIsolationShows(q: string)
    requires q == "show transaction isolation level"
    ensures "show " <= q
  {
  }

  lemma SetShowCommands(q: string)
    ensures var ignored := Command(q) == IgnoredSet;
      && (Command(q) == Isolation <==> "set " <= q && !ignored && Contains(q, "isolation level"))
      && (Command(q) == OtherSet <==> "set " <= q && !ignored && !Contains(q, "isolation level"))
      && (Command(q) == ShowIsolation <==> q == "show transaction isolation level")
      && (Command(q) == Show <==> "show " <= q && q != "show transaction isolation level")
  {
    hide Slice, Contains, HasPrefix, Command;
    SliceIs(q, "set ");
    SliceIs(q, "show ");
    LastCommands(q);
    DeadCommands(q);
    BeginsAt(q, "set ", 0);
    BeginsAt(q, "set ", 1);
    BeginsAt(q, "show ", 0);
    BeginsAt(q, "show ", 1);
    assert "set session character set to 'utf8'"[1] == 'e' && "set client_encoding to 'utf8'"[1] == 'e';
    if q == "show transaction isolation level" { ShowIsolationShows(q); }
    if "set " <= q || "show " <= q { SecondLetter(q); }
  }

  /** A setting, SHOW or DEALLOCATE that is answered by its own case unless the text mentions an advisory lock. */
  lemma SettingEarly(query: string)
    ensures var nq := Normalize(query);
      "set " <= nq || "show " <= nq ==> Early(nq) == if SaysLock(query) then AdvisoryLock else Translated
  {
    hide Early, Normalize, TakesLock, SaysLock;
    var nq := Normalize(query);
    LockWords(query);
    BeginsAt(nq, "set ", 0);
    BeginsAt(nq, "show ", 0);
    if "set " <= nq || "show " <= nq { EarlyByLetter(nq); }
  }

  lemma DeallocateIsEarly(query: string)
    ensures SaysDeallocate(query) ==> Early(Normalize(query)) == if SaysLock(query) then AdvisoryLock else Translated
  {
    hide TakesLock, Normalize, SaysLock, HasPrefix;
    var nq := Normalize(query);
    LockWords(query);
    BeginsAt(nq, "deallocate ", 0);
    BeginsAt(nq, "deallocate ", 1);
    PrefixAt(nq, "--", 0);
    PrefixAt(nq, "create schema", 0);
    PrefixAt(nq, "do", 1);
  }

  /** A text without one of the letters of both lock names mentions no lock. */
  lemma NoLockLetter(q: string, k: nat)
    requires k < 12 && "pg_advisory_"[k] !in q
    ensures !TakesLock(q)
  {
    hide Contains;
    HasLetter(q, "pg_advisory_lock", k);
    HasLetter(q, "pg_advisory_unlock", k);
  }

  lemma CharacterSetTakesNoLock(q: string)
    requires q == "set session character set to 'utf8'"
    ensures !TakesLock(q) && "set " <= q
  {
    hide TakesLock;
    NoLockLetter(q, 5);
  }

  lemma EncodingTakesNoLock(q: string)
    requires q == "set client_encoding to 'utf8'"
    ensures !TakesLock(q) && "set " <= q
  {
    hide TakesLock;
    NoLockLetter(q, 5);
  }

  lemma IsolationTakesNoLock(q: string)
    requires q == "show transaction isolation level"
    ensures !TakesLock(q) && "show " <= q
  {
    hide TakesLock;
    NoLockLetter(q, 2);
  }

  /** The exact texts of SET and SHOW mention no lock. */
  lemma SettingsTakeNoLock(q: string)
    requires q == "set session character set to 'utf8'" || q == "set client_encoding to 'utf8'" || q == "show transaction isolation level"
    ensures !TakesLock(q) && ("set " <= q || "show " <= q)
  {
    hide TakesLock;
    if q == "set session character set to 'utf8'" {
      CharacterSetTakesNoLock(q);
    } else if q == "set client_encoding to 'utf8'" {
      EncodingTakesNoLock(q);
    } else {
      IsolationTakesNoLock(q);
    }
  }

  /** Which texts are answered by their first words: each of the remaining classes above the catalog. */
  lemma SettingsExactly(query: string)
    ensures Classify(query) == Empty <==> SaysNothing(query)
    ensures Classify(query) == CreateSchema <==> SaysSchema(query)
    ensures Classify(query) == DoBlock <==> SaysDo(query)
    ensures Classify(query) == AdvisoryLock <==> SaysLock(query) && !SaysNothing(query) && !SaysSchema(query) && !SaysDo(query)
    ensures Classify(query) == Deallocate <==> SaysDeallocate(query) && !SaysLock(query)
    ensures Classify(query) == IgnoredSet <==> SaysIgnored(query)
    ensures Classify(query) == Isolation <==> SaysSet(query) && !SaysIgnored(query) && !SaysLock(query) && SaysIsolation(query)
    ensures Classify(query) == OtherSet <==> SaysSet(query) && !SaysIgnored(query) && !SaysLock(query) && !SaysIsolation(query)
    ensures Classify(query) == ShowIsolation <==> SaysShowIsolation(query)
    ensures Classify(query) == Show <==> SaysShow(query) && !SaysShowIsolation(query) && !SaysLock(query)
  {
    hide Early, Command, Normalize, SaysLock, IsCatalogQuery, TakesLock, SaysIsolation, Contains;
    var nq := Normalize(query);
    EarlyIsNoCommand(nq);
    EarlyExactly(query);
    CommandIsNotEarly(nq);
    SetCommands(nq);
    SetShowCommands(nq);
    SettingEarly(query);
    DeallocateIsEarly(query);
    LockWords(query);
    IsolationWords(query);
    if SaysIgnored(query) || SaysShowIsolation(query) { SettingsTakeNoLock(nq); }
  }

  lemma CommandIsNotEarly(nq: string)
    ensures Command(nq) !in {Empty, CreateSchema, DoBlock, AdvisoryLock, Catalog, Version}
  {
    hide Slice, Contains;
  }

  lemma IsolationWords(query: string)
    ensures Contains(Normalize(query), "isolation level") <==> SaysIsolation(query)
  {
    hide Contains, Mentions, Normalize;
    NormalMentions(query, "isolation level");
  }

  // ---- Catalog, version and startup words ----

  /** The text mentions pg_catalog or one of the catalog tables. */
  predicate SaysCatalog(query: string)
  {
    || Mentions(query, "PG_CATALOG") || Mentions(query, "PG_TYPE") || Mentions(query, "PG_CLASS")
    || Mentions(query, "PG_ATTRIBUTE") || Mentions(query, "PG_NAMESPACE") || Mentions(query, "PG_INDEX")
    || Mentions(query, "PG_PROC") || Mentions(query, "PG_ENUM") || Mentions(query, "PG_DESCRIPTION")
    || Mentions(query, "PG_DATABASE") || Mentions(query, "PG_CONSTRAINT") || Mentions(query, "PG_EXTENSION")
    || Mentions(query, "PG_AM") || Mentions(query, "PG_SETTINGS") || Mentions(query, "PG_OPCLASS")
    || Mentions(query, "PG_OPERATOR") || Mentions(query, "PG_SECLABEL") || Mentions(query, "PG_TRIGGER")
    || Mentions(query, "PG_RANGE")
  }

  /** A text that begins with SELECT VERSION, in any case; the code looks at the raw text or at the whole normalised one. */
  predicate SaysVersion(query: string)
  {
    Normalize(query) == "select version()" || (|query| >= 15 && MentionedAt(query, "select version", 0))
  }

  predicate Upper(p: string)
  {
    forall k :: 0 <= k < |p| ==> UpperChar(p[k]) == p[k]
  }

  lemma NamesUpper(i: nat)
    requires i < |CATALOG_NAMES|
    ensures Upper(CATALOG_NAMES[i])
  {
  }

  lemma CatalogWord(query: string, i: nat)
    requires i < |CATALOG_NAMES|
    ensures Contains(ToUpper(query), CATALOG_NAMES[i]) <==> Mentions(query, CATALOG_NAMES[i])
  {
    hide Contains, Mentions;
    NamesUpper(i);
    UpperContains(query, CATALOG_NAMES[i]);
  }

  lemma MentionedNames(query: string)
    ensures SaysCatalog(query) <==> exists i :: 0 <= i < |CATALOG_NAMES| && Mentions(query, CATALOG_NAMES[i])
  {
    hide Mentions;
    var names := CATALOG_NAMES;
    assert names[0] == "PG_CATALOG";
    assert names[1] == "PG_TYPE";
    assert names[2] == "PG_CLASS";
    assert names[3] == "PG_ATTRIBUTE";
    assert names[4] == "PG_NAMESPACE";
    assert names[5] == "PG_INDEX";
    assert names[6] == "PG_PROC";
    assert names[7] == "PG_ENUM";
    assert names[8] == "PG_DESCRIPTION";
    assert names[9] == "PG_DATABASE";
    assert names[10] == "PG_CONSTRAINT";
    assert names[11] == "PG_EXTENSION";
    assert names[12] == "PG_AM";
    assert names[13] == "PG_SETTINGS";
    assert names[14] == "PG_OPCLASS";
    assert names[15] == "PG_OPERATOR";
    assert names[16] == "PG_SECLABEL";
    assert names[17] == "PG_TRIGGER";
    assert names[18] == "PG_RANGE";
  }

  lemma CatalogWords(query: string)
    ensures IsCatalogQuery(query) <==> SaysCatalog(query)
  {
    hide Contains, Mentions, SaysCatalog;
    MentionedNames(query);
    forall i | 0 <= i < |CATALOG_NAMES|
      ensures Contains(ToUpper(query), CATALOG_NAMES[i]) <==> Mentions(query, CATALOG_NAMES[i])
    {
      CatalogWord(query, i);
    }
  }

  lemma VersionWord(query: string)
    ensures |query| >= 14 ==> (ToLower(query[..14]) == "select version" <==> MentionedAt(query, "select version", 0))
  {
    if |query| >= 14 {
      LowerMentionedAt(query, "select version", 0);
      assert ToLower(query)[0..14] == ToLower(query[..14]);
    }
  }

  /** The text is one of those that the switch or the tests before it answer. */
  predicate SaysCommand(query: string)
  {
    || SaysNothing(query) || SaysSchema(query) || SaysDo(query) || SaysLock(query)
    || SaysBegin(query) || SaysCommit(query) || SaysRollback(query)
    || "savepoint" <= Normalize(query) || "release savepoint" <= Normalize(query)
    || SaysDeallocate(query) || SaysSet(query) || SaysShow(query)
  }

  lemma ExactSettings(query: string)
    ensures SaysIgnored(query) ==> SaysSet(query)
    ensures SaysShowIsolation(query) ==> SaysShow(query)
  {
    hide Normalize;
  }

  /** Every other text goes to the catalog, is answered with the version, or is translated for MySQL. */
  lemma OthersExactly(query: string)
    ensures SaysCommand(query) ==> Classify(query) !in {Catalog, Version, Translated}
    ensures !SaysCommand(query) ==>
      Classify(query) == if SaysCatalog(query) then Catalog else if SaysVersion(query) then Version else Translated
  {
    hide Early, Command, Normalize, IsCatalogQuery, SaysCatalog, SaysLock, MentionedAt;
    CommandsExactly(query);
    SettingsExactly(query);
    ExactSettings(query);
    LastClasses(query);
  }

  lemma LastClasses(query: string)
    ensures Classify(query) in {Catalog, Version, Translated} ==>
      Classify(query) == if SaysCatalog(query) then Catalog else if SaysVersion(query) then Version else Translated
  {
    hide Early, Command, Normalize, IsCatalogQuery, SaysCatalog, MentionedAt, ToLower;
    EarlyIsNoCommand(Normalize(query));
    CommandIsNotEarly(Normalize(query));
    CatalogWords(query);
    VersionWord(query);
  }

  // ---- Prepared statements ----

  /** The text begins with SELECT VERSION, spaces and case aside. */
  predicate SaysSelectVersion(query: string)
  {
    "select version" <= Normalize(query)
  }

  /** The three words of the query a migration engine starts with. */
  predicate SaysStartup(query: string)
  {
    Mentions(query, "pg_namespace") && Mentions(query, "version()") && Mentions(query, "current_setting")
  }

  lemma StartupWords(query: string)
    ensures IsStartup(Normalize(query)) <==> SaysStartup(query)
  {
    hide Contains, Mentions, Normalize;
    NormalMentions(query, "pg_namespace");
    NormalMentions(query, "version()");
    NormalMentions(query, "current_setting");
  }

  lemma SelectVersionWords(query: string)
    ensures IsVersion(Normalize(query)) <==> SaysSelectVersion(query)
  {
    hide Normalize, Slice;
    SliceIs(Normalize(query), "select version");
    assert "select version" <= "select version()";
  }

  /** Where a portal goes: one marker is enough for a fixed row, a catalog word for the catalog, the rest is MySQL's. */
  lemma PreparedExactly(query: string)
    ensures ClassifyPrepared(query) == Lock <==> SaysLock(query)
    ensures ClassifyPrepared(query) == Startup <==> !SaysLock(query) && SaysStartup(query)
    ensures ClassifyPrepared(query) == VersionText <==> !SaysLock(query) && !SaysStartup(query) && SaysSelectVersion(query)
    ensures ClassifyPrepared(query) == CatalogQuery <==>
      !SaysLock(query) && !SaysStartup(query) && !SaysSelectVersion(query) && SaysCatalog(query)
    ensures ClassifyPrepared(query) == MySQLQuery <==>
      !SaysLock(query) && !SaysStartup(query) && !SaysSelectVersion(query) && !SaysCatalog(query)
  {
    hide TakesLock, IsStartup, IsVersion, IsCatalogQuery, SaysLock, SaysStartup, SaysSelectVersion, SaysCatalog, Normalize;
    LockWords(query);
    StartupWords(query);
    SelectVersionWords(query);
    CatalogWords(query);
  }

  // ---- Describe ----

  lemma UpperMentions(query: string, word: string)
    requires word in {"RETURNING", "INSERT INTO", "UPDATE"}
    ensures Contains(ToUpper(query), word) <==> Mentions(query, word)
  {
    hide Contains, Mentions;
    UpperContains(query, word);
  }

  /** A statement that begins with SELECT. */
  predicate SaysSelect(query: string)
  {
    "select" <= Normalize(query)
  }

  /** An INSERT or UPDATE with RETURNING, wherever the words stand. */
  predicate SaysReturning(query: string)
  {
    Mentions(query, "RETURNING") && (Mentions(query, "INSERT INTO") || Mentions(query, "UPDATE"))
  }

  /** What Describe looks at. */
  lemma DescribeExactly(query: string)
    ensures ClassifyDescribe(query) == FixedRow <==> SaysSelectVersion(query) || SaysStartup(query)
    ensures ClassifyDescribe(query) == SelectRow <==> SaysSelect(query) && !SaysSelectVersion(query) && !SaysStartup(query)
    ensures ClassifyDescribe(query) == ReturningRow <==> SaysReturning(query) && !SaysSelect(query) && !SaysSelectVersion(query) && !SaysStartup(query)
    ensures ClassifyDescribe(query) == NoRow <==> !SaysReturning(query) && !SaysSelect(query) && !SaysSelectVersion(query) && !SaysStartup(query)
  {
    hide IsStartup, IsVersion, SaysStartup, SaysSelectVersion, Normalize, Slice, Contains, Mentions;
    StartupWords(query);
    SelectVersionWords(query);
    SliceIs(Normalize(query), "select");
    UpperMentions(query, "RETURNING");
    UpperMentions(query, "INSERT INTO");
    UpperMentions(query, "UPDATE");
  }

  // ---- Writes and their tags ----

  /** The first word of a query, leading spaces aside, in any case. */
  predicate StartsWith(query: string, word: string)
  {
    MentionedAt(TrimSpace(query), word, 0)
  }

  lemma FirstWord(query: string, word: string)
    requires Upper(word)
    ensures HasPrefix(ToUpper(TrimSpace(query)), word) <==> StartsWith(query, word)
  {
    hide TrimSpace;
    var s := TrimSpace(query);
    UpperMentionedAt(s, word, 0);
    if |word| <= |s| { assert ToUpper(s)[0..|word|] == ToUpper(s)[..|word|]; }
  }

  /** The statements that are executed rather than queried: the first word decides. */
  predicate SaysWrite(query: string)
  {
    || StartsWith(query, "INSERT") || StartsWith(query, "UPDATE") || StartsWith(query, "DELETE")
    || StartsWith(query, "CREATE") || StartsWith(query, "ALTER") || StartsWith(query, "DROP")
  }

  /** The six first words, in the upper-case text. */
  lemma FirstWords(query: string)
    ensures var upper := ToUpper(TrimSpace(query));
      && (HasPrefix(upper, "INSERT") <==> StartsWith(query, "INSERT"))
      && (HasPrefix(upper, "UPDATE") <==> StartsWith(query, "UPDATE"))
      && (HasPrefix(upper, "DELETE") <==> StartsWith(query, "DELETE"))
      && (HasPrefix(upper, "CREATE") <==> StartsWith(query, "CREATE"))
      && (HasPrefix(upper, "ALTER") <==> StartsWith(query, "ALTER"))
      && (HasPrefix(upper, "DROP") <==> StartsWith(query, "DROP"))
  {
    hide TrimSpace, HasPrefix, StartsWith;
    FirstWord(query, "INSERT");
    FirstWord(query, "UPDATE");
    FirstWord(query, "DELETE");
    FirstWord(query, "CREATE");
    FirstWord(query, "ALTER");
    FirstWord(query, "DROP");
  }

  lemma WritesExactly(query: string)
    ensures IsWrite(query) <==> SaysWrite(query)
  {
    hide TrimSpace, HasPrefix, StartsWith;
    FirstWords(query);
  }

  /** The word, a blank, and the decimal text of the number. */
  predicate Counted(tag: string, word: string, n: nat)
  {
    var d := |word| + 1;
    word + " " <= tag && |tag| > d && Placeholders.AllDigits(tag[d..]) && Placeholders.Value(tag[d..]) == n
  }

  lemma CountedTag(word: string, n: nat)
    ensures Counted(word + " " + Placeholders.Digits(n), word, n)
  {
    hide Placeholders.Digits, Placeholders.Value;
    Placeholders.ValueOfDigits(n);
    var tag := word + " " + Placeholders.Digits(n);
    assert tag[|word| + 1..] == Placeholders.Digits(n);
  }

  /** The first letters of two prefixes agree when both begin a text. */
  lemma OneFirstWord(upper: string)
    ensures HasPrefix(upper, "INSERT") || HasPrefix(upper, "UPDATE") ==> !HasPrefix(upper, "DELETE")
    ensures HasPrefix(upper, "INSERT") ==> !HasPrefix(upper, "UPDATE")
    ensures HasPrefix(upper, "INSERT") || HasPrefix(upper, "UPDATE") || HasPrefix(upper, "DELETE") ==>
      !HasPrefix(upper, "CREATE") && !HasPrefix(upper, "ALTER") && !HasPrefix(upper, "DROP")
    ensures HasPrefix(upper, "CREATE") ==> !HasPrefix(upper, "ALTER") && !HasPrefix(upper, "DROP")
    ensures HasPrefix(upper, "ALTER") ==> !HasPrefix(upper, "DROP")
  {
    hide HasPrefix;
    PrefixAt(upper, "INSERT", 0);
    PrefixAt(upper, "UPDATE", 0);
    PrefixAt(upper, "DELETE", 0);
    PrefixAt(upper, "DELETE", 1);
    PrefixAt(upper, "CREATE", 0);
    PrefixAt(upper, "ALTER", 0);
    PrefixAt(upper, "DROP", 0);
    PrefixAt(upper, "DROP", 1);
  }

  /** The tag names the statement's first word; INSERT, UPDATE and DELETE carry the number of rows. */
  lemma TagsExactly(query: string, affected: nat)
    ensures var tag := CommandTag(query, affected);
      && (StartsWith(query, "INSERT") ==> Counted(tag, "INSERT", affected))
      && (StartsWith(query, "UPDATE") ==> Counted(tag, "UPDATE", affected))
      && (StartsWith(query, "DELETE") ==> Counted(tag, "DELETE", affected))
      && (StartsWith(query, "CREATE") ==> tag == "CREATE TABLE")
      && (StartsWith(query, "ALTER") ==> tag == "ALTER TABLE")
      && (StartsWith(query, "DROP") ==> tag == "DROP TABLE")
      && (!SaysWrite(query) ==> tag == "OK")
  {
    hide TrimSpace, HasPrefix, StartsWith, Counted, Placeholders.Digits;
    FirstWords(query);
    OneFirstWord(ToUpper(TrimSpace(query)));
    CountedTag("INSERT", affected);
    CountedTag("UPDATE", affected);
    CountedTag("DELETE", affected);
    assert "INSERT" + " " == "INSERT " && "UPDATE" + " " == "UPDATE " && "DELETE" + " " == "DELETE ";
  }

  // ---- Placeholders before a query is described ----

  predicate NoDollar(s: string)
  {
    '$' !in s
  }

  lemma PlainCut(c: char, s: string)
    requires c != '$'
    ensures Placeholders.Cut([c] + s) == [Placeholders.Chr(c)] + Placeholders.Cut(s)
  {
    assert ([c] + s)[1..] == s;
  }

  lemma NullStep(p: Placeholders.Piece, ps: seq<Placeholders.Piece>)
    ensures NullParams([p] + ps) == (if p.Chr? then [p.c] else "NULL") + NullParams(ps)
  {
    assert ([p] + ps)[1..] == ps;
  }

  /** What describe sends to MySQL, up to the first dollar sign: the text itself. */
  lemma {:induction false} PlainStays(plain: string, rest: string)
    requires NoDollar(plain)
    ensures NullParams(Placeholders.Cut(plain + rest)) == plain + NullParams(Placeholders.Cut(rest))
  {
    hide NullParams, Placeholders.Cut;
    if plain == "" {
      assert plain + rest == rest && "" + NullParams(Placeholders.Cut(rest)) == NullParams(Placeholders.Cut(rest));
    } else {
      PlainStays(plain[1..], rest);
      PlainCut(plain[0], plain[1..] + rest);
      NullStep(Placeholders.Chr(plain[0]), Placeholders.Cut(plain[1..] + rest));
      assert plain + rest == [plain[0]] + (plain[1..] + rest);
      var out := NullParams(Placeholders.Cut(rest));
      assert [plain[0]] + (plain[1..] + out) == plain + out;
    }
  }

  lemma RunIs(digits: string, rest: string)
    requires Placeholders.AllDigits(digits) && (rest == "" || !IsDigit(rest[0]))
    ensures Placeholders.DigitRun(digits + rest) == |digits|
  {
    if digits == "" {
      assert digits + rest == rest;
    } else {
      RunIs(digits[1..], rest);
      assert (digits + rest)[1..] == digits[1..] + rest;
    }
  }

  lemma DollarCut(digits: string, rest: string)
    requires Placeholders.AllDigits(digits) && (rest == "" || !IsDigit(rest[0]))
    ensures Placeholders.Cut("$" + digits + rest) ==
      [if digits == "" then Placeholders.Chr('$') else Placeholders.Param(Placeholders.Value(digits))] + Placeholders.Cut(rest)
  {
    hide Placeholders.DigitRun, Placeholders.Value;
    var s := "$" + digits + rest;
    RunIs(digits, rest);
    assert s[1..] == digits + rest && s[|digits| + 1..] == rest && s[1..][..|digits|] == digits;
  }

  /** A dollar sign with digits becomes NULL, whatever the number; a dollar sign without stays. */
  lemma DollarBecomesNull(digits: string, rest: string)
    requires Placeholders.AllDigits(digits) && (rest == "" || !IsDigit(rest[0]))
    ensures NullParams(Placeholders.Cut("$" + digits + rest)) ==
      (if digits == "" then "$" else "NULL") + NullParams(Placeholders.Cut(rest))
  {
    hide NullParams, Placeholders.Cut, Placeholders.Value;
    DollarCut(digits, rest);
    NullStep(if digits == "" then Placeholders.Chr('$') else Placeholders.Param(Placeholders.Value(digits)), Placeholders.Cut(rest));
  }

  /** The number of parameters counted, up to the first dollar sign and across a placeholder. */
  lemma {:induction false} PlainCountsNone(plain: string, rest: string)
    requires NoDollar(plain)
    ensures Placeholders.HighestParam(Placeholders.Cut(plain + rest)) == Placeholders.HighestParam(Placeholders.Cut(rest))
  {
    hide Placeholders.Cut;
    if plain == "" {
      assert plain + rest == rest;
    } else {
      PlainCountsNone(plain[1..], rest);
      PlainCut(plain[0], plain[1..] + rest);
      assert plain + rest == [plain[0]] + (plain[1..] + rest);
    }
  }

  lemma PlaceholderCounts(digits: string, rest: string)
    requires digits != "" && Placeholders.AllDigits(digits) && (rest == "" || !IsDigit(rest[0]))
    ensures var n := Placeholders.HighestParam(Placeholders.Cut(rest)); var k := Placeholders.Value(digits);
      Placeholders.HighestParam(Placeholders.Cut("$" + digits + rest)) == if k > n then k else n
  {
    hide Placeholders.Cut, Placeholders.Value;
    DollarCut(digits, rest);
  }
}

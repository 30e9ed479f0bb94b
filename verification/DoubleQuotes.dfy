/**
 * translateDoubleQuotes (internal/proxy/postgresql/translator.go): double-quoted identifiers
 * become backtick-quoted ones, string literals stay as they are, the schema public is dropped.
 */
module DoubleQuotes {
  import opened Texts

  /** A literal keeps its quotes; an identifier is its name; anything else is a character. */
  datatype Token = Literal(text: string) | Ident(name: string) | Other(c: char)

  // ---- Lexing ----

  /**
   * The length of a literal after its opening quote, closing quote included. Doubled quotes and
   * backslash pairs do not close it; an unclosed literal reaches the end.
   */
  function LiteralLength(s: string): (n: nat)
    ensures n <= |s|
    ensures n < |s| ==> s[n] != '\''
    decreases |s|
  {
    if s == "" then 0
    else if s[0] == '\'' then
      if |s| > 1 && s[1] == '\'' then 2 + LiteralLength(s[2..]) else 1
    else if s[0] == '\\' && |s| > 1 then 2 + LiteralLength(s[2..])
    else 1 + LiteralLength(s[1..])
  }

  /** The position of the closing double quote, or the end. */
  function QuoteIndex(s: string): (n: nat)
    ensures n <= |s|
    ensures n < |s| ==> s[n] == '"'
  {
    if s == "" || s[0] == '"' then 0 else 1 + QuoteIndex(s[1..])
  }

  /** The first token as the rewriting loop sees it, and how many characters it takes. */
  function FirstToken(s: string): (r: (Token, nat))
    requires s != ""
    ensures 1 <= r.1 <= |s|
  {
    if s[0] == '\'' then
      var n := 1 + LiteralLength(s[1..]);
      (Literal(s[..n]), n)
    else if s[0] == '"' then
      var n := 1 + QuoteIndex(s[1..]);
      (Ident(s[1..n]), if n < |s| then n + 1 else n)
    else (Other(s[0]), 1)
  }

  function Lex(s: string): seq<Token>
    decreases |s|
  {
    if s == "" then [] else [FirstToken(s).0] + Lex(s[FirstToken(s).1..])
  }

  /** A MySQL quoted name after its opening quote: a doubled quote is one quote of the name. */
  function QuotedName(s: string, q: char): (r: (string, nat))
    ensures r.1 <= |s|
    decreases |s|
  {
    if s == "" then ("", 0)
    else if s[0] == q then
      if |s| > 1 && s[1] == q then
        var (name, n) := QuotedName(s[2..], q);
        ([q] + name, n + 2)
      else ("", 1)
    else
      var (name, n) := QuotedName(s[1..], q);
      ([s[0]] + name, n + 1)
  }

  /** MySQL's first token: backticks quote names, and so do double quotes under ANSI_QUOTES. */
  function FirstMySQLToken(s: string): (r: (Token, nat))
    requires s != ""
    ensures 1 <= r.1 <= |s|
  {
    if s[0] == '\'' then
      var n := 1 + LiteralLength(s[1..]);
      (Literal(s[..n]), n)
    else if s[0] == '`' || s[0] == '"' then
      var (name, n) := QuotedName(s[1..], s[0]);
      (Ident(name), n + 1)
    else (Other(s[0]), 1)
  }

  function LexMySQL(s: string): seq<Token>
    decreases |s|
  {
    if s == "" then [] else [FirstMySQLToken(s).0] + LexMySQL(s[FirstMySQLToken(s).1..])
  }

  // ---- Rewriting ----

  /** strings.Trim with the cutset of one backtick. */
  function TrimBackticks(s: string): string
    decreases |s|
  {
    if s != "" && s[0] == '`' then TrimBackticks(s[1..])
    else if s != "" && s[|s| - 1] == '`' then TrimBackticks(s[..|s| - 1])
    else s
  }

  /** The position after the last dot, or 0. */
  function AfterLastDot(s: string): (i: nat)
    ensures i <= |s|
    ensures i > 0 ==> s[i - 1] == '.'
    ensures forall k :: i <= k < |s| ==> s[k] != '.'
  {
    if s == "" then 0 else if s[|s| - 1] == '.' then |s| else AfterLastDot(s[..|s| - 1])
  }

  /** Drops a leading public. from a quoted name. */
  function StripPublic(name: string): string
  {
    var i := AfterLastDot(name);
    if i > 0 && TrimBackticks(name[..i - 1]) == "public" then name[i..] else name
  }

  function RenderToken(t: Token): string
  {
    match t
    case Literal(text) => text
    case Ident(name) => "`" + name + "`"
    case Other(c) => [c]
  }

  function Render(ts: seq<Token>): string
  {
    if ts == [] then "" else RenderToken(ts[0]) + Render(ts[1..])
  }

  function Retag(t: Token): Token
  {
    if t.Ident? then Ident(StripPublic(t.name)) else t
  }

  function Retagged(ts: seq<Token>): (out: seq<Token>)
    ensures |out| == |ts|
  {
    if ts == [] then [] else [Retag(ts[0])] + Retagged(ts[1..])
  }

  /** Lex, re-tag, render. */
  function Rewritten(s: string): string
  {
    Render(Retagged(Lex(s)))
  }

  const PUBLIC_PREFIX: string := "`public`."

  lemma RewrittenStep(s: string)
    requires s != ""
    ensures Rewritten(s) == RenderToken(Retag(FirstToken(s).0)) + Rewritten(s[FirstToken(s).1..])
  {
    var t, rest := FirstToken(s).0, Lex(s[FirstToken(s).1..]);
    assert Lex(s) == [t] + rest;
    assert ([t] + rest)[1..] == rest;
    assert Retagged([t] + rest) == [Retag(t)] + Retagged(rest);
    assert ([Retag(t)] + Retagged(rest))[1..] == Retagged(rest);
  }

  lemma LiteralStep(s: string)
    requires s != ""
    ensures LiteralLength(s) ==
      if s[0] == '\'' then (if |s| > 1 && s[1] == '\'' then 2 + LiteralLength(s[2..]) else 1)
      else if s[0] == '\\' && |s| > 1 then 2 + LiteralLength(s[2..])
      else 1 + LiteralLength(s[1..])
  {
  }

  /** What the inner loop does next at position i of a literal that began at start. */
  lemma CopyStep(sql: string, i: nat)
    requires i < |sql|
    ensures var n := LiteralLength(sql[i..]);
      if sql[i] == '\'' then
        if i + 1 < |sql| && sql[i + 1] == '\'' then n == 2 + LiteralLength(sql[i + 2..]) else n == 1
      else if sql[i] == '\\' && i + 1 < |sql| then n == 2 + LiteralLength(sql[i + 2..])
      else n == 1 + LiteralLength(sql[i + 1..])
  {
    hide LiteralLength;
    var rest := sql[i..];
    LiteralStep(rest);
    assert rest[1..] == sql[i + 1..];
    if i + 1 < |sql| { assert rest[2..] == sql[i + 2..]; }
  }

  /** The inner loop over a literal: copies from just after the opening quote. */
  method CopyLiteral(sql: string, start: nat, buf: string) returns (out: string, i: nat)
    requires start <= |sql|
    ensures i == start + LiteralLength(sql[start..]) && i <= |sql|
    ensures out == buf + sql[start..i]
  {
    hide LiteralLength;
    i := start;
    out := buf;
    while i < |sql|
      invariant start <= i <= |sql|
      invariant out == buf + sql[start..i]
      invariant i + LiteralLength(sql[i..]) == start + LiteralLength(sql[start..])
    {
      CopyStep(sql, i);
      if sql[i] == '\'' {
        out := out + ['\''];
        i := i + 1;
        if i < |sql| && sql[i] == '\'' {
          out := out + ['\''];
          i := i + 1;
          continue;
        }
        return;
      }
      if sql[i] == '\\' && i + 1 < |sql| {
        out := out + [sql[i]];
        i := i + 1;
        out := out + [sql[i]];
        i := i + 1;
        continue;
      }
      out := out + [sql[i]];
      i := i + 1;
    }
    assert sql[i..] == "";
  }

  method FindQuote(sql: string, start: nat) returns (i: nat)
    requires start <= |sql|
    ensures i == start + QuoteIndex(sql[start..]) && i <= |sql|
  {
    i := start;
    while i < |sql| && sql[i] != '"'
      invariant start <= i <= |sql|
      invariant i + QuoteIndex(sql[i..]) == start + QuoteIndex(sql[start..])
    {
      assert sql[i..][1..] == sql[i + 1..];
      i := i + 1;
    }
  }

  /** A step of the rewriting over the first token of sql[i..]. */
  lemma StepAt(sql: string, i: nat, buf: string, t: Token, j: nat)
    requires i < j <= |sql| && FirstToken(sql[i..]) == (t, j - i)
    ensures buf + Rewritten(sql[i..]) == (buf + RenderToken(Retag(t))) + Rewritten(sql[j..])
  {
    hide Rewritten, FirstToken, RenderToken;
    RewrittenStep(sql[i..]);
    assert sql[i..][j - i..] == sql[j..];
  }

  lemma LiteralAt(sql: string, i: nat, j: nat)
    requires i < |sql| && sql[i] == '\'' && j == i + 1 + LiteralLength(sql[i + 1..])
    ensures j <= |sql| && FirstToken(sql[i..]) == (Literal(sql[i..j]), j - i)
  {
    hide LiteralLength;
    assert sql[i..][1..] == sql[i + 1..];
    assert sql[i..][..j - i] == sql[i..j];
  }

  lemma IdentAt(sql: string, i: nat, end: nat, j: nat)
    requires i < |sql| && sql[i] == '"' && end == i + 1 + QuoteIndex(sql[i + 1..])
    requires j == if end < |sql| then end + 1 else end
    ensures end <= |sql| && FirstToken(sql[i..]) == (Ident(sql[i + 1..end]), j - i)
  {
    hide QuoteIndex;
    assert sql[i..][1..] == sql[i + 1..];
    assert sql[i..][1..end - i] == sql[i + 1..end];
  }

  /** The rewriting loop, before the last strip of `public`. from the text. */
  method RewriteQuotes(sql: string) returns (result: string)
    ensures result == Rewritten(sql)
  {
    hide LiteralLength, QuoteIndex, StripPublic, Rewritten, FirstToken;
    var buf := "";
    var i := 0;
    assert buf + Rewritten(sql) == Rewritten(sql) && sql[0..] == sql;
    while i < |sql|
      invariant 0 <= i <= |sql|
      invariant buf + Rewritten(sql[i..]) == Rewritten(sql)
    {
      ghost var open, before := i, buf;
      var ch := sql[i];
      if ch == '\'' {
        buf := buf + [ch];
        i := i + 1;
        buf, i := CopyLiteral(sql, i, buf);
        LiteralAt(sql, open, i);
        StepAt(sql, open, before, Literal(sql[open..i]), i);
        assert buf == before + sql[open..i];
        continue;
      }
      if ch == '"' {
        i := i + 1;
        var start := i;
        i := FindQuote(sql, i);
        ghost var end := i;
        var ident := sql[start..i];
        if i < |sql| {
          i := i + 1;
        }
        IdentAt(sql, open, end, i);
        StepAt(sql, open, before, Ident(ident), i);
        ident := StripPublic(ident);
        buf := buf + ['`'];
        buf := buf + ident;
        buf := buf + ['`'];
        assert buf == before + RenderToken(Ident(ident));
        continue;
      }
      CharacterAt(sql, i);
      StepAt(sql, i, buf, Other(ch), i + 1);
      buf := buf + [ch];
      i := i + 1;
    }
    NothingRewritten();
    assert sql[i..] == "";
    result := buf;
    assert buf + "" == buf;
  }

  lemma CharacterAt(sql: string, i: nat)
    requires i < |sql| && sql[i] != '\'' && sql[i] != '"'
    ensures FirstToken(sql[i..]) == (Other(sql[i]), 1)
  {
  }

  lemma NothingRewritten()
    ensures Rewritten("") == ""
  {
  }

  method TranslateDoubleQuotes(sql: string) returns (result: string)
    ensures result == ReplaceAll(Rewritten(sql), PUBLIC_PREFIX, "")
  {
    var buf := RewriteQuotes(sql);
    result := ReplaceAll(buf, PUBLIC_PREFIX, "");
  }

  // ---- The rewritten text under MySQL's lexical rules ----

  predicate BacktickFree(s: string)
  {
    forall i :: 0 <= i < |s| ==> s[i] != '`'
  }

  /** No backtick outside string literals. */
  predicate NoBackticks(ts: seq<Token>)
  {
    forall i :: 0 <= i < |ts| ==>
      (ts[i].Ident? ==> BacktickFree(ts[i].name)) && (ts[i].Other? ==> ts[i].c != '`')
  }

  predicate NoAdjacentIdents(ts: seq<Token>)
  {
    forall i :: 0 <= i < |ts| - 1 ==> !(ts[i].Ident? && ts[i + 1].Ident?)
  }

  /** A literal is lexed the same whatever replaces the text after it, short of another quote. */
  lemma {:induction false} LiteralStable(s: string, after: string)
    requires LiteralLength(s) == |s| ==> after == ""
    requires after != "" ==> after[0] != '\''
    ensures LiteralLength(s[..LiteralLength(s)] + after) == LiteralLength(s)
    decreases |s|
  {
    hide LiteralLength;
    var n := LiteralLength(s);
    var t := s[..n] + after;
    if s == "" {
      assert t == s;
    } else {
      LiteralStep(s);
      LiteralStep(t);
      var skip := if (s[0] == '\'' || s[0] == '\\') && |s| > 1 && (s[0] == '\\' || s[1] == '\'') then 2 else 1;
      if s[0] == '\'' && skip == 1 {
        assert t[1..] == after;
      } else {
        LiteralStable(s[skip..], after);
        assert t[skip..] == s[skip..][..n - skip] + after;
      }
    }
  }

  /** A name without backticks is read back, and reading goes on past it exactly before another backtick. */
  lemma {:induction false} NameRead(name: string, after: string)
    requires BacktickFree(name)
    ensures var r := QuotedName(name + "`" + after, '`');
      if after != "" && after[0] == '`' then |r.0| > |name| else r == (name, |name| + 1)
    decreases |name|
  {
    var t := name + "`" + after;
    if name == "" {
      assert t[1..] == after;
    } else {
      NameRead(name[1..], after);
      assert t[1..] == name[1..] + "`" + after;
      assert [name[0]] + name[1..] == name;
    }
  }

  lemma StripKeepsBacktickFree(name: string)
    requires BacktickFree(name)
    ensures BacktickFree(StripPublic(name))
  {
  }

  /** How a rewritten text begins. */
  lemma RewrittenHead(s: string)
    ensures s == "" ==> Rewritten(s) == ""
    ensures s != "" ==> Rewritten(s) != "" && Rewritten(s)[0] == if s[0] == '"' then '`' else s[0]
  {
    hide Rewritten, LiteralLength, QuoteIndex, StripPublic;
    if s == "" {
      NothingRewritten();
    } else {
      RewrittenStep(s);
    }
  }

  lemma LexStep(s: string)
    requires s != ""
    ensures Lex(s)[0] == FirstToken(s).0
    ensures Lex(s)[1..] == Lex(s[FirstToken(s).1..])
    ensures Retagged(Lex(s)) == [Retag(FirstToken(s).0)] + Retagged(Lex(s[FirstToken(s).1..]))
  {
  }

  lemma LiteralRead(s: string, after: string)
    requires s != "" && s[0] == '\''
    requires FirstToken(s).1 == |s| ==> after == ""
    requires after != "" ==> after[0] != '\''
    ensures var (t, n) := FirstToken(s);
      t == Literal(s[..n]) && FirstMySQLToken(s[..n] + after) == (t, n)
  {
    hide LiteralLength;
    LiteralStable(s[1..], after);
    var n := FirstToken(s).1;
    assert (s[..n] + after)[1..] == s[1..][..n - 1] + after;
    assert (s[..n] + after)[..n] == s[..n];
  }

  lemma IdentRead(name: string, after: string)
    requires BacktickFree(name)
    ensures var next := FirstMySQLToken("`" + name + "`" + after);
      if after != "" && after[0] == '`' then next.0 != Ident(name) else next == (Ident(name), |name| + 2)
  {
    hide QuotedName;
    NameRead(name, after);
    assert ("`" + name + "`" + after)[1..] == name + "`" + after;
  }

  /** One token: MySQL reads back its re-tagged form, or runs past the end of an identifier. */
  lemma TokenRead(s: string)
    requires s != "" && NoBackticks(Lex(s))
    ensures var (t, n) := FirstToken(s);
      var out := RenderToken(Retag(t));
      var next := FirstMySQLToken(Rewritten(s));
      && Rewritten(s) == out + Rewritten(s[n..])
      && if t.Ident? && s[n..] != "" && s[n] == '"' then next.0 != Retag(t)
         else next == (Retag(t), |out|)
  {
    hide LiteralLength, QuoteIndex, StripPublic, Rewritten, QuotedName, Lex;
    LexStep(s);
    RewrittenStep(s);
    var (t, n) := FirstToken(s);
    var after := Rewritten(s[n..]);
    RewrittenHead(s[n..]);
    match t
    case Other(c) =>
      hide FirstToken;
      assert ([c] + after)[0] == c;
      assert Lex(s)[0] == Other(c);
    case Literal(text) =>
      hide FirstMySQLToken;
      LiteralRead(s, after);
    case Ident(name) =>
      hide FirstMySQLToken, FirstToken;
      assert Lex(s)[0] == Ident(name);
      StripKeepsBacktickFree(name);
      IdentRead(StripPublic(name), after);
      if s[n..] != "" { NextNotBacktick(s, n); }
  }

  lemma NextNotBacktick(s: string, n: nat)
    requires s != "" && NoBackticks(Lex(s)) && n == FirstToken(s).1 && s[n..] != ""
    ensures s[n] != '`'
  {
    hide LiteralLength, QuoteIndex;
    LexStep(s);
    LexStep(s[n..]);
    assert Lex(s)[1] == FirstToken(s[n..]).0;
  }

  lemma AdjacencyStep(s: string)
    requires s != ""
    ensures var (t, n) := FirstToken(s);
      NoAdjacentIdents(Lex(s)) <==> !(t.Ident? && s[n..] != "" && s[n] == '"') && NoAdjacentIdents(Lex(s[n..]))
  {
    hide LiteralLength, QuoteIndex;
    var (t, n) := FirstToken(s);
    var ts, rest := Lex(s), Lex(s[n..]);
    LexStep(s);
    assert ts == [t] + rest;
    if s[n..] != "" {
      LexStep(s[n..]);
      assert ts[1] == FirstToken(s[n..]).0;
    }
    if NoAdjacentIdents(ts) {
      forall i | 0 <= i < |rest| - 1
        ensures !(rest[i].Ident? && rest[i + 1].Ident?)
      {
        assert ts[i + 1] == rest[i] && ts[i + 1 + 1] == rest[i + 1];
      }
    }
  }

  /**
   * With no backtick outside literals, MySQL reads the rewritten text as the same tokens, every
   * double-quoted name re-tagged and every literal verbatim, exactly when no two quoted names
   * are adjacent: `a``b` is a single name to MySQL.
   */
  lemma {:induction false} RelexesExactly(s: string)
    requires NoBackticks(Lex(s))
    ensures LexMySQL(Rewritten(s)) == Retagged(Lex(s)) <==> NoAdjacentIdents(Lex(s))
    decreases |s|
  {
    hide FirstToken, FirstMySQLToken, Rewritten, Lex, NoAdjacentIdents, Retagged, RenderToken;
    if s == "" {
      NothingToLex();
    } else {
      var (t, n) := FirstToken(s);
      LexStep(s);
      TokenRead(s);
      AdjacencyStep(s);
      var out := Rewritten(s);
      var next := FirstMySQLToken(out);
      RenderNonempty(s);
      var rest := LexMySQL(out[next.1..]);
      assert LexMySQL(out) == [next.0] + rest;
      var rest' := Retagged(Lex(s[n..]));
      assert ([next.0] + rest)[0] == next.0 && ([Retag(t)] + rest')[0] == Retag(t);
      if next.0 == Retag(t) {
        assert out[next.1..] == Rewritten(s[n..]);
        assert ([next.0] + rest)[1..] == rest && ([Retag(t)] + rest')[1..] == rest';
        assert NoBackticks(Lex(s)[1..]);
        RelexesExactly(s[n..]);
      }
    }
  }

  lemma NothingToLex()
    ensures LexMySQL(Rewritten("")) == Retagged(Lex("")) && NoAdjacentIdents(Lex(""))
  {
  }

  lemma RenderNonempty(s: string)
    requires s != ""
    ensures Rewritten(s) != ""
  {
    RewrittenHead(s);
  }

  /** Closing an unclosed name is the only way to grow, and happens at most once. */
  lemma {:induction false} LengthBound(s: string)
    ensures |Rewritten(s)| <= |s| + 1
    decreases |s|
  {
    hide Rewritten, LiteralLength, QuoteIndex;
    if s == "" {
      NothingRewritten();
    } else {
      var (t, n) := FirstToken(s);
      RewrittenStep(s);
      if s[n..] == "" {
        NothingRewritten();
      } else {
        LengthBound(s[n..]);
      }
    }
  }

  // ---- The last strip ----

  /** Drops every name public that is followed by a dot, together with the dot. */
  function DropPublic(ts: seq<Token>): seq<Token>
    decreases |ts|
  {
    if ts == [] then []
    else if |ts| > 1 && ts[0] == Ident("public") && ts[1] == Other('.') then DropPublic(ts[2..])
    else [ts[0]] + DropPublic(ts[1..])
  }

  /** The six characters public, then a quoted name that begins with a dot. */
  predicate SpellsPublic(ts: seq<Token>)
  {
    && |ts| > 6 && (forall k :: 0 <= k < 6 ==> ts[k] == Other("public"[k]))
    && ts[6].Ident? && ts[6].name != "" && ts[6].name[0] == '.'
  }

  /** The first token holds no prefix of its own: none in a literal, none begun by a name's closing backtick. */
  predicate HeadClean(ts: seq<Token>)
    requires ts != []
  {
    match ts[0]
    case Literal(text) => !Contains(text, PUBLIC_PREFIX)
    case Ident(_) => !SpellsPublic(ts[1..])
    case Other(_) => true
  }

  /** No literal contains the prefix, and no quoted name is followed by public and a name beginning with a dot. */
  predicate Clean(ts: seq<Token>)
  {
    forall i :: 0 <= i < |ts| ==> HeadClean(ts[i..])
  }

  lemma CleanStep(ts: seq<Token>)
    requires ts != []
    ensures Clean(ts) <==> HeadClean(ts) && Clean(ts[1..])
  {
    hide HeadClean;
    assert ts[0..] == ts;
    forall i | 0 < i <= |ts|
      ensures ts[i..] == ts[1..][i - 1..]
    {
    }
    if HeadClean(ts) && Clean(ts[1..]) {
      forall i | 0 <= i < |ts|
        ensures HeadClean(ts[i..])
      {
        if i > 0 { assert HeadClean(ts[1..][i - 1..]); }
      }
    }
    if Clean(ts) {
      forall i | 0 <= i < |ts[1..]|
        ensures HeadClean(ts[1..][i..])
      {
        assert HeadClean(ts[i + 1..]);
      }
    }
  }

  /** What the lexer yields: literals begin with a quote, and all but the last end with one. */
  predicate Lexed(ts: seq<Token>)
  {
    && NoBackticks(ts)
    && forall i :: 0 <= i < |ts| && ts[i].Literal? ==> Quoted(ts[i].text, i + 1 == |ts|)
  }

  predicate Quoted(text: string, last: bool)
  {
    text != "" && text[0] == '\'' && (last || text[|text| - 1] == '\'')
  }

  lemma LexedTail(ts: seq<Token>)
    requires ts != [] && Lexed(ts)
    ensures Lexed(ts[1..])
  {
    forall i | 0 <= i < |ts| - 1 && ts[1..][i].Literal?
      ensures Quoted(ts[1..][i].text, i + 1 == |ts| - 1)
    {
      assert ts[i + 1] == ts[1..][i];
    }
  }

  lemma RenderIs(ts: seq<Token>)
    requires ts != []
    ensures Render(ts) == RenderToken(ts[0]) + Render(ts[1..])
  {
  }

  lemma NothingRendered()
    ensures Render([]) == ""
  {
  }

  /** How a rendering begins. */
  lemma RenderHead(ts: seq<Token>)
    requires Lexed(ts) && ts != []
    ensures var r := Render(ts);
      match ts[0]
      case Literal(_) => r != "" && r[0] == '\''
      case Ident(name) => |r| >= 2 && r[0] == '`' && r[1] == (if name == "" then '`' else name[0])
      case Other(c) => r == [c] + Render(ts[1..]) && c != '`'
  {
    hide Render;
    RenderIs(ts);
  }

  lemma PrefixIs()
    ensures PUBLIC_PREFIX == "`" + ("public" + "`.") && |PUBLIC_PREFIX| == 9
    ensures BacktickFree("public") && '\'' !in PUBLIC_PREFIX
  {
  }

  lemma {:induction false} ReplacePasses(s: string, rest: string)
    requires BacktickFree(s)
    ensures ReplaceAll(s + rest, PUBLIC_PREFIX, "") == s + ReplaceAll(rest, PUBLIC_PREFIX, "")
    decreases |s|
  {
    hide ReplaceAll;
    if s == "" {
      assert s + rest == rest;
      assert s + ReplaceAll(rest, PUBLIC_PREFIX, "") == ReplaceAll(rest, PUBLIC_PREFIX, "");
    } else {
      ReplacePasses(s[1..], rest);
      ReplaceSkips(s[0], s[1..] + rest, PUBLIC_PREFIX, "");
      assert s + rest == [s[0]] + (s[1..] + rest);
      assert s + ReplaceAll(rest, PUBLIC_PREFIX, "") == [s[0]] + (s[1..] + ReplaceAll(rest, PUBLIC_PREFIX, ""));
    }
  }

  // ---- Clean texts ----

  /** Rendered tokens that spell plain characters, a backtick and a dot are those characters and a dotted name. */
  lemma {:induction false} Spelled(ts: seq<Token>, w: string)
    requires Lexed(ts) && BacktickFree(w) && forall k :: 0 <= k < |w| ==> w[k] != '\''
    requires w + "`." <= Render(ts)
    ensures |ts| > |w| && forall k :: 0 <= k < |w| ==> ts[k] == Other(w[k])
    ensures ts[|w|].Ident? && ts[|w|].name != "" && ts[|w|].name[0] == '.'
    decreases |w|
  {
    hide Render, Quoted, NoBackticks;
    var r := Render(ts);
    NothingRendered();
    assert r[0] == (w + "`.")[0] && r[1] == (w + "`.")[1];
    RenderHead(ts);
    if w != "" {
      assert ts[0] == Other(w[0]);
      LexedTail(ts);
      assert r[1..] == Render(ts[1..]);
      assert (w + "`.")[1..] == w[1..] + "`.";
      PrefixTail(w + "`.", r);
      Spelled(ts[1..], w[1..]);
      forall k | 0 <= k < |w|
        ensures ts[k] == Other(w[k])
      {
        if k > 0 { assert ts[1..][k - 1] == Other(w[1..][k - 1]); }
      }
    }
  }

  lemma PrefixTail(a: string, b: string)
    requires a != "" && b != ""
    ensures a <= b ==> a[1..] <= b[1..]
  {
  }

  lemma PrefixSlice(a: string, b: string, i: nat, j: nat)
    requires i <= j <= |a| && j <= |b|
    ensures a <= b ==> a[i..j] == b[i..j]
  {
  }

  lemma ClosingBacktick(ts: seq<Token>)
    requires Lexed(ts) && !SpellsPublic(ts)
    ensures ReplaceAll("`" + Render(ts), PUBLIC_PREFIX, "") == "`" + ReplaceAll(Render(ts), PUBLIC_PREFIX, "")
  {
    hide Render, ReplaceAll, Lexed;
    PrefixIs();
    var t := "`" + Render(ts);
    assert t[1..] == Render(ts);
    assert !(PUBLIC_PREFIX <= t) by { NotSpelled(ts); }
    ReplaceKeeps(t, PUBLIC_PREFIX, "");
  }

  lemma NotSpelled(ts: seq<Token>)
    requires Lexed(ts) && !SpellsPublic(ts)
    ensures !(PUBLIC_PREFIX <= "`" + Render(ts))
  {
    hide Render, Lexed;
    PrefixIs();
    if "public" + "`." <= Render(ts) {
      Spelled(ts, "public");
    }
    var t := "`" + Render(ts);
    assert t[1..] == Render(ts);
    PrefixTail(PUBLIC_PREFIX, t);
    assert PUBLIC_PREFIX[1..] == "public" + "`.";
  }

  /** An opening backtick begins the prefix only for the name public before a dot. */
  lemma NotOpened(name: string, r: string)
    requires BacktickFree(name) && !(name == "public" && r != "" && r[0] == '.')
    ensures !(PUBLIC_PREFIX <= "`" + (name + "`" + r))
  {
    PrefixIs();
    var t := "`" + (name + "`" + r);
    assert t[|name| + 1] == '`';
    assert PUBLIC_PREFIX[1..7] == "public" && PUBLIC_PREFIX[8] == '.';
    if |name| == 6 {
      PrefixSlice(PUBLIC_PREFIX, t, 1, 7);
      assert t[1..7] == name;
      assert r != "" ==> t[8] == r[0];
    }
    assert |name| < 6 ==> PUBLIC_PREFIX[|name| + 1] == "public"[|name|] != '`';
    assert |name| > 6 ==> t[7] == name[6] != '`' && PUBLIC_PREFIX[7] == '`';
  }

  lemma OpeningBacktick(name: string, ts: seq<Token>)
    requires BacktickFree(name) && Lexed(ts)
    requires !(name == "public" && ts != [] && ts[0] == Other('.'))
    ensures ReplaceAll("`" + (name + "`" + Render(ts)), PUBLIC_PREFIX, "")
         == "`" + ReplaceAll(name + "`" + Render(ts), PUBLIC_PREFIX, "")
  {
    hide Render, ReplaceAll;
    var r := Render(ts);
    var t := "`" + (name + "`" + r);
    assert t[1..] == name + "`" + r;
    NothingRendered();
    if ts != [] { RenderHead(ts); }
    NotOpened(name, r);
    ReplaceKeeps(t, PUBLIC_PREFIX, "");
  }

  /** A clean text loses exactly the names public that qualify another name. */
  lemma {:induction false} StripsQualifiers(ts: seq<Token>)
    requires Lexed(ts) && Clean(ts)
    ensures ReplaceAll(Render(ts), PUBLIC_PREFIX, "") == Render(DropPublic(ts))
    decreases |ts|
  {
    hide ReplaceAll, Render, RenderToken, Lexed, Clean, HeadClean;
    if ts == [] {
      NothingToStrip();
      NothingRendered();
    } else if |ts| > 1 && ts[0] == Ident("public") && ts[1] == Other('.') {
      LexedTail(ts);
      LexedTail(ts[1..]);
      CleanStep(ts);
      CleanStep(ts[1..]);
      assert ts[1..][1..] == ts[2..];
      StripsQualifiers(ts[2..]);
      StripQualifier(ts);
    } else {
      LexedTail(ts);
      CleanStep(ts);
      StripsQualifiers(ts[1..]);
      StripToken(ts);
      RenderIs(DropPublic(ts));
      assert DropPublic(ts)[1..] == DropPublic(ts[1..]);
    }
  }

  lemma QualifierRendered(ts: seq<Token>)
    requires |ts| > 1 && ts[0] == Ident("public") && ts[1] == Other('.')
    ensures Render(ts) == PUBLIC_PREFIX + Render(ts[2..])
  {
    hide Render;
    RenderIs(ts);
    RenderIs(ts[1..]);
    PrefixIs();
    assert ts[1..][1..] == ts[2..];
  }

  lemma StripQualifier(ts: seq<Token>)
    requires |ts| > 1 && ts[0] == Ident("public") && ts[1] == Other('.')
    ensures ReplaceAll(Render(ts), PUBLIC_PREFIX, "") == ReplaceAll(Render(ts[2..]), PUBLIC_PREFIX, "")
  {
    hide ReplaceAll, Render;
    QualifierRendered(ts);
    ReplaceHits(Render(ts[2..]), PUBLIC_PREFIX, "");
  }

  lemma StripToken(ts: seq<Token>)
    requires ts != [] && Lexed(ts) && HeadClean(ts)
    requires !(|ts| > 1 && ts[0] == Ident("public") && ts[1] == Other('.'))
    ensures ReplaceAll(Render(ts), PUBLIC_PREFIX, "")
         == RenderToken(ts[0]) + ReplaceAll(Render(ts[1..]), PUBLIC_PREFIX, "")
  {
    hide ReplaceAll, Render, Contains, SpellsPublic;
    LexedTail(ts);
    RenderIs(ts);
    var tail := ts[1..];
    match ts[0]
    case Literal(text) =>
      NothingRendered();
      assert Quoted(ts[0].text, 0 + 1 == |ts|);
      PrefixIs();
      ReplaceNone(text, Render(tail), PUBLIC_PREFIX, "");
    case Other(c) =>
      ReplaceMiss([c] + Render(tail), 0, PUBLIC_PREFIX, "");
      assert ([c] + Render(tail))[1..] == Render(tail);
    case Ident(name) =>
      StripName(name, tail);
  }

  lemma StripName(name: string, tail: seq<Token>)
    requires BacktickFree(name) && Lexed(tail) && !SpellsPublic(tail)
    requires !(name == "public" && tail != [] && tail[0] == Other('.'))
    ensures ReplaceAll("`" + name + "`" + Render(tail), PUBLIC_PREFIX, "")
         == "`" + name + "`" + ReplaceAll(Render(tail), PUBLIC_PREFIX, "")
  {
    hide ReplaceAll, Render, SpellsPublic, Lexed;
    var r := Render(tail);
    var out := ReplaceAll(r, PUBLIC_PREFIX, "");
    OpeningBacktick(name, tail);
    ReplacePasses(name, "`" + r);
    ClosingBacktick(tail);
    assert "`" + name + "`" + r == "`" + (name + "`" + r);
    assert name + "`" + r == name + ("`" + r);
    assert "`" + name + "`" + out == "`" + (name + ("`" + out));
  }

  lemma NothingToStrip()
    ensures ReplaceAll("", PUBLIC_PREFIX, "") == ""
  {
  }

  // ---- Other texts lose more ----

  /** The number of positions at which the prefix occurs. */
  function Occurrences(w: string): nat
  {
    if w == "" then 0 else (if PUBLIC_PREFIX <= w then 1 else 0) + Occurrences(w[1..])
  }

  lemma OccurrencesStep(w: string)
    requires w != ""
    ensures Occurrences(w) == (if PUBLIC_PREFIX <= w then 1 else 0) + Occurrences(w[1..])
  {
  }

  /** The prefix does not overlap itself. */
  lemma {:induction false} NoOverlap(w: string, k: nat)
    requires PUBLIC_PREFIX <= w && 1 <= k <= 9
    ensures Occurrences(w[k..]) == Occurrences(w[9..])
    decreases 9 - k
  {
    hide Occurrences;
    PrefixIs();
    if k < 9 {
      var u := w[k..];
      assert u[0] == PUBLIC_PREFIX[k];
      assert k == 7 ==> u[1] == PUBLIC_PREFIX[8];
      assert !(PUBLIC_PREFIX <= u) by { assert u[0] != PUBLIC_PREFIX[0] || (k == 7 && u[1] != PUBLIC_PREFIX[1]); }
      OccurrencesStep(u);
      assert u[1..] == w[k + 1..];
      NoOverlap(w, k + 1);
    }
  }

  /** Every occurrence costs nine characters. */
  lemma {:induction false} LengthLost(w: string)
    ensures |ReplaceAll(w, PUBLIC_PREFIX, "")| + 9 * Occurrences(w) == |w|
    decreases |w|
  {
    hide ReplaceAll, Occurrences;
    PrefixIs();
    if w == "" {
      NothingToStrip();
      NoOccurrence();
    } else {
      OccurrencesStep(w);
      if PUBLIC_PREFIX <= w {
        NoOverlap(w, 1);
        assert w == PUBLIC_PREFIX + w[9..];
        ReplaceHits(w[9..], PUBLIC_PREFIX, "");
        LengthLost(w[9..]);
        assert "" + ReplaceAll(w[9..], PUBLIC_PREFIX, "") == ReplaceAll(w[9..], PUBLIC_PREFIX, "");
      } else {
        ReplaceKeeps(w, PUBLIC_PREFIX, "");
        LengthLost(w[1..]);
      }
    }
  }

  lemma NoOccurrence()
    ensures Occurrences("") == 0
  {
  }

  lemma {:induction false} OccurrencesAppend(a: string, b: string)
    ensures Occurrences(a + b) >= Occurrences(b)
    decreases |a|
  {
    hide Occurrences;
    if a == "" {
      assert a + b == b;
    } else {
      OccurrencesStep(a + b);
      assert (a + b)[1..] == a[1..] + b;
      OccurrencesAppend(a[1..], b);
    }
  }

  /** A text that holds the prefix and then another text. */
  lemma OneMore(a: string, b: string)
    ensures Occurrences(a + (PUBLIC_PREFIX + b)) >= 1 + Occurrences(b)
  {
    hide Occurrences;
    OccurrencesAppend(a, PUBLIC_PREFIX + b);
    var t := PUBLIC_PREFIX + b;
    OccurrencesStep(t);
    assert PUBLIC_PREFIX <= t;
    assert t[1..] == PUBLIC_PREFIX[1..] + b;
    OccurrencesAppend(PUBLIC_PREFIX[1..], b);
  }

  /** How many names DropPublic drops. */
  function Dropped(ts: seq<Token>): nat
    decreases |ts|
  {
    if ts == [] then 0
    else if |ts| > 1 && ts[0] == Ident("public") && ts[1] == Other('.') then 1 + Dropped(ts[2..])
    else Dropped(ts[1..])
  }

  lemma {:induction false} LengthDropped(ts: seq<Token>)
    ensures |Render(DropPublic(ts))| + 9 * Dropped(ts) == |Render(ts)|
    decreases |ts|
  {
    hide Render;
    PrefixIs();
    if ts == [] {
    } else if |ts| > 1 && ts[0] == Ident("public") && ts[1] == Other('.') {
      QualifierRendered(ts);
      LengthDropped(ts[2..]);
    } else {
      LengthDropped(ts[1..]);
      RenderIs(ts);
      RenderIs(DropPublic(ts));
      assert DropPublic(ts)[1..] == DropPublic(ts[1..]);
    }
  }

  /** The tokens of the spelled name drop nothing. */
  lemma {:induction false} NothingDropped(ts: seq<Token>, k: nat)
    requires SpellsPublic(ts) && k <= 7
    ensures Dropped(ts[k..]) == Dropped(ts[7..])
    decreases 7 - k
  {
    if k < 7 {
      assert ts[k..][1..] == ts[k + 1..];
      assert ts[k..][0] == ts[k];
      NothingDropped(ts, k + 1);
    }
  }

  lemma {:induction false} SpelledFrom(ts: seq<Token>, k: nat)
    requires SpellsPublic(ts) && k <= 6
    ensures Render(ts[k..]) == "public"[k..] + Render(ts[6..])
    decreases 6 - k
  {
    hide Render;
    if k < 6 {
      SpelledFrom(ts, k + 1);
      RenderIs(ts[k..]);
      assert ts[k..][1..] == ts[k + 1..] && ts[k..][0] == ts[k];
      assert "public"[k..] == ["public"[k]] + "public"[k + 1..];
    } else {
      assert "public"[6..] + Render(ts[6..]) == Render(ts[6..]);
    }
  }

  lemma SpelledText(ts: seq<Token>)
    requires SpellsPublic(ts)
    ensures Render(ts) == "public" + "`." + (ts[6].name[1..] + "`" + Render(ts[7..]))
  {
    hide Render;
    SpelledFrom(ts, 0);
    assert ts[0..] == ts && "public"[0..] == "public";
    RenderIs(ts[6..]);
    assert ts[6..][1..] == ts[7..];
    DottedName("public", ts[6].name, Render(ts[7..]));
  }

  lemma DottedName(head: string, name: string, tail: string)
    requires name != "" && name[0] == '.'
    ensures head + ("`" + name + "`" + tail) == head + "`." + (name[1..] + "`" + tail)
  {
    assert name == "." + name[1..];
  }

  /** A literal with the prefix, or a spelled one, is an occurrence on top of the dropped names. */
  lemma {:induction false} OccursMore(ts: seq<Token>)
    ensures Occurrences(Render(ts)) >= Dropped(ts) + if Clean(ts) then 0 else 1
    decreases |ts|
  {
    hide Render, Occurrences, HeadClean, Clean;
    if ts == [] {
      NothingIsClean();
    } else if |ts| > 1 && ts[0] == Ident("public") && ts[1] == Other('.') {
      QualifierRendered(ts);
      OccursMore(ts[2..]);
      assert "" + (PUBLIC_PREFIX + Render(ts[2..])) == PUBLIC_PREFIX + Render(ts[2..]);
      OneMore("", Render(ts[2..]));
      CleanStep(ts);
      CleanStep(ts[1..]);
      assert ts[1..][1..] == ts[2..];
      QualifierIsClean(ts);
    } else {
      RenderIs(ts);
      OccursMore(ts[1..]);
      CleanStep(ts);
      OccurrencesAppend(RenderToken(ts[0]), Render(ts[1..]));
      if !HeadClean(ts) {
        HeadOccurs(ts);
      }
    }
  }

  lemma NothingIsClean()
    ensures Clean([])
  {
  }

  lemma QualifierIsClean(ts: seq<Token>)
    requires |ts| > 1 && ts[0].Ident? && ts[1] == Other('.')
    ensures HeadClean(ts) && HeadClean(ts[1..])
  {
    assert ts[1..][0] == ts[1] && "public"[0] != '.';
  }

  lemma CutAtPrefix(text: string) returns (a: string, b: string)
    requires Contains(text, PUBLIC_PREFIX)
    ensures text == a + (PUBLIC_PREFIX + b)
  {
    var k := Index(text, PUBLIC_PREFIX);
    var n := |PUBLIC_PREFIX|;
    a, b := text[..k], text[k + n..];
    assert text[k..k + n] == PUBLIC_PREFIX;
  }

  lemma LiteralOccurs(text: string, r: string)
    requires Contains(text, PUBLIC_PREFIX)
    ensures Occurrences(text + r) >= 1 + Occurrences(r)
  {
    hide Occurrences, Contains;
    var a, b := CutAtPrefix(text);
    assert text + r == a + (PUBLIC_PREFIX + (b + r));
    OneMore(a, b + r);
    OccurrencesAppend(b, r);
  }

  lemma SpelledOccurs(name: string, tail: seq<Token>)
    requires SpellsPublic(tail)
    ensures Occurrences("`" + name + "`" + Render(tail)) >= 1 + Dropped(tail)
  {
    hide Render, Occurrences, Dropped;
    SpelledText(tail);
    var b := tail[6].name[1..] + "`";
    var rest := Render(tail[7..]);
    PrefixIs();
    assert "`" + name + "`" + Render(tail) == ("`" + name) + (PUBLIC_PREFIX + (b + rest));
    OneMore("`" + name, b + rest);
    OccurrencesAppend(b, rest);
    NothingDropped(tail, 0);
    assert tail[0..] == tail;
    DroppedOccur(tail[7..]);
  }

  lemma HeadOccurs(ts: seq<Token>)
    requires ts != [] && !HeadClean(ts)
    ensures Occurrences(Render(ts)) >= 1 + Dropped(ts[1..])
  {
    hide Render, Occurrences, Dropped, SpellsPublic;
    RenderIs(ts);
    DroppedOccur(ts[1..]);
    match ts[0]
    case Literal(text) => LiteralOccurs(text, Render(ts[1..]));
    case Ident(name) => SpelledOccurs(name, ts[1..]);
    case Other(_) =>
  }

  /** Every dropped name is an occurrence. */
  lemma {:induction false} DroppedOccur(ts: seq<Token>)
    ensures Occurrences(Render(ts)) >= Dropped(ts)
    decreases |ts|
  {
    hide Render, Occurrences;
    if ts == [] {
    } else if |ts| > 1 && ts[0] == Ident("public") && ts[1] == Other('.') {
      QualifierRendered(ts);
      DroppedOccur(ts[2..]);
      assert "" + (PUBLIC_PREFIX + Render(ts[2..])) == PUBLIC_PREFIX + Render(ts[2..]);
      OneMore("", Render(ts[2..]));
    } else {
      RenderIs(ts);
      DroppedOccur(ts[1..]);
      OccurrencesAppend(RenderToken(ts[0]), Render(ts[1..]));
    }
  }

  lemma {:induction false} LexIsLexed(s: string)
    requires NoBackticks(Lex(s))
    ensures Lexed(Retagged(Lex(s)))
    decreases |s|
  {
    hide FirstToken, Lex, NoBackticks, Quoted, StripPublic;
    if s == "" {
      NothingLexed();
    } else {
      var (t, n) := FirstToken(s);
      LexStep(s);
      TailHasNone(Lex(s));
      LexIsLexed(s[n..]);
      var ts, rest := Retagged(Lex(s)), Retagged(Lex(s[n..]));
      assert ts == [Retag(t)] + rest;
      FirstIsLexed(s);
      RetaggedHasNone(Lex(s));
      forall i | 0 <= i < |ts| && ts[i].Literal?
        ensures Quoted(ts[i].text, i + 1 == |ts|)
      {
        if i > 0 { assert rest[i - 1] == ts[i]; }
      }
    }
  }

  lemma NothingLexed()
    ensures Retagged(Lex("")) == [] && NoBackticks([])
  {
  }

  lemma TailHasNone(ts: seq<Token>)
    requires ts != [] && NoBackticks(ts)
    ensures NoBackticks(ts[1..])
  {
  }

  lemma {:induction false} RetaggedHasNone(ts: seq<Token>)
    requires NoBackticks(ts)
    ensures NoBackticks(Retagged(ts))
  {
    hide StripPublic;
    if ts != [] {
      RetaggedHasNone(ts[1..]);
      if ts[0].Ident? { StripKeepsBacktickFree(ts[0].name); }
    }
  }

  /** A literal that does not take the whole rest of the text is closed. */
  lemma FirstIsLexed(s: string)
    requires s != ""
    ensures var (t, n) := FirstToken(s);
      Retag(t).Literal? ==> Quoted(Retag(t).text, |Retagged(Lex(s))| == 1)
  {
    hide StripPublic, QuoteIndex, LiteralLength;
    var (t, n) := FirstToken(s);
    LexStep(s);
    if t.Literal? {
      if n < |s| {
        LiteralCloses(s[1..]);
        assert s[..n][n - 1] == s[1..][n - 2];
      } else {
        assert s[n..] == "";
        NothingLexed();
      }
    }
  }

  lemma {:induction false} LiteralCloses(s: string)
    requires LiteralLength(s) < |s|
    ensures LiteralLength(s) > 0 && s[LiteralLength(s) - 1] == '\''
    decreases |s|
  {
    hide LiteralLength;
    LiteralStep(s);
    var skip := if (s[0] == '\'' || s[0] == '\\') && |s| > 1 && (s[0] == '\\' || s[1] == '\'') then 2 else 1;
    if !(s[0] == '\'' && skip == 1) {
      LiteralCloses(s[skip..]);
    }
  }

  /**
   * With no backtick outside literals, the last strip removes exactly the names public that
   * qualify another name exactly when no literal contains the prefix and no quoted name is
   * followed by the characters public and a quoted name beginning with a dot.
   */
  lemma StripExactly(s: string)
    requires NoBackticks(Lex(s))
    ensures var ts := Retagged(Lex(s));
      ReplaceAll(Rewritten(s), PUBLIC_PREFIX, "") == Render(DropPublic(ts)) <==> Clean(ts)
  {
    hide Lex, Render, Clean, ReplaceAll, Occurrences, Dropped, DropPublic, Lexed, NoBackticks;
    var ts := Retagged(Lex(s));
    LexIsLexed(s);
    LengthLost(Render(ts));
    LengthDropped(ts);
    OccursMore(ts);
    if Clean(ts) {
      StripsQualifiers(ts);
    }
  }

  /** The strip works on text, so it also edits a literal that contains the prefix. */
  lemma StripEditsLiterals()
    ensures Lex("'`public`.'") == [Literal("'`public`.'")]
    ensures ReplaceAll(Rewritten("'`public`.'"), PUBLIC_PREFIX, "") == "''"
  {
    hide ReplaceAll, LiteralLength, Rewritten;
    var s := "'`public`.'";
    BodyLength();
    assert s[1..] == "`public`.'";
    assert s[..11] == s;
    assert FirstToken(s) == (Literal(s), 11);
    NothingRewritten();
    assert s[11..] == "";
    RewrittenStep(s);
    assert s == ['\''] + (PUBLIC_PREFIX + "'");
    ReplaceSkips('\'', PUBLIC_PREFIX + "'", PUBLIC_PREFIX, "");
    ReplaceHits("'", PUBLIC_PREFIX, "");
    ShortStays();
    assert s + "" == s;
  }

  lemma ShortStays()
    ensures ReplaceAll("'", PUBLIC_PREFIX, "") == "'"
  {
  }

  lemma BodyLength()
    ensures LiteralLength("`public`.'") == 10
  {
    assert LiteralLength("'") == 1;
    assert LiteralLength(".'") == 1 + LiteralLength(".'"[1..]);
    assert LiteralLength("`.'") == 1 + LiteralLength("`.'"[1..]);
    assert LiteralLength("c`.'") == 1 + LiteralLength("c`.'"[1..]);
    assert LiteralLength("ic`.'") == 1 + LiteralLength("ic`.'"[1..]);
    assert LiteralLength("lic`.'") == 1 + LiteralLength("lic`.'"[1..]);
    assert LiteralLength("blic`.'") == 1 + LiteralLength("blic`.'"[1..]);
    assert LiteralLength("ublic`.'") == 1 + LiteralLength("ublic`.'"[1..]);
    assert LiteralLength("public`.'") == 1 + LiteralLength("public`.'"[1..]);
    assert LiteralLength("`public`.'") == 1 + LiteralLength("`public`.'"[1..]);
  }
}

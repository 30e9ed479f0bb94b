/**
 * The quoting rules that translateDoubleQuotes relies on (internal/proxy/postgresql/translator.go),
 * from the side of the text: where a literal ends, which tokens a text has, and which names lose
 * their schema.
 */
module QuotedTexts {
  import opened Sequences
  import opened DoubleQuotes

  // ---- Literals ----

  /** What a literal is made of: a plain character, a doubled quote, or a backslash with any character. */
  predicate IsUnit(u: string)
  {
    || (|u| == 1 && u[0] != '\'' && u[0] != '\\')
    || u == "''"
    || (|u| == 2 && u[0] == '\\')
  }

  predicate AreUnits(us: seq<string>)
  {
    forall i :: 0 <= i < |us| ==> IsUnit(us[i])
  }

  function Text(us: seq<string>): string
  {
    if us == [] then "" else us[0] + Text(us[1..])
  }

  predicate StartsQuoted(s: string)
  {
    s != "" && s[0] == '\''
  }

  lemma UnitLength(u: string, rest: string)
    requires IsUnit(u) && rest != ""
    ensures LiteralLength(u + rest) == |u| + LiteralLength(rest)
  {
    hide LiteralLength;
    var s := u + rest;
    LiteralStep(s);
    assert s[|u|..] == rest;
  }

  lemma ClosingQuote(rest: string)
    ensures !StartsQuoted(rest) ==> LiteralLength("'" + rest) == 1
    ensures StartsQuoted(rest) ==> LiteralLength("'" + rest) >= 2
  {
    hide LiteralLength;
    LiteralStep("'" + rest);
  }

  /** A literal ends at the first quote after its units, exactly when no other quote follows. */
  lemma {:induction false} LiteralEnds(us: seq<string>, rest: string)
    requires AreUnits(us)
    ensures LiteralLength(Text(us) + "'" + rest) == |Text(us)| + 1 <==> !StartsQuoted(rest)
  {
    hide LiteralLength, IsUnit;
    if us == [] {
      assert Text(us) + "'" + rest == "'" + rest;
      ClosingQuote(rest);
    } else {
      LiteralEnds(us[1..], rest);
      var tail := Text(us[1..]) + "'" + rest;
      UnitLength(us[0], tail);
      assert Text(us) + "'" + rest == us[0] + tail;
    }
  }

  // ---- Tokens ----

  /** A literal with its quotes, a name without a double quote, or a character that is no quote. */
  ghost predicate IsToken(t: Token)
  {
    match t
    case Literal(text) => exists us :: AreUnits(us) && text == "'" + Text(us) + "'"
    case Ident(name) => '"' !in name
    case Other(c) => c != '\'' && c != '"'
  }

  /** How PostgreSQL writes a token. */
  function Written(t: Token): string
  {
    match t
    case Literal(text) => text
    case Ident(name) => "\"" + name + "\""
    case Other(c) => [c]
  }

  function AllWritten(ts: seq<Token>): string
  {
    if ts == [] then "" else Written(ts[0]) + AllWritten(ts[1..])
  }

  /** Tokens, no literal right after another: two of those are one literal with a quote in it. */
  ghost predicate AreTokens(ts: seq<Token>)
  {
    && (forall i :: 0 <= i < |ts| ==> IsToken(ts[i]))
    && (forall i :: 0 <= i < |ts| - 1 && ts[i].Literal? ==> !ts[i + 1].Literal?)
  }

  lemma IndexOfQuote(name: string, rest: string)
    requires '"' !in name
    ensures QuoteIndex(name + "\"" + rest) == |name|
  {
    if name == "" {
      assert name + "\"" + rest == "\"" + rest;
    } else {
      IndexOfQuote(name[1..], rest);
      assert (name + "\"" + rest)[1..] == name[1..] + "\"" + rest;
    }
  }

  lemma FirstLiteral(us: seq<string>, rest: string)
    requires AreUnits(us) && !StartsQuoted(rest)
    ensures var text := "'" + Text(us) + "'";
      FirstToken(text + rest) == (Literal(text), |text|)
  {
    hide LiteralLength, AreUnits;
    var text := "'" + Text(us) + "'";
    var s := text + rest;
    LiteralEnds(us, rest);
    assert s[1..] == Text(us) + "'" + rest;
    assert s[..|text|] == text && s[0] == '\'';
  }

  lemma FirstName(name: string, rest: string)
    requires '"' !in name
    ensures FirstToken("\"" + name + "\"" + rest) == (Ident(name), |name| + 2)
  {
    hide QuoteIndex;
    var s := "\"" + name + "\"" + rest;
    IndexOfQuote(name, rest);
    assert s[1..] == name + "\"" + rest;
    assert s[1..1 + |name|] == name && s[0] == '"';
  }

  lemma FirstCharacter(c: char, rest: string)
    requires c != '\'' && c != '"'
    ensures FirstToken([c] + rest) == (Other(c), 1)
  {
    assert ([c] + rest)[0] == c;
  }

  lemma FirstIs(t: Token, rest: string)
    requires IsToken(t) && (t.Literal? ==> !StartsQuoted(rest))
    ensures Written(t) != "" && FirstToken(Written(t) + rest) == (t, |Written(t)|)
  {
    hide FirstToken, AreUnits, Text, StartsQuoted;
    match t
    case Literal(text) =>
      var us :| AreUnits(us) && text == "'" + Text(us) + "'";
      FirstLiteral(us, rest);
    case Ident(name) => FirstName(name, rest);
    case Other(c) => FirstCharacter(c, rest);
  }

  lemma NoQuoteFirst(ts: seq<Token>)
    requires AreTokens(ts) && (ts != [] ==> !ts[0].Literal?)
    ensures !StartsQuoted(AllWritten(ts))
  {
  }

  lemma TokensTail(ts: seq<Token>)
    requires AreTokens(ts) && ts != []
    ensures AreTokens(ts[1..]) && IsToken(ts[0]) && (ts[0].Literal? && |ts| > 1 ==> !ts[1].Literal?)
  {
    hide IsToken;
    forall i | 0 <= i < |ts[1..]| - 1 && ts[1..][i].Literal?
      ensures !ts[1..][i + 1].Literal?
    {
      assert ts[1..][i] == ts[i + 1] && ts[1..][i + 1] == ts[i + 1 + 1];
    }
  }

  /** Tokens written out are the tokens of the text. */
  lemma {:induction false} LexReads(ts: seq<Token>)
    requires AreTokens(ts)
    ensures Lex(AllWritten(ts)) == ts
  {
    hide FirstToken, IsToken, Written, StartsQuoted, AreTokens;
    if ts != [] {
      TokensTail(ts);
      LexReads(ts[1..]);
      var rest := AllWritten(ts[1..]);
      if ts[0].Literal? { NoQuoteFirst(ts[1..]); }
      FirstIs(ts[0], rest);
      assert (Written(ts[0]) + rest)[|Written(ts[0])|..] == rest;
    }
  }

  // ---- Names ----

  predicate AllBackticks(s: string)
  {
    forall i :: 0 <= i < |s| ==> s[i] == '`'
  }

  predicate NoOuterBacktick(s: string)
  {
    s != "" ==> s[0] != '`' && s[|s| - 1] != '`'
  }

  lemma {:induction false} BackticksLeft(a: string, t: string)
    requires AllBackticks(a)
    ensures TrimBackticks(a + t) == TrimBackticks(t)
  {
    hide TrimBackticks;
    if a == "" {
      assert a + t == t;
    } else {
      BackticksLeft(a[1..], t);
      OneLeft(a[1..] + t);
      assert a + t == "`" + (a[1..] + t);
    }
  }

  lemma OneLeft(t: string)
    ensures TrimBackticks("`" + t) == TrimBackticks(t)
  {
    assert ("`" + t)[1..] == t;
  }

  lemma OneRight(t: string)
    requires t != "" && t[0] != '`'
    ensures TrimBackticks(t + "`") == TrimBackticks(t)
  {
    assert (t + "`")[..|t|] == t;
  }

  lemma NothingLeft(s: string)
    requires AllBackticks(s)
    ensures TrimBackticks(s) == ""
  {
    BackticksLeft(s, "");
    assert s + "" == s;
  }

  lemma {:induction false} BackticksRight(t: string, b: string)
    requires AllBackticks(b) && NoOuterBacktick(t) && t != ""
    ensures TrimBackticks(t + b) == t
  {
    if b == "" {
      assert t + b == t;
    } else {
      var last := |b| - 1;
      BackticksRight(t, b[..last]);
      OneRight(t + b[..last]);
      assert t + b == t + b[..last] + "`";
    }
  }

  lemma TrimmedBackticks(a: string, mid: string, b: string)
    requires AllBackticks(a) && AllBackticks(b) && NoOuterBacktick(mid)
    ensures TrimBackticks(a + mid + b) == mid
  {
    hide TrimBackticks, AllBackticks;
    assert a + mid + b == a + (mid + b);
    BackticksLeft(a, mid + b);
    if mid == "" {
      assert mid + b == b;
      NothingLeft(b);
    } else {
      BackticksRight(mid, b);
    }
  }

  lemma {:induction false} LastDot(front: string, last: string)
    requires '.' !in last
    ensures AfterLastDot(front + "." + last) == |front| + 1
  {
    var s := front + "." + last;
    if last == "" {
      assert s[|s| - 1] == '.';
    } else {
      var n := |last| - 1;
      LastDot(front, last[..n]);
      assert s[|s| - 1] == last[n] && s[..|s| - 1] == front + "." + last[..n];
    }
  }

  lemma NoDot(name: string)
    requires '.' !in name
    ensures StripPublic(name) == name
  {
    var i := AfterLastDot(name);
  }

  /**
   * A quoted name loses what stands before its last dot exactly when that is the schema public,
   * bare or in backticks; any other name stays as it is.
   */
  lemma StripPublicExactly(a: string, schema: string, b: string, last: string)
    requires AllBackticks(a) && AllBackticks(b) && NoOuterBacktick(schema) && '.' !in last
    ensures StripPublic(last) == last
    ensures var name := a + schema + b + "." + last;
      StripPublic(name) == if schema == "public" then last else name
  {
    hide TrimBackticks, AfterLastDot, AllBackticks, NoOuterBacktick;
    NoDot(last);
    var front := a + schema + b;
    var name := front + "." + last;
    LastDot(front, last);
    TrimmedBackticks(a, schema, b);
    assert name[..|front|] == front && name[|front| + 1..] == last;
  }
}

/**
 * What the values put in for placeholders denote (internal/proxy/postgresql/server.go,
 * executeCatalogQueryExtended): read by the rules of SQL, each is the parameter that was bound.
 */
module ParamLiterals {
  import opened Wrappers
  import opened Texts
  import opened Placeholders

  // ---- Reading a literal ----

  /** The rest of a literal after its opening quote: a doubled quote is one quote, a single one ends it. */
  function ReadQuoted(s: string): Option<(string, string)>
  {
    if s == "" then None
    else if s[0] != '\'' then Before(s[..1], ReadQuoted(s[1..]))
    else if |s| >= 2 && s[1] == '\'' then Before("'", ReadQuoted(s[2..]))
    else Some(("", s[1..]))
  }

  function Before(c: string, r: Option<(string, string)>): Option<(string, string)>
  {
    match r
    case None => None
    case Some((body, rest)) => Some((c + body, rest))
  }

  /** A literal at the front of a text: what it denotes, and the text after it. */
  function ReadLiteral(s: string): Option<(string, string)>
  {
    if s == "" || s[0] != '\'' then None else ReadQuoted(s[1..])
  }

  predicate StartsQuoted(s: string)
  {
    s != "" && s[0] == '\''
  }

  lemma BeforeTwice(a: string, b: string, r: Option<(string, string)>)
    ensures Before(a, Before(b, r)) == Before(a + b, r)
  {
    if r.Some? { assert a + (b + r.value.0) == a + b + r.value.0; }
  }

  lemma ReadPlain(c: char, s: string)
    requires c != '\''
    ensures ReadQuoted([c] + s) == Before([c], ReadQuoted(s))
  {
    var t := [c] + s;
    assert t[..1] == [c] && t[1..] == s;
  }

  lemma ReadDoubled(s: string)
    ensures ReadQuoted("''" + s) == Before("'", ReadQuoted(s))
  {
    var t := "''" + s;
    assert t[2..] == s;
  }

  /** What was doubled is read back, and the reading goes on with what follows. */
  lemma {:induction false} ReadsDoubling(raw: string, s: string)
    ensures ReadQuoted(ReplaceAll(raw, "'", "''") + s) == Before(raw, ReadQuoted(s))
  {
    hide ReadQuoted, ReplaceAll;
    if raw == "" {
      NothingReplacedIn();
      assert ReplaceAll("", "'", "''") + s == s;
      BeforeNothing(ReadQuoted(s));
    } else {
      var rest := ReplaceAll(raw[1..], "'", "''");
      ReadsDoubling(raw[1..], s);
      BeforeTwice(raw[..1], raw[1..], ReadQuoted(s));
      assert raw == raw[..1] + raw[1..];
      if raw[0] == '\'' {
        assert raw[..1] == "'";
        ReplaceHits(raw[1..], "'", "''");
        ReadDoubled(rest + s);
        assert "''" + rest + s == "''" + (rest + s);
      } else {
        assert raw[..1] == [raw[0]];
        ReplaceSkips(raw[0], raw[1..], "'", "''");
        ReadPlain(raw[0], rest + s);
        assert [raw[0]] + rest + s == [raw[0]] + (rest + s);
      }
    }
  }

  lemma NothingReplacedIn()
    ensures ReplaceAll("", "'", "''") == ""
  {
  }

  lemma BeforeNothing(r: Option<(string, string)>)
    ensures Before("", r) == r
  {
    if r.Some? { assert "" + r.value.0 == r.value.0; }
  }

  // ---- Parameters ----

  /** The first format code says text, or the bytes are not those of a 2, 4 or 8 byte integer. */
  predicate SentAsText(raw: string, formats: seq<int>)
  {
    formats == [] || formats[0] != 1 || (|raw| != 2 && |raw| != 4 && |raw| != 8)
  }

  lemma ClosingQuote(rest: string)
    ensures StartsQuoted(rest) ==> ReadQuoted("'" + rest) == Before("'", ReadQuoted(rest[1..]))
    ensures !StartsQuoted(rest) ==> ReadQuoted("'" + rest) == Some(("", rest))
  {
    var t := "'" + rest;
    assert t[1..] == rest;
    if StartsQuoted(rest) { assert t[2..] == rest[1..]; }
  }

  /**
   * A parameter sent as text is put in as a literal that denotes it: read back, it is the
   * parameter and exactly what follows is left, if and only if no quote follows.
   */
  lemma TextDenotes(raw: string, formats: seq<int>, rest: string)
    ensures SentAsText(raw, formats) ==>
      (ReadLiteral(ParamText(Some(raw), formats) + rest) == Some((raw, rest)) <==> !StartsQuoted(rest))
  {
    hide ReadQuoted, ReplaceAll;
    if SentAsText(raw, formats) {
      var body := ReplaceAll(raw, "'", "''");
      assert ParamText(Some(raw), formats) == "'" + body + "'";
      var t := ParamText(Some(raw), formats) + rest;
      assert t[1..] == body + ("'" + rest);
      ReadsDoubling(raw, "'" + rest);
      ClosingQuote(rest);
      assert raw + "" == raw;
      if StartsQuoted(rest) { BeforeTwice(raw, "'", ReadQuoted(rest[1..])); }
    }
  }

  /** NULL is a word, not a literal. */
  lemma NullDenotes(formats: seq<int>, rest: string)
    ensures ParamText(None, formats) == "NULL" && ReadLiteral(ParamText(None, formats) + rest) == None
  {
    assert ("NULL" + rest)[0] == 'N';
  }

  function At(raw: string, i: nat): nat
    requires i < |raw|
  {
    raw[i] as int
  }

  /** Four bytes from position n, the most significant first. */
  function Word(raw: string, n: nat): nat
    requires n + 4 <= |raw|
  {
    0x100_0000 * At(raw, n) + 0x1_0000 * At(raw, n + 1) + 256 * At(raw, n + 2) + At(raw, n + 3)
  }

  /** Two, four or eight bytes sent in binary are put in as the decimal text of their big-endian value. */
  lemma BinaryDenotes(raw: string, formats: seq<int>)
    ensures !SentAsText(raw, formats) ==>
      var text := ParamText(Some(raw), formats);
      && text != "" && AllDigits(text)
      && (|raw| == 2 ==> Value(text) == 256 * At(raw, 0) + At(raw, 1))
      && (|raw| == 4 ==> Value(text) == Word(raw, 0))
      && (|raw| == 8 ==> Value(text) == 0x1_0000_0000 * Word(raw, 0) + Word(raw, 4))
  {
    hide Digits, Value, BigEndian;
    if !SentAsText(raw, formats) {
      ValueOfDigits(BigEndian(raw));
      if |raw| == 2 { TwoBytes(raw); }
      if |raw| == 4 { FourBytes(raw, 0); }
      if |raw| == 8 { FourBytes(raw, 4); FourBytes(raw, 0); }
    }
  }

  lemma BigEndianStep(raw: string, n: nat)
    requires n < |raw|
    ensures BigEndian(raw[..n + 1]) == 256 * BigEndian(raw[..n]) + At(raw, n)
  {
    assert raw[..n + 1][..n] == raw[..n];
  }

  lemma TwoBytes(raw: string)
    requires |raw| >= 2
    ensures BigEndian(raw[..2]) == 256 * At(raw, 0) + At(raw, 1)
    ensures raw[..|raw|] == raw
  {
    hide BigEndian;
    BigEndianStep(raw, 0);
    BigEndianStep(raw, 1);
    NoBytes(raw);
  }

  lemma NoBytes(raw: string)
    ensures BigEndian(raw[..0]) == 0
  {
  }

  lemma FourBytes(raw: string, n: nat)
    requires |raw| >= n + 4
    ensures BigEndian(raw[..n + 4]) == 0x1_0000_0000 * BigEndian(raw[..n]) + Word(raw, n)
    ensures BigEndian(raw[..0]) == 0 && raw[..|raw|] == raw
  {
    hide BigEndian;
    BigEndianStep(raw, n);
    BigEndianStep(raw, n + 1);
    BigEndianStep(raw, n + 2);
    BigEndianStep(raw, n + 3);
    NoBytes(raw);
  }

  // ---- In a query ----

  lemma SimultaneousStep(ps: seq<Piece>, vals: seq<string>) returns (head: string)
    requires ps != []
    ensures forall tail :: Simultaneous([ps[0]] + tail, vals) == head + Simultaneous(tail, vals)
  {
    hide Placeholder;
    head := if ps[0].Chr? then [ps[0].c]
            else if 1 <= ps[0].k <= |vals| then vals[ps[0].k - 1] else Placeholder(ps[0].k);
    forall tail
      ensures Simultaneous([ps[0]] + tail, vals) == head + Simultaneous(tail, vals)
    {
      assert ([ps[0]] + tail)[1..] == tail;
    }
  }

  lemma {:induction false} SimultaneousSplit(a: seq<Piece>, b: seq<Piece>, vals: seq<string>)
    ensures Simultaneous(a + b, vals) == Simultaneous(a, vals) + Simultaneous(b, vals)
  {
    hide Simultaneous;
    if a == [] {
      NoPieces(vals);
      assert a + b == b && "" + Simultaneous(b, vals) == Simultaneous(b, vals);
    } else {
      var head := SimultaneousStep(a, vals);
      SimultaneousSplit(a[1..], b, vals);
      assert a + b == [a[0]] + (a[1..] + b) && a == [a[0]] + a[1..];
      var x, y := Simultaneous(a[1..], vals), Simultaneous(b, vals);
      assert head + (x + y) == head + x + y;
    }
  }

  lemma NoPieces(vals: seq<string>)
    ensures Simultaneous([], vals) == ""
  {
  }

  /**
   * In the substituted query each text parameter stands where its placeholder stood, as a
   * literal that denotes it; what follows the placeholder must not begin with a quote.
   */
  lemma SubstitutedDenotes(query: string, parameters: seq<Option<string>>, formats: seq<int>, i: nat)
    ensures var ps, vals := Cut(query), ParamTexts(parameters, formats);
      i < |ps| && ps[i].Param? && 1 <= ps[i].k <= |vals| && parameters[ps[i].k - 1].Some?
      && SentAsText(parameters[ps[i].k - 1].value, formats) ==>
        var before, after, out := Simultaneous(ps[..i], vals), Simultaneous(ps[i + 1..], vals), Simultaneous(ps, vals);
        && before <= out
        && (ReadLiteral(out[|before|..]) == Some((parameters[ps[i].k - 1].value, after)) <==> !StartsQuoted(after))
  {
    hide Cut, ReadLiteral, SentAsText, Simultaneous, ParamText;
    var ps, vals := Cut(query), ParamTexts(parameters, formats);
    if i < |ps| && ps[i].Param? && 1 <= ps[i].k <= |vals| && parameters[ps[i].k - 1].Some?
       && SentAsText(parameters[ps[i].k - 1].value, formats) {
      var before, after, out := Simultaneous(ps[..i], vals), Simultaneous(ps[i + 1..], vals), Simultaneous(ps, vals);
      assert ps == ps[..i] + ([ps[i]] + ps[i + 1..]);
      SimultaneousSplit(ps[..i], [ps[i]] + ps[i + 1..], vals);
      SimultaneousSplit([ps[i]], ps[i + 1..], vals);
      OneParameter(ps[i], vals);
      TextDenotes(parameters[ps[i].k - 1].value, formats, after);
      assert out[|before|..] == vals[ps[i].k - 1] + after;
    }
  }

  lemma OneParameter(p: Piece, vals: seq<string>)
    requires p.Param? && 1 <= p.k <= |vals|
    ensures Simultaneous([p], vals) == vals[p.k - 1]
  {
    assert [p][1..] == [] && Simultaneous([], vals) == "";
    assert vals[p.k - 1] + "" == vals[p.k - 1];
  }
}

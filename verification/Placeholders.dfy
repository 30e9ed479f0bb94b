/**
 * Parameter placeholders (internal/proxy/postgresql/server.go): the descending substitution of
 * executeCatalogQueryExtended and the counting of countParams.
 */
module Placeholders {
  import opened Wrappers
  import opened Texts

  // ---- Decimal numbers ----

  function Digit(d: nat): (c: char)
    requires d < 10
    ensures IsDigit(c)
  {
    "0123456789"[d]
  }

  function Digits(n: nat): (s: string)
    ensures s != "" && forall i :: 0 <= i < |s| ==> IsDigit(s[i])
  {
    if n < 10 then [Digit(n)] else Digits(n / 10) + [Digit(n % 10)]
  }

  function DigitValue(c: char): (d: nat)
    requires IsDigit(c)
    ensures d < 10 && Digit(d) == c
  {
    (c as int) - ('0' as int)
  }

  predicate AllDigits(s: string)
  {
    forall i :: 0 <= i < |s| ==> IsDigit(s[i])
  }

  function Value(s: string): nat
    requires AllDigits(s)
  {
    if s == "" then 0 else 10 * Value(s[..|s| - 1]) + DigitValue(s[|s| - 1])
  }

  lemma {:induction false} ValueOfDigits(n: nat)
    ensures Value(Digits(n)) == n
  {
    if n < 10 {
      assert Digits(n)[..0] == "";
    } else {
      ValueOfDigits(n / 10);
      assert Digits(n)[..|Digits(n)| - 1] == Digits(n / 10);
    }
  }

  lemma {:induction false} DigitsOfValue(s: string)
    requires s != "" && AllDigits(s) && (|s| > 1 ==> s[0] != '0')
    ensures Digits(Value(s)) == s
    ensures s[0] != '0' ==> Value(s) >= 1
  {
    var high, low := s[..|s| - 1], DigitValue(s[|s| - 1]);
    assert s == high + [Digit(low)];
    if |s| > 1 {
      DigitsOfValue(high);
      assert Value(s) / 10 == Value(high) && Value(s) % 10 == low;
    } else {
      assert high == "";
    }
  }

  lemma {:induction false} LongerDigits(j: nat, k: nat)
    requires j <= k
    ensures |Digits(j)| <= |Digits(k)|
  {
    if k < 10 {
    } else if j >= 10 {
      LongerDigits(j / 10, k / 10);
    }
  }

  /** Where the digits of a smaller number leave those of a larger one: a difference, or the end. */
  lemma DigitsPart(j: nat, k: nat) returns (i: nat)
    requires j < k
    ensures i <= |Digits(j)| && i < |Digits(k)|
    ensures i < |Digits(j)| ==> Digits(j)[i] != Digits(k)[i]
    ensures i == |Digits(j)| ==> Digits(k)[..i] == Digits(j)
  {
    hide Digits;
    LongerDigits(j, k);
    ValueOfDigits(j);
    ValueOfDigits(k);
    var a, b := Digits(j), Digits(k);
    i := 0;
    while i < |a| && a[i] == b[i]
      invariant i <= |a| && a[..i] == b[..i]
    {
      assert a[..i + 1] == a[..i] + [a[i]] && b[..i + 1] == b[..i] + [b[i]];
      i := i + 1;
    }
    assert a[..|a|] == a && b[..|b|] == b;
  }

  /** A number whose digits properly begin with those of another is at least ten times as large. */
  lemma {:induction false} TenTimes(j: nat, k: nat)
    requires |Digits(j)| < |Digits(k)| && Digits(k)[..|Digits(j)|] == Digits(j)
    ensures k >= 10 * j
  {
    hide Digits;
    DigitsStep(k);
    var m := |Digits(j)|;
    if k < 10 {
    } else if m == |Digits(k)| - 1 {
      assert Digits(k)[..m] == Digits(k / 10);
      ValueOfDigits(j);
      ValueOfDigits(k / 10);
    } else {
      assert Digits(k / 10)[..m] == Digits(k)[..m];
      TenTimes(j, k / 10);
    }
  }

  lemma DigitsStep(n: nat)
    ensures Digits(n) == if n < 10 then [Digit(n)] else Digits(n / 10) + [Digit(n % 10)]
  {
  }

  // ---- The values substituted ----

  function BigEndian(raw: string): nat
  {
    if raw == "" then 0 else 256 * BigEndian(raw[..|raw| - 1]) + (raw[|raw| - 1] as int)
  }

  /** The text of a parameter; raw holds one character a byte, only the first format code is looked at. */
  function ParamText(raw: Option<string>, formats: seq<int>): (text: string)
    ensures text != ""
    ensures raw.Some? && !(formats != [] && formats[0] == 1 && |raw.value| in {2, 4, 8}) ==> text[0] == '\''
  {
    match raw
    case None => "NULL"
    case Some(bytes) =>
      if formats != [] && formats[0] == 1 && |bytes| in {2, 4, 8} then Digits(BigEndian(bytes))
      else "'" + ReplaceAll(bytes, "'", "''") + "'"
  }

  // ---- Queries as pieces ----

  datatype Piece = Chr(c: char) | Param(k: nat)

  function Placeholder(k: nat): string
  {
    "$" + Digits(k)
  }

  /** The query with every placeholder above k already replaced. */
  function Partial(ps: seq<Piece>, vals: seq<string>, k: nat): string
  {
    if ps == [] then ""
    else (match ps[0]
          case Chr(c) => [c]
          case Param(j) => if k < j <= |vals| then vals[j - 1] else Placeholder(j)) + Partial(ps[1..], vals, k)
  }

  function Render(ps: seq<Piece>): string
  {
    if ps == [] then ""
    else (if ps[0].Chr? then [ps[0].c] else Placeholder(ps[0].k)) + Render(ps[1..])
  }

  /** All placeholders replaced at once. */
  function Simultaneous(ps: seq<Piece>, vals: seq<string>): string
  {
    if ps == [] then ""
    else (if ps[0].Chr? then [ps[0].c]
          else if 1 <= ps[0].k <= |vals| then vals[ps[0].k - 1] else Placeholder(ps[0].k))
         + Simultaneous(ps[1..], vals)
  }

  /**
   * Every dollar sign begins a placeholder with an index in 1..n, whose digits end where the
   * placeholder ends.
   */
  predicate Canonical(ps: seq<Piece>, n: nat)
  {
    && (forall i :: 0 <= i < |ps| ==> if ps[i].Chr? then ps[i].c != '$' else 1 <= ps[i].k <= n)
    && (forall i :: 0 <= i < |ps| - 1 ==> ps[i].Param? && ps[i + 1].Chr? ==> !IsDigit(ps[i + 1].c))
  }

  predicate StartsPlain(v: string)
  {
    v != "" && !IsDigit(v[0])
  }

  predicate DollarFree(v: string)
  {
    forall i :: 0 <= i < |v| ==> v[i] != '$'
  }

  // ---- The substitution ----

  /** Replaces placeholder k, then k - 1, and so on down to 1, each by a global text replacement. */
  function ReplaceDown(query: string, vals: seq<string>, k: nat): string
    requires k <= |vals|
    decreases k
  {
    if k == 0 then query
    else ReplaceDown(ReplaceAll(query, Placeholder(k), vals[k - 1]), vals, k - 1)
  }

  function ParamTexts(parameters: seq<Option<string>>, formats: seq<int>): (vals: seq<string>)
    ensures |vals| == |parameters|
    ensures forall i :: 0 <= i < |vals| ==> vals[i] == ParamText(parameters[i], formats)
  {
    seq(|parameters|, i requires 0 <= i < |parameters| => ParamText(parameters[i], formats))
  }

  method Substitute(text: string, parameters: seq<Option<string>>, formats: seq<int>) returns (query: string)
    ensures query == ReplaceDown(text, ParamTexts(parameters, formats), |parameters|)
  {
    query := text;
    ghost var vals := ParamTexts(parameters, formats);
    var i := |parameters| - 1;
    while i >= 0
      invariant -1 <= i < |parameters|
      invariant ReplaceDown(query, vals, i + 1) == ReplaceDown(text, vals, |parameters|)
    {
      var val := ParamText(parameters[i], formats);
      query := ReplaceAll(query, "$" + Digits(i + 1), val);
      i := i - 1;
    }
  }

  // ---- Descending replacement is simultaneous replacement ----

  lemma {:induction false} ReplacePasses(s: string, rest: string, k: nat, v: string)
    requires DollarFree(s)
    ensures ReplaceAll(s + rest, Placeholder(k), v) == s + ReplaceAll(rest, Placeholder(k), v)
    decreases |s|
  {
    hide ReplaceAll, Digits;
    var out := ReplaceAll(rest, Placeholder(k), v);
    if s == "" {
      assert s + rest == rest && s + out == out;
    } else {
      ReplacePasses(s[1..], rest, k, v);
      ReplaceSkips(s[0], s[1..] + rest, Placeholder(k), v);
      assert s + rest == [s[0]] + (s[1..] + rest);
      assert s + out == [s[0]] + (s[1..] + out);
    }
  }

  /**
   * A smaller placeholder is left alone when no digit follows it, $1 is not part of $10, and in
   * any case when the larger one is less than ten times as large.
   */
  lemma SmallerStays(j: nat, k: nat, rest: string, v: string)
    requires j < k && (rest == "" || !IsDigit(rest[0]) || k < 10 * j)
    ensures ReplaceAll(Placeholder(j) + rest, Placeholder(k), v) == Placeholder(j) + ReplaceAll(rest, Placeholder(k), v)
  {
    hide ReplaceAll, Digits;
    var i := DigitsPart(j, k);
    var t := Placeholder(j) + rest;
    assert Placeholder(k)[i + 1] == Digits(k)[i];
    if i < |Digits(j)| {
      assert t[i + 1] == Digits(j)[i];
    } else if k < 10 * j {
      TenTimes(j, k);
      assert false;
    } else if rest != "" {
      assert t[i + 1] == rest[0];
    }
    ReplaceMiss(t, i + 1, Placeholder(k), v);
    assert t[1..] == Digits(j) + rest;
    DigitsDollarFree(j);
    ReplacePasses(Digits(j), rest, k, v);
    var out := ReplaceAll(rest, Placeholder(k), v);
    assert "$" + (Digits(j) + out) == Placeholder(j) + out;
  }

  lemma DigitsDollarFree(j: nat)
    ensures DollarFree(Digits(j))
  {
  }

  /** A value that a global replacement of placeholder k leaves alone, whatever follows it. */
  predicate Passes(v: string, k: nat)
  {
    DollarFree(v) || (v != "" && !Contains(v, Placeholder(k)) && v[|v| - 1] != '$' && !IsDigit(v[|v| - 1]))
  }

  lemma ValuePasses(v: string, rest: string, k: nat, w: string)
    requires Passes(v, k)
    ensures ReplaceAll(v + rest, Placeholder(k), w) == v + ReplaceAll(rest, Placeholder(k), w)
  {
    hide ReplaceAll, Contains, Digits;
    if DollarFree(v) {
      ReplacePasses(v, rest, k, w);
    } else {
      ReplaceNone(v, rest, Placeholder(k), w);
    }
  }

  /** Every value that is already in the text when placeholder k is replaced passes. */
  predicate AllPass(vals: seq<string>, k: nat)
  {
    forall p :: k <= p < |vals| ==> Passes(vals[p], k)
  }

  predicate DigitAhead(ps: seq<Piece>, vals: seq<string>, k: nat)
  {
    var rest := Partial(ps, vals, k);
    rest != "" && IsDigit(rest[0])
  }

  /** No placeholder below k could be taken for placeholder k together with the digits after it. */
  predicate Clear(ps: seq<Piece>, vals: seq<string>, k: nat)
  {
    forall i :: 0 <= i < |ps| && ps[i].Param? && ps[i].k < k ==> !DigitAhead(ps[i + 1..], vals, k) || k < 10 * ps[i].k
  }

  lemma CanonicalTail(ps: seq<Piece>, n: nat)
    requires Canonical(ps, n) && ps != []
    ensures Canonical(ps[1..], n)
  {
    var t := ps[1..];
    forall i | 0 <= i < |t| - 1 && t[i].Param? && t[i + 1].Chr?
      ensures !IsDigit(t[i + 1].c)
    {
      assert t[i] == ps[i + 1] && t[i + 1] == ps[i + 1 + 1];
    }
  }

  lemma ClearTail(ps: seq<Piece>, vals: seq<string>, k: nat)
    requires Clear(ps, vals, k) && ps != []
    ensures Clear(ps[1..], vals, k)
  {
    hide DigitAhead;
    var t := ps[1..];
    forall i | 0 <= i < |t| && t[i].Param? && t[i].k < k
      ensures !DigitAhead(t[i + 1..], vals, k) || k < 10 * t[i].k
    {
      assert t[i] == ps[i + 1] && t[i + 1..] == ps[i + 1 + 1..];
    }
  }

  predicate AllDollarFree(vals: seq<string>)
  {
    forall i :: 0 <= i < |vals| ==> DollarFree(vals[i])
  }

  lemma DollarFreePass(vals: seq<string>, k: nat)
    requires AllDollarFree(vals)
    ensures AllPass(vals, k)
  {
  }

  /** One global replacement turns stage k into stage k - 1. */
  lemma {:induction false} OneStage(ps: seq<Piece>, vals: seq<string>, k: nat)
    requires Canonical(ps, |vals|) && 1 <= k <= |vals| && AllPass(vals, k) && Clear(ps, vals, k)
    ensures ReplaceAll(Partial(ps, vals, k), Placeholder(k), vals[k - 1]) == Partial(ps, vals, k - 1)
    decreases |ps|
  {
    hide ReplaceAll, Placeholder, Canonical, Passes, Partial, Clear;
    var v := vals[k - 1];
    PartialStep(ps, vals, k);
    PartialStep(ps, vals, k - 1);
    if ps == [] {
      EmptyStage(k, v);
    } else {
      CanonicalTail(ps, |vals|);
      ClearTail(ps, vals, k);
      OneStage(ps[1..], vals, k);
      var rest := Partial(ps[1..], vals, k);
      HeadIsCanonical(ps, |vals|);
      match ps[0]
      case Chr(c) =>
        SkipCharacter(c, rest, k, v);
      case Param(j) =>
        if j > k {
          ValuePasses(vals[j - 1], rest, k, v);
        } else if j == k {
          PlaceholderNonempty(k);
          ReplaceHits(rest, Placeholder(k), v);
        } else {
          HeadIsClear(ps, vals, k);
          SmallerStays(j, k, rest, v);
        }
    }
  }

  lemma PartialStep(ps: seq<Piece>, vals: seq<string>, k: nat)
    ensures Partial(ps, vals, k) ==
      if ps == [] then ""
      else (match ps[0]
            case Chr(c) => [c]
            case Param(j) => if k < j <= |vals| then vals[j - 1] else Placeholder(j)) + Partial(ps[1..], vals, k)
  {
  }

  lemma EmptyStage(k: nat, v: string)
    ensures ReplaceAll("", Placeholder(k), v) == ""
  {
  }

  lemma PlaceholderNonempty(k: nat)
    ensures Placeholder(k) != ""
  {
  }

  lemma HeadIsCanonical(ps: seq<Piece>, n: nat)
    requires Canonical(ps, n) && ps != []
    ensures if ps[0].Chr? then ps[0].c != '$' else 1 <= ps[0].k <= n
    ensures |ps| > 1 && ps[0].Param? && ps[1].Chr? ==> !IsDigit(ps[1].c)
  {
    if |ps| > 1 { assert ps[0 + 1] == ps[1]; }
  }

  lemma HeadIsClear(ps: seq<Piece>, vals: seq<string>, k: nat)
    requires Clear(ps, vals, k) && ps != [] && ps[0].Param? && ps[0].k < k
    ensures var rest := Partial(ps[1..], vals, k); rest == "" || !IsDigit(rest[0]) || k < 10 * ps[0].k
  {
    hide Partial;
    assert ps[0 + 1..] == ps[1..];
  }

  lemma SkipCharacter(c: char, rest: string, k: nat, v: string)
    requires c != '$'
    ensures ReplaceAll([c] + rest, Placeholder(k), v) == [c] + ReplaceAll(rest, Placeholder(k), v)
  {
    hide ReplaceAll, Digits;
    ReplaceSkips(c, rest, Placeholder(k), v);
  }

  /** The stages from hi down to lo + 1. */
  lemma {:induction false} Stages(ps: seq<Piece>, vals: seq<string>, hi: nat, lo: nat)
    requires Canonical(ps, |vals|) && lo <= hi <= |vals|
    requires forall k :: lo < k <= hi ==> AllPass(vals, k) && Clear(ps, vals, k)
    ensures ReplaceDown(Partial(ps, vals, hi), vals, hi) == ReplaceDown(Partial(ps, vals, lo), vals, lo)
    decreases hi
  {
    hide ReplaceAll, Placeholder, Partial, Canonical, AllPass, Clear;
    if hi > lo {
      OneStage(ps, vals, hi);
      Stages(ps, vals, hi - 1, lo);
    }
  }

  lemma {:induction false} EndStages(ps: seq<Piece>, vals: seq<string>)
    ensures Partial(ps, vals, |vals|) == Render(ps)
    ensures Partial(ps, vals, 0) == Simultaneous(ps, vals)
  {
    if ps != [] {
      EndStages(ps[1..], vals);
    }
  }

  /**
   * A placeholder directly followed by another: the second is at most ten times the first, or
   * its value is not empty and begins with no digit.
   */
  predicate Apart(ps: seq<Piece>, vals: seq<string>)
  {
    forall i :: 0 <= i < |ps| - 1 && ps[i].Param? && ps[i + 1].Param? ==>
      ps[i + 1].k <= 10 * ps[i].k || (1 <= ps[i + 1].k <= |vals| && StartsPlain(vals[ps[i + 1].k - 1]))
  }

  lemma NoDigitNext(ps: seq<Piece>, vals: seq<string>, k: nat)
    requires ps != [] && ps[0].Chr? ==> !IsDigit(ps[0].c)
    requires ps != [] && ps[0].Param? && k < ps[0].k ==> ps[0].k <= |vals| && StartsPlain(vals[ps[0].k - 1])
    ensures !DigitAhead(ps, vals, k)
  {
    hide Digits;
  }

  lemma ApartIsClear(ps: seq<Piece>, vals: seq<string>, k: nat)
    requires Canonical(ps, |vals|) && Apart(ps, vals)
    ensures Clear(ps, vals, k)
  {
    hide DigitAhead, StartsPlain;
    forall i | 0 <= i < |ps| && ps[i].Param? && ps[i].k < k
      ensures !DigitAhead(ps[i + 1..], vals, k) || k < 10 * ps[i].k
    {
      if i + 1 < |ps| {
        assert ps[i + 1..][0] == ps[i + 1];
        if !(ps[i + 1].Param? && k < ps[i + 1].k <= 10 * ps[i].k) {
          NoDigitNext(ps[i + 1..], vals, k);
        }
      } else {
        NoDigitNext(ps[i + 1..], vals, k);
      }
    }
  }

  /** Descending one by one is replacing all at once. */
  lemma DescendingIsSimultaneous(ps: seq<Piece>, vals: seq<string>)
    requires Canonical(ps, |vals|) && Apart(ps, vals) && forall k :: 1 <= k <= |vals| ==> AllPass(vals, k)
    ensures ReplaceDown(Render(ps), vals, |vals|) == Simultaneous(ps, vals)
  {
    hide ReplaceDown, Render, Partial, Simultaneous, Clear, AllPass, Apart, Canonical;
    forall k | 0 < k <= |vals|
      ensures Clear(ps, vals, k)
    {
      ApartIsClear(ps, vals, k);
    }
    EndStages(ps, vals);
    Stages(ps, vals, |vals|, 0);
    NoStage(Partial(ps, vals, 0), vals);
  }

  lemma NoStage(query: string, vals: seq<string>)
    ensures ReplaceDown(query, vals, 0) == query
  {
  }

  /**
   * Without the rule about adjacent placeholders: in $1$11 with 0 as the eleventh value the
   * digits run together, and the tenth value replaces both.
   */
  lemma AdjacentDigitsCollide(vals: seq<string>)
    requires |vals| == 11 && vals[10] == "0" && DollarFree(vals[9])
    ensures ReplaceDown("$1$11", vals, 11) == vals[9]
    ensures Simultaneous([Param(1), Param(11)], vals) == vals[0] + "0"
  {
    SmallPlaceholders();
    hide ReplaceAll, Placeholder, Digits;
    var ps := [Param(1), Param(11)];
    assert ps[1..] == [Param(11)] && [Param(11)][1..] == [];
    assert Simultaneous([Param(11)], vals) == "0" + Simultaneous([], vals);
    SmallerStays(1, 11, "$11", "0");
    ReplaceHits("", "$11", "0");
    EmptyStage(11, "0");
    assert "$1" + "$11" == "$1$11" && "$11" + "" == "$11" && "0" + "" == "0" && "$1" + "0" == "$10";
    assert ReplaceAll("$1$11", Placeholder(11), "0") == "$10";
    ReplaceHits("", "$10", vals[9]);
    EmptyStage(10, vals[9]);
    assert "$10" + "" == "$10" && vals[9] + "" == vals[9];
    assert ReplaceAll("$10", Placeholder(10), vals[9]) == vals[9];
    TwoSteps("$1$11", vals, 11);
    DownKeeps(vals[9], vals, 9);
  }

  lemma SmallPlaceholders()
    ensures Placeholder(1) == "$1" && Placeholder(10) == "$10" && Placeholder(11) == "$11"
  {
    assert Digits(1) == "1" && Digits(11) == Digits(1) + "1" && Digits(10) == Digits(1) + "0";
  }

  lemma TwoSteps(query: string, vals: seq<string>, k: nat)
    requires 2 <= k <= |vals|
    ensures ReplaceDown(query, vals, k)
         == ReplaceDown(ReplaceAll(ReplaceAll(query, Placeholder(k), vals[k - 1]), Placeholder(k - 1), vals[k - 2]), vals, k - 2)
  {
    hide ReplaceAll, Placeholder;
  }

  lemma {:induction false} DownKeeps(query: string, vals: seq<string>, k: nat)
    requires k <= |vals| && DollarFree(query)
    ensures ReplaceDown(query, vals, k) == query
  {
    hide ReplaceAll, Placeholder;
    if k > 0 {
      ReplacePasses(query, "", k, vals[k - 1]);
      EmptyStage(k, vals[k - 1]);
      assert query + "" == query;
      DownKeeps(query, vals, k - 1);
    }
  }

  // ---- From text to pieces ----

  function DigitRun(s: string): (n: nat)
    ensures n <= |s| && AllDigits(s[..n])
    ensures n < |s| ==> !IsDigit(s[n])
  {
    if s == "" || !IsDigit(s[0]) then 0 else 1 + DigitRun(s[1..])
  }

  /** Cuts a text at its placeholders: a dollar sign and the longest run of digits after it. */
  function Cut(s: string): seq<Piece>
    decreases |s|
  {
    if s == "" then []
    else
      var n := if s[0] == '$' then DigitRun(s[1..]) else 0;
      if n > 0 then [Param(Value(s[1..][..n]))] + Cut(s[n + 1..])
      else [Chr(s[0])] + Cut(s[1..])
  }

  /** Every dollar sign begins a placeholder with an index in 1..n and no leading zero. */
  predicate Placeholders(s: string, n: nat)
    decreases |s|
  {
    s != "" ==>
      if s[0] == '$' then
        var r := DigitRun(s[1..]);
        r > 0 && s[1] != '0' && Value(s[1..][..r]) <= n && Placeholders(s[r + 1..], n)
      else Placeholders(s[1..], n)
  }

  lemma CanonicalCons(p: Piece, tail: seq<Piece>, n: nat)
    requires Canonical(tail, n)
    requires if p.Chr? then p.c != '$' else 1 <= p.k <= n
    requires p.Param? && tail != [] && tail[0].Chr? ==> !IsDigit(tail[0].c)
    ensures Canonical([p] + tail, n)
  {
    var ps := [p] + tail;
    forall i | 0 <= i < |ps| - 1 && ps[i].Param? && ps[i + 1].Chr?
      ensures !IsDigit(ps[i + 1].c)
    {
      assert ps[i + 1] == tail[i];
      if i > 0 { assert ps[i] == tail[i - 1] && tail[i - 1 + 1] == tail[i]; }
    }
  }

  lemma {:induction false} CutRenders(s: string, n: nat)
    requires Placeholders(s, n)
    ensures Render(Cut(s)) == s && Canonical(Cut(s), n)
    decreases |s|
  {
    hide Digits, DigitRun, Value, Canonical;
    if s == "" {
      NothingRendered();
      NothingIsCanonical(n);
    } else if s[0] == '$' {
      var r := DigitRun(s[1..]);
      var run, tail := s[1..][..r], Cut(s[r + 1..]);
      CutRenders(s[r + 1..], n);
      DigitsOfValue(run);
      assert s[1..][0] == s[1];
      assert s == "$" + run + s[r + 1..];
      CutHead(s[r + 1..]);
      if r + 1 < |s| { assert s[r + 1] == s[1..][r]; }
      CanonicalCons(Param(Value(run)), tail, n);
      RenderConcat([Param(Value(run))], tail);
    } else {
      CutRenders(s[1..], n);
      CanonicalCons(Chr(s[0]), Cut(s[1..]), n);
      RenderConcat([Chr(s[0])], Cut(s[1..]));
      assert s == [s[0]] + s[1..];
    }
  }

  lemma NothingIsCanonical(n: nat)
    ensures Canonical([], n)
  {
  }

  lemma CutHead(s: string)
    ensures Cut(s) != [] && Cut(s)[0].Chr? ==> s != "" && Cut(s)[0].c == s[0]
  {
    hide DigitRun, Value;
  }

  /**
   * The substitution of executeCatalogQueryExtended, from the query's text: descending global
   * replacement gives the text with all placeholders replaced at once.
   */
  lemma SubstitutionIsSimultaneous(query: string, vals: seq<string>)
    requires Placeholders(query, |vals|) && Apart(Cut(query), vals) && forall k :: 1 <= k <= |vals| ==> AllPass(vals, k)
    ensures ReplaceDown(query, vals, |vals|) == Simultaneous(Cut(query), vals)
  {
    hide ReplaceDown, Render, Simultaneous, Cut, Placeholders, StartsPlain, AllPass, Canonical;
    CutRenders(query, |vals|);
    DescendingIsSimultaneous(Cut(query), vals);
  }

  // ---- Which queries are safe for all dollar-free values ----

  /** A placeholder directly followed by another that is at most ten times as large. */
  predicate NoSwallow(ps: seq<Piece>)
  {
    forall i :: 0 <= i < |ps| - 1 && ps[i].Param? && ps[i + 1].Param? ==> ps[i + 1].k <= 10 * ps[i].k
  }

  ghost predicate AlwaysSimultaneous(query: string, n: nat)
  {
    forall vals: seq<string> :: |vals| == n && AllDollarFree(vals) ==> ReplaceDown(query, vals, n) == Simultaneous(Cut(query), vals)
  }

  /** The pieces after the stages down to j, when value j is the digit 0 and all others are empty. */
  function Erased(ps: seq<Piece>, j: nat): seq<Piece>
  {
    if ps == [] then []
    else (if ps[0].Chr? || ps[0].k < j then [ps[0]] else if ps[0].k == j then [Chr('0')] else []) + Erased(ps[1..], j)
  }

  function OneZero(n: nat, j: nat): (vals: seq<string>)
    requires 1 <= j <= n
    ensures |vals| == n && forall p :: 0 <= p < n ==> vals[p] == if p == j - 1 then "0" else ""
  {
    seq(n, p => if p == j - 1 then "0" else "")
  }

  predicate AllWithin(ps: seq<Piece>, k: nat)
  {
    forall i :: 0 <= i < |ps| ==> if ps[i].Chr? then ps[i].c != '$' else 1 <= ps[i].k <= k
  }

  function Chars(ps: seq<Piece>): nat
  {
    if ps == [] then 0 else (if ps[0].Chr? then 1 else 0) + Chars(ps[1..])
  }

  /** A placeholder that takes the digit 0 after it for its own at some stage up to k. */
  predicate Hot(ps: seq<Piece>, k: nat)
  {
    exists i :: 0 <= i < |ps| - 1 && ps[i].Param? && 10 * ps[i].k <= k && ps[i + 1] == Chr('0')
  }

  lemma {:induction false} ErasedIs(ps: seq<Piece>, n: nat, j: nat)
    requires 1 <= j <= n && AllWithin(ps, n)
    ensures var vals := OneZero(n, j);
      && Render(Erased(ps, j)) == Partial(ps, vals, j - 1)
      && Chars(Erased(ps, j)) == |Simultaneous(ps, vals)|
      && AllWithin(Erased(ps, j), j - 1)
  {
    hide Placeholder;
    if ps != [] {
      ErasedIs(ps[1..], n, j);
      RenderConcat(if ps[0].Chr? || ps[0].k < j then [ps[0]] else if ps[0].k == j then [Chr('0')] else [], Erased(ps[1..], j));
    }
  }

  /** Rendering and counting at most one piece in front. */
  lemma RenderConcat(head: seq<Piece>, tail: seq<Piece>)
    requires |head| <= 1
    ensures Render(head + tail) == (if head == [] then "" else if head[0].Chr? then [head[0].c] else Placeholder(head[0].k)) + Render(tail)
    ensures Chars(head + tail) == (if head != [] && head[0].Chr? then 1 else 0) + Chars(tail)
  {
    hide Placeholder;
    if head == [] {
      assert head + tail == tail && "" + Render(tail) == Render(tail);
    } else {
      assert (head + tail)[1..] == tail;
    }
  }

  lemma {:induction false} ErasedIsHot(ps: seq<Piece>, i: nat, j: nat)
    requires i + 1 < |ps| && ps[i].Param? && ps[i + 1] == Param(j) && 10 * ps[i].k < j
    ensures Hot(Erased(ps, j), j - 1)
  {
    var out := Erased(ps, j);
    if i == 0 {
      assert Erased(ps[1..], j) == [Chr('0')] + Erased(ps[1..][1..], j);
      assert out == [ps[0]] + Erased(ps[1..], j);
      assert out[0].Param? && 10 * out[0].k <= j - 1 && out[0 + 1] == Chr('0');
    } else {
      ErasedIsHot(ps[1..], i - 1, j);
      var rest := Erased(ps[1..], j);
      var h :| 0 <= h < |rest| - 1 && rest[h].Param? && 10 * rest[h].k <= j - 1 && rest[h + 1] == Chr('0');
      var m := |out| - |rest|;
      assert out[h + m] == rest[h] && out[h + m + 1] == rest[h + 1];
    }
  }

  /** What striking out placeholder k leaves: a placeholder goes with the digits that complete it. */
  function Strike(ps: seq<Piece>, k: nat): seq<Piece>
    decreases |ps|
  {
    if ps == [] then []
    else if ps[0].Param? && Placeholder(k) <= Render(ps) then Strike(ps[1..][Taken(ps, k)..], k)
    else [ps[0]] + Strike(ps[1..], k)
  }

  /** How many characters after the first placeholder belong to placeholder k. */
  function Taken(ps: seq<Piece>, k: nat): (n: nat)
    requires ps != [] && ps[0].Param?
    ensures n <= |ps| - 1
  {
    var n := |Digits(k)| - |Digits(ps[0].k)|;
    if n < 0 then 0 else if n > |ps| - 1 then |ps| - 1 else n
  }

  lemma RenderHead(ps: seq<Piece>)
    requires ps != []
    ensures Render(ps) != ""
    ensures ps[0].Chr? ==> Render(ps) == [ps[0].c] + Render(ps[1..])
    ensures ps[0].Param? ==> Render(ps) == "$" + Digits(ps[0].k) + Render(ps[1..]) && Render(ps)[0] == '$'
  {
    hide Digits;
  }

  /** Digits at the beginning of a text are characters of their own. */
  lemma {:induction false} DigitsAreChars(ps: seq<Piece>, w: string)
    requires AllDigits(w) && w <= Render(ps)
    ensures |w| <= |ps| && forall i :: 0 <= i < |w| ==> ps[i] == Chr(w[i])
    ensures Render(ps) == w + Render(ps[|w|..])
    decreases |w|
  {
    hide Digits, Render;
    if w == "" {
      assert ps[0..] == ps && w + Render(ps) == Render(ps);
    } else {
      var r := Render(ps);
      NothingRendered();
      RenderHead(ps);
      assert r[0] == w[0] && IsDigit(w[0]) && !IsDigit('$');
      assert r[1..] == Render(ps[1..]) && w == [w[0]] + w[1..];
      DigitsAreChars(ps[1..], w[1..]);
      assert ps[1..][|w| - 1..] == ps[|w|..];
      forall i | 0 < i < |w|
        ensures ps[i] == Chr(w[i])
      {
        assert ps[1..][i - 1] == Chr(w[1..][i - 1]);
      }
      assert [w[0]] + (w[1..] + Render(ps[|w|..])) == w + Render(ps[|w|..]);
    }
  }

  lemma NothingRendered()
    ensures Render([]) == ""
  {
  }

  /** A number found where the digits of a shorter one stand continues in the text after it. */
  lemma Continues(a: string, k: string, rest: string)
    requires |a| <= |k| && "$" + k <= "$" + a + rest
    ensures k[..|a|] == a && k[|a|..] <= rest
  {
    var r := "$" + a + rest;
    var t := "$" + k;
    assert r[1..] == a + rest && t[1..] == k;
    assert k == (a + rest)[..|k|] by { assert t == r[..|t|]; }
  }

  /** A match at a placeholder takes characters that follow it, none when it is placeholder k itself. */
  lemma MatchTakes(ps: seq<Piece>, k: nat)
    requires ps != [] && ps[0].Param? && ps[0].k <= k && Placeholder(k) <= Render(ps)
    ensures var n := Taken(ps, k);
      && n == |Digits(k)| - |Digits(ps[0].k)| && (n == 0 ==> ps[0].k == k)
      && (forall i :: 0 <= i < n ==> ps[1..][i].Chr?)
      && Render(ps) == Placeholder(k) + Render(ps[1..][n..])
  {
    hide Digits, Render;
    var a := ps[0].k;
    RenderHead(ps);
    LongerDigits(a, k);
    Continues(Digits(a), Digits(k), Render(ps[1..]));
    var w := Digits(k)[|Digits(a)|..];
    assert Digits(k) == Digits(a) + w;
    DigitsAreChars(ps[1..], w);
    if w == "" {
      assert Digits(k) == Digits(a);
      ValueOfDigits(a);
      ValueOfDigits(k);
    }
    var tail := Render(ps[1..][|w|..]);
    assert "$" + Digits(a) + (w + tail) == "$" + (Digits(a) + w) + tail;
  }

  lemma {:induction false} CharsDropped(ps: seq<Piece>, n: nat)
    requires n <= |ps| && forall i :: 0 <= i < n ==> ps[i].Chr?
    ensures Chars(ps) == n + Chars(ps[n..])
  {
    if n > 0 {
      CharsDropped(ps[1..], n - 1);
      assert ps[1..][n - 1..] == ps[n..];
    } else {
      assert ps[0..] == ps;
    }
  }

  lemma OwnMatch(ps: seq<Piece>)
    requires ps != [] && ps[0].Param?
    ensures Placeholder(ps[0].k) <= Render(ps)
  {
    hide Digits, Render;
    RenderHead(ps);
  }

  lemma DigitsOfTen(a: nat)
    requires a >= 1
    ensures Digits(10 * a) == Digits(a) + "0"
  {
    hide Digits;
    DigitsStep(10 * a);
  }

  lemma ZeroMatch(ps: seq<Piece>)
    requires |ps| > 1 && ps[0].Param? && ps[0].k >= 1 && ps[1] == Chr('0')
    ensures Placeholder(10 * ps[0].k) <= Render(ps)
  {
    hide Digits, Render;
    RenderHead(ps);
    RenderHead(ps[1..]);
    DigitsOfTen(ps[0].k);
    Tenfold(Digits(ps[0].k), Render(ps[1..][1..]));
  }

  lemma Tenfold(a: string, tail: string)
    ensures "$" + (a + "0") <= "$" + a + (['0'] + tail)
  {
    assert "$" + a + (['0'] + tail) == "$" + (a + "0") + tail;
  }

  /** A global replacement by nothing strikes out placeholder k. */
  lemma {:induction false} StrikeRenders(ps: seq<Piece>, k: nat)
    requires 1 <= k && AllWithin(ps, k)
    ensures ReplaceAll(Render(ps), Placeholder(k), "") == Render(Strike(ps, k))
    ensures AllWithin(Strike(ps, k), k - 1)
    decreases |ps|
  {
    hide ReplaceAll, Placeholder, Taken;
    if ps == [] {
      EmptyStage(k, "");
    } else if ps[0].Param? && Placeholder(k) <= Render(ps) {
      var rest := ps[1..][Taken(ps, k)..];
      MatchTakes(ps, k);
      StrikeRenders(rest, k);
      PlaceholderNonempty(k);
      ReplaceHits(Render(rest), Placeholder(k), "");
      assert "" + ReplaceAll(Render(rest), Placeholder(k), "") == ReplaceAll(Render(rest), Placeholder(k), "");
    } else {
      StrikeRenders(ps[1..], k);
      var rest, out := Render(ps[1..]), Strike(ps[1..], k);
      RenderConcat([ps[0]], out);
      match ps[0]
      case Chr(c) =>
        SkipCharacter(c, rest, k, "");
      case Param(a) =>
        OwnMatch(ps);
        KeptPlaceholder(a, rest, k);
    }
  }

  /** A placeholder at which placeholder k does not begin stays. */
  lemma KeptPlaceholder(a: nat, rest: string, k: nat)
    requires !(Placeholder(k) <= Placeholder(a) + rest)
    ensures ReplaceAll(Placeholder(a) + rest, Placeholder(k), "") == Placeholder(a) + ReplaceAll(rest, Placeholder(k), "")
  {
    hide ReplaceAll, Digits;
    var t := Placeholder(a) + rest;
    ReplaceKeeps(t, Placeholder(k), "");
    assert t[1..] == Digits(a) + rest;
    DigitsDollarFree(a);
    ReplacePasses(Digits(a), rest, k, "");
    var out := ReplaceAll(rest, Placeholder(k), "");
    assert "$" + (Digits(a) + out) == Placeholder(a) + out;
  }

  /** Striking loses characters, or leaves the placeholder as hot as it was for the stages to come. */
  lemma {:induction false} StrikeCools(ps: seq<Piece>, k: nat)
    requires 1 <= k && AllWithin(ps, k)
    ensures Chars(Strike(ps, k)) <= Chars(ps)
    ensures Hot(ps, k) ==> Chars(Strike(ps, k)) < Chars(ps) || Hot(Strike(ps, k), k - 1)
    decreases |ps|
  {
    hide Placeholder, Taken, Render;
    if ps == [] {
    } else if ps[0].Param? && Placeholder(k) <= Render(ps) {
      var n := Taken(ps, k);
      MatchTakes(ps, k);
      CharsDropped(ps[1..], n);
      StrikeCools(ps[1..][n..], k);
      if Hot(ps, k) && n == 0 {
        assert ps[1..][0..] == ps[1..];
        HotTail(ps, k);
      }
    } else {
      var out := Strike(ps[1..], k);
      StrikeCools(ps[1..], k);
      assert ([ps[0]] + out)[1..] == out;
      if Hot(ps, k) {
        if ps[0].Param? && |ps| > 1 && ps[1] == Chr('0') && 10 * ps[0].k <= k {
          ZeroMatch(ps);
          assert ps[1..][0] == Chr('0');
          assert ([ps[0]] + out)[0 + 1] == Chr('0');
        } else {
          HotTail(ps, k);
          if Hot(out, k - 1) {
            var i :| 0 <= i < |out| - 1 && out[i].Param? && 10 * out[i].k <= k - 1 && out[i + 1] == Chr('0');
            assert ([ps[0]] + out)[i + 1] == out[i] && ([ps[0]] + out)[i + 1 + 1] == out[i + 1];
          }
        }
      }
    }
  }

  lemma HotTail(ps: seq<Piece>, k: nat)
    requires ps != [] && Hot(ps, k) && !(ps[0].Param? && |ps| > 1 && ps[1] == Chr('0') && 10 * ps[0].k <= k)
    ensures Hot(ps[1..], k)
  {
    var i :| 0 <= i < |ps| - 1 && ps[i].Param? && 10 * ps[i].k <= k && ps[i + 1] == Chr('0');
    if i > 0 {
      assert ps[1..][i - 1] == ps[i] && ps[1..][i - 1 + 1] == ps[i + 1];
    }
  }

  /** The remaining stages leave at most the characters, and fewer when some placeholder is hot. */
  lemma {:induction false} StagesLose(ps: seq<Piece>, vals: seq<string>, k: nat)
    requires k <= |vals| && AllWithin(ps, k) && forall p :: 0 <= p < k ==> vals[p] == ""
    ensures |ReplaceDown(Render(ps), vals, k)| <= Chars(ps)
    ensures Hot(ps, k) ==> |ReplaceDown(Render(ps), vals, k)| < Chars(ps)
    decreases k
  {
    hide ReplaceAll, Placeholder, Strike;
    if k == 0 {
      OnlyChars(ps);
    } else {
      StrikeRenders(ps, k);
      StrikeCools(ps, k);
      StagesLose(Strike(ps, k), vals, k - 1);
    }
  }

  lemma {:induction false} OnlyChars(ps: seq<Piece>)
    requires AllWithin(ps, 0)
    ensures |Render(ps)| == Chars(ps) && !Hot(ps, 0)
  {
    if ps != [] {
      OnlyChars(ps[1..]);
    }
  }

  /** Behind a placeholder, emptied values bring no digit forward. */
  lemma {:induction false} EmptyAhead(ps: seq<Piece>, vals: seq<string>, k: nat)
    requires Canonical(ps, |vals|) && (ps != [] && ps[0].Chr? ==> !IsDigit(ps[0].c))
    requires forall p :: k <= p < |vals| ==> vals[p] == ""
    ensures !DigitAhead(ps, vals, k)
  {
    hide Digits;
    if ps != [] && ps[0].Param? && k < ps[0].k {
      CanonicalTail(ps, |vals|);
      HeadIsCanonical(ps, |vals|);
      EmptyAhead(ps[1..], vals, k);
    }
  }

  lemma EmptyIsClear(ps: seq<Piece>, vals: seq<string>, k: nat)
    requires Canonical(ps, |vals|) && forall p :: k <= p < |vals| ==> vals[p] == ""
    ensures Clear(ps, vals, k)
  {
    hide DigitAhead;
    forall i | 0 <= i < |ps| && ps[i].Param? && ps[i].k < k
      ensures !DigitAhead(ps[i + 1..], vals, k)
    {
      CanonicalFrom(ps, |vals|, i + 1);
      if i + 1 < |ps| { assert ps[i + 1..][0] == ps[i + 1]; }
      EmptyAhead(ps[i + 1..], vals, k);
    }
  }

  lemma {:induction false} CanonicalFrom(ps: seq<Piece>, n: nat, i: nat)
    requires Canonical(ps, n) && i <= |ps|
    ensures Canonical(ps[i..], n)
  {
    hide Canonical;
    if i > 0 {
      CanonicalFrom(ps, n, i - 1);
      CanonicalTail(ps[i - 1..], n);
      assert ps[i - 1..][1..] == ps[i..];
    } else {
      assert ps[0..] == ps;
    }
  }

  /** A placeholder followed by one more than ten times as large: a zero as its value is swallowed. */
  lemma SwallowsZero(ps: seq<Piece>, n: nat, i: nat) returns (vals: seq<string>)
    requires Canonical(ps, n) && i + 1 < |ps| && ps[i].Param? && ps[i + 1].Param? && ps[i + 1].k > 10 * ps[i].k
    ensures |vals| == n && AllDollarFree(vals) && ReplaceDown(Render(ps), vals, n) != Simultaneous(ps, vals)
  {
    hide ReplaceDown, Partial, Simultaneous, Render, Clear;
    var j := ps[i + 1].k;
    vals := OneZero(n, j);
    DollarFreePass(vals, j);
    forall k | j - 1 < k <= n
      ensures AllPass(vals, k) && Clear(ps, vals, k)
    {
      DollarFreePass(vals, k);
      EmptyIsClear(ps, vals, k);
    }
    EndStages(ps, vals);
    Stages(ps, vals, n, j - 1);
    ErasedIs(ps, n, j);
    ErasedIsHot(ps, i, j);
    StagesLose(Erased(ps, j), vals, j - 1);
  }

  /**
   * For all dollar-free values the descending replacements are one simultaneous replacement
   * exactly when no placeholder is directly followed by one more than ten times as large.
   */
  lemma SubstitutionExactly(query: string, n: nat)
    requires Placeholders(query, n)
    ensures AlwaysSimultaneous(query, n) <==> NoSwallow(Cut(query))
  {
    hide ReplaceDown, Simultaneous, Cut, Placeholders, Render, Canonical;
    CutRenders(query, n);
    var ps := Cut(query);
    if NoSwallow(ps) {
      forall vals: seq<string> | |vals| == n && AllDollarFree(vals)
        ensures ReplaceDown(query, vals, n) == Simultaneous(ps, vals)
      {
        forall k | 1 <= k <= n ensures AllPass(vals, k) { DollarFreePass(vals, k); }
        DescendingIsSimultaneous(ps, vals);
      }
    } else {
      var i :| 0 <= i < |ps| - 1 && ps[i].Param? && ps[i + 1].Param? && ps[i + 1].k > 10 * ps[i].k;
      var vals := SwallowsZero(ps, n, i);
    }
  }

  // ---- Which parameters are safe for all queries ----

  /** No value contains a placeholder that is replaced after it. */
  predicate NoneInside(vals: seq<string>)
  {
    forall p, k :: 0 <= p < |vals| && 1 <= k <= p ==> !Contains(vals[p], Placeholder(k))
  }

  ghost predicate SafeFor(vals: seq<string>)
  {
    forall query: string :: Placeholders(query, |vals|) ==> ReplaceDown(query, vals, |vals|) == Simultaneous(Cut(query), vals)
  }

  /** A text value is NULL or quoted: neither end can join a placeholder. */
  lemma TextEnds(raw: Option<string>, formats: seq<int>)
    requires formats == [] || formats[0] != 1
    ensures var v := ParamText(raw, formats);
      v[0] in "'N" && !IsDigit(v[0]) && v[|v| - 1] != '$' && !IsDigit(v[|v| - 1])
  {
    hide ReplaceAll;
  }

  predicate TextLike(v: string)
  {
    v != "" && v[0] in "'N" && !IsDigit(v[0]) && v[|v| - 1] != '$' && !IsDigit(v[|v| - 1])
  }

  lemma TextsPass(vals: seq<string>, k: nat)
    requires NoneInside(vals) && 1 <= k && forall p :: 0 <= p < |vals| ==> TextLike(vals[p])
    ensures AllPass(vals, k)
  {
    hide Contains, Digits;
    forall p | k <= p < |vals|
      ensures Passes(vals[p], k)
    {
      assert TextLike(vals[p]);
    }
  }

  lemma TextsApart(ps: seq<Piece>, vals: seq<string>)
    requires Canonical(ps, |vals|) && forall p :: 0 <= p < |vals| ==> TextLike(vals[p])
    ensures Apart(ps, vals)
  {
    forall i | 0 <= i < |ps| - 1 && ps[i].Param? && ps[i + 1].Param?
      ensures StartsPlain(vals[ps[i + 1].k - 1])
    {
      assert TextLike(vals[ps[i + 1].k - 1]);
    }
  }

  /** The quotes and the letters N of a text. */
  function Marks(w: string): nat
  {
    if w == "" then 0 else (if w[0] in "'N" then 1 else 0) + Marks(w[1..])
  }

  lemma {:induction false} MarksSplit(a: string, b: string)
    ensures Marks(a + b) == Marks(a) + Marks(b)
    decreases |a|
  {
    if a == "" {
      assert a + b == b;
    } else {
      MarksSplit(a[1..], b);
      assert (a + b)[1..] == a[1..] + b;
    }
  }

  lemma {:induction false} NoMarks(w: string)
    requires forall i :: 0 <= i < |w| ==> w[i] !in "'N"
    ensures Marks(w) == 0
  {
    if w != "" { NoMarks(w[1..]); }
  }

  lemma PlaceholderMarks(k: nat)
    ensures Marks(Placeholder(k)) == 0
  {
    hide Digits;
    NoMarks(Placeholder(k));
  }

  lemma FoundLater(w: string, old_: string)
    requires w != "" && Contains(w, old_) && !(old_ <= w)
    ensures Contains(w[1..], old_)
  {
    var i := Index(w, old_);
    assert OccursAt(w, old_, 0) <==> old_ <= w;
    assert w[1..][i - 1..i - 1 + |old_|] == w[i..i + |old_|];
    assert OccursAt(w[1..], old_, i - 1);
  }

  lemma NotInNothing(old_: string)
    requires old_ != ""
    ensures !Contains("", old_)
  {
  }

  lemma MarksStep(w: string)
    requires w != ""
    ensures Marks(w) == (if w[0] in "'N" then 1 else 0) + Marks(w[1..])
  {
  }

  /** Putting in a marked value adds marks and takes none. */
  lemma {:induction false} MarksGrow(w: string, k: nat, v: string)
    requires Marks(v) > 0
    ensures Marks(ReplaceAll(w, Placeholder(k), v)) >= Marks(w) + if Contains(w, Placeholder(k)) then 1 else 0
    decreases |w|
  {
    hide ReplaceAll, Contains, Marks, Placeholder;
    var p := Placeholder(k);
    PlaceholderNonempty(k);
    if w == "" {
      NotInNothing(p);
      EmptyStage(k, v);
    } else if p <= w {
      var rest := w[|p|..];
      assert w == p + rest;
      MarksGrow(rest, k, v);
      ReplaceHits(rest, p, v);
      PlaceholderMarks(k);
      MarksSplit(p, rest);
      MarksSplit(v, ReplaceAll(rest, p, v));
    } else {
      MarksGrow(w[1..], k, v);
      ReplaceKeeps(w, p, v);
      var out := ReplaceAll(w[1..], p, v);
      MarksStep(w);
      MarksStep([w[0]] + out);
      assert ([w[0]] + out)[1..] == out;
      if Contains(w, p) { FoundLater(w, p); }
    }
  }

  /** A text that holds some placeholder is changed by the stages. */
  lemma {:induction false} StagesMark(w: string, vals: seq<string>, m: nat)
    requires m <= |vals| && forall p :: 0 <= p < |vals| ==> Marks(vals[p]) > 0
    ensures Marks(ReplaceDown(w, vals, m)) >= Marks(w)
    ensures (exists k :: 1 <= k <= m && Contains(w, Placeholder(k))) ==> Marks(ReplaceDown(w, vals, m)) > Marks(w)
    decreases m
  {
    hide ReplaceAll, Contains, Marks, Placeholder;
    if m > 0 {
      MarksGrow(w, m, vals[m - 1]);
      PlaceholderNonempty(m);
      var out := ReplaceAll(w, Placeholder(m), vals[m - 1]);
      StagesMark(out, vals, m - 1);
      if !Contains(w, Placeholder(m)) {
        ReplaceNone(w, "", Placeholder(m), vals[m - 1]);
        EmptyStage(m, vals[m - 1]);
        assert w + "" == w;
      }
    }
  }

  lemma FirstDigit(j: nat)
    requires j >= 1
    ensures Digits(j)[0] != '0'
  {
  }

  lemma {:induction false} RunOfDigits(w: string)
    requires AllDigits(w)
    ensures DigitRun(w) == |w|
  {
    if w != "" { RunOfDigits(w[1..]); }
  }

  /** A query that is one placeholder. */
  lemma OnePlaceholder(j: nat, n: nat)
    requires 1 <= j <= n
    ensures Placeholders(Placeholder(j), n) && Cut(Placeholder(j)) == [Param(j)]
  {
    hide Digits, DigitRun, Value;
    var s := Placeholder(j);
    var w := Digits(j);
    assert s[1..] == w && w[..|w|] == w && s[|w| + 1..] == "";
    assert s[1] == w[0];
    RunOfDigits(w);
    ValueOfDigits(j);
    FirstDigit(j);
  }

  lemma {:induction false} ReachesValue(j: nat, vals: seq<string>, hi: nat)
    requires 1 <= j <= hi <= |vals|
    ensures ReplaceDown(Placeholder(j), vals, hi) == ReplaceDown(vals[j - 1], vals, j - 1)
    decreases hi
  {
    hide ReplaceAll, Placeholder;
    var v := vals[hi - 1];
    EmptyStage(hi, v);
    if j == hi {
      PlaceholderNonempty(j);
      ReplaceHits("", Placeholder(j), v);
      assert Placeholder(j) + "" == Placeholder(j) && v + "" == v;
    } else {
      SmallerStays(j, hi, "", v);
      assert Placeholder(j) + "" == Placeholder(j);
      ReachesValue(j, vals, hi - 1);
    }
  }

  /** A value that holds a smaller placeholder is spoilt in the query that consists of its own. */
  lemma SpoiltValue(vals: seq<string>, j: nat, k: nat)
    requires 1 <= k < j <= |vals| && Contains(vals[j - 1], Placeholder(k))
    requires forall p :: 0 <= p < |vals| ==> TextLike(vals[p])
    ensures !SafeFor(vals)
  {
    hide ReplaceDown, Contains, Placeholder, Cut;
    forall p | 0 <= p < |vals|
      ensures Marks(vals[p]) > 0
    {
      assert TextLike(vals[p]);
    }
    hide Marks;
    OnePlaceholder(j, |vals|);
    ReachesValue(j, vals, |vals|);
    StagesMark(vals[j - 1], vals, j - 1);
    assert [Param(j)][1..] == [] && vals[j - 1] + "" == vals[j - 1];
    assert Simultaneous([Param(j)], vals) == vals[j - 1];
    assert ReplaceDown(Placeholder(j), vals, |vals|) != Simultaneous(Cut(Placeholder(j)), vals);
  }

  /**
   * Parameters sent as text become NULL or a quoted literal, so placeholders may stand side by
   * side. They are put in place simultaneously, whatever the query, exactly when no value
   * contains a placeholder with a smaller number.
   */
  lemma TextParameters(parameters: seq<Option<string>>, formats: seq<int>)
    requires formats == [] || formats[0] != 1
    ensures var vals := ParamTexts(parameters, formats); SafeFor(vals) <==> NoneInside(vals)
  {
    hide ReplaceDown, Simultaneous, Cut, Placeholders, Contains, Placeholder, NoneInside, ParamText, Canonical;
    var vals := ParamTexts(parameters, formats);
    forall p | 0 <= p < |vals|
      ensures TextLike(vals[p])
    {
      TextEnds(parameters[p], formats);
    }
    hide TextLike;
    if NoneInside(vals) {
      forall query: string | Placeholders(query, |vals|)
        ensures ReplaceDown(query, vals, |vals|) == Simultaneous(Cut(query), vals)
      {
        forall k | 1 <= k <= |vals| ensures AllPass(vals, k) { TextsPass(vals, k); }
        CutRenders(query, |vals|);
        TextsApart(Cut(query), vals);
        SubstitutionIsSimultaneous(query, vals);
      }
    } else {
      var j, k := HoldsOne(vals);
      SpoiltValue(vals, j, k);
    }
  }

  lemma HoldsOne(vals: seq<string>) returns (j: nat, k: nat)
    requires !NoneInside(vals)
    ensures 1 <= k < j <= |vals| && Contains(vals[j - 1], Placeholder(k))
  {
    hide Contains, Placeholder;
    var p;
    p, k :| 0 <= p < |vals| && 1 <= k <= p && Contains(vals[p], Placeholder(k));
    j := p + 1;
  }

  /** A dollar sign inside a value: the text $1 as the second parameter is taken for the first. */
  lemma DollarDisturbs()
    ensures var vals := ParamTexts([Some("x"), Some("$1")], []);
      vals == ["'x'", "'$1'"] && !SafeFor(vals)
  {
    hide ReplaceAll, SafeFor, Digits;
    PlainText("x");
    PlainText("$1");
    var vals := ParamTexts([Some("x"), Some("$1")], []);
    assert "'" + "x" + "'" == "'x'" && "'" + "$1" + "'" == "'$1'";
    assert vals == ["'x'", "'$1'"];
    hide NoneInside;
    TextParameters([Some("x"), Some("$1")], []);
    if NoneInside(vals) { HoldsFirst(vals); }
  }

  lemma PlainText(w: string)
    requires w in {"x", "$1"}
    ensures ParamText(Some(w), []) == "'" + w + "'"
  {
    hide ReplaceAll, Contains;
    NoQuote(w);
    ReplaceNone(w, "", "'", "''");
    assert ReplaceAll("", "'", "''") == "" by { NothingReplaced(); }
    assert w + "" == w;
  }

  lemma NothingReplaced()
    ensures ReplaceAll("", "'", "''") == ""
  {
  }

  lemma NoQuote(w: string)
    requires w in {"x", "$1"}
    ensures !Contains(w, "'")
  {
    forall i | 0 <= i <= |w|
      ensures !OccursAt(w, "'", i)
    {
      if i < |w| { assert w[i..i + 1][0] == w[i]; }
    }
  }

  lemma HoldsFirst(vals: seq<string>)
    requires |vals| == 2 && vals[1] == "'$1'"
    ensures !NoneInside(vals)
  {
    SmallPlaceholders();
    hide Digits;
    assert vals[1][1..3] == "$1";
    assert OccursAt(vals[1], "$1", 1);
    assert Contains(vals[1], Placeholder(1));
  }

  // ---- Counting ----

  function Max(a: nat, b: nat): nat
  {
    if a < b then b else a
  }

  /** The highest number after a dollar sign, or 0. */
  function HighestParam(ps: seq<Piece>): (n: nat)
    ensures forall i :: 0 <= i < |ps| ==> ps[i].Param? ==> ps[i].k <= n
    ensures n > 0 ==> Param(n) in ps
  {
    if ps == [] then 0
    else if ps[0].Chr? then HighestParam(ps[1..]) else Max(ps[0].k, HighestParam(ps[1..]))
  }

  /** countParams: as many unknown OIDs as the highest placeholder in the text. */
  method CountParams(query: string) returns (oids: seq<nat>)
    ensures |oids| == HighestParam(Cut(query)) && forall i :: 0 <= i < |oids| ==> oids[i] == 0
  {
    var matches := Cut(query);
    var maxParam: nat := 0;
    for i := 0 to |matches|
      invariant Max(maxParam, HighestParam(matches[i..])) == HighestParam(matches)
    {
      assert matches[i..][1..] == matches[i + 1..];
      if matches[i].Param? && matches[i].k > maxParam {
        maxParam := matches[i].k;
      }
    }
    oids := seq(maxParam, _ => 0);
  }
}

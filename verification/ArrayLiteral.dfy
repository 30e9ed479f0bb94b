/**
 * PostgreSQL array literals (internal/proxy/postgresql/array.go): the element parser, the
 * printers it inverts, and the conversion to a list and back. JSON text is represented by the
 * list it stands for.
 */
module ArrayLiteral {
  import opened Sequences
  import opened Texts

  // ---- The parser ----

  /** An element as accumulated: trimmed, then unquoted with doubled quotes collapsed. */
  function Finish(current: string): string
  {
    var e := TrimSpace(current);
    if |e| >= 2 && e[0] == '"' && e[|e| - 1] == '"' then Collapse(e[1..|e| - 1]) else e
  }

  function Collapse(s: string): string
  {
    ReplaceAll(s, "\"\"", "\"")
  }

  /** Nothing accumulated yields no element. */
  function Emit(current: string): seq<string>
  {
    if Finish(current) != "" || |current| > 0 then [Finish(current)] else []
  }

  /** The elements of the rest of the text, given what is accumulated and the two flags. */
  function Elements(s: string, current: string, inQuotes: bool, escaped: bool): seq<string>
    decreases |s|
  {
    if s == "" then Emit(current)
    else if escaped then Elements(s[1..], current + [s[0]], inQuotes, false)
    else if s[0] == '\\' then Elements(s[1..], current, inQuotes, true)
    else if s[0] == '"' then Elements(s[1..], current + [s[0]], !inQuotes, false)
    else if s[0] == ',' && !inQuotes then Emit(current) + Elements(s[1..], "", inQuotes, false)
    else Elements(s[1..], current + [s[0]], inQuotes, false)
  }

  method ParsePGArrayElements(inner: string) returns (elements: seq<string>)
    ensures elements == Elements(inner, "", false, false)
  {
    hide Finish;
    elements := [];
    var current := "";
    var inQuotes, escaped := false, false;
    var i := 0;
    while i < |inner|
      invariant 0 <= i <= |inner|
      invariant elements + Elements(inner[i..], current, inQuotes, escaped) == Elements(inner, "", false, false)
    {
      var ch := inner[i];
      assert inner[i..][1..] == inner[i + 1..];
      i := i + 1;
      if escaped {
        current := current + [ch];
        escaped := false;
        continue;
      }
      match ch
      case '\\' =>
        escaped := true;
      case '"' =>
        inQuotes := !inQuotes;
        current := current + [ch];
      case ',' =>
        if inQuotes {
          current := current + [ch];
        } else {
          ghost var rest := Elements(inner[i..], "", inQuotes, false);
          var elem := Finish(current);
          if elem != "" || |current| > 0 {
            assert elements + ([elem] + rest) == elements + [elem] + rest;
            elements := elements + [elem];
          } else {
            assert elements + ([] + rest) == elements + rest;
          }
          current := "";
        }
      case _ =>
        current := current + [ch];
    }
    var elem := Finish(current);
    if elem != "" || |current| > 0 {
      elements := elements + [elem];
    }
  }

  // ---- The printers ----

  /** Three ways to write an element: quotes doubled, quotes escaped, or as it is. */
  datatype Style = Doubled | Escaped | Bare

  /** An element that may be written without quotes. */
  predicate Plain(e: string)
  {
    e != "" && Trimmed(e) && forall i :: 0 <= i < |e| ==> e[i] != ',' && e[i] != '"' && e[i] != '\\'
  }

  predicate MayPrint(style: Style, e: string)
  {
    style.Bare? ==> Plain(e)
  }

  /** How a character of an element is written. */
  function PrintChar(style: Style, c: char): string
  {
    if style.Bare? then [c]
    else if c == '\\' then ['\\', '\\']
    else if c == '"' then (if style.Doubled? then ['"', '"'] else ['\\', '"'])
    else [c]
  }

  function Body(style: Style, e: string): string
  {
    if e == "" then "" else PrintChar(style, e[0]) + Body(style, e[1..])
  }

  function PrintElement(style: Style, e: string): string
  {
    if style.Bare? then Body(style, e) else ['"'] + Body(style, e) + ['"']
  }

  function Printed(styles: seq<Style>, es: seq<string>): (parts: seq<string>)
    requires |styles| == |es|
    ensures |parts| == |es|
  {
    seq(|es|, i requires 0 <= i < |es| => PrintElement(styles[i], es[i]))
  }

  // ---- What the parser makes of a printed element ----

  /** What a written character adds to the accumulated text: quotes are kept, escapes are not. */
  function KeptChar(style: Style, c: char): string
  {
    if style.Doubled? && c == '"' then ['"', '"'] else [c]
  }

  function Accumulated(style: Style, e: string): string
  {
    if e == "" then "" else KeptChar(style, e[0]) + Accumulated(style, e[1..])
  }

  /** One character read inside quotes. */
  lemma StepQuoted(c: char, s: string, current: string, escaped: bool)
    ensures Elements([c] + s, current, true, escaped) ==
      if !escaped && c == '\\' then Elements(s, current, true, true)
      else Elements(s, current + [c], if !escaped && c == '"' then false else true, false)
  {
    hide Emit;
    assert ([c] + s)[1..] == s;
  }

  /** One character read outside quotes. */
  lemma StepBare(c: char, s: string, current: string)
    requires c != ',' && c != '\\'
    ensures Elements([c] + s, current, false, false) == Elements(s, current + [c], c == '"', false)
  {
    hide Emit;
    assert ([c] + s)[1..] == s;
  }

  lemma ReadCharacter(style: Style, c: char, tail: string, current: string)
    requires !style.Bare?
    ensures Elements(PrintChar(style, c) + tail, current, true, false)
         == Elements(tail, current + KeptChar(style, c), true, false)
  {
    hide Elements;
    var b := PrintChar(style, c) + tail;
    if c == '"' && style.Doubled? {
      StepQuoted('"', ['"'] + tail, current, false);
      StepBare('"', tail, current + ['"']);
      assert current + ['"'] + ['"'] == current + ['"', '"'];
      assert b == [c] + ([c] + tail);
    } else if c == '\\' || c == '"' {
      StepQuoted('\\', [c] + tail, current, false);
      StepQuoted(c, tail, current, true);
      assert b == ['\\'] + ([c] + tail);
    } else {
      StepQuoted(c, tail, current, false);
    }
  }

  lemma {:induction false} ReadBody(style: Style, e: string, rest: string, current: string)
    requires !style.Bare?
    ensures Elements(Body(style, e) + rest, current, true, false)
         == Elements(rest, current + Accumulated(style, e), true, false)
    decreases |e|
  {
    hide Elements, PrintChar, KeptChar;
    if e == "" {
      assert Body(style, e) + rest == rest && current + "" == current;
    } else {
      var next := KeptChar(style, e[0]);
      var tail := Body(style, e[1..]) + rest;
      ReadCharacter(style, e[0], tail, current);
      ReadBody(style, e[1..], rest, current + next);
      assert Body(style, e) + rest == PrintChar(style, e[0]) + tail;
      assert current + Accumulated(style, e) == current + next + Accumulated(style, e[1..]);
    }
  }

  lemma {:induction false} ReadBare(e: string, rest: string, current: string)
    requires forall i :: 0 <= i < |e| ==> e[i] != ',' && e[i] != '"' && e[i] != '\\'
    ensures Elements(Body(Bare, e) + rest, current, false, false)
         == Elements(rest, current + e, false, false)
    decreases |e|
  {
    hide Elements;
    if e == "" {
      assert Body(Bare, e) + rest == rest && current + "" == current;
    } else {
      var tail := Body(Bare, e[1..]) + rest;
      assert Body(Bare, e) + rest == [e[0]] + tail;
      StepBare(e[0], tail, current);
      ReadBare(e[1..], rest, current + [e[0]]);
      assert current + [e[0]] + e[1..] == current + e;
    }
  }

  function Raw(style: Style, e: string): string
  {
    if style.Bare? then e else ['"'] + Accumulated(style, e) + ['"']
  }

  lemma ReadElement(style: Style, e: string, rest: string)
    requires MayPrint(style, e)
    ensures style.Bare? ==> Raw(style, e) == e
    ensures Elements(PrintElement(style, e) + rest, "", false, false) == Elements(rest, Raw(style, e), false, false)
  {
    hide Elements;
    if style.Bare? {
      ReadBare(e, rest, "");
      assert "" + e == e;
    } else {
      var tail := ['"'] + rest;
      StepBare('"', Body(style, e) + tail, "");
      ReadBody(style, e, tail, ['"']);
      StepQuoted('"', rest, ['"'] + Accumulated(style, e), false);
      assert PrintElement(style, e) + rest == ['"'] + (Body(style, e) + tail);
      assert "" + ['"'] == ['"'];
    }
  }

  lemma {:induction false} CollapseDoubled(e: string)
    ensures Collapse(Accumulated(Doubled, e)) == e
  {
    hide ReplaceAll;
    if e == "" {
      NothingToReplace();
    } else {
      var c, t := e[0], e[1..];
      CollapseDoubled(t);
      if c == '"' {
        ReplaceHits(Accumulated(Doubled, t), "\"\"", "\"");
      } else {
        ReplaceSkips(c, Accumulated(Doubled, t), "\"\"", "\"");
      }
      assert e == [c] + t;
    }
  }

  lemma NothingToReplace()
    ensures Collapse("") == ""
  {
  }

  lemma {:induction false} AccumulatedVerbatim(style: Style, e: string)
    requires !style.Doubled?
    ensures Accumulated(style, e) == e
  {
    if e != "" {
      AccumulatedVerbatim(style, e[1..]);
      assert e == [e[0]] + e[1..];
    }
  }

  /** What is left of an element once parsed: only escaping loses text, at adjacent quotes. */
  function Parsed(style: Style, e: string): string
  {
    if style.Escaped? then Collapse(e) else e
  }

  lemma QuoteIsNoSpace()
    ensures !IsSpace('"')
  {
  }

  lemma FinishQuoted(inner: string)
    ensures Finish(['"'] + inner + ['"']) == Collapse(inner)
  {
    hide Collapse, TrimSpace, IsSpace;
    var raw := ['"'] + inner + ['"'];
    QuoteIsNoSpace();
    assert raw[0] == '"' && raw[|raw| - 1] == '"';
    TrimmedStays(raw);
    assert raw[1..|raw| - 1] == inner;
  }

  lemma FinishRaw(style: Style, e: string)
    requires MayPrint(style, e)
    ensures Emit(Raw(style, e)) == [Parsed(style, e)]
  {
    hide Collapse, Accumulated, TrimSpace;
    if style.Bare? {
      TrimmedStays(e);
      assert e[0] != '"';
    } else {
      FinishQuoted(Accumulated(style, e));
      if style.Doubled? {
        CollapseDoubled(e);
      } else {
        AccumulatedVerbatim(style, e);
      }
    }
  }

  function ParsedAll(styles: seq<Style>, es: seq<string>): (out: seq<string>)
    requires |styles| == |es|
    ensures |out| == |es|
  {
    seq(|es|, i requires 0 <= i < |es| => Parsed(styles[i], es[i]))
  }

  /** Every non-empty list, each element written in any style it may be, is parsed element by element. */
  lemma {:induction false} ParsesPrinted(styles: seq<Style>, es: seq<string>)
    requires |styles| == |es| && es != []
    requires forall i :: 0 <= i < |es| ==> MayPrint(styles[i], es[i])
    ensures Elements(Join(Printed(styles, es), ","), "", false, false) == ParsedAll(styles, es)
    decreases |es|
  {
    hide PrintElement, Emit, Raw, Parsed;
    var parts := Printed(styles, es);
    FinishRaw(styles[0], es[0]);
    if |es| == 1 {
      ReadElement(styles[0], es[0], "");
      assert parts[0] + "" == parts[0];
    } else {
      assert parts[1..] == Printed(styles[1..], es[1..]);
      var tail := Join(parts[1..], ",");
      ReadElement(styles[0], es[0], "," + tail);
      ParsesPrinted(styles[1..], es[1..]);
      assert Join(parts, ",") == parts[0] + ("," + tail);
      assert ("," + tail)[1..] == tail;
      assert ParsedAll(styles, es) == [Parsed(styles[0], es[0])] + ParsedAll(styles[1..], es[1..]);
    }
  }

  // ---- Which printers the parser inverts ----

  function AllStyled(style: Style, n: nat): (styles: seq<Style>)
    ensures |styles| == n
    ensures forall i :: 0 <= i < n ==> styles[i] == style
  {
    seq(n, _ => style)
  }

  /** Doubling quotes and escaping backslashes is inverted for every non-empty list of arbitrary strings. */
  lemma InvertsDoubling(es: seq<string>)
    requires es != []
    ensures Elements(Join(Printed(AllStyled(Doubled, |es|), es), ","), "", false, false) == es
  {
    hide Elements, Printed;
    ParsesPrinted(AllStyled(Doubled, |es|), es);
  }

  predicate AdjacentQuotes(e: string)
  {
    exists i :: 0 <= i < |e| - 1 && e[i] == '"' && e[i + 1] == '"'
  }

  lemma {:induction false} CollapseKeeps(e: string)
    ensures |Collapse(e)| <= |e|
    ensures Collapse(e) == e <==> !AdjacentQuotes(e)
    decreases |e|
  {
    if |e| < 2 {
    } else if e[..2] == "\"\"" {
      CollapseKeeps(e[2..]);
      assert e[0] == '"' && e[0 + 1] == '"';
    } else {
      CollapseKeeps(e[1..]);
      assert e == [e[0]] + e[1..];
      assert e[..2] == [e[0], e[1]];
      if AdjacentQuotes(e) {
        var i :| 0 <= i < |e| - 1 && e[i] == '"' && e[i + 1] == '"';
        assert e[1..][i - 1] == '"' && e[1..][i - 1 + 1] == '"';
      }
      if AdjacentQuotes(e[1..]) {
        var i :| 0 <= i < |e[1..]| - 1 && e[1..][i] == '"' && e[1..][i + 1] == '"';
        assert e[i + 1] == '"' && e[i + 1 + 1] == '"';
      }
    }
  }

  /**
   * The backslash form (array_out in section 8.15.6 of the PostgreSQL 16 documentation), quoting
   * any subset of the elements that contains all those that need it, is inverted exactly when no
   * quoted element has two adjacent double quotes.
   */
  lemma InvertsEscapingExactly(styles: seq<Style>, es: seq<string>)
    requires |styles| == |es| && es != []
    requires forall i :: 0 <= i < |es| ==> !styles[i].Doubled? && MayPrint(styles[i], es[i])
    ensures Elements(Join(Printed(styles, es), ","), "", false, false) == es
       <==> forall i :: 0 <= i < |es| ==> !(styles[i].Escaped? && AdjacentQuotes(es[i]))
  {
    hide Elements, Printed, Collapse, AdjacentQuotes;
    ParsesPrinted(styles, es);
    var out := ParsedAll(styles, es);
    forall i | 0 <= i < |es|
      ensures out[i] == es[i] <==> !(styles[i].Escaped? && AdjacentQuotes(es[i]))
    {
      CollapseKeeps(es[i]);
    }
    if forall i :: 0 <= i < |es| ==> out[i] == es[i] {
      assert out == es;
    }
  }

  // ---- ToPG and ToMySQL ----

  /** The JSON text a conversion yields: a list of strings, JSON null for no elements, or the input itself. */
  datatype Converted = List(es: seq<string>) | NullJson | Verbatim(text: string)

  /** ToPG in json mode, on the list its JSON argument stands for. */
  function ToPG(es: seq<string>): string
  {
    if es == [] then "{}" else "{" + Join(es, ",") + "}"
  }

  method ToMySQL(literal: string) returns (r: Converted)
    ensures r == ToMySQLSpec(literal)
  {
    var s := TrimSpace(literal);
    if HasPrefix(s, "{") && HasSuffix(s, "}") {
      var inner := s[1..|s| - 1];
      if inner == "" {
        return List([]);
      }
      var elements := ParsePGArrayElements(inner);
      return if elements == [] then NullJson else List(elements);
    }
    if HasPrefix(s, "[") {
      return Verbatim(s);
    }
    return List([s]);
  }

  function ToMySQLSpec(literal: string): Converted
  {
    var s := TrimSpace(literal);
    if HasPrefix(s, "{") && HasSuffix(s, "}") then
      var inner := s[1..|s| - 1];
      var es := Elements(inner, "", false, false);
      if inner == "" then List([]) else if es == [] then NullJson else List(es)
    else if HasPrefix(s, "[") then Verbatim(s)
    else List([s])
  }

  // ---- Which lists come back ----

  /** An odd number of quotes: a quote is left open. */
  predicate OddQuotes(e: string)
  {
    e != "" && OddQuotes(e[..|e| - 1]) != (e[|e| - 1] == '"')
  }

  /** Every comma stands after an odd number of quotes. */
  predicate CommasInside(e: string)
  {
    forall i :: 0 <= i < |e| && e[i] == ',' ==> OddQuotes(e[..i])
  }

  /** An element that survives unquoted printing. */
  predicate Survives(e: string)
  {
    && e != "" && Trimmed(e) && '\\' !in e
    && !(|e| >= 2 && e[0] == '"' && e[|e| - 1] == '"')
    && CommasInside(e)
  }

  /** Every element survives, and only the last may leave a quote open. */
  predicate ComesBack(es: seq<string>)
  {
    && (forall i :: 0 <= i < |es| ==> Survives(es[i]))
    && (forall i :: 0 <= i < |es| - 1 ==> !OddQuotes(es[i]))
  }

  lemma StepKept(c: char, s: string, current: string, inQuotes: bool)
    requires c != '\\' && (c == ',' ==> inQuotes)
    ensures Elements([c] + s, current, inQuotes, false) == Elements(s, current + [c], inQuotes != (c == '"'), false)
  {
    hide Emit;
    assert ([c] + s)[1..] == s;
  }

  lemma StepComma(s: string, current: string)
    ensures Elements("," + s, current, false, false) == Emit(current) + Elements(s, "", false, false)
  {
    hide Emit;
    assert ("," + s)[1..] == s;
  }

  lemma OddSnoc(e: string, c: char)
    ensures OddQuotes(e + [c]) == (OddQuotes(e) != (c == '"'))
  {
    assert (e + [c])[..|e|] == e;
  }

  lemma {:induction false} ReadsSurvivor(e: string, i: nat, rest: string)
    requires '\\' !in e && CommasInside(e) && i <= |e|
    ensures Elements(e[i..] + rest, e[..i], OddQuotes(e[..i]), false) == Elements(rest, e, OddQuotes(e), false)
    decreases |e| - i
  {
    hide Elements, OddQuotes;
    if i == |e| {
      assert e[i..] + rest == rest && e[..i] == e;
    } else {
      assert e[i..] + rest == [e[i]] + (e[i + 1..] + rest);
      assert e[..i + 1] == e[..i] + [e[i]];
      OddSnoc(e[..i], e[i]);
      StepKept(e[i], e[i + 1..] + rest, e[..i], OddQuotes(e[..i]));
      ReadsSurvivor(e, i + 1, rest);
    }
  }

  lemma EmitsSurvivor(e: string)
    requires Survives(e)
    ensures Emit(e) == [e]
  {
    hide TrimSpace, Collapse, CommasInside;
    TrimmedStays(e);
  }

  lemma NoneOpen()
    ensures !OddQuotes("")
  {
  }

  lemma LastElement(current: string, inQuotes: bool)
    ensures Elements("", current, inQuotes, false) == Emit(current)
  {
  }

  lemma {:induction false} ReadsBack(es: seq<string>)
    requires ComesBack(es) && es != []
    ensures Elements(Join(es, ","), "", false, false) == es
    decreases |es|
  {
    hide Elements, Emit, Survives, OddQuotes;
    var e := es[0];
    assert Survives(e);
    EmitsSurvivor(e);
    SurvivesParts(e);
    NoneOpen();
    assert e[0..] == e && e[..0] == "";
    if |es| == 1 {
      ReadsSurvivor(e, 0, "");
      assert e + "" == e;
      LastElement(e, OddQuotes(e));
    } else {
      var tail := Join(es[1..], ",");
      ReadsSurvivor(e, 0, "," + tail);
      assert Join(es, ",") == e + ("," + tail);
      StepComma(tail, e);
      ReadsBack(es[1..]);
      assert es == [e] + es[1..];
    }
  }

  lemma SurvivesParts(e: string)
    requires Survives(e)
    ensures '\\' !in e && CommasInside(e)
  {
  }

  // ---- Other lists lose something ----

  function Weight(es: seq<string>): nat
  {
    if es == [] then 0 else |es[0]| + 1 + Weight(es[1..])
  }

  lemma {:induction false} WeightSplit(a: seq<string>, b: seq<string>)
    ensures Weight(a + b) == Weight(a) + Weight(b)
  {
    if a == [] {
      assert a + b == b;
    } else {
      WeightSplit(a[1..], b);
      assert (a + b)[1..] == a[1..] + b;
    }
  }

  lemma {:induction false} WeightOfJoin(es: seq<string>)
    requires es != []
    ensures Weight(es) == |Join(es, ",")| + 1
  {
    if |es| > 1 {
      WeightOfJoin(es[1..]);
    } else {
      assert es[1..] == [];
    }
  }

  lemma TrimShrinks(s: string)
    ensures |TrimSpace(s)| <= |s|
    ensures |TrimSpace(s)| == |s| ==> TrimSpace(s) == s && Trimmed(s)
  {
  }

  /** Emitting costs nothing exactly for a text that is kept as it is. */
  lemma EmitWeight(current: string)
    ensures Weight(Emit(current)) <= |current| + 1
    ensures Weight(Emit(current)) == |current| + 1 ==>
      && Emit(current) == [current] && current != "" && Trimmed(current)
      && !(|current| >= 2 && current[0] == '"' && current[|current| - 1] == '"')
  {
    hide TrimSpace, Collapse;
    TrimShrinks(current);
    var e := TrimSpace(current);
    if |e| >= 2 && e[0] == '"' && e[|e| - 1] == '"' {
      CollapseKeeps(e[1..|e| - 1]);
    }
    assert [Finish(current)][1..] == [];
  }

  /** The parsed elements weigh at most the text they come from. */
  lemma {:induction false} WeightBound(s: string, current: string, inQuotes: bool, escaped: bool)
    ensures Weight(Elements(s, current, inQuotes, escaped)) <= |current| + |s| + 1
    decreases |s|
  {
    hide Emit, Weight;
    EmitWeight(current);
    if s == "" {
    } else if escaped {
      WeightBound(s[1..], current + [s[0]], inQuotes, false);
    } else if s[0] == '\\' {
      WeightBound(s[1..], current, inQuotes, true);
    } else if s[0] == '"' {
      WeightBound(s[1..], current + [s[0]], !inQuotes, false);
    } else if s[0] == ',' && !inQuotes {
      WeightSplit(Emit(current), Elements(s[1..], "", inQuotes, false));
      WeightBound(s[1..], "", inQuotes, false);
    } else {
      WeightBound(s[1..], current + [s[0]], inQuotes, false);
    }
  }

  lemma CommasSnoc(current: string, c: char)
    requires CommasInside(current) && (c == ',' ==> OddQuotes(current))
    ensures CommasInside(current + [c])
  {
    hide OddQuotes;
    var e := current + [c];
    forall i | 0 <= i < |e| && e[i] == ','
      ensures OddQuotes(e[..i])
    {
      assert e[..i] == current[..i];
      if i == |current| { assert current[..i] == current; }
    }
  }

  /** When nothing is lost every element survived, and only the last one may leave a quote open. */
  lemma {:induction false} NothingLost(s: string, current: string)
    requires Weight(Elements(s, current, OddQuotes(current), false)) == |current| + |s| + 1
    requires '\\' !in current && CommasInside(current)
    ensures ComesBack(Elements(s, current, OddQuotes(current), false))
    decreases |s|
  {
    hide Emit, Weight, OddQuotes, CommasInside, Elements;
    var inQuotes := OddQuotes(current);
    if s == "" {
      LastElement(current, inQuotes);
      EmitWeight(current);
    } else if s[0] == '\\' {
      Escapes(s, current, inQuotes);
    } else if s[0] == ',' && !inQuotes {
      var rest := Elements(s[1..], "", false, false);
      assert s == "," + s[1..];
      StepComma(s[1..], current);
      EmitWeight(current);
      WeightSplit(Emit(current), rest);
      WeightBound(s[1..], "", false, false);
      NoneOpen();
      NothingCut();
      NothingLost(s[1..], "");
      assert forall i :: 0 <= i < |rest| ==> ([current] + rest)[i + 1] == rest[i];
    } else {
      assert s == [s[0]] + s[1..];
      StepKept(s[0], s[1..], current, inQuotes);
      OddSnoc(current, s[0]);
      CommasSnoc(current, s[0]);
      NothingLost(s[1..], current + [s[0]]);
    }
  }

  lemma NothingCut()
    ensures CommasInside("")
  {
  }

  /** A backslash is lost. */
  lemma Escapes(s: string, current: string, inQuotes: bool)
    requires s != "" && s[0] == '\\'
    ensures Weight(Elements(s, current, inQuotes, false)) < |current| + |s| + 1
  {
    hide Emit, Weight;
    WeightBound(s[1..], current, inQuotes, true);
  }

  /**
   * A list comes back from ToPG and ToMySQL exactly when every element is non-empty, trimmed,
   * without backslash, not enclosed in quotes and without a comma outside quotes, and no element
   * but the last leaves a quote open.
   */
  lemma RoundTripExactly(es: seq<string>)
    ensures ToMySQLSpec(ToPG(es)) == List(es) <==> ComesBack(es)
  {
    hide Elements, Join, Survives, Weight, OddQuotes;
    var s := ToPG(es);
    assert Trimmed(s);
    TrimmedStays(s);
    if es != [] {
      var inner := Join(es, ",");
      assert s[1..|s| - 1] == inner;
      WeightOfJoin(es);
      if ComesBack(es) {
        ReadsBack(es);
        assert Survives(es[0]);
        FirstNonempty(es);
      }
      if Elements(inner, "", false, false) == es {
        NoneOpen();
        NothingCut();
        NothingLost(inner, "");
        assert Survives(es[0]);
        FirstNonempty(es);
      }
    }
  }

  lemma FirstNonempty(es: seq<string>)
    requires es != [] && Survives(es[0])
    ensures Join(es, ",") != ""
  {
    hide CommasInside, Trimmed;
  }

  lemma {:induction false} BareIsJoin(es: seq<string>)
    ensures Join(Printed(AllStyled(Bare, |es|), es), ",") == Join(es, ",")
  {
    var parts := Printed(AllStyled(Bare, |es|), es);
    forall i | 0 <= i < |es|
      ensures parts[i] == es[i]
    {
      BareBody(es[i]);
    }
    assert parts == es;
  }

  lemma {:induction false} BareBody(e: string)
    ensures Body(Bare, e) == e
  {
    if e != "" {
      BareBody(e[1..]);
      assert e == [e[0]] + e[1..];
    }
  }

  /** Converting a list of plain elements to a literal and back is the identity. */
  lemma ToMySQLAfterToPG(es: seq<string>)
    requires forall i :: 0 <= i < |es| ==> Plain(es[i])
    ensures ToMySQLSpec(ToPG(es)) == List(es)
  {
    hide Elements, Join, Plain, ParsedAll;
    var s := ToPG(es);
    assert Trimmed(s);
    TrimmedStays(s);
    if es != [] {
      BareIsJoin(es);
      ParsesPrinted(AllStyled(Bare, |es|), es);
      PlainJoin(es);
      assert s[1..|s| - 1] == Join(es, ",");
      PlainParses(es);
    }
  }

  lemma PlainParses(es: seq<string>)
    ensures ParsedAll(AllStyled(Bare, |es|), es) == es
  {
  }

  lemma PlainJoin(es: seq<string>)
    requires es != [] && forall i :: 0 <= i < |es| ==> Plain(es[i])
    ensures Join(es, ",") != ""
  {
    assert Plain(es[0]);
  }

  /** The printer of ToPG quotes nothing: an element with a comma comes back as two. */
  lemma CommaSplits()
    ensures ToMySQLSpec(ToPG(["a,b"])) == List(["a", "b"])
  {
    hide Elements, Join, Plain;
    assert Plain("a") && Plain("b") by { PlainLetters(); }
    ToMySQLAfterToPG(["a", "b"]);
    assert ToPG(["a,b"]) == ToPG(["a", "b"]) by { Joined(); }
  }

  lemma PlainLetters()
    ensures Plain("a") && Plain("b")
  {
  }

  lemma Joined()
    ensures Join(["a", "b"], ",") == "a,b" == Join(["a,b"], ",")
  {
    assert ["a", "b"][1..] == ["b"];
    assert Join(["b"], ",") == "b";
  }

  /** What is in no braces: a JSON list is passed through, anything else is a list of one, spaces around it dropped. */
  lemma OtherForms(a: string, w: string, b: string)
    requires AllSpace(a) && Trimmed(w) && AllSpace(b)
    ensures w != "" && w[0] == '[' ==> ToMySQLSpec(a + w + b) == Verbatim(w)
    ensures w == "" || (w[0] != '[' && !(w[0] == '{' && w[|w| - 1] == '}')) ==> ToMySQLSpec(a + w + b) == List([w])
    ensures w == "{}" ==> ToMySQLSpec(a + w + b) == List([])
  {
    hide TrimSpace, AllSpace, Trimmed, Elements;
    TrimPads(a, w, b);
    if HasPrefix(w, "{") { assert w[0] == '{'; }
    if HasSuffix(w, "}") { assert w[|w| - 1..][0] == w[|w| - 1]; }
    if HasPrefix(w, "[") { assert w[0] == '['; }
    if w != "" && w[0] == '[' { assert "[" <= w; }
  }
}

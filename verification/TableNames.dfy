/**
 * BatchInserts by the names of the tables as they are written (internal/proxy/clickhouse/buffer.go):
 * which statements share a group, read from their texts, and what the result is then.
 */
module TableNames {
  import opened Wrappers
  import opened Sequences
  import opened Texts
  import opened BatchInserts

  /**
   * A head as it is written: INSERT INTO, spaces, the table's name, spaces, and the column list
   * from its parenthesis on, if there is one.
   */
  datatype Written = Written(into: string, gap: string, name: string, space: string, columns: Option<string>)

  function Spelt(w: Written): string
  {
    w.into + w.gap + w.name + if w.columns.Some? then w.space + "(" + w.columns.value else ""
  }

  /** The first INTO ends the beginning; the name is not empty, not spaced and has no parenthesis. */
  predicate WellWritten(w: Written)
  {
    && Index(ToUpper(w.into), "INTO") >= 0 && Index(ToUpper(w.into), "INTO") == |w.into| - 4
    && AllSpace(w.gap) && w.name != "" && Trimmed(w.name) && '(' !in w.name && AllSpace(w.space)
  }

  lemma SpaceIsNoParen(s: string)
    requires AllSpace(s)
    ensures '(' !in s
  {
  }

  /** The key of a head is what stands between INTO and the first parenthesis. */
  lemma KeyBetween(into: string, between: string, rest: string)
    requires Index(ToUpper(into), "INTO") >= 0 && Index(ToUpper(into), "INTO") == |into| - 4
    requires '(' !in between
    ensures ExtractTableName(into + between + "(" + rest) == TrimSpace(between)
  {
    hide Index, TrimSpace, ToUpper;
    var q := into + between + "(" + rest;
    assert q == into + (between + "(" + rest);
    UpperOfConcat(into, between + "(" + rest);
    IndexInHead(ToUpper(into), ToUpper(between + "(" + rest), "INTO");
    var t := between + "(" + rest;
    assert q[|into|..] == t;
    assert t[|between|] == '(' && t[..|between|] == between;
    forall i | 0 <= i < |between|
      ensures t[i] != '('
    {
      assert t[i] == between[i];
    }
    TrimBeforeParen(t, |between|);
  }

  lemma BlankIsSpace()
    ensures AllSpace(" ")
  {
  }

  /** The name with the keyword that follows it when there is no column list. */
  lemma BareIsTrimmed(name: string)
    requires name != "" && Trimmed(name)
    ensures Trimmed(name + " VALUES")
  {
    var s := name + " VALUES";
    assert s[0] == name[0] && s[|s| - 1] == 'S';
  }

  /** The key of a head with a column list is the table's name; without one the keyword VALUES belongs to it. */
  lemma KeyOfName(w: Written)
    requires WellWritten(w)
    ensures Key(Spelt(w)) == if w.columns.Some? then w.name else w.name + " VALUES"
  {
    hide Index, TrimSpace, ToUpper, AllSpace, Trimmed, IsSpace, ExtractTableName;
    SpaceIsNoParen(w.gap);
    SpaceIsNoParen(w.space);
    if w.columns.Some? {
      var between := w.gap + w.name + w.space;
      KeyBetween(w.into, between, w.columns.value + " VALUES (");
      TrimPads(w.gap, w.name, w.space);
      assert Spelt(w) + " VALUES (" == w.into + between + "(" + (w.columns.value + " VALUES (");
    } else {
      var bare := w.name + " VALUES";
      KeyBetween(w.into, w.gap + bare + " ", "");
      BlankIsSpace();
      BareIsTrimmed(w.name);
      TrimPads(w.gap, bare, " ");
      assert Spelt(w) + " VALUES (" == w.into + (w.gap + bare + " ") + "(" + "";
    }
  }

  /** The same name, and both with a column list or both without. */
  predicate SameName(a: Written, b: Written)
  {
    a.name == b.name && (a.columns.Some? <==> b.columns.Some?)
  }

  predicate AllWritten(ws: seq<Written>)
  {
    forall i :: 0 <= i < |ws| ==> WellWritten(ws[i]) && IsHead(Spelt(ws[i]))
  }

  function Spellings(ws: seq<Written>): (heads: seq<string>)
    ensures |heads| == |ws|
    ensures forall i :: 0 <= i < |ws| ==> heads[i] == Spelt(ws[i])
  {
    seq(|ws|, i requires 0 <= i < |ws| => Spelt(ws[i]))
  }

  /** What stands in a part stands in the whole. */
  lemma PartOfHead(a: string, b: string, c: string, word: string)
    ensures Index(b, word) >= 0 ==> Index(a + b + c, word) >= 0
  {
    hide Index;
    var s := a + b + c;
    if Index(b, word) >= 0 {
      var i := Index(b, word);
      assert s[|a| + i..|a| + i + |word|] == b[i..i + |word|];
      assert OccursAt(s, word, |a| + i);
    }
  }

  lemma NameHasNoKeyword(w: Written)
    requires IsHead(Spelt(w))
    ensures Index(ToUpper(w.name), "VALUES") < 0
  {
    hide Index, ToUpper;
    var tail := if w.columns.Some? then w.space + "(" + w.columns.value else "";
    assert Spelt(w) == w.into + w.gap + w.name + tail;
    UpperOfConcat(w.into + w.gap + w.name, tail);
    UpperOfConcat(w.into + w.gap, w.name);
    PartOfHead(ToUpper(w.into + w.gap), ToUpper(w.name), ToUpper(tail), "VALUES");
  }

  lemma KeywordIsThere(name: string)
    ensures Index(ToUpper(name + " VALUES"), "VALUES") >= 0
  {
    var s := name + " VALUES";
    UpperOfConcat(name, " VALUES");
    assert ToUpper(s)[|name| + 1..|name| + 7] == "VALUES";
    assert OccursAt(ToUpper(s), "VALUES", |name| + 1);
  }

  lemma SameEnd(a: string, b: string)
    ensures a + " VALUES" == b + " VALUES" ==> a == b
  {
    assert (a + " VALUES")[..|a|] == a;
    assert (b + " VALUES")[..|b|] == b;
  }

  /** Two heads share a group exactly when they name the table alike. */
  lemma KeysAreNames(a: Written, b: Written)
    requires WellWritten(a) && WellWritten(b)
    ensures IsHead(Spelt(a)) && IsHead(Spelt(b)) ==> (Key(Spelt(a)) == Key(Spelt(b)) <==> SameName(a, b))
  {
    hide Index, ToUpper, WellWritten, Key, IsHead, Spelt;
    if IsHead(Spelt(a)) && IsHead(Spelt(b)) {
      KeyOfName(a);
      KeyOfName(b);
      NameHasNoKeyword(a);
      NameHasNoKeyword(b);
      KeywordIsThere(a.name);
      KeywordIsThere(b.name);
      SameEnd(a.name, b.name);
    }
  }

  lemma PlainInto()
    ensures Index(ToUpper("INSERT INTO"), "INTO") == 7 && |"INSERT INTO"| == 11 && AllSpace(" ")
  {
    var s := ToUpper("INSERT INTO");
    assert s == "INSERT INTO";
    assert s[7..11] == "INTO";
    forall j | 0 <= j < 7
      ensures !OccursAt(s, "INTO", j)
    {
      NotThere(s, j);
    }
    IndexIs(s, "INTO", 7);
  }

  lemma OccursLetter(s: string, p: string, i: nat, k: nat)
    requires k < |p|
    ensures OccursAt(s, p, i) ==> s[i + k] == p[k]
  {
    if OccursAt(s, p, i) { assert s[i..i + |p|][k] == s[i + k]; }
  }

  lemma NotThere(s: string, j: nat)
    requires s == "INSERT INTO" && j < 7
    ensures !OccursAt(s, "INTO", j)
  {
    OccursLetter(s, "INTO", j, 0);
    OccursLetter(s, "INTO", j, 2);
    assert s[j] != 'I' || s[j + 2] != 'T';
  }

  /** The common form: whatever the column list, the statement is grouped under its table's name. */
  lemma PlainKey(name: string, columns: string)
    requires name != "" && Trimmed(name) && '(' !in name
    ensures Key("INSERT INTO " + name + " (" + columns + ")") == name
  {
    hide Index, ToUpper, Key, Trimmed, AllSpace;
    PlainInto();
    var w := Written("INSERT INTO", " ", name, " ", Some(columns + ")"));
    KeyOfName(w);
    assert Spelt(w) == "INSERT INTO " + name + " (" + columns + ")";
  }

  // ---- The merge law by names ----

  /** Statements that name their table alike mean the same, and those of one table name it alike. */
  ghost predicate ByName<C>(ws: seq<Written>, sense: string -> Sense<C>)
  {
    forall i, j :: 0 <= i < |ws| && 0 <= j < |ws| ==>
      && (SameName(ws[i], ws[j]) ==> sense(Spelt(ws[i])) == sense(Spelt(ws[j])))
      && (sense(Spelt(ws[i])).table == sense(Spelt(ws[j])).table ==> SameName(ws[i], ws[j]))
  }

  lemma AllKeysAreNames(ws: seq<Written>)
    requires AllWritten(ws)
    ensures forall i, j :: 0 <= i < |ws| && 0 <= j < |ws| ==>
      (Key(Spellings(ws)[i]) == Key(Spellings(ws)[j]) <==> SameName(ws[i], ws[j]))
  {
    hide WellWritten, Key, IsHead, Spelt, SameName;
    forall i, j | 0 <= i < |ws| && 0 <= j < |ws|
      ensures Key(Spellings(ws)[i]) == Key(Spellings(ws)[j]) <==> SameName(ws[i], ws[j])
    {
      KeysAreNames(ws[i], ws[j]);
    }
  }

  /**
   * For statements with these heads, merging keeps every table, rows and order, whatever the
   * tuples and the order of the map, exactly when heads that name their table alike mean the
   * same and heads of the same table name it alike: one spelling, always or never with columns.
   */
  lemma MergesExactlyByName<C(!new)>(ws: seq<Written>, sense: string -> Sense<C>)
    requires AllWritten(ws)
    ensures AlwaysMerges(Spellings(ws), sense) <==> ByName(ws, sense)
  {
    hide WellWritten, Key, IsHead, Spelt, SameName, AlwaysMerges;
    AllKeysAreNames(ws);
    MergesExactlyConsistent(Spellings(ws), sense);
    assert forall i :: 0 <= i < |ws| ==> Spellings(ws)[i] == Spelt(ws[i]);
  }

  // ---- The result by names ----

  /** The statements are the written heads, each with its tuples. */
  predicate HeadsAre(ss: seq<Insert>, ws: seq<Written>)
  {
    |ss| == |ws| && forall i :: 0 <= i < |ss| ==> ss[i].head == Spelt(ws[i])
  }

  /** The tuples of all statements that name the table like w, in order. */
  function TuplesNamed(ss: seq<Insert>, ws: seq<Written>, w: Written): seq<string>
    requires |ss| == |ws|
  {
    if ss == [] then []
    else
      var n := |ss| - 1;
      TuplesNamed(ss[..n], ws[..n], w) + if SameName(ws[n], w) then ss[n].tuples else []
  }

  /** The first statement that names its table so. */
  predicate Leads(ws: seq<Written>, i: nat)
  {
    i < |ws| && forall j :: 0 <= j < i ==> !SameName(ws[j], ws[i])
  }

  /** One statement for every name as written: the first head of that name with all its tuples. */
  predicate OnePerName(ms: seq<Insert>, ss: seq<Insert>, ws: seq<Written>)
    requires |ss| == |ws|
  {
    && (forall m :: 0 <= m < |ms| ==> IsMerged(ms[m], ss, ws))
    && (forall i :: 0 <= i < |ws| && Leads(ws, i) ==> Insert(ss[i].head, TuplesNamed(ss, ws, ws[i])) in ms)
    && (forall m, n :: 0 <= m < n < |ms| ==> ms[m].head != ms[n].head)
  }

  predicate IsMerged(m: Insert, ss: seq<Insert>, ws: seq<Written>)
    requires |ss| == |ws|
  {
    exists i :: 0 <= i < |ws| && Leads(ws, i) && m == Insert(ss[i].head, TuplesNamed(ss, ws, ws[i]))
  }

  lemma {:induction false} TuplesAreNamed(ss: seq<Insert>, ws: seq<Written>, w: Written)
    requires HeadsAre(ss, ws) && AllWritten(ws) && WellWritten(w) && IsHead(Spelt(w))
    ensures TuplesOf(ss, Key(Spelt(w))) == TuplesNamed(ss, ws, w)
  {
    hide WellWritten, Key, IsHead, Spelt, SameName;
    if ss != [] {
      var n := |ss| - 1;
      TuplesAreNamed(ss[..n], ws[..n], w);
      KeysAreNames(ws[n], w);
    }
  }

  /** The head that leads a group is the first one with its name. */
  lemma LeaderLeads(ss: seq<Insert>, ws: seq<Written>, k: string) returns (i: nat)
    requires HeadsAre(ss, ws)
    ensures AllWritten(ws) && k in Keys(ss) ==>
      i < |ss| && Leads(ws, i) && Key(ss[i].head) == k && HeadOf(ss, k) == ss[i].head
  {
    hide WellWritten, Key, IsHead, Spelt, SameName;
    i := 0;
    if AllWritten(ws) && k in Keys(ss) {
      AllKeysAreNames(ws);
      var keys := KeyList(ss);
      var j :| 0 <= j < |ss| && Key(ss[j].head) == k;
      assert keys[j] == k;
      i := FirstPosition(keys, k);
      FirstIsFirst(keys, k);
      forall p | 0 <= p < i
        ensures !SameName(ws[p], ws[i])
      {
        assert keys[p] != keys[i];
        assert Spellings(ws)[p] == ss[p].head && Spellings(ws)[i] == ss[i].head;
      }
    }
  }

  lemma {:induction false} FirstIsFirst(keys: seq<string>, k: string)
    ensures var i := FirstPosition(keys, k);
      forall p :: 0 <= p < (if i >= 0 then i else |keys|) ==> keys[p] != k
  {
    if keys != [] { FirstIsFirst(keys[..|keys| - 1], k); }
  }

  lemma LeaderIsUnique(ss: seq<Insert>, ws: seq<Written>, i: nat, j: nat)
    requires HeadsAre(ss, ws) && i < |ws| && j < |ws|
    ensures AllWritten(ws) && Leads(ws, i) && Leads(ws, j) && Key(ss[i].head) == Key(ss[j].head) ==> i == j
  {
    hide WellWritten, Key, IsHead, Spelt, SameName;
    if AllWritten(ws) && Leads(ws, i) && Leads(ws, j) && Key(ss[i].head) == Key(ss[j].head) {
      KeysAreNames(ws[i], ws[j]);
      KeysAreNames(ws[j], ws[i]);
    }
  }

  /** The merged statements, whatever the order of the map. */
  lemma MergedByName(ss: seq<Insert>, ws: seq<Written>, order: seq<string>)
    requires HeadsAre(ss, ws) && AllWritten(ws) && Permutation(order, Keys(ss))
    ensures OnePerName(Merged(ss, order), ss, ws)
  {
    hide WellWritten, Key, IsHead, Spelt, SameName, HeadOf, TuplesOf, Leads, Keys;
    var ms := Merged(ss, order);
    forall m | 0 <= m < |ms|
      ensures IsMerged(ms[m], ss, ws) && Key(ms[m].head) == order[m]
    {
      var i := LeaderLeads(ss, ws, order[m]);
      TuplesAreNamed(ss, ws, ws[i]);
    }
    forall i | 0 <= i < |ws| && Leads(ws, i)
      ensures Insert(ss[i].head, TuplesNamed(ss, ws, ws[i])) in ms
    {
      KeyPresent(ss, i);
      var m := PositionOf(order, Key(ss[i].head), Keys(ss));
      var j := LeaderLeads(ss, ws, order[m]);
      LeaderIsUnique(ss, ws, i, j);
      TuplesAreNamed(ss, ws, ws[i]);
      assert ms[m] == Insert(ss[i].head, TuplesNamed(ss, ws, ws[i]));
    }
  }

  ghost predicate PrintsOnePerName(result: string, ss: seq<Insert>, ws: seq<Written>)
    requires |ss| == |ws|
  {
    exists ms :: OnePerName(ms, ss, ws) && result == Join(Printed(ms), "; ")
  }

  /**
   * BatchInserts on INSERT texts: one statement for each table name as it is written, with the
   * first head of that name and the tuples of all its statements in order. So two names always
   * end in two statements, each with exactly its own tuples.
   */
  lemma ResultByName(ss: seq<Insert>, ws: seq<Written>, result: string)
    requires AllInserts(ss) && HeadsAre(ss, ws) && (forall i :: 0 <= i < |ws| ==> WellWritten(ws[i]))
    ensures InSomeOrder(result, Grouped(Printed(ss))) ==> PrintsOnePerName(result, ss, ws)
  {
    hide WellWritten, Grouped, Join, Spelt, Merged, OnePerName, IsHead, Keys;
    assert AllWritten(ws) by {
      forall i | 0 <= i < |ws|
        ensures IsHead(Spelt(ws[i]))
      {
        assert IsInsert(ss[i]);
      }
    }
    if InSomeOrder(result, Grouped(Printed(ss))) {
      GroupedKeys(ss);
      var order :| Permutation(order, Grouped(Printed(ss)).Keys) && result == Join(Statements(Grouped(Printed(ss)), order), "; ");
      ResultIsMerged(ss, order);
      MergedByName(ss, ws, order);
    }
  }

  lemma GroupedKeys(ss: seq<Insert>)
    requires AllInserts(ss)
    ensures Grouped(Printed(ss)).Keys == Keys(ss)
  {
    hide Grouped, Keys, AllInserts, GroupIs;
    GroupedPrinted(ss);
  }

  /** A text is skipped unless it begins with INSERT and holds VALUES, in any case. */
  lemma ReadExactly(q: string)
    ensures ReadEntry(q).Some? <==> MentionedAt(q, "INSERT", 0) && Mentions(q, "VALUES")
  {
    hide ExtractTableName, Mentions, TrimSpace;
    UpperContains(q, "VALUES");
    UpperMentionedAt(q, "INSERT", 0);
    if |q| >= 6 { assert ToUpper(q)[0..6] == ToUpper(q)[..6]; }
  }
}

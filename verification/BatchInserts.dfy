/**
 * BatchInserts (internal/proxy/clickhouse/buffer.go): grouping INSERT statements by the table
 * name found in their text and merging each group into one statement. The map of groups is
 * walked in an unspecified order.
 */
module BatchInserts {
  import opened Wrappers
  import opened Sequences
  import opened Texts

  // ---- As the code sees a statement: text ----

  datatype Entry = Entry(key: string, prefix: string, value: string)

  datatype Group = Group(prefix: string, values: seq<string>)

  /** The text between INTO and the first parenthesis, or VALUES, or the end. */
  function ExtractTableName(query: string): string
  {
    var intoIdx := Index(ToUpper(query), "INTO");
    if intoIdx < 0 || intoIdx + 4 > |query| then ""
    else
      var rest := TrimSpace(query[intoIdx + 4..]);
      var paren := Index(rest, "(");
      if paren >= 0 then TrimSpace(rest[..paren])
      else
        var values := Index(ToUpper(rest), "VALUES");
        if values >= 0 then TrimSpace(rest[..values]) else TrimSpace(rest)
  }

  /** None for a statement that is skipped. */
  function ReadEntry(q: string): Option<Entry>
  {
    var upper := ToUpper(q);
    var valuesIdx := Index(upper, "VALUES");
    if !HasPrefix(upper, "INSERT") || valuesIdx < 0 || valuesIdx + 6 > |q| then None
    else
      var v := TrimSpace(q[valuesIdx + 6..]);
      var value := if HasPrefix(ToUpper(v), "VALUES") then TrimSpace(v[6..]) else v;
      Some(Entry(ExtractTableName(q), q[..valuesIdx + 6], value))
  }

  type Groups = map<string, Group>

  function AddEntry(groups: Groups, e: Entry): Groups
  {
    var g := if e.key in groups then groups[e.key] else Group(e.prefix, []);
    groups[e.key := g.(values := g.values + [e.value])]
  }

  function Grouped(inserts: seq<string>): Groups
  {
    if inserts == [] then map[]
    else
      var groups := Grouped(inserts[..|inserts| - 1]);
      var e := ReadEntry(inserts[|inserts| - 1]);
      if e.None? then groups else AddEntry(groups, e.value)
  }

  function Combined(g: Group): string
  {
    g.prefix + " " + Join(g.values, ", ")
  }

  function Statements(groups: Groups, order: seq<string>): (ss: seq<string>)
    requires forall k :: k in order ==> k in groups
    ensures |ss| == |order|
  {
    seq(|order|, i requires 0 <= i < |order| => assert order[i] in order; Combined(groups[order[i]]))
  }

  /** Every key once. */
  ghost predicate Permutation(order: seq<string>, keys: set<string>)
  {
    && (forall k :: k in order <==> k in keys)
    && (forall i, j :: 0 <= i < j < |order| ==> order[i] != order[j])
  }

  ghost predicate InSomeOrder(text: string, groups: Groups)
  {
    exists order :: Permutation(order, groups.Keys) && text == Join(Statements(groups, order), "; ")
  }

  method BatchInserts(inserts: seq<string>) returns (result: string)
    ensures InSomeOrder(result, Grouped(inserts))
  {
    hide ReadEntry, AddEntry, Combined, Join;
    var tableMap: Groups := map[];
    for i := 0 to |inserts|
      invariant tableMap == Grouped(inserts[..i])
    {
      assert inserts[..i + 1][..i] == inserts[..i];
      var e := ReadEntry(inserts[i]);
      if e.None? {
        continue;
      }
      tableMap := AddEntry(tableMap, e.value);
    }
    assert inserts[..|inserts|] == inserts;

    result := "";
    ghost var order := [];
    var first := true;
    var remaining := tableMap.Keys;
    JoinNothing();
    while remaining != {}
      invariant remaining <= tableMap.Keys
      invariant Permutation(order, tableMap.Keys - remaining)
      invariant first <==> order == []
      invariant result == Join(Statements(tableMap, order), "; ")
      decreases |remaining|
    {
      var k :| k in remaining;
      remaining := remaining - {k};
      var statement := Combined(tableMap[k]);
      JoinSnoc(Statements(tableMap, order), statement, "; ");
      if !first {
        result := result + "; ";
      }
      first := false;
      result := result + statement;
      assert Statements(tableMap, order + [k]) == Statements(tableMap, order) + [statement];
      order := order + [k];
    }
  }

  lemma JoinNothing()
    ensures Join([], "; ") == "" && Join([], ", ") == ""
  {
  }

  lemma {:induction false} JoinSnoc(parts: seq<string>, part: string, sep: string)
    ensures Join(parts + [part], sep) == if parts == [] then part else Join(parts, sep) + sep + part
  {
    hide Join;
    if parts == [] {
      assert parts + [part] == [part];
      JoinSingle(part, sep);
    } else {
      var a, rest := parts[0], parts[1..];
      JoinSnoc(rest, part, sep);
      JoinCons(a, rest + [part], sep);
      assert parts + [part] == [a] + (rest + [part]) && parts == [a] + rest;
      if rest == [] {
        assert parts == [a];
        JoinSingle(a, sep);
      } else {
        JoinCons(a, rest, sep);
        assert a + sep + (Join(rest, sep) + sep + part) == a + sep + Join(rest, sep) + sep + part;
      }
    }
  }

  lemma JoinSingle(part: string, sep: string)
    ensures Join([part], sep) == part
  {
  }

  lemma JoinCons(part: string, parts: seq<string>, sep: string)
    requires parts != []
    ensures Join([part] + parts, sep) == part + sep + Join(parts, sep)
  {
    assert ([part] + parts)[1..] == parts;
  }

  // ---- As MySQL sees a statement: a head and its tuples ----

  /** INSERT INTO table (columns) VALUES tuple, tuple, ... */
  datatype Insert = Insert(head: string, tuples: seq<string>)

  function Print(s: Insert): string
  {
    s.head + " VALUES " + Join(s.tuples, ", ")
  }

  predicate IsTuple(t: string)
  {
    t != "" && t[0] == '(' && !IsSpace(t[|t| - 1])
  }

  /** INSERT INTO, before the keyword VALUES. */
  predicate IsHead(head: string)
  {
    HasPrefix(ToUpper(head), "INSERT") && Index(ToUpper(head), "INTO") >= 0 && Index(ToUpper(head), "VALUES") < 0
  }

  /** The keyword VALUES comes for the first time after the head. */
  predicate IsInsert(s: Insert)
  {
    && IsHead(s.head)
    && s.tuples != [] && forall i :: 0 <= i < |s.tuples| ==> IsTuple(s.tuples[i])
  }

  predicate AllInserts(ss: seq<Insert>)
  {
    forall i :: 0 <= i < |ss| ==> IsInsert(ss[i])
  }

  function Printed(ss: seq<Insert>): (texts: seq<string>)
    ensures |texts| == |ss|
    ensures forall i :: 0 <= i < |ss| ==> texts[i] == Print(ss[i])
  {
    seq(|ss|, i requires 0 <= i < |ss| => Print(ss[i]))
  }

  /** The grouping key of a head. */
  function Key(head: string): string
  {
    ExtractTableName(head + " VALUES (")
  }

  // ---- Reading back what was printed ----

  lemma UpperOfConcat(a: string, b: string)
    ensures ToUpper(a + b) == ToUpper(a) + ToUpper(b)
  {
  }

  lemma NotAcross(a: string, b: string, word: string, k: nat)
    requires k <= |a| && !OccursAt(a, word, k) && |word| > 0
    requires forall i :: 0 <= i < |word| ==> word[i] != ' '
    ensures !OccursAt(a + " " + b, word, k)
  {
    var s := a + " " + b;
    if k + |word| <= |s| {
      if k + |word| <= |a| {
        assert s[k..k + |word|] == a[k..k + |word|];
      } else {
        assert s[k..k + |word|][|a| - k] == ' ';
      }
    }
  }

  /** A word without blanks is not found across a blank. */
  lemma IndexPast(a: string, b: string, word: string)
    requires Index(a, word) < 0 && word != ""
    requires forall i :: 0 <= i < |word| ==> word[i] != ' '
    requires word <= b
    ensures Index(a + " " + b, word) == |a| + 1
  {
    hide Index, OccursAt;
    var s := a + " " + b;
    forall k | 0 <= k < |a| + 1
      ensures !OccursAt(s, word, k)
    {
      NotAcross(a, b, word, k);
    }
    FoundAt(a + " ", b, word);
    IndexIs(s, word, |a| + 1);
  }

  lemma FoundAt(a: string, b: string, word: string)
    requires word <= b
    ensures OccursAt(a + b, word, |a|)
  {
    assert (a + b)[|a|..|a| + |word|] == b[..|word|];
  }

  /** The index is determined by being the first occurrence. */
  lemma IndexIs(s: string, p: string, k: nat)
    requires OccursAt(s, p, k) && forall j :: 0 <= j < k ==> !OccursAt(s, p, j)
    ensures Index(s, p) == k
  {
    var i := Index(s, p);
  }

  lemma IndexInHead(a: string, b: string, word: string)
    requires Index(a, word) >= 0
    ensures Index(a + b, word) == Index(a, word)
  {
    hide Index;
    var i := Index(a, word);
    var s := a + b;
    assert s[i..i + |word|] == a[i..i + |word|];
    forall j | 0 <= j < i
      ensures !OccursAt(s, word, j)
    {
      assert !OccursAt(a, word, j);
      assert s[j..j + |word|] == a[j..j + |word|];
    }
    IndexIs(s, word, i);
  }

  lemma ParenIsNoSpace()
    ensures !IsSpace('(') && IsSpace(' ')
  {
  }

  /** Trimming keeps what stands around a parenthesis. */
  lemma TrimKeepsParen(s: string, p: nat)
    requires p < |s| && s[p] == '('
    ensures var left := TrimLeft(s); var rest := TrimSpace(s);
      |s| - |left| <= p < |s| - |left| + |rest|
  {
    hide IsSpace;
    ParenIsNoSpace();
    var left := TrimLeft(s);
    var l := |s| - |left|;
    assert !IsSpace(s[p]) && l <= p;
    assert left[p - l] == s[p];
    var rest := TrimRight(left);
    assert !IsSpace(left[p - l]) && p - l < |rest|;
  }

  /** Trimming does not move the text before the first parenthesis. */
  lemma TrimBeforeParen(s: string, p: nat)
    requires p < |s| && s[p] == '(' && forall i :: 0 <= i < p ==> s[i] != '('
    ensures var rest := TrimSpace(s); var q := Index(rest, "(");
      q >= 0 && TrimSpace(rest[..q]) == TrimSpace(s[..p])
  {
    hide Index, IsSpace, TrimLeft, TrimRight;
    TrimKeepsParen(s, p);
    var l := |s| - |TrimLeft(s)|;
    var rest := TrimSpace(s);
    assert rest == s[l..l + |rest|];
    IndexOfParen(rest, p - l);
    assert rest[..p - l] == s[l..p];
    assert s[..l] + s[l..p] == s[..p];
    TrimSkipsSpaces(s[..l], s[l..p]);
  }

  lemma IndexOfParen(s: string, p: nat)
    requires p < |s| && s[p] == '(' && forall i :: 0 <= i < p ==> s[i] != '('
    ensures Index(s, "(") == p
  {
    hide Index;
    forall j | 0 <= j < p
      ensures !OccursAt(s, "(", j)
    {
      assert s[j..j + 1][0] == s[j];
    }
    assert s[p..p + 1] == "(";
    IndexIs(s, "(", p);
  }

  lemma TrimSkipsSpaces(a: string, t: string)
    requires AllSpace(a)
    ensures TrimSpace(a + t) == TrimSpace(t)
  {
    hide IsSpace, TrimLeft, AllSpace;
    SpacesLeft(a, t);
  }

  /** The key depends on the head only: a parenthesis follows it at the latest before the first tuple. */
  lemma KeyOfHead(head: string, tail: string)
    requires Index(ToUpper(head), "INTO") >= 0
    ensures ExtractTableName(head + " VALUES (" + tail) == Key(head)
  {
    hide Index, TrimSpace, ToUpper;
    var short := head + " VALUES (";
    var long := short + tail;
    var i := Index(ToUpper(head), "INTO");
    UpperOfConcat(head, " VALUES (");
    UpperOfConcat(short, tail);
    IndexInHead(ToUpper(head), ToUpper(" VALUES ("), "INTO");
    IndexInHead(ToUpper(short), ToUpper(tail), "INTO");
    var a := short[i + 4..];
    assert long[i + 4..] == a + tail;
    assert a[|a| - 1] == '(';
    var p := FirstParen(a);
    TrimBeforeParen(a, p);
    TrimBeforeParen(a + tail, p);
    assert (a + tail)[..p] == a[..p];
  }

  function FirstParen(s: string): (p: nat)
    requires '(' in s
    ensures p < |s| && s[p] == '(' && forall i :: 0 <= i < p ==> s[i] != '('
  {
    if s[0] == '(' then 0 else 1 + FirstParen(s[1..])
  }

  lemma GluedTuples(a: string, b: string)
    requires IsTuple(a) && IsTuple(b)
    ensures IsTuple(a + ", " + b)
  {
    hide IsSpace;
    var all := a + ", " + b;
    assert all[0] == a[0] && all[|all| - 1] == b[|b| - 1];
  }

  lemma JoinOfTuples(tuples: seq<string>)
    requires tuples != [] && forall i :: 0 <= i < |tuples| ==> IsTuple(tuples[i])
    ensures IsTuple(Join(tuples, ", "))
  {
    hide IsTuple;
    if |tuples| > 1 {
      JoinOfTuples(tuples[1..]);
      GluedTuples(tuples[0], Join(tuples[1..], ", "));
    }
  }

  /** The text of an INSERT is read as its key, its head and its list of tuples. */
  lemma PrintedEntry(s: Insert)
    requires IsInsert(s)
    ensures ReadEntry(Print(s)) == Some(Entry(Key(s.head), s.head + " VALUES", Join(s.tuples, ", ")))
  {
    hide Index, TrimSpace, IsSpace, Join, ToUpper, ExtractTableName;
    var tuples := Join(s.tuples, ", ");
    var q := Print(s);
    var b := "VALUES " + tuples;
    JoinOfTuples(s.tuples);
    assert q == s.head + " " + b;
    UpperOfConcat(s.head + " ", b);
    UpperOfConcat(s.head, " ");
    UpperOfConcat("VALUES ", tuples);
    UpperKeyword();
    assert ToUpper(q) == ToUpper(s.head) + " " + ToUpper(b);
    assert ToUpper(b)[..6] == "VALUES";
    IndexPast(ToUpper(s.head), ToUpper(b), "VALUES");
    var idx := |s.head| + 1;
    assert q[..idx + 6] == s.head + " VALUES";
    assert q[idx + 6..] == " " + tuples;
    TrimTuples(tuples);
    assert ToUpper(tuples)[0] == '(' by { UpperParen(tuples); }
    assert tuples == "(" + tuples[1..];
    assert q == s.head + " VALUES (" + tuples[1..];
    KeyOfHead(s.head, tuples[1..]);
  }

  lemma UpperKeyword()
    ensures ToUpper("VALUES ") == "VALUES " && ToUpper(" ") == " "
  {
  }

  lemma UpperParen(t: string)
    requires t != "" && t[0] == '('
    ensures ToUpper(t)[0] == '('
  {
  }

  lemma TrimTuples(t: string)
    requires IsTuple(t)
    ensures TrimSpace(" " + t) == t
  {
    hide IsSpace, TrimLeft, TrimRight;
    ParenIsNoSpace();
    TrimSkipsSpaces(" ", t);
    TrimmedStays(t);
  }

  // ---- The merged statements ----

  /** All tuples of the statements with the given key, in order. */
  function TuplesOf(ss: seq<Insert>, k: string): seq<string>
  {
    if ss == [] then []
    else
      var last := ss[|ss| - 1];
      TuplesOf(ss[..|ss| - 1], k) + (if Key(last.head) == k then last.tuples else [])
  }

  function Keys(ss: seq<Insert>): set<string>
  {
    set i | 0 <= i < |ss| :: Key(ss[i].head)
  }

  /** The first position of a key, or -1. */
  function FirstPosition(keys: seq<string>, k: string): (i: int)
    ensures -1 <= i < |keys|
    ensures i >= 0 ==> keys[i] == k
    ensures i < 0 ==> k !in keys
  {
    if keys == [] then -1
    else
      var i := FirstPosition(keys[..|keys| - 1], k);
      if i >= 0 then i else if keys[|keys| - 1] == k then |keys| - 1 else -1
  }

  function KeyList(ss: seq<Insert>): (keys: seq<string>)
    ensures |keys| == |ss|
    ensures forall i :: 0 <= i < |ss| ==> keys[i] == Key(ss[i].head)
  {
    seq(|ss|, i requires 0 <= i < |ss| => Key(ss[i].head))
  }

  /** The head of the first statement with the given key. */
  function HeadOf(ss: seq<Insert>, k: string): (head: string)
    requires k in Keys(ss)
    ensures Key(head) == k
    ensures exists i :: 0 <= i < |ss| && ss[i].head == head
  {
    assert k in KeyList(ss) by {
      var i :| 0 <= i < |ss| && Key(ss[i].head) == k;
      assert KeyList(ss)[i] == k;
    }
    ss[FirstPosition(KeyList(ss), k)].head
  }

  function Merged(ss: seq<Insert>, order: seq<string>): (ms: seq<Insert>)
    requires forall k :: k in order ==> k in Keys(ss)
    ensures |ms| == |order|
    ensures forall i :: 0 <= i < |order| ==> order[i] in Keys(ss) && ms[i] == Insert(HeadOf(ss, order[i]), TuplesOf(ss, order[i]))
  {
    seq(|order|, i requires 0 <= i < |order| =>
      assert order[i] in order; Insert(HeadOf(ss, order[i]), TuplesOf(ss, order[i])))
  }

  lemma KeysStep(ss: seq<Insert>)
    requires ss != []
    ensures Keys(ss) == Keys(ss[..|ss| - 1]) + {Key(ss[|ss| - 1].head)}
  {
    hide Key;
    var before := ss[..|ss| - 1];
    forall k | k in Keys(ss)
      ensures k in Keys(before) + {Key(ss[|ss| - 1].head)}
    {
      var i :| 0 <= i < |ss| && Key(ss[i].head) == k;
      if i < |before| { assert Key(before[i].head) == k; }
    }
    forall k | k in Keys(before)
      ensures k in Keys(ss)
    {
      var i :| 0 <= i < |before| && Key(before[i].head) == k;
      assert Key(ss[i].head) == k;
    }
  }

  /** The group of a key prints as the merged statement of that key. */
  ghost predicate GroupIs(g: Group, ss: seq<Insert>, k: string)
    requires k in Keys(ss)
  {
    g.prefix == HeadOf(ss, k) + " VALUES" && g.values != []
    && Join(g.values, ", ") == Join(TuplesOf(ss, k), ", ") && TuplesOf(ss, k) != []
  }

  ghost predicate GroupsAre(groups: Groups, ss: seq<Insert>)
  {
    groups.Keys == Keys(ss) && forall k :: k in groups ==> GroupIs(groups[k], ss, k)
  }

  lemma {:induction false} JoinAppend(a: seq<string>, b: seq<string>, sep: string)
    requires a != [] && b != []
    ensures Join(a + b, sep) == Join(a, sep) + sep + Join(b, sep)
  {
    if |a| == 1 {
      assert (a + b)[1..] == b;
    } else {
      JoinAppend(a[1..], b, sep);
      assert (a + b)[1..] == a[1..] + b;
      var x, y, z := a[0], Join(a[1..], sep), Join(b, sep);
      assert x + sep + (y + sep + z) == x + sep + y + sep + z;
    }
  }

  lemma {:induction false} GroupedPrinted(ss: seq<Insert>)
    requires AllInserts(ss)
    ensures GroupsAre(Grouped(Printed(ss)), ss)
  {
    hide Print, ReadEntry, Key, Join, AddEntry;
    if ss == [] {
    } else {
      var before, last := ss[..|ss| - 1], ss[|ss| - 1];
      GroupedPrinted(before);
      assert Printed(ss)[..|ss| - 1] == Printed(before);
      PrintedEntry(last);
      KeysStep(ss);
      assert IsInsert(last);
      AddKeeps(Grouped(Printed(before)), ss);
    }
  }

  lemma SameHead(ss: seq<Insert>, k: string)
    requires ss != [] && k in Keys(ss)
    ensures HeadOf(ss, k) == if k in Keys(ss[..|ss| - 1]) then HeadOf(ss[..|ss| - 1], k) else ss[|ss| - 1].head
  {
    hide Key;
    var before := ss[..|ss| - 1];
    var keys := KeyList(ss);
    assert keys[..|ss| - 1] == KeyList(before);
    if k in Keys(before) {
      var j :| 0 <= j < |before| && Key(before[j].head) == k;
      assert KeyList(before)[j] == k;
    } else {
      forall j | 0 <= j < |before|
        ensures KeyList(before)[j] != k
      {
        assert Key(before[j].head) in Keys(before);
      }
    }
  }

  /** A group that gains a value. */
  lemma GroupGrows(g: Group, before: seq<string>, tuples: seq<string>)
    requires g.values != [] && before != [] && tuples != []
    requires Join(g.values, ", ") == Join(before, ", ")
    ensures Join(g.values + [Join(tuples, ", ")], ", ") == Join(before + tuples, ", ")
  {
    hide Join;
    JoinAppend(before, tuples, ", ");
    JoinAppend(g.values, [Join(tuples, ", ")], ", ");
    JoinOne(Join(tuples, ", "));
  }

  lemma TuplesStep(ss: seq<Insert>, k: string)
    requires ss != []
    ensures var last := ss[|ss| - 1];
      TuplesOf(ss, k) == if Key(last.head) == k then TuplesOf(ss[..|ss| - 1], k) + last.tuples else TuplesOf(ss[..|ss| - 1], k)
  {
    hide Key;
  }

  /** A group of the statements before the last one, or of all of them. */
  ghost predicate GroupOf(g: Group, ss: seq<Insert>, k: string)
  {
    k in Keys(ss) && GroupIs(g, ss, k)
  }

  /** The group of the last statement's key gains its tuples, the others stay. */
  lemma GroupSteps(g: Group, ss: seq<Insert>, k: string)
    requires ss != [] && ss[|ss| - 1].tuples != []
    ensures GroupOf(g, ss[..|ss| - 1], k) && k in Keys(ss) ==>
      GroupOf(if Key(ss[|ss| - 1].head) == k then g.(values := g.values + [Join(ss[|ss| - 1].tuples, ", ")]) else g, ss, k)
  {
    hide Key, Join, Keys, HeadOf, TuplesOf;
    if GroupOf(g, ss[..|ss| - 1], k) && k in Keys(ss) {
      SameHead(ss, k);
      TuplesStep(ss, k);
      GroupGrows(g, TuplesOf(ss[..|ss| - 1], k), ss[|ss| - 1].tuples);
    }
  }

  lemma GroupBegins(ss: seq<Insert>)
    requires ss != [] && ss[|ss| - 1].tuples != []
    ensures var k := Key(ss[|ss| - 1].head);
      k !in Keys(ss[..|ss| - 1]) && k in Keys(ss) ==>
        GroupOf(Group(ss[|ss| - 1].head + " VALUES", [Join(ss[|ss| - 1].tuples, ", ")]), ss, k)
  {
    hide Key, Join, Keys, HeadOf, TuplesOf;
    var k := Key(ss[|ss| - 1].head);
    if k !in Keys(ss[..|ss| - 1]) && k in Keys(ss) {
      SameHead(ss, k);
      TuplesStep(ss, k);
      NoTuplesYet(ss[..|ss| - 1], k);
      assert [] + ss[|ss| - 1].tuples == ss[|ss| - 1].tuples;
      JoinOne(Join(ss[|ss| - 1].tuples, ", "));
    }
  }

  lemma AddKeeps(groups: Groups, ss: seq<Insert>)
    requires ss != [] && ss[|ss| - 1].tuples != [] && GroupsAre(groups, ss[..|ss| - 1])
    requires Keys(ss) == Keys(ss[..|ss| - 1]) + {Key(ss[|ss| - 1].head)}
    ensures var last := ss[|ss| - 1];
      GroupsAre(AddEntry(groups, Entry(Key(last.head), last.head + " VALUES", Join(last.tuples, ", "))), ss)
  {
    hide Key, Join, Keys, HeadOf, TuplesOf, GroupIs;
    var last := ss[|ss| - 1];
    var key, value := Key(last.head), Join(last.tuples, ", ");
    var out := AddEntry(groups, Entry(key, last.head + " VALUES", value));
    forall k | k in out
      ensures GroupIs(out[k], ss, k)
    {
      if k in groups {
        GroupSteps(groups[k], ss, k);
      } else {
        assert [] + [value] == [value];
        GroupBegins(ss);
      }
    }
  }

  lemma JoinOne(value: string)
    ensures Join([value], ", ") == value
  {
  }

  lemma {:induction false} NoTuplesYet(ss: seq<Insert>, k: string)
    requires k !in Keys(ss)
    ensures TuplesOf(ss, k) == []
  {
    hide Key;
    if ss != [] {
      KeysStep(ss);
      NoTuplesYet(ss[..|ss| - 1], k);
    }
  }

  /**
   * The text BatchInserts builds from printed statements is the merged statements, printed and
   * separated by semicolons, whatever order the map yields.
   */
  lemma ResultIsMerged(ss: seq<Insert>, order: seq<string>)
    requires AllInserts(ss) && Permutation(order, Keys(ss))
    ensures var groups := Grouped(Printed(ss));
      && groups.Keys == Keys(ss)
      && Join(Statements(groups, order), "; ") == Join(Printed(Merged(ss, order)), "; ")
  {
    hide Join, Grouped, TuplesOf, HeadOf, Key, Keys, AllInserts, Merged;
    GroupedPrinted(ss);
    var groups := Grouped(Printed(ss));
    var a, b := Statements(groups, order), Printed(Merged(ss, order));
    forall i | 0 <= i < |order|
      ensures a[i] == b[i]
    {
      assert order[i] in order;
      assert GroupIs(groups[order[i]], ss, order[i]);
    }
    assert a == b;
  }

  // ---- Executing ----

  /** What a head means to MySQL: the table, and what a row takes from the head besides (its columns). */
  datatype Sense<C> = Sense(table: string, columns: C)

  datatype Row<C> = Row(columns: C, tuple: string)

  function RowsOf<C>(columns: C, tuples: seq<string>): (rows: seq<Row<C>>)
    ensures |rows| == |tuples|
    ensures forall i :: 0 <= i < |tuples| ==> rows[i] == Row(columns, tuples[i])
  {
    seq(|tuples|, i requires 0 <= i < |tuples| => Row(columns, tuples[i]))
  }

  /** The rows of a table after the statements, in order. */
  function TableAfter<C>(initial: seq<Row<C>>, ss: seq<Insert>, sense: string -> Sense<C>, t: string): seq<Row<C>>
  {
    if ss == [] then initial
    else
      var last := ss[|ss| - 1];
      TableAfter(initial, ss[..|ss| - 1], sense, t)
      + (if sense(last.head).table == t then RowsOf(sense(last.head).columns, last.tuples) else [])
  }

  ghost predicate SameTables<C(!new)>(a: seq<Insert>, b: seq<Insert>, sense: string -> Sense<C>)
  {
    forall initial: seq<Row<C>>, t: string :: TableAfter(initial, a, sense, t) == TableAfter(initial, b, sense, t)
  }

  function Heads(ss: seq<Insert>): (heads: seq<string>)
    ensures |heads| == |ss|
    ensures forall i :: 0 <= i < |ss| ==> heads[i] == ss[i].head
  {
    seq(|ss|, i requires 0 <= i < |ss| => ss[i].head)
  }

  /** Heads with the same key mean the same, and heads of the same table have the same key. */
  ghost predicate Consistent<C>(heads: seq<string>, sense: string -> Sense<C>)
  {
    forall i, j :: 0 <= i < |heads| && 0 <= j < |heads| ==>
      && (Key(heads[i]) == Key(heads[j]) ==> sense(heads[i]) == sense(heads[j]))
      && (sense(heads[i]).table == sense(heads[j]).table ==> Key(heads[i]) == Key(heads[j]))
  }

  lemma RowsAppend<C>(columns: C, a: seq<string>, b: seq<string>)
    ensures RowsOf(columns, a + b) == RowsOf(columns, a) + RowsOf(columns, b)
  {
  }

  /** A table named by the heads of one key only receives the tuples of that key. */
  lemma {:induction false} RowsOfKey<C>(initial: seq<Row<C>>, ss: seq<Insert>, sense: string -> Sense<C>, head: string)
    requires forall i :: 0 <= i < |ss| ==>
      && (Key(ss[i].head) == Key(head) <==> sense(ss[i].head).table == sense(head).table)
      && (Key(ss[i].head) == Key(head) ==> sense(ss[i].head) == sense(head))
    ensures TableAfter(initial, ss, sense, sense(head).table)
         == initial + RowsOf(sense(head).columns, TuplesOf(ss, Key(head)))
  {
    hide Key, RowsOf;
    var columns := sense(head).columns;
    if ss == [] {
      RowsAppend(columns, [], []);
    } else {
      var before, last := ss[..|ss| - 1], ss[|ss| - 1];
      RowsOfKey(initial, before, sense, head);
      assert last.head == ss[|ss| - 1].head;
      var tuples := TuplesOf(before, Key(head));
      if Key(last.head) == Key(head) {
        RowsAppend(columns, tuples, last.tuples);
        var r := RowsOf(columns, tuples);
        assert initial + (r + RowsOf(columns, last.tuples)) == initial + r + RowsOf(columns, last.tuples);
      } else {
        assert tuples + [] == tuples;
      }
    }
  }

  lemma {:induction false} UntouchedTable<C>(initial: seq<Row<C>>, ss: seq<Insert>, sense: string -> Sense<C>, t: string)
    requires forall i :: 0 <= i < |ss| ==> sense(ss[i].head).table != t
    ensures TableAfter(initial, ss, sense, t) == initial
  {
    if ss != [] {
      UntouchedTable(initial, ss[..|ss| - 1], sense, t);
    }
  }

  /** Of the merged statements only the one at position m names the table. */
  lemma {:induction false} OneMergedStatement<C>(initial: seq<Row<C>>, ms: seq<Insert>, sense: string -> Sense<C>, t: string, m: nat)
    requires m < |ms| && forall i :: 0 <= i < |ms| ==> (sense(ms[i].head).table == t <==> i == m)
    ensures TableAfter(initial, ms, sense, t) == initial + RowsOf(sense(ms[m].head).columns, ms[m].tuples)
  {
    var n := |ms| - 1;
    if m == n {
      UntouchedTable(initial, ms[..n], sense, t);
    } else {
      OneMergedStatement(initial, ms[..n], sense, t, m);
      var rows := RowsOf(sense(ms[m].head).columns, ms[m].tuples);
      assert initial + rows + [] == initial + rows;
    }
  }

  /** Consistent heads: in whatever order the groups come, every table ends up the same. */
  lemma ConsistentMerges<C(!new)>(ss: seq<Insert>, sense: string -> Sense<C>, order: seq<string>)
    requires Consistent(Heads(ss), sense) && Permutation(order, Keys(ss))
    ensures SameTables(Merged(ss, order), ss, sense)
  {
    hide TableAfter, Key, HeadOf, TuplesOf, Consistent, Keys;
    var ms := Merged(ss, order);
    forall initial: seq<Row<C>>, t: string
      ensures TableAfter(initial, ms, sense, t) == TableAfter(initial, ss, sense, t)
    {
      if i: nat :| i < |ss| && sense(ss[i].head).table == t {
        var head := ss[i].head;
        KeyPresent(ss, i);
        OneSense(ss, sense, i);
        RowsOfKey(initial, ss, sense, head);
        var m := PositionOf(order, Key(head), Keys(ss));
        MergedHeads(ss, sense, order, i, m);
        OneMergedStatement(initial, ms, sense, t, m);
      } else {
        UntouchedTable(initial, ss, sense, t);
        forall m | 0 <= m < |ms|
          ensures sense(ms[m].head).table != t
        {
          assert ms[m].head == HeadOf(ss, order[m]);
          var i :| 0 <= i < |ss| && ss[i].head == ms[m].head;
        }
        UntouchedTable(initial, ms, sense, t);
      }
    }
  }

  lemma OneSense<C>(ss: seq<Insert>, sense: string -> Sense<C>, i: nat)
    requires i < |ss| && Consistent(Heads(ss), sense)
    ensures forall j :: 0 <= j < |ss| ==>
      && (Key(ss[j].head) == Key(ss[i].head) <==> sense(ss[j].head).table == sense(ss[i].head).table)
      && (Key(ss[j].head) == Key(ss[i].head) ==> sense(ss[j].head) == sense(ss[i].head))
  {
    hide Key;
    var heads := Heads(ss);
    forall j | 0 <= j < |ss|
      ensures ss[j].head == heads[j]
    {
    }
    assert ss[i].head == heads[i];
  }

  lemma PositionOf(order: seq<string>, k: string, keys: set<string>) returns (m: nat)
    requires Permutation(order, keys) && k in keys
    ensures m < |order| && order[m] == k
  {
    assert k in order;
    m :| 0 <= m < |order| && order[m] == k;
  }

  lemma MergedHeads<C>(ss: seq<Insert>, sense: string -> Sense<C>, order: seq<string>, h: nat, m: nat)
    requires h < |ss| && m < |order| && Permutation(order, Keys(ss))
    ensures Consistent(Heads(ss), sense) && order[m] == Key(ss[h].head) ==>
      var ms := Merged(ss, order);
      && sense(ms[m].head) == sense(ss[h].head) && ms[m].tuples == TuplesOf(ss, Key(ss[h].head))
      && forall i :: 0 <= i < |ms| ==> (sense(ms[i].head).table == sense(ss[h].head).table <==> i == m)
  {
    hide Key, HeadOf, TuplesOf, Consistent, Keys;
    if Consistent(Heads(ss), sense) && order[m] == Key(ss[h].head) {
      var ms := Merged(ss, order);
      OneSense(ss, sense, h);
      forall i | 0 <= i < |ms|
        ensures sense(ms[i].head).table == sense(ss[h].head).table <==> i == m
        ensures i == m ==> sense(ms[i].head) == sense(ss[h].head)
      {
        assert ms[i].head == HeadOf(ss, order[i]);
        var j :| 0 <= j < |ss| && ss[j].head == ms[i].head;
        assert Key(ms[i].head) == order[i];
        assert i != m ==> order[i] != order[m];
      }
    }
  }

  // ---- When heads are not consistent ----

  ghost predicate EveryOrder<C(!new)>(ss: seq<Insert>, sense: string -> Sense<C>)
  {
    forall order: seq<string> :: Permutation(order, Keys(ss)) ==> SameTables(Merged(ss, order), ss, sense)
  }

  lemma {:induction false} OrderFrom(keys: set<string>) returns (order: seq<string>)
    ensures Permutation(order, keys)
    decreases |keys|
  {
    if keys == {} {
      order := [];
    } else {
      var k :| k in keys;
      var rest := OrderFrom(keys - {k});
      order := [k] + rest;
    }
  }

  lemma OrderStarting(keys: set<string>, first: string) returns (order: seq<string>)
    requires first in keys
    ensures Permutation(order, keys) && order != [] && order[0] == first
  {
    var rest := OrderFrom(keys - {first});
    order := [first] + rest;
  }

  /** Every row of a table comes from some statement. */
  lemma {:induction false} RowComesFrom<C>(ss: seq<Insert>, sense: string -> Sense<C>, t: string, row: Row<C>)
    ensures row in TableAfter([], ss, sense, t) <==>
      exists i :: 0 <= i < |ss| && sense(ss[i].head).table == t && row in RowsOf(sense(ss[i].head).columns, ss[i].tuples)
  {
    hide RowsOf;
    if ss != [] {
      var before, last := ss[..|ss| - 1], ss[|ss| - 1];
      RowComesFrom(before, sense, t, row);
      if exists i :: 0 <= i < |ss| && sense(ss[i].head).table == t && row in RowsOf(sense(ss[i].head).columns, ss[i].tuples) {
        var i :| 0 <= i < |ss| && sense(ss[i].head).table == t && row in RowsOf(sense(ss[i].head).columns, ss[i].tuples);
        if i < |before| { assert before[i] == ss[i]; }
      }
      if exists i :: 0 <= i < |before| && sense(before[i].head).table == t && row in RowsOf(sense(before[i].head).columns, before[i].tuples) {
        var i :| 0 <= i < |before| && sense(before[i].head).table == t && row in RowsOf(sense(before[i].head).columns, before[i].tuples);
        assert ss[i] == before[i];
      }
    }
  }

  lemma {:induction false} TupleComesFrom(ss: seq<Insert>, k: string, tuple: string) returns (i: nat)
    requires tuple in TuplesOf(ss, k)
    ensures i < |ss| && Key(ss[i].head) == k && tuple in ss[i].tuples
  {
    hide Key;
    var m := |ss| - 1;
    if Key(ss[m].head) == k && tuple in ss[m].tuples {
      i := m;
    } else {
      i := TupleComesFrom(ss[..m], k, tuple);
    }
  }

  /** The given heads, each with one tuple that tells whether it is marked. */
  function Marked(heads: seq<string>, marks: seq<bool>): (ss: seq<Insert>)
    requires |marks| == |heads|
    ensures |ss| == |heads| && Heads(ss) == heads
    ensures forall i :: 0 <= i < |heads| ==> ss[i] == Insert(heads[i], [if marks[i] then "(1)" else "(2)"])
  {
    seq(|heads|, i requires 0 <= i < |heads| => Insert(heads[i], [if marks[i] then "(1)" else "(2)"]))
  }

  predicate AllHeads(heads: seq<string>)
  {
    forall i :: 0 <= i < |heads| ==> IsHead(heads[i])
  }

  lemma MarkedAreInserts(heads: seq<string>, marks: seq<bool>)
    requires |marks| == |heads| && AllHeads(heads)
    ensures AllInserts(Marked(heads, marks))
  {
    hide IsHead, IsTuple;
    MarksAreTuples();
    forall i | 0 <= i < |heads|
      ensures IsInsert(Marked(heads, marks)[i])
    {
    }
  }

  lemma MarksAreTuples()
    ensures IsTuple("(1)") && IsTuple("(2)")
  {
  }

  lemma KeyPresent(ss: seq<Insert>, i: nat)
    requires i < |ss|
    ensures Key(ss[i].head) in Keys(ss)
  {
  }

  /** A statement that means something else than the head of its group: its row does not arrive. */
  lemma LosesRows<C(!new)>(heads: seq<string>, sense: string -> Sense<C>, i: nat, j: nat) returns (ss: seq<Insert>)
    requires i < |heads| && j < |heads|
    ensures Heads(ss) == heads && (AllHeads(heads) ==> AllInserts(ss))
    ensures Key(heads[i]) == Key(heads[j]) && sense(heads[i]) != sense(heads[j]) ==> !EveryOrder(ss, sense)
  {
    hide Key, TuplesOf, HeadOf, Keys, AllHeads, AllInserts, SameTables, TableAfter;
    var marks := seq(|heads|, p => p == i);
    ss := Marked(heads, marks);
    KeyPresent(ss, i);
    var leader := HeadOf(ss, Key(ss[i].head));
    if sense(heads[i]) == sense(leader) {
      marks := seq(|heads|, p => p == j);
      ss := Marked(heads, marks);
      SameLeader(heads, Marked(heads, seq(|heads|, p => p == i)), ss, i);
      if Key(heads[i]) == Key(heads[j]) && sense(heads[i]) != sense(heads[j]) {
        LosesMarked(ss, sense, j);
      }
    } else {
      LosesMarked(ss, sense, i);
    }
    if AllHeads(heads) { MarkedAreInserts(heads, marks); }
  }

  /** The head of a group depends on the heads only. */
  lemma SameLeader(heads: seq<string>, a: seq<Insert>, b: seq<Insert>, i: nat)
    requires Heads(a) == heads == Heads(b) && i < |heads|
    ensures var k := Key(heads[i]); k in Keys(a) && k in Keys(b) && HeadOf(a, k) == HeadOf(b, k)
  {
    hide Key;
    assert |a| == |heads| == |b|;
    forall p | 0 <= p < |heads|
      ensures a[p].head == heads[p] == b[p].head
    {
      assert Heads(a)[p] == heads[p] == Heads(b)[p];
    }
    assert KeyList(a) == KeyList(b);
    KeyPresent(a, i);
    KeyPresent(b, i);
  }

  /** Only the statement at position i carries the marked tuple. */
  predicate MarkedAt(ss: seq<Insert>, i: nat)
  {
    forall p :: 0 <= p < |ss| ==> ss[p].tuples == [if p == i then "(1)" else "(2)"]
  }

  lemma LosesMarked<C(!new)>(ss: seq<Insert>, sense: string -> Sense<C>, i: nat)
    requires i < |ss|
    ensures var k := Key(ss[i].head);
      MarkedAt(ss, i) && k in Keys(ss) && sense(HeadOf(ss, k)) != sense(ss[i].head) ==> !EveryOrder(ss, sense)
  {
    hide Key, TuplesOf, HeadOf, Keys, TableAfter, RowsOf;
    if MarkedAt(ss, i) && Key(ss[i].head) in Keys(ss) && sense(HeadOf(ss, Key(ss[i].head))) != sense(ss[i].head) {
      var order := OrderFrom(Keys(ss));
      var ms := Merged(ss, order);
      var (t, columns) := (sense(ss[i].head).table, sense(ss[i].head).columns);
      var row := Row(columns, "(1)");
      RowComesFrom(ss, sense, t, row);
      RowComesFrom(ms, sense, t, row);
      assert RowsOf(columns, ss[i].tuples)[0] == row;
      forall m | 0 <= m < |ms| && row in RowsOf(sense(ms[m].head).columns, ms[m].tuples)
        ensures sense(ms[m].head).table != t
      {
        var p :| 0 <= p < |ms[m].tuples| && RowsOf(sense(ms[m].head).columns, ms[m].tuples)[p] == row;
        assert ms[m].tuples[p] == "(1)" && sense(ms[m].head).columns == columns;
        var q := TupleComesFrom(ss, order[m], "(1)");
        assert q == i by { DistinctMarks(); }
        assert ms[m].head == HeadOf(ss, order[m]);
      }
      assert TableAfter([], ss, sense, t) != TableAfter([], ms, sense, t);
      assert !SameTables(ms, ss, sense);
    }
  }

  lemma DistinctMarks()
    ensures "(1)" != "(2)" && "(1)" !in ["(2)"]
  {
    assert "(1)"[1] != "(2)"[1];
  }

  /** The first statement's first tuple is the first row of its table. */
  lemma {:induction false} FirstStatementFirst<C>(ms: seq<Insert>, sense: string -> Sense<C>)
    requires ms != [] && ms[0].tuples != []
    ensures var rows := TableAfter([], ms, sense, sense(ms[0].head).table);
      rows != [] && rows[0].tuple == ms[0].tuples[0]
  {
    var n := |ms| - 1;
    if n == 0 {
      var rows := RowsOf(sense(ms[0].head).columns, ms[0].tuples);
      assert TableAfter([], ms, sense, sense(ms[0].head).table) == [] + rows;
    } else {
      FirstStatementFirst(ms[..n], sense);
    }
  }

  lemma {:induction false} MergedHasTuples(ss: seq<Insert>, i: nat)
    requires i < |ss| && ss[i].tuples != []
    ensures TuplesOf(ss, Key(ss[i].head)) != []
  {
    hide Key;
    if i < |ss| - 1 {
      MergedHasTuples(ss[..|ss| - 1], i);
    }
  }

  /** The first row of a table when the group of a given statement comes first. */
  lemma FirstGroup<C>(ss: seq<Insert>, sense: string -> Sense<C>, i: nat, tuple: string) returns (order: seq<string>)
    requires i < |ss| && forall p :: 0 <= p < |ss| && Key(ss[p].head) == Key(ss[i].head) ==> ss[p].tuples == [tuple]
    requires forall p :: 0 <= p < |ss| && Key(ss[p].head) == Key(ss[i].head) ==> sense(ss[p].head) == sense(ss[i].head)
    ensures Permutation(order, Keys(ss))
    ensures var rows := TableAfter([], Merged(ss, order), sense, sense(ss[i].head).table);
      rows != [] && rows[0].tuple == tuple
  {
    hide Key, TuplesOf, HeadOf, Keys, TableAfter;
    KeyPresent(ss, i);
    var k := Key(ss[i].head);
    order := OrderStarting(Keys(ss), k);
    var ms := Merged(ss, order);
    assert ms[0] == Insert(HeadOf(ss, k), TuplesOf(ss, k));
    assert ss[i].tuples == [tuple];
    MergedHasTuples(ss, i);
    var q := TupleComesFrom(ss, k, ms[0].tuples[0]);
    assert ss[q].tuples == [tuple];
    FirstStatementFirst(ms, sense);
    var p :| 0 <= p < |ss| && ss[p].head == ms[0].head;
  }

  /** Two keys for one table: the map's order decides which rows come first. */
  lemma OrderMatters<C(!new)>(heads: seq<string>, sense: string -> Sense<C>, i: nat, j: nat) returns (ss: seq<Insert>)
    requires i < |heads| && j < |heads|
    requires forall p, q :: 0 <= p < |heads| && 0 <= q < |heads| && Key(heads[p]) == Key(heads[q]) ==> sense(heads[p]) == sense(heads[q])
    ensures Heads(ss) == heads && (AllHeads(heads) ==> AllInserts(ss))
    ensures Key(heads[i]) != Key(heads[j]) && sense(heads[i]).table == sense(heads[j]).table ==> !EveryOrder(ss, sense)
  {
    hide Key, TuplesOf, HeadOf, Keys, AllHeads, AllInserts, TableAfter;
    var marks := seq(|heads|, p requires 0 <= p < |heads| => Key(heads[p]) == Key(heads[i]));
    ss := Marked(heads, marks);
    if AllHeads(heads) { MarkedAreInserts(heads, marks); }
    if Key(heads[i]) != Key(heads[j]) && sense(heads[i]).table == sense(heads[j]).table {
      var t := sense(heads[i]).table;
      var a := FirstGroup(ss, sense, i, "(1)");
      var b := FirstGroup(ss, sense, j, "(2)");
      DistinctMarks();
      assert TableAfter([], Merged(ss, a), sense, t) != TableAfter([], Merged(ss, b), sense, t);
      if SameTables(Merged(ss, a), ss, sense) {
        assert TableAfter([], Merged(ss, a), sense, t) == TableAfter([], ss, sense, t);
        assert TableAfter([], Merged(ss, b), sense, t) != TableAfter([], ss, sense, t);
      }
    }
  }

  ghost predicate AlwaysMerges<C(!new)>(heads: seq<string>, sense: string -> Sense<C>)
  {
    forall ss: seq<Insert> :: AllInserts(ss) && Heads(ss) == heads ==> EveryOrder(ss, sense)
  }

  /**
   * For given heads, merging keeps every table, rows and order, for every order of the map and
   * whatever the tuples, exactly when heads with the same key mean the same table and columns
   * and heads of the same table have the same key.
   */
  lemma MergesExactlyConsistent<C(!new)>(heads: seq<string>, sense: string -> Sense<C>)
    requires AllHeads(heads)
    ensures AlwaysMerges(heads, sense) <==> Consistent(heads, sense)
  {
    hide SameTables, Key, HeadOf, AllInserts, Merged, Keys;
    if Consistent(heads, sense) {
      forall ss: seq<Insert>, order: seq<string> | Heads(ss) == heads && Permutation(order, Keys(ss))
        ensures SameTables(Merged(ss, order), ss, sense)
      {
        ConsistentMerges(ss, sense, order);
      }
    } else if i: nat, j: nat :| i < |heads| && j < |heads| && Key(heads[i]) == Key(heads[j]) && sense(heads[i]) != sense(heads[j]) {
      var ss := LosesRows(heads, sense, i, j);
    } else {
      var i, j :| 0 <= i < |heads| && 0 <= j < |heads|
        && sense(heads[i]).table == sense(heads[j]).table && Key(heads[i]) != Key(heads[j]);
      var ss := OrderMatters(heads, sense, i, j);
    }
  }

  // ---- Every tuple once ----

  function AllTuples(ss: seq<Insert>): multiset<string>
  {
    if ss == [] then multiset{} else AllTuples(ss[..|ss| - 1]) + multiset(ss[|ss| - 1].tuples)
  }

  /** The tuples of the given keys. */
  function TuplesUnder(ss: seq<Insert>, order: seq<string>): multiset<string>
  {
    if order == [] then multiset{}
    else TuplesUnder(ss, order[..|order| - 1]) + multiset(TuplesOf(ss, order[|order| - 1]))
  }

  lemma {:induction false} UnderStep(ss: seq<Insert>, order: seq<string>)
    requires ss != []
    requires forall i, j :: 0 <= i < j < |order| ==> order[i] != order[j]
    ensures var last := ss[|ss| - 1];
      TuplesUnder(ss, order) == TuplesUnder(ss[..|ss| - 1], order)
        + (if Key(last.head) in order then multiset(last.tuples) else multiset{})
  {
    hide Key;
    if order != [] {
      var n := |order| - 1;
      UnderStep(ss, order[..n]);
      assert order == order[..n] + [order[n]];
      assert order[n] !in order[..n];
    }
  }

  lemma {:induction false} UnderAll(ss: seq<Insert>, order: seq<string>)
    requires forall i, j :: 0 <= i < j < |order| ==> order[i] != order[j]
    requires forall k :: k in Keys(ss) ==> k in order
    ensures TuplesUnder(ss, order) == AllTuples(ss)
    decreases |ss|
  {
    hide Key;
    if ss == [] {
      UnderNothing(order);
    } else {
      UnderStep(ss, order);
      KeysStep(ss);
      UnderAll(ss[..|ss| - 1], order);
    }
  }

  lemma {:induction false} UnderNothing(order: seq<string>)
    ensures TuplesUnder([], order) == multiset{}
  {
    if order != [] { UnderNothing(order[..|order| - 1]); }
  }

  lemma {:induction false} MergedTuples(ss: seq<Insert>, order: seq<string>)
    requires forall k :: k in order ==> k in Keys(ss)
    ensures AllTuples(Merged(ss, order)) == TuplesUnder(ss, order)
    decreases |order|
  {
    hide Keys, HeadOf, TuplesOf;
    if order != [] {
      var n := |order| - 1;
      MergedTuples(ss, order[..n]);
      assert Merged(ss, order)[..n] == Merged(ss, order[..n]);
    }
  }

  /** Consistent or not, every value tuple appears exactly once in the merged statements. */
  lemma EveryTupleOnce(ss: seq<Insert>, order: seq<string>)
    requires Permutation(order, Keys(ss))
    ensures AllTuples(Merged(ss, order)) == AllTuples(ss)
  {
    hide Keys, TuplesUnder, AllTuples;
    UnderAll(ss, order);
    MergedTuples(ss, order);
  }
}

/**
 * The columns of a catalog query (internal/proxy/postgresql/server.go, parseSelectColumns and
 * extractColumnName), from the side of the text: which name an item of a select list has, and
 * which list a query has.
 */
module ColumnNames {
  import opened Wrappers
  import opened Sequences
  import opened Texts
  import opened ColumnSplit

  // ---- Names of items ----

  lemma LastIndexIs(s: string, p: string, k: nat)
    requires OccursAt(s, p, k) && k <= |s| && forall j :: k < j <= |s| ==> !OccursAt(s, p, j)
    ensures LastIndex(s, p) == k
  {
    hide OccursAt;
    var i := LastIndexFrom(s, p, |s|);
  }

  lemma NoLastIndex(s: string, p: string)
    requires forall j :: 0 <= j <= |s| ==> !OccursAt(s, p, j)
    ensures LastIndex(s, p) == -1
  {
    hide OccursAt;
    var i := LastIndexFrom(s, p, |s|);
  }

  /** The text holds no AS between blanks, in any case. */
  predicate NoAs(s: string)
  {
    !Mentions(s, " AS ")
  }

  lemma AsNowhere(s: string)
    requires NoAs(s)
    ensures LastIndex(ToUpper(s), " AS ") == -1
  {
    hide OccursAt, MentionedAt, LastIndex;
    forall j | 0 <= j <= |s|
      ensures !OccursAt(ToUpper(s), " AS ", j)
    {
      UpperMentionedAt(s, " AS ", j);
    }
    NoLastIndex(ToUpper(s), " AS ");
  }

  /** An item that is only a name. */
  lemma PlainName(a: string, name: string, b: string)
    requires AllSpace(a) && Trimmed(name) && AllSpace(b) && NoAs(name) && '.' !in name
    ensures ExtractColumnName(a + name + b) == name
  {
    hide TrimSpace, LastIndex, NoAs, AllSpace, Trimmed;
    TrimPads(a, name, b);
    AsNowhere(name);
    NoDot(name);
  }

  lemma NoDot(name: string)
    requires '.' !in name
    ensures LastIndex(name, ".") == -1
  {
    hide LastIndex;
    forall j | 0 <= j <= |name|
      ensures !OccursAt(name, ".", j)
    {
      if j < |name| { assert name[j..j + 1][0] == name[j]; }
    }
    NoLastIndex(name, ".");
  }

  lemma DotAt(front: string, name: string)
    requires '.' !in name
    ensures LastIndex(front + "." + name, ".") == |front|
  {
    hide LastIndex;
    var s := front + "." + name;
    assert s[|front|..|front| + 1] == ".";
    forall j | |front| < j <= |s|
      ensures !OccursAt(s, ".", j)
    {
      if j < |s| { assert s[j..j + 1][0] == name[j - |front| - 1]; }
    }
    LastIndexIs(s, ".", |front|);
  }

  /** A qualified name, by however many parts, is its last part. */
  lemma QualifiedName(a: string, front: string, name: string, b: string)
    requires AllSpace(a) && Trimmed(front + "." + name) && AllSpace(b) && NoAs(front + "." + name) && '.' !in name
    ensures ExtractColumnName(a + (front + "." + name) + b) == name
  {
    hide TrimSpace, LastIndex, NoAs, AllSpace, Trimmed;
    var e := front + "." + name;
    TrimPads(a, e, b);
    AsNowhere(e);
    DotAt(front, name);
    assert e[|front| + 1..] == name;
  }

  /** The word AS between blanks, in any case. */
  predicate IsAs(w: string)
  {
    |w| == 4 && MentionedAt(w, " AS ", 0)
  }

  /** The last AS of a text after which no other can begin. */
  lemma AsAt(front: string, w: string, rest: string)
    requires IsAs(w) && NoAs(w[3..] + rest)
    ensures LastIndex(ToUpper(front + w + rest), " AS ") == |front|
  {
    hide LastIndex;
    var s := front + w + rest;
    var up := ToUpper(s);
    assert MentionedAt(s, " AS ", |front|) by {
      assert forall k {:trigger " AS "[k]} :: 0 <= k < 4 ==> s[|front| + k] == w[0 + k];
    }
    UpperMentionedAt(s, " AS ", |front|);
    forall j | |front| < j <= |s|
      ensures !OccursAt(up, " AS ", j)
    {
      UpperMentionedAt(s, " AS ", j);
      LaterAs(front, w, rest, j);
    }
    LastIndexIs(up, " AS ", |front|);
  }

  /** No AS begins between the blanks of another: a later one begins at the last blank or after it. */
  lemma LaterAs(front: string, w: string, rest: string, j: nat)
    requires IsAs(w) && |front| < j
    ensures MentionedAt(front + w + rest, " AS ", j) ==> Mentions(w[3..] + rest, " AS ")
  {
    var s := front + w + rest;
    var t := w[3..] + rest;
    var n := |front|;
    assert w[1] == 'A' || w[1] == 'a' by { assert UpperChar(w[0 + 1]) == UpperChar(" AS "[1]); }
    assert w[2] == 'S' || w[2] == 's' by { assert UpperChar(w[0 + 2]) == UpperChar(" AS "[2]); }
    assert s[n + 1] == w[1] && s[n + 2] == w[2];
    if MentionedAt(s, " AS ", j) {
      assert UpperChar(s[j + 0]) == UpperChar(" AS "[0]);
      assert j >= n + 3;
      assert forall k {:trigger " AS "[k]} :: 0 <= k < 4 ==> s[j + k] == t[j - n - 3 + k];
      assert MentionedAt(t, " AS ", j - n - 3);
    }
  }

  /** An item with AS has the name after it; the blank before the name must not begin another AS. */
  lemma RenamedItem(a: string, front: string, w: string, gap: string, name: string, b: string)
    requires AllSpace(a) && AllSpace(gap) && AllSpace(b) && IsAs(w) && Trimmed(name) && name != ""
    requires Trimmed(front + w + gap + name) && NoAs(w[3..] + (gap + name))
    ensures ExtractColumnName(a + (front + w + gap + name) + b) == name
  {
    hide TrimSpace, LastIndex, NoAs, AllSpace, Trimmed, IsAs;
    var e := front + w + gap + name;
    TrimPads(a, e, b);
    assert e == front + w + (gap + name);
    AsAt(front, w, gap + name);
    assert |w| == 4 by { FourLetters(w); }
    assert e[|front| + 4..] == gap + name + "";
    NothingIsSpace();
    TrimPads(gap, name, "");
  }

  lemma FourLetters(w: string)
    requires IsAs(w)
    ensures |w| == 4
  {
  }

  lemma NothingIsSpace()
    ensures AllSpace("")
  {
  }

  // ---- Lists ----

  lemma {:induction false} DepthSplit(a: string, b: string)
    ensures Depth(a + b) == Depth(a) + Depth(b)
  {
    if b == "" {
      assert a + b == a;
    } else {
      var n := |b| - 1;
      DepthSplit(a, b[..n]);
      assert (a + b)[..|a + b| - 1] == a + b[..n];
    }
  }

  /** One item: no comma outside its parentheses, which are balanced. */
  predicate IsItem(e: string)
  {
    e != "" && Trimmed(e) && Depth(e) == 0 && Pieces(e, 0) == [e]
  }

  predicate AreItems(es: seq<string>)
  {
    forall i :: 0 <= i < |es| ==> IsItem(es[i])
  }

  lemma ItemsTail(es: seq<string>)
    requires AreItems(es) && es != []
    ensures IsItem(es[0]) && AreItems(es[1..])
  {
    hide IsItem;
  }

  lemma NoCommaFirst(e: string, d: int)
    ensures e != "" && Pieces(e, d) == [e] ==> !(e[0] == ',' && d == 0)
  {
    if e != "" && e[0] == ',' && d == 0 { assert Pieces(e, d)[0] == ""; }
  }

  /** A text with no comma at depth zero before a comma at depth zero is a piece of its own. */
  lemma {:induction false} PieceThenRest(e: string, d: int, rest: string)
    requires Pieces(e, d) == [e] && d + Depth(e) == 0
    ensures Pieces(e + "," + rest, d) == [e] + Pieces(rest, 0)
    decreases |e|
  {
    hide Depth;
    var s := e + "," + rest;
    if e == "" {
      DepthOfNothing();
      assert s == "," + rest && s[1..] == rest;
    } else {
      DepthCons(e[0], e[1..]);
      assert e == [e[0]] + e[1..];
      var tail := Pieces(e[1..], d + Turn(e[0]));
      NoCommaFirst(e, d);
      assert Pieces(e, d) == Onto([e[0]], tail);
      assert tail == [e[1..]] by {
        assert Onto([e[0]], tail)[0] == [e[0]] + tail[0] && |tail| == 1;
        assert tail[0] == ([e[0]] + tail[0])[1..];
      }
      PieceThenRest(e[1..], d + Turn(e[0]), rest);
      assert s[1..] == e[1..] + "," + rest && s[0] == e[0];
      assert Onto([e[0]], [e[1..]] + Pieces(rest, 0)) == [e] + Pieces(rest, 0);
    }
  }

  lemma BlankFirst(s: string)
    ensures Pieces(" " + s, 0) == Onto(" ", Pieces(s, 0))
  {
    assert (" " + s)[1..] == s;
  }

  /** The pieces of a written list are its items, all but the first with the blank before them. */
  lemma {:induction false} ListPieces(es: seq<string>)
    requires es != [] && AreItems(es)
    ensures var ps := Pieces(Join(es, ", "), 0);
      |ps| == |es| && ps[0] == es[0] && forall i :: 1 <= i < |es| ==> ps[i] == " " + es[i]
  {
    hide Pieces;
    ItemsTail(es);
    if |es| > 1 {
      ListPieces(es[1..]);
      var rest := Join(es[1..], ", ");
      assert Join(es, ", ") == es[0] + "," + (" " + rest);
      PieceThenRest(es[0], 0, " " + rest);
      BlankFirst(rest);
    }
  }

  lemma {:induction false} ListDepth(es: seq<string>)
    requires es != [] && AreItems(es)
    ensures Depth(Join(es, ", ")) == 0
  {
    hide Depth;
    ItemsTail(es);
    if |es| > 1 {
      ListDepth(es[1..]);
      var rest := Join(es[1..], ", ");
      DepthSplit(es[0] + ", ", rest);
      DepthSplit(es[0], ", ");
      SeparatorDepth();
    }
  }

  lemma SeparatorDepth()
    ensures Depth(", ") == 0 && Depth(" ") == 0
  {
    assert ", "[..1] == "," && ","[..0] == "" && " "[..0] == "";
  }

  lemma {:induction false} ListEnds(es: seq<string>)
    requires es != [] && AreItems(es)
    ensures var list := Join(es, ", "); list != "" && Trimmed(list) && list[0] == es[0][0]
  {
    hide IsSpace;
    ItemsTail(es);
    if |es| > 1 {
      ListEnds(es[1..]);
      var list, rest := Join(es, ", "), Join(es[1..], ", ");
      assert list[|list| - 1] == rest[|rest| - 1] && list[0] == es[0][0];
    }
  }

  lemma BlankIsSpace()
    ensures AllSpace(" ") && AllSpace("")
  {
  }

  // ---- Queries ----

  /** A FROM outside parentheses that stands alone: between blanks or at an end of the list. */
  predicate OuterFrom(list: string, k: nat)
  {
    && k + 4 <= |list| && MentionedAt(list, "FROM", k) && Depth(list[..k]) == 0
    && (k == 0 || IsBlank(list[k - 1])) && (k + 4 == |list| || IsBlank(list[k + 4]))
  }

  lemma {:induction false} UpperDepth(s: string)
    ensures Depth(ToUpper(s)) == Depth(s)
  {
    if s != "" {
      var n := |s| - 1;
      UpperDepth(s[..n]);
      assert ToUpper(s)[..n] == ToUpper(s[..n]);
      assert Turn(UpperChar(s[n])) == Turn(s[n]);
    }
  }

  lemma UpperPrefix(a: string, b: string, k: nat)
    requires k <= |a|
    ensures ToUpper(a + b)[..k] == ToUpper(a[..k])
  {
  }

  /** A FROM found inside the list stands outside its parentheses. */
  lemma FoundInside(list: string, rest: string, k: nat)
    requires k <= |list|
    ensures FromAt(ToUpper(list + " FROM " + rest), k) ==> OuterFrom(list, k)
  {
    hide Depth;
    var s := list + " FROM " + rest;
    var up := ToUpper(s);
    if FromAt(up, k) {
      InsideList(list, up, k);
      assert s == list + (" FROM " + rest);
      UpperPrefix(list, " FROM " + rest, k);
      UpperDepth(list[..k]);
      UpperMentionedAt(list, "FROM", k);
      assert ToUpper(list)[k..k + 4] == up[k..k + 4];
      if k > 0 { BlankStays(list[k - 1]); }
      if k + 4 < |list| { BlankStays(list[k + 4]); }
    }
  }

  lemma FromHasNoBlank(up: string, k: nat, j: nat)
    ensures FromAt(up, k) && k <= j < k + 4 ==> up[j] != ' '
  {
    hide Depth;
    if FromAt(up, k) && k <= j < k + 4 {
      assert up[k..k + 4][j - k] == up[j];
      assert "FROM"[j - k] != ' ';
    }
  }

  lemma InsideList(list: string, up: string, k: nat)
    requires k <= |list| < |up| && up[|list|] == ' '
    ensures FromAt(up, k) ==> k + 4 <= |list|
  {
    hide FromAt;
    FromHasNoBlank(up, k, |list|);
  }

  lemma BlankStays(c: char)
    ensures IsBlank(UpperChar(c)) <==> IsBlank(c)
  {
  }

  lemma DepthBefore(list: string, rest: string)
    requires Depth(list) == 0
    ensures Depth(ToUpper(list + " " + rest)[..|list| + 1]) == 0
  {
    hide Depth;
    UpperPrefix(list + " ", rest, |list| + 1);
    assert (list + " ")[..|list| + 1] == list + " ";
    UpperDepth(list + " ");
    DepthSplit(list, " ");
    SeparatorDepth();
  }

  lemma UpperFrom(s: string, n: nat)
    requires n + 4 <= |s| && s[n] == 'F' && s[n + 1] == 'R' && s[n + 2] == 'O' && s[n + 3] == 'M'
    ensures ToUpper(s)[n..n + 4] == "FROM"
  {
    var t := ToUpper(s)[n..n + 4];
    assert t[0] == 'F' && t[1] == 'R' && t[2] == 'O' && t[3] == 'M';
  }

  lemma FromStands(s: string, n: nat)
    requires 0 < n && n + 4 < |s| && s[n - 1] == ' ' && s[n + 4] == ' '
    requires s[n] == 'F' && s[n + 1] == 'R' && s[n + 2] == 'O' && s[n + 3] == 'M'
    ensures var up := ToUpper(s); up[n..n + 4] == "FROM" && IsBlank(up[n - 1]) && IsBlank(up[n + 4])
  {
    hide ToUpper;
    UpperFrom(s, n);
  }

  lemma FoundAfter(list: string, rest: string)
    requires Depth(list) == 0
    ensures FromAt(ToUpper(list + " FROM " + rest), |list| + 1)
  {
    hide Depth, ToUpper, IsBlank;
    var s := list + " " + ("FROM " + rest);
    assert s == list + " FROM " + rest;
    DepthBefore(list, "FROM " + rest);
    FromStands(s, |list| + 1);
  }

  lemma FromIndexIs(list: string, rest: string)
    requires Depth(list) == 0 && forall k :: 0 <= k <= |list| ==> !OuterFrom(list, k)
    ensures FromIndex(ToUpper(list + " FROM " + rest), 0) == |list| + 1
  {
    hide Depth, FromAt, OuterFrom, FromIndex;
    var up := ToUpper(list + " FROM " + rest);
    FoundAfter(list, rest);
    forall k | 0 <= k <= |list|
      ensures !FromAt(up, k)
    {
      FoundInside(list, rest, k);
    }
    var r := FromIndex(up, 0);
  }

  lemma SelectFirst(sel: string, after: string)
    requires ToUpper(sel) == "SELECT "
    ensures Index(ToUpper(sel + after), "SELECT ") == 0 && (sel + after)[7..] == after
  {
    hide Index;
    assert |sel| == 7;
    var up := ToUpper(sel + after);
    assert up[0..7] == ToUpper(sel);
    assert OccursAt(up, "SELECT ", 0);
    var i := Index(up, "SELECT ");
  }

  /**
   * A query written as SELECT, a list of items separated by commas, and FROM, in any case: the
   * columns are the names of the items in order, unless the list is a lone asterisk. Items may
   * hold commas and subqueries with their own FROM inside balanced parentheses.
   */
  lemma SelectListRead(sel: string, es: seq<string>, rest: string)
    requires ToUpper(sel) == "SELECT " && es != [] && AreItems(es)
    ensures var list := Join(es, ", ");
      (forall k :: 0 <= k <= |list| ==> !OuterFrom(list, k)) ==>
        var cols := SelectColumns(sel + list + " FROM " + rest);
        if list == "*" then cols == None
        else cols.Some? && |cols.value| == |es| && forall i :: 0 <= i < |es| ==> cols.value[i] == ExtractColumnName(es[i])
  {
    hide Depth, FromAt, OuterFrom, FromIndex, Pieces, Index, TrimSpace, AllSpace, Trimmed, ExtractColumnName, Join, IsItem;
    var list := Join(es, ", ");
    if forall k :: 0 <= k <= |list| ==> !OuterFrom(list, k) {
      var after := list + " FROM " + rest;
      assert sel + list + " FROM " + rest == sel + after;
      SelectFirst(sel, after);
      ListDepth(es);
      ListEnds(es);
      FromIndexIs(list, rest);
      assert after[..|list| + 1] == "" + list + " ";
      BlankIsSpace();
      TrimPads("", list, " ");
      ListPieces(es);
      var ps := Pieces(list, 0);
      forall i | 0 <= i < |es|
        ensures ExtractColumnName(ps[i]) == ExtractColumnName(es[i])
      {
        if i > 0 { ItemNamed(es, i); }
      }
    }
  }

  lemma ItemNamed(es: seq<string>, i: nat)
    requires i < |es| && AreItems(es)
    ensures ExtractColumnName(" " + es[i]) == ExtractColumnName(es[i])
  {
    hide TrimSpace, AllSpace, Trimmed, LastIndex, Pieces, Depth;
    assert IsItem(es[i]);
    BlankIsSpace();
    TrimPads(" ", es[i], "");
    TrimmedStays(es[i]);
    assert " " + es[i] + "" == " " + es[i];
  }
}

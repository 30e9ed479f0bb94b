/**
 * The column splitters of the PostgreSQL server (internal/proxy/postgresql/server.go): the
 * accumulating splitColumnList, the index-based loop of parseSelectColumns, and the search for
 * the FROM of the outermost query.
 */
module ColumnSplit {
  import opened Wrappers
  import opened Sequences
  import opened Texts

  // ---- Commas outside parentheses ----

  /** Open parentheses minus closed ones; it may be negative. */
  function Depth(s: string): int
  {
    if s == "" then 0
    else Depth(s[..|s| - 1]) + Turn(s[|s| - 1])
  }

  function Turn(c: char): int
  {
    if c == '(' then 1 else if c == ')' then -1 else 0
  }

  /** Position i holds a comma at depth zero, when the text itself begins at depth d. */
  predicate IsCut(s: string, d: int, i: nat)
  {
    i < |s| && s[i] == ',' && d + Depth(s[..i]) == 0
  }

  /** The pieces between the commas at depth zero; a text without any is one piece. */
  function Pieces(s: string, d: int): (ps: seq<string>)
    ensures ps != []
    decreases |s|
  {
    if s == "" then [""]
    else if s[0] == ',' && d == 0 then [""] + Pieces(s[1..], d)
    else Onto([s[0]], Pieces(s[1..], d + Turn(s[0])))
  }

  /** Puts a text in front of the first piece. */
  function Onto(text: string, ps: seq<string>): (out: seq<string>)
    requires ps != []
    ensures |out| == |ps|
  {
    [text + ps[0]] + ps[1..]
  }

  lemma OntoOnto(a: string, b: string, ps: seq<string>)
    requires ps != []
    ensures Onto(a, Onto(b, ps)) == Onto(a + b, ps)
    ensures Onto("", ps) == ps
  {
    assert a + (b + ps[0]) == a + b + ps[0];
    assert "" + ps[0] == ps[0];
  }

  lemma AfterComma(xs: seq<string>, text: string, ps: seq<string>)
    requires ps != []
    ensures xs + Onto(text, [""] + ps) == (xs + [text]) + Onto("", ps)
  {
    OntoOnto("", "", ps);
    assert text + "" == text;
    assert ([""] + ps)[1..] == ps;
  }

  lemma PiecesStep(s: string, i: nat, d: int)
    requires i < |s|
    ensures Pieces(s[i..], d) == if s[i] == ',' && d == 0 then [""] + Pieces(s[i + 1..], d)
                                 else Onto([s[i]], Pieces(s[i + 1..], d + Turn(s[i])))
  {
    assert s[i..][1..] == s[i + 1..];
  }

  // ---- The two splitters ----

  /** A final empty piece is not reported. */
  method SplitColumnList(s: string) returns (result: seq<string>)
    ensures var ps := Pieces(s, 0);
      result == if ps[|ps| - 1] == "" then ps[..|ps| - 1] else ps
  {
    hide Pieces, Onto;
    result := [];
    var depth := 0;
    var current := "";
    var i := 0;
    OntoOnto("", "", Pieces(s, 0));
    assert s[0..] == s;
    while i < |s|
      invariant 0 <= i <= |s|
      invariant result + Onto(current, Pieces(s[i..], depth)) == Pieces(s, 0)
    {
      var ch := s[i];
      PiecesStep(s, i, depth);
      if ch == '(' {
        depth := depth + 1;
      } else if ch == ')' {
        depth := depth - 1;
      } else if ch == ',' && depth == 0 {
        AfterComma(result, current, Pieces(s[i + 1..], depth));
        result := result + [current];
        current := "";
        i := i + 1;
        continue;
      }
      OntoOnto(current, [ch], Pieces(s[i + 1..], depth));
      current := current + [ch];
      i := i + 1;
    }
    assert s[i..] == "";
    LastPiece(current);
    if current != "" {
      result := result + [current];
    }
  }

  lemma LastPiece(text: string)
    ensures Onto(text, Pieces("", 0)) == [text]
    ensures forall d :: Pieces("", d) == Pieces("", 0)
  {
    assert text + "" == text;
  }

  /** The loop of parseSelectColumns, before column names are extracted from the pieces. */
  method SplitByIndex(colPart: string) returns (cols: seq<string>)
    ensures cols == Pieces(colPart, 0)
  {
    hide Pieces, Onto;
    cols := [];
    var depth := 0;
    var start := 0;
    OntoOnto("", "", Pieces(colPart, 0));
    assert colPart[0..] == colPart && colPart[0..0] == "";
    for i := 0 to |colPart|
      invariant 0 <= start <= i
      invariant cols + Onto(colPart[start..i], Pieces(colPart[i..], depth)) == Pieces(colPart, 0)
    {
      PiecesStep(colPart, i, depth);
      var c := colPart[i];
      assert colPart[start..i] + [c] == colPart[start..i + 1];
      OntoOnto(colPart[start..i], [c], Pieces(colPart[i + 1..], depth + Turn(c)));
      match c
      case '(' =>
        depth := depth + 1;
      case ')' =>
        depth := depth - 1;
      case ',' =>
        if depth == 0 {
          AfterComma(cols, colPart[start..i], Pieces(colPart[i + 1..], depth));
          cols := cols + [colPart[start..i]];
          start := i + 1;
          assert colPart[start..i + 1] == "";
        }
      case _ =>
    }
    assert colPart[|colPart|..] == "" && colPart[start..|colPart|] == colPart[start..];
    LastPiece(colPart[start..]);
    cols := cols + [colPart[start..]];
  }

  // ---- What the pieces are ----

  /** Joining the pieces with commas restores the text. */
  lemma {:induction false} JoinRestores(s: string, d: int)
    ensures Join(Pieces(s, d), ",") == s
    decreases |s|
  {
    if s != "" {
      if s[0] == ',' && d == 0 {
        JoinRestores(s[1..], d);
        assert ([""] + Pieces(s[1..], d))[1..] == Pieces(s[1..], d);
      } else {
        JoinRestores(s[1..], d + Turn(s[0]));
        JoinOnto([s[0]], Pieces(s[1..], d + Turn(s[0])));
      }
    }
  }

  lemma JoinOnto(text: string, ps: seq<string>)
    requires ps != []
    ensures Join(Onto(text, ps), ",") == text + Join(ps, ",")
  {
    if |ps| > 1 {
      var tail := Join(ps[1..], ",");
      assert text + (ps[0] + "," + tail) == text + ps[0] + "," + tail;
      assert Onto(text, ps)[1..] == ps[1..];
    }
  }

  /** The position of the comma before piece k. */
  function Offset(ps: seq<string>, k: nat): nat
    requires 0 < k < |ps|
  {
    if k == 1 then |ps[0]| else |ps[0]| + 1 + Offset(ps[1..], k - 1)
  }

  predicate CommaAt(ps: seq<string>, i: nat)
  {
    exists k :: 0 < k < |ps| && Offset(ps, k) == i
  }

  lemma {:induction false} DepthCons(c: char, s: string)
    ensures Depth([c] + s) == Turn(c) + Depth(s)
    decreases |s|
  {
    if s == "" {
      assert [c] + s == [c] && Depth([c]) == Depth([c][..0]) + Turn(c);
    } else {
      DepthCons(c, s[..|s| - 1]);
      assert ([c] + s)[..|s|] == [c] + s[..|s| - 1];
    }
  }

  lemma CutCons(s: string, d: int, i: nat)
    requires s != ""
    ensures IsCut(s, d, i) <==> if i == 0 then s[0] == ',' && d == 0 else IsCut(s[1..], d + Turn(s[0]), i - 1)
  {
    hide Depth;
    if 0 < i < |s| {
      DepthCons(s[0], s[1..i]);
      assert s[..i] == [s[0]] + s[1..i] && s[1..][..i - 1] == s[1..i];
    }
    DepthOfNothing();
  }

  lemma DepthOfNothing()
    ensures Depth("") == 0
  {
  }

  lemma CommaCons(ps: seq<string>, i: nat)
    requires ps != []
    ensures CommaAt([""] + ps, i) <==> i == 0 || CommaAt(ps, i - 1)
  {
    var qs := [""] + ps;
    assert qs[1..] == ps;
    if i == 0 {
      assert Offset(qs, 1) == 0;
    } else {
      if CommaAt(qs, i) {
        var k :| 0 < k < |qs| && Offset(qs, k) == i;
        assert Offset(ps, k - 1) == i - 1;
      }
      if CommaAt(ps, i - 1) {
        var k :| 0 < k < |ps| && Offset(ps, k) == i - 1;
        assert Offset(qs, k + 1) == i;
      }
    }
  }

  lemma OffsetOnto(c: char, ps: seq<string>, k: nat)
    requires 0 < k < |ps|
    ensures Offset(Onto([c], ps), k) == Offset(ps, k) + 1
  {
    assert Onto([c], ps)[1..] == ps[1..];
  }

  lemma CommaOnto(c: char, ps: seq<string>, i: nat)
    requires ps != []
    ensures CommaAt(Onto([c], ps), i) <==> i > 0 && CommaAt(ps, i - 1)
  {
    hide Offset, Onto;
    var qs := Onto([c], ps);
    if CommaAt(qs, i) {
      var k :| 0 < k < |qs| && Offset(qs, k) == i;
      OffsetOnto(c, ps, k);
      assert Offset(ps, k) == i - 1;
    }
    if i > 0 && CommaAt(ps, i - 1) {
      var k :| 0 < k < |ps| && Offset(ps, k) == i - 1;
      OffsetOnto(c, ps, k);
      assert Offset(qs, k) == i;
    }
  }

  /** The pieces are separated exactly at the commas of depth zero. */
  lemma {:induction false} CutsExactly(s: string, d: int, i: nat)
    ensures IsCut(s, d, i) <==> CommaAt(Pieces(s, d), i)
    decreases |s|
  {
    hide IsCut, CommaAt, Onto;
    if s == "" {
      NoCut(d, i);
    } else {
      CutCons(s, d, i);
      if s[0] == ',' && d == 0 {
        CommaCons(Pieces(s[1..], d), i);
        if i > 0 { CutsExactly(s[1..], d, i - 1); }
      } else {
        CommaOnto(s[0], Pieces(s[1..], d + Turn(s[0])), i);
        if i > 0 { CutsExactly(s[1..], d + Turn(s[0]), i - 1); }
      }
    }
  }

  lemma NoCut(d: int, i: nat)
    ensures !IsCut("", d, i) && !CommaAt([""], i)
  {
  }

  // ---- FROM ----

  predicate IsBlank(c: char)
  {
    c == ' ' || c == '\n' || c == '\t'
  }

  /** Position i begins a FROM at depth zero that is followed by a blank and not glued to a word before it. */
  predicate FromAt(upper: string, i: nat)
  {
    && i + 4 < |upper| && Depth(upper[..i]) == 0 && upper[i..i + 4] == "FROM"
    && (i == 0 || IsBlank(upper[i - 1])) && IsBlank(upper[i + 4])
  }

  /** The leftmost such position, or -1 when there is none; a FROM that ends the text is not found. */
  method FindTopLevelFrom(upper: string) returns (r: int)
    ensures r >= 0 ==> FromAt(upper, r) && forall k :: 0 <= k < r ==> !FromAt(upper, k)
    ensures r < 0 ==> r == -1 && forall k :: 0 <= k < |upper| ==> !FromAt(upper, k)
  {
    hide Depth;
    DepthOfNothing();
    var depth := 0;
    var i := 0;
    assert upper[..0] == "";
    while i < |upper| - 4
      invariant 0 <= i && (i <= |upper| - 4 || i == 0)
      invariant i <= |upper| ==> depth == Depth(upper[..i])
      invariant forall k :: 0 <= k < i ==> !FromAt(upper, k)
    {
      DepthStep(upper, i);
      if upper[i] == '(' {
        NotFrom(upper, i);
        depth := depth + 1;
      } else if upper[i] == ')' {
        NotFrom(upper, i);
        depth := depth - 1;
      } else if depth == 0 && upper[i..i + 4] == "FROM" && (i == 0 || IsBlank(upper[i - 1])) {
        if i + 4 >= |upper| || IsBlank(upper[i + 4]) {
          return i;
        }
      }
      i := i + 1;
    }
    return -1;
  }

  lemma NotFrom(upper: string, i: nat)
    requires i < |upper| && upper[i] != 'F'
    ensures !FromAt(upper, i)
  {
    hide Depth;
    if i + 4 < |upper| {
      assert upper[i..i + 4][0] == upper[i];
    }
  }

  lemma DepthStep(s: string, i: nat)
    requires i < |s|
    ensures Depth(s[..i + 1]) == Depth(s[..i]) + Turn(s[i])
  {
    assert s[..i + 1][..i] == s[..i];
  }

  // ---- Column names ----

  /** strings.LastIndex: the last occurrence, or -1. */
  function LastIndex(s: string, p: string): (i: int)
    ensures -1 <= i <= |s|
    ensures i >= 0 ==> OccursAt(s, p, i)
    decreases |s|
  {
    LastIndexFrom(s, p, |s|)
  }

  function LastIndexFrom(s: string, p: string, k: nat): (i: int)
    requires k <= |s|
    ensures -1 <= i <= k
    ensures i >= 0 ==> OccursAt(s, p, i)
    ensures forall j :: i < j <= k ==> !OccursAt(s, p, j)
  {
    if OccursAt(s, p, k) then k else if k == 0 then -1 else LastIndexFrom(s, p, k - 1)
  }

  function ExtractColumnName(expr: string): string
  {
    var e := TrimSpace(expr);
    var asIdx := LastIndex(ToUpper(e), " AS ");
    if asIdx >= 0 then TrimSpace(e[asIdx + 4..])
    else
      var dot := LastIndex(e, ".");
      if dot >= 0 then e[dot + 1..] else e
  }

  function Names(ps: seq<string>): (names: seq<string>)
    ensures |names| == |ps|
  {
    seq(|ps|, i requires 0 <= i < |ps| => ExtractColumnName(ps[i]))
  }

  /** The position findTopLevelFrom returns. */
  function FromIndex(upper: string, i: nat): (r: int)
    requires i <= |upper|
    ensures r >= 0 ==> i <= r < |upper| && FromAt(upper, r) && forall k :: i <= k < r ==> !FromAt(upper, k)
    ensures r < 0 ==> r == -1 && forall k :: i <= k < |upper| ==> !FromAt(upper, k)
    decreases |upper| - i
  {
    if i == |upper| then -1 else if FromAt(upper, i) then i else FromIndex(upper, i + 1)
  }

  /** The names of the selected columns: none without SELECT and its FROM, and none for a lone asterisk. */
  function SelectColumns(query: string): Option<seq<string>>
  {
    var selectIdx := Index(ToUpper(query), "SELECT ");
    if selectIdx < 0 then None
    else
      var after := query[selectIdx + 7..];
      var fromIdx := FromIndex(ToUpper(after), 0);
      if fromIdx < 0 || TrimSpace(after[..fromIdx]) == "*" then None
      else Some(Names(Pieces(TrimSpace(after[..fromIdx]), 0)))
  }

  method ParseSelectColumns(query: string) returns (cols: Option<seq<string>>)
    ensures cols == SelectColumns(query)
  {
    hide TrimSpace, FromAt, Pieces, ExtractColumnName;
    var upper := ToUpper(query);
    var selectIdx := Index(upper, "SELECT ");
    if selectIdx < 0 {
      return None;
    }
    var afterSelect := query[selectIdx + 7..];
    var fromIdx := FindTopLevelFrom(ToUpper(afterSelect));
    LeftmostFrom(ToUpper(afterSelect), fromIdx);
    if fromIdx < 0 {
      return None;
    }
    var colPart := TrimSpace(afterSelect[..fromIdx]);
    if colPart == "*" {
      return None;
    }
    var pieces := SplitByIndex(colPart);
    return Some(Names(pieces));
  }

  lemma LeftmostFrom(upper: string, r: int)
    requires r >= 0 ==> FromAt(upper, r) && forall k :: 0 <= k < r ==> !FromAt(upper, k)
    requires r < 0 ==> r == -1 && forall k :: 0 <= k < |upper| ==> !FromAt(upper, k)
    ensures r == FromIndex(upper, 0)
  {
    hide FromIndex;
    if r >= 0 { FromInside(upper, r); }
  }

  lemma FromInside(upper: string, i: nat)
    requires FromAt(upper, i)
    ensures i < |upper|
  {
  }
}

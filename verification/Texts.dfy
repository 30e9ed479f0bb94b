/** The string functions of Go's standard library that the proxy relies on, over sequences of characters. */
module Texts {

  /** unicode.IsSpace. */
  predicate IsSpace(c: char)
  {
    '\t' <= c <= '\r' || c == ' ' || c == '\U{85}' || c == '\U{A0}' || c == '\U{1680}'
    || '\U{2000}' <= c <= '\U{200A}' || c == '\U{2028}' || c == '\U{2029}' || c == '\U{202F}' || c == '\U{205F}' || c == '\U{3000}'
  }

  predicate IsDigit(c: char)
  {
    '0' <= c <= '9'
  }

  function TrimLeft(s: string): (t: string)
    ensures |t| <= |s| && t == s[|s| - |t|..]
    ensures t == "" || !IsSpace(t[0])
    ensures forall i :: 0 <= i < |s| - |t| ==> IsSpace(s[i])
  {
    if s == "" || !IsSpace(s[0]) then s else TrimLeft(s[1..])
  }

  function TrimRight(s: string): (t: string)
    ensures |t| <= |s| && t == s[..|t|]
    ensures t == "" || !IsSpace(t[|t| - 1])
    ensures forall i :: |t| <= i < |s| ==> IsSpace(s[i])
  {
    if s == "" || !IsSpace(s[|s| - 1]) then s else TrimRight(s[..|s| - 1])
  }

  function TrimSpace(s: string): string
  {
    TrimRight(TrimLeft(s))
  }

  /** No space at either end. */
  predicate Trimmed(s: string)
  {
    s != "" ==> !IsSpace(s[0]) && !IsSpace(s[|s| - 1])
  }

  lemma TrimmedStays(s: string)
    requires Trimmed(s)
    ensures TrimSpace(s) == s
  {
  }

  predicate AllSpace(s: string)
  {
    forall i :: 0 <= i < |s| ==> IsSpace(s[i])
  }

  lemma TrimLeftOf(s: string)
    ensures TrimLeft(s) == if s == "" || !IsSpace(s[0]) then s else TrimLeft(s[1..])
  {
    hide IsSpace;
  }

  lemma TrimRightOf(s: string)
    ensures TrimRight(s) == if s == "" || !IsSpace(s[|s| - 1]) then s else TrimRight(s[..|s| - 1])
  {
    hide IsSpace;
  }

  lemma LeftStep(c: char, t: string)
    requires IsSpace(c)
    ensures TrimLeft([c] + t) == TrimLeft(t)
  {
    hide IsSpace, TrimLeft;
    TrimLeftOf([c] + t);
    assert ([c] + t)[1..] == t;
  }

  lemma RightStep(t: string, c: char)
    requires IsSpace(c)
    ensures TrimRight(t + [c]) == TrimRight(t)
  {
    hide IsSpace, TrimRight;
    TrimRightOf(t + [c]);
    assert (t + [c])[..|t|] == t;
  }

  lemma {:induction false} SpacesLeft(a: string, t: string)
    requires AllSpace(a)
    ensures TrimLeft(a + t) == TrimLeft(t)
  {
    hide IsSpace, TrimLeft;
    if a == "" {
      assert a + t == t;
    } else {
      SpacesLeft(a[1..], t);
      LeftStep(a[0], a[1..] + t);
      assert a + t == [a[0]] + (a[1..] + t);
    }
  }

  lemma {:induction false} SpacesRight(t: string, b: string)
    requires AllSpace(b)
    ensures TrimRight(t + b) == TrimRight(t)
  {
    hide IsSpace, TrimRight;
    if b == "" {
      assert t + b == t;
    } else {
      var last := |b| - 1;
      SpacesRight(t, b[..last]);
      RightStep(t + b[..last], b[last]);
      assert t + b == t + b[..last] + [b[last]];
    }
  }

  lemma AllSpaceGoes(b: string)
    requires AllSpace(b)
    ensures TrimSpace(b) == ""
  {
    hide IsSpace;
    SpacesLeft(b, "");
    assert b + "" == b;
  }

  lemma FirstStays(t: string)
    requires t != "" && !IsSpace(t[0])
    ensures TrimLeft(t) == t
  {
    hide IsSpace;
  }

  /** Spaces around a trimmed text go. */
  lemma TrimPads(a: string, w: string, b: string)
    requires AllSpace(a) && Trimmed(w) && AllSpace(b)
    ensures TrimSpace(a + w + b) == w
  {
    hide IsSpace, TrimLeft, TrimRight, AllSpace;
    assert a + w + b == a + (w + b);
    SpacesLeft(a, w + b);
    if w == "" {
      assert w + b == b;
      AllSpaceGoes(b);
    } else {
      assert (w + b)[0] == w[0];
      FirstStays(w + b);
      SpacesRight(w, b);
      FirstStays(w);
      TrimmedStays(w);
    }
  }

  lemma LeftParts(s: string) returns (a: string)
    ensures AllSpace(a) && s == a + TrimLeft(s)
  {
    hide IsSpace;
    a := s[..|s| - |TrimLeft(s)|];
  }

  lemma TrimmedParts(t: string)
    requires t != "" ==> !IsSpace(t[0])
    ensures Trimmed(TrimRight(t))
  {
    hide IsSpace;
  }

  lemma RightParts(s: string) returns (b: string)
    ensures AllSpace(b) && s == TrimRight(s) + b
  {
    hide IsSpace;
    b := s[|TrimRight(s)|..];
  }

  /** A text is its trimmed middle between spaces. */
  lemma TrimParts(s: string) returns (a: string, b: string)
    ensures AllSpace(a) && AllSpace(b) && Trimmed(TrimSpace(s)) && s == a + TrimSpace(s) + b
  {
    hide IsSpace, TrimLeft, TrimRight, AllSpace;
    a := LeftParts(s);
    b := RightParts(TrimLeft(s));
    TrimmedParts(TrimLeft(s));
    assert a + (TrimSpace(s) + b) == a + TrimSpace(s) + b;
  }

  function UpperChar(c: char): char
  {
    if 'a' <= c <= 'z' then ((c as int) - 32) as char else c
  }

  /** strings.ToUpper on ASCII letters. */
  function ToUpper(s: string): (t: string)
    ensures |t| == |s|
    ensures forall i :: 0 <= i < |s| ==> t[i] == UpperChar(s[i])
  {
    seq(|s|, i requires 0 <= i < |s| => UpperChar(s[i]))
  }

  function LowerChar(c: char): char
  {
    if 'A' <= c <= 'Z' then ((c as int) + 32) as char else c
  }

  /** strings.ToLower on ASCII letters. */
  function ToLower(s: string): (t: string)
    ensures |t| == |s|
    ensures forall i :: 0 <= i < |s| ==> t[i] == LowerChar(s[i])
  {
    seq(|s|, i requires 0 <= i < |s| => LowerChar(s[i]))
  }

  predicate OccursAt(s: string, p: string, i: nat)
  {
    i + |p| <= |s| && s[i..i + |p|] == p
  }

  lemma OccursShift(s: string, p: string, k: nat)
    requires 0 < k <= |s|
    ensures OccursAt(s, p, k) <==> OccursAt(s[1..], p, k - 1)
  {
    if k + |p| <= |s| {
      var a, b := s[k..k + |p|], s[1..][k - 1..k - 1 + |p|];
      assert |a| == |b| && forall i :: 0 <= i < |a| ==> a[i] == b[i];
      assert a == b;
    }
  }

  /** strings.Index: the first occurrence, or -1. */
  function Index(s: string, p: string): (i: int)
    ensures -1 <= i <= |s|
    ensures i >= 0 ==> OccursAt(s, p, i) && forall k :: 0 <= k < i ==> !OccursAt(s, p, k)
    ensures i < 0 ==> forall k :: 0 <= k <= |s| ==> !OccursAt(s, p, k)
  {
    if OccursAt(s, p, 0) then 0
    else if s == "" then -1
    else
      var i := Index(s[1..], p);
      assert forall k :: 0 < k <= |s| ==> (OccursAt(s, p, k) <==> OccursAt(s[1..], p, k - 1)) by {
        forall k | 0 < k <= |s|
          ensures OccursAt(s, p, k) <==> OccursAt(s[1..], p, k - 1)
        {
          OccursShift(s, p, k);
        }
      }
      if i < 0 then -1 else i + 1
  }

  predicate Contains(s: string, p: string)
  {
    Index(s, p) >= 0
  }

  /** The pattern stands in the text in any letter case. */
  predicate MentionedAt(s: string, p: string, i: nat)
  {
    i + |p| <= |s| && forall k :: 0 <= k < |p| ==> UpperChar(s[i + k]) == UpperChar(p[k])
  }

  predicate Mentions(s: string, p: string)
  {
    exists i :: 0 <= i <= |s| && MentionedAt(s, p, i)
  }

  lemma UpperMentionedAt(s: string, p: string, i: nat)
    requires forall k :: 0 <= k < |p| ==> UpperChar(p[k]) == p[k]
    ensures OccursAt(ToUpper(s), p, i) <==> MentionedAt(s, p, i)
  {
    if i + |p| <= |s| {
      var t := ToUpper(s)[i..i + |p|];
      assert forall k :: 0 <= k < |p| ==> t[k] == UpperChar(s[i + k]);
      if MentionedAt(s, p, i) { assert t == p; }
    }
  }

  /** Looking for an upper-case word in the upper-case text is looking for it in any case. */
  lemma UpperContains(s: string, p: string)
    requires forall k :: 0 <= k < |p| ==> UpperChar(p[k]) == p[k]
    ensures Contains(ToUpper(s), p) <==> Mentions(s, p)
  {
    hide OccursAt, MentionedAt;
    forall i | 0 <= i <= |s|
      ensures OccursAt(ToUpper(s), p, i) <==> MentionedAt(s, p, i)
    {
      UpperMentionedAt(s, p, i);
    }
  }

  lemma LowerMentionedAt(s: string, p: string, i: nat)
    requires forall k :: 0 <= k < |p| ==> LowerChar(p[k]) == p[k]
    ensures OccursAt(ToLower(s), p, i) <==> MentionedAt(s, p, i)
  {
    if i + |p| <= |s| {
      var t := ToLower(s)[i..i + |p|];
      assert forall k :: 0 <= k < |p| ==> t[k] == LowerChar(s[i + k]);
      assert forall k :: 0 <= k < |p| ==> (LowerChar(s[i + k]) == LowerChar(p[k]) <==> UpperChar(s[i + k]) == UpperChar(p[k]));
      if MentionedAt(s, p, i) { assert t == p; }
    }
  }

  lemma LowerContains(s: string, p: string)
    requires forall k :: 0 <= k < |p| ==> LowerChar(p[k]) == p[k]
    ensures Contains(ToLower(s), p) <==> Mentions(s, p)
  {
    hide OccursAt, MentionedAt;
    forall i | 0 <= i <= |s|
      ensures OccursAt(ToLower(s), p, i) <==> MentionedAt(s, p, i)
    {
      LowerMentionedAt(s, p, i);
    }
  }

  /** A word whose ends are not in the padding is mentioned in the padded text or not at all. */
  lemma PaddedMentions(a: string, t: string, b: string, p: string)
    requires p != ""
    requires forall i :: 0 <= i < |a| ==> UpperChar(a[i]) != UpperChar(p[0])
    requires forall i :: 0 <= i < |b| ==> UpperChar(b[i]) != UpperChar(p[|p| - 1])
    ensures Mentions(a + t + b, p) <==> Mentions(t, p)
  {
    hide UpperChar;
    var s := a + t + b;
    if Mentions(t, p) {
      var i :| 0 <= i <= |t| && MentionedAt(t, p, i);
      assert forall k {:trigger p[k]} :: 0 <= k < |p| ==> s[|a| + i + k] == t[i + k];
      assert MentionedAt(s, p, |a| + i);
    }
    if Mentions(s, p) {
      var i :| 0 <= i <= |s| && MentionedAt(s, p, i);
      var last := |p| - 1;
      assert UpperChar(s[i + 0]) == UpperChar(p[0]) && UpperChar(s[i + last]) == UpperChar(p[last]);
      NotPadding(a, t, b, i, p[0], p[last]);
      NotPadding(a, t, b, i + last, p[0], p[last]);
      assert forall k {:trigger p[k]} :: 0 <= k < |p| ==> s[i + k] == t[i - |a| + k];
      assert MentionedAt(t, p, i - |a|);
    }
  }

  /** A position that carries the first or the last letter of a word is not in the padding on that side. */
  lemma NotPadding(a: string, t: string, b: string, i: nat, first: char, last: char)
    requires i < |a + t + b|
    requires forall k :: 0 <= k < |a| ==> UpperChar(a[k]) != UpperChar(first)
    requires forall k :: 0 <= k < |b| ==> UpperChar(b[k]) != UpperChar(last)
    ensures UpperChar((a + t + b)[i]) == UpperChar(first) ==> i >= |a|
    ensures UpperChar((a + t + b)[i]) == UpperChar(last) ==> i < |a| + |t|
  {
    hide UpperChar;
    forall k | 0 <= k < |a|
      ensures UpperChar((a + t + b)[k]) != UpperChar(first)
    {
      assert (a + t + b)[k] == a[k];
    }
    forall k | |a| + |t| <= k < |a + t + b|
      ensures UpperChar((a + t + b)[k]) != UpperChar(last)
    {
      assert (a + t + b)[k] == b[k - |a| - |t|];
    }
  }

  predicate HasPrefix(s: string, p: string)
  {
    p <= s
  }

  predicate HasSuffix(s: string, p: string)
  {
    |s| >= |p| && s[|s| - |p|..] == p
  }

  /** strings.ReplaceAll: leftmost, non-overlapping occurrences of a non-empty pattern. */
  function ReplaceAll(s: string, old_: string, new_: string): string
    requires old_ != ""
    decreases |s|
  {
    if |s| < |old_| then s
    else if s[..|old_|] == old_ then new_ + ReplaceAll(s[|old_|..], old_, new_)
    else [s[0]] + ReplaceAll(s[1..], old_, new_)
  }

  /** A text that does not begin with the pattern's first character keeps its first character. */
  lemma ReplaceSkips(c: char, s: string, old_: string, new_: string)
    requires old_ != "" && c != old_[0]
    ensures ReplaceAll([c] + s, old_, new_) == [c] + ReplaceAll(s, old_, new_)
  {
    var t := [c] + s;
    assert t[1..] == s;
    if |t| < |old_| {
    } else {
      assert t[..|old_|][0] == c;
    }
  }

  /** A text that differs from the pattern within its length keeps its first character. */
  lemma ReplaceMiss(t: string, i: nat, old_: string, new_: string)
    requires t != "" && i < |old_|
    requires i < |t| ==> t[i] != old_[i]
    ensures ReplaceAll(t, old_, new_) == [t[0]] + ReplaceAll(t[1..], old_, new_)
  {
    if |t| < |old_| {
      assert t == [t[0]] + t[1..];
    } else {
      assert t[..|old_|][i] == t[i];
    }
  }

  /** A text that does not begin with the pattern keeps its first character. */
  lemma ReplaceKeeps(t: string, old_: string, new_: string)
    requires t != "" && old_ != "" && !(old_ <= t)
    ensures ReplaceAll(t, old_, new_) == [t[0]] + ReplaceAll(t[1..], old_, new_)
  {
    if |t| < |old_| {
      assert t == [t[0]] + t[1..];
    }
  }

  lemma ContainsTail(text: string, old_: string)
    requires text != "" && !Contains(text, old_)
    ensures !Contains(text[1..], old_)
  {
    forall k | 0 <= k <= |text| - 1
      ensures !OccursAt(text[1..], old_, k)
    {
      assert !OccursAt(text, old_, k + 1);
      if k + |old_| <= |text| - 1 {
        assert text[1..][k..k + |old_|] == text[k + 1..k + 1 + |old_|];
      }
    }
  }

  lemma NotHere(text: string, rest: string, old_: string)
    requires text != "" && old_ != "" && !Contains(text, old_) && (rest == "" || text[|text| - 1] !in old_)
    ensures !(old_ <= text + rest)
  {
    assert !OccursAt(text, old_, 0);
    var t := text + rest;
    if |text| >= |old_| {
      assert t[..|old_|] == text[..|old_|];
    } else if rest != "" {
      assert t[|text| - 1] != old_[|text| - 1];
    }
  }

  /** A text without the pattern is left alone when the pattern cannot cross its last character. */
  lemma {:induction false} ReplaceNone(text: string, rest: string, old_: string, new_: string)
    requires old_ != "" && !Contains(text, old_)
    requires text != "" ==> rest == "" || text[|text| - 1] !in old_
    ensures ReplaceAll(text + rest, old_, new_) == text + ReplaceAll(rest, old_, new_)
    decreases |text|
  {
    hide ReplaceAll, Contains;
    var out := ReplaceAll(rest, old_, new_);
    if text == "" {
      assert text + rest == rest && text + out == out;
    } else {
      var t := text + rest;
      NotHere(text, rest, old_);
      ReplaceKeeps(t, old_, new_);
      assert t[1..] == text[1..] + rest;
      ContainsTail(text, old_);
      ReplaceNone(text[1..], rest, old_, new_);
      assert text + out == [text[0]] + (text[1..] + out);
    }
  }

  lemma ReplaceHits(s: string, old_: string, new_: string)
    requires old_ != ""
    ensures ReplaceAll(old_ + s, old_, new_) == new_ + ReplaceAll(s, old_, new_)
  {
    var t := old_ + s;
    assert t[..|old_|] == old_ && t[|old_|..] == s;
  }
}

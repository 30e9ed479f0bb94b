/**
 * pgBinaryArrayToJSON (internal/proxy/postgresql/server.go): a binary one-dimensional array
 * parameter becomes a JSON array. The layout is the one the decoder assumes: header, lower
 * bound, a bitmap whose set bits mark the non-null elements, length-prefixed elements. Slicing
 * beyond the data makes Go panic: here the result is None.
 */
module BinaryArray {
  import opened Wrappers
  import opened Bytes
  import opened Sequences

  type Element = Option<bytes>

  const QUOTE: byte := 34
  const COMMA: byte := 44
  const OPEN: byte := 91
  const BACKSLASH: byte := 92
  const CLOSE: byte := 93
  const NULL_TEXT: bytes := [110, 117, 108, 108]

  // ---- Printing ----

  /** strings.ReplaceAll for a one-byte pattern. */
  function ReplaceByte(s: bytes, c: byte, with: bytes): bytes
  {
    if s == [] then [] else (if s[0] == c then with else [s[0]]) + ReplaceByte(s[1..], c, with)
  }

  function Escape(s: bytes): bytes
  {
    ReplaceByte(ReplaceByte(s, BACKSLASH, [BACKSLASH, BACKSLASH]), QUOTE, [BACKSLASH, QUOTE])
  }

  function PrintElement(e: Element): bytes
  {
    if e.None? then NULL_TEXT else [QUOTE] + Escape(e.value) + [QUOTE]
  }

  function Printed(es: seq<Element>): (parts: seq<bytes>)
    ensures |parts| == |es|
  {
    seq(|es|, i requires 0 <= i < |es| => PrintElement(es[i]))
  }

  function PrintArray(es: seq<Element>): bytes
  {
    [OPEN] + Join(Printed(es), [COMMA]) + [CLOSE]
  }

  // ---- Reading the binary form ----

  predicate Bit(b: byte, k: nat)
  {
    (b / Pow2(k)) % 2 == 1
  }

  function BitmapSize(n: nat): nat
  {
    (n + 7) / 8
  }

  /** Element i is non-null when its bit is set. */
  function NonNull(bitmap: bytes, n: nat): (flags: seq<bool>)
    requires |bitmap| == BitmapSize(n)
    ensures |flags| == n
  {
    seq(n, i requires 0 <= i < n => Bit(bitmap[i / 8], i % 8))
  }

  /** The elements read before the data ends; None when a negative length makes the slice panic. */
  function ReadElements(flags: seq<bool>, b: bytes): Option<seq<Element>>
  {
    if flags == [] then Some([])
    else if !flags[0] then Prepend(None, ReadElements(flags[1..], b))
    else if |b| < 4 then Some([])
    else
      var length := Signed(4, GetBE(b[..4]));
      if length == -1 then Prepend(None, ReadElements(flags[1..], b[4..]))
      else if 4 + length > |b| then Some([])
      else if length < 0 then None
      else Prepend(Some(b[4..4 + length]), ReadElements(flags[1..], b[4 + length..]))
  }

  function Prepend(e: Element, es: Option<seq<Element>>): Option<seq<Element>>
  {
    if es.None? then None else Some([e] + es.value)
  }

  function Append(es: seq<Element>, more: Option<seq<Element>>): Option<seq<Element>>
  {
    if more.None? then None else Some(es + more.value)
  }

  function ArrayToJson(data: bytes): Option<bytes>
  {
    if data == [] then Some([OPEN, CLOSE])
    else if |data| < 4 then None
    else if GetBE(data[..4]) == 0 then Some([OPEN, CLOSE])
    else if |data| < 12 then None
    else if GetBE(data[..4]) != 1 then Some([OPEN, CLOSE])
    else if |data| < 20 then None
    else
      var n := GetBE(data[12..16]);
      var start := 20 + BitmapSize(n);
      if |data| < start then None
      else
        var es := ReadElements(NonNull(data[20..start], n), data[start..]);
        if es.None? then None else Some(PrintArray(es.value))
  }

  lemma PrependAppend(es: seq<Element>, e: Element, more: Option<seq<Element>>)
    ensures Append(es, Prepend(e, more)) == Append(es + [e], more)
    ensures Append(es, Some([])) == Some(es)
    ensures Append([], more) == more
  {
    if more.Some? {
      assert es + ([e] + more.value) == es + [e] + more.value;
      assert [] + more.value == more.value;
    }
    assert es + [] == es;
  }

  lemma PrintedSnoc(es: seq<Element>, e: Element)
    ensures Printed(es + [e]) == Printed(es) + [PrintElement(e)]
  {
  }

  /** The loop of the decoder, for the elements after the bitmap. */
  method DecodeElements(data: bytes, start: nat, flags: seq<bool>) returns (parts: Option<seq<bytes>>)
    requires start <= |data|
    ensures var es := ReadElements(flags, data[start..]);
      parts == if es.None? then None else Some(Printed(es.value))
  {
    hide PrintElement, GetBE, Printed;
    ghost var all := ReadElements(flags, data[start..]);
    ghost var read: seq<Element> := [];
    var elements := [];
    var offset := start;
    var i := 0;
    PrependAppend([], None, all);
    PrintedNothing();
    while i < |flags|
      invariant 0 <= i <= |flags| && start <= offset <= |data|
      invariant elements == Printed(read)
      invariant all == Append(read, ReadElements(flags[i..], data[offset..]))
    {
      ghost var rest := data[offset..];
      assert flags[i..][1..] == flags[i + 1..];
      if !flags[i] {
        PrependAppend(read, None, ReadElements(flags[i + 1..], rest));
        PrintedSnoc(read, None);
        elements := elements + [NullText()];
        read := read + [None];
        i := i + 1;
        continue;
      }
      if offset + 4 > |data| {
        PrependAppend(read, None, all);
        return Some(elements);
      }
      assert data[offset..offset + 4] == rest[..4];
      var length := Signed(4, GetBE(data[offset..offset + 4]));
      offset := offset + 4;
      if length == -1 {
        assert rest[4..] == data[offset..];
        PrependAppend(read, None, ReadElements(flags[i + 1..], rest[4..]));
        PrintedSnoc(read, None);
        elements := elements + [NullText()];
        read := read + [None];
        i := i + 1;
        continue;
      }
      if offset + length > |data| {
        PrependAppend(read, None, all);
        return Some(elements);
      }
      if length < 0 {
        return None;
      }
      var item := data[offset..offset + length];
      assert item == rest[4..4 + length];
      assert rest[4 + length..] == data[offset + length..];
      PrependAppend(read, Some(item), ReadElements(flags[i + 1..], rest[4 + length..]));
      PrintedSnoc(read, Some(item));
      elements := elements + [QuotedText(item)];
      read := read + [Some(item)];
      offset := offset + length;
      i := i + 1;
    }
    PrependAppend(read, None, all);
    return Some(elements);
  }

  lemma PrintedNothing()
    ensures Printed([]) == []
  {
  }

  function NullText(): (s: bytes)
    ensures s == PrintElement(None)
  {
    NULL_TEXT
  }

  function QuotedText(item: bytes): (s: bytes)
    ensures s == PrintElement(Some(item))
  {
    [QUOTE] + Escape(item) + [QUOTE]
  }

  method PgBinaryArrayToJson(data: bytes) returns (json: Option<bytes>)
    ensures json == ArrayToJson(data)
  {
    hide GetBE, ReadElements, NonNull;
    if data == [] { return Some([OPEN, CLOSE]); }
    if |data| < 4 { return None; }
    var dims := GetBE(data[0..4]);
    assert data[0..4] == data[..4];
    if dims == 0 { return Some([OPEN, CLOSE]); }
    if |data| < 12 { return None; }
    if dims == 1 {
      if |data| < 20 { return None; }
      var length := GetBE(data[12..16]);
      var size := BitmapSize(length);
      if |data| < 20 + size { return None; }
      var flags := NonNull(data[20..20 + size], length);
      var parts := DecodeElements(data, 20 + size, flags);
      if parts.None? { return None; }
      return Some([OPEN] + Join(parts.value, [COMMA]) + [CLOSE]);
    }
    return Some([OPEN, CLOSE]);
  }

  // ---- A JSON reader for arrays of strings and nulls ----

  /** The byte an escape stands for (section 7 of RFC 8259), apart from the \u form. */
  function Unescape(c: byte): Option<byte>
  {
    if c == 34 || c == 92 || c == 47 then Some(c)
    else if c == 98 then Some(8)
    else if c == 102 then Some(12)
    else if c == 110 then Some(10)
    else if c == 114 then Some(13)
    else if c == 116 then Some(9)
    else None
  }

  /** The characters up to the closing quote; an unescaped control character is an error. */
  function ReadString(b: bytes): Option<(bytes, bytes)>
  {
    if b == [] || b[0] < 32 then None
    else if b[0] == QUOTE then Some(([], b[1..]))
    else if b[0] == BACKSLASH then
      if |b| < 2 || Unescape(b[1]).None? then None else Push(Unescape(b[1]).value, ReadString(b[2..]))
    else Push(b[0], ReadString(b[1..]))
  }

  function Push(c: byte, r: Option<(bytes, bytes)>): Option<(bytes, bytes)>
  {
    if r.None? then None else Some(([c] + r.value.0, r.value.1))
  }

  function ReadItem(b: bytes): (r: Option<(Element, bytes)>)
    ensures r.Some? ==> |r.value.1| <= |b|
  {
    if |b| >= 4 && b[..4] == NULL_TEXT then Some((None, b[4..]))
    else if b != [] && b[0] == QUOTE then
      ReadStringShrinks(b[1..]);
      var s := ReadString(b[1..]);
      if s.None? then None else Some((Some(s.value.0), s.value.1))
    else None
  }

  lemma {:induction false} ReadStringShrinks(b: bytes)
    ensures ReadString(b).Some? ==> |ReadString(b).value.1| <= |b|
  {
    if b == [] || b[0] < 32 || b[0] == QUOTE {
    } else if b[0] == BACKSLASH {
      if |b| >= 2 { ReadStringShrinks(b[2..]); }
    } else {
      ReadStringShrinks(b[1..]);
    }
  }

  /** Items separated by commas, up to a bracket that ends the text. */
  function ReadItems(b: bytes): Option<seq<Element>>
    decreases |b|
  {
    var item := ReadItem(b);
    if item.None? || item.value.1 == [] then None
    else
      var (e, rest) := item.value;
      if rest[0] == COMMA then Prepend(e, ReadItems(rest[1..]))
      else if rest == [CLOSE] then Some([e])
      else None
  }

  function ReadJson(b: bytes): Option<seq<Element>>
  {
    if b == [OPEN, CLOSE] then Some([])
    else if b == [] || b[0] != OPEN then None
    else ReadItems(b[1..])
  }

  // ---- The printed text is the array ----

  predicate ControlFree(e: Element)
  {
    e.Some? ==> forall i :: 0 <= i < |e.value| ==> e.value[i] >= 32
  }

  lemma ReplaceCons(x: byte, s: bytes, c: byte, with: bytes)
    ensures ReplaceByte([x] + s, c, with) == (if x == c then with else [x]) + ReplaceByte(s, c, with)
  {
    assert ([x] + s)[1..] == s;
  }

  lemma EscapeCons(c: byte, s: bytes)
    ensures Escape([c] + s) == (if c == BACKSLASH || c == QUOTE then [BACKSLASH, c] else [c]) + Escape(s)
  {
    hide ReplaceByte;
    var once := ReplaceByte(s, BACKSLASH, [BACKSLASH, BACKSLASH]);
    ReplaceCons(c, s, BACKSLASH, [BACKSLASH, BACKSLASH]);
    ReplaceCons(c, once, QUOTE, [BACKSLASH, QUOTE]);
    if c == BACKSLASH {
      assert [c, c] + once == [c] + ([c] + once);
      ReplaceCons(c, [c] + once, QUOTE, [BACKSLASH, QUOTE]);
      assert [c] + ([c] + Escape(s)) == [c, c] + Escape(s);
    }
  }

  lemma {:induction false} EscapedString(s: bytes, rest: bytes)
    ensures ReadString(Escape(s) + [QUOTE] + rest)
         == if ControlFree(Some(s)) then Some((s, rest)) else None
  {
    if s == [] {
      assert Escape(s) + [QUOTE] + rest == [QUOTE] + rest;
    } else {
      var c, t := s[0], s[1..];
      assert s == [c] + t;
      EscapeCons(c, t);
      EscapedString(t, rest);
      var tail := Escape(t) + [QUOTE] + rest;
      if c == BACKSLASH || c == QUOTE {
        assert Escape(s) + [QUOTE] + rest == [BACKSLASH, c] + tail;
        assert ([BACKSLASH, c] + tail)[2..] == tail;
      } else {
        assert Escape(s) + [QUOTE] + rest == [c] + tail;
        assert ([c] + tail)[1..] == tail;
      }
      ControlFreeCons(c, t);
    }
  }

  lemma ControlFreeCons(c: byte, t: bytes)
    ensures ControlFree(Some([c] + t)) <==> c >= 32 && ControlFree(Some(t))
  {
    if ControlFree(Some([c] + t)) {
      assert ([c] + t)[0] == c;
      forall i | 0 <= i < |t| ensures t[i] >= 32 { assert ([c] + t)[i + 1] == t[i]; }
    }
  }

  lemma PrintedItem(e: Element, rest: bytes)
    ensures ReadItem(PrintElement(e) + rest) == if ControlFree(e) then Some((e, rest)) else None
  {
    hide Escape, ReadString;
    var b := PrintElement(e) + rest;
    match e
    case None =>
      assert b[..4] == NULL_TEXT && b[4..] == rest;
    case Some(s) =>
      EscapedString(s, rest);
      assert b[0] == QUOTE;
      assert b[1..] == Escape(s) + [QUOTE] + rest;
      if |b| >= 4 { assert b[..4][0] == QUOTE; }
  }

  predicate AllControlFree(es: seq<Element>)
  {
    forall i :: 0 <= i < |es| ==> ControlFree(es[i])
  }

  lemma {:induction false} PrintedItems(es: seq<Element>)
    requires es != []
    ensures ReadItems(Join(Printed(es), [COMMA]) + [CLOSE]) == if AllControlFree(es) then Some(es) else None
  {
    hide ReadItem, PrintElement, ControlFree;
    var parts := Printed(es);
    if |es| == 1 {
      PrintedItem(es[0], [CLOSE]);
      assert es == [es[0]];
    } else {
      assert parts[1..] == Printed(es[1..]);
      var tail := Join(parts[1..], [COMMA]) + [CLOSE];
      PrintedItem(es[0], [COMMA] + tail);
      PrintedItems(es[1..]);
      assert Join(parts, [COMMA]) + [CLOSE] == PrintElement(es[0]) + ([COMMA] + tail);
      assert ([COMMA] + tail)[1..] == tail;
      assert es == [es[0]] + es[1..];
    }
  }

  lemma PrintedNonempty(es: seq<Element>)
    requires es != []
    ensures Join(Printed(es), [COMMA]) != []
  {
    var parts := Printed(es);
    assert |parts[0]| >= 2;
  }

  /** The output parses, and parses to the list, exactly when no element has a control character. */
  lemma PrintedArray(es: seq<Element>)
    ensures ReadJson(PrintArray(es)) == if AllControlFree(es) then Some(es) else None
  {
    hide ReadItems, PrintElement, ControlFree;
    var b := PrintArray(es);
    if es == [] {
      PrintedNothing();
      assert b == [OPEN, CLOSE];
    } else {
      PrintedItems(es);
      PrintedNonempty(es);
      assert b[1..] == Join(Printed(es), [COMMA]) + [CLOSE];
      assert |b| > 2;
    }
  }

  // ---- The assumed layout ----

  predicate IsElement(e: Element)
  {
    e.Some? ==> 2 * |e.value| < U32
  }

  function ElementBytes(e: Element): bytes
  {
    if e.None? then [] else PutBE(4, |e.value|) + e.value
  }

  function ElementsBytes(es: seq<Element>): bytes
  {
    if es == [] then [] else ElementBytes(es[0]) + ElementsBytes(es[1..])
  }

  /** Dimensions (one), flags, element type, length, lower bound. */
  function HeaderBytes(flags: nat, elementOid: nat, n: nat, lowerBound: nat): (b: bytes)
    ensures |b| == 20
  {
    PutBE(4, 1) + PutBE(4, flags) + PutBE(4, elementOid) + PutBE(4, n) + PutBE(4, lowerBound)
  }

  /** The set bits are those of the non-null elements; the bits after the last are free. */
  predicate Marks(bitmap: bytes, es: seq<Element>)
  {
    |bitmap| == BitmapSize(|es|)
    && forall i :: 0 <= i < |es| ==> (Bit(bitmap[i / 8], i % 8) <==> es[i].Some?)
  }

  /** The longest prefix of the list whose elements fit in the given number of bytes. */
  function Fitting(es: seq<Element>, room: nat): (n: nat)
    ensures n <= |es|
  {
    if es == [] then 0
    else if es[0].None? then 1 + Fitting(es[1..], room)
    else if 4 + |es[0].value| <= room then 1 + Fitting(es[1..], room - 4 - |es[0].value|)
    else 0
  }

  lemma {:induction false} FittingIsLongest(es: seq<Element>, room: nat)
    ensures var k := Fitting(es, room);
      && |ElementsBytes(es[..k])| <= room
      && (k < |es| ==> |ElementsBytes(es[..k + 1])| > room)
      && (room >= |ElementsBytes(es)| ==> k == |es|)
  {
    if es != [] {
      var k := Fitting(es, room);
      var size := |ElementBytes(es[0])|;
      if k > 0 {
        FittingIsLongest(es[1..], room - size);
        assert es[..k][1..] == es[1..][..k - 1];
        if k < |es| {
          assert es[..k + 1][1..] == es[1..][..k];
        }
      } else {
        assert es[..1][1..] == [];
      }
    }
  }

  lemma LengthPrefix(s: bytes, room: nat, more: bytes)
    requires 2 * |s| < U32 && 4 <= room <= 4 + |s| + |more|
    ensures var b := (PutBE(4, |s|) + s + more)[..room]; Signed(4, GetBE(b[..4])) == |s|
  {
    hide PutBE, GetBE;
    var b := (PutBE(4, |s|) + s + more)[..room];
    assert b[..4] == PutBE(4, |s|);
    Widths();
    BERoundTrip(4, |s|);
  }

  /** A non-null element at the front of a prefix is read when it fits, and ends the reading when it does not. */
  lemma ReadPresent(e: Element, tail: bytes, flags: seq<bool>, room: nat)
    requires e.Some? && IsElement(e) && flags != [] && flags[0] && room <= 4 + |e.value| + |tail|
    ensures var b := (ElementBytes(e) + tail)[..room];
      ReadElements(flags, b) == if room < 4 + |e.value| then Some([])
        else Prepend(e, ReadElements(flags[1..], tail[..room - 4 - |e.value|]))
  {
    hide PutBE, GetBE, Signed;
    var s := e.value;
    var b := (ElementBytes(e) + tail)[..room];
    if room >= 4 {
      LengthPrefix(s, room, tail);
      assert b == (PutBE(4, |s|) + s + tail)[..room];
      if 4 + |s| <= room {
        assert b[4..4 + |s|] == s;
        assert b[4 + |s|..] == tail[..room - 4 - |s|];
      }
    }
  }

  lemma PrependPrefix(es: seq<Element>, k: nat)
    requires 0 < k <= |es|
    ensures Prepend(es[0], Some(es[1..][..k - 1])) == Some(es[..k])
  {
    assert [es[0]] + es[1..][..k - 1] == es[..k];
  }

  /** Reading any prefix of the elements' bytes yields the elements that fit it. */
  lemma {:induction false} ReadFitting(es: seq<Element>, room: nat)
    requires forall i :: 0 <= i < |es| ==> IsElement(es[i])
    requires room <= |ElementsBytes(es)|
    ensures ReadElements(seq(|es|, i requires 0 <= i < |es| => es[i].Some?), ElementsBytes(es)[..room])
         == Some(es[..Fitting(es, room)])
  {
    hide PutBE, GetBE, Signed, IsElement, Prepend;
    var flags := seq(|es|, i requires 0 <= i < |es| => es[i].Some?);
    if es != [] {
      var tail := es[1..];
      var k := Fitting(es, room);
      assert flags[1..] == seq(|tail|, i requires 0 <= i < |tail| => tail[i].Some?);
      if es[0].None? {
        assert ElementsBytes(es) == ElementsBytes(tail);
        ReadFitting(tail, room);
        PrependPrefix(es, k);
      } else {
        ReadPresent(es[0], ElementsBytes(tail), flags, room);
        if 4 + |es[0].value| <= room {
          ReadFitting(tail, room - 4 - |es[0].value|);
          PrependPrefix(es, k);
        }
      }
    }
  }

  /**
   * Data in the assumed layout, cut anywhere after the bitmap, is converted to the JSON text of
   * the elements that are complete; uncut data to the text of the whole list.
   */
  lemma Conversion(flags: nat, elementOid: nat, lowerBound: nat, bitmap: bytes, es: seq<Element>, room: nat)
    requires |es| < U32 && Marks(bitmap, es)
    requires forall i :: 0 <= i < |es| ==> IsElement(es[i])
    requires room <= |ElementsBytes(es)|
    ensures var data := HeaderBytes(flags, elementOid, |es|, lowerBound) + bitmap + ElementsBytes(es)[..room];
      ArrayToJson(data) == Some(PrintArray(es[..Fitting(es, room)]))
  {
    hide PutBE, GetBE, ReadElements, PrintArray, Pow256, Bit;
    Widths();
    var header := HeaderBytes(flags, elementOid, |es|, lowerBound);
    var data := header + bitmap + ElementsBytes(es)[..room];
    HeaderFields(flags, elementOid, |es|, lowerBound);
    assert data[..4] == header[..4] && data[12..16] == header[12..16];
    var start := 20 + |bitmap|;
    assert data[20..start] == bitmap && data[start..] == ElementsBytes(es)[..room];
    assert NonNull(bitmap, |es|) == seq(|es|, i requires 0 <= i < |es| => es[i].Some?);
    ReadFitting(es, room);
  }

  lemma HeaderFields(flags: nat, elementOid: nat, n: nat, lowerBound: nat)
    requires n < U32
    ensures var b := HeaderBytes(flags, elementOid, n, lowerBound);
      GetBE(b[..4]) == 1 && GetBE(b[12..16]) == n
  {
    hide PutBE, GetBE, Pow256;
    Widths();
    BERoundTrip(4, 1);
    BERoundTrip(4, n);
    var b := HeaderBytes(flags, elementOid, n, lowerBound);
    assert b[..4] == PutBE(4, 1) && b[12..16] == PutBE(4, n);
  }

  /** Whole data: the output is JSON for the original list exactly when no element has a control character. */
  lemma WholeArray(flags: nat, elementOid: nat, lowerBound: nat, bitmap: bytes, es: seq<Element>)
    requires |es| < U32 && Marks(bitmap, es)
    requires forall i :: 0 <= i < |es| ==> IsElement(es[i])
    ensures var json := ArrayToJson(HeaderBytes(flags, elementOid, |es|, lowerBound) + bitmap + ElementsBytes(es));
      json.Some? && ReadJson(json.value) == if AllControlFree(es) then Some(es) else None
  {
    hide ArrayToJson, PrintArray, ReadJson, ElementsBytes;
    var room := |ElementsBytes(es)|;
    FittingIsLongest(es, room);
    Conversion(flags, elementOid, lowerBound, bitmap, es, room);
    assert ElementsBytes(es)[..room] == ElementsBytes(es);
    assert es[..|es|] == es;
    PrintedArray(es);
  }

  /** Truncated data: the output is JSON for the longest prefix of complete elements. */
  lemma TruncatedArray(flags: nat, elementOid: nat, lowerBound: nat, bitmap: bytes, es: seq<Element>, room: nat)
    requires |es| < U32 && Marks(bitmap, es) && AllControlFree(es)
    requires forall i :: 0 <= i < |es| ==> IsElement(es[i])
    requires room <= |ElementsBytes(es)|
    ensures var json := ArrayToJson(HeaderBytes(flags, elementOid, |es|, lowerBound) + bitmap + ElementsBytes(es)[..room]);
      var k := Fitting(es, room);
      && json.Some? && ReadJson(json.value) == Some(es[..k])
      && |ElementsBytes(es[..k])| <= room
      && (k < |es| ==> |ElementsBytes(es[..k + 1])| > room)
  {
    hide ArrayToJson, PrintArray, ReadJson, ElementsBytes;
    FittingIsLongest(es, room);
    Conversion(flags, elementOid, lowerBound, bitmap, es, room);
    PrintedArray(es[..Fitting(es, room)]);
  }

  // ---- The layout PostgreSQL sends ----

  /** array_send: every element is a length, -1 for NULL, and its bytes. There is no bitmap. */
  function SentElements(es: seq<Element>): bytes
  {
    if es == [] then []
    else (if es[0].None? then PutBE(4, U32 - 1) else PutBE(4, |es[0].value|) + es[0].value) + SentElements(es[1..])
  }

  function Nulls(n: nat): (es: seq<Element>)
    ensures |es| == n && forall i :: 0 <= i < n ==> es[i] == None
  {
    seq(n, _ => None)
  }

  lemma HighByte(v: nat)
    requires v < 0x100_0000
    ensures |PutBE(4, v)| == 4 && PutBE(4, v)[0] == 0
  {
    var a, b, c := v / 256, v / 256 / 256, v / 256 / 256 / 256;
    assert c == 0;
    assert PutBE(1, c) == PutBE(0, c / 256) + [c % 256];
    assert PutBE(2, b) == PutBE(1, c) + [b % 256];
    assert PutBE(3, a) == PutBE(2, b) + [a % 256];
  }

  lemma NoBitSet(k: nat)
    ensures !Bit(0, k)
  {
  }

  lemma {:induction false} AllUnset(flags: seq<bool>, b: bytes)
    requires forall i :: 0 <= i < |flags| ==> !flags[i]
    ensures ReadElements(flags, b) == Some(Nulls(|flags|))
  {
    if flags != [] {
      AllUnset(flags[1..], b);
      assert [Option<bytes>.None] + Nulls(|flags| - 1) == Nulls(|flags|);
    }
  }

  /**
   * An array as PostgreSQL sends it, of one to eight elements the first of which is not NULL and
   * shorter than 2^24 bytes: the first byte of its length is taken for the bitmap, and every
   * element becomes null.
   */
  lemma SentArrayIsNulls(flags: nat, elementOid: nat, lowerBound: nat, es: seq<Element>)
    requires 1 <= |es| <= 8 && es[0].Some? && |es[0].value| < 0x100_0000
    ensures ArrayToJson(HeaderBytes(flags, elementOid, |es|, lowerBound) + SentElements(es)) == Some(PrintArray(Nulls(|es|)))
  {
    hide PutBE, GetBE, ReadElements, PrintArray, Bit, SentElements;
    var header := HeaderBytes(flags, elementOid, |es|, lowerBound);
    var sent := SentElements(es);
    FirstByte(es);
    var data := header + sent;
    HeaderFields(flags, elementOid, |es|, lowerBound);
    assert data[..4] == header[..4] && data[12..16] == header[12..16];
    assert data[20..21] == sent[..1] == [0];
    assert BitmapSize(|es|) == 1;
    var marks := NonNull(data[20..21], |es|);
    forall i | 0 <= i < |es|
      ensures !marks[i]
    {
      NoBitSet(i % 8);
    }
    AllUnset(marks, data[21..]);
  }

  lemma FirstByte(es: seq<Element>)
    requires es != [] && es[0].Some? && |es[0].value| < 0x100_0000
    ensures SentElements(es) != [] && SentElements(es)[0] == 0
  {
    hide PutBE;
    HighByte(|es[0].value|);
  }
}

/**
 * Framing and parsing of the PostgreSQL frontend/backend protocol, version 3
 * (pkg/pgwire/wire.go; the layouts are those of section 55.7 of the PostgreSQL 16
 * documentation). A body too short for its own counts makes Go panic: here the result is None.
 */
module PgWire {
  import opened Wrappers
  import opened Bytes

  type Parsed<T> = Option<(T, bytes)>

  // ---- Records ----

  /** Parse: an OID of 0 leaves the parameter's type unspecified. */
  datatype Parse = Parse(name: bytes, query: bytes, parameterOids: seq<nat>)

  /** Bind: a parameter is absent (NULL) or a byte string, possibly empty. */
  datatype Bind = Bind(portal: bytes, statement: bytes, parameterFormats: seq<int>,
                       parameters: seq<Option<bytes>>, resultFormats: seq<int>)

  datatype Execute = Execute(portal: bytes, maxRows: nat)

  /** Describe and Close share a layout: kind 'S' or 'P', then a name. */
  datatype Target = Target(kind: byte, name: bytes)

  datatype Message = Message(kind: byte, body: bytes)

  // ---- Layouts ----

  predicate NulFree(s: bytes)
  {
    0 !in s
  }

  function CString(s: bytes): bytes
  {
    s + [0]
  }

  predicate IsOid(n: nat)
  {
    n < U32
  }

  predicate IsInt16(n: int)
  {
    Fits(2, n)
  }

  predicate IsParameter(p: Option<bytes>)
  {
    p.Some? ==> 2 * |p.value| < U32
  }

  function OidBytes(n: nat): bytes
  {
    PutBE(4, n)
  }

  function Int16Bytes(n: int): bytes
  {
    if IsInt16(n) then PutBE(2, Unsigned(2, n)) else []
  }

  function ParameterBytes(p: Option<bytes>): bytes
  {
    match p
    case None => PutBE(4, U32 - 1)
    case Some(s) => PutBE(4, |s|) + s
  }

  function Each<T>(layout: T -> bytes, xs: seq<T>): bytes
  {
    if xs == [] then [] else layout(xs[0]) + Each(layout, xs[1..])
  }

  /** A 16-bit count, then that many items. */
  function Counted<T>(layout: T -> bytes, xs: seq<T>): bytes
  {
    PutBE(2, |xs|) + Each(layout, xs)
  }

  predicate ValidParse(p: Parse)
  {
    NulFree(p.name) && NulFree(p.query) && |p.parameterOids| < U16
    && forall i :: 0 <= i < |p.parameterOids| ==> IsOid(p.parameterOids[i])
  }

  function ParseBytes(p: Parse): bytes
  {
    CString(p.name) + CString(p.query) + Counted(OidBytes, p.parameterOids)
  }

  predicate ValidBind(b: Bind)
  {
    && NulFree(b.portal) && NulFree(b.statement)
    && |b.parameterFormats| < U16 && |b.parameters| < U16 && |b.resultFormats| < U16
    && (forall i :: 0 <= i < |b.parameterFormats| ==> IsInt16(b.parameterFormats[i]))
    && (forall i :: 0 <= i < |b.parameters| ==> IsParameter(b.parameters[i]))
    && (forall i :: 0 <= i < |b.resultFormats| ==> IsInt16(b.resultFormats[i]))
  }

  function BindBytes(b: Bind): bytes
  {
    CString(b.portal) + CString(b.statement) + Counted(Int16Bytes, b.parameterFormats)
    + Counted(ParameterBytes, b.parameters) + Counted(Int16Bytes, b.resultFormats)
  }

  function ExecuteBytes(e: Execute): bytes
  {
    CString(e.portal) + PutBE(4, e.maxRows)
  }

  function TargetBytes(t: Target): bytes
  {
    [t.kind] + CString(t.name)
  }

  /** A message on the wire: its type, the length of the body plus four, the body. */
  function Frame(m: Message): bytes
  {
    [m.kind] + PutBE(4, (|m.body| + 4) % U32) + m.body
  }

  function Frames(ms: seq<Message>): bytes
  {
    if ms == [] then [] else Frame(ms[0]) + Frames(ms[1..])
  }

  // ---- What the parsers read ----

  /** The position of the first zero byte, or the length when there is none. */
  function NulIndex(b: bytes): (i: nat)
    ensures i <= |b|
    ensures 0 !in b[..i]
    ensures i < |b| ==> b[i] == 0
  {
    if b == [] || b[0] == 0 then 0 else 1 + NulIndex(b[1..])
  }

  function ReadCString(b: bytes): Parsed<bytes>
  {
    var i := NulIndex(b);
    if i == |b| then None else Some((b[..i], b[i + 1..]))
  }

  function ReadUint(width: nat, b: bytes): Parsed<nat>
  {
    if |b| < width then None else Some((GetBE(b[..width]), b[width..]))
  }

  function ReadOid(b: bytes): Parsed<nat>
  {
    ReadUint(4, b)
  }

  function ReadInt16(b: bytes): Parsed<int>
  {
    match ReadUint(2, b)
    case None => None
    case Some((u, rest)) => Some((Signed(2, u), rest))
  }

  /** Length -1 is NULL; any other negative length makes the allocation panic. */
  function ReadParameter(b: bytes): Parsed<Option<bytes>>
  {
    match ReadUint(4, b)
    case None => None
    case Some((u, rest)) =>
      var length := Signed(4, u);
      if length == -1 then Some((Option.None, rest))
      else if length < 0 || |rest| < length then None
      else Some((Option.Some(rest[..length]), rest[length..]))
  }

  function Repeat<T>(read: bytes -> Parsed<T>, n: nat, b: bytes): Parsed<seq<T>>
  {
    if n == 0 then Some(([], b))
    else match read(b)
      case None => None
      case Some((x, rest)) => After([x], Repeat(read, n - 1, rest))
  }

  function After<T>(xs: seq<T>, p: Parsed<seq<T>>): Parsed<seq<T>>
  {
    if p.None? then None else Some((xs + p.value.0, p.value.1))
  }

  function ReadCounted<T>(read: bytes -> Parsed<T>, b: bytes): Parsed<seq<T>>
  {
    match ReadUint(2, b)
    case None => None
    case Some((n, rest)) => Repeat(read, n, rest)
  }

  function ReadParse(b: bytes): Option<Parse>
  {
    var name := ReadCString(b);
    if name.None? then None else
    var query := ReadCString(name.value.1);
    if query.None? then None else
    var oids := ReadCounted(ReadOid, query.value.1);
    if oids.None? then None else
    Some(Parse(name.value.0, query.value.0, oids.value.0))
  }

  function ReadBind(b: bytes): Option<Bind>
  {
    var portal := ReadCString(b);
    if portal.None? then None else
    var statement := ReadCString(portal.value.1);
    if statement.None? then None else
    var formats := ReadCounted(ReadInt16, statement.value.1);
    if formats.None? then None else
    var parameters := ReadCounted(ReadParameter, formats.value.1);
    if parameters.None? then None else
    var results := ReadCounted(ReadInt16, parameters.value.1);
    if results.None? then None else
    Some(Bind(portal.value.0, statement.value.0, formats.value.0, parameters.value.0, results.value.0))
  }

  /** A single message; the 32-bit subtraction of the length's own four bytes wraps. */
  function ReadFrame(b: bytes): Option<(Message, bytes)>
  {
    if |b| < 5 then None else
    var length := GetBE(b[1..5]);
    var n := if length >= 4 then length - 4 else length + U32 - 4;
    if |b| - 5 < n then None else Some((Message(b[0], b[5..5 + n]), b[5 + n..]))
  }

  // ---- The parsers ----

  /** The loop over the parameter OIDs of Parse. */
  method ParseOids(body: bytes) returns (r: Parsed<seq<nat>>)
    ensures r == ReadCounted(ReadOid, body)
  {
    if |body| < 2 { return None; }
    var count := GetBE(body[..2]);
    var rest := body[2..];
    ghost var items := rest;
    var oids := [];
    var i := 0;
    AfterUnits(Repeat(ReadOid, count, items), oids, rest);
    while i < count
      invariant 0 <= i <= count
      invariant Repeat(ReadOid, count, items) == After(oids, Repeat(ReadOid, count - i, rest))
    {
      if |rest| < 4 { return None; }
      RepeatStep(ReadOid, count - i, rest, oids);
      oids := oids + [GetBE(rest[..4])];
      rest := rest[4..];
      i := i + 1;
    }
    AfterUnits(Repeat(ReadOid, 0, rest), oids, rest);
    return Some((oids, rest));
  }

  method ParseParse(body: bytes) returns (p: Option<Parse>)
    ensures p == ReadParse(body)
  {
    hide ReadCounted;
    var rest := body;
    var idx := NulIndex(rest);
    if idx == |rest| { return None; }
    var name := rest[..idx];
    rest := rest[idx + 1..];

    idx := NulIndex(rest);
    if idx == |rest| { return None; }
    var query := rest[..idx];
    rest := rest[idx + 1..];

    var oids := ParseOids(rest);
    if oids.None? { return None; }
    return Some(Parse(name, query, oids.value.0));
  }

  lemma AfterUnits<T>(p: Parsed<seq<T>>, xs: seq<T>, b: bytes)
    ensures After([], p) == p && After(xs, Some(([], b))) == Some((xs, b))
  {
    if p.Some? {
      assert [] + p.value.0 == p.value.0;
    }
    assert xs + [] == xs;
  }

  lemma RepeatStep<T>(read: bytes -> Parsed<T>, n: nat, b: bytes, xs: seq<T>)
    requires n > 0 && read(b).Some?
    ensures After(xs, Repeat(read, n, b)) == After(xs + [read(b).value.0], Repeat(read, n - 1, read(b).value.1))
  {
    var p := Repeat(read, n - 1, read(b).value.1);
    if p.Some? {
      assert xs + ([read(b).value.0] + p.value.0) == xs + [read(b).value.0] + p.value.0;
    }
  }

  /** The loop over a list of 16-bit format codes, used twice by Bind. */
  method ParseFormats(body: bytes) returns (r: Parsed<seq<int>>)
    ensures r == ReadCounted(ReadInt16, body)
  {
    if |body| < 2 { return None; }
    var count := GetBE(body[..2]);
    var rest := body[2..];
    ghost var items := rest;
    var codes := [];
    var i := 0;
    AfterUnits(Repeat(ReadInt16, count, items), codes, rest);
    while i < count
      invariant 0 <= i <= count
      invariant Repeat(ReadInt16, count, items) == After(codes, Repeat(ReadInt16, count - i, rest))
    {
      if |rest| < 2 { return None; }
      RepeatStep(ReadInt16, count - i, rest, codes);
      codes := codes + [Signed(2, GetBE(rest[..2]))];
      rest := rest[2..];
      i := i + 1;
    }
    AfterUnits(Repeat(ReadInt16, 0, rest), codes, rest);
    return Some((codes, rest));
  }

  method ParseParameters(body: bytes) returns (r: Parsed<seq<Option<bytes>>>)
    ensures r == ReadCounted(ReadParameter, body)
  {
    if |body| < 2 { return None; }
    var count := GetBE(body[..2]);
    var rest := body[2..];
    ghost var items := rest;
    var parameters := [];
    var i := 0;
    AfterUnits(Repeat(ReadParameter, count, items), parameters, rest);
    while i < count
      invariant 0 <= i <= count
      invariant Repeat(ReadParameter, count, items) == After(parameters, Repeat(ReadParameter, count - i, rest))
    {
      if |rest| < 4 { return None; }
      var length := Signed(4, GetBE(rest[..4]));
      var tail := rest[4..];
      if length == -1 {
        RepeatStep(ReadParameter, count - i, rest, parameters);
        parameters := parameters + [Option.None];
        rest := tail;
      } else {
        if length < 0 || |tail| < length { return None; }
        RepeatStep(ReadParameter, count - i, rest, parameters);
        parameters := parameters + [Option.Some(tail[..length])];
        rest := tail[length..];
      }
      i := i + 1;
    }
    AfterUnits(Repeat(ReadParameter, 0, rest), parameters, rest);
    return Some((parameters, rest));
  }

  method ParseBind(body: bytes) returns (b: Option<Bind>)
    ensures b == ReadBind(body)
  {
    hide ReadCounted;
    var rest := body;
    var idx := NulIndex(rest);
    if idx == |rest| { return None; }
    var portal := rest[..idx];
    rest := rest[idx + 1..];

    idx := NulIndex(rest);
    if idx == |rest| { return None; }
    var statement := rest[..idx];
    rest := rest[idx + 1..];

    var formats := ParseFormats(rest);
    if formats.None? { return None; }
    var parameters := ParseParameters(formats.value.1);
    if parameters.None? { return None; }
    var results := ParseFormats(parameters.value.1);
    if results.None? { return None; }
    return Some(Bind(portal, statement, formats.value.0, parameters.value.0, results.value.0));
  }

  function ParseExecute(body: bytes): Option<Execute>
  {
    var portal := ReadCString(body);
    if portal.None? then None else
    var rows := ReadUint(4, portal.value.1);
    if rows.None? then None else Some(Execute(portal.value.0, rows.value.0))
  }

  /** ParseDescribe and ParseClose: the last byte is dropped whatever it is. */
  function ParseTarget(body: bytes): Option<Target>
  {
    if |body| < 2 then None else Some(Target(body[0], body[1..|body| - 1]))
  }

  function ParseQuery(body: bytes): Option<bytes>
  {
    var s := ReadCString(body);
    if s.None? then None else Some(s.value.0)
  }

  // ---- Reading and writing messages ----

  class WireReader {
    const data: bytes
    var pos: nat

    ghost predicate Valid()
      reads this
    {
      pos <= |data|
    }

    ghost function Rest(): bytes
      requires Valid()
      reads this
    {
      data[pos..]
    }

    constructor (data: bytes)
      ensures Valid() && Rest() == data
    {
      this.data := data;
      pos := 0;
    }

    /** io.ReadFull: all n bytes or an error. */
    method ReadFull(n: nat) returns (b: Option<bytes>)
      requires Valid()
      modifies this
      ensures Valid()
      ensures |old(Rest())| < n ==> b == None
      ensures |old(Rest())| >= n ==> b == Some(old(Rest())[..n]) && Rest() == old(Rest())[n..]
    {
      if |data| - pos < n {
        pos := |data|;
        return None;
      }
      b := Some(data[pos..pos + n]);
      assert Rest()[..n] == data[pos..pos + n] && Rest()[n..] == data[pos + n..];
      pos := pos + n;
    }

    method ReadMessage() returns (m: Option<Message>)
      requires Valid()
      modifies this
      ensures Valid()
      ensures match ReadFrame(old(Rest()))
              case None => m == None
              case Some((x, rest)) => m == Some(x) && Rest() == rest
    {
      ghost var b := Rest();
      var kind := ReadFull(1);
      if kind.None? { return None; }
      var field := ReadFull(4);
      if field.None? { return None; }
      assert b[1..][..4] == b[1..5] && b[1..][4..] == b[5..];
      var length := GetBE(field.value);
      var n := if length >= 4 then length - 4 else length + U32 - 4;
      var body := ReadFull(n);
      if body.None? { return None; }
      assert b[5..][..n] == b[5..5 + n] && b[5..][n..] == b[5 + n..];
      return Some(Message(kind.value[0], body.value));
    }
  }

  class WireWriter {
    var out: bytes

    constructor ()
      ensures out == []
    {
      out := [];
    }

    method Write(b: bytes)
      modifies this
      ensures out == old(out) + b
    {
      out := out + b;
    }

    method WriteMessage(m: Message)
      modifies this
      ensures out == old(out) + Frame(m)
    {
      Write([m.kind]);
      Write(PutBE(4, (|m.body| + 4) % U32));
      Write(m.body);
    }
  }

  function AllFrames(b: bytes): seq<Message>
    decreases |b|
  {
    match ReadFrame(b)
    case None => []
    case Some((m, rest)) => [m] + AllFrames(rest)
  }

  lemma FramesStep(b: bytes, ms: seq<Message>)
    ensures match ReadFrame(b)
            case None => ms + AllFrames(b) == ms
            case Some((m, rest)) => ms + AllFrames(b) == (ms + [m]) + AllFrames(rest) && |rest| < |b|
  {
    hide GetBE;
    match ReadFrame(b)
    case None =>
    case Some((m, rest)) =>
      assert ms + ([m] + AllFrames(rest)) == (ms + [m]) + AllFrames(rest);
  }

  /** Reads messages until the stream ends or breaks, as the connection's main loop does. */
  method ReadAll(r: WireReader) returns (ms: seq<Message>)
    requires r.Valid()
    modifies r
    ensures ms == AllFrames(old(r.Rest()))
  {
    hide ReadFrame, AllFrames;
    ms := [];
    while true
      invariant r.Valid()
      invariant AllFrames(old(r.Rest())) == ms + AllFrames(r.Rest())
      decreases |r.Rest()|
    {
      FramesStep(r.Rest(), ms);
      var m := r.ReadMessage();
      if m.None? {
        return;
      }
      ms := ms + [m.value];
    }
  }

  // ---- Startup parameters ----

  /** bytes.Split by the zero byte: always one piece more than there are zeros. */
  function SplitNul(b: bytes): (pieces: seq<bytes>)
    ensures |pieces| >= 1
    decreases |b|
  {
    var i := NulIndex(b);
    if i == |b| then [b] else [b[..i]] + SplitNul(b[i + 1..])
  }

  /** The parameters after the eight bytes of length and version; a later duplicate wins. */
  method StartupParameters(data: bytes) returns (params: map<bytes, bytes>)
    ensures params == if |data| > 1 then Pairs(SplitNul(data[..|data| - 1])) else map[]
  {
    params := map[];
    if |data| > 1 {
      var parts := SplitNul(data[..|data| - 1]);
      var i := 0;
      while i + 1 < |parts|
        invariant 0 <= i <= |parts|
        invariant params + Pairs(parts[i..]) == Pairs(parts)
      {
        PairsStep(parts[i..], params);
        assert parts[i..][2..] == parts[i + 2..];
        params := params[parts[i] := parts[i + 1]];
        i := i + 2;
      }
      assert params + map[] == params;
    }
  }

  function Pairs(parts: seq<bytes>): map<bytes, bytes>
  {
    if |parts| < 2 then map[] else map[parts[0] := parts[1]] + Pairs(parts[2..])
  }

  lemma PairsStep(parts: seq<bytes>, m: map<bytes, bytes>)
    requires |parts| >= 2
    ensures m + Pairs(parts) == m[parts[0] := parts[1]] + Pairs(parts[2..])
  {
  }

  function ParametersBytes(ps: seq<(bytes, bytes)>): bytes
  {
    if ps == [] then [] else CString(ps[0].0) + CString(ps[0].1) + ParametersBytes(ps[1..])
  }

  function AsMap(ps: seq<(bytes, bytes)>): map<bytes, bytes>
  {
    if ps == [] then map[] else map[ps[0].0 := ps[0].1] + AsMap(ps[1..])
  }

  // ---- Round trips ----

  lemma SplitCString(s: bytes, rest: bytes)
    requires NulFree(s)
    ensures SplitNul(CString(s) + rest) == [s] + SplitNul(rest)
  {
    NulIndexOf(s, rest);
    var b := CString(s) + rest;
    assert b[..|s|] == s && b[|s| + 1..] == rest;
  }

  /** The parameter list of a startup message, ended by one more zero byte, is read as its map. */
  lemma {:induction false} StartupRoundTrip(ps: seq<(bytes, bytes)>)
    requires forall i :: 0 <= i < |ps| ==> NulFree(ps[i].0) && NulFree(ps[i].1)
    ensures Pairs(SplitNul(ParametersBytes(ps))) == AsMap(ps)
  {
    hide CString;
    if ps == [] {
    } else {
      var (name, value) := ps[0];
      var tail := ParametersBytes(ps[1..]);
      SplitCString(name, CString(value) + tail);
      SplitCString(value, tail);
      StartupRoundTrip(ps[1..]);
      assert ParametersBytes(ps) == CString(name) + (CString(value) + tail);
      var parts := [name] + ([value] + SplitNul(tail));
      assert parts[0] == name && parts[1] == value && parts[2..] == SplitNul(tail);
    }
  }

  lemma {:induction false} NulIndexOf(s: bytes, rest: bytes)
    requires NulFree(s)
    ensures NulIndex(s + [0] + rest) == |s|
  {
    if s == [] {
      assert s + [0] + rest == [0] + rest;
    } else {
      assert s[0] in s && forall x :: x in s[1..] ==> x in s;
      NulIndexOf(s[1..], rest);
      assert (s + [0] + rest)[1..] == s[1..] + [0] + rest;
    }
  }

  lemma CStringRoundTrip(s: bytes, rest: bytes)
    requires NulFree(s)
    ensures ReadCString(CString(s) + rest) == Some((s, rest))
  {
    NulIndexOf(s, rest);
    var b := CString(s) + rest;
    assert b[..|s|] == s && b[|s| + 1..] == rest;
  }

  lemma UintRoundTrip(width: nat, n: nat, rest: bytes)
    requires n < Pow256(width)
    ensures ReadUint(width, PutBE(width, n) + rest) == Some((n, rest))
  {
    BERoundTrip(width, n);
    var b := PutBE(width, n) + rest;
    assert b[..width] == PutBE(width, n) && b[width..] == rest;
  }

  lemma OidRoundTrip(n: nat, rest: bytes)
    requires IsOid(n)
    ensures ReadOid(OidBytes(n) + rest) == Some((n, rest))
  {
    hide ReadUint, Pow256;
    Widths();
    UintRoundTrip(4, n, rest);
  }

  lemma Int16RoundTrip(n: int, rest: bytes)
    requires IsInt16(n)
    ensures ReadInt16(Int16Bytes(n) + rest) == Some((n, rest))
  {
    hide ReadUint;
    UintRoundTrip(2, Unsigned(2, n), rest);
  }

  lemma ParameterRoundTrip(p: Option<bytes>, rest: bytes)
    requires IsParameter(p)
    ensures ReadParameter(ParameterBytes(p) + rest) == Some((p, rest))
  {
    hide ReadUint, Pow256, PutBE;
    Widths();
    match p
    case None =>
      UintRoundTrip(4, U32 - 1, rest);
    case Some(s) =>
      UintRoundTrip(4, |s|, s + rest);
      assert ParameterBytes(p) + rest == PutBE(4, |s|) + (s + rest);
      assert (s + rest)[..|s|] == s && (s + rest)[|s|..] == rest;
  }

  ghost predicate Inverts<T>(read: bytes -> Parsed<T>, layout: T -> bytes, x: T)
  {
    forall rest: bytes :: read(layout(x) + rest) == Some((x, rest))
  }

  lemma {:induction false} EachRoundTrip<T>(read: bytes -> Parsed<T>, layout: T -> bytes, xs: seq<T>, rest: bytes)
    requires forall i :: 0 <= i < |xs| ==> Inverts(read, layout, xs[i])
    ensures Repeat(read, |xs|, Each(layout, xs) + rest) == Some((xs, rest))
  {
    if xs == [] {
      assert Each(layout, xs) + rest == rest;
    } else {
      EachRoundTrip(read, layout, xs[1..], rest);
      var tail := Each(layout, xs[1..]) + rest;
      assert Each(layout, xs) + rest == layout(xs[0]) + tail;
      assert Inverts(read, layout, xs[0]);
      assert [xs[0]] + xs[1..] == xs;
    }
  }

  lemma CountedRoundTrip<T>(read: bytes -> Parsed<T>, layout: T -> bytes, xs: seq<T>, rest: bytes)
    requires |xs| < U16
    requires forall i :: 0 <= i < |xs| ==> Inverts(read, layout, xs[i])
    ensures ReadCounted(read, Counted(layout, xs) + rest) == Some((xs, rest))
  {
    hide ReadUint, Pow256, PutBE, Each, Repeat;
    Widths();
    UintRoundTrip(2, |xs|, Each(layout, xs) + rest);
    EachRoundTrip(read, layout, xs, rest);
    assert Counted(layout, xs) + rest == PutBE(2, |xs|) + (Each(layout, xs) + rest);
  }

  lemma FormatsRoundTrip(codes: seq<int>, rest: bytes)
    requires |codes| < U16 && forall i :: 0 <= i < |codes| ==> IsInt16(codes[i])
    ensures ReadCounted(ReadInt16, Counted(Int16Bytes, codes) + rest) == Some((codes, rest))
  {
    hide ReadInt16, Int16Bytes, ReadCounted, Counted;
    forall i | 0 <= i < |codes|
      ensures Inverts(ReadInt16, Int16Bytes, codes[i])
    {
      forall r: bytes { Int16RoundTrip(codes[i], r); }
    }
    CountedRoundTrip(ReadInt16, Int16Bytes, codes, rest);
  }

  lemma ParametersRoundTrip(ps: seq<Option<bytes>>, rest: bytes)
    requires |ps| < U16 && forall i :: 0 <= i < |ps| ==> IsParameter(ps[i])
    ensures ReadCounted(ReadParameter, Counted(ParameterBytes, ps) + rest) == Some((ps, rest))
  {
    hide ReadParameter, ParameterBytes, ReadCounted, Counted;
    forall i | 0 <= i < |ps|
      ensures Inverts(ReadParameter, ParameterBytes, ps[i])
    {
      forall r: bytes { ParameterRoundTrip(ps[i], r); }
    }
    CountedRoundTrip(ReadParameter, ParameterBytes, ps, rest);
  }

  /** ParseParse inverts the layout of Parse, whatever bytes follow it. */
  lemma ParseRoundTrip(p: Parse, rest: bytes)
    requires ValidParse(p)
    ensures ReadParse(ParseBytes(p) + rest) == Some(p)
  {
    hide ReadCString, CString, ReadCounted, Counted, ReadOid, OidBytes;
    forall i | 0 <= i < |p.parameterOids|
      ensures Inverts(ReadOid, OidBytes, p.parameterOids[i])
    {
      forall r: bytes { OidRoundTrip(p.parameterOids[i], r); }
    }
    var oids := Counted(OidBytes, p.parameterOids) + rest;
    CountedRoundTrip(ReadOid, OidBytes, p.parameterOids, rest);
    CStringRoundTrip(p.query, oids);
    CStringRoundTrip(p.name, CString(p.query) + oids);
    assert ParseBytes(p) + rest == CString(p.name) + (CString(p.query) + oids);
  }

  /** ParseBind inverts the layout of Bind: NULL and the empty value stay distinct. */
  lemma BindRoundTrip(b: Bind, rest: bytes)
    requires ValidBind(b)
    ensures ReadBind(BindBytes(b) + rest) == Some(b)
  {
    hide ReadCString, CString, ReadCounted, Counted, ReadInt16, Int16Bytes, ReadParameter, ParameterBytes;
    var results := Counted(Int16Bytes, b.resultFormats) + rest;
    var parameters := Counted(ParameterBytes, b.parameters) + results;
    var formats := Counted(Int16Bytes, b.parameterFormats) + parameters;
    var statement := CString(b.statement) + formats;
    FormatsRoundTrip(b.resultFormats, rest);
    ParametersRoundTrip(b.parameters, results);
    FormatsRoundTrip(b.parameterFormats, parameters);
    CStringRoundTrip(b.statement, formats);
    CStringRoundTrip(b.portal, statement);
    assert BindBytes(b) + rest == CString(b.portal) + statement;
  }

  lemma ExecuteRoundTrip(e: Execute, rest: bytes)
    requires NulFree(e.portal) && e.maxRows < U32
    ensures ParseExecute(ExecuteBytes(e) + rest) == Some(e)
  {
    hide ReadCString, CString, ReadUint, Pow256, PutBE;
    Widths();
    CStringRoundTrip(e.portal, PutBE(4, e.maxRows) + rest);
    UintRoundTrip(4, e.maxRows, rest);
    assert ExecuteBytes(e) + rest == CString(e.portal) + (PutBE(4, e.maxRows) + rest);
  }

  /** The text of a simple query ends at the first zero byte. */
  lemma QueryRoundTrip(query: bytes, rest: bytes)
    requires NulFree(query)
    ensures ParseQuery(CString(query) + rest) == Some(query)
  {
    hide ReadCString, CString;
    CStringRoundTrip(query, rest);
  }

  lemma TargetRoundTrip(t: Target)
    ensures ParseTarget(TargetBytes(t)) == Some(t)
  {
    var b := TargetBytes(t);
    assert b[1..|b| - 1] == t.name;
  }

  lemma FrameRoundTrip(m: Message, rest: bytes)
    requires |m.body| + 4 < U32
    ensures ReadFrame(Frame(m) + rest) == Some((m, rest))
  {
    hide PutBE, GetBE, Pow256;
    var n := |m.body|;
    Widths();
    BERoundTrip(4, n + 4);
    assert (n + 4) % U32 == n + 4;
    var b := Frame(m) + rest;
    assert b[1..5] == PutBE(4, n + 4);
    assert b[5..5 + n] == m.body && b[5 + n..] == rest;
  }

  /** A stream of framed messages is read back as the same sequence, and nothing more. */
  lemma {:induction false} StreamRoundTrip(ms: seq<Message>)
    requires forall i :: 0 <= i < |ms| ==> |ms[i].body| + 4 < U32
    ensures AllFrames(Frames(ms)) == ms
  {
    hide ReadFrame, Frame;
    if ms == [] {
      NoFrame();
    } else {
      FrameRoundTrip(ms[0], Frames(ms[1..]));
      StreamRoundTrip(ms[1..]);
      assert [ms[0]] + ms[1..] == ms;
    }
  }

  lemma NoFrame()
    ensures ReadFrame([]) == None
  {
  }
}

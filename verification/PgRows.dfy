/**
 * Result rows of the PostgreSQL protocol (pkg/pgwire/writer.go): RowDescription, DataRow, the
 * binary encodings of integers and booleans, and the column formats chosen by executeMySQLQuery
 * (internal/proxy/postgresql/server.go).
 */
module PgRows {
  import opened Wrappers
  import opened Bytes
  import opened PgWire
  import Placeholders

  datatype Field = Field(name: bytes, tableOid: nat, attribute: nat, typeOid: nat,
                         typeSize: int, typeModifier: int, format: int)

  /** A scanned value: an integer and a boolean are formatted here, the rest arrives as text. */
  datatype Value = Null | Text(text: bytes) | Int(i: int) | Bool(b: bool)

  const ROW_DESCRIPTION: byte := 84
  const DATA_ROW: byte := 68

  const OID_BOOL: nat := 16
  const OID_INT8: nat := 20
  const OID_INT2: nat := 21
  const OID_INT4: nat := 23
  const OID_FLOAT4: nat := 700
  const OID_FLOAT8: nat := 701
  const OID_TIMESTAMP: nat := 1114

  // ---- Decimal text ----

  /** The bytes of the decimal digits. */
  function Decimal(n: nat): (s: bytes)
    ensures |s| >= 1
    ensures forall i :: 0 <= i < |s| ==> 48 <= s[i] < 58
  {
    var digits := Placeholders.Digits(n);
    seq(|digits|, i requires 0 <= i < |digits| => digits[i] as int)
  }

  lemma DigitByte(d: nat)
    requires d < 10
    ensures Placeholders.Digit(d) as int == 48 + d
  {
    assert Placeholders.DigitValue(Placeholders.Digit(d)) == d by {
      assert "0123456789"[Placeholders.DigitValue(Placeholders.Digit(d))] == "0123456789"[d];
    }
  }

  lemma DecimalStep(n: nat)
    ensures Decimal(n) == if n < 10 then [48 + n] else Decimal(n / 10) + [48 + n % 10]
  {
    hide Placeholders.Digits, Placeholders.Digit;
    Placeholders.DigitsStep(n);
    DigitByte(if n < 10 then n else n % 10);
  }

  function FormatInt(v: int): bytes
  {
    if v < 0 then [45] + Decimal(-v) else Decimal(v)
  }

  datatype Scan = Syntax | Range | Number(n: nat)

  /** One more character of a number; a value beyond the maximum ends the scan at once. */
  function ScanDigit(s: Scan, c: byte, max: nat): Scan
  {
    if !s.Number? then s
    else if !(48 <= c < 58) then Syntax
    else if 10 * s.n + (c - 48) > max then Range
    else Number(10 * s.n + (c - 48))
  }

  function ScanDigits(s: Scan, text: bytes, max: nat): Scan
    decreases text
  {
    if text == [] then s else ScanDigits(ScanDigit(s, text[0], max), text[1..], max)
  }

  /** strconv.ParseInt in base ten with its error ignored: 0 for bad syntax, the nearer bound when out of range. */
  function ParseInt(text: bytes, width: nat): (v: int)
    requires width >= 1
    ensures Fits(width, v)
  {
    var signed := text != [] && (text[0] == 43 || text[0] == 45);
    var negative := text != [] && text[0] == 45;
    var digits := if signed then text[1..] else text;
    var half := Pow256(width) / 2;
    if digits == [] then 0
    else match ScanDigits(Number(0), digits, Pow256(width) - 1)
      case Syntax => 0
      case Range => if negative then -half else half - 1
      case Number(n) =>
        if !negative && n >= half then half - 1
        else if negative && n > half then -half
        else if negative then -(n as int) else n
  }

  function Clamp(width: nat, v: int): int
  {
    var half := Pow256(width) / 2;
    if v < -half then -half else if v >= half then half - 1 else v
  }

  // ---- textToBinary ----

  function IntWidth(oid: nat): nat
  {
    if oid == OID_INT2 then 2 else if oid == OID_INT4 then 4 else if oid == OID_INT8 then 8 else 0
  }

  /** canBinaryEncode. */
  predicate CanBinaryEncode(oid: nat)
  {
    oid in {OID_BOOL, OID_INT2, OID_INT4, OID_INT8, OID_FLOAT4, OID_FLOAT8, OID_TIMESTAMP}
  }

  const TRUE_TEXTS: seq<bytes> := [[116], [116, 114, 117, 101], [49]]

  /** Floats and timestamps are encoded by the given function; a type without a case stays text. */
  function TextToBinary(text: bytes, oid: nat, other: (bytes, nat) -> bytes): bytes
  {
    if oid == OID_BOOL then (if text in TRUE_TEXTS then [1] else [0])
    else if IntWidth(oid) > 0 then PutBE(IntWidth(oid), Unsigned(IntWidth(oid), ParseInt(text, IntWidth(oid))))
    else if oid in {OID_FLOAT4, OID_FLOAT8, OID_TIMESTAMP} then other(text, oid)
    else text
  }

  function ValueText(v: Value): bytes
    requires !v.Null?
  {
    match v
    case Text(t) => t
    case Int(i) => FormatInt(i)
    case Bool(b) => if b then [116] else [102]
  }

  // ---- DataRow ----

  function At<T>(xs: seq<T>, i: nat, default: T): T
  {
    if i < |xs| then xs[i] else default
  }

  /** The bytes of column i, or None for NULL. */
  function ColumnData(v: Value, format: int, oid: nat, other: (bytes, nat) -> bytes): Option<bytes>
  {
    if v.Null? then None
    else if format == 1 then Some(TextToBinary(ValueText(v), oid, other))
    else Some(ValueText(v))
  }

  function RowData(values: seq<Value>, formats: seq<int>, oids: seq<nat>, other: (bytes, nat) -> bytes)
    : (data: seq<Option<bytes>>)
    ensures |data| == |values|
    ensures forall i :: 0 <= i < |values| ==>
      data[i] == ColumnData(values[i], At(formats, i, 0), At(oids, i, 0), other)
  {
    seq(|values|, i requires 0 <= i < |values| =>
      ColumnData(values[i], At(formats, i, 0), At(oids, i, 0), other))
  }

  /** Counts and lengths are cut to 16 and 32 bits, as Go's conversions do. */
  function DataItem(d: Option<bytes>): bytes
  {
    match d
    case None => PutBE(4, U32 - 1)
    case Some(s) => PutBE(4, |s| % U32) + s
  }

  function DataRowBody(data: seq<Option<bytes>>): bytes
  {
    PutBE(2, |data| % U16) + Each(DataItem, data)
  }

  lemma {:induction false} EachSnoc<T>(layout: T -> bytes, xs: seq<T>, x: T)
    ensures Each(layout, xs + [x]) == Each(layout, xs) + layout(x)
  {
    if xs == [] {
      assert xs + [x] == [x];
      assert Each(layout, [x]) == layout(x) + Each(layout, [x][1..]);
    } else {
      EachSnoc(layout, xs[1..], x);
      assert (xs + [x])[1..] == xs[1..] + [x];
    }
  }

  lemma EachStep<T>(layout: T -> bytes, xs: seq<T>, i: nat)
    requires i < |xs|
    ensures Each(layout, xs[..i + 1]) == Each(layout, xs[..i]) + layout(xs[i])
  {
    EachSnoc(layout, xs[..i], xs[i]);
    assert xs[..i + 1] == xs[..i] + [xs[i]];
  }

  lemma EachEnds<T>(layout: T -> bytes, xs: seq<T>)
    ensures Each(layout, xs[..0]) == [] && xs[..|xs|] == xs
  {
  }

  method SendDataRow(w: WireWriter, values: seq<Value>, formats: seq<int>, oids: seq<nat>, other: (bytes, nat) -> bytes)
    modifies w
    ensures w.out == old(w.out) + Frame(Message(DATA_ROW, DataRowBody(RowData(values, formats, oids, other))))
  {
    hide Each, TextToBinary, ValueText, PutBE;
    ghost var data := RowData(values, formats, oids, other);
    var buf := PutBE(2, |values| % U16);
    ghost var start := buf;
    assert start + [] == start;
    EachEnds(DataItem, data);
    for i := 0 to |values|
      invariant w.out == old(w.out)
      invariant buf == start + Each(DataItem, data[..i])
    {
      EachStep(DataItem, data, i);
      var format := 0;
      if i < |formats| {
        format := formats[i];
      }
      if values[i].Null? {
        buf := buf + PutBE(4, U32 - 1);
        continue;
      }
      var text := ValueText(values[i]);
      if format == 1 {
        var oid := 0;
        if i < |oids| {
          oid := oids[i];
        }
        text := TextToBinary(text, oid, other);
      }
      buf := buf + PutBE(4, |text| % U32);
      buf := buf + text;
    }
    w.WriteMessage(Message(DATA_ROW, buf));
  }

  // ---- RowDescription ----

  predicate IsField(f: Field)
  {
    NulFree(f.name) && f.tableOid < U32 && f.attribute < U16 && f.typeOid < U32
    && Fits(2, f.typeSize) && Fits(4, f.typeModifier) && Fits(2, f.format)
  }

  function FieldBytes(f: Field): bytes
  {
    if !IsField(f) then [] else
    CString(f.name) + PutBE(4, f.tableOid) + PutBE(2, f.attribute) + PutBE(4, f.typeOid)
    + PutBE(2, Unsigned(2, f.typeSize)) + PutBE(4, Unsigned(4, f.typeModifier)) + PutBE(2, Unsigned(2, f.format))
  }

  function RowDescriptionBody(fields: seq<Field>): bytes
  {
    PutBE(2, |fields| % U16) + Each(FieldBytes, fields)
  }

  method SendRowDescription(w: WireWriter, fields: seq<Field>)
    requires forall i :: 0 <= i < |fields| ==> IsField(fields[i])
    modifies w
    ensures w.out == old(w.out) + Frame(Message(ROW_DESCRIPTION, RowDescriptionBody(fields)))
  {
    hide Each, PutBE, IsField;
    var buf := PutBE(2, |fields| % U16);
    ghost var start := buf;
    assert start + [] == start;
    EachEnds(FieldBytes, fields);
    for i := 0 to |fields|
      invariant w.out == old(w.out)
      invariant buf == start + Each(FieldBytes, fields[..i])
    {
      EachStep(FieldBytes, fields, i);
      buf := AppendField(buf, fields[i]);
    }
    w.WriteMessage(Message(ROW_DESCRIPTION, buf));
  }

  method AppendField(buf: bytes, f: Field) returns (r: bytes)
    requires IsField(f)
    ensures r == buf + FieldBytes(f)
  {
    hide PutBE, Unsigned, Pow256, CString;
    r := buf + f.name;
    r := r + [0];
    assert r == buf + CString(f.name) by { CStringIs(f.name); }
    r := r + PutBE(4, f.tableOid);
    r := r + PutBE(2, f.attribute);
    r := r + PutBE(4, f.typeOid);
    r := r + PutBE(2, Unsigned(2, f.typeSize));
    r := r + PutBE(4, Unsigned(4, f.typeModifier));
    r := r + PutBE(2, Unsigned(2, f.format));
  }

  lemma CStringIs(s: bytes)
    ensures CString(s) == s + [0]
  {
  }

  // ---- A client reading the two messages ----

  function ReadSigned(width: nat, b: bytes): Parsed<int>
    requires width >= 1
  {
    match ReadUint(width, b)
    case None => None
    case Some((u, rest)) => Some((Signed(width, u), rest))
  }

  function ReadField(b: bytes): Parsed<Field>
  {
    var name := ReadCString(b);
    if name.None? then None else
    var tableOid := ReadUint(4, name.value.1);
    if tableOid.None? then None else
    var attribute := ReadUint(2, tableOid.value.1);
    if attribute.None? then None else
    var typeOid := ReadUint(4, attribute.value.1);
    if typeOid.None? then None else
    var typeSize := ReadSigned(2, typeOid.value.1);
    if typeSize.None? then None else
    var typeModifier := ReadSigned(4, typeSize.value.1);
    if typeModifier.None? then None else
    var format := ReadSigned(2, typeModifier.value.1);
    if format.None? then None else
    Some((Field(name.value.0, tableOid.value.0, attribute.value.0, typeOid.value.0,
                typeSize.value.0, typeModifier.value.0, format.value.0), format.value.1))
  }

  lemma SignedRoundTrips(width: nat, v: int, rest: bytes)
    requires width >= 1 && Fits(width, v)
    ensures ReadSigned(width, PutBE(width, Unsigned(width, v)) + rest) == Some((v, rest))
  {
    hide ReadUint;
    UintRoundTrip(width, Unsigned(width, v), rest);
  }

  lemma FieldRoundTrip(f: Field, rest: bytes)
    requires IsField(f)
    ensures ReadField(FieldBytes(f) + rest) == Some((f, rest))
  {
    hide ReadUint, ReadSigned, ReadCString, CString, PutBE, Unsigned, Pow256;
    Widths();
    var r6 := PutBE(2, Unsigned(2, f.format)) + rest;
    var r5 := PutBE(4, Unsigned(4, f.typeModifier)) + r6;
    var r4 := PutBE(2, Unsigned(2, f.typeSize)) + r5;
    var r3 := PutBE(4, f.typeOid) + r4;
    var r2 := PutBE(2, f.attribute) + r3;
    var r1 := PutBE(4, f.tableOid) + r2;
    SignedRoundTrips(2, f.format, rest);
    SignedRoundTrips(4, f.typeModifier, r6);
    SignedRoundTrips(2, f.typeSize, r5);
    UintRoundTrip(4, f.typeOid, r4);
    UintRoundTrip(2, f.attribute, r3);
    UintRoundTrip(4, f.tableOid, r2);
    CStringRoundTrip(f.name, r1);
    assert FieldBytes(f) + rest == CString(f.name) + r1;
  }

  /** Every field of a RowDescription comes back, the announced format included. */
  lemma RowDescriptionRoundTrip(fields: seq<Field>)
    requires |fields| < U16 && forall i :: 0 <= i < |fields| ==> IsField(fields[i])
    ensures ReadCounted(ReadField, RowDescriptionBody(fields)) == Some((fields, []))
  {
    hide ReadField, FieldBytes, ReadCounted, Each, PutBE;
    forall i | 0 <= i < |fields|
      ensures Inverts(ReadField, FieldBytes, fields[i])
    {
      forall r: bytes { FieldRoundTrip(fields[i], r); }
    }
    CountedRoundTrip(ReadField, FieldBytes, fields, []);
    assert RowDescriptionBody(fields) == Counted(FieldBytes, fields) + [];
  }

  /** The cells of a DataRow come back with NULL distinct from the empty text. */
  lemma DataRowRoundTrip(data: seq<Option<bytes>>)
    requires |data| < U16 && forall i :: 0 <= i < |data| ==> IsParameter(data[i])
    ensures ReadCounted(ReadParameter, DataRowBody(data)) == Some((data, []))
  {
    hide ReadParameter, ReadCounted, Each, PutBE;
    ParametersRoundTrip(data, []);
    ItemsAreParameters(data);
    assert DataRowBody(data) == Counted(ParameterBytes, data) + [];
  }

  lemma {:induction false} ItemsAreParameters(data: seq<Option<bytes>>)
    requires forall i :: 0 <= i < |data| ==> IsParameter(data[i])
    ensures Each(DataItem, data) == Each(ParameterBytes, data)
  {
    hide PutBE;
    if data != [] {
      assert IsParameter(data[0]);
      ItemsAreParameters(data[1..]);
    }
  }

  // ---- Integers through text and binary ----

  lemma {:induction false} ScanSnoc(s: Scan, text: bytes, c: byte, max: nat)
    ensures ScanDigits(s, text + [c], max) == ScanDigit(ScanDigits(s, text, max), c, max)
    decreases text
  {
    if text == [] {
      assert text + [c] == [c];
      assert ScanDigits(s, [c], max) == ScanDigits(ScanDigit(s, [c][0], max), [c][1..], max);
    } else {
      ScanSnoc(ScanDigit(s, text[0], max), text[1..], c, max);
      assert (text + [c])[1..] == text[1..] + [c];
    }
  }

  lemma {:induction false} ScanDecimal(n: nat, max: nat)
    ensures ScanDigits(Number(0), Decimal(n), max) == if n > max then Range else Number(n)
  {
    DecimalStep(n);
    if n < 10 {
      ScanSnoc(Number(0), [], 48 + n, max);
      assert [] + [48 + n] == Decimal(n);
    } else {
      var high, low := n / 10, n % 10;
      ScanDecimal(high, max);
      ScanSnoc(Number(0), Decimal(high), 48 + low, max);
    }
  }

  lemma ParseFormatted(v: int, width: nat)
    requires width >= 1
    ensures ParseInt(FormatInt(v), width) == Clamp(width, v)
  {
    hide ScanDigits, Decimal;
    var n := if v < 0 then -v else v;
    ScanDecimal(n, Pow256(width) - 1);
    var d := Decimal(n);
    assert 48 <= d[0] < 58;
    assert ([45] + d)[1..] == d;
  }

  /**
   * Printing an integer in decimal, re-encoding it for an integer type and decoding two's
   * complement yields the value clamped to that type's width; every 64-bit value survives int8.
   */
  lemma BinaryInteger(v: int, oid: nat, other: (bytes, nat) -> bytes)
    requires IntWidth(oid) > 0
    ensures var b := TextToBinary(FormatInt(v), oid, other);
      && |b| == IntWidth(oid)
      && Signed(IntWidth(oid), GetBE(b)) == Clamp(IntWidth(oid), v)
      && (oid == OID_INT8 && -0x8000_0000_0000_0000 <= v < 0x8000_0000_0000_0000 ==> Clamp(8, v) == v)
  {
    hide ParseInt, FormatInt, PutBE, GetBE, Pow256, Clamp;
    var n := IntWidth(oid);
    ParseFormatted(v, n);
    BERoundTrip(n, Unsigned(n, Clamp(n, v)));
    Int8IsExact(v);
  }

  lemma Int8IsExact(v: int)
    ensures -0x8000_0000_0000_0000 <= v < 0x8000_0000_0000_0000 ==> Clamp(8, v) == v
  {
    Widths();
  }

  // ---- The formats executeMySQLQuery announces and uses ----

  /** One format code a column: binary only when the first requested code is 1 and the type has an encoding. */
  method ColumnFormats(oids: seq<nat>, requested: seq<int>) returns (formats: seq<int>)
    ensures |formats| == |oids|
    ensures forall i :: 0 <= i < |oids| ==>
      formats[i] == if requested != [] && requested[0] == 1 && CanBinaryEncode(oids[i]) then 1 else 0
  {
    formats := seq(|oids|, _ => 0);
    if requested != [] && requested[0] == 1 {
      for i := 0 to |oids|
        invariant |formats| == |oids|
        invariant forall k :: 0 <= k < i ==> formats[k] == if CanBinaryEncode(oids[k]) then 1 else 0
        invariant forall k :: i <= k < |oids| ==> formats[k] == 0
      {
        if CanBinaryEncode(oids[i]) {
          formats := formats[i := 1];
        }
      }
    }
  }

  /** How a client decodes an integer cell: by the format the RowDescription announced. */
  function ClientInteger(announced: int, width: nat, cell: bytes): int
    requires width >= 1
  {
    if announced == 1 then Signed(width, GetBE(cell)) else ParseInt(cell, 8)
  }

  /**
   * For every type, request and integer: when the announced format is also the one used in the
   * row, a binary column has a binary encoding, and an integer column is decoded to the value
   * (clamped to its width in binary, to 64 bits in text).
   */
  lemma AnnouncedFormatDecodes(v: int, oid: nat, announced: int, other: (bytes, nat) -> bytes)
    requires IntWidth(oid) > 0 && announced in {0, 1}
    ensures var cell := ColumnData(Int(v), announced, oid, other);
      && cell.Some?
      && ClientInteger(announced, IntWidth(oid), cell.value) == Clamp(if announced == 1 then IntWidth(oid) else 8, v)
  {
    hide TextToBinary, ParseInt, FormatInt, GetBE, Pow256, Clamp;
    BinaryInteger(v, oid, other);
    ParseFormatted(v, 8);
  }

  /** How a client decodes a boolean cell. */
  function ClientBool(announced: int, cell: bytes): bool
  {
    if announced == 1 then cell == [1] else cell == [116]
  }

  /**
   * NULL has no cell in any format; a boolean is decoded to its value from both formats; a text
   * is sent as it is unless the column is binary and has one of the types with an encoding.
   */
  lemma OtherCellsDecode(b: bool, text: bytes, oid: nat, format: int, other: (bytes, nat) -> bytes)
    ensures ColumnData(Null, format, oid, other) == None
    ensures format in {0, 1} ==>
      var cell := ColumnData(Bool(b), format, OID_BOOL, other);
      cell.Some? && |cell.value| == 1 && ClientBool(format, cell.value) == b
    ensures format != 1 || !CanBinaryEncode(oid) ==> ColumnData(Text(text), format, oid, other) == Some(text)
  {
    assert TRUE_TEXTS[0] == [116] && [102] != [116];
  }

  /** The types offered in binary are exactly those whose text is re-encoded, for some text. */
  lemma BinaryCasesMatch(oid: nat, other: (bytes, nat) -> bytes)
    requires exists text :: other(text, oid) != text
    ensures CanBinaryEncode(oid) <==> exists text: bytes :: TextToBinary(text, oid, other) != text
  {
    if CanBinaryEncode(oid) {
      if oid in {OID_FLOAT4, OID_FLOAT8, OID_TIMESTAMP} {
        var text :| other(text, oid) != text;
        assert TextToBinary(text, oid, other) != text;
      } else {
        assert TextToBinary([], oid, other) != [];
      }
    }
  }

  // ---- A whole result on the wire ----

  function Formats(oids: seq<nat>, requested: seq<int>): (formats: seq<int>)
    ensures |formats| == |oids|
    ensures forall i :: 0 <= i < |oids| ==>
      formats[i] == if requested != [] && requested[0] == 1 && CanBinaryEncode(oids[i]) then 1 else 0
  {
    seq(|oids|, i requires 0 <= i < |oids| =>
      if requested != [] && requested[0] == 1 && CanBinaryEncode(oids[i]) then 1 else 0)
  }

  function Column(name: bytes, oid: nat, format: int): Field
  {
    Field(name, 0, 0, oid, -1, 0, format)
  }

  function Columns(names: seq<bytes>, oids: seq<nat>, formats: seq<int>): (fields: seq<Field>)
    requires |names| == |oids| == |formats|
    ensures |fields| == |names|
    ensures forall i :: 0 <= i < |names| ==> fields[i] == Column(names[i], oids[i], formats[i])
  {
    seq(|names|, i requires 0 <= i < |names| => Column(names[i], oids[i], formats[i]))
  }

  predicate IsResult(names: seq<bytes>, oids: seq<nat>, rows: seq<seq<Value>>)
  {
    && |names| == |oids|
    && (forall i :: 0 <= i < |names| ==> NulFree(names[i]) && oids[i] < U32)
    && forall r :: 0 <= r < |rows| ==> |rows[r]| == |names|
  }

  function RowMessages(rows: seq<seq<Value>>, formats: seq<int>, oids: seq<nat>, other: (bytes, nat) -> bytes)
    : (ms: seq<Message>)
    ensures |ms| == |rows|
    ensures forall r :: 0 <= r < |rows| ==> ms[r] == Message(DATA_ROW, DataRowBody(RowData(rows[r], formats, oids, other)))
  {
    seq(|rows|, r requires 0 <= r < |rows| => Message(DATA_ROW, DataRowBody(RowData(rows[r], formats, oids, other))))
  }

  /** The messages of executeMySQLQuery with a portal: the columns unless described, then the rows. */
  function ResultMessages(names: seq<bytes>, oids: seq<nat>, requested: seq<int>, described: bool,
                          rows: seq<seq<Value>>, other: (bytes, nat) -> bytes): seq<Message>
    requires |names| == |oids|
  {
    var formats := Formats(oids, requested);
    (if described then [] else [Message(ROW_DESCRIPTION, RowDescriptionBody(Columns(names, oids, formats)))])
    + RowMessages(rows, formats, oids, other)
  }

  lemma {:induction false} FramesSnoc(ms: seq<Message>, m: Message)
    ensures Frames(ms + [m]) == Frames(ms) + Frame(m)
  {
    hide Frame;
    if ms == [] {
      assert ms + [m] == [m] && [m][1..] == [];
    } else {
      FramesSnoc(ms[1..], m);
      assert (ms + [m])[1..] == ms[1..] + [m];
    }
  }

  /** The loop over the rows of an open result. */
  method SendRows(w: WireWriter, rows: seq<seq<Value>>, formats: seq<int>, oids: seq<nat>, other: (bytes, nat) -> bytes)
    modifies w
    ensures w.out == old(w.out) + Frames(RowMessages(rows, formats, oids, other))
  {
    hide Frame, Frames, DataRowBody, RowData;
    ghost var ms := RowMessages(rows, formats, oids, other);
    NoFrames(w.out);
    assert ms[..0] == [];
    for r := 0 to |rows|
      invariant w.out == old(w.out) + Frames(ms[..r])
    {
      FramesSnoc(ms[..r], ms[r]);
      assert ms[..r] + [ms[r]] == ms[..r + 1];
      SendDataRow(w, rows[r], formats, oids, other);
    }
    assert ms[..|rows|] == ms;
  }

  method SendResult(w: WireWriter, names: seq<bytes>, oids: seq<nat>, requested: seq<int>, described: bool,
                    rows: seq<seq<Value>>, other: (bytes, nat) -> bytes)
    requires IsResult(names, oids, rows)
    modifies w
    ensures w.out == old(w.out) + Frames(ResultMessages(names, oids, requested, described, rows, other))
  {
    hide Frame, Frames, DataRowBody, RowDescriptionBody, RowData, IsField, RowMessages;
    var formats := ColumnFormats(oids, requested);
    assert formats == Formats(oids, requested);
    ghost var rest := RowMessages(rows, formats, oids, other);
    assert [] + rest == rest;
    if !described {
      var columns := Columns(names, oids, formats);
      ColumnsAreFields(names, oids, formats);
      FramesCons(Message(ROW_DESCRIPTION, RowDescriptionBody(columns)), rest);
      SendRowDescription(w, columns);
    }
    SendRows(w, rows, formats, oids, other);
  }

  lemma FramesCons(m: Message, ms: seq<Message>)
    ensures Frames([m] + ms) == Frame(m) + Frames(ms)
  {
    assert ([m] + ms)[1..] == ms;
  }

  lemma NoFrames(out: bytes)
    ensures out + Frames([]) == out
  {
  }

  /** Every message is short enough for its length fields, every cell for its own. */
  predicate FitsWire(names: seq<bytes>, oids: seq<nat>, requested: seq<int>, rows: seq<seq<Value>>, other: (bytes, nat) -> bytes)
    requires |names| == |oids|
  {
    && |names| < U16
    && (forall i :: 0 <= i < |ResultMessages(names, oids, requested, false, rows, other)| ==>
          |ResultMessages(names, oids, requested, false, rows, other)[i].body| + 4 < U32)
    && (forall r, c :: 0 <= r < |rows| && 0 <= c < |rows[r]| ==>
          IsParameter(RowData(rows[r], Formats(oids, requested), oids, other)[c]))
  }

  /**
   * A client that reads the stream back, takes each column's type and format from the
   * RowDescription and decodes an integer cell by them gets the integer MySQL returned, clamped
   * to the type's width in binary and to 64 bits in text.
   */
  lemma ClientReadsIntegers(names: seq<bytes>, oids: seq<nat>, requested: seq<int>, rows: seq<seq<Value>>,
                            other: (bytes, nat) -> bytes, r: nat, c: nat)
    requires IsResult(names, oids, rows) && FitsWire(names, oids, requested, rows, other)
    requires r < |rows| && c < |names| && rows[r][c].Int? && IntWidth(oids[c]) > 0
    ensures var ms := AllFrames(Frames(ResultMessages(names, oids, requested, false, rows, other)));
      && |ms| == 1 + |rows|
      && var fields := ReadCounted(ReadField, ms[0].body);
         var cells := ReadCounted(ReadParameter, ms[r + 1].body);
         && fields.Some? && cells.Some? && |fields.value.0| == |cells.value.0| == |names|
         && var f, cell := fields.value.0[c], cells.value.0[c];
            && f.name == names[c] && f.typeOid == oids[c] && f.format in {0, 1}
            && cell.Some?
            && ClientInteger(f.format, IntWidth(f.typeOid), cell.value)
               == Clamp(if f.format == 1 then IntWidth(oids[c]) else 8, rows[r][c].i)
  {
    hide Frames, AllFrames, ReadCounted, ReadField, ReadParameter, RowDescriptionBody, DataRowBody, ClientInteger, Clamp, ColumnData;
    var formats := Formats(oids, requested);
    var fields := Columns(names, oids, formats);
    var ms := ResultMessages(names, oids, requested, false, rows, other);
    StreamRoundTrip(ms);
    ColumnsAreFields(names, oids, formats);
    RowDescriptionRoundTrip(fields);
    var data := RowData(rows[r], formats, oids, other);
    DataRowRoundTrip(data);
    AnnouncedFormatDecodes(rows[r][c].i, oids[c], formats[c], other);
    assert ms[r + 1] == Message(DATA_ROW, DataRowBody(data));
  }

  lemma ColumnsAreFields(names: seq<bytes>, oids: seq<nat>, formats: seq<int>)
    requires |names| == |oids| == |formats|
    requires forall i :: 0 <= i < |names| ==> NulFree(names[i]) && oids[i] < U32 && formats[i] in {0, 1}
    ensures forall i :: 0 <= i < |names| ==> IsField(Columns(names, oids, formats)[i])
  {
    Widths();
  }
}

/**
 * The data blocks of the ClickHouse native protocol (internal/proxy/clickhouse/http_server.go):
 * the two senders, a client that reads a block back, and the shapes on which the row-by-row
 * sender prints the same bytes as the column-by-column one.
 */
module NativeBlock {
  import opened Wrappers
  import opened Bytes
  import opened Sequences
  import opened Varint

  const DATA: byte := 1
  const EXCEPTION: byte := 2
  const PROGRESS: byte := 3
  const END_OF_STREAM: byte := 5

  type Cell = Option<bytes>

  /** A query result: one name and one type a column, and rows of possibly null cells. */
  datatype Table = Table(names: seq<bytes>, types: seq<bytes>, rows: seq<seq<Cell>>)

  predicate Sendable(s: bytes)
  {
    |s| < U64
  }

  predicate CellSendable(c: Cell)
  {
    c.Some? ==> Sendable(c.value)
  }

  /** Rectangular, and every length fits the 64-bit counts of the protocol. */
  ghost predicate Rectangular(t: Table)
  {
    && |t.names| == |t.types| < U64 && |t.rows| < U64
    && (forall i :: 0 <= i < |t.names| ==> Sendable(t.names[i]) && Sendable(t.types[i]))
    && (forall r :: 0 <= r < |t.rows| ==> |t.rows[r]| == |t.names|)
    && (forall r, c :: 0 <= r < |t.rows| && 0 <= c < |t.names| ==> CellSendable(t.rows[r][c]))
  }

  // ---- Specification of the bytes ----

  function Strings(ss: seq<bytes>): bytes
  {
    if ss == [] then [] else StringBytes(ss[0]) + Strings(ss[1..])
  }

  function Zeros(n: nat): bytes
  {
    if n == 0 then [] else VarIntBytes(0) + Zeros(n - 1)
  }

  /** A null cell is printed as the given text. */
  function CellText(c: Cell, nil: bytes): (text: bytes)
    ensures CellSendable(c) && Sendable(nil) ==> Sendable(text)
  {
    if c.Some? then c.value else nil
  }

  function RowTexts(rows: seq<seq<Cell>>, nil: bytes): (texts: seq<seq<bytes>>)
    ensures |texts| == |rows|
    ensures forall r :: 0 <= r < |rows| ==> |texts[r]| == |rows[r]|
  {
    seq(|rows|, r requires 0 <= r < |rows| =>
      seq(|rows[r]|, c requires 0 <= c < |rows[r]| => CellText(rows[r][c], nil)))
  }

  /** The columns of a rectangular grid: column c holds cell c of every row. */
  function Transpose<T>(rows: seq<seq<T>>, width: nat): (columns: seq<seq<T>>)
    requires forall r :: 0 <= r < |rows| ==> |rows[r]| == width
    ensures |columns| == width
    ensures forall c :: 0 <= c < width ==> |columns[c]| == |rows|
    ensures forall c, r :: 0 <= c < width && 0 <= r < |rows| ==> columns[c][r] == rows[r][c]
  {
    seq(width, c requires 0 <= c < width =>
      seq(|rows|, r requires 0 <= r < |rows| => rows[r][c]))
  }

  function Header(names: seq<bytes>, types: seq<bytes>, height: nat): bytes
  {
    [PROGRESS] + VarIntBytes(0) + VarIntBytes(0) + VarIntBytes(0) + [DATA]
    + VarIntBytes(|names|) + VarIntBytes(height) + Strings(names) + Strings(types) + Zeros(|names|)
  }

  function Block(names: seq<bytes>, types: seq<bytes>, height: nat, cells: seq<bytes>): bytes
  {
    Header(names, types, height) + Strings(cells) + [END_OF_STREAM]
  }

  const NIL_TEXT: bytes := [60, 110, 105, 108, 62]

  /** The block of sendNativeData: columns one after another, null as the empty string. */
  function ColumnBlock(t: Table): bytes
    requires Rectangular(t)
  {
    Block(t.names, t.types, |t.rows|, Flatten(Transpose(RowTexts(t.rows, []), |t.names|)))
  }

  /** The block of sendNativeResponse: rows one after another, null as Go prints it. */
  function RowBlock(t: Table): bytes
  {
    Block(t.names, t.types, |t.rows|, Flatten(RowTexts(t.rows, NIL_TEXT)))
  }

  function ExceptionPacket(message: bytes): bytes
  {
    [EXCEPTION] + PutLE(4, 0) + StringBytes(message) + StringBytes([]) + StringBytes([]) + [0] + [END_OF_STREAM]
  }

  // ---- The senders ----

  lemma {:induction false} StringsAppend(a: seq<bytes>, b: seq<bytes>)
    ensures Strings(a + b) == Strings(a) + Strings(b)
  {
    hide StringBytes;
    if a == [] {
      assert a + b == b && [] + Strings(b) == Strings(b);
    } else {
      StringsAppend(a[1..], b);
      assert (a + b)[1..] == a[1..] + b && (a + b)[0] == a[0];
      var x, y, z := StringBytes(a[0]), Strings(a[1..]), Strings(b);
      assert x + (y + z) == x + y + z;
    }
  }

  lemma StringsSnoc(a: seq<bytes>, s: bytes)
    ensures Strings(a + [s]) == Strings(a) + StringBytes(s)
  {
    StringsAppend(a, [s]);
    assert Strings([s]) == StringBytes(s) + Strings([s][1..]);
  }

  lemma NothingYet<T>(xs: seq<T>)
    ensures Strings([]) == [] && Flatten<bytes>([]) == [] && Zeros(0) == []
    ensures xs[..0] == [] && xs[..|xs|] == xs
  {
  }

  lemma ZerosStep(n: nat)
    requires n > 0
    ensures Zeros(n) == VarIntBytes(0) + Zeros(n - 1)
  {
  }

  /** One more cell of the line being written. */
  lemma CellStep(line: seq<bytes>, i: nat)
    requires i < |line|
    ensures Strings(line[..i + 1]) == Strings(line[..i]) + StringBytes(line[i])
  {
    StringsSnoc(line[..i], line[i]);
    assert line[..i + 1] == line[..i] + [line[i]];
  }

  /** One more complete line. */
  lemma LineStep(lines: seq<seq<bytes>>, i: nat)
    requires i < |lines|
    ensures Strings(Flatten(lines[..i + 1])) == Strings(Flatten(lines[..i])) + Strings(lines[i])
  {
    FlattenSnoc(lines[..i], lines[i]);
    assert lines[..i + 1] == lines[..i] + [lines[i]];
    StringsAppend(Flatten(lines[..i]), lines[i]);
  }

  method WriteStrings(w: ByteSink, ss: seq<bytes>)
    requires forall i :: 0 <= i < |ss| ==> Sendable(ss[i])
    modifies w
    ensures w.out == old(w.out) + Strings(ss)
  {
    hide Strings, StringBytes;
    NothingYet(ss);
    for i := 0 to |ss|
      invariant w.out == old(w.out) + Strings(ss[..i])
    {
      WriteString(w, ss[i]);
      CellStep(ss, i);
    }
  }

  method WriteHeader(w: ByteSink, names: seq<bytes>, types: seq<bytes>, height: nat)
    requires |names| < U64 && height < U64
    requires forall i :: 0 <= i < |names| ==> Sendable(names[i])
    requires forall i :: 0 <= i < |types| ==> Sendable(types[i])
    modifies w
    ensures w.out == old(w.out) + Header(names, types, height)
  {
    hide Strings, StringBytes, VarIntBytes, Zeros;
    w.WriteByte(PROGRESS);
    WriteVarInt(w, 0);
    WriteVarInt(w, 0);
    WriteVarInt(w, 0);
    w.WriteByte(DATA);
    WriteVarInt(w, |names|);
    WriteVarInt(w, height);
    WriteStrings(w, names);
    WriteStrings(w, types);
    WriteSerialization(w, |names|);
  }

  /** One zero for every column: default serialization. */
  method WriteSerialization(w: ByteSink, width: nat)
    modifies w
    ensures w.out == old(w.out) + Zeros(width)
  {
    var n := width;
    while n > 0
      invariant 0 <= n <= width
      invariant w.out + Zeros(n) == old(w.out) + Zeros(width)
    {
      ZerosStep(n);
      WriteVarInt(w, 0);
      n := n - 1;
    }
    NothingYet(w.out);
    assert w.out == w.out + Zeros(0);
  }

  /** Packets of an exception: sendNativeError. */
  method SendNativeError(w: ByteSink, message: bytes)
    requires Sendable(message)
    modifies w
    ensures w.out == old(w.out) + ExceptionPacket(message)
  {
    w.WriteByte(EXCEPTION);
    assert 0 < Pow256(4);
    WriteFixed(w, 4, 0);
    WriteString(w, message);
    WriteString(w, []);
    WriteString(w, []);
    w.WriteByte(0);
    w.WriteByte(END_OF_STREAM);
  }

  method SendNativeData(w: ByteSink, t: Table)
    requires Rectangular(t)
    modifies w
    ensures w.out == old(w.out) + ColumnBlock(t)
  {
    hide Strings, StringBytes, Header, Flatten, CellText;
    WriteHeader(w, t.names, t.types, |t.rows|);
    ghost var start := w.out;
    ghost var columns := Transpose(RowTexts(t.rows, []), |t.names|);
    NothingYet(columns);
    for c := 0 to |t.names|
      invariant w.out == start + Strings(Flatten(columns[..c]))
    {
      ghost var before := w.out;
      NothingYet(columns[c]);
      for r := 0 to |t.rows|
        invariant w.out == before + Strings(columns[c][..r])
      {
        assert CellSendable(t.rows[r][c]);
        WriteString(w, CellText(t.rows[r][c], []));
        CellStep(columns[c], r);
      }
      LineStep(columns, c);
    }
    w.WriteByte(END_OF_STREAM);
  }

  method SendNativeResponse(w: ByteSink, t: Table)
    requires Rectangular(t)
    modifies w
    ensures w.out == old(w.out) + RowBlock(t)
  {
    hide Strings, StringBytes, Header, Flatten, CellText;
    WriteHeader(w, t.names, t.types, |t.rows|);
    ghost var start := w.out;
    ghost var texts := RowTexts(t.rows, NIL_TEXT);
    NothingYet(texts);
    for r := 0 to |t.rows|
      invariant w.out == start + Strings(Flatten(texts[..r]))
    {
      ghost var before := w.out;
      NothingYet(texts[r]);
      for c := 0 to |t.rows[r]|
        invariant w.out == before + Strings(texts[r][..c])
      {
        assert CellSendable(t.rows[r][c]);
        WriteString(w, CellText(t.rows[r][c], NIL_TEXT));
        CellStep(texts[r], c);
      }
      LineStep(texts, r);
    }
    w.WriteByte(END_OF_STREAM);
  }

  // ---- A client reading a block back ----

  function ReadStrings(n: nat, b: bytes): Reading<seq<bytes>>
  {
    if n == 0 then Got([], b)
    else match StringReading(b)
      case Failed(e, rest) => Failed(e, rest)
      case Got(s, rest) =>
        match ReadStrings(n - 1, rest)
        case Failed(e, rest') => Failed(e, rest')
        case Got(ss, rest') => Got([s] + ss, rest')
  }

  function SkipVarInts(n: nat, b: bytes): Reading<()>
  {
    if n == 0 then Got((), b)
    else match VarIntReading(b)
      case Failed(e, rest) => Failed(e, rest)
      case Got(_, rest) => SkipVarInts(n - 1, rest)
  }

  /** Cuts a list into the given number of pieces of the given length. */
  function Chunks<T>(xs: seq<T>, count: nat, length: nat): (chunks: seq<seq<T>>)
    requires |xs| == count * length
  {
    if count == 0 then []
    else
      assert |xs| - length == (count - 1) * length;
      [xs[..length]] + Chunks(xs[length..], count - 1, length)
  }

  datatype Received = Received(names: seq<bytes>, types: seq<bytes>, cells: seq<bytes>, height: nat)

  function ReadCounts(b: bytes): Reading<(nat, nat)>
  {
    match VarIntReading(b)
    case Failed(e, rest) => Failed(e, rest)
    case Got(width, rest) =>
      match VarIntReading(rest)
      case Failed(e, rest') => Failed(e, rest')
      case Got(height, rest') => Got((width, height), rest')
  }

  /** What follows the two counts: names, types, serialization flags, cells, end of stream. */
  function ReadBody(width: nat, height: nat, b: bytes): Option<(Received, bytes)>
  {
    var names := ReadStrings(width, b);
    if names.Failed? then None else
    var types := ReadStrings(width, names.rest);
    if types.Failed? then None else
    var serialization := SkipVarInts(width, types.rest);
    if serialization.Failed? then None else
    var cells := ReadStrings(width * height, serialization.rest);
    if cells.Failed? || cells.rest == [] || cells.rest[0] != END_OF_STREAM then None else
    Some((Received(names.value, types.value, cells.value, height), cells.rest[1..]))
  }

  /** A block whose cells are listed column by column; None when the packets are not those of a block. */
  function ReadBlock(b: bytes): Option<(Received, bytes)>
  {
    if b == [] || b[0] != PROGRESS then None else
    var progress := SkipVarInts(3, b[1..]);
    if progress.Failed? || progress.rest == [] || progress.rest[0] != DATA then None else
    var counts := ReadCounts(progress.rest[1..]);
    if counts.Failed? then None else
    ReadBody(counts.value.0, counts.value.1, counts.rest)
  }

  lemma {:induction false} ReadStringsRoundTrip(ss: seq<bytes>, rest: bytes)
    requires forall i :: 0 <= i < |ss| ==> Sendable(ss[i])
    ensures ReadStrings(|ss|, Strings(ss) + rest) == Got(ss, rest)
  {
    hide StringReading, StringBytes;
    if ss == [] {
      assert Strings(ss) + rest == rest;
    } else {
      StringRoundTrip(ss[0], Strings(ss[1..]) + rest);
      ReadStringsRoundTrip(ss[1..], rest);
      assert [ss[0]] + ss[1..] == ss;
      assert Strings(ss) + rest == StringBytes(ss[0]) + (Strings(ss[1..]) + rest);
    }
  }

  lemma {:induction false} SkipZeros(n: nat, rest: bytes)
    ensures SkipVarInts(n, Zeros(n) + rest) == Got((), rest)
  {
    hide VarIntReading, VarIntBytes;
    if n == 0 {
      assert Zeros(0) + rest == rest;
    } else {
      VarIntRoundTrip(0, Zeros(n - 1) + rest);
      SkipZeros(n - 1, rest);
      assert Zeros(n) + rest == VarIntBytes(0) + (Zeros(n - 1) + rest);
    }
  }

  lemma ReadCountsRoundTrip(width: nat, height: nat, rest: bytes)
    requires width < U64 && height < U64
    ensures ReadCounts(VarIntBytes(width) + (VarIntBytes(height) + rest)) == Got((width, height), rest)
  {
    hide VarIntReading, VarIntBytes;
    VarIntRoundTrip(width, VarIntBytes(height) + rest);
    VarIntRoundTrip(height, rest);
  }

  /** Names, types and the cell list survive, whatever follows the block. */
  lemma BlockRoundTrip(names: seq<bytes>, types: seq<bytes>, height: nat, cells: seq<bytes>, rest: bytes)
    requires |names| == |types| < U64 && height < U64 && |cells| == |names| * height
    requires forall i :: 0 <= i < |names| ==> Sendable(names[i]) && Sendable(types[i])
    requires forall i :: 0 <= i < |cells| ==> Sendable(cells[i])
    ensures ReadBlock(Block(names, types, height, cells) + rest)
         == Some((Received(names, types, cells, height), rest))
  {
    hide VarIntBytes, VarIntReading, Strings, Zeros, ReadStrings, SkipVarInts, ReadCounts;
    var afterCells := [END_OF_STREAM] + rest;
    var afterZeros := Strings(cells) + afterCells;
    var afterTypes := Zeros(|names|) + afterZeros;
    var afterNames := Strings(types) + afterTypes;
    var afterCounts := Strings(names) + afterNames;
    var afterData := VarIntBytes(|names|) + (VarIntBytes(height) + afterCounts);
    var afterProgress := [DATA] + afterData;
    var b := Block(names, types, height, cells) + rest;
    ThreeZeros();
    assert b == [PROGRESS] + (Zeros(3) + afterProgress);
    SkipZeros(3, afterProgress);
    ReadCountsRoundTrip(|names|, height, afterCounts);
    ReadStringsRoundTrip(names, afterNames);
    ReadStringsRoundTrip(types, afterTypes);
    SkipZeros(|names|, afterZeros);
    ReadStringsRoundTrip(cells, afterCells);
    assert b[1..] == Zeros(3) + afterProgress;
    assert afterProgress[1..] == afterData;
    assert afterCells[1..] == rest;
  }

  lemma ThreeZeros()
    ensures Zeros(3) == VarIntBytes(0) + VarIntBytes(0) + VarIntBytes(0)
  {
    assert Zeros(2) == VarIntBytes(0) + Zeros(1);
    assert Zeros(1) == VarIntBytes(0) + Zeros(0);
  }

  lemma {:induction false} FlattenChunks<T>(xss: seq<seq<T>>, length: nat)
    requires forall i :: 0 <= i < |xss| ==> |xss[i]| == length
    ensures |Flatten(xss)| == |xss| * length
    ensures Chunks(Flatten(xss), |xss|, length) == xss
  {
    if xss == [] {
    } else {
      FlattenChunks(xss[1..], length);
      assert |xss| * length == length + (|xss| - 1) * length;
      assert Flatten(xss)[..length] == xss[0] && Flatten(xss)[length..] == Flatten(xss[1..]);
    }
  }

  lemma {:induction false} FlattenMember<T>(xss: seq<seq<T>>, x: T)
    requires x in Flatten(xss)
    ensures exists i, j :: 0 <= i < |xss| && 0 <= j < |xss[i]| && xss[i][j] == x
  {
    if x in xss[0] {
      var j :| 0 <= j < |xss[0]| && xss[0][j] == x;
    } else {
      FlattenMember(xss[1..], x);
      var i, j :| 0 <= i < |xss[1..]| && 0 <= j < |xss[1..][i]| && xss[1..][i][j] == x;
      assert xss[i + 1][j] == x;
    }
  }

  /**
   * The block of sendNativeData reads back as the same names, the same types, and the same
   * grid: cell r of column c is cell c of row r, null read as the empty string.
   */
  lemma DataRoundTrip(t: Table, rest: bytes)
    requires Rectangular(t)
    ensures ReadBlock(ColumnBlock(t) + rest).Some?
    ensures
      var (got, after) := ReadBlock(ColumnBlock(t) + rest).value;
      && after == rest && got.names == t.names && got.types == t.types && got.height == |t.rows|
      && |got.cells| == |t.names| * |t.rows|
      && forall c, r :: 0 <= c < |t.names| && 0 <= r < |t.rows| ==>
           |Chunks(got.cells, |t.names|, |t.rows|)| == |t.names|
           && |Chunks(got.cells, |t.names|, |t.rows|)[c]| == |t.rows|
           && Chunks(got.cells, |t.names|, |t.rows|)[c][r] == CellText(t.rows[r][c], [])
  {
    hide ReadBlock, Block;
    var columns := Transpose(RowTexts(t.rows, []), |t.names|);
    var cells := Flatten(columns);
    FlattenChunks(columns, |t.rows|);
    forall i | 0 <= i < |cells|
      ensures Sendable(cells[i])
    {
      FlattenMember(columns, cells[i]);
      var c, r :| 0 <= c < |columns| && 0 <= r < |columns[c]| && columns[c][r] == cells[i];
      assert CellSendable(t.rows[r][c]);
    }
    BlockRoundTrip(t.names, t.types, |t.rows|, cells, rest);
  }

  /** The block of sendNativeResponse reads back row by row, null as Go prints it. */
  lemma ResponseRoundTrip(t: Table, rest: bytes)
    requires Rectangular(t)
    ensures ReadBlock(RowBlock(t) + rest).Some?
    ensures
      var (got, after) := ReadBlock(RowBlock(t) + rest).value;
      && after == rest && got.names == t.names && got.types == t.types && got.height == |t.rows|
      && |got.cells| == |t.rows| * |t.names|
      && forall r, c :: 0 <= r < |t.rows| && 0 <= c < |t.names| ==>
           |Chunks(got.cells, |t.rows|, |t.names|)| == |t.rows|
           && |Chunks(got.cells, |t.rows|, |t.names|)[r]| == |t.names|
           && Chunks(got.cells, |t.rows|, |t.names|)[r][c] == CellText(t.rows[r][c], NIL_TEXT)
  {
    hide ReadBlock, Block;
    var rows := RowTexts(t.rows, NIL_TEXT);
    var cells := Flatten(rows);
    FlattenChunks(rows, |t.names|);
    forall i | 0 <= i < |cells|
      ensures Sendable(cells[i])
    {
      FlattenMember(rows, cells[i]);
      var r, c :| 0 <= r < |rows| && 0 <= c < |rows[r]| && rows[r][c] == cells[i];
      assert CellSendable(t.rows[r][c]);
    }
    assert |t.rows| * |t.names| == |t.names| * |t.rows|;
    BlockRoundTrip(t.names, t.types, |t.rows|, cells, rest);
  }

  /** An exception as a client reads it: code, message, two more texts, whether another follows. */
  function ReadException(b: bytes): Option<(nat, bytes, bytes)>
  {
    if b == [] || b[0] != EXCEPTION then None else
    var code := FixedReading(4, b[1..]);
    if code.Failed? then None else
    var texts := ReadStrings(3, code.rest);
    if texts.Failed? || |texts.value| != 3 || |texts.rest| < 2 || texts.rest[0] != 0 || texts.rest[1] != END_OF_STREAM then None else
    Some((code.value, texts.value[0], texts.rest[2..]))
  }

  lemma ThreeStrings(message: bytes)
    ensures Strings([message, [], []]) == StringBytes(message) + StringBytes([]) + StringBytes([])
  {
    hide StringBytes;
    var none: bytes := [];
    assert [message, none, none][1..] == [none, none] && [none, none][1..] == [none] && [none][1..] == [];
    assert Strings([none]) == StringBytes(none) + [];
  }

  /** An exception reads back with its message, code 0, and exactly the following bytes left. */
  lemma ErrorRoundTrip(message: bytes, rest: bytes)
    requires Sendable(message)
    ensures ReadException(ExceptionPacket(message) + rest) == Some((0, message, rest))
  {
    hide StringBytes, ReadStrings, Strings, FixedReading, PutLE;
    var b := ExceptionPacket(message) + rest;
    var after := [0, END_OF_STREAM] + rest;
    var texts := Strings([message, [], []]) + after;
    ThreeStrings(message);
    assert b == [EXCEPTION] + (PutLE(4, 0) + texts);
    assert b[1..] == PutLE(4, 0) + texts;
    assert 0 < Pow256(4);
    FixedRoundTrip(4, 0, texts);
    ReadStringsRoundTrip([message, [], []], after);
    assert after[2..] == rest;
  }

  // ---- Where the two senders agree ----

  ghost predicate Grid<T>(rows: seq<seq<T>>, height: nat, width: nat)
  {
    |rows| == height && forall r :: 0 <= r < |rows| ==> |rows[r]| == width
  }

  lemma {:induction false} FlattenSingletons<T>(xss: seq<seq<T>>, xs: seq<T>)
    requires |xss| == |xs|
    requires forall i :: 0 <= i < |xss| ==> xss[i] == [xs[i]]
    ensures Flatten(xss) == xs
  {
    if xss == [] {
    } else {
      FlattenSingletons(xss[1..], xs[1..]);
      assert xs == [xs[0]] + xs[1..];
    }
  }

  lemma {:induction false} FlattenEmpty<T>(xss: seq<seq<T>>)
    requires forall i :: 0 <= i < |xss| ==> xss[i] == []
    ensures Flatten(xss) == []
  {
    if xss != [] {
      FlattenEmpty(xss[1..]);
    }
  }

  lemma ThinGridsAgree<T>(rows: seq<seq<T>>, height: nat, width: nat)
    requires Grid(rows, height, width) && (height <= 1 || width <= 1)
    ensures Flatten(rows) == Flatten(Transpose(rows, width))
  {
    var columns := Transpose(rows, width);
    if height == 0 {
      FlattenEmpty(columns);
    } else if width == 0 {
      FlattenEmpty(rows);
    } else if height == 1 {
      assert Flatten(rows) == rows[0] + Flatten(rows[1..]);
      FlattenSingletons(columns, rows[0]);
    } else {
      assert Flatten(columns) == columns[0] + Flatten(columns[1..]);
      FlattenSingletons(rows, columns[0]);
    }
  }

  /** A grid that is empty except for the second cell of its first row. */
  function Marked(height: nat, width: nat): (rows: seq<seq<bytes>>)
    requires height >= 2 && width >= 2
    ensures Grid(rows, height, width)
    ensures rows[0][1] == [0] && rows[1][0] == []
  {
    seq(height, r => seq(width, c => if r == 0 && c == 1 then [0] else []))
  }

  lemma WideGridsDisagree(height: nat, width: nat)
    requires height >= 2 && width >= 2
    ensures Flatten(Marked(height, width)) != Flatten(Transpose(Marked(height, width), width))
  {
    var rows := Marked(height, width);
    var columns := Transpose(rows, width);
    assert Flatten(rows)[1] == rows[0][1];
    assert Flatten(columns)[1] == columns[0][1];
  }

  lemma StringsInjective(a: seq<bytes>, b: seq<bytes>)
    requires |a| == |b| && Strings(a) == Strings(b)
    requires forall i :: 0 <= i < |a| ==> Sendable(a[i]) && Sendable(b[i])
    ensures a == b
  {
    ReadStringsRoundTrip(a, []);
    ReadStringsRoundTrip(b, []);
  }

  ghost predicate SendersAgreeOn(rows: seq<seq<bytes>>, width: nat)
    requires forall r :: 0 <= r < |rows| ==> |rows[r]| == width
  {
    Strings(Flatten(rows)) == Strings(Flatten(Transpose(rows, width)))
  }

  lemma MarkedIsSendable(height: nat, width: nat)
    requires height >= 2 && width >= 2
    ensures var rows := Marked(height, width);
      && |Flatten(rows)| == |Flatten(Transpose(rows, width))|
      && (forall i :: 0 <= i < |Flatten(rows)| ==> Sendable(Flatten(rows)[i]))
      && (forall i :: 0 <= i < |Flatten(Transpose(rows, width))| ==> Sendable(Flatten(Transpose(rows, width))[i]))
  {
    var rows := Marked(height, width);
    var columns := Transpose(rows, width);
    FlattenChunks(rows, width);
    FlattenChunks(columns, height);
    forall x | x in Flatten(rows)
      ensures Sendable(x)
    {
      FlattenMember(rows, x);
    }
    forall x | x in Flatten(columns)
      ensures Sendable(x)
    {
      FlattenMember(columns, x);
      var c, r :| 0 <= c < |columns| && 0 <= r < |columns[c]| && columns[c][r] == x;
      assert x == rows[r][c];
    }
  }

  /**
   * The row-by-row sender's comment promises columns. Over null-free tables it keeps that
   * promise exactly on the shapes with at most one row or at most one column.
   */
  lemma SendersAgreeExactlyOnThinShapes(height: nat, width: nat)
    ensures (forall rows: seq<seq<bytes>> | Grid(rows, height, width) :: SendersAgreeOn(rows, width))
       <==> (height <= 1 || width <= 1)
  {
    if height <= 1 || width <= 1 {
      forall rows: seq<seq<bytes>> | Grid(rows, height, width)
        ensures SendersAgreeOn(rows, width)
      {
        ThinGridsAgree(rows, height, width);
      }
    } else {
      var rows := Marked(height, width);
      WideGridsDisagree(height, width);
      MarkedIsSendable(height, width);
      if SendersAgreeOn(rows, width) {
        StringsInjective(Flatten(rows), Flatten(Transpose(rows, width)));
      }
      assert !SendersAgreeOn(rows, width);
    }
  }

  predicate NullFree(t: Table)
    requires Rectangular(t)
  {
    forall r, c :: 0 <= r < |t.rows| && 0 <= c < |t.names| ==> t.rows[r][c].Some?
  }

  /** The printed cells agree exactly where no cell is null: null is printed in two ways. */
  lemma TextsAgreeExactly(t: Table)
    requires Rectangular(t)
    ensures RowTexts(t.rows, NIL_TEXT) == RowTexts(t.rows, []) <==> NullFree(t)
  {
    var a, b := RowTexts(t.rows, NIL_TEXT), RowTexts(t.rows, []);
    if NullFree(t) {
      forall r | 0 <= r < |a|
        ensures a[r] == b[r]
      {
      }
    } else {
      var r, c :| 0 <= r < |t.rows| && 0 <= c < |t.names| && t.rows[r][c].None?;
      assert a[r][c] == NIL_TEXT != b[r][c];
    }
  }

  lemma SendableCells(t: Table, nil: bytes)
    requires Rectangular(t) && Sendable(nil)
    ensures var cells := Flatten(RowTexts(t.rows, nil));
      |cells| == |t.rows| * |t.names| && forall i :: 0 <= i < |cells| ==> Sendable(cells[i])
  {
    hide Sendable;
    var texts := RowTexts(t.rows, nil);
    FlattenChunks(texts, |t.names|);
    forall x | x in Flatten(texts)
      ensures Sendable(x)
    {
      FlattenMember(texts, x);
      var r, c :| 0 <= r < |texts| && 0 <= c < |texts[r]| && texts[r][c] == x;
      assert CellSendable(t.rows[r][c]);
    }
  }

  /** Equal blocks of one shape hold equal cells. */
  lemma BlocksInjective(names: seq<bytes>, types: seq<bytes>, height: nat, a: seq<bytes>, b: seq<bytes>)
    requires |a| == |b| && forall i :: 0 <= i < |a| ==> Sendable(a[i]) && Sendable(b[i])
    ensures Block(names, types, height, a) == Block(names, types, height, b) ==> a == b
  {
    hide Header, Strings, Sendable;
    var x, y := Block(names, types, height, a), Block(names, types, height, b);
    var h := |Header(names, types, height)|;
    assert x[h..] == Strings(a) + [END_OF_STREAM] && y[h..] == Strings(b) + [END_OF_STREAM];
    if x == y {
      assert Strings(a) == x[h..][..|x| - h - 1] && Strings(b) == y[h..][..|y| - h - 1];
      StringsInjective(a, b);
    }
  }

  /** On those shapes the two senders print the same packets exactly when no cell is null. */
  lemma ThinTablesExactly(t: Table)
    requires Rectangular(t) && (|t.rows| <= 1 || |t.names| <= 1)
    ensures RowBlock(t) == ColumnBlock(t) <==> NullFree(t)
  {
    hide Block, Flatten, Sendable, RowTexts, NullFree;
    var a, b := RowTexts(t.rows, NIL_TEXT), RowTexts(t.rows, []);
    TextsAgreeExactly(t);
    TextShapes(t);
    ThinGridsAgree(b, |t.rows|, |t.names|);
    FlattenChunks(a, |t.names|);
    FlattenChunks(b, |t.names|);
    NilTexts();
    SendableCells(t, NIL_TEXT);
    SendableCells(t, []);
    BlocksInjective(t.names, t.types, |t.rows|, Flatten(a), Flatten(b));
  }

  lemma NilTexts()
    ensures Sendable(NIL_TEXT) && Sendable([])
  {
  }

  lemma TextShapes(t: Table)
    requires Rectangular(t)
    ensures Grid(RowTexts(t.rows, NIL_TEXT), |t.rows|, |t.names|) && Grid(RowTexts(t.rows, []), |t.rows|, |t.names|)
  {
  }
}

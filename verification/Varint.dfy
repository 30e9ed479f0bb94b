/**
 * The variable-length integers, strings and fixed-width integers of the ClickHouse native
 * protocol (pkg/chproto/varint.go): the reading and writing loops, a specification that speaks
 * only about the bytes, and the round trips between the two.
 */
module Varint {
  import opened Wrappers
  import opened Bytes

  datatype ReadError = EOF | UnexpectedEOF

  /** What a reader returns, together with the bytes it leaves unread. */
  datatype Reading<+T> = Got(value: T, rest: bytes) | Failed(error: ReadError, rest: bytes)

  class ByteSource {
    const data: bytes
    var pos: nat

    ghost predicate Valid()
      reads this
    {
      pos <= |data|
    }

    ghost function Rest(): bytes
      requires Valid()
      reads this
    {
      data[pos..]
    }

    constructor (data: bytes)
      ensures Valid() && Rest() == data
    {
      this.data := data;
      pos := 0;
    }

    method ReadByte() returns (b: Result<byte, ReadError>)
      requires Valid()
      modifies this
      ensures Valid()
      ensures if old(Rest()) == [] then b == Err(EOF) && Rest() == []
              else b == Ok(old(Rest())[0]) && Rest() == old(Rest())[1..]
    {
      if pos < |data| {
        b := Ok(data[pos]);
        pos := pos + 1;
      } else {
        b := Err(EOF);
      }
    }
  }

  class ByteSink {
    var out: bytes

    constructor ()
      ensures out == []
    {
      out := [];
    }

    method WriteByte(b: byte)
      modifies this
      ensures out == old(out) + [b]
    {
      out := out + [b];
    }
  }

  // ---- Specification ----

  /** The number of leading bytes whose continuation bit is set. */
  function Continued(b: bytes): (k: nat)
    ensures k <= |b|
    ensures forall i :: 0 <= i < k ==> b[i] >= 128
    ensures k < |b| ==> b[k] < 128
  {
    if b == [] || b[0] < 128 then 0 else 1 + Continued(b[1..])
  }

  /** The seven data bits of a byte: b & 0x7F. */
  function Data(b: byte): (d: nat)
    ensures d < 128
  {
    if b < 128 then b else b - 128
  }

  /** Seven bits a byte, least significant group first. */
  function Base128(b: bytes): nat
  {
    if b == [] then 0 else Data(b[0]) + 128 * Base128(b[1..])
  }

  function VarIntReading(b: bytes): Reading<nat>
  {
    var k := Continued(b);
    if k >= 10 then Failed(UnexpectedEOF, b[10..])
    else if k == |b| then Failed(EOF, [])
    else Got(Wrap64(Base128(b[..k + 1])), b[k + 1..])
  }

  function VarIntBytes(v: nat): (b: bytes)
    ensures |b| >= 1
  {
    if v < 128 then [v] else [128 + v % 128] + VarIntBytes(v / 128)
  }

  function StringReading(b: bytes): Reading<bytes>
  {
    match VarIntReading(b)
    case Failed(e, rest) => Failed(e, rest)
    case Got(n, rest) => if |rest| < n then Failed(EOF, []) else Got(rest[..n], rest[n..])
  }

  function StringBytes(s: bytes): bytes
  {
    VarIntBytes(|s|) + s
  }

  function FixedReading(n: nat, b: bytes): Reading<nat>
  {
    if |b| < n then Failed(EOF, []) else Got(GetLE(b[..n]), b[n..])
  }

  // ---- The loops ----

  lemma {:induction false} Base128Snoc(b: bytes, x: byte)
    ensures Base128(b + [x]) == Base128(b) + Data(x) * Pow2(7 * |b|)
  {
    if b == [] {
      assert b + [x] == [x];
      assert Base128([x]) == Data(x) + 128 * Base128([x][1..]);
    } else {
      Base128Snoc(b[1..], x);
      assert (b + [x])[1..] == b[1..] + [x];
      NextGroup(Data(x), |b| - 1);
    }
  }

  lemma Groups()
    ensures Pow2(7) == 128
  {
  }

  lemma NextGroup(d: nat, n: nat)
    ensures d * Pow2(7 * (n + 1)) == 128 * (d * Pow2(7 * n))
  {
    hide Pow2;
    Pow2Add(7, 7 * n);
    Groups();
    assert d * (128 * Pow2(7 * n)) == 128 * (d * Pow2(7 * n));
  }

  lemma {:induction false} Base128Bound(b: bytes)
    ensures Base128(b) < Pow2(7 * |b|)
  {
    if b == [] {
    } else {
      Base128Bound(b[1..]);
      assert Pow2(7 * |b|) == 128 * Pow2(7 * |b[1..]|) by { Pow2Add(7, 7 * |b[1..]|); }
    }
  }

  /** Nine groups fit a 64-bit word with a bit to spare. */
  lemma Base128Fits(b: bytes)
    requires |b| <= 9
    ensures Base128(b) < Pow2(63) < U64
  {
    Base128Bound(b);
    Pow2Monotone(7 * |b|, 63);
    Pow2Add(63, 1);
    Widths();
  }

  lemma OrWord(n: nat, d: nat, k: nat)
    requires n < Pow2(k) && n + d * Pow2(k) < U64
    ensures Or(n, Wrap64(d * Pow2(k))) == Wrap64(n + d * Pow2(k))
  {
    OrDisjoint(n, d, k);
  }

  lemma HalfWord(d: nat)
    ensures 2 * Pow2(63) == U64
    ensures d * Pow2(63) == (d / 2) * U64 + (d % 2) * Pow2(63)
  {
    Pow2Add(1, 63);
    Widths();
    var half, q, r := Pow2(63), d / 2, d % 2;
    assert d * half == q * (2 * half) + r * half;
  }

  /** The tenth group is shifted by 63 places: only its lowest bit survives. */
  lemma OrWordLast(n: nat, d: nat, k: nat)
    requires k == 63 && n < Pow2(k)
    ensures Or(n, Wrap64(d * Pow2(k))) == Wrap64(n + d * Pow2(k))
  {
    hide Or, Pow2, Wrap64;
    HalfWord(d);
    var r := if d % 2 == 0 then 0 else Pow2(k);
    assert r == (d % 2) * Pow2(k);
    Wrap64Multiple(d / 2, r);
    Wrap64Multiple(d / 2, n + r);
    OrDisjoint(n, d % 2, k);
  }

  /** One turn of the reading loop: shifting a group in and or-ing it is adding its digit modulo 2^64. */
  lemma OrShift(b: bytes, x: byte)
    requires |b| <= 9
    ensures Or(Base128(b), Wrap64(Data(x) * Pow2(7 * |b|))) == Wrap64(Base128(b + [x]))
  {
    hide *;
    Base128Snoc(b, x);
    Base128Bound(b);
    if |b| < 9 {
      Base128Fits(b + [x]);
      OrWord(Base128(b), Data(x), 7 * |b|);
    } else {
      OrWordLast(Base128(b), Data(x), 7 * |b|);
    }
  }

  lemma NoGroups()
    ensures Base128([]) == 0
  {
  }

  method ReadVarInt(r: ByteSource) returns (v: Result<nat, ReadError>)
    requires r.Valid()
    modifies r
    ensures r.Valid()
    ensures match VarIntReading(old(r.Rest()))
            case Got(x, rest) => v == Ok(x) && r.Rest() == rest
            case Failed(e, rest) => v == Err(e) && r.Rest() == rest
  {
    hide Base128, Wrap64, Or, Pow2, Continued;
    ghost var b := r.Rest();
    var result, shift: nat := 0, 0;
    var i := 0;
    NoGroups();
    assert b[..0] == [];
    while i < 10
      invariant r.Valid() && 0 <= i <= 10 && shift == 7 * i
      invariant i <= Continued(b) && r.Rest() == b[i..]
      invariant i < 10 ==> result == Base128(b[..i])
    {
      var x := r.ReadByte();
      if x.Err? {
        return Err(x.error);
      }
      assert b[..i + 1] == b[..i] + [x.value];
      OrShift(b[..i], x.value);
      result := Or(result, Wrap64(Data(x.value) * Pow2(shift)));
      if x.value < 128 {
        return Ok(result);
      }
      if i < 9 {
        Base128Fits(b[..i + 1]);
      }
      shift := shift + 7;
      i := i + 1;
    }
    return Err(UnexpectedEOF);
  }

  method WriteVarInt(w: ByteSink, v: nat)
    requires v < U64
    modifies w
    ensures w.out == old(w.out) + VarIntBytes(v)
  {
    var x := v;
    while x >= 128
      invariant w.out + VarIntBytes(x) == old(w.out) + VarIntBytes(v)
    {
      w.WriteByte(128 + x % 128);
      x := x / 128;
    }
    w.WriteByte(x);
  }

  method ReadString(r: ByteSource) returns (s: Result<bytes, ReadError>)
    requires r.Valid()
    modifies r
    ensures r.Valid()
    ensures match StringReading(old(r.Rest()))
            case Got(x, rest) => s == Ok(x) && r.Rest() == rest
            case Failed(e, rest) => s == Err(e) && r.Rest() == rest
  {
    var length := ReadVarInt(r);
    if length.Err? {
      return Err(length.error);
    }
    ghost var b := r.Rest();
    var buf := new byte[length.value];
    var i := 0;
    while i < length.value
      invariant r.Valid() && 0 <= i <= length.value && i <= |b|
      invariant r.Rest() == b[i..] && buf[..i] == b[..i]
    {
      var x := r.ReadByte();
      if x.Err? {
        return Err(x.error);
      }
      buf[i] := x.value;
      assert b[..i + 1] == b[..i] + [x.value] && buf[..i + 1] == buf[..i] + [x.value];
      i := i + 1;
    }
    assert buf[..] == buf[..i];
    return Ok(buf[..]);
  }

  method WriteString(w: ByteSink, s: bytes)
    requires |s| < U64
    modifies w
    ensures w.out == old(w.out) + StringBytes(s)
  {
    WriteVarInt(w, |s|);
    ghost var start := w.out;
    for i := 0 to |s|
      invariant w.out == start + s[..i]
    {
      w.WriteByte(s[i]);
    }
    assert s[..|s|] == s;
  }

  /** ReadFixedUint32 (n = 4) and ReadFixedUint64 (n = 8): fill a buffer, then decode it. */
  method ReadFixed(r: ByteSource, n: nat) returns (v: Result<nat, ReadError>)
    requires r.Valid()
    modifies r
    ensures r.Valid()
    ensures match FixedReading(n, old(r.Rest()))
            case Got(x, rest) => v == Ok(x) && r.Rest() == rest
            case Failed(e, rest) => v == Err(e) && r.Rest() == rest
  {
    ghost var b := r.Rest();
    var buf := new byte[n];
    var i := 0;
    while i < n
      invariant r.Valid() && 0 <= i <= n && i <= |b|
      invariant r.Rest() == b[i..] && buf[..i] == b[..i]
    {
      var x := r.ReadByte();
      if x.Err? {
        return Err(x.error);
      }
      buf[i] := x.value;
      assert b[..i + 1] == b[..i] + [x.value] && buf[..i + 1] == buf[..i] + [x.value];
      i := i + 1;
    }
    assert buf[..] == b[..n];
    return Ok(GetLE(buf[..]));
  }

  /** WriteFixedUint32 (n = 4) and WriteFixedUint64 (n = 8). */
  method WriteFixed(w: ByteSink, n: nat, v: nat)
    requires v < Pow256(n)
    modifies w
    ensures w.out == old(w.out) + PutLE(n, v)
  {
    var buf := PutLE(n, v);
    for i := 0 to n
      invariant w.out == old(w.out) + buf[..i]
    {
      w.WriteByte(buf[i]);
    }
    assert buf[..n] == buf;
  }

  // ---- Round trips ----

  lemma Cons(x: byte, b: bytes)
    ensures Base128([x] + b) == Data(x) + 128 * Base128(b)
    ensures Continued([x] + b) == if x < 128 then 0 else 1 + Continued(b)
  {
    assert ([x] + b)[1..] == b;
  }

  lemma {:induction false} VarIntShape(v: nat, rest: bytes)
    ensures Continued(VarIntBytes(v) + rest) == |VarIntBytes(v)| - 1
    ensures Base128(VarIntBytes(v)) == v
  {
    if v < 128 {
      Cons(v, []);
      Cons(v, rest);
      assert [v] + [] == [v];
    } else {
      var low, high := 128 + v % 128, v / 128;
      VarIntShape(high, rest);
      Cons(low, VarIntBytes(high));
      Cons(low, VarIntBytes(high) + rest);
      assert VarIntBytes(v) + rest == [low] + (VarIntBytes(high) + rest);
    }
  }

  /** The number of bytes is the least k with v < 2^(7k), and at most ten for a 64-bit value. */
  lemma {:induction false} VarIntMinimal(v: nat)
    ensures v < Pow2(7 * |VarIntBytes(v)|)
    ensures |VarIntBytes(v)| > 1 ==> v >= Pow2(7 * (|VarIntBytes(v)| - 1))
    ensures v < U64 ==> |VarIntBytes(v)| <= 10
  {
    VarIntWidth(v);
    var k := |VarIntBytes(v)|;
    Widths();
    if 7 * (k - 1) >= 64 {
      Pow2Monotone(64, 7 * (k - 1));
    }
  }

  lemma {:induction false} VarIntWidth(v: nat)
    ensures v < Pow2(7 * |VarIntBytes(v)|)
    ensures |VarIntBytes(v)| > 1 ==> v >= Pow2(7 * (|VarIntBytes(v)| - 1))
  {
    assert Pow2(7) == 128;
    if v < 128 {
    } else {
      VarIntWidth(v / 128);
      var k := |VarIntBytes(v / 128)|;
      Pow2Add(7, 7 * k);
      Pow2Add(7, 7 * (k - 1));
      assert 7 + 7 * k == 7 * (k + 1) && 7 + 7 * (k - 1) == 7 * k;
    }
  }

  /** Reading what was written returns the value and leaves exactly the bytes that follow. */
  lemma VarIntRoundTrip(v: nat, rest: bytes)
    requires v < U64
    ensures VarIntReading(VarIntBytes(v) + rest) == Got(v, rest)
  {
    VarIntShape(v, rest);
    VarIntMinimal(v);
    var b := VarIntBytes(v);
    assert (b + rest)[..|b|] == b && (b + rest)[|b|..] == rest;
  }

  /** No encoding is a proper prefix of another: a stream of values has one reading. */
  lemma VarIntPrefixFree(u: nat, v: nat, afterU: bytes, afterV: bytes)
    requires u < U64 && v < U64
    requires VarIntBytes(u) + afterU == VarIntBytes(v) + afterV
    ensures u == v && afterU == afterV
  {
    VarIntRoundTrip(u, afterU);
    VarIntRoundTrip(v, afterV);
  }

  lemma StringRoundTrip(s: bytes, rest: bytes)
    requires |s| < U64
    ensures StringReading(StringBytes(s) + rest) == Got(s, rest)
  {
    VarIntRoundTrip(|s|, s + rest);
    assert StringBytes(s) + rest == VarIntBytes(|s|) + (s + rest);
    assert (s + rest)[..|s|] == s && (s + rest)[|s|..] == rest;
  }

  lemma FixedRoundTrip(n: nat, v: nat, rest: bytes)
    requires v < Pow256(n)
    ensures FixedReading(n, PutLE(n, v) + rest) == Got(v, rest)
  {
    LERoundTrip(n, v);
    assert (PutLE(n, v) + rest)[..n] == PutLE(n, v) && (PutLE(n, v) + rest)[n..] == rest;
  }

  /**
   * On any input whose first terminator is among the first ten bytes the reader returns the
   * base-128 sum modulo 2^64, whether or not a writer produced it.
   */
  lemma ArbitraryInput(b: bytes, k: nat)
    requires k < |b| && k < 10 && b[k] < 128
    requires forall i :: 0 <= i < k ==> b[i] >= 128
    ensures VarIntReading(b) == Got(Wrap64(Base128(b[..k + 1])), b[k + 1..])
  {
    var c := Continued(b);
    assert b[k] < 128;
    assert c == k;
  }

  /**
   * Input without a terminator: fewer than ten bytes are the end of the data, the tenth byte
   * with its continuation bit set is an error that leaves exactly the bytes after it.
   */
  lemma BrokenInput(b: bytes)
    ensures |b| < 10 && (forall i :: 0 <= i < |b| ==> b[i] >= 128) ==> VarIntReading(b) == Failed(EOF, [])
    ensures |b| >= 10 && (forall i :: 0 <= i < 10 ==> b[i] >= 128) ==> VarIntReading(b) == Failed(UnexpectedEOF, b[10..])
  {
    var c := Continued(b);
    assert c < |b| ==> b[c] < 128;
  }

  /** A string cut anywhere is the end of the data: no proper prefix of its bytes is read as a string. */
  lemma CutString(s: bytes, k: nat)
    requires |s| < U64 && k < |StringBytes(s)|
    ensures StringReading(StringBytes(s)[..k]) == Failed(EOF, [])
  {
    hide VarIntReading, VarIntBytes;
    var length := VarIntBytes(|s|);
    var b := StringBytes(s)[..k];
    if k < |length| {
      assert b == length[..k];
      CutVarInt(|s|, k);
    } else {
      assert b == length + s[..k - |length|];
      VarIntRoundTrip(|s|, s[..k - |length|]);
    }
  }

  lemma CutVarInt(v: nat, k: nat)
    requires v < U64 && k < |VarIntBytes(v)|
    ensures VarIntReading(VarIntBytes(v)[..k]) == Failed(EOF, [])
  {
    hide VarIntReading;
    VarIntMinimal(v);
    AllContinued(v);
    BrokenInput(VarIntBytes(v)[..k]);
  }

  lemma {:induction false} AllContinued(v: nat)
    ensures forall i :: 0 <= i < |VarIntBytes(v)| - 1 ==> VarIntBytes(v)[i] >= 128
  {
    if v >= 128 { AllContinued(v / 128); }
  }
}

/** Bytes, powers of two and the fixed-width integers both wire protocols share. */
module Bytes {

  type byte = x: int | 0 <= x < 256
  type bytes = seq<byte>

  function Pow2(n: nat): (p: nat)
    ensures p >= 1
  {
    if n == 0 then 1 else 2 * Pow2(n - 1)
  }

  lemma {:induction false} Pow2Add(m: nat, n: nat)
    ensures Pow2(m + n) == Pow2(m) * Pow2(n)
  {
    if m == 0 {
    } else {
      Pow2Add(m - 1, n);
      assert Pow2(m + n) == 2 * Pow2(m - 1 + n);
    }
  }

  lemma Pow2Monotone(m: nat, n: nat)
    requires m <= n
    ensures Pow2(m) <= Pow2(n)
  {
    Pow2Add(m, n - m);
    assert Pow2(m) * Pow2(n - m) >= Pow2(m);
  }

  /** Bitwise or of two numbers of any width. */
  function Or(a: nat, b: nat): nat
    decreases a + b
  {
    if a == 0 then b
    else if b == 0 then a
    else 2 * Or(a / 2, b / 2) + (if a % 2 == 1 || b % 2 == 1 then 1 else 0)
  }

  /** A number below 2^k and a multiple of 2^k share no bit, so their bitwise or is their sum. */
  lemma {:induction false} OrDisjoint(a: nat, d: nat, k: nat)
    requires a < Pow2(k)
    ensures Or(a, d * Pow2(k)) == a + d * Pow2(k)
    decreases k
  {
    if k == 0 || a == 0 || d == 0 {
    } else {
      var half := d * Pow2(k - 1);
      assert d * Pow2(k) == 2 * half;
      assert half > 0;
      OrDisjoint(a / 2, d, k - 1);
    }
  }

  // ---- Big-endian and little-endian integers of n bytes ----

  function Pow256(n: nat): (p: nat)
    ensures p >= 1
  {
    if n == 0 then 1 else 256 * Pow256(n - 1)
  }

  function PutLE(n: nat, v: nat): (b: bytes)
    ensures |b| == n
  {
    if n == 0 then [] else [v % 256] + PutLE(n - 1, v / 256)
  }

  function GetLE(b: bytes): nat
  {
    if b == [] then 0 else b[0] + 256 * GetLE(b[1..])
  }

  function PutBE(n: nat, v: nat): (b: bytes)
    ensures |b| == n
  {
    if n == 0 then [] else PutBE(n - 1, v / 256) + [v % 256]
  }

  function GetBE(b: bytes): nat
  {
    if b == [] then 0 else 256 * GetBE(b[..|b| - 1]) + b[|b| - 1]
  }

  lemma {:induction false} LERoundTrip(n: nat, v: nat)
    requires v < Pow256(n)
    ensures GetLE(PutLE(n, v)) == v
  {
    if n == 0 {
    } else {
      LERoundTrip(n - 1, v / 256);
      assert PutLE(n, v)[1..] == PutLE(n - 1, v / 256);
    }
  }

  lemma {:induction false} BERoundTrip(n: nat, v: nat)
    requires v < Pow256(n)
    ensures GetBE(PutBE(n, v)) == v
  {
    if n == 0 {
    } else {
      BERoundTrip(n - 1, v / 256);
      assert PutBE(n, v)[..n - 1] == PutBE(n - 1, v / 256);
    }
  }

  lemma {:induction false} BEBound(b: bytes)
    ensures GetBE(b) < Pow256(|b|)
  {
    if b == [] {
    } else {
      BEBound(b[..|b| - 1]);
    }
  }

  /** The value an n-byte two's complement integer stands for. */
  function Signed(n: nat, u: nat): int
    requires n >= 1
  {
    if 2 * u < Pow256(n) then u else u - Pow256(n)
  }

  predicate Fits(n: nat, v: int)
  {
    -(Pow256(n) as int) <= 2 * v < Pow256(n)
  }

  /** The n-byte two's complement representation of v. */
  function Unsigned(n: nat, v: int): (u: nat)
    requires Fits(n, v)
    ensures u < Pow256(n)
    ensures n >= 1 ==> Signed(n, u) == v
  {
    if v < 0 then v + Pow256(n) else v
  }

  const U16: nat := 0x1_0000
  const U32: nat := 0x1_0000_0000
  const U64: nat := 0x1_0000_0000_0000_0000

  /** The value a 64-bit word holds after an operation whose exact result is x. */
  function Wrap64(x: nat): (r: nat)
    ensures r < U64
    ensures x < U64 ==> r == x
    decreases x
  {
    if x < U64 then x else Wrap64(x - U64)
  }

  lemma {:induction false} Wrap64Multiple(q: nat, e: nat)
    ensures Wrap64(q * U64 + e) == Wrap64(e)
  {
    if q == 0 {
    } else {
      Wrap64Multiple(q - 1, e);
      assert q * U64 + e - U64 == (q - 1) * U64 + e;
    }
  }

  lemma {:induction false} Wrap64IsModulo(x: nat)
    ensures Wrap64(x) == x % U64
  {
    if x < U64 {
    } else {
      Wrap64IsModulo(x - U64);
      assert x % U64 == (x - U64) % U64;
    }
  }

  lemma Widths()
    ensures Pow256(1) == 256 && Pow256(2) == U16 && Pow256(4) == U32 && Pow256(8) == U64
    ensures Pow2(64) == U64
  {
    assert Pow256(3) == 0x100_0000 && Pow256(5) == 0x100_0000_0000 && Pow256(6) == 0x1_0000_0000_0000
        && Pow256(7) == 0x100_0000_0000_0000;
    assert Pow2(8) == 256;
    assert Pow2(16) == 0x1_0000 by { Pow2Add(8, 8); }
    assert Pow2(32) == U32 by { Pow2Add(16, 16); }
    Pow2Add(32, 32);
  }
}

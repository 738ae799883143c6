/** Fixed-width integers of the firmware, and big-endian byte strings. */
module Bytes {

  type byte = x: int | 0 <= x < 0x100
  type u16 = x: int | 0 <= x < 0x1_0000
  type u32 = x: int | 0 <= x < 0x1_0000_0000
  type int64 = x: int | -0x8000_0000_0000_0000 <= x < 0x8000_0000_0000_0000

  datatype Option<+T> = None | Some(value: T)

  /** The n low-order base-256 digits of v (two's complement for negative v), most significant first. */
  function BigEndian(v: int, n: nat): (b: seq<byte>)
    ensures |b| == n
    decreases n
  {
    if n == 0 then [] else BigEndian(v / 0x100, n - 1) + [v % 0x100]
  }

  /** The unsigned value of a big-endian byte string. */
  function Unsigned(b: seq<byte>): (v: nat)
  {
    if b == [] then 0 else Unsigned(b[..|b| - 1]) * 0x100 + b[|b| - 1]
  }

  function Pow256(n: nat): (p: nat)
    ensures p >= 1
  {
    if n == 0 then 1 else 0x100 * Pow256(n - 1)
  }

  /** Reading n big-endian bytes back gives the value modulo 256^n. */
  lemma {:induction false} UnsignedBigEndian(v: int, n: nat)
    ensures Unsigned(BigEndian(v, n)) == v % Pow256(n)
    decreases n
  {
    if n > 0 {
      var b := BigEndian(v, n);
      assert b[..n - 1] == BigEndian(v / 0x100, n - 1);
      UnsignedBigEndian(v / 0x100, n - 1);
      DivModSplit(v, Pow256(n - 1));
    }
  }

  lemma DivModSplit(v: int, p: int)
    requires p >= 1
    ensures (v / 0x100) % p * 0x100 + v % 0x100 == v % (0x100 * p)
  {
    var q, r := v / 0x100, v % 0x100;
    var a, b := q / p, q % p;
    assert v == 0x100 * q + r && q == a * p + b && 0 <= b < p;
    assert v == a * (0x100 * p) + (0x100 * b + r) by {
      assert 0x100 * (a * p) == a * (0x100 * p);
    }
    ModUnique(v, 0x100 * p, a, 0x100 * b + r);
  }

  /** Quotient and remainder are determined by the division equation. */
  lemma ModUnique(v: int, m: int, q: int, r: int)
    requires m > 0 && v == q * m + r && 0 <= r < m
    ensures v % m == r && v / m == q
  {
    var k := v / m - q;
    assert k * m == r - v % m by {
      assert v == (v / m) * m + v % m;
      assert k * m == (v / m) * m - q * m;
    }
    MultipleInRange(k, m);
  }

  lemma MultipleInRange(k: int, m: int)
    requires m > 0 && -m < k * m < m
    ensures k == 0
  {
  }

  lemma {:induction false} UnsignedBound(b: seq<byte>)
    ensures Unsigned(b) < Pow256(|b|)
  {
    if b != [] {
      UnsignedBound(b[..|b| - 1]);
    }
  }

  /** The powers that bound 1 to 8 bytes. */
  lemma Powers()
    ensures Pow256(0) == 1 && Pow256(1) == 0x100 && Pow256(2) == 0x1_0000 && Pow256(3) == 0x100_0000
    ensures Pow256(4) == 0x1_0000_0000 && Pow256(8) == 0x1_0000_0000_0000_0000
  {
    assert Pow256(5) == 0x100 * Pow256(4) && Pow256(6) == 0x100 * Pow256(5) && Pow256(7) == 0x100 * Pow256(6);
  }

  /** Two's complement reading of an unsigned n-byte value. */
  function Signed(b: seq<byte>): (v: int)
  {
    var u := Unsigned(b);
    if 2 * u >= Pow256(|b|) then u - Pow256(|b|) else u
  }

  /** Two's complement of width n represents exactly the values in [-256^n/2, 256^n/2). */
  lemma SignedBigEndian(v: int, n: nat)
    requires n > 0 && -(Pow256(n) as int) <= 2 * v < Pow256(n)
    ensures Signed(BigEndian(v, n)) == v
  {
    UnsignedBigEndian(v, n);
    var p := Pow256(n);
    if v < 0 {
      ModUnique(v, p, -1, v + p);
    } else {
      ModUnique(v, p, 0, v);
    }
  }
}

/** Bytes, 32-bit little-endian integers and the "these bytes stand here" relation. */
module Bytes {

  datatype Option<+T> = None | Some(value: T)

  type byte = x: int | 0 <= x < 256

  /** The source's `uint32_t`. */
  type u32 = x: int | 0 <= x < 0x1_0000_0000

  const U32_LIMIT := 0x1_0000_0000

  /** Memory whose length is itself a `uint32_t`: an attribute value, a flag array, a copied block. */
  type Blob = v: seq<byte> | |v| < U32_LIMIT

  /** Unsigned 32-bit wrap-around. */
  function Wrap(n: nat): (w: u32)
    ensures n < U32_LIMIT ==> w == n
  {
    n % 0x1_0000_0000
  }

  function Zeros(n: nat): (z: seq<byte>)
    ensures |z| == n
  {
    seq(n, _ => 0)
  }

  /** The four bytes of `n` in memory on x86-64. */
  function U32(n: u32): (b: seq<byte>)
    ensures |b| == 4
  {
    [n % 256, n / 0x100 % 256, n / 0x1_0000 % 256, n / 0x100_0000]
  }

  /** The integer read by a 4-byte `memcpy` from `m + p`. */
  function U32At(m: seq<byte>, p: nat): u32
    requires p + 4 <= |m|
  {
    var b0: int, b1: int, b2: int, b3: int := m[p], m[p + 1], m[p + 2], m[p + 3];
    b0 + 0x100 * b1 + 0x1_0000 * b2 + 0x100_0000 * b3
  }

  /** The least significant byte comes first. */
  lemma LittleEndian()
    ensures U32(0x0403_0201) == [1, 2, 3, 4] && U32At([1, 2, 3, 4], 0) == 0x0403_0201
  {
  }

  /** `b` stands in `m` at offset `p`. */
  ghost predicate Holds(m: seq<byte>, p: nat, b: seq<byte>) {
    p + |b| <= |m| && m[p..p + |b|] == b
  }

  /** The four bytes at `p` are those of `n` exactly when reading there yields `n`. */
  lemma U32AtExact(m: seq<byte>, p: nat, n: u32)
    requires p + 4 <= |m|
    ensures U32At(m, p) == n <==> Holds(m, p, U32(n))
  {
    var w := m[p..p + 4];
    assert w[0] == m[p] && w[1] == m[p + 1] && w[2] == m[p + 2] && w[3] == m[p + 3];
    Digits(m[p], m[p + 1], m[p + 2], m[p + 3]);
    assert w == U32(U32At(m, p));
    if Holds(m, p, U32(n)) {
      Undigits(n);
    }
  }

  lemma Digits(a: byte, b: byte, c: byte, d: byte)
    ensures var n := a + 0x100 * b + 0x1_0000 * c + 0x100_0000 * d;
            n % 256 == a && n / 0x100 % 256 == b && n / 0x1_0000 % 256 == c && n / 0x100_0000 == d
  {
    var n := a + 0x100 * b + 0x1_0000 * c + 0x100_0000 * d;
    assert n / 0x100 == b + 0x100 * c + 0x1_0000 * d;
    assert n / 0x1_0000 == c + 0x100 * d;
  }

  lemma Undigits(n: u32)
    ensures n == n % 256 + 0x100 * (n / 0x100 % 256) + 0x1_0000 * (n / 0x1_0000 % 256) + 0x100_0000 * (n / 0x100_0000)
  {
    assert n / 0x1_0000 == n / 0x100 / 256;
    assert n / 0x100_0000 == n / 0x1_0000 / 256;
  }

  lemma HoldsConcat(m: seq<byte>, p: nat, a: seq<byte>, b: seq<byte>)
    ensures Holds(m, p, a + b) <==> Holds(m, p, a) && Holds(m, p + |a|, b)
  {
    if p + |a| + |b| <= |m| {
      var w := m[p..p + |a| + |b|];
      assert w == m[p..p + |a|] + m[p + |a|..p + |a| + |b|];
      assert w[..|a|] == m[p..p + |a|] && w[|a|..] == m[p + |a|..p + |a| + |b|];
      assert (a + b)[..|a|] == a && (a + b)[|a|..] == b;
    }
  }
}

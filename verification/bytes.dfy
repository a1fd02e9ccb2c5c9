/** Java's fixed-width integers and the big-endian byte layout used by
    `DataOutputStream.writeLong` and `DataInputStream.readLong`. */
module Bytes {

  /** An unsigned octet as it appears in a byte stream. */
  type byte = x: int | 0 <= x < 256

  /** Java `int`. */
  type int32 = x: int | -0x8000_0000 <= x < 0x8000_0000

  /** Java `long`. */
  type int64 = x: int | -0x8000_0000_0000_0000 <= x < 0x8000_0000_0000_0000

  const TWO_TO_63: nat := 0x8000_0000_0000_0000
  const TWO_TO_64: nat := 0x1_0000_0000_0000_0000

  /** Number of bytes `writeLong` emits. */
  const LONG_BYTES: nat := 8

  function Pow256(n: nat): (r: nat)
    ensures r > 0
  {
    if n == 0 then 1 else 256 * Pow256(n - 1)
  }

  lemma Pow256Eight()
    ensures Pow256(LONG_BYTES) == TWO_TO_64
  {
    assert Pow256(1) == 0x100;
    assert Pow256(2) == 0x1_0000;
    assert Pow256(3) == 0x100_0000;
    assert Pow256(4) == 0x1_0000_0000;
    assert Pow256(5) == 0x100_0000_0000;
    assert Pow256(6) == 0x1_0000_0000_0000;
    assert Pow256(7) == 0x100_0000_0000_0000;
  }

  /** The `width` low-order bytes of `n`, most significant first. Higher
      bytes are dropped, as Java's `(byte)(v >>> k)` casts drop them. */
  function ToBigEndian(n: nat, width: nat): (r: seq<byte>)
    ensures |r| == width
  {
    if width == 0 then [] else ToBigEndian(n / 256, width - 1) + [n % 256]
  }

  /** The unsigned number whose big-endian bytes are `s`. */
  function FromBigEndian(s: seq<byte>): (r: nat)
    ensures r < Pow256(|s|)
  {
    if |s| == 0 then 0 else FromBigEndian(s[..|s| - 1]) * 256 + s[|s| - 1]
  }

  /** Reading back what was written recovers every number that fits in the width. */
  lemma {:induction false} FromToBigEndian(n: nat, width: nat)
    requires n < Pow256(width)
    ensures FromBigEndian(ToBigEndian(n, width)) == n
  {
    if width > 0 {
      var r := ToBigEndian(n, width);
      assert r[..width - 1] == ToBigEndian(n / 256, width - 1);
      assert r[width - 1] == n % 256;
      FromToBigEndian(n / 256, width - 1);
    }
  }

  /** Writing back what was read recovers every byte sequence. */
  lemma {:induction false} ToFromBigEndian(s: seq<byte>)
    ensures ToBigEndian(FromBigEndian(s), |s|) == s
  {
    if |s| > 0 {
      var init := s[..|s| - 1];
      var n := FromBigEndian(s);
      assert n / 256 == FromBigEndian(init);
      assert n % 256 == s[|s| - 1];
      ToFromBigEndian(init);
      assert s == init + [s[|s| - 1]];
    }
  }

  /** Dividing by 256 and then by `p` is dividing by `256 * p`. */
  lemma DivDiv(n: nat, p: nat)
    requires p > 0
    ensures n / 256 / p == n / (256 * p)
  {
    var q, r := n / 256, n % 256;
    var q2, r2 := q / p, q % p;
    assert n == 256 * p * q2 + (256 * r2 + r) by {
      assert n == 256 * q + r;
      assert q == p * q2 + r2;
    }
    assert 0 <= 256 * r2 + r < 256 * p;
    DivUnique(n, 256 * p, q2, 256 * r2 + r);
  }

  /** Division is determined by any quotient and remainder in range. */
  lemma DivUnique(n: nat, d: nat, q: nat, r: nat)
    requires d > 0 && r < d && n == d * q + r
    ensures n / d == q
  {
    var q0, r0 := n / d, n % d;
    assert n == d * q0 + r0;
    if q0 < q {
      MulMonotone(d, q0 + 1, q);
    } else if q < q0 {
      MulMonotone(d, q + 1, q0);
    }
  }

  lemma MulMonotone(d: nat, a: nat, b: nat)
    requires a <= b
    ensures d * a <= d * b
  {
    assert d * b == d * a + d * (b - a);
  }

  /** Byte `i` of the big-endian form is digit `width - 1 - i` of `n` in
      base 256: the most significant digit comes first. */
  lemma {:induction false} BigEndianDigits(n: nat, width: nat)
    ensures forall i :: 0 <= i < width ==> ToBigEndian(n, width)[i] == n / Pow256(width - 1 - i) % 256
  {
    if width > 0 {
      var r := ToBigEndian(n, width);
      var init := ToBigEndian(n / 256, width - 1);
      BigEndianDigits(n / 256, width - 1);
      forall i | 0 <= i < width
        ensures r[i] == n / Pow256(width - 1 - i) % 256
      {
        if i < width - 1 {
          assert r[i] == init[i];
          DivDiv(n, Pow256(width - 2 - i));
        }
      }
    }
  }

  /** Two's-complement reinterpretation of a `long` as an unsigned 64-bit number. */
  function Unsigned64(x: int64): (u: nat)
    ensures u < TWO_TO_64
    ensures u % TWO_TO_64 == x % TWO_TO_64
  {
    if x < 0 then x + TWO_TO_64 else x
  }

  /** The `long` whose two's-complement bit pattern is `u`. */
  function Signed64(u: nat): (x: int64)
    requires u < TWO_TO_64
    ensures x % TWO_TO_64 == u
  {
    if u >= TWO_TO_63 then u - TWO_TO_64 else u
  }

  /** `DataOutputStream.writeLong`: eight bytes, high byte first. */
  function WriteLong(x: int64): (r: seq<byte>)
    ensures |r| == LONG_BYTES
  {
    ToBigEndian(Unsigned64(x), LONG_BYTES)
  }

  /** `writeLong` puts the bits 56-63 of the two's-complement pattern first
      and bits 0-7 last: byte `i` is base-256 digit `7 - i`. */
  lemma WriteLongBytes(x: int64)
    ensures forall i :: 0 <= i < LONG_BYTES ==> WriteLong(x)[i] == Unsigned64(x) / Pow256(LONG_BYTES - 1 - i) % 256
  {
    BigEndianDigits(Unsigned64(x), LONG_BYTES);
  }

  /** `DataInputStream.readLong` applied to exactly eight available bytes. */
  function ReadLong(b: seq<byte>): (x: int64)
    requires |b| == LONG_BYTES
  {
    Pow256Eight();
    Signed64(FromBigEndian(b))
  }

  /** Every `long` survives a `writeLong` / `readLong` round trip. */
  lemma ReadWriteLong(x: int64)
    ensures ReadLong(WriteLong(x)) == x
  {
    Pow256Eight();
    FromToBigEndian(Unsigned64(x), LONG_BYTES);
  }

  /** Every eight-byte block survives a `readLong` / `writeLong` round trip,
      so the two are inverse bijections between `long` and eight-byte blocks. */
  lemma WriteReadLong(b: seq<byte>)
    requires |b| == LONG_BYTES
    ensures WriteLong(ReadLong(b)) == b
  {
    Pow256Eight();
    var u := FromBigEndian(b);
    assert Unsigned64(Signed64(u)) == u;
    ToFromBigEndian(b);
  }
}

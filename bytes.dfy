/**
 * Bytes, Rust's fixed-width unsigned integers `u64` and `u128`, and their
 * big-endian byte encodings (`to_be_bytes`), together with the decoding that
 * is their partner.
 */
module Bytes {

  type byte = x: int | 0 <= x < 256

  const U64_LIMIT: nat := 0x1_0000_0000_0000_0000
  const U128_LIMIT: nat := 0x1_0000_0000_0000_0000_0000_0000_0000_0000

  /** The largest `u64`; `u64::MAX + 1` overflows. */
  const U64_MAX: nat := U64_LIMIT - 1

  type u64 = x: nat | x < U64_LIMIT
  type u128 = x: nat | x < U128_LIMIT

  /** The number of distinct values that fit in `width` bytes. */
  function Pow256(width: nat): (r: nat)
    ensures r > 0
  {
    if width == 0 then 1 else 256 * Pow256(width - 1)
  }

  lemma LimitsArePowers()
    ensures Pow256(8) == U64_LIMIT
    ensures Pow256(16) == U128_LIMIT
  {
    assert Pow256(4) == 0x1_0000_0000;
    assert Pow256(8) == 0x1_0000_0000_0000_0000;
    assert Pow256(12) == 0x1_0000_0000_0000_0000_0000_0000;
  }

  /** The `width`-byte big-endian encoding of `n`, most significant byte first. */
  function BigEndian(n: nat, width: nat): (r: seq<byte>)
    requires n < Pow256(width)
    ensures |r| == width
  {
    if width == 0 then [] else BigEndian(n / 256, width - 1) + [n % 256]
  }

  /** The number a big-endian byte string denotes. */
  function FromBigEndian(s: seq<byte>): (n: nat)
    ensures n < Pow256(|s|)
  {
    if s == [] then 0 else FromBigEndian(s[..|s| - 1]) * 256 + s[|s| - 1]
  }

  lemma {:induction false} FromBigEndianOfBigEndian(n: nat, width: nat)
    requires n < Pow256(width)
    ensures FromBigEndian(BigEndian(n, width)) == n
  {
    if width > 0 {
      var s := BigEndian(n, width);
      assert s[..|s| - 1] == BigEndian(n / 256, width - 1);
      FromBigEndianOfBigEndian(n / 256, width - 1);
    }
  }

  lemma {:induction false} BigEndianOfFromBigEndian(s: seq<byte>)
    ensures BigEndian(FromBigEndian(s), |s|) == s
  {
    if s != [] {
      var n := FromBigEndian(s);
      var init := s[..|s| - 1];
      assert n / 256 == FromBigEndian(init) && n % 256 == s[|s| - 1];
      BigEndianOfFromBigEndian(init);
      assert s == init + [s[|s| - 1]];
    }
  }

  /** Equal encodings of the same width come from equal numbers. */
  lemma BigEndianInjective(n: nat, m: nat, width: nat)
    requires n < Pow256(width) && m < Pow256(width)
    requires BigEndian(n, width) == BigEndian(m, width)
    ensures n == m
  {
    FromBigEndianOfBigEndian(n, width);
    FromBigEndianOfBigEndian(m, width);
  }

  /** `u64::to_be_bytes`. */
  function U64ToBeBytes(n: u64): (r: seq<byte>)
    ensures |r| == 8 && FromBigEndian(r) == n
  {
    LimitsArePowers();
    FromBigEndianOfBigEndian(n, 8);
    BigEndian(n, 8)
  }

  /** `u128::to_be_bytes`. */
  function U128ToBeBytes(n: u128): (r: seq<byte>)
    ensures |r| == 16 && FromBigEndian(r) == n
  {
    LimitsArePowers();
    FromBigEndianOfBigEndian(n, 16);
    BigEndian(n, 16)
  }
}

/** Byte-level value types shared by the airdrop model: bytes, 32-byte hashes,
    20-byte account addresses, the unsigned integer widths the contract uses,
    and the fixed-width big-endian encoding of a 256-bit amount that goes into
    every Merkle leaf. */
module Encoding {

  type Byte = x: int | 0 <= x < 256

  /** Width of a keccak256 digest. */
  const HASH_LEN: nat := 32

  /** Width of an account address (`H160`). */
  const ADDRESS_LEN: nat := 20

  /** Width of the big-endian encoding of a `U256`. */
  const U256_LEN: nat := 32

  type Hash = s: seq<Byte> | |s| == HASH_LEN witness seq(HASH_LEN, _ => 0)

  type Address = s: seq<Byte> | |s| == ADDRESS_LEN witness seq(ADDRESS_LEN, _ => 0)

  /** Block timestamps and leaf indices are `u64`. */
  type U64 = x: nat | x < 0x1_0000_0000_0000_0000

  /** Token amounts are `U256`. */
  const U256_BOUND: nat := 0x1_0000_0000_0000_0000_0000_0000_0000_0000_0000_0000_0000_0000_0000_0000_0000_0000

  type U256 = x: nat | x < U256_BOUND

  function Pow256(n: nat): (p: nat)
    ensures p >= 1
  {
    if n == 0 then 1 else 256 * Pow256(n - 1)
  }

  lemma {:induction false} Pow256Add(a: nat, b: nat)
    ensures Pow256(a + b) == Pow256(a) * Pow256(b)
  {
    if a > 0 {
      Pow256Add(a - 1, b);
    }
  }

  /** `256^32` is the exclusive bound of `U256`. */
  lemma Pow256Of32()
    ensures Pow256(U256_LEN) == U256_BOUND
  {
    assert Pow256(4) == 0x1_0000_0000;
    Pow256Add(4, 4);
    assert Pow256(8) == 0x1_0000_0000_0000_0000;
    Pow256Add(8, 8);
    assert Pow256(16) == 0x1_0000_0000_0000_0000_0000_0000_0000_0000;
    Pow256Add(16, 16);
  }

  /** The value of a big-endian byte string. */
  function FromBigEndian(s: seq<Byte>): (v: nat)
    ensures v < Pow256(|s|)
  {
    if |s| == 0 then 0
    else
      var hi := FromBigEndian(s[..|s| - 1]);
      AppendDigitBound(hi, s[|s| - 1], Pow256(|s| - 1));
      hi * 256 + s[|s| - 1]
  }

  /** Appending a byte to a value below `p` gives a value below `256 * p`. */
  lemma AppendDigitBound(hi: nat, lo: Byte, p: nat)
    requires hi < p
    ensures hi * 256 + lo < 256 * p
  {
  }

  /** A value written as `hi * 256 + lo` with `lo` a byte determines both. */
  lemma {:induction false} AppendDigitUnique(h1: nat, l1: Byte, h2: nat, l2: Byte)
    requires h1 * 256 + l1 == h2 * 256 + l2
    ensures h1 == h2 && l1 == l2
  {
  }

  /** The `n`-byte big-endian representation of `v`, most significant byte first. */
  function EncodeBigEndian(v: nat, n: nat): (r: seq<Byte>)
    requires v < Pow256(n)
    ensures |r| == n
    ensures FromBigEndian(r) == v
  {
    if n == 0 then []
    else
      var r := EncodeBigEndian(v / 256, n - 1) + [v % 256];
      assert r[..n - 1] == EncodeBigEndian(v / 256, n - 1);
      r
  }

  /** `U256::to_big_endian`: always 32 bytes, and decodes back to the amount. */
  function ToBigEndian(v: U256): (r: seq<Byte>)
    ensures |r| == U256_LEN
    ensures FromBigEndian(r) == v
  {
    Pow256Of32();
    EncodeBigEndian(v, U256_LEN)
  }

  /** Byte strings of one width with the same value are equal. */
  lemma {:induction false} FromBigEndianInjective(a: seq<Byte>, b: seq<Byte>)
    requires |a| == |b|
    ensures FromBigEndian(a) == FromBigEndian(b) <==> a == b
  {
    if |a| > 0 && FromBigEndian(a) == FromBigEndian(b) {
      var n := |a| - 1;
      AppendDigitUnique(FromBigEndian(a[..n]), a[n], FromBigEndian(b[..n]), b[n]);
      FromBigEndianInjective(a[..n], b[..n]);
      assert a == a[..n] + [a[n]];
      assert b == b[..n] + [b[n]];
    }
  }

  /** Decoding then re-encoding at the same width gives the bytes back. */
  lemma EncodeOfDecode(s: seq<Byte>)
    ensures EncodeBigEndian(FromBigEndian(s), |s|) == s
  {
    FromBigEndianInjective(EncodeBigEndian(FromBigEndian(s), |s|), s);
  }

  /** Distinct amounts have distinct leaf encodings, and every 32-byte string
      is the encoding of exactly one amount. */
  lemma ToBigEndianInjective(a: U256, b: U256)
    ensures ToBigEndian(a) == ToBigEndian(b) <==> a == b
  {
  }

  lemma ToBigEndianSurjective(s: seq<Byte>)
    requires |s| == U256_LEN
    ensures FromBigEndian(s) < U256_BOUND
    ensures ToBigEndian(FromBigEndian(s) as U256) == s
  {
    Pow256Of32();
    EncodeOfDecode(s);
  }
}

/** Bytes and unsigned 64-bit integers, and the little-endian reading of
    a byte string as a number (`u64::from_le_bytes`) with its inverse. */
module Bytes {

  type Byte = x: nat | x < 256

  /** Exclusive upper bound of a `u64`. */
  const U64_LIMIT: nat := 0x1_0000_0000_0000_0000

  type U64 = x: nat | x < U64_LIMIT

  /** 256 to the power `k`: one more than the largest number `k` bytes hold. */
  function Pow256(k: nat): (p: nat)
    ensures p >= 1
  {
    if k == 0 then 1 else 256 * Pow256(k - 1)
  }

  lemma Pow256Eight()
    ensures Pow256(8) == U64_LIMIT
  {
  }

  /** The number whose base-256 digits, least significant first, are `bytes`. */
  function LittleEndian(bytes: seq<Byte>): (n: nat)
    ensures n < Pow256(|bytes|)
  {
    if bytes == [] then 0 else bytes[0] + 256 * LittleEndian(bytes[1..])
  }

  /** `u64::from_le_bytes` on an 8-byte array: the value of any 8 bytes
      fits a `u64`, and writing it back out gives the same 8 bytes. */
  function FromLeBytes(bytes: seq<Byte>): (n: U64)
    requires |bytes| == 8
    ensures n == LittleEndian(bytes)
    ensures ToLittleEndian(n, 8) == bytes
  {
    Pow256Eight();
    DigitsOfLittleEndian(bytes);
    LittleEndian(bytes)
  }

  /** The `k` lowest base-256 digits of `n`, least significant first. */
  function ToLittleEndian(n: nat, k: nat): (bytes: seq<Byte>)
    ensures |bytes| == k
  {
    if k == 0 then [] else [n % 256] + ToLittleEndian(n / 256, k - 1)
  }

  /** `u64::to_le_bytes`. */
  function ToLeBytes(n: U64): (bytes: seq<Byte>)
    ensures |bytes| == 8
  {
    ToLittleEndian(n, 8)
  }

  /** Reading back the digits of a number that fits in `k` bytes gives the number. */
  lemma {:induction false} LittleEndianOfDigits(n: nat, k: nat)
    requires n < Pow256(k)
    ensures LittleEndian(ToLittleEndian(n, k)) == n
  {
    if k > 0 {
      var bytes := ToLittleEndian(n, k);
      assert bytes[1..] == ToLittleEndian(n / 256, k - 1);
      LittleEndianOfDigits(n / 256, k - 1);
    }
  }

  /** Writing out the value of `bytes` in as many bytes gives `bytes` back:
      distinct byte strings of one length denote distinct numbers. */
  lemma {:induction false} DigitsOfLittleEndian(bytes: seq<Byte>)
    ensures ToLittleEndian(LittleEndian(bytes), |bytes|) == bytes
  {
    if bytes != [] {
      var n := LittleEndian(bytes);
      var m := LittleEndian(bytes[1..]);
      assert n == bytes[0] + 256 * m;
      assert n % 256 == bytes[0] && n / 256 == m;
      DigitsOfLittleEndian(bytes[1..]);
      assert bytes == [bytes[0]] + bytes[1..];
    }
  }

  /** `from_le_bytes` and `to_le_bytes` are inverse bijections between
      8-byte strings and `u64` values. */
  lemma LeBytesRoundTrip(n: U64, bytes: seq<Byte>)
    requires |bytes| == 8
    ensures FromLeBytes(ToLeBytes(n)) == n
    ensures ToLeBytes(FromLeBytes(bytes)) == bytes
  {
    Pow256Eight();
    LittleEndianOfDigits(n, 8);
    DigitsOfLittleEndian(bytes);
  }
}

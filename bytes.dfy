/** Bytes, the machine word and little-endian integers. */
module Bytes {

  type byte = b: int | 0 <= b < 256

  /** The largest `usize` on the 64-bit targets the library is built for. */
  const USIZE_MAX: nat := 0xFFFF_FFFF_FFFF_FFFF

  /** ASCII space, the header padding byte. */
  const SPACE: byte := 0x20

  function Pow256(k: nat): (r: nat)
    ensures r >= 1
  {
    if k == 0 then 1 else 256 * Pow256(k - 1)
  }

  /** The `k` low-order bytes of `n`, least significant first (`u64::to_le_bytes` for `k == 8`). */
  function LeBytes(n: nat, k: nat): (r: seq<byte>)
    ensures |r| == k
  {
    if k == 0 then [] else [(n % 256) as byte] + LeBytes(n / 256, k - 1)
  }

  /** The unsigned integer a little-endian byte string denotes (`u64::from_le_bytes` for 8 bytes). */
  function LeValue(s: seq<byte>): (r: nat)
    ensures r < Pow256(|s|)
  {
    if s == [] then 0 else s[0] + 256 * LeValue(s[1..])
  }

  /** Decoding the little-endian encoding of a number that fits gives the number back. */
  lemma {:induction false} LeRoundTrip(n: nat, k: nat)
    requires n < Pow256(k)
    ensures LeValue(LeBytes(n, k)) == n
  {
    if k > 0 {
      var s := LeBytes(n, k);
      assert s[1..] == LeBytes(n / 256, k - 1);
      assert n / 256 < Pow256(k - 1);
      LeRoundTrip(n / 256, k - 1);
    }
  }

  /** `k` ASCII spaces. */
  function Spaces(k: nat): (r: seq<byte>)
    ensures |r| == k && forall i :: 0 <= i < k ==> r[i] == SPACE
  {
    seq(k, _ => SPACE)
  }
}

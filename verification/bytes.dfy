/**
 * Octets and the minimal big-endian representation of unsigned integers,
 * as the `rlp` crate writes integers and long lengths (Appendix B of the
 * Ethereum Yellow Paper).
 */
module Bytes {

  type byte = b: int | 0 <= b < 256

  /** 256 to the power `k`. */
  function Pow256(k: nat): (r: nat)
    ensures r >= 1
  {
    if k == 0 then 1 else 256 * Pow256(k - 1)
  }

  /** Minimal big-endian bytes of `n`: zero is the empty string and a
      non-empty result never starts with a zero byte. */
  function BigEndian(n: nat): (r: seq<byte>)
    ensures n == 0 <==> r == []
    ensures r != [] ==> r[0] != 0
    decreases n
  {
    if n == 0 then [] else BigEndian(n / 256) + [n % 256]
  }

  /** The unsigned integer denoted by big-endian bytes `s`. */
  function FromBigEndian(s: seq<byte>): nat
  {
    if s == [] then 0 else FromBigEndian(s[..|s| - 1]) * 256 + s[|s| - 1]
  }

  /** Reading back the minimal big-endian bytes yields the integer. */
  lemma {:induction false} BigEndianRoundTrip(n: nat)
    ensures FromBigEndian(BigEndian(n)) == n
    decreases n
  {
    if n > 0 {
      var s := BigEndian(n);
      assert s[..|s| - 1] == BigEndian(n / 256);
      BigEndianRoundTrip(n / 256);
    }
  }

  /** An integer below 256^k needs at most `k` bytes. */
  lemma {:induction false} BigEndianLength(n: nat, k: nat)
    requires n < Pow256(k)
    ensures |BigEndian(n)| <= k
    decreases k
  {
    if n > 0 {
      assert k > 0;
      BigEndianLength(n / 256, k - 1);
    }
  }

  /** An integer of at least 256^k needs more than `k` bytes. */
  lemma {:induction false} BigEndianLengthLower(n: nat, k: nat)
    requires n >= Pow256(k)
    ensures |BigEndian(n)| > k
    decreases k
  {
    if k > 0 {
      BigEndianLengthLower(n / 256, k - 1);
    }
  }
}

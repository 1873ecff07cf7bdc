/** Bytes, machine words and the few sequence facts that every module uses. */
module Bytes {

  type byte = b: int | 0 <= b < 256

  const TWO_16: nat := 0x1_0000
  const TWO_31: nat := 0x8000_0000
  const TWO_32: nat := 0x1_0000_0000

  type uint16 = n: int | 0 <= n < 0x1_0000
  type uint32 = n: int | 0 <= n < 0x1_0000_0000

  /** `uint32_t` addition and multiplication wrap. */
  function Wrap32(n: nat): uint32 {
    n % 0x1_0000_0000
  }

  function Min(a: nat, b: nat): nat {
    if a <= b then a else b
  }

  /** `n` copies of `x`. */
  function Repeat<T>(x: T, n: nat): (s: seq<T>)
    ensures |s| == n && forall k :: 0 <= k < n ==> s[k] == x
  {
    seq(n, _ => x)
  }

  /** The memory `s` after `t` has been stored at `off`. */
  function Store(s: seq<byte>, off: nat, t: seq<byte>): (r: seq<byte>)
    requires off + |t| <= |s|
    ensures |r| == |s| && r[off..off + |t|] == t
  {
    s[..off] + t + s[off + |t|..]
  }
}

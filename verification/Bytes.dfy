/** Bytes, and the memory primitives the loader uses on them. */
module Bytes {

  type byte = x: int | 0 <= x < 256

  function Zeros(n: nat): (z: seq<byte>)
    ensures |z| == n && forall i :: 0 <= i < n ==> z[i] == 0
  {
    seq(n, i => 0)
  }

  /** Memcpy: `dst[off..off + |src|]` becomes `src`, every other element stays. */
  method Copy<T>(src: seq<T>, dst: array<T>, off: nat)
    requires off + |src| <= dst.Length
    modifies dst
    ensures dst[..] == old(dst[..off]) + src + old(dst[off + |src|..])
  {
    for k := 0 to |src|
      invariant forall j :: 0 <= j < dst.Length ==> dst[j] == if off <= j < off + k then src[j - off] else old(dst[j])
    {
      dst[off + k] := src[k];
    }
  }
}

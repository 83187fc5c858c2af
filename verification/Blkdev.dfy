/** The block-device contract of lsvmutils/blkdev.h: 512-byte blocks addressed by number. */
module Blkdev {
  import opened Bytes

  /** BLKDEV_BLKSIZE is 512, written out so that offsets stay linear. */
  type Block = s: seq<byte> | |s| == 512 witness Zeros(512)

  /** Some block that differs from `x`. */
  function Other(x: Block): (y: Block)
    ensures y != x
  {
    var y: Block := if x[0] == 0 then seq(512, i => 1) else Zeros(512);
    assert y[0] != x[0];
    y
  }

  /** The blocks a device can deliver, by block number. */
  type Image = map<nat, Block>

  ghost predicate Covers(v: Image, b: nat, n: nat) {
    forall k :: b <= k < b + n ==> k in v
  }

  /** Blocks `b .. b + n` in order, as a transfer delivers them. */
  ghost function Slice(v: Image, b: nat, n: nat): (r: seq<Block>)
    requires Covers(v, b, n)
    ensures |r| == n && forall k :: 0 <= k < n ==> r[k] == v[b + k]
  {
    seq(n, i requires 0 <= i < n => v[b + i])
  }

  function Off(b: nat, k: nat): nat
    requires b <= k
  {
    k - b
  }

  /** A buffer of blocks, laid out from block number `b`. */
  function BlocksOf(b: nat, blocks: seq<Block>): (r: Image)
    ensures forall k :: k in r <==> b <= k < b + |blocks|
    ensures forall k :: b <= k < b + |blocks| ==> r[k] == blocks[k - b]
  {
    map k: nat {:trigger Off(b, k)} | b <= k < b + |blocks| :: blocks[Off(b, k)]
  }

  /** A write that reached only the first `m` blocks of the buffer. */
  ghost function WritePrefix(v: Image, b: nat, blocks: seq<Block>, m: nat): Image
    requires m <= |blocks|
  {
    v + BlocksOf(b, blocks[..m])
  }

  /** A failed device write: every block holds its old value or the one being written. */
  ghost predicate Torn(v: Image, v': Image, b: nat, blocks: seq<Block>) {
    && v'.Keys == v.Keys
    && forall k :: k in v ==> v'[k] == v[k] || (b <= k < b + |blocks| && v'[k] == blocks[k - b])
  }

  lemma SliceSplit(v: Image, b: nat, i: nat, m: nat)
    requires Covers(v, b, i + m)
    ensures Slice(v, b, i) + Slice(v, b + i, m) == Slice(v, b, i + m)
  {
  }

  /** Reading back a written buffer yields the buffer. */
  lemma SliceOfBlocks(v: Image, b: nat, blocks: seq<Block>)
    ensures Covers(v + BlocksOf(b, blocks), b, |blocks|)
    ensures Slice(v + BlocksOf(b, blocks), b, |blocks|) == blocks
  {
  }

  lemma WritePrefixSnoc(v: Image, b: nat, blocks: seq<Block>, m: nat)
    requires m < |blocks|
    ensures WritePrefix(v, b, blocks, m)[b + m := blocks[m]] == WritePrefix(v, b, blocks, m + 1)
  {
  }
}

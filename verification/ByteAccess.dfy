/** Byte-sized access over whole blocks: BlkdevRead and BlkdevWrite of lsvmutils/blkdev.c. */
module ByteAccess {
  import opened Bytes
  import opened Blkdev
  import opened Trace
  import opened RawDevice
  import opened CacheBlkdev
  import opened CacheSpec

  // ----- Bytes of blocks

  function BlockCount(size: nat): nat {
    (size + 511) / 512
  }

  /** A buffer of whole blocks, as blocks. */
  function ToBlocks(bytes: seq<byte>): (r: seq<Block>)
    requires |bytes| % 512 == 0
    ensures |r| == |bytes| / 512
    ensures forall i :: 0 <= i < |r| ==> r[i] == bytes[512 * i..512 * i + 512]
  {
    seq(|bytes| / 512, i requires 0 <= i < |bytes| / 512 => bytes[512 * i..512 * i + 512])
  }

  function FromBlocks(bs: seq<Block>): (r: seq<byte>)
    ensures |r| == 512 * |bs|
  {
    if bs == [] then [] else FromBlocks(bs[..|bs| - 1]) + bs[|bs| - 1]
  }

  lemma {:induction false} FromBlocksAt(bs: seq<Block>, i: nat)
    requires i < 512 * |bs|
    ensures FromBlocks(bs)[i] == bs[i / 512][i % 512]
  {
    var front := bs[..|bs| - 1];
    if i < 512 * |front| {
      FromBlocksAt(front, i);
    }
  }

  /** The byte at absolute position `p` of a device. */
  ghost function ByteAt(v: Image, p: nat): byte
    requires p / 512 in v
  {
    v[p / 512][p % 512]
  }

  /** `size` bytes of the device from the start of block `b`. */
  ghost function BytesAt(v: Image, b: nat, size: nat): (r: seq<byte>)
    requires Covers(v, b, BlockCount(size))
    ensures |r| == size && forall i :: 0 <= i < size ==> r[i] == v[b + i / 512][i % 512]
  {
    seq<byte>(size, i requires 0 <= i < size => v[b + i / 512][i % 512])
  }

  lemma WholeBytes(v: Image, b: nat, n: nat)
    requires Covers(v, b, n)
    ensures FromBlocks(Slice(v, b, n)) == BytesAt(v, b, 512 * n)
  {
    var bs, r := Slice(v, b, n), BytesAt(v, b, 512 * n);
    forall i | 0 <= i < 512 * n ensures FromBlocks(bs)[i] == r[i] {
      FromBlocksAt(bs, i);
    }
  }

  /** A read of whole blocks plus the head of the next one is a read of that many bytes. */
  lemma PartialBytes(v: Image, b: nat, q: nat, rem: nat)
    requires 0 < rem <= 512 && Covers(v, b, q + 1)
    ensures BytesAt(v, b, 512 * q) + v[b + q][..rem] == BytesAt(v, b, 512 * q + rem)
  {
    var l, r := BytesAt(v, b, 512 * q) + v[b + q][..rem], BytesAt(v, b, 512 * q + rem);
    forall i | 0 <= i < 512 * q + rem ensures l[i] == r[i] {
      if i >= 512 * q {
        assert i / 512 == q && i % 512 == i - 512 * q;
      }
    }
  }

  /** The device after `bytes` replaced its content from the start of block `b`. */
  ghost function Spliced(v: Image, b: nat, bytes: seq<byte>): Image
    requires |bytes| % 512 != 0 ==> b + |bytes| / 512 in v
  {
    var q, rem := |bytes| / 512, |bytes| % 512;
    var w := v + BlocksOf(b, ToBlocks(bytes[..512 * q]));
    if rem == 0 then w else w[b + q := bytes[512 * q..] + v[b + q][rem..]]
  }

  /** Block by block, what a splice leaves. */
  lemma SplicedBlock(v: Image, b: nat, bytes: seq<byte>, k: nat)
    requires |bytes| % 512 != 0 ==> b + |bytes| / 512 in v
    ensures var q, rem := |bytes| / 512, |bytes| % 512;
            var w := Spliced(v, b, bytes);
            if b <= k < b + q then k in w && w[k] == bytes[512 * (k - b)..512 * (k - b) + 512]
            else if k == b + q && rem > 0 then k in w && w[k] == bytes[512 * q..] + v[k][rem..]
            else (k in w <==> k in v) && (k in v ==> w[k] == v[k])
  {
    var q := |bytes| / 512;
    if b <= k < b + q {
      var bs, a := ToBlocks(bytes[..512 * q]), 512 * (k - b);
      assert bs[k - b] == bytes[..512 * q][a..a + 512] == bytes[a..a + 512];
    }
  }

  /** Exactly the bytes of the written range change, to the written bytes. */
  lemma SplicedBytes(v: Image, b: nat, bytes: seq<byte>, p: nat)
    requires |bytes| % 512 != 0 ==> b + |bytes| / 512 in v
    requires p / 512 in v || 512 * b <= p < 512 * b + |bytes|
    ensures p / 512 in Spliced(v, b, bytes)
    ensures ByteAt(Spliced(v, b, bytes), p) ==
            if 512 * b <= p < 512 * b + |bytes| then bytes[p - 512 * b] else ByteAt(v, p)
  {
    hide Spliced;
    SplicedBlock(v, b, bytes, p / 512);
  }

  /** Reading what was just spliced in yields it. */
  lemma SplicedReadsBack(v: Image, b: nat, bytes: seq<byte>)
    requires |bytes| % 512 != 0 ==> b + |bytes| / 512 in v
    ensures Covers(Spliced(v, b, bytes), b, BlockCount(|bytes|))
    ensures BytesAt(Spliced(v, b, bytes), b, |bytes|) == bytes
  {
    hide Spliced;
    var w := Spliced(v, b, bytes);
    forall k | b <= k < b + BlockCount(|bytes|) ensures k in w {
      SplicedBlock(v, b, bytes, k);
    }
    forall i | 0 <= i < |bytes| ensures w[b + i / 512][i % 512] == bytes[i] {
      SplicedBlock(v, b, bytes, b + i / 512);
    }
  }

  /** No block outside `b .. b + n` differs, and no block is lost. */
  ghost predicate OnlyWithin(v: Image, w: Image, b: nat, n: nat) {
    && (forall k :: k in v ==> k in w)
    && (forall k :: k in w && !(b <= k < b + n) ==> k in v && w[k] == v[k])
  }

  lemma WithinMore(v: Image, w: Image, b: nat, q: nat, n: nat)
    requires OnlyWithin(v, w, b, q) && q <= n
    ensures OnlyWithin(v, w, b, n)
  {
  }

  lemma WithinChain(v: Image, w: Image, x: Image, b: nat, q: nat)
    requires OnlyWithin(v, w, b, q + 1) && OnlyWithin(w, x, b + q, 1)
    ensures OnlyWithin(v, x, b, q + 1)
  {
  }

  /** Without a partial last block a splice is a plain block write; of nothing, no change. */
  lemma SplicedWhole(v: Image, b: nat, bytes: seq<byte>)
    requires |bytes| % 512 == 0
    ensures Spliced(v, b, bytes) == v + BlocksOf(b, ToBlocks(bytes))
    ensures bytes == [] ==> Spliced(v, b, bytes) == v && OnlyWithin(v, v, b, 0)
  {
    assert bytes[..512 * (|bytes| / 512)] == bytes;
  }

  /** With one, it is that write followed by the rewritten last block. */
  lemma SplicedPartial(v: Image, b: nat, bytes: seq<byte>, w: Image)
    requires |bytes| % 512 != 0
    requires w == v + BlocksOf(b, ToBlocks(bytes[..512 * (|bytes| / 512)]))
    requires b + |bytes| / 512 in w
    ensures var q, rem := |bytes| / 512, |bytes| % 512;
            b + q in v && Spliced(v, b, bytes) == w + BlocksOf(b + q, [bytes[512 * q..] + w[b + q][rem..]])
  {
  }

  lemma PutInView(s: State, s': State, b: nat, blocks: seq<Block>, ok: bool, calls: seq<Event>)
    requires PutStep(s, s', b, blocks, ok, calls)
    ensures OnlyWithin(Overlay(s), Overlay(s'), b, |blocks|)
    ensures ok && (s.caching || forall k :: b <= k < b + |blocks| ==> k !in s.cache) ==>
              Overlay(s') == Overlay(s) + BlocksOf(b, blocks)
  {
    hide BlocksOf, OnlyWithin;
    if s.caching {
      if ok {
        OverlayWrite(s, b, blocks);
      } else {
        hide Overlay, WroteSome, RanOut;
        OverlayShortWrite(s, s', b, blocks);
        ShortWithin(Overlay(s), Overlay(s'), b, blocks);
      }
    } else {
      ChildPutWithin(s, s', b, blocks, ok, calls);
    }
    WriteWithin(Overlay(s), b, blocks);
  }

  lemma WriteWithin(v: Image, b: nat, blocks: seq<Block>)
    ensures OnlyWithin(v, v + BlocksOf(b, blocks), b, |blocks|)
  {
  }

  lemma ShortWithin(v: Image, w: Image, b: nat, blocks: seq<Block>)
    requires WroteSome(v, w, b, blocks)
    ensures OnlyWithin(v, w, b, |blocks|)
  {
    var m: nat :| m < |blocks| && w == WritePrefix(v, b, blocks, m);
  }

  lemma ChildPutWithin(s: State, s': State, b: nat, blocks: seq<Block>, ok: bool, calls: seq<Event>)
    requires PutStep(s, s', b, blocks, ok, calls) && !s.caching
    ensures OnlyWithin(Overlay(s), Overlay(s'), b, |blocks|)
    ensures ok && (forall k :: b <= k < b + |blocks| ==> k !in s.cache) ==> Overlay(s') == Overlay(s) + BlocksOf(b, blocks)
  {
    hide BlocksOf;
  }

  // ----- Devices

  /** A Blkdev behind its function pointers. */
  datatype Dev = Raw(raw: RawDevice) | Cached(cached: CacheBlkdev) {

    ghost function Footprint(): set<object>
      reads if Cached? then {cached} else {}
    {
      match this
      case Raw(d) => {d, d.rec}
      case Cached(c) => c.Repr + {c.child, c.child.rec}
    }

    /** Where the device's calls and allocations are recorded. */
    ghost function Rec(): Recorder {
      match this
      case Raw(d) => d.rec
      case Cached(c) => c.child.rec
    }

    ghost predicate Valid()
      reads if Cached? then {cached} else {}, Footprint()
    {
      Cached? ==> cached.Valid()
    }

    ghost function View(): Image
      reads if Cached? then {cached, cached.child} else {raw}
    {
      match this
      case Raw(d) => d.content
      case Cached(c) => Overlay(c.Abs())
    }

    /** A write to blocks `b .. b + n` shows in the view: not so for cached blocks while caching is off. */
    ghost predicate WritesShow(b: nat, n: nat)
      reads if Cached? then {cached} else {}
    {
      Cached? && !cached.caching ==> forall k :: b <= k < b + n ==> k !in cached.cache
    }

    method GetN(b: nat, n: nat) returns (ok: bool, out: seq<Block>)
      requires Valid()
      modifies Footprint()
      ensures Valid() && fresh(Footprint() - old(Footprint()))
      ensures View() == old(View())
      ensures Cached? ==> cached.caching == old(cached.caching) && (!cached.caching ==> cached.cache == old(cached.cache))
      ensures Cached? && cached.caching ==> cached.child.content == old(cached.child.content)
      ensures ok ==> Covers(View(), b, n) && out == Slice(View(), b, n)
      ensures Since(old(Rec().outcomes), Rec().outcomes, ok)
    {
      hide CacheBlkdev.Valid;
      match this {
        case Raw(d) =>
          ok, out := d.GetN(b, n);
          NothingSince(old(Rec().outcomes));
          OneMore(old(Rec().outcomes), old(Rec().outcomes), Device(ok));
        case Cached(c) => ok, out := c.GetN(b, n);
      }
    }

    method PutN(b: nat, blocks: seq<Block>) returns (ok: bool)
      requires Valid()
      modifies Footprint()
      ensures Valid() && fresh(Footprint() - old(Footprint()))
      ensures Cached? ==> cached.caching == old(cached.caching) && (!cached.caching ==> cached.cache == old(cached.cache))
      ensures Cached? && cached.caching ==> cached.child.content == old(cached.child.content)
      ensures OnlyWithin(old(View()), View(), b, |blocks|)
      ensures ok && old(WritesShow(b, |blocks|)) ==> View() == old(View()) + BlocksOf(b, blocks)
      ensures Since(old(Rec().outcomes), Rec().outcomes, ok)
    {
      hide CacheBlkdev.Valid, Overlay;
      match this {
        case Raw(d) =>
          ok := d.PutN(b, blocks);
          NothingSince(old(Rec().outcomes));
          OneMore(old(Rec().outcomes), old(Rec().outcomes), Device(ok));
        case Cached(c) =>
          ghost var s, ev := c.Abs(), c.child.rec.events;
          ok := c.PutN(b, blocks);
          PutInView(s, c.Abs(), b, blocks, ok, c.child.rec.events[|ev|..]);
      }
    }
  }

  method BlkdevRead(dev: Dev, b: nat, size: nat) returns (ok: bool, out: seq<byte>)
    requires dev.Valid()
    modifies dev.Footprint()
    ensures dev.Valid() && fresh(dev.Footprint() - old(dev.Footprint()))
    ensures dev.View() == old(dev.View())
    ensures ok ==> Covers(dev.View(), b, BlockCount(size)) && out == BytesAt(dev.View(), b, size)
    ensures Since(old(dev.Rec().outcomes), dev.Rec().outcomes, ok)
  {
    hide Dev.Valid, Dev.View, Dev.WritesShow, Since;
    NothingSince(dev.Rec().outcomes);
    var n, blocks, last := (size + 511) / 512, [], [];
    out := [];
    if n == 0 {
      return true, out;
    }
    if size % 512 == 0 {
      ok, blocks := dev.GetN(b, n);
      if ok {
        WholeBytes(dev.View(), b, n);
        out := FromBlocks(blocks);
      }
      return;
    }
    ghost var f := dev.Footprint();
    ok, blocks := dev.GetN(b, n - 1);
    if !ok {
      return;
    }
    ghost var g, asked := dev.Footprint(), dev.Rec().outcomes;
    ok, last := dev.GetN(b + n - 1, 1);
    SinceThen(old(dev.Rec().outcomes), asked, dev.Rec().outcomes, ok);
    assert dev.Footprint() - f <= (dev.Footprint() - g) + (g - f);
    if ok {
      var rem := size - 512 * (n - 1);
      assert last[0] == dev.View()[b + n - 1];
      WholeBytes(dev.View(), b, n - 1);
      PartialBytes(dev.View(), b, n - 1, rem);
      out := FromBlocks(blocks) + last[0][..rem];
    }
  }

  method BlkdevWrite(dev: Dev, b: nat, bytes: seq<byte>) returns (ok: bool)
    requires dev.Valid()
    modifies dev.Footprint()
    ensures dev.Valid() && fresh(dev.Footprint() - old(dev.Footprint()))
    ensures OnlyWithin(old(dev.View()), dev.View(), b, BlockCount(|bytes|))
    ensures dev.Cached? ==> dev.cached.caching == old(dev.cached.caching)
    ensures dev.Cached? && dev.cached.caching ==> dev.cached.child.content == old(dev.cached.child.content)
    ensures ok && old(dev.WritesShow(b, BlockCount(|bytes|))) ==>
              && (|bytes| % 512 != 0 ==> b + |bytes| / 512 in old(dev.View()))
              && dev.View() == Spliced(old(dev.View()), b, bytes)
    ensures Since(old(dev.Rec().outcomes), dev.Rec().outcomes, ok)
  {
    hide Dev.Valid, Dev.View, Spliced, OnlyWithin, BlocksOf, ToBlocks, Since;
    NothingSince(dev.Rec().outcomes);
    var n := (|bytes| + 511) / 512;
    ghost var v, f, shows := dev.View(), dev.Footprint(), dev.WritesShow(b, n);
    if |bytes| % 512 == 0 {
      SplicedWhole(v, b, bytes);
      if n == 0 {
        return true;
      }
      ok := dev.PutN(b, ToBlocks(bytes));
      return;
    }
    var q := n - 1;
    assert q == |bytes| / 512 && |bytes| - 512 * q == |bytes| % 512;
    assert shows ==> dev.WritesShow(b, q);
    ok := dev.PutN(b, ToBlocks(bytes[..512 * q]));
    WithinMore(v, dev.View(), b, q, n);
    if !ok {
      return;
    }
    ghost var w, g, asked := dev.View(), dev.Footprint(), dev.Rec().outcomes;
    assert shows ==> dev.WritesShow(b + q, 1) && w == v + BlocksOf(b, ToBlocks(bytes[..512 * q]));
    hide Dev.WritesShow;
    ok := RewriteHead(dev, b + q, bytes[512 * q..]);
    SinceThen(old(dev.Rec().outcomes), asked, dev.Rec().outcomes, ok);
    assert dev.Footprint() - f <= (dev.Footprint() - g) + (g - f);
    WithinChain(v, w, dev.View(), b, q);
    if ok && shows {
      SplicedPartial(v, b, bytes, w);
    }
  }

  /** The last step of BlkdevWrite: read the block, replace its first bytes, write it back. */
  method RewriteHead(dev: Dev, b: nat, head: seq<byte>) returns (ok: bool)
    requires dev.Valid() && |head| < 512
    modifies dev.Footprint()
    ensures dev.Valid() && fresh(dev.Footprint() - old(dev.Footprint()))
    ensures OnlyWithin(old(dev.View()), dev.View(), b, 1)
    ensures dev.Cached? ==> dev.cached.caching == old(dev.cached.caching)
    ensures dev.Cached? && dev.cached.caching ==> dev.cached.child.content == old(dev.cached.child.content)
    ensures ok && old(dev.WritesShow(b, 1)) ==>
              && b in old(dev.View())
              && dev.View() == old(dev.View()) + BlocksOf(b, [head + old(dev.View())[b][|head|..]])
    ensures Since(old(dev.Rec().outcomes), dev.Rec().outcomes, ok)
  {
    hide Dev.Valid, Dev.View, Since;
    var last;
    ghost var f := dev.Footprint();
    ok, last := dev.GetN(b, 1);
    if !ok {
      return;
    }
    ghost var g, asked := dev.Footprint(), dev.Rec().outcomes;
    assert last[0] == dev.View()[b];
    ok := dev.PutN(b, [head + last[0][|head|..]]);
    SinceThen(old(dev.Rec().outcomes), asked, dev.Rec().outcomes, ok);
    assert dev.Footprint() - f <= (dev.Footprint() - g) + (g - f);
  }
}

/** The redirected root disk of lsvmload/diskbio.c: regions laid over a physical disk by hooked block I/O. */
module DiskBio {
  import opened Bytes
  import opened Blkdev
  import opened ByteAccess
  import Trace

  /** Where a region keeps its blocks: in memory, or behind a block I/O protocol of its own. */
  datatype Backing = Memory(blocks: seq<Block>) | Bio(content: Image)

  datatype Region = Region(firstLBA: nat, lastLBA: nat, numBlocks: nat, readOnly: bool, backing: Backing)

  predicate Holds(r: Region, lba: nat) {
    r.firstLBA <= lba <= r.lastLBA
  }

  /** The regions never claim more memory than they have. */
  predicate Sound(rs: seq<Region>) {
    forall i :: 0 <= i < |rs| ==> rs[i].backing.Memory? ==> rs[i].numBlocks <= |rs[i].backing.blocks|
  }

  /** The first region that holds `lba`, or the number of regions. */
  function First(rs: seq<Region>, lba: nat): (i: nat)
    ensures i <= |rs| && (i < |rs| ==> Holds(rs[i], lba))
    ensures forall j :: 0 <= j < i ==> !Holds(rs[j], lba)
  {
    if rs == [] || Holds(rs[0], lba) then 0 else 1 + First(rs[1..], lba)
  }

  /** Local block `l` of a region: zeros where memory does not back it. */
  predicate HasBlock(r: Region, l: nat) {
    match r.backing
    case Memory(blocks) => l < r.numBlocks ==> l < |blocks|
    case Bio(content) => l in content
  }

  function BlockOf(r: Region, l: nat): Block
    requires HasBlock(r, l)
  {
    match r.backing
    case Memory(blocks) => if l < r.numBlocks then blocks[l] else Zeros(512)
    case Bio(content) => content[l]
  }

  // ----- What a read sees

  /** Block `l` of a request that starts at `lba`: the region found at `lba` up to its end, then the disk. */
  predicate Serves(rs: seq<Region>, disk: Image, lba: nat, l: nat) {
    var i := First(rs, lba);
    if i < |rs| && lba <= l <= rs[i].lastLBA then HasBlock(rs[i], l - rs[i].firstLBA) else l in disk
  }

  function Served(rs: seq<Region>, disk: Image, lba: nat, l: nat): Block
    requires Serves(rs, disk, lba, l)
  {
    var i := First(rs, lba);
    if i < |rs| && lba <= l <= rs[i].lastLBA then BlockOf(rs[i], l - rs[i].firstLBA) else disk[l]
  }

  /** What requests starting at `lba` find in the next `n` blocks. */
  ghost function ReadView(rs: seq<Region>, disk: Image, lba: nat, n: nat): (v: Image)
    ensures forall l :: l in v <==> lba <= l < lba + n && Serves(rs, disk, lba, l)
    ensures forall l :: l in v ==> v[l] == Served(rs, disk, lba, l)
  {
    map l: nat | lba <= l < lba + n && Serves(rs, disk, lba, l) :: Served(rs, disk, lba, l)
  }

  /**
    Which block of its store a region delivers: block `l` of a request that starts in region `i`, and in none
    before it, is the store's block counted from the region's first LBA, and zeros beyond what is backed.
   */
  lemma RegionDelivers(rs: seq<Region>, disk: Image, i: nat, lba: nat, n: nat, l: nat)
    requires i < |rs| && rs[i].firstLBA <= lba <= rs[i].lastLBA
    requires forall j :: 0 <= j < i ==> lba < rs[j].firstLBA || lba > rs[j].lastLBA
    requires lba <= l < lba + n && l <= rs[i].lastLBA
    ensures var v, k := ReadView(rs, disk, lba, n), l - rs[i].firstLBA;
            match rs[i].backing
            case Bio(content) => (l in v <==> k in content) && (l in v ==> v[l] == content[k])
            case Memory(blocks) =>
              if k >= rs[i].numBlocks then l in v && v[l] == Zeros(512)
              else (l in v <==> k < |blocks|) && (l in v ==> v[l] == blocks[k])
  {
    FirstFound(rs, i, lba);
  }

  lemma FirstFound(rs: seq<Region>, i: nat, lba: nat)
    requires i < |rs| && rs[i].firstLBA <= lba <= rs[i].lastLBA
    requires forall j :: 0 <= j < i ==> lba < rs[j].firstLBA || lba > rs[j].lastLBA
    ensures First(rs, lba) == i
  {
    assert Holds(rs[i], lba) && First(rs, lba) <= i;
  }

  /** Behind the region a request started in, or when it started in none, it delivers the disk. */
  lemma DiskDelivers(rs: seq<Region>, disk: Image, i: nat, lba: nat, n: nat, l: nat)
    requires i <= |rs| && forall j :: 0 <= j < i ==> lba < rs[j].firstLBA || lba > rs[j].lastLBA
    requires i < |rs| ==> rs[i].firstLBA <= lba <= rs[i].lastLBA < l
    requires lba <= l < lba + n
    ensures var v := ReadView(rs, disk, lba, n); (l in v <==> l in disk) && (l in v ==> v[l] == disk[l])
  {
    if i < |rs| {
      FirstFound(rs, i, lba);
    }
  }

  /** One disk made of all regions, the first one winning, over the physical disk. */
  ghost function Composite(rs: seq<Region>, disk: Image, lba: nat, n: nat): (v: Image)
    ensures forall l :: l in v <==> lba <= l < lba + n && Serves(rs, disk, l, l)
    ensures forall l :: l in v ==> v[l] == Served(rs, disk, l, l)
  {
    map l: nat | lba <= l < lba + n && Serves(rs, disk, l, l) :: Served(rs, disk, l, l)
  }

  /** What delivers block `l` of a request at `lba`: the region found there up to its end, else the disk. */
  function Source(rs: seq<Region>, lba: nat, l: nat): nat {
    var i := First(rs, lba);
    if i < |rs| && l <= rs[i].lastLBA then i else |rs|
  }

  /** Every block of the request comes from where the composite disk has it. */
  ghost predicate Straight(rs: seq<Region>, lba: nat, n: nat) {
    forall l :: lba <= l < lba + n ==> First(rs, l) == Source(rs, lba, l)
  }

  lemma SameServe(rs: seq<Region>, disk: Image, lba: nat, l: nat)
    requires lba <= l && First(rs, l) == Source(rs, lba, l)
    ensures Serves(rs, disk, lba, l) == Serves(rs, disk, l, l)
    ensures Serves(rs, disk, l, l) ==> Served(rs, disk, lba, l) == Served(rs, disk, l, l)
  {
  }

  /**
    A request reads the composite disk if it stays in one region, stays outside all of them, or leaves
    its region for the bare disk.
   */
  lemma ReadsComposite(rs: seq<Region>, disk: Image, lba: nat, n: nat)
    requires Straight(rs, lba, n)
    ensures ReadView(rs, disk, lba, n) == Composite(rs, disk, lba, n)
  {
    hide Serves, Served, ReadView, Composite, First, Source;
    forall l | lba <= l < lba + n
      ensures Serves(rs, disk, lba, l) == Serves(rs, disk, l, l)
      ensures Serves(rs, disk, l, l) ==> Served(rs, disk, lba, l) == Served(rs, disk, l, l)
    {
      SameServe(rs, disk, lba, l);
    }
  }

  ghost predicate Apart(rs: seq<Region>) {
    forall i, j, l :: 0 <= i < j < |rs| && Holds(rs[i], l) ==> !Holds(rs[j], l)
  }

  /** Of regions that do not overlap, a request is straight exactly when it runs into no region it did not start in. */
  lemma StraightIs(rs: seq<Region>, lba: nat, n: nat)
    requires Apart(rs)
    ensures Straight(rs, lba, n) <==>
            forall l :: lba <= l < lba + n ==> First(rs, l) == First(rs, lba) || First(rs, l) == |rs|
  {
    hide First, Source, Apart;
    if Straight(rs, lba, n) {
      forall l | lba <= l < lba + n ensures First(rs, l) == First(rs, lba) || First(rs, l) == |rs| {
        OneHolder(rs, lba, l);
      }
    } else {
      var l :| lba <= l < lba + n && First(rs, l) != Source(rs, lba, l);
      OneHolder(rs, lba, l);
    }
  }

  lemma OneHolder(rs: seq<Region>, lba: nat, l: nat)
    requires Apart(rs) && lba <= l
    ensures Source(rs, lba, l) < |rs| ==> First(rs, l) == Source(rs, lba, l) == First(rs, lba)
    ensures First(rs, l) == Source(rs, lba, l) <==> First(rs, l) == First(rs, lba) || First(rs, l) == |rs|
  {
    var i, j := First(rs, lba), First(rs, l);
    if Source(rs, lba, l) < |rs| {
      assert Holds(rs[i], l);
      assert j <= i;
    }
  }

  /** A request that runs into another region skips it: there is a disk on which it does not read the composite. */
  lemma SkipsRegion(rs: seq<Region>, lba: nat, n: nat, l: nat) returns (disk: Image)
    requires lba <= l < lba + n && Source(rs, lba, l) == |rs| && First(rs, l) < |rs|
    ensures ReadView(rs, disk, lba, n) != Composite(rs, disk, lba, n)
  {
    hide First, HasBlock, BlockOf;
    var r := rs[First(rs, l)];
    var j := l - r.firstLBA;
    disk := map[l := if HasBlock(r, j) then Other(BlockOf(r, j)) else Zeros(512)];
    assert Serves(rs, disk, lba, l) && Served(rs, disk, lba, l) == disk[l];
    assert l in ReadView(rs, disk, lba, n);
  }

  ghost predicate AlwaysComposite(rs: seq<Region>, lba: nat, n: nat) {
    forall disk :: ReadView(rs, disk, lba, n) == Composite(rs, disk, lba, n)
  }

  /**
    With regions that do not overlap, a request reads the composite disk, whatever the disk holds, if and only
    if it runs into no region other than the one it starts in.
   */
  lemma ReadsCompositeIff(rs: seq<Region>, lba: nat, n: nat)
    requires Apart(rs)
    ensures AlwaysComposite(rs, lba, n) <==>
            forall l :: lba <= l < lba + n ==> First(rs, l) == First(rs, lba) || First(rs, l) == |rs|
  {
    hide First, Source, ReadView, Composite;
    StraightIs(rs, lba, n);
    if Straight(rs, lba, n) {
      forall disk ensures ReadView(rs, disk, lba, n) == Composite(rs, disk, lba, n) {
        ReadsComposite(rs, disk, lba, n);
      }
    } else {
      var l :| lba <= l < lba + n && First(rs, l) != Source(rs, lba, l);
      OneHolder(rs, lba, l);
      SourceIs(rs, lba, l);
      var disk := SkipsRegion(rs, lba, n, l);
    }
  }

  lemma SourceIs(rs: seq<Region>, lba: nat, l: nat)
    ensures Source(rs, lba, l) <= |rs|
  {
  }

  /** A region of one block, and a request that starts on the block before it and skips it. */
  lemma SkipsRegionExample()
    ensures var rs := [Region(10, 10, 1, true, Memory([Zeros(512)]))];
            Apart(rs) && !AlwaysComposite(rs, 9, 2)
  {
    var rs := [Region(10, 10, 1, true, Memory([Zeros(512)]))];
    assert First(rs, 9) == 1 && First(rs, 10) == 0;
    ReadsCompositeIff(rs, 9, 2);
  }

  /** Appending a region changes no request that starts below it. */
  lemma {:induction false} AppendRegion(rs: seq<Region>, r: Region, disk: Image, lba: nat, n: nat)
    requires lba < r.firstLBA
    ensures ReadView(rs + [r], disk, lba, n) == ReadView(rs, disk, lba, n)
  {
    FirstAppend(rs, r, lba);
    forall l | lba <= l < lba + n ensures Serves(rs + [r], disk, lba, l) == Serves(rs, disk, lba, l) {
    }
  }

  lemma {:induction false} FirstAppend(rs: seq<Region>, r: Region, lba: nat)
    requires !Holds(r, lba)
    ensures First(rs + [r], lba) == if First(rs, lba) < |rs| then First(rs, lba) else |rs| + 1
  {
    if rs == [] {
      assert rs + [r] == [r];
      assert First([r][1..], lba) == 0;
    } else if !Holds(rs[0], lba) {
      FirstAppend(rs[1..], r, lba);
      assert (rs + [r])[1..] == rs[1..] + [r];
    }
  }

  lemma BytesConcat(v: Image, b: nat, m: nat, rem: nat)
    requires Covers(v, b, m) && Covers(v, b + m, BlockCount(rem))
    ensures Covers(v, b, BlockCount(512 * m + rem))
    ensures BytesAt(v, b, 512 * m) + BytesAt(v, b + m, rem) == BytesAt(v, b, 512 * m + rem)
  {
    assert BlockCount(512 * m + rem) == m + BlockCount(rem);
    var l, r := BytesAt(v, b, 512 * m) + BytesAt(v, b + m, rem), BytesAt(v, b, 512 * m + rem);
    forall i | 0 <= i < 512 * m + rem ensures l[i] == r[i] {
      if i >= 512 * m {
        assert i / 512 == m + (i - 512 * m) / 512 && i % 512 == (i - 512 * m) % 512;
      }
    }
  }

  lemma BytesAgree(v: Image, w: Image, b: nat, size: nat)
    requires Covers(v, b, BlockCount(size)) && Covers(w, b, BlockCount(size))
    requires forall l :: b <= l < b + BlockCount(size) ==> v[l] == w[l]
    ensures BytesAt(v, b, size) == BytesAt(w, b, size)
  {
  }

  /** The blocks a region has to deliver from `lba` on are those of the read view. */
  lemma RegionServes(rs: seq<Region>, disk: Image, lba: nat, n: nat, l: nat)
    requires First(rs, lba) < |rs| && lba <= l < lba + n && l <= rs[First(rs, lba)].lastLBA
    requires HasBlock(rs[First(rs, lba)], l - rs[First(rs, lba)].firstLBA)
    ensures l in ReadView(rs, disk, lba, n)
    ensures ReadView(rs, disk, lba, n)[l] == BlockOf(rs[First(rs, lba)], l - rs[First(rs, lba)].firstLBA)
  {
  }

  /** What a request finds inside its region does not depend on the disk. */
  lemma OtherDisk(rs: seq<Region>, disk: Image, disk': Image, lba: nat, n: nat, k: nat, size: nat)
    requires First(rs, lba) < |rs| && k <= n && lba + k <= rs[First(rs, lba)].lastLBA + 1
    requires Covers(ReadView(rs, disk, lba, n), lba, k) && BlockCount(size) <= k
    ensures Covers(ReadView(rs, disk', lba, n), lba, k)
    ensures BytesAt(ReadView(rs, disk', lba, n), lba, size) == BytesAt(ReadView(rs, disk, lba, n), lba, size)
  {
    hide BytesAt, First, BlockCount, ReadView;
    var v, v' := ReadView(rs, disk, lba, n), ReadView(rs, disk', lba, n);
    forall l | lba <= l < lba + k ensures l in v' && v'[l] == v[l] {
      assert l in v && Serves(rs, disk, lba, l);
    }
    BytesAgree(ReadView(rs, disk, lba, n), ReadView(rs, disk', lba, n), lba, size);
  }

  /** Behind the region the read view is the disk. */
  lemma DiskServes(rs: seq<Region>, disk: Image, lba: nat, n: nat, from: nat, size: nat)
    requires lba <= from && from + BlockCount(size) <= lba + n && Covers(disk, from, BlockCount(size))
    requires First(rs, lba) < |rs| ==> from > rs[First(rs, lba)].lastLBA
    ensures Covers(ReadView(rs, disk, lba, n), from, BlockCount(size))
    ensures BytesAt(ReadView(rs, disk, lba, n), from, size) == BytesAt(disk, from, size)
  {
    hide BytesAt, First;
    BytesAgree(ReadView(rs, disk, lba, n), disk, from, size);
  }

  /** Whole blocks of the read view and the rest of the request from the disk behind them. */
  lemma Continued(rs: seq<Region>, disk: Image, lba: nat, size: nat, k: nat)
    requires 512 * k < size && Covers(disk, lba + k, BlockCount(size - 512 * k))
    requires First(rs, lba) < |rs| ==> lba + k > rs[First(rs, lba)].lastLBA
    requires Covers(ReadView(rs, disk, lba, BlockCount(size)), lba, k)
    ensures var v := ReadView(rs, disk, lba, BlockCount(size));
            && Covers(v, lba, BlockCount(size))
            && BytesAt(v, lba, 512 * k) + BytesAt(disk, lba + k, size - 512 * k) == BytesAt(v, lba, size)
  {
    hide ReadView, BytesAt, First;
    assert BlockCount(size) == k + BlockCount(size - 512 * k);
    DiskServes(rs, disk, lba, BlockCount(size), lba + k, size - 512 * k);
    BytesConcat(ReadView(rs, disk, lba, BlockCount(size)), lba, k, size - 512 * k);
  }

  /** A request that starts in no region reads the disk, whatever regions it runs into. */
  lemma BareDisk(rs: seq<Region>, disk: Image, lba: nat, size: nat)
    requires First(rs, lba) == |rs| && Covers(ReadView(rs, disk, lba, BlockCount(size)), lba, BlockCount(size))
    ensures Covers(disk, lba, BlockCount(size))
    ensures BytesAt(ReadView(rs, disk, lba, BlockCount(size)), lba, size) == BytesAt(disk, lba, size)
  {
    hide BytesAt, First, BlockCount, ReadView;
    var v := ReadView(rs, disk, lba, BlockCount(size));
    forall l | lba <= l < lba + BlockCount(size) ensures l in disk && v[l] == disk[l] {
      assert l in v && Serves(rs, disk, lba, l);
    }
    BytesAgree(v, disk, lba, size);
  }

  // ----- What a write leaves

  /** The bytes of a request as blocks, the last one filled up with zeros. */
  function PadBlock(bytes: seq<byte>, i: nat): (b: Block)
    requires i < BlockCount(|bytes|)
    ensures forall j :: 0 <= j < 512 ==> b[j] == if 512 * i + j < |bytes| then bytes[512 * i + j] else 0
  {
    if 512 * i + 512 <= |bytes| then bytes[512 * i..512 * i + 512]
    else bytes[512 * i..] + Zeros(512 - (|bytes| - 512 * i))
  }

  function Pad(bytes: seq<byte>): (bs: seq<Block>)
    ensures |bs| == BlockCount(|bytes|) && forall i :: 0 <= i < |bs| ==> bs[i] == PadBlock(bytes, i)
  {
    seq(BlockCount(|bytes|), i requires 0 <= i < BlockCount(|bytes|) => PadBlock(bytes, i))
  }

  /** Local block `j` of memory after `bs` was written from local block `l` on; unbacked blocks are dropped. */
  function MemoryAfter(blocks: seq<Block>, numBlocks: nat, l: nat, bs: seq<Block>): (r: seq<Block>)
    ensures |r| == |blocks|
    ensures forall j :: 0 <= j < |r| ==> r[j] == if l <= j < l + |bs| && j < numBlocks then bs[j - l] else blocks[j]
  {
    seq(|blocks|, j requires 0 <= j < |blocks| =>
      if l <= j < l + |bs| && j < numBlocks then bs[j - l] else blocks[j])
  }

  function Written(r: Region, l: nat, bs: seq<Block>): (w: Region)
    ensures w.firstLBA == r.firstLBA && w.lastLBA == r.lastLBA && w.numBlocks == r.numBlocks && w.readOnly == r.readOnly
    ensures w.backing.Memory? == r.backing.Memory?
  {
    r.(backing :=
      match r.backing
      case Memory(blocks) => Memory(MemoryAfter(blocks, r.numBlocks, l, bs))
      case Bio(content) => Bio(content + BlocksOf(l, bs)))
  }

  lemma WrittenNothing(r: Region, l: nat)
    ensures Written(r, l, []) == r
  {
    if r.backing.Memory? {
      assert MemoryAfter(r.backing.blocks, r.numBlocks, l, []) == r.backing.blocks;
    } else {
      assert r.backing.content + BlocksOf(l, []) == r.backing.content;
    }
  }

  lemma WrittenSnoc(r: Region, l: nat, bs: seq<Block>, k: nat)
    requires k < |bs|
    ensures Written(Written(r, l, bs[..k]), l + k, [bs[k]]) == Written(r, l, bs[..k + 1])
  {
    if r.backing.Memory? {
      var m := MemoryAfter(r.backing.blocks, r.numBlocks, l, bs[..k]);
      assert MemoryAfter(m, r.numBlocks, l + k, [bs[k]]) == MemoryAfter(r.backing.blocks, r.numBlocks, l, bs[..k + 1]);
    } else {
      var c := r.backing.content;
      assert c + BlocksOf(l, bs[..k]) + BlocksOf(l + k, [bs[k]]) == c + BlocksOf(l, bs[..k + 1]);
    }
  }

  /** Block `j` of a region is backed: it is on a device, or inside its memory. */
  predicate Backed(r: Region, j: nat) {
    r.backing.Memory? ==> j < r.numBlocks
  }

  /** A written region delivers the written blocks where they are backed, zeros where not, and the rest as before. */
  lemma WrittenBlocks(r: Region, l: nat, bs: seq<Block>, j: nat)
    requires HasBlock(r, j) || l <= j < l + |bs|
    requires r.backing.Memory? ==> r.numBlocks <= |r.backing.blocks|
    ensures HasBlock(Written(r, l, bs), j)
    ensures BlockOf(Written(r, l, bs), j) ==
            if !Backed(r, j) then Zeros(512) else if l <= j < l + |bs| then bs[j - l] else BlockOf(r, j)
  {
  }

  /** Which blocks of its store a write to a region changes. */
  lemma WrittenStore(r: Region, l: nat, bs: seq<Block>, j: nat)
    ensures match r.backing
            case Bio(content) =>
              && Written(r, l, bs).backing.Bio?
              && var after := Written(r, l, bs).backing.content;
                 && (j in after <==> j in content || l <= j < l + |bs|)
                 && (j in after ==> after[j] == if l <= j < l + |bs| then bs[j - l] else content[j])
            case Memory(blocks) =>
              && Written(r, l, bs).backing.Memory?
              && var after := Written(r, l, bs).backing.blocks;
                 && |after| == |blocks|
                 && (j < |blocks| ==> after[j] == if l <= j < l + |bs| && j < r.numBlocks then bs[j - l] else blocks[j])
  {
  }

  lemma {:induction false} FirstUpdate(rs: seq<Region>, i: nat, r: Region, lba: nat)
    requires i < |rs| && r.firstLBA == rs[i].firstLBA && r.lastLBA == rs[i].lastLBA
    ensures First(rs[i := r], lba) == First(rs, lba)
  {
    var ss := rs[i := r];
    var a, b := First(rs, lba), First(ss, lba);
    assert a < b ==> !Holds(ss[a], lba);
    assert b < a ==> !Holds(rs[b], lba);
  }

  /**
    After a write of `bytes` at `lba` into region `i`, a request at `lba` finds, on each block of the
    region the write covered, the written block (padded with zeros at the end) if it is backed, else zeros.
   */
  lemma WriteThenRead(rs: seq<Region>, rs': seq<Region>, disk: Image, i: nat, lba: nat, bytes: seq<byte>, m: nat, n: nat, l: nat)
    requires Sound(rs) && i == First(rs, lba) && i < |rs| && m <= BlockCount(|bytes|)
    requires rs' == rs[i := Written(rs[i], lba - rs[i].firstLBA, Pad(bytes)[..m])]
    requires lba <= l < lba + m && l < lba + n && l <= rs[i].lastLBA
    ensures l in ReadView(rs', disk, lba, n)
    ensures ReadView(rs', disk, lba, n)[l] ==
            if Backed(rs[i], l - rs[i].firstLBA) then PadBlock(bytes, l - lba) else Zeros(512)
  {
    hide PadBlock, ReadView, Written, BlocksOf, HasBlock, BlockOf, Serves, Served, First, BlockCount;
    var r, r', bs := rs[i], rs'[i], Pad(bytes)[..m];
    var j, at := l - r.firstLBA, lba - r.firstLBA;
    FirstUpdate(rs, i, r', lba);
    WrittenBlocks(r, at, bs, j);
    assert bs[j - at] == PadBlock(bytes, l - lba) by {
      assert j - at == l - lba;
    }
    RegionServes(rs', disk, lba, n, l);
    assert ReadView(rs', disk, lba, n)[l] == BlockOf(r', j);
  }

  // ----- The hooks

  /** The request stays inside a region that is kept in memory. */
  predicate InMemory(rs: seq<Region>, lba: nat, n: nat) {
    var i := First(rs, lba);
    i < |rs| && rs[i].backing.Memory? && lba + n <= rs[i].lastLBA + 1
  }

  datatype Status = Ok | WriteProtected | Failed

  class RootDisk {
    var enableIOHooks: bool
    var regions: seq<Region>
    var disk: Image              // the physical disk behind the saved protocol functions
    const quiet: bool            // no region's device writes to this disk
    var log: seq<Trace.Outcome>  // how the device calls of the hooks themselves ended

    constructor (disk: Image, quiet: bool)
      ensures this.disk == disk && regions == [] && !enableIOHooks && this.quiet == quiet
    {
      this.disk, this.quiet, regions, enableIOHooks, log := disk, quiet, [], false, [];
    }

    method FindRegion(lba: nat) returns (i: nat)
      ensures i == First(regions, lba)
    {
      i := 0;
      while i < |regions|
        invariant 0 <= i <= |regions|
        invariant First(regions, lba) == i + First(regions[i..], lba)
      {
        if Holds(regions[i], lba) {
          return;
        }
        assert regions[i..][1..] == regions[i + 1..];
        i := i + 1;
      }
    }

    /** The saved ReadBlocks: may fail, and accepts only whole blocks (UEFI 2.10, section 13.9). */
    method SavedRead(lba: nat, size: nat) returns (ok: bool, out: seq<byte>)
      modifies this`log
      ensures log == old(log) + [Trace.Device(ok)]
      ensures ok ==> Covers(disk, lba, BlockCount(size)) && out == BytesAt(disk, lba, size)
    {
      ok, out := *, [];
      if size % 512 != 0 || exists l :: lba <= l < lba + BlockCount(size) && l !in disk {
        ok := false;
      }
      if ok {
        var bs: seq<Block> := [];
        for i := 0 to BlockCount(size)
          invariant bs == Slice(disk, lba, i)
        {
          bs := bs + [disk[lba + i]];
        }
        out := FromBlocks(bs);
        WholeBytes(disk, lba, BlockCount(size));
      }
      log := log + [Trace.Device(ok)];
    }

    /**
      What a region's own device may do to this disk through its hooked protocol while a hook runs: any number of
      reads, and writes too unless the devices are quiet. All of them go straight to the saved functions.
     */
    method Nested()
      requires !enableIOHooks && Sound(regions)
      modifies this
      ensures regions == old(regions) && !enableIOHooks && (quiet ==> disk == old(disk)) && log == old(log)
      decreases 1, 0
    {
      var nested: nat, before := *, log;
      while nested > 0
        invariant regions == old(regions) && !enableIOHooks && (quiet ==> disk == old(disk))
      {
        var lba: nat, size: nat, bytes: seq<byte>, isRead: bool := *, *, *, *;
        if isRead || quiet {
          var fine, data := ReadHook(lba, size);
        } else {
          var status, _ := WriteHook(lba, bytes);
        }
        nested := nested - 1;
      }
      log := before;
    }

    /** ReadBlocks of a region's own device. */
    method RegionRead(i: nat, l: nat) returns (ok: bool, block: Block)
      requires !enableIOHooks && Sound(regions) && i < |regions| && regions[i].backing.Bio?
      modifies this
      ensures regions == old(regions) && !enableIOHooks && (quiet ==> disk == old(disk))
      ensures log == old(log) + [Trace.Device(ok)]
      ensures ok ==> l in regions[i].backing.content && block == regions[i].backing.content[l]
      decreases 1, 1
    {
      Nested();
      ok, block := *, Zeros(512);
      ok := ok && l in regions[i].backing.content;
      if ok {
        block := regions[i].backing.content[l];
      }
      log := log + [Trace.Device(ok)];
    }

    /** The loop of the read hook inside the region at `lba`: stops at the end of the request or the region. */
    method ReadInRegion(lba: nat, size: nat, ghost v: Image) returns (ok: bool, k: nat, out: seq<byte>)
      requires !enableIOHooks && Sound(regions) && First(regions, lba) < |regions|
      requires v == ReadView(regions, disk, lba, BlockCount(size))
      modifies this
      ensures regions == old(regions) && !enableIOHooks && (quiet ==> disk == old(disk))
      ensures ok ==> Covers(v, lba, k) && |out| == (if size < 512 * k then size else 512 * k)
      ensures ok ==> BlockCount(|out|) <= k <= BlockCount(size) && lba + k <= regions[First(regions, lba)].lastLBA + 1
      ensures ok && |out| < size ==> lba + k == regions[First(regions, lba)].lastLBA + 1
      ensures ok ==> Covers(v, lba, BlockCount(|out|)) && out == BytesAt(v, lba, |out|)
      ensures regions[First(regions, lba)].backing.Memory? ==> ok
      ensures Trace.Since(old(log), log, ok)
      decreases 1, 2
    {
      hide BytesAt, ReadView, First, Trace.Since;
      Trace.NothingSince(log);
      var i := FindRegion(lba);
      var r := regions[i];
      ghost var disk0 := disk;
      ok, k, out := true, 0, [];
      EmptyBytes(v, lba);
      while lba + k <= r.lastLBA && |out| < size
        invariant regions == old(regions) && !enableIOHooks && (quiet ==> disk == old(disk)) && ok
        invariant Covers(v, lba, k) && |out| == (if size < 512 * k then size else 512 * k)
        invariant k <= BlockCount(size) && lba + k <= r.lastLBA + 1
        invariant Covers(v, lba, BlockCount(|out|)) && out == BytesAt(v, lba, |out|)
        invariant Trace.Since(old(log), log, true)
      {
        var l, block: Block := lba + k - r.firstLBA, Zeros(512);
        if r.backing.Bio? {
          ghost var asked := log;
          ok, block := RegionRead(i, l);
          Trace.OneMore(old(log), asked, Trace.Device(ok));
          if !ok {
            return;
          }
        } else if l < r.numBlocks {
          block := r.backing.blocks[l];
        }
        var n := if size - |out| < 512 then size - |out| else 512;
        RegionServes(regions, disk0, lba, BlockCount(size), lba + k);
        PartialBytes(v, lba, k, n);
        out := out + block[..n];
        k := k + 1;
      }
    }

    /** The read hook. What it delivers behind a region is the disk as the region's device has left it. */
    method ReadHook(lba: nat, size: nat) returns (ok: bool, out: seq<byte>)
      requires Sound(regions)
      modifies this
      ensures regions == old(regions) && enableIOHooks == old(enableIOHooks)
      ensures quiet || !enableIOHooks ==> disk == old(disk)
      ensures ok && !enableIOHooks ==> Covers(disk, lba, BlockCount(size)) && out == BytesAt(disk, lba, size)
      ensures ok && enableIOHooks ==>
                var v := ReadView(regions, disk, lba, BlockCount(size));
                Covers(v, lba, BlockCount(size)) && out == BytesAt(v, lba, size)
      ensures ok && First(regions, lba) == |regions| ==>
                Covers(disk, lba, BlockCount(size)) && out == BytesAt(disk, lba, size)
      ensures enableIOHooks && InMemory(regions, lba, BlockCount(size)) ==> ok
      ensures Trace.Since(old(log), log, ok)
      decreases if enableIOHooks then 2 else 0
    {
      hide BytesAt, ReadView, Sound, First, BlockCount, Covers, Trace.Since;
      Trace.NothingSince(log);
      if !enableIOHooks {
        ok, out := SavedRead(lba, size);
        Trace.OneMore(old(log), old(log), Trace.Device(ok));
        return;
      }
      enableIOHooks := false;
      ghost var v := ReadView(regions, disk, lba, BlockCount(size));
      var i := FindRegion(lba);
      var k, rest := 0, [];
      ok, out := true, [];
      EmptyBytes(v, lba);
      if i < |regions| {
        ok, k, out := ReadInRegion(lba, size, v);
        if ok {
          OtherDisk(regions, old(disk), disk, lba, BlockCount(size), k, |out|);
          v := ReadView(regions, disk, lba, BlockCount(size));
        }
      }
      RestBehind(size, k);
      if ok && |out| < size {
        ghost var asked := log;
        ok, rest := SavedRead(lba + k, size - |out|);
        Trace.OneMore(old(log), asked, Trace.Device(ok));
        if ok {
          Continued(regions, disk, lba, size, k);
          out := out + rest;
        }
      }
      if ok && i == |regions| {
        BareDisk(regions, disk, lba, size);
      }
      enableIOHooks := true;
    }

    /** The saved WriteBlocks: whole blocks only; a failure may leave any of the blocks written. */
    method SavedWrite(lba: nat, bytes: seq<byte>) returns (ok: bool)
      modifies this`disk, this`log
      ensures log == old(log) + [Trace.Device(ok)]
      ensures OnlyWithin(old(disk), disk, lba, BlockCount(|bytes|))
      ensures ok ==> |bytes| % 512 == 0 && disk == old(disk) + BlocksOf(lba, ToBlocks(bytes))
    {
      ok := *;
      ok := ok && |bytes| % 512 == 0;
      log := log + [Trace.Device(ok)];
      if |bytes| % 512 != 0 {
        return;
      }
      if ok {
        disk := disk + BlocksOf(lba, ToBlocks(bytes));
      } else {
        var part: seq<byte> := *;
        if |part| == |bytes| && forall l :: lba <= l < lba + |bytes| / 512 ==> l in disk {
          disk := disk + BlocksOf(lba, ToBlocks(part));
        }
      }
    }

    /** WriteBlocks of a region's own device. */
    method RegionWrite(i: nat, l: nat, block: Block) returns (ok: bool, reached: bool)
      requires !enableIOHooks && Sound(regions) && i < |regions| && regions[i].backing.Bio?
      modifies this
      ensures !enableIOHooks && (quiet ==> disk == old(disk))
      ensures ok ==> reached
      ensures log == old(log) + [Trace.Device(ok)]
      ensures regions == if reached then old(regions)[i := Written(old(regions)[i], l, [block])] else old(regions)
      decreases 1, 1
    {
      Nested();
      reached := *;
      if reached {
        regions := regions[i := Written(regions[i], l, [block])];
      }
      ok := *;
      ok := ok && reached;
      log := log + [Trace.Device(ok)];
    }

    /** The loop of the write hook inside the region at `lba`. */
    method WriteInRegion(i: nat, lba: nat, bytes: seq<byte>) returns (ok: bool, k: nat)
      requires !enableIOHooks && Sound(regions) && i == First(regions, lba) && i < |regions|
      modifies this
      ensures !enableIOHooks && (quiet ==> disk == old(disk))
      ensures k <= BlockCount(|bytes|) && lba + k <= old(regions)[i].lastLBA + 1
      ensures regions == old(regions)[i := Written(old(regions)[i], lba - old(regions)[i].firstLBA, Pad(bytes)[..k])]
      ensures ok ==> k == BlockCount(|bytes|) || lba + k == old(regions)[i].lastLBA + 1
      ensures old(regions)[i].backing.Memory? ==> ok
      ensures Trace.Since(old(log), log, ok)
      decreases 1, 2
    {
      hide First, Written, PadBlock, Sound, Pad, Trace.Since;
      Trace.NothingSince(log);
      var r, bs := regions[i], Pad(bytes);
      ghost var rs := regions;
      ok, k := true, 0;
      WrittenNothing(r, lba - r.firstLBA);
      assert bs[..0] == [] && rs[i := r] == rs;
      while lba + k <= r.lastLBA && 512 * k < |bytes|
        invariant !enableIOHooks && (quiet ==> disk == old(disk))
        invariant k <= |bs| && lba + k <= r.lastLBA + 1
        invariant regions == rs[i := Written(r, lba - r.firstLBA, bs[..k])] && Sound(regions)
        invariant Trace.Since(old(log), log, true)
      {
        var l := lba + k - r.firstLBA;
        ghost var now := regions[i];
        WrittenSnoc(r, lba - r.firstLBA, bs, k);
        WrittenSound(regions, i, l, [bs[k]]);
        assert rs[i := now][i := Written(now, l, [bs[k]])] == rs[i := Written(r, lba - r.firstLBA, bs[..k + 1])];
        if regions[i].backing.Bio? {
          var reached;
          ghost var asked := log;
          ok, reached := RegionWrite(i, l, bs[k]);
          Trace.OneMore(old(log), asked, Trace.Device(ok));
          if !ok {
            k := if reached then k + 1 else k;
            return;
          }
        } else {
          MemoryWrite(i, l, bs[k]);
        }
        k := k + 1;
      }
    }

    /** The memory branch of the write loop: copy the block if it is backed, else drop it. */
    method MemoryWrite(i: nat, l: nat, block: Block)
      requires Sound(regions) && i < |regions| && regions[i].backing.Memory?
      modifies this`regions
      ensures regions == old(regions)[i := Written(old(regions)[i], l, [block])]
    {
      var r := regions[i];
      if l < r.numBlocks {
        regions := regions[i := r.(backing := Memory(r.backing.blocks[l := block]))];
        assert MemoryAfter(r.backing.blocks, r.numBlocks, l, [block]) == r.backing.blocks[l := block];
      } else {
        assert MemoryAfter(r.backing.blocks, r.numBlocks, l, [block]) == r.backing.blocks;
      }
    }

    /** The write hook; `mid` is the disk as the region's device has left it. */
    method WriteHook(lba: nat, bytes: seq<byte>) returns (status: Status, ghost mid: Image)
      requires Sound(regions)
      modifies this
      ensures enableIOHooks == old(enableIOHooks)
      ensures !enableIOHooks ==>
                && regions == old(regions) && OnlyWithin(old(disk), disk, lba, BlockCount(|bytes|))
                && (status == Ok ==> WroteDisk(old(disk), disk, lba, bytes))
      ensures enableIOHooks ==> HookedWrite(old(regions), mid, regions, disk, lba, bytes, status)
      ensures quiet ==> mid == old(disk)
      ensures enableIOHooks && InMemory(old(regions), lba, BlockCount(|bytes|)) ==> status != Failed
      ensures Trace.Since(old(log), log, status != Failed)
      decreases if enableIOHooks then 2 else 0
    {
      hide First, Written, Pad, Sound, OnlyWithin, ToBlocks, BlocksOf, Trace.Since;
      Trace.NothingSince(log);
      var ok;
      mid := disk;
      if !enableIOHooks {
        ok := SavedWrite(lba, bytes);
        Trace.OneMore(old(log), old(log), Trace.Device(ok));
        status := if ok then Ok else Failed;
        return;
      }
      enableIOHooks := false;
      var i := FindRegion(lba);
      if i < |regions| {
        if regions[i].readOnly {
          enableIOHooks := true;
          status := WriteProtected;
          return;
        }
        var k;
        ghost var rs, last := regions, regions[i].lastLBA;
        ok, k := WriteInRegion(i, lba, bytes);
        mid := disk;
        SameDisk(disk, last + 1, BlockCount(|bytes|));
        status := if ok then Ok else Failed;
        if ok && 512 * k < |bytes| {
          ghost var asked := log;
          ok := SavedWrite(lba + k, bytes[512 * k..]);
          Trace.OneMore(old(log), asked, Trace.Device(ok));
          WithinMore(mid, disk, last + 1, BlockCount(|bytes[512 * k..]|), BlockCount(|bytes|));
          status := if ok then Ok else Failed;
        }
        assert WroteRegion(rs, mid, regions, disk, i, lba, bytes, status, k);
      } else {
        SameDisk(disk, lba, BlockCount(|bytes|));
        status := Ok;
        if bytes != [] {
          ok := SavedWrite(lba, bytes);
          Trace.OneMore(old(log), old(log), Trace.Device(ok));
          status := if ok then Ok else Failed;
        }
      }
      enableIOHooks := true;
    }
  }

  lemma RestBehind(size: nat, k: nat)
    ensures 512 * k < size ==> k < BlockCount(size)
  {
  }

  lemma SameDisk(disk: Image, b: nat, n: nat)
    ensures OnlyWithin(disk, disk, b, n)
  {
  }

  /** `bytes` were written to the physical disk at `lba`. */
  ghost predicate WroteDisk(disk: Image, disk': Image, lba: nat, bytes: seq<byte>) {
    |bytes| % 512 == 0 && disk' == disk + BlocksOf(lba, ToBlocks(bytes))
  }

  /** The first `k` blocks of the request went to region `i`, and only what lies behind the region to the disk. */
  ghost predicate WroteRegion(rs: seq<Region>, disk: Image, rs': seq<Region>, disk': Image,
                              i: nat, lba: nat, bytes: seq<byte>, status: Status, k: nat)
    requires i < |rs|
  {
    var r := rs[i];
    && r.firstLBA <= lba && k <= BlockCount(|bytes|) && lba + k <= r.lastLBA + 1
    && rs' == rs[i := Written(r, lba - r.firstLBA, Pad(bytes)[..k])]
    && OnlyWithin(disk, disk', r.lastLBA + 1, BlockCount(|bytes|))
    && (status == Ok ==>
          if 512 * k >= |bytes| then disk' == disk
          else lba + k == r.lastLBA + 1 && WroteDisk(disk, disk', r.lastLBA + 1, bytes[512 * k..]))
  }

  /** What a hooked write does. */
  ghost predicate HookedWrite(rs: seq<Region>, disk: Image, rs': seq<Region>, disk': Image,
                              lba: nat, bytes: seq<byte>, status: Status) {
    var i := First(rs, lba);
    if i == |rs| then
      && rs' == rs && status != WriteProtected
      && OnlyWithin(disk, disk', lba, BlockCount(|bytes|))
      && (status == Ok && bytes != [] ==> WroteDisk(disk, disk', lba, bytes))
    else if rs[i].readOnly then
      rs' == rs && disk' == disk && status == WriteProtected
    else
      status != WriteProtected && exists k: nat :: WroteRegion(rs, disk, rs', disk', i, lba, bytes, status, k)
  }

  /** Behind the region a successful write leaves its own blocks on the disk, and nothing else changes there. */
  lemma WroteBehind(rs: seq<Region>, disk: Image, rs': seq<Region>, disk': Image, i: nat, lba: nat, bytes: seq<byte>, k: nat, l: nat)
    requires i < |rs| && WroteRegion(rs, disk, rs', disk', i, lba, bytes, Ok, k)
    ensures rs[i].lastLBA < l < lba + BlockCount(|bytes|) ==> l in disk' && disk'[l] == PadBlock(bytes, l - lba)
    ensures !(rs[i].lastLBA < l < lba + BlockCount(|bytes|)) ==>
              (l in disk' <==> l in disk) && (l in disk ==> disk'[l] == disk[l])
  {
    if 512 * k < |bytes| {
      var rest := bytes[512 * k..];
      assert |rest| / 512 == BlockCount(|bytes|) - k;
      if lba + k <= l < lba + BlockCount(|bytes|) {
        var a := 512 * (l - lba - k);
        assert rest[a..a + 512] == bytes[512 * (l - lba)..512 * (l - lba) + 512];
        assert ToBlocks(rest)[l - lba - k] == rest[a..a + 512];
      }
    }
  }

  /** After a successful write that starts in a device-backed region, the device holds the written blocks from its own block `lba - firstLBA` on. */
  lemma DeviceWritten(rs: seq<Region>, disk: Image, rs': seq<Region>, disk': Image, i: nat, lba: nat, bytes: seq<byte>, l: nat)
    requires i < |rs| && rs[i].firstLBA <= lba <= rs[i].lastLBA && rs[i].backing.Bio? && !rs[i].readOnly
    requires forall j :: 0 <= j < i ==> lba < rs[j].firstLBA || lba > rs[j].lastLBA
    requires HookedWrite(rs, disk, rs', disk', lba, bytes, Ok)
    requires rs[i].firstLBA <= l <= rs[i].lastLBA
    ensures |rs'| == |rs| && rs'[i].backing.Bio?
    ensures var k, before, after := l - rs[i].firstLBA, rs[i].backing.content, rs'[i].backing.content;
            if lba <= l < lba + BlockCount(|bytes|) then k in after && after[k] == PadBlock(bytes, l - lba)
            else (k in after <==> k in before) && (k in after ==> after[k] == before[k])
  {
    hide Written, PadBlock, First, HookedWrite, OnlyWithin, WroteDisk;
    FirstFound(rs, i, lba);
    var k := WroteFrom(rs, disk, rs', disk', i, lba, bytes);
    WrittenStore(rs[i], lba - rs[i].firstLBA, Pad(bytes)[..k], l - rs[i].firstLBA);
  }

  /** Block `l` as a read at `lba` finds it after `bytes` were written there: padded with zeros, or dropped. */
  function ReadBack(r: Region, lba: nat, bytes: seq<byte>, l: nat): Block
    requires r.firstLBA <= lba <= l < lba + BlockCount(|bytes|)
  {
    if l > r.lastLBA || Backed(r, l - r.firstLBA) then PadBlock(bytes, l - lba) else Zeros(512)
  }

  lemma WrittenReadsBack(rs: seq<Region>, disk: Image, rs': seq<Region>, disk': Image, i: nat, lba: nat, bytes: seq<byte>, k: nat, l: nat)
    requires Sound(rs) && i == First(rs, lba) && i < |rs| && WroteRegion(rs, disk, rs', disk', i, lba, bytes, Ok, k)
    requires lba <= l < lba + BlockCount(|bytes|)
    ensures l in ReadView(rs', disk', lba, BlockCount(|bytes|))
    ensures ReadView(rs', disk', lba, BlockCount(|bytes|))[l] == ReadBack(rs[i], lba, bytes, l)
  {
    hide ReadView, Written, First, PadBlock, Pad, Sound;
    if l <= rs[i].lastLBA {
      WriteThenRead(rs, rs', disk', i, lba, bytes, k, BlockCount(|bytes|), l);
    } else {
      WroteBehind(rs, disk, rs', disk', i, lba, bytes, k, l);
      FirstUpdate(rs, i, rs'[i], lba);
      assert Serves(rs', disk', lba, l) && Served(rs', disk', lba, l) == disk'[l];
    }
  }

  /**
    A successful hooked write that starts in a writable region, read back at the same place. Every block of the
    request, inside the region or behind it, reads as the written block, its missing rest as zeros, except
    that blocks of the region that nothing backs read as zeros. Other regions are unchanged, and so is
    every block of the disk except those of the request behind the region.
   */
  lemma HookedRoundTrip(rs: seq<Region>, disk: Image, rs': seq<Region>, disk': Image, i: nat, lba: nat, bytes: seq<byte>)
    requires Sound(rs) && i == First(rs, lba) && i < |rs| && !rs[i].readOnly
    requires HookedWrite(rs, disk, rs', disk', lba, bytes, Ok)
    ensures |rs'| == |rs| && forall j :: 0 <= j < |rs| && j != i ==> rs'[j] == rs[j]
    ensures forall l :: !(rs[i].lastLBA < l < lba + BlockCount(|bytes|)) ==>
              (l in disk' <==> l in disk) && (l in disk ==> disk'[l] == disk[l])
    ensures var v := ReadView(rs', disk', lba, BlockCount(|bytes|));
            && Covers(v, lba, BlockCount(|bytes|))
            && (forall l :: lba <= l < lba + BlockCount(|bytes|) ==> v[l] == ReadBack(rs[i], lba, bytes, l))
            && forall p :: 0 <= p < |bytes| ==>
                 BytesAt(v, lba, |bytes|)[p] ==
                 if lba + p / 512 > rs[i].lastLBA || Backed(rs[i], lba + p / 512 - rs[i].firstLBA) then bytes[p] else 0
  {
    hide ReadView, Written, First, PadBlock, Pad, WroteRegion, ReadBack, Backed, BytesAt, HookedWrite, Sound;
    var n := BlockCount(|bytes|);
    var k := WroteFrom(rs, disk, rs', disk', i, lba, bytes);
    RegionReplaced(rs, disk, rs', disk', i, lba, bytes, k);
    forall l ensures !(rs[i].lastLBA < l < lba + n) ==> (l in disk' <==> l in disk) && (l in disk ==> disk'[l] == disk[l]) {
      if l >= 0 {
        WroteBehind(rs, disk, rs', disk', i, lba, bytes, k, l);
      }
    }
    forall l | lba <= l < lba + n
      ensures l in ReadView(rs', disk', lba, n)
      ensures ReadView(rs', disk', lba, n)[l] == ReadBack(rs[i], lba, bytes, l)
    {
      WrittenReadsBack(rs, disk, rs', disk', i, lba, bytes, k, l);
    }
    BytesReadBack(ReadView(rs', disk', lba, n), rs[i], lba, bytes);
  }

  lemma BytesReadBack(v: Image, r: Region, lba: nat, bytes: seq<byte>)
    requires r.firstLBA <= lba && Covers(v, lba, BlockCount(|bytes|))
    requires forall l :: lba <= l < lba + BlockCount(|bytes|) ==> v[l] == ReadBack(r, lba, bytes, l)
    ensures forall p :: 0 <= p < |bytes| ==>
              BytesAt(v, lba, |bytes|)[p] ==
              if lba + p / 512 > r.lastLBA || Backed(r, lba + p / 512 - r.firstLBA) then bytes[p] else 0
  {
    hide PadBlock, Backed;
    forall p | 0 <= p < |bytes|
      ensures BytesAt(v, lba, |bytes|)[p] ==
              if lba + p / 512 > r.lastLBA || Backed(r, lba + p / 512 - r.firstLBA) then bytes[p] else 0
    {
      PadByte(bytes, p);
      assert v[lba + p / 512] == ReadBack(r, lba, bytes, lba + p / 512);
    }
  }

  /** How much of a successful write went to the region it started in. */
  lemma WroteFrom(rs: seq<Region>, disk: Image, rs': seq<Region>, disk': Image, i: nat, lba: nat, bytes: seq<byte>) returns (k: nat)
    requires i == First(rs, lba) && i < |rs| && !rs[i].readOnly && HookedWrite(rs, disk, rs', disk', lba, bytes, Ok)
    ensures WroteRegion(rs, disk, rs', disk', i, lba, bytes, Ok, k)
  {
    hide WroteRegion, First, OnlyWithin, WroteDisk;
    k :| WroteRegion(rs, disk, rs', disk', i, lba, bytes, Ok, k);
  }

  lemma RegionReplaced(rs: seq<Region>, disk: Image, rs': seq<Region>, disk': Image, i: nat, lba: nat, bytes: seq<byte>, k: nat)
    requires i < |rs| && WroteRegion(rs, disk, rs', disk', i, lba, bytes, Ok, k)
    ensures |rs'| == |rs| && forall j :: 0 <= j < |rs| && j != i ==> rs'[j] == rs[j]
  {
  }

  lemma PadByte(bytes: seq<byte>, p: nat)
    requires p < |bytes|
    ensures PadBlock(bytes, p / 512)[p % 512] == bytes[p]
  {
  }

  lemma WrittenSound(rs: seq<Region>, i: nat, l: nat, bs: seq<Block>)
    requires Sound(rs) && i < |rs|
    ensures Sound(rs[i := Written(rs[i], l, bs)])
  {
  }

  lemma EmptyBytes(v: Image, b: nat)
    ensures Covers(v, b, 0) && Covers(v, b, BlockCount(0)) && BytesAt(v, b, 0) == []
  {
  }
}

/**
  The partition table of the redirected disk and the regions that go with it (lsvmload/diskbio.c, bootbio.c;
  UEFI 2.10, section 5.3). The table the loader edits is also the memory of the first region, so every
  edit shows in what the redirected disk delivers.
 */
module Partitions {
  import opened Bytes
  import opened LittleEndian
  import opened Blkdev
  import opened ByteAccess
  import opened DiskBio

  type u64 = x: int | 0 <= x < 0x1_0000_0000_0000_0000

  // ----- Entries

  /** A GPTEntry as its bytes: type GUID, unique GUID, first and last LBA, attributes, name. */
  type Entry = e: seq<byte> | |e| == 128 witness Zeros(128)

  predicate Used(e: Entry) {
    Val(e[..8]) != 0
  }

  function StartingLBA(e: Entry): nat {
    Val(e[32..40])
  }

  function EndingLBA(e: Entry): nat {
    Val(e[40..48])
  }

  /** The used entries are exactly the first `n`. */
  predicate Dense(es: seq<Entry>, n: nat) {
    n <= |es| && (forall i :: 0 <= i < n ==> Used(es[i])) && forall i :: n <= i < |es| ==> !Used(es[i])
  }

  /** The first free slot from `i` on, or the number of slots. */
  function FreeSlot(es: seq<Entry>, i: nat): (k: nat)
    requires i <= |es|
    ensures i <= k <= |es| && (forall j :: i <= j < k ==> Used(es[j])) && (k < |es| ==> !Used(es[k]))
    decreases |es| - i
  {
    if i == |es| || !Used(es[i]) then i else FreeSlot(es, i + 1)
  }

  lemma {:induction false} FreeSlotIs(es: seq<Entry>, i: nat, n: nat)
    requires i <= n <= |es| && (forall j :: i <= j < n ==> Used(es[j])) && (n < |es| ==> !Used(es[n]))
    ensures FreeSlot(es, i) == n
    decreases n - i
  {
    if i < n {
      FreeSlotIs(es, i + 1, n);
    }
  }

  /** A partition to add: its GUID, its range, and its name in UTF-16 without the terminator. */
  datatype Partition = Partition(guid: seq<byte>, first: u64, last: u64, name: seq<byte>)

  predicate Nameable(p: Partition) {
    |p.guid| == 16 && |p.name| <= 70
  }

  /** The entry AddPartition makes: the previous entry, with an identity, a range and a terminated name of its own. */
  function NewEntry(prev: Entry, p: Partition): Entry
    requires Nameable(p)
  {
    prev[..16] + p.guid + Enc(p.first, 8) + Enc(p.last, 8) + prev[48..56] + p.name + [0, 0] + prev[58 + |p.name|..]
  }

  lemma NewEntryFields(prev: Entry, p: Partition)
    requires Nameable(p)
    ensures var e := NewEntry(prev, p);
            (Used(e) <==> Used(prev)) && StartingLBA(e) == p.first && EndingLBA(e) == p.last
    ensures var e := NewEntry(prev, p);
            && e[..16] == prev[..16] && e[16..32] == p.guid && e[32..40] == Enc(p.first, 8) && e[40..48] == Enc(p.last, 8)
            && e[48..56] == prev[48..56] && e[56..56 + |p.name|] == p.name && e[56 + |p.name|..58 + |p.name|] == [0, 0]
            && e[58 + |p.name|..] == prev[58 + |p.name|..]
  {
    hide Val, Enc, Pow256;
    var e := NewEntry(prev, p);
    assert e[..8] == prev[..8] && e[32..40] == Enc(p.first, 8) && e[40..48] == Enc(p.last, 8);
    ValEnc(p.first, 8);
    ValEnc(p.last, 8);
    Pow256Values();
  }

  /** The entries after AddPartition: one slot changes, or none when all slots behind the first are used. */
  function Added(es: seq<Entry>, p: Partition): (r: seq<Entry>)
    requires 1 <= |es| && Nameable(p)
    ensures |r| == |es|
  {
    var k := FreeSlot(es, 1);
    if k < |es| then es[k := NewEntry(es[k - 1], p)] else es
  }

  /** With at least one partition and a free slot, the new entry extends the dense prefix by one. */
  lemma AddKeepsDense(es: seq<Entry>, n: nat, p: Partition)
    requires Dense(es, n) && 1 <= |es| && Nameable(p)
    ensures 1 <= n < |es| <==> Dense(Added(es, p), n + 1)
    ensures var r := Added(es, p);
            && (forall i :: 0 <= i < n ==> r[i] == es[i])
            && (1 <= n < |es| ==> StartingLBA(r[n]) == p.first && EndingLBA(r[n]) == p.last && FreeSlot(r, 0) == n + 1)
            && (1 <= n < |es| ==>
                  && r[n][..16] == es[n - 1][..16] && r[n][16..32] == p.guid && r[n][48..56] == es[n - 1][48..56]
                  && r[n][56..56 + |p.name|] == p.name && r[n][56 + |p.name|..58 + |p.name|] == [0, 0])
  {
    hide Used, NewEntry, StartingLBA, EndingLBA;
    var r := Added(es, p);
    if n == 0 {
      assert !Used(r[0]);
    } else {
      FreeSlotIs(es, 1, n);
      if n < |es| {
        NewEntryFields(es[n - 1], p);
        FreeSlotIs(r, 0, n + 1);
      }
    }
  }

  // ----- The table as blocks

  function LastUsableLBA(header: Block): nat {
    Val(header[48..56])
  }

  /** The header after the disk was found to reach to `last`. Its checksums stay as they were. */
  function Grown(header: Block, last: u64): (r: Block) {
    if last > LastUsableLBA(header) then header[..48] + Enc(last, 8) + header[56..] else header
  }

  lemma GrownIs(header: Block, last: u64)
    ensures LastUsableLBA(Grown(header, last)) == if last > LastUsableLBA(header) then last else LastUsableLBA(header)
    ensures Grown(header, last) == header <==> last <= LastUsableLBA(header)
    ensures Grown(Grown(header, last), last) == Grown(header, last)
  {
    hide Val, Enc, Pow256;
    ValEnc(last, 8);
    Pow256Values();
    assert last > LastUsableLBA(header) ==> Grown(header, last)[48..56] == Enc(last, 8);
  }

  /** In the bytes of the header: the last usable LBA is the 64-bit word at offset 48, and nothing else changes. */
  lemma GrownBytes(front: seq<byte>, old': u64, back: seq<byte>, last: u64)
    requires |front| == 48 && |back| == 456
    ensures var h: Block := front + Enc(old', 8) + back;
            LastUsableLBA(h) == old' && Grown(h, last) == front + Enc(if last > old' then last else old', 8) + back
  {
    hide Val, Enc, Pow256;
    var h: Block := front + Enc(old', 8) + back;
    assert h[48..56] == Enc(old', 8) && h[..48] == front && h[56..] == back;
    ValEnc(old', 8);
    Pow256Values();
  }

  /** An entry is in use exactly when one of its first eight bytes is not zero. */
  lemma UsedBytes(e: Entry)
    ensures Used(e) <==> exists i :: 0 <= i < 8 && e[i] != 0
  {
    ValNonZero(e[..8]);
    assert forall i :: 0 <= i < 8 ==> e[..8][i] == e[i];
  }

  lemma {:induction false} ValNonZero(s: seq<byte>)
    ensures Val(s) != 0 <==> exists i :: 0 <= i < |s| && s[i] != 0
  {
    if s != [] {
      ValNonZero(s[1..]);
      if i :| 0 <= i < |s| && s[i] != 0 && i > 0 {
        assert s[1..][i - 1] != 0;
      }
      if j :| 0 <= j < |s[1..]| && s[1..][j] != 0 {
        assert s[j + 1] != 0;
      }
    }
  }

  /** The union `_u`: the protective MBR, the header, 128 entries, and 30 blocks that nothing fills. */
  datatype Table = Table(mbr: Block, header: Block, entries: seq<Entry>)

  predicate Complete(t: Table) {
    |t.entries| == 128
  }

  function EntryBlock(es: seq<Entry>, j: nat): Block
    requires 4 * j + 4 <= |es|
  {
    var a: seq<byte>, b: seq<byte>, c: seq<byte>, d: seq<byte> := es[4 * j], es[4 * j + 1], es[4 * j + 2], es[4 * j + 3];
    a + b + c + d
  }

  lemma EntryInBlock(es: seq<Entry>, k: nat)
    requires 4 * (k / 4) + 4 <= |es|
    ensures EntryBlock(es, k / 4)[128 * (k % 4)..128 * (k % 4) + 128] == es[k]
  {
  }

  function TableBlock(t: Table, b: nat): Block
    requires Complete(t)
  {
    if b == 0 then t.mbr
    else if b == 1 then t.header
    else if b < 34 then EntryBlock(t.entries, b - 2)
    else Zeros(512)
  }

  function TableRegion(t: Table): (r: Region)
    requires Complete(t)
    ensures r.firstLBA == 0 && r.lastLBA == 63 && r.readOnly
    ensures forall l :: 0 <= l <= 63 ==> HasBlock(r, l) && BlockOf(r, l) == TableBlock(t, l)
  {
    Region(0, 63, 64, true, Memory(seq(64, l requires 0 <= l < 64 => TableBlock(t, l))))
  }

  /** A request that starts inside the table reads it up to LBA 63, and the disk from there on. */
  lemma TableServes(t: Table, rest: seq<Region>, disk: Image, lba: nat, n: nat)
    requires Complete(t) && lba <= 63
    ensures var v := ReadView([TableRegion(t)] + rest, disk, lba, n);
            forall l :: (l in v <==> lba <= l < lba + n && (l <= 63 || l in disk))
                        && (l in v ==> v[l] == if l <= 63 then TableBlock(t, l) else disk[l])
  {
    hide TableRegion, TableBlock, HasBlock, BlockOf;
    var rs := [TableRegion(t)] + rest;
    assert First(rs, lba) == 0 && rs[0] == TableRegion(t);
  }

  /** Outside the table its contents do not matter. */
  lemma TableHidden(t: Table, t': Table, rest: seq<Region>, disk: Image, lba: nat, n: nat)
    requires Complete(t) && Complete(t') && lba > 63
    ensures ReadView([TableRegion(t)] + rest, disk, lba, n) == ReadView([TableRegion(t')] + rest, disk, lba, n)
  {
    hide TableRegion, HasBlock, BlockOf, First;
    var rs := [TableRegion(t)] + rest;
    assert rs[0 := TableRegion(t')] == [TableRegion(t')] + rest;
    FirstUpdate(rs, 0, TableRegion(t'), lba);
    assert !Holds(rs[0], lba);
    forall l ensures Serves(rs, disk, lba, l) == Serves(rs[0 := TableRegion(t')], disk, lba, l) {
    }
  }

  /** A request at `lba` of `n` blocks covers table block `b`. */
  predicate Covering(lba: nat, n: nat, b: nat) {
    lba <= b < lba + n && b <= 63
  }

  /** Two tables read alike exactly when they agree on the table blocks the request covers. */
  lemma TablesReadAlike(t: Table, t': Table, rest: seq<Region>, disk: Image, lba: nat, n: nat)
    requires Complete(t) && Complete(t')
    ensures ReadView([TableRegion(t)] + rest, disk, lba, n) == ReadView([TableRegion(t')] + rest, disk, lba, n)
       <==> forall b :: Covering(lba, n, b) ==> TableBlock(t, b) == TableBlock(t', b)
  {
    hide TableRegion, TableBlock, ReadView, First;
    if lba > 63 {
      TableHidden(t, t', rest, disk, lba, n);
    } else {
      TableServes(t, rest, disk, lba, n);
      TableServes(t', rest, disk, lba, n);
      var v, v' := ReadView([TableRegion(t)] + rest, disk, lba, n), ReadView([TableRegion(t')] + rest, disk, lba, n);
      if v == v' {
        forall b | Covering(lba, n, b) ensures TableBlock(t, b) == TableBlock(t', b) {
          assert v[b] == v'[b];
        }
      }
    }
  }

  // ----- Editing the table

  class Gpt {
    const d: RootDisk
    const entries: array<Entry>
    var mbr: Block
    var header: Block
    var lastBlock: nat           // the hooked protocol's Media->LastBlock

    function Now(): Table
      reads this, entries
    {
      Table(mbr, header, entries[..])
    }

    /** The memory of the first region is the table itself. */
    ghost predicate Valid()
      reads this, entries, d
    {
      entries.Length == 128 && 1 <= |d.regions| <= 8 && d.regions[0] == TableRegion(Now())
    }

    /** The steps of InstallRootBIO behind the read of the table: fill the union and add it as a region. */
    constructor (d: RootDisk, bytes: seq<byte>, lastBlock: nat)
      requires d.regions == [] && |bytes| == 17408
      modifies d`regions
      ensures Valid() && fresh(entries) && this.d == d
      ensures Now() == TableOf(bytes).(header := Grown(TableOf(bytes).header, 63))
      ensures d.regions == [TableRegion(Now())]
      ensures this.lastBlock == if 63 > LastUsableLBA(TableOf(bytes).header) then 63 else lastBlock
    {
      var t := TableOf(bytes);
      this.d := d;
      entries := new Entry[128](i requires 0 <= i < 128 => t.entries[i]);
      mbr, header := t.mbr, Grown(t.header, 63);
      this.lastBlock := if 63 > LastUsableLBA(t.header) then 63 else lastBlock;
      new;
      assert entries[..] == t.entries;
      d.regions := [TableRegion(Now())];
    }

    method GetGPTEntry(partitionNumber: nat) returns (found: bool, entry: nat)
      requires Valid()
      ensures found <==> 1 <= partitionNumber <= FreeSlot(entries[..], 0)
      ensures found ==> entry == partitionNumber - 1
    {
      hide Used;
      entry := 0;
      for i := 0 to 128
        invariant i <= FreeSlot(entries[..], 0)
        invariant !(1 <= partitionNumber <= i)
      {
        assert entries[i] == entries[..][i];
        if !Used(entries[i]) {
          return false, 0;
        }
        if partitionNumber == i + 1 {
          return true, i;
        }
      }
      found := false;
    }

    /** The common end of AddPartition and AddRegion, and what the edited union does to its region. */
    method Grow(last: u64)
      requires entries.Length == 128 && d.regions != []
      modifies this`header, this`lastBlock, d`regions
      ensures Now() == old(Now()).(header := Grown(old(header), last))
      ensures lastBlock == if last > LastUsableLBA(old(header)) then last else old(lastBlock)
      ensures d.regions == old(d.regions)[0 := TableRegion(Now())]
    {
      if last > LastUsableLBA(header) {
        header, lastBlock := Grown(header, last), last;
      }
      d.regions := d.regions[0 := TableRegion(Now())];
    }

    method AddPartition(p: Partition)
      requires Valid() && Nameable(p)
      modifies this`header, this`lastBlock, entries, d`regions
      ensures Valid() && d.regions == old(d.regions)[0 := TableRegion(Now())]
      ensures Now() == WithPartition(old(Now()), p)
      ensures lastBlock == if FreeSlot(old(entries[..]), 1) < 128 && p.last > LastUsableLBA(old(header)) then p.last
                           else old(lastBlock)
    {
      hide TableRegion, Used, NewEntry, Grown, LastUsableLBA;
      for i := 1 to 128
        invariant unchanged(this) && unchanged(d) && unchanged(entries)
        invariant i <= FreeSlot(entries[..], 1)
      {
        assert entries[i] == entries[..][i];
        if !Used(entries[i]) {
          entries[i] := NewEntry(entries[i - 1], p);
          Grow(p.last);
          return;
        }
      }
    }

    /** AddRegion: exactly one backing, at most eight regions; the table's last LBA grows with the region. */
    method AddRegion(first: nat, last: u64, numBlocks: nat, readOnly: bool, blocks: Maybe<seq<Block>>, bio: Maybe<Image>)
      returns (ok: bool)
      requires Valid()
      modifies this`header, this`lastBlock, d`regions
      ensures Valid() && (ok <==> |old(d.regions)| < 8 && blocks.Some? != bio.Some?)
      ensures ok ==> Now() == old(Now()).(header := Grown(old(header), last))
      ensures ok ==> d.regions == old(d.regions)[0 := TableRegion(Now())]
                                  + [NewRegion(first, last, numBlocks, readOnly, blocks, bio)]
      ensures ok ==> lastBlock == if last > LastUsableLBA(old(header)) then last else old(lastBlock)
      ensures !ok ==> unchanged(this) && unchanged(d)
    {
      hide TableRegion;
      if |d.regions| == 8 || (blocks.Some? && bio.Some?) || (blocks.None? && bio.None?) {
        return false;
      }
      d.regions := d.regions + [NewRegion(first, last, numBlocks, readOnly, blocks, bio)];
      Grow(last);
      ok := true;
    }

    /**
      The installation steps of WrapBootBIO once the pseudo partition is placed. A read that starts below
      the new region delivers what it delivered before, if and only if it covers no changed table block.
     */
    method InstallBoot(p: Partition, bootdev: Image) returns (ok: bool)
      requires Valid() && Nameable(p)
      modifies this`header, this`lastBlock, entries, d`regions
      ensures Valid() && (ok <==> |old(d.regions)| < 8)
      ensures Now() == Installed(old(Now()), p, ok)
      ensures d.regions == [TableRegion(Now())] + old(d.regions)[1..] +
                if ok then [Region(p.first, p.last, (p.last - p.first + 1) % 0x1_0000_0000_0000_0000, false, Bio(bootdev))]
                else []
      ensures forall lba: nat, n: nat :: lba < p.first || !ok ==>
                (ReadView(d.regions, d.disk, lba, n) == old(ReadView(d.regions, d.disk, lba, n))
                 <==> !InstallShows(old(Now()), p, ok, lba, n))
    {
      hide TableRegion, Added, Grown, LastUsableLBA, ReadView, InstallShows;
      ghost var t, rest := Now(), d.regions[1..];
      AddPartition(p);
      ghost var mid := d.regions;
      ok := AddRegion(p.first, p.last, (p.last - p.first + 1) % 0x1_0000_0000_0000_0000, false, None, Some(bootdev));
      InstalledIs(t, p, ok);
      assert d.regions == [TableRegion(Now())] + rest + if ok then [BootRegion(p, bootdev)] else [];
      forall lba: nat, n: nat | lba < p.first || !ok
        ensures ReadView(d.regions, d.disk, lba, n) == old(ReadView(d.regions, d.disk, lba, n))
           <==> !InstallShows(t, p, ok, lba, n)
      {
        assert old(d.regions) == [TableRegion(t)] + rest;
        InstallReads(t, p, ok, rest, BootRegion(p, bootdev), d.disk, lba, n);
      }
    }
  }

  datatype Maybe<T> = None | Some(value: T)

  function NewRegion(first: nat, last: nat, numBlocks: nat, readOnly: bool, blocks: Maybe<seq<Block>>, bio: Maybe<Image>): Region
    requires blocks.Some? != bio.Some?
  {
    Region(first, last, numBlocks, readOnly, if bio.Some? then Bio(bio.value) else Memory(blocks.value))
  }

  function BootRegion(p: Partition, bootdev: Image): Region {
    Region(p.first, p.last, (p.last - p.first + 1) % 0x1_0000_0000_0000_0000, false, Bio(bootdev))
  }

  // ----- What installing the boot partition changes

  function WithPartition(t: Table, p: Partition): Table
    requires Complete(t) && Nameable(p)
  {
    if FreeSlot(t.entries, 1) < 128 then Table(t.mbr, Grown(t.header, p.last), Added(t.entries, p)) else t
  }

  /** The table after both steps; `region` says that a region was free. */
  function Installed(t: Table, p: Partition, region: bool): (r: Table)
    requires Complete(t) && Nameable(p)
    ensures Complete(r)
  {
    var header := if region || FreeSlot(t.entries, 1) < 128 then Grown(t.header, p.last) else t.header;
    Table(t.mbr, header, Added(t.entries, p))
  }

  lemma InstalledIs(t: Table, p: Partition, region: bool)
    requires Complete(t) && Nameable(p)
    ensures var mid := WithPartition(t, p);
            Installed(t, p, region) == if region then mid.(header := Grown(mid.header, p.last)) else mid
  {
    hide Grown, LastUsableLBA, NewEntry, Used;
    GrownIs(t.header, p.last);
  }

  /** Installing changes table block `b`: the header if the disk grows, the block of the entry that is filled in. */
  predicate Changes(t: Table, p: Partition, region: bool, b: nat)
    requires Complete(t) && Nameable(p)
  {
    var k := FreeSlot(t.entries, 1);
    || (b == 1 && p.last > LastUsableLBA(t.header) && (region || k < 128))
    || (k < 128 && b == 2 + k / 4 && NewEntry(t.entries[k - 1], p) != t.entries[k])
  }

  /** The request starts inside the table and covers a block that installing changes. */
  ghost predicate InstallShows(t: Table, p: Partition, region: bool, lba: nat, n: nat)
    requires Complete(t) && Nameable(p)
  {
    exists b :: Covering(lba, n, b) && Changes(t, p, region, b)
  }

  lemma ChangesIs(t: Table, p: Partition, region: bool, b: nat)
    requires Complete(t) && Nameable(p)
    ensures TableBlock(t, b) != TableBlock(Installed(t, p, region), b) <==> Changes(t, p, region, b)
  {
    hide Grown, LastUsableLBA, NewEntry, Used, EntryBlock;
    var t', k := Installed(t, p, region), FreeSlot(t.entries, 1);
    if b == 1 {
      GrownIs(t.header, p.last);
    } else if 2 <= b < 34 {
      if k < 128 && b == 2 + k / 4 {
        EntryInBlock(t.entries, k);
        EntryInBlock(t'.entries, k);
        assert t'.entries == t.entries[k := t'.entries[k]];
        assert t'.entries[k] == t.entries[k] ==> t'.entries == t.entries;
      } else {
        SameEntries(t.entries, t'.entries, b - 2);
      }
    }
  }

  lemma SameEntries(es: seq<Entry>, es': seq<Entry>, j: nat)
    requires |es| == |es'| && 4 * j + 4 <= |es| && forall i :: 4 * j <= i < 4 * j + 4 ==> es[i] == es'[i]
    ensures EntryBlock(es, j) == EntryBlock(es', j)
  {
  }

  lemma InstallReads(t: Table, p: Partition, region: bool, rest: seq<Region>, boot: Region, disk: Image, lba: nat, n: nat)
    requires Complete(t) && Nameable(p) && (region ==> lba < boot.firstLBA)
    ensures var rs, rs' := [TableRegion(t)] + rest, [TableRegion(Installed(t, p, region))] + rest;
            (ReadView(rs' + if region then [boot] else [], disk, lba, n) == ReadView(rs, disk, lba, n)
             <==> !InstallShows(t, p, region, lba, n))
  {
    hide TableRegion, TableBlock, Installed, Changes, ReadView;
    var t' := Installed(t, p, region);
    var rs' := [TableRegion(t')] + rest;
    if region {
      AppendRegion(rs', boot, disk, lba, n);
    } else {
      assert rs' + [] == rs';
    }
    TablesReadAlike(t, t', rest, disk, lba, n);
    forall b | Covering(lba, n, b) ensures TableBlock(t, b) != TableBlock(t', b) <==> Changes(t, p, region, b) {
      ChangesIs(t, p, region, b);
    }
  }

  /** In a table with a partition and a free slot, the new entry always shows in its block. */
  lemma NewEntryShows(t: Table, n: nat, p: Partition, region: bool)
    requires Complete(t) && Nameable(p) && Dense(t.entries, n) && 1 <= n < 128
    ensures InstallShows(t, p, region, 2 + n / 4, 1)
  {
    hide Used, NewEntry;
    FreeSlotIs(t.entries, 1, n);
    NewEntryFields(t.entries[n - 1], p);
    assert Covering(2 + n / 4, 1, 2 + n / 4) && Changes(t, p, region, 2 + n / 4);
  }

  lemma {:induction false} ValZeros(n: nat)
    ensures Val(Zeros(n)) == 0
  {
    if n > 0 {
      ValZeros(n - 1);
      assert Zeros(n)[1..] == Zeros(n - 1);
    }
  }

  function SampleEntry(used: bool): Entry {
    if used then [1] + Zeros(127) else Zeros(128)
  }

  /** Entries of a table with `n` partitions: a type GUID that starts with 1, all else zero. */
  function SampleEntries(n: nat): (es: seq<Entry>)
    requires n <= 128
    ensures |es| == 128
  {
    seq<Entry>(128, i => SampleEntry(i < n))
  }

  lemma SampleDense(n: nat)
    requires n <= 128
    ensures Dense(SampleEntries(n), n)
  {
    ValZeros(8);
    assert SampleEntry(false)[..8] == Zeros(8);
    assert Val(SampleEntry(true)[..8]) == 1 + 256 * Val(SampleEntry(true)[..8][1..]);
  }

  /** BOOTFS in UTF-16. */
  const BOOTFS: seq<byte> := [0x42, 0, 0x4F, 0, 0x4F, 0, 0x54, 0, 0x46, 0, 0x53, 0]

  function SamplePartition(): Partition {
    Partition(Zeros(16), 4096, 8191, BOOTFS)
  }

  /** A disk with one partition: installing another changes what a read of LBA 2, far below it, delivers. */
  lemma InstallShowsExample()
    ensures InstallShows(Table(Zeros(512), Zeros(512), SampleEntries(1)), SamplePartition(), true, 2, 1)
  {
    SampleDense(1);
    NewEntryShows(Table(Zeros(512), Zeros(512), SampleEntries(1)), 1, SamplePartition(), true);
  }

  /** An empty table and a full one: adding a partition does not extend the used prefix. */
  lemma AddFailsExamples()
    ensures Dense(SampleEntries(0), 0) && !Dense(Added(SampleEntries(0), SamplePartition()), 1)
    ensures Dense(SampleEntries(128), 128) && Added(SampleEntries(128), SamplePartition()) == SampleEntries(128)
  {
    hide SampleEntries, Used, NewEntry;
    SampleDense(0);
    SampleDense(128);
    AddKeepsDense(SampleEntries(0), 0, SamplePartition());
    FreeSlotIs(SampleEntries(128), 1, 128);
  }

  // ----- What hooking the root disk changes

  /** The union after the first 34 blocks of the disk were read into it. */
  function TableOf(bytes: seq<byte>): (t: Table)
    requires |bytes| == 17408
    ensures Complete(t)
  {
    Table(bytes[..512], bytes[512..1024],
          seq<Entry>(128, i requires 0 <= i < 128 => bytes[1024 + 128 * i..1152 + 128 * i]))
  }

  /** The table in memory is what the disk had on its first 34 blocks. */
  lemma TableOfBlocks(bytes: seq<byte>, b: nat)
    requires |bytes| == 17408 && b < 34
    ensures TableBlock(TableOf(bytes), b) == bytes[512 * b..512 * b + 512]
  {
    if b >= 2 {
      var es, j := TableOf(bytes).entries, b - 2;
      Quarters(bytes, 512 * b, es[4 * j], es[4 * j + 1], es[4 * j + 2], es[4 * j + 3]);
    }
  }

  lemma Quarters(s: seq<byte>, o: nat, a: seq<byte>, b: seq<byte>, c: seq<byte>, d: seq<byte>)
    requires o + 512 <= |s| && a == s[o..o + 128] && b == s[o + 128..o + 256]
    requires c == s[o + 256..o + 384] && d == s[o + 384..o + 512]
    ensures a + b + c + d == s[o..o + 512]
  {
  }

  /** InstallRootBIO, from the read of the table on. */
  method InstallRootBIO(d: RootDisk, lastBlock: nat) returns (ok: bool, gpt: Gpt?)
    requires d.regions == []
    modifies d`regions, d`log
    ensures ok == (gpt != null) && (!ok ==> d.regions == [])
    ensures ok ==> fresh(gpt) && fresh(gpt.entries) && gpt.d == d && gpt.Valid()
    ensures ok ==> Covers(d.disk, 0, 34) && d.regions == [TableRegion(RootTable(d.disk))]
  {
    hide TableRegion, TableOf, BytesAt;
    gpt := null;
    var bytes;
    ok, bytes := d.SavedRead(0, 17408);
    if ok {
      gpt := new Gpt(d, bytes, lastBlock);
    }
  }

  ghost function RootTable(disk: Image): (t: Table)
    requires Covers(disk, 0, 34)
    ensures Complete(t)
  {
    var t := TableOf(BytesAt(disk, 0, 17408));
    t.(header := Grown(t.header, 63))
  }

  lemma RootTableBlocks(disk: Image, b: nat)
    requires Covers(disk, 0, 34) && b <= 63
    ensures TableBlock(RootTable(disk), b) == if b == 1 then Grown(disk[1], 63) else if b < 34 then disk[b] else Zeros(512)
    ensures Transparent(disk, b) <==> b in disk && TableBlock(RootTable(disk), b) == disk[b]
  {
    hide Grown, TableOf, EntryBlock, LastUsableLBA;
    var bytes := BytesAt(disk, 0, 17408);
    GrownIs(disk[1], 63);
    if b < 34 {
      assert bytes[512 * b..512 * b + 512] == disk[b];
      TableOfBlocks(bytes, b);
      TableOfBlocks(bytes, 1);
      assert bytes[512..1024] == disk[1];
    }
  }

  /**
    Hooking the root disk changes no read that starts behind the table. A read that starts inside it is
    unchanged if and only if the blocks it covers among LBA 34 to 63 are zero on the disk, since the loader reads
    only 34 blocks into a region of 64, and the header, if covered, has room for the region.
   */
  lemma RootReads(disk: Image, lba: nat, n: nat)
    requires Covers(disk, 0, 34)
    ensures ReadView([TableRegion(RootTable(disk))], disk, lba, n) == ReadView([], disk, lba, n)
       <==> forall b: nat :: Covering(lba, n, b) ==> Transparent(disk, b)
  {
    hide TableRegion, TableBlock, RootTable, ReadView, Transparent;
    var rs := [TableRegion(RootTable(disk))];
    var v, w := ReadView(rs, disk, lba, n), ReadView([], disk, lba, n);
    if lba > 63 {
      assert First(rs, lba) == 1;
      assert v == w;
    } else {
      assert rs + [] == rs;
      TableServes(RootTable(disk), [], disk, lba, n);
      forall b: nat | Covering(lba, n, b)
        ensures Transparent(disk, b) <==> b in disk && TableBlock(RootTable(disk), b) == disk[b]
      {
        RootTableBlocks(disk, b);
      }
      if v == w {
        forall b: nat | Covering(lba, n, b) ensures Transparent(disk, b) {
          assert b in v && b in w && v[b] == w[b];
        }
      }
    }
  }

  /** What hooking must leave alone for table block `b` to read as on the disk. */
  predicate Transparent(disk: Image, b: nat)
    requires Covers(disk, 0, 34)
  {
    if b == 1 then LastUsableLBA(disk[1]) >= 63 else b >= 34 ==> b in disk && disk[b] == Zeros(512)
  }

  /** A disk whose block 34 is not zero: hooking it changes what a read of that block delivers. */
  lemma RootReadsExample(disk: Image)
    requires Covers(disk, 0, 35) && disk[34] == Other(Zeros(512))
    ensures ReadView([TableRegion(RootTable(disk))], disk, 34, 1) != ReadView([], disk, 34, 1)
  {
    hide TableRegion, RootTable, ReadView;
    RootReads(disk, 34, 1);
    assert Covering(34, 1, 34) && !Transparent(disk, 34);
  }
}

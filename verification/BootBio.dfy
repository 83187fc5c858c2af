/** The boot region (lsvmload/bootbio.c): its block I/O protocol over the cache device, and its installation. */
module BootBio {
  import opened Bytes
  import opened Blkdev
  import opened Trace
  import opened ByteAccess
  import opened DiskBio
  import opened Partitions
  import DevPath

  /** _EFI_BLOCK_IO_ReadBlocks: a request of any size returns that slice of the device's bytes. */
  method ReadBlocks(dev: Dev, lba: nat, size: nat) returns (ok: bool, out: seq<byte>)
    requires dev.Valid()
    modifies dev.Footprint()
    ensures dev.Valid() && fresh(dev.Footprint() - old(dev.Footprint()))
    ensures dev.View() == old(dev.View())
    ensures ok ==> Covers(dev.View(), lba, BlockCount(size)) && out == BytesAt(dev.View(), lba, size)
    ensures Since(old(dev.Rec().outcomes), dev.Rec().outcomes, ok)
    ensures ok && size == 512 ==> lba in dev.View() && out == dev.View()[lba]
  {
    hide Dev.Valid, Dev.View, BytesAt, Since;
    ok, out := BlkdevRead(dev, lba, size);
    if ok && size == 512 {
      OneBlock(dev.View(), lba);
    }
  }

  lemma OneBlock(v: Image, l: nat)
    requires Covers(v, l, BlockCount(512))
    ensures l in v && BytesAt(v, l, 512) == v[l]
  {
  }

  /**
    _EFI_BLOCK_IO_WriteBlocks: a request of any size replaces exactly its bytes of the device's view, which for
    one block is what a write to a region's device does. While caching is on, the encrypted partition
    underneath is left alone.
   */
  method WriteBlocks(dev: Dev, lba: nat, bytes: seq<byte>) returns (ok: bool)
    requires dev.Valid()
    modifies dev.Footprint()
    ensures dev.Valid() && fresh(dev.Footprint() - old(dev.Footprint()))
    ensures OnlyWithin(old(dev.View()), dev.View(), lba, BlockCount(|bytes|))
    ensures ok && old(dev.WritesShow(lba, BlockCount(|bytes|))) ==>
              && (|bytes| % 512 != 0 ==> lba + |bytes| / 512 in old(dev.View()))
              && dev.View() == Spliced(old(dev.View()), lba, bytes)
              && (|bytes| == 512 ==> dev.View() == old(dev.View()) + BlocksOf(lba, [bytes]))
    ensures Since(old(dev.Rec().outcomes), dev.Rec().outcomes, ok)
    ensures dev.Cached? && old(dev.cached.caching) ==>
              dev.cached.caching && dev.cached.child.content == old(dev.cached.child.content)
  {
    hide Dev.Valid, Dev.View, Spliced, Dev.WritesShow, OnlyWithin, Since;
    ok := BlkdevWrite(dev, lba, bytes);
    if |bytes| == 512 {
      SplicedWhole(old(dev.View()), lba, bytes);
      assert bytes[512 * 0..512 * 0 + 512] == bytes && ToBlocks(bytes) == [bytes];
    }
  }

  /** The visited partitions are coherent and placing the pseudo partition behind them overflows nothing. */
  ghost predicate RoomBehind(vs: seq<DevPath.Partition>, sectors: nat) {
    && vs != [] && DevPath.Coherent(vs) && 0 < sectors
    && DevPath.Highest(vs).number + 1 < 0x1_0000_0000
    && DevPath.Highest(vs).start + DevPath.Highest(vs).size + sectors <= 0x1_0000_0000_0000_0000
  }

  /** The pseudo partition has a number no visited partition has, and its sectors lie behind all of them. */
  ghost predicate BehindAll(vs: seq<DevPath.Partition>, number: nat, first: nat, last: nat) {
    first <= last && forall v :: v in vs ==> v.number != number && v.start + v.size <= first
  }

  lemma PlacedBehind(vs: seq<DevPath.Partition>, sectors: nat)
    requires RoomBehind(vs, sectors) && sectors < 0x1_0000_0000_0000_0000
    ensures var p := DevPath.Pseudo(vs, sectors);
            BehindAll(vs, p.number, p.start, DevPath.LastSector(p)) && DevPath.LastSector(p) - p.start + 1 == sectors
  {
    hide DevPath.Highest, DevPath.Coherent;
    DevPath.PseudoIsNew(vs, sectors, 0);
    forall v | v in vs
      ensures v.number != DevPath.Pseudo(vs, sectors).number && v.start + v.size <= DevPath.Pseudo(vs, sectors).start
    {
      var i :| 0 <= i < |vs| && vs[i] == v;
      DevPath.PseudoIsNew(vs, sectors, i);
    }
  }

  lemma TableFarBelow(t: Table, p: Partition, region: bool, lba: nat, n: nat)
    requires Complete(t) && Nameable(p) && lba >= 64
    ensures !InstallShows(t, p, region, lba, n)
  {
  }

  /**
    WrapBootBIO from the choice of the pseudo partition on. When it succeeds, no read that starts behind the
    partition table and below the new region has changed; and when the visited partitions left room, the
    region lies behind all of them, so that no read that starts in one of them differs either. `memory` and
    `installed` say that the device path could be allocated and the protocols installed.
   */
  method WrapBootBIO(gpt: Gpt, paths: seq<seq<byte>>, sectors: u64, guid: seq<byte>, bootdev: Image, rec: Recorder)
    returns (memory: bool, installed: bool, ok: bool, p: Partition)
    requires gpt.Valid() && |guid| == 16
    requires forall i :: 0 <= i < |paths| ==> DevPath.WellFormed(paths[i])
    modifies gpt`header, gpt`lastBlock, gpt.entries, gpt.d`regions, rec`outcomes
    ensures Since(old(rec.outcomes), rec.outcomes, memory && installed)
    ensures gpt.Valid()
    ensures ok <==> memory && installed && DevPath.VisitedAll(paths) != [] && |old(gpt.d.regions)| < 8
    ensures var boot := Region(p.first, p.last, (p.last - p.first + 1) % 0x1_0000_0000_0000_0000, false, Bio(bootdev));
            ok ==> gpt.d.regions == [TableRegion(gpt.Now())] + old(gpt.d.regions)[1..] + [boot]
    ensures ok ==> ShowsBoot(gpt.d.regions, gpt.d.disk, old(gpt.d.regions), p, bootdev)
    ensures ok ==> forall lba: nat, n: nat :: 64 <= lba < p.first ==>
              ReadView(gpt.d.regions, gpt.d.disk, lba, n) == old(ReadView(gpt.d.regions, gpt.d.disk, lba, n))
    ensures ok && RoomBehind(DevPath.VisitedAll(paths), sectors) ==>
              && BehindAll(DevPath.VisitedAll(paths), DevPath.Pseudo(DevPath.VisitedAll(paths), sectors).number, p.first, p.last)
              && p.last - p.first + 1 == sectors
  {
    hide Since, DevPath.BehindHighest, DevPath.NextNumber;
    hide DevPath.WellFormed, DevPath.VisitedAll, DevPath.Pseudo, DevPath.LastSector, RoomBehind, BehindAll, DevPath.FirstFound;
    hide DevPath.PseudoPath, TableRegion, ReadView, Installed, InstallShows, ShowsBoot;
    p := Partition(guid, 0, 0, BOOTFS);
    var placed, path, first, last;
    memory, placed, path, first, last := DevPath.CreatePseudoPartition(paths, sectors, rec);
    installed, ok := true, false;
    if !placed {
      return;
    }
    ghost var asked := rec.outcomes;
    installed := rec.Ask();
    OneMore(old(rec.outcomes), asked, Device(installed));
    if !installed {
      return;
    }
    assert last < 0x1_0000_0000_0000_0000 by {
      LastFits(DevPath.Pseudo(DevPath.VisitedAll(paths), sectors));
    }
    p := Partition(guid, first, last, BOOTFS);
    ghost var t := gpt.Now();
    ok := gpt.InstallBoot(p, bootdev);
    if ok {
      forall lba: nat, n: nat | 64 <= lba < p.first
        ensures ReadView(gpt.d.regions, gpt.d.disk, lba, n) == old(ReadView(gpt.d.regions, gpt.d.disk, lba, n))
      {
        TableFarBelow(t, p, ok, lba, n);
      }
      BootShown(old(gpt.d.regions), gpt.Now(), p, bootdev, gpt.d.disk);
      if RoomBehind(DevPath.VisitedAll(paths), sectors) {
        PlacedBehind(DevPath.VisitedAll(paths), sectors);
      }
    }
  }

  /** Block `l` of a request that starts in the new partition, behind the table and in no region that was there before. */
  ghost predicate BootBlock(rs: seq<Region>, p: Partition, bootdev: Image, lba: nat, n: nat, l: nat) {
    && 64 <= lba && p.first <= lba <= l <= p.last && l < lba + n && l - p.first in bootdev
    && forall j :: 1 <= j < |rs| ==> lba < rs[j].firstLBA || lba > rs[j].lastLBA
  }

  /** Such a block reads as the boot device's block, counted from the partition's first LBA. */
  ghost predicate ShowsBoot(rs': seq<Region>, disk: Image, rs: seq<Region>, p: Partition, bootdev: Image) {
    forall lba: nat, n: nat, l: nat :: BootBlock(rs, p, bootdev, lba, n, l) ==> Delivered(rs', disk, p, bootdev, lba, n, l)
  }

  ghost predicate Delivered(rs: seq<Region>, disk: Image, p: Partition, bootdev: Image, lba: nat, n: nat, l: nat) {
    && p.first <= l && l - p.first in bootdev
    && l in ReadView(rs, disk, lba, n) && ReadView(rs, disk, lba, n)[l] == bootdev[l - p.first]
  }

  lemma BootShown(rs: seq<Region>, t: Table, p: Partition, bootdev: Image, disk: Image)
    requires Complete(t) && rs != []
    ensures var boot := Region(p.first, p.last, (p.last - p.first + 1) % 0x1_0000_0000_0000_0000, false, Bio(bootdev));
            ShowsBoot([TableRegion(t)] + rs[1..] + [boot], disk, rs, p, bootdev)
  {
    hide ReadView, TableRegion, BootBlock, Delivered;
    var boot := Region(p.first, p.last, (p.last - p.first + 1) % 0x1_0000_0000_0000_0000, false, Bio(bootdev));
    var rs' := [TableRegion(t)] + rs[1..] + [boot];
    forall lba: nat, n: nat, l: nat | BootBlock(rs, p, bootdev, lba, n, l)
      ensures Delivered(rs', disk, p, bootdev, lba, n, l)
    {
      BootDelivers(rs, rs', TableRegion(t), p, bootdev, disk, lba, n, l);
    }
  }

  lemma BootDelivers(rs: seq<Region>, rs': seq<Region>, table: Region, p: Partition, bootdev: Image, disk: Image,
                     lba: nat, n: nat, l: nat)
    requires rs != [] && BootBlock(rs, p, bootdev, lba, n, l) && table.lastLBA == 63
    requires |rs'| == |rs| + 1 && rs'[0] == table && (forall j :: 1 <= j < |rs| ==> rs'[j] == rs[j])
    requires rs'[|rs|].firstLBA == p.first && rs'[|rs|].lastLBA == p.last && rs'[|rs|].backing == Bio(bootdev)
    ensures Delivered(rs', disk, p, bootdev, lba, n, l)
  {
    hide ReadView;
    RegionDelivers(rs', disk, |rs|, lba, n, l);
  }

  lemma LastFits(p: DevPath.Partition)
    ensures 0 <= DevPath.LastSector(p) < 0x1_0000_0000_0000_0000
  {
  }
}

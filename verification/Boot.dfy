/**
  The boot sequence of lsvmload/main.c with the steps it calls in measure.c, keys.c, bootfs.c,
  dbxupdate.c, initrd.c and shim.c. File-system and LUKS code is any finite sequence of block
  operations on the cache device; firmware and TPM answers are chosen freely.
 */
module Boot {
  import opened Bytes
  import opened Blkdev
  import opened Trace
  import opened BootTrace
  import opened RawDevice
  import opened CacheSpec
  import opened CacheBlkdev

  type Digest = seq<byte>

  const ALLOW_PREBOOT_SEALING: seq<byte> := [0x10, 0x00, 0x00, 0x00]
  const LINUX_SCENARIO_ID: seq<byte> := [0x02, 0x00, 0xF0, 0x00]
  const LINUX_SCENARIO_VERSION: seq<byte> := [0x01, 0x00, 0x00, 0x00]

  const SCENARIO: seq<Event> :=
    [Extend(ALLOW_PREBOOT_SEALING), Extend(LINUX_SCENARIO_ID), Extend(LINUX_SCENARIO_VERSION)]

  /** The value of a PCR after a sequence of operations, for any extend function. */
  function Fold(extend: (Digest, seq<byte>) -> Digest, capValue: seq<byte>, start: Digest, es: seq<Event>): Digest {
    if es == [] then start
    else
      var d := Fold(extend, capValue, start, es[..|es| - 1]);
      match es[|es| - 1]
      case Extend(v) => extend(d, v)
      case Cap => extend(d, capValue)
      case _ => d
  }

  lemma FoldSnoc(extend: (Digest, seq<byte>) -> Digest, capValue: seq<byte>, start: Digest, ps: seq<Event>, e: Event)
    ensures var d := Fold(extend, capValue, start, ps);
            Fold(extend, capValue, start, ps + [e]) ==
            if e.Extend? then extend(d, e.value) else if e.Cap? then extend(d, capValue) else d
  {
    assert (ps + [e])[..|ps|] == ps;
  }

  /** PCR 11 of the TPM (its SHA-256 bank). */
  class Tpm {
    const extend: (Digest, seq<byte>) -> Digest
    const capValue: seq<byte>
    const start: Digest
    const rec: Recorder
    var pcr: Digest

    constructor (extend: (Digest, seq<byte>) -> Digest, capValue: seq<byte>, start: Digest, rec: Recorder)
      ensures this.rec == rec && this.start == start && this.extend == extend && this.capValue == capValue
      ensures pcr == start
    {
      this.extend, this.capValue, this.start, this.rec, this.pcr := extend, capValue, start, rec, start;
    }

    /** The register holds the fold of the operations the trace records. */
    ghost predicate Valid()
      reads this, rec
    {
      pcr == Fold(extend, capValue, start, Of(rec.events).pcr)
    }

    /** One PCR operation; a failed call may or may not have reached the register. */
    method Apply(e: Event) returns (ok: bool)
      requires Valid() && (e.Extend? || e.Cap?)
      modifies this, rec
      ensures Valid()
      ensures rec.events == old(rec.events) + [e] || (!ok && rec.events == old(rec.events))
      ensures rec.outcomes == old(rec.outcomes) + [Device(ok)]
    {
      hide Of, Fold;
      var reached: bool := *;
      if reached {
        pcr := extend(pcr, if e.Extend? then e.value else capValue);
        rec.Log(e);
        Snoc(old(rec.events), e);
        FoldSnoc(extend, capValue, start, old(Of(rec.events).pcr), e);
      }
      ok := *;
      ok := ok && reached;
      rec.Note(Device(ok));
    }
  }

  /** The history after the operations `ps` on PCR 11, of which there were none before. */
  function WithPcr(h: History, ps: seq<Event>): History {
    h.(pcr := ps, steps := h.steps + ps)
  }

  lemma PcrSnoc(h: History, ps: seq<Event>, e: Event)
    requires e.Extend? || e.Unseal? || e.Cap?
    requires Allowed(WithPcr(h, ps), e)
    ensures h.pcr == [] ==> WithPcr(h, []) == h
    ensures Next(WithPcr(h, ps), e) == WithPcr(h, ps + [e])
  {
    assert h.steps + [] == h.steps && h.steps + ps + [e] == h.steps + (ps + [e]);
  }

  method MeasureLinuxScenario(tpm: Tpm) returns (ok: bool)
    requires tpm.Valid() && Of(tpm.rec.events).pcr == []
    modifies tpm, tpm.rec
    ensures tpm.Valid()
    ensures Of(tpm.rec.events) == WithPcr(old(Of(tpm.rec.events)), Of(tpm.rec.events).pcr)
    ensures Of(tpm.rec.events).pcr <=
              [Extend([0x10, 0x00, 0x00, 0x00]), Extend([0x02, 0x00, 0xF0, 0x00]), Extend([0x01, 0x00, 0x00, 0x00])]
    ensures ok ==> (Of(tpm.rec.events).pcr ==
              [Extend([0x10, 0x00, 0x00, 0x00]), Extend([0x02, 0x00, 0xF0, 0x00]), Extend([0x01, 0x00, 0x00, 0x00])])
    ensures Since(old(tpm.rec.outcomes), tpm.rec.outcomes, ok)
  {
    hide Of, Fold, Tpm.Valid, Next, WithPcr, Since;
    NothingSince(tpm.rec.outcomes);
    ghost var h := Of(tpm.rec.events);
    ghost var a, b, c := Extend(ALLOW_PREBOOT_SEALING), Extend(LINUX_SCENARIO_ID), Extend(LINUX_SCENARIO_VERSION);
    PcrSnoc(h, [], a);
    PcrSnoc(h, [a], b);
    PcrSnoc(h, [a, b], c);
    assert [] + [a] == [a] && [a] + [b] == [a, b] && [a, b] + [c] == [a, b, c];
    PcrOf(h, [a]);
    PcrOf(h, [a, b]);
    PcrOf(h, [a, b, c]);
    ok := Measure(tpm, ALLOW_PREBOOT_SEALING);
    OneMore(old(tpm.rec.outcomes), old(tpm.rec.outcomes), Device(ok));
    if !ok {
      return;
    }
    ghost var first := tpm.rec.outcomes;
    OneMore(old(tpm.rec.outcomes), old(tpm.rec.outcomes), Device(true));
    ok := Measure(tpm, LINUX_SCENARIO_ID);
    OneMore(old(tpm.rec.outcomes), first, Device(ok));
    if !ok {
      return;
    }
    ghost var second := tpm.rec.outcomes;
    ok := Measure(tpm, LINUX_SCENARIO_VERSION);
    OneMore(old(tpm.rec.outcomes), second, Device(ok));
  }

  lemma PcrOf(h: History, ps: seq<Event>)
    ensures WithPcr(h, ps).pcr == ps
  {
  }

  /** HashLogExtendData on PCR 11. */
  method Measure(tpm: Tpm, value: seq<byte>) returns (ok: bool)
    requires tpm.Valid()
    modifies tpm, tpm.rec
    ensures tpm.Valid()
    ensures Of(tpm.rec.events) == Next(old(Of(tpm.rec.events)), Extend(value)) ||
            (!ok && Of(tpm.rec.events) == old(Of(tpm.rec.events)))
    ensures tpm.rec.outcomes == old(tpm.rec.outcomes) + [Device(ok)]
  {
    hide Of, Fold, Tpm.Valid, Next;
    ghost var tr := tpm.rec.events;
    ok := tpm.Apply(Extend(value));
    Snoc(tr, Extend(value));
  }

  /** CapPCR: cap, and fail unless reading the register before and after shows that it changed. `called` says that all calls succeeded. */
  method CapPCR(tpm: Tpm) returns (called: bool, ok: bool)
    requires tpm.Valid()
    modifies tpm, tpm.rec
    ensures tpm.Valid()
    ensures Of(tpm.rec.events) == Next(old(Of(tpm.rec.events)), Cap) ||
            (!called && Of(tpm.rec.events) == old(Of(tpm.rec.events)))
    ensures Since(old(tpm.rec.outcomes), tpm.rec.outcomes, called) && (ok <==> called && tpm.pcr != old(tpm.pcr))
  {
    hide Of, Fold, Next, Since;
    NothingSince(tpm.rec.outcomes);
    var readable := tpm.rec.Ask();
    OneMore(old(tpm.rec.outcomes), old(tpm.rec.outcomes), Device(readable));
    called := readable;
    if !readable {
      return called, false;
    }
    var before := tpm.pcr;
    ghost var tr, first := tpm.rec.events, tpm.rec.outcomes;
    ok := tpm.Apply(Cap);
    Snoc(tr, Cap);
    OneMore(old(tpm.rec.outcomes), first, Device(ok));
    called := ok;
    if !ok {
      return;
    }
    ghost var second := tpm.rec.outcomes;
    readable := tpm.rec.Ask();
    OneMore(old(tpm.rec.outcomes), second, Device(readable));
    called := readable;
    ok := readable && tpm.pcr != before;
  }

  lemma GetIsIo(s: State, s': State, b: nat, n: nat, ok: bool, out: seq<Block>, tr: seq<Event>, tr': seq<Event>)
    requires tr <= tr' && GetStep(s, s', b, n, ok, out, tr'[|tr|..])
    ensures IoExtends(tr, tr', s.caching) && s'.disk == s.disk && s'.caching == s.caching
  {
    var calls := tr'[|tr|..];
    MissRunsMaximal(s.cache, b, b + n);
    forall i | |tr| <= i < |tr'| ensures tr'[i].ChildRead? {
      assert tr'[i] == calls[i - |tr|] == MissRuns(s.cache, b, b + n)[i - |tr|];
    }
  }

  lemma PutIsIo(s: State, s': State, b: nat, blocks: seq<Block>, ok: bool, tr: seq<Event>, tr': seq<Event>)
    requires tr <= tr' && PutStep(s, s', b, blocks, ok, tr'[|tr|..])
    ensures IoExtends(tr, tr', s.caching) && s'.caching == s.caching && (s.caching ==> s'.disk == s.disk)
  {
    var calls := tr'[|tr|..];
    forall i | |tr| <= i < |tr'| ensures !s.caching && tr'[i].ChildWrite? {
      assert tr'[i] == calls[i - |tr|];
    }
  }

  /** Any finite sequence of block operations on the cache device. */
  method FsOps(c: CacheBlkdev)
    requires c.Valid()
    modifies c.Repr, c.child, c.child.rec
    ensures c.Valid() && fresh(c.Repr - old(c.Repr))
    ensures c.caching == old(c.caching)
    ensures IoExtends(old(c.child.rec.events), c.child.rec.events, c.caching)
    ensures c.caching ==> c.child.content == old(c.child.content)
  {
    hide CacheBlkdev.Valid, GetStep, PutStep;
    var left: nat := *;
    while left > 0
      invariant c.Valid() && fresh(c.Repr - old(c.Repr))
      invariant c.caching == old(c.caching)
      invariant IoExtends(old(c.child.rec.events), c.child.rec.events, c.caching)
      invariant c.caching ==> c.child.content == old(c.child.content)
    {
      ghost var s, tr := c.Abs(), c.child.rec.events;
      var b: nat, n: nat, blocks: seq<Block>, isGet: bool := *, *, *, *;
      if isGet {
        var ok, out := c.GetN(b, n);
        GetIsIo(s, c.Abs(), b, n, ok, out, tr, c.child.rec.events);
      } else {
        var ok := c.PutN(b, blocks);
        PutIsIo(s, c.Abs(), b, blocks, ok, tr, c.child.rec.events);
      }
      left := left - 1;
    }
  }

  /** A sequence of operations on PCR 11 that a boot may have got through. */
  predicate PcrLegal(ps: seq<Event>) {
    ps <= SCENARIO + [Unseal(true), Cap] || ps <= SCENARIO + [Unseal(false), Cap]
  }

  lemma ScenarioValue(extend: (Digest, seq<byte>) -> Digest, capValue: seq<byte>, start: Digest)
    ensures Fold(extend, capValue, start, SCENARIO) ==
            extend(extend(extend(start, [0x10, 0, 0, 0]), [0x02, 0, 0xF0, 0]), [0x01, 0, 0, 0])
  {
    var a, b := [SCENARIO[0]], [SCENARIO[0], SCENARIO[1]];
    assert SCENARIO[..2] == b && b[..1] == a && a[..0] == [];
    assert Fold(extend, capValue, start, a) == extend(start, [0x10, 0, 0, 0]);
  }

  /** PCR 11 holds the three scenario values and then one cap that changed it. */
  ghost predicate CappedTo(extend: (Digest, seq<byte>) -> Digest, capValue: seq<byte>, start: Digest, pcr: Digest, ps: seq<Event>) {
    var measured := extend(extend(extend(start, [0x10, 0, 0, 0]), [0x02, 0, 0xF0, 0]), [0x01, 0, 0, 0]);
    && (ps == SCENARIO + [Unseal(true), Cap] || ps == SCENARIO + [Unseal(false), Cap])
    && pcr == extend(measured, capValue)
    && pcr != measured
  }

  lemma ScenarioLegal(ps: seq<Event>)
    ensures ps <= SCENARIO ==> PcrLegal(ps)
  {
  }

  lemma PcrOnly(ps: seq<Event>)
    requires PcrLegal(ps)
    ensures StartShim !in ps && [] + ps == ps
  {
  }

  lemma CappedValue(extend: (Digest, seq<byte>) -> Digest, capValue: seq<byte>, start: Digest, ps: seq<Event>, u: Event)
    requires u.Unseal? && ps == SCENARIO + [u]
    ensures PcrLegal(ps) && PcrLegal(ps + [Cap])
    ensures var before, after := Fold(extend, capValue, start, ps), Fold(extend, capValue, start, ps + [Cap]);
            before != after <==> CappedTo(extend, capValue, start, after, ps + [Cap])
  {
    hide Fold;
    ScenarioValue(extend, capValue, start);
    FoldSnoc(extend, capValue, start, SCENARIO, u);
    FoldSnoc(extend, capValue, start, ps, Cap);
    assert SCENARIO + [u] + [Cap] == SCENARIO + [u, Cap];
    assert u == Unseal(true) || u == Unseal(false);
  }

  /** The steps of ApplyDBXUpdate. */
  function DbxSteps(removed: bool): seq<Event> {
    [DbxEnter] + (if removed then [SetCaching(false), SetCaching(true)] else []) + [DbxLeave]
  }

  class Loader {
    const rec: Recorder
    const child: RawDevice
    const tpm: Tpm
    var cachedev: CacheBlkdev?
    var bootkeyData: bool           // globals.bootkeyData is not null
    var keysFound: bool             // globals.bootkeyFound and rootkeyFound
    var rootkeyValid: bool
    var measuredBootFailed: bool
    var checks: seq<Outcome>        // how the steps that can stop the boot ended
    ghost var sealedContent: Image  // the boot partition when caching was enabled

    ghost function Past(): History
      reads rec
    {
      Of(rec.events)
    }

    ghost function Cells(): set<object>
      reads this, cachedev
    {
      if cachedev == null then {} else cachedev.Repr
    }

    ghost predicate Valid()
      reads this, tpm, rec, child, cachedev, Cells()
    {
      && child.rec == rec == tpm.rec && tpm.Valid()
      && this !in Cells() && tpm !in Cells() && rec !in Cells() && child !in Cells()
      && Past().disciplined && (Past().flag == Off ==> Past().lowered)
      && (cachedev == null ==> Past().flag == Never)
      && (cachedev != null ==>
            cachedev.Valid() && cachedev.child == child && cachedev.caching == (Past().flag == On))
      && (!Past().lowered ==> !Past().dirty && (Past().flag != Never ==> child.content == sealedContent))
    }

    constructor (rec: Recorder, child: RawDevice, tpm: Tpm)
      requires child.rec == rec == tpm.rec && rec.events == [] && tpm.pcr == tpm.start
      ensures this.rec == rec && this.child == child && this.tpm == tpm
      ensures Valid() && cachedev == null && rec.events == [] && checks == []
    {
      this.rec, this.child, this.tpm, checks := rec, child, tpm, [];
      cachedev, bootkeyData, keysFound, rootkeyValid, measuredBootFailed := null, false, false, false, false;
      sealedContent := map[];
    }

    method Log(e: Event)
      requires Valid() && Allowed(Past(), e)
      requires e.Unseal? || e.OpenBoot? || e.DbxEnter? || e.DbxLeave? || e.PatchInitrd? || e.StartShim?
      modifies rec`events
      ensures Valid() && Past() == Next(old(Past()), e)
    {
      hide CacheBlkdev.Valid, Of;
      rec.Log(e);
      Snoc(old(rec.events), e);
      if e.Unseal? {
        FoldSnoc(tpm.extend, tpm.capValue, tpm.start, old(Past()).pcr, e);
      }
    }

    /** A step ended; a failure stops the boot. */
    method Check(ok: bool, ghost before: seq<Outcome>)
      requires Since(before, checks, true)
      modifies this`checks
      ensures checks == old(checks) + [Device(ok)] && Since(before, checks, ok)
    {
      OneMore(before, checks, Device(ok));
      checks := checks + [Device(ok)];
    }

    /** Any file-system or LUKS activity on the boot device. */
    method Files()
      requires Valid() && cachedev != null
      modifies Cells(), child, rec
      ensures Valid() && fresh(Cells() - old(Cells()))
      ensures Past() == old(Past()).(dirty := Past().dirty)
      ensures old(Past()).flag != Off ==> Past() == old(Past())
    {
      hide CacheBlkdev.Valid, Of, IoExtends;
      FsOps(cachedev);
      IoHistory(old(rec.events), rec.events, cachedev.caching);
    }

    method SetCacheFlag(on: bool)
      requires Valid() && cachedev != null && (on || Past().inDbx)
      modifies this`sealedContent, cachedev, rec
      ensures Valid() && Cells() == old(Cells())
      ensures Past() == Next(old(Past()), SetCaching(on))
      ensures sealedContent == if old(Past()).flag == Never then child.content else old(sealedContent)
    {
      hide CacheBlkdev.Valid, Of;
      if Past().flag == Never {
        sealedContent := child.content;
      }
      ghost var ev := rec.events;
      var ok := cachedev.SetFlags(if on then 1 else 0);
      assert rec.events == ev + [SetCaching(on)] by {
        assert rec.events == ev + rec.events[|ev|..];
      }
      Snoc(ev, SetCaching(on));
    }

    /** GetBootDevice and OpenBootFS: stack a cache device on the partition once, then mount it. */
    method OpenBootFS(withUnsealedKey: bool) returns (mounted: bool)
      requires Valid() && Past().flag == Never
      modifies this`cachedev, Cells(), child, rec
      ensures Valid() && Past() == Next(old(Past()), OpenBoot(withUnsealedKey)) && fresh(Cells() - old(Cells()))
      ensures mounted ==> cachedev != null
      ensures old(cachedev) != null ==> cachedev == old(cachedev)
    {
      hide CacheBlkdev.Valid, Of;
      Log(OpenBoot(withUnsealedKey));
      var located: bool, unlocked: bool := *, *;
      if cachedev == null {
        if !located {
          return false;
        }
        var dev := new CacheBlkdev(child);
        cachedev := dev;
        Files();
        if !unlocked {
          cachedev := null;
          return false;
        }
      }
      Files();
      mounted := *;
    }

    /** UnsealKeys: `attempted` says that the sealed keys were read and the TPM asked to unseal them. */
    method UnsealKeys() returns (attempted: bool)
      requires Valid()
      modifies this`bootkeyData, this`keysFound, rec`events
      ensures Valid() && Past() == Next(old(Past()), Unseal(attempted))
      ensures !attempted ==> bootkeyData == old(bootkeyData) && keysFound == old(keysFound)
      ensures attempted ==> bootkeyData == keysFound
    {
      hide CacheBlkdev.Valid, Of;
      attempted := *;
      Log(Unseal(attempted));
      if attempted {
        var found: bool := *;
        bootkeyData, keysFound := found, found;
      }
    }

    /** The window: caching off, remove the update file, caching on again whether or not that worked. */
    method RemoveUpdate()
      requires Valid() && cachedev != null && Past().flag == On && Past().inDbx
      modifies this`sealedContent, Cells(), child, rec
      ensures Valid() && fresh(Cells() - old(Cells()))
      ensures Past().flag == On && Past().inDbx && Past().pcr == old(Past()).pcr
      ensures Past().steps == old(Past()).steps + [SetCaching(false), SetCaching(true)]
      ensures sealedContent == old(sealedContent)
    {
      hide CacheBlkdev.Valid, Of, Tpm.Valid;
      SetCacheFlag(false);
      Files();
      SetCacheFlag(true);
    }

    /**
      `found` says that there is an update file, `applied` that the variable was set, `removed` that the file was
      then removed, in the window with caching off.
     */
    method ApplyDBXUpdate() returns (ok: bool, reboot: bool, found: bool, applied: bool, removed: bool)
      requires Valid() && cachedev != null && Past().flag == On && !Past().inDbx
      modifies this`sealedContent, Cells(), child, rec
      ensures Valid() && fresh(Cells() - old(Cells()))
      ensures Past().flag == On && !Past().inDbx && Past().pcr == old(Past()).pcr
      ensures Past().steps == old(Past()).steps + DbxSteps(removed)
      ensures sealedContent == old(sealedContent)
      ensures reboot == found && ok == (found ==> applied) && (removed ==> found && applied)
      ensures !removed ==> Past() == old(Past()).(steps := Past().steps)
    {
      hide CacheBlkdev.Valid, Of, Tpm.Valid;
      found, applied, removed := *, *, false;
      Log(DbxEnter);
      Files();
      var resealed: bool := *;
      if !found {
        Log(DbxLeave);
        ok, reboot := true, false;
        return;
      }
      if !applied {
        Log(DbxLeave);
        ok, reboot := false, true;
        return;
      }
      // From here on the status is that of the successful SetVariable call, whatever fails later.
      if resealed {
        RemoveUpdate();
      }
      Log(DbxLeave);
      ok, reboot, removed := true, true, resealed;
    }

    /** PatchInitrd: replaces the initrd if the root key is valid and both keys were found. */
    method Patch()
      requires Valid() && cachedev != null && Past().flag == On
      modifies Cells(), child, rec
      ensures Valid() && fresh(Cells() - old(Cells()))
      ensures Past() == Next(old(Past()), PatchInitrd(rootkeyValid && keysFound))
    {
      hide CacheBlkdev.Valid, Of, Tpm.Valid;
      Log(PatchInitrd(rootkeyValid && keysFound));
      if rootkeyValid && keysFound {
        Files();
      }
    }

    ghost predicate Capped()
      reads tpm, rec
    {
      CappedTo(tpm.extend, tpm.capValue, tpm.start, tpm.pcr, Past().pcr)
    }

    /** Measure the scenario, try to unseal the keys, cap the register. `called` says that all calls on PCR 11 succeeded. */
    method MeasureAndUnseal() returns (called: bool, ok: bool)
      requires Valid() && Past().pcr == []
      modifies this`bootkeyData, this`keysFound, rec, tpm
      ensures Valid() && Past() == WithPcr(old(Past()), Past().pcr) && PcrLegal(Past().pcr)
      ensures Since(old(rec.outcomes), rec.outcomes, called) && (ok <==> called && Capped())
    {
      hide CacheBlkdev.Valid, Of, Fold, Next, PcrLegal, CappedTo, Since;
      ghost var h := Past();
      called := MeasureLinuxScenario(tpm);
      ok := false;
      ScenarioLegal(Past().pcr);
      if !called {
        return;
      }
      ghost var measured := rec.outcomes;
      var attempted := UnsealKeys();
      ghost var u := Unseal(attempted);
      PcrSnoc(h, SCENARIO, u);
      PcrSnoc(h, SCENARIO + [u], Cap);
      PcrOf(h, SCENARIO + [u]);
      PcrOf(h, SCENARIO + [u] + [Cap]);
      called, ok := CapPCR(tpm);
      SinceThen(old(rec.outcomes), measured, rec.outcomes, called);
      CappedValue(tpm.extend, tpm.capValue, tpm.start, SCENARIO + [u], u);
    }

    /** Mount the boot partition: with the unsealed key, else with a passphrase asked for up to three times. */
    method UnlockBootPartition() returns (mounted: bool, unsealedKeyValid: bool, tries: nat, asked: nat, copied: bool)
      requires Valid() && Past().flag == Never
      modifies this`cachedev, this`bootkeyData, this`rootkeyValid, Cells(), child, rec
      ensures Valid() && fresh(Cells() - old(Cells()))
      ensures Past() == old(Past()).(steps := old(Past()).steps + OpenSteps(old(bootkeyData), tries))
      ensures mounted ==> cachedev != null
      ensures unsealedKeyValid ==> mounted && old(bootkeyData) && tries == 0
      ensures !unsealedKeyValid ==> tries <= asked && 1 <= asked <= 3 && (mounted ==> tries > 0)
      ensures !mounted ==> asked == 3 || !copied
    {
      hide CacheBlkdev.Valid, Of, Tpm.Valid;
      mounted, unsealedKeyValid, tries, asked, copied := false, false, 0, 0, true;
      ghost var before := Past().steps;
      if bootkeyData {
        mounted := OpenBootFS(true);
        unsealedKeyValid := mounted;
        bootkeyData := mounted;
      }
      TriesGrow(before, old(bootkeyData), 0);
      rootkeyValid := *;
      if !unsealedKeyValid {
        mounted, tries, asked, copied := AskPassphrase(before, old(bootkeyData));
      }
    }

    /** Ask for the passphrase of the boot partition up to three times. */
    method AskPassphrase(ghost before: seq<Event>, ghost key: bool)
      returns (mounted: bool, tries: nat, asked: nat, copied: bool)
      requires Valid() && Past().flag == Never && Past().steps == before + OpenSteps(key, 0)
      modifies this`cachedev, this`bootkeyData, Cells(), child, rec
      ensures Valid() && fresh(Cells() - old(Cells()))
      ensures Past() == old(Past()).(steps := before + OpenSteps(key, tries))
      ensures (mounted ==> cachedev != null && tries > 0) && tries <= asked && 1 <= asked <= 3
      ensures !mounted ==> asked == 3 || !copied
    {
      hide CacheBlkdev.Valid, Of, Tpm.Valid, OpenSteps;
      mounted, tries, asked, copied := false, 0, 0, true;
      while asked < 3 && !mounted
        invariant Valid() && fresh(Cells() - old(Cells()))
        invariant Past() == old(Past()).(steps := before + OpenSteps(key, tries))
        invariant (mounted ==> cachedev != null && tries > 0) && tries <= asked <= 3 && (mounted ==> asked > 0)
      {
        asked := asked + 1;
        var typed: bool := *;
        if typed {
          TriesGrow(before, key, tries);
          mounted := OpenBootFS(false);
          tries := tries + 1;
        }
      }
      if mounted {
        copied := *;
        mounted, bootkeyData := copied, copied;
      }
    }

    /** With the unsealed key and a TPM: apply a DBX update, and reboot if there was one. */
    method UpdateDbx() returns (proceed: bool, reset: bool, resetReturned: bool, removed: bool)
      requires Valid() && cachedev != null && Past().flag == On && !Past().inDbx
      modifies this`sealedContent, this`checks, Cells(), child, rec
      ensures Valid() && fresh(Cells() - old(Cells()))
      ensures Past().flag == On && !Past().inDbx && Past().pcr == old(Past()).pcr
      ensures Past().steps == old(Past()).steps + DbxSteps(removed)
      ensures Since(old(checks), checks, proceed)
      ensures proceed && !resetReturned ==> !removed
      ensures !removed ==> Past() == old(Past()).(steps := Past().steps)
      ensures (reset && !resetReturned ==> !proceed) && (removed ==> reset) && (resetReturned ==> reset)
      ensures sealedContent == old(sealedContent)
    {
      hide CacheBlkdev.Valid, Of, Fold, Tpm.Valid, DbxSteps, Since;
      NothingSince(checks);
      var reboot, found, applied;
      resetReturned := false;
      proceed, reboot, found, applied, removed := ApplyDBXUpdate();
      Check(proceed, old(checks));
      reset := proceed && reboot;
      if reset {
        resetReturned := *;
        Check(resetReturned, old(checks));
        proceed := resetReturned;
      }
    }

    /** Find the initrd, and patch it. */
    method FindAndPatch() returns (patched: bool)
      requires Valid() && cachedev != null && Past().flag == On
      modifies this`checks, Cells(), child, rec
      ensures Valid() && fresh(Cells() - old(Cells()))
      ensures Past() == if patched then Next(old(Past()), PatchInitrd(rootkeyValid && keysFound)) else old(Past())
      ensures Since(old(checks), checks, patched)
    {
      hide CacheBlkdev.Valid, Of, Tpm.Valid, Since;
      NothingSince(checks);
      patched := *;
      Files();
      Check(patched, old(checks));
      if patched {
        Patch();
      }
    }

    /** With the unsealed key: apply a DBX update (and reboot), then inject the keys into the initrd. */
    method UpdateAndPatch(haveTPM: bool)
      returns (patched: bool, reset: bool, resetReturned: bool, removed: bool)
      requires Valid() && cachedev != null && Past().flag == On && !Past().inDbx
      modifies this`sealedContent, this`checks, Cells(), child, rec
      ensures Valid() && fresh(Cells() - old(Cells()))
      ensures Past().flag == On && !Past().inDbx && Past().pcr == old(Past()).pcr
      ensures patched ==> Past().steps == old(Past()).steps + UpdateSteps(haveTPM, removed, rootkeyValid && keysFound)
      ensures !patched ==> Past().steps == old(Past()).steps + if haveTPM then DbxSteps(removed) else []
      ensures Since(old(checks), checks, patched)
      ensures patched && !resetReturned ==> !removed
      ensures !removed ==> Past() == old(Past()).(steps := Past().steps)
      ensures (reset && !resetReturned ==> !patched) && (removed ==> reset) && (resetReturned ==> reset)
      ensures sealedContent == old(sealedContent)
    {
      hide CacheBlkdev.Valid, Of, Fold, Tpm.Valid, DbxSteps, UpdateSteps, Since;
      NothingSince(checks);
      patched, reset, resetReturned, removed := false, false, false, false;
      assert Past().steps + [] == Past().steps;
      if haveTPM {
        var proceed;
        proceed, reset, resetReturned, removed := UpdateDbx();
        if !proceed {
          return;
        }
      }
      ghost var before := checks;
      patched := FindAndPatch();
      SinceThen(old(checks), before, checks, patched);
      StepsWithPatch(old(Past()).steps, haveTPM, removed, rootkeyValid && keysFound);
    }

    /** The last file-system activity before caching is enabled, and its enabling. */
    method EnableCaching()
      requires Valid() && cachedev != null && Past().flag == Never && !Past().lowered
      modifies this`sealedContent, Cells(), child, rec
      ensures Valid() && fresh(Cells() - old(Cells()))
      ensures Past().flag == On && !Past().lowered && Past().inDbx == old(Past()).inDbx && Past().pcr == old(Past()).pcr
      ensures Past().steps == old(Past()).steps + [SetCaching(true)]
    {
      hide CacheBlkdev.Valid, Of, Tpm.Valid;
      Files();
      SetCacheFlag(true);
    }

    /** From the mounted boot partition on: enable caching, update and patch, start the shim. */
    method BootFrom(haveTPM: bool, unsealedKeyValid: bool)
      returns (status: nat, patched: bool, reset: bool, resetReturned: bool, removed: bool, started: bool)
      requires Valid() && cachedev != null && Past().flag == Never && !Past().inDbx && !Past().lowered
      modifies this`sealedContent, this`measuredBootFailed, this`checks, Cells(), child, rec
      ensures Since(old(checks), checks, started)
      ensures Valid() && Past().flag == On && !Past().inDbx && Past().pcr == old(Past()).pcr
      ensures started ==>
                Past().steps == old(Past()).steps + [SetCaching(true)]
                  + (if unsealedKeyValid then UpdateSteps(haveTPM, removed, rootkeyValid && keysFound) else []) + [StartShim]
      ensures !started ==> Past().steps <= old(Past()).steps + [SetCaching(true)] + DbxSteps(removed)
      ensures patched <==> started && unsealedKeyValid
      ensures started && !resetReturned ==> !removed && !Past().dirty && child.content == sealedContent
      ensures measuredBootFailed == (old(measuredBootFailed) && !started)
      ensures status == (if reset && !resetReturned then 0 else 1) && (reset && !resetReturned ==> !started)
    {
      hide CacheBlkdev.Valid, Of, Fold, Tpm.Valid, DbxSteps, UpdateSteps, Since;
      NothingSince(checks);
      status, patched, reset, resetReturned, removed, started := 1, false, false, false, false, false;
      EnableCaching();
      if unsealedKeyValid {
        patched, reset, resetReturned, removed := UpdateAndPatch(haveTPM);
        if !patched {
          status := if reset && !resetReturned then 0 else 1;
          return;
        }
      }
      measuredBootFailed := false;
      started := true;
      Log(StartShim);
      Files();
    }

    /** Up to the measured and capped register. */
    method Prepare(haveTPM: bool) returns (ready: bool)
      requires Valid() && Past().pcr == [] && checks == []
      modifies this`bootkeyData, this`keysFound, this`checks, rec, tpm
      ensures Valid() && Past() == WithPcr(old(Past()), Past().pcr) && PcrLegal(Past().pcr)
      ensures !haveTPM ==> Past().pcr == []
      ensures ready && haveTPM ==> Capped()
      ensures Since([], checks, ready)
    {
      hide CacheBlkdev.Valid, Of, Fold, Tpm.Valid, PcrLegal, CappedTo, Since;
      ScenarioLegal([]);
      NothingSince([]);
      assert Past().steps + [] == Past().steps;
      ready := *;
      Check(ready, []);
      if ready && haveTPM {
        var called;
        called, ready := MeasureAndUnseal();
        Check(ready, []);
      }
    }

    /**
      Every run. `haveKey` says that a boot key was unsealed, `unsealedKeyValid` that it mounted the boot partition,
      `tries` how often a passphrase was tried on it, `removed` that the DBX update file was removed, `reset` that the
      system was then to be reset. A run starts the shim exactly when no step that can stop it failed, and then it
      went through exactly these steps, in this order.
     */
    method EfiMain(haveTPM: bool)
      returns (status: nat, haveKey: bool, unsealedKeyValid: bool, tries: nat,
               patched: bool, reset: bool, resetReturned: bool, removed: bool, started: bool)
      requires Valid() && cachedev == null && rec.events == [] && checks == []
      modifies this, child, rec, tpm
      ensures Past().disciplined && Past().flag != Off && !Past().inDbx
      ensures PcrLegal(Past().pcr) && (!haveTPM ==> Past().pcr == [])
      ensures started && haveTPM ==> Capped()
      ensures started <==> forall x :: 0 <= x < |checks| ==> checks[x].ok
      ensures started ==>
                Past().steps == Past().pcr + OpenSteps(haveKey, tries) + [SetCaching(true)]
                  + (if unsealedKeyValid && haveTPM then
                       [DbxEnter] + (if removed then [SetCaching(false), SetCaching(true)] else []) + [DbxLeave]
                     else [])
                  + (if unsealedKeyValid then [PatchInitrd(rootkeyValid && keysFound)] else [])
                  + [StartShim]
      ensures !started ==> StartShim !in Past().steps
      ensures started ==> if unsealedKeyValid then haveKey && tries == 0 else 1 <= tries <= 3
      ensures patched <==> started && unsealedKeyValid
      ensures started && !resetReturned ==>
                !removed && Past().flag == On && !Past().dirty && child.content == sealedContent
      ensures measuredBootFailed == !started
      ensures status == (if reset && !resetReturned then 0 else 1) && (reset && !resetReturned ==> !started)
    {
      hide CacheBlkdev.Valid, Of, Fold, Tpm.Valid, PcrLegal, CappedTo, UpdateSteps, DbxSteps, OpenSteps, Since;
      status, haveKey, unsealedKeyValid, tries := 1, false, false, 0;
      patched, reset, resetReturned, removed, started := false, false, false, false, false;
      measuredBootFailed := true;
      assert Past() == History(Never, false, false, false, true, [], []) by {
        EmptyPast();
      }
      var ready := Prepare(haveTPM);
      AllGood(checks, ready);
      PcrOnly(Past().pcr);
      if !ready {
        return;
      }
      var mounted, asked, copied;
      ghost var ps := Past().pcr;
      haveKey := bootkeyData;
      PcrOnly(ps);
      mounted, unsealedKeyValid, tries, asked, copied := UnlockBootPartition();
      NoStart(ps, haveKey, tries);
      Check(mounted, []);
      AllGood(checks, mounted);
      if mounted {
        ghost var before := checks;
        status, patched, reset, resetReturned, removed, started := BootFrom(haveTPM, unsealedKeyValid);
        SinceThen([], before, checks, started);
        AllGood(checks, started);
        StepsOfRun(ps, haveKey, tries, haveTPM, unsealedKeyValid, removed, rootkeyValid && keysFound, Past().steps, started);
      }
    }
  }

  lemma AllGood(checks: seq<Outcome>, ok: bool)
    requires Since([], checks, ok)
    ensures ok <==> forall x :: 0 <= x < |checks| ==> checks[x].ok
  {
  }

  /** Opening the boot partition: with the unsealed key if there is one, then with the passphrases typed. */
  function OpenSteps(haveKey: bool, tries: nat): seq<Event> {
    (if haveKey then [OpenBoot(true)] else []) + seq(tries, i => OpenBoot(false))
  }

  lemma TriesGrow(before: seq<Event>, key: bool, tries: nat)
    ensures before + OpenSteps(key, 0) == if key then before + [OpenBoot(true)] else before
    ensures before + OpenSteps(key, tries + 1) == before + OpenSteps(key, tries) + [OpenBoot(false)]
  {
    assert OpenSteps(key, tries + 1) == OpenSteps(key, tries) + [OpenBoot(false)];
  }

  lemma NoStart(ps: seq<Event>, key: bool, tries: nat)
    requires PcrLegal(ps)
    ensures StartShim !in ps + OpenSteps(key, tries)
  {
  }

  /** The steps with a valid unsealed key: the DBX update if there is a TPM, then the initrd. */
  function UpdateSteps(haveTPM: bool, removed: bool, inject: bool): seq<Event> {
    (if haveTPM then DbxSteps(removed) else []) + [PatchInitrd(inject)]
  }

  lemma StepsWithPatch(steps: seq<Event>, haveTPM: bool, removed: bool, inject: bool)
    ensures steps + UpdateSteps(haveTPM, removed, inject) ==
            steps + (if haveTPM then DbxSteps(removed) else []) + [PatchInitrd(inject)]
  {
    hide DbxSteps;
  }

  lemma StepsOfRun(ps: seq<Event>, haveKey: bool, tries: nat, haveTPM: bool, key: bool, removed: bool, inject: bool,
                   steps: seq<Event>, started: bool)
    requires PcrLegal(ps)
    requires started ==> steps == ps + OpenSteps(haveKey, tries) + [SetCaching(true)]
                                  + (if key then UpdateSteps(haveTPM, removed, inject) else []) + [StartShim]
    requires !started ==> steps <= ps + OpenSteps(haveKey, tries) + [SetCaching(true)] + DbxSteps(removed)
    ensures started ==>
              steps == ps + OpenSteps(haveKey, tries) + [SetCaching(true)]
                  + (if key && haveTPM then
                       [DbxEnter] + (if removed then [SetCaching(false), SetCaching(true)] else []) + [DbxLeave]
                     else [])
                  + (if key then [PatchInitrd(inject)] else [])
                  + [StartShim]
    ensures !started ==> StartShim !in steps
  {
    NoStart(ps, haveKey, tries);
    hide OpenSteps;
  }

  lemma EmptyPast()
    ensures Of([]) == History(Never, false, false, false, true, [], [])
  {
  }
}

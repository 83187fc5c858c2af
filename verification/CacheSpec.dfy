/**
  The cache device of lsvmutils/cacheblkdev.c as a relation between abstract states: what one
  GetN, PutN or SetFlags may do, and what follows for whole runs.
 */
module CacheSpec {
  import opened Bytes
  import opened Blkdev
  import opened Trace

  datatype State = State(cache: Image, disk: Image, caching: bool)

  /** What a reader sees: the cached copy where there is one, else the child's block. */
  ghost function Overlay(s: State): Image {
    s.disk + s.cache
  }

  // ----- Which blocks a read asks the child for

  /** The end of the run of uncached blocks that starts at `b`, not beyond `hi`. */
  function MissEnd(cache: Image, b: nat, hi: nat): (e: nat)
    requires b <= hi
    ensures b <= e <= hi
    decreases hi - b
  {
    if b == hi || b in cache then b else MissEnd(cache, b + 1, hi)
  }

  /** The child reads issued for a request of blocks `b .. hi`. */
  function MissRuns(cache: Image, b: nat, hi: nat): seq<Event>
    requires b <= hi
    decreases hi - b
  {
    if b == hi then []
    else if b in cache then MissRuns(cache, b + 1, hi)
    else
      var e := MissEnd(cache, b + 1, hi);
      [ChildRead(b, e - b)] + MissRuns(cache, e, hi)
  }

  lemma {:induction false} MissEndIs(cache: Image, b: nat, e: nat, hi: nat)
    requires b <= e <= hi
    requires forall k :: b <= k < e ==> k !in cache
    requires e == hi || e in cache
    ensures MissEnd(cache, b, hi) == e
    decreases hi - b
  {
    if b < e {
      MissEndIs(cache, b + 1, e, hi);
    }
  }

  lemma {:induction false} MissEndMisses(cache: Image, b: nat, hi: nat)
    requires b <= hi
    ensures var e := MissEnd(cache, b, hi);
            && (forall k :: b <= k < e ==> k !in cache)
            && (e == hi || e in cache)
    decreases hi - b
  {
    if b < hi && b !in cache {
      MissEndMisses(cache, b + 1, hi);
    }
  }

  /** `e` is a child read of uncached blocks inside the request that cannot be extended either way. */
  ghost predicate MaximalMiss(cache: Image, b: nat, hi: nat, e: Event) {
    && e.ChildRead? && e.nblocks > 0
    && b <= e.blkno && e.blkno + e.nblocks <= hi
    && (forall k :: e.blkno <= k < e.blkno + e.nblocks ==> k !in cache)
    && (e.blkno == b || e.blkno - 1 in cache)
    && (e.blkno + e.nblocks == hi || e.blkno + e.nblocks in cache)
  }

  predicate Asks(e: Event, k: nat) {
    e.ChildRead? && e.blkno <= k < e.blkno + e.nblocks
  }

  /** `f` starts after a gap behind `e`. */
  predicate Before(e: Event, f: Event) {
    e.ChildRead? && f.ChildRead? && e.blkno + e.nblocks < f.blkno
  }

  /** The blocks some read of the sequence asks for. */
  ghost predicate AskedBy(rs: seq<Event>, k: nat) {
    exists i :: 0 <= i < |rs| && Asks(rs[i], k)
  }

  /**
    The child is asked only for uncached blocks of the request, in maximal runs and in ascending
    order with a cached gap between two runs, so for no block twice.
   */
  lemma {:induction false} MissRunsMaximal(cache: Image, b: nat, hi: nat)
    requires b <= hi
    ensures forall i :: 0 <= i < |MissRuns(cache, b, hi)| ==> MaximalMiss(cache, b, hi, MissRuns(cache, b, hi)[i])
    ensures forall i, j :: 0 <= i < j < |MissRuns(cache, b, hi)| ==>
              Before(MissRuns(cache, b, hi)[i], MissRuns(cache, b, hi)[j])
    decreases hi - b
  {
    var rs := MissRuns(cache, b, hi);
    if b == hi {
    } else if b in cache {
      MissRunsMaximal(cache, b + 1, hi);
      assert rs == MissRuns(cache, b + 1, hi);
      forall i | 0 <= i < |rs| ensures MaximalMiss(cache, b, hi, rs[i]) {
        assert MaximalMiss(cache, b + 1, hi, rs[i]);
      }
    } else {
      var e := MissEnd(cache, b + 1, hi);
      var ts := MissRuns(cache, e, hi);
      MissEndMisses(cache, b + 1, hi);
      MissRunsMaximal(cache, e, hi);
      assert rs == [ChildRead(b, e - b)] + ts;
      forall i | 0 <= i < |rs| ensures MaximalMiss(cache, b, hi, rs[i]) && (i > 0 ==> e < rs[i].blkno) {
        if i > 0 {
          assert MaximalMiss(cache, e, hi, ts[i - 1]);
        }
      }
    }
  }

  /** Every uncached block of the request is asked for. */
  lemma {:induction false} MissRunsComplete(cache: Image, b: nat, hi: nat, k: nat)
    requires b <= k < hi && k !in cache
    ensures AskedBy(MissRuns(cache, b, hi), k)
    decreases hi - b
  {
    if b in cache {
      MissRunsComplete(cache, b + 1, hi, k);
    } else {
      var e := MissEnd(cache, b + 1, hi);
      if k < e {
        assert Asks(MissRuns(cache, b, hi)[0], k);
      } else {
        MissRunsComplete(cache, e, hi, k);
        var ts := MissRuns(cache, e, hi);
        var i :| 0 <= i < |ts| && Asks(ts[i], k);
        assert Asks(MissRuns(cache, b, hi)[i + 1], k);
      }
    }
  }

  lemma {:induction false} NoMisses(cache: Image, b: nat, hi: nat)
    requires b <= hi && forall k :: b <= k < hi ==> k in cache
    ensures MissRuns(cache, b, hi) == []
    decreases hi - b
  {
    if b < hi {
      NoMisses(cache, b + 1, hi);
    }
  }

  lemma {:induction false} MissRunsSkip(cache: Image, b: nat, e: nat, hi: nat)
    requires b <= e <= hi && forall k :: b <= k < e ==> k in cache
    ensures MissRuns(cache, b, hi) == MissRuns(cache, e, hi)
    decreases e - b
  {
    if b < e {
      MissRunsSkip(cache, b + 1, e, hi);
    }
  }

  lemma MissRunsTake(cache: Image, b: nat, e: nat, hi: nat)
    requires b < e <= hi && (forall k :: b <= k < e ==> k !in cache) && (e == hi || e in cache)
    ensures MissRuns(cache, b, hi) == [ChildRead(b, e - b)] + MissRuns(cache, e, hi)
  {
    MissEndIs(cache, b + 1, e, hi);
  }

  // ----- One operation

  ghost predicate GetStep(s: State, s': State, b: nat, n: nat, ok: bool, out: seq<Block>, calls: seq<Event>) {
    && s'.disk == s.disk && s'.caching == s.caching
    && Overlay(s') == Overlay(s)
    && s.cache.Keys <= s'.cache.Keys
    && (!s.caching ==> s'.cache == s.cache)
    && calls <= MissRuns(s.cache, b, b + n)
    && (!ok ==> calls != [])
    && (ok ==>
          && Covers(Overlay(s), b, n) && out == Slice(Overlay(s), b, n)
          && calls == MissRuns(s.cache, b, b + n)
          && (s.caching ==> Covers(s'.cache, b, n)))
  }

  ghost predicate PutStep(s: State, s': State, b: nat, blocks: seq<Block>, ok: bool, calls: seq<Event>) {
    && s'.caching == s.caching
    && (s.caching ==>
          && s'.disk == s.disk && calls == []
          && (if ok then s'.cache == s.cache + BlocksOf(b, blocks) else RanOut(s.cache, s'.cache, b, blocks)))
    && (!s.caching ==>
          && s'.cache == s.cache && calls == [ChildWrite(b, |blocks|)]
          && (if ok then Covers(s.disk, b, |blocks|) && s'.disk == s.disk + BlocksOf(b, blocks)
              else Torn(s.disk, s'.disk, b, blocks)))
  }

  /** A proper prefix of the blocks arrived. */
  ghost predicate WroteSome(v: Image, v': Image, b: nat, blocks: seq<Block>) {
    exists m: nat :: m < |blocks| && v' == WritePrefix(v, b, blocks, m)
  }

  /** A cached write that ran out of memory: all blocks before one that needed a new node arrived. */
  ghost predicate RanOut(c: Image, c': Image, b: nat, blocks: seq<Block>) {
    exists m: nat :: m < |blocks| && b + m !in c && c' == WritePrefix(c, b, blocks, m)
  }

  ghost predicate FlagStep(s: State, s': State, flags: nat, ok: bool, calls: seq<Event>) {
    && ok == (flags <= 1)
    && s' == (if ok then s.(caching := flags == 1) else s)
    && calls == (if ok then [SetCaching(flags == 1)] else [])
  }

  /** Caching a prefix of what the child holds for uncached blocks does not change the overlay. */
  lemma FillKeepsOverlay(s: State, b: nat, n: nat, m: nat)
    requires m <= n && Covers(s.disk, b, n) && forall k :: b <= k < b + n ==> k !in s.cache
    ensures Overlay(s.(cache := WritePrefix(s.cache, b, Slice(s.disk, b, n), m))) == Overlay(s)
  {
    hide Slice, BlocksOf;
    var blocks := Slice(s.disk, b, n)[..m];
    var c := s.cache + BlocksOf(b, blocks);
    forall k | k in c ensures k in Overlay(s) && c[k] == Overlay(s)[k] {
      if b <= k < b + m {
        assert blocks[k - b] == s.disk[k];
      }
    }
  }

  /**
    A read of `n` blocks from state `s` after `i` of them: the cache is now `c`, the buffer holds
    `done`, the child has answered `calls`.
   */
  ghost predicate Progress(s: State, c: Image, b: nat, n: nat, i: nat, done: seq<Block>, calls: seq<Event>) {
    && i <= n
    && Overlay(s.(cache := c)) == Overlay(s)
    && s.cache.Keys <= c.Keys
    && (!s.caching ==> c == s.cache)
    && (forall k :: k in c && b + i <= k ==> k in s.cache)
    && (s.caching ==> Covers(c, b, i))
    && Covers(Overlay(s), b, i) && done == Slice(Overlay(s), b, i)
    && calls + MissRuns(s.cache, b + i, b + n) == MissRuns(s.cache, b, b + n)
  }

  lemma StartProgress(s: State, b: nat, n: nat)
    ensures Progress(s, s.cache, b, n, 0, [], [])
  {
    assert [] + MissRuns(s.cache, b, b + n) == MissRuns(s.cache, b, b + n);
  }

  lemma FullProgress(s: State, c: Image, b: nat, n: nat, i: nat, done: seq<Block>, calls: seq<Event>)
    requires Progress(s, c, b, n, i, done, calls)
    ensures i <= n
    ensures i == n ==> GetStep(s, s.(cache := c), b, n, true, done, calls)
  {
    if i == n {
      assert calls + [] == calls;
    }
  }

  lemma HitsProgress(s: State, c: Image, b: nat, n: nat, i: nat, done: seq<Block>, calls: seq<Event>, e: nat)
    requires Progress(s, c, b, n, i, done, calls) && i <= e <= n
    requires Covers(c, b + i, e - i)
    ensures Progress(s, c, b, n, e, done + Slice(c, b + i, e - i), calls)
  {
    var v := Overlay(s);
    assert forall k :: b + i <= k < b + e ==> Overlay(s.(cache := c))[k] == c[k];
    SliceSplit(v, b, i, e - i);
    MissRunsSkip(s.cache, b + i, b + e, b + n);
  }

  /** The cache of `s` grew to `c'` by child copies of blocks `b .. b + n` only, and only with caching on. */
  ghost predicate Kept(s: State, c': Image, b: nat, n: nat) {
    && Overlay(s.(cache := c')) == Overlay(s)
    && s.cache.Keys <= c'.Keys
    && (forall k :: k in c' && k !in s.cache ==> b <= k < b + n)
    && (!s.caching ==> c' == s.cache)
  }

  /** Blocks `b + e .. b + j` are the run of misses a pass of the read found. */
  ghost predicate MissesFound(c: Image, b: nat, n: nat, e: nat, j: nat) {
    e < j <= n && (forall k :: b + e <= k < b + j ==> k !in c) && (j == n || b + j in c)
  }

  lemma FillProgress(s: State, c: Image, c': Image, b: nat, n: nat, e: nat, done: seq<Block>, calls: seq<Event>, j: nat)
    requires Progress(s, c, b, n, e, done, calls) && MissesFound(c, b, n, e, j)
    requires Kept(s.(cache := c), c', b + e, j - e)
    requires s.caching ==> Covers(c', b + e, j - e)
    requires Covers(s.disk, b + e, j - e)
    ensures Progress(s, c', b, n, j, done + Slice(s.disk, b + e, j - e), calls + [ChildRead(b + e, j - e)])
  {
    hide Slice, MissRuns;
    SliceSplit(Overlay(s), b, e, j - e);
    assert forall k :: b + e <= k < b + j ==> k !in s.cache;
    assert Slice(Overlay(s), b + e, j - e) == Slice(s.disk, b + e, j - e);
    MissRunsTake(s.cache, b + e, b + j, b + n);
    TakeRun(calls, ChildRead(b + e, j - e), MissRuns(s.cache, b + j, b + n));
  }

  lemma TakeRun(calls: seq<Event>, e: Event, rest: seq<Event>)
    ensures calls + [e] + rest == calls + ([e] + rest)
  {
  }

  /** Giving up in the middle of a read leaves a state a failed read may leave. */
  lemma FailedGet(s: State, c: Image, c': Image, b: nat, n: nat, e: nat, done: seq<Block>, calls: seq<Event>,
                  j: nat, out: seq<Block>)
    requires Progress(s, c, b, n, e, done, calls) && MissesFound(c, b, n, e, j)
    requires Kept(s.(cache := c), c', b + e, j - e)
    ensures GetStep(s, s.(cache := c'), b, n, false, out, calls + [ChildRead(b + e, j - e)])
  {
    MissRunsTake(s.cache, b + e, b + j, b + n);
    TakeRun(calls, ChildRead(b + e, j - e), MissRuns(s.cache, b + j, b + n));
  }

  // ----- Whole runs

  datatype Obs =
    | Get(b: nat, n: nat, ok: bool, out: seq<Block>, calls: seq<Event>)
    | Put(b: nat, blocks: seq<Block>, ok: bool, calls: seq<Event>)
    | Flags(flags: nat, ok: bool, calls: seq<Event>)

  ghost predicate Step(s: State, o: Obs, s': State) {
    match o
    case Get(b, n, ok, out, calls) => GetStep(s, s', b, n, ok, out, calls)
    case Put(b, blocks, ok, calls) => PutStep(s, s', b, blocks, ok, calls)
    case Flags(flags, ok, calls) => FlagStep(s, s', flags, ok, calls)
  }

  ghost predicate Run(ss: seq<State>, os: seq<Obs>) {
    && |ss| == |os| + 1
    && forall i :: 0 <= i < |os| ==> Step(ss[i], os[i], ss[i + 1])
  }

  /** No flag change in the run switches caching to anything but `on`. */
  ghost predicate KeepsFlag(os: seq<Obs>, on: bool) {
    forall i :: 0 <= i < |os| && os[i].Flags? && os[i].ok ==> (os[i].flags == 1) == on
  }

  /** One flat array of blocks, the simple device the cache is compared with. */
  ghost predicate FlatStep(f: Image, o: Obs, f': Image) {
    match o
    case Get(b, n, ok, out, _) => f' == f && (ok ==> Covers(f, b, n) && out == Slice(f, b, n))
    case Put(b, blocks, ok, _) =>
        && if ok then f' == f + BlocksOf(b, blocks) else WroteSome(f, f', b, blocks)
    case Flags(_, _, _) => f' == f
  }

  lemma {:induction false} FlagKept(ss: seq<State>, os: seq<Obs>, i: nat)
    requires Run(ss, os) && i < |ss| && KeepsFlag(os, ss[0].caching)
    ensures ss[i].caching == ss[0].caching
  {
    if i > 0 {
      FlagKept(ss, os, i - 1);
      assert Step(ss[i - 1], os[i - 1], ss[i]);
    }
  }

  lemma OverlayWrite(s: State, b: nat, blocks: seq<Block>)
    ensures Overlay(s.(cache := s.cache + BlocksOf(b, blocks))) == Overlay(s) + BlocksOf(b, blocks)
  {
  }

  lemma OverlayShortWrite(s: State, s': State, b: nat, blocks: seq<Block>)
    requires s'.disk == s.disk && RanOut(s.cache, s'.cache, b, blocks)
    ensures WroteSome(Overlay(s), Overlay(s'), b, blocks)
  {
    var m: nat :| m < |blocks| && b + m !in s.cache && s'.cache == WritePrefix(s.cache, b, blocks, m);
    OverlayWrite(s, b, blocks[..m]);
    assert Overlay(s') == WritePrefix(Overlay(s), b, blocks, m);
  }

  /** With caching on, one step of the cache device is one step of a flat disk, and the child is not written. */
  lemma CachedStep(s: State, o: Obs, s': State)
    requires Step(s, o, s') && s.caching && (o.Flags? && o.ok ==> o.flags == 1)
    ensures FlatStep(Overlay(s), o, Overlay(s'))
    ensures s'.disk == s.disk && s'.caching
    ensures forall e :: e in o.calls ==> !e.ChildWrite?
  {
    hide WroteSome, RanOut;
    match o {
      case Get(b, n, ok, out, calls) =>
        MissRunsMaximal(s.cache, b, b + n);
      case Put(b, blocks, ok, calls) =>
        if ok {
          OverlayWrite(s, b, blocks);
        } else {
          OverlayShortWrite(s, s', b, blocks);
        }
      case Flags(_, _, _) =>
    }
  }

  /**
    While caching stays on, the device is a flat disk whose first content is the overlay: each
    state's overlay is the flat disk's content, the child never changes, and no child write occurs.
   */
  lemma {:induction false} CachedRunIsFlatDisk(ss: seq<State>, os: seq<Obs>, i: nat)
    requires Run(ss, os) && ss[0].caching && KeepsFlag(os, true)
    requires i < |ss|
    ensures ss[i].disk == ss[0].disk
    ensures i < |os| ==> FlatStep(Overlay(ss[i]), os[i], Overlay(ss[i + 1]))
    ensures i < |os| ==> forall e :: e in os[i].calls ==> !e.ChildWrite?
  {
    if i > 0 {
      CachedRunIsFlatDisk(ss, os, i - 1);
      FlagKept(ss, os, i - 1);
      CachedStep(ss[i - 1], os[i - 1], ss[i]);
    }
    if i < |os| {
      FlagKept(ss, os, i);
      CachedStep(ss[i], os[i], ss[i + 1]);
    }
  }

  /**
    Before caching is first enabled nothing is ever cached, so the device is its child: the overlay
    is the child's content, a read is one child read of the whole request, a write one child write.
   */
  lemma {:induction false} UncachedRunIsChild(ss: seq<State>, os: seq<Obs>, i: nat)
    requires Run(ss, os) && ss[0].cache == map[] && !ss[0].caching && KeepsFlag(os, false)
    requires i < |ss|
    ensures ss[i].cache == map[] && Overlay(ss[i]) == ss[i].disk
    ensures i < |os| && os[i].Get? ==> os[i].calls == if os[i].n == 0 then [] else [ChildRead(os[i].b, os[i].n)]
    ensures i < |os| && os[i].Get? && os[i].ok ==>
              Covers(ss[i].disk, os[i].b, os[i].n) && os[i].out == Slice(ss[i].disk, os[i].b, os[i].n)
    ensures i < |os| && os[i].Put? ==> os[i].calls == [ChildWrite(os[i].b, |os[i].blocks|)]
  {
    FlagKept(ss, os, i);
    if i > 0 {
      UncachedRunIsChild(ss, os, i - 1);
      FlagKept(ss, os, i - 1);
      assert Step(ss[i - 1], os[i - 1], ss[i]);
    }
    assert Overlay(ss[i]) == ss[i].disk;
    if i < |os| {
      assert Step(ss[i], os[i], ss[i + 1]);
      if os[i].Get? && os[i].n > 0 {
        MissEndIs(ss[i].cache, os[i].b + 1, os[i].b + os[i].n, os[i].b + os[i].n);
        assert MissRuns(ss[i].cache, os[i].b + os[i].n, os[i].b + os[i].n) == [];
      }
    }
  }

  /** With caching off a write changes the overlay precisely on the uncached blocks it covers. */
  lemma UncachedPut(s: State, s': State, b: nat, blocks: seq<Block>, calls: seq<Event>)
    requires PutStep(s, s', b, blocks, true, calls) && !s.caching
    ensures Overlay(s').Keys == Overlay(s).Keys
    ensures forall k :: k in Overlay(s) ==>
              Overlay(s')[k] == if k in BlocksOf(b, blocks) && k !in s.cache then BlocksOf(b, blocks)[k] else Overlay(s)[k]
  {
  }

  /** The device reads back what was just written. */
  ghost predicate ReadsBack(s: State, b: nat, blocks: seq<Block>) {
    && Covers(Overlay(s), b, |blocks|)
    && Slice(Overlay(s), b, |blocks|) == blocks
  }

  lemma UncachedReadBack(s: State, s': State, b: nat, blocks: seq<Block>, calls: seq<Event>)
    requires !s.caching && PutStep(s, s', b, blocks, true, calls)
    requires forall k :: b <= k < b + |blocks| ==> k !in s.cache
    ensures ReadsBack(s', b, blocks)
  {
    SliceOfBlocks(s.disk, b, blocks);
  }

  /** A cached block keeps its old value in the overlay, so some buffer written over it is not read back. */
  lemma StaleReadBack(s: State, b: nat, n: nat, k: nat) returns (blocks: seq<Block>, s': State)
    requires !s.caching && Covers(s.disk, b, n)
    requires b <= k < b + n && k in s.cache
    ensures |blocks| == n && PutStep(s, s', b, blocks, true, [ChildWrite(b, n)])
    ensures !ReadsBack(s', b, blocks)
  {
    var x := Other(s.cache[k]);
    blocks := seq(n, i => x);
    s' := s.(disk := s.disk + BlocksOf(b, blocks));
    assert blocks[k - b] == x;
    assert Overlay(s')[k] == s.cache[k];
  }

  /** Every write of `n` blocks at `b` is read back. */
  ghost predicate AllReadBack(s: State, b: nat, n: nat) {
    forall blocks, s' :: |blocks| == n && PutStep(s, s', b, blocks, true, [ChildWrite(b, n)]) ==>
      ReadsBack(s', b, blocks)
  }

  /** With caching off, every write of `n` blocks at `b` reads back if and only if none of them is cached. */
  lemma ReadYourWritesIff(s: State, b: nat, n: nat)
    requires !s.caching && Covers(s.disk, b, n)
    ensures AllReadBack(s, b, n) <==> forall k :: b <= k < b + n ==> k !in s.cache
  {
    if k :| b <= k < b + n && k in s.cache {
      var blocks, s' := StaleReadBack(s, b, n, k);
    } else {
      forall blocks, s' | |blocks| == n && PutStep(s, s', b, blocks, true, [ChildWrite(b, n)])
        ensures ReadsBack(s', b, blocks)
      {
        UncachedReadBack(s, s', b, blocks, [ChildWrite(b, n)]);
      }
    }
  }

  /**
    A successful read with caching on pins its blocks: whatever the child holds later, while those
    cached copies stay, the same read succeeds without a child call and returns the same blocks.
   */
  lemma RepeatReadIsLocal(s: State, s': State, t: State, t': State, b: nat, n: nat,
                          out: seq<Block>, calls: seq<Event>, ok2: bool, out2: seq<Block>, calls2: seq<Event>)
    requires s.caching && GetStep(s, s', b, n, true, out, calls)
    requires forall k :: b <= k < b + n && k in s'.cache ==> k in t.cache && t.cache[k] == s'.cache[k]
    requires GetStep(t, t', b, n, ok2, out2, calls2)
    ensures ok2 && calls2 == [] && out2 == out
  {
    NoMisses(t.cache, b, b + n);
    forall k | b <= k < b + n ensures Overlay(s)[k] == Overlay(t)[k] {
      assert Overlay(s')[k] == s'.cache[k];
    }
  }

  /** Whatever happens to the flag, a block that was ever cached stays cached. */
  lemma {:induction false} KeysGrow(ss: seq<State>, os: seq<Obs>, i: nat, j: nat)
    requires Run(ss, os) && i <= j < |ss|
    ensures ss[i].cache.Keys <= ss[j].cache.Keys
    decreases j - i
  {
    if i < j {
      KeysGrow(ss, os, i, j - 1);
      StepKeepsKeys(ss[j - 1], os[j - 1], ss[j]);
    }
  }

  lemma StepKeepsKeys(s: State, o: Obs, s': State)
    requires Step(s, o, s')
    ensures s.cache.Keys <= s'.cache.Keys
  {
    if o.Put? && s.caching && !o.ok {
      var m: nat :| m < |o.blocks| && o.b + m !in s.cache && s'.cache == WritePrefix(s.cache, o.b, o.blocks, m);
    }
  }

  /**
    In every run, blocks read successfully with caching on are never asked of the child again: a later
    read inside the same range succeeds without a child call, whatever was done in between.
   */
  lemma NeverAskedAgain(ss: seq<State>, os: seq<Obs>, i: nat, k: nat)
    requires Run(ss, os) && i < k < |os|
    requires os[i].Get? && os[i].ok && ss[i].caching
    requires os[k].Get? && os[i].b <= os[k].b && os[k].b + os[k].n <= os[i].b + os[i].n
    ensures os[k].ok && os[k].calls == []
  {
    assert Step(ss[i], os[i], ss[i + 1]) && Step(ss[k], os[k], ss[k + 1]);
    KeysGrow(ss, os, i + 1, k);
    NoMisses(ss[k].cache, os[k].b, os[k].b + os[k].n);
  }

  /** A cached copy changes only by a write to its block with caching on. */
  ghost predicate Rewrites(s: State, o: Obs, x: nat) {
    o.Put? && s.caching && o.b <= x < o.b + |o.blocks|
  }

  lemma StepKeepsCopy(s: State, o: Obs, s': State, x: nat)
    requires Step(s, o, s') && x in s.cache && !Rewrites(s, o, x)
    ensures x in s'.cache && s'.cache[x] == s.cache[x]
  {
    StepKeepsKeys(s, o, s');
    if o.Get? {
      assert Overlay(s)[x] == s.cache[x] && Overlay(s')[x] == s'.cache[x];
    } else if o.Put? && s.caching && !o.ok {
      var m: nat :| m < |o.blocks| && o.b + m !in s.cache && s'.cache == WritePrefix(s.cache, o.b, o.blocks, m);
    }
  }

  lemma {:induction false} CopyStays(ss: seq<State>, os: seq<Obs>, i: nat, j: nat, x: nat)
    requires Run(ss, os) && i <= j < |ss| && x in ss[i].cache
    requires forall l :: i <= l < j ==> !Rewrites(ss[l], os[l], x)
    ensures x in ss[j].cache && ss[j].cache[x] == ss[i].cache[x]
    decreases j - i
  {
    if i < j {
      CopyStays(ss, os, i, j - 1, x);
      StepKeepsCopy(ss[j - 1], os[j - 1], ss[j], x);
    }
  }

  /**
    In every run, a read inside a range that was read with caching on returns the same bytes as then,
    whatever happened to the child, to other blocks or to the flag, unless a write with caching on
    covered one of its blocks in between.
   */
  lemma SameBytesAgain(ss: seq<State>, os: seq<Obs>, i: nat, k: nat)
    requires Run(ss, os) && i < k < |os|
    requires os[i].Get? && os[i].ok && ss[i].caching
    requires os[k].Get? && os[i].b <= os[k].b && os[k].b + os[k].n <= os[i].b + os[i].n
    requires forall l, x :: i < l < k && os[k].b <= x < os[k].b + os[k].n ==> !Rewrites(ss[l], os[l], x)
    ensures |os[i].out| == os[i].n
    ensures os[k].ok && os[k].out == os[i].out[os[k].b - os[i].b..os[k].b + os[k].n - os[i].b]
  {
    NeverAskedAgain(ss, os, i, k);
    assert Step(ss[i], os[i], ss[i + 1]) && Step(ss[k], os[k], ss[k + 1]);
    forall x | os[k].b <= x < os[k].b + os[k].n ensures Overlay(ss[k])[x] == Overlay(ss[i])[x] {
      CopyStays(ss, os, i + 1, k, x);
      assert Overlay(ss[i + 1])[x] == ss[i + 1].cache[x];
    }
  }
}

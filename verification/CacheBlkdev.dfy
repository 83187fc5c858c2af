/** The hash-chained block cache of lsvmutils/cacheblkdev.c. */
module CacheBlkdev {
  import opened Blkdev
  import opened Trace
  import opened RawDevice
  import opened CacheSpec

  /** MAX_CHAINS is 64 * 1024, written out so that slots stay linear. */
  function Slot(blkno: nat): (s: nat)
    ensures s < 0x1_0000
  {
    blkno % 0x1_0000
  }

  /** One cached block. A node is linked in front of its chain once and never moved. */
  class Node {
    const next: Node?
    const blkno: nat
    var data: Block

    constructor (next: Node?, blkno: nat, data: Block)
      ensures this.next == next && this.blkno == blkno && this.data == data
    {
      this.next := next;
      this.blkno := blkno;
      this.data := data;
    }
  }

  ghost function NodeAt(ns: seq<Node>, i: nat): Node? {
    if i < |ns| then ns[i] else null
  }

  /** `ns` is the whole chain from `head`: null-terminated, of one slot, no block number twice. */
  ghost predicate Chain(head: Node?, ns: seq<Node>, slot: nat) {
    && head == NodeAt(ns, 0)
    && (forall i {:trigger ns[i].next} :: 0 <= i < |ns| ==> ns[i].next == NodeAt(ns, i + 1))
    && (forall i :: 0 <= i < |ns| ==> Slot(ns[i].blkno) == slot)
    && (forall i, j :: 0 <= i < j < |ns| ==> ns[i].blkno != ns[j].blkno)
  }

  lemma ChainPush(head: Node?, ns: seq<Node>, slot: nat, n: Node)
    requires Chain(head, ns, slot) && n.next == head && Slot(n.blkno) == slot
    requires forall i :: 0 <= i < |ns| ==> ns[i].blkno != n.blkno
    ensures Chain(n, [n] + ns, slot)
  {
    var ms := [n] + ns;
    forall i | 0 <= i < |ms| ensures ms[i].next == NodeAt(ms, i + 1) {
      if i > 0 {
        assert ms[i] == ns[i - 1];
      }
    }
  }

  /**
    The chains behind `heads` hold exactly the nodes of `index`, each in its slot's chain.
   */
  ghost predicate WellLinked(heads: seq<Node?>, spine: seq<seq<Node>>, index: map<nat, Node>) {
    && |heads| == |spine| == 0x1_0000
    && (forall s :: 0 <= s < |spine| ==> Chain(heads[s], spine[s], s))
    && (forall s :: 0 <= s < |spine| ==> Indexed(spine[s], index))
    && (forall b {:trigger Present(spine, index, b)} :: b in index ==> Present(spine, index, b))
  }

  ghost predicate Present(spine: seq<seq<Node>>, index: map<nat, Node>, b: nat)
    requires |spine| == 0x1_0000 && b in index
  {
    index[b].blkno == b && index[b] in spine[Slot(b)]
  }

  ghost predicate Indexed(ns: seq<Node>, index: map<nat, Node>) {
    forall i :: 0 <= i < |ns| ==> ns[i].blkno in index && index[ns[i].blkno] == ns[i]
  }

  /** Linking a new node in front of its slot's chain keeps all chains well linked. */
  lemma PushLinked(heads: seq<Node?>, spine: seq<seq<Node>>, index: map<nat, Node>, n: Node,
                   heads': seq<Node?>, spine': seq<seq<Node>>, index': map<nat, Node>)
    requires WellLinked(heads, spine, index)
    requires n.blkno !in index && n.next == heads[Slot(n.blkno)]
    requires var s := Slot(n.blkno);
             heads' == heads[s := n] && spine' == spine[s := [n] + spine[s]] && index' == index[n.blkno := n]
    ensures WellLinked(heads', spine', index')
  {
    var s := Slot(n.blkno);
    assert Indexed(spine[s], index);
    ChainPush(heads[s], spine[s], s, n);
    forall t | 0 <= t < |spine'| ensures Indexed(spine'[t], index') {
      assert Indexed(spine[t], index);
    }
    forall b | b in index' ensures Present(spine', index', b) {
      if b == n.blkno {
        assert spine'[s][0] == n;
      } else {
        assert Present(spine, index, b);
        assert Slot(b) == s ==> spine'[s][1..] == spine[s];
      }
    }
  }

  class CacheBlkdev {
    const child: RawDevice
    const chains: array<Node?>
    var caching: bool
    ghost var spine: seq<seq<Node>>     // the chain behind each slot
    ghost var index: map<nat, Node>     // the node of each cached block
    ghost var cache: Image              // the abstract content
    ghost var Repr: set<object>

    ghost predicate Valid()
      reads this, Repr
      ensures Valid() ==> this in Repr && chains in Repr && child !in Repr && child.rec !in Repr
    {
      && this in Repr && chains in Repr && child !in Repr && child.rec !in Repr
      && WellLinked(chains[..], spine, index)
      && cache.Keys == index.Keys
      && (forall b :: b in index ==> index[b] in Repr && cache[b] == index[b].data)
    }

    ghost function Abs(): State
      reads this, child
    {
      State(cache, child.content, caching)
    }

    /** NewCacheBlkdev: no block cached, caching off. */
    constructor (child: RawDevice)
      ensures Valid() && fresh(Repr) && this.child == child
      ensures Abs() == State(map[], child.content, false)
    {
      this.child := child;
      var heads := new Node?[0x1_0000](i => null);
      chains := heads;
      caching := false;
      spine := seq(0x1_0000, i => []);
      index := map[];
      cache := map[];
      Repr := {this, heads};
    }

    /** _GetCache */
    method Find(blkno: nat) returns (p: Node?)
      requires Valid()
      ensures p == if blkno in index then index[blkno] else null
    {
      ghost var ns := spine[Slot(blkno)];
      ghost var i := 0;
      p := chains[Slot(blkno)];
      while p != null
        invariant 0 <= i <= |ns| && p == NodeAt(ns, i)
        invariant forall k :: 0 <= k < i ==> ns[k].blkno != blkno
        decreases |ns| - i
      {
        if p.blkno == blkno {
          assert Indexed(ns, index);
          return;
        }
        p := p.next;
        i := i + 1;
      }
      assert blkno in index ==> Present(spine, index, blkno);
    }

    /** _PutCache, which its callers reach only for a block that is not cached yet. */
    method Insert(blkno: nat, data: Block) returns (ok: bool)
      requires Valid() && blkno !in cache
      modifies this, chains, child.rec`outcomes
      ensures Valid() && fresh(Repr - old(Repr)) && old(Repr) <= Repr
      ensures child.rec.outcomes == old(child.rec.outcomes) + [Memory(ok)]
      ensures caching == old(caching)
      ensures cache == if ok then old(cache)[blkno := data] else old(cache)
    {
      ok := child.rec.Alloc();
      if ok {
        var slot := Slot(blkno);
        var n := new Node(chains[slot], blkno, data);
        chains[slot] := n;
        spine := spine[slot := [n] + spine[slot]];
        index := index[blkno := n];
        cache := cache[blkno := data];
        Repr := Repr + {n};
        PushLinked(old(chains[..]), old(spine), old(index), n, chains[..], spine, index);
      }
    }

    /** The hit loop of _GetN: delivers cached blocks up to the first miss. */
    method TakeHits(b: nat, n: nat) returns (e: nat, out: seq<Block>)
      requires Valid()
      ensures e <= n && (e == n || b + e !in cache)
      ensures Covers(cache, b, e) && out == Slice(cache, b, e)
    {
      e, out := 0, [];
      while e < n
        invariant e <= n && Covers(cache, b, e) && out == Slice(cache, b, e)
      {
        var p := Find(b + e);
        if p == null {
          return;
        }
        out := out + [p.data];
        e := e + 1;
      }
    }

    /** The scan of _GetN for the next cached block. */
    method ScanMisses(b: nat, n: nat) returns (j: nat)
      requires Valid()
      ensures j <= n && (j == n || b + j in cache)
      ensures forall k :: b <= k < b + j ==> k !in cache
    {
      j := 0;
      while j < n
        invariant j <= n && forall k :: b <= k < b + j ==> k !in cache
      {
        var p := Find(b + j);
        if p != null {
          return;
        }
        j := j + 1;
      }
    }

    /** The insertion loop of _GetN over a run of blocks that are not cached. */
    method InsertRun(b: nat, blocks: seq<Block>) returns (ok: bool)
      requires Valid()
      requires forall k :: b <= k < b + |blocks| ==> k !in cache
      modifies this, chains, child.rec`outcomes
      ensures Valid() && fresh(Repr - old(Repr)) && old(Repr) <= Repr
      ensures caching == old(caching) && Since(old(child.rec.outcomes), child.rec.outcomes, ok)
      ensures if ok then cache == old(cache) + BlocksOf(b, blocks) else WroteSome(old(cache), cache, b, blocks)
    {
      hide Valid, Since;
      var i := 0;
      NothingSince(child.rec.outcomes);
      while i < |blocks|
        invariant 0 <= i <= |blocks|
        invariant Valid() && fresh(Repr - old(Repr)) && old(Repr) <= Repr && caching == old(caching)
        invariant cache == WritePrefix(old(cache), b, blocks, i)
        invariant Since(old(child.rec.outcomes), child.rec.outcomes, true)
      {
        OneMore(old(child.rec.outcomes), child.rec.outcomes, Memory(true));
        OneMore(old(child.rec.outcomes), child.rec.outcomes, Memory(false));
        ok := Insert(b + i, blocks[i]);
        if !ok {
          return;
        }
        WritePrefixSnoc(old(cache), b, blocks, i);
        i := i + 1;
      }
      assert blocks[..|blocks|] == blocks;
      ok := true;
    }

    /** _GetN on a run of misses: with caching on, insert what the child delivered. */
    method KeepRun(b: nat, blocks: seq<Block>) returns (ok: bool)
      requires Valid() && Covers(child.content, b, |blocks|) && blocks == Slice(child.content, b, |blocks|)
      requires forall k :: b <= k < b + |blocks| ==> k !in cache
      modifies this, chains, child.rec`outcomes
      ensures Valid() && fresh(Repr - old(Repr)) && old(Repr) <= Repr
      ensures Since(old(child.rec.outcomes), child.rec.outcomes, ok)
      ensures !caching ==> child.rec.outcomes == old(child.rec.outcomes)
      ensures caching == old(caching) && Kept(old(Abs()), cache, b, |blocks|)
      ensures ok && caching ==> Covers(cache, b, |blocks|)
    {
      ok := true;
      NothingSince(child.rec.outcomes);
      if caching {
        ghost var m: nat := |blocks|;
        ok := InsertRun(b, blocks);
        if !ok {
          m :| m < |blocks| && cache == WritePrefix(old(cache), b, blocks, m);
        }
        assert blocks[..|blocks|] == blocks;
        FillKeepsOverlay(old(Abs()), b, |blocks|, m);
      }
    }

    /** One pass of the outer loop of _GetN, from block `i` of the request on. */
    method Round(ghost s: State, b: nat, n: nat, i: nat, done: seq<Block>, ghost calls: seq<Event>)
      returns (ok: bool, j: nat, out: seq<Block>, ghost added: seq<Event>)
      requires Valid() && i < n
      requires Abs() == s.(cache := cache) && Progress(s, cache, b, n, i, done, calls)
      modifies Repr, child.rec
      ensures Valid() && fresh(Repr - old(Repr)) && old(Repr) <= Repr && Abs() == s.(cache := cache)
      ensures child.rec.events == old(child.rec.events) + added
      ensures ok ==> i < j && Progress(s, cache, b, n, j, out, calls + added)
      ensures !ok ==> GetStep(s, Abs(), b, n, false, out, calls + added)
      ensures Since(old(child.rec.outcomes), child.rec.outcomes, ok)
      ensures !s.caching ==> DevicesOnly(old(child.rec.outcomes), child.rec.outcomes)
    {
      hide Valid, Progress, GetStep, Kept, Covers, Overlay, Since;
      NothingSince(child.rec.outcomes);
      var e, m, more;
      e, out := TakeHits(b + i, n - i);
      e, out := i + e, done + out;
      HitsProgress(s, cache, b, n, i, done, calls, e);
      m := ScanMisses(b + e, n - e);
      j, added := e + m, [];
      if m == 0 {
        assert calls + added == calls && child.rec.events + added == child.rec.events;
        return true, j, out, added;
      }
      added := [ChildRead(b + e, m)];
      ghost var c := cache;
      ok, more := child.GetN(b + e, m);
      OneMore(old(child.rec.outcomes), old(child.rec.outcomes), Device(ok));
      if ok {
        ghost var asked := child.rec.outcomes;
        ok := KeepRun(b + e, more);
        SinceThen(old(child.rec.outcomes), asked, child.rec.outcomes, ok);
      }
      if ok {
        FillProgress(s, c, cache, b, n, e, out, calls, j);
      } else {
        FailedGet(s, c, cache, b, n, e, out, calls, j, out + more);
      }
      out := out + more;
    }

    method GetN(b: nat, n: nat) returns (ok: bool, out: seq<Block>)
      requires Valid()
      modifies Repr, child.rec
      ensures Valid() && fresh(Repr - old(Repr)) && old(Repr) <= Repr
      ensures old(child.rec.events) <= child.rec.events
      ensures GetStep(old(Abs()), Abs(), b, n, ok, out, child.rec.events[|old(child.rec.events)|..])
      ensures Since(old(child.rec.outcomes), child.rec.outcomes, ok)
      ensures !caching ==> DevicesOnly(old(child.rec.outcomes), child.rec.outcomes)
    {
      hide Valid, Progress, GetStep, Since;
      ghost var s, ev := Abs(), child.rec.events;
      NothingSince(child.rec.outcomes);
      ghost var calls, added: seq<Event> := [], [];
      var i := 0;
      out := [];
      StartProgress(s, b, n);
      while i < n
        invariant Valid() && fresh(Repr - old(Repr)) && old(Repr) <= Repr
        invariant Abs() == s.(cache := cache)
        invariant child.rec.events == ev + calls
        invariant Progress(s, cache, b, n, i, out, calls)
        invariant Since(old(child.rec.outcomes), child.rec.outcomes, true)
        invariant !s.caching ==> DevicesOnly(old(child.rec.outcomes), child.rec.outcomes)
        decreases n - i
      {
        ghost var asked := child.rec.outcomes;
        ok, i, out, added := Round(s, b, n, i, out, calls);
        SinceThen(old(child.rec.outcomes), asked, child.rec.outcomes, ok);
        assert ev + calls + added == ev + (calls + added);
        calls := calls + added;
        if !ok {
          return;
        }
      }
      FullProgress(s, cache, b, n, i, out, calls);
      ok := true;
    }

    /** The cached branch of one block of _PutN: overwrite the node in place, or insert one. */
    method Store(blkno: nat, data: Block) returns (ok: bool)
      requires Valid()
      modifies Repr, child.rec`outcomes
      ensures Valid() && fresh(Repr - old(Repr)) && old(Repr) <= Repr
      ensures caching == old(caching)
      ensures cache == if ok then old(cache)[blkno := data] else old(cache)
      ensures !ok ==> blkno !in cache
      ensures child.rec.outcomes == old(child.rec.outcomes) + if blkno in old(cache) then [] else [Memory(ok)]
      ensures blkno in old(cache) ==> ok
    {
      var p := Find(blkno);
      if p != null {
        p.data := data;
        cache := cache[blkno := data];
        forall b | b in index ensures index[b] in Repr && cache[b] == index[b].data {
          assert Present(spine, index, b) && Present(spine, index, blkno);
        }
        ok := true;
      } else {
        ok := Insert(blkno, data);
      }
    }

    /** The loop of _PutN with caching on. */
    method StoreRun(b: nat, blocks: seq<Block>) returns (ok: bool)
      requires Valid()
      modifies Repr, child.rec`outcomes
      ensures Valid() && fresh(Repr - old(Repr)) && old(Repr) <= Repr && caching == old(caching)
      ensures if ok then cache == old(cache) + BlocksOf(b, blocks) else RanOut(old(cache), cache, b, blocks)
      ensures Since(old(child.rec.outcomes), child.rec.outcomes, ok)
      ensures MemoryOnly(old(child.rec.outcomes), child.rec.outcomes)
    {
      hide Valid, Since, MemoryOnly;
      NothingSince(child.rec.outcomes);
      var i := 0;
      while i < |blocks|
        invariant 0 <= i <= |blocks|
        invariant Valid() && fresh(Repr - old(Repr)) && old(Repr) <= Repr && caching == old(caching)
        invariant cache == WritePrefix(old(cache), b, blocks, i)
        invariant Since(old(child.rec.outcomes), child.rec.outcomes, true)
        invariant MemoryOnly(old(child.rec.outcomes), child.rec.outcomes)
      {
        OneMore(old(child.rec.outcomes), child.rec.outcomes, Memory(true));
        OneMore(old(child.rec.outcomes), child.rec.outcomes, Memory(false));
        assert child.rec.outcomes + [] == child.rec.outcomes;
        ok := Store(b + i, blocks[i]);
        if !ok {
          return;
        }
        WritePrefixSnoc(old(cache), b, blocks, i);
        i := i + 1;
      }
      assert blocks[..|blocks|] == blocks;
      ok := true;
    }

    method PutN(b: nat, blocks: seq<Block>) returns (ok: bool)
      requires Valid()
      modifies Repr, child, child.rec
      ensures Valid() && fresh(Repr - old(Repr)) && old(Repr) <= Repr
      ensures old(child.rec.events) <= child.rec.events
      ensures PutStep(old(Abs()), Abs(), b, blocks, ok, child.rec.events[|old(child.rec.events)|..])
      ensures Since(old(child.rec.outcomes), child.rec.outcomes, ok)
      ensures caching ==> MemoryOnly(old(child.rec.outcomes), child.rec.outcomes)
      ensures !caching ==> child.rec.outcomes == old(child.rec.outcomes) + [Device(ok)]
    {
      hide Valid, Since, MemoryOnly, RanOut, BlocksOf;
      if caching {
        ok := StoreRun(b, blocks);
      } else {
        NothingSince(child.rec.outcomes);
        ok := child.PutN(b, blocks);
        OneMore(old(child.rec.outcomes), old(child.rec.outcomes), Device(ok));
      }
    }

    method SetFlags(flags: nat) returns (ok: bool)
      requires Valid()
      modifies this, child.rec
      ensures Valid() && Repr == old(Repr)
      ensures old(child.rec.events) <= child.rec.events
      ensures FlagStep(old(Abs()), Abs(), flags, ok, child.rec.events[|old(child.rec.events)|..])
    {
      if flags > 1 {
        return false;
      }
      caching := flags == 1;
      child.rec.Log(SetCaching(caching));
      ok := true;
    }

    /** _ReleaseCache: walks every chain and frees its nodes. */
    method ReleaseCache() returns (freed: seq<Node>)
      requires Valid()
      ensures freed == AllNodes(spine)
    {
      hide Chain, WellLinked, AllNodes;
      freed := [];
      AllNodesStart(spine);
      SlotChain(chains[..], spine, index, 0);
      for s := 0 to 0x1_0000
        invariant freed == AllNodes(spine[..s])
      {
        SlotChain(chains[..], spine, index, s);
        var ns := FreeChain(chains[s], spine[s], s);
        AllNodesStep(spine, s);
        freed := freed + ns;
      }
      assert spine[..0x1_0000] == spine;
    }
  }

  /** The inner loop of _ReleaseCache, on one chain. */
  method FreeChain(head: Node?, ghost ns: seq<Node>, ghost slot: nat) returns (freed: seq<Node>)
    requires Chain(head, ns, slot)
    ensures freed == ns
  {
    freed := [];
    var p := head;
    while p != null
      invariant |freed| <= |ns| && freed == ns[..|freed|] && p == NodeAt(ns, |freed|)
      decreases |ns| - |freed|
    {
      var next := p.next;
      freed := freed + [p];
      p := next;
    }
  }

  ghost function AllNodes(spine: seq<seq<Node>>): seq<Node> {
    if spine == [] then [] else AllNodes(spine[..|spine| - 1]) + spine[|spine| - 1]
  }

  lemma AllNodesStart(spine: seq<seq<Node>>)
    ensures AllNodes(spine[..0]) == []
  {
  }

  lemma AllNodesStep(spine: seq<seq<Node>>, s: nat)
    requires s < |spine|
    ensures AllNodes(spine[..s + 1]) == AllNodes(spine[..s]) + spine[s]
  {
    assert spine[..s + 1][..s] == spine[..s];
  }

  lemma SlotChain(heads: seq<Node?>, spine: seq<seq<Node>>, index: map<nat, Node>, s: nat)
    requires WellLinked(heads, spine, index) && s < 0x1_0000
    ensures |heads| == |spine| == 0x1_0000 && Chain(heads[s], spine[s], s)
  {
  }

  /** `all` are distinct nodes of `index`, from slots below `t`. */
  ghost predicate DistinctNodes(all: seq<Node>, index: map<nat, Node>, t: nat) {
    && Indexed(all, index)
    && (forall i :: 0 <= i < |all| ==> Slot(all[i].blkno) < t)
    && (forall i, j :: 0 <= i < j < |all| ==> all[i] != all[j])
  }

  lemma DistinctAppend(head: Node?, front: seq<Node>, ns: seq<Node>, index: map<nat, Node>, t: nat)
    requires DistinctNodes(front, index, t) && Chain(head, ns, t) && Indexed(ns, index)
    ensures DistinctNodes(front + ns, index, t + 1)
  {
    var all := front + ns;
    forall i, j | 0 <= i < j < |all| ensures all[i] != all[j] {
      if i < |front| <= j {
        assert Slot(front[i].blkno) < t && Slot(ns[j - |front|].blkno) == t;
      } else if |front| <= i {
        assert ns[i - |front|].blkno != ns[j - |front|].blkno;
      }
    }
  }

  /** The chains hold each cached block's node exactly once, so releasing frees every node and none twice. */
  lemma {:induction false} NodesOnce(heads: seq<Node?>, spine: seq<seq<Node>>, index: map<nat, Node>, t: nat)
    requires WellLinked(heads, spine, index) && t <= |spine|
    ensures DistinctNodes(AllNodes(spine[..t]), index, t)
    ensures forall b :: b in index && Slot(b) < t ==> index[b] in AllNodes(spine[..t])
  {
    hide DistinctNodes, Chain, Slot;
    if t == 0 {
      NoNodes(spine, index);
    } else {
      var front, ns := AllNodes(spine[..t - 1]), spine[t - 1];
      NodesOnce(heads, spine, index, t - 1);
      AllNodesStep(spine, t - 1);
      DistinctAppend(heads[t - 1], front, ns, index, t - 1);
      forall b | b in index && Slot(b) < t ensures index[b] in front + ns {
        assert Present(spine, index, b);
      }
    }
  }

  lemma NoNodes(spine: seq<seq<Node>>, index: map<nat, Node>)
    ensures AllNodes(spine[..0]) == [] && DistinctNodes([], index, 0)
  {
  }
}

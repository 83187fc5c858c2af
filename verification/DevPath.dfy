/** Device paths (lsvmload/devpath.c; UEFI 2.10, section 10.3): walking, cloning, placing the pseudo partition. */
module DevPath {
  import opened Bytes
  import opened LittleEndian
  import opened Trace

  // ----- Nodes. A path is the bytes from its first node on; what follows its End node does not matter.

  function NodeType(s: seq<byte>): nat
    requires |s| >= 4
  {
    s[0] % 128
  }

  function NodeLength(s: seq<byte>): nat
    requires |s| >= 4
  {
    s[2] as int + 256 * s[3] as int
  }

  predicate IsEnd(s: seq<byte>)
    requires |s| >= 4
  {
    NodeType(s) == 0x7F && s[1] == 0xFF
  }

  predicate IsHardDrive(s: seq<byte>)
    requires |s| >= 4
  {
    NodeLength(s) == 42 && NodeType(s) == 4 && s[1] == 1
  }

  predicate IsSCSI(s: seq<byte>)
    requires |s| >= 4
  {
    NodeLength(s) == 8 && NodeType(s) == 3 && s[1] == 2
  }

  /** The kinds of nodes, in the bytes of their headers: type, subtype, length in two bytes. */
  lemma NodeKinds(t: byte, u: byte, lo: byte, hi: byte, rest: seq<byte>)
    ensures var s := [t, u, lo, hi] + rest;
            && NodeLength(s) == lo as int + 256 * hi as int
            && (IsEnd(s) <==> (t == 0x7F || t == 0xFF) && u == 0xFF)
            && (IsHardDrive(s) <==> (t == 0x04 || t == 0x84) && u == 0x01 && lo == 42 && hi == 0)
            && (IsSCSI(s) <==> (t == 0x03 || t == 0x83) && u == 0x02 && lo == 8 && hi == 0)
  {
    assert t % 128 == if t < 128 then t else t - 128;
  }

  /** Nodes of at least header size follow each other up to an End node. */
  predicate WellFormed(s: seq<byte>) {
    && |s| >= 4 && 4 <= NodeLength(s) <= |s|
    && (!IsEnd(s) ==> WellFormed(s[NodeLength(s)..]))
  }

  function Nodes(s: seq<byte>): (ns: seq<seq<byte>>)
    requires WellFormed(s)
    ensures ns != [] && forall i :: 0 <= i < |ns| ==> |ns[i]| >= 4
  {
    var n := NodeLength(s);
    [s[..n]] + if IsEnd(s) then [] else Nodes(s[n..])
  }

  function Flatten(ns: seq<seq<byte>>): seq<byte> {
    if ns == [] then [] else ns[0] + Flatten(ns[1..])
  }

  function PathLength(s: seq<byte>): (len: nat)
    requires WellFormed(s)
    ensures 4 <= len <= |s|
  {
    NodeLength(s) + if IsEnd(s) then 0 else PathLength(s[NodeLength(s)..])
  }

  /** The nodes, put together, are the path: its length is the sum of all node lengths, End node included. */
  lemma {:induction false} NodesTile(s: seq<byte>)
    requires WellFormed(s)
    ensures Flatten(Nodes(s)) == s[..PathLength(s)]
  {
    var n := NodeLength(s);
    var rest := s[n..];
    if IsEnd(s) {
      assert Nodes(s)[1..] == [];
    } else {
      NodesTile(rest);
      assert Nodes(s)[1..] == Nodes(rest);
      assert s[..PathLength(s)] == s[..n] + rest[..PathLength(rest)];
    }
  }

  method DevPathLength(s: seq<byte>) returns (len: nat)
    requires WellFormed(s)
    ensures len == PathLength(s) == |Flatten(Nodes(s))|
  {
    len := 0;
    var rest := s;
    while !IsEnd(rest)
      invariant WellFormed(rest) && len + PathLength(rest) == PathLength(s)
      decreases |rest|
    {
      len := len + NodeLength(rest);
      rest := rest[NodeLength(rest)..];
    }
    len := len + NodeLength(rest);
    NodesTile(s);
  }

  /** A copy of a path has the same nodes. */
  lemma {:induction false} SameNodes(s: seq<byte>, t: seq<byte>)
    requires WellFormed(s) && PathLength(s) <= |t| && t[..PathLength(s)] == s[..PathLength(s)]
    ensures WellFormed(t) && Nodes(t) == Nodes(s) && PathLength(t) == PathLength(s)
  {
    var e, n := PathLength(s), NodeLength(s);
    assert t[0] == t[..e][0] && t[1] == t[..e][1] && t[2] == t[..e][2] && t[3] == t[..e][3];
    assert t[..n] == t[..e][..n] && s[..n] == s[..e][..n];
    if !IsEnd(s) {
      var s', t' := s[n..], t[n..];
      assert t'[..e - n] == t[..e][n..] && s'[..e - n] == s[..e][n..];
      SameNodes(s', t');
    }
  }

  method DevPathClone(s: seq<byte>) returns (t: seq<byte>)
    requires WellFormed(s)
    ensures t == s[..PathLength(s)]
    ensures WellFormed(t) && Nodes(t) == Nodes(s) && PathLength(t) == |t|
  {
    var len := DevPathLength(s);
    t := s[..len];
    SameNodes(s, t);
  }

  // ----- Overwriting hard-drive nodes in place

  /** Each hard-drive node replaced by `hd`. */
  function Replaced(ns: seq<seq<byte>>, hd: seq<byte>): (r: seq<seq<byte>>)
    requires forall i :: 0 <= i < |ns| ==> |ns[i]| >= 4
    ensures |r| == |ns|
    ensures forall i :: 0 <= i < |ns| ==> r[i] == if IsHardDrive(ns[i]) then hd else ns[i]
  {
    seq(|ns|, i requires 0 <= i < |ns| => if IsHardDrive(ns[i]) then hd else ns[i])
  }

  /** A node after the loop has passed over it. */
  function NewNode(s: seq<byte>, hd: seq<byte>): (t: seq<byte>)
    requires WellFormed(s) && |hd| == 42
    ensures |t| == NodeLength(s)
  {
    if IsHardDrive(s) then hd else s[..NodeLength(s)]
  }

  /** The path from a node on, after the loop has passed over it. */
  function Rewritten(s: seq<byte>, hd: seq<byte>): (t: seq<byte>)
    requires WellFormed(s) && |hd| == 42
    ensures |t| == |s|
  {
    var n := NodeLength(s);
    NewNode(s, hd) + if IsEnd(s) then s[n..] else Rewritten(s[n..], hd)
  }

  lemma RewrittenHead(s: seq<byte>, t: seq<byte>, n: nat, hd: seq<byte>)
    requires WellFormed(s) && |hd| == 42 && IsHardDrive(hd) && n == NodeLength(s)
    requires t == Rewritten(s, hd)
    ensures NodeLength(t) == n && IsEnd(t) == IsEnd(s) && t[..n] == NewNode(s, hd)
    ensures t[n..] == if IsEnd(s) then s[n..] else Rewritten(s[n..], hd)
  {
    var node := NewNode(s, hd);
    assert t[0] == node[0] && t[1] == node[1] && t[2] == node[2] && t[3] == node[3];
  }

  /** Overwriting keeps every node boundary and every other node. */
  lemma {:induction false} RewrittenNodes(s: seq<byte>, t: seq<byte>, hd: seq<byte>)
    requires WellFormed(s) && |hd| == 42 && IsHardDrive(hd) && t == Rewritten(s, hd)
    ensures WellFormed(t) && Nodes(t) == Replaced(Nodes(s), hd) && PathLength(t) == PathLength(s)
    decreases |s|
  {
    hide Rewritten, NodeLength, IsEnd, IsHardDrive, Replaced;
    var n := NodeLength(s);
    RewrittenHead(s, t, n, hd);
    SameKind(s, n);
    if IsEnd(s) {
      ReplacedCons(s[..n], [], hd);
      assert [s[..n]] + [] == [s[..n]];
    } else {
      RewrittenNodes(s[n..], t[n..], hd);
      ReplacedCons(s[..n], Nodes(s[n..]), hd);
    }
  }

  lemma ReplacedCons(x: seq<byte>, xs: seq<seq<byte>>, hd: seq<byte>)
    requires |x| >= 4 && forall i :: 0 <= i < |xs| ==> |xs[i]| >= 4
    ensures Replaced([x] + xs, hd) == [if IsHardDrive(x) then hd else x] + Replaced(xs, hd)
  {
  }

  lemma SameKind(s: seq<byte>, n: nat)
    requires 4 <= n <= |s|
    ensures IsHardDrive(s) == IsHardDrive(s[..n])
  {
  }

  lemma RewrittenStep(s: seq<byte>, hd: seq<byte>, n: nat, more: bool)
    requires WellFormed(s) && |hd| == 42 && n == NodeLength(s) && more == !IsEnd(s)
    ensures n <= |s| && (more ==> WellFormed(s[n..]))
    ensures Rewritten(s, hd) == NewNode(s, hd) + if more then Rewritten(s[n..], hd) else s[n..]
  {
  }

  /** One pass of the loop that overwrites hard-drive nodes in the clone, at the start of `rest`. */
  method OverwriteNode(path: array<byte>, p: nat, hd: seq<byte>, ghost done: seq<byte>, ghost rest: seq<byte>)
    returns (q: nat, last: bool)
    requires path[..] == done + rest && |done| == p && WellFormed(rest) && |hd| == 42
    modifies path
    ensures q == p + NodeLength(rest) && p + 4 <= q <= p + |rest| && last == IsEnd(rest)
    ensures path[..] == done + NewNode(rest, hd) + rest[NodeLength(rest)..]
  {
    assert path[p..] == rest;
    var node := path[p..];
    q, last := p + NodeLength(node), IsEnd(node);
    if IsHardDrive(node) {
      Copy(hd, path, p);
    }
  }

  method OverwriteHardDrives(path: array<byte>, hd: seq<byte>)
    requires WellFormed(path[..]) && |hd| == 42 && IsHardDrive(hd)
    modifies path
    ensures path[..] == Rewritten(old(path[..]), hd)
  {
    hide NodeLength, IsEnd, IsHardDrive, NewNode, WellFormed, Rewritten;
    var p, last := 0, false;
    ghost var done: seq<byte>, rest: seq<byte> := [], path[..];
    while !last
      invariant path[..] == done + rest && |done| == p
      invariant !last ==> WellFormed(rest)
      invariant Rewritten(old(path[..]), hd) == done + if last then rest else Rewritten(rest, hd)
      decreases !last, |rest|
    {
      var q;
      q, last := OverwriteNode(path, p, hd, done, rest);
      RewrittenStep(rest, hd, q - p, !last);
      ghost var tail := if last then rest[q - p..] else Rewritten(rest[q - p..], hd);
      assert done + (NewNode(rest, hd) + tail) == done + NewNode(rest, hd) + tail;
      done, rest, p := done + NewNode(rest, hd), rest[q - p..], q;
    }
  }

  // ----- Placing the pseudo partition

  datatype Partition = Partition(number: nat, start: nat, size: nat)

  function PartitionOf(node: seq<byte>): Partition
    requires |node| >= 42
  {
    Partition(Val(node[4..8]), Val(node[8..16]), Val(node[16..24]))
  }

  /** A SCSI node of another disk than SCSI(0,0). */
  predicate OtherDisk(node: seq<byte>)
    requires |node| >= 4 && |node| == NodeLength(node)
  {
    IsSCSI(node) && (Val(node[4..6]) != 0 || Val(node[6..8]) != 0)
  }

  /** A SCSI node is of another disk unless its target and unit numbers, two bytes each, are zero. */
  lemma OtherDiskBytes(a: byte, b: byte, c: byte, d: byte)
    ensures OtherDisk([3, 2, 8, 0, a, b, c, d]) <==> a != 0 || b != 0 || c != 0 || d != 0
  {
    var s := [3, 2, 8, 0, a, b, c, d];
    assert s[4..6] == [a, b] && s[6..8] == [c, d];
    ValPair(a, b);
    ValPair(c, d);
  }

  lemma NodeFields(header: seq<byte>, a: seq<byte>, b: seq<byte>, c: seq<byte>, tail: seq<byte>)
    requires |header| == 4 && |a| == 4 && |b| == 8 && |c| == 8
    ensures var node := header + a + b + c + tail; node[4..8] == a && node[8..16] == b && node[16..24] == c
  {
  }

  /** A hard-drive node: behind its header the partition's number, its first sector and its size. */
  lemma PartitionBytes(header: seq<byte>, number: nat, start: nat, size: nat, tail: seq<byte>)
    requires |header| == 4 && |tail| == 18
    requires number < 0x1_0000_0000 && start < 0x1_0000_0000_0000_0000 && size < 0x1_0000_0000_0000_0000
    ensures PartitionOf(header + Enc(number, 4) + Enc(start, 8) + Enc(size, 8) + tail) == Partition(number, start, size)
  {
    hide Val, Enc, Pow256;
    NodeFields(header, Enc(number, 4), Enc(start, 8), Enc(size, 8), tail);
    Pow256Values();
    ValEncFits(number, 4);
    ValEncFits(start, 8);
    ValEncFits(size, 8);
  }

  predicate Sized(ns: seq<seq<byte>>) {
    forall i :: 0 <= i < |ns| ==> |ns[i]| >= 4 && |ns[i]| == NodeLength(ns[i])
  }

  lemma {:induction false} NodesSized(s: seq<byte>)
    requires WellFormed(s)
    ensures Sized(Nodes(s))
  {
    var n := NodeLength(s);
    assert NodeLength(s[..n]) == n;
    if !IsEnd(s) {
      NodesSized(s[n..]);
    }
  }

  /** The partitions of the hard-drive nodes the search visits on one path, in order. */
  function VisitedOn(ns: seq<seq<byte>>): seq<Partition>
    requires Sized(ns)
  {
    if ns == [] || OtherDisk(ns[0]) then []
    else (if IsHardDrive(ns[0]) then [PartitionOf(ns[0])] else []) + VisitedOn(ns[1..])
  }

  /** The first hard-drive node the search visits on one path, or nothing. */
  function FirstVisited(ns: seq<seq<byte>>): seq<byte>
    requires Sized(ns)
  {
    if ns == [] || OtherDisk(ns[0]) then [] else if IsHardDrive(ns[0]) then ns[0] else FirstVisited(ns[1..])
  }

  lemma {:induction false} FirstVisitedIs(ns: seq<seq<byte>>)
    requires Sized(ns) && VisitedOn(ns) != []
    ensures FirstVisited(ns) in ns && |FirstVisited(ns)| == 42 && IsHardDrive(FirstVisited(ns))
    ensures PartitionOf(FirstVisited(ns)) == VisitedOn(ns)[0]
  {
    if !IsHardDrive(ns[0]) {
      FirstVisitedIs(ns[1..]);
    }
  }

  /** Node `i` is a hard-drive node of partition `v`, and no SCSI node of another disk stands before it. */
  ghost predicate VisitedAt(ns: seq<seq<byte>>, i: nat, v: Partition)
    requires Sized(ns)
  {
    i < |ns| && IsHardDrive(ns[i]) && PartitionOf(ns[i]) == v && forall j :: 0 <= j < i ==> !OtherDisk(ns[j])
  }

  /** The search visits exactly those. */
  lemma {:induction false} VisitedIs(ns: seq<seq<byte>>, v: Partition)
    requires Sized(ns)
    ensures v in VisitedOn(ns) <==> exists i: nat :: VisitedAt(ns, i, v)
  {
    if ns != [] {
      var rest := ns[1..];
      assert Sized(rest);
      VisitedIs(rest, v);
      NotBoth(ns[0]);
      if i: nat :| VisitedAt(ns, i, v) && i > 0 {
        assert VisitedAt(rest, i - 1, v);
      }
      if !OtherDisk(ns[0]) {
        if k: nat :| VisitedAt(rest, k, v) {
          assert VisitedAt(ns, k + 1, v);
        }
        if IsHardDrive(ns[0]) && PartitionOf(ns[0]) == v {
          assert VisitedAt(ns, 0, v);
        }
      }
    }
  }

  lemma NotBoth(s: seq<byte>)
    requires |s| >= 4 && |s| == NodeLength(s)
    ensures !(IsHardDrive(s) && OtherDisk(s))
  {
  }

  /** The partitions the search visits on a path. */
  function Visits(s: seq<byte>): seq<Partition>
    requires WellFormed(s)
  {
    NodesSized(s);
    VisitedOn(Nodes(s))
  }

  /** The highest number, and the highest start with its size (the first one met among equal starts). */
  function Highest(vs: seq<Partition>): Partition
    requires vs != []
  {
    if |vs| == 1 then vs[0] else Higher(Highest(vs[..|vs| - 1]), vs[|vs| - 1])
  }

  function Higher(b: Partition, v: Partition): Partition {
    Partition(
      if v.number > b.number then v.number else b.number,
      if v.start > b.start then v.start else b.start,
      if v.start > b.start then v.size else b.size)
  }

  lemma {:induction false} HighestIs(vs: seq<Partition>, i: nat)
    requires i < |vs|
    ensures vs[i].number <= Highest(vs).number && vs[i].start <= Highest(vs).start
    ensures exists j :: 0 <= j < |vs| && vs[j].start == Highest(vs).start && vs[j].size == Highest(vs).size
  {
    var n := |vs| - 1;
    if n == 0 {
      assert vs[0].start == Highest(vs).start;
    } else {
      var front := vs[..n];
      HighestIs(front, if i < n then i else 0);
      var j :| 0 <= j < n && front[j].start == Highest(front).start && front[j].size == Highest(front).size;
      assert front[j] == vs[j] && (i < n ==> front[i] == vs[i]);
      var k := if vs[n].start > Highest(front).start then n else j;
      assert vs[k].start == Highest(vs).start && vs[k].size == Highest(vs).size;
    }
  }

  /** Partitions are not empty, and two of them are equal or do not overlap. */
  predicate Coherent(vs: seq<Partition>) {
    && (forall i :: 0 <= i < |vs| ==> vs[i].size > 0)
    && forall i, j :: 0 <= i < |vs| && 0 <= j < |vs| ==>
         (vs[i].start == vs[j].start && vs[i].size == vs[j].size)
         || vs[i].start + vs[i].size <= vs[j].start || vs[j].start + vs[j].size <= vs[i].start
  }

  /** The last sector of a partition, in the field's width. */
  function LastSector(p: Partition): nat {
    (p.start + p.size - 1) % 0x1_0000_0000_0000_0000
  }

  /**
    If no sum overflows, the pseudo partition has a number no visited partition has, and its sectors, from
    the first to the last, lie behind all of them.
   */
  lemma PseudoIsNew(vs: seq<Partition>, sectors: nat, i: nat)
    requires Coherent(vs) && i < |vs| && sectors < 0x1_0000_0000_0000_0000
    requires Highest(vs).number + 1 < 0x1_0000_0000
    requires Highest(vs).start + Highest(vs).size < 0x1_0000_0000_0000_0000
    ensures var p := Pseudo(vs, sectors);
            && vs[i].number != p.number
            && vs[i].start + vs[i].size <= p.start
            && (0 < sectors && p.start + sectors <= 0x1_0000_0000_0000_0000 ==>
                  p.start <= LastSector(p) == p.start + sectors - 1)
  {
    hide Highest;
    BeyondAll(vs, i);
  }

  /** The pseudo partition starts behind every visited partition and has a number none of them has. */
  lemma BeyondAll(vs: seq<Partition>, i: nat)
    requires Coherent(vs) && i < |vs|
    ensures vs[i].start + vs[i].size <= Highest(vs).start + Highest(vs).size
    ensures vs[i].number < Highest(vs).number + 1
  {
    HighestIs(vs, i);
    var j :| 0 <= j < |vs| && vs[j].start == Highest(vs).start && vs[j].size == Highest(vs).size;
    assert vs[i].size > 0 && vs[j].size > 0;
  }

  /** What the search knows after visiting `vs`. */
  ghost predicate Knows(found: bool, best: Partition, vs: seq<Partition>) {
    found == (vs != []) && (found ==> best == Highest(vs))
  }

  /** One hard-drive node: the first one is taken as it is, later ones raise the maxima. */
  method Visit(found: bool, best: Partition, node: seq<byte>, ghost vs: seq<Partition>) returns (best': Partition)
    requires Knows(found, best, vs) && |node| == 42
    ensures Knows(true, best', vs + [PartitionOf(node)])
  {
    hide Highest;
    var v := PartitionOf(node);
    HighestSnoc(vs, v);
    best' := if found then Higher(best, v) else v;
  }

  /** The inner loop of the search: the hard-drive nodes of one path, up to a SCSI node of another disk. */
  method SearchPath(dp: seq<byte>, found0: bool, best0: Partition, ghost vs: seq<Partition>)
    returns (found: bool, best: Partition, node: seq<byte>)
    requires WellFormed(dp) && Knows(found0, best0, vs)
    ensures Knows(found, best, vs + Visits(dp))
    ensures Sized(Nodes(dp)) && (!found0 ==> node == FirstVisited(Nodes(dp)))
  {
    hide NodeLength, IsEnd, IsSCSI, IsHardDrive, Val, Knows, Nodes, WellFormed, PartitionOf;
    NodesSized(dp);
    found, best, node := found0, best0, [];
    var rest, last := dp, false;
    ghost var seen, ns := vs, Nodes(dp);
    while !last
      invariant !last ==> WellFormed(rest) && ns == Nodes(rest)
      invariant last ==> ns == []
      invariant Sized(ns) && seen + VisitedOn(ns) == vs + Visits(dp)
      invariant Knows(found, best, seen)
      invariant !found0 ==> FirstVisited(Nodes(dp)) == (if found then node else FirstVisited(ns))
      invariant !found ==> node == []
      decreases !last, |rest|
    {
      NodesStep(rest, ns);
      var n := NodeLength(rest);
      var head := rest[..n];
      last := IsEnd(rest);
      if OtherDisk(head) {
        assert seen + VisitedOn(ns) == seen;
        return;
      }
      if IsHardDrive(head) {
        LengthOf(head);
        best := Visit(found, best, head, seen);
        node, found := if found then node else head, true;
        assert seen + ([PartitionOf(head)] + VisitedOn(ns[1..])) == seen + [PartitionOf(head)] + VisitedOn(ns[1..]);
        seen := seen + [PartitionOf(head)];
      } else {
        assert VisitedOn(ns) == [] + VisitedOn(ns[1..]) == VisitedOn(ns[1..]);
      }
      rest, ns := rest[n..], ns[1..];
    }
    assert seen + VisitedOn(ns) == seen;
  }

  lemma LengthOf(node: seq<byte>)
    requires |node| >= 4 && |node| == NodeLength(node) && IsHardDrive(node)
    ensures |node| == 42
  {
  }

  lemma HighestSnoc(vs: seq<Partition>, v: Partition)
    ensures Highest(vs + [v]) == if vs == [] then v else Higher(Highest(vs), v)
  {
    assert (vs + [v])[..|vs|] == vs;
  }

  lemma NodesStep(s: seq<byte>, ns: seq<seq<byte>>)
    requires WellFormed(s) && ns == Nodes(s)
    ensures 4 <= NodeLength(s) <= |s| && ns[0] == s[..NodeLength(s)]
    ensures if IsEnd(s) then ns[1..] == [] else WellFormed(s[NodeLength(s)..]) && ns[1..] == Nodes(s[NodeLength(s)..])
  {
  }

  const SIGNATURE: seq<byte> :=
    [0x1b, 0x00, 0xc2, 0x41, 0xee, 0xb3, 0x46, 0x34, 0xb3, 0x3a, 0x35, 0x30, 0x6c, 0xc2, 0x63, 0xfe]

  /** The hard-drive node of the pseudo partition: a visited node's header and types, new place and signature. */
  function PseudoNode(node: seq<byte>, p: Partition): (r: seq<byte>)
    requires |node| == 42
    ensures |r| == 42
  {
    node[..4] + Enc(p.number, 4) + Enc(p.start, 8) + Enc(p.size, 8) + SIGNATURE + node[40..]
  }

  lemma PseudoNodeIs(node: seq<byte>, p: Partition)
    requires |node| == 42 && IsHardDrive(node)
    requires p.number < 0x1_0000_0000 && p.start < 0x1_0000_0000_0000_0000 && p.size < 0x1_0000_0000_0000_0000
    ensures IsHardDrive(PseudoNode(node, p)) && PartitionOf(PseudoNode(node, p)) == p
  {
    hide Val, Enc, Pow256;
    var r := PseudoNode(node, p);
    assert r[4..8] == Enc(p.number, 4) && r[8..16] == Enc(p.start, 8) && r[16..24] == Enc(p.size, 8);
    ValEnc(p.number, 4);
    ValEnc(p.start, 8);
    ValEnc(p.size, 8);
    Pow256Values();
  }

  /** The bytes of the pseudo partition's node: only number, sectors and signature differ from the node it is made from. */
  lemma PseudoNodeBytes(header: seq<byte>, place: seq<byte>, signature: seq<byte>, types: seq<byte>, p: Partition)
    requires |header| == 4 && |place| == 20 && |signature| == 16 && |types| == 2
    ensures PseudoNode(header + place + signature + types, p) ==
            header + Enc(p.number, 4) + Enc(p.start, 8) + Enc(p.size, 8)
              + [0x1b, 0x00, 0xc2, 0x41, 0xee, 0xb3, 0x46, 0x34, 0xb3, 0x3a, 0x35, 0x30, 0x6c, 0xc2, 0x63, 0xfe] + types
  {
    hide Enc;
    var node := header + place + signature + types;
    assert node[..4] == header && node[40..] == types;
  }

  function VisitedAll(paths: seq<seq<byte>>): seq<Partition>
    requires forall i :: 0 <= i < |paths| ==> WellFormed(paths[i])
  {
    if paths == [] then []
    else VisitedAll(paths[..|paths| - 1]) + Visits(paths[|paths| - 1])
  }

  /** Number, first sector and size of the pseudo partition, in the fields' widths. */
  function Pseudo(vs: seq<Partition>, sectors: nat): (p: Partition)
    requires vs != [] && sectors < 0x1_0000_0000_0000_0000
    ensures p.number < 0x1_0000_0000 && p.start < 0x1_0000_0000_0000_0000 && p.size == sectors
  {
    var h := Highest(vs);
    Partition((h.number + 1) % 0x1_0000_0000, (h.start + h.size) % 0x1_0000_0000_0000_0000, sectors)
  }

  /** Path `t` is the first on which the search visits a hard-drive node, and `node` is that node. */
  ghost predicate FirstFound(paths: seq<seq<byte>>, t: nat, node: seq<byte>)
    requires forall i :: 0 <= i < |paths| ==> WellFormed(paths[i])
  {
    && t < |paths| && Visits(paths[t]) != [] && (forall u :: 0 <= u < t ==> Visits(paths[u]) == [])
    && Sized(Nodes(paths[t])) && node == FirstVisited(Nodes(paths[t]))
  }

  /** `result` is path `t` with every hard-drive node replaced by the pseudo partition's. */
  ghost predicate PseudoPath(path: seq<byte>, node: seq<byte>, p: Partition, result: seq<byte>)
    requires WellFormed(path) && |node| == 42
  {
    WellFormed(result) && Nodes(result) == Replaced(Nodes(path), PseudoNode(node, p))
  }

  /** The end of the function: overwrite the hard-drive nodes of the clone. */
  method PlaceInPath(template: seq<byte>, node: seq<byte>, p: Partition) returns (result: array<byte>)
    requires WellFormed(template) && |node| == 42 && IsHardDrive(node)
    requires p.number < 0x1_0000_0000 && p.start < 0x1_0000_0000_0000_0000 && p.size < 0x1_0000_0000_0000_0000
    ensures PseudoPath(template, node, p, result[..])
  {
    hide Nodes, WellFormed, PseudoNode, IsHardDrive, Replaced;
    result := new byte[|template|](i requires 0 <= i < |template| => template[i]);
    assert result[..] == template;
    PseudoNodeIs(node, p);
    OverwriteHardDrives(result, PseudoNode(node, p));
    RewrittenNodes(template, result[..], PseudoNode(node, p));
  }

  /** What the search over the first `i` handles knows. */
  ghost predicate Searched(paths: seq<seq<byte>>, i: nat, found: bool, best: Partition, t: nat, node: seq<byte>, template: seq<byte>)
    requires i <= |paths| && forall i :: 0 <= i < |paths| ==> WellFormed(paths[i])
  {
    && Knows(found, best, VisitedAll(paths[..i]))
    && (found ==> FirstFound(paths, t, node) && |node| == 42 && IsHardDrive(node))
    && (found ==> WellFormed(template) && Nodes(template) == Nodes(paths[t]))
    && (!found ==> forall u :: 0 <= u < i ==> Visits(paths[u]) == [])
  }

  lemma VisitedStep(paths: seq<seq<byte>>, i: nat)
    requires i < |paths| && forall i :: 0 <= i < |paths| ==> WellFormed(paths[i])
    ensures VisitedAll(paths[..i + 1]) == VisitedAll(paths[..i]) + Visits(paths[i])
  {
    assert paths[..i + 1][..i] == paths[..i];
  }

  lemma SearchedStart(paths: seq<seq<byte>>, best: Partition)
    requires forall i :: 0 <= i < |paths| ==> WellFormed(paths[i])
    ensures Searched(paths, 0, false, best, 0, [], []) && Knows(false, best, VisitedAll(paths[..0]))
  {
  }

  lemma SearchedStep(paths: seq<seq<byte>>, i: nat,
                     had: bool, best: Partition, t: nat, node: seq<byte>, template: seq<byte>,
                     found: bool, best': Partition, t': nat, node': seq<byte>, template': seq<byte>)
    requires i < |paths| && forall i :: 0 <= i < |paths| ==> WellFormed(paths[i])
    requires Searched(paths, i, had, best, t, node, template)
    requires Knows(found, best', VisitedAll(paths[..i]) + Visits(paths[i])) && Sized(Nodes(paths[i]))
    requires had ==> t' == t && node' == node && template' == template
    requires !had && found ==>
               && t' == i && node' == FirstVisited(Nodes(paths[i]))
               && WellFormed(template') && Nodes(template') == Nodes(paths[i])
    ensures Searched(paths, i + 1, found, best', t', node', template') && Knows(found, best', VisitedAll(paths[..i + 1]))
  {
    hide Highest, Nodes, WellFormed, IsHardDrive, FirstVisited, VisitedAll, VisitedOn;
    VisitedStep(paths, i);
    if !had && found {
      FirstVisitedIs(Nodes(paths[i]));
    }
  }

  lemma SearchedAll(paths: seq<seq<byte>>, found: bool, best: Partition, t: nat, node: seq<byte>, template: seq<byte>)
    requires forall i :: 0 <= i < |paths| ==> WellFormed(paths[i])
    requires Searched(paths, |paths|, found, best, t, node, template)
    ensures Knows(found, best, VisitedAll(paths))
    ensures found ==> FirstFound(paths, t, node) && |node| == 42 && IsHardDrive(node)
    ensures found ==> WellFormed(template) && Nodes(template) == Nodes(paths[t])
  {
    assert paths[..|paths|] == paths;
  }

  /** `v` starts last among the visited partitions, and `first` is the sector behind it. */
  predicate BehindHighest(vs: seq<Partition>, v: Partition, first: nat) {
    first == (v.start + v.size) % 0x1_0000_0000_0000_0000 && forall w :: w in vs ==> w.start <= v.start
  }

  /** `w` has the highest number, and `number` is the next one. */
  predicate NextNumber(vs: seq<Partition>, w: Partition, number: nat) {
    number == (w.number + 1) % 0x1_0000_0000 && forall v :: v in vs ==> v.number <= w.number
  }

  lemma {:induction false} HighestNumber(vs: seq<Partition>) returns (w: Partition)
    requires vs != []
    ensures w in vs && w.number == Highest(vs).number && forall v :: v in vs ==> v.number <= w.number
  {
    if |vs| == 1 {
      w := vs[0];
    } else {
      var n := |vs| - 1;
      w := HighestNumber(vs[..n]);
      w := if vs[n].number > w.number then vs[n] else w;
      forall v | v in vs ensures v.number <= w.number {
        assert v in vs[..n] || v == vs[n];
      }
    }
  }

  lemma StartsBehind(vs: seq<Partition>, sectors: nat) returns (v: Partition, w: Partition)
    requires vs != [] && sectors < 0x1_0000_0000_0000_0000
    ensures v in vs && BehindHighest(vs, v, Pseudo(vs, sectors).start)
    ensures w in vs && NextNumber(vs, w, Pseudo(vs, sectors).number)
  {
    hide Highest;
    w := HighestNumber(vs);
    HighestIs(vs, 0);
    var j :| 0 <= j < |vs| && vs[j].start == Highest(vs).start && vs[j].size == Highest(vs).size;
    v := vs[j];
    forall w | w in vs ensures w.start <= v.start {
      var i :| 0 <= i < |vs| && vs[i] == w;
      HighestIs(vs, i);
    }
  }

  /** `memory` says that the clone could be allocated. */
  method CreatePseudoPartition(paths: seq<seq<byte>>, sectors: nat, rec: Recorder)
    returns (memory: bool, placed: bool, result: array<byte>, first: nat, last: nat)
    requires forall i :: 0 <= i < |paths| ==> WellFormed(paths[i])
    requires sectors < 0x1_0000_0000_0000_0000
    modifies rec`outcomes
    ensures Since(old(rec.outcomes), rec.outcomes, memory)
    ensures placed <==> memory && VisitedAll(paths) != []
    ensures placed ==>
              && last == (first + sectors - 1) % 0x1_0000_0000_0000_0000
              && (exists v :: v in VisitedAll(paths) && BehindHighest(VisitedAll(paths), v, first))
              && exists w :: w in VisitedAll(paths) && NextNumber(VisitedAll(paths), w, Pseudo(VisitedAll(paths), sectors).number)
    ensures placed ==>
              var p := Pseudo(VisitedAll(paths), sectors);
              && first == p.start && last == LastSector(p)
              && exists t: nat, node :: FirstFound(paths, t, node) && |node| == 42 && PseudoPath(paths[t], node, p, result[..])
  {
    hide Highest, Nodes, WellFormed, Visits, PseudoNode, IsHardDrive, Replaced, Searched, FirstFound, VisitedAll, FirstVisited;
    hide Since;
    NothingSince(rec.outcomes);
    memory, placed, first, last, result := true, false, 0, 0, new byte[0];
    var found, best, template, node := false, Partition(0, 0, 0), [], [];
    ghost var t := 0;
    SearchedStart(paths, best);
    for i := 0 to |paths|
      invariant Searched(paths, i, found, best, t, node, template) && memory
      invariant Knows(found, best, VisitedAll(paths[..i]))
      invariant Since(old(rec.outcomes), rec.outcomes, true)
    {
      ghost var best0, t0, node0, template0 := best, t, node, template;
      var had, other := found, [];
      found, best, other := SearchPath(paths[i], found, best, VisitedAll(paths[..i]));
      if found && !had {
        ghost var asked := rec.outcomes;
        memory := rec.Alloc();
        OneMore(old(rec.outcomes), asked, Memory(memory));
        if !memory {
          return;
        }
        node, t := other, i;
        template := DevPathClone(paths[i]);
      }
      SearchedStep(paths, i, had, best0, t0, node0, template0, found, best, t, node, template);
    }
    SearchedAll(paths, found, best, t, node, template);
    if !found {
      return;
    }
    var p := Partition((best.number + 1) % 0x1_0000_0000, (best.start + best.size) % 0x1_0000_0000_0000_0000, sectors);
    result := PlaceInPath(template, node, p);
    placed, first, last := true, p.start, LastSector(p);
    ghost var v, w := StartsBehind(VisitedAll(paths), sectors);
  }
}

/** Loading a PE image: the relocation walk and the section layout of lsvmload/image.c. */
module ImageLoader {
  import opened Bytes
  import opened LittleEndian
  import opened Relocation
  import opened Trace

  datatype Status = Success | Unsupported | CompromisedData

  // ----- Reading the relocation region

  function U16(image: seq<byte>, p: nat): (r: nat)
    requires p + 2 <= |image|
  {
    Val(image[p..p + 2])
  }

  function U32(image: seq<byte>, p: nat): (r: nat)
    requires p + 4 <= |image|
  {
    Val(image[p..p + 4])
  }

  /** The walk reads only bytes the image has, and the blocks it does not refuse are of even size. */
  predicate Walkable(image: seq<byte>, dirSize: nat, p: nat, pend: nat)
    decreases pend - p
  {
    p < pend ==>
      && p + 8 <= |image|
      && var size := U32(image, p + 4);
         0 < size <= dirSize ==> size % 2 == 0 && p + size <= |image| && Walkable(image, dirSize, p + size, pend)
  }

  /** The fixups of one block: words from `q` to `qend`, a 4-bit tag over a 12-bit page offset each. */
  function BlockFixups(image: seq<byte>, va: nat, q: nat, qend: nat): (fs: seq<Fixup>)
    requires qend <= |image| && (qend - q) % 2 == 0
    decreases qend - q
  {
    if q >= qend then []
    else
      var word := U16(image, q);
      [Fixup(va + word % 0x1000, word / 0x1000)] + BlockFixups(image, va, q + 2, qend)
  }

  /** Entry `k` of a block is the 16-bit word at `q + 2 * k`: its low 12 bits are the offset, its high 4 bits the tag. */
  lemma {:induction false} BlockEntry(image: seq<byte>, va: nat, q: nat, qend: nat, k: nat)
    requires q + 2 * k + 2 <= qend <= |image| && (qend - q) % 2 == 0
    ensures 2 * |BlockFixups(image, va, q, qend)| == qend - q
    ensures var w := image[q + 2 * k] as int + 256 * image[q + 2 * k + 1] as int;
            BlockFixups(image, va, q, qend)[k] == Fixup(va + w % 0x1000, w / 0x1000)
    decreases qend - q
  {
    if k > 0 {
      BlockEntry(image, va, q + 2, qend, k - 1);
    } else {
      assert image[q..q + 2] == [image[q], image[q + 1]];
      ValPair(image[q], image[q + 1]);
      if q + 4 <= qend {
        BlockEntry(image, va, q + 2, qend, 0);
      } else {
        assert BlockFixups(image, va, q + 2, qend) == [];
      }
    }
  }

  datatype Plan = Plan(fixups: seq<Fixup>, end: Status)

  /** All fixups the walk meets, in order, and how it ends if all of them can be applied. */
  function PlanOf(image: seq<byte>, imageSize: nat, dirSize: nat, p: nat, pend: nat): (r: Plan)
    requires Walkable(image, dirSize, p, pend)
    decreases pend - p
  {
    if p >= pend then Plan([], Success)
    else
      var size := U32(image, p + 4);
      if p + 8 + (size - 8) / 2 > imageSize then Plan([], CompromisedData)
      else if size == 0 || size > dirSize then Plan([], Unsupported)
      else
        var rest := PlanOf(image, imageSize, dirSize, p + size, pend);
        Plan(BlockFixups(image, U32(image, p), p + 8, p + size) + rest.fixups, rest.end)
  }

  predicate Applicable(f: Fixup, size: nat) {
    Supported(f.tag) && Fits(f, size)
  }

  predicate AllApplicable(fs: seq<Fixup>, size: nat) {
    forall i :: 0 <= i < |fs| ==> Applicable(fs[i], size)
  }

  function ErrorOf(f: Fixup): Status {
    if Supported(f.tag) then CompromisedData else Unsupported
  }

  /**
    What a walk over `plan` may leave: with status Success the plan ran to a successful end and all of
    it was applied; otherwise a prefix was applied, up to the first fixup that cannot be, or to the end
    of a plan that ends in this error.
   */
  ghost predicate Relocated(before: seq<byte>, after: seq<byte>, plan: Plan, delta: nat, status: Status) {
    exists k: nat :: RelocatedTo(before, after, plan, delta, status, k)
  }

  ghost predicate RelocatedTo(before: seq<byte>, after: seq<byte>, plan: Plan, delta: nat, status: Status, k: nat) {
    && k <= |plan.fixups|
    && AllApplicable(plan.fixups[..k], |before|)
    && after == ApplyAll(before, plan.fixups[..k], delta)
    && if k < |plan.fixups| then !Applicable(plan.fixups[k], |before|) && status == ErrorOf(plan.fixups[k])
       else status == plan.end
  }

  /** The bytes an entry of each kind changes: two for HIGH and LOW, four for HIGHLOW, eight for DIR64. */
  predicate Reaches(f: Fixup, p: nat) {
    f.rva <= p < f.rva + (if f.tag == 1 || f.tag == 2 then 2 else if f.tag == 3 then 4 else if f.tag == 10 then 8 else 0)
  }

  lemma ReachesIs(f: Fixup, p: nat)
    ensures Reaches(f, p) == Hits(f, p)
  {
  }

  /**
    What an entry does to its word, kind by kind: HIGH adds bits 16 to 31 of the delta and LOW bits 0 to 15 to a
    16-bit word, HIGHLOW bits 0 to 31 to a 32-bit word, DIR64 all of it to a 64-bit word.
   */
  ghost predicate Patched(plain: seq<byte>, out: seq<byte>, f: Fixup, delta: nat) {
    && |out| == |plain|
    && (f.tag == 1 ==> Adds(plain, out, f.rva, 2, delta / 0x1_0000 % 0x1_0000, 0x1_0000))
    && (f.tag == 2 ==> Adds(plain, out, f.rva, 2, delta % 0x1_0000, 0x1_0000))
    && (f.tag == 3 ==> Adds(plain, out, f.rva, 4, delta % 0x1_0000_0000, 0x1_0000_0000))
    && (f.tag == 10 ==> Adds(plain, out, f.rva, 8, delta, 0x1_0000_0000_0000_0000))
  }

  /** The word of `width` bytes at `p` in `out` is the one in `plain` plus `amount`, modulo `m`. */
  predicate Adds(plain: seq<byte>, out: seq<byte>, p: nat, width: nat, amount: nat, m: nat)
    requires |out| == |plain| && m > 0
  {
    p + width <= |plain| && Val(out[p..p + width]) == (Val(plain[p..p + width]) + amount) % m
  }

  /** One fixup alone. */
  lemma OnePatched(plain: seq<byte>, f: Fixup, delta: nat)
    requires Fits(f, |plain|) && delta < 0x1_0000_0000_0000_0000
    ensures Patched(plain, ApplyOne(plain, f, delta), f, delta)
    ensures forall p :: 0 <= p < |plain| && !Reaches(f, p) ==> ApplyOne(plain, f, delta)[p] == plain[p]
  {
    hide Patched, ApplyOne, Hits, Reaches;
    assert ApplyAll(plain, [f], delta) == ApplyAll(ApplyOne(plain, f, delta), [f][1..], delta) == ApplyOne(plain, f, delta);
    PatchedWord(plain, [f], delta, 0);
    forall p | 0 <= p < |plain| && !Reaches(f, p) ensures ApplyOne(plain, f, delta)[p] == plain[p] {
      ReachesIs(f, p);
      ApplyOneIs(plain, f, delta, p);
    }
  }

  /** One entry: the switch on its tag, with a bounds check per word size. */
  method FixupWord(newImage: array<byte>, ptr: nat, tag: nat, delta: nat) returns (status: Status)
    requires delta < 0x1_0000_0000_0000_0000
    modifies newImage
    ensures status == Unsupported <==> tag != 0 && tag != 1 && tag != 2 && tag != 3 && tag != 10
    ensures status == CompromisedData <==>
              || ((tag == 1 || tag == 2) && ptr + 2 > newImage.Length)
              || (tag == 3 && ptr + 4 > newImage.Length) || (tag == 10 && ptr + 8 > newImage.Length)
    ensures status == Success ==>
              && Patched(old(newImage[..]), newImage[..], Fixup(ptr, tag), delta)
              && forall p :: 0 <= p < newImage.Length && !Reaches(Fixup(ptr, tag), p) ==> newImage[p] == old(newImage[p])
    ensures status == if Applicable(Fixup(ptr, tag), newImage.Length) then Success else ErrorOf(Fixup(ptr, tag))
    ensures newImage[..] == if status.Success? then ApplyOne(old(newImage[..]), Fixup(ptr, tag), delta)
                            else old(newImage[..])
  {
    hide Val, Enc, Patched, Reaches;
    status := Success;
    var width, amount := 0, 0;
    ghost var before := newImage[..];
    if Fits(Fixup(ptr, tag), newImage.Length) {
      OnePatched(before, Fixup(ptr, tag), delta);
    }
    if tag == 0 {
      return;
    } else if tag == 1 {
      width, amount := 2, delta % 0x1_0000_0000 / 0x1_0000;
    } else if tag == 2 {
      width, amount := 2, delta % 0x1_0000;
    } else if tag == 3 {
      width, amount := 4, delta % 0x1_0000_0000;
    } else if tag == 10 {
      width, amount := 8, delta;
    } else {
      return Unsupported;
    }
    if ptr + width > newImage.Length {
      return CompromisedData;
    }
    Copy(Enc(Val(newImage[ptr..ptr + width]) + amount, width), newImage, ptr);
  }

  /** The fixups `done` were applied to `before`. */
  ghost predicate Midway(before: seq<byte>, now: seq<byte>, done: seq<Fixup>, delta: nat) {
    AllApplicable(done, |before|) && now == ApplyAll(before, done, delta)
  }

  lemma MidwayStep(before: seq<byte>, now: seq<byte>, done: seq<Fixup>, delta: nat, f: Fixup)
    requires Midway(before, now, done, delta) && Applicable(f, |before|)
    ensures Midway(before, ApplyOne(now, f, delta), done + [f], delta)
  {
    ApplyAllSnoc(before, done, f, delta);
  }

  lemma StoppedAt(before: seq<byte>, now: seq<byte>, done: seq<Fixup>, delta: nat, plan: Plan, rest: seq<Fixup>, status: Status)
    requires Midway(before, now, done, delta) && plan.fixups == done + rest
    requires if rest == [] then status == plan.end else !Applicable(rest[0], |before|) && status == ErrorOf(rest[0])
    ensures Relocated(before, now, plan, delta, status)
  {
    assert plan.fixups[..|done|] == done;
    assert RelocatedTo(before, now, plan, delta, status, |done|);
  }

  /** The inner loop over the words of one block, continuing a walk that has applied `done0` to `before`. */
  method PatchBlock(image: seq<byte>, va: nat, q0: nat, qend: nat, newImage: array<byte>, delta: nat,
                    ghost before: seq<byte>, ghost done0: seq<Fixup>)
    returns (status: Status, ghost done: seq<Fixup>, ghost rest: seq<Fixup>)
    requires qend <= |image| && (qend - q0) % 2 == 0
    requires Midway(before, newImage[..], done0, delta)
    requires delta < 0x1_0000_0000_0000_0000
    modifies newImage
    ensures Midway(before, newImage[..], done, delta)
    ensures done + rest == done0 + BlockFixups(image, va, q0, qend)
    ensures if rest == [] then status == Success else !Applicable(rest[0], |before|) && status == ErrorOf(rest[0])
  {
    hide U16, ApplyAll, ApplyOne, AllApplicable, Applicable;
    var q := q0;
    done, rest, status := done0, BlockFixups(image, va, q0, qend), Success;
    while q < qend
      invariant (qend - q) % 2 == 0 && status == Success
      invariant Midway(before, newImage[..], done, delta)
      invariant rest == BlockFixups(image, va, q, qend)
      invariant done + rest == done0 + BlockFixups(image, va, q0, qend)
      decreases qend - q
    {
      var word := U16(image, q);
      ghost var f, now := Fixup(va + word % 0x1000, word / 0x1000), newImage[..];
      assert |now| == |before|;
      status := FixupWord(newImage, va + word % 0x1000, word / 0x1000, delta);
      if status != Success {
        return;
      }
      MidwayStep(before, now, done, delta, f);
      assert done + rest == done + [f] + rest[1..];
      done, rest, q := done + [f], rest[1..], q + 2;
    }
  }

  lemma PlanStep(image: seq<byte>, imageSize: nat, dirSize: nat, p: nat, pend: nat, size: nat)
    requires Walkable(image, dirSize, p, pend) && p < pend && size == U32(image, p + 4)
    ensures var plan := PlanOf(image, imageSize, dirSize, p, pend);
            if p + 8 + (size - 8) / 2 > imageSize then plan == Plan([], CompromisedData)
            else if size == 0 || size > dirSize then plan == Plan([], Unsupported)
            else
              && size % 2 == 0 && p + size <= |image| && Walkable(image, dirSize, p + size, pend)
              && var rest := PlanOf(image, imageSize, dirSize, p + size, pend);
                 plan == Plan(BlockFixups(image, U32(image, p), p + 8, p + size) + rest.fixups, rest.end)
  {
    hide BlockFixups, U32;
  }

  lemma PlanEnds(image: seq<byte>, imageSize: nat, dirSize: nat, p: nat, pend: nat)
    requires Walkable(image, dirSize, p, pend)
    ensures p < pend ==> p + 8 <= |image|
    ensures p >= pend ==> PlanOf(image, imageSize, dirSize, p, pend) == Plan([], Success)
  {
  }

  /**
    A block the walk does not refuse: its page address and its size are the two 32-bit words at its start, and its
    entries stand from offset 8 on. What follows are the fixups from the next block on.
   */
  lemma WalkedBlock(image: seq<byte>, imageSize: nat, dirSize: nat, p: nat, pend: nat, va: nat, size: nat, k: nat)
    requires Walkable(image, dirSize, p, pend) && p < pend && p + 8 <= |image|
    requires va == image[p] as int + 0x100 * image[p + 1] as int + 0x1_0000 * image[p + 2] as int + 0x100_0000 * image[p + 3] as int
    requires size == image[p + 4] as int + 0x100 * image[p + 5] as int + 0x1_0000 * image[p + 6] as int + 0x100_0000 * image[p + 7] as int
    requires p + 8 + (size - 8) / 2 <= imageSize && 10 + 2 * k <= size <= dirSize
    ensures p + size <= |image| && size % 2 == 0 && Walkable(image, dirSize, p + size, pend)
    ensures var fs := PlanOf(image, imageSize, dirSize, p, pend).fixups;
            var w := image[p + 8 + 2 * k] as int + 256 * image[p + 8 + 2 * k + 1] as int;
            && |fs| >= (size - 8) / 2 > k && fs[k] == Fixup(va + w % 0x1000, w / 0x1000)
            && fs[(size - 8) / 2..] == PlanOf(image, imageSize, dirSize, p + size, pend).fixups
  {
    hide PlanOf, BlockFixups;
    ValFour(image[p..p + 4]);
    ValFour(image[p + 4..p + 8]);
    PlanStep(image, imageSize, dirSize, p, pend, size);
    BlockEntry(image, va, p + 8, p + size, k);
  }

  /** A block the walk refuses, for its bounds or for its size: nothing more is applied, and the status says which. */
  lemma RefusedBlock(image: seq<byte>, imageSize: nat, dirSize: nat, p: nat, pend: nat, size: nat)
    requires Walkable(image, dirSize, p, pend) && p < pend && p + 8 <= |image|
    requires size == image[p + 4] as int + 0x100 * image[p + 5] as int + 0x1_0000 * image[p + 6] as int + 0x100_0000 * image[p + 7] as int
    ensures p + 8 + (size - 8) / 2 > imageSize ==> PlanOf(image, imageSize, dirSize, p, pend) == Plan([], CompromisedData)
    ensures p + 8 + (size - 8) / 2 <= imageSize && (size == 0 || size > dirSize) ==>
              PlanOf(image, imageSize, dirSize, p, pend) == Plan([], Unsupported)
  {
    hide PlanOf;
    ValFour(image[p + 4..p + 8]);
    PlanStep(image, imageSize, dirSize, p, pend, size);
  }

  /** The outer loop over the blocks of the relocation region. */
  method Walk(image: seq<byte>, imageSize: nat, dirSize: nat, start: nat, pend: nat, newImage: array<byte>, delta: nat)
    returns (status: Status)
    requires Walkable(image, dirSize, start, pend) && delta < 0x1_0000_0000_0000_0000
    modifies newImage
    ensures Relocated(old(newImage[..]), newImage[..], PlanOf(image, imageSize, dirSize, start, pend), delta, status)
  {
    hide U32, ApplyAll, ApplyOne, AllApplicable, Applicable, Midway, Relocated, BlockFixups, PlanOf, Walkable;
    var p := start;
    ghost var before, plan := newImage[..], PlanOf(image, imageSize, dirSize, start, pend);
    ghost var togo, done: seq<Fixup> := plan, [];
    NothingDone(before, delta);
    while p < pend
      invariant Walkable(image, dirSize, p, pend)
      invariant togo == PlanOf(image, imageSize, dirSize, p, pend)
      invariant Midway(before, newImage[..], done, delta)
      invariant done + togo.fixups == plan.fixups && togo.end == plan.end
      decreases pend - p
    {
      PlanEnds(image, imageSize, dirSize, p, pend);
      var size := U32(image, p + 4);
      PlanStep(image, imageSize, dirSize, p, pend, size);
      if p + 8 + (size - 8) / 2 > imageSize {
        StoppedAt(before, newImage[..], done, delta, plan, [], CompromisedData);
        return CompromisedData;
      }
      if size == 0 || size > dirSize {
        StoppedAt(before, newImage[..], done, delta, plan, [], Unsupported);
        return Unsupported;
      }
      ghost var later, rest := PlanOf(image, imageSize, dirSize, p + size, pend), [];
      assert plan.fixups == done + BlockFixups(image, U32(image, p), p + 8, p + size) + later.fixups;
      status, done, rest := PatchBlock(image, U32(image, p), p + 8, p + size, newImage, delta, before, done);
      if status != Success {
        assert plan.fixups == done + (rest + later.fixups);
        StoppedAt(before, newImage[..], done, delta, plan, rest + later.fixups, status);
        return;
      }
      p, togo := p + size, later;
    }
    PlanEnds(image, imageSize, dirSize, p, pend);
    StoppedAt(before, newImage[..], done, delta, plan, [], Success);
    status := Success;
  }

  /** Relocate `newImage`, which holds an image linked for `imageBase`, for its address `newBase`. */
  method ApplyRelocations(image: seq<byte>, imageSize: nat, start: nat, virtualSize: nat, dirSize: nat,
                          imageBase: nat, newBase: nat, newImage: array<byte>) returns (status: Status)
    requires Walkable(image, dirSize, start, start + virtualSize)
    modifies newImage
    ensures var delta := (newBase - imageBase) % 0x1_0000_0000_0000_0000;
            var plan := PlanOf(image, imageSize, dirSize, start, start + virtualSize);
            if start + virtualSize / 8 > imageSize then status == CompromisedData && newImage[..] == old(newImage[..])
            else if delta == 0 then status == Success && newImage[..] == old(newImage[..])
            else Relocated(old(newImage[..]), newImage[..], plan, delta, status)
  {
    hide Relocated, PlanOf, Walkable;
    if start + virtualSize / 8 > imageSize {
      return CompromisedData;
    }
    var delta := (newBase - imageBase) % 0x1_0000_0000_0000_0000;
    if delta == 0 {
      return Success;
    }
    status := Walk(image, imageSize, dirSize, start, start + virtualSize, newImage, delta);
  }

  /** A walk succeeds exactly when its plan ends well and every fixup applies; then all of them were applied. */
  lemma RelocationSucceeds(before: seq<byte>, after: seq<byte>, plan: Plan, delta: nat)
    ensures Relocated(before, after, plan, delta, Success) <==>
              && plan.end == Success && AllApplicable(plan.fixups, |before|)
              && after == ApplyAll(before, plan.fixups, delta)
  {
    assert plan.fixups[..|plan.fixups|] == plan.fixups;
    if plan.end == Success && AllApplicable(plan.fixups, |before|) && after == ApplyAll(before, plan.fixups, delta) {
      assert RelocatedTo(before, after, plan, delta, Success, |plan.fixups|);
    }
  }

  /** Two regions that hold the same fixups of disjoint targets, in any blocks and order, relocate alike. */
  lemma RelocationsAgree(before: seq<byte>, a: seq<byte>, b: seq<byte>, p: Plan, q: Plan, delta: nat)
    requires Relocated(before, a, p, delta, Success) && Relocated(before, b, q, delta, Success)
    requires (forall f :: f in p.fixups <==> f in q.fixups) && Disjoint(p.fixups) && Disjoint(q.fixups)
    ensures a == b
  {
    RelocationSucceeds(before, a, p, delta);
    RelocationSucceeds(before, b, q, delta);
    OrderIndependent(before, p.fixups, q.fixups, delta);
  }

  lemma NothingDone(before: seq<byte>, delta: nat)
    ensures Midway(before, before, [], delta)
  {
  }

  // ----- Laying out the sections

  datatype Section = Section(
    isReloc: bool, virtualSize: nat, virtualAddress: nat, sizeOfRawData: nat, pointerToRawData: nat, discardable: bool)

  datatype Headers = Headers(
    sectionTable: nat, sizeOfImage: nat, sizeOfHeaders: nat, imageBase: nat, entryPoint: nat,
    directories: nat, relocVA: nat, relocSize: nat, sections: seq<Section>)

  /** Bytes of a section that come from the file. */
  function Loaded(s: Section): nat {
    if s.virtualSize > s.sizeOfRawData then s.sizeOfRawData else s.virtualSize
  }

  /** The bounds checks at the head of one pass of the section loop. */
  predicate InBounds(h: Headers, i: nat)
    requires i < |h.sections|
  {
    h.sectionTable + 40 * i + 40 <= h.sizeOfImage
    && h.sections[i].virtualAddress + h.sections[i].virtualSize <= h.sizeOfImage
  }

  /** All bounds checks of one pass of the section loop. */
  predicate SectionFits(h: Headers, i: nat)
    requires i < |h.sections|
  {
    var s := h.sections[i];
    && InBounds(h, i)
    && (!s.discardable && s.sizeOfRawData > 0 ==> s.pointerToRawData + Loaded(s) <= h.sizeOfImage)
  }

  predicate SectionsFit(h: Headers) {
    forall i :: 0 <= i < |h.sections| ==> SectionFits(h, i)
  }

  /** A section the relocation directory points at. */
  predicate MatchesReloc(h: Headers, s: Section) {
    && s.isReloc && s.sizeOfRawData > 0 && s.virtualSize > 0
    && h.relocVA == s.virtualAddress && h.relocSize == Loaded(s)
  }

  /** A section named .reloc behind one the directory points at. */
  predicate DuplicateReloc(h: Headers, n: nat)
    requires n <= |h.sections|
  {
    exists i, j :: 0 <= i < j < n && MatchesReloc(h, h.sections[i]) && h.sections[j].isReloc
  }

  /** Section `j` is named .reloc and stands behind one the directory points at. */
  predicate Repeats(h: Headers, j: nat)
    requires j < |h.sections|
  {
    h.sections[j].isReloc && exists i :: 0 <= i < j && MatchesReloc(h, h.sections[i])
  }

  /** The section loop meets a second relocation section before any bounds check fails. */
  predicate StopsAtRepeat(h: Headers) {
    exists j :: 0 <= j < |h.sections| && Repeats(h, j) && InBounds(h, j) && forall k :: 0 <= k < j ==> SectionFits(h, k)
  }

  /** A section in memory: file bytes, then zeros up to its virtual size. */
  function SectionBytes(image: seq<byte>, s: Section): (r: seq<byte>)
    requires Loaded(s) > 0 ==> s.pointerToRawData + Loaded(s) <= |image|
    ensures |r| == s.virtualSize
  {
    (if Loaded(s) == 0 then [] else image[s.pointerToRawData..s.pointerToRawData + Loaded(s)])
    + Zeros(s.virtualSize - Loaded(s))
  }

  predicate Placeable(image: seq<byte>, size: nat, s: Section) {
    && s.virtualAddress + s.virtualSize <= size
    && (!s.discardable && Loaded(s) > 0 ==> s.pointerToRawData + Loaded(s) <= |image|)
  }

  function LayOne(buf: seq<byte>, image: seq<byte>, s: Section): (r: seq<byte>)
    requires Placeable(image, |buf|, s)
    ensures |r| == |buf| && (s.discardable ==> r == buf)
  {
    if s.discardable then buf
    else buf[..s.virtualAddress] + SectionBytes(image, s) + buf[s.virtualAddress + s.virtualSize..]
  }

  function LayAll(buf: seq<byte>, image: seq<byte>, ss: seq<Section>): (r: seq<byte>)
    requires forall i :: 0 <= i < |ss| ==> Placeable(image, |buf|, ss[i])
    ensures |r| == |buf|
    decreases |ss|
  {
    if ss == [] then buf else LayOne(LayAll(buf, image, ss[..|ss| - 1]), image, ss[|ss| - 1])
  }

  predicate Within(s: Section, p: nat) {
    s.virtualAddress <= p < s.virtualAddress + s.virtualSize
  }

  ghost predicate DisjointSections(ss: seq<Section>) {
    forall i, j, p :: 0 <= i < j < |ss| && Within(ss[i], p) ==> !Within(ss[j], p)
  }

  /** Bytes outside all sections that are loaded keep their value. */
  lemma {:induction false} OutsideSections(buf: seq<byte>, image: seq<byte>, ss: seq<Section>, p: nat)
    requires forall i :: 0 <= i < |ss| ==> Placeable(image, |buf|, ss[i])
    requires p < |buf| && forall i :: 0 <= i < |ss| ==> ss[i].discardable || !Within(ss[i], p)
    ensures LayAll(buf, image, ss)[p] == buf[p]
    decreases |ss|
  {
    if ss != [] {
      assert !ss[|ss| - 1].discardable ==> !Within(ss[|ss| - 1], p);
      OutsideSections(buf, image, ss[..|ss| - 1], p);
    }
  }

  /** Inside one of several disjoint sections stand that section's bytes. */
  lemma {:induction false} InsideSection(buf: seq<byte>, image: seq<byte>, ss: seq<Section>, i: nat, p: nat)
    requires forall i :: 0 <= i < |ss| ==> Placeable(image, |buf|, ss[i])
    requires DisjointSections(ss) && i < |ss| && !ss[i].discardable && Within(ss[i], p)
    ensures LayAll(buf, image, ss)[p] == SectionBytes(image, ss[i])[p - ss[i].virtualAddress]
    decreases |ss|
  {
    if i < |ss| - 1 {
      assert !Within(ss[|ss| - 1], p);
      InsideSection(buf, image, ss[..|ss| - 1], i, p);
    }
  }

  /** The new image after Calloc and the header copy. */
  function HeadersOnly(image: seq<byte>, h: Headers): (r: seq<byte>)
    requires h.sizeOfHeaders <= h.sizeOfImage <= |image|
    ensures |r| == h.sizeOfImage
  {
    image[..h.sizeOfHeaders] + Zeros(h.sizeOfImage - h.sizeOfHeaders)
  }

  lemma SectionsPlaceable(image: seq<byte>, h: Headers)
    requires h.sizeOfImage <= |image| && SectionsFit(h)
    ensures forall i :: 0 <= i < |h.sections| ==> Placeable(image, h.sizeOfImage, h.sections[i])
  {
    forall i | 0 <= i < |h.sections| ensures Placeable(image, h.sizeOfImage, h.sections[i]) {
      assert SectionFits(h, i);
    }
  }

  /** The image before relocation, of headers the loader accepts. */
  function Layout(image: seq<byte>, h: Headers): (r: seq<byte>)
    requires h.sizeOfHeaders <= h.sizeOfImage <= |image| && SectionsFit(h)
    ensures |r| == h.sizeOfImage
  {
    SectionsPlaceable(image, h);
    LayAll(HeadersOnly(image, h), image, h.sections)
  }

  /** Section ranges are disjoint and lie above the headers. */
  ghost predicate WellPlaced(h: Headers) {
    && DisjointSections(h.sections)
    && forall i :: 0 <= i < |h.sections| ==> h.sizeOfHeaders <= h.sections[i].virtualAddress
  }

  /** The headers stand at 0. */
  lemma LayoutOfHeaders(image: seq<byte>, h: Headers, p: nat)
    requires h.sizeOfHeaders <= h.sizeOfImage <= |image| && SectionsFit(h) && WellPlaced(h)
    requires p < h.sizeOfHeaders
    ensures Layout(image, h)[p] == image[p]
  {
    SectionsPlaceable(image, h);
    OutsideSections(HeadersOnly(image, h), image, h.sections, p);
  }

  /** The file bytes of each loaded section stand at its address. */
  lemma LayoutOfSection(image: seq<byte>, h: Headers, i: nat, p: nat)
    requires h.sizeOfHeaders <= h.sizeOfImage <= |image| && SectionsFit(h) && WellPlaced(h)
    requires i < |h.sections| && FromFile(h.sections[i], p)
    ensures p < h.sizeOfImage
    ensures h.sections[i].pointerToRawData + (p - h.sections[i].virtualAddress) < |image|
    ensures Layout(image, h)[p] == image[h.sections[i].pointerToRawData + (p - h.sections[i].virtualAddress)]
  {
    SectionsPlaceable(image, h);
    assert SectionFits(h, i);
    InsideSection(HeadersOnly(image, h), image, h.sections, i, p);
  }

  /** Every other byte is zero. */
  lemma LayoutElsewhere(image: seq<byte>, h: Headers, p: nat)
    requires h.sizeOfHeaders <= h.sizeOfImage <= |image| && SectionsFit(h) && WellPlaced(h)
    requires h.sizeOfHeaders <= p < h.sizeOfImage
    requires forall i :: 0 <= i < |h.sections| ==> !FromFile(h.sections[i], p)
    ensures Layout(image, h)[p] == 0
  {
    SectionsPlaceable(image, h);
    if i :| 0 <= i < |h.sections| && !h.sections[i].discardable && Within(h.sections[i], p) {
      InsideSection(HeadersOnly(image, h), image, h.sections, i, p);
      assert !FromFile(h.sections[i], p);
    } else {
      OutsideSections(HeadersOnly(image, h), image, h.sections, p);
    }
  }

  /** `p` is one of the bytes of a loaded section that come from the file. */
  predicate FromFile(s: Section, p: nat) {
    !s.discardable && s.virtualAddress <= p < s.virtualAddress + Loaded(s)
  }

  /** Copying one section into place. */
  method Place(newImage: array<byte>, image: seq<byte>, s: Section)
    requires Placeable(image, newImage.Length, s) && !s.discardable
    modifies newImage
    ensures newImage[..] == LayOne(old(newImage[..]), image, s)
  {
    var n := Loaded(s);
    if n > 0 {
      Copy(image[s.pointerToRawData..s.pointerToRawData + n], newImage, s.virtualAddress);
    }
    if s.virtualSize > n {
      Copy(Zeros(s.virtualSize - n), newImage, s.virtualAddress + n);
    }
  }

  /** After `n` sections, `reloc` is the one the directory points at, or the section count if there is none. */
  ghost predicate RelocFound(h: Headers, n: nat, reloc: nat)
    requires n <= |h.sections|
  {
    && (reloc < |h.sections| ==> reloc < n && MatchesReloc(h, h.sections[reloc]))
    && (reloc >= |h.sections| ==> forall k :: 0 <= k < n ==> !MatchesReloc(h, h.sections[k]))
  }

  lemma RelocStep(h: Headers, n: nat, reloc: nat)
    requires n < |h.sections| && RelocFound(h, n, reloc) && !DuplicateReloc(h, n)
    requires reloc < |h.sections| ==> !h.sections[n].isReloc
    ensures !DuplicateReloc(h, n + 1)
    ensures RelocFound(h, n + 1, if MatchesReloc(h, h.sections[n]) then n else reloc)
  {
  }

  lemma NeverRepeats(h: Headers)
    requires !DuplicateReloc(h, |h.sections|)
    ensures !StopsAtRepeat(h)
  {
  }

  /** The first `n` sections passed their checks and were copied, in order, into an image that held `before`. */
  ghost predicate LaidOut(image: seq<byte>, h: Headers, n: nat, before: seq<byte>, now: seq<byte>)
    requires n <= |h.sections|
  {
    && (forall k :: 0 <= k < n ==> SectionFits(h, k) && Placeable(image, |before|, h.sections[k]))
    && now == LayAll(before, image, h.sections[..n])
  }

  lemma LayStep(image: seq<byte>, h: Headers, n: nat, before: seq<byte>, now: seq<byte>)
    requires n < |h.sections| && LaidOut(image, h, n, before, now)
    requires SectionFits(h, n) && Placeable(image, |before|, h.sections[n]) && |now| == |before|
    ensures LaidOut(image, h, n + 1, before, LayOne(now, image, h.sections[n]))
  {
    assert h.sections[..n + 1][..n] == h.sections[..n];
  }

  lemma LaidOutAll(image: seq<byte>, h: Headers, before: seq<byte>, now: seq<byte>)
    requires LaidOut(image, h, |h.sections|, before, now)
    ensures SectionsFit(h)
    ensures forall i :: 0 <= i < |h.sections| ==> Placeable(image, |before|, h.sections[i])
    ensures now == LayAll(before, image, h.sections)
  {
    assert h.sections[..|h.sections|] == h.sections;
  }

  /** A second relocation section stops the loop before any check has failed. */
  lemma RepeatsFirst(h: Headers, n: nat, reloc: nat, image: seq<byte>, before: seq<byte>, now: seq<byte>)
    requires n < |h.sections| && RelocFound(h, n, reloc) && reloc < |h.sections| && h.sections[n].isReloc
    requires InBounds(h, n) && LaidOut(image, h, n, before, now)
    ensures DuplicateReloc(h, |h.sections|) && StopsAtRepeat(h)
  {
    assert Repeats(h, n);
  }

  /** A failed check of section `n` comes before any second relocation section. */
  lemma FailsFirst(h: Headers, n: nat, reloc: nat)
    requires n < |h.sections| && !DuplicateReloc(h, n) && !SectionFits(h, n) && RelocFound(h, n, reloc)
    requires InBounds(h, n) && h.sections[n].isReloc ==> reloc >= |h.sections|
    ensures !SectionsFit(h) && !StopsAtRepeat(h)
  {
    forall j | 0 <= j < |h.sections| && Repeats(h, j) && InBounds(h, j) ensures n < j {
    }
  }

  /** The section loop: stops at the first failed check or at a duplicate relocation section. */
  method LayOutSections(image: seq<byte>, h: Headers, newImage: array<byte>)
    returns (status: Status, finished: bool, reloc: nat)
    requires newImage.Length == h.sizeOfImage <= |image|
    modifies newImage
    ensures finished == (SectionsFit(h) && !DuplicateReloc(h, |h.sections|))
    ensures !finished ==> status == if StopsAtRepeat(h) then Success else CompromisedData
    ensures finished ==> !StopsAtRepeat(h)
    ensures finished ==>
              && status == Success
              && (forall i :: 0 <= i < |h.sections| ==> Placeable(image, h.sizeOfImage, h.sections[i]))
              && newImage[..] == LayAll(old(newImage[..]), image, h.sections)
    ensures finished ==> RelocFound(h, |h.sections|, reloc)
  {
    assert LaidOut(image, h, 0, newImage[..], newImage[..]);
    assert RelocFound(h, 0, |h.sections|) && !DuplicateReloc(h, 0);
    hide LayAll, LayOne, LaidOut, DuplicateReloc, RelocFound, StopsAtRepeat;
    status, finished, reloc := Success, false, |h.sections|;
    var i := 0;
    while i < |h.sections|
      invariant 0 <= i <= |h.sections| && status == Success
      invariant LaidOut(image, h, i, old(newImage[..]), newImage[..])
      invariant !DuplicateReloc(h, i) && RelocFound(h, i, reloc)
    {
      var s := h.sections[i];
      if h.sectionTable + 40 * i + 40 > h.sizeOfImage || s.virtualAddress + s.virtualSize > h.sizeOfImage {
        FailsFirst(h, i, reloc);
        status := CompromisedData;
        return;
      }
      var baseSize := s.virtualSize;
      if baseSize > s.sizeOfRawData {
        baseSize := s.sizeOfRawData;
      }
      ghost var was, now := reloc, newImage[..];
      if s.isReloc {
        if reloc < |h.sections| {
          RepeatsFirst(h, i, reloc, image, old(newImage[..]), now);
          return;
        }
        if s.sizeOfRawData > 0 && s.virtualSize > 0 && h.relocVA == s.virtualAddress && h.relocSize == baseSize {
          reloc := i;
        }
      }
      if !s.discardable {
        if s.sizeOfRawData > 0 && s.pointerToRawData + baseSize > h.sizeOfImage {
          FailsFirst(h, i, was);
          status := CompromisedData;
          return;
        }
        Place(newImage, image, s);
      }
      assert SectionFits(h, i);
      LayStep(image, h, i, old(newImage[..]), now);
      RelocStep(h, i, was);
      i := i + 1;
    }
    LaidOutAll(image, h, old(newImage[..]), newImage[..]);
    NeverRepeats(h);
    finished := true;
  }

  /** The fields of the headers agree with the size of the file. */
  predicate Accepted(image: seq<byte>, h: Headers) {
    && h.sizeOfImage <= |image| && h.directories <= 16
    && h.sectionTable + 40 * |h.sections| <= |image| && h.sectionTable + 20 <= |image|
    && h.relocVA + h.relocSize <= |image|
    && forall i :: 0 <= i < |h.sections| ==> InFile(image, h.sections[i])
  }

  /** The bytes of a section that come from the file lie in it. */
  predicate InFile(image: seq<byte>, s: Section) {
    s.pointerToRawData + (if s.virtualSize < s.sizeOfRawData then s.virtualSize else s.sizeOfRawData) <= |image|
  }

  /** _GetHeaders, on the fields the loader uses. */
  method GetHeaders(image: seq<byte>, h: Headers) returns (status: Status)
    ensures status == Success <==> Accepted(image, h)
    ensures status == Unsupported <==>
              h.sizeOfImage > |image| || h.directories > 16 || h.sectionTable + 40 * |h.sections| > |image|
  {
    if |image| < h.sizeOfImage || h.directories > 16 {
      return Unsupported;
    }
    if h.sectionTable + |h.sections| * 40 > |image| {
      return Unsupported;
    }
    if h.relocVA + h.relocSize > |image| || h.sectionTable + 20 > |image| {
      return CompromisedData;
    }
    for i := 0 to |h.sections|
      invariant forall k :: 0 <= k < i ==> InFile(image, h.sections[k])
    {
      var s := h.sections[i];
      var size := s.virtualSize;
      if size > s.sizeOfRawData {
        size := s.sizeOfRawData;
      }
      if s.pointerToRawData + size > |image| {
        assert !InFile(image, h.sections[i]);
        return CompromisedData;
      }
    }
    status := Success;
  }

  /** The headers and the relocation directory lie in the new image. */
  predicate HeadersFit(h: Headers) {
    h.sizeOfHeaders <= h.sizeOfImage && h.relocVA + h.relocSize <= h.sizeOfImage
  }

  /** The relocation region of a section, as the loader walks it. */
  predicate RegionWalkable(image: seq<byte>, h: Headers, s: Section) {
    Walkable(image, h.relocSize, s.pointerToRawData, s.pointerToRawData + s.virtualSize)
  }

  /** `out` is the laid-out image with the whole relocation region of section `s` applied for `delta`. */
  ghost predicate RelocatedLayout(image: seq<byte>, h: Headers, s: Section, delta: nat, out: seq<byte>)
    requires h.sizeOfHeaders <= h.sizeOfImage <= |image| && SectionsFit(h) && RegionWalkable(image, h, s)
  {
    var plan := PlanOf(image, h.sizeOfImage, h.relocSize, s.pointerToRawData, s.pointerToRawData + s.virtualSize);
    && plan.end == Success && AllApplicable(plan.fixups, h.sizeOfImage)
    && out == ApplyAll(Layout(image, h), plan.fixups, delta)
  }

  /** The loader reports success although it has not set the entry point. */
  predicate SucceedsUnset(image: seq<byte>, h: Headers, memory: bool) {
    && Accepted(image, h)
    && (memory ==> HeadersFit(h) && (StopsAtRepeat(h) || (AllLaid(h) && h.directories <= 5)))
  }

  /** The section loop runs to its end. */
  predicate AllLaid(h: Headers) {
    SectionsFit(h) && !DuplicateReloc(h, |h.sections|)
  }

  function Delta(h: Headers, newBase: nat): nat {
    (newBase - h.imageBase) % 0x1_0000_0000_0000_0000
  }

  /** The relocation region of section `s` passes its bounds check, and every fixup in it can be applied. */
  ghost predicate Relocates(image: seq<byte>, h: Headers, s: Section, newBase: nat)
    requires RegionWalkable(image, h, s)
  {
    var plan := PlanOf(image, h.sizeOfImage, h.relocSize, s.pointerToRawData, s.pointerToRawData + s.virtualSize);
    && s.pointerToRawData + s.virtualSize / 8 <= h.sizeOfImage
    && (Delta(h, newBase) != 0 ==> plan.end == Success && AllApplicable(plan.fixups, h.sizeOfImage))
  }

  predicate WalkableRegions(image: seq<byte>, h: Headers) {
    forall i :: 0 <= i < |h.sections| && MatchesReloc(h, h.sections[i]) ==> RegionWalkable(image, h, h.sections[i])
  }

  /** With memory, the loader sets the entry point: every check passes and every relocation can be applied. */
  ghost predicate Loads(image: seq<byte>, h: Headers, newBase: nat)
    requires WalkableRegions(image, h)
  {
    && Accepted(image, h) && HeadersFit(h) && AllLaid(h)
    && h.directories > 5 && h.entryPoint + 8 <= h.sizeOfImage
    && forall i :: 0 <= i < |h.sections| && MatchesReloc(h, h.sections[i]) ==> Relocates(image, h, h.sections[i], newBase)
  }

  /** The one step of _FixupImage that depends on where the new image lies. */
  method Relocate(image: seq<byte>, h: Headers, reloc: nat, newBase: nat, newImage: array<byte>) returns (status: Status)
    requires reloc < |h.sections| && RegionWalkable(image, h, h.sections[reloc]) && newImage.Length == h.sizeOfImage
    requires h.sizeOfHeaders <= h.sizeOfImage <= |image| && SectionsFit(h) && newImage[..] == Layout(image, h)
    modifies newImage
    ensures status == Success <==> Relocates(image, h, h.sections[reloc], newBase)
    ensures status == Success ==>
              if Delta(h, newBase) == 0 then newImage[..] == Layout(image, h)
              else RelocatedLayout(image, h, h.sections[reloc], Delta(h, newBase), newImage[..])
  {
    hide PlanOf, Walkable, AllApplicable, ApplyAll, Layout, Relocated;
    var s := h.sections[reloc];
    ghost var laid := newImage[..];
    status := ApplyRelocations(image, h.sizeOfImage, s.pointerToRawData, s.virtualSize, h.relocSize, h.imageBase, newBase, newImage);
    ghost var plan := PlanOf(image, h.sizeOfImage, h.relocSize, s.pointerToRawData, s.pointerToRawData + s.virtualSize);
    RelocationSucceeds(laid, newImage[..], plan, Delta(h, newBase));
    if s.pointerToRawData + s.virtualSize / 8 <= h.sizeOfImage && Delta(h, newBase) != 0 {
      RelocationDecided(laid, newImage[..], plan, Delta(h, newBase), status);
    }
  }

  /** The outcome of a walk does not depend on anything but its plan. */
  lemma RelocationDecided(before: seq<byte>, after: seq<byte>, plan: Plan, delta: nat, status: Status)
    requires Relocated(before, after, plan, delta, status)
    ensures status == Success <==> plan.end == Success && AllApplicable(plan.fixups, |before|)
  {
    var k: nat :| RelocatedTo(before, after, plan, delta, status, k);
    assert plan.fixups[..|plan.fixups|] == plan.fixups;
    if k < |plan.fixups| {
      assert !Applicable(plan.fixups[k], |before|);
    }
  }

  /**
    _FixupImage. `memory` says that the new image could be allocated, `loaded` that the entry point was set.
    It was set exactly when every check passed and the relocations, if any, can all be applied; then the new
    image is the layout, relocated from its linked base to `newBase` if a relocation section was found.
    Otherwise the loader may still report success, exactly in the cases of `SucceedsUnset`.
   */
  method FixupImage(image: seq<byte>, h: Headers, newBase: nat, rec: Recorder)
    returns (status: Status, memory: bool, loaded: bool, newImage: array<byte>)
    requires WalkableRegions(image, h)
    modifies rec`outcomes
    ensures Since(old(rec.outcomes), rec.outcomes, memory)
    ensures loaded <==> memory && Loads(image, h, newBase)
    ensures status == Success <==> loaded || SucceedsUnset(image, h, memory)
    ensures loaded && (forall s :: s in h.sections && s.isReloc && s.sizeOfRawData > 0 && s.virtualSize > 0 ==>
                         s.virtualAddress != h.relocVA
                         || h.relocSize != if s.virtualSize < s.sizeOfRawData then s.virtualSize else s.sizeOfRawData) ==>
              newImage[..] == Layout(image, h)
    ensures loaded ==>
              forall s :: s in h.sections && s.isReloc && s.sizeOfRawData > 0 && s.virtualSize > 0
                          && s.virtualAddress == h.relocVA
                          && h.relocSize == (if s.virtualSize < s.sizeOfRawData then s.virtualSize else s.sizeOfRawData) ==>
                var delta := (newBase - h.imageBase) % 0x1_0000_0000_0000_0000;
                if delta == 0 then newImage[..] == Layout(image, h)
                else RelocatedLayout(image, h, s, delta, newImage[..])
  {
    hide LayAll, RegionWalkable, Relocates, RelocatedLayout, StopsAtRepeat, DuplicateReloc, SectionsFit, Since;
    NothingSince(rec.outcomes);
    memory, loaded, newImage := true, false, new byte[0];
    status := GetHeaders(image, h);
    if status != Success {
      return;
    }
    memory := rec.Alloc();
    OneMore(old(rec.outcomes), old(rec.outcomes), Memory(memory));
    if !memory {
      return;
    }
    newImage := new byte[h.sizeOfImage](i => 0);
    if h.sizeOfHeaders > h.sizeOfImage {
      status := CompromisedData;
      return;
    }
    Copy(image[..h.sizeOfHeaders], newImage, 0);
    assert newImage[..] == HeadersOnly(image, h);
    if h.relocVA + h.relocSize > h.sizeOfImage {
      status := CompromisedData;
      return;
    }
    var finished, reloc;
    status, finished, reloc := LayOutSections(image, h, newImage);
    if !finished || h.directories <= 5 {
      return;
    }
    assert newImage[..] == Layout(image, h);
    if reloc < |h.sections| && h.relocSize > 0 {
      OneReloc(h, reloc);
      status := Relocate(image, h, reloc, newBase, newImage);
      if status != Success {
        return;
      }
    }
    if h.entryPoint + 8 > h.sizeOfImage {
      status := CompromisedData;
      return;
    }
    loaded := true;
  }

  /** Where Exec continues: it calls the entry point whenever _FixupImage reports success. */
  datatype Call = NoCall | CallNull | CallAt(offset: nat)

  method Exec(image: seq<byte>, h: Headers, newBase: nat, rec: Recorder) returns (memory: bool, call: Call)
    requires WalkableRegions(image, h)
    modifies rec`outcomes
    ensures Since(old(rec.outcomes), rec.outcomes, memory)
    ensures call == CallNull <==> SucceedsUnset(image, h, memory)
    ensures call.CallAt? <==> memory && Loads(image, h, newBase)
    ensures call.CallAt? ==> call.offset == h.entryPoint && call.offset + 8 <= h.sizeOfImage
  {
    var status, loaded, newImage;
    status, memory, loaded, newImage := FixupImage(image, h, newBase, rec);
    call := if status != Success then NoCall else if loaded then CallAt(h.entryPoint) else CallNull;
  }

  /**
    Success with a null entry point: an image of two 512-byte pages whose section table follows headers at
    offset 64, without a base relocation directory, or with two .reloc sections.
   */
  lemma SucceedsUnsetExamples(image: seq<byte>)
    requires |image| == 1024
    ensures SucceedsUnset(image, Headers(328, 1024, 512, 0, 512, 5, 0, 0, []), true)
    ensures var s := Section(true, 8, 512, 8, 512, false);
            SucceedsUnset(image, Headers(328, 1024, 512, 0, 512, 16, 512, 8, [s, s]), true)
  {
    var s := Section(true, 8, 512, 8, 512, false);
    var h := Headers(328, 1024, 512, 0, 512, 16, 512, 8, [s, s]);
    assert MatchesReloc(h, h.sections[0]) && Repeats(h, 1) && InBounds(h, 1) && SectionFits(h, 0);
  }

  // ----- A loaded image, byte by byte

  /**
    The byte at `p` of the image before relocation: the headers at 0, the first min(VirtualSize, SizeOfRawData)
    bytes of each section that is not discardable at its address, zero elsewhere.
   */
  ghost predicate FromLayout(image: seq<byte>, h: Headers, p: nat, x: byte)
    requires h.sizeOfImage <= |image| && p < h.sizeOfImage
  {
    && (p < h.sizeOfHeaders ==> x == image[p])
    && (forall s :: s in h.sections && !s.discardable ==>
          (0 <= p - s.virtualAddress < s.virtualSize && p - s.virtualAddress < s.sizeOfRawData ==> FileByte(image, s, p, x)))
    && ((p >= h.sizeOfHeaders
         && forall s :: s in h.sections && !s.discardable ==>
              p < s.virtualAddress || p - s.virtualAddress >= s.virtualSize || p - s.virtualAddress >= s.sizeOfRawData)
        ==> x == 0)
  }

  predicate FileByte(image: seq<byte>, s: Section, p: nat, x: byte) {
    s.virtualAddress <= p && s.pointerToRawData + (p - s.virtualAddress) < |image|
    && x == image[s.pointerToRawData + (p - s.virtualAddress)]
  }

  lemma LayoutBytes(image: seq<byte>, h: Headers, p: nat)
    requires h.sizeOfHeaders <= h.sizeOfImage <= |image| && SectionsFit(h) && WellPlaced(h) && p < h.sizeOfImage
    ensures FromLayout(image, h, p, Layout(image, h)[p])
  {
    hide Layout, WellPlaced, SectionsFit;
    forall s | s in h.sections && FromFile(s, p) ensures FileByte(image, s, p, Layout(image, h)[p]) {
      var i :| 0 <= i < |h.sections| && h.sections[i] == s;
      LayoutOfSection(image, h, i, p);
    }
    if p < h.sizeOfHeaders {
      LayoutOfHeaders(image, h, p);
    } else if forall i :: 0 <= i < |h.sections| ==> !FromFile(h.sections[i], p) {
      LayoutElsewhere(image, h, p);
    }
  }

  /** The fixups of the relocation region of section `s`. */
  function FixupsOf(image: seq<byte>, h: Headers, s: Section): seq<Fixup>
    requires RegionWalkable(image, h, s)
  {
    PlanOf(image, h.sizeOfImage, h.relocSize, s.pointerToRawData, s.pointerToRawData + s.virtualSize).fixups
  }

  /**
    A loaded image with well-placed sections and disjoint fixups, byte by byte: there is a plain image, the file's
    headers and sections and zeros elsewhere, whose bytes stand wherever no fixup reaches, and each word a fixup
    reaches holds the plain word plus its slice of the delta, modulo the word size.
   */
  lemma LoadedBytes(image: seq<byte>, h: Headers, s: Section, delta: nat, out: seq<byte>) returns (plain: seq<byte>)
    requires h.sizeOfHeaders <= h.sizeOfImage <= |image| && SectionsFit(h) && WellPlaced(h) && RegionWalkable(image, h, s)
    requires RelocatedLayout(image, h, s, delta, out) && Disjoint(FixupsOf(image, h, s)) && delta < 0x1_0000_0000_0000_0000
    ensures |out| == |plain| == h.sizeOfImage
    ensures forall p :: 0 <= p < h.sizeOfImage ==> FromLayout(image, h, p, plain[p])
    ensures forall p :: 0 <= p < h.sizeOfImage && (forall f :: f in FixupsOf(image, h, s) ==> !Reaches(f, p)) ==> out[p] == plain[p]
    ensures forall f :: f in FixupsOf(image, h, s) ==> Patched(plain, out, f, delta)
  {
    hide Layout, WellPlaced, SectionsFit, RegionWalkable, PlanOf, ApplyAll, Disjoint, Patched, FromLayout, Hits;
    plain := Layout(image, h);
    var fs := FixupsOf(image, h, s);
    FitOf(fs, h.sizeOfImage);
    forall p | 0 <= p < h.sizeOfImage ensures FromLayout(image, h, p, plain[p]) {
      LayoutBytes(image, h, p);
    }
    forall p | 0 <= p < h.sizeOfImage && (forall f :: f in fs ==> !Reaches(f, p)) ensures out[p] == plain[p] {
      forall i | 0 <= i < |fs| ensures !Hits(fs[i], p) {
        ReachesIs(fs[i], p);
      }
      Untouched(plain, fs, delta, p);
    }
    forall f | f in fs ensures Patched(plain, out, f, delta) {
      var i :| 0 <= i < |fs| && fs[i] == f;
      PatchedWord(plain, fs, delta, i);
    }
  }

  /** The region of section `s` starts at its raw data: entry `k` of its first block, in the bytes of the file. */
  lemma FirstBlockOf(image: seq<byte>, h: Headers, s: Section, va: nat, size: nat, k: nat)
    requires RegionWalkable(image, h, s) && s.virtualSize > 0 && s.pointerToRawData + 8 <= |image|
    requires var p := s.pointerToRawData;
             && va == image[p] as int + 0x100 * image[p + 1] as int + 0x1_0000 * image[p + 2] as int + 0x100_0000 * image[p + 3] as int
             && size == image[p + 4] as int + 0x100 * image[p + 5] as int + 0x1_0000 * image[p + 6] as int + 0x100_0000 * image[p + 7] as int
             && p + 8 + (size - 8) / 2 <= h.sizeOfImage && 10 + 2 * k <= size <= h.relocSize
    ensures s.pointerToRawData + 10 + 2 * k <= |image|
    ensures var w := image[s.pointerToRawData + 8 + 2 * k] as int + 256 * image[s.pointerToRawData + 9 + 2 * k] as int;
            Fixup(va + w % 0x1000, w / 0x1000) in FixupsOf(image, h, s)
  {
    WalkedBlock(image, h.sizeOfImage, h.relocSize, s.pointerToRawData, s.pointerToRawData + s.virtualSize, va, size, k);
  }

  lemma FitOf(fs: seq<Fixup>, size: nat)
    requires AllApplicable(fs, size)
    ensures AllFit(fs, size)
  {
  }

  lemma PatchedWord(plain: seq<byte>, fs: seq<Fixup>, delta: nat, i: nat)
    requires AllFit(fs, |plain|) && Disjoint(fs) && i < |fs| && delta < 0x1_0000_0000_0000_0000
    ensures Patched(plain, ApplyAll(plain, fs, delta), fs[i], delta)
  {
    hide Val, Enc, ApplyAll, Pow256, Disjoint;
    var f := fs[i];
    assert Fits(f, |plain|);
    if Width(f) > 0 {
      TargetWord(plain, fs, delta, i);
      ValEnc(Val(plain[f.rva..f.rva + Width(f)]) + Amount(f, delta), Width(f));
      Pow256Values();
      HighDigit(delta);
    }
  }

  /** Without a duplicate there is only one section the relocation directory points at. */
  lemma OneReloc(h: Headers, r: nat)
    requires !DuplicateReloc(h, |h.sections|) && r < |h.sections| && MatchesReloc(h, h.sections[r])
    ensures forall i :: 0 <= i < |h.sections| && MatchesReloc(h, h.sections[i]) ==> i == r
  {
  }
}

/**
  Base relocation (lsvmload/image.c, _ApplyRelocations; "The .reloc Section (Image Only)" of the
  Microsoft PE/COFF specification): what a list of fixups does to an image, as a function.
 */
module Relocation {
  import opened Bytes
  import opened LittleEndian

  const ABSOLUTE := 0
  const HIGH := 1
  const LOW := 2
  const HIGHLOW := 3
  const DIR64 := 10

  datatype Fixup = Fixup(rva: nat, tag: nat)

  predicate Supported(tag: nat) {
    tag == ABSOLUTE || tag == HIGH || tag == LOW || tag == HIGHLOW || tag == DIR64
  }

  /** Bytes a fixup patches. */
  function Width(f: Fixup): nat {
    if f.tag == HIGH || f.tag == LOW then 2
    else if f.tag == HIGHLOW then 4
    else if f.tag == DIR64 then 8
    else 0
  }

  /** The upper half of the delta's low 32 bits. */
  function HighHalf(delta: nat): nat {
    delta % 0x1_0000_0000 / 0x1_0000
  }

  /** The slice of the load delta a fixup adds. */
  function Amount(f: Fixup, delta: nat): nat {
    if f.tag == HIGH then HighHalf(delta)
    else if f.tag == LOW then delta % 0x1_0000
    else if f.tag == HIGHLOW then delta % 0x1_0000_0000
    else if f.tag == DIR64 then delta
    else 0
  }

  /** The target lies in the image; an ABSOLUTE entry is padding and has no target. */
  predicate Fits(f: Fixup, size: nat) {
    Width(f) > 0 ==> f.rva + Width(f) <= size
  }

  predicate AllFit(fs: seq<Fixup>, size: nat) {
    forall i :: 0 <= i < |fs| ==> Fits(fs[i], size)
  }

  /** The patched word of one fixup. */
  function Word(img: seq<byte>, f: Fixup, delta: nat): (r: seq<byte>)
    requires Width(f) > 0 && Fits(f, |img|)
    ensures |r| == Width(f)
  {
    Enc(Val(img[f.rva..f.rva + Width(f)]) + Amount(f, delta), Width(f))
  }

  function ApplyOne(img: seq<byte>, f: Fixup, delta: nat): (r: seq<byte>)
    requires Fits(f, |img|)
    ensures |r| == |img|
  {
    if Width(f) == 0 then img else img[..f.rva] + Word(img, f, delta) + img[f.rva + Width(f)..]
  }

  function ApplyAll(img: seq<byte>, fs: seq<Fixup>, delta: nat): (r: seq<byte>)
    requires AllFit(fs, |img|)
    ensures |r| == |img|
    decreases |fs|
  {
    if fs == [] then img else ApplyAll(ApplyOne(img, fs[0], delta), fs[1..], delta)
  }

  lemma {:induction false} ApplyAllSnoc(img: seq<byte>, fs: seq<Fixup>, f: Fixup, delta: nat)
    requires AllFit(fs, |img|) && Fits(f, |img|)
    ensures AllFit(fs + [f], |img|)
    ensures ApplyAll(img, fs + [f], delta) == ApplyOne(ApplyAll(img, fs, delta), f, delta)
    decreases |fs|
  {
    if fs == [] {
      assert fs + [f] == [f];
      assert ApplyAll(img, [f], delta) == ApplyAll(ApplyOne(img, f, delta), [], delta);
    } else {
      ApplyAllSnoc(ApplyOne(img, fs[0], delta), fs[1..], f, delta);
      assert (fs + [f])[1..] == fs[1..] + [f];
    }
  }

  // ----- Disjoint targets

  predicate Hits(f: Fixup, p: nat) {
    f.rva <= p < f.rva + Width(f)
  }

  ghost predicate Disjoint(fs: seq<Fixup>) {
    forall i, j, p :: 0 <= i < j < |fs| && Hits(fs[i], p) ==> !Hits(fs[j], p)
  }

  /** A byte no fixup targets is not changed. */
  lemma {:induction false} Untouched(img: seq<byte>, fs: seq<Fixup>, delta: nat, p: nat)
    requires AllFit(fs, |img|) && p < |img|
    requires forall i :: 0 <= i < |fs| ==> !Hits(fs[i], p)
    ensures ApplyAll(img, fs, delta)[p] == img[p]
    decreases |fs|
  {
    if fs != [] {
      assert !Hits(fs[0], p);
      Untouched(ApplyOne(img, fs[0], delta), fs[1..], delta, p);
    }
  }

  /** One fixup writes its word and nothing else. */
  lemma ApplyOneIs(img: seq<byte>, f: Fixup, delta: nat, p: nat)
    requires Fits(f, |img|) && p < |img|
    ensures ApplyOne(img, f, delta)[p] == if Hits(f, p) then Word(img, f, delta)[p - f.rva] else img[p]
  {
    hide Word;
  }

  /** The word of a fixup depends only on the bytes it targets. */
  lemma SameWord(img: seq<byte>, img': seq<byte>, f: Fixup, delta: nat)
    requires |img| == |img'| && Width(f) > 0 && Fits(f, |img|)
    requires forall k :: f.rva <= k < f.rva + Width(f) ==> img[k] == img'[k]
    ensures Word(img, f, delta) == Word(img', f, delta)
  {
    assert img[f.rva..f.rva + Width(f)] == img'[f.rva..f.rva + Width(f)];
  }

  lemma TailOf(fs: seq<Fixup>, size: nat)
    requires fs != [] && AllFit(fs, size) && Disjoint(fs)
    ensures AllFit(fs[1..], size) && Disjoint(fs[1..])
  {
  }

  /** Each target of disjoint fixups receives its word plus its slice of the delta, whatever the order. */
  lemma {:induction false} Target(img: seq<byte>, fs: seq<Fixup>, delta: nat, i: nat, p: nat)
    requires AllFit(fs, |img|) && Disjoint(fs) && i < |fs| && Hits(fs[i], p)
    ensures Fits(fs[i], |img|) && ApplyAll(img, fs, delta)[p] == Word(img, fs[i], delta)[p - fs[i].rva]
    decreases |fs|
  {
    hide Word, ApplyOne, Width;
    var f, img' := fs[i], ApplyOne(img, fs[0], delta);
    assert Fits(f, |img|) && Fits(fs[0], |img|);
    TailOf(fs, |img|);
    if i == 0 {
      ApplyOneIs(img, f, delta, p);
      Untouched(img', fs[1..], delta, p);
    } else {
      forall k | f.rva <= k < f.rva + Width(f) ensures img'[k] == img[k] {
        assert Hits(f, k) && !Hits(fs[0], k);
        ApplyOneIs(img, fs[0], delta, k);
      }
      SameWord(img, img', f, delta);
      Target(img', fs[1..], delta, i - 1, p);
    }
  }

  /** Two lists with the same fixups give the same image: entry and block order do not matter. */
  lemma OrderIndependent(img: seq<byte>, fs: seq<Fixup>, gs: seq<Fixup>, delta: nat)
    requires AllFit(fs, |img|) && AllFit(gs, |img|) && Disjoint(fs) && Disjoint(gs)
    requires forall f :: f in fs <==> f in gs
    ensures ApplyAll(img, fs, delta) == ApplyAll(img, gs, delta)
  {
    forall p | 0 <= p < |img| ensures ApplyAll(img, fs, delta)[p] == ApplyAll(img, gs, delta)[p] {
      if i :| 0 <= i < |fs| && Hits(fs[i], p) {
        var j :| 0 <= j < |gs| && gs[j] == fs[i] by {
          assert fs[i] in gs;
        }
        Target(img, fs, delta, i, p);
        Target(img, gs, delta, j, p);
      } else {
        forall j | 0 <= j < |gs| ensures !Hits(gs[j], p) {
          assert gs[j] in fs;
        }
        Untouched(img, fs, delta, p);
        Untouched(img, gs, delta, p);
      }
    }
  }

  // ----- Relocating twice

  /** The low 16 bits of the two deltas add without carry. */
  predicate NoCarry(d1: nat, d2: nat) {
    d1 % 0x1_0000 + d2 % 0x1_0000 < 0x1_0000
  }

  function Sum64(d1: nat, d2: nat): nat {
    (d1 + d2) % 0x1_0000_0000_0000_0000
  }

  lemma TruncatedSum(d1: nat, d2: nat, m: nat, k: nat)
    requires m >= 1 && k >= 1 && m * k == 0x1_0000_0000_0000_0000
    ensures (d1 % m + d2 % m) % m == Sum64(d1, d2) % m
  {
    AddModBoth(d1, d2, m);
    ModMod(d1 + d2, m, k);
  }

  /** The HIGH slice is the second 16-bit digit. */
  lemma HighDigit(d: nat)
    ensures HighHalf(d) == d / 0x1_0000 % 0x1_0000
  {
  }

  lemma Carry(d1: nat, d2: nat)
    ensures (d1 + d2) / 0x1_0000 == d1 / 0x1_0000 + d2 / 0x1_0000 + if NoCarry(d1, d2) then 0 else 1
  {
  }

  lemma NextDiffers(x: nat)
    ensures (x + 1) % 0x1_0000 != x % 0x1_0000
  {
  }

  /** HIGH slices add up, modulo 2^16, exactly when the low digits add without carry. */
  lemma HighSum(d1: nat, d2: nat)
    ensures (HighHalf(d1) + HighHalf(d2)) % 0x1_0000 == HighHalf(Sum64(d1, d2)) % 0x1_0000 <==> NoCarry(d1, d2)
  {
    hide HighHalf, NoCarry;
    var x, y, z := d1 / 0x1_0000, d2 / 0x1_0000, (d1 + d2) / 0x1_0000;
    HighDigit(d1);
    HighDigit(d2);
    AddModBoth(x, y, 0x1_0000);
    HighOfSum(d1, d2);
    Carry(d1, d2);
    NextDiffers(x + y);
  }

  lemma HighOfSum(d1: nat, d2: nat)
    ensures HighHalf(Sum64(d1, d2)) % 0x1_0000 == (d1 + d2) / 0x1_0000 % 0x1_0000
  {
    ModMod(d1 + d2, 0x1_0000_0000, 0x1_0000_0000);
    HighDigit(d1 + d2);
  }

  /** The two amounts add up, modulo the word size, exactly for non-HIGH entries or without carry. */
  lemma AmountsAdd(f: Fixup, d1: nat, d2: nat)
    requires Supported(f.tag)
    ensures Same(Amount(f, d1) + Amount(f, d2), Amount(f, Sum64(d1, d2)), Width(f))
       <==> f.tag != HIGH || NoCarry(d1, d2)
  {
    hide Pow256, Sum64, NoCarry;
    Pow256Values();
    if f.tag == HIGH {
      HighSum(d1, d2);
    } else if f.tag == LOW {
      TruncatedSum(d1, d2, 0x1_0000, 0x1_0000_0000_0000);
    } else if f.tag == HIGHLOW {
      TruncatedSum(d1, d2, 0x1_0000_0000, 0x1_0000_0000);
    } else if f.tag == DIR64 {
      TruncatedSum(d1, d2, 0x1_0000_0000_0000_0000, 1);
      AddModBoth(d1, d2, 0x1_0000_0000_0000_0000);
    }
  }

  /** After a relocation, each target word as a whole. */
  lemma TargetWord(img: seq<byte>, fs: seq<Fixup>, delta: nat, i: nat)
    requires AllFit(fs, |img|) && Disjoint(fs) && i < |fs| && Width(fs[i]) > 0
    ensures ApplyAll(img, fs, delta)[fs[i].rva..fs[i].rva + Width(fs[i])] == Word(img, fs[i], delta)
  {
    var f, out := fs[i], ApplyAll(img, fs, delta);
    assert Fits(f, |img|);
    forall p | f.rva <= p < f.rva + Width(f) ensures out[p] == Word(img, f, delta)[p - f.rva] {
      Target(img, fs, delta, i, p);
    }
  }

  /** Relocating a target twice agrees with relocating it once by the sum exactly as the amounts do. */
  lemma WordTwice(img: seq<byte>, mid: seq<byte>, f: Fixup, d1: nat, d2: nat)
    requires Width(f) > 0 && Fits(f, |img|) && |mid| == |img| && Supported(f.tag)
    requires mid[f.rva..f.rva + Width(f)] == Word(img, f, d1)
    ensures Word(mid, f, d2) == Word(img, f, Sum64(d1, d2)) <==> f.tag != HIGH || NoCarry(d1, d2)
  {
    hide Amount, Width, Enc, Val, Sum64, NoCarry, Same;
    AddedTwice(Val(img[f.rva..f.rva + Width(f)]), Amount(f, d1), Amount(f, d2), Amount(f, Sum64(d1, d2)), Width(f));
    AmountsAdd(f, d1, d2);
  }

  lemma ByteTwice(img: seq<byte>, fs: seq<Fixup>, d1: nat, d2: nat, p: nat)
    requires AllFit(fs, |img|) && Disjoint(fs) && (forall i :: 0 <= i < |fs| ==> Supported(fs[i].tag)) && p < |img|
    requires NoCarry(d1, d2) || forall i :: 0 <= i < |fs| ==> fs[i].tag != HIGH
    ensures ApplyAll(ApplyAll(img, fs, d1), fs, d2)[p] == ApplyAll(img, fs, Sum64(d1, d2))[p]
  {
    hide NoCarry, Sum64, Word, ApplyAll, Disjoint;
    var mid := ApplyAll(img, fs, d1);
    if i :| 0 <= i < |fs| && Hits(fs[i], p) {
      Target(mid, fs, d2, i, p);
      Target(img, fs, Sum64(d1, d2), i, p);
      TargetWord(img, fs, d1, i);
      WordTwice(img, mid, fs[i], d1, d2);
    } else {
      Untouched(img, fs, d1, p);
      Untouched(mid, fs, d2, p);
      Untouched(img, fs, Sum64(d1, d2), p);
    }
  }

  /**
    Relocating by `d1` and then by `d2` equals relocating by their sum modulo 2^64 exactly when the image
    has no HIGH entry or the low 16 bits of the deltas add without carry.
   */
  lemma RelocateTwice(img: seq<byte>, fs: seq<Fixup>, d1: nat, d2: nat)
    requires AllFit(fs, |img|) && Disjoint(fs) && forall i :: 0 <= i < |fs| ==> Supported(fs[i].tag)
    ensures ApplyAll(ApplyAll(img, fs, d1), fs, d2) == ApplyAll(img, fs, Sum64(d1, d2))
       <==> NoCarry(d1, d2) || forall i :: 0 <= i < |fs| ==> fs[i].tag != HIGH
  {
    hide NoCarry, Sum64, Word, ApplyAll, Disjoint;
    var mid := ApplyAll(img, fs, d1);
    var twice, once := ApplyAll(mid, fs, d2), ApplyAll(img, fs, Sum64(d1, d2));
    if NoCarry(d1, d2) || forall i :: 0 <= i < |fs| ==> fs[i].tag != HIGH {
      forall p | 0 <= p < |img| ensures twice[p] == once[p] {
        ByteTwice(img, fs, d1, d2, p);
      }
    } else {
      var i :| 0 <= i < |fs| && fs[i].tag == HIGH;
      TargetWord(mid, fs, d2, i);
      TargetWord(img, fs, Sum64(d1, d2), i);
      TargetWord(img, fs, d1, i);
      WordTwice(img, mid, fs[i], d1, d2);
    }
  }

  /** A zero delta changes nothing. */
  lemma {:induction false} ZeroDelta(img: seq<byte>, fs: seq<Fixup>)
    requires AllFit(fs, |img|)
    ensures ApplyAll(img, fs, 0) == img
    decreases |fs|
  {
    if fs != [] {
      var f := fs[0];
      if Width(f) > 0 {
        var word := img[f.rva..f.rva + Width(f)];
        EncVal(word);
        assert Word(img, f, 0) == word && img == img[..f.rva] + word + img[f.rva + Width(f)..];
      }
      ZeroDelta(img, fs[1..]);
    }
  }

  /** Moving away and back restores every byte, exactly when there is no HIGH entry or `d` is 64 KiB aligned. */
  lemma MoveBack(img: seq<byte>, fs: seq<Fixup>, d: nat)
    requires AllFit(fs, |img|) && Disjoint(fs) && forall i :: 0 <= i < |fs| ==> Supported(fs[i].tag)
    requires 0 < d < 0x1_0000_0000_0000_0000
    ensures ApplyAll(ApplyAll(img, fs, d), fs, 0x1_0000_0000_0000_0000 - d) == img
       <==> d % 0x1_0000 == 0 || forall i :: 0 <= i < |fs| ==> fs[i].tag != HIGH
  {
    hide ApplyAll;
    RelocateTwice(img, fs, d, 0x1_0000_0000_0000_0000 - d);
    ZeroDelta(img, fs);
  }
}

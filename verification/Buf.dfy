/** The growable buffer of lsvmutils/buf.c. */
module Buf {
  import opened Bytes
  import opened Trace

  /** The capacity BufReserve chooses when `need` exceeds `cap`: double, or `need` rounded up to 1024. */
  function NewCap(cap: nat, need: nat): (r: nat)
    ensures r >= need || r == 2 * cap
  {
    if need > 2 * cap then (need + 1023) / 1024 * 1024 else 2 * cap
  }

  /** Sizes only: what an append of `n` bytes does to size, capacity and the bytes Realloc has moved. */
  datatype Shape = Shape(size: nat, cap: nat, moved: nat)

  function Appended(s: Shape, n: nat): Shape {
    if s.size + n > s.cap then Shape(s.size + n, NewCap(s.cap, s.size + n), s.moved + s.cap)
    else s.(size := s.size + n)
  }

  function AfterAppends(ns: seq<nat>): Shape {
    if ns == [] then Shape(0, 0, 0) else Appended(AfterAppends(ns[..|ns| - 1]), ns[|ns| - 1])
  }

  function Sum(ns: seq<nat>): nat {
    if ns == [] then 0 else Sum(ns[..|ns| - 1]) + ns[|ns| - 1]
  }

  ghost predicate Tight(s: Shape) {
    s.size <= s.cap && s.cap % 1024 == 0 && s.cap < 2 * s.size + 1024 && s.moved <= s.cap
  }

  lemma RoundUp(need: nat)
    ensures var r := (need + 1023) / 1024 * 1024; r % 1024 == 0 && need <= r < need + 1024
  {
  }

  lemma AppendedTight(s: Shape, n: nat)
    requires Tight(s)
    ensures Tight(Appended(s, n))
  {
    RoundUp(s.size + n);
    DoubleChunks(s.cap);
  }

  lemma DoubleChunks(cap: nat)
    requires cap % 1024 == 0
    ensures 2 * cap % 1024 == 0
  {
    assert 2 * cap == 1024 * (2 * (cap / 1024));
  }

  /**
    Over any sequence of appends: the size is the total appended, the capacity is a multiple of 1024 below
    twice the size plus 1024, and Realloc has moved no more bytes in all than the final capacity.
   */
  lemma {:induction false} AppendsAreAmortised(ns: seq<nat>)
    ensures Tight(AfterAppends(ns)) && AfterAppends(ns).size == Sum(ns)
  {
    if ns != [] {
      AppendsAreAmortised(ns[..|ns| - 1]);
      AppendedTight(AfterAppends(ns[..|ns| - 1]), ns[|ns| - 1]);
    }
  }

  /** A buffer's contents and sizes. */
  datatype State = State(contents: seq<byte>, sizes: Shape)

  /** One append: a failed one changes nothing. */
  predicate AppendStep(s: State, bytes: seq<byte>, ok: bool, s': State) {
    s' == if ok then State(s.contents + bytes, Appended(s.sizes, |bytes|)) else s
  }

  /** A run of appends from the empty buffer. */
  ghost predicate Run(ss: seq<State>, data: seq<seq<byte>>, oks: seq<bool>) {
    && |ss| == |data| + 1 == |oks| + 1
    && ss[0] == State([], AfterAppends([]))
    && forall i :: 0 <= i < |data| ==> AppendStep(ss[i], data[i], oks[i], ss[i + 1])
  }

  /** The data of the first `n` appends that succeeded, in order. */
  function Taken(data: seq<seq<byte>>, oks: seq<bool>, n: nat): seq<seq<byte>>
    requires n <= |data| == |oks|
  {
    if n == 0 then [] else Taken(data, oks, n - 1) + if oks[n - 1] then [data[n - 1]] else []
  }

  function Concat(data: seq<seq<byte>>): seq<byte> {
    if data == [] then [] else Concat(data[..|data| - 1]) + data[|data| - 1]
  }

  function Lengths(data: seq<seq<byte>>): (ns: seq<nat>)
    ensures |ns| == |data| && forall i :: 0 <= i < |ns| ==> ns[i] == |data[i]|
  {
    seq(|data|, i requires 0 <= i < |data| => |data[i]|)
  }

  lemma ConcatSnoc(data: seq<seq<byte>>, x: seq<byte>)
    ensures Concat(data + [x]) == Concat(data) + x
    ensures AfterAppends(Lengths(data + [x])) == Appended(AfterAppends(Lengths(data)), |x|)
  {
    assert (data + [x])[..|data|] == data;
    assert Lengths(data + [x]) == Lengths(data) + [|x|] && (Lengths(data) + [|x|])[..|data|] == Lengths(data);
  }

  /**
    Over any run of appends, some of which may fail, the buffer holds the concatenation of the data that
    was taken, its size is the length of that, and the bounds on capacity and moved bytes hold throughout.
   */
  lemma {:induction false} RunHoldsConcatenation(ss: seq<State>, data: seq<seq<byte>>, oks: seq<bool>, i: nat)
    requires Run(ss, data, oks) && i < |ss|
    ensures ss[i].contents == Concat(Taken(data, oks, i)) && ss[i].sizes == AfterAppends(Lengths(Taken(data, oks, i)))
    ensures Tight(ss[i].sizes) && ss[i].sizes.size == |ss[i].contents|
  {
    if i == 0 {
      assert Lengths([]) == [];
    } else {
      RunHoldsConcatenation(ss, data, oks, i - 1);
      assert AppendStep(ss[i - 1], data[i - 1], oks[i - 1], ss[i]);
      if oks[i - 1] {
        ConcatSnoc(Taken(data, oks, i - 1), data[i - 1]);
        AppendedTight(ss[i - 1].sizes, |data[i - 1]|);
      } else {
        assert Taken(data, oks, i) == Taken(data, oks, i - 1);
      }
    }
  }

  class Buf {
    const rec: Recorder
    var data: array<byte>
    var size: nat
    var cap: nat
    ghost var moved: nat    // total of the old capacities Realloc was asked to move

    ghost predicate Valid()
      reads this
    {
      data.Length == cap && size <= cap
    }

    ghost function Contents(): seq<byte>
      requires Valid()
      reads this, data
    {
      data[..size]
    }

    ghost function Sizes(): Shape
      reads this
    {
      Shape(size, cap, moved)
    }

    ghost function Abs(): State
      requires Valid()
      reads this, data
    {
      State(Contents(), Sizes())
    }

    constructor (rec: Recorder)
      ensures this.rec == rec
      ensures Valid() && Abs() == State([], AfterAppends([])) && fresh(data)
    {
      this.rec := rec;
      data := new byte[0];
      size, cap, moved := 0, 0, 0;
    }

    method Reserve(need: nat) returns (ok: bool)
      requires Valid()
      modifies this, rec`outcomes
      ensures Since(old(rec.outcomes), rec.outcomes, ok)
      ensures Valid() && Contents() == old(Contents()) && size == old(size)
      ensures data == old(data) || fresh(data)
      ensures need <= old(cap) ==> ok
      ensures !ok || need <= old(cap) ==> Sizes() == old(Sizes()) && data == old(data)
      ensures ok && need > old(cap) ==> cap == NewCap(old(cap), need) && moved == old(moved) + old(cap) && cap >= need
    {
      hide Since;
      NothingSince(rec.outcomes);
      if need > cap {
        var newCap := cap * 2;
        if need > newCap {
          newCap := (need + 1023) / 1024 * 1024;
          RoundUp(need);
        }
        ok := rec.Alloc();
        OneMore(old(rec.outcomes), old(rec.outcomes), Memory(ok));
        if !ok {
          return;
        }
        var newData := new byte[newCap](i => 0);
        Copy(data[..], newData, 0);
        moved := moved + cap;
        data, cap := newData, newCap;
      }
      ok := true;
    }

    method Append(bytes: seq<byte>) returns (ok: bool)
      requires Valid()
      modifies this, data, rec`outcomes
      ensures Since(old(rec.outcomes), rec.outcomes, ok)
      ensures Valid() && (data == old(data) || fresh(data))
      ensures AppendStep(old(Abs()), bytes, ok, Abs())
      ensures !ok ==> data == old(data) && old(size) + |bytes| > old(cap)
    {
      hide Since;
      NothingSince(rec.outcomes);
      if |bytes| == 0 {
        return true;
      }
      if size + |bytes| > cap {
        ok := Reserve(size + |bytes|);
        if !ok {
          return;
        }
      }
      ghost var before := data[..];
      Copy(bytes, data, size);
      assert data[..size + |bytes|] == before[..size] + bytes;
      size := size + |bytes|;
      ok := true;
    }
  }

  // ----- The typed views

  datatype Element = U32 | Pointer

  function ToBytes(e: Element, n: nat): nat {
    if e.U32? then 4 * n else 8 * n
  }

  function FromBytes(e: Element, n: nat): nat {
    if e.U32? then n / 4 else n / 8
  }

  /** Whole chunks and whole elements convert back and forth without loss. */
  lemma ConvertsBack(e: Element, n: nat)
    ensures FromBytes(e, ToBytes(e, n)) == n
    ensures n % 1024 == 0 ==> ToBytes(e, FromBytes(e, n)) == n
  {
    Quotients(n);
    if n % 1024 == 0 {
      var k := n / 1024;
      Quotients(256 * k);
      Quotients(128 * k);
      assert n == 4 * (256 * k) == 8 * (128 * k);
    }
  }

  lemma Quotients(k: nat)
    ensures 4 * k / 4 == k && 8 * k / 8 == k
  {
  }

  /** BufU32 and BufPtr: the same bytes counted in elements of 4 or 8 bytes, converted around each append. */
  class ElementBuf {
    const e: Element
    const rec: Recorder
    var data: array<byte>
    var size: nat
    var cap: nat
    ghost var moved: nat

    /** The byte buffer behind the view, whose sizes come from appends alone. */
    ghost predicate Valid()
      reads this
    {
      data.Length == ToBytes(e, cap) && Tight(ByteSizes())
    }

    ghost function ByteSizes(): Shape
      reads this
    {
      Shape(ToBytes(e, size), ToBytes(e, cap), moved)
    }

    ghost function Contents(): seq<byte>
      requires Valid()
      reads this, data
    {
      data[..ToBytes(e, size)]
    }

    constructor (e: Element, rec: Recorder)
      ensures Valid() && Contents() == [] && this.e == e && this.rec == rec && fresh(data)
    {
      this.e, this.rec := e, rec;
      data := new byte[0];
      size, cap, moved := 0, 0, 0;
    }

    method Append(bytes: seq<byte>, count: nat) returns (ok: bool)
      requires Valid() && |bytes| == ToBytes(e, count)
      modifies this, data, rec`outcomes
      ensures Since(old(rec.outcomes), rec.outcomes, ok)
      ensures Valid() && (data == old(data) || fresh(data))
      ensures ok ==> Contents() == old(Contents()) + bytes && size == old(size) + count
      ensures |Contents()| == size * (if e.U32? then 4 else 8) && data.Length == cap * (if e.U32? then 4 else 8)
      ensures ok ==> ByteSizes() == Appended(old(ByteSizes()), |bytes|)
      ensures !ok ==> Contents() == old(Contents()) && ByteSizes() == old(ByteSizes()) && old(size) + count > old(cap)
    {
      hide Appended, Tight, FromBytes, ToBytes, Since;
      var tmp := new Buf(rec);
      Fits(ByteSizes());
      tmp.data, tmp.size, tmp.cap, tmp.moved := data, ToBytes(e, size), ToBytes(e, cap), moved;
      ghost var before := tmp.Sizes();
      ok := tmp.Append(bytes);
      if ok {
        AppendedTight(before, |bytes|);
        Fits(tmp.Sizes());
        AddedSize(e, size, before, count);
        ConvertsBack(e, size + count);
        ConvertsBack(e, tmp.cap);
        data := tmp.data;
        size, cap := FromBytes(e, tmp.size), FromBytes(e, tmp.cap);
        moved := tmp.moved;
      } else {
        TooLarge(e, size, count, cap);
      }
      ElementSizes(e, size, cap);
    }
  }

  lemma Fits(s: Shape)
    requires Tight(s)
    ensures s.size <= s.cap && s.cap % 1024 == 0
  {
  }

  lemma ElementSizes(e: Element, size: nat, cap: nat)
    ensures ToBytes(e, size) == size * (if e.U32? then 4 else 8) && ToBytes(e, cap) == cap * (if e.U32? then 4 else 8)
  {
  }

  lemma TooLarge(e: Element, n: nat, count: nat, cap: nat)
    ensures ToBytes(e, n) + ToBytes(e, count) > ToBytes(e, cap) ==> n + count > cap
  {
  }

  lemma AddedSize(e: Element, n: nat, s: Shape, count: nat)
    ensures Appended(s, ToBytes(e, count)).size == s.size + ToBytes(e, count)
    ensures ToBytes(e, n) + ToBytes(e, count) == ToBytes(e, n + count)
  {
  }
}

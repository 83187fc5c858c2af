/** Little-endian words of any width. */
module LittleEndian {
  import opened Bytes

  function Pow256(k: nat): (r: nat)
    ensures r >= 1
  {
    if k == 0 then 1 else 256 * Pow256(k - 1)
  }

  function Val(s: seq<byte>): nat {
    if s == [] then 0 else s[0] + 256 * Val(s[1..])
  }

  /** The low `k` bytes of `v`. */
  function Enc(v: nat, k: nat): (r: seq<byte>)
    ensures |r| == k
    decreases k
  {
    if k == 0 then [] else [v % 256] + Enc(v / 256, k - 1)
  }

  /** The first byte of a word is its lowest digit. */
  lemma ValPair(a: byte, b: byte)
    ensures Val([a, b]) == a as int + 256 * b as int
  {
    assert [a, b][1..] == [b] && Val([b]) == b as int + 256 * Val([b][1..]);
  }

  /** A word behind another one counts by the size of the first. */
  lemma {:induction false} ValConcat(s: seq<byte>, t: seq<byte>)
    ensures Val(s + t) == Val(s) + Pow256(|s|) * Val(t)
  {
    if s == [] {
      assert s + t == t;
    } else {
      ValConcat(s[1..], t);
      assert (s + t)[1..] == s[1..] + t;
      MulAssoc(256, Pow256(|s| - 1), Val(t));
    }
  }

  lemma ValFour(s: seq<byte>)
    requires |s| == 4
    ensures Val(s) == s[0] as int + 0x100 * s[1] as int + 0x1_0000 * s[2] as int + 0x100_0000 * s[3] as int
  {
    assert s == [s[0], s[1]] + [s[2], s[3]];
    ValConcat([s[0], s[1]], [s[2], s[3]]);
    ValPair(s[0], s[1]);
    ValPair(s[2], s[3]);
    Pow256Values();
  }

  lemma DivMod(v: nat, m: nat)
    requires m >= 1
    ensures v % (256 * m) == v % 256 + 256 * (v / 256 % m)
  {
    var q, r := v / 256 / m, v / 256 % m;
    assert v == 256 * (m * q + r) + v % 256;
    assert v == (256 * m) * q + (256 * r + v % 256) by {
      assert 256 * (m * q + r) == (256 * m) * q + 256 * r;
    }
    Remainder(v, 256 * m, q, 256 * r + v % 256);
  }

  lemma LargerQuotient(m: nat, q: nat, r: nat, q': nat, r': nat)
    requires r < m && r' < m && q < q'
    ensures m * q + r < m * q' + r'
  {
    var d: nat := q' - q - 1;
    var md: nat := m * d;
    assert m * q' == m * q + m + md by {
      assert m * (q + 1 + d) == m * q + m + m * d;
    }
  }

  lemma Remainder(v: nat, m: nat, q: nat, r: nat)
    requires v == m * q + r && r < m
    ensures v % m == r
  {
    var q', r' := v / m, v % m;
    assert v == m * q' + r';
    if q < q' {
      LargerQuotient(m, q, r, q', r');
    } else if q' < q {
      LargerQuotient(m, q', r', q, r);
    }
  }

  /** Encoding keeps the value modulo the word size. */
  lemma {:induction false} ValEnc(v: nat, k: nat)
    ensures Val(Enc(v, k)) == v % Pow256(k)
    decreases k
  {
    if k > 0 {
      ValEnc(v / 256, k - 1);
      assert Enc(v, k)[1..] == Enc(v / 256, k - 1);
      DivMod(v, Pow256(k - 1));
    }
  }

  /** A value that fits the word is kept. */
  lemma ValEncFits(v: nat, k: nat)
    requires v < Pow256(k)
    ensures Val(Enc(v, k)) == v
  {
    ValEnc(v, k);
  }

  /** Encoding undoes decoding. */
  lemma {:induction false} EncVal(s: seq<byte>)
    ensures Enc(Val(s), |s|) == s
  {
    if s != [] {
      EncVal(s[1..]);
      assert Val(s) / 256 == Val(s[1..]) && Val(s) % 256 == s[0];
    }
  }

  /** Equality modulo the `k`-byte word size. */
  predicate Same(u: nat, v: nat, k: nat) {
    u % Pow256(k) == v % Pow256(k)
  }

  /** Two values have the same low `k` bytes exactly when they agree modulo the word size. */
  lemma {:induction false} EncEq(u: nat, v: nat, k: nat)
    ensures Enc(u, k) == Enc(v, k) <==> Same(u, v, k)
    decreases k
  {
    ValEnc(u, k);
    ValEnc(v, k);
    if u % Pow256(k) == v % Pow256(k) {
      EncVal(Enc(u, k));
      EncVal(Enc(v, k));
    }
  }

  lemma AddMod(u: nat, a: nat, m: nat)
    requires m >= 1
    ensures (u % m + a) % m == (u + a) % m
  {
    var q := (u % m + a) / m;
    assert u + a == m * (u / m + q) + (u % m + a) % m by {
      assert u == m * (u / m) + u % m;
      assert m * (u / m + q) == m * (u / m) + m * q;
    }
    Remainder(u + a, m, u / m + q, (u % m + a) % m);
  }

  lemma AddModBoth(u: nat, v: nat, m: nat)
    requires m >= 1
    ensures (u % m + v % m) % m == (u + v) % m
  {
    AddMod(u, v % m, m);
    AddMod(v, u, m);
  }

  lemma MulAssoc(a: nat, b: nat, c: nat)
    ensures (a * b) * c == a * (b * c)
  {
  }

  lemma ModMod(v: nat, m: nat, k: nat)
    requires m >= 1 && k >= 1 && m * k >= 1
    ensures v % (m * k) % m == v % m
  {
    var mk := m * k;
    var q, r := v / mk, v % mk;
    var kq: nat := k * q;
    MulAssoc(m, k, q);
    assert v == m * kq + r;
    AddModMultiple(m, kq, r);
  }

  lemma AddModMultiple(m: nat, q: nat, r: nat)
    requires m >= 1
    ensures (m * q + r) % m == r % m
  {
    var q2 := r / m;
    assert m * (q + q2) == m * q + m * q2;
    Remainder(m * q + r, m, q + q2, r % m);
  }

  /** Adding to an encoded word is adding to the value behind it. */
  lemma EncAdd(v: nat, a: nat, k: nat)
    ensures Enc(Val(Enc(v, k)) + a, k) == Enc(v + a, k)
  {
    ValEnc(v, k);
    AddMod(v, a, Pow256(k));
    EncEq(v % Pow256(k) + a, v + a, k);
  }

  lemma RestOfSum(v: nat, a: nat, m: nat)
    requires m >= 1
    ensures ((v + a) % m + (m - v % m)) % m == a % m
  {
    var c: nat := m - v % m;
    var q := v / m;
    AddMod(v + a, c, m);
    assert v == m * q + v % m;
    assert v + a + c == m * (q + 1) + a;
    AddModMultiple(m, q + 1, a);
  }

  /** Adding a constant neither makes nor breaks equality modulo `m`. */
  lemma SameSum(v: nat, a: nat, b: nat, k: nat)
    ensures Same(v + a, v + b, k) <==> Same(a, b, k)
  {
    var m := Pow256(k);
    RestOfSum(v, a, m);
    RestOfSum(v, b, m);
    AddMod(a, v, m);
    AddMod(b, v, m);
  }

  /** Adding `a1` and then `a2` to a word is adding `a3` exactly when the sums agree modulo the word size. */
  lemma AddedTwice(v: nat, a1: nat, a2: nat, a3: nat, k: nat)
    ensures Enc(Val(Enc(v + a1, k)) + a2, k) == Enc(v + a3, k) <==> Same(a1 + a2, a3, k)
  {
    hide Same, Pow256, Enc, Val;
    EncAdd(v + a1, a2, k);
    assert v + a1 + a2 == v + (a1 + a2);
    EncEq(v + (a1 + a2), v + a3, k);
    SameSum(v, a1 + a2, a3, k);
  }

  lemma Pow256Values()
    ensures Pow256(0) == 1 && Pow256(2) == 0x1_0000 && Pow256(4) == 0x1_0000_0000
    ensures Pow256(8) == 0x1_0000_0000_0000_0000
  {
    assert Pow256(4) == 256 * Pow256(3) == 65536 * Pow256(2);
    assert Pow256(8) == 256 * Pow256(7) == 65536 * Pow256(6) == 0x100_0000 * Pow256(5);
  }
}

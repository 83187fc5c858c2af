/** Making parent directories by cutting a path buffer in place (lsvmload/efivfat.c, _AddCwdGrubcfg). */
module ParentDirs {
  import opened Trace

  /** The prefixes that end before a separator among the first `n` characters, shortest first. */
  function SepCuts(s: string, sep: char, n: nat): seq<string>
    requires n <= |s|
  {
    if n == 0 then []
    else SepCuts(s, sep, n - 1) + if n - 1 > 0 && s[n - 1] == sep then [s[..n - 1]] else []
  }

  /** Every path the loop considers: the prefixes at separators, then the whole path unless it ends in one. */
  function Cuts(s: string, sep: char): seq<string> {
    SepCuts(s, sep, |s|) + if |s| > 1 && s[|s| - 1] != sep then [s] else []
  }

  function Without(cuts: seq<string>, skip: seq<string>): seq<string> {
    if cuts == [] then []
    else
      var c := cuts[|cuts| - 1];
      Without(cuts[..|cuts| - 1], skip) + if c in skip then [] else [c]
  }

  lemma NoCuts(s: string, sep: char, skip: seq<string>)
    ensures CutsBefore(s, sep, 0) == [] && Without([], skip) == []
  {
  }

  lemma WithoutSnoc(cuts: seq<string>, c: string, skip: seq<string>)
    ensures Without(cuts + [c], skip) == Without(cuts, skip) + if c in skip then [] else [c]
  {
    assert (cuts + [c])[..|cuts|] == cuts;
  }

  /** What the loop has considered once it stands at position `i`. */
  function CutsBefore(s: string, sep: char, i: nat): seq<string>
    requires i <= |s|
  {
    SepCuts(s, sep, i) + if i == |s| > 1 && s[|s| - 1] != sep then [s] else []
  }

  lemma {:induction false} SepCutsGrow(s: string, sep: char, i: nat, n: nat)
    requires i <= n <= |s|
    ensures SepCuts(s, sep, i) <= SepCuts(s, sep, n)
  {
    if i < n {
      SepCutsGrow(s, sep, i, n - 1);
    }
  }

  lemma CutsGrow(s: string, sep: char, i: nat)
    requires i <= |s|
    ensures CutsBefore(s, sep, i) <= Cuts(s, sep)
  {
    SepCutsGrow(s, sep, i, |s|);
  }

  lemma {:induction false} WithoutGrows(a: seq<string>, b: seq<string>, skip: seq<string>)
    requires a <= b
    ensures Without(a, skip) <= Without(b, skip)
    decreases |b|
  {
    if |a| < |b| {
      WithoutGrows(a, b[..|b| - 1], skip);
    } else {
      assert a == b;
    }
  }

  /** The characters of a C string buffer before its first null character. */
  function CString(a: seq<char>): (s: string)
    ensures |s| <= |a|
  {
    if a == [] || a[0] == '\0' then [] else [a[0]] + CString(a[1..])
  }

  lemma {:induction false} CStringIs(a: seq<char>, n: nat)
    requires n < |a| && a[n] == '\0' && '\0' !in a[..n]
    ensures CString(a) == a[..n]
  {
    if n > 0 {
      assert a[0] == a[..n][0] && a[1..][..n - 1] == a[..n][1..];
      CStringIs(a[1..], n - 1);
    }
  }

  method Contains(value: string, skip: seq<string>) returns (b: bool)
    ensures b == (value in skip)
  {
    for i := 0 to |skip|
      invariant value !in skip[..i]
    {
      if |skip[i]| == |value| && skip[i] == value {
        return true;
      }
    }
    assert skip[..|skip|] == skip;
    b := false;
  }

  /** The buffer holds the path `s` and its terminator. */
  predicate HoldsPath(a: seq<char>, s: string) {
    a == s + ['\0'] && '\0' !in s
  }

  /** The path considered at position `i`: up to a separator there, else the whole path. */
  function CutAt(s: string, sep: char, i: nat): string
    requires i < |s|
  {
    if s[i] == sep then s[..i] else s
  }

  /** The buffer while the loop works at position `i`: a separator there is overwritten by a terminator. */
  function Cut(s: string, sep: char, i: nat): seq<char>
    requires i < |s|
  {
    (if s[i] == sep then s[i := '\0'] else s) + ['\0']
  }

  lemma CutReads(s: string, sep: char, i: nat)
    requires i < |s| && '\0' !in s
    ensures CString(Cut(s, sep, i)) == CutAt(s, sep, i)
  {
    var n := if s[i] == sep then i else |s|;
    assert Cut(s, sep, i)[..n] == s[..n];
    CStringIs(Cut(s, sep, i), n);
  }

  lemma CutsStep(s: string, sep: char, i: nat, skip: seq<string>)
    requires i < |s|
    ensures var cuts, next := CutsBefore(s, sep, i), CutsBefore(s, sep, i + 1);
            if i == 0 || (s[i] != sep && i + 1 < |s|) then next == cuts
            else next == cuts + [CutAt(s, sep, i)]
                 && Without(next, skip) == Without(cuts, skip) + if CutAt(s, sep, i) in skip then [] else [CutAt(s, sep, i)]
  {
    hide Without;
    WithoutSnoc(CutsBefore(s, sep, i), CutAt(s, sep, i), skip);
  }

  lemma SoFar(s: string, sep: char, i: nat, skip: seq<string>)
    requires i <= |s|
    ensures Without(CutsBefore(s, sep, i), skip) <= Without(Cuts(s, sep), skip)
    ensures i == |s| ==> CutsBefore(s, sep, i) == Cuts(s, sep)
  {
    CutsGrow(s, sep, i);
    WithoutGrows(CutsBefore(s, sep, i), Cuts(s, sep), skip);
  }

  /** `made` are the directories VFATMkdir was called for; `rec` records how each of these calls ended. */
  method MakeParents(path: array<char>, sep: char, skip: seq<string>, rec: Recorder, ghost s: string)
    returns (ok: bool, made: seq<string>)
    requires HoldsPath(path[..], s) && sep != '\0'
    modifies path, rec`outcomes
    ensures ok ==> path[..] == old(path[..]) && made == Without(Cuts(s, sep), skip)
    ensures |rec.outcomes| == |old(rec.outcomes)| + |made| && Since(old(rec.outcomes), rec.outcomes, ok)
    ensures !ok ==> made <= Without(Cuts(s, sep), skip) && made != []
    ensures forall x :: |old(rec.outcomes)| <= x < |rec.outcomes| - 1 ==> rec.outcomes[x].ok
  {
    hide CString, CutsBefore, Cuts, Without, CutAt;
    made := [];
    var i := 0;
    NoCuts(s, sep, skip);
    while path[i] != '\0'
      invariant 0 <= i <= |s| && path[..] == s + ['\0']
      invariant made == Without(CutsBefore(s, sep, i), skip)
      invariant |rec.outcomes| == |old(rec.outcomes)| + |made| && Since(old(rec.outcomes), rec.outcomes, true)
      decreases |s| - i
    {
      assert path[i] == path[..][i] && path[i + 1] == path[..][i + 1] && path[i] == s[i];
      CutsStep(s, sep, i, skip);
      if i == 0 || (path[i] != sep && path[i + 1] != '\0') {
        i := i + 1;
        continue;
      }
      if path[i] == sep {
        path[i] := '\0';
      }
      assert path[..] == Cut(s, sep, i);
      CutReads(s, sep, i);
      var dir := CString(path[..]);
      var skipped := Contains(dir, skip);
      if !skipped {
        made := made + [dir];
        ghost var asked := rec.outcomes;
        var created := rec.Ask();
        OneMore(old(rec.outcomes), asked, Device(created));
        if !created {
          SoFar(s, sep, i + 1, skip);
          return false, made;
        }
      }
      if path[i] == '\0' {
        path[i] := sep;
      }
      assert path[..] == s + ['\0'];
      i := i + 1;
    }
    SoFar(s, sep, i, skip);
    ok := true;
  }


  // ----- Absolute paths

  /** The path of the first `n` components, each after a separator. */
  function Joined(cs: seq<string>, sep: char, n: nat): string
    requires n <= |cs|
  {
    if n == 0 then "" else Joined(cs, sep, n - 1) + [sep] + cs[n - 1]
  }

  /** No component is empty or contains the separator. */
  predicate Components(cs: seq<string>, sep: char) {
    forall i :: 0 <= i < |cs| ==> cs[i] != [] && sep !in cs[i]
  }

  /** The ancestors of the path of `n` components, shortest first, the path itself last. */
  function Ancestors(cs: seq<string>, sep: char, n: nat): (r: seq<string>)
    requires n <= |cs|
    ensures |r| == n && forall i :: 0 <= i < n ==> r[i] == Joined(cs, sep, i + 1)
  {
    if n == 0 then [] else Ancestors(cs, sep, n - 1) + [Joined(cs, sep, n)]
  }

  lemma {:induction false} SepCutsPrefix(s: string, t: string, sep: char, n: nat)
    requires n <= |s| <= |t| && t[..|s|] == s
    ensures SepCuts(t, sep, n) == SepCuts(s, sep, n)
  {
    if n > 0 {
      SepCutsPrefix(s, t, sep, n - 1);
      assert t[n - 1] == t[..|s|][n - 1] && t[..n - 1] == t[..|s|][..n - 1];
    }
  }

  lemma {:induction false} NoCutsInside(s: string, sep: char, i: nat, n: nat)
    requires i <= n <= |s| && forall k :: i <= k < n ==> s[k] != sep
    ensures SepCuts(s, sep, n) == SepCuts(s, sep, i)
    decreases n - i
  {
    if i < n {
      NoCutsInside(s, sep, i, n - 1);
    }
  }

  /** On an absolute path the separators cut exactly the proper ancestors. */
  lemma {:induction false} SepCutsAre(cs: seq<string>, sep: char, n: nat)
    requires 1 <= n <= |cs| && Components(cs, sep)
    ensures var s := Joined(cs, sep, n); SepCuts(s, sep, |s|) == Ancestors(cs, sep, n - 1)
  {
    var f, s, c := Joined(cs, sep, n - 1), Joined(cs, sep, n), cs[n - 1];
    assert s == f + [sep] + c;
    NoCutsInside(s, sep, |f| + 1, |s|);
    SepCutsPrefix(f, s, sep, |f|);
    assert s[..|f|] == f;
    if n > 1 {
      SepCutsAre(cs, sep, n - 1);
      assert |f| > 0;
    }
  }

  /** For an absolute path without empty components the loop considers its ancestors and itself, each once. */
  lemma CutsAreAncestors(cs: seq<string>, sep: char)
    requires cs != [] && Components(cs, sep)
    ensures Cuts(Joined(cs, sep, |cs|), sep) == Ancestors(cs, sep, |cs|)
    ensures forall i, j :: 0 <= i < j < |cs| ==>
              |Ancestors(cs, sep, |cs|)[i]| < |Ancestors(cs, sep, |cs|)[j]|
  {
    hide Ancestors, Joined, SepCuts;
    var n, r := |cs|, Ancestors(cs, sep, |cs|);
    SepCutsAre(cs, sep, n);
    LastComponent(cs, sep);
    forall i, j | 0 <= i < j < n ensures |r[i]| < |r[j]| {
      JoinedGrows(cs, sep, i + 1, j + 1);
    }
  }

  lemma LastComponent(cs: seq<string>, sep: char)
    requires cs != [] && Components(cs, sep)
    ensures var s := Joined(cs, sep, |cs|); |s| > 1 && s[|s| - 1] != sep
    ensures Ancestors(cs, sep, |cs|) == Ancestors(cs, sep, |cs| - 1) + [Joined(cs, sep, |cs|)]
  {
    var n := |cs|;
    var s, c := Joined(cs, sep, n), cs[n - 1];
    assert s == Joined(cs, sep, n - 1) + [sep] + c && c != [] && sep !in c;
    assert s[|s| - 1] == c[|c| - 1];
  }

  /** The paths made are those considered and not in the skip list. */
  lemma {:induction false} WithoutIs(cuts: seq<string>, skip: seq<string>, d: string)
    ensures d in Without(cuts, skip) <==> d in cuts && d !in skip
  {
    if cuts != [] {
      WithoutIs(cuts[..|cuts| - 1], skip, d);
      assert cuts == cuts[..|cuts| - 1] + [cuts[|cuts| - 1]];
    }
  }

  /** They are made in the order they are considered: path `i` made is the one considered at `at[i]`. */
  lemma {:induction false} WithoutInOrder(cuts: seq<string>, skip: seq<string>) returns (at: seq<nat>)
    ensures |at| == |Without(cuts, skip)|
    ensures forall i :: 0 <= i < |at| ==> at[i] < |cuts| && Without(cuts, skip)[i] == cuts[at[i]]
    ensures forall i, j :: 0 <= i < j < |at| ==> at[i] < at[j]
  {
    at := [];
    if cuts != [] {
      hide Without;
      var front, c := cuts[..|cuts| - 1], cuts[|cuts| - 1];
      assert cuts == front + [c];
      WithoutSnoc(front, c, skip);
      at := WithoutInOrder(front, skip);
      if c !in skip {
        at := at + [|front|];
      }
    }
  }

  /** `d` is the path of the first one or more components. */
  ghost predicate Leads(cs: seq<string>, sep: char, d: string) {
    exists n: nat :: 1 <= n <= |cs| && d == Joined(cs, sep, n)
  }

  /**
    For an absolute path without empty components the directories made are exactly those of its ancestors and
    itself that are not in the skip list, shortest first and each once.
   */
  lemma MadeAre(cs: seq<string>, sep: char, skip: seq<string>)
    requires cs != [] && Components(cs, sep)
    ensures var made := Without(Cuts(Joined(cs, sep, |cs|), sep), skip);
            && (forall d :: d in made <==> d !in skip && Leads(cs, sep, d))
            && forall i, j :: 0 <= i < j < |made| ==> |made[i]| < |made[j]|
  {
    hide Without, Cuts, Joined;
    var cuts := Cuts(Joined(cs, sep, |cs|), sep);
    var made := Without(cuts, skip);
    CutsAreAncestors(cs, sep);
    var at := WithoutInOrder(cuts, skip);
    forall d ensures d in made <==> d !in skip && Leads(cs, sep, d) {
      WithoutIs(cuts, skip, d);
      if d in cuts {
        var i :| 0 <= i < |cuts| && cuts[i] == d;
        assert d == Joined(cs, sep, i + 1);
      }
      if Leads(cs, sep, d) {
        var n: nat :| 1 <= n <= |cs| && d == Joined(cs, sep, n);
        assert cuts[n - 1] == d;
      }
    }
    forall i, j | 0 <= i < j < |made| ensures |made[i]| < |made[j]| {
      assert at[i] < at[j];
    }
  }

  lemma {:induction false} JoinedGrows(cs: seq<string>, sep: char, i: nat, j: nat)
    requires i < j <= |cs|
    ensures |Joined(cs, sep, i)| < |Joined(cs, sep, j)|
  {
    if i < j - 1 {
      JoinedGrows(cs, sep, i, j - 1);
    }
  }
}

/** What a boot trace says about the cache flag, writes to the boot partition, and PCR 11. */
module BootTrace {
  import opened Trace

  datatype Flag = Never | On | Off

  /**
    The history of a trace prefix: the cache flag, whether ApplyDBXUpdate is running, whether the boot
    partition was written after caching was first enabled, whether the flag was ever lowered, whether
    the discipline below was kept, the operations on PCR 11, and all events but device traffic, in order.
   */
  datatype History = History(
    flag: Flag, inDbx: bool, dirty: bool, lowered: bool, disciplined: bool, pcr: seq<Event>, steps: seq<Event>)

  /**
    The discipline: once caching was enabled, the flag is lowered only inside ApplyDBXUpdate, which is
    entered and left with the flag up, and the child is written only while the flag is down.
   */
  predicate Allowed(h: History, e: Event) {
    && (e.ChildWrite? ==> h.flag != On)
    && (e.SetCaching? ==> e.on || h.inDbx)
    && (e.DbxEnter? ==> h.flag == On && !h.inDbx)
    && (e.DbxLeave? ==> h.flag == On)
  }

  function Next(h: History, e: Event): History {
    History(
      if e.SetCaching? then (if e.on then On else Off) else h.flag,
      e.DbxEnter? || (h.inDbx && !e.DbxLeave?),
      h.dirty || (e.ChildWrite? && h.flag != Never),
      h.lowered || (e.SetCaching? && !e.on),
      h.disciplined && Allowed(h, e),
      if e.Extend? || e.Unseal? || e.Cap? then h.pcr + [e] else h.pcr,
      if e.ChildRead? || e.ChildWrite? then h.steps else h.steps + [e])
  }

  function Of(tr: seq<Event>): History {
    if tr == [] then History(Never, false, false, false, true, [], [])
    else Next(Of(tr[..|tr| - 1]), tr[|tr| - 1])
  }

  lemma Snoc(tr: seq<Event>, e: Event)
    ensures Of(tr + [e]) == Next(Of(tr), e)
  {
    assert (tr + [e])[..|tr|] == tr;
  }

  /** Device traffic: child reads, and child writes only if the flag allows them. */
  ghost predicate IoExtends(tr: seq<Event>, tr': seq<Event>, caching: bool) {
    && tr <= tr'
    && forall i :: |tr| <= i < |tr'| ==> tr'[i].ChildRead? || (!caching && tr'[i].ChildWrite?)
  }

  /** Device traffic leaves everything in the history alone except that writes may make it dirty. */
  lemma {:induction false} IoHistory(tr: seq<Event>, tr': seq<Event>, caching: bool)
    requires IoExtends(tr, tr', caching) && caching == (Of(tr).flag == On)
    ensures Of(tr') == Of(tr).(dirty := Of(tr').dirty)
    ensures caching || Of(tr).flag == Never ==> Of(tr') == Of(tr)
    decreases |tr'|
  {
    if |tr| < |tr'| {
      var front := tr'[..|tr'| - 1];
      assert tr <= front;
      IoHistory(tr, front, caching);
    } else {
      assert tr' == tr;
    }
  }

  // ----- What the history means, position by position

  /** The value of the flag is that of the last flag change. */
  lemma {:induction false} FlagMeans(tr: seq<Event>)
    ensures Of(tr).flag == Never ==> forall k :: 0 <= k < |tr| ==> !tr[k].SetCaching?
    ensures Of(tr).flag != Never ==>
              exists w :: 0 <= w < |tr| && tr[w] == SetCaching(Of(tr).flag == On) && NoFlagChange(tr, w + 1)
  {
    if tr != [] {
      var n := |tr| - 1;
      var front := tr[..n];
      FlagMeans(front);
      if tr[n].SetCaching? {
        assert NoFlagChange(tr, n + 1);
      } else if Of(tr).flag != Never {
        var w :| 0 <= w < |front| && front[w] == SetCaching(Of(front).flag == On) && NoFlagChange(front, w + 1);
        assert tr[w] == front[w] && NoFlagChange(tr, w + 1);
      }
    }
  }

  /** The steps are the events of the trace that are not device traffic, in the trace's order: step `i` stands at `at[i]`. */
  lemma {:induction false} StepsMean(tr: seq<Event>) returns (at: seq<nat>)
    ensures |at| == |Of(tr).steps| && forall i :: 0 <= i < |at| ==> at[i] < |tr| && tr[at[i]] == Of(tr).steps[i]
    ensures forall i, j :: 0 <= i < j < |at| ==> at[i] < at[j]
    ensures forall k :: 0 <= k < |tr| && !tr[k].ChildRead? && !tr[k].ChildWrite? ==> k in at
  {
    at := [];
    if tr != [] {
      var n := |tr| - 1;
      var front := tr[..n];
      at := StepsMean(front);
      if !tr[n].ChildRead? && !tr[n].ChildWrite? {
        at := at + [n];
      }
      forall k | 0 <= k < |tr| && !tr[k].ChildRead? && !tr[k].ChildWrite? ensures k in at {
        assert k < n ==> tr[k] == front[k];
      }
    }
  }

  ghost predicate NoFlagChange(tr: seq<Event>, from: nat) {
    forall k :: from <= k < |tr| ==> !tr[k].SetCaching?
  }

  /** Between two positions ApplyDBXUpdate was entered and not left. */
  ghost predicate DbxOpenAt(tr: seq<Event>, d: nat) {
    d < |tr| && tr[d] == DbxEnter && forall k :: d < k < |tr| ==> tr[k] != DbxLeave
  }

  /** In a disciplined trace a lowered flag was lowered inside the ApplyDBXUpdate that is still running. */
  lemma {:induction false} WindowMeans(tr: seq<Event>) returns (d: nat, w: nat)
    requires Of(tr).disciplined
    ensures Of(tr).inDbx ==> DbxOpenAt(tr, d)
    ensures Of(tr).flag == Off ==> Of(tr).inDbx && d < w < |tr| && tr[w] == SetCaching(false) && NoFlagChange(tr, w + 1)
  {
    d, w := 0, 0;
    if tr != [] {
      var n := |tr| - 1;
      var front := tr[..n];
      d, w := WindowMeans(front);
      if tr[n] == DbxEnter {
        d := n;
      } else if tr[n] == SetCaching(false) {
        w := n;
        assert NoFlagChange(tr, w + 1);
      } else if Of(tr).flag == Off {
        assert tr[w] == front[w] && NoFlagChange(tr, w + 1);
      }
    }
  }

  lemma {:induction false} PrefixDisciplined(tr: seq<Event>, i: nat)
    requires Of(tr).disciplined && i < |tr|
    ensures Of(tr[..i]).disciplined && Allowed(Of(tr[..i]), tr[i])
  {
    if i < |tr| - 1 {
      PrefixDisciplined(tr[..|tr| - 1], i);
      assert tr[..|tr| - 1][..i] == tr[..i];
    }
  }

  /** A lowered flag that is up at the end was raised in between, before ApplyDBXUpdate returned. */
  lemma {:induction false} WindowCloses(tr: seq<Event>, i: nat) returns (u: nat)
    requires Of(tr).disciplined && i <= |tr| && Of(tr[..i]).flag == Off && Of(tr).flag != Off
    ensures i <= u < |tr| && tr[u] == SetCaching(true)
    ensures forall k :: i <= k < u ==> tr[k] != DbxLeave && !(tr[k].SetCaching? && tr[k].on)
    decreases |tr| - i
  {
    assert tr[..|tr|] == tr;
    u := i;
    if i < |tr| {
      PrefixDisciplined(tr, i);
      assert tr[..i + 1] == tr[..i] + [tr[i]];
      Snoc(tr[..i], tr[i]);
      if tr[i] != SetCaching(true) {
        u := WindowCloses(tr, i + 1);
      }
    }
  }

  /**
    In a disciplined trace, every child write after caching was enabled lies between the lowering and
    the raising of the flag inside one run of ApplyDBXUpdate: entered at `d`, lowered at `w`, and, unless
    the trace ends with the flag down, raised at `u` before the return.
   */
  lemma ChildWriteInWindow(tr: seq<Event>, i: nat) returns (d: nat, w: nat, u: nat)
    requires Of(tr).disciplined && i < |tr| && tr[i].ChildWrite? && SetCaching(true) in tr[..i]
    ensures d < w < i && tr[d] == DbxEnter && tr[w] == SetCaching(false)
    ensures forall k :: d < k < i ==> tr[k] != DbxLeave && (w < k ==> !tr[k].SetCaching?)
    ensures Of(tr).flag != Off ==>
              && i < u < |tr| && tr[u] == SetCaching(true)
              && forall k :: i < k < u ==> tr[k] != DbxLeave && !(tr[k].SetCaching? && tr[k].on)
  {
    PrefixDisciplined(tr, i);
    FlagMeans(tr[..i]);
    d, w := WindowMeans(tr[..i]);
    u := 0;
    forall k | d < k < i ensures tr[k] != DbxLeave && (w < k ==> !tr[k].SetCaching?) {
      assert tr[..i][k] == tr[k];
    }
    if Of(tr).flag != Off {
      u := WindowCloses(tr, i);
    }
  }

  /** Every return from ApplyDBXUpdate leaves caching enabled. */
  lemma DbxLeavesCachingOn(tr: seq<Event>, i: nat) returns (w: nat)
    requires Of(tr).disciplined && i < |tr| && tr[i] == DbxLeave
    ensures w < i && tr[w] == SetCaching(true) && NoFlagChange(tr[..i], w + 1)
  {
    PrefixDisciplined(tr, i);
    FlagMeans(tr[..i]);
    w :| 0 <= w < i && tr[..i][w] == SetCaching(true) && NoFlagChange(tr[..i], w + 1);
  }

  /** The history is dirty exactly when the child was written after caching was enabled. */
  lemma {:induction false} DirtyMeans(tr: seq<Event>)
    requires Of(tr).disciplined
    ensures Of(tr).dirty <==> exists e, i :: 0 <= e < i < |tr| && tr[e] == SetCaching(true) && tr[i].ChildWrite?
  {
    if tr != [] {
      var n := |tr| - 1;
      var front := tr[..n];
      DirtyMeans(front);
      FlagMeans(front);
      if Of(front).dirty {
        var e, i :| 0 <= e < i < |front| && front[e] == SetCaching(true) && front[i].ChildWrite?;
        assert tr[e] == SetCaching(true) && tr[i].ChildWrite?;
      } else if Of(tr).dirty {
        EnabledBefore(front);
        var e :| 0 <= e < n && front[e] == SetCaching(true);
        assert tr[e] == SetCaching(true) && tr[n].ChildWrite?;
      } else {
        forall e, i | 0 <= e < i < |tr| ensures !(tr[e] == SetCaching(true) && tr[i].ChildWrite?) {
          assert tr[e] == front[e] && (i < n ==> tr[i] == front[i]);
        }
      }
    }
  }

  /** In a disciplined trace the flag is first set by being raised. */
  lemma {:induction false} EnabledBefore(tr: seq<Event>)
    requires Of(tr).disciplined
    ensures Of(tr).flag != Never ==> SetCaching(true) in tr
    ensures Of(tr).inDbx ==> SetCaching(true) in tr
  {
    if tr != [] {
      var front := tr[..|tr| - 1];
      EnabledBefore(front);
      assert tr == front + [tr[|tr| - 1]];
    }
  }
}

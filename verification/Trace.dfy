/** The observable events of a boot: device calls, cache flag changes, operations on PCR 11, and the main steps. */
module Trace {
  import opened Bytes

  datatype Event =
    | ChildRead(blkno: nat, nblocks: nat)
    | ChildWrite(blkno: nat, nblocks: nat)
    | SetCaching(on: bool)
    | Extend(value: seq<byte>)
    | Unseal(attempted: bool)
    | Cap
    | OpenBoot(withUnsealedKey: bool)
    | DbxEnter
    | DbxLeave
    | PatchInitrd(inject: bool)
    | StartShim

  /** How a device call or an allocation ended. */
  datatype Outcome = Device(ok: bool) | Memory(ok: bool)

  /** The outcomes grew, and `ok` says whether all the new ones are good. */
  ghost predicate Since(before: seq<Outcome>, now: seq<Outcome>, ok: bool) {
    before <= now && (ok <==> forall x :: |before| <= x < |now| ==> now[x].ok)
  }

  lemma SinceThen(a: seq<Outcome>, b: seq<Outcome>, c: seq<Outcome>, ok: bool)
    requires Since(a, b, true) && Since(b, c, ok)
    ensures Since(a, c, ok)
  {
  }

  lemma OneMore(a: seq<Outcome>, b: seq<Outcome>, o: Outcome)
    requires Since(a, b, true)
    ensures Since(a, b + [o], o.ok)
    ensures DevicesOnly(a, b) && o.Device? ==> DevicesOnly(a, b + [o])
    ensures MemoryOnly(a, b) && o.Memory? ==> MemoryOnly(a, b + [o])
  {
    assert (b + [o])[|b|] == o;
  }

  lemma NothingSince(os: seq<Outcome>)
    ensures Since(os, os, true) && DevicesOnly(os, os) && MemoryOnly(os, os)
  {
  }

  /** Only device calls were made. */
  ghost predicate DevicesOnly(before: seq<Outcome>, now: seq<Outcome>) {
    before <= now && forall x :: |before| <= x < |now| ==> now[x].Device?
  }

  /** Only memory was asked for. */
  ghost predicate MemoryOnly(before: seq<Outcome>, now: seq<Outcome>) {
    before <= now && forall x :: |before| <= x < |now| ==> now[x].Memory?
  }

  class Recorder {
    var events: seq<Event>
    var outcomes: seq<Outcome>

    constructor ()
      ensures events == [] && outcomes == []
    {
      events, outcomes := [], [];
    }

    method Note(o: Outcome)
      modifies this`outcomes
      ensures outcomes == old(outcomes) + [o]
    {
      outcomes := outcomes + [o];
    }

    /** Asking for memory. */
    method Alloc() returns (ok: bool)
      modifies this`outcomes
      ensures outcomes == old(outcomes) + [Memory(ok)]
    {
      ok := *;
      Note(Memory(ok));
    }

    /** A firmware, TPM or file-system call whose answer is free. */
    method Ask() returns (ok: bool)
      modifies this`outcomes
      ensures outcomes == old(outcomes) + [Device(ok)]
    {
      ok := *;
      Note(Device(ok));
    }

    method Log(e: Event)
      modifies this`events
      ensures events == old(events) + [e]
    {
      events := events + [e];
    }
  }
}

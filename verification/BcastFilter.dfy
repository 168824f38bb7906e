// Restart protection and the duplicate filter for broadcast packets
// (routing.c).

module Timeout {
  // batadv_has_timed_out
  predicate HasTimedOut(timestamp: int, timeout: int, now: int) {
    now > timestamp + timeout
  }
}

module ResetProtection {
  import opened Bitarray
  import opened Timeout

  // Times are in milliseconds: one jiffy is taken to be one millisecond.
  const RESET_PROTECTION_MS := 30000

  // The difference looks like a restart of the sender.
  predicate LooksRestarted(diff: int, maxAge: int) {
    diff <= -maxAge || diff >= SEQNO_RANGE
  }

  // Until when a restart is not believed: 30 seconds after the last one; when
  // there was none yet, until just before the record was created.
  function ProtectedUntil(resets: seq<int>, created: int): int {
    if resets == [] then created - 1 else resets[|resets| - 1] + RESET_PROTECTION_MS
  }

  ghost predicate ResetsSpaced(resets: seq<int>) {
    forall j, k :: 0 <= j < k < |resets| ==> resets[k] - resets[j] > RESET_PROTECTION_MS
  }

  lemma NextReset(resets: seq<int>, created: int, now: int)
    requires ResetsSpaced(resets) && now > ProtectedUntil(resets, created)
    ensures ResetsSpaced(resets + [now])
  {
    var n := |resets|;
    forall j, k | 0 <= j < k < n + 1
      ensures (resets + [now])[k] - (resets + [now])[j] > RESET_PROTECTION_MS
    {
      assert k < n || j == n - 1 || resets[n - 1] - resets[j] > RESET_PROTECTION_MS;
    }
  }

  // batadv_window_protected; lastReset and started stand for the two values
  // the caller passes by reference.
  method WindowProtected(diff: int, maxAge: int, lastReset: int, started: bool, now: int)
    returns (ignore: bool, lastReset': int, started': bool)
    ensures ignore <==> LooksRestarted(diff, maxAge) && now <= lastReset + RESET_PROTECTION_MS
    ensures lastReset' == if LooksRestarted(diff, maxAge) && !ignore then now else lastReset
    ensures started' <==> started || (LooksRestarted(diff, maxAge) && !ignore)
  {
    ignore, lastReset', started' := false, lastReset, started;
    if diff <= -maxAge || diff >= SEQNO_RANGE {
      if !HasTimedOut(lastReset, RESET_PROTECTION_MS, now) {
        ignore := true;
        return;
      }
      lastReset' := now;
      started' := true;
    }
  }
}

module BcastFilter {
  import opened SeqNo
  import opened Bitarray
  import opened ResetProtection
  import opened Timeout

  const BCAST_MAX_AGE := 64

  // The broadcast fields of one originator.
  datatype Filter = Filter(bits: Bits, last: u32, reset: int)

  datatype Arrival = Arrival(seqno: u32, now: int)

  function Fresh(created: int): Filter {
    Filter(ZERO, 0, created - 1 - RESET_PROTECTION_MS)
  }

  // One broadcast packet: the new state, and whether the packet is accepted.
  function Step(f: Filter, a: Arrival): (Filter, bool) {
    var diff := Signed(a.seqno - f.last);
    if TestBit(f.bits, f.last, a.seqno) then (f, false)
    else if LooksRestarted(diff, BCAST_MAX_AGE) && !HasTimedOut(f.reset, RESET_PROTECTION_MS, a.now) then (f, false)
    else
      (Filter(GetPacket(f.bits, diff, true),
              if Moves(diff) then a.seqno else f.last,
              if LooksRestarted(diff, BCAST_MAX_AGE) then a.now else f.reset), true)
  }

  class Originator {
    const bcastBits: array<bool>
    var lastBcastSeqno: u32
    var bcastSeqnoReset: int

    ghost predicate Valid()
      reads this
    {
      bcastBits.Length == WINDOW
    }

    ghost function View(): Filter
      reads this, bcastBits
      requires Valid()
    {
      Filter(bcastBits[..], lastBcastSeqno, bcastSeqnoReset)
    }

    constructor (now: int)
      ensures Valid() && fresh(bcastBits)
      ensures View() == Fresh(now)
    {
      bcastBits := new bool[WINDOW](i => false);
      lastBcastSeqno := 0;
      bcastSeqnoReset := now - 1 - RESET_PROTECTION_MS;
      new;
      assert bcastBits[..] == ZERO;
    }

    // The part of batadv_recv_bcast_packet under bcast_seqno_lock.
    method Receive(seqno: u32, now: int) returns (accepted: bool)
      requires Valid()
      modifies this, bcastBits
      ensures Valid()
      ensures (View(), accepted) == Step(old(View()), Arrival(seqno, now))
    {
      hide TestBit, GetPacket, Signed, Moves;
      if TestBit(bcastBits[..], lastBcastSeqno, seqno) {
        return false;
      }
      var seqDiff := Signed(seqno - lastBcastSeqno);
      var ignore, reset, _ := WindowProtected(seqDiff, BCAST_MAX_AGE, bcastSeqnoReset, false, now);
      bcastSeqnoReset := reset;
      if ignore {
        return false;
      }
      var moved := ReceivePacket(bcastBits, seqDiff, true);
      if moved {
        lastBcastSeqno := seqno;
      }
      return true;
    }
  }

  // ----- Runs -----

  // An accepted broadcast: its epoch (the number of resets so far), its
  // position, its number and the newest position just before it was accepted.
  datatype Accepted = Accepted(epoch: nat, pos: int, seqno: u32, before: int)

  datatype Trace = Trace(f: Filter, epoch: nat, top: int, log: seq<Accepted>, resets: seq<int>)

  ghost function Extend(t: Trace, a: Arrival): Trace {
    var (f', ok) := Step(t.f, a);
    var diff := Signed(a.seqno - t.f.last);
    if !ok then t.(f := f')
    else if InRange(diff) then
      Trace(f', t.epoch, NewTop(t.top, diff), t.log + [Accepted(t.epoch, t.top + diff, a.seqno, t.top)], t.resets)
    else
      Trace(f', t.epoch + 1, t.top + diff, t.log + [Accepted(t.epoch + 1, t.top + diff, a.seqno, t.top)],
            t.resets + [a.now])
  }

  // The run of the filter over the arrivals, from the creation of the originator.
  ghost function Replay(created: int, arrivals: seq<Arrival>): Trace {
    if arrivals == [] then Trace(Fresh(created), 0, 0, [], [])
    else Extend(Replay(created, arrivals[..|arrivals| - 1]), arrivals[|arrivals| - 1])
  }

  // The positions accepted in the current epoch.
  ghost function Seen(t: Trace): set<int> {
    set k | 0 <= k < |t.log| && t.log[k].epoch == t.epoch :: t.log[k].pos
  }

  ghost predicate LogOrdered(log: seq<Accepted>, epoch: nat) {
    && (forall k :: 0 <= k < |log| ==> log[k].epoch <= epoch && log[k].seqno == Wrap(log[k].pos))
    && (forall j, k :: 0 <= j < k < |log| && log[j].epoch == log[k].epoch ==>
          log[j].pos <= log[k].before && log[j].pos != log[k].pos && InRange(log[k].pos - log[k].before))
  }

  ghost predicate Inv(t: Trace, created: int) {
    && Wrap(t.top) == t.f.last
    && Tracks(t.f.bits, t.top, Seen(t))
    && UpTo(t.top, Seen(t))
    && LogOrdered(t.log, t.epoch)
    && ResetsSpaced(t.resets)
    && t.epoch == |t.resets|
    && t.f.reset + RESET_PROTECTION_MS == ProtectedUntil(t.resets, created)
  }

  lemma SeenByLog(t: Trace, p: int)
    ensures p in Seen(t) <==> exists k :: 0 <= k < |t.log| && t.log[k].epoch == t.epoch && t.log[k].pos == p
  {
  }

  lemma SeenAppended(t: Trace, t': Trace, entry: Accepted)
    requires t'.log == t.log + [entry] && t'.epoch == entry.epoch
    requires forall k :: 0 <= k < |t.log| ==> t.log[k].epoch <= t.epoch
    requires entry.epoch == t.epoch || entry.epoch == t.epoch + 1
    ensures Seen(t') == (if entry.epoch == t.epoch then Seen(t) else {}) + {entry.pos}
  {
    var old' := if entry.epoch == t.epoch then Seen(t) else {};
    forall p
      ensures p in Seen(t') <==> p in old' + {entry.pos}
    {
      if p in Seen(t') {
        var k :| 0 <= k < |t'.log| && t'.log[k].epoch == t'.epoch && t'.log[k].pos == p;
        assert k < |t.log| ==> t.log[k] == t'.log[k];
      }
      if p in old' {
        var k :| 0 <= k < |t.log| && t.log[k].epoch == t.epoch && t.log[k].pos == p;
        assert t'.log[k] == t.log[k];
      }
      assert t'.log[|t.log|] == entry;
    }
  }

  lemma LogAppended(log: seq<Accepted>, epoch: nat, entry: Accepted)
    requires LogOrdered(log, epoch)
    requires entry.epoch >= epoch && entry.seqno == Wrap(entry.pos)
    requires forall k :: 0 <= k < |log| && log[k].epoch == entry.epoch ==>
               log[k].pos <= entry.before && log[k].pos != entry.pos && InRange(entry.pos - entry.before)
    ensures LogOrdered(log + [entry], entry.epoch)
  {
  }

  // One step inside the range, against the set of positions seen so far.
  lemma StepInRange(f: Filter, top: int, seen: set<int>, a: Arrival)
    requires f.last == Wrap(top) && Tracks(f.bits, top, seen) && UpTo(top, seen)
    requires InRange(Signed(a.seqno - f.last))
    ensures var pos := top + Signed(a.seqno - f.last);
            var top' := NewTop(top, Signed(a.seqno - f.last));
            var (f', ok) := Step(f, a);
            && a.seqno == Wrap(pos)
            && (ok <==> pos !in seen)
            && (ok ==> && f'.last == Wrap(top') && f'.reset == f.reset
                       && Tracks(f'.bits, top', seen + {pos}) && UpTo(top', seen + {pos}))
  {
    Unwrap(top, a.seqno);
    TestBitIsSeen(f.bits, top, seen, a.seqno);
    GetPacketTracks(f.bits, top, seen, Signed(a.seqno - f.last), true);
    hide TestBit, GetPacket, Tracks, UpTo, Signed, Wrap;
  }

  // One step outside the range.
  lemma StepRestart(f: Filter, top: int, a: Arrival)
    requires f.last == Wrap(top)
    requires !InRange(Signed(a.seqno - f.last))
    ensures var pos := top + Signed(a.seqno - f.last);
            var (f', ok) := Step(f, a);
            && a.seqno == Wrap(pos)
            && (ok <==> a.now > f.reset + RESET_PROTECTION_MS)
            && (ok ==> f'.last == Wrap(pos) && f'.reset == a.now && Tracks(f'.bits, pos, {pos}))
  {
    Unwrap(top, a.seqno);
    TestBitOutOfRange(f.bits, f.last, a.seqno);
    GetPacketRestarts(f.bits, top, Signed(a.seqno - f.last), true);
  }

  lemma ExtendInRange(t: Trace, a: Arrival, created: int)
    requires Inv(t, created) && InRange(Signed(a.seqno - t.f.last)) && Step(t.f, a).1
    ensures Inv(Extend(t, a), created)
  {
    hide Step, Signed, Wrap;
    StepInRange(t.f, t.top, Seen(t), a);
    var pos := t.top + Signed(a.seqno - t.f.last);
    var entry := Accepted(t.epoch, pos, a.seqno, t.top);
    forall j | 0 <= j < |t.log| && t.log[j].epoch == t.epoch
      ensures t.log[j].pos <= t.top && t.log[j].pos != pos
    {
      assert t.log[j].pos in Seen(t);
    }
    LogAppended(t.log, t.epoch, entry);
    SeenAppended(t, Extend(t, a), entry);
  }

  lemma ExtendRestart(t: Trace, a: Arrival, created: int)
    requires Inv(t, created) && !InRange(Signed(a.seqno - t.f.last)) && Step(t.f, a).1
    ensures Inv(Extend(t, a), created)
  {
    hide Step, Signed, Wrap;
    StepRestart(t.f, t.top, a);
    var entry := Accepted(t.epoch + 1, t.top + Signed(a.seqno - t.f.last), a.seqno, t.top);
    LogAppended(t.log, t.epoch, entry);
    SeenAppended(t, Extend(t, a), entry);
  }

  lemma {:induction false} RunInv(created: int, arrivals: seq<Arrival>)
    ensures Inv(Replay(created, arrivals), created)
  {
    if arrivals == [] {
      assert Seen(Replay(created, arrivals)) == {};
    } else {
      RunInv(created, arrivals[..|arrivals| - 1]);
      var t, a := Replay(created, arrivals[..|arrivals| - 1]), arrivals[|arrivals| - 1];
      if Step(t.f, a).1 {
        if InRange(Signed(a.seqno - t.f.last)) {
          ExtendInRange(t, a, created);
        } else {
          ExtendRestart(t, a, created);
        }
      }
    }
  }

  // Bit i of the bitmap is set exactly when the i-th position behind the last
  // sequence number was accepted in the current epoch.
  lemma BitmapIsEpochHistory(created: int, arrivals: seq<Arrival>, i: nat)
    requires i < WINDOW
    ensures var t := Replay(created, arrivals);
            && Wrap(t.top) == t.f.last
            && (t.f.bits[i] <==> exists k :: 0 <= k < |t.log| && t.log[k].epoch == t.epoch && t.log[k].pos == t.top - i)
  {
    RunInv(created, arrivals);
    hide Replay, Seen, Wrap, LogOrdered, ResetsSpaced;
    var t := Replay(created, arrivals);
    SeenByLog(t, t.top - i);
  }

  // No position is accepted twice within an epoch, in any run.
  lemma NeverAcceptedTwice(created: int, arrivals: seq<Arrival>, j: nat, k: nat)
    requires j < k < |Replay(created, arrivals).log|
    ensures var log := Replay(created, arrivals).log;
            log[j].epoch == log[k].epoch ==> log[j].pos != log[k].pos
  {
    RunInv(created, arrivals);
  }

  // A sequence number recurs within an epoch only after the newest position
  // has moved more than 2^32 - 65536 beyond its first use.
  lemma NumberRecursOnlyAfterWrap(created: int, arrivals: seq<Arrival>, j: nat, k: nat)
    requires j < k < |Replay(created, arrivals).log|
    ensures var log := Replay(created, arrivals).log;
            log[j].epoch == log[k].epoch && log[j].seqno == log[k].seqno ==>
              log[k].before - log[j].pos > TWO_TO_32 - SEQNO_RANGE
  {
    RunInv(created, arrivals);
    var log := Replay(created, arrivals).log;
    if log[j].epoch == log[k].epoch && log[j].seqno == log[k].seqno {
      if log[j].pos < log[k].pos {
        SameNumberFarApart(log[j].pos, log[k].pos);
      } else {
        SameNumberFarApart(log[k].pos, log[j].pos);
      }
    }
  }

  // Any two resets are more than the protection time apart, and there is one
  // epoch per reset.
  lemma ResetsFarApart(created: int, arrivals: seq<Arrival>, j: nat, k: nat)
    requires j < k < |Replay(created, arrivals).resets|
    ensures var t := Replay(created, arrivals);
            && t.resets[k] - t.resets[j] > RESET_PROTECTION_MS
            && t.epoch == |t.resets|
  {
    RunInv(created, arrivals);
  }

  // When exactly a broadcast is accepted, in terms of the history: inside the
  // range when its position is new to the epoch, outside it when the last
  // reset is older than the protection time.
  lemma AcceptedExactly(created: int, arrivals: seq<Arrival>, a: Arrival)
    ensures var t := Replay(created, arrivals);
            var diff := Signed(a.seqno - t.f.last);
            Step(t.f, a).1 <==>
              if InRange(diff) then
                !exists k :: 0 <= k < |t.log| && t.log[k].epoch == t.epoch && t.log[k].pos == t.top + diff
              else
                a.now > ProtectedUntil(t.resets, created)
  {
    hide Step, Signed, Wrap;
    RunInv(created, arrivals);
    var t := Replay(created, arrivals);
    if InRange(Signed(a.seqno - t.f.last)) {
      StepInRange(t.f, t.top, Seen(t), a);
    } else {
      StepRestart(t.f, t.top, a);
    }
    SeenByLog(t, t.top + Signed(a.seqno - t.f.last));
  }
}

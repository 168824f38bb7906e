// B.A.T.M.A.N. IV: the sequence-number windows of an originator's neighbours,
// for one outgoing interface (batadv_iv_ogm_update_seqnos in bat_iv_ogm.c).

module OgmIvWindow {
  import opened SeqNo
  import opened Bitarray
  import opened ResetProtection
  import opened Timeout

  datatype DupStatus = NoDup | OrigDup | NeighDup | Protected

  // A neighbour: the address and interface it is heard on, the OGMs of the
  // originator received through it, and how many of them are in the window.
  datatype Neigh = Neigh(addr: nat, ifIncoming: nat, realBits: Bits, realPacketCount: nat) {
    predicate Is(src: nat, iface: nat) {
      addr == src && ifIncoming == iface
    }
  }

  datatype Ogm = Ogm(seqno: u32, src: nat, iface: nat, now: int)

  datatype State = State(neighs: seq<Neigh>, last: u32, reset: int)

  function Receive(n: Neigh, ogm: Ogm, diff: int): Neigh {
    var bits := GetPacket(n.realBits, diff, n.Is(ogm.src, ogm.iface));
    n.(realBits := bits, realPacketCount := Weight(bits))
  }

  function ReceiveAll(ns: seq<Neigh>, ogm: Ogm, diff: int): (r: seq<Neigh>)
    ensures |r| == |ns| && forall k :: 0 <= k < |ns| ==> r[k] == Receive(ns[k], ogm, diff)
  {
    if ns == [] then [] else ReceiveAll(ns[..|ns| - 1], ogm, diff) + [Receive(ns[|ns| - 1], ogm, diff)]
  }

  // The duplicate status, by what the neighbours have received.
  function Duplicate(neighs: seq<Neigh>, last: u32, ogm: Ogm): DupStatus {
    if exists n :: n in neighs && n.Is(ogm.src, ogm.iface) && TestBit(n.realBits, last, ogm.seqno) then NeighDup
    else if exists n :: n in neighs && TestBit(n.realBits, last, ogm.seqno) then OrigDup
    else NoDup
  }

  predicate Refuses(s: State, ogm: Ogm) {
    && s.neighs != []
    && LooksRestarted(Signed(ogm.seqno - s.last), WINDOW)
    && !HasTimedOut(s.reset, RESET_PROTECTION_MS, ogm.now)
  }

  function Step(s: State, ogm: Ogm): (State, DupStatus) {
    var diff := Signed(ogm.seqno - s.last);
    if Refuses(s, ogm) then (s, Protected)
    else
      (State(ReceiveAll(s.neighs, ogm, diff),
             if s.neighs != [] && Moves(diff) then ogm.seqno else s.last,
             if s.neighs != [] && LooksRestarted(diff, WINDOW) then ogm.now else s.reset),
       Duplicate(s.neighs, s.last, ogm))
  }

  // The status does not depend on the order of the neighbour list.
  lemma DuplicateIgnoresOrder(a: seq<Neigh>, b: seq<Neigh>, last: u32, ogm: Ogm)
    requires multiset(a) == multiset(b)
    ensures Duplicate(a, last, ogm) == Duplicate(b, last, ogm)
  {
    forall n
      ensures n in a <==> n in b
    {
      assert n in a <==> n in multiset(a);
    }
  }

  // The neighbour list after batadv_neigh_node_new.
  function Listed(ns: seq<Neigh>, addr: nat, iface: nat): seq<Neigh> {
    if exists n :: n in ns && n.Is(addr, iface) then ns else [Neigh(addr, iface, ZERO, 0)] + ns
  }

  lemma NoneIsNoDup(last: u32, ogm: Ogm)
    ensures Duplicate([], last, ogm) == NoDup
  {
  }

  lemma DuplicateAppend(ns: seq<Neigh>, n: Neigh, last: u32, ogm: Ogm)
    ensures var isDup := TestBit(n.realBits, last, ogm.seqno);
            Duplicate(ns + [n], last, ogm) ==
              if n.Is(ogm.src, ogm.iface) && isDup then NeighDup
              else if isDup && Duplicate(ns, last, ogm) != NeighDup then OrigDup
              else Duplicate(ns, last, ogm)
  {
  }

  class NeighNode {
    const addr: nat
    const ifIncoming: nat
    const realBits: array<bool>
    var realPacketCount: nat

    constructor (addr: nat, ifIncoming: nat)
      ensures this.addr == addr && this.ifIncoming == ifIncoming
      ensures fresh(realBits) && realBits.Length == WINDOW && realBits[..] == ZERO && realPacketCount == 0
    {
      this.addr, this.ifIncoming := addr, ifIncoming;
      realBits := new bool[WINDOW](i => false);
      realPacketCount := 0;
      new;
      assert realBits[..] == ZERO;
    }

    ghost function View(): Neigh
      reads this, realBits
      requires realBits.Length == WINDOW
    {
      Neigh(addr, ifIncoming, realBits[..], realPacketCount)
    }

    // The body of the loop over the neighbour list.
    method ReceiveOgm(ogm: Ogm, last: u32, diff: int) returns (isDup: bool, mine: bool, moved: bool)
      requires realBits.Length == WINDOW
      modifies this`realPacketCount, realBits
      ensures View() == Receive(old(View()), ogm, diff)
      ensures isDup <==> TestBit(old(View()).realBits, last, ogm.seqno)
      ensures mine <==> old(View()).Is(ogm.src, ogm.iface)
      ensures moved <==> Moves(diff)
    {
      isDup := TestBit(realBits[..], last, ogm.seqno);
      mine := addr == ogm.src && ifIncoming == ogm.iface;
      moved := ReceivePacket(realBits, diff, mine);
      realPacketCount := Weight(realBits[..]);
    }
  }

  class OrigIfinfo {
    var neighs: seq<NeighNode>
    var lastRealSeqno: u32
    var batmanSeqnoReset: int
    ghost var contents: seq<Neigh>  // the values of the nodes in neighs

    constructor (now: int)
      ensures Valid() && neighs == [] && View() == State([], 0, now - 1 - RESET_PROTECTION_MS)
    {
      neighs, contents := [], [];
      lastRealSeqno := 0;
      batmanSeqnoReset := now - 1 - RESET_PROTECTION_MS;
    }

    // batadv_neigh_node_new: a neighbour that is not yet known comes first in
    // the list, with an empty window.
    method AddNeigh(addr: nat, ifIncoming: nat)
      requires Valid()
      modifies this`neighs, this`contents
      ensures Valid()
      ensures View() == old(View()).(neighs := Listed(old(contents), addr, ifIncoming))
    {
      var i := 0;
      while i < |neighs|
        invariant 0 <= i <= |neighs|
        invariant forall k :: 0 <= k < i ==> !contents[k].Is(addr, ifIncoming)
      {
        if neighs[i].addr == addr && neighs[i].ifIncoming == ifIncoming {
          assert contents[i].Is(addr, ifIncoming);
          return;
        }
        i := i + 1;
      }
      var n := new NeighNode(addr, ifIncoming);
      neighs := [n] + neighs;
      contents := [Neigh(addr, ifIncoming, ZERO, 0)] + contents;
    }

    ghost predicate Valid()
      reads this, neighs, Bitmaps()
    {
      && |contents| == |neighs|
      && (forall k :: 0 <= k < |neighs| ==> neighs[k].realBits.Length == WINDOW && neighs[k].View() == contents[k])
      && (forall j, k :: 0 <= j < k < |neighs| ==> neighs[j] != neighs[k] && neighs[j].realBits != neighs[k].realBits)
    }

    ghost function Bitmaps(): set<object>
      reads this`neighs
    {
      set k | 0 <= k < |neighs| :: neighs[k].realBits
    }

    ghost function View(): State
      reads this
    {
      State(contents, lastRealSeqno, batmanSeqnoReset)
    }

    // The neighbour at index i receives the OGM; the others are untouched.
    method ReceiveAt(i: nat, ogm: Ogm, seqDiff: int) returns (isDup: bool, mine: bool, moved: bool)
      requires Valid() && i < |neighs|
      modifies this`contents, neighs, Bitmaps()
      ensures Valid()
      ensures contents == old(contents)[i := Receive(old(contents)[i], ogm, seqDiff)]
      ensures isDup <==> TestBit(old(contents)[i].realBits, lastRealSeqno, ogm.seqno)
      ensures mine <==> old(contents)[i].Is(ogm.src, ogm.iface)
      ensures moved <==> Moves(seqDiff)
    {
      hide Receive, TestBit, Moves;
      isDup, mine, moved := neighs[i].ReceiveOgm(ogm, lastRealSeqno, seqDiff);
      contents := contents[i := Receive(contents[i], ogm, seqDiff)];
    }

    // The loop over the neighbour list.
    method ReceiveOnAll(ogm: Ogm, seqDiff: int) returns (ret: DupStatus, needUpdate: bool)
      requires Valid()
      modifies this`contents, neighs, Bitmaps()
      ensures Valid()
      ensures contents == ReceiveAll(old(contents), ogm, seqDiff)
      ensures ret == Duplicate(old(contents), lastRealSeqno, ogm)
      ensures needUpdate <==> neighs != [] && Moves(seqDiff)
    {
      hide Receive, TestBit, Signed, Moves, Duplicate;
      ghost var before := contents;
      assert before[..0] == [];
      NoneIsNoDup(lastRealSeqno, ogm);
      ret, needUpdate := NoDup, false;
      var i := 0;
      while i < |neighs|
        invariant 0 <= i <= |neighs| && Valid()
        invariant forall k :: 0 <= k < i ==> contents[k] == Receive(before[k], ogm, seqDiff)
        invariant contents[i..] == before[i..]
        invariant needUpdate <==> i > 0 && Moves(seqDiff)
        invariant ret == Duplicate(before[..i], lastRealSeqno, ogm)
      {
        assert contents[i] == contents[i..][0] == before[i];
        var isDup, mine, moved := ReceiveAt(i, ogm, seqDiff);
        DuplicateAppend(before[..i], before[i], lastRealSeqno, ogm);
        assert before[..i + 1] == before[..i] + [before[i]];
        if mine {
          if isDup {
            ret := NeighDup;
          }
        } else if isDup && ret != NeighDup {
          ret := OrigDup;
        }
        needUpdate := needUpdate || moved;
        i := i + 1;
      }
      assert before[..i] == before;
    }

    // batadv_iv_ogm_update_seqnos
    method UpdateSeqnos(ogm: Ogm) returns (ret: DupStatus)
      requires Valid()
      modifies this, neighs, Bitmaps()
      ensures Valid() && neighs == old(neighs)
      ensures (View(), ret) == Step(old(View()), ogm)
    {
      hide Receive, ReceiveAll, Duplicate, TestBit, Signed, LooksRestarted, Moves;
      var seqDiff := Signed(ogm.seqno - lastRealSeqno);
      if neighs != [] {
        var ignore, reset, _ := WindowProtected(seqDiff, WINDOW, batmanSeqnoReset, false, ogm.now);
        batmanSeqnoReset := reset;
        if ignore {
          return Protected;
        }
      }
      var needUpdate;
      ret, needUpdate := ReceiveOnAll(ogm, seqDiff);
      if needUpdate {
        lastRealSeqno := ogm.seqno;
      }
    }
  }

  // ----- Runs -----

  // An OGM arrives, a neighbour is added to the list, or one is removed.
  datatype Event = Arrive(ogm: Ogm) | AddNeigh(addr: nat, iface: nat) | DelNeigh(index: nat)

  // heard[k]: the positions that arrived through neighbour k since it was
  // listed, within the current epoch; resets: when the number was seen to start
  // over.
  datatype Trace = Trace(s: State, top: int, heard: seq<set<int>>, resets: seq<int>)

  ghost function Hear(t: Trace, ogm: Ogm, k: nat): set<int>
    requires k < |t.heard| == |t.s.neighs|
  {
    var diff := Signed(ogm.seqno - t.s.last);
    var earlier := if InRange(diff) then t.heard[k] else {};
    var n := t.s.neighs[k];
    if n.addr == ogm.src && n.ifIncoming == ogm.iface then earlier + {t.top + diff} else earlier
  }

  ghost function Extend(t: Trace, e: Event): Trace
    requires |t.heard| == |t.s.neighs|
  {
    match e
    case Arrive(ogm) =>
      if Refuses(t.s, ogm) || t.s.neighs == [] then t.(s := Step(t.s, ogm).0)
      else
        Trace(Step(t.s, ogm).0, NewTop(t.top, Signed(ogm.seqno - t.s.last)),
              seq(|t.heard|, k requires 0 <= k < |t.heard| => Hear(t, ogm, k)),
              if InRange(Signed(ogm.seqno - t.s.last)) then t.resets else t.resets + [ogm.now])
    case AddNeigh(addr, iface) =>
      var neighs := Listed(t.s.neighs, addr, iface);
      t.(s := t.s.(neighs := neighs), heard := if |neighs| > |t.heard| then [{}] + t.heard else t.heard)
    case DelNeigh(k) =>
      if k >= |t.s.neighs| then t
      else t.(s := t.s.(neighs := t.s.neighs[..k] + t.s.neighs[k + 1..]), heard := t.heard[..k] + t.heard[k + 1..])
  }

  ghost predicate Inv(t: Trace) {
    && t.s.last == Wrap(t.top)
    && |t.heard| == |t.s.neighs|
    && (forall k :: 0 <= k < |t.heard| ==> Exact(t.s.neighs[k], t.top, t.heard[k]))
  }

  // The window of one neighbour shows exactly what was heard through it.
  ghost predicate Exact(n: Neigh, top: int, heard: set<int>) {
    && Tracks(n.realBits, top, heard)
    && UpTo(top, heard)
    && n.realPacketCount == Weight(n.realBits)
  }

  lemma ReceiveExact(t: Trace, ogm: Ogm, k: nat)
    requires Inv(t) && k < |t.heard|
    ensures var diff := Signed(ogm.seqno - t.s.last);
            Exact(Receive(t.s.neighs[k], ogm, diff), NewTop(t.top, diff), Hear(t, ogm, k))
  {
    hide Weight, Signed, Wrap;
    var diff := Signed(ogm.seqno - t.s.last);
    var n := t.s.neighs[k];
    var mark := n.Is(ogm.src, ogm.iface);
    if InRange(diff) {
      GetPacketTracks(n.realBits, t.top, t.heard[k], diff, mark);
    } else {
      GetPacketRestarts(n.realBits, t.top, diff, mark);
    }
  }

  lemma ArriveKeepsInv(t: Trace, ogm: Ogm)
    requires Inv(t)
    ensures Inv(Extend(t, Arrive(ogm)))
  {
    Unwrap(t.top, ogm.seqno);
    hide Signed, Wrap, Exact, Receive, Hear, Duplicate, LooksRestarted;
    var diff := Signed(ogm.seqno - t.s.last);
    var t' := Extend(t, Arrive(ogm));
    forall k | 0 <= k < |t.heard|
      ensures Exact(Receive(t.s.neighs[k], ogm, diff), NewTop(t.top, diff), Hear(t, ogm, k))
    {
      ReceiveExact(t, ogm, k);
    }
  }

  lemma EmptyExact(addr: nat, iface: nat, top: int)
    ensures Exact(Neigh(addr, iface, ZERO, 0), top, {})
  {
    ZeroWeight(WINDOW);
    hide Weight;
  }

  lemma ListChangeKeepsInv(t: Trace, e: Event)
    requires Inv(t) && !e.Arrive?
    ensures Inv(Extend(t, e))
  {
    hide Wrap, Exact;
    if e.AddNeigh? {
      EmptyExact(e.addr, e.iface, t.top);
      assert Listed(t.s.neighs, e.addr, e.iface) in {t.s.neighs, [Neigh(e.addr, e.iface, ZERO, 0)] + t.s.neighs};
      hide Listed;
    }
  }

  ghost function Replay(created: int, es: seq<Event>): (t: Trace)
    ensures Inv(t)
  {
    if es == [] then
      assert Wrap(0) == 0;
      Trace(State([], 0, created - 1 - RESET_PROTECTION_MS), 0, [], [])
    else
      var t := Replay(created, es[..|es| - 1]);
      var e := es[|es| - 1];
      assert Inv(Extend(t, e)) by {
        if e.Arrive? {
          ArriveKeepsInv(t, e.ogm);
        } else {
          ListChangeKeepsInv(t, e);
        }
      }
      Extend(t, e)
  }

  // In any run all windows stand at the same newest position, the one of
  // last_real_seqno; bit i of a neighbour's window is set exactly when the i-th
  // OGM behind it arrived through that neighbour; and the packet count is the
  // number of such OGMs, at most 64.
  lemma WindowsInLockstep(created: int, es: seq<Event>, k: nat, i: nat)
    requires k < |Replay(created, es).s.neighs| && i < WINDOW
    ensures var t := Replay(created, es);
            && t.s.last == Wrap(t.top)
            && (t.s.neighs[k].realBits[i] <==> t.top - i in t.heard[k])
            && t.s.neighs[k].realPacketCount == |InWindow(t.heard[k], t.top, WINDOW)|
            && t.s.neighs[k].realPacketCount <= WINDOW
  {
    var t := Replay(created, es);
    hide Wrap, Replay;
    var bits := t.s.neighs[k].realBits;
    WeightCounts(bits, t.top, t.heard[k], WINDOW);
    assert bits[..WINDOW] == bits;
  }

  ghost predicate Distinct(ns: seq<Neigh>) {
    forall j, k :: 0 <= j < k < |ns| ==> (ns[j].addr, ns[j].ifIncoming) != (ns[k].addr, ns[k].ifIncoming)
  }

  // A new neighbour is listed, with an empty window, and the others stay.
  lemma ListedExactly(ns: seq<Neigh>, addr: nat, iface: nat)
    ensures forall n :: n in Listed(ns, addr, iface) <==>
              || n in ns
              || (n == Neigh(addr, iface, ZERO, 0) && !exists m :: m in ns && m.addr == addr && m.ifIncoming == iface)
  {
  }

  lemma ExtendKeepsDistinct(t: Trace, e: Event)
    requires |t.heard| == |t.s.neighs| && Distinct(t.s.neighs)
    ensures Distinct(Extend(t, e).s.neighs)
  {
    hide GetPacket, Signed, Weight, Duplicate, Refuses, Hear;
    if e.AddNeigh? && !exists n :: n in t.s.neighs && n.Is(e.addr, e.iface) {
      assert forall k :: 0 <= k < |t.s.neighs| ==> !t.s.neighs[k].Is(e.addr, e.iface);
    }
  }

  // In any run every neighbour, that is, an address on an interface, is listed
  // once.
  lemma {:induction false} NeighboursDistinct(created: int, es: seq<Event>)
    ensures Distinct(Replay(created, es).s.neighs)
  {
    if es != [] {
      NeighboursDistinct(created, es[..|es| - 1]);
      ExtendKeepsDistinct(Replay(created, es[..|es| - 1]), es[|es| - 1]);
      hide Extend, Inv, Distinct;
    }
  }

  // The position was heard through some neighbour, or through the sender.
  ghost predicate HeardBefore(t: Trace, ogm: Ogm, pos: int, bySender: bool)
    requires |t.heard| == |t.s.neighs|
  {
    exists k :: 0 <= k < |t.heard| && pos in t.heard[k] &&
      (bySender ==> t.s.neighs[k].addr == ogm.src && t.s.neighs[k].ifIncoming == ogm.iface)
  }

  lemma DuplicateByHeard(t: Trace, ogm: Ogm)
    requires Inv(t) && InRange(Signed(ogm.seqno - t.s.last))
    ensures var pos := t.top + Signed(ogm.seqno - t.s.last);
            Duplicate(t.s.neighs, t.s.last, ogm) ==
              if HeardBefore(t, ogm, pos, true) then NeighDup
              else if HeardBefore(t, ogm, pos, false) then OrigDup
              else NoDup
  {
    hide Signed, Wrap, TestBit;
    var pos := t.top + Signed(ogm.seqno - t.s.last);
    forall k | 0 <= k < |t.heard|
      ensures t.s.neighs[k] in t.s.neighs
      ensures TestBit(t.s.neighs[k].realBits, t.s.last, ogm.seqno) <==> pos in t.heard[k]
    {
      TestBitIsSeen(t.s.neighs[k].realBits, t.top, t.heard[k], ogm.seqno);
    }
  }

  ghost predicate ResetsOk(t: Trace, created: int) {
    ResetsSpaced(t.resets) && t.s.reset + RESET_PROTECTION_MS == ProtectedUntil(t.resets, created)
  }

  lemma ExtendedResets(t: Trace, e: Event)
    requires |t.heard| == |t.s.neighs|
    ensures var t' := Extend(t, e);
            if e.Arrive? && t.s.neighs != [] && !InRange(Signed(e.ogm.seqno - t.s.last)) && !Refuses(t.s, e.ogm)
            then t'.resets == t.resets + [e.ogm.now] && t'.s.reset == e.ogm.now
                 && e.ogm.now > t.s.reset + RESET_PROTECTION_MS
            else t'.resets == t.resets && t'.s.reset == t.s.reset
  {
    hide Signed, Hear, Receive, Duplicate;
  }

  lemma {:induction false} RunResets(created: int, es: seq<Event>)
    ensures ResetsOk(Replay(created, es), created)
  {
    hide Extend, Exact, ResetsOk, Wrap;
    if es == [] {
      FreshResets(created);
    } else {
      RunResets(created, es[..|es| - 1]);
      ExtendKeepsResets(Replay(created, es[..|es| - 1]), es[|es| - 1], created);
    }
  }

  lemma FreshResets(created: int)
    ensures ResetsOk(Trace(State([], 0, created - 1 - RESET_PROTECTION_MS), 0, [], []), created)
  {
  }

  lemma ExtendKeepsResets(t: Trace, e: Event, created: int)
    requires |t.heard| == |t.s.neighs| && ResetsOk(t, created)
    ensures ResetsOk(Extend(t, e), created)
  {
    ExtendedResets(t, e);
    hide Extend, Refuses, Signed, ResetsSpaced;
    if Extend(t, e).resets != t.resets {
      NextReset(t.resets, created, e.ogm.now);
    }
  }

  // In any run two restarts are more than the protection time apart.
  lemma ResetsFarApart(created: int, es: seq<Event>, j: nat, k: nat)
    requires j < k < |Replay(created, es).resets|
    ensures var t := Replay(created, es);
            t.resets[k] - t.resets[j] > RESET_PROTECTION_MS
  {
    RunResets(created, es);
  }

  // The number looks like a restart, the originator has neighbours, and the
  // last restart was no more than 30 seconds ago.
  ghost predicate Ignored(t: Trace, created: int, ogm: Ogm) {
    var diff := Signed(ogm.seqno - Wrap(t.top));
    t.s.neighs != [] && (diff <= -64 || diff >= 65536) && ogm.now <= ProtectedUntil(t.resets, created)
  }

  // The status returned for an OGM, by the history: protected while a restart
  // is not believed; else a neighbour duplicate when the sender already
  // delivered this OGM, an originator duplicate when only others did, or none.
  // A protected OGM changes nothing.
  lemma DuplicateExactly(created: int, es: seq<Event>, ogm: Ogm)
    ensures var t := Replay(created, es);
            var diff := Signed(ogm.seqno - t.s.last);
            var pos := t.top + diff;
            && Step(t.s, ogm).1 ==
                 (if Ignored(t, created, ogm) then Protected
                  else if InRange(diff) && HeardBefore(t, ogm, pos, true) then NeighDup
                  else if InRange(diff) && HeardBefore(t, ogm, pos, false) then OrigDup
                  else NoDup)
            && (Ignored(t, created, ogm) ==> Step(t.s, ogm).0 == t.s)
  {
    hide Replay, HeardBefore, Step, Ignored, ResetsOk, Exact, Signed, Wrap;
    RunResets(created, es);
    StatusFrom(Replay(created, es), created, ogm);
  }

  lemma StatusFrom(t: Trace, created: int, ogm: Ogm)
    requires Inv(t) && ResetsOk(t, created)
    ensures var diff := Signed(ogm.seqno - t.s.last);
            var pos := t.top + diff;
            && Step(t.s, ogm).1 ==
                 (if Ignored(t, created, ogm) then Protected
                  else if InRange(diff) && HeardBefore(t, ogm, pos, true) then NeighDup
                  else if InRange(diff) && HeardBefore(t, ogm, pos, false) then OrigDup
                  else NoDup)
            && (Ignored(t, created, ogm) ==> Step(t.s, ogm).0 == t.s)
  {
    hide Signed, HeardBefore, Duplicate, Refuses, Ignored, ResetsOk, Exact, Wrap;
    RefusesIgnored(t, created, ogm);
    if InRange(Signed(ogm.seqno - t.s.last)) {
      DuplicateByHeard(t, ogm);
    } else {
      NoDuplicateOutOfRange(t.s.neighs, t.s.last, ogm);
    }
  }

  lemma RefusesIgnored(t: Trace, created: int, ogm: Ogm)
    requires Inv(t) && ResetsOk(t, created)
    ensures Refuses(t.s, ogm) <==> Ignored(t, created, ogm)
  {
    hide Signed, Wrap, Exact;
  }

  lemma NoDuplicateOutOfRange(ns: seq<Neigh>, last: u32, ogm: Ogm)
    requires !InRange(Signed(ogm.seqno - last))
    ensures Duplicate(ns, last, ogm) == NoDup
  {
    forall n | n in ns
      ensures !TestBit(n.realBits, last, ogm.seqno)
    {
      TestBitOutOfRange(n.realBits, last, ogm.seqno);
    }
  }
}

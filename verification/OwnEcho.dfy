// B.A.T.M.A.N. IV: which of our own OGMs every originator rebroadcast back to
// us, one 64-bit window per originator and interface.  The windows live in
// arrays indexed by the interface number, and interfaces are renumbered when
// one is removed (bat_iv_ogm.c, originator.c, hard-interface.c).

module OwnEcho {
  import opened SeqNo
  import opened Bitarray

  // bcast_own and bcast_own_sum of one originator
  datatype Own = Own(own: seq<Bits>, sum: seq<nat>)

  datatype Iface = Iface(ifNum: nat, ogmSeqno: u32)

  // The interfaces and originators of one mesh, by address.
  datatype State = State(ifaces: map<nat, Iface>, numIfaces: nat, origs: map<nat, Own>)

  datatype Event =
    | Enable(iface: nat, seqno: u32, junk: map<nat, (Bits, nat)>)  // junk: the new slots are not initialised
    | Disable(iface: nat)
    | NewOrig(orig: nat)
    | DelOrig(orig: nat)
    | Schedule(iface: nat)
    | Echo(orig: nat, iface: nat, seqno: u32)   // a direct-link echo of our OGM

  // ----- The steps on values -----

  // batadv_iv_ogm_orig_add_if
  function AddSlot(o: Own, bits: Bits, n: nat): Own {
    Own(o.own + [bits], o.sum + [n])
  }

  function Without<T>(s: seq<T>, k: nat): seq<T> {
    if k < |s| then s[..k] + s[k + 1..] else s
  }

  // batadv_iv_ogm_orig_del_if
  function DelSlot(o: Own, k: nat): Own {
    Own(Without(o.own, k), Without(o.sum, k))
  }

  function SetSlot(o: Own, k: nat, bits: Bits): Own {
    if k < |o.own| && k < |o.sum| then Own(o.own[k := bits], o.sum[k := Weight(bits)]) else o
  }

  // batadv_iv_ogm_slide_own_bcast_window on one originator
  function Slide(o: Own, k: nat): Own {
    if k < |o.own| then SetSlot(o, k, GetPacket(o.own[k], 1, false)) else o
  }

  // The bit an echo sets: the distance of its number from the newest own OGM
  // that can have come back.
  function EchoBit(ogmSeqno: u32, seqno: u32): int {
    Signed(ogmSeqno - 2 - seqno)
  }

  function Hear(o: Own, k: nat, bit: int): Own {
    if k < |o.own| then SetSlot(o, k, SetBit(o.own[k], bit)) else o
  }

  function FreshOwn(n: nat): Own {
    Own(seq(n, _ => ZERO), seq(n, _ => 0))
  }

  function Renumber(ifaces: map<nat, Iface>, gone: nat): map<nat, Iface>
    requires gone in ifaces
  {
    map i | i in ifaces && i != gone ::
      if ifaces[i].ifNum > ifaces[gone].ifNum then ifaces[i].(ifNum := ifaces[i].ifNum - 1) else ifaces[i]
  }

  function WithOrig(m: State, orig: nat): State {
    if orig in m.origs then m else m.(origs := m.origs[orig := FreshOwn(m.numIfaces)])
  }

  predicate Enabled(m: State, e: Event) {
    match e
    case Enable(i, _, junk) => i !in m.ifaces && m.origs.Keys <= junk.Keys
    case Disable(i) => i in m.ifaces
    case NewOrig(_) => true
    case DelOrig(_) => true
    case Schedule(i) => i in m.ifaces
    case Echo(_, i, _) => i in m.ifaces
  }

  function Step(m: State, e: Event): State
    requires Enabled(m, e)
  {
    match e
    case Enable(i, seqno, junk) =>
      State(m.ifaces[i := Iface(m.numIfaces, seqno)], m.numIfaces + 1,
            map o | o in m.origs :: AddSlot(m.origs[o], junk[o].0, junk[o].1))
    case Disable(i) =>
      State(Renumber(m.ifaces, i), if m.numIfaces > 0 then m.numIfaces - 1 else 0,
            map o | o in m.origs :: DelSlot(m.origs[o], m.ifaces[i].ifNum))
    case NewOrig(o) => WithOrig(m, o)
    case DelOrig(o) => m.(origs := m.origs - {o})
    case Schedule(i) =>
      m.(ifaces := m.ifaces[i := m.ifaces[i].(ogmSeqno := Wrap(m.ifaces[i].ogmSeqno + 1))],
         origs := map o | o in m.origs :: Slide(m.origs[o], m.ifaces[i].ifNum))
    case Echo(o, i, seqno) =>
      var m' := WithOrig(m, o);
      m'.(origs := m'.origs[o := Hear(m'.origs[o], m.ifaces[i].ifNum, EchoBit(m.ifaces[i].ogmSeqno, seqno))])
  }

  // ----- The interface numbers -----

  ghost predicate HasNumber(m: State, n: nat) {
    exists i :: i in m.ifaces && m.ifaces[i].ifNum == n
  }

  // The interface numbers are exactly 0 .. numIfaces - 1.
  ghost predicate NumbersOk(m: State) {
    && (forall i :: i in m.ifaces ==> m.ifaces[i].ifNum < m.numIfaces)
    && (forall i, j :: i in m.ifaces && j in m.ifaces && m.ifaces[i].ifNum == m.ifaces[j].ifNum ==> i == j)
    && (forall n: nat :: n < m.numIfaces ==> HasNumber(m, n))
  }

  // Every originator has one slot per interface number.
  ghost predicate SlotsOk(m: State) {
    forall o :: o in m.origs ==> |m.origs[o].own| == |m.origs[o].sum| == m.numIfaces
  }

  ghost predicate Numbered(m: State) {
    NumbersOk(m) && SlotsOk(m)
  }

  lemma EnableKeepsNumbers(m: State, e: Event)
    requires NumbersOk(m) && Enabled(m, e) && e.Enable?
    ensures NumbersOk(Step(m, e))
  {
    var m' := Step(m, e);
    forall n: nat | n < m'.numIfaces
      ensures HasNumber(m', n)
    {
      if n == m.numIfaces {
        assert e.iface in m'.ifaces && m'.ifaces[e.iface].ifNum == n;
      } else {
        assert HasNumber(m, n);
        var i :| i in m.ifaces && m.ifaces[i].ifNum == n;
        assert i in m'.ifaces && m'.ifaces[i].ifNum == n;
      }
    }
  }

  lemma DisableKeepsNumbers(m: State, gone: nat)
    requires NumbersOk(m) && gone in m.ifaces
    ensures NumbersOk(Step(m, Disable(gone)))
  {
    var m' := Step(m, Disable(gone));
    forall n: nat | n < m'.numIfaces
      ensures HasNumber(m', n)
    {
      var n0 := if n < m.ifaces[gone].ifNum then n else n + 1;
      assert HasNumber(m, n0);
      var i :| i in m.ifaces && m.ifaces[i].ifNum == n0;
      assert i in m'.ifaces && m'.ifaces[i].ifNum == n;
    }
  }

  // Steps that neither add nor remove an interface keep the numbers.
  lemma SameNumbers(m: State, m': State)
    requires NumbersOk(m) && m'.numIfaces == m.numIfaces && m'.ifaces.Keys == m.ifaces.Keys
    requires forall i :: i in m.ifaces ==> m'.ifaces[i].ifNum == m.ifaces[i].ifNum
    ensures NumbersOk(m')
  {
    forall n: nat | n < m'.numIfaces
      ensures HasNumber(m', n)
    {
      assert HasNumber(m, n);
      var i :| i in m.ifaces && m.ifaces[i].ifNum == n;
      assert i in m'.ifaces && m'.ifaces[i].ifNum == n;
    }
  }

  lemma StepKeepsSlots(m: State, e: Event)
    requires Numbered(m) && Enabled(m, e)
    ensures SlotsOk(Step(m, e))
  {
    if e.Disable? {
      assert m.ifaces[e.iface].ifNum < m.numIfaces;
    }
    hide NumbersOk, Wrap, Weight, GetPacket, SetBit, EchoBit, Renumber;
    var m' := Step(m, e);
    forall o | o in m'.origs
      ensures |m'.origs[o].own| == |m'.origs[o].sum| == m'.numIfaces
    {
      assert o in m.origs ==> |m.origs[o].own| == |m.origs[o].sum| == m.numIfaces;
    }
  }

  lemma StepKeepsNumbered(m: State, e: Event)
    requires Numbered(m) && Enabled(m, e)
    ensures Numbered(Step(m, e))
  {
    StepKeepsSlots(m, e);
    match e
    case Enable(_, _, _) => EnableKeepsNumbers(m, e);
    case Disable(gone) => DisableKeepsNumbers(m, gone);
    case _ =>
      var m' := Step(m, e);
      assert m'.numIfaces == m.numIfaces && m'.ifaces.Keys == m.ifaces.Keys;
      hide NumbersOk, SlotsOk;
      SameNumbers(m, m');
  }

  // Adding or removing an interface leaves every surviving interface the slot
  // contents it had, whatever its new number.
  lemma SlotsSurvive(m: State, e: Event, o: nat, j: nat)
    requires Numbered(m) && Enabled(m, e) && (e.Enable? || e.Disable?)
    requires o in m.origs && j in m.ifaces && (e.Disable? ==> j != e.iface)
    ensures var m' := Step(m, e);
            && o in m'.origs && j in m'.ifaces
            && m'.ifaces[j].ifNum < |m'.origs[o].own| == |m'.origs[o].sum|
            && m'.origs[o].own[m'.ifaces[j].ifNum] == m.origs[o].own[m.ifaces[j].ifNum]
            && m'.origs[o].sum[m'.ifaces[j].ifNum] == m.origs[o].sum[m.ifaces[j].ifNum]
            && m'.ifaces[j].ogmSeqno == m.ifaces[j].ogmSeqno
  {
    var k := m.ifaces[j].ifNum;
    assert k < m.numIfaces && |m.origs[o].own| == |m.origs[o].sum| == m.numIfaces;
    if e.Disable? {
      var gone := m.ifaces[e.iface].ifNum;
      assert gone != k && gone < m.numIfaces;
      hide NumbersOk, SlotsOk;
      assert Step(m, e).ifaces[j].ifNum == if k > gone then k - 1 else k;
      WithoutAt(m.origs[o].own, gone, k);
      WithoutAt(m.origs[o].sum, gone, k);
      hide Without, Renumber;
    } else {
      hide NumbersOk, SlotsOk;
    }
  }

  lemma WithoutAt<T>(s: seq<T>, gone: nat, k: nat)
    requires k < |s| && gone < |s| && gone != k
    ensures var k' := if k > gone then k - 1 else k;
            |Without(s, gone)| == |s| - 1 && Without(s, gone)[k'] == s[k]
  {
  }

  // ----- The echo windows -----

  // What is known of the slot of an originator and interface: the positions of
  // our OGMs whose echo was received while in range, the word and the sum the
  // memory held when the slot was allocated, how often the window slid since,
  // and whether the slot was ever written.
  datatype Heard = Heard(seen: set<int>, word: Bits, wordSum: nat, slides: nat, written: bool)

  // tops: the position of the next own OGM, per interface.
  datatype Trace = Trace(m: State, tops: map<nat, int>, heard: (nat, nat) -> Heard)

  // Whether bit b still shows a bit of the memory the slot was allocated in.
  predicate Leftover(h: Heard, b: nat) {
    0 <= b - h.slides < WINDOW && h.word[b - h.slides]
  }

  // Nothing is left of it: the slot was zeroed, or all of it slid out.
  predicate Clean(h: Heard) {
    h.slides >= WINDOW || (h.word == ZERO && h.wordSum == 0)
  }

  ghost predicate SlotExact(bits: Bits, sum: nat, top: int, h: Heard) {
    && (forall b: nat :: b < WINDOW ==> (bits[b] <==> top - 2 - b in h.seen || Leftover(h, b)))
    && UpTo(top - 2, h.seen)
    && sum == (if h.written then Weight(bits) else h.wordSum)
    && (!h.written ==> h.seen == {} && h.slides == 0)
  }

  // The slot of originator o and interface i shows what was heard.
  ghost predicate Shows(t: Trace, o: nat, i: nat)
    requires o in t.m.origs && i in t.m.ifaces && i in t.tops
  {
    var k := t.m.ifaces[i].ifNum;
    && k < |t.m.origs[o].own| == |t.m.origs[o].sum|
    && SlotExact(t.m.origs[o].own[k], t.m.origs[o].sum[k], t.tops[i], t.heard(o, i))
  }

  ghost predicate TopsOk(t: Trace) {
    && t.tops.Keys == t.m.ifaces.Keys
    && (forall i :: i in t.m.ifaces ==> t.m.ifaces[i].ogmSeqno == Wrap(t.tops[i]))
  }

  ghost predicate Inv(t: Trace) {
    && Numbered(t.m)
    && TopsOk(t)
    && (forall o, i :: o in t.m.origs && i in t.m.ifaces ==> Shows(t, o, i))
  }

  const SILENT := Heard({}, ZERO, 0, 0, false)

  ghost function WithHeard(t: Trace, o: nat): (nat, nat) -> Heard {
    if o in t.m.origs then t.heard
    else (p: nat, j: nat) => if p == o then SILENT else t.heard(p, j)
  }

  ghost function SlideOnce(h: Heard): Heard {
    h.(slides := h.slides + 1, written := true)
  }

  ghost function HearEcho(h: Heard, pos: int, bit: int): Heard {
    h.(seen := if 0 <= bit < WINDOW then h.seen + {pos} else h.seen, written := true)
  }

  ghost function Extend(t: Trace, e: Event): Trace
    requires Inv(t) && Enabled(t.m, e)
  {
    var m' := Step(t.m, e);
    match e
    case Enable(i, seqno, junk) =>
      Trace(m', t.tops[i := seqno], (p: nat, j: nat) =>
              if j == i then (if p in t.m.origs then Heard({}, junk[p].0, junk[p].1, 0, false) else SILENT)
              else t.heard(p, j))
    case Disable(i) => Trace(m', t.tops - {i}, t.heard)
    case NewOrig(o) => Trace(m', t.tops, WithHeard(t, o))
    case DelOrig(o) => Trace(m', t.tops, t.heard)
    case Schedule(i) =>
      Trace(m', t.tops[i := t.tops[i] + 1],
            (p: nat, j: nat) => if j == i then SlideOnce(t.heard(p, j)) else t.heard(p, j))
    case Echo(o, i, seqno) =>
      var heard := WithHeard(t, o);
      var bit := EchoBit(t.m.ifaces[i].ogmSeqno, seqno);
      Trace(m', t.tops,
            (p: nat, j: nat) =>
              if p == o && j == i then HearEcho(heard(p, j), t.tops[i] - 2 - bit, bit) else heard(p, j))
  }

  lemma EchoPosition(top: int, seqno: u32)
    ensures Wrap(top - 2 - EchoBit(Wrap(top), seqno)) == seqno
  {
    var d := Wrap(top) - 2 - seqno;
    assert (d - Signed(d)) % TWO_TO_32 == 0;
  }

  // Sliding for the next own OGM keeps the slot exact.
  lemma SlideExact(bits: Bits, sum: nat, top: int, h: Heard)
    requires SlotExact(bits, sum, top, h)
    ensures var bits' := GetPacket(bits, 1, false);
            SlotExact(bits', Weight(bits'), top + 1, SlideOnce(h))
  {
    var bits' := GetPacket(bits, 1, false);
    hide Weight;
    forall b: nat | b < WINDOW
      ensures bits'[b] <==> top + 1 - 2 - b in h.seen || Leftover(SlideOnce(h), b)
    {
      if b > 0 {
        assert bits'[b] == bits[b - 1];
      }
    }
  }

  // Recording an echo keeps the slot exact.
  lemma HearExact(bits: Bits, sum: nat, top: int, h: Heard, bit: int)
    requires SlotExact(bits, sum, top, h)
    ensures var bits' := SetBit(bits, bit);
            SlotExact(bits', Weight(bits'), top, HearEcho(h, top - 2 - bit, bit))
  {
  }

  lemma ZeroExact(top: int)
    ensures SlotExact(ZERO, 0, top, SILENT)
  {
    ZeroWeight(WINDOW);
    hide Weight;
  }

  lemma NewOrigShows(t: Trace, o: nat, p: nat, i: nat)
    requires Inv(t) && i in t.m.ifaces && p in Step(t.m, NewOrig(o)).origs
    ensures Shows(Extend(t, NewOrig(o)), p, i)
  {
    ZeroExact(t.tops[i]);
    hide SlotExact, HasNumber, Wrap, Weight;
    if p in t.m.origs {
      assert Shows(t, p, i);
    }
  }

  // A new slot shows what its memory held.
  lemma LeftoverExact(bits: Bits, sum: nat, top: int)
    ensures SlotExact(bits, sum, top, Heard({}, bits, sum, 0, false))
  {
  }

  lemma EnableShows(t: Trace, e: Event, o: nat)
    requires Inv(t) && Enabled(t.m, e) && e.Enable? && o in t.m.origs
    ensures Shows(Extend(t, e), o, e.iface)
  {
    hide SlotExact, NumbersOk, Shows;
    LeftoverExact(e.junk[o].0, e.junk[o].1, e.seqno);
    var m' := Step(t.m, e);
    assert m'.origs[o] == AddSlot(t.m.origs[o], e.junk[o].0, e.junk[o].1);
    assert |t.m.origs[o].own| == |t.m.origs[o].sum| == t.m.numIfaces == m'.ifaces[e.iface].ifNum;
    ShowsIf(Extend(t, e), o, e.iface);
  }

  lemma ShowsIf(t: Trace, o: nat, i: nat)
    requires o in t.m.origs && i in t.m.ifaces && i in t.tops
    requires var k := t.m.ifaces[i].ifNum;
             && k < |t.m.origs[o].own| == |t.m.origs[o].sum|
             && SlotExact(t.m.origs[o].own[k], t.m.origs[o].sum[k], t.tops[i], t.heard(o, i))
    ensures Shows(t, o, i)
  {
  }

  lemma InterfaceChangeShows(t: Trace, e: Event, o: nat, i: nat)
    requires Inv(t) && Enabled(t.m, e) && (e.Enable? || e.Disable?)
    requires o in t.m.origs && i in Step(t.m, e).ifaces
    ensures Shows(Extend(t, e), o, i)
  {
    if e.Enable? && i == e.iface {
      hide Inv;
      EnableShows(t, e, o);
    } else {
      SlotsSurvive(t.m, e, o, i);
      InvShows(t, o, i);
      hide SlotExact, NumbersOk, SlotsOk, AddSlot, DelSlot, Inv;
    }
  }

  lemma InvParts(t: Trace)
    requires Inv(t)
    ensures Numbered(t.m) && t.tops.Keys == t.m.ifaces.Keys
  {
  }

  lemma InvShows(t: Trace, o: nat, i: nat)
    requires Inv(t) && o in t.m.origs && i in t.m.ifaces
    ensures i in t.tops && Shows(t, o, i)
  {
    hide Shows;
  }

  lemma ScheduleSlot(m: State, i: nat, o: nat, j: nat)
    requires Numbered(m) && i in m.ifaces && o in m.origs && j in m.ifaces
    ensures var k := m.ifaces[j].ifNum;
            var m' := Step(m, Schedule(i));
            o in m'.origs &&
            var old', new' := m.origs[o], m'.origs[o];
            && k < |old'.own| == |old'.sum| == |new'.own| == |new'.sum|
            && new'.own[k] == (if j == i then GetPacket(old'.own[k], 1, false) else old'.own[k])
            && new'.sum[k] == if j == i then Weight(new'.own[k]) else old'.sum[k]
  {
  }

  lemma ScheduleHeard(t: Trace, i: nat, o: nat, j: nat)
    requires Inv(t) && i in t.m.ifaces && j in t.m.ifaces
    ensures var t' := Extend(t, Schedule(i));
            && t'.m == Step(t.m, Schedule(i)) && j in t'.m.ifaces && t'.m.ifaces[j].ifNum == t.m.ifaces[j].ifNum
            && j in t'.tops && t'.tops[j] == (if j == i then t.tops[j] + 1 else t.tops[j])
            && t'.heard(o, j) == if j == i then SlideOnce(t.heard(o, j)) else t.heard(o, j)
  {
    hide Shows, Slide, SlideOnce, Wrap, NumbersOk, SlotsOk;
  }

  lemma ScheduleShowsHere(t: Trace, i: nat, o: nat)
    requires Inv(t) && i in t.m.ifaces && o in t.m.origs
    ensures o in Step(t.m, Schedule(i)).origs && Shows(Extend(t, Schedule(i)), o, i)
  {
    InvParts(t);
    InvShows(t, o, i);
    hide Inv, Numbered, Step, Extend, SlotExact, Weight, GetPacket, SlideOnce;
    ScheduleSlot(t.m, i, o, i);
    ScheduleHeard(t, i, o, i);
    var k := t.m.ifaces[i].ifNum;
    SlideExact(t.m.origs[o].own[k], t.m.origs[o].sum[k], t.tops[i], t.heard(o, i));
  }

  lemma ScheduleShowsElsewhere(t: Trace, i: nat, o: nat, j: nat)
    requires Inv(t) && i in t.m.ifaces && o in t.m.origs && j in t.m.ifaces && j != i
    ensures o in Step(t.m, Schedule(i)).origs && Shows(Extend(t, Schedule(i)), o, j)
  {
    InvParts(t);
    InvShows(t, o, j);
    hide Inv, Numbered, Step, Extend, SlotExact, Weight, GetPacket, SlideOnce;
    ScheduleSlot(t.m, i, o, j);
    ScheduleHeard(t, i, o, j);
  }

  lemma EchoSlot(m: State, o: nat, i: nat, seqno: u32, p: nat, j: nat)
    requires Numbered(m) && i in m.ifaces && p in WithOrig(m, o).origs && j in m.ifaces
    ensures var k := m.ifaces[j].ifNum;
            var bit := EchoBit(m.ifaces[i].ogmSeqno, seqno);
            var m' := Step(m, Echo(o, i, seqno));
            p in m'.origs &&
            var old', new' := WithOrig(m, o).origs[p], m'.origs[p];
            && k < |old'.own| == |old'.sum| == |new'.own| == |new'.sum|
            && new'.own[k] == (if p == o && j == i then SetBit(old'.own[k], bit) else old'.own[k])
            && new'.sum[k] == if p == o && j == i then Weight(new'.own[k]) else old'.sum[k]
  {
  }

  lemma EchoHeard(t: Trace, o: nat, i: nat, seqno: u32, p: nat, j: nat)
    requires Inv(t) && i in t.m.ifaces && j in t.m.ifaces
    ensures var t0, t' := Extend(t, NewOrig(o)), Extend(t, Echo(o, i, seqno));
            var bit := EchoBit(t.m.ifaces[i].ogmSeqno, seqno);
            && t0.m == WithOrig(t.m, o) && t0.m.ifaces == t.m.ifaces && t0.tops == t.tops
            && t'.m == Step(t.m, Echo(o, i, seqno)) && t'.m.ifaces == t.m.ifaces && t'.tops == t.tops
            && t'.heard(p, j) ==
                 if p == o && j == i then HearEcho(t0.heard(p, j), t.tops[i] - 2 - bit, bit) else t0.heard(p, j)
  {
    hide Inv, Hear, HearEcho, EchoBit;
  }

  lemma NewOrigStep(m: State, o: nat)
    ensures Step(m, NewOrig(o)) == WithOrig(m, o) && o in WithOrig(m, o).origs
    ensures WithOrig(m, o).ifaces == m.ifaces
  {
  }

  // The slot that hears the echo ...
  lemma EchoShowsHere(t: Trace, o: nat, i: nat, seqno: u32)
    requires Inv(t) && i in t.m.ifaces
    ensures o in Step(t.m, Echo(o, i, seqno)).origs && Shows(Extend(t, Echo(o, i, seqno)), o, i)
  {
    InvParts(t);
    NewOrigStep(t.m, o);
    hide Inv, Numbered, Extend, Step, WithOrig, SlotExact, SetBit, Weight, EchoBit, HearEcho;
    EchoSlot(t.m, o, i, seqno, o, i);
    EchoHeard(t, o, i, seqno, o, i);
    NewOrigShows(t, o, o, i);
    var t0, k := Extend(t, NewOrig(o)), t.m.ifaces[i].ifNum;
    var bit := EchoBit(t.m.ifaces[i].ogmSeqno, seqno);
    HearExact(t0.m.origs[o].own[k], t0.m.origs[o].sum[k], t.tops[i], t0.heard(o, i), bit);
  }

  // ... and all others.
  lemma EchoShowsElsewhere(t: Trace, o: nat, i: nat, seqno: u32, p: nat, j: nat)
    requires Inv(t) && i in t.m.ifaces && p in WithOrig(t.m, o).origs && j in t.m.ifaces
    requires p != o || j != i
    ensures p in Step(t.m, Echo(o, i, seqno)).origs && Shows(Extend(t, Echo(o, i, seqno)), p, j)
  {
    InvParts(t);
    NewOrigStep(t.m, o);
    hide Inv, Numbered, Extend, Step, WithOrig, SlotExact, SetBit, Weight, EchoBit, HearEcho;
    EchoSlot(t.m, o, i, seqno, p, j);
    EchoHeard(t, o, i, seqno, p, j);
    NewOrigShows(t, o, p, j);
  }

  lemma StepShows(t: Trace, e: Event, o: nat, i: nat)
    requires Inv(t) && Enabled(t.m, e)
    requires o in Step(t.m, e).origs && i in Step(t.m, e).ifaces
    ensures Shows(Extend(t, e), o, i)
  {
    hide HasNumber, SlotExact;
    match e
    case NewOrig(p) => NewOrigShows(t, p, o, i);
    case DelOrig(_) => assert Shows(t, o, i);
    case Schedule(j) =>
      if i == j {
        ScheduleShowsHere(t, j, o);
      } else {
        ScheduleShowsElsewhere(t, j, o, i);
      }
    case Echo(p, j, seqno) =>
      if o == p && i == j {
        EchoShowsHere(t, p, j, seqno);
      } else {
        EchoShowsElsewhere(t, p, j, seqno, o, i);
      }
    case _ => InterfaceChangeShows(t, e, o, i);
  }

  lemma StepTops(t: Trace, e: Event)
    requires Inv(t) && Enabled(t.m, e)
    ensures TopsOk(Extend(t, e))
  {
    var t' := Extend(t, e);
    assert TopsOk(t);
    hide NumbersOk, SlotsOk, Shows, Slide, Hear, DelSlot, AddSlot;
    assert t'.tops.Keys == t'.m.ifaces.Keys;
    forall i | i in t'.m.ifaces
      ensures t'.m.ifaces[i].ogmSeqno == Wrap(t'.tops[i])
    {
      if e.Schedule? && i == e.iface {
        WrapNext(t.tops[i]);
      }
      hide Wrap;
    }
  }

  lemma WrapNext(top: int)
    ensures Wrap(Wrap(top) + 1) == Wrap(top + 1)
  {
  }

  lemma ExtendKeepsInv(t: Trace, e: Event)
    requires Inv(t) && Enabled(t.m, e)
    ensures Inv(Extend(t, e))
  {
    StepKeepsNumbered(t.m, e);
    StepTops(t, e);
    var t' := Extend(t, e);
    assert t'.m == Step(t.m, e);
    hide Step, NumbersOk, SlotsOk, TopsOk, Shows, Extend;
    assert t'.m.ifaces.Keys == t'.tops.Keys by { TopsKeys(t'); }
    forall o, i | o in t'.m.origs && i in t'.m.ifaces
      ensures Shows(t', o, i)
    {
      StepShows(t, e, o, i);
    }
  }

  lemma TopsKeys(t: Trace)
    requires TopsOk(t)
    ensures t.tops.Keys == t.m.ifaces.Keys
  {
  }

  // A run from an empty mesh; events that cannot happen are skipped.
  ghost function Replay(es: seq<Event>): (t: Trace)
    ensures Inv(t)
  {
    if es == [] then Trace(State(map[], 0, map[]), map[], (o: nat, i: nat) => SILENT)
    else
      var t := Replay(es[..|es| - 1]);
      var e := es[|es| - 1];
      if Enabled(t.m, e) then
        ExtendKeepsInv(t, e);
        Extend(t, e)
      else t
  }

  // Who should be known after the events: who was met, in an OGM or an echo of
  // ours on an interface that is there, and not purged since.
  ghost function Met(es: seq<Event>): set<nat> {
    if es == [] then {}
    else
      var before := Met(es[..|es| - 1]);
      match es[|es| - 1]
      case NewOrig(o) => before + {o}
      case DelOrig(o) => before - {o}
      case Echo(o, i, _) => if i in Replay(es[..|es| - 1]).m.ifaces then before + {o} else before
      case _ => before
  }

  lemma StepOrigs(m: State, e: Event)
    requires Enabled(m, e)
    ensures Step(m, e).origs.Keys ==
            match e
            case NewOrig(o) => m.origs.Keys + {o}
            case DelOrig(o) => m.origs.Keys - {o}
            case Echo(o, _, _) => m.origs.Keys + {o}
            case _ => m.origs.Keys
  {
  }

  // In any run the originators with windows are exactly those.
  lemma {:induction false} OriginatorsAreMet(es: seq<Event>)
    ensures Replay(es).m.origs.Keys == Met(es)
  {
    hide Step, Inv;
    if es != [] {
      OriginatorsAreMet(es[..|es| - 1]);
      var t, e := Replay(es[..|es| - 1]), es[|es| - 1];
      if Enabled(t.m, e) {
        StepOrigs(t.m, e);
      }
    }
  }

  // In any run the interface numbers of the mesh are exactly 0 .. n - 1 and
  // every originator has n windows and n sums.
  lemma NumbersAreExact(es: seq<Event>)
    ensures var m := Replay(es).m;
            && |m.ifaces| == m.numIfaces
            && (set i | i in m.ifaces :: m.ifaces[i].ifNum) == Below(m.numIfaces)
            && (forall o :: o in m.origs ==> |m.origs[o].own| == |m.origs[o].sum| == m.numIfaces)
  {
    var m := Replay(es).m;
    hide Replay, Step;
    var nums := set i | i in m.ifaces :: m.ifaces[i].ifNum;
    forall n: nat | n in Below(m.numIfaces)
      ensures n in nums
    {
      assert HasNumber(m, n);
    }
    assert nums == Below(m.numIfaces);
    CountNumbers(m, m.ifaces.Keys, nums);
  }

  ghost function Below(n: nat): (s: set<nat>)
    ensures |s| == n && forall k: nat :: k in s <==> k < n
  {
    if n == 0 then {} else Below(n - 1) + {n - 1}
  }

  lemma CountNumbers(m: State, keys: set<nat>, nums: set<nat>)
    requires keys <= m.ifaces.Keys && nums == set i | i in keys :: m.ifaces[i].ifNum
    requires forall i, j :: i in keys && j in keys && m.ifaces[i].ifNum == m.ifaces[j].ifNum ==> i == j
    ensures |nums| == |keys|
  {
    if keys != {} {
      var i :| i in keys;
      var n := m.ifaces[i].ifNum;
      CountNumbers(m, keys - {i}, nums - {n});
    }
  }

  // The window, sum and history of originator o on interface i, found through
  // the interface number.
  ghost function Window(t: Trace, o: nat, i: nat): (Bits, nat, Heard)
    requires Inv(t) && o in t.m.origs && i in t.m.ifaces
  {
    assert Shows(t, o, i);
    var k := t.m.ifaces[i].ifNum;
    (t.m.origs[o].own[k], t.m.origs[o].sum[k], t.heard(o, i))
  }

  lemma WindowExact(t: Trace, o: nat, i: nat, b: nat)
    requires Inv(t) && o in t.m.origs && i in t.m.ifaces && b < WINDOW
    ensures var (bits, sum, h) := Window(t, o, i);
            && t.m.ifaces[i].ogmSeqno == Wrap(t.tops[i])
            && (bits[b] <==> t.tops[i] - 2 - b in h.seen || Leftover(h, b))
            && sum == (if h.written then Weight(bits) else h.wordSum)
            && (Clean(h) ==> sum == |InWindow(h.seen, t.tops[i] - 2, WINDOW)| <= WINDOW)
  {
    hide Wrap, Weight, NumbersOk, SlotsOk;
    assert Shows(t, o, i);
    var (bits, sum, h) := Window(t, o, i);
    if Clean(h) {
      CleanBits(bits, sum, t.tops[i], h);
      WeightCounts(bits, t.tops[i] - 2, h.seen, WINDOW);
      assert bits[..WINDOW] == bits;
    }
  }

  lemma CleanBits(bits: Bits, sum: nat, top: int, h: Heard)
    requires SlotExact(bits, sum, top, h) && Clean(h)
    ensures sum == Weight(bits) && Tracks(bits, top - 2, h.seen)
  {
    ZeroWeight(WINDOW);
    hide Weight;
    assert !h.written ==> bits == ZERO;
  }

  // In any run bit b of a window is set exactly when the echo of the own OGM
  // b + 2 before the next one was received while in range, or when it is a bit
  // of the memory the slot was allocated in that has not slid out yet.  The
  // sum is the number of set bits once the slot was written; with nothing left
  // of that memory it is the number of the echoes.
  lemma EchoWindowExact(es: seq<Event>, o: nat, i: nat, b: nat)
    requires o in Replay(es).m.origs && i in Replay(es).m.ifaces && b < WINDOW
    ensures var t := Replay(es);
            var (bits, sum, h) := Window(t, o, i);
            && t.m.ifaces[i].ogmSeqno == Wrap(t.tops[i])
            && (bits[b] <==> t.tops[i] - 2 - b in h.seen || Leftover(h, b))
            && sum == (if h.written then Weight(bits) else h.wordSum)
            && (Clean(h) ==> sum == |InWindow(h.seen, t.tops[i] - 2, WINDOW)| <= WINDOW)
  {
    hide Replay, Inv, Window, Wrap, InWindow, Weight, Clean, Leftover;
    WindowExact(Replay(es), o, i, b);
  }
}

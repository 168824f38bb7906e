// B.A.T.M.A.N. V: acceptance and forwarding of OGM2 packets, as seen for one
// outgoing interface (bat_v_ogm.c).

module OgmV {
  import opened SeqNo
  import opened Bitarray
  import opened ResetProtection
  import opened Timeout
  import opened Wire
  import opened Wrappers

  const OGM_MAX_AGE := 64
  const TQ_MAX_VALUE := 255
  const EINVAL := 22

  datatype Ogm2 = Ogm2(seqno: u32, ttl: byte, throughput: u32)

  // The outgoing interface: the default one, or a specific one with its hop
  // penalty.  halved: the OGM leaves on the half-duplex interface it came in on.
  datatype Outgoing = Default | Specific(hopPenalty: byte, halved: bool)

  // batadv_v_forward_penalty.  The product is computed in 32 unsigned bits.
  function ForwardPenalty(throughput: u32, out: Outgoing): u32 {
    if out.Default? then throughput
    else if throughput > 10 && out.halved then throughput / 2
    else Wrap(throughput * (TQ_MAX_VALUE - out.hopPenalty)) / TQ_MAX_VALUE
  }

  lemma ShareAtMost(a: nat, b: nat, c: nat)
    requires b <= c
    ensures 0 <= a * b <= a * c
  {
  }

  // The metric never grows from hop to hop, overflow included.
  lemma PenaltyNeverRaises(throughput: u32, out: Outgoing)
    ensures ForwardPenalty(throughput, out) <= throughput
  {
    if out.Specific? {
      ShareAtMost(throughput, TQ_MAX_VALUE - out.hopPenalty, TQ_MAX_VALUE);
      var p := throughput * (TQ_MAX_VALUE - out.hopPenalty);
      assert Wrap(p) <= p <= throughput * TQ_MAX_VALUE;
    }
  }

  // Where the hop penalty applies, the metric is the intended share of the
  // throughput if and only if the 32-bit product does not overflow.
  lemma PenaltyExact(throughput: u32, out: Outgoing)
    requires out.Specific? && (throughput <= 10 || !out.halved)
    ensures ForwardPenalty(throughput, out) == throughput * (TQ_MAX_VALUE - out.hopPenalty) / TQ_MAX_VALUE
            <==> throughput * (TQ_MAX_VALUE - out.hopPenalty) < TWO_TO_32
  {
    ShareAtMost(throughput, 0, TQ_MAX_VALUE - out.hopPenalty);
    var p := throughput * (TQ_MAX_VALUE - out.hopPenalty);
    if p >= TWO_TO_32 {
      assert Wrap(p) <= p - TWO_TO_32;
    }
  }

  // Where it does not apply: the default interface takes the throughput as it
  // is, a half-duplex interface that repeats what it receives halves it, unless
  // that would leave less than six units.
  lemma NoPenalty(throughput: u32, out: Outgoing)
    ensures out.Default? ==> ForwardPenalty(throughput, out) == throughput
    ensures out.Specific? && out.halved && throughput > 10 ==>
              2 * ForwardPenalty(throughput, out) <= throughput <= 2 * ForwardPenalty(throughput, out) + 1
  {
  }

  // 2 Tbit/s over one hop with the penalty 30.
  lemma PenaltyWraps()
    ensures ForwardPenalty(20_000_000, Specific(30, false)) == 804_049
    ensures 20_000_000 * (TQ_MAX_VALUE - 30) / TQ_MAX_VALUE == 17_647_058
  {
  }

  // The sequence-number fields of an originator for one outgoing interface.
  datatype Ifinfo = Ifinfo(lastReal: u32, lastForwarded: u32, reset: int)

  // One OGM2 as seen for this outgoing interface.  neighborless: the neighbour
  // list of the originator is empty; routeOk: batadv_v_ogm_route_update lets it
  // through; fromRouter: after that update its sender is the best next hop.
  datatype Rx = Rx(ogm: Ogm2, neighborless: bool, routeOk: bool, fromRouter: bool, out: Outgoing, now: int)

  function Metric(rx: Rx): u32 {
    ForwardPenalty(rx.ogm.throughput, rx.out)
  }

  predicate Restarts(s: Ifinfo, rx: Rx) {
    !rx.neighborless && LooksRestarted(Signed(rx.ogm.seqno - s.lastReal), OGM_MAX_AGE)
  }

  // batadv_v_ogm_metric_update does not return an error.
  predicate Passes(s: Ifinfo, rx: Rx) {
    if Restarts(s, rx) then HasTimedOut(s.reset, RESET_PROTECTION_MS, rx.now)
    else Signed(rx.ogm.seqno - s.lastReal) >= 0
  }

  // It is newer than all before, or the first one after a restart.
  predicate IsNews(s: Ifinfo, rx: Rx) {
    Passes(s, rx) && (Restarts(s, rx) || rx.ogm.seqno != s.lastReal)
  }

  // It passes every check that does not look at the last forwarded number.
  predicate Forwardable(s: Ifinfo, rx: Rx) {
    Passes(s, rx) && rx.out.Specific? && rx.routeOk && rx.fromRouter
  }

  predicate Marks(s: Ifinfo, rx: Rx) {
    Forwardable(s, rx) && s.lastForwarded != rx.ogm.seqno
  }

  function Step(s: Ifinfo, rx: Rx): Ifinfo {
    if !Passes(s, rx) then s
    else Ifinfo(rx.ogm.seqno,
                if Marks(s, rx) then rx.ogm.seqno else s.lastForwarded,
                if Restarts(s, rx) then rx.now else s.reset)
  }

  function Sends(s: Ifinfo, rx: Rx): Option<Ogm2> {
    if Marks(s, rx) && rx.ogm.ttl > 1 then Some(Ogm2(rx.ogm.seqno, rx.ogm.ttl - 1, Metric(rx))) else None
  }

  class OrigIfinfo {
    var lastRealSeqno: u32
    var lastSeqnoForwarded: u32
    var batmanSeqnoReset: int

    ghost function View(): Ifinfo
      reads this
    {
      Ifinfo(lastRealSeqno, lastSeqnoForwarded, batmanSeqnoReset)
    }

    constructor (now: int)
      ensures View() == Ifinfo(0, 0, now - 1 - RESET_PROTECTION_MS)
    {
      lastRealSeqno, lastSeqnoForwarded := 0, 0;
      batmanSeqnoReset := now - 1 - RESET_PROTECTION_MS;
    }

    // batadv_v_ogm_metric_update
    method MetricUpdate(rx: Rx) returns (age: int, metric: u32)
      modifies this
      ensures age >= 0 <==> Passes(old(View()), rx)
      ensures age == 1 <==> IsNews(old(View()), rx)
      ensures age in {1, 0, -EINVAL}
      ensures age >= 0 ==> metric == Metric(rx)
      ensures if age < 0 then View() == old(View())
              else View() == Ifinfo(rx.ogm.seqno, old(lastSeqnoForwarded),
                                    if Restarts(old(View()), rx) then rx.now else old(batmanSeqnoReset))
    {
      var seqDiff := Signed(rx.ogm.seqno - lastRealSeqno);
      var started := false;
      metric := 0;
      if !rx.neighborless {
        var ignore;
        ignore, batmanSeqnoReset, started := WindowProtected(seqDiff, OGM_MAX_AGE, batmanSeqnoReset, started, rx.now);
        if ignore {
          age := -EINVAL;
          return;
        }
      }
      if seqDiff < 0 && !started {
        age := -EINVAL;
        return;
      }
      lastRealSeqno := rx.ogm.seqno;
      metric := ForwardPenalty(rx.ogm.throughput, rx.out);
      age := if seqDiff > 0 || started then 1 else 0;
    }

    // batadv_v_ogm_forward
    method Forward(rx: Rx, metric: u32) returns (sent: Option<Ogm2>)
      modifies this`lastSeqnoForwarded
      ensures var mark := rx.out.Specific? && rx.fromRouter && old(lastSeqnoForwarded) != rx.ogm.seqno;
              && lastSeqnoForwarded == (if mark then rx.ogm.seqno else old(lastSeqnoForwarded))
              && sent == if mark && rx.ogm.ttl > 1 then Some(Ogm2(rx.ogm.seqno, rx.ogm.ttl - 1, metric)) else None
    {
      if rx.out.Default? {
        return None;
      }
      if !rx.fromRouter {
        return None;
      }
      if lastSeqnoForwarded == rx.ogm.seqno {
        return None;
      }
      lastSeqnoForwarded := rx.ogm.seqno;
      if rx.ogm.ttl <= 1 {
        return None;
      }
      sent := Some(rx.ogm.(throughput := metric, ttl := rx.ogm.ttl - 1));
    }

    // batadv_v_ogm_process_per_outif; containers says that the TVLV containers
    // of the OGM are processed.
    method ProcessPerOutif(rx: Rx) returns (sent: Option<Ogm2>, containers: bool)
      modifies this
      ensures View() == Step(old(View()), rx)
      ensures sent == Sends(old(View()), rx)
      ensures containers <==> rx.out.Default? && IsNews(old(View()), rx)
    {
      var seqnoAge, metric := MetricUpdate(rx);
      sent, containers := None, false;
      if seqnoAge < 0 {
        return;
      }
      if seqnoAge > 0 && rx.out.Default? {
        containers := true;
      }
      if rx.routeOk {
        sent := Forward(rx, metric);
      }
    }
  }

  // What is forwarded has a smaller ttl and no better metric than what came in.
  lemma ForwardedIsWeaker(s: Ifinfo, rx: Rx)
    requires Sends(s, rx).Some?
    ensures Sends(s, rx).value.ttl < rx.ogm.ttl
    ensures Sends(s, rx).value.throughput <= rx.ogm.throughput
  {
    PenaltyNeverRaises(rx.ogm.throughput, rx.out);
  }

  // ----- Runs -----

  // A forwarded OGM: its epoch (the number of restarts so far) and position.
  datatype Forwarded = Forwarded(epoch: nat, pos: int, ogm: Ogm2)

  // An epoch and a position in it.
  datatype Mark = Mark(epoch: nat, pos: int)

  // passed: the OGMs that were accepted; resets: when the number was seen to
  // start over; log: what was forwarded; news: what was news on the interface;
  // last: the last OGM whose number was remembered, forwarded or not.
  datatype Trace = Trace(s: Ifinfo, epoch: nat, top: int, passed: seq<Mark>, resets: seq<int>, log: seq<Forwarded>,
                         news: seq<Mark>, last: Option<Mark>)

  ghost function Extend(t: Trace, rx: Rx): Trace {
    var epoch' := if Passes(t.s, rx) && Restarts(t.s, rx) then t.epoch + 1 else t.epoch;
    var top' := if Passes(t.s, rx) then t.top + Signed(rx.ogm.seqno - t.s.lastReal) else t.top;
    Trace(Step(t.s, rx), epoch', top',
          if Passes(t.s, rx) then t.passed + [Mark(epoch', top')] else t.passed,
          if Passes(t.s, rx) && Restarts(t.s, rx) then t.resets + [rx.now] else t.resets,
          if Sends(t.s, rx).Some? then t.log + [Forwarded(epoch', top', Sends(t.s, rx).value)] else t.log,
          if IsNews(t.s, rx) then t.news + [Mark(epoch', top')] else t.news,
          if Marks(t.s, rx) then Some(Mark(epoch', top')) else t.last)
  }

  ghost function Replay(created: int, rxs: seq<Rx>): Trace {
    if rxs == [] then Trace(Ifinfo(0, 0, created - 1 - RESET_PROTECTION_MS), 0, 0, [], [], [], [], None)
    else Extend(Replay(created, rxs[..|rxs| - 1]), rxs[|rxs| - 1])
  }

  ghost predicate Increasing(log: seq<Forwarded>) {
    forall j, k :: 0 <= j < k < |log| && log[j].epoch == log[k].epoch ==> log[j].pos < log[k].pos
  }

  ghost predicate LogOk(t: Trace) {
    && (forall k :: 0 <= k < |t.log| ==>
          && t.log[k].epoch <= t.epoch
          && t.log[k].ogm.seqno == Wrap(t.log[k].pos)
          && (t.log[k].epoch == t.epoch ==>
                && t.log[k].pos <= t.top
                && (t.log[k].pos == t.top ==> t.s.lastForwarded == t.s.lastReal)))
    && Increasing(t.log)
  }

  ghost predicate NewsOk(t: Trace) {
    && (forall k :: 0 <= k < |t.news| ==> t.news[k].epoch <= t.epoch)
    && (forall k :: 0 <= k < |t.news| && t.news[k].epoch == t.epoch ==> t.news[k].pos <= t.top)
    && (forall j, k :: 0 <= j < k < |t.news| && t.news[j].epoch == t.news[k].epoch ==> t.news[j].pos < t.news[k].pos)
  }

  // The remembered number is that of the last mark, or the initial zero.
  ghost predicate LastOk(t: Trace) {
    match t.last
    case None => t.s.lastForwarded == 0
    case Some(m) =>
      && t.s.lastForwarded == Wrap(m.pos)
      && m.epoch <= t.epoch
      && (m.epoch == t.epoch ==> m.pos <= t.top)
  }

  // The newest position is the largest that passed in the epoch, or the zero
  // the record starts with.
  ghost predicate PassedOk(t: Trace) {
    && (forall k :: 0 <= k < |t.passed| ==> t.passed[k].epoch <= t.epoch)
    && (forall k :: 0 <= k < |t.passed| && t.passed[k].epoch == t.epoch ==> t.passed[k].pos <= t.top)
    && (t.epoch == 0 ==> t.top >= 0)
    && (Mark(t.epoch, t.top) in t.passed || (t.epoch == 0 && t.top == 0))
  }

  ghost predicate ResetsOk(t: Trace, created: int) {
    && ResetsSpaced(t.resets)
    && t.epoch == |t.resets|
    && t.s.reset + RESET_PROTECTION_MS == ProtectedUntil(t.resets, created)
  }

  ghost predicate Inv(t: Trace) {
    t.s.lastReal == Wrap(t.top) && LogOk(t) && NewsOk(t) && LastOk(t)
  }

  // What one OGM does to the newest position.
  lemma StepMoves(s: Ifinfo, top: int, rx: Rx)
    requires s.lastReal == Wrap(top)
    ensures var top' := top + Signed(rx.ogm.seqno - s.lastReal);
            && Wrap(top') == rx.ogm.seqno
            && (Passes(s, rx) && !Restarts(s, rx) ==> top' >= top)
            && (top' == top ==> rx.ogm.seqno == s.lastReal)
            && (rx.ogm.seqno == s.lastReal ==> top' == top)
  {
    Unwrap(top, rx.ogm.seqno);
  }

  lemma ExtendKeepsLog(t: Trace, rx: Rx)
    requires Inv(t)
    ensures LogOk(Extend(t, rx))
  {
    StepMoves(t.s, t.top, rx);
    hide Signed, Wrap, Restarts, Passes, NewsOk, LastOk;
    var t' := Extend(t, rx);
    if Sends(t.s, rx).Some? {
      forall k | 0 <= k < |t.log| && t.log[k].epoch == t'.epoch
        ensures t.log[k].pos < t'.top
      {
      }
    }
  }

  lemma ExtendKeepsNews(t: Trace, rx: Rx)
    requires Inv(t)
    ensures NewsOk(Extend(t, rx))
  {
    StepMoves(t.s, t.top, rx);
    hide Signed, Wrap, Restarts, Passes, LogOk, LastOk;
  }

  lemma ExtendKeepsLast(t: Trace, rx: Rx)
    requires Inv(t)
    ensures LastOk(Extend(t, rx)) && Extend(t, rx).s.lastReal == Wrap(Extend(t, rx).top)
  {
    StepMoves(t.s, t.top, rx);
    hide Signed, Wrap, Restarts, Passes, LogOk, NewsOk;
  }

  lemma InvParts(t: Trace)
    requires t.s.lastReal == Wrap(t.top) && LogOk(t) && NewsOk(t) && LastOk(t)
    ensures Inv(t)
  {
  }

  lemma {:induction false} RunInv(created: int, rxs: seq<Rx>)
    ensures Inv(Replay(created, rxs))
  {
    if rxs != [] {
      RunInv(created, rxs[..|rxs| - 1]);
      var t, rx := Replay(created, rxs[..|rxs| - 1]), rxs[|rxs| - 1];
      ExtendKeepsLog(t, rx);
      ExtendKeepsNews(t, rx);
      ExtendKeepsLast(t, rx);
      hide Inv, Extend, LogOk, NewsOk, LastOk;
      InvParts(Extend(t, rx));
    }
  }

  lemma ExtendKeepsPassed(t: Trace, rx: Rx)
    requires t.s.lastReal == Wrap(t.top) && PassedOk(t)
    ensures PassedOk(Extend(t, rx))
  {
    StepMoves(t.s, t.top, rx);
    hide Signed, Wrap, Restarts, Passes;
    var t' := Extend(t, rx);
    if Passes(t.s, rx) {
      assert t'.passed[|t.passed|] == Mark(t'.epoch, t'.top);
    }
  }

  lemma ExtendedResets(t: Trace, rx: Rx)
    ensures var t' := Extend(t, rx);
            if Passes(t.s, rx) && Restarts(t.s, rx)
            then t'.resets == t.resets + [rx.now] && t'.epoch == t.epoch + 1 && t'.s.reset == rx.now
                 && rx.now > t.s.reset + RESET_PROTECTION_MS
            else t'.resets == t.resets && t'.epoch == t.epoch && t'.s.reset == t.s.reset
  {
    hide Signed, Wrap, Marks, Sends, IsNews;
  }

  lemma ExtendKeepsResets(t: Trace, rx: Rx, created: int)
    requires ResetsOk(t, created)
    ensures ResetsOk(Extend(t, rx), created)
  {
    ExtendedResets(t, rx);
    hide Extend, Restarts, Passes, ResetsSpaced;
    if Passes(t.s, rx) && Restarts(t.s, rx) {
      NextReset(t.resets, created, rx.now);
    }
  }

  lemma {:induction false} RunAccepts(created: int, rxs: seq<Rx>)
    ensures PassedOk(Replay(created, rxs)) && ResetsOk(Replay(created, rxs), created)
  {
    if rxs != [] {
      var before := rxs[..|rxs| - 1];
      RunAccepts(created, before);
      RunInv(created, before);
      ExtendKeepsPassed(Replay(created, before), rxs[|rxs| - 1]);
      ExtendKeepsResets(Replay(created, before), rxs[|rxs| - 1], created);
      hide PassedOk, ResetsOk, Extend, Inv;
    }
  }

  // In any run two restarts are more than the protection time apart, and there
  // is one epoch per restart.
  lemma ResetsFarApart(created: int, rxs: seq<Rx>, j: nat, k: nat)
    requires j < k < |Replay(created, rxs).resets|
    ensures var t := Replay(created, rxs);
            t.resets[k] - t.resets[j] > RESET_PROTECTION_MS && t.epoch == |t.resets|
  {
    RunAccepts(created, rxs);
  }

  // The next OGM is acceptable by the history: not older than the newest one,
  // or, where its number looks like a restart of an originator that has
  // neighbours, more than the protection time after the last restart.
  ghost predicate Acceptable(t: Trace, created: int, rx: Rx) {
    var diff := Signed(rx.ogm.seqno - Wrap(t.top));
    if !rx.neighborless && (diff <= -64 || diff >= 65536) then rx.now > ProtectedUntil(t.resets, created) else diff >= 0
  }

  // When exactly an OGM is accepted; one that is not changes nothing.
  lemma AcceptedExactly(created: int, rxs: seq<Rx>, rx: Rx)
    ensures var t := Replay(created, rxs);
            && (Passes(t.s, rx) <==> Acceptable(t, created, rx))
            && (!Acceptable(t, created, rx) ==> Extend(t, rx) == t)
            && (Acceptable(t, created, rx) ==> Extend(t, rx).s.lastReal == rx.ogm.seqno)
  {
    hide Replay, LogOk, NewsOk, LastOk, PassedOk, Passes, Acceptable, Extend, ResetsOk;
    RunInv(created, rxs);
    RunAccepts(created, rxs);
    AcceptedFrom(Replay(created, rxs), created, rx);
    RefusedOrTaken(Replay(created, rxs), rx);
  }

  lemma AcceptedFrom(t: Trace, created: int, rx: Rx)
    requires t.s.lastReal == Wrap(t.top) && ResetsOk(t, created)
    ensures Passes(t.s, rx) <==> Acceptable(t, created, rx)
  {
    hide Signed, Wrap;
  }

  lemma RefusedOrTaken(t: Trace, rx: Rx)
    ensures !Passes(t.s, rx) ==> Extend(t, rx) == t
    ensures Passes(t.s, rx) ==> Extend(t, rx).s.lastReal == rx.ogm.seqno
  {
    hide Signed, Passes, Restarts, ForwardPenalty;
  }

  // When exactly an accepted OGM is news, from what was accepted before it: it
  // lies beyond all of them in its epoch; in the first epoch also beyond the
  // zero the record starts with.
  lemma NewsExactly(created: int, rxs: seq<Rx>, rx: Rx)
    requires Passes(Replay(created, rxs).s, rx)
    ensures var t := Replay(created, rxs);
            var t' := Extend(t, rx);
            IsNews(t.s, rx) <==>
            && (forall k :: 0 <= k < |t.passed| && t.passed[k].epoch == t'.epoch ==> t.passed[k].pos < t'.top)
            && (t'.epoch == 0 ==> t'.top > 0)
  {
    hide Replay, LogOk, NewsOk, LastOk, PassedOk, Passes, IsNews, Extend, ResetsOk;
    RunInv(created, rxs);
    RunAccepts(created, rxs);
    NewsFrom(Replay(created, rxs), rx);
  }

  lemma NewsFrom(t: Trace, rx: Rx)
    requires t.s.lastReal == Wrap(t.top) && PassedOk(t) && Passes(t.s, rx)
    ensures var t' := Extend(t, rx);
            IsNews(t.s, rx) <==>
            && (forall k :: 0 <= k < |t.passed| && t.passed[k].epoch == t'.epoch ==> t.passed[k].pos < t'.top)
            && (t'.epoch == 0 ==> t'.top > 0)
  {
    hide Signed, Wrap, Restarts, Passes, Marks, Sends, Step;
    StepMoves(t.s, t.top, rx);
    if Mark(t.epoch, t.top) in t.passed {
      var k :| 0 <= k < |t.passed| && t.passed[k] == Mark(t.epoch, t.top);
    }
  }

  // In any run, what is forwarded on the interface within one epoch are OGMs
  // of strictly increasing position, so none is forwarded twice, although only
  // the last forwarded number is remembered.
  lemma ForwardedOncePerEpoch(created: int, rxs: seq<Rx>, j: nat, k: nat)
    requires j < k < |Replay(created, rxs).log|
    ensures var log := Replay(created, rxs).log;
            log[j].epoch == log[k].epoch ==> log[j].pos < log[k].pos
  {
    RunInv(created, rxs);
  }

  // The same number goes out twice in an epoch only a full wrap apart.
  lemma NumberForwardedAgainAfterWrap(created: int, rxs: seq<Rx>, j: nat, k: nat)
    requires j < k < |Replay(created, rxs).log|
    ensures var log := Replay(created, rxs).log;
            log[j].epoch == log[k].epoch && log[j].ogm.seqno == log[k].ogm.seqno ==>
              log[k].pos - log[j].pos >= TWO_TO_32
  {
    RunInv(created, rxs);
    var log := Replay(created, rxs).log;
    if log[j].epoch == log[k].epoch && log[j].ogm.seqno == log[k].ogm.seqno {
      SameNumberFarApart(log[j].pos, log[k].pos);
    }
  }

  // What is news on an interface within one epoch has strictly increasing
  // positions; on the default interface, this is what is processed.
  lemma NewsOncePerEpoch(created: int, rxs: seq<Rx>, j: nat, k: nat)
    requires j < k < |Replay(created, rxs).news|
    ensures var news := Replay(created, rxs).news;
            news[j].epoch == news[k].epoch ==> news[j].pos < news[k].pos
  {
    RunInv(created, rxs);
  }

  ghost predicate HeldBack(t: Trace, t': Trace, rx: Rx) {
    match t.last
    case None => rx.ogm.seqno == 0
    case Some(m) =>
      if m.epoch == t'.epoch then t'.top >= m.pos && (t'.top - m.pos) % TWO_TO_32 == 0
      else rx.ogm.seqno == Wrap(m.pos)
  }

  // When exactly an OGM that should be forwarded is held back, over all runs,
  // in terms of the last OGM marked as forwarded: it has the same position, or
  // one a multiple of 2^32 further on; or it belongs to a later epoch and its
  // number is merely the same; or nothing was marked yet and its number is the
  // zero the record starts with.
  lemma HeldBackExactly(created: int, rxs: seq<Rx>, rx: Rx)
    requires Forwardable(Replay(created, rxs).s, rx) && rx.ogm.ttl > 1
    ensures var t := Replay(created, rxs);
            Sends(t.s, rx) == None <==> HeldBack(t, Extend(t, rx), rx)
  {
    hide Replay, LogOk, NewsOk, LastOk, Sends, HeldBack, Extend, Passes, Restarts;
    RunInv(created, rxs);
    HeldBackFrom(Replay(created, rxs), rx);
  }

  lemma HeldBackFrom(t: Trace, rx: Rx)
    requires t.s.lastReal == Wrap(t.top) && LastOk(t) && Forwardable(t.s, rx) && rx.ogm.ttl > 1
    ensures Sends(t.s, rx) == None <==> HeldBack(t, Extend(t, rx), rx)
  {
    hide Signed, Wrap, Restarts, Passes;
    StepMoves(t.s, t.top, rx);
    if t.last.Some? {
      SameNumber(t.last.value.pos, Extend(t, rx).top);
    }
  }

  // What exactly is sent, over all runs and from their history: an acceptable
  // OGM, on a specific interface, when the route update lets it through, from
  // the best next hop, unless it is held back or its ttl is used up.
  lemma ForwardedExactly(created: int, rxs: seq<Rx>, rx: Rx)
    ensures var t := Replay(created, rxs);
            Sends(t.s, rx) ==
            if && Acceptable(t, created, rx) && rx.out.Specific? && rx.routeOk && rx.fromRouter
               && rx.ogm.ttl > 1 && !HeldBack(t, Extend(t, rx), rx)
            then Some(Ogm2(rx.ogm.seqno, rx.ogm.ttl - 1, ForwardPenalty(rx.ogm.throughput, rx.out)))
            else None
  {
    AcceptedExactly(created, rxs, rx);
    var t := Replay(created, rxs);
    if Forwardable(t.s, rx) && rx.ogm.ttl > 1 {
      HeldBackExactly(created, rxs, rx);
    }
    hide Replay, Extend, Acceptable, HeldBack, Passes, ForwardPenalty;
  }

  lemma SameNumber(p: int, q: int)
    ensures Wrap(p) == Wrap(q) <==> (q - p) % TWO_TO_32 == 0
  {
  }

  // The two ways in which a first sighting is held back: the number 0 on a
  // fresh record ...
  lemma FirstNumberZeroIsHeldBack(created: int, rx: Rx)
    requires rx.ogm.seqno == 0
    ensures var s := Ifinfo(0, 0, created - 1 - RESET_PROTECTION_MS);
            Passes(s, rx) && Sends(s, rx) == None
  {
  }

  // ... and, after a restart, the number forwarded last before it: 100 is
  // forwarded, 200 comes from elsewhere, then the originator restarts at 100.
  lemma NumberBeforeRestartIsHeldBack(created: int, now: int)
    requires now >= created
    ensures var out := Specific(0, false);
            var before := [Rx(Ogm2(100, 50, 1000), false, true, true, out, now),
                           Rx(Ogm2(200, 50, 1000), false, true, false, out, now)];
            var rx := Rx(Ogm2(100, 50, 1000), false, true, true, out, now + RESET_PROTECTION_MS + 1);
            var t := Replay(created, before);
            && Forwardable(t.s, rx) && Restarts(t.s, rx) && Sends(t.s, rx) == None
            && t.last == Some(Mark(0, 100)) && Extend(t, rx).epoch == 1
  {
    var out := Specific(0, false);
    var a := Rx(Ogm2(100, 50, 1000), false, true, true, out, now);
    var b := Rx(Ogm2(200, 50, 1000), false, true, false, out, now);
    assert [a, b][..1] == [a] && [a][..0] == [];
    assert Replay(created, [a]) == Extend(Replay(created, []), a);
    assert Replay(created, [a, b]) == Extend(Replay(created, [a]), b);
  }
}

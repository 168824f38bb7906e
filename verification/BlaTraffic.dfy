// Bridge loop avoidance: what the handlers come to, in terms of the claims.
// Which packets are handed on, and by which of several gateways; what a claim
// frame changes; what the periodic work removes and when it stops waiting.

module BlaTraffic {
  import opened Bla
  import opened BlaRuns
  import opened Timeout
  import opened Wrappers

  // ----- Traffic -----

  ghost predicate Waiting(s: State) {
    exists g :: g in s.gws && s.gws[g].requestSent
  }

  ghost predicate Ours(s: State, prim: Mac, c: ClaimKey) {
    c in s.claims && s.claims[c].owner.orig == prim
  }

  ghost predicate Others(s: State, prim: Mac, c: ClaimKey) {
    c in s.claims && s.claims[c].owner.orig != prim
  }

  lemma WaitingCounted(h: Hash, s: State)
    requires Inv(h, s)
    ensures s.numRequests != 0 <==> Waiting(s)
  {
    hide CrcOk, OwnersOk;
    if g :| g in s.gws && s.gws[g].requestSent {
      assert g in Pending(s);
    } else {
      assert Pending(s) == {};
    }
  }

  // A known gateway of our own is only kept alive; a new one is announced and
  // waits for its first periods.
  lemma UpdateOwnGwExactly(s: State, prim: Mac, vid: Vid, now: int)
    ensures var (s', out) := UpdateOwnGw(s, prim, vid, now);
            var g := GwKey(prim, vid);
            && s'.claims == s.claims && s'.group == s.group
            && s'.gws.Keys == s.gws.Keys + {g}
            && (forall k :: k in s.gws && k != g ==> s'.gws[k] == s.gws[k])
            && s'.gws[g] == (if g in s.gws then s.gws[g].(lasttime := now) else Gw(0, true, 3, now))
            && out == if g in s.gws then [] else [AnnounceFrame(prim, 0, vid, s.group)]
  {
  }

  // Adding a claim touches the gateway that gets it, unless it had it.
  lemma AddClaimExactly(h: Hash, s: State, c: ClaimKey, g: GwKey, now: int)
    requires g in s.gws
    ensures var s' := AddClaim(h, s, c, g, now);
            && s'.claims == s.claims[c := Claim(g, now)] && s'.group == s.group && s'.gws.Keys == s.gws.Keys
    ensures var gws := AddClaim(h, s, c, g, now).gws;
            forall k :: k in s.gws ==>
              gws[k] == s.gws[k].(crc := gws[k].crc,
                                  lasttime := if k == g && !(c in s.claims && s.claims[c].owner == g) then now
                                              else s.gws[k].lasttime)
  {
    hide Mix;
  }

  lemma ForeignGwExactly(s: State, g: GwKey, now: int)
    ensures GetGw(s, g, false, now) ==
            (if g in s.gws then s else s.(gws := s.gws[g := Gw(0, false, 0, now)]), [])
  {
  }

  // A claim frame makes the claim, whoever had it before; a gateway not known
  // yet gets known, and is not waited for.
  lemma ClaimExactly(h: Hash, s: State, prim: Mac, backbone: Mac, client: Mac, vid: Vid, now: int)
    ensures var (s', out) := HandleClaim(h, s, prim, backbone, client, vid, now);
            var c, g := ClaimKey(client, vid), GwKey(backbone, vid);
            && s'.claims == s.claims[c := Claim(g, now)] && s'.group == s.group
            && s'.gws.Keys == s.gws.Keys + {g}
            && (forall k :: k in s.gws && k != g ==> s'.gws[k] == s.gws[k].(crc := s'.gws[k].crc))
            && (var w := if g in s.gws then s.gws[g] else Gw(0, false, 0, now);
                s'.gws[g] == w.(crc := s'.gws[g].crc,
                                lasttime := if c in s.claims && s.claims[c].owner == g then w.lasttime else now))
            && out == if backbone == prim then [ClaimFrame(prim, client, vid, s.group)] else []
  {
    hide AddClaim, GetGw;
    ForeignGwExactly(s, GwKey(backbone, vid), now);
    AddClaimExactly(h, GetGw(s, GwKey(backbone, vid), false, now).0, ClaimKey(client, vid), GwKey(backbone, vid), now);
  }

  // An unclaim frame of a known gateway removes the claim, whoever has it.
  lemma UnclaimExactly(h: Hash, s: State, prim: Option<Mac>, backbone: Mac, client: Mac, vid: Vid)
    ensures var (s', out) := HandleUnclaim(h, s, prim, backbone, client, vid);
            && s'.claims == (if GwKey(backbone, vid) in s.gws then s.claims - {ClaimKey(client, vid)} else s.claims)
            && s'.gws.Keys == s.gws.Keys && s'.group == s.group
            && (forall k :: k in s.gws ==> s'.gws[k] == s.gws[k].(crc := s'.gws[k].crc))
            && out == if prim == Some(backbone) then [UnclaimFrame(backbone, client, vid, s.group)] else []
  {
    hide Mix;
  }

  // Over all runs: which packets from the mesh are not handed on to the LAN,
  // and what a packet that is handed on leaves behind.  Then the client is
  // ours, heard of just now, and the LAN is told so if it was not ours before.
  lemma RxExactly(h: Hash, es: seq<Event>, prim: Mac, p: Packet, now: int)
    ensures var s, c := Run(h, es), ClaimKey(p.src, p.vid);
            var (s', out, held) := Rx(h, s, prim, true, p, now);
            && (held <==> p.multicast && p.isBcast && (Waiting(s) || Others(s, prim, c)))
            && (held ==> s' == s && out == [])
            && (!held ==>
                  && s'.claims == s.claims[c := Claim(GwKey(prim, p.vid), now)] && s'.group == s.group
                  && out == if Ours(s, prim, c) then [] else [ClaimFrame(prim, p.src, p.vid, s.group)])
  {
    hide Run, Inv, Rx;
    RunInv(h, es);
    RxFrom(h, Run(h, es), prim, p, now);
  }

  lemma RxFrom(h: Hash, s: State, prim: Mac, p: Packet, now: int)
    requires Inv(h, s)
    ensures var c := ClaimKey(p.src, p.vid);
            var (s', out, held) := Rx(h, s, prim, true, p, now);
            && (held <==> p.multicast && p.isBcast && (Waiting(s) || Others(s, prim, c)))
            && (held ==> s' == s && out == [])
            && (!held ==>
                  && s'.claims == s.claims[c := Claim(GwKey(prim, p.vid), now)] && s'.group == s.group
                  && out == if Ours(s, prim, c) then [] else [ClaimFrame(prim, p.src, p.vid, s.group)])
  {
    hide Inv, Waiting, UpdateOwnGw, HandleClaim, Xor, Owned;
    WaitingCounted(h, s);
    var c := ClaimKey(p.src, p.vid);
    OwnerKnown(h, s, c);
    ClaimExactly(h, s, prim, prim, p.src, p.vid, now);
    UpdateOwnGwExactly(HandleClaim(h, s, prim, prim, p.src, p.vid, now).0, prim, p.vid, now);
    if Ours(s, prim, c) {
      var s1 := s.(claims := s.claims[c := s.claims[c].(lasttime := now)]);
      assert s1.claims == s.claims[c := Claim(GwKey(prim, p.vid), now)];
      UpdateOwnGwExactly(s1, prim, p.vid, now);
    }
  }

  lemma OwnerKnown(h: Hash, s: State, c: ClaimKey)
    requires Inv(h, s)
    ensures c in s.claims ==> s.claims[c].owner == GwKey(s.claims[c].owner.orig, c.vid) && s.claims[c].owner in s.gws
  {
    hide CrcOk;
  }

  // Over all runs: which packets from the LAN are not handed on to the mesh,
  // and what becomes of the claim.  A client of ours that speaks on the LAN has
  // roamed: it is ours no longer, and the LAN is told so.
  lemma TxExactly(h: Hash, es: seq<Event>, prim: Mac, p: Packet, now: int)
    ensures var s, c := Run(h, es), ClaimKey(p.src, p.vid);
            var (s', out, held) := Tx(h, s, prim, true, p, now);
            && (held <==> p.multicast && (Waiting(s) || Others(s, prim, c)))
            && (held ==> s' == s && out == [])
            && (!held ==>
                  && s'.claims == (if Ours(s, prim, c) then s.claims - {c} else s.claims) && s'.group == s.group
                  && out == if Ours(s, prim, c) then [UnclaimFrame(prim, p.src, p.vid, s.group)]
                            else if GwKey(prim, p.vid) in s.gws then []
                            else [AnnounceFrame(prim, 0, p.vid, s.group)])
  {
    hide Run, Inv, Tx;
    RunInv(h, es);
    TxFrom(h, Run(h, es), prim, p, now);
  }

  lemma TxFrom(h: Hash, s: State, prim: Mac, p: Packet, now: int)
    requires Inv(h, s)
    ensures var c := ClaimKey(p.src, p.vid);
            var (s', out, held) := Tx(h, s, prim, true, p, now);
            && (held <==> p.multicast && (Waiting(s) || Others(s, prim, c)))
            && (held ==> s' == s && out == [])
            && (!held ==>
                  && s'.claims == (if Ours(s, prim, c) then s.claims - {c} else s.claims) && s'.group == s.group
                  && out == if Ours(s, prim, c) then [UnclaimFrame(prim, p.src, p.vid, s.group)]
                            else if GwKey(prim, p.vid) in s.gws then []
                            else [AnnounceFrame(prim, 0, p.vid, s.group)])
  {
    hide Inv, Waiting, UpdateOwnGw, HandleUnclaim, Xor, Owned;
    WaitingCounted(h, s);
    OwnerKnown(h, s, ClaimKey(p.src, p.vid));
    UnclaimExactly(h, s, Some(prim), prim, p.src, p.vid);
    UpdateOwnGwExactly(s, prim, p.vid, now);
    UpdateOwnGwExactly(HandleUnclaim(h, s, Some(prim), prim, p.src, p.vid).0, prim, p.vid, now);
  }

  // With bridge loop avoidance turned off every packet is handed on, and no
  // claim changes.
  lemma NothingHeldWhenOff(h: Hash, s: State, prim: Mac, p: Packet, now: int)
    ensures !Rx(h, s, prim, false, p, now).2 && Rx(h, s, prim, false, p, now).0.claims == s.claims
    ensures !Tx(h, s, prim, false, p, now).2 && Tx(h, s, prim, false, p, now).0.claims == s.claims
  {
    hide UpdateOwnGw;
    UpdateOwnGwExactly(s, prim, p.vid, now);
  }

  // No loop and no loss between several gateways of a LAN: once they agree on
  // who has claimed a client and none of them waits for an answer, a broadcast
  // of that client is handed on by exactly one of them, the one that has
  // claimed it, in either direction.
  lemma ExactlyOneHandsOn(h: Hash, runs: map<Mac, seq<Event>>, owner: Mac, p: Packet, now: int)
    requires p.multicast && p.isBcast && owner in runs
    requires forall a :: a in runs ==>
               var s, c := Run(h, runs[a]), ClaimKey(p.src, p.vid);
               !Waiting(s) && c in s.claims && s.claims[c].owner.orig == owner
    ensures forall a :: a in runs ==>
              && (!Rx(h, Run(h, runs[a]), a, true, p, now).2 <==> a == owner)
              && (!Tx(h, Run(h, runs[a]), a, true, p, now).2 <==> a == owner)
  {
    hide Run, Rx, Tx, Waiting;
    forall a | a in runs
      ensures !Rx(h, Run(h, runs[a]), a, true, p, now).2 <==> a == owner
      ensures !Tx(h, Run(h, runs[a]), a, true, p, now).2 <==> a == owner
    {
      RxExactly(h, runs[a], a, p, now);
      TxExactly(h, runs[a], a, p, now);
    }
  }

  // ----- Claim frames -----

  ghost predicate Heeded(s: State, prim: Mac, f: Frame, inMesh: bool) {
    f.backbone != prim && (f.group == s.group || inMesh)
  }

  // Which claim frames are heeded, and what they do to the claims and to the
  // group: frames of our own are left to the caller, frames of another mesh are
  // dropped; any other makes us a gateway on its VLAN, which is announced first.
  lemma FrameExactly(h: Hash, s: State, prim: Mac, f: Frame, inMesh: bool, order: seq<ClaimKey>, now: int)
    ensures var (s', out, taken) := ProcessClaim(h, s, prim, f, inMesh, order, now);
            && (taken <==> f.backbone != prim)
            && (!Heeded(s, prim, f, inMesh) ==> s' == s && out == [])
            && (Heeded(s, prim, f, inMesh) ==>
                  && s'.group == Larger(f.group, s.group) && GwKey(prim, f.vid) in s'.gws
                  && (var own := if GwKey(prim, f.vid) in s.gws then [] else [AnnounceFrame(prim, 0, f.vid, s'.group)];
                      own <= out && (f.ClaimFrame? || f.UnclaimFrame? ==> out == own))
                  && (f.ClaimFrame? ==>
                        s'.claims == s.claims[ClaimKey(f.client, f.vid) := Claim(GwKey(f.backbone, f.vid), now)])
                  && (f.UnclaimFrame? ==>
                        s'.claims == if GwKey(f.backbone, f.vid) in s.gws then s.claims - {ClaimKey(f.client, f.vid)}
                                     else s.claims)
                  && (f.AnnounceFrame? ==> GwKey(f.backbone, f.vid) in s'.gws
                                           && s'.gws[GwKey(f.backbone, f.vid)].lasttime == now)
                  && (f.RequestFrame? ==> s'.claims == s.claims))
  {
    hide UpdateOwnGw, HandleClaim, HandleUnclaim, HandleAnnounce, Answer;
    if Heeded(s, prim, f, inMesh) {
      var s0 := s.(group := Larger(f.group, s.group));
      var s1 := UpdateOwnGw(s0, prim, f.vid, now).0;
      UpdateOwnGwExactly(s0, prim, f.vid, now);
      match f {
        case ClaimFrame(backbone, client, vid, _) => ClaimExactly(h, s1, prim, backbone, client, vid, now);
        case UnclaimFrame(backbone, client, vid, _) => UnclaimExactly(h, s1, Some(prim), backbone, client, vid);
        case AnnounceFrame(backbone, crc, vid, _) => AnnounceExactly(s1, prim, crc, backbone, vid, now);
        case RequestFrame(_, _, _, _, _) =>
      }
    }
  }

  // An announcement keeps its gateway alive and compares the checksum: if it
  // is another one, the claims of the gateway go and it is asked for them.
  lemma AnnounceExactly(s: State, prim: Mac, crc: bv16, backbone: Mac, vid: Vid, now: int)
    ensures var (s', out) := HandleAnnounce(s, prim, crc, backbone, vid, now);
            var g := GwKey(backbone, vid);
            var w := if g in s.gws then s.gws[g] else Gw(0, false, 0, now);
            && s'.gws == s.gws[g := Gw(if w.crc == crc then crc else 0, w.crc != crc, w.waitPeriods, now)]
            && s'.claims == (if w.crc == crc then s.claims
                             else map c | c in s.claims && s.claims[c].owner != g :: s.claims[c])
            && s'.group == s.group
            && out == if w.crc == crc then [] else [RequestFrame(prim, backbone, backbone, vid, s.group)]
  {
  }

  // Only a request that is addressed to us, twice, is answered.
  lemma OnlyOursAnswered(h: Hash, s: State, prim: Mac, f: Frame, inMesh: bool, order: seq<ClaimKey>, now: int)
    requires f.RequestFrame? && GwKey(prim, f.vid) in s.gws
    ensures ProcessClaim(h, s, prim, f, inMesh, order, now).1 != [] <==>
            Heeded(s, prim, f, inMesh) && f.target == prim && f.dest == prim
  {
    UpdateOwnGwExactly(s.(group := Larger(f.group, s.group)), prim, f.vid, now);
    hide UpdateOwnGw;
  }

  // ----- The periodic work -----

  ghost predicate Stale(lasttime: int, timeout: int, now: int) {
    now > lasttime + timeout
  }

  // A claim is our own and was not used for 100 seconds.
  ghost predicate Unused(w: Claim, prim: Option<Mac>, now: int) {
    prim == Some(w.owner.orig) && Stale(w.lasttime, CLAIM_TIMEOUT, now)
  }

  // A purge of the claims, as far as it has come.
  ghost predicate ClaimsPurged(s: State, s': State, prim: Option<Mac>, all: bool, now: int, order: seq<ClaimKey>) {
    && (forall c :: c in s'.claims <==>
          c in s.claims && !(c in order && (all || Unused(s.claims[c], prim, now))))
    && (forall c :: c in s'.claims ==> s'.claims[c] == s.claims[c])
    && s'.gws.Keys == s.gws.Keys && s'.group == s.group
    && (forall g :: g in s.gws ==> s'.gws[g] == s.gws[g].(crc := s'.gws[g].crc))
  }

  lemma {:induction false} PurgeClaimsExactly(h: Hash, s: State, prim: Option<Mac>, all: bool, now: int,
                                              order: seq<ClaimKey>)
    requires Inv(h, s)
    ensures ClaimsPurged(s, PurgeClaims(h, s, prim, all, now, order), prim, all, now, order)
    decreases |order|
  {
    hide Inv, HandleUnclaim, ClaimsPurged, Unused;
    if order == [] {
      NothingPurged(s, prim, all, now);
    } else {
      var init, c := order[..|order| - 1], order[|order| - 1];
      var s1 := PurgeClaims(h, s, prim, all, now, init);
      PurgeClaimsExactly(h, s, prim, all, now, init);
      PurgeClaimsKeepsInv(h, s, prim, all, now, init);
      OwnerKnown(h, s1, c);
      assert order == init + [c];
      if c in s1.claims {
        UnclaimExactly(h, s1, prim, s1.claims[c].owner.orig, c.addr, c.vid);
        ExpiredExactly(s1, prim, c, all, now);
      }
      PurgeNext(s, s1, PurgeClaims(h, s, prim, all, now, order), prim, all, now, init, c);
    }
  }

  lemma NothingPurged(s: State, prim: Option<Mac>, all: bool, now: int)
    ensures ClaimsPurged(s, s, prim, all, now, [])
  {
  }

  lemma ExpiredExactly(s: State, prim: Option<Mac>, c: ClaimKey, all: bool, now: int)
    requires c in s.claims
    ensures Expired(s, prim, c, all, now) <==> all || Unused(s.claims[c], prim, now)
  {
  }

  lemma PurgeNext(s: State, s1: State, s2: State, prim: Option<Mac>, all: bool, now: int, init: seq<ClaimKey>,
                  c: ClaimKey)
    requires ClaimsPurged(s, s1, prim, all, now, init)
    requires if c in s1.claims && (all || Unused(s1.claims[c], prim, now)) then
               && s2.claims == s1.claims - {c} && s2.gws.Keys == s1.gws.Keys && s2.group == s1.group
               && (forall g :: g in s1.gws ==> s2.gws[g] == s1.gws[g].(crc := s2.gws[g].crc))
             else s2 == s1
    ensures ClaimsPurged(s, s2, prim, all, now, init + [c])
  {
    hide Unused;
    assert forall k :: k in init + [c] <==> k in init || k == c;
  }

  // A purge of the gateways, as far as it has come: those that went, went with
  // their claims.
  ghost predicate GwsPurged(s: State, s': State, all: bool, now: int, order: seq<GwKey>) {
    && (forall g :: g in s'.gws <==>
          g in s.gws && !(g in order && (all || Stale(s.gws[g].lasttime, BACKBONE_TIMEOUT, now))))
    && (forall g :: g in s'.gws ==> s'.gws[g] == s.gws[g])
    && (forall c :: c in s'.claims <==> c in s.claims && s.claims[c].owner in s'.gws)
    && (forall c :: c in s'.claims ==> s'.claims[c] == s.claims[c])
    && s'.group == s.group
  }

  lemma RemoveGwExactly(s: State, g: GwKey)
    ensures var s' := RemoveGw(s, g);
            && s'.gws == s.gws - {g} && s'.group == s.group
            && (g in s.gws ==> s'.claims == map c | c in s.claims && s.claims[c].owner != g :: s.claims[c])
            && (g !in s.gws ==> s' == s)
  {
  }

  lemma {:induction false} PurgeGwsExactly(s: State, all: bool, now: int, order: seq<GwKey>)
    requires OwnersOk(s)
    ensures GwsPurged(s, PurgeGws(s, all, now, order), all, now, order)
    decreases |order|
  {
    hide RemoveGw, GwsPurged;
    if order == [] {
      NoGwPurged(s, all, now);
    } else {
      var init, g := order[..|order| - 1], order[|order| - 1];
      PurgeGwsExactly(s, all, now, init);
      assert order == init + [g];
      PurgeNextGw(s, PurgeGws(s, all, now, init), all, now, init, g);
    }
  }

  lemma NoGwPurged(s: State, all: bool, now: int)
    requires OwnersOk(s)
    ensures GwsPurged(s, s, all, now, [])
  {
  }

  lemma PurgeNextGw(s: State, s1: State, all: bool, now: int, init: seq<GwKey>, g: GwKey)
    requires GwsPurged(s, s1, all, now, init)
    ensures var s2 := if g in s1.gws && (all || HasTimedOut(s1.gws[g].lasttime, BACKBONE_TIMEOUT, now))
                      then RemoveGw(s1, g) else s1;
            GwsPurged(s, s2, all, now, init + [g])
  {
    RemoveGwExactly(s1, g);
    hide RemoveGw;
    assert forall k :: k in init + [g] <==> k in init || k == g;
  }

  // What the countdown makes of one gateway.
  ghost function Ticked(w: Gw, now: int): Gw {
    if w.requestSent then Gw(w.crc, w.waitPeriods != 1, w.waitPeriods - 1, now) else w.(lasttime := now)
  }

  lemma TickExactly(s: State, g: GwKey, now: int)
    ensures var s' := Tick(s, g, now);
            && s'.claims == s.claims && s'.gws.Keys == s.gws.Keys && s'.group == s.group
            && (forall k :: k in s.gws ==> s'.gws[k] == if k == g then Ticked(s.gws[k], now) else s.gws[k])
  {
  }

  ghost predicate Distinct(order: seq<GwKey>) {
    forall i, j :: 0 <= i < j < |order| ==> order[i] != order[j]
  }

  lemma {:induction false} TickAllExactly(s: State, prim: Mac, now: int, order: seq<GwKey>)
    requires Distinct(order)
    ensures var s' := TickAll(s, prim, now, order);
            && s'.claims == s.claims && s'.gws.Keys == s.gws.Keys && s'.group == s.group
            && (forall k :: k in s.gws ==>
                  s'.gws[k] == if k in order && k.orig == prim then Ticked(s.gws[k], now) else s.gws[k])
    decreases |order|
  {
    hide Tick, Ticked;
    if order != [] {
      var init, g := order[..|order| - 1], order[|order| - 1];
      TickAllExactly(s, prim, now, init);
      TickExactly(TickAll(s, prim, now, init), g, now);
      assert forall k :: k in order <==> k in init || k == g;
      assert forall i :: 0 <= i < |init| ==> init[i] == order[i] != g;
    }
  }

  // Over all runs: what is left after the periodic work.  A gateway stays
  // while it was heard of in the last minute; a claim stays with its gateway
  // and, if it is our own, while it was used in the last 100 seconds.  Our own
  // gateways are kept alive and come closer to the end of their waiting, unless
  // bridge loop avoidance is turned off.
  lemma PeriodicExactly(h: Hash, es: seq<Event>, prim: Mac, now: int, cs: seq<ClaimKey>, gs: seq<GwKey>,
                        own: seq<GwKey>, enabled: bool)
    requires var s := Run(h, es);
             && (forall c :: c in s.claims ==> c in cs) && (forall g :: g in s.gws ==> g in gs && g in own)
             && Distinct(own)
    ensures var s := Run(h, es);
            var s' := Periodic(h, s, prim, enabled, now, cs, gs, own);
            && (forall g :: g in s'.gws <==> g in s.gws && !Stale(s.gws[g].lasttime, BACKBONE_TIMEOUT, now))
            && (forall c :: c in s'.claims <==>
                  && c in s.claims && s.claims[c].owner in s'.gws
                  && !Unused(s.claims[c], Some(prim), now))
            && (forall c :: c in s'.claims ==> s'.claims[c] == s.claims[c])
            && (forall g :: g in s'.gws ==>
                  var w := s'.gws[g].(crc := s.gws[g].crc);
                  w == if enabled && g.orig == prim then Ticked(s.gws[g], now) else s.gws[g])
  {
    var s := Run(h, es);
    RunInv(h, es);
    hide Run, Stale, Distinct, Ticked, Inv, PurgeClaims, PurgeGws, TickAll;
    PurgeClaimsExactly(h, s, Some(prim), false, now, cs);
    PurgeClaimsKeepsInv(h, s, Some(prim), false, now, cs);
    var s1 := PurgeClaims(h, s, Some(prim), false, now, cs);
    OwnersOfInv(h, s);
    OwnersOfInv(h, s1);
    PurgeGwsExactly(s1, false, now, gs);
    var s2 := PurgeGws(s1, false, now, gs);
    if enabled {
      TickAllExactly(s2, prim, now, own);
      TickedCrc(prim, now);
    }
  }

  lemma OwnersOfInv(h: Hash, s: State)
    requires Inv(h, s)
    ensures OwnersOk(s)
  {
  }

  lemma TickedCrc(prim: Mac, now: int)
    ensures forall w: Gw, crc: bv16 ::
              Ticked(w.(crc := crc), now) == Ticked(w, now).(crc := crc)
  {
  }

  // Turning bridge loop avoidance off empties both tables.
  lemma PurgeAllEmpties(h: Hash, es: seq<Event>, prim: Option<Mac>, now: int, cs: seq<ClaimKey>, gs: seq<GwKey>)
    requires var s := Run(h, es);
             (forall c :: c in s.claims ==> c in cs) && (forall g :: g in s.gws ==> g in gs)
    ensures var s' := Step(h, Run(h, es), OnPurgeAll(prim, now, cs, gs));
            s'.gws == map[] && s'.claims == map[] && s'.numRequests == 0
  {
    var s := Run(h, es);
    RunInv(h, es);
    StepKeepsInv(h, s, OnPurgeAll(prim, now, cs, gs));
    hide Run, Stale, Inv, PurgeClaims, PurgeGws;
    PurgeClaimsExactly(h, s, prim, true, now, cs);
    PurgeClaimsKeepsInv(h, s, prim, true, now, cs);
    var s1 := PurgeClaims(h, s, prim, true, now, cs);
    OwnersOfInv(h, s1);
    PurgeGwsExactly(s1, true, now, gs);
    var s' := PurgeGws(s1, true, now, gs);
    assert s'.gws == map[];
    assert s'.claims == map[];
    NoneWaiting(h, s');
  }

  lemma NoneWaiting(h: Hash, s: State)
    requires Inv(h, s) && s.gws == map[]
    ensures s.numRequests == 0
  {
    assert Pending(s) == {};
  }

  // ----- The first periods of a gateway of our own -----

  // A number of periods, each with the time and the order of the table.
  datatype Period = Period(now: int, order: seq<GwKey>)

  ghost function Periods(s: State, prim: Mac, ps: seq<Period>): State {
    if ps == [] then s
    else TickAll(Periods(s, prim, ps[..|ps| - 1]), prim, ps[|ps| - 1].now, ps[|ps| - 1].order)
  }

  // When we become a gateway on a VLAN, that gateway is waited for through
  // exactly three periods.
  lemma {:induction false} WaitsThreePeriods(s: State, prim: Mac, vid: Vid, now: int, ps: seq<Period>)
    requires GwKey(prim, vid) !in s.gws
    requires forall i :: 0 <= i < |ps| ==> Distinct(ps[i].order) && GwKey(prim, vid) in ps[i].order
    ensures var s', g := Periods(UpdateOwnGw(s, prim, vid, now).0, prim, ps), GwKey(prim, vid);
            && g in s'.gws && (s'.gws[g].requestSent <==> |ps| < 3)
            && (|ps| < 3 ==> s'.gws[g].waitPeriods == 3 - |ps|)
            && s'.gws[g].lasttime == if ps == [] then now else ps[|ps| - 1].now
    decreases |ps|
  {
    UpdateOwnGwExactly(s, prim, vid, now);
    hide UpdateOwnGw;
    if ps != [] {
      var init, last := ps[..|ps| - 1], ps[|ps| - 1];
      WaitsThreePeriods(s, prim, vid, now, init);
      hide Distinct;
      TickAllExactly(Periods(UpdateOwnGw(s, prim, vid, now).0, prim, init), prim, last.now, last.order);
    }
  }

  // ----- The group -----

  // The groups heard of since the last setting of our address: our own, and
  // those named in the claim frames that were heeded.
  ghost function Groups(h: Hash, es: seq<Event>): set<nat> {
    if es == [] then {0}
    else
      var before := Groups(h, es[..|es| - 1]);
      match es[|es| - 1]
      case OnAddress(prim) => {h(prim) as nat}
      case OnClaim(prim, f, inMesh, _, _) =>
        if Heeded(Run(h, es[..|es| - 1]), prim, f, inMesh) then before + {f.group} else before
      case _ => before
  }

  lemma GroupAfter(h: Hash, s: State, e: Event)
    requires Inv(h, s)
    ensures Step(h, s, e).group ==
            match e
            case OnAddress(prim) => h(prim) as nat
            case OnClaim(prim, f, inMesh, _, _) =>
              if Heeded(s, prim, f, inMesh) then Larger(f.group, s.group) else s.group
            case _ => s.group
  {
    hide Inv, ProcessClaim, PurgeClaims, PurgeGws, TickAll, Rx, Tx;
    match e
    case OnClaim(prim, f, inMesh, order, now) => FrameExactly(h, s, prim, f, inMesh, order, now);
    case OnRx(prim, enabled, p, now) => TrafficKeepsGroup(h, s, prim, enabled, p, now);
    case OnTx(prim, enabled, p, now) => TrafficKeepsGroup(h, s, prim, enabled, p, now);
    case OnPeriodic(prim, enabled, now, cs, gs, own) =>
      PurgesKeepGroup(h, s, Some(prim), false, now, cs, gs);
      TicksKeepGroup(PurgeGws(PurgeClaims(h, s, Some(prim), false, now, cs), false, now, gs), prim, now, own);
    case OnAddress(_) =>
    case OnPurgeAll(primary, now, cs, gs) => PurgesKeepGroup(h, s, primary, true, now, cs, gs);
  }

  lemma TrafficKeepsGroup(h: Hash, s: State, prim: Mac, enabled: bool, p: Packet, now: int)
    requires Inv(h, s)
    ensures Rx(h, s, prim, enabled, p, now).0.group == s.group
    ensures Tx(h, s, prim, enabled, p, now).0.group == s.group
  {
    if enabled {
      hide Rx, Tx, Inv;
      RxFrom(h, s, prim, p, now);
      TxFrom(h, s, prim, p, now);
    } else {
      hide UpdateOwnGw;
      UpdateOwnGwExactly(s, prim, p.vid, now);
    }
  }

  lemma PurgesKeepGroup(h: Hash, s: State, prim: Option<Mac>, all: bool, now: int, cs: seq<ClaimKey>, gs: seq<GwKey>)
    requires Inv(h, s)
    ensures PurgeGws(PurgeClaims(h, s, prim, all, now, cs), all, now, gs).group == s.group
  {
    hide Inv, PurgeClaims, PurgeGws;
    PurgeClaimsExactly(h, s, prim, all, now, cs);
    PurgeClaimsKeepsInv(h, s, prim, all, now, cs);
    var s1 := PurgeClaims(h, s, prim, all, now, cs);
    OwnersOfInv(h, s1);
    PurgeGwsExactly(s1, all, now, gs);
  }

  lemma {:induction false} TicksKeepGroup(s: State, prim: Mac, now: int, order: seq<GwKey>)
    ensures TickAll(s, prim, now, order).group == s.group
    decreases |order|
  {
    hide Tick;
    if order != [] {
      TicksKeepGroup(s, prim, now, order[..|order| - 1]);
      TickExactly(TickAll(s, prim, now, order[..|order| - 1]), order[|order| - 1], now);
    }
  }

  // Over all runs a gateway belongs to the largest group it has heard of, so
  // that the gateways of a mesh come to agree on one.
  lemma {:induction false} GroupIsLargest(h: Hash, es: seq<Event>)
    ensures Run(h, es).group in Groups(h, es)
    ensures forall x :: x in Groups(h, es) ==> x <= Run(h, es).group
  {
    hide Inv, Step, Heeded;
    if es != [] {
      var init := es[..|es| - 1];
      GroupIsLargest(h, init);
      RunInv(h, init);
      GroupAfter(h, Run(h, init), es[|es| - 1]);
    }
  }
}

// Bridge loop avoidance over whole runs: the invariant after any sequence of
// handler steps, what it means for traffic, and the resynchronisation of a
// stale table.

module BlaRuns {
  import opened Bla
  import opened Timeout
  import opened Wrappers

  // ----- Every handler keeps the invariant -----

  lemma UpdateOwnGwKeepsInv(h: Hash, s: State, prim: Mac, vid: Vid, now: int)
    requires Inv(h, s)
    ensures Inv(h, UpdateOwnGw(s, prim, vid, now).0)
  {
    hide Inv;
    GetGwKeepsInv(h, s, GwKey(prim, vid), true, now);
    TouchKeepsInv(h, GetGw(s, GwKey(prim, vid), true, now).0, GwKey(prim, vid), now);
  }

  lemma SendRequestKeepsInv(h: Hash, s: State, prim: Mac, g: GwKey)
    requires Inv(h, s)
    ensures Inv(h, SendRequest(s, prim, g).0)
  {
    hide Inv, DelGwClaims, SetRequest;
    DelGwClaimsKeepsInv(h, s, g);
    SetRequestKeepsInv(h, DelGwClaims(s, g), g);
  }

  lemma HandleAnnounceKeepsInv(h: Hash, s: State, prim: Mac, crc: bv16, backbone: Mac, vid: Vid, now: int)
    requires Inv(h, s)
    ensures Inv(h, HandleAnnounce(s, prim, crc, backbone, vid, now).0)
  {
    hide Inv, GetGw, Touch, DelGwClaims, SetRequest, ClearRequest;
    var g := GwKey(backbone, vid);
    GetGwKeepsInv(h, s, g, false, now);
    var s0 := GetGw(s, g, false, now).0;
    TouchKeepsInv(h, s0, g, now);
    var s1 := Touch(s0, g, now);
    DelGwClaimsKeepsInv(h, s1, g);
    SetRequestKeepsInv(h, DelGwClaims(s1, g), g);
    ClearRequestKeepsInv(h, s1, g);
  }

  lemma HandleClaimKeepsInv(h: Hash, s: State, prim: Mac, backbone: Mac, client: Mac, vid: Vid, now: int)
    requires Inv(h, s)
    ensures Inv(h, HandleClaim(h, s, prim, backbone, client, vid, now).0)
  {
    hide Inv, GetGw, AddClaim;
    var g := GwKey(backbone, vid);
    GetGwKeepsInv(h, s, g, false, now);
    AddClaimKeepsInv(h, GetGw(s, g, false, now).0, ClaimKey(client, vid), g, now);
  }

  lemma HandleUnclaimKeepsInv(h: Hash, s: State, prim: Option<Mac>, backbone: Mac, client: Mac, vid: Vid)
    requires Inv(h, s)
    ensures Inv(h, HandleUnclaim(h, s, prim, backbone, client, vid).0)
  {
    hide Inv, DelClaim;
    DelClaimKeepsInv(h, s, ClaimKey(client, vid));
  }

  lemma GroupKeepsInv(h: Hash, s: State, group: nat)
    requires Inv(h, s)
    ensures Inv(h, s.(group := group))
  {
  }

  lemma ProcessClaimKeepsInv(h: Hash, s: State, prim: Mac, f: Frame, inMesh: bool, order: seq<ClaimKey>, now: int)
    requires Inv(h, s)
    ensures Inv(h, ProcessClaim(h, s, prim, f, inMesh, order, now).0)
  {
    hide Inv, UpdateOwnGw, HandleClaim, HandleUnclaim, HandleAnnounce, Answer;
    match CheckGroup(s, prim, f, inMesh)
    case SameGroup(group) =>
      GroupKeepsInv(h, s, group);
      UpdateOwnGwKeepsInv(h, s.(group := group), prim, f.vid, now);
      var s1 := UpdateOwnGw(s.(group := group), prim, f.vid, now).0;
      match f {
        case ClaimFrame(backbone, client, vid, _) => HandleClaimKeepsInv(h, s1, prim, backbone, client, vid, now);
        case UnclaimFrame(backbone, client, vid, _) => HandleUnclaimKeepsInv(h, s1, Some(prim), backbone, client, vid);
        case AnnounceFrame(backbone, crc, vid, _) => HandleAnnounceKeepsInv(h, s1, prim, crc, backbone, vid, now);
        case RequestFrame(_, _, _, _, _) =>
      }
    case _ =>
  }

  lemma TouchClaimKeepsInv(h: Hash, s: State, c: ClaimKey, now: int)
    requires Inv(h, s) && c in s.claims
    ensures Inv(h, s.(claims := s.claims[c := s.claims[c].(lasttime := now)]))
  {
    var s' := s.(claims := s.claims[c := s.claims[c].(lasttime := now)]);
    assert Pending(s') == Pending(s);
    forall g | g in s'.gws ensures Owned(s', g) == Owned(s, g) {}
  }

  lemma RxKeepsInv(h: Hash, s: State, prim: Mac, enabled: bool, p: Packet, now: int)
    requires Inv(h, s)
    ensures Inv(h, Rx(h, s, prim, enabled, p, now).0)
  {
    hide Inv, UpdateOwnGw, HandleClaim;
    var c := ClaimKey(p.src, p.vid);
    UpdateOwnGwKeepsInv(h, s, prim, p.vid, now);
    HandleClaimKeepsInv(h, s, prim, prim, p.src, p.vid, now);
    UpdateOwnGwKeepsInv(h, HandleClaim(h, s, prim, prim, p.src, p.vid, now).0, prim, p.vid, now);
    if c in s.claims {
      TouchClaimKeepsInv(h, s, c, now);
      UpdateOwnGwKeepsInv(h, s.(claims := s.claims[c := s.claims[c].(lasttime := now)]), prim, p.vid, now);
    }
  }

  lemma TxKeepsInv(h: Hash, s: State, prim: Mac, enabled: bool, p: Packet, now: int)
    requires Inv(h, s)
    ensures Inv(h, Tx(h, s, prim, enabled, p, now).0)
  {
    hide Inv, UpdateOwnGw, HandleUnclaim;
    UpdateOwnGwKeepsInv(h, s, prim, p.vid, now);
    HandleUnclaimKeepsInv(h, s, Some(prim), prim, p.src, p.vid);
    UpdateOwnGwKeepsInv(h, HandleUnclaim(h, s, Some(prim), prim, p.src, p.vid).0, prim, p.vid, now);
  }

  lemma {:induction false} PurgeClaimsKeepsInv(h: Hash, s: State, prim: Option<Mac>, all: bool, now: int,
                                               order: seq<ClaimKey>)
    requires Inv(h, s)
    ensures Inv(h, PurgeClaims(h, s, prim, all, now, order))
    decreases |order|
  {
    hide Inv, HandleUnclaim;
    if order != [] {
      PurgeClaimsKeepsInv(h, s, prim, all, now, order[..|order| - 1]);
      var s' := PurgeClaims(h, s, prim, all, now, order[..|order| - 1]);
      var c := order[|order| - 1];
      if c in s'.claims {
        HandleUnclaimKeepsInv(h, s', prim, s'.claims[c].owner.orig, c.addr, c.vid);
      }
    }
  }

  lemma {:induction false} PurgeGwsKeepsInv(h: Hash, s: State, all: bool, now: int, order: seq<GwKey>)
    requires Inv(h, s)
    ensures Inv(h, PurgeGws(s, all, now, order))
    decreases |order|
  {
    hide Inv, RemoveGw;
    if order != [] {
      PurgeGwsKeepsInv(h, s, all, now, order[..|order| - 1]);
      RemoveGwKeepsInv(h, PurgeGws(s, all, now, order[..|order| - 1]), order[|order| - 1]);
    }
  }

  lemma TickKeepsInv(h: Hash, s: State, g: GwKey, now: int)
    requires Inv(h, s)
    ensures Inv(h, Tick(s, g, now))
  {
    TouchKeepsInv(h, s, g, now);
    var s1 := Touch(s, g, now);
    if g in s1.gws && s1.gws[g].requestSent {
      var s2 := s1.(gws := s1.gws[g := s1.gws[g].(waitPeriods := s1.gws[g].waitPeriods - 1)]);
      assert Pending(s2) == Pending(s1);
      forall k | k in s2.gws ensures Owned(s2, k) == Owned(s1, k) {}
      ClearRequestKeepsInv(h, s2, g);
    }
  }

  lemma {:induction false} TickAllKeepsInv(h: Hash, s: State, prim: Mac, now: int, order: seq<GwKey>)
    requires Inv(h, s)
    ensures Inv(h, TickAll(s, prim, now, order))
    decreases |order|
  {
    hide Inv, Tick;
    if order != [] {
      TickAllKeepsInv(h, s, prim, now, order[..|order| - 1]);
      TickKeepsInv(h, TickAll(s, prim, now, order[..|order| - 1]), order[|order| - 1], now);
    }
  }

  // ----- Runs -----

  datatype Event =
    | OnClaim(prim: Mac, f: Frame, inMesh: bool, order: seq<ClaimKey>, now: int)
    | OnRx(prim: Mac, enabled: bool, p: Packet, now: int)
    | OnTx(prim: Mac, enabled: bool, p: Packet, now: int)
    | OnPeriodic(prim: Mac, enabled: bool, now: int, cs: seq<ClaimKey>, gs: seq<GwKey>, own: seq<GwKey>)
    | OnAddress(prim: Mac)  // set up, or given a new primary address
    | OnPurgeAll(primary: Option<Mac>, now: int, cs: seq<ClaimKey>, gs: seq<GwKey>)  // bla turned off, or freed

  ghost function Step(h: Hash, s: State, e: Event): State {
    match e
    case OnClaim(prim, f, inMesh, order, now) => ProcessClaim(h, s, prim, f, inMesh, order, now).0
    case OnRx(prim, enabled, p, now) => Rx(h, s, prim, enabled, p, now).0
    case OnTx(prim, enabled, p, now) => Tx(h, s, prim, enabled, p, now).0
    case OnPeriodic(prim, enabled, now, cs, gs, own) => Periodic(h, s, prim, enabled, now, cs, gs, own)
    case OnAddress(prim) => WithGroup(h, s, prim)
    case OnPurgeAll(primary, now, cs, gs) => PurgeGws(PurgeClaims(h, s, primary, true, now, cs), true, now, gs)
  }

  ghost function Run(h: Hash, es: seq<Event>): State {
    if es == [] then EMPTY else Step(h, Run(h, es[..|es| - 1]), es[|es| - 1])
  }

  lemma StepKeepsInv(h: Hash, s: State, e: Event)
    requires Inv(h, s)
    ensures Inv(h, Step(h, s, e))
  {
    hide Inv, ProcessClaim, Rx, Tx, PurgeClaims, PurgeGws, TickAll;
    match e
    case OnClaim(prim, f, inMesh, order, now) => ProcessClaimKeepsInv(h, s, prim, f, inMesh, order, now);
    case OnRx(prim, enabled, p, now) => RxKeepsInv(h, s, prim, enabled, p, now);
    case OnTx(prim, enabled, p, now) => TxKeepsInv(h, s, prim, enabled, p, now);
    case OnPeriodic(prim, enabled, now, cs, gs, own) =>
      PurgeClaimsKeepsInv(h, s, Some(prim), false, now, cs);
      var s1 := PurgeClaims(h, s, Some(prim), false, now, cs);
      PurgeGwsKeepsInv(h, s1, false, now, gs);
      TickAllKeepsInv(h, PurgeGws(s1, false, now, gs), prim, now, own);
    case OnAddress(prim) => GroupKeepsInv(h, s, h(prim) as nat);
    case OnPurgeAll(primary, now, cs, gs) =>
      PurgeClaimsKeepsInv(h, s, primary, true, now, cs);
      PurgeGwsKeepsInv(h, PurgeClaims(h, s, primary, true, now, cs), true, now, gs);
  }

  // After any sequence of handler steps every checksum is the XOR over exactly
  // the claims its gateway owns, the number of requests is the number of
  // gateways waiting for an answer, and every claim belongs to a known gateway
  // of its VLAN.
  lemma {:induction false} RunInv(h: Hash, es: seq<Event>)
    ensures Inv(h, Run(h, es))
  {
    if es == [] {
      assert Pending(EMPTY) == {};
    } else {
      hide Inv, Step;
      RunInv(h, es[..|es| - 1]);
      StepKeepsInv(h, Run(h, es[..|es| - 1]), es[|es| - 1]);
    }
  }

  // While any gateway is out of sync, no multicast packet is handed on from or
  // to the mesh; and when none is, the request counter holds nothing back.
  lemma MulticastHeldWhileOutOfSync(h: Hash, es: seq<Event>, prim: Mac, p: Packet, now: int)
    ensures var s := Run(h, es);
            (exists g :: g in s.gws && s.gws[g].requestSent) ==>
              && (p.multicast && p.isBcast ==> Rx(h, s, prim, true, p, now) == (s, [], true))
              && (p.multicast ==> Tx(h, s, prim, true, p, now) == (s, [], true))
    ensures var s := Run(h, es);
            s.numRequests == 0 <==> !exists g :: g in s.gws && s.gws[g].requestSent
  {
    RunInv(h, es);
    var s := Run(h, es);
    hide Run, HandleClaim, HandleUnclaim, UpdateOwnGw;
    if g :| g in s.gws && s.gws[g].requestSent {
      assert g in Pending(s);
    } else {
      assert Pending(s) == {};
    }
  }

  // ----- Resynchronisation -----

  // What a gateway handles while an answer comes in: a frame of the answer, or
  // anything else.
  datatype Item = Frm(f: Frame, now: int) | Other(e: Event)

  function Frames(items: seq<Item>): seq<Frame> {
    if items == [] then []
    else
      var last := items[|items| - 1];
      Frames(items[..|items| - 1]) + if last.Frm? then [last.f] else []
  }

  ghost function Handle(h: Hash, s: State, prim: Mac, i: Item): State {
    match i
    case Frm(f, now) => ProcessClaim(h, s, prim, f, true, [], now).0
    case Other(e) => Step(h, s, e)
  }

  ghost function HandleAll(h: Hash, s: State, prim: Mac, items: seq<Item>): State {
    if items == [] then s
    else Handle(h, HandleAll(h, s, prim, items[..|items| - 1]), prim, items[|items| - 1])
  }

  // The same claims of g, and g as much waited for as before.
  ghost predicate SameFor(g: GwKey, s: State, s': State) {
    && Owned(s', g) == Owned(s, g)
    && (g in s'.gws <==> g in s.gws)
    && (g in s.gws ==> s'.gws[g].requestSent == s.gws[g].requestSent)
  }

  // Nothing but the frames changes what is known of g.
  ghost predicate Undisturbed(h: Hash, s: State, prim: Mac, g: GwKey, items: seq<Item>) {
    items != [] ==>
      var earlier := items[..|items| - 1];
      var last := items[|items| - 1];
      && Undisturbed(h, s, prim, g, earlier)
      && (last.Other? ==> SameFor(g, HandleAll(h, s, prim, earlier), HandleAll(h, s, prim, items)))
  }

  // ----- What disturbs an answer, and what does not -----

  // Whether an event can change what is known of g, a gateway other than
  // ourselves: a frame of its own, a frame or a packet from the mesh about a
  // client it has claimed, its timeout, or turning everything off.
  ghost predicate LeavesAlone(s: State, prim: Mac, g: GwKey, e: Event) {
    match e
    case OnClaim(p, f, _, _, _) =>
      && p == prim && f.backbone != g.orig
      && (f.ClaimFrame? || f.UnclaimFrame? ==> ClaimKey(f.client, f.vid) !in Owned(s, g))
    case OnRx(p, _, packet, _) => p == prim && ClaimKey(packet.src, packet.vid) !in Owned(s, g)
    case OnTx(p, _, _, _) => p == prim
    case OnPeriodic(p, _, now, _, _, _) =>
      p == prim && (g in s.gws ==> !HasTimedOut(s.gws[g].lasttime, BACKBONE_TIMEOUT, now))
    case OnAddress(_) => true
    case OnPurgeAll(_, _, _, _) => false
  }

  // Our own gateways do not touch another one.
  lemma OwnGwApart(s: State, prim: Mac, vid: Vid, now: int, g: GwKey)
    requires g.orig != prim
    ensures var s' := UpdateOwnGw(s, prim, vid, now).0;
            && s'.claims == s.claims && s'.group == s.group
            && (g in s'.gws <==> g in s.gws)
            && (g in s.gws ==> s'.gws[g] == s.gws[g])
            && Owned(s', g) == Owned(s, g)
  {
    SameClaims(s, UpdateOwnGw(s, prim, vid, now).0, g);
    hide Owned;
  }

  lemma SameUpdateOwnGw(s: State, prim: Mac, vid: Vid, now: int, g: GwKey)
    requires g.orig != prim
    ensures SameFor(g, s, UpdateOwnGw(s, prim, vid, now).0)
  {
    hide UpdateOwnGw, Owned;
    OwnGwApart(s, prim, vid, now, g);
  }

  lemma SameHandleClaim(h: Hash, s: State, prim: Mac, backbone: Mac, client: Mac, vid: Vid, now: int, g: GwKey)
    requires Inv(h, s) && g.orig != backbone && ClaimKey(client, vid) !in Owned(s, g)
    ensures SameFor(g, s, HandleClaim(h, s, prim, backbone, client, vid, now).0)
  {
    hide AddClaim, Mix, Xor;
    var k := GwKey(backbone, vid);
    GetGwKeepsInv(h, s, k, false, now);
    var s1 := GetGw(s, k, false, now).0;
    assert s1.claims == s.claims;
    assert Owned(s1, g) == Owned(s, g);
    var c := ClaimKey(client, vid);
    OwnedAfterAdd(h, s1, c, k, now, g);
    CrcAfterAdd(h, s1, c, k, now, k);
    if g in s.gws {
      CrcAfterAdd(h, s1, c, k, now, g);
    }
  }

  lemma SameHandleUnclaim(h: Hash, s: State, prim: Option<Mac>, backbone: Mac, client: Mac, vid: Vid, g: GwKey)
    requires ClaimKey(client, vid) !in Owned(s, g)
    ensures var s' := HandleUnclaim(h, s, prim, backbone, client, vid).0;
            SameFor(g, s, s') && (g in s.gws ==> s'.gws[g].lasttime == s.gws[g].lasttime)
  {
    var s' := HandleUnclaim(h, s, prim, backbone, client, vid).0;
    assert Owned(s', g) == Owned(s, g);
  }

  lemma SameHandleAnnounce(s: State, prim: Mac, crc: bv16, backbone: Mac, vid: Vid, now: int, g: GwKey)
    requires g.orig != backbone
    ensures SameFor(g, s, HandleAnnounce(s, prim, crc, backbone, vid, now).0)
  {
    var k := GwKey(backbone, vid);
    var s1 := Touch(GetGw(s, k, false, now).0, k, now);
    assert s1.claims == s.claims;
    assert Owned(s1, g) == Owned(s, g);
    OwnedAfterDel(s1, k, g);
    assert Owned(HandleAnnounce(s, prim, crc, backbone, vid, now).0, g) == Owned(s, g);
  }

  lemma SameProcessClaim(h: Hash, s: State, prim: Mac, f: Frame, inMesh: bool, order: seq<ClaimKey>, now: int, g: GwKey)
    requires Inv(h, s) && g.orig != prim && f.backbone != g.orig
    requires f.ClaimFrame? || f.UnclaimFrame? ==> ClaimKey(f.client, f.vid) !in Owned(s, g)
    ensures SameFor(g, s, ProcessClaim(h, s, prim, f, inMesh, order, now).0)
  {
    hide Inv, Owned, UpdateOwnGw, HandleClaim, HandleUnclaim, HandleAnnounce, Answer;
    match CheckGroup(s, prim, f, inMesh)
    case SameGroup(group) =>
      SameClaims(s, s.(group := group), g);
      GroupKeepsInv(h, s, group);
      UpdateOwnGwKeepsInv(h, s.(group := group), prim, f.vid, now);
      SameUpdateOwnGw(s.(group := group), prim, f.vid, now, g);
      var s1 := UpdateOwnGw(s.(group := group), prim, f.vid, now).0;
      match f {
        case ClaimFrame(backbone, client, vid, _) => SameHandleClaim(h, s1, prim, backbone, client, vid, now, g);
        case UnclaimFrame(backbone, client, vid, _) => SameHandleUnclaim(h, s1, Some(prim), backbone, client, vid, g);
        case AnnounceFrame(backbone, crc, vid, _) => SameHandleAnnounce(s1, prim, crc, backbone, vid, now, g);
        case RequestFrame(_, _, _, _, _) =>
      }
    case _ => SameClaims(s, s, g);
  }

  lemma SameTraffic(h: Hash, s: State, prim: Mac, enabled: bool, p: Packet, now: int, g: GwKey)
    requires Inv(h, s) && g.orig != prim
    ensures ClaimKey(p.src, p.vid) !in Owned(s, g) ==> SameFor(g, s, Rx(h, s, prim, enabled, p, now).0)
    ensures SameFor(g, s, Tx(h, s, prim, enabled, p, now).0)
  {
    hide Inv, UpdateOwnGw, HandleClaim, HandleUnclaim;
    var c := ClaimKey(p.src, p.vid);
    SameUpdateOwnGw(s, prim, p.vid, now, g);
    if c !in Owned(s, g) {
      SameHandleClaim(h, s, prim, prim, p.src, p.vid, now, g);
      SameUpdateOwnGw(HandleClaim(h, s, prim, prim, p.src, p.vid, now).0, prim, p.vid, now, g);
      SameHandleUnclaim(h, s, Some(prim), prim, p.src, p.vid, g);
      SameUpdateOwnGw(HandleUnclaim(h, s, Some(prim), prim, p.src, p.vid).0, prim, p.vid, now, g);
    }
    if c in s.claims {
      var s1 := s.(claims := s.claims[c := s.claims[c].(lasttime := now)]);
      assert Owned(s1, g) == Owned(s, g);
      SameUpdateOwnGw(s1, prim, p.vid, now, g);
    }
  }

  // A gateway of somebody else, heard of in time, is left alone by a purge
  // and by the countdown.
  lemma {:induction false} SamePurgeClaims(h: Hash, s: State, prim: Option<Mac>, now: int, order: seq<ClaimKey>,
                                           g: GwKey)
    requires prim != Some(g.orig)
    ensures var s' := PurgeClaims(h, s, prim, false, now, order);
            SameFor(g, s, s') && (g in s.gws ==> s'.gws[g].lasttime == s.gws[g].lasttime)
    decreases |order|
  {
    hide HandleUnclaim;
    if order != [] {
      SamePurgeClaims(h, s, prim, now, order[..|order| - 1], g);
      var s' := PurgeClaims(h, s, prim, false, now, order[..|order| - 1]);
      var c := order[|order| - 1];
      if Expired(s', prim, c, false, now) {
        SameHandleUnclaim(h, s', prim, s'.claims[c].owner.orig, c.addr, c.vid, g);
      }
    }
  }

  lemma SameRemoveGw(s: State, k: GwKey, g: GwKey)
    requires g != k
    ensures var s' := RemoveGw(s, k);
            SameFor(g, s, s') && (g in s.gws ==> s'.gws[g].lasttime == s.gws[g].lasttime)
  {
    if k in s.gws {
      OwnedAfterDel(s, k, g);
      SameClaims(DelGwClaims(s, k), RemoveGw(s, k), g);
    }
  }

  lemma {:induction false} SamePurgeGws(s: State, now: int, order: seq<GwKey>, g: GwKey)
    requires g in s.gws ==> !HasTimedOut(s.gws[g].lasttime, BACKBONE_TIMEOUT, now)
    ensures var s' := PurgeGws(s, false, now, order);
            SameFor(g, s, s') && (g in s.gws ==> s'.gws[g].lasttime == s.gws[g].lasttime)
    decreases |order|
  {
    hide RemoveGw, Owned;
    if order != [] {
      SamePurgeGws(s, now, order[..|order| - 1], g);
      if order[|order| - 1] != g {
        SameRemoveGw(PurgeGws(s, false, now, order[..|order| - 1]), order[|order| - 1], g);
      }
    }
  }

  lemma {:induction false} SameTickAll(s: State, prim: Mac, now: int, order: seq<GwKey>, g: GwKey)
    requires g.orig != prim
    ensures SameFor(g, s, TickAll(s, prim, now, order))
    decreases |order|
  {
    if order != [] {
      SameTickAll(s, prim, now, order[..|order| - 1], g);
      var s1 := TickAll(s, prim, now, order[..|order| - 1]);
      SameClaims(s1, Tick(s1, order[|order| - 1], now), g);
    }
  }

  // Such an event keeps the claims of another gateway, and keeps it waited for
  // if it was.
  lemma LeftAlone(h: Hash, s: State, prim: Mac, g: GwKey, e: Event)
    requires Inv(h, s) && g.orig != prim && LeavesAlone(s, prim, g, e)
    ensures SameFor(g, s, Step(h, s, e))
  {
    hide Inv, Owned, ProcessClaim, Rx, Tx, PurgeClaims, PurgeGws, TickAll;
    match e
    case OnClaim(_, f, inMesh, order, now) => SameProcessClaim(h, s, prim, f, inMesh, order, now, g);
    case OnRx(_, enabled, p, now) => SameTraffic(h, s, prim, enabled, p, now, g);
    case OnTx(_, enabled, p, now) => SameTraffic(h, s, prim, enabled, p, now, g);
    case OnPeriodic(_, enabled, now, cs, gs, own) =>
      SamePurgeClaims(h, s, Some(prim), now, cs, g);
      var s1 := PurgeClaims(h, s, Some(prim), false, now, cs);
      SamePurgeGws(s1, now, gs, g);
      SameTickAll(PurgeGws(s1, false, now, gs), prim, now, own, g);
    case OnAddress(p) => SameClaims(s, WithGroup(h, s, p), g);
    case OnPurgeAll(_, _, _, _) =>
  }

  // ----- The answer -----

  // Handling one claim frame of another gateway of the mesh, whatever group it
  // names.
  lemma ClaimFrameAdds(h: Hash, s: State, prim: Mac, g: GwKey, client: Mac, group: nat, now: int)
    requires g.orig != prim && g in s.gws
    ensures var s' := ProcessClaim(h, s, prim, ClaimFrame(g.orig, client, g.vid, group), true, [], now).0;
            && Owned(s', g) == Owned(s, g) + {ClaimKey(client, g.vid)}
            && g in s'.gws && s'.gws[g].requestSent == s.gws[g].requestSent
  {
    hide UpdateOwnGw, AddClaim, Owned, HandleUnclaim, HandleAnnounce, Answer;
    var s0 := s.(group := Larger(group, s.group));
    SameClaims(s, s0, g);
    OwnGwApart(s0, prim, g.vid, now, g);
    var s1 := UpdateOwnGw(s0, prim, g.vid, now).0;
    OwnedAfterAdd(h, s1, ClaimKey(client, g.vid), g, now, g);
    AddKeepsMarks(h, s1, ClaimKey(client, g.vid), g, now, g);
  }

  lemma AddKeepsMarks(h: Hash, s: State, c: ClaimKey, g: GwKey, now: int, k: GwKey)
    requires k in s.gws
    ensures var s' := AddClaim(h, s, c, g, now);
            k in s'.gws && s'.gws[k].requestSent == s.gws[k].requestSent
  {
    hide Mix;
  }

  lemma HandleKeepsInv(h: Hash, s: State, prim: Mac, i: Item)
    requires Inv(h, s)
    ensures Inv(h, Handle(h, s, prim, i))
  {
    hide Inv, ProcessClaim, Step;
    match i
    case Frm(f, now) => ProcessClaimKeepsInv(h, s, prim, f, true, [], now);
    case Other(e) => StepKeepsInv(h, s, e);
  }

  // Handling all claim frames of an answer, among other events.
  lemma {:induction false} ClaimFramesAdd(h: Hash, s: State, prim: Mac, g: GwKey, order: seq<ClaimKey>, group: nat,
                                          items: seq<Item>)
    requires g.orig != prim && g in s.gws && Inv(h, s)
    requires forall c :: c in order ==> c.vid == g.vid
    requires Frames(items) == ClaimFrames(g.orig, order, group) && Undisturbed(h, s, prim, g, items)
    ensures var s' := HandleAll(h, s, prim, items);
            && Inv(h, s')
            && Owned(s', g) == Owned(s, g) + (set c | c in order)
            && g in s'.gws && s'.gws[g].requestSent == s.gws[g].requestSent
    decreases |items|
  {
    hide Inv, ProcessClaim, Owned, Step;
    if items == [] {
      assert Owned(s, g) + (set c | c in order) == Owned(s, g);
    } else {
      var before, last := items[..|items| - 1], items[|items| - 1];
      var s1 := HandleAll(h, s, prim, before);
      if last.Other? {
        ClaimFramesAdd(h, s, prim, g, order, group, before);
        HandleKeepsInv(h, s1, prim, last);
      } else {
        LastClaimFrame(g.orig, order, group, Frames(before), last.f);
        var earlier, c := order[..|order| - 1], order[|order| - 1];
        assert order == earlier + [c];
        assert forall k :: k in earlier ==> k in order;
        ClaimFramesAdd(h, s, prim, g, earlier, group, before);
        assert c in order && c == ClaimKey(c.addr, g.vid);
        ClaimFrameAdds(h, s1, prim, g, c.addr, group, last.now);
        HandleKeepsInv(h, s1, prim, last);
        assert (set k | k in order) == (set k | k in earlier) + {c};
        assert Owned(s, g) + (set k | k in earlier) + {c} == Owned(s, g) + (set k | k in order);
      }
    }
  }

  lemma LastClaimFrame(orig: Mac, order: seq<ClaimKey>, group: nat, frames: seq<Frame>, f: Frame)
    requires ClaimFrames(orig, order, group) == frames + [f]
    ensures order != []
    ensures var c := order[|order| - 1];
            frames == ClaimFrames(orig, order[..|order| - 1], group) && f == ClaimFrame(orig, c.addr, c.vid, group)
  {
    var earlier, c := order[..|order| - 1], order[|order| - 1];
    var fs := ClaimFrames(orig, earlier, group);
    assert fs + [ClaimFrame(orig, c.addr, c.vid, group)] == frames + [f];
    SameLast(fs, ClaimFrame(orig, c.addr, c.vid, group), frames, f);
  }

  lemma SameLast<T>(a: seq<T>, x: T, b: seq<T>, y: T)
    requires a + [x] == b + [y]
    ensures a == b && x == y
  {
    assert |a| == |b| && (a + [x])[|a|] == x && (b + [y])[|b|] == y;
    assert a == (a + [x])[..|a|] == (b + [y])[..|b|] == b;
  }

  // A mismatching announcement drops all claims of the announcing gateway,
  // marks it and asks for its claims.
  lemma MismatchRequests(h: Hash, s: State, prim: Mac, g: GwKey, crc: bv16, group: nat, now: int)
    requires Inv(h, s) && g.orig != prim
    requires if g in s.gws then s.gws[g].crc != crc else crc != 0
    ensures var (s', out, taken) := ProcessClaim(h, s, prim, AnnounceFrame(g.orig, crc, g.vid, group), true, [], now);
            && taken && RequestFrame(prim, g.orig, g.orig, g.vid, Larger(group, s.group)) in out
            && g in s'.gws && s'.gws[g].requestSent && Owned(s', g) == {}
            && s'.group == Larger(group, s.group)
  {
    hide Inv, UpdateOwnGw, Owned, HandleClaim, HandleUnclaim, Answer;
    OwnGwApart(s.(group := Larger(group, s.group)), prim, g.vid, now, g);
    var s0 := UpdateOwnGw(s.(group := Larger(group, s.group)), prim, g.vid, now).0;
    AnnounceMismatches(s0, prim, g, crc, now);
    hide HandleAnnounce;
    var request := RequestFrame(prim, g.orig, g.orig, g.vid, Larger(group, s.group));
    assert HandleAnnounce(s0, prim, crc, g.orig, g.vid, now).1 == [request];
  }

  lemma AnnounceMismatches(s: State, prim: Mac, g: GwKey, crc: bv16, now: int)
    requires if g in s.gws then s.gws[g].crc != crc else crc != 0
    ensures var (s', out) := HandleAnnounce(s, prim, crc, g.orig, g.vid, now);
            && out == [RequestFrame(prim, g.orig, g.orig, g.vid, s.group)]
            && g in s'.gws && s'.gws[g].requestSent && Owned(s', g) == {}
            && s'.group == s.group
  {
    var s1 := Touch(GetGw(s, g, false, now).0, g, now);
    assert g == GwKey(g.orig, g.vid) && g in s1.gws && s1.gws[g].crc != crc && s1.group == s.group;
    hide GetGw, Touch;
    OwnedAfterDel(s1, g, g);
    SameClaims(DelGwClaims(s1, g), SetRequest(DelGwClaims(s1, g), g), g);
    hide Owned;
  }

  // A matching announcement clears the mark.
  lemma MatchClears(h: Hash, s: State, prim: Mac, g: GwKey, group: nat, now: int)
    requires Inv(h, s) && g.orig != prim && g in s.gws
    ensures var s' := ProcessClaim(h, s, prim, AnnounceFrame(g.orig, s.gws[g].crc, g.vid, group), true, [], now).0;
            && g in s'.gws && !s'.gws[g].requestSent
            && s'.gws[g].crc == s.gws[g].crc
            && Owned(s', g) == Owned(s, g)
  {
    hide Inv, UpdateOwnGw, Owned, HandleClaim, HandleUnclaim, Answer;
    var s0 := s.(group := Larger(group, s.group));
    SameClaims(s, s0, g);
    OwnGwApart(s0, prim, g.vid, now, g);
    AnnounceMatches(UpdateOwnGw(s0, prim, g.vid, now).0, prim, g, now);
    hide HandleAnnounce;
  }

  lemma AnnounceMatches(s: State, prim: Mac, g: GwKey, now: int)
    requires g in s.gws
    ensures var s' := HandleAnnounce(s, prim, s.gws[g].crc, g.orig, g.vid, now).0;
            && g in s'.gws && !s'.gws[g].requestSent
            && s'.gws[g].crc == s.gws[g].crc
            && Owned(s', g) == Owned(s, g)
  {
    assert g == GwKey(g.orig, g.vid);
    SameClaims(s, HandleAnnounce(s, prim, s.gws[g].crc, g.orig, g.vid, now).0, g);
    hide Owned;
  }

  // The answer of the responder is its claims on the VLAN and its announcement.
  lemma ResponderAnswers(h: Hash, s: State, prim: Mac, vid: Vid, from: Mac, group: nat, order: seq<ClaimKey>, now: int)
    requires GwKey(prim, vid) in s.gws && from != prim
    ensures var g := GwKey(prim, vid);
            ProcessClaim(h, s, prim, RequestFrame(from, prim, prim, vid, group), true, order, now).1 ==
            ClaimFrames(prim, order, Larger(group, s.group))
            + [AnnounceFrame(prim, s.gws[g].crc, vid, Larger(group, s.group))]
  {
  }

  // Handling a whole answer, among other events, whose announcement matches
  // the claims it lists.
  lemma {:induction false} AnswerFills(h: Hash, s: State, prim: Mac, g: GwKey, order: seq<ClaimKey>, group: nat,
                                       crc: bv16, items: seq<Item>)
    requires g.orig != prim && g in s.gws && Inv(h, s)
    requires forall c :: c in order ==> c.vid == g.vid
    requires crc == Xor(h, Owned(s, g) + (set c | c in order))
    requires Frames(items) == ClaimFrames(g.orig, order, group) + [AnnounceFrame(g.orig, crc, g.vid, group)]
    requires Undisturbed(h, s, prim, g, items)
    ensures var s' := HandleAll(h, s, prim, items);
            && Inv(h, s')
            && Owned(s', g) == Owned(s, g) + (set c | c in order)
            && g in s'.gws && !s'.gws[g].requestSent && s'.gws[g].crc == crc
    decreases |items|
  {
    hide Inv, ProcessClaim, Owned, Step, Xor;
    var before, last := items[..|items| - 1], items[|items| - 1];
    var s1 := HandleAll(h, s, prim, before);
    if last.Other? {
      AnswerFills(h, s, prim, g, order, group, crc, before);
      HandleKeepsInv(h, s1, prim, last);
      CrcOfInv(h, Handle(h, s1, prim, last), g);
    } else {
      SameLast(Frames(before), last.f, ClaimFrames(g.orig, order, group), AnnounceFrame(g.orig, crc, g.vid, group));
      ClaimFramesAdd(h, s, prim, g, order, group, before);
      CrcOfInv(h, s1, g);
      MatchClears(h, s1, prim, g, group, last.now);
      HandleKeepsInv(h, s1, prim, last);
    }
  }

  lemma CrcOfInv(h: Hash, s: State, g: GwKey)
    requires Inv(h, s) && g in s.gws
    ensures s.gws[g].crc == Xor(h, Owned(s, g))
  {
  }

  // Resynchronisation.  From any table of the requester, and whatever the
  // groups of the two gateways are, an announcement that does not match makes
  // it ask.  When the frames the responder answers with arrive in order, with
  // any events in between that leave alone what is known of the responder, the
  // requester holds for that gateway exactly the responder's own claims on the
  // VLAN, the checksums agree, and the gateway is no longer waited for.
  lemma Resynchronises(h: Hash, req: State, resp: State, pr: Mac, pa: Mac, vid: Vid, crc: bv16, group: nat,
                       order: seq<ClaimKey>, now: int, items: seq<Item>)
    requires Inv(h, req) && Inv(h, resp) && pr != pa
    requires GwKey(pa, vid) in resp.gws && ListsOwn(resp, pa, vid, order)
    requires var g := GwKey(pa, vid); if g in req.gws then req.gws[g].crc != crc else crc != 0
    ensures var g := GwKey(pa, vid);
            var (asked, out, _) := ProcessClaim(h, req, pr, AnnounceFrame(pa, crc, vid, group), true, [], now);
            var request := RequestFrame(pr, pa, pa, vid, asked.group);
            var answer := ProcessClaim(h, resp, pa, request, true, order, now).1;
            && request in out
            && g in asked.gws && asked.gws[g].requestSent
            && (Frames(items) == answer && Undisturbed(h, asked, pr, g, items) ==>
                  var done := HandleAll(h, asked, pr, items);
                  && g in done.gws && !done.gws[g].requestSent
                  && Owned(done, g) == Owned(resp, g)
                  && done.gws[g].crc == resp.gws[g].crc
                  && Inv(h, done))
  {
    var g := GwKey(pa, vid);
    var announce := AnnounceFrame(pa, crc, vid, group);
    MismatchRequests(h, req, pr, g, crc, group, now);
    ProcessClaimKeepsInv(h, req, pr, announce, true, [], now);
    var asked := ProcessClaim(h, req, pr, announce, true, [], now).0;
    ResponderAnswers(h, resp, pa, vid, pr, asked.group, order, now);
    CrcOfInv(h, resp, g);
    forall c | c in order
      ensures c.vid == vid
    {
      assert c in Owned(resp, g);
    }
    hide ProcessClaim, Inv, Owned, ClaimFrames, HandleAll, Undisturbed, Xor;
    var request := RequestFrame(pr, pa, pa, vid, asked.group);
    var answer := ProcessClaim(h, resp, pa, request, true, order, now).1;
    assert Owned(asked, g) + (set c | c in order) == Owned(resp, g);
    if Frames(items) == answer && Undisturbed(h, asked, pr, g, items) {
      AnswerFills(h, asked, pr, g, order, Larger(asked.group, resp.group), resp.gws[g].crc, items);
    }
  }
}

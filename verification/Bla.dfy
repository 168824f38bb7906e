// Bridge loop avoidance: which gateway claims which client, the checksum of
// every gateway over its claims, and the count of gateways that are out of
// sync (bridge_loop_avoidance.c).  This file gives the steps on values;
// BlaTables.dfy carries them out on the tables.

module Bla {
  import opened Timeout
  import opened Wrappers

  type Mac = nat
  type Vid = nat
  type Hash = Mac -> bv16   // crc16(0, addr, ETH_ALEN)

  const WAIT_PERIODS := 3
  const PERIOD_LENGTH := 10000
  const BACKBONE_TIMEOUT := PERIOD_LENGTH * 6
  const CLAIM_TIMEOUT := PERIOD_LENGTH * 10

  datatype GwKey = GwKey(orig: Mac, vid: Vid)

  datatype ClaimKey = ClaimKey(addr: Mac, vid: Vid)

  datatype Gw = Gw(crc: bv16, requestSent: bool, waitPeriods: int, lasttime: int)

  // A claim; the pointer to its gateway is the key of that gateway.
  datatype Claim = Claim(owner: GwKey, lasttime: int)

  datatype State = State(gws: map<GwKey, Gw>, claims: map<ClaimKey, Claim>, numRequests: int, group: nat)

  const EMPTY := State(map[], map[], 0, 0)

  // The frames on the LAN: the address of the sending gateway, the contents,
  // the VLAN and the group of the sender.
  datatype Frame =
    | ClaimFrame(backbone: Mac, client: Mac, vid: Vid, group: nat)
    | UnclaimFrame(backbone: Mac, client: Mac, vid: Vid, group: nat)
    | AnnounceFrame(backbone: Mac, crc: bv16, vid: Vid, group: nat)
    | RequestFrame(backbone: Mac, target: Mac, dest: Mac, vid: Vid, group: nat)

  // ----- The invariant -----

  ghost function Owned(s: State, g: GwKey): set<ClaimKey> {
    set c | c in s.claims && s.claims[c].owner == g
  }

  ghost function Pending(s: State): set<GwKey> {
    set g | g in s.gws && s.gws[g].requestSent
  }

  function Mix(a: bv16, b: bv16): bv16 {
    a ^ b
  }

  // The XOR of the checksums of the claimed addresses.
  ghost function Xor(h: Hash, ks: set<ClaimKey>): bv16 {
    if ks == {} then 0
    else
      var k :| k in ks;
      Mix(h(k.addr), Xor(h, ks - {k}))
  }

  // Every checksum covers exactly the claims of its gateway.
  ghost predicate CrcOk(h: Hash, s: State) {
    forall g :: g in s.gws ==> s.gws[g].crc == Xor(h, Owned(s, g))
  }

  // Every claim belongs to a known gateway on its own VLAN.
  ghost predicate OwnersOk(s: State) {
    forall c :: c in s.claims ==> s.claims[c].owner in s.gws && s.claims[c].owner.vid == c.vid
  }

  ghost predicate Inv(h: Hash, s: State) {
    && CrcOk(h, s)
    && OwnersOk(s)
    && s.numRequests == |Pending(s)|
  }

  lemma {:induction false} XorRemove(h: Hash, ks: set<ClaimKey>, k: ClaimKey)
    requires k in ks
    ensures Xor(h, ks) == Mix(h(k.addr), Xor(h, ks - {k}))
  {
    var j :| j in ks && Xor(h, ks) == Mix(h(j.addr), Xor(h, ks - {j}));
    hide Mix;
    if j != k {
      XorRemove(h, ks - {j}, k);
      XorRemove(h, ks - {k}, j);
      assert ks - {j} - {k} == ks - {k} - {j};
      XorSwap(h(j.addr), h(k.addr), Xor(h, ks - {j} - {k}));
    }
  }

  lemma XorSwap(a: bv16, b: bv16, c: bv16)
    ensures Mix(a, Mix(b, c)) == Mix(b, Mix(a, c))
  {
  }

  lemma XorTwice(a: bv16, b: bv16)
    ensures Mix(Mix(a, b), a) == b && Mix(a, b) == Mix(b, a)
  {
  }

  // Adding or removing one claim changes the checksum by its own.
  lemma XorChange(h: Hash, ks: set<ClaimKey>, k: ClaimKey)
    ensures k !in ks ==> Xor(h, ks + {k}) == Mix(Xor(h, ks), h(k.addr))
    ensures k in ks ==> Xor(h, ks - {k}) == Mix(Xor(h, ks), h(k.addr))
  {
    hide Mix, Xor;
    if k in ks {
      XorRemove(h, ks, k);
      XorTwice(h(k.addr), Xor(h, ks - {k}));
    } else {
      XorRemove(h, ks + {k}, k);
      assert ks + {k} - {k} == ks;
      XorTwice(h(k.addr), Xor(h, ks));
    }
  }

  // ----- Primitive steps -----

  function Touch(s: State, g: GwKey, now: int): State {
    if g in s.gws then s.(gws := s.gws[g := s.gws[g].(lasttime := now)]) else s
  }

  // The group that belongs to the address of the primary interface.
  function WithGroup(h: Hash, s: State, prim: Mac): State {
    s.(group := h(prim) as nat)
  }

  // batadv_bla_get_backbone_gw
  function GetGw(s: State, g: GwKey, own: bool, now: int): (State, seq<Frame>) {
    if g in s.gws then (s, [])
    else
      (s.(gws := s.gws[g := Gw(0, own, if own then WAIT_PERIODS else 0, now)],
          numRequests := s.numRequests + if own then 1 else 0),
       if own then [AnnounceFrame(g.orig, 0, g.vid, s.group)] else [])
  }

  // batadv_bla_update_own_backbone_gw
  function UpdateOwnGw(s: State, prim: Mac, vid: Vid, now: int): (State, seq<Frame>) {
    var (s', frames) := GetGw(s, GwKey(prim, vid), true, now);
    (Touch(s', GwKey(prim, vid), now), frames)
  }

  // batadv_bla_del_backbone_claims
  function DelGwClaims(s: State, g: GwKey): State {
    if g in s.gws then
      s.(claims := map c | c in s.claims && s.claims[c].owner != g :: s.claims[c],
         gws := s.gws[g := s.gws[g].(crc := 0)])
    else s
  }

  function SetRequest(s: State, g: GwKey): State {
    if g in s.gws && !s.gws[g].requestSent then
      s.(gws := s.gws[g := s.gws[g].(requestSent := true)], numRequests := s.numRequests + 1)
    else s
  }

  function ClearRequest(s: State, g: GwKey): State {
    if g in s.gws && s.gws[g].requestSent then
      s.(gws := s.gws[g := s.gws[g].(requestSent := false)], numRequests := s.numRequests - 1)
    else s
  }

  // batadv_bla_send_request
  function SendRequest(s: State, prim: Mac, g: GwKey): (State, seq<Frame>) {
    (SetRequest(DelGwClaims(s, g), g), [RequestFrame(prim, g.orig, g.orig, g.vid, s.group)])
  }

  function XorCrc(h: Hash, s: State, g: GwKey, addr: Mac): State {
    if g in s.gws then s.(gws := s.gws[g := s.gws[g].(crc := Mix(s.gws[g].crc, h(addr)))]) else s
  }

  // batadv_bla_add_claim
  function AddClaim(h: Hash, s: State, c: ClaimKey, g: GwKey, now: int): State {
    if c in s.claims && s.claims[c].owner == g then s.(claims := s.claims[c := Claim(g, now)])
    else
      var s1 := if c in s.claims then XorCrc(h, s, s.claims[c].owner, c.addr) else s;
      Touch(XorCrc(h, s1.(claims := s1.claims[c := Claim(g, now)]), g, c.addr), g, now)
  }

  // batadv_bla_del_claim
  function DelClaim(h: Hash, s: State, c: ClaimKey): State {
    if c !in s.claims then s
    else XorCrc(h, s.(claims := s.claims - {c}), s.claims[c].owner, c.addr)
  }

  // One gateway in batadv_bla_purge_backbone_gw.
  function RemoveGw(s: State, g: GwKey): State {
    if g !in s.gws then s
    else
      var s' := DelGwClaims(s, g);
      s'.(gws := s'.gws - {g}, numRequests := s.numRequests - if s.gws[g].requestSent then 1 else 0)
  }

  // ----- The primitive steps keep the invariant -----

  lemma TouchKeepsInv(h: Hash, s: State, g: GwKey, now: int)
    requires Inv(h, s)
    ensures Inv(h, Touch(s, g, now))
  {
    var s' := Touch(s, g, now);
    assert Pending(s') == Pending(s);
    forall k | k in s'.gws ensures Owned(s', k) == Owned(s, k) {}
  }

  lemma NoOwner(h: Hash, s: State, g: GwKey)
    requires OwnersOk(s) && g !in s.gws
    ensures Owned(s, g) == {} && Xor(h, Owned(s, g)) == 0
  {
  }

  lemma SameClaims(s: State, s': State, k: GwKey)
    requires s'.claims == s.claims
    ensures Owned(s', k) == Owned(s, k)
  {
  }

  lemma GetGwKeepsInv(h: Hash, s: State, g: GwKey, own: bool, now: int)
    requires Inv(h, s)
    ensures Inv(h, GetGw(s, g, own, now).0) && g in GetGw(s, g, own, now).0.gws
  {
    if g !in s.gws {
      var gw := Gw(0, own, if own then WAIT_PERIODS else 0, now);
      NewGwKeepsInv(h, s, g, gw);
      hide Inv;
      assert GetGw(s, g, own, now).0 ==
             s.(gws := s.gws[g := gw], numRequests := s.numRequests + if own then 1 else 0);
    }
  }

  // A new gateway owns nothing.
  lemma NewGwKeepsInv(h: Hash, s: State, g: GwKey, gw: Gw)
    requires Inv(h, s) && g !in s.gws && gw.crc == 0
    ensures Inv(h, s.(gws := s.gws[g := gw], numRequests := s.numRequests + if gw.requestSent then 1 else 0))
  {
    hide Xor, Mix, Owned, Pending, OwnersOk;
    NoOwner(h, s, g);
    var s' := s.(gws := s.gws[g := gw], numRequests := s.numRequests + if gw.requestSent then 1 else 0);
    NewGwParts(s, s', g, gw);
    forall k | k in s'.gws
      ensures Owned(s', k) == Owned(s, k)
    {
      SameClaims(s, s', k);
    }
  }

  lemma NewGwParts(s: State, s': State, g: GwKey, gw: Gw)
    requires g !in s.gws && s'.gws == s.gws[g := gw] && s'.claims == s.claims
    ensures OwnersOk(s) ==> OwnersOk(s')
    ensures |Pending(s')| == |Pending(s)| + if gw.requestSent then 1 else 0
  {
    NewGwPending(s, s', g, gw);
    hide Pending;
  }

  lemma NewGwPending(s: State, s': State, g: GwKey, gw: Gw)
    requires g !in s.gws && s'.gws == s.gws[g := gw]
    ensures g !in Pending(s) && Pending(s') == Pending(s) + if gw.requestSent then {g} else {}
  {
  }

  lemma OwnedAfterDel(s: State, g: GwKey, k: GwKey)
    requires g in s.gws
    ensures Owned(DelGwClaims(s, g), k) == if k == g then {} else Owned(s, k)
  {
  }

  lemma OthersAfterDel(s: State, g: GwKey)
    requires g in s.gws
    ensures OwnersOk(s) ==> OwnersOk(DelGwClaims(s, g))
    ensures Pending(DelGwClaims(s, g)) == Pending(s)
  {
  }

  lemma DelGwClaimsKeepsInv(h: Hash, s: State, g: GwKey)
    requires Inv(h, s)
    ensures Inv(h, DelGwClaims(s, g))
    ensures g in s.gws ==> Owned(DelGwClaims(s, g), g) == {}
  {
    assert Xor(h, {}) == 0;
    hide Xor, Mix, Owned, Pending, OwnersOk;
    if g in s.gws {
      OthersAfterDel(s, g);
      var s' := DelGwClaims(s, g);
      OwnedAfterDel(s, g, g);
      forall k | k in s'.gws
        ensures s'.gws[k].crc == Xor(h, Owned(s', k))
      {
        OwnedAfterDel(s, g, k);
      }
    }
  }

  lemma SetRequestKeepsInv(h: Hash, s: State, g: GwKey)
    requires Inv(h, s)
    ensures Inv(h, SetRequest(s, g))
  {
    hide Xor, Mix;
    var s' := SetRequest(s, g);
    assert g in s.gws && !s.gws[g].requestSent ==> Pending(s') == Pending(s) + {g};
    forall k | k in s'.gws ensures Owned(s', k) == Owned(s, k) {}
  }

  lemma ClearRequestKeepsInv(h: Hash, s: State, g: GwKey)
    requires Inv(h, s)
    ensures Inv(h, ClearRequest(s, g))
  {
    hide Xor, Mix;
    var s' := ClearRequest(s, g);
    assert g in s.gws && s.gws[g].requestSent ==> Pending(s') == Pending(s) - {g};
    forall k | k in s'.gws ensures Owned(s', k) == Owned(s, k) {}
  }

  // The claims per gateway after adding a claim.
  lemma OwnedAfterAdd(h: Hash, s: State, c: ClaimKey, g: GwKey, now: int, k: GwKey)
    ensures Owned(AddClaim(h, s, c, g, now), k) == if k == g then Owned(s, k) + {c} else Owned(s, k) - {c}
  {
  }

  // The checksums after adding a claim: it enters the sum of its gateway and
  // leaves that of the gateway that had it.
  lemma CrcAfterAdd(h: Hash, s: State, c: ClaimKey, g: GwKey, now: int, k: GwKey)
    requires g in s.gws && k in s.gws && OwnersOk(s)
    ensures var s' := AddClaim(h, s, c, g, now);
            && s'.gws.Keys == s.gws.Keys
            && s'.gws[k].requestSent == s.gws[k].requestSent
            && s'.gws[k].crc == if (k == g) != (c in Owned(s, k)) then Mix(s.gws[k].crc, h(c.addr)) else s.gws[k].crc
  {
    assert c in Owned(s, k) <==> c in s.claims && s.claims[c].owner == k;
    hide Mix, Owned;
    if c !in s.claims {
      hide OwnersOk;
      AddedAt(h, s, c, g, now, k);
    } else if s.claims[c].owner != g {
      var o := s.claims[c].owner;
      assert o in s.gws;
      hide OwnersOk;
      XorCrcAt(h, s, o, c.addr, g);
      XorCrcAt(h, s, o, c.addr, k);
      AddedAt(h, XorCrc(h, s, o, c.addr), c, g, now, k);
    }
  }

  // The claim is set, then enters the checksum of its gateway.
  lemma AddedAt(h: Hash, s: State, c: ClaimKey, g: GwKey, now: int, k: GwKey)
    requires g in s.gws && k in s.gws
    ensures var s' := Touch(XorCrc(h, s.(claims := s.claims[c := Claim(g, now)]), g, c.addr), g, now);
            && s'.gws.Keys == s.gws.Keys
            && s'.gws[k].requestSent == s.gws[k].requestSent
            && s'.gws[k].crc == if k == g then Mix(s.gws[k].crc, h(c.addr)) else s.gws[k].crc
  {
    hide Mix;
  }

  lemma XorCrcAt(h: Hash, s: State, g: GwKey, addr: Mac, k: GwKey)
    requires g in s.gws && k in s.gws
    ensures var s' := XorCrc(h, s, g, addr);
            && s'.gws.Keys == s.gws.Keys && s'.claims == s.claims
            && s'.gws[k].requestSent == s.gws[k].requestSent
            && s'.gws[k].crc == if k == g then Mix(s.gws[k].crc, h(addr)) else s.gws[k].crc
  {
    hide Mix;
  }

  lemma OwnersAfterAdd(h: Hash, s: State, c: ClaimKey, g: GwKey, now: int)
    requires OwnersOk(s) && g in s.gws && g.vid == c.vid
    ensures var s' := AddClaim(h, s, c, g, now);
            OwnersOk(s') && s'.numRequests == s.numRequests
  {
    hide Mix;
  }

  lemma CrcCoversAfterAdd(h: Hash, s: State, c: ClaimKey, g: GwKey, now: int, k: GwKey)
    requires OwnersOk(s) && g in s.gws && k in s.gws && s.gws[k].crc == Xor(h, Owned(s, k))
    ensures var s' := AddClaim(h, s, c, g, now);
            && s'.gws.Keys == s.gws.Keys
            && s'.gws[k].requestSent == s.gws[k].requestSent
            && s'.gws[k].crc == Xor(h, Owned(s', k))
  {
    hide AddClaim, Xor, Mix, OwnersOk, Owned;
    CrcAfterAdd(h, s, c, g, now, k);
    OwnedAfterAdd(h, s, c, g, now, k);
    XorChange(h, Owned(s, k), c);
    if c in Owned(s, k) {
      assert Owned(s, k) + {c} == Owned(s, k);
    } else {
      assert Owned(s, k) - {c} == Owned(s, k);
    }
  }

  lemma AddClaimKeepsInv(h: Hash, s: State, c: ClaimKey, g: GwKey, now: int)
    requires Inv(h, s) && g in s.gws && g.vid == c.vid
    ensures Inv(h, AddClaim(h, s, c, g, now))
  {
    hide AddClaim, Xor, Mix, OwnersOk, Owned;
    var s' := AddClaim(h, s, c, g, now);
    OwnersAfterAdd(h, s, c, g, now);
    CrcCoversAfterAdd(h, s, c, g, now, g);
    forall k | k in s.gws
      ensures s'.gws[k].requestSent == s.gws[k].requestSent
      ensures s'.gws[k].crc == Xor(h, Owned(s', k))
    {
      CrcCoversAfterAdd(h, s, c, g, now, k);
    }
    assert Pending(s') == Pending(s);
  }

  lemma DelClaimKeepsInv(h: Hash, s: State, c: ClaimKey)
    requires Inv(h, s)
    ensures Inv(h, DelClaim(h, s, c))
  {
    hide Mix, Xor;
    var s' := DelClaim(h, s, c);
    if c in s.claims {
      assert Pending(s') == Pending(s);
      forall k | k in s'.gws
        ensures s'.gws[k].crc == Xor(h, Owned(s', k))
      {
        assert Owned(s', k) == Owned(s, k) - {c};
        XorChange(h, Owned(s, k), c);
        if c !in Owned(s, k) {
          assert Owned(s, k) - {c} == Owned(s, k);
        }
      }
    }
  }

  lemma RemoveGwKeepsInv(h: Hash, s: State, g: GwKey)
    requires Inv(h, s)
    ensures Inv(h, RemoveGw(s, g))
  {
    if g in s.gws {
      DelGwClaimsKeepsInv(h, s, g);
      DropGwKeepsInv(h, DelGwClaims(s, g), g);
    }
  }

  // A gateway without claims can go.
  lemma DropGwKeepsInv(h: Hash, s: State, g: GwKey)
    requires Inv(h, s) && g in s.gws && Owned(s, g) == {}
    ensures Inv(h, s.(gws := s.gws - {g}, numRequests := s.numRequests - if s.gws[g].requestSent then 1 else 0))
  {
    hide Xor, Mix;
    var s' := s.(gws := s.gws - {g}, numRequests := s.numRequests - if s.gws[g].requestSent then 1 else 0);
    assert forall c :: c in s.claims && s.claims[c].owner == g ==> c in Owned(s, g);
    assert Pending(s') == Pending(s) - {g};
    hide Owned, Pending;
    forall k | k in s'.gws
      ensures Owned(s', k) == Owned(s, k)
    {
      SameClaims(s, s', k);
    }
  }

  // ----- The handlers -----

  // batadv_handle_announce
  function HandleAnnounce(s: State, prim: Mac, crc: bv16, backbone: Mac, vid: Vid, now: int): (State, seq<Frame>) {
    var g := GwKey(backbone, vid);
    var s1 := Touch(GetGw(s, g, false, now).0, g, now);
    if g in s1.gws && s1.gws[g].crc != crc then SendRequest(s1, prim, g)
    else (ClearRequest(s1, g), [])
  }

  // batadv_handle_claim
  function HandleClaim(h: Hash, s: State, prim: Mac, backbone: Mac, client: Mac, vid: Vid, now: int)
    : (State, seq<Frame>)
  {
    var g := GwKey(backbone, vid);
    (AddClaim(h, GetGw(s, g, false, now).0, ClaimKey(client, vid), g, now),
     if backbone == prim then [ClaimFrame(prim, client, vid, s.group)] else [])
  }

  // batadv_handle_unclaim; there may be no primary interface.
  function HandleUnclaim(h: Hash, s: State, prim: Option<Mac>, backbone: Mac, client: Mac, vid: Vid)
    : (State, seq<Frame>)
  {
    (if GwKey(backbone, vid) in s.gws then DelClaim(h, s, ClaimKey(client, vid)) else s,
     if prim == Some(backbone) then [UnclaimFrame(backbone, client, vid, s.group)] else [])
  }

  // The frames batadv_bla_answer_request sends: all claims of our own gateway,
  // in the order of the hash table, and the announcement.
  function Answer(s: State, prim: Mac, vid: Vid, order: seq<ClaimKey>): seq<Frame> {
    if GwKey(prim, vid) in s.gws then
      ClaimFrames(prim, order, s.group) + [AnnounceFrame(prim, s.gws[GwKey(prim, vid)].crc, vid, s.group)]
    else []
  }

  function ClaimFrames(prim: Mac, order: seq<ClaimKey>, group: nat): seq<Frame> {
    if order == [] then []
    else ClaimFrames(prim, order[..|order| - 1], group)
         + [ClaimFrame(prim, order[|order| - 1].addr, order[|order| - 1].vid, group)]
  }

  // order lists exactly the claims of our own gateway on the VLAN.
  ghost predicate ListsOwn(s: State, prim: Mac, vid: Vid, order: seq<ClaimKey>) {
    forall c :: c in order <==> c in Owned(s, GwKey(prim, vid))
  }

  // batadv_check_claim_group for a frame of a known type: not ours to handle
  // (from ourselves), from another group, or to be processed; and the group we
  // belong to afterwards.
  datatype GroupCheck = FromSelf | OtherGroup | SameGroup(group: nat)

  function Larger(a: nat, b: nat): nat {
    if a > b then a else b
  }

  function CheckGroup(s: State, prim: Mac, f: Frame, inMesh: bool): GroupCheck {
    if f.backbone == prim then FromSelf
    else if f.group == s.group then SameGroup(s.group)
    else if !inMesh then OtherGroup
    else SameGroup(Larger(f.group, s.group))
  }

  // batadv_bla_process_claim for a claim frame: the new state, the frames
  // sent, and whether the frame is taken.  order: see Answer.
  function ProcessClaim(h: Hash, s: State, prim: Mac, f: Frame, inMesh: bool, order: seq<ClaimKey>, now: int)
    : (State, seq<Frame>, bool)
  {
    match CheckGroup(s, prim, f, inMesh)
    case FromSelf => (s, [], false)
    case OtherGroup => (s, [], true)
    case SameGroup(group) =>
      var (s1, out1) := UpdateOwnGw(s.(group := group), prim, f.vid, now);
      var (s2, out2) :=
        match f
        case ClaimFrame(backbone, client, vid, _) => HandleClaim(h, s1, prim, backbone, client, vid, now)
        case UnclaimFrame(backbone, client, vid, _) => HandleUnclaim(h, s1, Some(prim), backbone, client, vid)
        case AnnounceFrame(backbone, crc, vid, _) => HandleAnnounce(s1, prim, crc, backbone, vid, now)
        case RequestFrame(_, target, dest, vid, _) =>
          (s1, if target == dest == prim then Answer(s1, prim, vid, order) else []);
      (s2, out1 + out2, true)
  }

  // ----- Traffic -----

  // A packet: its source, its VLAN, whether it goes to a multicast address,
  // and, for one coming from the mesh, whether it travelled as a broadcast.
  datatype Packet = Packet(src: Mac, vid: Vid, multicast: bool, isBcast: bool)

  // The rest of batadv_bla_rx and _tx once a packet is let through.
  function Allow(s: State, prim: Mac, vid: Vid, out: seq<Frame>, now: int): (State, seq<Frame>, bool) {
    var (s', frames) := UpdateOwnGw(s, prim, vid, now);
    (s', out + frames, false)
  }

  // batadv_bla_rx with a primary interface: the last component says that the
  // packet is not handed on.
  function Rx(h: Hash, s: State, prim: Mac, enabled: bool, p: Packet, now: int): (State, seq<Frame>, bool) {
    var c := ClaimKey(p.src, p.vid);
    if !enabled then Allow(s, prim, p.vid, [], now)
    else if s.numRequests != 0 && p.multicast && p.isBcast then (s, [], true)
    else if c !in s.claims then
      var (s', out) := HandleClaim(h, s, prim, prim, p.src, p.vid, now);
      Allow(s', prim, p.vid, out, now)
    else if s.claims[c].owner.orig == prim then
      Allow(s.(claims := s.claims[c := s.claims[c].(lasttime := now)]), prim, p.vid, [], now)
    else if p.multicast && p.isBcast then (s, [], true)
    else
      var (s', out) := HandleClaim(h, s, prim, prim, p.src, p.vid, now);
      Allow(s', prim, p.vid, out, now)
  }

  // batadv_bla_tx with a primary interface, for a packet that is not a claim
  // frame to be processed.
  function Tx(h: Hash, s: State, prim: Mac, enabled: bool, p: Packet, now: int): (State, seq<Frame>, bool) {
    var c := ClaimKey(p.src, p.vid);
    if !enabled then Allow(s, prim, p.vid, [], now)
    else if s.numRequests != 0 && p.multicast then (s, [], true)
    else if c !in s.claims then Allow(s, prim, p.vid, [], now)
    else if s.claims[c].owner.orig == prim then
      var (s', out) := HandleUnclaim(h, s, Some(prim), prim, p.src, p.vid);
      Allow(s', prim, p.vid, out, now)
    else if p.multicast then (s, [], true)
    else Allow(s, prim, p.vid, [], now)
  }

  // ----- The periodic work -----

  // A claim that batadv_bla_purge_claims removes.
  predicate Expired(s: State, prim: Option<Mac>, c: ClaimKey, all: bool, now: int) {
    && c in s.claims
    && (all || (prim == Some(s.claims[c].owner.orig) && HasTimedOut(s.claims[c].lasttime, CLAIM_TIMEOUT, now)))
  }

  // batadv_bla_purge_claims over the claims listed, in the order of the table.
  function PurgeClaims(h: Hash, s: State, prim: Option<Mac>, all: bool, now: int, order: seq<ClaimKey>): State
    decreases |order|
  {
    if order == [] then s
    else
      var s' := PurgeClaims(h, s, prim, all, now, order[..|order| - 1]);
      var c := order[|order| - 1];
      if Expired(s', prim, c, all, now)
      then HandleUnclaim(h, s', prim, s'.claims[c].owner.orig, c.addr, c.vid).0
      else s'
  }

  // The unclaim frames of a purge of cs: one for every claim of our own that
  // goes.
  ghost function Unclaims(s: State, prim: Option<Mac>, all: bool, now: int, cs: set<ClaimKey>): set<Frame> {
    set c | c in cs && Expired(s, prim, c, all, now) && prim == Some(s.claims[c].owner.orig) ::
      UnclaimFrame(s.claims[c].owner.orig, c.addr, c.vid, s.group)
  }

  // One announcement for every gateway of our own among gs, with its checksum.
  ghost function Announcements(s: State, prim: Mac, gs: set<GwKey>): set<Frame> {
    set g | g in gs && g in s.gws && g.orig == prim :: AnnounceFrame(prim, s.gws[g].crc, g.vid, s.group)
  }

  // Exactly these frames are sent, each once.
  ghost predicate EachOnce(sent: seq<Frame>, fs: set<Frame>) {
    && (forall f :: f in sent <==> f in fs)
    && (forall i, j :: 0 <= i < j < |sent| ==> sent[i] != sent[j])
  }

  // batadv_bla_purge_backbone_gw over the gateways listed.
  function PurgeGws(s: State, all: bool, now: int, order: seq<GwKey>): State
    decreases |order|
  {
    if order == [] then s
    else
      var s' := PurgeGws(s, all, now, order[..|order| - 1]);
      var g := order[|order| - 1];
      if g in s'.gws && (all || HasTimedOut(s'.gws[g].lasttime, BACKBONE_TIMEOUT, now)) then RemoveGw(s', g) else s'
  }

  // One of our own gateways in batadv_bla_periodic_work.
  function Tick(s: State, g: GwKey, now: int): State {
    var s1 := Touch(s, g, now);
    if g !in s1.gws || !s1.gws[g].requestSent then s1
    else
      var s2 := s1.(gws := s1.gws[g := s1.gws[g].(waitPeriods := s1.gws[g].waitPeriods - 1)]);
      if s2.gws[g].waitPeriods == 0 then ClearRequest(s2, g) else s2
  }

  function TickAll(s: State, prim: Mac, now: int, order: seq<GwKey>): State
    decreases |order|
  {
    if order == [] then s
    else
      var s' := TickAll(s, prim, now, order[..|order| - 1]);
      if order[|order| - 1].orig == prim then Tick(s', order[|order| - 1], now) else s'
  }

  function Periodic(h: Hash, s: State, prim: Mac, enabled: bool, now: int,
                    cs: seq<ClaimKey>, gs: seq<GwKey>, own: seq<GwKey>): State {
    var s' := PurgeGws(PurgeClaims(h, s, Some(prim), false, now, cs), false, now, gs);
    if enabled then TickAll(s', prim, now, own) else s'
  }
}

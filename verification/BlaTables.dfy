// Bridge loop avoidance on the tables: the handlers of
// bridge_loop_avoidance.c, updating the claim table, the backbone table and
// the request counter step by step.  The loops visit the hash tables in any
// order.

module BlaTables {
  import opened Bla
  import opened Timeout
  import opened Wrappers
  import BlaRuns

  lemma {:induction false} ClaimFramesHas(prim: Mac, order: seq<ClaimKey>, group: nat, f: Frame)
    ensures f in ClaimFrames(prim, order, group) <==>
            exists c :: c in order && f == ClaimFrame(prim, c.addr, c.vid, group)
  {
    if order != [] {
      var rest, last := order[..|order| - 1], order[|order| - 1];
      ClaimFramesHas(prim, rest, group, f);
      assert forall c :: c in order <==> c in rest || c == last;
    }
  }

  // Purging claims removes no gateway.
  lemma {:induction false} PurgeClaimsKeepsKeys(h: Hash, s: State, prim: Option<Mac>, all: bool, now: int,
                                                  order: seq<ClaimKey>)
    ensures PurgeClaims(h, s, prim, all, now, order).gws.Keys == s.gws.Keys
    decreases |order|
  {
    hide Mix;
    if order != [] {
      PurgeClaimsKeepsKeys(h, s, prim, all, now, order[..|order| - 1]);
    }
  }

  lemma ClaimsLeft(s: State, s': State, g: GwKey)
    requires g in s.gws && s'.gws == s.gws[g := s.gws[g].(crc := 0)]
    requires s'.numRequests == s.numRequests && s'.group == s.group
    requires forall c :: c in s'.claims <==> c in s.claims && s.claims[c].owner != g
    requires forall c :: c in s'.claims ==> s'.claims[c] == s.claims[c]
    ensures s' == DelGwClaims(s, g)
  {
    assert s'.claims == DelGwClaims(s, g).claims;
  }

  // Removing a gateway in the order of the source: counter, claims, entry.
  lemma RemoveGwParts(before: State, after: State, g: GwKey)
    requires g in before.gws
    requires var left := before.numRequests - if before.gws[g].requestSent then 1 else 0;
             var s := DelGwClaims(before.(numRequests := left), g);
             after == s.(gws := s.gws - {g})
    ensures after == RemoveGw(before, g)
  {
  }

  // One more frame of its own kind.
  lemma OneMoreFrame(sent: seq<Frame>, fs: set<Frame>, f: Frame)
    requires EachOnce(sent, fs) && f !in fs
    ensures EachOnce(sent + [f], fs + {f})
  {
  }

  // A claim of a known gateway goes, and is unclaimed if it was our own.
  lemma UnclaimRemoves(h: Hash, s: State, prim: Option<Mac>, c: ClaimKey)
    requires Inv(h, s) && c in s.claims
    ensures var (s', frames) := HandleUnclaim(h, s, prim, s.claims[c].owner.orig, c.addr, c.vid);
            && s'.claims == s.claims - {c} && s'.group == s.group
            && frames == if prim == Some(s.claims[c].owner.orig)
                         then [UnclaimFrame(s.claims[c].owner.orig, c.addr, c.vid, s.group)] else []
  {
    hide Mix;
    assert s.claims[c].owner == GwKey(s.claims[c].owner.orig, c.vid);
  }

  // The claims while a purge has come through done.
  ghost predicate Purged(s: State, s': State, prim: Option<Mac>, all: bool, now: int, done: set<ClaimKey>) {
    && s'.group == s.group
    && (forall c :: c in s'.claims <==> c in s.claims && !(c in done && Expired(s, prim, c, all, now)))
    && (forall c :: c in s'.claims ==> s'.claims[c] == s.claims[c])
  }

  lemma NoFrames(s: State, prim: Option<Mac>, all: bool, now: int)
    ensures EachOnce([], Unclaims(s, prim, all, now, {}))
    ensures prim.Some? ==> EachOnce([], Announcements(s, prim.value, {}))
  {
  }

  // One more claim of a purge: whether it goes is as it was at the start.
  lemma PurgeOne(h: Hash, s: State, s': State, prim: Option<Mac>, all: bool, now: int, done: set<ClaimKey>, c: ClaimKey)
    requires Inv(h, s') && Purged(s, s', prim, all, now, done) && c in s.claims && c !in done
    ensures c in s'.claims && s'.claims[c] == s.claims[c] && s'.group == s.group
    ensures var left := if Expired(s, prim, c, all, now)
                        then HandleUnclaim(h, s', prim, s.claims[c].owner.orig, c.addr, c.vid).0 else s';
            Purged(s, left, prim, all, now, done + {c})
  {
    UnclaimRemoves(h, s', prim, c);
    hide Inv, HandleUnclaim;
  }

  lemma UnclaimOne(s: State, prim: Option<Mac>, all: bool, now: int, done: set<ClaimKey>, c: ClaimKey,
                   sent: seq<Frame>)
    requires c in s.claims && c !in done && EachOnce(sent, Unclaims(s, prim, all, now, done))
    ensures var f := UnclaimFrame(s.claims[c].owner.orig, c.addr, c.vid, s.group);
            if Expired(s, prim, c, all, now) && prim == Some(s.claims[c].owner.orig)
            then EachOnce(sent + [f], Unclaims(s, prim, all, now, done + {c}))
            else EachOnce(sent, Unclaims(s, prim, all, now, done + {c}))
  {
    var fs := Unclaims(s, prim, all, now, done);
    var f := UnclaimFrame(s.claims[c].owner.orig, c.addr, c.vid, s.group);
    if Expired(s, prim, c, all, now) && prim == Some(s.claims[c].owner.orig) {
      assert f !in fs;
      assert Unclaims(s, prim, all, now, done + {c}) == fs + {f};
      OneMoreFrame(sent, fs, f);
    } else {
      assert Unclaims(s, prim, all, now, done + {c}) == fs;
    }
  }

  lemma SameAnnouncements(s: State, s': State, prim: Mac, gs: set<GwKey>)
    requires s'.group == s.group && s'.gws.Keys == s.gws.Keys
    requires forall g :: g in s.gws ==> s'.gws[g].crc == s.gws[g].crc
    ensures Announcements(s', prim, gs) == Announcements(s, prim, gs)
  {
  }

  lemma AnnounceOne(s: State, prim: Mac, done: set<GwKey>, g: GwKey, sent: seq<Frame>)
    requires g in s.gws && g !in done && EachOnce(sent, Announcements(s, prim, done))
    ensures var f := AnnounceFrame(prim, s.gws[g].crc, g.vid, s.group);
            if g.orig == prim then EachOnce(sent + [f], Announcements(s, prim, done + {g}))
            else EachOnce(sent, Announcements(s, prim, done + {g}))
  {
    var fs := Announcements(s, prim, done);
    var f := AnnounceFrame(prim, s.gws[g].crc, g.vid, s.group);
    if g.orig == prim {
      assert f !in fs;
      assert Announcements(s, prim, done + {g}) == fs + {f};
      OneMoreFrame(sent, fs, f);
    } else {
      assert Announcements(s, prim, done + {g}) == fs;
    }
  }

  class BlaPriv {
    const crc16: Hash
    var backboneHash: map<GwKey, Gw>
    var claimHash: map<ClaimKey, Claim>
    var numRequests: int
    var ownGroup: nat

    ghost function View(): State
      reads this
    {
      State(backboneHash, claimHash, numRequests, ownGroup)
    }

    ghost predicate Valid()
      reads this
    {
      Inv(crc16, View())
    }

    // The tables and the group of batadv_bla_init; prim is the address of the
    // primary interface, if there is one yet.
    constructor (crc16: Hash, prim: Option<Mac>)
      ensures this.crc16 == crc16 && Valid()
      ensures View() == if prim.Some? then WithGroup(crc16, EMPTY, prim.value) else EMPTY
    {
      this.crc16 := crc16;
      backboneHash, claimHash, numRequests := map[], map[], 0;
      ownGroup := if prim.Some? then crc16(prim.value) as nat else 0;
      new;
      BlaRuns.RunInv(crc16, []);
      BlaRuns.GroupKeepsInv(crc16, EMPTY, ownGroup);
    }

    // The group follows the address of the primary interface.
    method ResetGroup(prim: Mac)
      requires Valid()
      modifies this`ownGroup
      ensures Valid() && View() == WithGroup(crc16, old(View()), prim)
    {
      BlaRuns.GroupKeepsInv(crc16, View(), crc16(prim) as nat);
      ownGroup := crc16(prim) as nat;
    }

    // batadv_bla_del_backbone_claims
    method DelBackboneClaims(g: GwKey)
      requires g in backboneHash
      modifies this`claimHash, this`backboneHash
      ensures View() == DelGwClaims(old(View()), g)
      ensures old(Valid()) ==> Valid()
    {
      if Inv(crc16, View()) {
        DelGwClaimsKeepsInv(crc16, View(), g);
      }
      hide Inv, DelGwClaims;
      var todo := claimHash.Keys;
      while todo != {}
        invariant todo <= old(claimHash).Keys && backboneHash == old(backboneHash)
        invariant forall c :: c in claimHash <==> c in old(claimHash) && (c in todo || old(claimHash)[c].owner != g)
        invariant forall c :: c in claimHash ==> claimHash[c] == old(claimHash)[c]
        decreases todo
      {
        var c :| c in todo;
        if c in claimHash && claimHash[c].owner == g {
          claimHash := claimHash - {c};
        }
        todo := todo - {c};
      }
      backboneHash := backboneHash[g := backboneHash[g].(crc := 0)];
      ClaimsLeft(old(View()), View(), g);
    }

    // batadv_bla_get_backbone_gw
    method GetBackboneGw(g: GwKey, ownBackbone: bool, now: int) returns (sent: seq<Frame>)
      modifies this`backboneHash, this`numRequests
      ensures (View(), sent) == GetGw(old(View()), g, ownBackbone, now)
      ensures old(Valid()) ==> Valid()
    {
      if Inv(crc16, View()) {
        GetGwKeepsInv(crc16, View(), g, ownBackbone, now);
      }
      hide Inv;
      sent := [];
      if g in backboneHash {
        return;
      }
      backboneHash := backboneHash[g := Gw(0, false, 0, now)];
      if ownBackbone {
        sent := [AnnounceFrame(g.orig, backboneHash[g].crc, g.vid, ownGroup)];
        backboneHash := backboneHash[g := backboneHash[g].(requestSent := true, waitPeriods := WAIT_PERIODS)];
        numRequests := numRequests + 1;
      }
      assert backboneHash == GetGw(old(View()), g, ownBackbone, now).0.gws;
    }

    // batadv_bla_update_own_backbone_gw
    method UpdateOwnBackboneGw(prim: Mac, vid: Vid, now: int) returns (sent: seq<Frame>)
      modifies this`backboneHash, this`numRequests
      ensures (View(), sent) == UpdateOwnGw(old(View()), prim, vid, now)
      ensures old(Valid()) ==> Valid()
    {
      if Inv(crc16, View()) {
        BlaRuns.UpdateOwnGwKeepsInv(crc16, View(), prim, vid, now);
      }
      hide Inv;
      var g := GwKey(prim, vid);
      sent := GetBackboneGw(g, true, now);
      backboneHash := backboneHash[g := backboneHash[g].(lasttime := now)];
    }

    // batadv_bla_send_request
    method RequestClaims(prim: Mac, g: GwKey) returns (sent: seq<Frame>)
      requires g in backboneHash
      modifies this
      ensures (View(), sent) == SendRequest(old(View()), prim, g)
      ensures old(Valid()) ==> Valid()
    {
      if Inv(crc16, View()) {
        BlaRuns.SendRequestKeepsInv(crc16, View(), prim, g);
      }
      hide Inv;
      DelBackboneClaims(g);
      sent := [RequestFrame(prim, g.orig, g.orig, g.vid, ownGroup)];
      if !backboneHash[g].requestSent {
        numRequests := numRequests + 1;
        backboneHash := backboneHash[g := backboneHash[g].(requestSent := true)];
      }
    }

    // backbone_gw->crc ^= crc16(0, addr, ETH_ALEN)
    method XorIntoCrc(g: GwKey, addr: Mac)
      requires g in backboneHash
      modifies this`backboneHash
      ensures View() == XorCrc(crc16, old(View()), g, addr)
    {
      backboneHash := backboneHash[g := backboneHash[g].(crc := Mix(backboneHash[g].crc, crc16(addr)))];
    }

    // batadv_bla_add_claim
    method InsertClaim(c: ClaimKey, g: GwKey, now: int)
      requires Valid() && g in backboneHash
      modifies this`claimHash, this`backboneHash
      ensures View() == AddClaim(crc16, old(View()), c, g, now)
      ensures g.vid == c.vid ==> Valid()
    {
      if g.vid == c.vid {
        AddClaimKeepsInv(crc16, View(), c, g, now);
      }
      assert OwnersOk(View());
      assert c in claimHash ==> claimHash[c].owner in backboneHash;
      hide Mix, Inv, OwnersOk;
      if c !in claimHash {
        claimHash := claimHash[c := Claim(g, now)];
      } else {
        claimHash := claimHash[c := claimHash[c].(lasttime := now)];
        if claimHash[c].owner == g {
          return;
        }
        XorIntoCrc(claimHash[c].owner, c.addr);
      }
      claimHash := claimHash[c := claimHash[c].(owner := g)];
      assert claimHash == old(claimHash)[c := Claim(g, now)];
      XorIntoCrc(g, c.addr);
      backboneHash := backboneHash[g := backboneHash[g].(lasttime := now)];
    }

    // batadv_bla_del_claim
    method RemoveClaim(c: ClaimKey)
      requires Valid()
      modifies this`claimHash, this`backboneHash
      ensures Valid() && View() == DelClaim(crc16, old(View()), c)
    {
      DelClaimKeepsInv(crc16, View(), c);
      assert c in claimHash ==> claimHash[c].owner in backboneHash;
      hide Inv;
      if c !in claimHash {
        return;
      }
      var owner := claimHash[c].owner;
      claimHash := claimHash - {c};
      XorIntoCrc(owner, c.addr);
    }

    // batadv_handle_announce
    method ReceiveAnnounce(prim: Mac, crc: bv16, backbone: Mac, vid: Vid, now: int) returns (sent: seq<Frame>)
      requires Valid()
      modifies this
      ensures Valid() && (View(), sent) == HandleAnnounce(old(View()), prim, crc, backbone, vid, now)
    {
      BlaRuns.HandleAnnounceKeepsInv(crc16, View(), prim, crc, backbone, vid, now);
      hide Inv;
      var g := GwKey(backbone, vid);
      sent := GetBackboneGw(g, false, now);
      backboneHash := backboneHash[g := backboneHash[g].(lasttime := now)];
      if backboneHash[g].crc != crc {
        sent := RequestClaims(prim, g);
      } else if backboneHash[g].requestSent {
        numRequests := numRequests - 1;
        backboneHash := backboneHash[g := backboneHash[g].(requestSent := false)];
      }
    }

    // batadv_handle_claim
    method ReceiveClaim(prim: Mac, backbone: Mac, client: Mac, vid: Vid, now: int) returns (sent: seq<Frame>)
      requires Valid()
      modifies this
      ensures Valid() && (View(), sent) == HandleClaim(crc16, old(View()), prim, backbone, client, vid, now)
    {
      BlaRuns.HandleClaimKeepsInv(crc16, View(), prim, backbone, client, vid, now);
      var g := GwKey(backbone, vid);
      GetGwKeepsInv(crc16, View(), g, false, now);
      hide Inv, AddClaim, GetGw;
      var frames := GetBackboneGw(g, false, now);
      InsertClaim(ClaimKey(client, vid), g, now);
      sent := if backbone == prim then [ClaimFrame(prim, client, vid, ownGroup)] else [];
    }

    // batadv_handle_unclaim
    method ReceiveUnclaim(prim: Option<Mac>, backbone: Mac, client: Mac, vid: Vid) returns (sent: seq<Frame>)
      requires Valid()
      modifies this`claimHash, this`backboneHash
      ensures Valid() && (View(), sent) == HandleUnclaim(crc16, old(View()), prim, backbone, client, vid)
    {
      BlaRuns.HandleUnclaimKeepsInv(crc16, View(), prim, backbone, client, vid);
      hide Inv, DelClaim;
      sent := if prim == Some(backbone) then [UnclaimFrame(backbone, client, vid, ownGroup)] else [];
      if GwKey(backbone, vid) !in backboneHash {
        return;
      }
      RemoveClaim(ClaimKey(client, vid));
    }

    // batadv_bla_answer_request; order is the order of the claim table.
    method AnswerRequest(prim: Mac, vid: Vid) returns (sent: seq<Frame>, ghost order: seq<ClaimKey>)
      ensures ListsOwn(View(), prim, vid, order) && sent == Answer(View(), prim, vid, order)
      ensures forall f :: f in sent <==>
                && GwKey(prim, vid) in backboneHash
                && (|| f == AnnounceFrame(prim, backboneHash[GwKey(prim, vid)].crc, vid, ownGroup)
                    || exists c :: c in Owned(View(), GwKey(prim, vid))
                                   && f == ClaimFrame(prim, c.addr, c.vid, ownGroup))
    {
      sent, order := [], [];
      var g := GwKey(prim, vid);
      var known := g in backboneHash;
      var todo := claimHash.Keys;
      while todo != {}
        invariant todo <= claimHash.Keys
        invariant sent == if known then ClaimFrames(prim, order, ownGroup) else []
        invariant forall c :: c in order <==> c in claimHash && c !in todo && claimHash[c].owner == g
        decreases todo
      {
        var c :| c in todo;
        if claimHash[c].owner == g {
          order := order + [c];
          if known {
            sent := sent + [ClaimFrame(prim, c.addr, c.vid, ownGroup)];
          }
        }
        todo := todo - {c};
      }
      forall f
        ensures f in ClaimFrames(prim, order, ownGroup) <==>
                exists c :: c in order && f == ClaimFrame(prim, c.addr, c.vid, ownGroup)
      {
        ClaimFramesHas(prim, order, ownGroup, f);
      }
      if known {
        sent := sent + [AnnounceFrame(prim, backboneHash[g].crc, vid, ownGroup)];
      }
    }

    // batadv_bla_process_claim
    method ReceiveFrame(prim: Mac, f: Frame, inMesh: bool, now: int)
      returns (sent: seq<Frame>, taken: bool, ghost order: seq<ClaimKey>)
      requires Valid()
      modifies this
      ensures Valid() && (View(), sent, taken) == ProcessClaim(crc16, old(View()), prim, f, inMesh, order, now)
      ensures f.RequestFrame? && f.backbone != prim && (f.group == old(ownGroup) || inMesh) ==>
                ListsOwn(View(), prim, f.vid, order)
    {
      sent, taken, order := [], false, [];
      ghost var s := View();
      hide Inv, UpdateOwnGw, HandleClaim, HandleUnclaim, HandleAnnounce, Answer, ListsOwn;
      if f.backbone == prim {
        return;
      }
      taken := true;
      if f.group != ownGroup {
        if !inMesh {
          return;
        }
        if f.group > ownGroup {
          ownGroup := f.group;
        }
      }
      BlaRuns.GroupKeepsInv(crc16, s, ownGroup);
      BlaRuns.UpdateOwnGwKeepsInv(crc16, View(), prim, f.vid, now);
      var own := UpdateOwnBackboneGw(prim, f.vid, now);
      var more := [];
      match f {
        case ClaimFrame(backbone, client, vid, _) =>
          more := ReceiveClaim(prim, backbone, client, vid, now);
        case UnclaimFrame(backbone, client, vid, _) =>
          more := ReceiveUnclaim(Some(prim), backbone, client, vid);
        case AnnounceFrame(backbone, crc, vid, _) =>
          more := ReceiveAnnounce(prim, crc, backbone, vid, now);
        case RequestFrame(_, target, dest, vid, _) =>
          var answer;
          answer, order := AnswerRequest(prim, vid);
          if target == dest && dest == prim {
            more := answer;
          }
      }
      sent := own + more;
    }

    // batadv_bla_purge_backbone_gw; order is the order of the table.
    method PurgeBackboneGws(all: bool, now: int) returns (ghost order: seq<GwKey>)
      requires Valid()
      modifies this
      ensures Valid() && View() == PurgeGws(old(View()), all, now, order)
      ensures old(backboneHash).Keys == set g | g in order
    {
      hide Inv, DelGwClaims;
      order := [];
      ghost var s := View();
      var todo := backboneHash.Keys;
      ghost var done: set<GwKey> := {};
      while todo != {}
        invariant View() == PurgeGws(s, all, now, order)
        invariant done + todo == s.gws.Keys && done == set g | g in order
        decreases todo
      {
        var g :| g in todo;
        ghost var before := View();
        if g in backboneHash && (all || HasTimedOut(backboneHash[g].lasttime, BACKBONE_TIMEOUT, now)) {
          // do not wait for the pending request any more
          if backboneHash[g].requestSent {
            numRequests := numRequests - 1;
          }
          DelBackboneClaims(g);
          backboneHash := backboneHash - {g};
          RemoveGwParts(before, View(), g);
        }
        assert (order + [g])[..|order|] == order;
        order := order + [g];
        done := done + {g};
        todo := todo - {g};
      }
      BlaRuns.PurgeGwsKeepsInv(crc16, s, all, now, order);
    }

    // batadv_bla_purge_claims; order is the order of the table.
    method PurgeOwnClaims(prim: Option<Mac>, all: bool, now: int) returns (sent: seq<Frame>, ghost order: seq<ClaimKey>)
      requires Valid()
      modifies this`claimHash, this`backboneHash
      ensures Valid() && View() == PurgeClaims(crc16, old(View()), prim, all, now, order)
      ensures old(claimHash).Keys == set c | c in order
      ensures forall c :: c in claimHash <==> c in old(claimHash) && !Expired(old(View()), prim, c, all, now)
      ensures EachOnce(sent, Unclaims(old(View()), prim, all, now, old(claimHash).Keys))
    {
      hide Inv, HandleUnclaim, EachOnce, Unclaims;
      sent, order := [], [];
      ghost var s := View();
      var todo := claimHash.Keys;
      ghost var done: set<ClaimKey> := {};
      NoFrames(s, prim, all, now);
      while todo != {}
        invariant Valid() && View() == PurgeClaims(crc16, s, prim, all, now, order)
        invariant done + todo == s.claims.Keys && done !! todo && done == set c | c in order
        invariant Purged(s, View(), prim, all, now, done)
        invariant EachOnce(sent, Unclaims(s, prim, all, now, done))
        decreases todo
      {
        var c :| c in todo;
        PurgeOne(crc16, s, View(), prim, all, now, done, c);
        UnclaimOne(s, prim, all, now, done, c, sent);
        UnclaimRemoves(crc16, View(), prim, c);
        ghost var before := sent;
        if c in claimHash
           && (all || (prim == Some(claimHash[c].owner.orig)
                       && HasTimedOut(claimHash[c].lasttime, CLAIM_TIMEOUT, now))) {
          var frames := ReceiveUnclaim(prim, claimHash[c].owner.orig, c.addr, c.vid);
          sent := sent + frames;
          assert before + [] == before;
        }
        assert (order + [c])[..|order|] == order;
        order := order + [c];
        done := done + {c};
        todo := todo - {c};
      }
      assert done == s.claims.Keys;
    }

    // One of our own gateways in batadv_bla_periodic_work: it is kept alive,
    // and a gateway made lately stops waiting after its first periods.
    method CountDown(g: GwKey, now: int)
      requires g in backboneHash
      modifies this`backboneHash, this`numRequests
      ensures View() == Tick(old(View()), g, now) && backboneHash.Keys == old(backboneHash).Keys
      ensures forall k :: k in backboneHash ==> backboneHash[k].crc == old(backboneHash)[k].crc
    {
      backboneHash := backboneHash[g := backboneHash[g].(lasttime := now)];
      if backboneHash[g].requestSent {
        backboneHash := backboneHash[g := backboneHash[g].(waitPeriods := backboneHash[g].waitPeriods - 1)];
        if backboneHash[g].waitPeriods == 0 {
          numRequests := numRequests - 1;
          backboneHash := backboneHash[g := backboneHash[g].(requestSent := false)];
        }
      }
    }

    // The announcements of batadv_bla_periodic_work.
    method AnnounceOwnGws(prim: Mac, now: int) returns (sent: seq<Frame>, ghost order: seq<GwKey>)
      requires Valid()
      modifies this`backboneHash, this`numRequests
      ensures Valid() && View() == TickAll(old(View()), prim, now, order)
      ensures old(backboneHash).Keys == set g | g in order
      ensures backboneHash.Keys == old(backboneHash).Keys
      ensures forall g :: g in backboneHash ==> backboneHash[g].crc == old(backboneHash)[g].crc
      ensures EachOnce(sent, Announcements(View(), prim, backboneHash.Keys))
    {
      hide Inv, Tick, EachOnce, Announcements;
      sent, order := [], [];
      NoFrames(View(), Some(prim), false, now);
      ghost var s := View();
      var todo := backboneHash.Keys;
      ghost var done: set<GwKey> := {};
      while todo != {}
        invariant View() == TickAll(s, prim, now, order)
        invariant backboneHash.Keys == s.gws.Keys && ownGroup == s.group
        invariant forall g :: g in backboneHash ==> backboneHash[g].crc == s.gws[g].crc
        invariant done + todo == s.gws.Keys && done !! todo && done == set g | g in order
        invariant EachOnce(sent, Announcements(s, prim, done))
        decreases todo
      {
        var g :| g in todo;
        AnnounceOne(s, prim, done, g, sent);
        if g.orig == prim {
          sent := sent + [AnnounceFrame(prim, backboneHash[g].crc, g.vid, ownGroup)];
          CountDown(g, now);
        }
        assert (order + [g])[..|order|] == order;
        order := order + [g];
        done := done + {g};
        todo := todo - {g};
      }
      BlaRuns.TickAllKeepsInv(crc16, s, prim, now, order);
      assert done == s.gws.Keys;
      SameAnnouncements(s, View(), prim, done);
    }

    // batadv_bla_periodic_work: the unclaim frames go out first, then the
    // announcements.
    method PeriodicWork(prim: Mac, enabled: bool, now: int)
      returns (unclaims: seq<Frame>, announcements: seq<Frame>,
               ghost cs: seq<ClaimKey>, ghost gs: seq<GwKey>, ghost own: seq<GwKey>)
      requires Valid()
      modifies this
      ensures Valid() && View() == Periodic(crc16, old(View()), prim, enabled, now, cs, gs, own)
      ensures old(claimHash).Keys == set c | c in cs
      ensures old(backboneHash).Keys == set g | g in gs
      ensures enabled ==> backboneHash.Keys == set g | g in own
      ensures EachOnce(unclaims, Unclaims(old(View()), Some(prim), false, now, old(claimHash).Keys))
      ensures EachOnce(announcements, if enabled then Announcements(View(), prim, backboneHash.Keys) else {})
    {
      NoFrames(View(), Some(prim), false, now);
      hide Inv, PurgeClaims, PurgeGws, TickAll, Unclaims, Announcements;
      announcements, own := [], [];
      unclaims, cs := PurgeOwnClaims(Some(prim), false, now);
      PurgeClaimsKeepsKeys(crc16, old(View()), Some(prim), false, now, cs);
      gs := PurgeBackboneGws(false, now);
      if enabled {
        announcements, own := AnnounceOwnGws(prim, now);
      }
    }

    // batadv_bla_rx
    method ReceiveFromMesh(prim: Mac, enabled: bool, p: Packet, now: int) returns (sent: seq<Frame>, handled: bool)
      requires Valid()
      modifies this
      ensures Valid() && (View(), sent, handled) == Rx(crc16, old(View()), prim, enabled, p, now)
    {
      BlaRuns.RxKeepsInv(crc16, View(), prim, enabled, p, now);
      hide Inv, HandleClaim, UpdateOwnGw;
      ghost var s := View();
      sent, handled := [], false;
      var c := ClaimKey(p.src, p.vid);
      if enabled {
        if numRequests != 0 && p.multicast && p.isBcast {
          return [], true;
        }
        if c !in claimHash {
          sent := ReceiveClaim(prim, prim, p.src, p.vid, now);
        } else if claimHash[c].owner.orig == prim {
          claimHash := claimHash[c := claimHash[c].(lasttime := now)];
        } else if p.multicast && p.isBcast {
          return [], true;
        } else {
          sent := ReceiveClaim(prim, prim, p.src, p.vid, now);
        }
      }
      var frames := UpdateOwnBackboneGw(prim, p.vid, now);
      sent := sent + frames;
    }

    // batadv_bla_tx, for a packet that is not a claim frame to be processed
    method SendToMesh(prim: Mac, enabled: bool, p: Packet, now: int) returns (sent: seq<Frame>, handled: bool)
      requires Valid()
      modifies this
      ensures Valid() && (View(), sent, handled) == Tx(crc16, old(View()), prim, enabled, p, now)
    {
      BlaRuns.TxKeepsInv(crc16, View(), prim, enabled, p, now);
      hide Inv, HandleUnclaim, UpdateOwnGw;
      sent, handled := [], false;
      var c := ClaimKey(p.src, p.vid);
      if enabled {
        if numRequests != 0 && p.multicast {
          return [], true;
        }
        if c in claimHash {
          if claimHash[c].owner.orig == prim {
            sent := ReceiveUnclaim(Some(prim), prim, p.src, p.vid);
          } else if p.multicast {
            return [], true;
          }
        }
      }
      var frames := UpdateOwnBackboneGw(prim, p.vid, now);
      sent := sent + frames;
    }
  }
}

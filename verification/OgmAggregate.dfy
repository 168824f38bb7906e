// B.A.T.M.A.N. IV: several OGMs in one frame.  The queue of frames to be sent,
// the direct link flags of their OGMs, and the loop that takes a received frame
// apart (bat_iv_ogm.c).

module OgmAggregate {
  import Bitarray
  import opened Wire
  import opened Wrappers

  const MAX_BYTES := 512         // BATADV_MAX_AGGREGATION_BYTES
  const MAX_JIFFIES := 100       // BATADV_MAX_AGGREGATION_MS, one jiffy being 1 ms
  const DIRECTLINK := 4          // BATADV_DIRECTLINK, bit 2

  type Iface = nat

  // ----- One OGM -----

  // The bytes that an OGM says it has.
  function OgmLen(b: Bytes): nat
    requires |b| >= OGM_HLEN
  {
    OGM_HLEN + FromBigEndian(b[22], b[23])
  }

  predicate IsOgm(b: Bytes) {
    |b| >= OGM_HLEN && |b| == OgmLen(b)
  }

  // An OGM as its fields lie one behind the other.
  datatype Fields = Fields(ttl: byte, flags: byte, seqno: Bytes, orig: Bytes, prevSender: Bytes, reserved: byte,
                           tq: byte, tvlv: Bytes)

  function Encode(f: Fields): Bytes {
    [0, 15, f.ttl, f.flags] + f.seqno + f.orig + f.prevSender + [f.reserved, f.tq] + BigEndian(|f.tvlv|) + f.tvlv
  }

  // Such bytes are taken for one OGM, with that ttl and those flags.
  lemma EncodedIsOgm(f: Fields)
    requires |f.seqno| == 4 && |f.orig| == 6 && |f.prevSender| == 6 && |f.tvlv| < 0x1_0000
    ensures IsOgm(Encode(f)) && Encode(f)[2] == f.ttl && Encode(f)[3] == f.flags
  {
    BigEndianRoundTrip(|f.tvlv|);
    var b, len := Encode(f), BigEndian(|f.tvlv|);
    assert b[22] == len[0] && b[23] == len[1];
  }

  predicate HasDirectLink(flags: byte) {
    flags / DIRECTLINK % 2 == 1
  }

  // The flags with the bit DIRECTLINK set or cleared.
  function SetDirectLink(flags: byte, on: bool): byte {
    if HasDirectLink(flags) == on then flags
    else if on then flags + DIRECTLINK
    else flags - DIRECTLINK
  }

  lemma DirectLinkSet(flags: byte, on: bool)
    ensures HasDirectLink(SetDirectLink(flags, on)) == on
    ensures SetDirectLink(flags, on) % DIRECTLINK == flags % DIRECTLINK
    ensures SetDirectLink(flags, on) / (2 * DIRECTLINK) == flags / (2 * DIRECTLINK)
  {
  }

  // An OGM with its direct link flag rewritten.
  function WithDirectLink(ogm: Bytes, on: bool): (r: Bytes)
    requires |ogm| >= OGM_HLEN
    ensures |r| == |ogm| && OgmLen(r) == OgmLen(ogm)
  {
    ogm[3 := SetDirectLink(ogm[3], on)]
  }

  // ----- Taking a frame apart -----

  // batadv_iv_ogm_aggr_packet for the OGM at pos.  When its header does not
  // fit, the source still reads the length field, but the answer is no
  // whatever it reads.
  predicate HasOgmAt(data: Bytes, pos: nat, packetLen: nat)
    requires packetLen <= |data|
  {
    && pos + OGM_HLEN <= packetLen
    && pos + OgmLen(data[pos..]) <= packetLen
    && pos + OgmLen(data[pos..]) <= MAX_BYTES
  }

  // The OGMs that the loop of batadv_iv_ogm_receive processes.
  function Split(data: Bytes, pos: nat): seq<Bytes>
    requires pos <= |data|
    decreases |data| - pos
  {
    if HasOgmAt(data, pos, |data|) then
      var next := pos + OgmLen(data[pos..]);
      [data[pos..next]] + Split(data, next)
    else []
  }

  function Concat(ogms: seq<Bytes>): Bytes {
    if ogms == [] then [] else ogms[0] + Concat(ogms[1..])
  }

  lemma HeadAt(data: Bytes, pos: nat, ogm: Bytes, tail: Bytes)
    requires pos <= |data| && data[pos..] == ogm + tail && IsOgm(ogm)
    ensures OgmLen(data[pos..]) == |ogm|
    ensures pos + |ogm| <= |data| && data[pos..pos + |ogm|] == ogm && data[pos + |ogm|..] == tail
  {
  }

  lemma {:induction false} SplitFrom(data: Bytes, pos: nat, ogms: seq<Bytes>, rest: Bytes)
    requires pos <= |data| && data[pos..] == Concat(ogms) + rest
    requires forall o :: o in ogms ==> IsOgm(o)
    ensures Split(data, pos) <= ogms + Split(data, |data| - |rest|)
    ensures Split(data, pos) == ogms + Split(data, |data| - |rest|) <==> ogms == [] || |data| - |rest| <= MAX_BYTES
    ensures Split(data, pos) == ogms ==> ogms == [] || |data| - |rest| <= MAX_BYTES
    decreases |ogms|
  {
    hide FromBigEndian, OgmLen, IsOgm;
    if ogms == [] {
      assert data[pos..] == rest;
    } else {
      var o, tail := ogms[0], Concat(ogms[1..]) + rest;
      assert data[pos..] == o + tail;
      HeadAt(data, pos, o, tail);
      OgmSize(o);
      SplitFrom(data, pos + |o|, ogms[1..], rest);
      if HasOgmAt(data, pos, |data|) {
        assert ogms == [o] + ogms[1..];
        assert ogms + Split(data, |data| - |rest|) == [o] + (ogms[1..] + Split(data, |data| - |rest|));
      }
    }
  }

  lemma OgmSize(o: Bytes)
    requires IsOgm(o)
    ensures |o| >= OGM_HLEN
  {
  }

  // A frame made of OGMs and trailing bytes comes apart into exactly those
  // OGMs if and only if they fit into the limit and the trailing bytes do not
  // begin with something that passes for an OGM.
  lemma SplitExactly(ogms: seq<Bytes>, rest: Bytes)
    requires ogms != [] && forall o :: o in ogms ==> IsOgm(o)
    ensures var data := Concat(ogms) + rest;
            Split(data, 0) == ogms <==>
            |Concat(ogms)| <= MAX_BYTES && !HasOgmAt(data, |Concat(ogms)|, |data|)
  {
    hide FromBigEndian, OgmLen;
    var data := Concat(ogms) + rest;
    assert data[0..] == data;
    SplitFrom(data, 0, ogms, rest);
    var more := Split(data, |Concat(ogms)|);
    assert ogms + more == ogms <==> more == [] by {
      assert |ogms + more| == |ogms| + |more|;
    }
  }

  // 24 zero bytes behind the last OGM pass for another one.
  lemma ZeroesPassForOgm()
    ensures var zeroes: Bytes := seq(OGM_HLEN, _ => 0);
            IsOgm(zeroes) && Split(Concat([zeroes]) + zeroes, 0) != [zeroes]
  {
    var zeroes: Bytes := seq(OGM_HLEN, _ => 0);
    assert [zeroes][1..] == [] && Concat([zeroes]) == zeroes + [] == zeroes;
    var data := zeroes + zeroes;
    assert data[OGM_HLEN..] == zeroes;
    SplitExactly([zeroes], zeroes);
  }

  // Padding of less than one header adds no OGM.
  lemma PaddingIsIgnored(ogms: seq<Bytes>, padding: Bytes)
    requires ogms != [] && forall o :: o in ogms ==> IsOgm(o)
    requires |Concat(ogms)| <= MAX_BYTES && |padding| < OGM_HLEN
    ensures Split(Concat(ogms) + padding, 0) == ogms
  {
    SplitExactly(ogms, padding);
  }

  // The receive loop.
  method Unpack(data: Bytes) returns (ogms: seq<Bytes>)
    ensures ogms == Split(data, 0)
  {
    hide FromBigEndian;
    ogms := [];
    var pos := 0;
    while HasOgmAt(data, pos, |data|)
      invariant 0 <= pos <= |data|
      invariant Split(data, 0) == ogms + Split(data, pos)
      decreases |data| - pos
    {
      var next := pos + OgmLen(data[pos..]);
      ogms := ogms + [data[pos..next]];
      pos := next;
    }
  }

  // ----- A frame in the queue -----

  type Flags = s: seq<bool> | |s| == 32 witness Bitarray.Cleared(32)

  const NO_FLAGS: Flags := Bitarray.Cleared(32)

  // The flag word has 32 bits: BIT(n) is nothing for a larger n.
  predicate TestFlag(flags: Flags, n: nat) {
    n < 32 && flags[n]
  }

  function SetFlag(flags: Flags, n: nat): Flags {
    if n < 32 then flags[n := true] else flags
  }

  // struct batadv_forw_packet: packetLen has 16 bits, numPackets 8.
  datatype Forw = Forw(skb: Bytes, packetLen: nat, own: bool, incoming: Iface, outgoing: Iface,
                       numPackets: nat, flags: Flags, sendTime: int)

  // An OGM as it was handed to the queue: the interfaces it came in on and is
  // to leave on, and when it is due.
  datatype Queued = Queued(ogm: Bytes, incoming: Iface, outgoing: Iface, due: int)

  predicate IsDirect(q: Queued) {
    |q.ogm| >= OGM_HLEN && HasDirectLink(q.ogm[3])
  }

  predicate AllOgms(qs: seq<Queued>) {
    forall i :: 0 <= i < |qs| ==> IsOgm(qs[i].ogm)
  }

  function OgmsOf(qs: seq<Queued>): (r: seq<Bytes>)
    ensures |r| == |qs| && forall i :: 0 <= i < |r| ==> r[i] == qs[i].ogm
  {
    seq(|qs|, i requires 0 <= i < |qs| => qs[i].ogm)
  }

  // batadv_iv_ogm_aggregate_new
  function NewForw(packet: Bytes, sendTime: int, direct: bool, incoming: Iface, outgoing: Iface, own: bool): Forw {
    Forw(packet, |packet| % 0x1_0000, own, incoming, outgoing, 0,
         if direct then SetFlag(NO_FLAGS, 0) else NO_FLAGS, sendTime)
  }

  // batadv_iv_ogm_aggregate
  function Aggregate(f: Forw, packet: Bytes, direct: bool): Forw {
    var num := (f.numPackets + 1) % 256;
    f.(skb := f.skb + packet,
       packetLen := (f.packetLen + |packet|) % 0x1_0000,
       numPackets := num,
       flags := if direct then SetFlag(f.flags, num) else f.flags)
  }

  // batadv_iv_ogm_can_aggregate; primary is the selected primary interface.
  predicate CanAggregate(packet: Bytes, sendTime: int, direct: bool, incoming: Iface, outgoing: Iface,
                         primary: Option<Iface>, f: Forw)
    requires |packet| >= OGM_HLEN && |f.skb| >= OGM_HLEN
  {
    && sendTime < f.sendTime <= sendTime + MAX_JIFFIES
    && f.packetLen + |packet| <= MAX_BYTES
    && f.outgoing == outgoing
    && primary.Some?
    && (|| (&& !direct
            && !HasDirectLink(f.skb[3])
            && f.skb[2] != 1
            && (!f.own || f.incoming == primary.value))
        || (&& direct
            && packet[2] == 1
            && f.incoming == incoming
            && (HasDirectLink(f.skb[3]) || (f.own && f.incoming != primary.value))))
  }

  predicate Joins(packet: Bytes, sendTime: int, direct: bool, incoming: Iface, outgoing: Iface,
                  primary: Option<Iface>, f: Forw) {
    && |packet| >= OGM_HLEN && |f.skb| >= OGM_HLEN
    && CanAggregate(packet, sendTime, direct, incoming, outgoing, primary, f)
  }

  // The frame consists of the OGMs qs, which are of one kind and leave where
  // and when they should.  If it is within the limit, the flag of every OGM
  // stands at its index, and the OGMs sent as direct links all came in on the
  // frame's own incoming interface.  Only a single OGM exceeds the limit, or
  // one so long that the 16-bit length wrapped.
  predicate Carries(f: Forw, qs: seq<Queued>) {
    && qs != []
    && AllOgms(qs)
    && f.skb == Concat(OgmsOf(qs))
    && f.packetLen == |f.skb| % 0x1_0000
    && OneKind(f, qs)
    && Delivers(f, qs)
    && (|f.skb| <= MAX_BYTES ==> FlagsMatch(f, qs))
    && (|qs| >= 2 && |qs[0].ogm| < 0x1_0000 ==> |f.skb| <= MAX_BYTES)
  }

  // Every OGM leaves on its interface, not before it is due and at most 100 ms
  // later.
  predicate Delivers(f: Forw, qs: seq<Queued>)
    requires qs != []
  {
    && f.incoming == qs[0].incoming
    && (forall i :: 0 <= i < |qs| ==> qs[i].outgoing == f.outgoing)
    && (forall i :: 0 <= i < |qs| ==> qs[i].due <= f.sendTime <= qs[i].due + MAX_JIFFIES)
  }

  // Direct links and flooded OGMs do not mix, unless the frame began with a
  // flooded OGM of our own; and a direct link only joins with its last hop to
  // go.
  predicate OneKind(f: Forw, qs: seq<Queued>)
    requires qs != [] && AllOgms(qs)
  {
    && (!f.own || IsDirect(qs[0]) ==> forall i :: 0 <= i < |qs| ==> (IsDirect(qs[i]) <==> IsDirect(qs[0])))
    && (forall i :: 0 < i < |qs| && IsDirect(qs[i]) ==> qs[i].ogm[2] == 1)
  }

  predicate FlagsMatch(f: Forw, qs: seq<Queued>) {
    && f.numPackets == |qs| - 1
    && |qs| <= 21
    && (forall i :: 0 <= i < |qs| ==> (f.flags[i] <==> IsDirect(qs[i])))
    && (forall i :: |qs| <= i < 32 ==> !f.flags[i])
    && (forall i :: 0 <= i < |qs| && IsDirect(qs[i]) ==> f.incoming == qs[i].incoming)
  }

  lemma {:induction false} ConcatSnoc(ogms: seq<Bytes>, o: Bytes)
    ensures Concat(ogms + [o]) == Concat(ogms) + o
  {
    if ogms == [] {
      assert [o][1..] == [];
      assert Concat([o]) == o + Concat([]);
    } else {
      ConcatSnoc(ogms[1..], o);
      assert (ogms + [o])[1..] == ogms[1..] + [o] && (ogms + [o])[0] == ogms[0];
    }
  }

  lemma {:induction false} ConcatSize(ogms: seq<Bytes>)
    requires forall o :: o in ogms ==> IsOgm(o)
    ensures |Concat(ogms)| >= OGM_HLEN * |ogms|
  {
    hide IsOgm;
    if ogms != [] {
      OgmSize(ogms[0]);
      ConcatSize(ogms[1..]);
    }
  }

  lemma NewCarries(q: Queued, when: int, own: bool)
    requires IsOgm(q.ogm) && q.due <= when <= q.due + MAX_JIFFIES
    ensures Carries(NewForw(q.ogm, when, IsDirect(q), q.incoming, q.outgoing, own), [q])
  {
  }

  lemma AggregateKeepsKind(f: Forw, qs: seq<Queued>, q: Queued, primary: Option<Iface>)
    requires Carries(f, qs) && IsOgm(q.ogm) && |f.skb| >= OGM_HLEN
    requires CanAggregate(q.ogm, q.due, IsDirect(q), q.incoming, q.outgoing, primary, f)
    ensures AllOgms(qs + [q]) && OneKind(Aggregate(f, q.ogm, IsDirect(q)), qs + [q])
    ensures Delivers(Aggregate(f, q.ogm, IsDirect(q)), qs + [q])
  {
  }

  // When exactly an OGM may join a frame, in terms of what is queued there: the
  // frame goes out after the OGM is due and at most 100 ms later, on the same
  // interface, and stays within 512 bytes; and either both are flooded (the
  // first one with hops to go, and not our own on a secondary interface), or
  // the new one is a direct link on its last hop and stays, like the first
  // one, on the interface it came in on.
  lemma JoinsExactly(f: Forw, qs: seq<Queued>, q: Queued, primary: Option<Iface>)
    requires Carries(f, qs) && IsOgm(q.ogm) && |f.skb| < 0x1_0000
    ensures Joins(q.ogm, q.due, IsDirect(q), q.incoming, q.outgoing, primary, f) <==>
            && q.due < f.sendTime <= q.due + 100
            && |Concat(OgmsOf(qs))| + |q.ogm| <= 512
            && q.outgoing == qs[0].outgoing
            && primary.Some?
            && (if IsDirect(q) then
                  && q.ogm[2] == 1 && q.incoming == qs[0].incoming
                  && (IsDirect(qs[0]) || (f.own && qs[0].incoming != primary.value))
                else
                  !IsDirect(qs[0]) && qs[0].ogm[2] != 1 && (f.own ==> qs[0].incoming == primary.value))
  {
    hide FromBigEndian, HasDirectLink, OneKind, FlagsMatch;
    OgmSize(q.ogm);
    FirstBytes(qs);
  }

  lemma FirstBytes(qs: seq<Queued>)
    requires qs != [] && AllOgms(qs)
    ensures OGM_HLEN <= |qs[0].ogm| <= |Concat(OgmsOf(qs))|
    ensures Concat(OgmsOf(qs))[2] == qs[0].ogm[2] && Concat(OgmsOf(qs))[3] == qs[0].ogm[3]
  {
    OgmSize(qs[0].ogm);
  }

  lemma AggregateKeepsFlags(f: Forw, qs: seq<Queued>, q: Queued)
    requires FlagsMatch(f, qs) && |qs| <= 20
    requires IsDirect(q) ==> f.incoming == q.incoming
    ensures FlagsMatch(Aggregate(f, q.ogm, IsDirect(q)), qs + [q])
  {
  }

  lemma AggregateCarries(f: Forw, qs: seq<Queued>, q: Queued, primary: Option<Iface>)
    requires Carries(f, qs) && IsOgm(q.ogm) && |f.skb| >= OGM_HLEN
    requires CanAggregate(q.ogm, q.due, IsDirect(q), q.incoming, q.outgoing, primary, f)
    ensures Carries(Aggregate(f, q.ogm, IsDirect(q)), qs + [q])
  {
    hide IsOgm, HasDirectLink, FlagsMatch, OneKind, Concat, Delivers;
    AggregateKeepsKind(f, qs, q, primary);
    assert IsDirect(q) ==> f.incoming == q.incoming;
    assert |f.skb| < 0x1_0000 ==> |f.skb + q.ogm| <= MAX_BYTES;
    hide IsDirect, CanAggregate, AllOgms;
    AggregateAppends(f, qs, q);
    LongFirst(f, qs);
    if |f.skb + q.ogm| <= MAX_BYTES {
      FewOgms(qs + [q]);
      AggregateKeepsFlags(f, qs, q);
    }
  }

  lemma AggregateAppends(f: Forw, qs: seq<Queued>, q: Queued)
    requires f.skb == Concat(OgmsOf(qs)) && f.packetLen == |f.skb| % 0x1_0000
    ensures var f' := Aggregate(f, q.ogm, IsDirect(q));
            f'.skb == Concat(OgmsOf(qs + [q])) && f'.packetLen == |f'.skb| % 0x1_0000
  {
    ConcatSnoc(OgmsOf(qs), q.ogm);
    assert OgmsOf(qs + [q]) == OgmsOf(qs) + [q.ogm];
    hide Concat, IsDirect, OgmsOf;
    AddLength(|f.skb|, |q.ogm|);
  }

  lemma AddLength(a: nat, b: nat)
    ensures (a % 0x1_0000 + b) % 0x1_0000 == (a + b) % 0x1_0000
  {
    assert a == a / 0x1_0000 * 0x1_0000 + a % 0x1_0000;
  }

  lemma LongFirst(f: Forw, qs: seq<Queued>)
    requires Carries(f, qs)
    ensures |f.skb| >= 0x1_0000 ==> |qs[0].ogm| >= 0x1_0000
  {
    hide IsOgm, IsDirect, FlagsMatch, OneKind, Delivers;
    if |qs| == 1 {
      assert OgmsOf(qs)[1..] == [];
      assert f.skb == qs[0].ogm + Concat([]) == qs[0].ogm;
    }
  }

  // No more than 21 OGMs fit into a frame.
  lemma FewOgms(qs: seq<Queued>)
    requires AllOgms(qs) && |Concat(OgmsOf(qs))| <= MAX_BYTES
    ensures |qs| <= 21
  {
    hide IsOgm, Concat;
    ConcatSize(OgmsOf(qs));
  }

  // ----- The queue -----

  class ForwQueue {
    var list: seq<Forw>
    var slots: nat                        // batman_queue_left
    ghost var queued: seq<seq<Queued>>    // what each frame of the list carries

    ghost predicate Valid()
      reads this
    {
      && |list| == |queued|
      && forall i :: 0 <= i < |list| ==> Carries(list[i], queued[i])
    }

    constructor (limit: nat)
      ensures Valid() && list == [] && slots == limit
    {
      list, slots, queued := [], limit, [];
    }

    // The search in batadv_iv_ogm_queue_add.
    method FindFrame(packet: Bytes, sendTime: int, direct: bool, incoming: Iface, outgoing: Iface,
                     primary: Option<Iface>)
      returns (at: Option<nat>)
      requires Valid() && IsOgm(packet)
      ensures at.Some? ==>
                && at.value < |list| && Joins(packet, sendTime, direct, incoming, outgoing, primary, list[at.value])
                && forall i :: 0 <= i < at.value ==>
                     !Joins(packet, sendTime, direct, incoming, outgoing, primary, list[i])
      ensures at.None? ==>
                forall i :: 0 <= i < |list| ==> !Joins(packet, sendTime, direct, incoming, outgoing, primary, list[i])
    {
      hide CanAggregate, IsOgm, Carries;
      OgmSize(packet);
      var i := 0;
      while i < |list|
        invariant 0 <= i <= |list|
        invariant forall j :: 0 <= j < i ==> !Joins(packet, sendTime, direct, incoming, outgoing, primary, list[j])
      {
        FrameSize(list[i], queued[i]);
        if CanAggregate(packet, sendTime, direct, incoming, outgoing, primary, list[i]) {
          return Some(i);
        }
        i := i + 1;
      }
      return None;
    }

    // batadv_iv_ogm_queue_add.  The OGM joins the first frame it may join, or
    // becomes a frame of its own; only a foreign OGM that finds no slot left
    // is dropped.
    method QueueAdd(packet: Bytes, incoming: Iface, outgoing: Iface, own: bool, sendTime: int,
                    aggregated: bool, primary: Option<Iface>)
      returns (ghost at: Option<nat>)
      requires Valid() && IsOgm(packet)
      modifies this
      ensures Valid()
      ensures at.Some? ==>
                && at.value < |old(list)|
                && aggregated && !own
                && Joins(packet, sendTime, HasDirectLink(packet[3]), incoming, outgoing, primary, old(list)[at.value])
                && (forall i :: 0 <= i < at.value ==>
                      !Joins(packet, sendTime, HasDirectLink(packet[3]), incoming, outgoing, primary, old(list)[i]))
                && list == old(list)[at.value := Aggregate(old(list)[at.value], packet, HasDirectLink(packet[3]))]
                && queued == old(queued)[at.value :=
                               old(queued)[at.value] + [Queued(packet, incoming, outgoing, sendTime)]]
                && slots == old(slots)
      ensures at.None? && aggregated && !own ==>
                forall i :: 0 <= i < |old(list)| ==>
                  !Joins(packet, sendTime, HasDirectLink(packet[3]), incoming, outgoing, primary, old(list)[i])
      ensures at.None? && (own || old(slots) > 0) ==>
                && queued == [[Queued(packet, incoming, outgoing, sendTime)]] + old(queued)
                && list[1..] == old(list) && list[0].own == own && list[0].outgoing == outgoing
                && list[0].sendTime == (if !own && aggregated then sendTime + MAX_JIFFIES else sendTime)
                && slots == (if own then old(slots) else old(slots) - 1)
      ensures at.None? && !own && old(slots) == 0 ==>
                list == old(list) && queued == old(queued) && slots == old(slots)
    {
      hide Carries, IsOgm, CanAggregate, IsDirect, HasDirectLink;
      OgmSize(packet);
      var direct := HasDirectLink(packet[3]);
      ghost var q := Queued(packet, incoming, outgoing, sendTime);
      DirectOf(q);
      var found := None;
      if aggregated && !own {
        found := FindFrame(packet, sendTime, direct, incoming, outgoing, primary);
      }
      at := found;
      if found.None? {
        if !own {
          if slots == 0 {
            return;
          }
          slots := slots - 1;
        }
        var when := if !own && aggregated then sendTime + MAX_JIFFIES else sendTime;
        NewCarries(q, when, own);
        list := [NewForw(packet, when, direct, incoming, outgoing, own)] + list;
        queued := [[q]] + queued;
      } else {
        AggregateCarries(list[found.value], queued[found.value], q, primary);
        list := list[found.value := Aggregate(list[found.value], packet, direct)];
        queued := queued[found.value := queued[found.value] + [q]];
      }
    }

    // batadv_send_outstanding_bat_ogm_packet and batadv_iv_ogm_emit for the
    // i-th frame, when its interfaces are active and the mesh is up: the frame
    // leaves the queue and goes out on its outgoing interface at its send time.
    method SendFrame(i: nat) returns (sent: array<byte>)
      requires Valid() && i < |list|
      modifies this
      ensures Valid() && fresh(sent)
      ensures list == old(list)[..i] + old(list)[i + 1..] && queued == old(queued)[..i] + old(queued)[i + 1..]
      ensures slots == old(slots) + if old(list)[i].own then 0 else 1
      ensures |old(list)[i].skb| <= MAX_BYTES ==>
                AllOgms(old(queued)[i]) && Split(sent[..], 0) == Flagged(old(queued)[i], old(list)[i].outgoing)
      ensures forall q :: q in old(queued)[i] ==>
                q.outgoing == old(list)[i].outgoing && q.due <= old(list)[i].sendTime <= q.due + MAX_JIFFIES
    {
      hide Carries, AllOgms, Split, Adjusted;
      var f := list[i];
      ghost var qs := queued[i];
      FrameParts(f, qs);
      sent := new byte[|f.skb|](j requires 0 <= j < |f.skb| => f.skb[j]);
      assert sent[..] == f.skb;
      SendToIf(sent, f.packetLen, f.flags, f.incoming == f.outgoing);
      if |f.skb| <= MAX_BYTES {
        SentExactly(f, qs, f.outgoing);
      }
      if !f.own {
        slots := slots + 1;
      }
      list := list[..i] + list[i + 1..];
      queued := queued[..i] + queued[i + 1..];
    }
  }

  lemma FrameParts(f: Forw, qs: seq<Queued>)
    requires Carries(f, qs)
    ensures f.packetLen <= |f.skb| && AllOgms(qs)
    ensures forall q :: q in qs ==> q.outgoing == f.outgoing && q.due <= f.sendTime <= q.due + MAX_JIFFIES
  {
    hide AllOgms, OneKind, FlagsMatch, Concat, OgmsOf;
  }

  lemma FrameSize(f: Forw, qs: seq<Queued>)
    requires Carries(f, qs)
    ensures |f.skb| >= OGM_HLEN
  {
  }

  lemma DirectOf(q: Queued)
    requires |q.ogm| >= OGM_HLEN
    ensures IsDirect(q) == HasDirectLink(q.ogm[3])
  {
  }

  // ----- Sending -----

  // The frame after the loop of batadv_iv_ogm_send_to_if, from the OGM at pos
  // on; here says that the incoming interface is the one it is sent on.
  function Adjusted(data: Bytes, pos: nat, num: nat, packetLen: nat, flags: Flags, here: bool): (r: Bytes)
    requires packetLen <= |data|
    ensures |r| == |data|
    decreases packetLen - pos
  {
    if HasOgmAt(data, pos, packetLen) then
      var next := pos + OgmLen(data[pos..]);
      Adjusted(data[pos + 3 := SetDirectLink(data[pos + 3], TestFlag(flags, num) && here)], next, (num + 1) % 256,
               packetLen, flags, here)
    else data
  }

  // The loop, in place.
  method SendToIf(data: array<byte>, packetLen: nat, flags: Flags, here: bool)
    requires packetLen <= data.Length
    modifies data
    ensures data[..] == Adjusted(old(data[..]), 0, 0, packetLen, flags, here)
  {
    hide FromBigEndian, SetDirectLink, TestFlag;
    var pos, num := 0, 0;
    while HasOgmAt(data[..], pos, packetLen)
      invariant 0 <= pos && 0 <= num
      invariant Adjusted(data[..], pos, num, packetLen, flags, here) ==
                Adjusted(old(data[..]), 0, 0, packetLen, flags, here)
      decreases packetLen - pos
    {
      var next := pos + OgmLen(data[pos..]);
      ghost var before := data[..];
      assert before[pos..] == data[pos..];
      data[pos + 3] := SetDirectLink(data[pos + 3], TestFlag(flags, num) && here);
      assert data[..] == before[pos + 3 := data[pos + 3]];
      pos, num := next, (num + 1) % 256;
    }
  }

  // The OGMs as they should go out on an interface: as a direct link exactly
  // when the OGM was queued as one and came in on that interface.
  function Flagged(qs: seq<Queued>, iface: Iface): (r: seq<Bytes>)
    requires AllOgms(qs)
    ensures |r| == |qs|
    ensures forall i :: 0 <= i < |r| ==> r[i] == WithDirectLink(qs[i].ogm, IsDirect(qs[i]) && qs[i].incoming == iface)
  {
    seq(|qs|, i requires 0 <= i < |qs| => WithDirectLink(qs[i].ogm, IsDirect(qs[i]) && qs[i].incoming == iface))
  }

  // The flags from num on are those of the OGMs qs.
  predicate FlagsFrom(flags: Flags, num: nat, here: bool, qs: seq<Queued>, iface: Iface) {
    forall i :: 0 <= i < |qs| ==> (TestFlag(flags, num + i) && here <==> IsDirect(qs[i]) && qs[i].incoming == iface)
  }

  lemma FlagsNext(flags: Flags, num: nat, here: bool, qs: seq<Queued>, iface: Iface)
    requires qs != [] && FlagsFrom(flags, num, here, qs, iface)
    ensures TestFlag(flags, num) && here <==> IsDirect(qs[0]) && qs[0].incoming == iface
    ensures FlagsFrom(flags, num + 1, here, qs[1..], iface)
  {
  }

  lemma {:induction false} AdjustedExactly(data: Bytes, pos: nat, qs: seq<Queued>, num: nat, flags: Flags, here: bool,
                                           iface: Iface)
    requires AllOgms(qs)
    requires pos <= |data| <= MAX_BYTES && data[pos..] == Concat(OgmsOf(qs))
    requires num + |qs| <= 32
    requires FlagsFrom(flags, num, here, qs, iface)
    ensures var r := Adjusted(data, pos, num, |data|, flags, here);
            r[..pos] == data[..pos] && r[pos..] == Concat(Flagged(qs, iface))
    decreases |qs|
  {
    hide FromBigEndian, SetDirectLink, TestFlag, IsDirect, FlagsFrom, Adjusted, Concat, Flagged, WithDirectLink, OgmLen;
    var r := Adjusted(data, pos, num, |data|, flags, here);
    if qs == [] {
      NothingToAdjust(data, pos, num, flags, here, iface);
    } else {
      var o, on := qs[0].ogm, TestFlag(flags, num) && here;
      FirstQueued(qs, iface);
      HeadAt(data, pos, o, Concat(OgmsOf(qs[1..])));
      AdjustedStep(data, pos, num, flags, here, o);
      var data' := AdjustOne(data, pos, o, on);
      FlagsNext(flags, num, here, qs, iface);
      AdjustedExactly(data', pos + |o|, qs[1..], num + 1, flags, here, iface);
      Rejoin(r, data', pos, pos + |o|);
    }
  }

  lemma NothingToAdjust(data: Bytes, pos: nat, num: nat, flags: Flags, here: bool, iface: Iface)
    requires pos <= |data| && data[pos..] == Concat(OgmsOf([]))
    ensures pos == |data|
    ensures Adjusted(data, pos, num, |data|, flags, here) == data
    ensures Concat(Flagged([], iface)) == []
  {
  }

  lemma FirstQueued(qs: seq<Queued>, iface: Iface)
    requires AllOgms(qs) && qs != []
    ensures IsOgm(qs[0].ogm) && AllOgms(qs[1..])
    ensures Concat(OgmsOf(qs)) == qs[0].ogm + Concat(OgmsOf(qs[1..]))
    ensures Concat(Flagged(qs, iface)) ==
            WithDirectLink(qs[0].ogm, IsDirect(qs[0]) && qs[0].incoming == iface) + Concat(Flagged(qs[1..], iface))
  {
    hide IsOgm, WithDirectLink, IsDirect;
    assert OgmsOf(qs)[1..] == OgmsOf(qs[1..]);
    assert Flagged(qs, iface)[1..] == Flagged(qs[1..], iface);
  }

  lemma AdjustedStep(data: Bytes, pos: nat, num: nat, flags: Flags, here: bool, o: Bytes)
    requires pos + OGM_HLEN <= pos + |o| <= |data| <= MAX_BYTES && num < 255
    requires OgmLen(data[pos..]) == |o|
    ensures Adjusted(data, pos, num, |data|, flags, here) ==
            Adjusted(data[pos + 3 := SetDirectLink(data[pos + 3], TestFlag(flags, num) && here)], pos + |o|, num + 1,
                     |data|, flags, here)
  {
    hide FromBigEndian, SetDirectLink, TestFlag, OgmLen;
  }

  lemma AdjustOne(data: Bytes, pos: nat, o: Bytes, on: bool) returns (data': Bytes)
    requires |o| >= OGM_HLEN && pos + |o| <= |data| && data[pos..pos + |o|] == o
    ensures data' == data[pos + 3 := SetDirectLink(data[pos + 3], on)]
    ensures data'[..pos] == data[..pos] && data'[pos..pos + |o|] == WithDirectLink(o, on)
    ensures data'[pos + |o|..] == data[pos + |o|..]
  {
    hide FromBigEndian, SetDirectLink;
    assert data[pos + 3] == data[pos..pos + |o|][3];
    data' := data[pos + 3 := SetDirectLink(data[pos + 3], on)];
  }

  lemma Rejoin(r: Bytes, s: Bytes, pos: nat, next: nat)
    requires pos <= next <= |r| == |s| && r[..next] == s[..next]
    ensures r[..pos] == s[..pos] && r[pos..] == s[pos..next] + r[next..]
  {
  }

  lemma FlaggedBits(qs: seq<Queued>, iface: Iface)
    requires AllOgms(qs)
    ensures forall i :: 0 <= i < |qs| ==>
              var r := Flagged(qs, iface)[i];
              |r| >= OGM_HLEN && (HasDirectLink(r[3]) <==> IsDirect(qs[i]) && qs[i].incoming == iface)
  {
    hide HasDirectLink, SetDirectLink, IsDirect;
    forall i | 0 <= i < |qs|
      ensures var r := Flagged(qs, iface)[i];
              |r| >= OGM_HLEN && (HasDirectLink(r[3]) <==> IsDirect(qs[i]) && qs[i].incoming == iface)
    {
      OgmSize(qs[i].ogm);
      DirectLinkSet(qs[i].ogm[3], IsDirect(qs[i]) && qs[i].incoming == iface);
    }
  }

  // From the queue to the receiver: a frame within the limit comes apart into
  // the OGMs that were queued for it, in order, each with the direct link flag
  // it should have on that interface.
  lemma SentExactly(f: Forw, qs: seq<Queued>, iface: Iface)
    requires Carries(f, qs) && |f.skb| <= MAX_BYTES
    ensures var r := Split(Adjusted(f.skb, 0, 0, f.packetLen, f.flags, f.incoming == iface), 0);
            && r == Flagged(qs, iface)
            && forall i :: 0 <= i < |qs| ==>
                 |r[i]| >= OGM_HLEN && (HasDirectLink(r[i][3]) <==> IsDirect(qs[i]) && qs[i].incoming == iface)
  {
    hide FromBigEndian, HasDirectLink, SetDirectLink, Split, Adjusted;
    assert f.skb[0..] == f.skb && f.packetLen == |f.skb|;
    AdjustedExactly(f.skb, 0, qs, 0, f.flags, f.incoming == iface, iface);
    var r := Adjusted(f.skb, 0, 0, f.packetLen, f.flags, f.incoming == iface);
    assert r[0..] == r;
    assert r == Concat(Flagged(qs, iface)) + [];
    SplitExactly(Flagged(qs, iface), []);
    FlaggedBits(qs, iface);
    hide Flagged;
  }
}

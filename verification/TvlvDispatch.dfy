// TVLV handlers: who is called, with what, for the containers of a buffer
// (main.c).  The callbacks belong to other parts of the program; here a call is
// recorded, and the result of the n-th call is a parameter.

module TvlvDispatch {
  import opened Wire
  import opened Wrappers
  import opened TvlvContainers

  // ifNotFound and called: BATADV_TVLV_HANDLER_OGM_CIFNOTFND and _OGM_CALLED
  datatype Handler = Handler(key: Key, ogm: bool, unicast: bool, ifNotFound: bool, called: bool)

  // Where the buffer comes from, and which of the addresses were passed along.
  datatype Source = Ogm(hasOrig: bool) | Unicast(hasSrc: bool, hasDst: bool)

  datatype Call = Call(key: Key, notFound: bool, value: Bytes)

  function Find(handlers: seq<Handler>, key: Key): (r: Option<nat>)
    ensures r.Some? ==> r.value < |handlers| && handlers[r.value].key == key
    ensures r.Some? ==> forall i :: 0 <= i < r.value ==> handlers[i].key != key
    ensures r.None? ==> forall h :: h in handlers ==> h.key != key
  {
    if handlers == [] then None
    else if handlers[0].key == key then Some(0)
    else
      match Find(handlers[1..], key)
      case None => None
      case Some(i) => Some(i + 1)
  }

  // A container with the handler's key makes batadv_tvlv_call_handler call it.
  predicate Reaches(h: Handler, s: Source) {
    if s.Ogm? then h.ogm && s.hasOrig else s.hasSrc && s.hasDst && h.unicast
  }

  predicate HitBy(handlers: seq<Handler>, s: Source, key: Key) {
    Find(handlers, key).Some? && Reaches(handlers[Find(handlers, key).value], s)
  }

  // One container: the calls made, and the handlers afterwards.
  function CallsOf(handlers: seq<Handler>, s: Source, c: Container): seq<Call> {
    if HitBy(handlers, s, c.key) then [Call(c.key, false, c.value)] else []
  }

  function MarkedBy(handlers: seq<Handler>, s: Source, c: Container): (r: seq<Handler>)
    ensures |r| == |handlers|
    ensures forall i :: 0 <= i < |r| ==> r[i] == handlers[i].(called := r[i].called)
  {
    if s.Ogm? && HitBy(handlers, s, c.key)
    then var i := Find(handlers, c.key).value; handlers[i := handlers[i].(called := true)]
    else handlers
  }

  // All containers, one after the other.
  function Marked(handlers: seq<Handler>, s: Source, cs: seq<Container>): (r: seq<Handler>)
    ensures |r| == |handlers|
    ensures forall i :: 0 <= i < |r| ==> r[i] == handlers[i].(called := r[i].called)
  {
    if cs == [] then handlers else MarkedBy(Marked(handlers, s, cs[..|cs| - 1]), s, cs[|cs| - 1])
  }

  function Dispatched(handlers: seq<Handler>, s: Source, cs: seq<Container>): seq<Call> {
    if cs == [] then []
    else Dispatched(handlers, s, cs[..|cs| - 1]) + CallsOf(Marked(handlers, s, cs[..|cs| - 1]), s, cs[|cs| - 1])
  }

  // The calls for containers that were not there.
  function NotFoundCalls(handlers: seq<Handler>): seq<Call> {
    if handlers == [] then []
    else
      var h := handlers[|handlers| - 1];
      NotFoundCalls(handlers[..|handlers| - 1]) + if h.ifNotFound && !h.called then [Call(h.key, true, [])] else []
  }

  // All calls made for a buffer.
  function Process(handlers: seq<Handler>, s: Source, cs: seq<Container>): seq<Call> {
    Dispatched(handlers, s, cs) + if s.Ogm? then NotFoundCalls(Marked(handlers, s, cs)) else []
  }

  // A header of hlen bytes, whose length field is at `at`, and the TVLV bytes
  // it announces behind it.
  predicate HasTvlvPart(packet: Bytes, hlen: nat, at: nat)
    requires at + 2 <= hlen
  {
    |packet| >= hlen && hlen + FromBigEndian(packet[at], packet[at + 1]) <= |packet|
  }

  function TvlvPart(packet: Bytes, hlen: nat, at: nat): Bytes
    requires at + 2 <= hlen && HasTvlvPart(packet, hlen, at)
  {
    packet[hlen..hlen + FromBigEndian(packet[at], packet[at + 1])]
  }

  // All calls made for an OGM of B.A.T.M.A.N. IV.  Without any TVLV bytes no
  // handler is called, not even for what is missing.
  function OgmCalls(handlers: seq<Handler>, packet: Bytes): seq<Call>
    requires HasTvlvPart(packet, OGM_HLEN, 22)
  {
    var part := TvlvPart(packet, OGM_HLEN, 22);
    if part == [] then [] else Process(handlers, Ogm(true), Parse(part))
  }

  // All calls made for an OGM2 of B.A.T.M.A.N. V, with or without TVLV bytes.
  function Ogm2Calls(handlers: seq<Handler>, packet: Bytes): seq<Call>
    requires HasTvlvPart(packet, OGM2_HLEN, 14)
  {
    Process(handlers, Ogm(true), Parse(TvlvPart(packet, OGM2_HLEN, 14)))
  }

  function AllClear(handlers: seq<Handler>): (r: seq<Handler>)
    ensures |r| == |handlers|
    ensures forall i :: 0 <= i < |r| ==> r[i] == handlers[i].(called := false)
  {
    seq(|handlers|, i requires 0 <= i < |handlers| => handlers[i].(called := false))
  }

  function Or(a: bv32, b: bv32): bv32 {
    a | b
  }

  lemma OrZero(a: bv32, b: bv32)
    ensures Or(a, b) == 0 <==> a == 0 && b == 0
    ensures Or(a, 0) == a
  {
  }

  // The or of the results of the calls from the lo-th up to the hi-th.
  function Joined(answers: nat -> bv32, lo: nat, hi: nat): bv32 {
    if hi <= lo then 0 else Or(Joined(answers, lo, hi - 1), answers(hi - 1))
  }

  ghost predicate Registered(handlers: seq<Handler>) {
    && (forall i, j :: 0 <= i < j < |handlers| ==> handlers[i].key != handlers[j].key)
    && (forall h :: h in handlers && h.ifNotFound ==> h.ogm)
  }

  ghost predicate Quiet(handlers: seq<Handler>) {
    forall h :: h in handlers ==> !h.called
  }

  // ----- In place -----

  class Dispatcher {
    var handlers: seq<Handler>
    var calls: seq<Call>

    // Between two runs: one handler for a key, no mark left, and whoever wants
    // to be called for a missing container can be.
    ghost predicate Valid()
      reads this
    {
      && Registered(handlers)
      && Quiet(handlers)
    }

    constructor ()
      ensures Valid() && handlers == [] && calls == []
    {
      handlers, calls := [], [];
    }

    // batadv_tvlv_handler_get
    method Get(key: Key) returns (found: Option<nat>)
      ensures found == Find(handlers, key)
    {
      var i := 0;
      while i < |handlers|
        invariant 0 <= i <= |handlers|
        invariant forall j :: 0 <= j < i ==> handlers[j].key != key
      {
        if handlers[i].key == key {
          return Some(i);
        }
        i := i + 1;
      }
      return None;
    }

    // batadv_tvlv_handler_register: the first registration of a key stays.
    method Register(key: Key, ogm: bool, unicast: bool, ifNotFound: bool)
      requires Valid() && (ifNotFound ==> ogm)
      modifies this`handlers
      ensures Valid()
      ensures handlers == if Find(old(handlers), key).Some? then old(handlers)
                          else [Handler(key, ogm, unicast, ifNotFound, false)] + old(handlers)
    {
      var found := Get(key);
      if found.Some? {
        return;
      }
      handlers := [Handler(key, ogm, unicast, ifNotFound, false)] + handlers;
    }

    // batadv_tvlv_handler_unregister
    method Unregister(key: Key)
      requires Valid()
      modifies this`handlers
      ensures Valid()
      ensures match Find(old(handlers), key)
              case None => handlers == old(handlers)
              case Some(i) => handlers == old(handlers)[..i] + old(handlers)[i + 1..]
    {
      var found := Get(key);
      if found.Some? {
        handlers := handlers[..found.value] + handlers[found.value + 1..];
      }
    }

    // batadv_tvlv_call_handler; answers gives the result of the callback.
    method CallHandler(at: Option<nat>, s: Source, value: Bytes, answer: bv32) returns (ret: bv32)
      requires at.Some? ==> at.value < |handlers|
      modifies this
      ensures var hit := at.Some? && Reaches(old(handlers)[at.value], s);
              && calls == old(calls) + (if hit then [Call(old(handlers)[at.value].key, false, value)] else [])
              && handlers == (if hit && s.Ogm? then old(handlers)[at.value := old(handlers)[at.value].(called := true)]
                              else old(handlers))
              && ret == if hit && s.Unicast? then answer else 0
    {
      ret := 0;
      if at.None? {
        return;
      }
      var h := handlers[at.value];
      if s.Ogm? {
        if !h.ogm || !s.hasOrig {
          return;
        }
        calls := calls + [Call(h.key, false, value)];
        handlers := handlers[at.value := h.(called := true)];
      } else {
        if !s.hasSrc || !s.hasDst || !h.unicast {
          return;
        }
        calls := calls + [Call(h.key, false, value)];
        ret := answer;
      }
    }

    // One container: its handler is looked up and called.
    method Visit(key: Key, s: Source, value: Value, answer: bv32) returns (ret: bv32)
      modifies this
      ensures var c, hit := Container(key, value), HitBy(old(handlers), s, key);
              && calls == old(calls) + CallsOf(old(handlers), s, c)
              && handlers == MarkedBy(old(handlers), s, c)
              && ret == if hit && s.Unicast? then answer else 0
      ensures |calls| == |old(calls)| + if HitBy(old(handlers), s, key) then 1 else 0
    {
      hide Find, Reaches;
      var found := Get(key);
      ret := CallHandler(found, s, value, answer);
    }

    // The parser loop of batadv_tvlv_containers_process.  answers(n) is what the
    // n-th callback returns.
    method VisitContainers(s: Source, buf: Bytes, answers: nat -> bv32) returns (ret: bv32)
      modifies this
      ensures handlers == Marked(old(handlers), s, Parse(buf))
      ensures calls == old(calls) + Dispatched(old(handlers), s, Parse(buf))
      ensures s.Unicast? ==> ret == Joined(answers, |old(calls)|, |calls|)
    {
      hide Parse, Parsed, FromBigEndian, HitBy, Or, Marked, MarkedBy, Dispatched, CallsOf;
      Start(handlers, s);
      ret := 0;
      var pos, len := 0, |buf|;
      ghost var done: seq<Container> := [];
      ghost var start, before := handlers, calls;
      NothingParsed(buf);
      NoContainer(buf, pos, done);
      while len >= HDR_SIZE
        invariant 0 <= pos && 0 <= len && pos + len == |buf|
        invariant Parsed(buf, pos, done)
        invariant len < HDR_SIZE ==> Parse(buf) == done
        invariant handlers == Marked(start, s, done)
        invariant calls == before + Dispatched(start, s, done)
        invariant s.Unicast? ==> ret == Joined(answers, |before|, |calls|)
      {
        var key := Key(buf[pos], buf[pos + 1]);
        var contLen := FromBigEndian(buf[pos + 2], buf[pos + 3]);
        NextContainer(buf, pos, done);
        pos := pos + HDR_SIZE;
        len := len - HDR_SIZE;
        if contLen > len {
          break;
        }
        var value := buf[pos..pos + contLen];
        var r := Visit(key, s, value, answers(|calls|));
        OrZero(ret, r);
        ret := Or(ret, r);
        NextCalls(start, s, done, Container(key, value));
        done := done + [Container(key, value)];
        pos := pos + contLen;
        len := len - contLen;
        NoContainer(buf, pos, done);
      }
    }

    // The loop over the handlers at the end of batadv_tvlv_containers_process:
    // every handler it calls has an OGM callback.
    method CallMissing()
      requires forall h :: h in handlers && h.ifNotFound ==> h.ogm
      modifies this
      ensures handlers == AllClear(old(handlers))
      ensures calls == old(calls) + NotFoundCalls(old(handlers))
    {
      ghost var start, before := handlers, calls;
      var i := 0;
      while i < |handlers|
        invariant 0 <= i <= |handlers| == |start|
        invariant forall j :: 0 <= j < |handlers| ==>
                    handlers[j] == if j < i then start[j].(called := false) else start[j]
        invariant calls == before + NotFoundCalls(start[..i])
      {
        var h := handlers[i];
        assert start[..i + 1][..i] == start[..i];
        if h.ifNotFound && !h.called {
          assert start[i].ogm;
          calls := calls + [Call(h.key, true, [])];
        }
        handlers := handlers[i := h.(called := false)];
        i := i + 1;
      }
      assert start[..i] == start;
    }

    // batadv_tvlv_containers_process
    method ContainersProcess(s: Source, buf: Bytes, answers: nat -> bv32) returns (ret: bv32)
      requires Valid()
      modifies this
      ensures Valid() && handlers == old(handlers)
      ensures calls == old(calls) + Process(handlers, s, Parse(buf))
      ensures ret == if s.Ogm? then 0 else Joined(answers, |old(calls)|, |calls|)
    {
      hide Parse, Dispatched, NotFoundCalls, Joined, Marked;
      ghost var start, before := handlers, calls;
      ret := VisitContainers(s, buf, answers);
      if s.Unicast? {
        UnicastLeavesMarks(start, s, Parse(buf));
        return;
      }
      CallMissing();
      assert handlers == start;
      ret := 0;
    }

    // batadv_tvlv_ogm_receive on an OGM and the bytes behind it
    method OgmReceive(packet: Bytes, answers: nat -> bv32)
      requires Valid() && HasTvlvPart(packet, OGM_HLEN, 22)
      modifies this
      ensures Valid() && handlers == old(handlers)
      ensures calls == old(calls) + OgmCalls(handlers, packet)
    {
      hide FromBigEndian, Process, Parse;
      var len := FromBigEndian(packet[22], packet[23]);
      if len == 0 {
        return;
      }
      var _ := ContainersProcess(Ogm(true), packet[OGM_HLEN..OGM_HLEN + len], answers);
    }

    // batadv_v_ogm_process_per_outif for an OGM2 whose containers are to be
    // processed
    method Ogm2Receive(packet: Bytes, answers: nat -> bv32)
      requires Valid() && HasTvlvPart(packet, OGM2_HLEN, 14)
      modifies this
      ensures Valid() && handlers == old(handlers)
      ensures calls == old(calls) + Ogm2Calls(handlers, packet)
    {
      hide FromBigEndian, Process, Parse;
      var len := FromBigEndian(packet[14], packet[15]);
      var _ := ContainersProcess(Ogm(true), packet[OGM2_HLEN..OGM2_HLEN + len], answers);
    }
  }

  lemma {:induction false} UnicastLeavesMarks(handlers: seq<Handler>, s: Source, cs: seq<Container>)
    requires s.Unicast?
    ensures Marked(handlers, s, cs) == handlers
  {
    if cs != [] {
      UnicastLeavesMarks(handlers, s, cs[..|cs| - 1]);
    }
  }

  lemma Start(handlers: seq<Handler>, s: Source)
    ensures Marked(handlers, s, []) == handlers && Dispatched(handlers, s, []) == []
  {
  }

  lemma NextCalls(handlers: seq<Handler>, s: Source, done: seq<Container>, c: Container)
    ensures Dispatched(handlers, s, done + [c]) ==
            Dispatched(handlers, s, done) + CallsOf(Marked(handlers, s, done), s, c)
    ensures Marked(handlers, s, done + [c]) == MarkedBy(Marked(handlers, s, done), s, c)
  {
  }

  // The container at pos, in terms of the whole buffer.
  lemma ContainerAt(buf: Bytes, pos: nat)
    requires pos + HDR_SIZE <= |buf|
    ensures var len := FromBigEndian(buf[pos + 2], buf[pos + 3]);
            var next := pos + HDR_SIZE + len;
            && len < 0x1_0000
            && (HasContainer(buf[pos..]) <==> next <= |buf|)
            && (HasContainer(buf[pos..]) ==>
                  && FirstContainer(buf[pos..]) == Container(Key(buf[pos], buf[pos + 1]), buf[pos + HDR_SIZE..next])
                  && Behind(buf[pos..]) == buf[next..])
  {
    hide FromBigEndian, BigEndian;
    BigEndianOfBytes(buf[pos + 2], buf[pos + 3]);
    var b := buf[pos..];
    assert b[0] == buf[pos] && b[1] == buf[pos + 1] && b[2] == buf[pos + 2] && b[3] == buf[pos + 3];
    var len := FromBigEndian(b[2], b[3]);
    if HDR_SIZE + len <= |b| {
      SliceOfSlice(buf, pos, HDR_SIZE, HDR_SIZE + len);
    }
  }

  // The containers in front of pos are those in done.
  ghost predicate Parsed(buf: Bytes, pos: nat, done: seq<Container>) {
    pos <= |buf| && Parse(buf) == done + Parse(buf[pos..])
  }

  lemma NothingParsed(buf: Bytes)
    ensures Parsed(buf, 0, [])
  {
    assert buf[0..] == buf;
  }

  lemma NextContainer(buf: Bytes, pos: nat, done: seq<Container>)
    requires Parsed(buf, pos, done) && pos + HDR_SIZE <= |buf|
    ensures var len := FromBigEndian(buf[pos + 2], buf[pos + 3]);
            var next := pos + HDR_SIZE + len;
            if next <= |buf|
            then len < 0x1_0000 &&
                 Parsed(buf, next, done + [Container(Key(buf[pos], buf[pos + 1]), buf[pos + HDR_SIZE..next])])
            else Parse(buf) == done
  {
    hide FromBigEndian, HasContainer, FirstContainer, Behind, Parse;
    ContainerAt(buf, pos);
    ParseStep(buf[pos..]);
    var b := buf[pos..];
    if HasContainer(b) {
      assert done + ([FirstContainer(b)] + Parse(Behind(b))) == done + [FirstContainer(b)] + Parse(Behind(b));
    } else {
      assert done + [] == done;
    }
  }

  lemma ParseStep(b: Bytes)
    ensures Parse(b) == if HasContainer(b) then [FirstContainer(b)] + Parse(Behind(b)) else []
  {
    hide HasContainer, FirstContainer, Behind;
  }

  lemma NoContainer(buf: Bytes, pos: nat, done: seq<Container>)
    requires Parsed(buf, pos, done)
    ensures |buf| - pos < HDR_SIZE ==> Parse(buf) == done
  {
    ParseStep(buf[pos..]);
    hide Parse, FirstContainer, Behind, FromBigEndian;
  }

  // ----- What it means -----

  function CallsTo(calls: seq<Call>, key: Key): seq<Call> {
    if calls == [] then []
    else
      var rest := CallsTo(calls[..|calls| - 1], key);
      if calls[|calls| - 1].key == key then rest + [calls[|calls| - 1]] else rest
  }

  // The calls that hand over the containers of that key, in order.
  function Deliveries(cs: seq<Container>, key: Key): seq<Call> {
    if cs == [] then []
    else
      var rest, c := Deliveries(cs[..|cs| - 1], key), cs[|cs| - 1];
      if c.key == key then rest + [Call(key, false, c.value)] else rest
  }

  lemma {:induction false} CallsToConcat(a: seq<Call>, b: seq<Call>, key: Key)
    ensures CallsTo(a + b, key) == CallsTo(a, key) + CallsTo(b, key)
  {
    if b == [] {
      assert a + b == a;
    } else {
      CallsToConcat(a, b[..|b| - 1], key);
      assert (a + b)[..|a + b| - 1] == a + b[..|b| - 1];
    }
  }

  // The mark of a handler says whether one of the containers reached it.
  lemma {:induction false} MarkedExactly(handlers: seq<Handler>, s: Source, cs: seq<Container>, i: nat)
    requires Registered(handlers) && i < |handlers|
    ensures Marked(handlers, s, cs)[i].called <==>
            handlers[i].called || (s.Ogm? && Reaches(handlers[i], s) && Deliveries(cs, handlers[i].key) != [])
  {
    if cs != [] {
      MarkedExactly(handlers, s, cs[..|cs| - 1], i);
      FindRegistered(Marked(handlers, s, cs[..|cs| - 1]), i);
    }
  }

  lemma FindRegistered(handlers: seq<Handler>, i: nat)
    requires i < |handlers|
    requires forall j, k :: 0 <= j < k < |handlers| ==> handlers[j].key != handlers[k].key
    ensures Find(handlers, handlers[i].key) == Some(i)
  {
  }

  lemma {:induction false} DispatchedExactly(handlers: seq<Handler>, s: Source, cs: seq<Container>, i: nat)
    requires Registered(handlers) && i < |handlers|
    ensures CallsTo(Dispatched(handlers, s, cs), handlers[i].key) ==
            if Reaches(handlers[i], s) then Deliveries(cs, handlers[i].key) else []
  {
    if cs != [] {
      var init, c := cs[..|cs| - 1], cs[|cs| - 1];
      var marked := Marked(handlers, s, init);
      DispatchedExactly(handlers, s, init, i);
      CallsToConcat(Dispatched(handlers, s, init), CallsOf(marked, s, c), handlers[i].key);
      FindRegistered(marked, i);
      assert marked[i].key == handlers[i].key;
      SingleCall(CallsOf(marked, s, c), handlers[i].key);
    }
  }

  lemma SingleCall(calls: seq<Call>, key: Key)
    requires |calls| <= 1
    ensures CallsTo(calls, key) == if |calls| == 1 && calls[0].key == key then calls else []
  {
  }

  lemma {:induction false} NotFoundExactly(handlers: seq<Handler>, key: Key)
    requires forall i, j :: 0 <= i < j < |handlers| ==> handlers[i].key != handlers[j].key
    ensures CallsTo(NotFoundCalls(handlers), key) ==
            if exists h :: h in handlers && h.key == key && h.ifNotFound && !h.called then [Call(key, true, [])] else []
  {
    if handlers != [] {
      var init, h := handlers[..|handlers| - 1], handlers[|handlers| - 1];
      var more := if h.ifNotFound && !h.called then [Call(h.key, true, [])] else [];
      NotFoundExactly(init, key);
      hide CallsTo;
      CallsToConcat(NotFoundCalls(init), more, key);
      SingleCall(more, key);
      assert forall g :: g in handlers <==> g in init || g == h;
      if h.key == key {
        assert forall g :: g in init ==> g.key != key;
      }
    }
  }

  // Which calls one handler gets for an OGM: one for each container with its
  // key, in order, if the originator is known; if there is none and it asked
  // for that, a single one that says so.  A handler that asked is therefore
  // called at least once, and exactly once when its key occurs at most once.
  lemma OgmCallsExactly(handlers: seq<Handler>, cs: seq<Container>, hasOrig: bool, i: nat)
    requires Registered(handlers) && Quiet(handlers) && i < |handlers|
    ensures var h := handlers[i];
            var got := CallsTo(Process(handlers, Ogm(hasOrig), cs), h.key);
            && got == (if h.ogm && hasOrig && Deliveries(cs, h.key) != [] then Deliveries(cs, h.key)
                       else if h.ifNotFound then [Call(h.key, true, [])] else [])
            && (h.ifNotFound ==> |got| >= 1)
            && (h.ifNotFound && |Deliveries(cs, h.key)| <= 1 ==> |got| == 1)
  {
    hide CallsTo, Dispatched, NotFoundCalls, Deliveries, Marked;
    var h, s := handlers[i], Ogm(hasOrig);
    CallsToConcat(Dispatched(handlers, s, cs), NotFoundCalls(Marked(handlers, s, cs)), h.key);
    DispatchedExactly(handlers, s, cs, i);
    NotFoundAfter(handlers, s, cs, i);
  }

  lemma NotFoundAfter(handlers: seq<Handler>, s: Source, cs: seq<Container>, i: nat)
    requires Registered(handlers) && Quiet(handlers) && i < |handlers|
    ensures var h := handlers[i];
            CallsTo(NotFoundCalls(Marked(handlers, s, cs)), h.key) ==
            if h.ifNotFound && !(s.Ogm? && Reaches(h, s) && Deliveries(cs, h.key) != []) then [Call(h.key, true, [])]
            else []
  {
    hide CallsTo, NotFoundCalls, Deliveries, Marked, Reaches;
    var h, marked := handlers[i], Marked(handlers, s, cs);
    MarkedExactly(handlers, s, cs, i);
    assert !handlers[i].called;
    assert forall j, k :: 0 <= j < k < |marked| ==> marked[j].key != marked[k].key;
    NotFoundExactly(marked, h.key);
    assert marked[i] in marked;
    assert forall g :: g in marked && g.key == h.key ==> g == marked[i];
  }

  // For a unicast packet a handler gets the containers of its key, and nothing
  // for those that are missing.
  lemma UnicastCallsExactly(handlers: seq<Handler>, cs: seq<Container>, hasSrc: bool, hasDst: bool, i: nat)
    requires Registered(handlers) && i < |handlers|
    ensures CallsTo(Process(handlers, Unicast(hasSrc, hasDst), cs), handlers[i].key) ==
            if hasSrc && hasDst && handlers[i].unicast then Deliveries(cs, handlers[i].key) else []
  {
    var s := Unicast(hasSrc, hasDst);
    DispatchedExactly(handlers, s, cs, i);
    assert Process(handlers, s, cs) == Dispatched(handlers, s, cs);
  }

  // The result for a unicast packet is success if and only if every callback
  // reported success.
  lemma {:induction false} JoinedZero(answers: nat -> bv32, lo: nat, hi: nat)
    ensures Joined(answers, lo, hi) == 0 <==> forall n :: lo <= n < hi ==> answers(n) == 0
  {
    hide Or;
    if lo < hi {
      JoinedZero(answers, lo, hi - 1);
      OrZero(Joined(answers, lo, hi - 1), answers(hi - 1));
    }
  }

  // ----- From the registry of the sender to the handlers of the receiver -----

  lemma {:induction false} DeliveriesOf(cs: seq<Container>, m: map<Key, Value>, key: Key)
    requires Lists(cs, m)
    ensures Deliveries(cs, key) == if key in m then [Call(key, false, m[key])] else []
  {
    if key in m {
      var i :| 0 <= i < |cs| && cs[i] == Container(key, m[key]);
      OneDelivery(cs, i);
    } else {
      NoDelivery(cs, key);
    }
  }

  lemma {:induction false} NoDelivery(cs: seq<Container>, key: Key)
    requires forall c :: c in cs ==> c.key != key
    ensures Deliveries(cs, key) == []
  {
    if cs != [] {
      NoDelivery(cs[..|cs| - 1], key);
      assert cs[|cs| - 1] in cs;
    }
  }

  lemma {:induction false} OneDelivery(cs: seq<Container>, i: nat)
    requires i < |cs| && forall j, k :: 0 <= j < k < |cs| ==> cs[j].key != cs[k].key
    ensures Deliveries(cs, cs[i].key) == [Call(cs[i].key, false, cs[i].value)]
  {
    var init := cs[..|cs| - 1];
    if i < |init| {
      OneDelivery(init, i);
    } else {
      forall c | c in init
        ensures c.key != cs[i].key
      {
        var j :| 0 <= j < |init| && init[j] == c;
      }
      NoDelivery(init, cs[i].key);
    }
  }

  // Whatever a node registered and unregistered before its OGM, and whatever
  // follows it in the frame.  If nothing is registered any more, no handler of
  // a B.A.T.M.A.N. IV receiver is called.  Otherwise a handler is called once
  // with the latest value of its key if the key is still registered, and once
  // for its absence if it is not and the handler asked for that.
  lemma ReceiverSeesLatest(ops: seq<Op>, header: Bytes, rest: Bytes, handlers: seq<Handler>, i: nat)
    requires Registered(handlers) && Quiet(handlers) && i < |handlers| && handlers[i].ogm
    requires |header| == OGM_HLEN && FromBigEndian(header[22], header[23]) == |Serialize(Replay(ops))|
    ensures var h := handlers[i];
            var packet := header + Serialize(Replay(ops)) + rest;
            && HasTvlvPart(packet, OGM_HLEN, 22)
            && CallsTo(OgmCalls(handlers, packet), h.key) ==
                 if Announced(ops) == map[] then []
                 else if h.key in Announced(ops) then [Call(h.key, false, Announced(ops)[h.key])]
                 else if h.ifNotFound then [Call(h.key, true, [])] else []
  {
    hide FromBigEndian, Process, CallsTo, Announced, Replay, Parse, Serialize, Lists;
    TvlvBehind(header, 22, Serialize(Replay(ops)), rest);
    NothingToAnnounce(ops);
    ProcessedLatest(ops, handlers, i);
    NoCalls(handlers[i].key);
  }

  // The same with an OGM2.  A B.A.T.M.A.N. V receiver passes even an empty
  // TVLV part on: handlers hear of an absence when nothing is registered, too.
  lemma DirectReceiverSeesLatest(ops: seq<Op>, header: Bytes, rest: Bytes, handlers: seq<Handler>, i: nat)
    requires Registered(handlers) && Quiet(handlers) && i < |handlers| && handlers[i].ogm
    requires |header| == OGM2_HLEN && FromBigEndian(header[14], header[15]) == |Serialize(Replay(ops))|
    ensures var h := handlers[i];
            var packet := header + Serialize(Replay(ops)) + rest;
            && HasTvlvPart(packet, OGM2_HLEN, 14)
            && CallsTo(Ogm2Calls(handlers, packet), h.key) ==
                 if h.key in Announced(ops) then [Call(h.key, false, Announced(ops)[h.key])]
                 else if h.ifNotFound then [Call(h.key, true, [])] else []
  {
    hide FromBigEndian, Process, CallsTo, Announced, Replay, Parse, Serialize, Lists;
    TvlvBehind(header, 14, Serialize(Replay(ops)), rest);
    ProcessedLatest(ops, handlers, i);
  }

  lemma TvlvBehind(header: Bytes, at: nat, bytes: Bytes, rest: Bytes)
    requires at + 2 <= |header| && FromBigEndian(header[at], header[at + 1]) == |bytes|
    ensures var packet := header + bytes + rest;
            HasTvlvPart(packet, |header|, at) && TvlvPart(packet, |header|, at) == bytes
  {
    hide FromBigEndian;
    var packet := header + bytes + rest;
    assert packet[at] == header[at] && packet[at + 1] == header[at + 1];
    assert packet[|header|..|header| + |bytes|] == bytes;
  }

  lemma NoCalls(key: Key)
    ensures CallsTo([], key) == []
  {
  }

  lemma NothingToAnnounce(ops: seq<Op>)
    ensures |Serialize(Replay(ops))| == 0 <==> Announced(ops) == map[]
  {
    RegistryIsMap(ops);
    var list, m := Replay(ops), Announced(ops);
    hide Replay, Announced, Header;
    if list != [] {
      assert list[0] in list && list[0].key in m;
    }
    if m != map[] {
      var k :| k in m;
      assert Container(k, m[k]) in list;
    }
  }

  lemma ProcessedLatest(ops: seq<Op>, handlers: seq<Handler>, i: nat)
    requires Registered(handlers) && Quiet(handlers) && i < |handlers| && handlers[i].ogm
    ensures var h := handlers[i];
            CallsTo(Process(handlers, Ogm(true), Parse(Serialize(Replay(ops)))), h.key) ==
            if h.key in Announced(ops) then [Call(h.key, false, Announced(ops)[h.key])]
            else if h.ifNotFound then [Call(h.key, true, [])] else []
  {
    hide Lists, Process, CallsTo, Deliveries, Announced, Replay, Parse, Serialize;
    AnnouncedExactly(ops);
    var cs := Parse(Serialize(Replay(ops)));
    OgmCallsExactly(handlers, cs, true, i);
    DeliveriesOf(cs, Announced(ops), handlers[i].key);
  }
}

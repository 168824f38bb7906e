// Multicast: the counters and lists of the nodes that want more than what they
// announced, and the decision how to forward a frame (multicast.c).

module Multicast {
  import opened Wire
  import opened Wrappers

  // BATADV_MCAST_WANT_ALL_UNSNOOPABLES, _IPV4 and _IPV6
  datatype Flags = Flags(unsnoopables: bool, ipv4: bool, ipv6: bool)

  const NO_FLAGS := Flags(false, false, false)

  function FlagsOf(b: byte): Flags {
    Flags(b % 2 == 1, b / 2 % 2 == 1, b / 4 % 2 == 1)
  }

  function Bit(b: bool): nat {
    if b then 1 else 0
  }

  // An originator: the last flags, and the capability bit with the bit that
  // says whether it is known at all.
  datatype Node = Node(flags: Flags, hasMcast: bool, initialized: bool)

  // One counter with its list of originators.
  datatype Want = Want(num: int, list: seq<nat>)

  datatype Mesh = Mesh(nodes: map<nat, Node>, disabled: int, unsnoopables: Want, ipv4: Want, ipv6: Want)

  const EMPTY := Mesh(map[], 0, Want(0, []), Want(0, []), Want(0, []))

  // ----- The steps -----

  function Remove(list: seq<nat>, id: nat): (r: seq<nat>)
    ensures |r| == |list| - if id in list then 1 else 0
  {
    if list == [] then []
    else if list[0] == id then list[1..]
    else [list[0]] + Remove(list[1..], id)
  }

  // batadv_mcast_want_unsnoop_update and its two siblings: the originator's
  // flag goes from `was` to `now`.
  function Update(w: Want, id: nat, was: bool, now: bool): Want {
    if now && !was then Want(w.num + 1, [id] + w.list)
    else if !now && was then Want(w.num - 1, Remove(w.list, id))
    else w
  }

  function UpdateAll(s: Mesh, id: nat, was: Flags, now: Flags): Mesh {
    s.(unsnoopables := Update(s.unsnoopables, id, was.unsnoopables, now.unsnoopables),
       ipv4 := Update(s.ipv4, id, was.ipv4, now.ipv4),
       ipv6 := Update(s.ipv6, id, was.ipv6, now.ipv6))
  }

  // The flags that the container announces; none if it is missing or empty.
  function Announced(notFound: bool, value: Bytes): Flags {
    if !notFound && |value| >= 1 then FlagsOf(value[0]) else NO_FLAGS
  }

  datatype Event =
    | NewOrig(id: nat)
    | Ogm(id: nat, notFound: bool, value: Bytes)
    | Purge(id: nat)

  function Step(s: Mesh, e: Event): Mesh {
    match e
    case NewOrig(id) =>
      if id in s.nodes then s else s.(nodes := s.nodes[id := Node(NO_FLAGS, false, false)])
    case Ogm(id, notFound, value) =>
      if id !in s.nodes then s
      else
        var n, flags := s.nodes[id], Announced(notFound, value);
        var change :=
          if !notFound && !n.hasMcast then (if n.initialized then -1 else 0)
          else if notFound && (n.hasMcast || !n.initialized) then 1
          else 0;
        UpdateAll(s, id, n.flags, flags).(
          disabled := s.disabled + change,
          nodes := s.nodes[id := Node(flags, !notFound, true)])
    case Purge(id) =>
      if id !in s.nodes then s
      else
        var n := s.nodes[id];
        UpdateAll(s, id, n.flags, NO_FLAGS).(
          disabled := s.disabled - (if !n.hasMcast && n.initialized then 1 else 0),
          nodes := s.nodes - {id})
  }

  function Replay(events: seq<Event>): Mesh {
    if events == [] then EMPTY else Step(Replay(events[..|events| - 1]), events[|events| - 1])
  }

  // ----- The invariant -----

  predicate IsDisabled(n: Node) {
    n.initialized && !n.hasMcast
  }

  function Disabled(nodes: map<nat, Node>): set<nat> {
    set id | id in nodes && IsDisabled(nodes[id])
  }

  function WantUnsnoopables(nodes: map<nat, Node>): set<nat> {
    set id | id in nodes && nodes[id].flags.unsnoopables
  }

  function WantIpv4(nodes: map<nat, Node>): set<nat> {
    set id | id in nodes && nodes[id].flags.ipv4
  }

  function WantIpv6(nodes: map<nat, Node>): set<nat> {
    set id | id in nodes && nodes[id].flags.ipv6
  }

  // The list has every member of the set once, and the counter is its length.
  ghost predicate Counts(w: Want, members: set<nat>) {
    && w.num == |w.list| == |members|
    && forall id :: id in w.list <==> id in members
  }

  ghost predicate Inv(s: Mesh) {
    && s.disabled == |Disabled(s.nodes)|
    && Counts(s.unsnoopables, WantUnsnoopables(s.nodes))
    && Counts(s.ipv4, WantIpv4(s.nodes))
    && Counts(s.ipv6, WantIpv6(s.nodes))
  }

  lemma {:induction false} RemoveMember(list: seq<nat>, members: set<nat>, id: nat)
    requires |list| == |members| && forall k :: k in list <==> k in members
    ensures forall k :: k in Remove(list, id) <==> k in members && k != id
  {
    if list != [] {
      var head, tail := list[0], list[1..];
      Once(tail, members, head);
      RemoveMember(tail, members - {head}, id);
      if head == id {
        assert Remove(list, id) == tail;
      } else {
        assert Remove(list, id) == [head] + Remove(tail, id);
      }
    }
  }

  // A list as long as its set of members has no repetition.
  lemma Once(tail: seq<nat>, members: set<nat>, head: nat)
    requires |tail| + 1 == |members|
    requires forall k :: k in [head] + tail <==> k in members
    ensures forall k :: k in tail <==> k in members - {head}
  {
    assert forall k :: k in [head] + tail <==> k == head || k in tail;
    if head in tail {
      MembersAtMost(tail, members);
      assert false;
    }
  }

  lemma {:induction false} MembersAtMost(list: seq<nat>, members: set<nat>)
    requires forall k :: k in members ==> k in list
    ensures |members| <= |list|
  {
    if list == [] {
      assert members == {};
    } else {
      var head := list[0];
      assert forall k :: k in list <==> k == head || k in list[1..];
      MembersAtMost(list[1..], members - {head});
      if head in members {
        assert members == (members - {head}) + {head};
      }
    }
  }

  // One counter: if it counted the originators with the flag before, it counts
  // them afterwards.
  lemma UpdateCounts(w: Want, before: set<nat>, after: set<nat>, id: nat, was: bool, now: bool)
    requires Counts(w, before) && (was <==> id in before)
    requires after == if now then before + {id} else before - {id}
    ensures Counts(Update(w, id, was, now), after)
  {
    if now && !was {
      assert forall k :: k in [id] + w.list <==> k == id || k in w.list;
    } else if !now && was {
      RemoveMember(w.list, before, id);
    } else {
      assert after == before;
    }
  }

  lemma UpdateAllCounts(s: Mesh, id: nat, nodes: map<nat, Node>, now: Flags)
    requires Inv(s) && id in s.nodes
    requires nodes - {id} == s.nodes - {id}
    requires if id in nodes then nodes[id].flags == now else now == NO_FLAGS
    ensures var r := UpdateAll(s, id, s.nodes[id].flags, now);
            && Counts(r.unsnoopables, WantUnsnoopables(nodes))
            && Counts(r.ipv4, WantIpv4(nodes))
            && Counts(r.ipv6, WantIpv6(nodes))
  {
    hide Counts, Update;
    var was := s.nodes[id].flags;
    WantChange(s.nodes, nodes, id, now);
    hide WantUnsnoopables, WantIpv4, WantIpv6;
    UpdateCounts(s.unsnoopables, WantUnsnoopables(s.nodes), WantUnsnoopables(nodes), id, was.unsnoopables,
                 now.unsnoopables);
    UpdateCounts(s.ipv4, WantIpv4(s.nodes), WantIpv4(nodes), id, was.ipv4, now.ipv4);
    UpdateCounts(s.ipv6, WantIpv6(s.nodes), WantIpv6(nodes), id, was.ipv6, now.ipv6);
  }

  lemma WantChange(a: map<nat, Node>, b: map<nat, Node>, id: nat, now: Flags)
    requires id in a && a - {id} == b - {id}
    requires if id in b then b[id].flags == now else now == NO_FLAGS
    ensures WantUnsnoopables(b) == if now.unsnoopables then WantUnsnoopables(a) + {id} else WantUnsnoopables(a) - {id}
    ensures WantIpv4(b) == if now.ipv4 then WantIpv4(a) + {id} else WantIpv4(a) - {id}
    ensures WantIpv6(b) == if now.ipv6 then WantIpv6(a) + {id} else WantIpv6(a) - {id}
    ensures id in WantUnsnoopables(a) <==> a[id].flags.unsnoopables
    ensures id in WantIpv4(a) <==> a[id].flags.ipv4
    ensures id in WantIpv6(a) <==> a[id].flags.ipv6
  {
    Others(a, b, id);
  }

  lemma Others(a: map<nat, Node>, b: map<nat, Node>, id: nat)
    requires a - {id} == b - {id}
    ensures forall k :: k != id ==> (k in a <==> k in b)
    ensures forall k :: k != id && k in a ==> a[k] == b[k]
  {
    forall k | k != id
      ensures k in a <==> k in b
      ensures k in a ==> a[k] == b[k]
    {
      assert k in a <==> k in a - {id};
      assert k in b <==> k in b - {id};
      if k in a {
        assert (a - {id})[k] == a[k] && (b - {id})[k] == b[k];
      }
    }
  }

  lemma DisabledChange(a: map<nat, Node>, b: map<nat, Node>, id: nat)
    requires a - {id} == b - {id}
    ensures |Disabled(b)| == |Disabled(a)| - (if id in Disabled(a) then 1 else 0) + (if id in Disabled(b) then 1 else 0)
  {
    SameOthersDisabled(a, b, id);
    hide Disabled;
    SizeWithout(Disabled(a), id);
    SizeWithout(Disabled(b), id);
  }

  lemma SameOthersDisabled(a: map<nat, Node>, b: map<nat, Node>, id: nat)
    requires a - {id} == b - {id}
    ensures Disabled(a) - {id} == Disabled(b) - {id}
  {
    hide IsDisabled;
    Others(a, b, id);
  }

  lemma SizeWithout(s: set<nat>, id: nat)
    ensures |s| == |s - {id}| + if id in s then 1 else 0
  {
  }

  // A new originator wants nothing.
  lemma NewOrigWants(nodes: map<nat, Node>, id: nat)
    requires id !in nodes
    ensures var nodes' := nodes[id := Node(NO_FLAGS, false, false)];
            && WantUnsnoopables(nodes') == WantUnsnoopables(nodes)
            && WantIpv4(nodes') == WantIpv4(nodes)
            && WantIpv6(nodes') == WantIpv6(nodes)
  {
  }

  lemma StepInv(s: Mesh, e: Event)
    requires Inv(s)
    ensures Inv(Step(s, e))
  {
    hide Counts, Announced, UpdateAll, WantUnsnoopables, WantIpv4, WantIpv6;
    var s' := Step(s, e);
    var id := e.id;
    assert s'.nodes - {id} == s.nodes - {id};
    DisabledChange(s.nodes, s'.nodes, id);
    match e
    case NewOrig(_) =>
      if id !in s.nodes {
        NewOrigWants(s.nodes, id);
      }
    case Ogm(_, notFound, value) =>
      if id in s.nodes {
        UpdateAllCounts(s, id, s'.nodes, Announced(notFound, value));
      }
    case Purge(_) =>
      if id in s.nodes {
        UpdateAllCounts(s, id, s'.nodes, NO_FLAGS);
      }
  }

  // What an OGM makes known of a node: the three lowest bits of the first byte
  // it announces, all clear if there is none, and whether it announces any.
  // The other nodes stay as they are.
  lemma OgmExactly(s: Mesh, id: nat, notFound: bool, value: Bytes)
    requires id in s.nodes
    ensures var nodes' := Step(s, Ogm(id, notFound, value)).nodes;
            && id in nodes' && nodes' == s.nodes[id := nodes'[id]]
            && nodes'[id].initialized && nodes'[id].hasMcast == !notFound
            && var f := nodes'[id].flags;
               Bit(f.unsnoopables) + 2 * Bit(f.ipv4) + 4 * Bit(f.ipv6) ==
               if notFound || value == [] then 0 else value[0] % 8
  {
    if value != [] {
      FlagBits(value[0]);
    }
    hide UpdateAll, FlagsOf;
  }

  lemma FlagBits(b: byte)
    ensures var f := FlagsOf(b);
            Bit(f.unsnoopables) + 2 * Bit(f.ipv4) + 4 * Bit(f.ipv6) == b % 8
  {
    Digits(b);
    var x, y, z := b % 2, b / 2 % 2, b / 4 % 2;
    Below8(b / 4 / 2, x + 2 * y + 4 * z);
  }

  lemma Digits(b: nat)
    ensures b == b % 2 + 2 * (b / 2 % 2) + 4 * (b / 4 % 2) + 8 * (b / 4 / 2)
  {
    Half(b);
    Half(b / 2);
    Half(b / 4);
    Quarter(b);
  }

  lemma Half(n: nat)
    ensures n == n % 2 + 2 * (n / 2)
  {
  }

  lemma Quarter(n: nat)
    ensures n / 4 == n / 2 / 2
  {
  }

  lemma Below8(q: nat, r: nat)
    requires r < 8
    ensures (8 * q + r) % 8 == r
  {
  }

  // After any run of new originators, OGMs and purges, the counters count what
  // they are meant to.
  lemma {:induction false} RunInv(events: seq<Event>)
    ensures Inv(Replay(events))
  {
    if events != [] {
      RunInv(events[..|events| - 1]);
      StepInv(Replay(events[..|events| - 1]), events[|events| - 1]);
    }
  }

  // ----- In place -----

  class McastPriv {
    var nodes: map<nat, Node>
    var disabled: int
    var unsnoopables: Want
    var ipv4: Want
    var ipv6: Want

    ghost function State(): Mesh
      reads this
    {
      Mesh(nodes, disabled, unsnoopables, ipv4, ipv6)
    }

    constructor ()
      ensures State() == EMPTY
    {
      nodes, disabled := map[], 0;
      unsnoopables, ipv4, ipv6 := Want(0, []), Want(0, []), Want(0, []);
    }

    method NewOrig(id: nat)
      modifies this
      ensures State() == Step(old(State()), Event.NewOrig(id))
    {
      if id !in nodes {
        nodes := nodes[id := Node(NO_FLAGS, false, false)];
      }
    }

    method WantUnsnoopUpdate(id: nat, flags: Flags)
      requires id in nodes
      modifies this`unsnoopables
      ensures unsnoopables == Update(old(unsnoopables), id, nodes[id].flags.unsnoopables, flags.unsnoopables)
    {
      if flags.unsnoopables && !nodes[id].flags.unsnoopables {
        unsnoopables := unsnoopables.(num := unsnoopables.num + 1);
        unsnoopables := unsnoopables.(list := [id] + unsnoopables.list);
      } else if !flags.unsnoopables && nodes[id].flags.unsnoopables {
        unsnoopables := unsnoopables.(num := unsnoopables.num - 1);
        unsnoopables := unsnoopables.(list := Remove(unsnoopables.list, id));
      }
    }

    method WantIpv4Update(id: nat, flags: Flags)
      requires id in nodes
      modifies this`ipv4
      ensures ipv4 == Update(old(ipv4), id, nodes[id].flags.ipv4, flags.ipv4)
    {
      if flags.ipv4 && !nodes[id].flags.ipv4 {
        ipv4 := ipv4.(num := ipv4.num + 1);
        ipv4 := ipv4.(list := [id] + ipv4.list);
      } else if !flags.ipv4 && nodes[id].flags.ipv4 {
        ipv4 := ipv4.(num := ipv4.num - 1);
        ipv4 := ipv4.(list := Remove(ipv4.list, id));
      }
    }

    method WantIpv6Update(id: nat, flags: Flags)
      requires id in nodes
      modifies this`ipv6
      ensures ipv6 == Update(old(ipv6), id, nodes[id].flags.ipv6, flags.ipv6)
    {
      if flags.ipv6 && !nodes[id].flags.ipv6 {
        ipv6 := ipv6.(num := ipv6.num + 1);
        ipv6 := ipv6.(list := [id] + ipv6.list);
      } else if !flags.ipv6 && nodes[id].flags.ipv6 {
        ipv6 := ipv6.(num := ipv6.num - 1);
        ipv6 := ipv6.(list := Remove(ipv6.list, id));
      }
    }

    // batadv_mcast_tvlv_ogm_handler_v1
    method TvlvOgmHandler(id: nat, notFound: bool, value: Bytes)
      requires id in nodes
      modifies this
      ensures State() == Step(old(State()), Ogm(id, notFound, value))
    {
      hide Update, FlagsOf;
      var mcastEnabled := !notFound;
      var flags := NO_FLAGS;
      if mcastEnabled && |value| >= 1 {
        flags := FlagsOf(value[0]);
      }
      var n := nodes[id];
      var initialized := n.initialized;
      if mcastEnabled && !n.hasMcast {
        if initialized {
          disabled := disabled - 1;
        }
        n := n.(hasMcast := true);
      } else if !mcastEnabled && (n.hasMcast || !initialized) {
        disabled := disabled + 1;
        n := n.(hasMcast := false);
      }
      n := n.(initialized := true);
      nodes := nodes[id := n];
      WantUnsnoopUpdate(id, flags);
      WantIpv4Update(id, flags);
      WantIpv6Update(id, flags);
      nodes := nodes[id := n.(flags := flags)];
      assert n.(flags := flags) == Node(flags, mcastEnabled, true);
      assert nodes == old(nodes)[id := Node(flags, mcastEnabled, true)];
    }

    // batadv_mcast_purge_orig, when the originator is freed
    method PurgeOrig(id: nat)
      requires id in nodes
      modifies this
      ensures State() == Step(old(State()), Event.Purge(id))
    {
      hide Update;
      if !nodes[id].hasMcast && nodes[id].initialized {
        disabled := disabled - 1;
      }
      WantUnsnoopUpdate(id, NO_FLAGS);
      WantIpv4Update(id, NO_FLAGS);
      WantIpv6Update(id, NO_FLAGS);
      nodes := nodes - {id};
    }

    // batadv_mcast_forw_mode; ttCount and ttNode are what the translation table
    // answers for the destination.
    method ForwMode(on: bool, frame: Frame, ttCount: nat, ttNode: Option<nat>) returns (mode: Mode)
      ensures mode == ModeOf(State(), on, frame, ttCount, ttNode)
    {
      var check, isUnsnoopable := ForwModeCheck(on, frame);
      if check == NoMemory {
        return ForwNone;
      } else if check == Invalid {
        return ForwAll;
      }
      var ipCount := if frame.proto == Ipv4 then ipv4.num else ipv6.num;
      var unsnoopCount := if !isUnsnoopable then 0 else unsnoopables.num;
      var total := ttCount + ipCount + unsnoopCount;
      if total == 1 {
        var orig := None;
        if ttCount != 0 {
          orig := ttNode;
        } else if ipCount != 0 {
          orig := First(if frame.proto == Ipv4 then ipv4.list else ipv6.list);
        } else if unsnoopCount != 0 {
          orig := First(unsnoopables.list);
        }
        if orig.Some? {
          return ForwSingle(orig.value);
        }
        return ForwNone;
      } else if total == 0 {
        return ForwNone;
      }
      return ForwAll;
    }

    // batadv_mcast_forw_mode_check and its checks for IPv4 and IPv6
    method ForwModeCheck(on: bool, frame: Frame) returns (check: Check, isUnsnoopable: bool)
      ensures check == CheckOf(State(), on, frame)
      ensures check == Ok ==> isUnsnoopable == IsUnsnoopable(frame)
    {
      isUnsnoopable := false;
      if !on || disabled != 0 || frame.proto == Other {
        return Invalid, isUnsnoopable;
      }
      if !frame.pulled {
        return NoMemory, isUnsnoopable;
      }
      if !frame.linkLocal {
        return Invalid, isUnsnoopable;
      }
      if frame.proto == Ipv4 || frame.allNodes {
        isUnsnoopable := true;
      }
      return Ok, isUnsnoopable;
    }
  }

  // ----- Forwarding -----

  datatype Proto = Ipv4 | Ipv6 | Other

  // pulled: the headers could be made contiguous.  linkLocal: the destination
  // is a link-local group; allNodes: it is the link-local all-nodes group of
  // IPv6.
  datatype Frame = Frame(proto: Proto, pulled: bool, linkLocal: bool, allNodes: bool)

  datatype Mode = ForwAll | ForwSingle(orig: nat) | ForwNone

  datatype Check = Ok | Invalid | NoMemory

  function First(list: seq<nat>): Option<nat> {
    if list == [] then None else Some(list[0])
  }

  predicate IsUnsnoopable(f: Frame) {
    f.proto == Ipv4 || (f.proto == Ipv6 && f.allNodes)
  }

  function CheckOf(s: Mesh, on: bool, f: Frame): Check {
    if !on || s.disabled != 0 || f.proto == Other then Invalid
    else if !f.pulled then NoMemory
    else if !f.linkLocal then Invalid
    else Ok
  }

  function WantOf(s: Mesh, p: Proto): Want {
    match p case Ipv4 => s.ipv4 case Ipv6 => s.ipv6 case Other => Want(0, [])
  }

  function ModeOf(s: Mesh, on: bool, f: Frame, ttCount: nat, ttNode: Option<nat>): Mode {
    match CheckOf(s, on, f)
    case NoMemory => ForwNone
    case Invalid => ForwAll
    case Ok =>
      Choose(ttCount, ttNode, WantOf(s, f.proto), if IsUnsnoopable(f) then s.unsnoopables else Want(0, []))
  }

  // The choice by the three counts.
  function Choose(ttCount: nat, ttNode: Option<nat>, ip: Want, unsnoop: Want): Mode {
    var total := ttCount + ip.num + unsnoop.num;
    if total == 1 then
      match if ttCount != 0 then ttNode else if ip.num != 0 then First(ip.list) else First(unsnoop.list)
      case Some(orig) => ForwSingle(orig)
      case None => ForwNone
    else if total == 0 then ForwNone
    else ForwAll
  }

  // Who wants all frames of this kind, and who gets it whatever it wants.
  function AllOfProto(nodes: map<nat, Node>, p: Proto): set<nat> {
    match p case Ipv4 => WantIpv4(nodes) case Ipv6 => WantIpv6(nodes) case Other => {}
  }

  function AllUnsnoopables(nodes: map<nat, Node>, f: Frame): set<nat> {
    if IsUnsnoopable(f) then WantUnsnoopables(nodes) else {}
  }

  // The remote nodes that should get the frame: those that announced its
  // destination, those that want all frames of its kind, and those that
  // announce no wishes at all.
  function Interested(nodes: map<nat, Node>, f: Frame, ttNodes: set<nat>): set<nat> {
    ttNodes + Disabled(nodes) + AllOfProto(nodes, f.proto) + AllUnsnoopables(nodes, f)
  }

  predicate LeavesOut(mode: Mode, interested: set<nat>) {
    match mode
    case ForwAll => false
    case ForwSingle(orig) => !(interested <= {orig})
    case ForwNone => interested != {}
  }

  // After any run, and with a translation table that counts and finds its own
  // nodes correctly: an interested node is left out if and only if the frame
  // could not be looked into for lack of memory, or the single interested node
  // is known to the translation table only and the lookup did not return it.
  lemma LeavesOutExactly(events: seq<Event>, on: bool, f: Frame, ttNodes: set<nat>, ttNode: Option<nat>)
    requires ttNode.Some? ==> ttNode.value in ttNodes
    ensures var s := Replay(events);
            var interested := Interested(s.nodes, f, ttNodes);
            LeavesOut(ModeOf(s, on, f, |ttNodes|, ttNode), interested) <==>
            && on && s.disabled == 0 && f.proto != Other
            && (|| (!f.pulled && interested != {})
                || (&& f.pulled && f.linkLocal && ttNode.None? && |ttNodes| == 1
                    && WantOf(s, f.proto).num == 0 && (IsUnsnoopable(f) ==> s.unsnoopables.num == 0)))
  {
    RunInv(events);
    hide Replay, Inv, Interested, Choose, Counts;
    var s := Replay(events);
    var unsnoop := if IsUnsnoopable(f) then s.unsnoopables else Want(0, []);
    if CheckOf(s, on, f) == Ok {
      WantsCount(s, f, ttNodes);
      ChooseLeavesOut(ttNodes, ttNode, WantOf(s, f.proto), AllOfProto(s.nodes, f.proto), unsnoop,
                      AllUnsnoopables(s.nodes, f));
    }
  }

  // The mode, after any run, from what the nodes announced.  A frame is flooded
  // when multicast optimisation is off, some node knows nothing of it, or the
  // frame is of another kind; one that cannot be looked into is not sent at
  // all; else those who want it are counted, with repetition: nobody gets
  // nothing, one gets it alone (unless the translation table does not find
  // it), for more it is flooded.
  lemma ModeExactly(events: seq<Event>, on: bool, f: Frame, ttNodes: set<nat>, ttNode: Option<nat>)
    ensures var nodes := Replay(events).nodes;
            var ip := set id | id in nodes && if f.proto == Ipv4 then nodes[id].flags.ipv4 else nodes[id].flags.ipv6;
            var all := set id | id in nodes && nodes[id].flags.unsnoopables && (f.proto == Ipv4 || f.allNodes);
            var wanted := |ttNodes| + |ip| + |all|;
            var mode := ModeOf(Replay(events), on, f, |ttNodes|, ttNode);
            if !on || f.proto == Other || (exists id :: id in nodes && nodes[id].initialized && !nodes[id].hasMcast)
            then mode == ForwAll
            else if !f.pulled then mode == ForwNone
            else if !f.linkLocal || wanted >= 2 then mode == ForwAll
            else if wanted == 0 || (|ttNodes| == 1 && ttNode.None?) then mode == ForwNone
            else mode.ForwSingle? && if |ttNodes| == 1 then ttNode == Some(mode.orig) else ip + all == {mode.orig}
  {
    hide Replay, Counts, ModeOf, Inv, Interested, Disabled, AllOfProto, AllUnsnoopables;
    RunInv(events);
    var s := Replay(events);
    DisabledCounted(s);
    if f.proto != Other && s.disabled == 0 {
      WantsCount(s, f, ttNodes);
      WantedExactly(s.nodes, f);
    }
    ModeFrom(s, on, f, ttNodes, ttNode, AllOfProto(s.nodes, f.proto), AllUnsnoopables(s.nodes, f));
  }

  lemma ModeFrom(s: Mesh, on: bool, f: Frame, ttNodes: set<nat>, ttNode: Option<nat>, ip: set<nat>, all: set<nat>)
    requires f.proto != Other && s.disabled == 0 ==>
               && Counts(WantOf(s, f.proto), ip)
               && Counts(if IsUnsnoopable(f) then s.unsnoopables else Want(0, []), all)
    ensures var wanted := |ttNodes| + |ip| + |all|;
            var mode := ModeOf(s, on, f, |ttNodes|, ttNode);
            if !on || f.proto == Other || s.disabled != 0 then mode == ForwAll
            else if !f.pulled then mode == ForwNone
            else if !f.linkLocal || wanted >= 2 then mode == ForwAll
            else if wanted == 0 || (|ttNodes| == 1 && ttNode.None?) then mode == ForwNone
            else mode.ForwSingle? && if |ttNodes| == 1 then ttNode == Some(mode.orig) else ip + all == {mode.orig}
  {
    hide Counts, Choose;
    if f.proto != Other && s.disabled == 0 {
      ChooseExactly(ttNodes, ttNode, WantOf(s, f.proto), ip, if IsUnsnoopable(f) then s.unsnoopables else Want(0, []),
                    all);
    }
  }

  lemma DisabledCounted(s: Mesh)
    requires Inv(s)
    ensures s.disabled != 0 <==> exists id :: id in s.nodes && s.nodes[id].initialized && !s.nodes[id].hasMcast
  {
    hide Counts;
    if s.disabled == 0 {
      assert Disabled(s.nodes) == {};
      assert forall id :: id in s.nodes && s.nodes[id].initialized && !s.nodes[id].hasMcast ==> id in Disabled(s.nodes);
    } else {
      var id :| id in Disabled(s.nodes);
      assert s.nodes[id].initialized && !s.nodes[id].hasMcast;
    }
  }

  lemma WantedExactly(nodes: map<nat, Node>, f: Frame)
    requires f.proto != Other
    ensures AllOfProto(nodes, f.proto) ==
            set id | id in nodes && if f.proto == Ipv4 then nodes[id].flags.ipv4 else nodes[id].flags.ipv6
    ensures AllUnsnoopables(nodes, f) ==
            set id | id in nodes && nodes[id].flags.unsnoopables && (f.proto == Ipv4 || f.allNodes)
  {
  }

  lemma ChooseExactly(ttNodes: set<nat>, ttNode: Option<nat>, ip: Want, ipSet: set<nat>, unsnoop: Want,
                      unsnoopSet: set<nat>)
    requires Counts(ip, ipSet) && Counts(unsnoop, unsnoopSet)
    ensures var mode := Choose(|ttNodes|, ttNode, ip, unsnoop);
            var wanted := |ttNodes| + |ipSet| + |unsnoopSet|;
            if wanted >= 2 then mode == ForwAll
            else if wanted == 0 || (|ttNodes| == 1 && ttNode.None?) then mode == ForwNone
            else mode.ForwSingle?
                 && if |ttNodes| == 1 then ttNode == Some(mode.orig) else ipSet + unsnoopSet == {mode.orig}
  {
    SingleMember(ip, ipSet);
    SingleMember(unsnoop, unsnoopSet);
  }

  // With no node disabled the counters and lists cover who is interested.
  lemma WantsCount(s: Mesh, f: Frame, ttNodes: set<nat>)
    requires Inv(s) && s.disabled == 0
    ensures Interested(s.nodes, f, ttNodes) == ttNodes + AllOfProto(s.nodes, f.proto) + AllUnsnoopables(s.nodes, f)
    ensures Counts(WantOf(s, f.proto), AllOfProto(s.nodes, f.proto))
    ensures Counts(if IsUnsnoopable(f) then s.unsnoopables else Want(0, []), AllUnsnoopables(s.nodes, f))
  {
    hide WantUnsnoopables, WantIpv4, WantIpv6, Counts;
    assert Disabled(s.nodes) == {};
    hide Disabled;
    NobodyCounts();
  }

  lemma NobodyCounts()
    ensures Counts(Want(0, []), {})
  {
  }

  lemma ChooseLeavesOut(ttNodes: set<nat>, ttNode: Option<nat>, ip: Want, ipSet: set<nat>, unsnoop: Want,
                        unsnoopSet: set<nat>)
    requires ttNode.Some? ==> ttNode.value in ttNodes
    requires Counts(ip, ipSet) && Counts(unsnoop, unsnoopSet)
    ensures LeavesOut(Choose(|ttNodes|, ttNode, ip, unsnoop), ttNodes + ipSet + unsnoopSet) <==>
            |ttNodes| == 1 && ttNode.None? && ip.num == 0 && unsnoop.num == 0
  {
    SingleMember(ip, ipSet);
    SingleMember(unsnoop, unsnoopSet);
    assert ip.num >= 0 && unsnoop.num >= 0;
    hide Counts;
    if |ttNodes| == 1 {
      var x := Single(ttNodes);
    }
  }

  lemma Single(s: set<nat>) returns (x: nat)
    requires |s| == 1
    ensures s == {x}
  {
    x :| x in s;
    SizeWithout(s, x);
    assert s - {x} == {};
  }

  lemma SingleMember(w: Want, members: set<nat>)
    requires Counts(w, members)
    ensures w.num == 0 <==> members == {}
    ensures w.num == 1 ==> members == {w.list[0]}
  {
  }
}

// The distributed ARP table: which originators store the entry for a key
// (distributed-arp-table.c).  The originators sit on a ring of 2^16 addresses;
// three rounds over the originator table pick the nearest ones past the key.

module DatCandidates {
  import opened Wrappers

  const ADDR_MAX := 0xFFFF        // BATADV_DAT_ADDR_MAX
  const CANDIDATES_NUM := 3       // BATADV_DAT_CANDIDATES_NUM

  type Addr = n: nat | n <= ADDR_MAX

  datatype Node = Node(orig: nat, addr: Addr, hasDat: bool)

  datatype Kind = NotFound | Orig

  // The node of a slot that is NotFound was never written: it may be anything.
  datatype Candidate = Candidate(kind: Kind, node: Node)

  // The originator table, in the order of its hash buckets: one entry for each
  // address.
  predicate IsTable(nodes: seq<Node>) {
    forall i, j :: 0 <= i < j < |nodes| ==> nodes[i].orig != nodes[j].orig
  }

  // The unsigned 16-bit value that the rounds maximise.
  function Score(n: Node, key: Addr): Addr {
    (ADDR_MAX - n.addr + key) % 0x1_0000
  }

  // How far the node lies past the key, going up the ring.
  function Distance(n: Node, key: Addr): Addr {
    (n.addr - key) % 0x1_0000
  }

  lemma ScoreIsDistance(n: Node, key: Addr)
    ensures Score(n, key) == ADDR_MAX - Distance(n, key)
  {
  }

  // ----- One round -----

  // batadv_is_orig_node_eligible.  The comparison of the two addresses is an
  // equality test, so that on a tie the node visited later is taken.
  predicate IsEligible(chosen: seq<Node>, score: Addr, max: Addr, lastMax: Addr, n: Node, best: Option<Node>) {
    && n.hasDat
    && n !in chosen
    && score <= lastMax
    && score >= max
    && !(score == max && best.Some? && n.orig == best.value.orig)
  }

  // A round over the table as the source runs it: every node is compared with
  // the nearest one found so far.
  function Round(nodes: seq<Node>, chosen: seq<Node>, key: Addr, lastMax: Addr): Option<Node> {
    if nodes == [] then None
    else
      var n, b := nodes[|nodes| - 1], Round(nodes[..|nodes| - 1], chosen, key, lastMax);
      var max := if b.Some? then Score(b.value, key) else 0;
      if IsEligible(chosen, Score(n, key), max, lastMax, n, b) then Some(n) else b
  }

  // What a round is for: a node of the highest score among those left.
  function Best(nodes: seq<Node>, chosen: seq<Node>, key: Addr): (r: Option<Node>)
    ensures r.Some? ==> r.value in nodes && r.value.hasDat && r.value !in chosen
    ensures r.None? ==> forall n :: n in nodes ==> !n.hasDat || n in chosen
    ensures forall n :: n in nodes && n.hasDat && n !in chosen ==> r.Some? && Score(n, key) <= Score(r.value, key)
  {
    if nodes == [] then None
    else
      var n, b := nodes[|nodes| - 1], Best(nodes[..|nodes| - 1], chosen, key);
      if n.hasDat && n !in chosen && (b.None? || Score(n, key) >= Score(b.value, key)) then Some(n) else b
  }

  predicate Left(chosen: seq<Node>, n: Node) {
    n.hasDat && n !in chosen
  }

  // nodes[i] is the nearest node left, and of several at the same distance the
  // one visited last.
  predicate IsLastNearest(nodes: seq<Node>, chosen: seq<Node>, key: Addr, i: nat) {
    && i < |nodes| && Left(chosen, nodes[i])
    && (forall j :: 0 <= j < i && Left(chosen, nodes[j]) ==> Distance(nodes[i], key) <= Distance(nodes[j], key))
    && (forall j :: i < j < |nodes| && Left(chosen, nodes[j]) ==> Distance(nodes[i], key) < Distance(nodes[j], key))
  }

  // Whom a round picks.
  lemma BestIsLastNearest(nodes: seq<Node>, chosen: seq<Node>, key: Addr, i: nat)
    requires IsTable(nodes) && i < |nodes|
    ensures Best(nodes, chosen, key) == Some(nodes[i]) <==> IsLastNearest(nodes, chosen, key, i)
  {
    hide Distance, Score;
    if Best(nodes, chosen, key).Some? {
      var k := BestIndex(nodes, chosen, key);
    } else {
      assert nodes[i] in nodes;
    }
  }

  lemma RestIsTable(nodes: seq<Node>)
    requires IsTable(nodes) && nodes != []
    ensures IsTable(nodes[..|nodes| - 1])
  {
  }

  lemma {:induction false} BestIndex(nodes: seq<Node>, chosen: seq<Node>, key: Addr) returns (k: nat)
    requires IsTable(nodes) && Best(nodes, chosen, key).Some?
    ensures IsLastNearest(nodes, chosen, key, k) && Best(nodes, chosen, key) == Some(nodes[k])
  {
    hide Distance, Score, IsTable;
    var last := |nodes| - 1;
    var rest := nodes[..last];
    if Best(nodes, chosen, key) != Some(nodes[last]) {
      RestIsTable(nodes);
      k := BestIndex(rest, chosen, key);
      ScoreIsDistance(nodes[k], key);
      ScoreIsDistance(nodes[last], key);
    } else {
      k := last;
      forall j | 0 <= j < last && Left(chosen, nodes[j])
        ensures Distance(nodes[last], key) <= Distance(nodes[j], key)
      {
        assert nodes[j] in nodes;
        ScoreIsDistance(nodes[j], key);
        ScoreIsDistance(nodes[last], key);
      }
    }
  }

  // The check against the score of the previous round never rejects a node
  // that is still to be chosen, provided that one was the highest.
  lemma {:induction false} RoundIsBest(nodes: seq<Node>, chosen: seq<Node>, key: Addr, lastMax: Addr)
    requires IsTable(nodes)
    requires forall n :: n in nodes && n.hasDat && n !in chosen ==> Score(n, key) <= lastMax
    ensures Round(nodes, chosen, key, lastMax) == Best(nodes, chosen, key)
  {
    hide Score;
    if nodes != [] {
      var rest := nodes[..|nodes| - 1];
      RoundIsBest(rest, chosen, key, lastMax);
      var b := Best(rest, chosen, key);
      if b.Some? {
        var j :| 0 <= j < |rest| && rest[j] == b.value;
        assert nodes[j].orig != nodes[|nodes| - 1].orig;
      }
    }
  }

  function ChosenOf(cands: seq<Candidate>): (r: seq<Node>)
    ensures |r| == |cands| && forall i :: 0 <= i < |r| ==> r[i] == cands[i].node
  {
    seq(|cands|, i requires 0 <= i < |cands| => cands[i].node)
  }

  // batadv_choose_next_candidate
  method ChooseNextCandidate(nodes: seq<Node>, cands: array<Candidate>, select: nat, key: Addr, lastMax: Addr)
    returns (max: Addr)
    requires select < cands.Length
    modifies cands
    ensures forall i :: 0 <= i < cands.Length && i != select ==> cands[i] == old(cands[i])
    ensures match Round(nodes, ChosenOf(old(cands[..select])), key, lastMax)
            case None => cands[select] == old(cands[select]).(kind := NotFound) && max == 0
            case Some(n) => cands[select] == Candidate(Orig, n) && max == Score(n, key)
  {
    max := 0;
    var best := None;
    cands[select] := cands[select].(kind := NotFound);
    ghost var chosen := ChosenOf(cands[..select]);
    assert chosen == ChosenOf(old(cands[..select]));
    var i := 0;
    while i < |nodes|
      invariant 0 <= i <= |nodes|
      invariant best == Round(nodes[..i], chosen, key, lastMax)
      invariant max == if best.Some? then Score(best.value, key) else 0
    {
      var n := nodes[i];
      assert nodes[..i + 1][..i] == nodes[..i];
      var score := Score(n, key);
      if IsEligible(ChosenOf(cands[..select]), score, max, lastMax, n, best) {
        max := score;
        best := Some(n);
      }
      i := i + 1;
    }
    assert nodes[..i] == nodes;
    match best
    case Some(n) => cands[select] := Candidate(Orig, n);
    case None =>
  }

  // ----- The rounds -----

  function Rounds(nodes: seq<Node>, key: Addr, k: nat): (r: seq<Node>)
    ensures |r| <= k
  {
    if k == 0 then [] else
      var r := Rounds(nodes, key, k - 1);
      match Best(nodes, r, key)
      case None => r
      case Some(n) => r + [n]
  }

  // No capable node is left that a round could pick.
  predicate Exhausted(nodes: seq<Node>, chosen: seq<Node>) {
    forall n :: n in nodes && n.hasDat ==> n in chosen
  }

  // The slots hold what the rounds picked; those after it are NotFound.
  predicate Holds(cands: seq<Candidate>, picked: seq<Node>) {
    && |picked| <= |cands|
    && (forall i :: 0 <= i < |picked| ==> cands[i] == Candidate(Orig, picked[i]))
    && (forall i :: |picked| <= i < |cands| ==> cands[i].kind == NotFound)
  }

  // A round picks what Best picks: it looks at the slots, of which the unused
  // ones exclude nobody that is left.
  lemma RoundIsNext(nodes: seq<Node>, cands: seq<Candidate>, picked: seq<Node>, key: Addr, lastMax: Addr)
    requires IsTable(nodes) && Holds(cands, picked) && (|picked| == |cands| || Exhausted(nodes, picked))
    requires forall n :: n in nodes && n.hasDat && n !in picked ==> Score(n, key) <= lastMax
    ensures Round(nodes, ChosenOf(cands), key, lastMax) == Best(nodes, picked, key)
  {
    hide IsTable, Score, Round, Best;
    var chosen := ChosenOf(cands);
    assert chosen[..|picked|] == picked;
    if |picked| == |cands| {
      assert chosen == picked;
      RoundIsBest(nodes, picked, key, lastMax);
    } else {
      assert forall n :: n in picked ==> n in chosen;
      RoundIsBest(nodes, chosen, key, lastMax);
      assert Best(nodes, chosen, key).None? && Best(nodes, picked, key).None?;
    }
  }

  // The slot written in the next round.
  lemma NextHolds(nodes: seq<Node>, cands: seq<Candidate>, picked: seq<Node>, key: Addr, slot: Candidate)
    requires picked == Rounds(nodes, key, |cands|) && Holds(cands, picked)
    requires |picked| == |cands| || Exhausted(nodes, picked)
    requires match Best(nodes, picked, key)
             case None => slot.kind == NotFound
             case Some(n) => slot == Candidate(Orig, n)
    ensures var picked' := Rounds(nodes, key, |cands| + 1);
            Holds(cands + [slot], picked') && (|picked'| == |cands| + 1 || Exhausted(nodes, picked'))
  {
    hide Best;
  }

  // batadv_dat_select_candidates.  What an unused slot happens to hold makes no
  // difference.
  method SelectCandidates(nodes: seq<Node>, key: Addr) returns (cands: array<Candidate>)
    requires IsTable(nodes)
    ensures fresh(cands) && cands.Length == CANDIDATES_NUM
    ensures Holds(cands[..], Rounds(nodes, key, CANDIDATES_NUM))
  {
    hide IsTable, Best, Round, Score, Rounds;
    RoundsStep(nodes, key, 0);
    cands := new Candidate[CANDIDATES_NUM];
    var lastMax: Addr := ADDR_MAX;
    var select := 0;
    ghost var picked: seq<Node> := [];
    while select < CANDIDATES_NUM
      invariant 0 <= select <= CANDIDATES_NUM
      invariant picked == Rounds(nodes, key, select)
      invariant Holds(cands[..select], picked)
      invariant |picked| == select || Exhausted(nodes, picked)
      invariant forall n :: n in nodes && n.hasDat && n !in picked ==> Score(n, key) <= lastMax
    {
      ghost var before := cands[..select];
      RoundIsNext(nodes, before, picked, key, lastMax);
      lastMax := ChooseNextCandidate(nodes, cands, select, key, lastMax);
      assert cands[..select] == before;
      assert cands[..select + 1] == before + [cands[select]];
      NextHolds(nodes, before, picked, key, cands[select]);
      picked := Rounds(nodes, key, select + 1);
      select := select + 1;
    }
    assert cands[..select] == cands[..];
  }

  // ----- The first three on the ring -----

  function Capable(nodes: seq<Node>): set<Node> {
    set n | n in nodes && n.hasDat
  }

  // What the design asks for: distinct capable nodes in order of distance from
  // the key, as many as there are up to the limit, none left out that is
  // nearer than one taken.
  predicate Nearest(picked: seq<Node>, nodes: seq<Node>, key: Addr, limit: nat) {
    && (forall i, j :: 0 <= i < j < |picked| ==> picked[i] != picked[j])
    && (forall n :: n in picked ==> n in Capable(nodes))
    && (forall i, j :: 0 <= i < j < |picked| ==> Distance(picked[i], key) <= Distance(picked[j], key))
    && (forall n, m :: n in picked && m in Capable(nodes) && m !in picked ==> Distance(n, key) <= Distance(m, key))
    && |picked| == if limit <= |Capable(nodes)| then limit else |Capable(nodes)|
  }

  lemma {:induction false} RoundsAreNearest(nodes: seq<Node>, key: Addr, k: nat)
    ensures Nearest(Rounds(nodes, key, k), nodes, key, k)
  {
    if k > 0 {
      RoundsAreNearest(nodes, key, k - 1);
      NextIsNearest(Rounds(nodes, key, k - 1), nodes, key, k - 1);
    }
  }

  lemma NextIsNearest(r: seq<Node>, nodes: seq<Node>, key: Addr, k: nat)
    requires Nearest(r, nodes, key, k)
    ensures match Best(nodes, r, key)
            case None => Nearest(r, nodes, key, k + 1)
            case Some(n) => Nearest(r + [n], nodes, key, k + 1)
  {
    hide Distance, Score;
    SizeOf(r);
    var b := Best(nodes, r, key);
    var cap, taken := Capable(nodes), set n | n in r;
    if b.None? {
      assert cap == taken;
    } else {
      forall m | m in cap && m !in r
        ensures Distance(b.value, key) <= Distance(m, key)
      {
        ScoreIsDistance(b.value, key);
        ScoreIsDistance(m, key);
      }
      assert b.value in cap && b.value !in taken;
      Smaller(taken, cap);
    }
  }

  lemma Smaller<T>(a: set<T>, b: set<T>)
    requires a < b
    ensures |a| < |b|
  {
    var x :| x in b && x !in a;
    assert |b - a| > 0;
    assert b == a + (b - a);
  }

  lemma {:induction false} SizeOf(r: seq<Node>)
    requires forall i, j :: 0 <= i < j < |r| ==> r[i] != r[j]
    ensures |set n | n in r| == |r|
  {
    if r != [] {
      var last := |r| - 1;
      SizeOf(r[..last]);
      assert (set n | n in r) == (set n | n in r[..last]) + {r[last]};
    }
  }

  ghost predicate SameNodes(a: seq<Node>, b: seq<Node>) {
    forall n :: n in a <==> n in b
  }

  predicate DistinctAddrs(nodes: seq<Node>) {
    forall n, m :: n in Capable(nodes) && m in Capable(nodes) && n.addr == m.addr ==> n == m
  }

  // When no two capable nodes share an address, the choice depends only on
  // which originators are known, not on the order of the table.
  lemma {:induction false} OrderDoesNotMatter(a: seq<Node>, b: seq<Node>, key: Addr, k: nat)
    requires SameNodes(a, b) && DistinctAddrs(a)
    ensures Rounds(a, key, k) == Rounds(b, key, k)
  {
    hide Best, Score, SameNodes, DistinctAddrs, Rounds;
    RoundsStep(a, key, k);
    RoundsStep(b, key, k);
    if k > 0 {
      OrderDoesNotMatter(a, b, key, k - 1);
      SameBest(a, b, Rounds(a, key, k - 1), key);
    }
  }

  lemma RoundsStep(nodes: seq<Node>, key: Addr, k: nat)
    ensures k == 0 ==> Rounds(nodes, key, k) == []
    ensures k > 0 ==>
              var r := Rounds(nodes, key, k - 1);
              Rounds(nodes, key, k) == match Best(nodes, r, key) case None => r case Some(n) => r + [n]
  {
  }

  lemma SameBest(a: seq<Node>, b: seq<Node>, chosen: seq<Node>, key: Addr)
    requires SameNodes(a, b) && DistinctAddrs(a)
    ensures Best(a, chosen, key) == Best(b, chosen, key)
  {
    hide Score, Best;
    var x, y := Best(a, chosen, key), Best(b, chosen, key);
    if x.Some? && y.Some? {
      assert x.value in Capable(a) && y.value in Capable(a);
      SameScoreSameAddr(x.value, y.value, key);
    }
  }

  lemma SameScoreSameAddr(n: Node, m: Node, key: Addr)
    requires Score(n, key) == Score(m, key)
    ensures n.addr == m.addr
  {
  }

  // Conversely, two capable nodes with one address, and no others, are stored
  // in the order opposite to that in which the table lists them.  The comment
  // in the source promises the lowest address first.
  lemma TieGoesToLastVisited(n: Node, m: Node, key: Addr)
    requires n.orig != m.orig && n.addr == m.addr && n.hasDat && m.hasDat
    ensures Rounds([n, m], key, CANDIDATES_NUM) == [m, n]
    ensures Rounds([m, n], key, CANDIDATES_NUM) == [n, m]
  {
    TieRounds(n, m, key);
    TieRounds(m, n, key);
  }

  lemma TieRounds(n: Node, m: Node, key: Addr)
    requires n.orig != m.orig && n.addr == m.addr && n.hasDat && m.hasDat
    ensures Rounds([n, m], key, CANDIDATES_NUM) == [m, n]
  {
    var t := [n, m];
    BestIsLastNearest(t, [], key, 1);
    assert Rounds(t, key, 0) == [];
    assert Rounds(t, key, 1) == [m];
    BestIsLastNearest(t, [m], key, 0);
    assert Rounds(t, key, 2) == [m, n];
    assert Best(t, [m, n], key).None? by {
      assert forall x :: x in t ==> x in [m, n];
    }
  }
}

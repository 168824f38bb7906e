// B.A.T.M.A.N. IV: the transmission quality of an OGM, its decay along a path,
// and the end of every flood (bat_iv_ogm.c).

module TqMetric {
  import opened Bitarray
  import opened SeqNo
  import opened Wire
  import opened Wrappers

  const TQ_MAX := 255

  // Conversion of an integer to an 8-bit number.
  function Byte(x: int): byte {
    x % 256
  }

  // batadv_hop_penalty
  function HopPenalty(tq: byte, hopPenalty: byte): byte {
    Byte(tq * (TQ_MAX - hopPenalty) / TQ_MAX)
  }

  // What is known of a link: how many own OGMs came back, how many OGMs of the
  // neighbour arrived, and the interface.
  datatype Link = Link(origEqCount: byte, neighRqCount: byte, sameWifi: bool, hopPenalty: byte)

  function TotalCount(l: Link): byte {
    if l.origEqCount > l.neighRqCount then l.neighRqCount else l.origEqCount
  }

  function TqOwn(l: Link): byte {
    if TotalCount(l) < 1 || l.neighRqCount < 1 then 0
    else Byte(TQ_MAX * TotalCount(l) / l.neighRqCount)
  }

  // inv_asym_penalty subtracted from the maximum, in the widths of the source:
  // u8 for the inverse, 32 unsigned bits for its cube.
  function AsymPenalty(l: Link): int {
    var inv := Byte(WINDOW - l.neighRqCount);
    TQ_MAX - Wrap(TQ_MAX * Wrap(inv * inv * inv)) / (WINDOW * WINDOW * WINDOW)
  }

  function IfacePenalty(l: Link): byte {
    if l.sameWifi then HopPenalty(TQ_MAX, l.hopPenalty) else TQ_MAX
  }

  // The product of the four factors, formed from left to right in 32 signed
  // bits.
  function SignedProduct(a: int, b: int, c: int, d: int): int {
    Signed(Signed(Signed(a * b) * c) * d)
  }

  // The quality batadv_iv_ogm_calc_tq stores in the OGM: the signed product is
  // converted to 32 unsigned bits before the division.
  function CalcTq(tq: byte, l: Link): byte {
    Byte(Wrap(SignedProduct(tq, TqOwn(l), AsymPenalty(l), IfacePenalty(l))) / (TQ_MAX * TQ_MAX * TQ_MAX))
  }

  // ----- Ranges -----

  lemma MulMonotone(a: nat, b: nat, c: nat)
    requires a <= b
    ensures 0 <= a * c <= b * c
  {
  }

  // A share b / m <= 1 of a is at most a.
  lemma Scaled(a: nat, b: nat, m: nat)
    requires b <= m && m > 0
    ensures 0 <= a * b <= a * m
    ensures 0 <= a * b / m <= a
  {
  }

  lemma HopPenaltyShrinks(tq: byte, hopPenalty: byte)
    ensures HopPenalty(tq, hopPenalty) == tq * (TQ_MAX - hopPenalty) / TQ_MAX <= tq
    ensures hopPenalty >= 1 && tq >= 1 ==> HopPenalty(tq, hopPenalty) < tq
  {
    MulMonotone(TQ_MAX - hopPenalty, TQ_MAX, tq);
    var product := tq * (TQ_MAX - hopPenalty);
    assert 0 <= product <= tq * TQ_MAX;
    if hopPenalty >= 1 && tq >= 1 {
      MulMonotone(TQ_MAX - hopPenalty, TQ_MAX - 1, tq);
      assert product <= tq * (TQ_MAX - 1) < tq * TQ_MAX;
    }
  }

  lemma CubeRange(inv: nat)
    requires inv <= WINDOW
    ensures 0 <= inv * inv * inv <= WINDOW * WINDOW * WINDOW
  {
    MulMonotone(inv, WINDOW, inv);
    var square := inv * inv;
    assert square <= WINDOW * WINDOW;
    MulMonotone(square, WINDOW * WINDOW, inv);
    assert square * inv <= WINDOW * WINDOW * inv;
  }

  // With at most 64 received OGMs, the inverse does not wrap, its cube is at
  // most 2^18 and the penalty lies between 0 and 255.
  lemma AsymPenaltyRange(l: Link)
    requires l.neighRqCount <= WINDOW
    ensures var inv := WINDOW - l.neighRqCount;
            && 0 <= inv * inv * inv <= WINDOW * WINDOW * WINDOW
            && AsymPenalty(l) == TQ_MAX - TQ_MAX * (inv * inv * inv) / (WINDOW * WINDOW * WINDOW)
            && 0 <= AsymPenalty(l) <= TQ_MAX
  {
    var inv := WINDOW - l.neighRqCount;
    CubeRange(inv);
    assert Byte(inv) == inv;
    CubeScaled(inv * inv * inv);
  }

  lemma CubeScaled(cube: nat)
    requires cube <= WINDOW * WINDOW * WINDOW
    ensures Wrap(TQ_MAX * Wrap(cube)) == TQ_MAX * cube
    ensures 0 <= TQ_MAX * cube / (WINDOW * WINDOW * WINDOW) <= TQ_MAX
  {
  }

  // The share of the neighbour's OGMs that stands for our own: those of ours
  // that came back, at most as many as arrived from the neighbour.
  function OwnShare(l: Link): int {
    if l.neighRqCount == 0 then 0
    else if l.origEqCount < l.neighRqCount then TQ_MAX * l.origEqCount / l.neighRqCount
    else TQ_MAX
  }

  lemma TqOwnRange(l: Link)
    ensures TqOwn(l) == OwnShare(l) <= TQ_MAX
    ensures TqOwn(l) == 0 <==> l.neighRqCount == 0 || TQ_MAX * l.origEqCount < l.neighRqCount
  {
    if l.neighRqCount >= 1 {
      var t: nat := TotalCount(l);
      Scaled(TQ_MAX, t, l.neighRqCount);
      var q := TQ_MAX * t / l.neighRqCount;
      assert 0 <= q <= TQ_MAX && Byte(q) == q;
      assert t < 1 ==> q == 0;
      Quotient(TQ_MAX * t, l.neighRqCount);
      Whole(TQ_MAX, l.neighRqCount);
    }
  }

  lemma Quotient(a: nat, m: nat)
    requires m > 0
    ensures a / m == 0 <==> a < m
  {
  }

  lemma Whole(a: nat, m: nat)
    requires m > 0
    ensures a * m / m == a
  {
    var q := a * m / m;
    Bounds(a * m, m);
    assert (a + 1) * m == a * m + m;
    if q < a {
      MulMonotone(q + 1, a, m);
    } else if q > a {
      MulMonotone(a + 1, q, m);
    }
  }

  lemma Bounds(x: nat, m: nat)
    requires m > 0
    ensures 0 <= x / m && x / m * m <= x < (x / m + 1) * m
  {
    assert x == x / m * m + x % m;
    assert (x / m + 1) * m == x / m * m + m;
  }

  // The more of our OGMs came back, the better the own quality.
  lemma TqOwnMonotone(l: Link, more: byte)
    requires l.origEqCount <= more
    ensures TqOwn(l) <= TqOwn(l.(origEqCount := more))
  {
    var l' := l.(origEqCount := more);
    TqOwnRange(l);
    TqOwnRange(l');
    hide TqOwn;
    if l.neighRqCount >= 1 && more < l.neighRqCount {
      QuotientMonotone(TQ_MAX * l.origEqCount, TQ_MAX * more, l.neighRqCount);
    }
  }

  lemma QuotientMonotone(x: nat, y: nat, m: nat)
    requires x <= y && m > 0
    ensures x / m <= y / m
  {
    Bounds(x, m);
    Bounds(y, m);
    if x / m > y / m {
      MulMonotone(y / m + 1, x / m, m);
    }
  }

  // Forwarding on the wireless interface it came in on costs a hop penalty.
  lemma IfacePenaltyExact(l: Link)
    ensures IfacePenalty(l) == if l.sameWifi then TQ_MAX - l.hopPenalty else TQ_MAX
  {
    Whole(TQ_MAX - l.hopPenalty, TQ_MAX);
  }

  // A product of four factors, each at most 255, fits in 32 bits, and divided
  // by 255^3 it is at most its first factor.
  lemma ProductRange(a: nat, b: nat, c: nat, d: nat)
    requires a <= TQ_MAX && b <= TQ_MAX && c <= TQ_MAX && d <= TQ_MAX
    ensures 0 <= a * b * c * d < TWO_TO_32
    ensures a * b * c * d / (TQ_MAX * TQ_MAX * TQ_MAX) <= a
  {
    MulMonotone(b, TQ_MAX, a);
    var ab := a * b;
    assert ab <= a * TQ_MAX;
    MulMonotone(c, TQ_MAX, ab);
    var abc := ab * c;
    assert abc <= ab * TQ_MAX;
    MulMonotone(d, TQ_MAX, abc);
    assert abc * d <= abc * TQ_MAX;
  }

  lemma Permuted(a: int, b: int, c: int, d: int)
    ensures b * a * c * d == a * b * c * d
    ensures c * a * b * d == a * b * c * d
    ensures d * a * b * c == a * b * c * d
  {
  }

  // Only the last multiplication can leave the signed range, and the
  // conversion to unsigned undoes that.
  lemma SignedProductExact(a: nat, b: nat, c: nat, d: nat)
    requires a <= TQ_MAX && b <= TQ_MAX && c <= TQ_MAX && d <= TQ_MAX
    ensures var p := a * b * c * d;
            && 0 <= p < TWO_TO_32
            && SignedProduct(a, b, c, d) == (if p < TWO_TO_31 then p else p - TWO_TO_32)
            && Wrap(SignedProduct(a, b, c, d)) == p
  {
    ProductRange(a, b, c, d);
    MulMonotone(b, TQ_MAX, a);
    MulMonotone(c, TQ_MAX, a * b);
    assert 0 <= a * b <= TQ_MAX * TQ_MAX;
    assert 0 <= a * b * c <= TQ_MAX * TQ_MAX * TQ_MAX;
    SignedSmall(a * b);
    SignedSmall(a * b * c);
    SignedLarge(a * b * c * d);
  }

  lemma SignedSmall(x: int)
    requires 0 <= x < TWO_TO_31
    ensures Signed(x) == x
  {
  }

  lemma SignedLarge(x: int)
    requires 0 <= x < TWO_TO_32
    ensures Signed(x) == if x < TWO_TO_31 then x else x - TWO_TO_32
    ensures Wrap(Signed(x)) == x
  {
  }

  // With at most 64 received OGMs the four-factor product fits in 32 unsigned
  // bits.  The signed product of the source is that product if and only if it
  // is below 2^31, and otherwise it is negative; in both cases its conversion
  // to unsigned, and so the result, is exact.
  lemma CalcTqExact(tq: byte, l: Link)
    requires l.neighRqCount <= WINDOW
    ensures var p := tq * TqOwn(l) * AsymPenalty(l) * IfacePenalty(l);
            var signed := SignedProduct(tq, TqOwn(l), AsymPenalty(l), IfacePenalty(l));
            && 0 <= p < TWO_TO_32
            && (signed == p <==> p < TWO_TO_31) && (signed < 0 <==> p >= TWO_TO_31) && Wrap(signed) == p
            && CalcTq(tq, l) == p / (TQ_MAX * TQ_MAX * TQ_MAX)
  {
    AsymPenaltyRange(l);
    TqOwnRange(l);
    hide TqOwn, AsymPenalty, IfacePenalty, SignedProduct, Wrap, Byte;
    var a, b, c, d := tq as int, TqOwn(l) as int, AsymPenalty(l), IfacePenalty(l) as int;
    QuotientExact(a, b, c, d);
  }

  // The same from the fields of the link: the received quality, the share of
  // our own OGMs, the cubic asymmetry penalty and the interface, each out of
  // 255.
  lemma CalcTqOfLink(tq: byte, l: Link)
    requires l.neighRqCount <= WINDOW
    ensures var missing := WINDOW - l.neighRqCount;
            var symmetry := TQ_MAX - TQ_MAX * (missing * missing * missing) / (WINDOW * WINDOW * WINDOW);
            var iface := if l.sameWifi then TQ_MAX - l.hopPenalty else TQ_MAX;
            CalcTq(tq, l) == tq * OwnShare(l) * symmetry * iface / (TQ_MAX * TQ_MAX * TQ_MAX)
  {
    hide CalcTq, TqOwn, AsymPenalty, IfacePenalty, SignedProduct, Wrap, OwnShare;
    CalcTqExact(tq, l);
    AsymPenaltyRange(l);
    TqOwnRange(l);
    IfacePenaltyExact(l);
  }

  // A link on which more of our OGMs come back is never rated worse.
  lemma CalcTqMonotoneInEchoes(tq: byte, l: Link, more: byte)
    requires l.neighRqCount <= WINDOW && l.origEqCount <= more
    ensures CalcTq(tq, l) <= CalcTq(tq, l.(origEqCount := more))
  {
    var l' := l.(origEqCount := more);
    hide CalcTq, SignedProduct, Wrap;
    CalcTqExact(tq, l);
    CalcTqExact(tq, l');
    AsymPenaltyRange(l);
    TqOwnMonotone(l, more);
    assert AsymPenalty(l) == AsymPenalty(l') && IfacePenalty(l) == IfacePenalty(l');
    hide TqOwn, AsymPenalty, IfacePenalty;
    FourFactors(tq, TqOwn(l), TqOwn(l'), AsymPenalty(l), IfacePenalty(l));
  }

  lemma FourFactors(a: nat, b: nat, b': nat, c: nat, d: nat)
    requires b <= b'
    ensures a * b * c * d / (TQ_MAX * TQ_MAX * TQ_MAX) <= a * b' * c * d / (TQ_MAX * TQ_MAX * TQ_MAX)
  {
    MulMonotone(b, b', a);
    assert a * b <= a * b';
    MulMonotone(a * b, a * b', c);
    MulMonotone(a * b * c, a * b' * c, d);
    DivMonotone(a * b * c * d, a * b' * c * d);
  }

  lemma QuotientExact(a: nat, b: nat, c: nat, d: nat)
    requires a <= TQ_MAX && b <= TQ_MAX && c <= TQ_MAX && d <= TQ_MAX
    ensures var p, signed := a * b * c * d, SignedProduct(a, b, c, d);
            && 0 <= p < TWO_TO_32
            && (signed == p <==> p < TWO_TO_31) && (signed < 0 <==> p >= TWO_TO_31) && Wrap(signed) == p
            && Byte(Wrap(signed) / (TQ_MAX * TQ_MAX * TQ_MAX)) == p / (TQ_MAX * TQ_MAX * TQ_MAX)
  {
    ProductRange(a, b, c, d);
    SignedProductExact(a, b, c, d);
    hide SignedProduct, Wrap;
    SmallQuotient(a * b * c * d, a);
  }

  lemma SmallQuotient(p: nat, a: nat)
    requires p / (TQ_MAX * TQ_MAX * TQ_MAX) <= a <= TQ_MAX
    ensures Byte(p / (TQ_MAX * TQ_MAX * TQ_MAX)) == p / (TQ_MAX * TQ_MAX * TQ_MAX)
  {
  }

  const PERFECT_LINK := Link(WINDOW, WINDOW, false, 0)

  lemma PerfectFactors()
    ensures TqOwn(PERFECT_LINK) == TQ_MAX && AsymPenalty(PERFECT_LINK) == TQ_MAX && IfacePenalty(PERFECT_LINK) == TQ_MAX
  {
    AsymPenaltyRange(PERFECT_LINK);
    TqOwnRange(PERFECT_LINK);
    hide AsymPenalty, TqOwn;
  }

  // On a perfect link the signed product for the best quality is negative.
  lemma SignedProductWraps()
    ensures var l := PERFECT_LINK;
            && SignedProduct(TQ_MAX, TqOwn(l), AsymPenalty(l), IfacePenalty(l)) == -66716671
            && CalcTq(TQ_MAX, l) == TQ_MAX
  {
    hide TqOwn, AsymPenalty, IfacePenalty, CalcTq, SignedProduct;
    PerfectFactors();
    CalcTqExact(TQ_MAX, PERFECT_LINK);
    SignedProductExact(TQ_MAX, TQ_MAX, TQ_MAX, TQ_MAX);
  }

  // The combined quality is no better than the received one, the own
  // broadcast quality, the asymmetry and the interface allow.
  lemma CalcTqBelowFactors(tq: byte, l: Link)
    requires l.neighRqCount <= WINDOW
    ensures CalcTq(tq, l) <= tq && CalcTq(tq, l) <= TqOwn(l)
    ensures CalcTq(tq, l) <= AsymPenalty(l) && CalcTq(tq, l) <= IfacePenalty(l)
  {
    CalcTqExact(tq, l);
    AsymPenaltyRange(l);
    TqOwnRange(l);
    hide TqOwn, AsymPenalty, IfacePenalty, CalcTq;
    var a, b, c, d := tq as int, TqOwn(l) as int, AsymPenalty(l), IfacePenalty(l) as int;
    ProductRange(a, b, c, d);
    ProductRange(b, a, c, d);
    ProductRange(c, a, b, d);
    ProductRange(d, a, b, c);
    Permuted(a, b, c, d);
  }

  // A better received quality never gives a worse combined one.
  lemma CalcTqMonotone(tq: byte, better: byte, l: Link)
    requires l.neighRqCount <= WINDOW && tq <= better
    ensures CalcTq(tq, l) <= CalcTq(better, l)
  {
    CalcTqExact(tq, l);
    CalcTqExact(better, l);
    AsymPenaltyRange(l);
    TqOwnRange(l);
    hide TqOwn, AsymPenalty, IfacePenalty, CalcTq;
    var b, c, d := TqOwn(l) as int, AsymPenalty(l), IfacePenalty(l) as int;
    MulMonotone(tq, better, b);
    MulMonotone(tq * b, better * b, c);
    MulMonotone(tq * b * c, better * b * c, d);
    DivMonotone(tq * b * c * d, better * b * c * d);
  }

  lemma DivMonotone(x: int, y: int)
    requires x <= y
    ensures x / (TQ_MAX * TQ_MAX * TQ_MAX) <= y / (TQ_MAX * TQ_MAX * TQ_MAX)
  {
  }

  // ----- Paths -----

  // The quality after a node: the link is rated, then the hop penalty applied.
  function AfterHop(tq: byte, l: Link): byte {
    HopPenalty(CalcTq(tq, l), l.hopPenalty)
  }

  function AfterPath(tq: byte, links: seq<Link>): byte {
    if links == [] then tq else AfterHop(AfterPath(tq, links[..|links| - 1]), links[|links| - 1])
  }

  // Along any path the quality never grows; with a hop penalty of at least one
  // at every node it falls by at least one per hop until it is zero.
  lemma {:induction false} PathDecay(tq: byte, links: seq<Link>)
    requires forall l :: l in links ==> l.neighRqCount <= WINDOW
    ensures AfterPath(tq, links) <= tq
    ensures (forall l :: l in links ==> l.hopPenalty >= 1) ==>
              AfterPath(tq, links) == 0 || AfterPath(tq, links) <= tq - |links|
  {
    if links != [] {
      var l := links[|links| - 1];
      var before := AfterPath(tq, links[..|links| - 1]);
      PathDecay(tq, links[..|links| - 1]);
      CalcTqBelowFactors(before, l);
      HopPenaltyShrinks(CalcTq(before, l), l.hopPenalty);
      hide CalcTq, HopPenalty;
    }
  }

  // ----- Floods -----

  datatype Ogm = Ogm(ttl: byte, tq: byte, notBestNextHop: bool, directLink: bool)

  // batadv_iv_ogm_forward: the OGM handed to the queue, if any.
  function Forward(ogm: Ogm, singleHop: bool, fromBest: bool, hopPenalty: byte): Option<Ogm> {
    if ogm.ttl <= 1 then None
    else if !fromBest && !singleHop then None
    else Some(Ogm(ogm.ttl - 1, HopPenalty(ogm.tq, hopPenalty), ogm.notBestNextHop || !fromBest, singleHop))
  }

  // A hop of an OGM: the link it comes in by, whether its sender is the
  // originator itself, and whether it is the best next hop.
  datatype Hop = Hop(link: Link, singleHop: bool, fromBest: bool)

  function LinksOf(hops: seq<Hop>): (r: seq<Link>)
    ensures |r| == |hops| && forall i :: 0 <= i < |r| ==> r[i] == hops[i].link
  {
    seq(|hops|, i requires 0 <= i < |hops| => hops[i].link)
  }

  // The OGM that the last of the hops hands to the queue, if it gets that far.
  function Travel(ogm: Ogm, hops: seq<Hop>): Option<Ogm> {
    if hops == [] then Some(ogm)
    else
      var h := hops[|hops| - 1];
      match Travel(ogm, hops[..|hops| - 1])
      case None => None
      case Some(o) => Forward(o.(tq := CalcTq(o.tq, h.link)), h.singleHop, h.fromBest, h.link.hopPenalty)
  }

  // How far an OGM gets, and how it arrives: it passes every node that hears
  // it from its best next hop or from the originator itself, as long as its
  // ttl lasts; it is marked from the first node on that was not its best next
  // hop, and is a direct link exactly when it was heard from the originator.
  lemma {:induction false} TravelExactly(ogm: Ogm, hops: seq<Hop>)
    requires hops != []
    ensures Travel(ogm, hops) ==
            if ogm.ttl > |hops| && (forall h :: h in hops ==> h.fromBest || h.singleHop)
            then Some(Ogm(ogm.ttl - |hops|, AfterPath(ogm.tq, LinksOf(hops)),
                          ogm.notBestNextHop || (exists h :: h in hops && !h.fromBest),
                          hops[|hops| - 1].singleHop))
            else None
  {
    hide CalcTq, HopPenalty;
    var init, last := hops[..|hops| - 1], hops[|hops| - 1];
    assert LinksOf(hops)[..|hops| - 1] == LinksOf(init);
    assert forall h :: h in hops <==> h in init || h == last;
    if init != [] {
      TravelExactly(ogm, init);
    }
  }

  // The copies in flight may change by one reception: copy i is consumed, and
  // the receiving node sends what it forwards to at most k receivers in all.
  ghost predicate Reception(flying: seq<Ogm>, after: seq<Ogm>, i: nat, sent: seq<Ogm>, k: nat) {
    && i < |flying|
    && |sent| <= k
    && (forall c :: c in sent ==> exists l: Link, singleHop, fromBest ::
          Forward(flying[i].(tq := CalcTq(flying[i].tq, l)), singleHop, fromBest, l.hopPenalty) == Some(c))
    && after == flying[..i] + flying[i + 1..] + sent
  }

  function Pow(b: nat, e: nat): nat {
    if e == 0 then 1 else b * Pow(b, e - 1)
  }

  // The work left in a flood when every reception makes at most k copies.
  function Weight(flying: seq<Ogm>, k: nat): nat {
    if flying == [] then 0 else Weight(flying[..|flying| - 1], k) + Pow(k + 1, flying[|flying| - 1].ttl)
  }

  lemma {:induction false} WeightConcat(a: seq<Ogm>, b: seq<Ogm>, k: nat)
    ensures Weight(a + b, k) == Weight(a, k) + Weight(b, k)
  {
    if b == [] {
      assert a + b == a;
    } else {
      WeightConcat(a, b[..|b| - 1], k);
      assert (a + b)[..|a + b| - 1] == a + b[..|b| - 1];
    }
  }

  lemma {:induction false} WeightAtMost(sent: seq<Ogm>, k: nat, ttl: nat)
    requires forall c :: c in sent ==> c.ttl == ttl
    ensures Weight(sent, k) == |sent| * Pow(k + 1, ttl)
  {
    if sent != [] {
      WeightAtMost(sent[..|sent| - 1], k, ttl);
      assert sent[|sent| - 1] in sent;
      Distribute(|sent| - 1, Pow(k + 1, ttl));
    }
  }

  lemma Distribute(k: int, p: int)
    ensures (k + 1) * p == k * p + p
  {
  }

  lemma PowPositive(b: nat, e: nat)
    requires b >= 1
    ensures Pow(b, e) >= 1
  {
  }

  // Fewer than k + 1 copies of lower ttl weigh less than one copy.
  lemma CopiesWeighLess(sent: seq<Ogm>, k: nat, ttl: nat)
    requires |sent| <= k
    requires forall c :: c in sent ==> c.ttl == ttl - 1
    ensures Weight(sent, k) < Pow(k + 1, ttl)
  {
    PowPositive(k + 1, ttl);
    if sent != [] {
      assert sent[0] in sent;
      WeightAtMost(sent, k, ttl - 1);
      var p := Pow(k + 1, ttl - 1);
      PowPositive(k + 1, ttl - 1);
      MulMonotone(|sent|, k, p);
      Distribute(k, p);
    }
  }

  lemma WeightWithout(flying: seq<Ogm>, i: nat, k: nat)
    requires i < |flying|
    ensures Weight(flying, k) == Weight(flying[..i] + flying[i + 1..], k) + Pow(k + 1, flying[i].ttl)
  {
    var c := flying[i];
    assert flying == flying[..i] + [c] + flying[i + 1..];
    WeightConcat(flying[..i] + [c], flying[i + 1..], k);
    WeightConcat(flying[..i], [c], k);
    WeightConcat(flying[..i], flying[i + 1..], k);
    assert Weight([c], k) == Pow(k + 1, c.ttl) by { assert [c][..0] == []; }
  }

  // Every reception strictly lowers the weight of the flood.
  lemma ReceptionLowersWeight(flying: seq<Ogm>, after: seq<Ogm>, i: nat, sent: seq<Ogm>, k: nat)
    requires Reception(flying, after, i, sent, k)
    ensures Weight(after, k) < Weight(flying, k)
  {
    hide CalcTq, HopPenalty, Weight, Pow;
    forall c | c in sent
      ensures c.ttl == flying[i].ttl - 1
    {
    }
    WeightWithout(flying, i, k);
    WeightConcat(flying[..i] + flying[i + 1..], sent, k);
    CopiesWeighLess(sent, k, flying[i].ttl);
  }

  // A run of a flood: the copies in flight after each reception.
  ghost predicate Flood(states: seq<seq<Ogm>>, k: nat) {
    && |states| >= 1
    && forall n :: 0 < n < |states| ==> Receives(states[n - 1], states[n], k)
  }

  ghost predicate Receives(flying: seq<Ogm>, after: seq<Ogm>, k: nat) {
    exists i: nat, sent: seq<Ogm> :: Reception(flying, after, i, sent, k)
  }

  // No flood has more receptions than the weight it starts with, so on a
  // topology where a reception makes at most k copies every flood dies out.
  lemma {:induction false} FloodDiesOut(states: seq<seq<Ogm>>, k: nat)
    requires Flood(states, k)
    ensures |states| - 1 + Weight(states[|states| - 1], k) <= Weight(states[0], k)
  {
    var n := |states| - 1;
    if n > 0 {
      FloodDiesOut(states[..n], k);
      assert Receives(states[n - 1], states[n], k);
      var i: nat, sent: seq<Ogm> :| Reception(states[n - 1], states[n], i, sent, k);
      ReceptionLowersWeight(states[n - 1], states[n], i, sent, k);
    }
  }
}

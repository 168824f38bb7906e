// Cutting a packet into fragments, and putting it together again in a bucket
// of the receiver (fragmentation.c).

module Fragmentation {
  import opened SeqNo
  import opened Wire
  import opened Wrappers

  const HEADER_SIZE := 20       // sizeof(struct batadv_frag_packet)
  const MAX_FRAG_SIZE := 1400   // BATADV_FRAG_MAX_FRAG_SIZE
  const MAX_FRAGMENTS := 16     // BATADV_FRAG_MAX_FRAGMENTS
  const BUFFER_COUNT := 8       // BATADV_FRAG_BUFFER_COUNT

  // batadv_frag_size_limit
  const SIZE_LIMIT := (MAX_FRAG_SIZE - HEADER_SIZE) * MAX_FRAGMENTS

  type u16 = x: int | 0 <= x < 0x1_0000

  function Wrap16(x: int): u16 {
    x % 0x1_0000
  }

  // A fragment: the header fields that vary, and the bytes after the header.
  datatype Frag = Frag(seqno: u16, no: nat, totalSize: u16, data: seq<byte>)

  // ----- Sending -----

  // The number of payload bytes per fragment, in 32 unsigned bits.
  function MaxFragment(mtu: u32): u32 {
    Wrap((if mtu < MAX_FRAG_SIZE then mtu else MAX_FRAG_SIZE) - HEADER_SIZE)
  }

  // The fragments cut from the rest of a packet when `no` were sent already,
  // and whether the packet was sent completely.
  function Cut(skb: seq<byte>, m: nat, no: nat, seqno: u16, total: u16): (bool, seq<Frag>)
    requires no < MAX_FRAGMENTS - 1
    decreases MAX_FRAGMENTS - no
  {
    if |skb| <= m then (true, [Frag(seqno, no, total, skb)])
    else
      var tail := Frag(seqno, no, total, skb[|skb| - m..]);
      if no + 1 == MAX_FRAGMENTS - 1 then (false, [tail])
      else
        var (ok, rest) := Cut(skb[..|skb| - m], m, no + 1, seqno, total);
        (ok, [tail] + rest)
  }

  function Send(skb: seq<byte>, mtu: u32, seqno: u16): (bool, seq<Frag>) {
    if |skb| > Wrap(MaxFragment(mtu) * MAX_FRAGMENTS) then (false, [])
    else Cut(skb, MaxFragment(mtu), 0, seqno, Wrap16(|skb|))
  }

  lemma CutStep(skb: seq<byte>, m: nat, no: nat, seqno: u16, total: u16, sent: seq<Frag>)
    requires no < MAX_FRAGMENTS - 1 && |skb| > m
    ensures var tail := Frag(seqno, no, total, skb[|skb| - m..]);
            && Cut(skb, m, no, seqno, total).0 ==
                 (no + 1 < MAX_FRAGMENTS - 1 && Cut(skb[..|skb| - m], m, no + 1, seqno, total).0)
            && sent + Cut(skb, m, no, seqno, total).1 ==
                 sent + [tail] +
                 if no + 1 < MAX_FRAGMENTS - 1 then Cut(skb[..|skb| - m], m, no + 1, seqno, total).1 else []
  {
  }

  lemma CutEnd(skb: seq<byte>, m: nat, no: nat, seqno: u16, total: u16)
    requires no < MAX_FRAGMENTS - 1 && |skb| <= m
    ensures Cut(skb, m, no, seqno, total) == (true, [Frag(seqno, no, total, skb)])
  {
  }

  // batadv_frag_send_packet
  method SendPacket(packet: seq<byte>, mtu: u32, seqno: u16) returns (ok: bool, sent: seq<Frag>)
    ensures (ok, sent) == Send(packet, mtu, seqno)
  {
    hide Wrap, Wrap16, MaxFragment, Cut;
    ok, sent := false, [];
    var skb := packet;
    var maxFragmentSize := MaxFragment(mtu);
    if |skb| > Wrap(maxFragmentSize * MAX_FRAGMENTS) {
      return;
    }
    var total := Wrap16(|skb|);
    var no := 0;
    ghost var all := Cut(skb, maxFragmentSize, 0, seqno, total);
    assert sent + all.1 == all.1;
    while |skb| > maxFragmentSize
      invariant 0 <= no < MAX_FRAGMENTS - 1
      invariant !ok && all.0 == Cut(skb, maxFragmentSize, no, seqno, total).0
      invariant all.1 == sent + Cut(skb, maxFragmentSize, no, seqno, total).1
      decreases MAX_FRAGMENTS - no
    {
      hide Send;
      CutStep(skb, maxFragmentSize, no, seqno, total, sent);
      sent := sent + [Frag(seqno, no, total, skb[|skb| - maxFragmentSize..])];
      skb := skb[..|skb| - maxFragmentSize];
      no := no + 1;
      if no == MAX_FRAGMENTS - 1 {
        assert sent + [] == sent;
        assert (ok, sent) == all;
        return;
      }
    }
    CutEnd(skb, maxFragmentSize, no, seqno, total);
    sent := sent + [Frag(seqno, no, total, skb)];
    ok := true;
  }

  // ----- What sending means -----

  // The fragments put together, from the last one back to the first.
  ghost function Assemble(fs: seq<Frag>): seq<byte> {
    if fs == [] then [] else fs[|fs| - 1].data + Assemble(fs[..|fs| - 1])
  }

  // fs are the fragments of the packet: numbered from 0, none of them empty
  // (unless the packet is), and making up the packet from last to first.
  ghost predicate IsSplit(fs: seq<Frag>, packet: seq<byte>, seqno: u16) {
    && |fs| >= 1
    && |packet| < 0x1_0000
    && (forall k :: 0 <= k < |fs| ==> fs[k] == Frag(seqno, k, |packet|, fs[k].data))
    && (forall k :: 0 <= k < |fs| && packet != [] ==> fs[k].data != [])
    && (packet == [] ==> |fs| == 1)
    && Assemble(fs) == packet
  }

  lemma {:induction false} AssembleFirst(f: Frag, fs: seq<Frag>)
    ensures Assemble([f] + fs) == Assemble(fs) + f.data
  {
    if fs == [] {
      assert [f] + fs == [f];
      assert [f][..0] == [];
    } else {
      var init, last := fs[..|fs| - 1], fs[|fs| - 1];
      AssembleFirst(f, init);
      assert ([f] + fs)[..|fs|] == [f] + init && ([f] + fs)[|fs|] == last;
      assert Assemble([f] + fs) == last.data + Assemble([f] + init);
      hide Assemble;
      assert last.data + (Assemble(init) + f.data) == (last.data + Assemble(init)) + f.data;
    }
  }

  // Fragments without payload never complete a packet.
  lemma {:induction false} CutNeedsPayload(skb: seq<byte>, m: nat, no: nat, seqno: u16, total: u16)
    requires no < MAX_FRAGMENTS - 1
    ensures Cut(skb, m, no, seqno, total).0 && skb != [] ==> m > 0
    decreases MAX_FRAGMENTS - no
  {
    if |skb| > m && no + 1 < MAX_FRAGMENTS - 1 {
      assert m == 0 ==> skb[..|skb| - m] == skb;
      CutNeedsPayload(skb[..|skb| - m], m, no + 1, seqno, total);
    }
  }

  lemma {:induction false} CutSplits(skb: seq<byte>, m: nat, no: nat, seqno: u16, total: u16)
    requires no < MAX_FRAGMENTS - 1 && Cut(skb, m, no, seqno, total).0
    ensures var fs := Cut(skb, m, no, seqno, total).1;
            && |fs| >= 1
            && (forall k :: 0 <= k < |fs| ==> fs[k] == Frag(seqno, no + k, total, fs[k].data))
            && (forall k :: 0 <= k < |fs| && skb != [] ==> fs[k].data != [])
            && (|skb| <= m ==> |fs| == 1)
            && Assemble(fs) == skb
    decreases MAX_FRAGMENTS - no
  {
    if |skb| <= m {
      assert [Frag(seqno, no, total, skb)][..0] == [];
    } else {
      CutNeedsPayload(skb, m, no, seqno, total);
      var rest := skb[..|skb| - m];
      var tail := Frag(seqno, no, total, skb[|skb| - m..]);
      CutSplits(rest, m, no + 1, seqno, total);
      AssembleFirst(tail, Cut(rest, m, no + 1, seqno, total).1);
    }
  }

  // Whenever a packet of at most SIZE_LIMIT bytes is reported sent, the
  // fragments are a split of it.
  lemma SendSplits(packet: seq<byte>, mtu: u32, seqno: u16)
    requires Send(packet, mtu, seqno).0 && |packet| <= SIZE_LIMIT
    ensures IsSplit(Send(packet, mtu, seqno).1, packet, seqno)
  {
    assert Wrap16(|packet|) == |packet|;
    CutSplits(packet, MaxFragment(mtu), 0, seqno, |packet|);
    hide Cut, Assemble, MaxFragment;
    var fs := Cut(packet, MaxFragment(mtu), 0, seqno, |packet|).1;
    assert Send(packet, mtu, seqno).1 == fs;
  }

  lemma {:induction false} CutSucceeds(skb: seq<byte>, m: nat, no: nat, seqno: u16, total: u16)
    requires no < MAX_FRAGMENTS - 1
    ensures Cut(skb, m, no, seqno, total).0 <==> |skb| <= (MAX_FRAGMENTS - 1 - no) * m
    decreases MAX_FRAGMENTS - no
  {
    if |skb| > m && no + 1 < MAX_FRAGMENTS - 1 {
      CutSucceeds(skb[..|skb| - m], m, no + 1, seqno, total);
      assert (MAX_FRAGMENTS - 1 - no) * m == (MAX_FRAGMENTS - 1 - (no + 1)) * m + m;
    } else if |skb| <= m {
      assert (MAX_FRAGMENTS - 1 - no) * m >= m;
    }
  }

  // The payload of a full fragment on an interface that can carry the header.
  function Payload(mtu: u32): nat
    requires mtu >= HEADER_SIZE
  {
    (if mtu < MAX_FRAG_SIZE then mtu else MAX_FRAG_SIZE) - HEADER_SIZE
  }

  // A packet is sent if and only if 15 fragments hold it: the 16 that the
  // first check admits are one too many.  What is sent never exceeds the
  // receiver's limit.  On an interface too small for the header the size
  // wraps, and any packet that can exist goes out as a single fragment.
  lemma SentExactly(packet: seq<byte>, mtu: u32, seqno: u16)
    ensures mtu >= HEADER_SIZE ==>
              && (Send(packet, mtu, seqno).0 <==> |packet| <= Payload(mtu) * (MAX_FRAGMENTS - 1))
              && (Send(packet, mtu, seqno).0 ==> |packet| <= SIZE_LIMIT)
    ensures mtu < HEADER_SIZE ==>
              (Send(packet, mtu, seqno).0 <==> |packet| <= TWO_TO_32 - MAX_FRAGMENTS * (HEADER_SIZE - mtu))
  {
    FragmentSize(mtu);
    CutSucceeds(packet, MaxFragment(mtu), 0, seqno, Wrap16(|packet|));
    hide Cut, MaxFragment, Wrap16, Wrap;
  }

  lemma FragmentSize(mtu: u32)
    ensures mtu >= HEADER_SIZE ==>
              MaxFragment(mtu) == Payload(mtu) && Wrap(MaxFragment(mtu) * MAX_FRAGMENTS) == Payload(mtu) * MAX_FRAGMENTS
    ensures mtu < HEADER_SIZE ==>
              && MaxFragment(mtu) == TWO_TO_32 - (HEADER_SIZE - mtu)
              && Wrap(MaxFragment(mtu) * MAX_FRAGMENTS) == TWO_TO_32 - MAX_FRAGMENTS * (HEADER_SIZE - mtu)
  {
  }

  lemma {:induction false} CutSizes(skb: seq<byte>, m: nat, no: nat, seqno: u16, total: u16, k: nat)
    requires no < MAX_FRAGMENTS - 1 && k < |Cut(skb, m, no, seqno, total).1|
    ensures var fs := Cut(skb, m, no, seqno, total).1;
            |fs[k].data| <= m && (k < |fs| - 1 ==> |fs[k].data| == m)
    decreases MAX_FRAGMENTS - no
  {
    if |skb| > m && no + 1 < MAX_FRAGMENTS - 1 && k > 0 {
      CutSizes(skb[..|skb| - m], m, no + 1, seqno, total, k - 1);
    }
  }

  // Every fragment that goes out fits the interface and the limit for
  // fragments, and none but the last has room left.
  lemma FragmentsFit(packet: seq<byte>, mtu: u32, seqno: u16, k: nat)
    requires mtu >= HEADER_SIZE && k < |Send(packet, mtu, seqno).1|
    ensures var fs := Send(packet, mtu, seqno).1;
            && HEADER_SIZE + |fs[k].data| <= mtu && HEADER_SIZE + |fs[k].data| <= MAX_FRAG_SIZE
            && (k < |fs| - 1 ==> HEADER_SIZE + |fs[k].data| == mtu || HEADER_SIZE + |fs[k].data| == MAX_FRAG_SIZE)
  {
    FragmentSize(mtu);
    CutSizes(packet, MaxFragment(mtu), 0, seqno, Wrap16(|packet|), k);
    hide Cut, MaxFragment, Wrap16, Wrap;
  }

  // One byte more than 15 fragments hold.
  lemma SixteenthIsNeverSent(seqno: u16)
    ensures var packet: seq<byte> := seq((MAX_FRAGMENTS - 1) * (MAX_FRAG_SIZE - HEADER_SIZE) + 1, _ => 0);
            |packet| <= Wrap(MaxFragment(MAX_FRAG_SIZE) * MAX_FRAGMENTS) && !Send(packet, MAX_FRAG_SIZE, seqno).0
  {
    var packet: seq<byte> := seq((MAX_FRAGMENTS - 1) * (MAX_FRAG_SIZE - HEADER_SIZE) + 1, _ => 0);
    SentExactly(packet, MAX_FRAG_SIZE, seqno);
    FragmentSize(MAX_FRAG_SIZE);
    hide Send, Wrap, MaxFragment;
  }

  // ----- Receiving: the steps on values -----

  // One bucket of the fragment table; entries from the highest number down.
  datatype Chain = Chain(entries: seq<Frag>, seqno: u16, size: u16, totalSize: u16)

  datatype Outcome = Dropped | Buffered | Merged(packet: seq<byte>)

  // The chain with the fragment in its place, or None if its number is there.
  function InsertSorted(es: seq<Frag>, f: Frag): Option<seq<Frag>> {
    if es == [] then Some([f])
    else if es[0].no == f.no then None
    else if es[0].no < f.no then Some([f] + es)
    else
      match InsertSorted(es[1..], f)
      case None => None
      case Some(rest) => Some([es[0]] + rest)
  }

  // The checks after an insertion: clear an impossible chain, hand over a
  // complete one.
  function Settle(c: Chain, f: Frag): (Chain, seq<Frag>) {
    if c.size > SIZE_LIMIT || c.totalSize != f.totalSize || c.totalSize > SIZE_LIMIT then
      (c.(entries := [], size := 0), [])
    else if f.totalSize == c.size then (c.(entries := [], size := 0), c.entries)
    else (c, [])
  }

  // batadv_frag_insert_packet: the bucket, whether the fragment was kept, and
  // the complete chain if there is one.
  function Insert(c: Chain, f: Frag): (Chain, bool, seq<Frag>) {
    if c.seqno != f.seqno then
      var (c', done) := Settle(Chain([f], f.seqno, Wrap16(|f.data|), f.totalSize), f);
      (c', true, done)
    else if c.entries == [] then
      var (c', done) := Settle(c, f);
      (c', false, done)
    else
      match InsertSorted(c.entries, f)
      case None => (c, false, [])
      case Some(es) =>
        var (c', done) := Settle(c.(entries := es, size := Wrap16(c.size + |f.data|)), f);
        (c', true, done)
  }

  // batadv_frag_merge_packets
  function Merge(es: seq<Frag>): seq<byte> {
    if es == [] then [] else es[0].data + Merge(es[1..])
  }

  // batadv_frag_skb_buffer on the bucket of the fragment
  function Buffer(c: Chain, f: Frag): (Chain, Outcome) {
    var (c', kept, done) := Insert(c, f);
    (c', if !kept then Dropped else if done == [] then Buffered else Merged(Merge(done)))
  }

  type Table = t: seq<Chain> | |t| == BUFFER_COUNT witness seq(BUFFER_COUNT, _ => Chain([], 0, 0, 0))

  function Deliver(t: Table, f: Frag): (Table, Outcome) {
    var b := f.seqno % BUFFER_COUNT;
    var (c, outcome) := Buffer(t[b], f);
    (t[b := c], outcome)
  }

  // The position InsertSorted finds, past all higher numbers.
  lemma {:induction false} InsertBehind(es: seq<Frag>, f: Frag, i: nat)
    requires i <= |es| && forall j :: 0 <= j < i ==> es[j].no > f.no
    requires i < |es| ==> es[i].no <= f.no
    ensures InsertSorted(es, f) ==
            if i < |es| && es[i].no == f.no then None else Some(es[..i] + [f] + es[i..])
  {
    if i > 0 {
      InsertBehind(es[1..], f, i - 1);
      if !(i < |es| && es[i].no == f.no) {
        assert [es[0]] + (es[1..][..i - 1] + [f] + es[1..][i - 1..]) == es[..i] + [f] + es[i..];
      }
    } else {
      assert es[..0] + [f] + es[0..] == [f] + es;
      assert es == [] ==> [f] + es == [f];
    }
  }

  // ----- Receiving: the buckets in place -----

  class OrigNode {
    const fragments: array<Chain>

    ghost predicate Valid()
    {
      fragments.Length == BUFFER_COUNT
    }

    constructor ()
      ensures Valid() && fresh(fragments)
      ensures fragments[..] == seq(BUFFER_COUNT, _ => Chain([], 0, 0, 0))
    {
      fragments := new Chain[BUFFER_COUNT](i => Chain([], 0, 0, 0));
    }

    // batadv_frag_init_chain
    method InitChain(bucket: nat, seqno: u16) returns (empty: bool)
      requires Valid() && bucket < BUFFER_COUNT
      modifies fragments
      ensures empty <==> old(fragments[bucket]).seqno != seqno
      ensures fragments[..] == old(fragments[..])[bucket :=
                if empty then old(fragments[bucket]).(entries := [], size := 0, seqno := seqno)
                else old(fragments[bucket])]
    {
      if fragments[bucket].seqno == seqno {
        return false;
      }
      fragments[bucket] := fragments[bucket].(entries := [], size := 0, seqno := seqno);
      return true;
    }

    // batadv_frag_insert_packet
    method InsertPacket(f: Frag) returns (ret: bool, chainOut: seq<Frag>)
      requires Valid()
      modifies fragments
      ensures var b := f.seqno % BUFFER_COUNT;
              var (c, kept, done) := Insert(old(fragments[b]), f);
              fragments[..] == old(fragments[..])[b := c] && ret == kept && chainOut == done
    {
      hide InsertSorted, Wrap16;
      var bucket := f.seqno % BUFFER_COUNT;
      ret, chainOut := false, [];
      var fresh' := InitChain(bucket, f.seqno);
      var chain := fragments[bucket];
      if fresh' {
        chain := Chain([f], f.seqno, Wrap16(|f.data|), f.totalSize);
        ret := true;
      } else {
        // find the position for the new fragment
        var i := 0;
        while i < |chain.entries| && chain.entries[i].no > f.no
          invariant 0 <= i <= |chain.entries|
          invariant forall j :: 0 <= j < i ==> chain.entries[j].no > f.no
        {
          i := i + 1;
        }
        InsertBehind(chain.entries, f, i);
        if i < |chain.entries| && chain.entries[i].no == f.no {
          return;
        }
        if chain.entries != [] {
          chain := chain.(entries := chain.entries[..i] + [f] + chain.entries[i..],
                          size := Wrap16(chain.size + |f.data|));
          ret := true;
        }
      }
      if chain.size > SIZE_LIMIT || chain.totalSize != f.totalSize || chain.totalSize > SIZE_LIMIT {
        chain := chain.(entries := [], size := 0);
      } else if f.totalSize == chain.size {
        chainOut := chain.entries;
        chain := chain.(entries := [], size := 0);
      }
      assert (chain, ret, chainOut) == Insert(old(fragments[bucket]), f);
      hide Insert;
      fragments[bucket] := chain;
    }

    // batadv_frag_skb_buffer
    method SkbBuffer(f: Frag) returns (outcome: Outcome)
      requires Valid()
      modifies fragments
      ensures (fragments[..], outcome) == Deliver(old(fragments[..]), f)
    {
      var ret, head := InsertPacket(f);
      if !ret {
        return Dropped;
      }
      if head == [] {
        return Buffered;
      }
      var packet := MergePackets(head);
      return Merged(packet);
    }
  }

  // batadv_frag_merge_packets: append the payloads in chain order.
  method MergePackets(chain: seq<Frag>) returns (packet: seq<byte>)
    requires chain != []
    ensures packet == Merge(chain)
  {
    packet := chain[0].data;
    var i := 1;
    while i < |chain|
      invariant 1 <= i <= |chain|
      invariant packet + Merge(chain[i..]) == Merge(chain)
    {
      assert chain[i..][1..] == chain[i + 1..];
      packet := packet + chain[i].data;
      i := i + 1;
    }
  }

  // ----- The round trip -----

  // The fragments of fs with a number below n that are in s, highest first.
  ghost function Descending(fs: seq<Frag>, n: nat, s: set<nat>): seq<Frag>
    requires n <= |fs|
  {
    if n == 0 then []
    else (if n - 1 in s then [fs[n - 1]] else []) + Descending(fs, n - 1, s)
  }

  ghost predicate Numbered(fs: seq<Frag>) {
    forall k :: 0 <= k < |fs| ==> fs[k].no == k
  }

  lemma {:induction false} DescendingBelow(fs: seq<Frag>, n: nat, s: set<nat>, k: nat)
    requires Numbered(fs) && n <= |fs| && k < |Descending(fs, n, s)|
    ensures Descending(fs, n, s)[k].no < n
  {
    if n - 1 in s {
      if k > 0 {
        DescendingBelow(fs, n - 1, s, k - 1);
      }
    } else {
      DescendingBelow(fs, n - 1, s, k);
    }
  }

  lemma InsertTop(es: seq<Frag>, f: Frag)
    requires es != [] ==> es[0].no < f.no
    ensures InsertSorted(es, f) == Some([f] + es)
    ensures InsertSorted([f] + es, f) == None
  {
    if es == [] {
      assert [f] + es == [f];
    }
  }

  lemma InsertUnder(top: Frag, es: seq<Frag>, f: Frag)
    requires top.no > f.no
    ensures InsertSorted([top] + es, f) ==
            match InsertSorted(es, f)
            case None => None
            case Some(rest) => Some([top] + rest)
  {
  }

  lemma DescendingTop(fs: seq<Frag>, n: nat, s: set<nat>)
    requires 0 < n <= |fs|
    ensures Descending(fs, n, s) ==
            if n - 1 in s then [fs[n - 1]] + Descending(fs, n - 1, s) else Descending(fs, n - 1, s)
  {
  }

  // Insertion keeps the chain sorted, and refuses exactly what is there.
  lemma {:induction false} InsertDescending(fs: seq<Frag>, n: nat, s: set<nat>, k: nat)
    requires Numbered(fs) && k < n <= |fs|
    ensures InsertSorted(Descending(fs, n, s), fs[k]) ==
            if k in s then None else Some(Descending(fs, n, s + {k}))
  {
    DescendingTop(fs, n, s);
    DescendingTop(fs, n, s + {k});
    hide Descending, InsertSorted;
    var below := Descending(fs, n - 1, s);
    if k == n - 1 {
      DescendingIgnores(fs, n - 1, s, k);
      if below != [] {
        DescendingBelow(fs, n - 1, s, 0);
      }
      InsertTop(below, fs[k]);
    } else {
      InsertDescending(fs, n - 1, s, k);
      if n - 1 in s {
        InsertUnder(fs[n - 1], below, fs[k]);
      }
    }
  }

  // Numbers not below n do not matter.
  lemma {:induction false} DescendingIgnores(fs: seq<Frag>, n: nat, s: set<nat>, k: nat)
    requires n <= |fs| && n <= k
    ensures Descending(fs, n, s + {k}) == Descending(fs, n, s)
  {
    if n > 0 {
      DescendingIgnores(fs, n - 1, s, k);
    }
  }

  // Merging puts the highest fragment first.
  lemma MergeTop(fs: seq<Frag>, n: nat, s: set<nat>)
    requires 0 < n <= |fs|
    ensures Merge(Descending(fs, n, s)) ==
            (if n - 1 in s then fs[n - 1].data else []) + Merge(Descending(fs, n - 1, s))
  {
    var below := Descending(fs, n - 1, s);
    if n - 1 in s {
      assert Descending(fs, n, s) == [fs[n - 1]] + below && ([fs[n - 1]] + below)[1..] == below;
    } else {
      assert Descending(fs, n, s) == below;
    }
  }

  // With all fragments present, merging the chain gives the packet.
  lemma {:induction false} MergeComplete(fs: seq<Frag>, n: nat, s: set<nat>)
    requires n <= |fs| && forall k :: 0 <= k < n ==> k in s
    ensures Merge(Descending(fs, n, s)) == Assemble(fs[..n])
  {
    if n > 0 {
      MergeComplete(fs, n - 1, s);
      MergeTop(fs, n, s);
      assert fs[..n][..n - 1] == fs[..n - 1];
    }
  }

  // With one missing, the chain is shorter than the packet.
  lemma {:induction false} MergeIncomplete(fs: seq<Frag>, n: nat, s: set<nat>)
    requires n <= |fs| && forall k :: 0 <= k < n ==> fs[k].data != []
    ensures |Merge(Descending(fs, n, s))| <= |Assemble(fs[..n])|
    ensures (exists k :: 0 <= k < n && k !in s) ==> |Merge(Descending(fs, n, s))| < |Assemble(fs[..n])|
  {
    if n > 0 {
      MergeIncomplete(fs, n - 1, s);
      MergeTop(fs, n, s);
      assert fs[..n][..n - 1] == fs[..n - 1];
    }
  }

  lemma {:induction false} MergeAdd(fs: seq<Frag>, n: nat, s: set<nat>, k: nat)
    requires n <= |fs| && k < n && k !in s
    ensures |Merge(Descending(fs, n, s + {k}))| == |Merge(Descending(fs, n, s))| + |fs[k].data|
  {
    MergeTop(fs, n, s);
    MergeTop(fs, n, s + {k});
    if k == n - 1 {
      DescendingIgnores(fs, n - 1, s, k);
    } else {
      MergeAdd(fs, n - 1, s, k);
    }
  }

  ghost predicate Complete(fs: seq<Frag>, s: set<nat>) {
    forall k :: 0 <= k < |fs| ==> k in s
  }

  // The bucket when exactly the fragments in s have arrived, s not empty.
  ghost predicate Holds(c: Chain, fs: seq<Frag>, packet: seq<byte>, seqno: u16, s: set<nat>) {
    && c.seqno == seqno
    && if Complete(fs, s) then c.entries == [] && c.size == 0 && c.totalSize == |packet|
       else && c.totalSize == |packet|
            && c.entries == Descending(fs, |fs|, s)
            && c.entries != []
            && c.size == |Merge(c.entries)| < |packet|
  }

  lemma {:induction false} DescendingHas(fs: seq<Frag>, n: nat, s: set<nat>, k: nat)
    requires n <= |fs| && k < n && k in s
    ensures Descending(fs, n, s) != []
  {
    if k < n - 1 {
      DescendingHas(fs, n - 1, s, k);
    }
  }

  // The first fragment to arrive.
  lemma FirstArrival(c: Chain, fs: seq<Frag>, packet: seq<byte>, seqno: u16, k: nat)
    requires IsSplit(fs, packet, seqno) && |packet| <= SIZE_LIMIT && c.seqno != seqno && k < |fs|
    ensures var (c', outcome) := Buffer(c, fs[k]);
            && Holds(c', fs, packet, seqno, {k})
            && outcome == if Complete(fs, {k}) then Merged(packet) else Buffered
  {
    var f := fs[k];
    MergeOne(f);
    OnlyOne(fs, |fs|, k);
    hide InsertSorted;
    if Complete(fs, {k}) {
      MergeComplete(fs, |fs|, {k});
      assert fs[..|fs|] == fs;
    } else {
      MissingOne(fs, packet, seqno, {k});
    }
    hide Merge, Descending, Assemble;
  }

  lemma MergeOne(f: Frag)
    ensures Merge([f]) == f.data
  {
    assert [f][1..] == [];
  }

  lemma {:induction false} OnlyOne(fs: seq<Frag>, n: nat, k: nat)
    requires n <= |fs|
    ensures Descending(fs, n, {k}) == if k < n then [fs[k]] else []
  {
    if n > 0 {
      OnlyOne(fs, n - 1, k);
    }
  }

  lemma MissingOne(fs: seq<Frag>, packet: seq<byte>, seqno: u16, s: set<nat>)
    requires IsSplit(fs, packet, seqno) && !Complete(fs, s) && s != {} && forall k :: k in s ==> k < |fs|
    ensures |Merge(Descending(fs, |fs|, s))| < |packet|
  {
    var k :| k in s;
    assert fs[..|fs|] == fs;
    assert |fs| > 1;
    MergeIncomplete(fs, |fs|, s);
  }

  // A repeated fragment changes nothing.
  lemma RepeatedArrival(c: Chain, fs: seq<Frag>, packet: seq<byte>, seqno: u16, s: set<nat>, k: nat)
    requires IsSplit(fs, packet, seqno) && |packet| <= SIZE_LIMIT && k < |fs| && k in s
    requires Holds(c, fs, packet, seqno, s)
    ensures Holds(Buffer(c, fs[k]).0, fs, packet, seqno, s) && Buffer(c, fs[k]).1 == Dropped
  {
    hide Merge, Descending, InsertSorted, Assemble;
    if !Complete(fs, s) {
      InsertDescending(fs, |fs|, s, k);
    }
  }

  // A further fragment.
  lemma FurtherArrival(c: Chain, fs: seq<Frag>, packet: seq<byte>, seqno: u16, s: set<nat>, k: nat)
    requires IsSplit(fs, packet, seqno) && |packet| <= SIZE_LIMIT && k < |fs| && k !in s
    requires s != {} && (forall j :: j in s ==> j < |fs|) && Holds(c, fs, packet, seqno, s)
    ensures var (c', outcome) := Buffer(c, fs[k]);
            && Holds(c', fs, packet, seqno, s + {k})
            && outcome == if Complete(fs, s + {k}) then Merged(packet) else Buffered
  {
    hide Merge, Descending, InsertSorted, Assemble;
    assert !Complete(fs, s);
    var es := Descending(fs, |fs|, s + {k});
    InsertDescending(fs, |fs|, s, k);
    assert InsertSorted(c.entries, fs[k]) == Some(es);
    MergeAdd(fs, |fs|, s, k);
    DescendingHas(fs, |fs|, s + {k}, k);
    if Complete(fs, s + {k}) {
      MergeComplete(fs, |fs|, s + {k});
      assert fs[..|fs|] == fs;
      assert Merge(es) == packet;
    } else {
      MissingOne(fs, packet, seqno, s + {k});
    }
    hide Complete;
    assert Wrap16(c.size + |fs[k].data|) == |Merge(es)|;
  }

  // Every later fragment.
  lemma LaterArrival(c: Chain, fs: seq<Frag>, packet: seq<byte>, seqno: u16, s: set<nat>, k: nat)
    requires IsSplit(fs, packet, seqno) && |packet| <= SIZE_LIMIT && k < |fs|
    requires s != {} && (forall j :: j in s ==> j < |fs|) && Holds(c, fs, packet, seqno, s)
    ensures var (c', outcome) := Buffer(c, fs[k]);
            && Holds(c', fs, packet, seqno, s + {k})
            && outcome == if k in s then Dropped else if Complete(fs, s + {k}) then Merged(packet) else Buffered
  {
    hide IsSplit, Holds, Buffer;
    if k in s {
      assert s + {k} == s;
      RepeatedArrival(c, fs, packet, seqno, s, k);
    } else {
      FurtherArrival(c, fs, packet, seqno, s, k);
    }
  }

  // ----- Runs -----

  ghost function After(t: Table, arrivals: seq<Frag>): Table {
    if arrivals == [] then t else Deliver(After(t, arrivals[..|arrivals| - 1]), arrivals[|arrivals| - 1]).0
  }

  // The packets handed up from bucket b, in order.
  ghost function HandedUp(t: Table, arrivals: seq<Frag>, b: nat): seq<seq<byte>> {
    if arrivals == [] then []
    else
      var earlier := arrivals[..|arrivals| - 1];
      var f := arrivals[|arrivals| - 1];
      var outcome := Deliver(After(t, earlier), f).1;
      HandedUp(t, earlier, b) + if f.seqno % BUFFER_COUNT == b && outcome.Merged? then [outcome.packet] else []
  }

  // The numbers of the fragments that have arrived.
  ghost function Arrived(fs: seq<Frag>, arrivals: seq<Frag>): set<nat> {
    set k | 0 <= k < |fs| && fs[k] in arrivals
  }

  // The arrivals are fragments of the packet, in any order and any number of
  // times, mixed with any fragments that belong to other buckets.
  ghost predicate Traffic(arrivals: seq<Frag>, fs: seq<Frag>, seqno: u16) {
    forall f :: f in arrivals ==> f in fs || f.seqno % BUFFER_COUNT != seqno % BUFFER_COUNT
  }

  lemma ArrivedAdd(fs: seq<Frag>, earlier: seq<Frag>, k: nat)
    requires Numbered(fs) && k < |fs|
    ensures Arrived(fs, earlier + [fs[k]]) == Arrived(fs, earlier) + {k}
  {
  }

  // Where a bucket stands when the fragments in s have arrived.
  ghost predicate Stands(before: Chain, c: Chain, fs: seq<Frag>, packet: seq<byte>, seqno: u16, s: set<nat>) {
    if s == {} then c == before else Holds(c, fs, packet, seqno, s)
  }

  lemma ArrivalStep(before: Chain, c: Chain, fs: seq<Frag>, packet: seq<byte>, seqno: u16, s: set<nat>, k: nat)
    requires IsSplit(fs, packet, seqno) && |packet| <= SIZE_LIMIT && k < |fs|
    requires s == {} ==> before.seqno != seqno
    requires (forall j :: j in s ==> j < |fs|) && Stands(before, c, fs, packet, seqno, s)
    ensures var (c', outcome) := Buffer(c, fs[k]);
            && Stands(before, c', fs, packet, seqno, s + {k})
            && (if outcome.Merged? then [outcome.packet] else []) ==
               if k !in s && Complete(fs, s + {k}) then [packet] else []
  {
    hide Buffer, Holds, IsSplit;
    if s == {} {
      assert s + {k} == {k};
      FirstArrival(c, fs, packet, seqno, k);
    } else {
      LaterArrival(c, fs, packet, seqno, s, k);
    }
  }

  // held: the fragments that the bucket held before the first arrival.
  ghost predicate StartsWith(c: Chain, fs: seq<Frag>, packet: seq<byte>, seqno: u16, held: set<nat>) {
    if held == {} then c.seqno != seqno
    else (forall k :: k in held ==> k < |fs|) && !Complete(fs, held) && Holds(c, fs, packet, seqno, held)
  }

  // What one arrival does to the run: nothing in other buckets, one step in
  // its own.
  lemma RunStep(t: Table, earlier: seq<Frag>, f: Frag, b: nat)
    requires b < BUFFER_COUNT
    ensures var c := After(t, earlier)[b];
            if f.seqno % BUFFER_COUNT != b
            then After(t, earlier + [f])[b] == c && HandedUp(t, earlier + [f], b) == HandedUp(t, earlier, b)
            else var (c', outcome) := Buffer(c, f);
                 && After(t, earlier + [f])[b] == c'
                 && HandedUp(t, earlier + [f], b) ==
                      HandedUp(t, earlier, b) + if outcome.Merged? then [outcome.packet] else []
  {
    hide Buffer;
    assert (earlier + [f])[..|earlier|] == earlier;
  }

  lemma ArrivedSkip(fs: seq<Frag>, earlier: seq<Frag>, f: Frag)
    requires f !in fs
    ensures Arrived(fs, earlier + [f]) == Arrived(fs, earlier)
  {
  }

  // Where the run stands after the arrivals.
  ghost predicate RunStands(t: Table, fs: seq<Frag>, packet: seq<byte>, seqno: u16, held: set<nat>,
                            arrivals: seq<Frag>)
  {
    var b, s := seqno % BUFFER_COUNT, held + Arrived(fs, arrivals);
    && Stands(t[b], After(t, arrivals)[b], fs, packet, seqno, s)
    && HandedUp(t, arrivals, b) == if Complete(fs, s) then [packet] else []
  }

  lemma OtherArrival(t: Table, fs: seq<Frag>, packet: seq<byte>, seqno: u16, held: set<nat>, earlier: seq<Frag>,
                     f: Frag)
    requires RunStands(t, fs, packet, seqno, held, earlier)
    requires f !in fs && f.seqno % BUFFER_COUNT != seqno % BUFFER_COUNT
    ensures RunStands(t, fs, packet, seqno, held, earlier + [f])
  {
    hide Buffer, Stands, After, HandedUp, Arrived, Complete;
    RunStep(t, earlier, f, seqno % BUFFER_COUNT);
    ArrivedSkip(fs, earlier, f);
  }

  lemma SplitNumbered(fs: seq<Frag>, packet: seq<byte>, seqno: u16)
    requires IsSplit(fs, packet, seqno)
    ensures Numbered(fs) && forall k :: 0 <= k < |fs| ==> fs[k].seqno == seqno
  {
  }

  lemma ArrivedBelow(fs: seq<Frag>, arrivals: seq<Frag>)
    ensures forall j :: j in Arrived(fs, arrivals) ==> j < |fs|
  {
  }

  lemma OwnArrival(t: Table, fs: seq<Frag>, packet: seq<byte>, seqno: u16, held: set<nat>, earlier: seq<Frag>, k: nat)
    requires IsSplit(fs, packet, seqno) && |packet| <= SIZE_LIMIT && k < |fs|
    requires forall j :: j in held ==> j < |fs|
    requires held == {} ==> t[seqno % BUFFER_COUNT].seqno != seqno
    requires RunStands(t, fs, packet, seqno, held, earlier)
    ensures RunStands(t, fs, packet, seqno, held, earlier + [fs[k]])
  {
    hide Buffer, Stands, After, HandedUp, IsSplit, Arrived;
    var b, s := seqno % BUFFER_COUNT, held + Arrived(fs, earlier);
    SplitNumbered(fs, packet, seqno);
    ArrivedBelow(fs, earlier);
    RunStep(t, earlier, fs[k], b);
    ArrivedAdd(fs, earlier, k);
    assert held + (Arrived(fs, earlier) + {k}) == s + {k};
    ArrivalStep(t[b], After(t, earlier)[b], fs, packet, seqno, s, k);
    if k in s {
      assert s + {k} == s;
    } else {
      assert !Complete(fs, s);
    }
  }

  lemma NoArrival(t: Table, fs: seq<Frag>, packet: seq<byte>, seqno: u16, held: set<nat>)
    requires |fs| >= 1 && StartsWith(t[seqno % BUFFER_COUNT], fs, packet, seqno, held)
    ensures RunStands(t, fs, packet, seqno, held, [])
  {
    hide Holds;
    assert Arrived(fs, []) == {} && held + {} == held;
    assert 0 !in Arrived(fs, []);
  }

  lemma {:induction false} RunHolds(t: Table, fs: seq<Frag>, packet: seq<byte>, seqno: u16, held: set<nat>,
                                    arrivals: seq<Frag>)
    requires IsSplit(fs, packet, seqno) && |packet| <= SIZE_LIMIT
    requires StartsWith(t[seqno % BUFFER_COUNT], fs, packet, seqno, held) && Traffic(arrivals, fs, seqno)
    ensures RunStands(t, fs, packet, seqno, held, arrivals)
  {
    assert |fs| >= 1;
    hide IsSplit, RunStands, Complete, Holds;
    if arrivals == [] {
      NoArrival(t, fs, packet, seqno, held);
    } else {
      var earlier, f := arrivals[..|arrivals| - 1], arrivals[|arrivals| - 1];
      assert arrivals == earlier + [f] && f in arrivals;
      RunHolds(t, fs, packet, seqno, held, earlier);
      if f in fs {
        var k :| 0 <= k < |fs| && fs[k] == f;
        OwnArrival(t, fs, packet, seqno, held, earlier, k);
      } else {
        OtherArrival(t, fs, packet, seqno, held, earlier, f);
      }
    }
  }

  lemma HeldOrArrived(fs: seq<Frag>, held: set<nat>, arrivals: seq<Frag>)
    ensures Complete(fs, held + Arrived(fs, arrivals)) <==>
            forall k :: 0 <= k < |fs| ==> k in held || fs[k] in arrivals
  {
    forall k | 0 <= k < |fs|
      ensures k in held + Arrived(fs, arrivals) <==> k in held || fs[k] in arrivals
    {
    }
  }

  lemma AllArrived(fs: seq<Frag>, arrivals: seq<Frag>)
    ensures Complete(fs, Arrived(fs, arrivals)) <==> forall f :: f in fs ==> f in arrivals
  {
    if Complete(fs, Arrived(fs, arrivals)) {
      forall f | f in fs
        ensures f in arrivals
      {
        var k :| 0 <= k < |fs| && fs[k] == f;
        assert k in Arrived(fs, arrivals);
      }
    }
    if forall f :: f in fs ==> f in arrivals {
      forall k | 0 <= k < |fs|
        ensures k in Arrived(fs, arrivals)
      {
        assert fs[k] in fs;
      }
    }
  }

  // The round trip.  Let a packet of at most SIZE_LIMIT bytes be reported sent,
  // and let its fragments arrive in any order, with any repetitions and any
  // losses, among fragments for other buckets, at a bucket that does not hold
  // its sequence number.  If every fragment arrives, exactly the packet is
  // handed up, once; if one is missing, nothing is.
  lemma RoundTrip(t: Table, packet: seq<byte>, mtu: u32, seqno: u16, arrivals: seq<Frag>)
    requires |packet| <= SIZE_LIMIT && Send(packet, mtu, seqno).0
    requires t[seqno % BUFFER_COUNT].seqno != seqno
    requires Traffic(arrivals, Send(packet, mtu, seqno).1, seqno)
    ensures HandedUp(t, arrivals, seqno % BUFFER_COUNT) ==
            if forall f :: f in Send(packet, mtu, seqno).1 ==> f in arrivals then [packet] else []
  {
    var fs := Send(packet, mtu, seqno).1;
    SendSplits(packet, mtu, seqno);
    hide Send, HandedUp, IsSplit;
    RunHolds(t, fs, packet, seqno, {}, arrivals);
    assert {} + Arrived(fs, arrivals) == Arrived(fs, arrivals);
    AllArrived(fs, arrivals);
  }

  // A bucket that already holds some of the fragments, but not all, goes on
  // from there.
  lemma ResumedRoundTrip(t: Table, packet: seq<byte>, mtu: u32, seqno: u16, held: set<nat>, arrivals: seq<Frag>)
    requires |packet| <= SIZE_LIMIT && Send(packet, mtu, seqno).0 && held != {}
    requires StartsWith(t[seqno % BUFFER_COUNT], Send(packet, mtu, seqno).1, packet, seqno, held)
    requires Traffic(arrivals, Send(packet, mtu, seqno).1, seqno)
    ensures var fs := Send(packet, mtu, seqno).1;
            HandedUp(t, arrivals, seqno % BUFFER_COUNT) ==
            if forall k :: 0 <= k < |fs| ==> k in held || fs[k] in arrivals then [packet] else []
  {
    var fs := Send(packet, mtu, seqno).1;
    SendSplits(packet, mtu, seqno);
    hide Send, HandedUp, IsSplit, StartsWith, Complete, Arrived;
    RunHolds(t, fs, packet, seqno, held, arrivals);
    HeldOrArrived(fs, held, arrivals);
  }

  // A bucket that already holds the sequence number, with no fragment waiting
  // or with fragments of a packet of another size, hands nothing up, whatever
  // arrives of the packet; so does a new table for sequence number 0.
  lemma {:induction false} HeldNumberIsRefused(t: Table, fs: seq<Frag>, packet: seq<byte>, seqno: u16,
                                               arrivals: seq<Frag>)
    requires IsSplit(fs, packet, seqno) && Traffic(arrivals, fs, seqno)
    requires Blocked(t[seqno % BUFFER_COUNT], packet, seqno)
    ensures Blocked(After(t, arrivals)[seqno % BUFFER_COUNT], packet, seqno)
    ensures HandedUp(t, arrivals, seqno % BUFFER_COUNT) == []
  {
    if arrivals != [] {
      var earlier, f := arrivals[..|arrivals| - 1], arrivals[|arrivals| - 1];
      assert f in arrivals;
      HeldNumberIsRefused(t, fs, packet, seqno, earlier);
    }
  }

  ghost predicate Blocked(c: Chain, packet: seq<byte>, seqno: u16) {
    c.seqno == seqno && (c.entries == [] || c.totalSize != |packet|)
  }

  // Unless fragments of a packet of the same number and size are waiting in
  // the bucket, the packet comes through exactly when the bucket's sequence
  // number is another one.
  lemma RoundTripExactly(t: Table, packet: seq<byte>, mtu: u32, seqno: u16, arrivals: seq<Frag>)
    requires |packet| <= SIZE_LIMIT && Send(packet, mtu, seqno).0
    requires var c := t[seqno % BUFFER_COUNT]; c.seqno != seqno || c.entries == [] || c.totalSize != |packet|
    requires Traffic(arrivals, Send(packet, mtu, seqno).1, seqno)
    requires forall f :: f in Send(packet, mtu, seqno).1 ==> f in arrivals
    ensures HandedUp(t, arrivals, seqno % BUFFER_COUNT) == [packet] <==> t[seqno % BUFFER_COUNT].seqno != seqno
  {
    if t[seqno % BUFFER_COUNT].seqno != seqno {
      RoundTrip(t, packet, mtu, seqno, arrivals);
    } else {
      SendSplits(packet, mtu, seqno);
      HeldNumberIsRefused(t, Send(packet, mtu, seqno).1, packet, seqno, arrivals);
    }
  }

  // ----- Any traffic -----

  // What holds of a bucket whatever arrives: the fragments are of one number
  // and one announced size, from the highest number down; the size is that of
  // their bytes in 16 bits; and the bucket never holds a whole packet, nor more
  // than the limit.
  ghost predicate BucketOk(c: Chain) {
    && (forall i :: 0 <= i < |c.entries| ==>
          c.entries[i].seqno == c.seqno && c.entries[i].totalSize == c.totalSize)
    && (forall i, j :: 0 <= i < j < |c.entries| ==> c.entries[i].no > c.entries[j].no)
    && c.size == Wrap16(|Merge(c.entries)|)
    && (c.entries != [] ==> c.size <= SIZE_LIMIT && c.totalSize <= SIZE_LIMIT && c.size != c.totalSize)
  }

  lemma {:induction false} InsertKeeps(es: seq<Frag>, f: Frag)
    requires forall i, j :: 0 <= i < j < |es| ==> es[i].no > es[j].no
    ensures InsertSorted(es, f).Some? ==>
              var r := InsertSorted(es, f).value;
              && (forall i, j :: 0 <= i < j < |r| ==> r[i].no > r[j].no)
              && (forall g :: g in r <==> g in es || g == f)
              && |Merge(r)| == |Merge(es)| + |f.data|
              && r != []
  {
    if es == [] || es[0].no <= f.no {
      MergeOne(f);
      assert ([f] + es)[1..] == es;
    } else {
      InsertKeeps(es[1..], f);
      match InsertSorted(es[1..], f)
      case None =>
      case Some(rest) =>
        assert ([es[0]] + rest)[1..] == rest;
        forall j | 0 <= j < |rest|
          ensures rest[j].no < es[0].no
        {
          assert rest[j] in es[1..] || rest[j] == f;
        }
    }
  }

  lemma AddSizes(a: nat, b: nat)
    ensures Wrap16(Wrap16(a) + b) == Wrap16(a + b)
  {
    assert a == a / 0x1_0000 * 0x1_0000 + a % 0x1_0000;
  }

  // The checks after an insertion keep the bucket in order, and what they hand
  // over has the size that was announced, in 16 bits.
  lemma SettleKeepsOk(c: Chain, f: Frag)
    requires forall i :: 0 <= i < |c.entries| ==>
               c.entries[i].seqno == c.seqno && (c.totalSize == f.totalSize ==> c.entries[i].totalSize == c.totalSize)
    requires forall i, j :: 0 <= i < j < |c.entries| ==> c.entries[i].no > c.entries[j].no
    requires c.size == Wrap16(|Merge(c.entries)|)
    ensures var (c', done) := Settle(c, f);
            && BucketOk(c')
            && (done != [] ==> Wrap16(|Merge(done)|) == f.totalSize <= SIZE_LIMIT)
  {
    assert Merge([]) == [];
    hide Merge;
  }

  lemma BufferKeepsOk(c: Chain, f: Frag)
    requires BucketOk(c)
    ensures var (c', outcome) := Buffer(c, f);
            && BucketOk(c')
            && (outcome.Merged? ==> Wrap16(|outcome.packet|) == f.totalSize <= SIZE_LIMIT)
  {
    hide Merge, Settle, InsertSorted, Wrap16;
    if c.seqno != f.seqno {
      MergeOne(f);
      SettleKeepsOk(Chain([f], f.seqno, Wrap16(|f.data|), f.totalSize), f);
    } else if c.entries == [] {
      SettleKeepsOk(c, f);
    } else if InsertSorted(c.entries, f).Some? {
      InsertKeeps(c.entries, f);
      AddSizes(|Merge(c.entries)|, |f.data|);
      var es := InsertSorted(c.entries, f).value;
      var c1 := c.(entries := es, size := Wrap16(c.size + |f.data|));
      forall i | 0 <= i < |es|
        ensures es[i].seqno == c.seqno && (c.totalSize == f.totalSize ==> es[i].totalSize == c.totalSize)
      {
        assert es[i] in c.entries || es[i] == f;
      }
      SettleKeepsOk(c1, f);
    }
  }

  const NEW_TABLE: Table := seq(BUFFER_COUNT, _ => Chain([], 0, 0, 0))

  // Over all runs, whatever fragments arrive, from whomever and of whatever
  // sizes, every bucket stays in order and within the limit.
  lemma {:induction false} BucketsStayInOrder(arrivals: seq<Frag>)
    ensures forall b :: 0 <= b < BUFFER_COUNT ==> BucketOk(After(NEW_TABLE, arrivals)[b])
  {
    if arrivals == [] {
      assert Merge([]) == [];
    } else {
      var f := arrivals[|arrivals| - 1];
      BucketsStayInOrder(arrivals[..|arrivals| - 1]);
      hide BucketOk, Buffer;
      BufferKeepsOk(After(NEW_TABLE, arrivals[..|arrivals| - 1])[f.seqno % BUFFER_COUNT], f);
    }
  }

  // Fragments so short that 16 bits keep track of what a bucket holds.
  ghost predicate AllShort(arrivals: seq<Frag>) {
    forall f :: f in arrivals ==> |f.data| < 0x1_0000 - SIZE_LIMIT
  }

  lemma SettleKeepsSize(c: Chain, f: Frag)
    requires c.size == Wrap16(|Merge(c.entries)|) && |Merge(c.entries)| < 0x1_0000
    ensures var (c', done) := Settle(c, f);
            && |Merge(c'.entries)| <= SIZE_LIMIT
            && (done != [] ==> |Merge(done)| == f.totalSize)
  {
    assert Merge([]) == [];
    assert c.size == |Merge(c.entries)|;
    hide Merge, Wrap16;
  }

  lemma BufferKeepsSize(c: Chain, f: Frag)
    requires BucketOk(c) && |Merge(c.entries)| <= SIZE_LIMIT && |f.data| < 0x1_0000 - SIZE_LIMIT
    ensures var (c', outcome) := Buffer(c, f);
            && |Merge(c'.entries)| <= SIZE_LIMIT
            && (outcome.Merged? ==> |outcome.packet| == f.totalSize)
  {
    hide Merge, InsertSorted, Settle, Wrap16;
    if c.seqno != f.seqno {
      MergeOne(f);
      SettleKeepsSize(Chain([f], f.seqno, Wrap16(|f.data|), f.totalSize), f);
    } else if c.entries == [] {
      SettleKeepsSize(c, f);
    } else if InsertSorted(c.entries, f).Some? {
      InsertKeeps(c.entries, f);
      AddSizes(|Merge(c.entries)|, |f.data|);
      var es := InsertSorted(c.entries, f).value;
      SettleKeepsSize(c.(entries := es, size := Wrap16(c.size + |f.data|)), f);
    }
  }

  // What is handed up has exactly the size its last fragment announced, and
  // no bucket holds more bytes than the limit.
  lemma {:induction false} HandedUpHasSize(arrivals: seq<Frag>, f: Frag)
    requires AllShort(arrivals + [f])
    ensures forall b :: 0 <= b < BUFFER_COUNT ==> |Merge(After(NEW_TABLE, arrivals)[b].entries)| <= SIZE_LIMIT
    ensures var outcome := Deliver(After(NEW_TABLE, arrivals), f).1;
            outcome.Merged? ==> |outcome.packet| == f.totalSize
    decreases |arrivals|
  {
    var t := After(NEW_TABLE, arrivals);
    BucketsStayInOrder(arrivals);
    hide Buffer, BucketOk;
    if arrivals == [] {
      assert Merge([]) == [];
    } else {
      var earlier, last := arrivals[..|arrivals| - 1], arrivals[|arrivals| - 1];
      assert arrivals == earlier + [last];
      HandedUpHasSize(earlier, last);
      BucketsStayInOrder(earlier);
      BufferKeepsSize(After(NEW_TABLE, earlier)[last.seqno % BUFFER_COUNT], last);
    }
    assert f in arrivals + [f];
    BufferKeepsSize(t[f.seqno % BUFFER_COUNT], f);
  }
}

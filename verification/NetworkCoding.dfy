// Network coding: two unicast packets XORed into one, in the buffer of the
// longer of the two, and decoded by two different receivers
// (network-coding.c).  Packets are byte sequences; the coded header is laid
// over the buffer in place, as in the source.

module NetworkCoding {
  import opened Wire
  import opened Wrappers

  const UNICAST_SIZE := 10    // sizeof(struct batadv_unicast_packet)
  const CODED_SIZE := 46      // sizeof(struct batadv_coded_packet)
  const HEADER_ADD := CODED_SIZE - UNICAST_SIZE

  const UNICAST: byte := 0x40  // BATADV_UNICAST
  const CODED: byte := 0x02    // BATADV_CODED
  const COMPAT_VERSION: byte := 15

  type Mac = s: Bytes | |s| == 6 witness [0, 0, 0, 0, 0, 0]
  type Crc = s: Bytes | |s| == 4 witness [0, 0, 0, 0]

  // What the coder knows of a packet besides its bytes: the next hop, the
  // previous hop and the checksum of the payload.
  datatype Hop = Hop(dest: Mac, source: Mac, crc: Crc)

  // a and b differ bit by bit: exclusive or of their lowest n bits
  function XorBits(a: nat, b: nat, n: nat): (r: nat)
    ensures r < Pow2(n)
  {
    if n == 0 then 0
    else (if a % 2 != b % 2 then 1 else 0) + 2 * XorBits(a / 2, b / 2, n - 1)
  }

  function Pow2(n: nat): nat {
    if n == 0 then 1 else 2 * Pow2(n - 1)
  }

  function Mix(a: byte, b: byte): byte {
    assert Pow2(8) == 256;
    XorBits(a, b, 8)
  }

  lemma {:induction false} XorBitsTwice(a: nat, b: nat, n: nat)
    requires a < Pow2(n)
    ensures XorBits(XorBits(a, b, n), b, n) == a
    ensures XorBits(XorBits(b, a, n), b, n) == a
  {
    if n > 0 {
      XorBitsTwice(a / 2, b / 2, n - 1);
      var d := if a % 2 != b % 2 then 1 else 0;
      hide XorBits;
      LowBit(d, XorBits(a / 2, b / 2, n - 1));
      LowBit(d, XorBits(b / 2, a / 2, n - 1));
      XorStep(a, b, n);
      XorStep(b, a, n);
      XorStep(XorBits(a, b, n), b, n);
      XorStep(XorBits(b, a, n), b, n);
    }
  }

  lemma XorStep(a: nat, b: nat, n: nat)
    requires n > 0
    ensures XorBits(a, b, n) == (if a % 2 != b % 2 then 1 else 0) + 2 * XorBits(a / 2, b / 2, n - 1)
  {
  }

  lemma LowBit(d: nat, r: nat)
    requires d <= 1
    ensures (d + 2 * r) % 2 == d && (d + 2 * r) / 2 == r
  {
  }

  lemma MixTwice(a: byte, b: byte)
    ensures Mix(Mix(a, b), b) == a && Mix(Mix(b, a), b) == a
  {
    assert Pow2(8) == 256;
    XorBitsTwice(a, b, 8);
  }

  // ----- Bytes -----

  // s with t XORed in at off: batadv_nc_memxor
  function XorAt(s: Bytes, off: nat, t: Bytes): (r: Bytes)
    requires off + |t| <= |s|
    ensures |r| == |s|
    ensures forall i :: 0 <= i < |s| ==> r[i] == if off <= i < off + |t| then Mix(s[i], t[i - off]) else s[i]
    decreases |t|
  {
    if t == [] then s else XorAt(s[off := Mix(s[off], t[0])], off + 1, t[1..])
  }

  // ----- Unicast packets -----

  predicate IsPacket(p: Bytes) {
    |p| >= UNICAST_SIZE
  }

  function Ttl(p: Bytes): byte
    requires IsPacket(p)
  {
    p[2]
  }

  function Ttvn(p: Bytes): byte
    requires IsPacket(p)
  {
    p[3]
  }

  function Dest(p: Bytes): Mac
    requires IsPacket(p)
  {
    p[4..10]
  }

  function Payload(p: Bytes): Bytes
    requires IsPacket(p)
  {
    p[UNICAST_SIZE..]
  }

  // ----- Coding -----

  // The unicast packet is read where it lies: behind the new header in the
  // coded buffer, or in the other packet.
  function Read(buf: Bytes, src: Bytes, inDest: bool, off: nat, n: nat): (r: Bytes)
    requires |buf| >= CODED_SIZE && |src| >= UNICAST_SIZE && off + n <= UNICAST_SIZE
    ensures |r| == n
    ensures forall i :: 0 <= i < n ==> r[i] == if inDest then buf[HEADER_ADD + off + i] else src[off + i]
  {
    if inDest then buf[HEADER_ADD + off..HEADER_ADD + off + n] else src[off..off + n]
  }

  // The header fields about the first packet.
  function FirstInfo(buf: Bytes, src: Bytes, inDest: bool, first: Hop): (r: Bytes)
    requires |buf| >= CODED_SIZE && |src| >= UNICAST_SIZE
    ensures |r| == |buf|
  {
    var b1 := Put(Put(buf, 0, [CODED]), 1, [COMPAT_VERSION]);
    var b2 := Put(b1, 2, Read(b1, src, inDest, 2, 1));
    var b3 := Put(b2, 4, first.source);
    var b4 := Put(b3, 10, Read(b3, src, inDest, 4, 6));
    var b5 := Put(b4, 16, first.crc);
    Put(b5, 3, Read(b5, src, inDest, 3, 1))
  }

  // The header fields about the second packet: first its addresses ...
  function SecondAddresses(buf: Bytes, src: Bytes, inDest: bool, second: Hop): (r: Bytes)
    requires |buf| >= CODED_SIZE && |src| >= UNICAST_SIZE
    ensures |r| == |buf|
  {
    var b1 := Put(Put(buf, 22, second.dest), 28, second.source);
    var b2 := Put(b1, 34, Read(b1, src, inDest, 4, 6));
    Put(b2, 40, second.crc)
  }

  // ... then the rest.
  function SecondInfo(buf: Bytes, src: Bytes, inDest: bool, second: Hop, codingLen: nat): (r: Bytes)
    requires |buf| >= CODED_SIZE && |src| >= UNICAST_SIZE
    ensures |r| == |buf|
  {
    var b3 := SecondAddresses(buf, src, inDest, second);
    var b4 := Put(b3, 20, Read(b3, src, inDest, 2, 1));
    var b5 := Put(b4, 21, Read(b4, src, inDest, 3, 1));
    Put(b5, 44, BigEndian(codingLen))
  }

  // buf: the longer packet behind HEADER_ADD bytes of headroom; src: the other
  // packet; firstInDest: the first packet is the one in buf.
  function Code(buf: Bytes, src: Bytes, firstInDest: bool, first: Hop, second: Hop): (r: Bytes)
    requires |src| >= UNICAST_SIZE && |src| + HEADER_ADD <= |buf|
    ensures |r| == |buf|
  {
    var b := SecondInfo(FirstInfo(buf, src, firstInDest, first), src, !firstInDest, second, |src| - UNICAST_SIZE);
    XorAt(b, CODED_SIZE, src[UNICAST_SIZE..])
  }

  // ----- Decoding -----

  function CodingLen(coded: Bytes): nat
    requires |coded| >= CODED_SIZE
  {
    FromBigEndian(coded[44], coded[45])
  }

  // The buffers hold what the coded header announces.
  predicate Fits(coded: Bytes, other: Bytes) {
    && |coded| >= CODED_SIZE && |other| >= UNICAST_SIZE
    && UNICAST_SIZE + CodingLen(coded) <= |coded| - HEADER_ADD
    && UNICAST_SIZE + CodingLen(coded) <= |other|
  }

  // batadv_nc_skb_decode_packet: the unicast packet that this receiver gets
  // out of the coded one with the help of the other packet.
  function Decode(coded: Bytes, other: Bytes, amSecond: bool): Bytes
    requires Fits(coded, other)
  {
    if amSecond then UnicastHeader(Unmixed(coded, other), coded[20], coded[34..40], coded[21])
    else UnicastHeader(Unmixed(coded, other), coded[2], coded[10..16], coded[3])
  }

  // The buffer before its header is rewritten: the other payload XORed out,
  // and the packet trimmed if the other one is the longer.
  function Unmixed(coded: Bytes, other: Bytes): (r: Bytes)
    requires Fits(coded, other)
    ensures |r| == if |other| > UNICAST_SIZE + CodingLen(coded) then UNICAST_SIZE + CodingLen(coded)
                   else |coded| - HEADER_ADD
  {
    var n := UNICAST_SIZE + CodingLen(coded);
    var skb := XorAt(coded[HEADER_ADD..], UNICAST_SIZE, other[UNICAST_SIZE..n]);
    if |other| > n then skb[..n] else skb
  }

  // The fields of a unicast header, written over the first bytes.
  function UnicastHeader(skb: Bytes, ttl: byte, dest: Mac, ttvn: byte): (r: Bytes)
    requires |skb| >= UNICAST_SIZE
    ensures |r| == |skb|
  {
    Put(Put(Put(Put(Put(skb, 0, [UNICAST]), 1, [COMPAT_VERSION]), 2, [ttl]), 4, dest), 3, [ttvn])
  }

  // The choice in batadv_nc_find_decoding_packet: the previous hop and the
  // checksum by which the receiver finds the packet to decode with.
  function DecodingId(coded: Bytes, amSecond: bool): (Bytes, Bytes)
    requires |coded| >= CODED_SIZE
  {
    if !amSecond then (coded[28..34], coded[40..44]) else (coded[4..10], coded[16..20])
  }

  // ----- In place -----

  method Memxor(dst: array<byte>, dstOff: nat, src: array<byte>, srcOff: nat, len: nat)
    requires dst != src && dstOff + len <= dst.Length && srcOff + len <= src.Length
    modifies dst
    ensures dst[..] == XorAt(old(dst[..]), dstOff, src[srcOff..srcOff + len])
  {
    hide Mix;
    var i := 0;
    while i < len
      invariant 0 <= i <= len
      invariant forall j :: 0 <= j < dst.Length ==>
                  dst[j] == if dstOff <= j < dstOff + i then Mix(old(dst[j]), src[srcOff + (j - dstOff)])
                            else old(dst[j])
    {
      dst[dstOff + i] := Mix(dst[dstOff + i], src[srcOff + i]);
      i := i + 1;
    }
  }

  method WriteFirstInfo(dst: array<byte>, src: Bytes, inDest: bool, first: Hop)
    requires dst.Length >= CODED_SIZE && |src| >= UNICAST_SIZE
    modifies dst
    ensures dst[..] == FirstInfo(old(dst[..]), src, inDest, first)
  {
    WriteBytes(dst, 0, [CODED]);
    WriteBytes(dst, 1, [COMPAT_VERSION]);
    WriteBytes(dst, 2, Read(dst[..], src, inDest, 2, 1));
    WriteBytes(dst, 4, first.source);
    WriteBytes(dst, 10, Read(dst[..], src, inDest, 4, 6));
    WriteBytes(dst, 16, first.crc);
    WriteBytes(dst, 3, Read(dst[..], src, inDest, 3, 1));
  }

  method WriteSecondInfo(dst: array<byte>, src: Bytes, inDest: bool, second: Hop, codingLen: nat)
    requires dst.Length >= CODED_SIZE && |src| >= UNICAST_SIZE
    modifies dst
    ensures dst[..] == SecondInfo(old(dst[..]), src, inDest, second, codingLen)
  {
    hide Put, Read, BigEndian;
    WriteBytes(dst, 22, second.dest);
    WriteBytes(dst, 28, second.source);
    WriteBytes(dst, 34, Read(dst[..], src, inDest, 4, 6));
    WriteBytes(dst, 40, second.crc);
    WriteBytes(dst, 20, Read(dst[..], src, inDest, 2, 1));
    WriteBytes(dst, 21, Read(dst[..], src, inDest, 3, 1));
    WriteBytes(dst, 44, BigEndian(codingLen));
  }

  // batadv_nc_code_packets.  skb is the packet to forward, nc the buffered one;
  // both lie behind HEADER_ADD bytes of headroom.  The two qualities decide
  // which packet is the first, the lengths which buffer is coded into.
  method CodePackets(skb: array<byte>, nc: array<byte>, skbHop: Hop, ncHop: Hop, tqNeigh: nat, tqCoding: nat)
    returns (dest: array<byte>)
    requires skb != nc && skb.Length >= CODED_SIZE && nc.Length >= CODED_SIZE
    modifies skb, nc
    ensures dest == if skb.Length <= nc.Length then nc else skb
    ensures dest[..] == CodePair(old(skb[..]), old(nc[..]), skbHop, ncHop, tqNeigh >= tqCoding)
  {
    hide FirstInfo, SecondInfo, XorAt;
    var ncFirst := tqNeigh >= tqCoding;
    var first, second := skbHop, ncHop;
    if ncFirst {
      first, second := ncHop, skbHop;
    }
    var src;
    if skb.Length <= nc.Length {
      dest, src := nc, skb;
    } else {
      dest, src := skb, nc;
    }
    var codingLen := src.Length - CODED_SIZE;
    var packet := src[HEADER_ADD..];
    var firstInDest := ncFirst == (dest == nc);
    WriteFirstInfo(dest, packet, firstInDest, first);
    WriteSecondInfo(dest, packet, !firstInDest, second, codingLen);
    Memxor(dest, CODED_SIZE, src, CODED_SIZE, codingLen);
    assert src[CODED_SIZE..CODED_SIZE + codingLen] == packet[UNICAST_SIZE..];
  }

  function CodePair(skb: Bytes, nc: Bytes, skbHop: Hop, ncHop: Hop, ncFirst: bool): Bytes
    requires |skb| >= CODED_SIZE && |nc| >= CODED_SIZE
  {
    var first, second := if ncFirst then ncHop else skbHop, if ncFirst then skbHop else ncHop;
    if |skb| <= |nc| then Code(nc, skb[HEADER_ADD..], ncFirst, first, second)
    else Code(skb, nc[HEADER_ADD..], !ncFirst, first, second)
  }

  // The check in batadv_nc_skb_decode_packet.
  predicate TooLong(coded: Bytes)
    requires |coded| >= CODED_SIZE
  {
    CodingLen(coded) > |coded| - HEADER_ADD
  }

  // When exactly decoding stays inside both buffers.  The check compares the
  // length field with the whole unicast packet and not with its payload, so it
  // lets through up to ten values more than the coded buffer holds, and it does
  // not look at the other packet.
  lemma DecodingStaysInside(coded: Bytes, other: Bytes)
    requires |coded| >= CODED_SIZE && |other| >= UNICAST_SIZE
    ensures Fits(coded, other) <==>
            CodingLen(coded) <= |Payload(coded[HEADER_ADD..])| && CodingLen(coded) <= |Payload(other)|
    ensures Fits(coded, other) ==> !TooLong(coded)
    ensures !TooLong(coded) && !Fits(coded, other) <==>
            || |coded| - CODED_SIZE < CodingLen(coded) <= |coded| - CODED_SIZE + UNICAST_SIZE
            || |other| - UNICAST_SIZE < CodingLen(coded) <= |coded| - CODED_SIZE
  {
  }

  // A coded packet without payload that announces one byte, and one with a
  // byte that is to be decoded with a packet without payload.
  lemma LengthNotChecked()
    ensures var coded, other: Bytes := seq(CODED_SIZE, _ => 0)[45 := 1], seq(UNICAST_SIZE + 1, _ => 0);
            !TooLong(coded) && !Fits(coded, other)
    ensures var coded, other: Bytes := seq(CODED_SIZE + 1, _ => 0)[45 := 1], seq(UNICAST_SIZE, _ => 0);
            !TooLong(coded) && !Fits(coded, other)
  {
  }

  // batadv_nc_skb_decode_packet on the coded buffer; the result lies from
  // HEADER_ADD on and has the returned length.
  method DecodePacket(skb: array<byte>, other: array<byte>, amSecond: bool) returns (decoded: Option<nat>)
    requires skb != other && skb.Length >= CODED_SIZE
    requires !TooLong(skb[..]) ==> Fits(skb[..], other[..])
    modifies skb
    ensures decoded.None? <==> TooLong(old(skb[..]))
    ensures decoded.None? ==> skb[..] == old(skb[..])
    ensures decoded.Some? ==>
              && HEADER_ADD + decoded.value <= skb.Length
              && skb[HEADER_ADD..HEADER_ADD + decoded.value] == Decode(old(skb[..]), old(other[..]), amSecond)
  {
    hide Decode, FromBigEndian;
    var codingLen := FromBigEndian(skb[44], skb[45]);
    assert codingLen == CodingLen(skb[..]);
    if codingLen > skb.Length - HEADER_ADD {
      return None;
    }
    var len := DecodeFitting(skb, other, amSecond);
    decoded := Some(len);
  }

  method DecodeFitting(skb: array<byte>, other: array<byte>, amSecond: bool) returns (len: nat)
    requires skb != other && Fits(skb[..], other[..])
    modifies skb
    ensures HEADER_ADD + len <= skb.Length
    ensures skb[HEADER_ADD..HEADER_ADD + len] == Decode(old(skb[..]), old(other[..]), amSecond)
  {
    hide XorAt, Mix, UnicastHeader, FromBigEndian;
    var coded := skb[..CODED_SIZE];
    var codingLen := FromBigEndian(coded[44], coded[45]);
    assert codingLen == CodingLen(skb[..]);
    len := skb.Length - HEADER_ADD;
    ghost var before := skb[..];
    Memxor(skb, CODED_SIZE, other, UNICAST_SIZE, codingLen);
    ghost var n := UNICAST_SIZE + codingLen;
    XorBehind(before, HEADER_ADD, UNICAST_SIZE, other[UNICAST_SIZE..n]);
    if other.Length > codingLen + UNICAST_SIZE {
      len := codingLen + UNICAST_SIZE;
    }
    ghost var xored := XorAt(before[HEADER_ADD..], UNICAST_SIZE, other[UNICAST_SIZE..n]);
    assert skb[..][HEADER_ADD..] == xored;
    assert skb[HEADER_ADD..HEADER_ADD + len] == xored[..len];
    assert other.Length <= n ==> xored[..len] == xored;
    assert coded[34..40] == before[34..40] && coded[10..16] == before[10..16];
    if amSecond {
      WriteUnicastHeader(skb, len, coded[20], coded[34..40], coded[21]);
    } else {
      WriteUnicastHeader(skb, len, coded[2], coded[10..16], coded[3]);
    }
  }

  method WriteUnicastHeader(skb: array<byte>, len: nat, ttl: byte, dest: Mac, ttvn: byte)
    requires len >= UNICAST_SIZE && HEADER_ADD + len <= skb.Length
    modifies skb
    ensures skb[HEADER_ADD..HEADER_ADD + len] == UnicastHeader(old(skb[HEADER_ADD..HEADER_ADD + len]), ttl, dest, ttvn)
  {
    hide Put;
    PutBehind(skb[..], HEADER_ADD, len, 0, [UNICAST]);
    WriteBytes(skb, HEADER_ADD, [UNICAST]);
    PutBehind(skb[..], HEADER_ADD, len, 1, [COMPAT_VERSION]);
    WriteBytes(skb, HEADER_ADD + 1, [COMPAT_VERSION]);
    PutBehind(skb[..], HEADER_ADD, len, 2, [ttl]);
    WriteBytes(skb, HEADER_ADD + 2, [ttl]);
    PutBehind(skb[..], HEADER_ADD, len, 4, dest);
    WriteBytes(skb, HEADER_ADD + 4, dest);
    PutBehind(skb[..], HEADER_ADD, len, 3, [ttvn]);
    WriteBytes(skb, HEADER_ADD + 3, [ttvn]);
  }

  lemma PutBehind(s: Bytes, skip: nat, len: nat, off: nat, b: Bytes)
    requires off + |b| <= len && skip + len <= |s|
    ensures Put(s, skip + off, b)[skip..skip + len] == Put(s[skip..skip + len], off, b)
  {
  }

  lemma XorBehind(s: Bytes, skip: nat, off: nat, t: Bytes)
    requires skip + off + |t| <= |s|
    ensures XorAt(s, skip + off, t)[skip..] == XorAt(s[skip..], off, t)
  {
  }

  // ----- The round trip -----

  // A unicast packet with the given fields.
  function Unicast(ttl: byte, ttvn: byte, dest: Mac, payload: Bytes): Bytes {
    [UNICAST, COMPAT_VERSION, ttl, ttvn] + dest + payload
  }

  // What a receiver gets of the packet p: p itself under a fresh header, but
  // for the ttl and ttvn bytes, which may have been overwritten by the end of
  // its destination address.
  function Restored(p: Bytes, overwritten: bool): Bytes
    requires IsPacket(p)
  {
    if overwritten then Unicast(Dest(p)[4], Dest(p)[5], Dest(p), Payload(p))
    else Unicast(Ttl(p), Ttvn(p), Dest(p), Payload(p))
  }

  // b holds the bytes t from off on.
  ghost predicate At(b: Bytes, off: nat, t: Bytes) {
    off + |t| <= |b| && forall i :: 0 <= i < |t| ==> b[off + i] == t[i]
  }

  lemma AtSlice(b: Bytes, off: nat, t: Bytes)
    requires At(b, off, t)
    ensures b[off..off + |t|] == t
  {
  }

  lemma FirstFields(buf: Bytes, src: Bytes, inDest: bool, first: Hop)
    requires |buf| >= CODED_SIZE && |src| >= UNICAST_SIZE
    ensures var b := FirstInfo(buf, src, inDest, first);
            var p := if inDest then buf[HEADER_ADD..] else src;
            && b[0] == 0x02 && b[1] == 15
            && b[2] == Ttl(p) && b[3] == Ttvn(p)
            && At(b, 4, first.source) && At(b, 10, Dest(p)) && At(b, 16, first.crc)
            && (forall i :: 20 <= i < |b| ==> b[i] == buf[i])
  {
    hide Put, Read;
  }

  lemma SecondAddressFields(buf: Bytes, src: Bytes, inDest: bool, second: Hop)
    requires |buf| >= CODED_SIZE && |src| >= UNICAST_SIZE
    ensures var b := SecondAddresses(buf, src, inDest, second);
            && At(b, 22, second.dest) && At(b, 28, second.source)
            && At(b, 34, Dest(if inDest then buf[HEADER_ADD..] else src)) && At(b, 40, second.crc)
            && (forall i :: 0 <= i < 22 ==> b[i] == buf[i])
            && (forall i :: 44 <= i < |b| ==> b[i] == buf[i])
  {
    hide Put, Read;
    var b, p := SecondAddresses(buf, src, inDest, second), if inDest then buf[HEADER_ADD..] else src;
    forall i | 0 <= i < 6
      ensures b[34 + i] == Dest(p)[i]
    {
      assert Dest(p)[i] == p[4 + i];
    }
  }

  lemma SecondFields(buf: Bytes, src: Bytes, inDest: bool, second: Hop, codingLen: nat)
    requires |buf| >= CODED_SIZE && |src| >= UNICAST_SIZE
    ensures var b := SecondInfo(buf, src, inDest, second, codingLen);
            var p := if inDest then buf[HEADER_ADD..] else src;
            && b[20] == (if inDest then Dest(p)[4] else Ttl(p))
            && b[21] == (if inDest then Dest(p)[5] else Ttvn(p))
            && At(b, 22, second.dest) && At(b, 28, second.source)
            && At(b, 34, Dest(p)) && At(b, 40, second.crc)
            && At(b, 44, BigEndian(codingLen))
            && (forall i :: 0 <= i < 20 ==> b[i] == buf[i])
            && (forall i :: CODED_SIZE <= i < |b| ==> b[i] == buf[i])
  {
    hide Put, Read, BigEndian, SecondAddresses, Dest;
    SecondAddressFields(buf, src, inDest, second);
    var b := SecondAddresses(buf, src, inDest, second);
    var dest := Dest(if inDest then buf[HEADER_ADD..] else src);
    assert b[34 + 4] == dest[4] && b[34 + 5] == dest[5];
  }

  ghost predicate CodedAs(c: Bytes, buf: Bytes, src: Bytes, firstInDest: bool, first: Hop, second: Hop) {
    && |src| >= UNICAST_SIZE && |src| + HEADER_ADD <= |buf| == |c|
    && HeaderAs(c, if firstInDest then buf[HEADER_ADD..] else src, if firstInDest then src else buf[HEADER_ADD..],
                firstInDest, first, second)
    && At(c, 44, BigEndian(|src| - UNICAST_SIZE))
    && Mixed(c, buf, src)
  }

  // The coded header of the packets p1 and p2.
  ghost predicate HeaderAs(c: Bytes, p1: Bytes, p2: Bytes, firstInDest: bool, first: Hop, second: Hop) {
    && |c| >= CODED_SIZE && IsPacket(p1) && IsPacket(p2)
    && c[0] == 0x02 && c[1] == 15
    && c[2] == Ttl(p1) && c[3] == Ttvn(p1) && At(c, 10, Dest(p1))
    && At(c, 4, first.source) && At(c, 16, first.crc)
    && c[20] == (if firstInDest then Ttl(p2) else Dest(p2)[4])
    && c[21] == (if firstInDest then Ttvn(p2) else Dest(p2)[5])
    && At(c, 34, Dest(p2))
    && At(c, 22, second.dest) && At(c, 28, second.source) && At(c, 40, second.crc)
  }

  // c is src XORed into buf, behind the headers.
  ghost predicate Mixed(c: Bytes, buf: Bytes, src: Bytes) {
    && |src| >= UNICAST_SIZE && |src| + HEADER_ADD <= |buf| == |c|
    && forall i :: CODED_SIZE <= i < |c| ==>
         c[i] == if i < HEADER_ADD + |src| then Mix(buf[i], src[i - HEADER_ADD]) else buf[i]
  }

  // The coded header and payload, byte by byte.  The fields of the first
  // packet are its own.  So are the address and checksum of the second; but
  // when the second packet lies in the coded buffer, its ttl and ttvn have
  // been overwritten by its own destination address before they are read.
  lemma CodedFields(buf: Bytes, src: Bytes, firstInDest: bool, first: Hop, second: Hop)
    requires |src| >= UNICAST_SIZE && |src| + HEADER_ADD <= |buf|
    ensures CodedAs(Code(buf, src, firstInDest, first, second), buf, src, firstInDest, first, second)
  {
    hide Mix, FirstInfo, SecondInfo, XorAt, BigEndian, HeaderAs, At;
    var b := FirstInfo(buf, src, firstInDest, first);
    HeaderWritten(buf, src, firstInDest, first, second);
    SecondFields(b, src, !firstInDest, second, |src| - UNICAST_SIZE);
    FirstFields(buf, src, firstInDest, first);
    hide Dest, Ttl, Ttvn;
    var d := SecondInfo(b, src, !firstInDest, second, |src| - UNICAST_SIZE);
    var c := Code(buf, src, firstInDest, first, second);
    assert c == XorAt(d, CODED_SIZE, src[UNICAST_SIZE..]);
    SameHeader(d, c, if firstInDest then buf[HEADER_ADD..] else src, if firstInDest then src else buf[HEADER_ADD..],
               firstInDest, first, second, BigEndian(|src| - UNICAST_SIZE));
  }

  lemma HeaderWritten(buf: Bytes, src: Bytes, firstInDest: bool, first: Hop, second: Hop)
    requires |src| >= UNICAST_SIZE && |src| + HEADER_ADD <= |buf|
    ensures var b := FirstInfo(buf, src, firstInDest, first);
            HeaderAs(SecondInfo(b, src, !firstInDest, second, |src| - UNICAST_SIZE),
                     if firstInDest then buf[HEADER_ADD..] else src, if firstInDest then src else buf[HEADER_ADD..],
                     firstInDest, first, second)
  {
    hide FirstInfo, SecondInfo, BigEndian, Dest, Ttl, Ttvn;
    var b := FirstInfo(buf, src, firstInDest, first);
    FirstFields(buf, src, firstInDest, first);
    SecondFields(b, src, !firstInDest, second, |src| - UNICAST_SIZE);
    assert b[HEADER_ADD..] == buf[HEADER_ADD..];
  }

  // The header lies in the first bytes, which the mixing leaves alone.
  lemma SameHeader(d: Bytes, c: Bytes, p1: Bytes, p2: Bytes, firstInDest: bool, first: Hop, second: Hop, len: Bytes)
    requires HeaderAs(d, p1, p2, firstInDest, first, second) && At(d, 44, len) && |len| == 2
    requires |c| == |d| && forall i :: 0 <= i < CODED_SIZE ==> c[i] == d[i]
    ensures HeaderAs(c, p1, p2, firstInDest, first, second) && At(c, 44, len)
  {
  }

  lemma UnmixedBytes(coded: Bytes, other: Bytes)
    requires Fits(coded, other)
    ensures var n, r := UNICAST_SIZE + CodingLen(coded), Unmixed(coded, other);
            forall i :: UNICAST_SIZE <= i < |r| ==>
              r[i] == if i < n then Mix(coded[HEADER_ADD + i], other[i]) else coded[HEADER_ADD + i]
  {
    hide Mix, XorAt, FromBigEndian;
    var n := UNICAST_SIZE + CodingLen(coded);
    hide CodingLen;
    var x := XorAt(coded[HEADER_ADD..], UNICAST_SIZE, other[UNICAST_SIZE..n]);
    assert forall i :: UNICAST_SIZE <= i < |x| ==>
        x[i] == if i < n then Mix(coded[HEADER_ADD + i], other[i]) else coded[HEADER_ADD + i];
  }

  lemma BehindHeader(skb: Bytes, ttl: byte, dest: Mac, ttvn: byte)
    requires |skb| >= UNICAST_SIZE
    ensures forall i :: UNICAST_SIZE <= i < |skb| ==> UnicastHeader(skb, ttl, dest, ttvn)[i] == skb[i]
  {
  }

  // The decoded packet behind its header.
  lemma DecodedBytes(coded: Bytes, other: Bytes, amSecond: bool)
    requires Fits(coded, other)
    ensures var n := UNICAST_SIZE + CodingLen(coded);
            var r := Decode(coded, other, amSecond);
            && |r| == (if |other| > n then n else |coded| - HEADER_ADD)
            && (forall i :: UNICAST_SIZE <= i < |r| ==>
                  r[i] == if i < n then Mix(coded[HEADER_ADD + i], other[i]) else coded[HEADER_ADD + i])
  {
    UnmixedBytes(coded, other);
    hide Mix, Unmixed, UnicastHeader, CodingLen;
    if amSecond {
      BehindHeader(Unmixed(coded, other), coded[20], coded[34..40], coded[21]);
    } else {
      BehindHeader(Unmixed(coded, other), coded[2], coded[10..16], coded[3]);
    }
  }

  // Mixed, and the header announces the length of the mixed-in payload.
  ghost predicate IsXor(c: Bytes, buf: Bytes, src: Bytes) {
    Mixed(c, buf, src) && CodingLen(c) == |src| - UNICAST_SIZE
  }

  // The longer packet comes out with the help of the shorter one.
  lemma DecodesLonger(coded: Bytes, buf: Bytes, src: Bytes, other: Bytes, amSecond: bool)
    requires IsXor(coded, buf, src) && IsPacket(other) && Payload(other) == Payload(src)
    ensures Fits(coded, other)
    ensures |Decode(coded, other, amSecond)| == |buf| - HEADER_ADD
    ensures Payload(Decode(coded, other, amSecond)) == Payload(buf[HEADER_ADD..])
  {
    hide Mix, Decode, FromBigEndian;
    assert |other| == |src|;
    DecodedBytes(coded, other, amSecond);
    var r := Decode(coded, other, amSecond);
    forall i | UNICAST_SIZE <= i < |r|
      ensures r[i] == buf[HEADER_ADD + i]
    {
      if i < |src| {
        assert Payload(other)[i - UNICAST_SIZE] == Payload(src)[i - UNICAST_SIZE];
        MixTwice(buf[HEADER_ADD + i], src[i]);
      }
    }
  }

  // The shorter packet comes out, and is trimmed, with the help of the longer.
  lemma DecodesShorter(coded: Bytes, buf: Bytes, src: Bytes, other: Bytes, amSecond: bool)
    requires IsXor(coded, buf, src) && IsPacket(other) && Payload(other) == Payload(buf[HEADER_ADD..])
    ensures Fits(coded, other)
    ensures |Decode(coded, other, amSecond)| == |src|
    ensures Payload(Decode(coded, other, amSecond)) == Payload(src)
  {
    hide Mix, Decode, FromBigEndian;
    assert |other| == |buf| - HEADER_ADD;
    DecodedBytes(coded, other, amSecond);
    var r := Decode(coded, other, amSecond);
    forall i | UNICAST_SIZE <= i < |r|
      ensures r[i] == src[i]
    {
      assert Payload(other)[i - UNICAST_SIZE] == Payload(buf[HEADER_ADD..])[i - UNICAST_SIZE];
      MixTwice(src[i], buf[HEADER_ADD + i]);
    }
  }

  // The header of the decoded packet is the one the coded header gives.
  lemma DecodedHeader(coded: Bytes, other: Bytes, amSecond: bool, ttl: byte, ttvn: byte, dest: Mac)
    requires Fits(coded, other) && |coded| >= CODED_SIZE
    requires if amSecond then coded[20] == ttl && coded[21] == ttvn && At(coded, 34, dest)
             else coded[2] == ttl && coded[3] == ttvn && At(coded, 10, dest)
    ensures var r := Decode(coded, other, amSecond); IsPacket(r) && r == Unicast(ttl, ttvn, dest, Payload(r))
  {
    hide Mix, XorAt, FromBigEndian, Unmixed, UnicastHeader, Unicast, Payload;
    AtSlice(coded, if amSecond then 34 else 10, dest);
    HeaderOf(Unmixed(coded, other), ttl, dest, ttvn);
  }

  lemma HeaderOf(skb: Bytes, ttl: byte, dest: Mac, ttvn: byte)
    requires |skb| >= UNICAST_SIZE
    ensures var r := UnicastHeader(skb, ttl, dest, ttvn); IsPacket(r) && r == Unicast(ttl, ttvn, dest, Payload(r))
  {
  }

  lemma AnnouncesLength(c: Bytes, buf: Bytes, src: Bytes, firstInDest: bool, first: Hop, second: Hop)
    requires CodedAs(c, buf, src, firstInDest, first, second) && |src| - UNICAST_SIZE < 0x1_0000
    ensures IsXor(c, buf, src)
  {
    hide Mixed, Dest, Ttl, Ttvn, BigEndian, FromBigEndian;
    var len := BigEndian(|src| - UNICAST_SIZE);
    BigEndianRoundTrip(|src| - UNICAST_SIZE);
    assert c[44 + 0] == len[0] && c[44 + 1] == len[1];
  }

  lemma FirstDecoded(c: Bytes, buf: Bytes, src: Bytes, firstInDest: bool, first: Hop, second: Hop, other: Bytes)
    requires CodedAs(c, buf, src, firstInDest, first, second) && IsXor(c, buf, src)
    requires IsPacket(other) && Payload(other) == Payload(if firstInDest then src else buf[HEADER_ADD..])
    ensures var p := if firstInDest then buf[HEADER_ADD..] else src;
            Fits(c, other) && Decode(c, other, false) == Restored(p, false)
  {
    hide Mixed, Payload, Dest, Ttl, Ttvn, Decode, Fits, Unicast, BigEndian;
    if firstInDest {
      DecodesLonger(c, buf, src, other, false);
    } else {
      DecodesShorter(c, buf, src, other, false);
    }
    var p := if firstInDest then buf[HEADER_ADD..] else src;
    DecodedHeader(c, other, false, Ttl(p), Ttvn(p), Dest(p));
  }

  lemma SecondDecoded(c: Bytes, buf: Bytes, src: Bytes, firstInDest: bool, first: Hop, second: Hop, other: Bytes)
    requires CodedAs(c, buf, src, firstInDest, first, second) && IsXor(c, buf, src)
    requires IsPacket(other) && Payload(other) == Payload(if firstInDest then buf[HEADER_ADD..] else src)
    ensures var p := if firstInDest then src else buf[HEADER_ADD..];
            Fits(c, other) && Decode(c, other, true) == Restored(p, !firstInDest)
  {
    hide Mixed, Payload, Dest, Ttl, Ttvn, Decode, Fits, Unicast, BigEndian;
    if firstInDest {
      DecodesShorter(c, buf, src, other, true);
    } else {
      DecodesLonger(c, buf, src, other, true);
    }
    var p := if firstInDest then src else buf[HEADER_ADD..];
    DecodedHeader(c, other, true, c[20], c[21], Dest(p));
  }

  lemma LooksUpTheOther(c: Bytes, buf: Bytes, src: Bytes, firstInDest: bool, first: Hop, second: Hop)
    requires CodedAs(c, buf, src, firstInDest, first, second)
    ensures DecodingId(c, false) == (second.source, second.crc)
    ensures DecodingId(c, true) == (first.source, first.crc)
  {
    hide Mixed, Dest, Ttl, Ttvn, BigEndian;
    AtSlice(c, 4, first.source);
    AtSlice(c, 16, first.crc);
    AtSlice(c, 28, second.source);
    AtSlice(c, 40, second.crc);
  }

  // The two packets without their headroom.
  function First(skb: Bytes, nc: Bytes, ncFirst: bool): Bytes
    requires |skb| >= CODED_SIZE && |nc| >= CODED_SIZE
  {
    if ncFirst then nc[HEADER_ADD..] else skb[HEADER_ADD..]
  }

  // The round trip, for any two packets whose shorter payload has a length the
  // 16-bit field can hold.  The first receiver, who has a packet with the
  // payload of the second, gets the first packet: its payload, destination,
  // ttl and ttvn.  The second receiver likewise gets the payload and
  // destination of the second; its ttl and ttvn are right if and only if the
  // second packet is not the one coded into, or the overwritten bytes happen
  // to agree.  Each finds the other packet by the identifier it looks up.
  lemma CodingRoundTrip(skb: Bytes, nc: Bytes, skbHop: Hop, ncHop: Hop, ncFirst: bool, other1: Bytes, other2: Bytes)
    requires |skb| >= CODED_SIZE && |nc| >= CODED_SIZE
    requires |skb| - CODED_SIZE < 0x1_0000 || |nc| - CODED_SIZE < 0x1_0000
    requires IsPacket(other1) && Payload(other1) == Payload(First(skb, nc, !ncFirst))
    requires IsPacket(other2) && Payload(other2) == Payload(First(skb, nc, ncFirst))
    ensures var c := CodePair(skb, nc, skbHop, ncHop, ncFirst);
            var p1, p2 := First(skb, nc, ncFirst), First(skb, nc, !ncFirst);
            var firstHop, secondHop := if ncFirst then ncHop else skbHop, if ncFirst then skbHop else ncHop;
            var secondInDest := ncFirst == (|skb| > |nc|);
            && Fits(c, other1) && Fits(c, other2)
            && Decode(c, other1, false) == Restored(p1, false)
            && Decode(c, other2, true) == Restored(p2, secondInDest)
            && DecodingId(c, false) == (secondHop.source, secondHop.crc)
            && DecodingId(c, true) == (firstHop.source, firstHop.crc)
  {
    var firstHop, secondHop := if ncFirst then ncHop else skbHop, if ncFirst then skbHop else ncHop;
    if |skb| <= |nc| {
      CodedRoundTrip(nc, skb[HEADER_ADD..], ncFirst, firstHop, secondHop, other1, other2);
    } else {
      CodedRoundTrip(skb, nc[HEADER_ADD..], !ncFirst, firstHop, secondHop, other1, other2);
    }
  }

  // A second packet with the ttl 50, one byte longer than the first, is
  // restored with the ttl 0.
  lemma SecondTtlIsLost(hop: Hop)
    ensures var first, second: Bytes := seq(CODED_SIZE, _ => 0), seq(CODED_SIZE + 1, _ => 0)[HEADER_ADD + 2 := 50];
            var c := CodePair(second, first, hop, hop, true);
            var known := first[HEADER_ADD..];
            && Ttl(second[HEADER_ADD..]) == 50
            && Fits(c, known) && IsPacket(Decode(c, known, true)) && Ttl(Decode(c, known, true)) == 0
  {
    var first, second: Bytes := seq(CODED_SIZE, _ => 0), seq(CODED_SIZE + 1, _ => 0)[HEADER_ADD + 2 := 50];
    hide CodePair, Decode, DecodingId, Fits, Unicast;
    CodingRoundTrip(second, first, hop, hop, true, second[HEADER_ADD..], first[HEADER_ADD..]);
    var p := second[HEADER_ADD..];
    assert Dest(p)[4] == 0;
    UnicastTtl(Dest(p)[4], Dest(p)[5], Dest(p), Payload(p));
  }

  lemma UnicastTtl(ttl: byte, ttvn: byte, dest: Mac, payload: Bytes)
    ensures var p := Unicast(ttl, ttvn, dest, payload);
            IsPacket(p) && Ttl(p) == ttl
  {
  }

  lemma CodedRoundTrip(buf: Bytes, src: Bytes, firstInDest: bool, first: Hop, second: Hop, other1: Bytes, other2: Bytes)
    requires UNICAST_SIZE <= |src| && |src| + HEADER_ADD <= |buf| && |src| - UNICAST_SIZE < 0x1_0000
    requires IsPacket(other1) && Payload(other1) == Payload(if firstInDest then src else buf[HEADER_ADD..])
    requires IsPacket(other2) && Payload(other2) == Payload(if firstInDest then buf[HEADER_ADD..] else src)
    ensures var c := Code(buf, src, firstInDest, first, second);
            var p1 := if firstInDest then buf[HEADER_ADD..] else src;
            var p2 := if firstInDest then src else buf[HEADER_ADD..];
            && Fits(c, other1) && Fits(c, other2)
            && Decode(c, other1, false) == Restored(p1, false)
            && Decode(c, other2, true) == Restored(p2, !firstInDest)
            && DecodingId(c, false) == (second.source, second.crc)
            && DecodingId(c, true) == (first.source, first.crc)
  {
    CodedFields(buf, src, firstInDest, first, second);
    hide Code, CodedAs, Decode, DecodingId, Restored, Fits, Payload, Dest, Ttl, Ttvn;
    var c := Code(buf, src, firstInDest, first, second);
    AnnouncesLength(c, buf, src, firstInDest, first, second);
    FirstDecoded(c, buf, src, firstInDest, first, second, other1);
    SecondDecoded(c, buf, src, firstInDest, first, second, other2);
    LooksUpTheOther(c, buf, src, firstInDest, first, second);
  }
}

// Packets as byte sequences: numbers in network byte order, and writes into the
// middle of a buffer.

module Wire {
  type byte = x: int | 0 <= x < 256
  type Bytes = seq<byte>

  const OGM_HLEN := 24    // sizeof(struct batadv_ogm_packet)
  const OGM2_HLEN := 20   // sizeof(struct batadv_ogm2_packet)

  // A 16-bit number in network byte order.
  function BigEndian(n: nat): (r: Bytes)
    ensures |r| == 2
  {
    [n / 256 % 256, n % 256]
  }

  function FromBigEndian(hi: byte, lo: byte): (n: nat)
    ensures n < 0x1_0000
  {
    hi * 256 + lo
  }

  lemma BigEndianRoundTrip(n: nat)
    requires n < 0x1_0000
    ensures FromBigEndian(BigEndian(n)[0], BigEndian(n)[1]) == n
  {
    assert n / 256 % 256 == n / 256;
  }

  lemma BigEndianOfBytes(hi: byte, lo: byte)
    ensures BigEndian(FromBigEndian(hi, lo)) == [hi, lo]
  {
    var n := FromBigEndian(hi, lo);
    assert n / 256 == hi && n % 256 == lo;
  }

  lemma SliceOfSlice(s: Bytes, pos: nat, lo: nat, hi: nat)
    requires lo <= hi && pos + hi <= |s|
    ensures s[pos..][lo..hi] == s[pos + lo..pos + hi]
    ensures s[pos..][hi..] == s[pos + hi..]
  {
  }

  // s with b written at off.
  function Put(s: Bytes, off: nat, b: Bytes): (r: Bytes)
    requires off + |b| <= |s|
    ensures |r| == |s|
    ensures forall i :: 0 <= i < |s| ==> r[i] == if off <= i < off + |b| then b[i - off] else s[i]
  {
    s[..off] + b + s[off + |b|..]
  }

  method WriteBytes(dst: array<byte>, off: nat, b: Bytes)
    requires off + |b| <= dst.Length
    modifies dst
    ensures dst[..] == Put(old(dst[..]), off, b)
  {
    forall i | 0 <= i < |b| {
      dst[off + i] := b[i];
    }
  }
}

// Sequence numbers that wrap at 2^32, and the 64-bit bitmap that remembers
// which of the last 64 of them were received (bitarray.c, bitarray.h).
//
// A u32 sequence number is the residue of an unbounded "position" on the
// integer line.  Everything that is promised about the bitmap is stated on
// positions: bit i of a bitmap whose newest position is `top` stands for the
// position `top - i`.

module SeqNo {
  const TWO_TO_32 := 0x1_0000_0000
  const TWO_TO_31 := 0x8000_0000

  type u32 = x: int | 0 <= x < TWO_TO_32

  // Conversion of an integer to u32.
  function Wrap(x: int): u32 {
    x % TWO_TO_32
  }

  // Conversion of an integer to s32 (two's complement).
  function Signed(x: int): int {
    var m := x % TWO_TO_32;
    if m < TWO_TO_31 then m else m - TWO_TO_32
  }

  // Adding the s32 difference to the position of the reference number gives a
  // position of the received number.
  lemma Unwrap(top: int, seqno: u32)
    ensures Wrap(top + Signed(seqno - Wrap(top))) == seqno
  {
  }

  // The s32 difference of two positions less than 2^31 apart is their distance.
  lemma SignedDistance(top: int, p: int)
    requires -TWO_TO_31 <= p - top < TWO_TO_31
    ensures Signed(Wrap(p) - Wrap(top)) == p - top
  {
  }

  // The two subtractions the callers use, last - seqno and seqno - last, are
  // negations of each other except at -2^31, where both are -2^31.
  lemma SignedNegate(a: u32, b: u32)
    ensures Signed(a - b) == -Signed(b - a) || Signed(a - b) == Signed(b - a) == -TWO_TO_31
  {
  }

  // Distinct positions carrying the same number are at least 2^32 apart.
  lemma SameNumberFarApart(p: int, q: int)
    requires Wrap(p) == Wrap(q) && p < q
    ensures q - p >= TWO_TO_32
  {
  }
}

module Bitarray {
  import opened SeqNo

  const WINDOW := 64            // BATADV_TQ_LOCAL_WINDOW_SIZE
  const SEQNO_RANGE := 65536    // BATADV_EXPECTED_SEQNO_RANGE

  // n clear bits
  function Cleared(n: nat): (s: seq<bool>)
    ensures |s| == n
    ensures forall i :: 0 <= i < n ==> !s[i]
  {
    seq(n, _ => false)
  }

  type Bits = s: seq<bool> | |s| == WINDOW witness Cleared(WINDOW)

  // bitmap_zero
  const ZERO: Bits := Cleared(WINDOW)

  // batadv_test_bit
  predicate TestBit(bits: Bits, last: u32, curr: u32) {
    var diff := Signed(last - curr);
    0 <= diff < WINDOW && bits[diff]
  }

  // batadv_set_bit
  function SetBit(bits: Bits, n: int): Bits {
    if 0 <= n < WINDOW then bits[n := true] else bits
  }

  // batadv_bitmap_shift_left
  function ShiftLeft(bits: Bits, n: int): Bits {
    if n <= 0 || n >= WINDOW then bits
    else Cleared(n) + bits[..WINDOW - n]
  }

  // The difference does not look like a restart of the sender.
  predicate InRange(diff: int) {
    -WINDOW < diff < SEQNO_RANGE
  }

  // The window moves: the received number becomes the newest one.
  predicate Moves(diff: int) {
    diff > 0 || diff <= -WINDOW
  }

  // The bitmap after batadv_bit_get_packet.
  function GetPacket(bits: Bits, diff: int, mark: bool): Bits {
    if -WINDOW < diff <= 0 then
      if mark then SetBit(bits, -diff) else bits
    else
      var shifted := if 0 < diff < WINDOW then ShiftLeft(bits, diff) else ZERO;
      if mark then SetBit(shifted, 0) else shifted
  }

  // bits, read with newest position top, is exactly the part of `seen` that
  // lies in the 64 positions up to top.
  ghost predicate Tracks(bits: Bits, top: int, seen: set<int>) {
    forall i :: 0 <= i < WINDOW ==> (bits[i] <==> top - i in seen)
  }

  ghost predicate UpTo(top: int, seen: set<int>) {
    forall p :: p in seen ==> p <= top
  }

  function NewTop(top: int, diff: int): int {
    if Moves(diff) then top + diff else top
  }

  // Inside the range, the bitmap goes on tracking the set with the received
  // position added (when marked), and nothing seen earlier is forgotten
  // except by leaving the window.
  lemma GetPacketTracks(bits: Bits, top: int, seen: set<int>, diff: int, mark: bool)
    requires Tracks(bits, top, seen) && UpTo(top, seen) && InRange(diff)
    ensures var seen' := if mark then seen + {top + diff} else seen;
            && Tracks(GetPacket(bits, diff, mark), NewTop(top, diff), seen')
            && UpTo(NewTop(top, diff), seen')
  {
  }

  // Outside the range everything is forgotten.
  lemma GetPacketRestarts(bits: Bits, top: int, diff: int, mark: bool)
    requires !InRange(diff)
    ensures Tracks(GetPacket(bits, diff, mark), top + diff, if mark then {top + diff} else {})
  {
  }

  // The duplicate test asks exactly whether the position was seen, for
  // positions inside the window; a position ahead of the window is not a
  // duplicate.
  lemma TestBitIsSeen(bits: Bits, top: int, seen: set<int>, seqno: u32)
    requires Tracks(bits, top, seen) && UpTo(top, seen)
    requires InRange(Signed(seqno - Wrap(top)))
    ensures TestBit(bits, Wrap(top), seqno) <==> top + Signed(seqno - Wrap(top)) in seen
  {
    SignedNegate(Wrap(top), seqno);
    var d := Signed(seqno - Wrap(top));
    if d <= 0 {
      assert top - (-d) == top + d;
    }
  }

  // Outside the range the duplicate test never fires.
  lemma TestBitOutOfRange(bits: Bits, last: u32, seqno: u32)
    requires !InRange(Signed(seqno - last))
    ensures !TestBit(bits, last, seqno)
  {
  }

  // bitmap_weight
  function Weight(bits: seq<bool>): (w: nat)
    ensures w <= |bits|
  {
    if bits == [] then 0 else Weight(bits[..|bits| - 1]) + if bits[|bits| - 1] then 1 else 0
  }

  lemma ZeroWeight(n: nat)
    ensures Weight(Cleared(n)) == 0
  {
    var bits := Cleared(n);
    if n > 0 {
      assert bits[..n - 1] == Cleared(n - 1);
      ZeroWeight(n - 1);
    }
  }

  // The positions of the set that lie in the window ending at top.
  ghost function InWindow(seen: set<int>, top: int, size: nat): set<int> {
    set p | p in seen && top - size < p <= top
  }

  // The weight of a bitmap is the number of positions it shows.
  lemma {:induction false} WeightCounts(bits: Bits, top: int, seen: set<int>, n: nat)
    requires Tracks(bits, top, seen) && n <= WINDOW
    ensures Weight(bits[..n]) == |InWindow(seen, top, n)|
  {
    if n == 0 {
      assert InWindow(seen, top, 0) == {};
    } else {
      WeightCounts(bits, top, seen, n - 1);
      assert bits[..n][..n - 1] == bits[..n - 1];
      var p := top - (n - 1);
      assert InWindow(seen, top, n) == InWindow(seen, top, n - 1) + if p in seen then {p} else {};
    }
  }

  method ShiftBits(bits: array<bool>, n: int)
    requires bits.Length == WINDOW
    modifies bits
    ensures bits[..] == ShiftLeft(old(bits[..]), n)
  {
    if n <= 0 || n >= WINDOW {
      return;
    }
    forall i | 0 <= i < WINDOW {
      bits[i] := if i >= n then bits[i - n] else false;
    }
  }

  method MarkBit(bits: array<bool>, n: int)
    requires bits.Length == WINDOW
    modifies bits
    ensures bits[..] == SetBit(old(bits[..]), n)
  {
    if n < 0 || n >= WINDOW {
      return;
    }
    bits[n] := true;
  }

  method ClearBits(bits: array<bool>)
    requires bits.Length == WINDOW
    modifies bits
    ensures bits[..] == ZERO
  {
    forall i | 0 <= i < WINDOW {
      bits[i] := false;
    }
  }

  // batadv_bit_get_packet, on the bitmap in place
  method ReceivePacket(bits: array<bool>, diff: int, mark: bool) returns (moved: bool)
    requires bits.Length == WINDOW
    modifies bits
    ensures bits[..] == GetPacket(old(bits[..]), diff, mark)
    ensures moved <==> Moves(diff)
  {
    if diff <= 0 && diff > -WINDOW {
      if mark {
        MarkBit(bits, -diff);
      }
      return false;
    }
    if diff > 0 && diff < WINDOW {
      ShiftBits(bits, diff);
      if mark {
        MarkBit(bits, 0);
      }
      return true;
    }
    if diff >= WINDOW && diff < SEQNO_RANGE {
      ClearBits(bits);
      if mark {
        MarkBit(bits, 0);
      }
      return true;
    }
    ClearBits(bits);
    if mark {
      MarkBit(bits, 0);
    }
    return true;
  }
}

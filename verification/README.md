# Proofs about batman-adv

batman-adv is a mesh routing protocol in the Linux kernel. This project models
the parts of it that keep state over many packets, and proves what that state
means after any run. To verify it:

    dafny verify dfyconfig.toml

Every protocol machine is written twice. A specification function on values
says what one step does, branch by branch, with 8, 16 and 32 bit arithmetic
written out. A class or a method with loops does the step in place, the way the
C code does, and is proved equal to that function. The lemmas then speak about
the functions: invariants over all runs, round trips, and characterisations in
both directions.

| file | what it models |
|---|---|
| `SeqWindow.dfy` | 32-bit sequence numbers and the 64-bit window of received ones, as a set of positions |
| `BcastFilter.dfy` | restart protection and the duplicate filter for broadcasts |
| `OgmV.dfy` | acceptance and forwarding of B.A.T.M.A.N. V OGMs on one interface |
| `OgmIvWindow.dfy` | the windows of all neighbours of an originator, moved in lockstep |
| `OwnEcho.dfy`, `OwnEchoTables.dfy` | echoes of own OGMs, in arrays indexed by renumbered interface numbers |
| `TqMetric.dfy` | the transmission quality, its decay along a path, the end of every flood |
| `OgmAggregate.dfy` | the queue of aggregated OGMs, the direct link flags, the receive loop |
| `Fragmentation.dfy` | cutting packets and reassembling them from any order of arrival |
| `Bla.dfy`, `BlaRuns.dfy`, `BlaTraffic.dfy`, `BlaTables.dfy` | bridge loop avoidance: claims, checksums, requests, resynchronisation, which gateway hands packets on |
| `BcastDuplist.dfy` | the ring of recent broadcasts with its early exit |
| `NetworkCoding.dfy` | two packets XORed in place and decoded by two receivers |
| `DatCandidates.dfy` | the three nearest nodes on the ring of the distributed ARP table |
| `TvlvContainers.dfy`, `TvlvDispatch.dfy` | the TVLV registry, its bytes, and the dispatch to handlers |
| `Multicast.dfy` | multicast counters and lists, and the forwarding mode |
| `Wire.dfy`, `Wrappers.dfy` | bytes in network order, and a value that may be missing |

## Reading the model

- Times are in milliseconds; one jiffy is one millisecond and does not wrap.
- A *position* is a sequence number without its 32-bit wrap. An *epoch* runs
  from one permitted restart to the next. Both exist only in the proofs.
- A byte is a number from 0 to 255; its bits are taken out arithmetically.
- Each handler is one atomic step. The order in which a hash table is visited
  is arbitrary: methods return it as a ghost value, lemmas hold for all orders.
- Checksums, the DHT hash, the translation table, the results of callbacks and
  the random choice of the first coded packet are parameters.
- In `OwnEcho` the contents of a slot added by a new interface are arbitrary,
  because the source allocates it without clearing it.

## Where the code differs from its comments

The code is followed in each case.

- fragmentation.c:492 gives up at the 15th fragment although :460 admits
  packets for 16. `Fragmentation.SentExactly` has the exact condition, and
  `SixteenthIsNeverSent` an input.
- fragmentation.c:457-458 wrap when the mtu is below the 20 bytes of the
  header. `Fragmentation.SentExactly` says what is sent then.
- fragmentation.c:118 refuses a sequence number that the bucket already holds,
  which includes number 0 on a bucket that was never used.
  `Fragmentation.RoundTripExactly` has the exact condition.
- distributed-arp-table.c:490-495 promises the lowest address on a tie, but the
  comparison is an equality test (main.h:293-296), so the node visited last
  wins. `DatCandidates.BestIsLastNearest` says exactly who is picked.
- network-coding.c:1172 writes an address over the two header bytes that
  :1174-1175 read next, when the second packet lies in the coded buffer.
  `NetworkCoding.CodingRoundTrip` says which bytes come out, and
  `SecondTtlIsLost` gives two packets.
- bat_v_ogm.c:279 multiplies in 32 bits. `OgmV.PenaltyExact` says when that is
  harmless, and `PenaltyWraps` gives a throughput for which it is not.
- bat_v_ogm.c:326-328 compares with a number that starts at zero and survives
  restarts of the originator, so an OGM can be held back that was never
  forwarded in its epoch. `OgmV.HeldBackExactly` has the exact condition, and
  two lemmas beside it give an input for each case.
- bat_iv_ogm.c:1244-1247 multiplies in signed 32 bits, which the product can
  exceed. `TqMetric.CalcTqExact` says when, and that the result is exact anyway.
- network-coding.c:1708 compares the length field with the whole packet, not
  with its payload, and does not look at the packet to decode with.
  `NetworkCoding.DecodingStaysInside` has the exact condition, and
  `LengthNotChecked` an input for each case.
- bridge_loop_avoidance.c:1403-1406 leaves entries that have not expired yet in
  the jiffy of the setup. `BcastDuplist.DuplicateExactly` includes them.
- main.c:1080-1082 returns on an empty TVLV part, so that a handler that asks to
  be told of missing containers is not told then; bat_v_ogm.c:590-595 does not.
  `TvlvDispatch.ReceiverSeesLatest` and `DirectReceiverSeesLatest` say so.
- bat_iv_ogm.c:148 and :158 leave a new slot uninitialised.
  `OwnEcho.EchoWindowExact` says which bits of the window are bits of that
  memory: every own OGM scheduled on the interface pushes them up by one.
- bat_iv_ogm.c:408-418 accepts 24 or more zero bytes behind the last OGM as an
  OGM. `OgmAggregate.SplitExactly` has the exact condition, and
  `ZeroesPassForOgm` an input.

## Model

| member | source | states |
|---|---|---|
| SeqNo.SignedDistance | net/batman-adv/bitarray.h:37-46 | the signed 32-bit difference of two sequence numbers is the distance of their positions whenever that distance fits |
| SeqNo.SameNumberFarApart | net/batman-adv/bitarray.h:37-46 | two different positions with the same 32-bit number are at least 2^32 apart |
| Bitarray.GetPacketTracks | net/batman-adv/bitarray.c:44-98 | for a difference inside the range the shifted bitmap stands for exactly the set of received positions with the new one added; nothing is lost except by leaving the 64 positions |
| Bitarray.GetPacketRestarts | net/batman-adv/bitarray.c:72-98 | for a difference outside the range the bitmap forgets everything but the new position |
| Bitarray.TestBitIsSeen | net/batman-adv/bitarray.h:37-46 | the duplicate test is true exactly for positions that were received |
| Bitarray.TestBitOutOfRange | net/batman-adv/bitarray.h:37-46 | a number outside the range is never taken for a duplicate |
| Bitarray.WeightCounts | net/batman-adv/bitarray.h:37-46 | the number of set bits is the number of received positions in the window |
| Bitarray.ReceivePacket | net/batman-adv/bitarray.c:44-98 | the in-place routine leaves the bitmap of the specification and reports whether the window moved |
| ResetProtection.WindowProtected | net/batman-adv/routing.c:160-178 | a packet is ignored exactly when it looks like a restart within 30000 ms of the last one; a permitted restart records its time |
| BcastFilter.Originator.constructor | net/batman-adv/originator.c:901-902 | a new originator starts with an empty bitmap and a reset time that permits a restart at once |
| BcastFilter.Originator.Receive | net/batman-adv/routing.c:1071-1093 | the filter in place does one step of the specification |
| BcastFilter.StepInRange | net/batman-adv/routing.c:1071-1093 | inside the range a broadcast is accepted exactly when its position was not seen in this epoch |
| BcastFilter.StepRestart | net/batman-adv/routing.c:1071-1093 | outside the range a broadcast is accepted exactly when the protection time is over, and then starts a new epoch |
| BcastFilter.BitmapIsEpochHistory | net/batman-adv/routing.c:1071-1093 | after any run, bit i is set exactly when the position i behind the newest was accepted in the current epoch |
| BcastFilter.NeverAcceptedTwice | net/batman-adv/routing.c:1071-1093 | in any run no position is accepted twice within an epoch |
| BcastFilter.NumberRecursOnlyAfterWrap | net/batman-adv/routing.c:1071-1093 | the same 32-bit number is accepted again in an epoch only after the newest position moved more than 2^32 - 65536 past its first use |
| BcastFilter.ResetsFarApart | net/batman-adv/routing.c:160-178 | any two resets of a run are more than 30000 ms apart |
| BcastFilter.AcceptedExactly | net/batman-adv/routing.c:1071-1093 | acceptance of the next broadcast, decided from the history of the run alone, in both directions |
| OgmV.PenaltyNeverRaises | net/batman-adv/bat_v_ogm.c:257-280 | the forwarded throughput is never above the received one, 32-bit overflow included |
| OgmV.PenaltyExact | net/batman-adv/bat_v_ogm.c:279-279 | where the hop penalty applies, the forwarded throughput is the intended share if and only if the product fits in 32 bits |
| OgmV.NoPenalty | net/batman-adv/bat_v_ogm.c:264-277 | where no hop penalty applies: the default interface keeps the throughput, a half-duplex interface that repeats what it receives halves it unless it is at most 10 |
| OgmV.PenaltyWraps | net/batman-adv/bat_v_ogm.c:279-279 | a concrete case: 2 Tbit/s over one hop of penalty 30 |
| OgmV.OrigIfinfo.constructor | net/batman-adv/originator.c:368-403 | a new per-interface record |
| OgmV.OrigIfinfo.MetricUpdate | net/batman-adv/bat_v_ogm.c:388-457 | which OGMs pass, with their age and metric, and what is written, on the default interface and on specific ones |
| OgmV.OrigIfinfo.Forward | net/batman-adv/bat_v_ogm.c:295-372 | an OGM is forwarded only on a specific interface, only from the best next hop, only if its number differs from the last one remembered, and with its ttl lowered |
| OgmV.OrigIfinfo.ProcessPerOutif | net/batman-adv/bat_v_ogm.c:569-606 | one OGM on one outgoing interface: the new record, the OGM sent, and whether its TVLV containers are processed |
| OgmV.ForwardedIsWeaker | net/batman-adv/bat_v_ogm.c:295-372 | whatever is forwarded has a smaller ttl and no better throughput |
| OgmV.ResetsFarApart | net/batman-adv/routing.c:160-178 | in any run two restarts of an originator are more than 30000 ms apart, one epoch each |
| OgmV.AcceptedExactly | net/batman-adv/bat_v_ogm.c:404-424 | over all runs, from the history: an OGM is accepted exactly when its number is not behind the newest, or it looks like a restart of an originator with neighbours and the last restart is more than 30000 ms ago; a refused one changes nothing |
| OgmV.NewsExactly | net/batman-adv/bat_v_ogm.c:444-451 | over all runs: an accepted OGM is news exactly when it lies beyond all accepted before it in its epoch, and in the first epoch beyond number 0 |
| OgmV.NewsOncePerEpoch | net/batman-adv/bat_v_ogm.c:590-595 | in any run the OGMs whose TVLV containers are processed have strictly increasing positions within an epoch |
| OgmV.ForwardedOncePerEpoch | net/batman-adv/bat_v_ogm.c:326-335 | in any run the OGMs forwarded on an interface within an epoch have strictly increasing positions, although one number is remembered |
| OgmV.NumberForwardedAgainAfterWrap | net/batman-adv/bat_v_ogm.c:326-330 | the same number is forwarded twice in an epoch only at least 2^32 positions apart |
| OgmV.HeldBackExactly | net/batman-adv/bat_v_ogm.c:326-330 | over all runs, when exactly an OGM that passes every other check is not forwarded: at the position of the last remembered one or a multiple of 2^32 beyond it, at the same number in a later epoch, or at number 0 when none was remembered yet |
| OgmV.ForwardedExactly | net/batman-adv/bat_v_ogm.c:295-372 | over all runs, what exactly is sent: acceptable by the history, on a specific interface, let through by the route update, from the best next hop, not held back and with ttl left; with the ttl lowered and the penalised throughput |
| OgmV.FirstNumberZeroIsHeldBack | net/batman-adv/bat_v_ogm.c:326-328 | a concrete case: number 0 on a fresh record |
| OgmV.NumberBeforeRestartIsHeldBack | net/batman-adv/bat_v_ogm.c:326-328 | a concrete case: after a restart, the number forwarded last before it |
| OgmIvWindow.DuplicateIgnoresOrder | net/batman-adv/bat_iv_ogm.c:1332-1346 | the duplicate status is the same for any order of the neighbour list |
| OgmIvWindow.NeighNode.ReceiveOgm | net/batman-adv/bat_iv_ogm.c:1332-1355 | one neighbour in the loop: window, packet count and the three answers |
| OgmIvWindow.OrigIfinfo.constructor | net/batman-adv/originator.c:368-403 | a record without neighbours |
| OgmIvWindow.OrigIfinfo.AddNeigh | net/batman-adv/originator.c:633-686 | an unknown neighbour comes first in the list, with an empty window; a known one is not listed twice |
| OgmIvWindow.OrigIfinfo.ReceiveAt | net/batman-adv/bat_iv_ogm.c:1326-1357 | the step for one neighbour touches no other neighbour, although all are objects on the heap |
| OgmIvWindow.OrigIfinfo.ReceiveOnAll | net/batman-adv/bat_iv_ogm.c:1325-1358 | the loop with its running status computes the order-free status and moves every window |
| OgmIvWindow.OrigIfinfo.UpdateSeqnos | net/batman-adv/bat_iv_ogm.c:1283-1373 | one OGM, in place on shared neighbour objects, is one step of the specification |
| OgmIvWindow.Replay | net/batman-adv/bat_iv_ogm.c:1283-1373 | every state of every run of OGMs, new and removed neighbours satisfies the window invariant |
| OgmIvWindow.WindowsInLockstep | net/batman-adv/bat_iv_ogm.c:1283-1373 | all windows stand at last_real_seqno; bit i of a neighbour is set exactly when OGM last_real_seqno - i arrived through it; the count is the number of those, at most 64 |
| OgmIvWindow.ListedExactly | net/batman-adv/originator.c:633-686 | a neighbour not yet listed is added with an empty window, all others stay |
| OgmIvWindow.NeighboursDistinct | net/batman-adv/originator.c:633-686 | in any run every address on an interface is listed once |
| OgmIvWindow.ResetsFarApart | net/batman-adv/routing.c:160-178 | in any run two restarts are more than 30000 ms apart |
| OgmIvWindow.DuplicateExactly | net/batman-adv/bat_iv_ogm.c:1283-1373 | over all runs, the returned status from the history: protected exactly when the number looks like a restart within 30000 ms of the last one, else by who delivered this position before; a protected OGM changes nothing |
| OwnEchoTables.Mesh.OrigHashAddIf | net/batman-adv/bat_iv_ogm.c:138-175 | every originator keeps its slots and gets one more, of unspecified contents |
| OwnEchoTables.Mesh.OrigHashDelIf | net/batman-adv/bat_iv_ogm.c:186-243 | every originator loses exactly the slot of the removed interface |
| OwnEchoTables.Mesh.RenumberIfaces | net/batman-adv/originator.c:1380-1397 | the interfaces behind the removed one move down by one |
| OwnEchoTables.Mesh.EnableInterface | net/batman-adv/hard-interface.c:511-520 | adding an interface keeps the numbering invariant |
| OwnEchoTables.Mesh.DisableInterface | net/batman-adv/hard-interface.c:585-586 | removing an interface keeps the numbering invariant |
| OwnEchoTables.Mesh.OrigGet | net/batman-adv/bat_iv_ogm.c:254-294 | an unknown originator gets one zeroed slot per interface |
| OwnEchoTables.Mesh.SlideOwnBcastWindow | net/batman-adv/bat_iv_ogm.c:870-900 | the window of one interface slides on every originator |
| OwnEchoTables.Mesh.ScheduleOgm | net/batman-adv/bat_iv_ogm.c:923-933 | a new own OGM takes the next number and slides the windows |
| OwnEchoTables.Mesh.ProcessEcho | net/batman-adv/bat_iv_ogm.c:1665-1702 | an echoed own OGM sets its bit, through the interface number |
| OwnEcho.StepKeepsNumbered | net/batman-adv/originator.c:1313-1403 | every step keeps the numbers 0 .. n - 1 and n slots per originator |
| OwnEcho.SlotsSurvive | net/batman-adv/originator.c:1349-1398 | every interface that stays finds its own window and sum again after any enabling or disabling, under its new number |
| OwnEcho.EchoPosition | net/batman-adv/bat_iv_ogm.c:1681-1696 | the bit an echo sets belongs to the position of the own OGM it echoes |
| OwnEcho.NumbersAreExact | net/batman-adv/originator.c:1313-1403 | after any run the interface numbers are exactly 0 .. num_ifaces - 1 and every originator has that many slots |
| OwnEcho.OriginatorsAreMet | net/batman-adv/bat_iv_ogm.c:254-294 | in any run the originators with windows are exactly those met and not purged since |
| OwnEcho.EchoWindowExact | net/batman-adv/bat_iv_ogm.c:870-900 | after any run, bit i is set exactly when the echo of own OGM ogm_seqno - 2 - i was heard in range or a bit of the memory the slot was allocated in has slid there; the sum is the number of set bits once the slot was written, and counts those echoes when nothing of that memory is left |
| TqMetric.HopPenaltyShrinks | net/batman-adv/bat_iv_ogm.c:389-398 | the hop penalty never raises a quality and strictly lowers it when both are at least 1 |
| TqMetric.AsymPenaltyRange | net/batman-adv/bat_iv_ogm.c:1225-1232 | with at most 64 received OGMs no intermediate of the cubic penalty wraps and the result lies in 0 .. 255 |
| TqMetric.TqOwnRange | net/batman-adv/bat_iv_ogm.c:1201-1218 | from the counts: the own quality is 255 times the share of our OGMs that came back among those received from the neighbour, at most 255, and zero exactly when none were received or too few came back |
| TqMetric.TqOwnMonotone | net/batman-adv/bat_iv_ogm.c:1201-1218 | the more of our OGMs came back, the better the own quality |
| TqMetric.IfacePenaltyExact | net/batman-adv/bat_iv_ogm.c:1234-1242 | the interface factor is 255, less the hop penalty when a wireless interface repeats what it receives |
| TqMetric.SignedProductExact | net/batman-adv/bat_iv_ogm.c:1244-1247 | of the multiplications in 32 signed bits only the last can wrap, exactly from 2^31 on, and the conversion to unsigned undoes it |
| TqMetric.CalcTqExact | net/batman-adv/bat_iv_ogm.c:1244-1251 | with at most 64 received OGMs the product of the four factors fits in 32 unsigned bits; the signed product is negative if and only if it is 2^31 or more; the result is the exact quotient in both cases |
| TqMetric.CalcTqOfLink | net/batman-adv/bat_iv_ogm.c:1201-1251 | the combined quality from the fields of the link alone: received quality, share of our OGMs, cubic asymmetry, interface |
| TqMetric.SignedProductWraps | net/batman-adv/bat_iv_ogm.c:1244-1251 | a concrete case: the signed product of a perfect link is negative, and its quality is still 255 |
| TqMetric.CalcTqBelowFactors | net/batman-adv/bat_iv_ogm.c:1244-1251 | the combined quality is at most each of its four factors |
| TqMetric.CalcTqMonotone | net/batman-adv/bat_iv_ogm.c:1244-1251 | a better received quality never gives a worse combined one |
| TqMetric.CalcTqMonotoneInEchoes | net/batman-adv/bat_iv_ogm.c:1201-1251 | a link on which more of our OGMs come back is never rated worse |
| TqMetric.PathDecay | net/batman-adv/bat_iv_ogm.c:842-845 | along any path the quality never grows, and falls at every hop until it is zero when the penalties are at least 1 |
| TqMetric.TravelExactly | net/batman-adv/bat_iv_ogm.c:812-863 | along any path: an OGM gets through exactly when its ttl lasts and every node heard it from its best next hop or from the originator; with which ttl, quality and flags it arrives |
| TqMetric.ReceptionLowersWeight | net/batman-adv/bat_iv_ogm.c:812-863 | with at most k copies made per reception, the sum of (k+1)^ttl over the copies in flight strictly falls |
| TqMetric.FloodDiesOut | net/batman-adv/bat_iv_ogm.c:823-863 | every run of a flood has at most as many receptions as its initial weight, on any topology |
| OgmAggregate.EncodedIsOgm | net/batman-adv/packet.h:223-237 | the fields laid out one behind the other are taken for one OGM, with its ttl and flags in place |
| OgmAggregate.SplitExactly | net/batman-adv/bat_iv_ogm.c:1764-1777 | a frame of OGMs and trailing bytes comes apart into exactly those OGMs if and only if they fit in 512 bytes and the trailing bytes do not pass for another OGM |
| OgmAggregate.ZeroesPassForOgm | net/batman-adv/bat_iv_ogm.c:408-418 | a concrete case: 24 zero bytes behind the last OGM |
| OgmAggregate.PaddingIsIgnored | net/batman-adv/bat_iv_ogm.c:408-418 | padding shorter than a header adds no OGM |
| OgmAggregate.Unpack | net/batman-adv/bat_iv_ogm.c:1764-1777 | the receive loop visits exactly the OGMs of the specification |
| OgmAggregate.NewCarries | net/batman-adv/bat_iv_ogm.c:635-717 | a new frame carries the one OGM it was made for |
| OgmAggregate.AggregateCarries | net/batman-adv/bat_iv_ogm.c:720-737 | an OGM that may join keeps the frame invariant: bytes in order, the direct link flag at the index of the OGM, at most 21 OGMs in 512 bytes, one outgoing interface, a send time at most 100 ms after each is due, one incoming interface for all direct links |
| OgmAggregate.AggregateKeepsKind | net/batman-adv/bat_iv_ogm.c:590-617 | direct links and flooded OGMs never mix in a foreign frame, and a direct link joins only with ttl 1 |
| OgmAggregate.JoinsExactly | net/batman-adv/bat_iv_ogm.c:535-620 | when exactly an OGM may join a frame, from what is queued there: time window, size, interface, and the rules for flooded OGMs and direct links |
| OgmAggregate.ForwQueue.constructor | net/batman-adv/types.h:1236-1247 | an empty queue |
| OgmAggregate.ForwQueue.FindFrame | net/batman-adv/bat_iv_ogm.c:770-785 | the first frame that the OGM may join, or proof that there is none |
| OgmAggregate.ForwQueue.QueueAdd | net/batman-adv/bat_iv_ogm.c:749-810 | an OGM joins the first possible frame or becomes its own, and only a foreign OGM without a free slot is dropped; all frames keep their invariant |
| OgmAggregate.ForwQueue.SendFrame | net/batman-adv/bat_iv_ogm.c:421-519 | a frame leaves the queue, every OGM in it on the interface it was queued for, when it is due or at most 100 ms later, and the receiver takes it apart into the queued OGMs with the right flags |
| OgmAggregate.SendToIf | net/batman-adv/bat_iv_ogm.c:434-471 | the in-place flag loop computes the specification |
| OgmAggregate.AdjustedExactly | net/batman-adv/bat_iv_ogm.c:434-471 | the loop rewrites the flag of the i-th OGM and no other byte |
| OgmAggregate.SentExactly | net/batman-adv/bat_iv_ogm.c:434-471 | from queue to receiver: the same OGMs in order, DIRECTLINK set on the i-th exactly when it was queued as a direct link and came in on the interface it is sent on |
| Fragmentation.SendPacket | net/batman-adv/fragmentation.c:405-516 | cutting from the tail computes the specification, including the early giving up |
| Fragmentation.SendSplits | net/batman-adv/fragmentation.c:439-509 | whenever a packet is reported sent, its fragments are numbered from 0, not empty, and make up the packet |
| Fragmentation.SentExactly | net/batman-adv/fragmentation.c:452-493 | from the mtu: a packet is sent if and only if 15 fragments of min(mtu, 1400) bytes hold it; the 16th that the check admits is never used |
| Fragmentation.FragmentsFit | net/batman-adv/fragmentation.c:452-509 | every fragment with its header fits the mtu and 1400 bytes, and all but the last fill the smaller of the two |
| Fragmentation.SixteenthIsNeverSent | net/batman-adv/fragmentation.c:460-493 | a concrete case: 15 * 1380 + 1 bytes over an mtu of 1400 pass the size check and are not sent |
| Fragmentation.OrigNode.constructor | net/batman-adv/originator.c:922-926 | eight empty buckets |
| Fragmentation.OrigNode.InitChain | net/batman-adv/fragmentation.c:113-128 | a bucket is taken over exactly by a different sequence number |
| Fragmentation.OrigNode.InsertPacket | net/batman-adv/fragmentation.c:143-240 | the insertion loop does one step of the specification on its bucket and leaves the others alone |
| Fragmentation.OrigNode.SkbBuffer | net/batman-adv/fragmentation.c:313-337 | one arriving fragment: dropped, buffered, or the merged packet |
| Fragmentation.MergePackets | net/batman-adv/fragmentation.c:252-297 | the payloads are appended in chain order |
| Fragmentation.InsertDescending | net/batman-adv/fragmentation.c:188-214 | insertion keeps the chain strictly descending and refuses exactly the numbers that are there |
| Fragmentation.MergeIncomplete | net/batman-adv/fragmentation.c:217-230 | no proper subset of the fragments reaches the total size |
| Fragmentation.FirstArrival | net/batman-adv/fragmentation.c:173-186 | the first fragment takes over the bucket |
| Fragmentation.LaterArrival | net/batman-adv/fragmentation.c:143-240 | every later one completes the packet, waits, or is refused as a duplicate, decided by the set of fragments that arrived |
| Fragmentation.RunHolds | net/batman-adv/fragmentation.c:313-337 | for any sequence of arrivals, and any fragments held before: what the bucket holds and what was handed up, by the set of fragments held or arrived |
| Fragmentation.RoundTrip | net/batman-adv/fragmentation.c:313-337 | any permutation with repetitions and losses, among traffic for other buckets, hands up exactly the packet, once, if and only if nothing is missing |
| Fragmentation.ResumedRoundTrip | net/batman-adv/fragmentation.c:313-337 | a bucket that already holds part of the packet hands it up, once, if and only if every fragment is held or arrives |
| Fragmentation.HeldNumberIsRefused | net/batman-adv/fragmentation.c:113-128 | a bucket that holds the sequence number, drained or with fragments of a packet of another size, hands up nothing, whatever arrives |
| Fragmentation.RoundTripExactly | net/batman-adv/fragmentation.c:113-128 | unless fragments of a packet of the same number and size wait in the bucket, the packet comes through if and only if the bucket held another sequence number |
| Fragmentation.BucketsStayInOrder | net/batman-adv/fragmentation.c:143-240 | over all runs, whatever arrives: a bucket holds fragments of one number and one total size, in order and without repetition, at most 22080 bytes, and never a complete packet |
| Fragmentation.HandedUpHasSize | net/batman-adv/fragmentation.c:217-230 | over all runs of fragments below 43456 bytes: what is handed up has exactly the announced size |
| Bla.XorChange | net/batman-adv/bridge_loop_avoidance.c:681-692 | adding or removing one claim changes the checksum by its own |
| Bla.GetGwKeepsInv | net/batman-adv/bridge_loop_avoidance.c:439-501 | creating a gateway keeps the invariant; one of our own waits for its first periods |
| Bla.DelGwClaimsKeepsInv | net/batman-adv/bridge_loop_avoidance.c:284-317 | dropping the claims of a gateway keeps the invariant and leaves it none |
| Bla.SetRequestKeepsInv | net/batman-adv/bridge_loop_avoidance.c:586-603 | marking a gateway counts it once |
| Bla.ClearRequestKeepsInv | net/batman-adv/bridge_loop_avoidance.c:776-782 | unmarking a gateway uncounts it once |
| Bla.AddClaimKeepsInv | net/batman-adv/bridge_loop_avoidance.c:633-697 | a new or moved claim keeps every checksum exact |
| Bla.DelClaimKeepsInv | net/batman-adv/bridge_loop_avoidance.c:705-729 | a removed claim keeps every checksum exact |
| Bla.RemoveGwKeepsInv | net/batman-adv/bridge_loop_avoidance.c:1131-1159 | removing a gateway keeps counter and owners exact |
| BlaRuns.SendRequestKeepsInv | net/batman-adv/bridge_loop_avoidance.c:586-603 | emptying, marking and asking a gateway keeps the invariant |
| BlaRuns.GroupKeepsInv | net/batman-adv/bridge_loop_avoidance.c:1228-1230 | a new group keeps the invariant |
| BlaRuns.ProcessClaimKeepsInv | net/batman-adv/bridge_loop_avoidance.c:981-1107 | every claim frame keeps the invariant, whichever handler it reaches |
| BlaRuns.RxKeepsInv | net/batman-adv/bridge_loop_avoidance.c:1620-1698 | a packet from the mesh keeps the invariant |
| BlaRuns.TxKeepsInv | net/batman-adv/bridge_loop_avoidance.c:1717-1787 | a packet to the mesh keeps the invariant |
| BlaRuns.TickAllKeepsInv | net/batman-adv/bridge_loop_avoidance.c:1323-1355 | the countdown of our own gateways keeps the invariant |
| BlaRuns.RunInv | net/batman-adv/bridge_loop_avoidance.c:284-1790 | after any sequence of handler steps and changes of the primary address each checksum is the XOR over exactly the claims of its gateway, every owner is known on the same VLAN, and num_requests counts the marked gateways |
| BlaRuns.MulticastHeldWhileOutOfSync | net/batman-adv/bridge_loop_avoidance.c:1637-1640 | in any run, no multicast passes in either direction while some gateway is marked |
| BlaTraffic.RxExactly | net/batman-adv/bridge_loop_avoidance.c:1620-1698 | over all runs: a packet from the mesh is held back exactly when it is a broadcast and some gateway is marked or another gateway has claimed the client; one handed on makes the client ours, with a claim frame if it was not |
| BlaTraffic.TxExactly | net/batman-adv/bridge_loop_avoidance.c:1717-1787 | over all runs: a packet to the mesh is held back exactly when it is multicast and some gateway is marked or another gateway has claimed the client; one handed on ends our claim, with an unclaim frame |
| BlaTraffic.NothingHeldWhenOff | net/batman-adv/bridge_loop_avoidance.c:1634-1635 | turned off, every packet is handed on and no claim changes |
| BlaTraffic.ExactlyOneHandsOn | net/batman-adv/bridge_loop_avoidance.c:1620-1787 | of several gateways that agree on who has claimed a client, after any runs, exactly one hands its broadcasts on, in either direction |
| BlaTraffic.FrameExactly | net/batman-adv/bridge_loop_avoidance.c:915-1107 | which claim frames are heeded, and what each does to claims, group and gateways |
| BlaTraffic.ClaimExactly | net/batman-adv/bridge_loop_avoidance.c:633-697 | a claim frame makes the claim, whoever had it; a new gateway is not waited for |
| BlaTraffic.UnclaimExactly | net/batman-adv/bridge_loop_avoidance.c:832-858 | an unclaim frame of a known gateway removes the claim, whoever has it |
| BlaTraffic.AnnounceExactly | net/batman-adv/bridge_loop_avoidance.c:740-787 | an announcement keeps its gateway alive; a mismatch drops its claims and asks |
| BlaTraffic.OnlyOursAnswered | net/batman-adv/bridge_loop_avoidance.c:798-820 | a request is answered exactly when it is heeded and addressed to us twice |
| BlaTraffic.PeriodicExactly | net/batman-adv/bridge_loop_avoidance.c:1295-1362 | over all runs, what the periodic work leaves: gateways heard of in the last 60 s, claims of theirs, our own claims used in the last 100 s; our gateways kept alive and counted down |
| BlaTraffic.PurgeAllEmpties | net/batman-adv/bridge_loop_avoidance.c:1236-1240 | turning it off empties both tables and the request counter |
| BlaTraffic.WaitsThreePeriods | net/batman-adv/bridge_loop_avoidance.c:1332-1352 | a gateway of our own that is new is waited for through exactly three periods |
| BlaTraffic.GroupIsLargest | net/batman-adv/bridge_loop_avoidance.c:945-970 | over all runs a gateway belongs to the largest group it has heard of since its address was set |
| BlaRuns.MismatchRequests | net/batman-adv/bridge_loop_avoidance.c:740-787 | a mismatching announcement, of whatever group of the mesh, drops the claims, marks the gateway and asks it with the larger of the two groups |
| BlaRuns.MatchClears | net/batman-adv/bridge_loop_avoidance.c:776-782 | a matching announcement, of whatever group, clears the mark and changes no claim |
| BlaRuns.ResponderAnswers | net/batman-adv/bridge_loop_avoidance.c:538-576 | the responder answers a request of whatever group of the mesh with its own claims of the VLAN and its checksum |
| BlaRuns.ClaimFramesAdd | net/batman-adv/bridge_loop_avoidance.c:870-895 | handling a list of claim frames, among other events that leave the gateway alone, adds exactly those claims |
| BlaRuns.LeftAlone | net/batman-adv/bridge_loop_avoidance.c:740-1790 | which events leave the claims and the mark of a gateway alone: frames of other gateways and traffic from the mesh about clients it has not claimed, all traffic to the mesh, periodic work while it is heard of, a new primary address |
| BlaRuns.Resynchronises | net/batman-adv/bridge_loop_avoidance.c:538-970 | from any stale table and with any two groups: mismatch, request, and the answer, in order but among other events, leave the requester with exactly the claims of the responder, and the mark cleared |
| BlaTables.BlaPriv.constructor | net/batman-adv/bridge_loop_avoidance.c:1378-1429 | empty tables, and the group of the primary address; in place, equal to the specification step, and the invariant kept |
| BlaTables.BlaPriv.ResetGroup | net/batman-adv/bridge_loop_avoidance.c:1228-1230 | the group follows the primary address; in place, equal to the specification step, and the invariant kept |
| BlaTables.BlaPriv.DelBackboneClaims | net/batman-adv/bridge_loop_avoidance.c:284-317 | the claims of one gateway go, its checksum becomes zero; in place, equal to the specification step, and the invariant kept |
| BlaTables.BlaPriv.GetBackboneGw | net/batman-adv/bridge_loop_avoidance.c:439-501 | a gateway is found or made; in place, equal to the specification step, and the invariant kept |
| BlaTables.BlaPriv.UpdateOwnBackboneGw | net/batman-adv/bridge_loop_avoidance.c:513-527 | our own gateway is found or made, and touched; in place, equal to the specification step, and the invariant kept |
| BlaTables.BlaPriv.RequestClaims | net/batman-adv/bridge_loop_avoidance.c:586-603 | a gateway is emptied, marked once and asked; in place, equal to the specification step, and the invariant kept |
| BlaTables.BlaPriv.InsertClaim | net/batman-adv/bridge_loop_avoidance.c:633-697 | a claim is added or moved between gateways; in place, equal to the specification step, and the invariant kept for a gateway on the VLAN of the claim |
| BlaTables.BlaPriv.RemoveClaim | net/batman-adv/bridge_loop_avoidance.c:705-729 | a claim is removed and leaves the checksum of its owner; in place, equal to the specification step, and the invariant kept |
| BlaTables.BlaPriv.ReceiveAnnounce | net/batman-adv/bridge_loop_avoidance.c:740-787 | announcement handler; in place, equal to the specification step, and the invariant kept |
| BlaTables.BlaPriv.ReceiveUnclaim | net/batman-adv/bridge_loop_avoidance.c:832-858 | unclaim handler; in place, equal to the specification step, and the invariant kept |
| BlaTables.BlaPriv.ReceiveClaim | net/batman-adv/bridge_loop_avoidance.c:870-895 | claim handler; in place, equal to the specification step, and the invariant kept |
| BlaTables.BlaPriv.AnswerRequest | net/batman-adv/bridge_loop_avoidance.c:538-576 | all own claims of the VLAN, in any order of the table, then the announcement; in place, equal to the specification step |
| BlaTables.BlaPriv.ReceiveFrame | net/batman-adv/bridge_loop_avoidance.c:981-1107 | group check and dispatch of a claim frame; in place, equal to the specification step, and the invariant kept |
| BlaTables.BlaPriv.PurgeBackboneGws | net/batman-adv/bridge_loop_avoidance.c:1118-1160 | the loop over the gateways, in any order; in place, equal to the specification step, and the invariant kept |
| BlaTables.BlaPriv.PurgeOwnClaims | net/batman-adv/bridge_loop_avoidance.c:1171-1209 | the loop over the claims, in any order: exactly the expired ones go, and exactly one unclaim frame is sent for each of our own; in place, equal to the specification step, and the invariant kept |
| BlaTables.BlaPriv.CountDown | net/batman-adv/bridge_loop_avoidance.c:1332-1352 | one of our own gateways stops waiting after its first periods; in place, equal to the specification step |
| BlaTables.BlaPriv.AnnounceOwnGws | net/batman-adv/bridge_loop_avoidance.c:1323-1355 | the loop over our own gateways, in any order: exactly one announcement with its checksum is sent for each; in place, equal to the specification step, and the invariant kept |
| BlaTables.BlaPriv.PeriodicWork | net/batman-adv/bridge_loop_avoidance.c:1295-1362 | purges, then announcements, and exactly which frames each of them sends; in place, equal to the specification step, and the invariant kept |
| BlaTables.BlaPriv.ReceiveFromMesh | net/batman-adv/bridge_loop_avoidance.c:1620-1698 | gating and claiming of a packet from the mesh; in place, equal to the specification step, and the invariant kept |
| BlaTables.BlaPriv.SendToMesh | net/batman-adv/bridge_loop_avoidance.c:1717-1787 | gating and unclaiming of a packet to the mesh; in place, equal to the specification step, and the invariant kept |
| BcastDuplist.Duplist.constructor | net/batman-adv/bridge_loop_avoidance.c:1402-1406 | sixteen zeroed entries, stamped so that they have expired in every jiffy after the setup |
| BcastDuplist.Duplist.CheckBcastDuplist | net/batman-adv/bridge_loop_avoidance.c:1447-1501 | the search that stops at the first expired entry answers as a full scan would |
| BcastDuplist.RecordKeepsOrder | net/batman-adv/bridge_loop_avoidance.c:1487-1496 | entry times never increase from the current entry onward |
| BcastDuplist.RingHoldsLast | net/batman-adv/bridge_loop_avoidance.c:1487-1496 | after any run the ring holds the last 16 recorded broadcasts |
| BcastDuplist.DuplicateExactly | net/batman-adv/bridge_loop_avoidance.c:1461-1485 | in any run, refused exactly when one of the last 16 recorded broadcasts is unexpired, has the same checksum and another originator, or when an entry of the setup is still there and unexpired and the checksum is 0 and the originator not |
| BcastDuplist.FirstJiffy | net/batman-adv/bridge_loop_avoidance.c:1402-1406 | a concrete case: in the jiffy of the setup a broadcast with checksum 0 is refused without any earlier one |
| NetworkCoding.Memxor | net/batman-adv/network-coding.c:1038-1044 | the byte loop is an XOR of one range |
| NetworkCoding.WriteFirstInfo | net/batman-adv/network-coding.c:1159-1167 | the header fields about the first packet, written over the buffer in source order |
| NetworkCoding.WriteSecondInfo | net/batman-adv/network-coding.c:1169-1176 | the header fields about the second packet, in source order: each read sees the earlier writes |
| NetworkCoding.CodePackets | net/batman-adv/network-coding.c:1107-1180 | which packet is first, which buffer is coded into, and the coded bytes |
| NetworkCoding.DecodePacket | net/batman-adv/network-coding.c:1654-1735 | a length field beyond the buffer is refused and changes nothing; otherwise the packet is decoded in place |
| NetworkCoding.DecodingStaysInside | net/batman-adv/network-coding.c:1706-1716 | when exactly decoding stays inside both buffers, and which length fields pass the check without fitting |
| NetworkCoding.LengthNotChecked | net/batman-adv/network-coding.c:1706-1716 | concrete cases: a length field of 1 that passes the check when the coded packet, or the packet to decode with, has no payload |
| NetworkCoding.DecodeFitting | net/batman-adv/network-coding.c:1711-1731 | decoding in place, with the trimming of the shorter packet |
| NetworkCoding.WriteUnicastHeader | net/batman-adv/network-coding.c:1726-1731 | the restored unicast header |
| NetworkCoding.CodedFields | net/batman-adv/network-coding.c:1159-1180 | the coded header field by field, with the two bytes that are overwritten before they are read |
| NetworkCoding.DecodesLonger | net/batman-adv/network-coding.c:1714-1716 | the longer payload comes out with the help of the shorter packet |
| NetworkCoding.DecodesShorter | net/batman-adv/network-coding.c:1714-1723 | the shorter payload comes out with the help of the longer packet, at its own length |
| NetworkCoding.LooksUpTheOther | net/batman-adv/network-coding.c:1761-1769 | each receiver looks for the previous hop and checksum of the packet it needs |
| NetworkCoding.CodingRoundTrip | net/batman-adv/network-coding.c:1113-1180 | for any two payloads both receivers get their own packet: payload, length, destination; ttl and ttvn for the first always, and for the second unless it lies in the coded buffer, where they are the last two bytes of its destination |
| NetworkCoding.SecondTtlIsLost | net/batman-adv/network-coding.c:1172-1175 | a concrete case: a second packet with the ttl 50 that is restored with the ttl 0 |
| DatCandidates.ScoreIsDistance | net/batman-adv/distributed-arp-table.c:537-538 | the 16-bit value that is maximised is the complement of the ring distance past the key |
| DatCandidates.BestIsLastNearest | net/batman-adv/distributed-arp-table.c:461-500 | whom a round picks, in both directions: the nearest capable node left, and of several the one visited last |
| DatCandidates.RoundIsBest | net/batman-adv/distributed-arp-table.c:482-484 | the check against the previous round never rejects a node that is still to be chosen |
| DatCandidates.ChooseNextCandidate | net/batman-adv/distributed-arp-table.c:510-564 | one round in place, on slots of arbitrary contents |
| DatCandidates.SelectCandidates | net/batman-adv/distributed-arp-table.c:579-608 | three rounds in place: the chosen nodes, then empty slots |
| DatCandidates.RoundsAreNearest | net/batman-adv/distributed-arp-table.c:572-574 | the candidates are distinct capable nodes in order of distance, as many as exist up to three, and no capable node left out is strictly nearer |
| DatCandidates.OrderDoesNotMatter | net/batman-adv/distributed-arp-table.c:527-551 | with distinct addresses the choice does not depend on the order of the table |
| DatCandidates.TieGoesToLastVisited | net/batman-adv/distributed-arp-table.c:490-495 | two nodes with one address are chosen in the opposite of the table order, whichever has the lower hardware address |
| TvlvContainers.ParseExactly | net/batman-adv/main.c:1022-1043 | the containers visited in any buffer, in both directions: those whose bytes make up the buffer up to a rest without another one |
| TvlvContainers.RoundTrip | net/batman-adv/main.c:923-935 | parsing what was appended visits exactly the registered containers in order |
| TvlvContainers.RegistryIsMap | net/batman-adv/main.c:828-854 | after any sequence of registrations the list holds, once, the latest value of every key that is still registered |
| TvlvContainers.AnnouncedExactly | net/batman-adv/main.c:828-940 | the same for what a receiver parses |
| TvlvContainers.Registry.Get | net/batman-adv/main.c:726-747 | the first container of that type and version |
| TvlvContainers.Registry.Remove | net/batman-adv/main.c:783-796 | one container leaves the list |
| TvlvContainers.Registry.Unregister | net/batman-adv/main.c:805-814 | a key is removed |
| TvlvContainers.Registry.Register | net/batman-adv/main.c:828-854 | the old value of the key is replaced, the new one comes first |
| TvlvContainers.Registry.ListSize | net/batman-adv/main.c:759-772 | the 16-bit size is that of the appended bytes, modulo 2^16 |
| TvlvContainers.Registry.OgmAppend | net/batman-adv/main.c:903-940 | the OGM header is kept and followed by the bytes of all containers |
| TvlvDispatch.Dispatcher.constructor | net/batman-adv/main.c:159-160 | no handlers |
| TvlvDispatch.Dispatcher.Get | net/batman-adv/main.c:667-689 | the first handler of that type and version |
| TvlvDispatch.Dispatcher.Register | net/batman-adv/main.c:1104-1139 | the first registration of a key stays |
| TvlvDispatch.Dispatcher.Unregister | net/batman-adv/main.c:1148-1162 | a handler is removed, the others stay |
| TvlvDispatch.Dispatcher.CallHandler | net/batman-adv/main.c:957-994 | who is called, what is marked, what is returned |
| TvlvDispatch.Dispatcher.VisitContainers | net/batman-adv/main.c:1022-1043 | the parser loop: it ends on any buffer and makes the calls for exactly the parsed containers |
| TvlvDispatch.Dispatcher.CallMissing | net/batman-adv/main.c:1048-1058 | the final loop calls who was not called, only through callbacks that exist, and clears every mark |
| TvlvDispatch.Dispatcher.ContainersProcess | net/batman-adv/main.c:1010-1061 | all calls for a buffer; afterwards no handler is marked |
| TvlvDispatch.Dispatcher.OgmReceive | net/batman-adv/main.c:1070-1088 | an OGM without TVLV bytes calls nobody, not even for what is missing |
| TvlvDispatch.Dispatcher.Ogm2Receive | net/batman-adv/bat_v_ogm.c:590-595 | an OGM2 is passed on with or without TVLV bytes |
| TvlvDispatch.MarkedExactly | net/batman-adv/main.c:976-979 | a handler is marked exactly when a container reached it |
| TvlvDispatch.OgmCallsExactly | net/batman-adv/main.c:1010-1061 | the calls one handler gets for an OGM: its containers in order if the originator is known, else a single not-found call if it asked for that; at least one, and exactly one when its key occurs at most once |
| TvlvDispatch.UnicastCallsExactly | net/batman-adv/main.c:980-991 | for a unicast packet: its containers in order and no not-found call |
| TvlvDispatch.JoinedZero | net/batman-adv/main.c:1020-1046 | the result for a unicast packet is success exactly when every callback reported success |
| TvlvDispatch.ReceiverSeesLatest | net/batman-adv/main.c:828-1088 | from the registry of the sender to the handler of a B.A.T.M.A.N. IV receiver: no call if nothing is registered, else one call with the latest value, or one for its absence |
| TvlvDispatch.DirectReceiverSeesLatest | net/batman-adv/bat_v_ogm.c:590-595 | the same through an OGM2 packet and its 16-bit length, to a B.A.T.M.A.N. V receiver, which passes even an empty TVLV part on: one call with the latest value, or one for its absence |
| Multicast.StepInv | net/batman-adv/multicast.c:737-783 | every new originator, OGM and purge keeps the counters exact |
| Multicast.RunInv | net/batman-adv/multicast.c:737-829 | after any run num_disabled counts the initialised originators without the capability, and each want counter is the length of its list and the number of originators with the flag |
| Multicast.OgmExactly | net/batman-adv/packet.h:105-109 | what an OGM makes known of a node: the three lowest bits of the first byte, and whether it announces any |
| Multicast.McastPriv.constructor | net/batman-adv/types.h:761-774 | all counters zero, all lists empty |
| Multicast.McastPriv.NewOrig | net/batman-adv/originator.c:904-910 | an unknown originator has no flags and is not initialised |
| Multicast.McastPriv.WantUnsnoopUpdate | net/batman-adv/multicast.c:605-637 | counter and list follow a toggled flag |
| Multicast.McastPriv.WantIpv4Update | net/batman-adv/multicast.c:650-682 | counter and list follow a toggled flag |
| Multicast.McastPriv.WantIpv6Update | net/batman-adv/multicast.c:695-727 | counter and list follow a toggled flag |
| Multicast.McastPriv.TvlvOgmHandler | net/batman-adv/multicast.c:737-783 | one OGM, in place, is one step of the specification |
| Multicast.McastPriv.PurgeOrig | net/batman-adv/multicast.c:814-829 | a purged originator leaves all counters and lists |
| Multicast.McastPriv.ForwModeCheck | net/batman-adv/multicast.c:372-394 | which frames may be forwarded by less than flooding |
| Multicast.McastPriv.ForwMode | net/batman-adv/multicast.c:551-592 | the forwarding mode and the single receiver |
| Multicast.LeavesOutExactly | net/batman-adv/multicast.c:551-592 | after any run and with an accurate translation table: an interested node is left out if and only if the frame could not be looked into, or the only interested node is known to the translation table alone and the lookup failed |
| Multicast.ModeExactly | net/batman-adv/multicast.c:551-592 | after any run, the mode from what the nodes announced: when exactly a frame is flooded, sent to one node or to none |
| Wire.BigEndianRoundTrip | net/batman-adv/packet.h:531-535 | a 16-bit length survives network byte order |
| Wire.BigEndianOfBytes | net/batman-adv/packet.h:531-535 | and any two bytes are the encoding of the number they hold |

## Left out

- Locks, RCU, reference counts, timers and workqueues: every handler is one atomic step.
- Allocation failures, except where the source returns a mode for them (multicast forwarding).
- sk_buff headroom, tailroom, clones, linearisation and priorities: a packet is a byte sequence. In network coding the header is laid over one byte array.
- Hash bucket layout, jhash and the CRC algorithms: equal checksums are not claimed to mean equal claim sets.
- Aliasing of records in the hash tables of BLA, of the originator table in `OwnEcho` and of the multicast nodes: the records are values in a map, the map is a field that the methods reassign. The fragment buckets, the bitmaps, the neighbour list, the duplicate ring, the packet buffers and the candidate array are objects or arrays.
- The frames in the OGM queue are values in a list; only the frame being sent is an array.
- BlaRuns.Resynchronises: assumes that the answer is delivered completely and in order, and that what else is handled in between does not change the claims or the mark of the responder (`BlaRuns.LeftAlone` says what does not), because gateways do not agree on owners in general: two simultaneous claims can swap owners.
- BlaTables.BlaPriv.ReceiveFrame: takes a parsed claim frame; the byte layout of the ARP frame and QinQ tags are not modelled.
- NetworkCoding.DecodePacket: for a length field that passes the source's check, requires that both buffers hold that many payload bytes behind their headers, as they do for what `CodePackets` makes.
- The removal of translation table entries when a gateway appears (bridge_loop_avoidance.c:483-489).
- The renaming of a gateway in place after a change of the primary address (bridge_loop_avoidance.c:1246-1264), which leaves the record in the hash bucket of its old address.
- The gateway list of `batadv_bla_is_backbone_gw` and the loop detection by group beyond the group comparison.
- OwnEchoTables.Mesh.EnableInterface: models successful additions; the roll back after a failed allocation is left out.
- TvlvContainers.Registry.OgmAppend: requires the containers to fit into the 16-bit length, because beyond that the source writes past the buffer it sized with the wrapped length.
- TvlvDispatch.Dispatcher.Register: requires an OGM callback with the not-found flag, because the final loop calls it without a check; every registration in the source has one.
- OgmAggregate.ForwQueue.SendFrame: states nothing about a frame longer than 512 bytes, because no receiver takes one apart.
- OgmAggregate.ForwQueue.QueueAdd: assumes that the OGM is as long as its length field says, as both callers arrange; the buffer capacity of the skb is not modelled.
- Conservation of `batman_queue_left`: purged packets do not give their slots back.
- Fragmentation.RoundTripExactly: leaves out a bucket where fragments of a packet of the same number and size wait; `ResumedRoundTrip` has the case where they are fragments of the same packet.
- Fragmentation.RoundTrip: no fragment of another packet with the same bucket arrives in between, since it would take the bucket over.
- Purging of fragment buckets by age, and forwarding of fragments (fragmentation.c:66-83, 351-391).
- The choice of the best next hop, bonding, gateway selection and the random weighting in network coding: their results are parameters.
- Which packets are buffered for coding and decoding, and for how long: a receiver is given the packet it needs.
- The kref failure paths in multicast and DAT lookups, where a node is being freed while it is found.
- The translation table, ELP, ICMP, debugfs, sysfs, VLAN and ethtool code.

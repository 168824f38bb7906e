// The steps of OwnEcho on the tables of a mesh, updated entry by entry as the
// loops of originator.c and bat_iv_ogm.c do.  The hash tables are maps whose
// records are values; the loops visit the entries in any order.

module OwnEchoTables {
  import opened SeqNo
  import opened Bitarray
  import opened OwnEcho

  class Mesh {
    var hardIfaces: map<nat, Iface>
    var numIfaces: nat
    var origHash: map<nat, Own>

    ghost function View(): State
      reads this
    {
      State(hardIfaces, numIfaces, origHash)
    }

    ghost predicate Valid()
      reads this
    {
      Numbered(View())
    }

    constructor ()
      ensures Valid() && View() == State(map[], 0, map[])
    {
      hardIfaces, numIfaces, origHash := map[], 0, map[];
    }

    // batadv_orig_hash_add_if with batadv_iv_ogm_orig_add_if: copy the old
    // slots into longer buffers; memory is what the new slots happen to hold.
    method OrigHashAddIf(maxIfNum: nat, memory: map<nat, (Bits, nat)>)
      requires origHash.Keys <= memory.Keys
      requires forall o :: o in origHash ==> |origHash[o].own| + 1 == |origHash[o].sum| + 1 == maxIfNum
      modifies this`origHash
      ensures origHash == map o | o in old(origHash) :: AddSlot(old(origHash)[o], memory[o].0, memory[o].1)
    {
      var todo := origHash.Keys;
      while todo != {}
        invariant todo <= origHash.Keys == old(origHash).Keys
        invariant forall o :: o in origHash ==>
                    origHash[o] == if o in todo then old(origHash)[o]
                                   else AddSlot(old(origHash)[o], memory[o].0, memory[o].1)
        decreases todo
      {
        var o :| o in todo;
        var own := origHash[o].own[..maxIfNum - 1] + [memory[o].0];
        var sum := origHash[o].sum[..maxIfNum - 1] + [memory[o].1];
        origHash := origHash[o := Own(own, sum)];
        todo := todo - {o};
      }
    }

    // The loop over the originators in batadv_orig_hash_del_if with
    // batadv_iv_ogm_orig_del_if: copy the part before and the part after.
    method OrigHashDelIf(maxIfNum: nat, delIfNum: nat)
      requires delIfNum <= maxIfNum
      requires forall o :: o in origHash ==> |origHash[o].own| == |origHash[o].sum| == maxIfNum + 1
      modifies this`origHash
      ensures origHash == map o | o in old(origHash) :: DelSlot(old(origHash)[o], delIfNum)
    {
      var todo := origHash.Keys;
      while todo != {}
        invariant todo <= origHash.Keys == old(origHash).Keys
        invariant forall o :: o in origHash ==>
                    origHash[o] == if o in todo then old(origHash)[o] else DelSlot(old(origHash)[o], delIfNum)
        decreases todo
      {
        var o :| o in todo;
        var own, sum := [], [];
        if maxIfNum != 0 {
          own := origHash[o].own[..delIfNum] + origHash[o].own[delIfNum + 1..][..maxIfNum - delIfNum];
          sum := origHash[o].sum[..delIfNum] + origHash[o].sum[delIfNum + 1..][..maxIfNum - delIfNum];
        }
        assert Own(own, sum) == DelSlot(origHash[o], delIfNum);
        origHash := origHash[o := Own(own, sum)];
        todo := todo - {o};
      }
    }

    // The loop over the interfaces in batadv_orig_hash_del_if; the removed
    // interface leaves the mesh.
    method RenumberIfaces(gone: nat)
      requires gone in hardIfaces
      modifies this`hardIfaces
      ensures hardIfaces == Renumber(old(hardIfaces), gone)
    {
      var delIfNum := hardIfaces[gone].ifNum;
      var todo := hardIfaces.Keys - {gone};
      while todo != {}
        invariant todo <= hardIfaces.Keys - {gone} && hardIfaces.Keys == old(hardIfaces).Keys
        invariant forall i :: i in hardIfaces ==>
                    hardIfaces[i] == if i in todo || i == gone then old(hardIfaces)[i]
                                     else Renumber(old(hardIfaces), gone)[i]
        decreases todo
      {
        var i :| i in todo;
        if hardIfaces[i].ifNum > delIfNum {
          hardIfaces := hardIfaces[i := hardIfaces[i].(ifNum := hardIfaces[i].ifNum - 1)];
        }
        todo := todo - {i};
      }
      hardIfaces := hardIfaces - {gone};
    }

    // The numbering steps of batadv_hardif_enable_interface.
    method EnableInterface(i: nat, seqno: u32, memory: map<nat, (Bits, nat)>)
      requires Valid() && i !in hardIfaces && origHash.Keys <= memory.Keys
      modifies this
      ensures Valid() && View() == Step(old(View()), Enable(i, seqno, memory))
    {
      StepKeepsNumbered(View(), Enable(i, seqno, memory));
      hardIfaces := hardIfaces[i := Iface(numIfaces, seqno)];
      numIfaces := numIfaces + 1;
      OrigHashAddIf(numIfaces, memory);
      assert View() == Step(old(View()), Enable(i, seqno, memory));
    }

    // The numbering steps of batadv_hardif_disable_interface.
    method DisableInterface(i: nat)
      requires Valid() && i in hardIfaces
      modifies this
      ensures Valid() && View() == Step(old(View()), Disable(i))
    {
      StepKeepsNumbered(View(), Disable(i));
      numIfaces := numIfaces - 1;
      OrigHashDelIf(numIfaces, hardIfaces[i].ifNum);
      RenumberIfaces(i);
      assert View() == Step(old(View()), Disable(i));
    }

    // batadv_iv_ogm_orig_get
    method OrigGet(o: nat)
      requires Valid()
      modifies this`origHash
      ensures Valid() && View() == Step(old(View()), NewOrig(o))
    {
      StepKeepsNumbered(View(), NewOrig(o));
      if o !in origHash {
        origHash := origHash[o := Own(seq(numIfaces, _ => ZERO), seq(numIfaces, _ => 0))];
      }
    }

    // batadv_iv_ogm_slide_own_bcast_window
    method SlideOwnBcastWindow(ifNum: nat)
      requires forall o :: o in origHash ==> ifNum < |origHash[o].own| == |origHash[o].sum|
      modifies this`origHash
      ensures origHash == map o | o in old(origHash) :: Slide(old(origHash)[o], ifNum)
    {
      hide GetPacket, Weight;
      var todo := origHash.Keys;
      while todo != {}
        invariant todo <= origHash.Keys == old(origHash).Keys
        invariant forall o :: o in origHash ==>
                    origHash[o] == if o in todo then old(origHash)[o] else Slide(old(origHash)[o], ifNum)
        decreases todo
      {
        var o :| o in todo;
        var word := GetPacket(origHash[o].own[ifNum], 1, false);
        origHash := origHash[o := Own(origHash[o].own[ifNum := word], origHash[o].sum[ifNum := Weight(word)])];
        todo := todo - {o};
      }
    }

    // batadv_iv_ogm_schedule: take the next number, then slide the windows of
    // the interface on every originator.
    method ScheduleOgm(i: nat) returns (seqno: u32)
      requires Valid() && i in hardIfaces
      modifies this`hardIfaces, this`origHash
      ensures Valid() && View() == Step(old(View()), Schedule(i))
      ensures seqno == old(hardIfaces)[i].ogmSeqno
    {
      hide Numbered, Step, Slide, Wrap;
      StepKeepsNumbered(View(), Schedule(i));
      ScheduleParts(View(), i);
      seqno := hardIfaces[i].ogmSeqno;
      hardIfaces := hardIfaces[i := hardIfaces[i].(ogmSeqno := Wrap(seqno + 1))];
      SlideOwnBcastWindow(hardIfaces[i].ifNum);
      assert origHash == Step(old(View()), Schedule(i)).origs;
    }

    // The own-originator branch of batadv_iv_ogm_process, for an OGM that
    // carries the direct-link flag and the address of its incoming interface.
    method ProcessEcho(o: nat, i: nat, seqno: u32)
      requires Valid() && i in hardIfaces
      modifies this`origHash
      ensures Valid() && View() == Step(old(View()), Echo(o, i, seqno))
    {
      StepKeepsNumbered(View(), Echo(o, i, seqno));
      var ifIncomingSeqno := hardIfaces[i].ogmSeqno;
      OrigGet(o);
      var ifNum := hardIfaces[i].ifNum;
      var bitPos := Signed(ifIncomingSeqno - 2 - seqno);
      hide GetPacket, Weight, SetBit, Signed, HasNumber;
      var word := SetBit(origHash[o].own[ifNum], bitPos);
      origHash := origHash[o := Own(origHash[o].own[ifNum := word], origHash[o].sum[ifNum := Weight(word)])];
    }
  }

  lemma ScheduleParts(m: State, i: nat)
    requires Numbered(m) && i in m.ifaces
    ensures Step(m, Schedule(i)) ==
            State(m.ifaces[i := m.ifaces[i].(ogmSeqno := Wrap(m.ifaces[i].ogmSeqno + 1))], m.numIfaces,
                  map o | o in m.origs :: Slide(m.origs[o], m.ifaces[i].ifNum))
    ensures forall o :: o in m.origs ==> m.ifaces[i].ifNum < |m.origs[o].own| == |m.origs[o].sum|
  {
    hide Slide, HasNumber;
  }
}

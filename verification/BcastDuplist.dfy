// The ring of recent broadcasts by which a gateway recognises a broadcast that
// another gateway already sent (batadv_bla_check_bcast_duplist in
// bridge_loop_avoidance.c).

module BcastDuplist {
  import opened Timeout

  const DUPLIST_SIZE := 16
  const DUPLIST_TIMEOUT := 500

  datatype Entry = Entry(crc: nat, orig: nat, time: int)

  // A received broadcast: its checksum, its originator and the time.
  datatype Bcast = Bcast(crc: nat, orig: nat, now: int)

  predicate Expired(e: Entry, now: int) {
    HasTimedOut(e.time, DUPLIST_TIMEOUT, now)
  }

  // The entry shows that another originator sent the same broadcast.
  predicate Matches(e: Entry, b: Bcast) {
    !Expired(e, b.now) && e.crc == b.crc && e.orig != b.orig
  }

  type Recent = s: seq<Entry> | |s| == DUPLIST_SIZE witness seq(DUPLIST_SIZE, _ => Entry(0, 0, 0))

  // A duplicate, by a full scan.
  predicate IsDuplicate(recent: Recent, b: Bcast) {
    exists i :: 0 <= i < DUPLIST_SIZE && Matches(recent[i], b)
  }

  // The entries, newest first, after the broadcast.
  function Record(recent: Recent, b: Bcast): Recent {
    if IsDuplicate(recent, b) then recent
    else [Entry(b.crc, b.orig, b.now)] + recent[..DUPLIST_SIZE - 1]
  }

  ghost predicate NewestFirst(recent: Recent) {
    forall i, j :: 0 <= i < j < DUPLIST_SIZE ==> recent[j].time <= recent[i].time
  }

  lemma RecordKeepsOrder(recent: Recent, b: Bcast)
    requires NewestFirst(recent) && recent[0].time <= b.now
    ensures NewestFirst(Record(recent, b)) && Record(recent, b)[0].time <= b.now
  {
  }

  function Fresh(now: int): Recent {
    seq(DUPLIST_SIZE, _ => Entry(0, 0, now - DUPLIST_TIMEOUT))
  }

  class Duplist {
    const bcastDuplist: array<Entry>
    var curr: nat

    ghost predicate Valid()
      reads this, bcastDuplist
    {
      && bcastDuplist.Length == DUPLIST_SIZE
      && curr < DUPLIST_SIZE
      && NewestFirst(View())
    }

    // The entries from curr onward, around the ring.
    ghost function View(): Recent
      reads this, bcastDuplist
      requires bcastDuplist.Length == DUPLIST_SIZE && curr < DUPLIST_SIZE
    {
      bcastDuplist[curr..] + bcastDuplist[..curr]
    }

    // The part of batadv_bla_init that sets up the ring.
    constructor (now: int)
      ensures Valid() && fresh(bcastDuplist) && View() == Fresh(now)
    {
      bcastDuplist := new Entry[DUPLIST_SIZE](i => Entry(0, 0, now - DUPLIST_TIMEOUT));
      curr := 0;
    }

    // batadv_bla_check_bcast_duplist: the search stops at the first expired
    // entry, and still answers as a full scan would.
    method CheckBcastDuplist(b: Bcast) returns (duplicate: bool)
      requires Valid() && View()[0].time <= b.now
      modifies this`curr, bcastDuplist
      ensures Valid()
      ensures duplicate <==> IsDuplicate(old(View()), b)
      ensures View() == Record(old(View()), b) && View()[0].time <= b.now
    {
      ghost var recent := View();
      duplicate := false;
      var i := 0;
      while i < DUPLIST_SIZE
        invariant 0 <= i <= DUPLIST_SIZE
        invariant View() == recent && Valid()
        invariant forall j :: 0 <= j < i ==> !Matches(recent[j], b)
      {
        var entry := bcastDuplist[(curr + i) % DUPLIST_SIZE];
        assert entry == recent[i];
        if Expired(entry, b.now) {
          assert forall j :: i <= j < DUPLIST_SIZE ==> recent[j].time <= recent[i].time;
          break;
        }
        if entry.crc == b.crc && entry.orig != b.orig {
          duplicate := true;
          return;
        }
        i := i + 1;
      }
      assert !IsDuplicate(recent, b);
      RecordKeepsOrder(recent, b);
      OverwriteOldest(Entry(b.crc, b.orig, b.now));
    }

    // The oldest entry becomes the newest one.
    method OverwriteOldest(e: Entry)
      requires bcastDuplist.Length == DUPLIST_SIZE && curr < DUPLIST_SIZE
      modifies this`curr, bcastDuplist
      ensures curr < DUPLIST_SIZE && View() == [e] + old(View())[..DUPLIST_SIZE - 1]
    {
      var last := (curr + DUPLIST_SIZE - 1) % DUPLIST_SIZE;
      bcastDuplist[last] := e;
      curr := last;
    }
  }

  // ----- Runs -----

  // recorded: the broadcasts that were let through, oldest first.
  datatype Trace = Trace(recent: Recent, recorded: seq<Entry>)

  ghost function Replay(start: int, bs: seq<Bcast>): Trace {
    if bs == [] then Trace(Fresh(start), [])
    else
      var t := Replay(start, bs[..|bs| - 1]);
      var b := bs[|bs| - 1];
      Trace(Record(t.recent, b),
            if IsDuplicate(t.recent, b) then t.recorded else t.recorded + [Entry(b.crc, b.orig, b.now)])
  }

  // The ring shows the last 16 recorded broadcasts, filled up with the entries
  // it started with.
  ghost predicate ShowsLast(t: Trace, start: int) {
    forall i :: 0 <= i < DUPLIST_SIZE ==> t.recent[i] == Nth(t.recorded, i, start)
  }

  // The i-th newest recorded broadcast.
  function Nth(recorded: seq<Entry>, i: nat, start: int): Entry {
    if i < |recorded| then recorded[|recorded| - 1 - i] else Entry(0, 0, start - DUPLIST_TIMEOUT)
  }

  lemma RecordShowsLast(t: Trace, start: int, e: Entry)
    requires ShowsLast(t, start)
    ensures ShowsLast(Trace([e] + t.recent[..DUPLIST_SIZE - 1], t.recorded + [e]), start)
  {
  }

  lemma {:induction false} RingHoldsLast(start: int, bs: seq<Bcast>)
    ensures ShowsLast(Replay(start, bs), start)
  {
    hide IsDuplicate;
    if bs == [] {
      assert Replay(start, bs) == Trace(Fresh(start), []);
    } else {
      var t, b := Replay(start, bs[..|bs| - 1]), bs[|bs| - 1];
      RingHoldsLast(start, bs[..|bs| - 1]);
      hide ShowsLast;
      if !IsDuplicate(t.recent, b) {
        RecordShowsLast(t, start, Entry(b.crc, b.orig, b.now));
      }
    }
  }

  // In any run, a broadcast is refused exactly when one of the last 16 recorded
  // broadcasts is not yet expired, has the same checksum and came from a
  // different originator, or when it meets an entry of the setup: fewer than 16
  // were recorded, the entries of the setup are not yet expired, its checksum
  // is zero and its originator is not.
  lemma DuplicateExactly(start: int, bs: seq<Bcast>, b: Bcast)
    ensures var t := Replay(start, bs);
            IsDuplicate(t.recent, b) <==>
            || (exists k :: 0 <= k < |t.recorded| && k >= |t.recorded| - DUPLIST_SIZE && Matches(t.recorded[k], b))
            || (|t.recorded| < DUPLIST_SIZE && b.now <= start && b.crc == 0 && b.orig != 0)
  {
    RingHoldsLast(start, bs);
    var t := Replay(start, bs);
    hide Replay;
    if k :| 0 <= k < |t.recorded| && k >= |t.recorded| - DUPLIST_SIZE && Matches(t.recorded[k], b) {
      assert t.recent[|t.recorded| - 1 - k] == t.recorded[k];
    }
    if |t.recorded| < DUPLIST_SIZE {
      assert t.recent[|t.recorded|] == Entry(0, 0, start - DUPLIST_TIMEOUT);
    }
  }

  // So the empty ring refuses a broadcast in the jiffy of the setup.
  lemma FirstJiffy(start: int, b: Bcast)
    requires b.now == start
    ensures IsDuplicate(Replay(start, []).recent, b) <==> b.crc == 0 && b.orig != 0
  {
    DuplicateExactly(start, [], b);
  }
}

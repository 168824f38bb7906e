// TVLV containers: the registry of what a node announces, and the bytes that
// are appended to its OGMs and parsed by the receivers (main.c).

module TvlvContainers {
  import opened Wire
  import opened Wrappers

  const HDR_SIZE := 4    // sizeof(struct batadv_tvlv_hdr)

  type Value = s: Bytes | |s| < 0x1_0000 witness []

  datatype Key = Key(kind: byte, version: byte)

  datatype Container = Container(key: Key, value: Value)

  // ----- The bytes -----

  function Header(c: Container): (r: Bytes)
    ensures |r| == HDR_SIZE
  {
    [c.key.kind, c.key.version] + BigEndian(|c.value|)
  }

  function Serialize(cs: seq<Container>): Bytes {
    if cs == [] then [] else Header(cs[0]) + cs[0].value + Serialize(cs[1..])
  }

  // b starts with a container that fits.
  predicate HasContainer(b: Bytes) {
    |b| >= HDR_SIZE && HDR_SIZE + FromBigEndian(b[2], b[3]) <= |b|
  }

  function FirstContainer(b: Bytes): Container
    requires HasContainer(b)
  {
    BigEndianOfBytes(b[2], b[3]);
    Container(Key(b[0], b[1]), b[HDR_SIZE..HDR_SIZE + FromBigEndian(b[2], b[3])])
  }

  // The bytes behind the first container.
  function Behind(b: Bytes): (r: Bytes)
    requires HasContainer(b)
    ensures |r| == |b| - HDR_SIZE - FromBigEndian(b[2], b[3])
  {
    b[HDR_SIZE + FromBigEndian(b[2], b[3])..]
  }

  // The containers that the loop of batadv_tvlv_containers_process visits.
  function Parse(b: Bytes): seq<Container>
    decreases |b|
  {
    if HasContainer(b) then [FirstContainer(b)] + Parse(Behind(b)) else []
  }

  lemma FirstOfSerialized(c: Container, rest: Bytes)
    ensures var b := Header(c) + c.value + rest;
            HasContainer(b) && FirstContainer(b) == c && Behind(b) == rest
  {
    BigEndianRoundTrip(|c.value|);
    hide BigEndian, FromBigEndian;
    var b := Header(c) + c.value + rest;
    assert b[2] == Header(c)[2] && b[3] == Header(c)[3];
    assert b[HDR_SIZE..HDR_SIZE + |c.value|] == c.value;
  }

  lemma SerializedFirst(b: Bytes)
    requires HasContainer(b)
    ensures Header(FirstContainer(b)) + FirstContainer(b).value + Behind(b) == b
  {
    hide BigEndian, FromBigEndian;
    BigEndianOfBytes(b[2], b[3]);
    var n := FromBigEndian(b[2], b[3]);
    assert Header(FirstContainer(b)) == b[..HDR_SIZE];
    assert b == b[..HDR_SIZE] + b[HDR_SIZE..HDR_SIZE + n] + b[HDR_SIZE + n..];
  }

  // b begins with s, and no container begins behind it.
  predicate Ends(b: Bytes, s: Bytes) {
    |s| <= |b| && b[..|s|] == s && !HasContainer(b[|s|..])
  }

  lemma EndsAtFirst(b: Bytes, c: Container, s: Bytes)
    requires Ends(b, Header(c) + c.value + s)
    ensures HasContainer(b) && FirstContainer(b) == c
  {
    hide HasContainer, FirstContainer, Behind, Header;
    var all := Header(c) + c.value + s;
    assert b == Header(c) + c.value + (s + b[|all|..]);
    FirstOfSerialized(c, s + b[|all|..]);
  }

  lemma EndsBehindFirst(b: Bytes, s: Bytes)
    requires HasContainer(b)
    ensures var c := FirstContainer(b); Ends(b, Header(c) + c.value + s) <==> Ends(Behind(b), s)
  {
    SerializedFirst(b);
    hide HasContainer, FirstContainer, Behind, Header;
    var c := FirstContainer(b);
    SplitBehind(Header(c) + c.value, s, Behind(b));
  }

  lemma SplitBehind(head: Bytes, s: Bytes, tail: Bytes)
    ensures |head + s| <= |head + tail| <==> |s| <= |tail|
    ensures |s| <= |tail| ==> ((head + tail)[..|head + s|] == head + s <==> tail[..|s|] == s)
    ensures |s| <= |tail| ==> (head + tail)[|head + s|..] == tail[|s|..]
  {
    if |s| <= |tail| {
      assert (head + tail)[..|head + s|] == head + tail[..|s|];
      assert (head + tail[..|s|])[|head|..] == tail[..|s|] && (head + s)[|head|..] == s;
    }
  }

  // What the parser visits in a buffer, exactly: the containers whose bytes
  // are those of the buffer up to a rest that holds no further one.
  lemma {:induction false} ParseExactly(b: Bytes, cs: seq<Container>)
    ensures Parse(b) == cs <==> Ends(b, Serialize(cs))
    decreases |cs|
  {
    hide HasContainer, FirstContainer, Behind, Header;
    if cs == [] {
      assert b[0..] == b;
    } else {
      var c, s := cs[0], Serialize(cs[1..]);
      assert Serialize(cs) == Header(c) + c.value + s && cs == [c] + cs[1..];
      hide Ends, Serialize;
      if HasContainer(b) && FirstContainer(b) == c {
        ParseExactly(Behind(b), cs[1..]);
        EndsBehindFirst(b, s);
        SameTail(c, Parse(Behind(b)), cs[1..]);
      } else if Ends(b, Serialize(cs)) {
        EndsAtFirst(b, c, s);
      }
    }
  }

  lemma SameTail(c: Container, a: seq<Container>, b: seq<Container>)
    ensures [c] + a == [c] + b <==> a == b
  {
    assert ([c] + a)[1..] == a && ([c] + b)[1..] == b;
  }

  lemma RoundTrip(cs: seq<Container>)
    ensures Parse(Serialize(cs)) == cs
  {
    ParseExactly(Serialize(cs), cs);
  }

  // ----- The registry -----

  function Position(list: seq<Container>, key: Key): (r: Option<nat>)
    ensures r.Some? ==> r.value < |list| && list[r.value].key == key
    ensures r.Some? ==> forall i :: 0 <= i < r.value ==> list[i].key != key
    ensures r.None? ==> forall c :: c in list ==> c.key != key
  {
    if list == [] then None
    else if list[0].key == key then Some(0)
    else
      match Position(list[1..], key)
      case None => None
      case Some(i) => Some(i + 1)
  }

  function Without(list: seq<Container>, key: Key): seq<Container> {
    match Position(list, key)
    case None => list
    case Some(i) => list[..i] + list[i + 1..]
  }

  datatype Op = Register(key: Key, value: Option<Value>) | Unregister(key: Key)

  // A missing value is registered with length 0.
  function ValueOf(v: Option<Value>): Value {
    if v.Some? then v.value else []
  }

  function Apply(list: seq<Container>, op: Op): seq<Container> {
    match op
    case Register(key, value) => [Container(key, ValueOf(value))] + Without(list, key)
    case Unregister(key) => Without(list, key)
  }

  function Replay(ops: seq<Op>): seq<Container> {
    if ops == [] then [] else Apply(Replay(ops[..|ops| - 1]), ops[|ops| - 1])
  }

  // What should be announced after the operations: for every key the value
  // registered last, unless it was unregistered since.
  function Announced(ops: seq<Op>): map<Key, Value> {
    if ops == [] then map[]
    else
      var before := Announced(ops[..|ops| - 1]);
      match ops[|ops| - 1]
      case Register(key, None) => before[key := []]
      case Register(key, Some(value)) => before[key := value]
      case Unregister(key) => before - {key}
  }

  // The list holds every entry of the map, once, and nothing else.
  predicate Lists(list: seq<Container>, m: map<Key, Value>) {
    && (forall i, j :: 0 <= i < j < |list| ==> list[i].key != list[j].key)
    && (forall c :: c in list ==> c.key in m && m[c.key] == c.value)
    && (forall k :: k in m ==> Container(k, m[k]) in list)
  }

  lemma WithoutLists(list: seq<Container>, m: map<Key, Value>, key: Key)
    requires Lists(list, m)
    ensures Lists(Without(list, key), m - {key})
  {
    match Position(list, key)
    case None =>
      assert key !in m by {
        assert forall k :: k in m ==> Container(k, m[k]) in list;
      }
    case Some(i) =>
      RemovedAt(list, i);
  }

  lemma RemovedAt(list: seq<Container>, i: nat)
    requires i < |list|
    requires forall j, k :: 0 <= j < k < |list| ==> list[j].key != list[k].key
    ensures var r := list[..i] + list[i + 1..];
            && (forall j, k :: 0 <= j < k < |r| ==> r[j].key != r[k].key)
            && (forall c :: c in r <==> c in list && c.key != list[i].key)
  {
  }

  lemma {:induction false} RegistryIsMap(ops: seq<Op>)
    ensures Lists(Replay(ops), Announced(ops))
  {
    if ops != [] {
      var prev, op := ops[..|ops| - 1], ops[|ops| - 1];
      RegistryIsMap(prev);
      WithoutLists(Replay(prev), Announced(prev), op.key);
      hide Lists, Without;
      AnnouncedAfter(ops);
      if op.Register? {
        hide Announced;
        AddLists(Without(Replay(prev), op.key), Announced(prev) - {op.key}, Container(op.key, ValueOf(op.value)));
      }
    }
  }

  lemma AnnouncedAfter(ops: seq<Op>)
    requires ops != []
    ensures var before, op := Announced(ops[..|ops| - 1]), ops[|ops| - 1];
            Announced(ops) ==
            if op.Register? then (before - {op.key})[op.key := ValueOf(op.value)] else before - {op.key}
  {
    var before, op := Announced(ops[..|ops| - 1]), ops[|ops| - 1];
    if op.Register? {
      assert (before - {op.key})[op.key := ValueOf(op.value)] == before[op.key := ValueOf(op.value)];
    }
  }

  lemma AddLists(list: seq<Container>, m: map<Key, Value>, c: Container)
    requires Lists(list, m) && c.key !in m
    ensures Lists([c] + list, m[c.key := c.value])
  {
  }

  // Whatever was registered and unregistered, in any order: the receivers of
  // the OGM visit every announced key once, with its latest value.
  lemma AnnouncedExactly(ops: seq<Op>)
    ensures Lists(Parse(Serialize(Replay(ops))), Announced(ops))
  {
    RoundTrip(Replay(ops));
    RegistryIsMap(ops);
  }

  lemma {:induction false} SerializeConcat(a: seq<Container>, b: seq<Container>)
    ensures Serialize(a + b) == Serialize(a) + Serialize(b)
  {
    hide Header;
    if a == [] {
      assert a + b == b;
    } else {
      SerializeConcat(a[1..], b);
      assert (a + b)[1..] == a[1..] + b && (a + b)[0] == a[0];
    }
  }

  lemma SerializeSnoc(list: seq<Container>, i: nat)
    requires i < |list|
    ensures Serialize(list[..i + 1]) == Serialize(list[..i]) + Header(list[i]) + list[i].value
    ensures |Serialize(list[..i + 1])| <= |Serialize(list)|
  {
    hide Header;
    SerializeConcat(list[..i], [list[i]]);
    assert list[..i + 1] == list[..i] + [list[i]];
    assert list[..i + 1] + list[i + 1..] == list;
    SerializeConcat(list[..i + 1], list[i + 1..]);
    assert Serialize([list[i]]) == Header(list[i]) + list[i].value + Serialize([]);
  }

  lemma SizeSnoc(list: seq<Container>, i: nat)
    requires i < |list|
    ensures |Serialize(list[..i + 1])| == |Serialize(list[..i])| + HDR_SIZE + |list[i].value|
  {
    SerializeSnoc(list, i);
    hide Serialize, Header;
  }

  lemma AddTwice(a: nat, x: nat, y: nat)
    ensures ((a % 0x1_0000 + x) % 0x1_0000 + y) % 0x1_0000 == (a + x + y) % 0x1_0000
  {
  }

  class Registry {
    var list: seq<Container>

    constructor ()
      ensures list == Replay([])
    {
      list := [];
    }

    // batadv_tvlv_container_get
    method Get(key: Key) returns (found: Option<nat>)
      ensures found == Position(list, key)
    {
      var i := 0;
      while i < |list|
        invariant 0 <= i <= |list|
        invariant forall j :: 0 <= j < i ==> list[j].key != key
      {
        if list[i].key == key {
          return Some(i);
        }
        i := i + 1;
      }
      return None;
    }

    // batadv_tvlv_container_remove
    method Remove(at: Option<nat>)
      requires at.Some? ==> at.value < |list|
      modifies this
      ensures list == match at case None => old(list) case Some(i) => old(list)[..i] + old(list)[i + 1..]
    {
      if at.Some? {
        list := list[..at.value] + list[at.value + 1..];
      }
    }

    method Unregister(key: Key)
      modifies this
      ensures list == Apply(old(list), Op.Unregister(key))
    {
      var at := Get(key);
      Remove(at);
    }

    method Register(key: Key, value: Option<Value>)
      modifies this
      ensures list == Apply(old(list), Op.Register(key, value))
    {
      var new_ := Container(key, if value.Some? then value.value else []);
      var at := Get(key);
      Remove(at);
      list := [new_] + list;
    }

    // batadv_tvlv_container_list_size, in 16 unsigned bits
    method ListSize() returns (len: nat)
      ensures len == |Serialize(list)| % 0x1_0000
    {
      hide Header, Serialize;
      len := 0;
      var i := 0;
      assert list[..0] == [];
      EmptySize();
      while i < |list|
        invariant 0 <= i <= |list|
        invariant len == |Serialize(list[..i])| % 0x1_0000
      {
        SizeSnoc(list, i);
        AddTwice(|Serialize(list[..i])|, HDR_SIZE, |list[i].value|);
        len := (len + HDR_SIZE) % 0x1_0000;
        len := (len + |list[i].value|) % 0x1_0000;
        i := i + 1;
      }
      assert list[..i] == list;
    }

    // batadv_tvlv_container_ogm_append: the OGM header is kept, and followed
    // by all containers.
    method OgmAppend(buff: array<byte>, minLen: nat) returns (out: array<byte>, len: nat)
      requires minLen <= buff.Length
      requires |Serialize(list)| < 0x1_0000
      ensures fresh(out)
      ensures out[..] == buff[..minLen] + Serialize(list)
      ensures len == |Serialize(list)|
    {
      hide Header, Serialize;
      len := ListSize();
      out := new byte[minLen + len];
      WriteBytes(out, 0, buff[..minLen]);
      ghost var ogm := buff[..minLen];
      assert out[..minLen] == ogm;
      var pos, i := minLen, 0;
      assert list[..0] == [];
      EmptySize();
      if len == 0 {
        return;
      }
      while i < |list|
        invariant 0 <= i <= |list|
        invariant pos == minLen + |Serialize(list[..i])| <= out.Length
        invariant out[..pos] == ogm + Serialize(list[..i])
      {
        SerializeSnoc(list, i);
        var next := WriteContainer(out, pos, list[i]);
        assert out[..next] == out[..pos] + out[pos..next];
        Regroup(ogm, Serialize(list[..i]), Header(list[i]), list[i].value);
        pos := next;
        i := i + 1;
      }
      assert list[..i] == list;
      assert out[..pos] == out[..];
    }
  }

  method WriteContainer(out: array<byte>, pos: nat, c: Container) returns (next: nat)
    requires pos + HDR_SIZE + |c.value| <= out.Length
    modifies out
    ensures next == pos + HDR_SIZE + |c.value|
    ensures out[..pos] == old(out[..pos]) && out[pos..next] == Header(c) + c.value
  {
    hide Header;
    WriteBytes(out, pos, Header(c));
    next := pos + HDR_SIZE;
    WriteBytes(out, next, c.value);
    next := next + |c.value|;
  }

  lemma Regroup(a: Bytes, b: Bytes, c: Bytes, d: Bytes)
    ensures a + b + (c + d) == a + (b + c + d)
  {
  }

  lemma EmptySize()
    ensures Serialize([]) == []
  {
  }
}

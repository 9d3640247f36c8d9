/** NBP tuples on the wire, and collecting the distinct ones out of any number of
    reply packets (AppleTalk-59/nbp_send.c).

    On the wire a tuple is packed: the address (net 2, node 1, socket 1), an
    enumerator, and three names each preceded by its length, with no filler. */
module Nbp {
  import opened Bytes
  import opened Common

  const NAME_SIZE := 32          // NBP_NVE_STR_SIZE
  const ENTITY_AT := 5           // sizeof(at_inet_t) + 1

  type word = x: int | 0 <= x < 0x1_0000
  /** A counted name as it comes; a reply has room for NAME_SIZE bytes of it. */
  type Name = n: seq<byte> | |n| <= 0xFF witness []

  datatype Entity = Entity(name: Name, kind: Name, zone: Name) {
    predicate Fits() {
      |name| <= NAME_SIZE && |kind| <= NAME_SIZE && |zone| <= NAME_SIZE
    }
  }

  /** What identifies a tuple. */
  datatype Key = Key(net: word, node: byte, socket: byte, enumerator: byte)

  datatype Tuple = Tuple(key: Key, entity: Entity)

  // -------------------------------------------------------------------- the wire

  function Counted(n: Name): (s: seq<byte>)
    ensures |s| == 1 + |n| && s[0] == |n|
  {
    [|n|] + n
  }

  function PackEntity(e: Entity): seq<byte> {
    Counted(e.name) + (Counted(e.kind) + Counted(e.zone))
  }

  function PackAddress(k: Key): (s: seq<byte>)
    ensures |s| == ENTITY_AT
  {
    [k.net / 0x100, k.net % 0x100, k.node, k.socket, k.enumerator]
  }

  function Pack(t: Tuple): seq<byte> {
    PackAddress(t.key) + PackEntity(t.entity)
  }

  function PackAll(ts: seq<Tuple>): seq<byte> {
    if ts == [] then [] else Pack(ts[0]) + PackAll(ts[1..])
  }

  /** A name may be read here: the length byte and as many bytes as it says. */
  predicate HasName(s: seq<byte>, at: nat) {
    at < |s| && at + 1 + s[at] <= |s|
  }

  function After(s: seq<byte>, at: nat): nat
    requires HasName(s, at)
  {
    at + 1 + s[at]
  }

  predicate HasEntity(s: seq<byte>, at: nat) {
    HasName(s, at) && HasName(s, After(s, at)) && HasName(s, After(s, After(s, at)))
  }

  function NameAt(s: seq<byte>, at: nat): Name
    requires HasName(s, at)
  {
    s[at + 1..After(s, at)]
  }

  /** nbp_unpack_tuple. */
  function UnpackEntity(s: seq<byte>, at: nat): Entity
    requires HasEntity(s, at)
  {
    var second := After(s, at);
    Entity(NameAt(s, at), NameAt(s, second), NameAt(s, After(s, second)))
  }

  predicate HasTuple(s: seq<byte>, at: nat) {
    at + ENTITY_AT <= |s| && HasEntity(s, at + ENTITY_AT)
  }

  function KeyAt(s: seq<byte>, at: nat): Key
    requires at + ENTITY_AT <= |s|
  {
    Key(s[at] as int * 0x100 + s[at + 1], s[at + 2], s[at + 3], s[at + 4])
  }

  function Unpack(s: seq<byte>, at: nat): Tuple
    requires HasTuple(s, at)
  {
    Tuple(KeyAt(s, at), UnpackEntity(s, at + ENTITY_AT))
  }

  /** nbp_len: five bytes and three counted names. */
  function Length(s: seq<byte>, at: nat): nat
    requires HasTuple(s, at)
  {
    After(s, After(s, After(s, at + ENTITY_AT))) - at
  }

  lemma NameHere(s: seq<byte>, at: nat, n: Name)
    requires at <= |s| && Counted(n) <= s[at..]
    ensures HasName(s, at) && NameAt(s, at) == n && After(s, at) == at + |Counted(n)|
  {
    assert s[at] == s[at..][0] == Counted(n)[0];
    assert s[at + 1..at + 1 + |n|] == s[at..][..|Counted(n)|][1..];
  }

  lemma Further(s: seq<byte>, at: nat, a: seq<byte>, b: seq<byte>)
    requires at <= |s| && a + b <= s[at..]
    ensures a <= s[at..] && at + |a| <= |s| && b <= s[at + |a|..]
  {
    assert s[at..][..|a|] == (a + b)[..|a|] == a;
    assert s[at + |a|..][..|b|] == s[at..][..|a + b|][|a|..] == b;
  }

  /** What is on the wire, byte for byte. */
  lemma PackedInBytes(t: Tuple)
    ensures var k, e := t.key, t.entity;
            && Pack(t) == [k.net / 0x100, k.net % 0x100, k.node, k.socket, k.enumerator] +
                          [|e.name|] + e.name + [|e.kind|] + e.kind + [|e.zone|] + e.zone
            && |Pack(t)| == 8 + |e.name| + |e.kind| + |e.zone|
  {
  }

  /** A packed tuple is read back whole, and its length is where the next begins. */
  lemma UnpackPacked(s: seq<byte>, at: nat, t: Tuple)
    requires at <= |s| && Pack(t) <= s[at..]
    ensures HasTuple(s, at) && Unpack(s, at) == t && Length(s, at) == |Pack(t)|
  {
    hide PackAddress, KeyAt, NameAt, HasName, After;
    var e, k := t.entity, PackAddress(t.key);
    var at1 := at + ENTITY_AT;
    Further(s, at, k, PackEntity(e));
    Further(s, at1, Counted(e.name), Counted(e.kind) + Counted(e.zone));
    var at2 := at1 + |Counted(e.name)|;
    Further(s, at2, Counted(e.kind), Counted(e.zone));
    NameHere(s, at1, e.name);
    NameHere(s, at2, e.kind);
    NameHere(s, at2 + |Counted(e.kind)|, e.zone);
    AddressHere(s, at, t.key);
  }

  lemma AddressHere(s: seq<byte>, at: nat, k: Key)
    requires at <= |s| && PackAddress(k) <= s[at..]
    ensures at + ENTITY_AT <= |s| && KeyAt(s, at) == k
  {
    var a := PackAddress(k);
    assert forall i :: 0 <= i < ENTITY_AT ==> s[at + i] == s[at..][i] == a[i];
    assert s[at] == a[0] && s[at + 1] == a[1] && s[at + 2] == a[2] && s[at + 3] == a[3] && s[at + 4] == a[4];
  }

  // ---------------------------------------------------------------- accumulating

  predicate Known(reply: seq<Tuple>, k: Key) {
    exists i :: 0 <= i < |reply| && reply[i].key == k
  }

  /** doNbpReply on the tuples of one packet: what the reply array holds after it. */
  function Accumulate(reply: seq<Tuple>, ts: seq<Tuple>, max: nat): (r: seq<Tuple>)
    ensures reply <= r
    decreases |ts|
  {
    if ts == [] then reply
    else if Known(reply, ts[0].key) then Accumulate(reply, ts[1..], max)
    else if |reply| >= max then reply
    else Accumulate(reply + [ts[0]], ts[1..], max)
  }

  function AccumulateAll(reply: seq<Tuple>, packets: seq<seq<Tuple>>, max: nat): seq<Tuple>
    decreases |packets|
  {
    if packets == [] then reply else AccumulateAll(Accumulate(reply, packets[0], max), packets[1..], max)
  }

  /** The tuples whose key has not come before, in the order they arrived. */
  function FirstOccurrences(ts: seq<Tuple>): seq<Tuple> {
    if ts == [] then [] else
    var before, t := ts[..|ts| - 1], ts[|ts| - 1];
    FirstOccurrences(before) + (if Known(before, t.key) then [] else [t])
  }

  function Taken(s: seq<Tuple>, max: nat): seq<Tuple> {
    if |s| <= max then s else s[..max]
  }

  function Keys(ts: seq<Tuple>): set<Key> {
    set t | t in ts :: t.key
  }

  /** What the deduplicated list of ts must be: each key of ts once, by the tuple
      that brought it first, and in the order in which those tuples came. */
  ghost predicate Represents(f: seq<Tuple>, ts: seq<Tuple>) {
    && (forall k :: Known(f, k) <==> Known(ts, k))
    && Keys(f) == Keys(ts)
    && (forall i, j :: 0 <= i < j < |f| ==> f[i].key != f[j].key)
    && (forall i :: 0 <= i < |f| ==> ComesFirst(ts, f[i]))
    && InOrder(f, ts)
  }

  ghost predicate InOrder(f: seq<Tuple>, ts: seq<Tuple>) {
    forall i, j, a: nat, b: nat :: 0 <= i < j < |f| && IsFirst(ts, a, f[i]) && IsFirst(ts, b, f[j]) ==> a < b
  }

  lemma InOrderMore(f: seq<Tuple>, ts: seq<Tuple>, t: Tuple)
    requires InOrder(f, ts) && forall i :: 0 <= i < |f| ==> ComesFirst(ts, f[i])
    ensures InOrder(if Known(ts, t.key) then f else f + [t], ts + [t])
  {
    var f' := if Known(ts, t.key) then f else f + [t];
    forall i, j, a: nat, b: nat | 0 <= i < j < |f'| && IsFirst(ts + [t], a, f'[i]) && IsFirst(ts + [t], b, f'[j])
      ensures a < b
    {
      FirstStays(ts, t, a, f[i]);
      if j < |f| {
        FirstStays(ts, t, b, f[j]);
      } else {
        NotKnown(ts, t.key);
      }
    }
  }

  /** A tuple that came first before still does, at the same place. */
  lemma FirstStays(ts: seq<Tuple>, u: Tuple, j: nat, t: Tuple)
    requires ComesFirst(ts, t) && IsFirst(ts + [u], j, t)
    ensures IsFirst(ts, j, t)
  {
    var k: nat :| IsFirst(ts, k, t);
    assert (ts + [u])[k] == t;
    assert forall i :: 0 <= i < j ==> (ts + [u])[i] == ts[i];
  }

  lemma RepresentsMore(f: seq<Tuple>, ts: seq<Tuple>, t: Tuple)
    requires Represents(f, ts)
    ensures Represents(if Known(ts, t.key) then f else f + [t], ts + [t])
  {
    hide Keys, InOrder, IsFirst;
    var f' := if Known(ts, t.key) then f else f + [t];
    forall k
      ensures Known(f', k) <==> Known(ts + [t], k)
    {
      KnownAppended(ts, t, k);
      KnownAppended(f, t, k);
    }
    forall i | 0 <= i < |f'|
      ensures ComesFirst(ts + [t], f'[i])
    {
      if i < |f| {
        ComesFirstGrows(ts, t, f[i]);
      } else {
        LastComesFirst(ts, t);
      }
    }
    if !Known(ts, t.key) {
      NotKnown(f, t.key);
    }
    InOrderMore(f, ts, t);
    SameKeysMore(f, ts, t);
  }

  lemma LastComesFirst(ts: seq<Tuple>, t: Tuple)
    requires !Known(ts, t.key)
    ensures ComesFirst(ts + [t], t)
  {
    NotKnown(ts, t.key);
    assert IsFirst(ts + [t], |ts|, t);
  }

  lemma SameKeysMore(f: seq<Tuple>, ts: seq<Tuple>, t: Tuple)
    requires Keys(f) == Keys(ts)
    ensures Keys(if Known(ts, t.key) then f else f + [t]) == Keys(ts + [t])
  {
    KeysMore(f, t);
    KeysMore(ts, t);
    KnownIsKey(ts, t.key);
    hide Keys, Known;
  }

  lemma KeysMore(ts: seq<Tuple>, t: Tuple)
    ensures Keys(ts + [t]) == Keys(ts) + {t.key}
  {
    assert t in ts + [t];
    assert forall u :: u in ts ==> u in ts + [t];
  }

  lemma KnownIsKey(ts: seq<Tuple>, k: Key)
    ensures Known(ts, k) <==> k in Keys(ts)
  {
  }

  lemma {:induction false} FirstOccurrencesRight(ts: seq<Tuple>)
    ensures Represents(FirstOccurrences(ts), ts)
  {
    hide Represents, Known;
    if ts == [] {
      RepresentsNothing();
    } else {
      var before, t := ts[..|ts| - 1], ts[|ts| - 1];
      var f := FirstOccurrences(before);
      FirstOccurrencesRight(before);
      RepresentsMore(f, before, t);
      assert before + [t] == ts && f + [] == f;
    }
  }

  lemma RepresentsNothing()
    ensures Represents([], [])
  {
  }

  predicate IsFirst(ts: seq<Tuple>, j: nat, t: Tuple) {
    j < |ts| && ts[j] == t && forall i :: 0 <= i < j ==> ts[i].key != t.key
  }

  ghost predicate ComesFirst(ts: seq<Tuple>, t: Tuple) {
    exists j: nat :: IsFirst(ts, j, t)
  }

  lemma ComesFirstGrows(ts: seq<Tuple>, u: Tuple, t: Tuple)
    requires ComesFirst(ts, t)
    ensures ComesFirst(ts + [u], t)
  {
    var j: nat :| IsFirst(ts, j, t);
    assert IsFirst(ts + [u], j, t);
  }

  lemma NotKnown(ts: seq<Tuple>, k: Key)
    requires !Known(ts, k)
    ensures forall i :: 0 <= i < |ts| ==> ts[i].key != k
  {
  }

  lemma KnownAppended(s: seq<Tuple>, t: Tuple, k: Key)
    ensures Known(s + [t], k) <==> Known(s, k) || t.key == k
  {
    if Known(s, k) {
      var i :| 0 <= i < |s| && s[i].key == k;
      assert (s + [t])[i].key == k;
    }
    if t.key == k {
      assert (s + [t])[|s|].key == k;
    }
    if Known(s + [t], k) && t.key != k {
      var i :| 0 <= i < |s + [t]| && (s + [t])[i].key == k;
      assert s[i].key == k;
    }
  }

  lemma {:induction false} FirstOccurrencesGrow(ts: seq<Tuple>, us: seq<Tuple>)
    ensures FirstOccurrences(ts) <= FirstOccurrences(ts + us)
    decreases |us|
  {
    if us == [] {
      assert ts + us == ts;
    } else {
      assert (ts + us)[..|ts + us| - 1] == ts + us[..|us| - 1];
      FirstOccurrencesGrow(ts, us[..|us| - 1]);
    }
  }

  lemma OneMoreTuple(ts: seq<Tuple>, t: Tuple)
    ensures FirstOccurrences(ts + [t]) == FirstOccurrences(ts) + (if Known(ts, t.key) then [] else [t])
  {
    assert (ts + [t])[..|ts|] == ts;
  }

  /** One packet on top of what earlier packets brought. */
  lemma {:induction false} AccumulateIsFirst(ts: seq<Tuple>, us: seq<Tuple>, max: nat)
    ensures Accumulate(Taken(FirstOccurrences(ts), max), us, max) == Taken(FirstOccurrences(ts + us), max)
    decreases |us|
  {
    var f := FirstOccurrences(ts);
    if us == [] {
      assert ts + us == ts;
    } else {
      hide FirstOccurrences, Known;
      var t := us[0];
      assert ts + [t] + us[1..] == ts + us;
      FirstOccurrencesRight(ts);
      OneMoreTuple(ts, t);
      if Known(Taken(f, max), t.key) {
        TakenKnown(f, max, t.key);
        assert f + [] == f;
        AccumulateIsFirst(ts + [t], us[1..], max);
      } else if |Taken(f, max)| >= max {
        FirstOccurrencesGrow(ts, us);
        TakenPrefix(f, FirstOccurrences(ts + us), max);
      } else {
        assert Taken(f, max) == f && Taken(f + [t], max) == f + [t];
        AccumulateIsFirst(ts + [t], us[1..], max);
      }
    }
  }

  lemma TakenPrefix(s: seq<Tuple>, t: seq<Tuple>, max: nat)
    requires s <= t && |Taken(s, max)| >= max
    ensures Taken(s, max) == Taken(t, max)
  {
  }

  lemma TakenKnown(s: seq<Tuple>, max: nat, k: Key)
    requires Known(Taken(s, max), k)
    ensures Known(s, k)
  {
    var i :| 0 <= i < |Taken(s, max)| && Taken(s, max)[i].key == k;
    assert s[i].key == k;
  }

  /** Over any number of packets, the reply array holds the first occurrence of each
      address and enumerator in order of arrival, up to max of them. */
  lemma {:induction false} RepliesAreFirstOccurrences(earlier: seq<Tuple>, packets: seq<seq<Tuple>>, max: nat)
    ensures AccumulateAll(Taken(FirstOccurrences(earlier), max), packets, max) ==
            Taken(FirstOccurrences(earlier + Flatten(packets)), max)
    decreases |packets|
  {
    hide FirstOccurrences, Accumulate, Taken;
    if packets == [] {
      assert earlier + [] == earlier;
    } else {
      AccumulateIsFirst(earlier, packets[0], max);
      RepliesAreFirstOccurrences(earlier + packets[0], packets[1..], max);
      assert earlier + packets[0] + Flatten(packets[1..]) == earlier + Flatten(packets);
    }
  }

  lemma AllRepliesAreFirstOccurrences(packets: seq<seq<Tuple>>, max: nat)
    ensures AccumulateAll([], packets, max) == Taken(FirstOccurrences(Flatten(packets)), max)
    ensures var all, got := FirstOccurrences(Flatten(packets)), AccumulateAll([], packets, max);
            got <= all && |got| == if |all| < max then |all| else max
  {
    RepliesAreFirstOccurrences([], packets, max);
    assert [] + Flatten(packets) == Flatten(packets);
  }

  // ---------------------------------------------------------------------- the code

  /** nbp_pack_tuple: the three names, one behind the other. */
  method PackTuple(entity: Entity, tuple: array<byte>)
    requires ENTITY_AT + |PackEntity(entity)| <= tuple.Length
    modifies tuple
    ensures tuple[..] == Written(old(tuple[..]), ENTITY_AT, PackEntity(entity))
  {
    ghost var s, a, b, c := tuple[..], Counted(entity.name), Counted(entity.kind), Counted(entity.zone);
    WrittenTwice(s, ENTITY_AT, a, b);
    WrittenTwice(s, ENTITY_AT, a + b, c);
    assert a + (b + c) == a + b + c;
    hide Written;
    var p := ENTITY_AT;
    Copy(tuple, p, Counted(entity.name));
    p := p + |entity.name| + 1;
    Copy(tuple, p, Counted(entity.kind));
    p := p + |entity.kind| + 1;
    Copy(tuple, p, Counted(entity.zone));
  }

  /** The next tuple of a packet, and where the walk goes from it. */
  lemma WalkStep(packet: seq<byte>, at: nat, ts: seq<Tuple>, i: nat)
    requires at <= |packet| && i < |ts| && PackAll(ts[i..]) <= packet[at..]
    ensures HasTuple(packet, at) && Unpack(packet, at) == ts[i]
    ensures var next := at + Length(packet, at);
            next <= |packet| && PackAll(ts[i + 1..]) <= packet[next..]
  {
    assert ts[i..][0] == ts[i] && ts[i..][1..] == ts[i + 1..];
    Further(packet, at, Pack(ts[i]), PackAll(ts[i + 1..]));
    UnpackPacked(packet, at, ts[i]);
  }

  /** The tuples found by walking: n of them, each where the last one's length says. */
  function Walk(s: seq<byte>, at: nat, n: nat): seq<Tuple>
    decreases n
  {
    if n == 0 || !HasTuple(s, at) then [] else [Unpack(s, at)] + Walk(s, at + Length(s, at), n - 1)
  }

  /** Packing tuples one behind the other and walking them by their own lengths
      recovers every one of them. */
  lemma {:induction false} WalkRecoversAll(packet: seq<byte>, at: nat, ts: seq<Tuple>, i: nat)
    requires at <= |packet| && i <= |ts| && PackAll(ts[i..]) <= packet[at..]
    ensures Walk(packet, at, |ts| - i) == ts[i..]
    decreases |ts| - i
  {
    hide HasTuple, Length, Unpack, PackAll;
    if i < |ts| {
      WalkStep(packet, at, ts, i);
      WalkRecoversAll(packet, at + Length(packet, at), ts, i + 1);
    }
  }

  lemma AccumulateStep(reply: seq<Tuple>, ts: seq<Tuple>, i: nat, max: nat)
    requires i < |ts|
    ensures Accumulate(reply, ts[i..], max) ==
            if Known(reply, ts[i].key) then Accumulate(reply, ts[i + 1..], max)
            else if |reply| >= max then reply
            else Accumulate(reply + [ts[i]], ts[i + 1..], max)
  {
    assert ts[i..][0] == ts[i] && ts[i..][1..] == ts[i + 1..];
  }

  /** The inner loop: is there a tuple with this key among the first end? */
  method Lookup(reply: array<Tuple>, end: nat, key: Key) returns (found: bool)
    requires end <= reply.Length
    ensures found <==> Known(reply[..end], key)
  {
    found := false;
    var tuple := 0;
    while tuple < end && !found
      invariant tuple <= end
      invariant found ==> Known(reply[..end], key)
      invariant !found ==> forall k :: 0 <= k < tuple ==> reply[..end][k].key != key
    {
      if reply[tuple].key == key {
        assert reply[..end][tuple].key == key;
        found := true;
      }
      tuple := tuple + 1;
    }
  }

  /** doNbpReply: walks a packet of tupleCount tuples by their own lengths, and
      appends the new ones to the caller's array.  ts is what the packet holds.  The
      copy of a name longer than a reply has room for spills over what comes behind;
      the model stops there. */
  method DoNbpReply(packet: seq<byte>, tupleCount: nat, reply: array<Tuple>, replyPtr: nat, got: nat, max: nat,
                    ghost ts: seq<Tuple>)
    returns (wegot: nat, end: nat, spills: bool)
    requires |ts| == tupleCount && PackAll(ts) <= packet
    requires got == replyPtr <= max <= reply.Length
    modifies reply
    ensures end == replyPtr + wegot <= max
    ensures reply[end..] == old(reply[end..])
    ensures var all := Accumulate(old(reply[..replyPtr]), ts, max);
            && reply[..end] <= all
            && FirstLong(all, replyPtr) == (if spills then end else |all|)
            && (!spills ==> reply[..end] == all)
  {
    hide Accumulate, PackAll, Known, HasTuple, Length, Unpack;
    wegot, end, spills := 0, replyPtr, false;
    var tupleIn: nat, i: nat := 0, 0;
    ghost var all := Accumulate(reply[..replyPtr], ts, max);
    assert ts[0..] == ts && packet[0..] == packet;
    while i < tupleCount
      invariant i <= tupleCount && tupleIn <= |packet| && PackAll(ts[i..]) <= packet[tupleIn..]
      invariant end == replyPtr + wegot <= max && !spills
      invariant Accumulate(reply[..end], ts[i..], max) == all
      invariant end <= |all| && FirstLong(all, replyPtr) == FirstLong(all, end)
      invariant reply[end..] == old(reply[end..])
    {
      WalkStep(packet, tupleIn, ts, i);
      AccumulateStep(reply[..end], ts, i, max);
      var tuple := Unpack(packet, tupleIn);
      var skip := Lookup(reply, end, tuple.key);
      if !skip {
        if got + wegot >= max {
          return;
        }
        ghost var before, rest := reply[..end], reply[end + 1..];
        assert before + [tuple] <= all && all[end] == tuple;
        if !tuple.entity.Fits() {
          spills := true;
          return;
        }
        assert rest == reply[end..][1..] == old(reply[end + 1..]);
        reply[end] := tuple;
        assert reply[..end + 1] == before + [tuple] && reply[end + 1..] == rest;
        wegot, end := wegot + 1, end + 1;
      }
      tupleIn := tupleIn + Length(packet, tupleIn);
      i := i + 1;
    }
    AccumulateNothing(reply[..end], max);
    assert ts[i..] == [];
  }

  /** Where in s, from i on, the first tuple stands that has a name too long; its end if
      there is none. */
  function FirstLong(s: seq<Tuple>, i: nat): (k: nat)
    requires i <= |s|
    ensures i <= k <= |s| && (k < |s| ==> !s[k].entity.Fits()) && forall j :: i <= j < k ==> s[j].entity.Fits()
    ensures k < |s| ==> var e := s[k].entity; |e.name| > 32 || |e.kind| > 32 || |e.zone| > 32
    ensures forall j :: i <= j < k ==> var e := s[j].entity; |e.name| <= 32 && |e.kind| <= 32 && |e.zone| <= 32
    decreases |s| - i
  {
    if i < |s| && s[i].entity.Fits() then FirstLong(s, i + 1) else i
  }

  lemma AccumulateNothing(reply: seq<Tuple>, max: nat)
    ensures Accumulate(reply, [], max) == reply
  {
  }
}

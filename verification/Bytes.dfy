/** The byte, and memory as bytes, for every module that works on them. */
module Bytes {
  type byte = x: int | 0 <= x < 256

  /** A big-endian unsigned short. */
  function Short(s: seq<byte>, at: nat): (v: nat)
    requires at + 2 <= |s|
    ensures v <= 0xFFFF
  {
    var high, low: int := s[at], s[at + 1];
    high * 0x100 + low
  }

  function PutShort(s: seq<byte>, at: nat, v: int): (r: seq<byte>)
    requires at + 2 <= |s| && 0 <= v <= 0xFFFF
    ensures |r| == |s| && Short(r, at) == v
    ensures forall i :: 0 <= i < |s| && !(at <= i < at + 2) ==> r[i] == s[i]
  {
    s[at := v / 0x100][at + 1 := v % 0x100]
  }

  /** A stretch of memory overwritten. */
  function Written(s: seq<byte>, at: nat, bytes: seq<byte>): seq<byte>
    requires at + |bytes| <= |s|
  {
    s[..at] + bytes + s[at + |bytes|..]
  }

  lemma WrittenTwice(s: seq<byte>, at: nat, a: seq<byte>, b: seq<byte>)
    requires at + |a| + |b| <= |s|
    ensures |Written(s, at, a)| == |s|
    ensures Written(Written(s, at, a), at + |a|, b) == Written(s, at, a + b)
  {
    var t := Written(s, at, a);
    assert t[..at + |a|] == s[..at] + a;
    assert t[at + |a| + |b|..] == s[at + |a + b|..];
  }

  /** memcpy into a byte array. */
  method Copy(to: array<byte>, at: nat, from: seq<byte>)
    requires at + |from| <= to.Length
    modifies to
    ensures to[..] == Written(old(to[..]), at, from)
  {
    for i := 0 to |from|
      invariant forall k :: 0 <= k < to.Length ==> to[k] == if at <= k < at + i then from[k - at] else old(to[k])
    {
      to[at + i] := from[i];
    }
  }
}

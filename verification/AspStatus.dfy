/** The server status block: making room in it for what TCP clients need, while
    every offset in it goes on meaning the same (AppleTalk-59/asp_if.c,
    SPNewStatus). */
module AspStatus {
  import opened Bytes

  const QUANTUM_SIZE := 4624
  const SERVER_INFO := 10          // sizeof(asp_svrinfo_t): five shorts
  const TCP_INFO := 4              // sizeof(asp_tcpinfo_t): two shorts
  const SIGNATURE := 16
  const ADDRESS := 8               // sizeof(asp_tcpaddr_t)

  // the five shorts
  const MACHINE_TYPE := 0
  const AFP_VERSIONS := 2
  const UAMS := 4
  const VOLUME_ICON := 6
  const FLAGS := 8

  function ShortBytes(n: int): (s: seq<byte>)
    ensures |s| == 2
    ensures 0 <= n < 0x1_0000 ==> Short(s, 0) == n
  {
    [n / 0x100 % 0x100, n % 0x100]
  }

  /** A status block: its five shorts and a counted name. */
  predicate HasName(block: seq<byte>) {
    SERVER_INFO + 1 <= |block| && NameEnd(block) <= |block|
  }

  function NameEnd(block: seq<byte>): nat
    requires SERVER_INFO + 1 <= |block|
  {
    SERVER_INFO + 1 + block[SERVER_INFO]
  }

  /** Where the icon starts, or the block's end if it has none. */
  function IconAt(block: seq<byte>): nat
    requires SERVER_INFO + 1 <= |block|
  {
    if Short(block, VOLUME_ICON) == 0 then |block| else Short(block, VOLUME_ICON)
  }

  function Padding(block: seq<byte>): nat
    requires SERVER_INFO + 1 <= |block|
  {
    NameEnd(block) % 2
  }

  /** How far what follows the name moves. */
  function Shift(block: seq<byte>): nat
    requires SERVER_INFO + 1 <= |block|
  {
    Padding(block) + TCP_INFO
  }

  /** A block as a server builds it: the body lies between the name and the icon. */
  predicate Regular(block: seq<byte>) {
    HasName(block) && NameEnd(block) <= IconAt(block) <= |block| <= QUANTUM_SIZE
  }

  /** A stretch that the code copies out of the block. */
  datatype Stretch = Stretch(from: nat, length: int) {
    predicate Within(block: seq<byte>) {
      0 <= length && from + length <= |block|
    }
  }

  /** What the code copies: header and name, the icon if there is one, the body. */
  function Copied(block: seq<byte>): seq<Stretch>
    requires SERVER_INFO + 1 <= |block|
  {
    var len, icon := NameEnd(block), IconAt(block);
    [Stretch(0, len)] +
    (if Short(block, VOLUME_ICON) != 0 then [Stretch(icon, |block| - icon)] else []) +
    [Stretch(len, icon - len)]
  }

  /** A block is regular exactly when every copy is of a stretch of the block: otherwise
      one reads behind it or has a negative size. */
  lemma RegularExactly(block: seq<byte>)
    requires SERVER_INFO + 1 <= |block| <= QUANTUM_SIZE
    ensures Regular(block) <==> forall c :: c in Copied(block) ==> c.Within(block)
  {
    var size: int := IconAt(block) as int - NameEnd(block) as int;
    assert Stretch(0, NameEnd(block)) in Copied(block) && Stretch(NameEnd(block), size) in Copied(block);
  }

  /** What SPNewStatus comes to; Outside says that a copy leaves the block, and what
      then happens is not part of this model. */
  datatype Result = SizeError | Outside | Built(length: nat)

  /** What the block grows by: signature, address count and addresses. */
  function TcpLength(addresses: seq<byte>): nat {
    SIGNATURE + 1 + |addresses|
  }

  function NewLength(block: seq<byte>, addresses: seq<byte>): nat
    requires SERVER_INFO + 1 <= |block|
  {
    |block| + Shift(block) + TcpLength(addresses)
  }

  function Raised(flags: nat): nat {
    var with4 := if flags / 0x10 % 2 == 1 then flags else flags + 0x10;
    if with4 / 0x20 % 2 == 1 then with4 else with4 + 0x20
  }

  /** An offset field after the move: 0 stays 0. */
  function Moved(offset: nat, gap: nat): (m: nat)
    ensures m == 0 || m < 0x1_0000
  {
    if offset == 0 then 0 else (offset + gap) % 0x1_0000
  }

  /** asp_svrinfo_t. */
  datatype ServerInfo = ServerInfo(machineType: nat, afpVersions: nat, uams: nat, volumeIcon: nat, flags: nat)

  function InfoOf(s: seq<byte>): ServerInfo
    requires SERVER_INFO <= |s|
  {
    ServerInfo(Short(s, MACHINE_TYPE), Short(s, AFP_VERSIONS), Short(s, UAMS), Short(s, VOLUME_ICON), Short(s, FLAGS))
  }

  /** The offsets after the move, and the flags raised. */
  function MovedInfo(i: ServerInfo, shift: nat, iconShift: nat): ServerInfo {
    ServerInfo(Moved(i.machineType, shift), Moved(i.afpVersions, shift), Moved(i.uams, shift),
               Moved(i.volumeIcon, iconShift), i.flags)
  }

  function NewInfo(i: ServerInfo, shift: nat, iconShift: nat): ServerInfo {
    MovedInfo(i, shift, iconShift).(flags := Raised(i.flags))
  }

  /** Signature and address list. */
  function TcpRegion(signature: seq<byte>, addresses: seq<byte>): (r: seq<byte>)
    ensures |r| == |signature| + 1 + |addresses|
  {
    signature + [|addresses| / ADDRESS % 0x100] + addresses
  }

  function TcpInfo(sig: nat): (r: seq<byte>)
    ensures |r| == TCP_INFO
  {
    ShortBytes(sig) + ShortBytes(sig + SIGNATURE)
  }

  /** What the new block must hold, region by region. */
  predicate Relocated(block: seq<byte>, signature: seq<byte>, addresses: seq<byte>, s: seq<byte>)
    requires Regular(block)
  {
    var len, icon, shift := NameEnd(block), IconAt(block), Shift(block);
    var sig := icon + shift;
    var end := sig + TcpLength(addresses);
    && |s| == NewLength(block, addresses) && |signature| == SIGNATURE
    && InfoOf(s) == NewInfo(InfoOf(block), shift, shift + TcpLength(addresses))
    && s[SERVER_INFO..len] == block[SERVER_INFO..len]
    && s[len + Padding(block)..len + shift] == TcpInfo(sig)
    && s[len + shift..sig] == block[len..icon]
    && s[sig..end] == TcpRegion(signature, addresses)
    && s[end..] == block[icon..]
  }

  /** Where a byte that follows the five shorts goes. */
  function NewPlace(block: seq<byte>, addresses: seq<byte>, o: nat): nat
    requires SERVER_INFO + 1 <= |block|
  {
    if o < NameEnd(block) then o
    else if o < IconAt(block) then o + Shift(block)
    else o + Shift(block) + TcpLength(addresses)
  }

  /** Field is one of the three that hold offsets into the body. */
  predicate IsOffset(field: nat) {
    field == 0 || field == 2 || field == 4
  }

  lemma SubSlice(s: seq<byte>, t: seq<byte>, lo: nat, hi: nat, at: nat, i: nat)
    requires lo <= i <= hi <= |t| && at + (hi - lo) <= |s| && s[at..at + (hi - lo)] == t[lo..hi]
    ensures s[at + (i - lo)..at + (hi - lo)] == t[i..hi]
  {
    assert s[at + (i - lo)..at + (hi - lo)] == s[at..at + (hi - lo)][i - lo..];
    assert t[i..hi] == t[lo..hi][i - lo..];
  }

  /** Every byte behind the five shorts is found again at its new place. */
  lemma BytesMove(block: seq<byte>, signature: seq<byte>, addresses: seq<byte>, s: seq<byte>, o: nat)
    requires Regular(block) && Relocated(block, signature, addresses, s) && SERVER_INFO <= o < |block|
    ensures NewPlace(block, addresses, o) < |s| && s[NewPlace(block, addresses, o)] == block[o]
  {
    var len, icon, shift := NameEnd(block), IconAt(block), Shift(block);
    if o < len {
      SubSlice(s, block, SERVER_INFO, len, SERVER_INFO, o);
    } else if o < icon {
      SubSlice(s, block, len, icon, len + shift, o);
    } else {
      assert s[icon + shift + TcpLength(addresses)..][o - icon] == block[icon..][o - icon];
    }
  }

  /** Of the three offset fields, those that follow the byte they pointed to are
      exactly the ones that pointed into the body: not into the name, which stays,
      nor into the icon, which moves further. */
  lemma OffsetsFollowExactly(block: seq<byte>, signature: seq<byte>, addresses: seq<byte>, s: seq<byte>, field: nat)
    requires Regular(block) && Relocated(block, signature, addresses, s) && |addresses| <= 255 * ADDRESS
    requires IsOffset(field) && 0 < Short(block, field) < |block|
    ensures Short(s, field) == NewPlace(block, addresses, Short(block, field)) <==>
            NameEnd(block) <= Short(block, field) < IconAt(block)
  {
    MovedInto(Short(block, field), Shift(block));
  }

  /** Every offset into the body means after the move what it meant before: it
      points to the same bytes, as far as the body reaches. */
  lemma OffsetsKeepMeaning(block: seq<byte>, signature: seq<byte>, addresses: seq<byte>, s: seq<byte>, field: nat)
    requires Regular(block) && Relocated(block, signature, addresses, s) && |addresses| <= 255 * ADDRESS
    requires IsOffset(field) && NameEnd(block) <= Short(block, field) < IconAt(block)
    ensures var was, now, n := Short(block, field), Short(s, field), IconAt(block) - Short(block, field);
            now == was + Shift(block) && now + n <= |s| && s[now..now + n] == block[was..was + n]
  {
    hide TcpInfo, TcpRegion, Raised;
    var len, icon, shift := NameEnd(block), IconAt(block), Shift(block);
    MovedInto(Short(block, field), shift);
    SubSlice(s, block, len, icon, len + shift, Short(block, field));
  }

  lemma MovedInto(offset: nat, gap: nat)
    requires 0 < offset && offset + gap < 0x1_0000
    ensures Moved(offset, gap) == offset + gap
  {
  }

  /** The icon moves as a whole, and its offset with it. */
  lemma IconKeepsMeaning(block: seq<byte>, signature: seq<byte>, addresses: seq<byte>, s: seq<byte>)
    requires Regular(block) && Relocated(block, signature, addresses, s) && |addresses| <= 255 * ADDRESS
    requires Short(block, 6) != 0
    ensures s[Short(s, 6)..] == block[Short(block, 6)..]
  {
    MovedInto(Short(block, VOLUME_ICON), Shift(block) + TcpLength(addresses));
  }

  /** Bit b of a number. */
  predicate Bit(n: nat, b: nat) {
    if b == 0 then n % 2 == 1 else Bit(n / 2, b - 1)
  }

  function Power(b: nat): nat {
    if b == 0 then 1 else 2 * Power(b - 1)
  }

  lemma {:induction false} BitSet(n: nat, k: nat, b: nat)
    requires !Bit(n, k)
    ensures Bit(n + Power(k), b) <==> Bit(n, b) || b == k
    decreases b
  {
    if b > 0 && k > 0 {
      assert (n + Power(k)) / 2 == n / 2 + Power(k - 1);
      BitSet(n / 2, k - 1, b - 1);
    }
  }

  lemma BitBelow(n: nat, b: nat)
    ensures Bit(n, b + 1) == Bit(n / 2, b) && Power(b + 1) == 2 * Power(b)
  {
  }

  lemma Bits4And5(n: nat)
    ensures Bit(n, 4) <==> n / 0x10 % 2 == 1
    ensures Bit(n, 5) <==> n / 0x20 % 2 == 1
    ensures Power(4) == 0x10 && Power(5) == 0x20
  {
    assert Power(0) == 1;
    assert Bit(n / 16, 0) <==> n / 16 % 2 == 1;
    hide Bit, Power;
    BitBelow(n, 3);
    BitBelow(n / 2, 2);
    BitBelow(n / 4, 1);
    BitBelow(n / 8, 0);
    Bit5(n);
  }

  lemma Bit5(n: nat)
    ensures Bit(n, 5) <==> n / 0x20 % 2 == 1
    ensures Power(5) == 0x20
  {
    assert Power(0) == 1;
    assert Bit(n / 32, 0) <==> n / 32 % 2 == 1;
    hide Bit, Power;
    BitBelow(n, 4);
    BitBelow(n / 2, 3);
    BitBelow(n / 4, 2);
    BitBelow(n / 8, 1);
    BitBelow(n / 16, 0);
  }

  lemma BitsRaised(flags: nat, b: nat)
    ensures Bit(Raised(flags), b) <==> Bit(flags, b) || b == 4 || b == 5
  {
    var with4 := if flags / 0x10 % 2 == 1 then flags else flags + 0x10;
    Bits4And5(flags);
    Bits4And5(with4);
    hide Bit, Power;
    if !Bit(flags, 4) {
      BitSet(flags, 4, b);
      BitSet(flags, 4, 5);
    }
    if !Bit(with4, 5) {
      BitSet(with4, 5, b);
    }
  }

  /** Clients are told: of the flags, which are the fifth short, exactly the bits 4 and 5
      are raised, for a signature and for TCP, and all others are as they were. */
  lemma FlagsRaised(block: seq<byte>, signature: seq<byte>, addresses: seq<byte>, s: seq<byte>, b: nat)
    requires Regular(block) && Relocated(block, signature, addresses, s)
    ensures Bit(Short(s, 8), b) <==> Bit(Short(block, 8), b) || b == 4 || b == 5
  {
    BitsRaised(Short(block, FLAGS), b);
    hide Raised, Bit, Moved, TcpInfo, TcpRegion;
  }

  /** The four offsets in the block's own bytes: one that is 0 stays so, and the others
      make room for the pad byte, the two new offsets and, the icon's, for the signature
      and the counted addresses. */
  lemma OffsetsInBytes(block: seq<byte>, signature: seq<byte>, addresses: seq<byte>, s: seq<byte>, field: nat)
    requires Regular(block) && Relocated(block, signature, addresses, s)
    requires field in {0, 2, 4, 6}
    ensures var gap := (block[10] as int + 11) % 2 + 4 + if field == 6 then 16 + 1 + |addresses| else 0;
            Short(s, field) == if Short(block, field) == 0 then 0 else (Short(block, field) + gap) % 0x1_0000
  {
    hide Raised, TcpInfo, TcpRegion;
  }

  /** The new offsets stand at an even place, lead to the signature and to the
      counted addresses, and these fill exactly the gap between body and icon. */
  lemma NewOffsetsLead(block: seq<byte>, signature: seq<byte>, addresses: seq<byte>, s: seq<byte>)
    requires Regular(block) && Relocated(block, signature, addresses, s) && |addresses| <= 255 * ADDRESS
    ensures NameEnd(block) + Shift(block) <= |s|
    ensures var at := NameEnd(block) + Padding(block);
            Leads(s, Short(s, at), Short(s, at + 2), signature, addresses)
            && Short(s, at) == IconAt(block) + Shift(block)
            && Short(s, at + 2) + 1 + |addresses| + (|block| - IconAt(block)) == |s|
            && at % 2 == 0
  {
    var at, sig := NameEnd(block) + Padding(block), IconAt(block) + Shift(block);
    hide Relocated, TcpInfo, TcpRegion, Leads, Short, Padding, NewLength, NameEnd, IconAt;
    TcpInfoIsAligned(block);
    RelocatedRegions(block, signature, addresses, s);
    TcpInfoLeads(s, at, sig);
    RegionLeads(s, sig, signature, addresses);
  }

  /** The new offsets are themselves at an even place, as shorts must be. */
  lemma TcpInfoIsAligned(block: seq<byte>)
    requires Regular(block)
    ensures (NameEnd(block) + Padding(block)) % 2 == 0
  {
  }

  /** The signature at one offset, the count and the addresses at the other. */
  predicate Leads(s: seq<byte>, sig: nat, tcp: nat, signature: seq<byte>, addresses: seq<byte>) {
    && sig + SIGNATURE == tcp && tcp + 1 + |addresses| <= |s|
    && s[sig..tcp] == signature && s[tcp] as int == |addresses| / 8
    && s[tcp + 1..tcp + 1 + |addresses|] == addresses
  }

  lemma TcpInfoLeads(s: seq<byte>, at: nat, sig: nat)
    requires at + TCP_INFO <= |s| && s[at..at + TCP_INFO] == TcpInfo(sig) && sig + SIGNATURE < 0x1_0000
    ensures Short(s, at) == sig && Short(s, at + 2) == sig + SIGNATURE
  {
    var info := TcpInfo(sig);
    assert info[..2] == ShortBytes(sig) && info[2..] == ShortBytes(sig + SIGNATURE);
    ShortInside(s, at, info, 0);
    ShortInside(s, at, info, 2);
    hide ShortBytes, TcpInfo;
    assert Short(info[0..], 0) == Short(info[..2], 0);
  }

  lemma RegionLeads(s: seq<byte>, sig: nat, signature: seq<byte>, addresses: seq<byte>)
    requires |signature| == SIGNATURE && |addresses| <= 255 * ADDRESS
    requires sig + TcpLength(addresses) <= |s| && s[sig..sig + TcpLength(addresses)] == TcpRegion(signature, addresses)
    ensures Leads(s, sig, sig + SIGNATURE, signature, addresses)
  {
    var end := sig + TcpLength(addresses);
    var region := TcpRegion(signature, addresses);
    assert s[sig..sig + SIGNATURE] == s[sig..end][..SIGNATURE] == region[..SIGNATURE];
    assert s[sig + SIGNATURE] == s[sig..end][SIGNATURE] == region[SIGNATURE];
    assert s[sig + SIGNATURE + 1..end] == s[sig..end][SIGNATURE + 1..] == region[SIGNATURE + 1..];
  }

  lemma RelocatedRegions(block: seq<byte>, signature: seq<byte>, addresses: seq<byte>, s: seq<byte>)
    requires Regular(block) && Relocated(block, signature, addresses, s)
    ensures var sig, end := IconAt(block) + Shift(block), IconAt(block) + Shift(block) + TcpLength(addresses);
            && |s| == end + (|block| - IconAt(block)) && end <= |s|
            && |signature| == SIGNATURE && sig + SIGNATURE < 0x1_0000
            && NameEnd(block) + Padding(block) + TCP_INFO == NameEnd(block) + Shift(block) <= |s|
            && s[NameEnd(block) + Padding(block)..NameEnd(block) + Shift(block)] == TcpInfo(sig)
            && s[sig..end] == TcpRegion(signature, addresses)
  {
  }

  lemma ShortInside(s: seq<byte>, at: nat, part: seq<byte>, i: nat)
    requires at + |part| <= |s| && s[at..at + |part|] == part && i + 2 <= |part|
    ensures Short(s, at + i) == Short(part[i..], 0)
  {
    assert s[at + i] == s[at..at + |part|][i] && s[at + i + 1] == s[at..at + |part|][i + 1];
  }

  lemma SameRegions(block: seq<byte>, signature: seq<byte>, addresses: seq<byte>, s: seq<byte>, t: seq<byte>)
    requires Regular(block)
    requires Relocated(block, signature, addresses, s) && Relocated(block, signature, addresses, t)
    ensures var len, icon, shift := NameEnd(block), IconAt(block), Shift(block);
            var sig := icon + shift;
            var end := sig + TcpLength(addresses);
            && end <= |s| == |t| && InfoOf(s) == InfoOf(t)
            && s[SERVER_INFO..len] == t[SERVER_INFO..len]
            && s[len + Padding(block)..len + shift] == t[len + Padding(block)..len + shift]
            && s[len + shift..sig] == t[len + shift..sig]
            && s[sig..end] == t[sig..end]
            && s[end..] == t[end..]
  {
  }

  /** The description leaves only the pad byte open. */
  lemma RelocatedIsComplete(block: seq<byte>, signature: seq<byte>, addresses: seq<byte>, s: seq<byte>, t: seq<byte>)
    requires Regular(block)
    requires Relocated(block, signature, addresses, s) && Relocated(block, signature, addresses, t)
    requires Padding(block) == 1 ==> s[NameEnd(block)] == t[NameEnd(block)]
    ensures s == t
  {
    var len, icon, shift := NameEnd(block), IconAt(block), Shift(block);
    var sig := icon + shift;
    var end := sig + TcpLength(addresses);
    SameRegions(block, signature, addresses, s, t);
    SameInfo(s, t);
    assert s[len..len + Padding(block)] == t[len..len + Padding(block)];
    GlueAll(s, t, len, len + Padding(block), len + shift, sig, end);
  }

  lemma GlueAll(s: seq<byte>, t: seq<byte>, len: nat, pad: nat, info: nat, sig: nat, end: nat)
    requires SERVER_INFO <= len <= pad <= info <= sig <= end <= |s| == |t| && s[..SERVER_INFO] == t[..SERVER_INFO]
    requires s[SERVER_INFO..len] == t[SERVER_INFO..len] && s[len..pad] == t[len..pad]
    requires s[pad..info] == t[pad..info] && s[info..sig] == t[info..sig]
    requires s[sig..end] == t[sig..end] && s[end..] == t[end..]
    ensures s == t
  {
    Glue(s, t, SERVER_INFO, len);
    Glue(s, t, len, pad);
    Glue(s, t, pad, info);
    Glue(s, t, info, sig);
    Glue(s, t, sig, end);
    Glue(s, t, end, |s|);
  }

  lemma Glue(s: seq<byte>, t: seq<byte>, i: nat, j: nat)
    requires i <= j <= |s| == |t| && s[..i] == t[..i] && s[i..j] == t[i..j]
    ensures s[..j] == t[..j]
  {
    assert s[..j] == s[..i] + s[i..j] && t[..j] == t[..i] + t[i..j];
  }

  lemma SameInfo(s: seq<byte>, t: seq<byte>)
    requires SERVER_INFO <= |s| && SERVER_INFO <= |t| && InfoOf(s) == InfoOf(t)
    ensures s[..SERVER_INFO] == t[..SERVER_INFO]
  {
    SameShorts(s, t, MACHINE_TYPE);
    SameShorts(s, t, AFP_VERSIONS);
    SameShorts(s, t, UAMS);
    SameShorts(s, t, VOLUME_ICON);
    SameShorts(s, t, FLAGS);
  }

  lemma SameShorts(s: seq<byte>, t: seq<byte>, at: nat)
    requires at + 2 <= |s| && at + 2 <= |t| && Short(s, at) == Short(t, at)
    ensures s[at] == t[at] && s[at + 1] == t[at + 1]
  {
  }

  /** What becomes of the others: an offset into the first bytes of the icon now
      points into the signature. */
  lemma OffsetsIntoIconDoNot(block: seq<byte>, signature: seq<byte>, addresses: seq<byte>, s: seq<byte>, field: nat)
    requires Regular(block) && Relocated(block, signature, addresses, s) && |addresses| <= 255 * ADDRESS
    requires IsOffset(field)
    requires IconAt(block) <= Short(block, field) < |block| && Short(block, field) < IconAt(block) + SIGNATURE
    ensures Short(s, field) < |s| && s[Short(s, field)] == signature[Short(block, field) - IconAt(block)]
  {
    var sig := IconAt(block) + Shift(block);
    MovedInto(Short(block, field), Shift(block));
    RelocatedRegions(block, signature, addresses, s);
    var i := Short(block, field) - IconAt(block);
    assert s[sig + i] == s[sig..sig + TcpLength(addresses)][i] == TcpRegion(signature, addresses)[i];
  }

  // ---------------------------------------------------------------------- the code

  lemma WrittenSlices(s: seq<byte>, at: nat, bytes: seq<byte>, i: nat, j: nat)
    requires at + |bytes| <= |s| && i <= j <= |s|
    ensures |Written(s, at, bytes)| == |s| && Written(s, at, bytes)[at..at + |bytes|] == bytes
    ensures j <= at || at + |bytes| <= i ==> Written(s, at, bytes)[i..j] == s[i..j]
  {
  }

  /** memcpy, of nothing beyond n. */
  method CopyBelow(a: array<byte>, at: nat, bytes: seq<byte>, ghost n: nat)
    requires at + |bytes| <= n <= a.Length
    modifies a
    ensures a[..] == Written(old(a[..]), at, bytes) && a[n..] == old(a[n..])
  {
    ghost var s := a[..];
    Copy(a, at, bytes);
    WrittenSlices(s, at, bytes, n, |s|);
    assert a[n..] == a[..][n..] && s[n..] == old(a[n..]);
  }

  /** One short of the server info, in place. */
  method SetShort(a: array<byte>, at: nat, n: nat)
    requires at + 2 <= SERVER_INFO <= a.Length && n < 0x1_0000
    modifies a
    ensures Short(a[..], at) == n && a[SERVER_INFO..] == old(a[SERVER_INFO..])
    ensures forall f :: 0 <= f && f + 2 <= SERVER_INFO && (f + 2 <= at || at + 2 <= f) ==>
            Short(a[..], f) == old(Short(a[..], f))
  {
    a[at], a[at + 1] := n / 0x100, n % 0x100;
  }

  /** The offsets of the server info, each moved unless it is 0. */
  method MoveOffsets(a: array<byte>, shift: nat, iconShift: nat)
    requires SERVER_INFO <= a.Length
    modifies a
    ensures a[SERVER_INFO..] == old(a[SERVER_INFO..])
    ensures InfoOf(a[..]) == MovedInfo(old(InfoOf(a[..])), shift, iconShift)
  {
    hide Moved;
    SetShort(a, MACHINE_TYPE, Moved(Short(a[..], MACHINE_TYPE), shift));
    SetShort(a, AFP_VERSIONS, Moved(Short(a[..], AFP_VERSIONS), shift));
    SetShort(a, UAMS, Moved(Short(a[..], UAMS), shift));
    SetShort(a, VOLUME_ICON, Moved(Short(a[..], VOLUME_ICON), iconShift));
  }

  method RaiseFlags(a: array<byte>)
    requires SERVER_INFO <= a.Length
    modifies a
    ensures a[SERVER_INFO..] == old(a[SERVER_INFO..])
    ensures InfoOf(a[..]) == old(InfoOf(a[..])).(flags := Raised(old(InfoOf(a[..])).flags))
  {
    RaisedFits(Short(a[..], FLAGS));
    hide Raised;
    SetShort(a, FLAGS, Raised(Short(a[..], FLAGS)));
  }

  lemma RaisedFits(flags: nat)
    requires flags < 0x1_0000
    ensures Raised(flags) < 0x1_0000
  {
  }

  /** SPNewStatus for a listener with a TCP socket: builds the new block from the
      start of FSStatusBlk, whose first QUANTUM_SIZE bytes are the static buffer.
      Only the old block's size is checked: the new one stays inside the buffer
      exactly when its length does.  signature and addresses are what the host
      reports. */
  method SPNewStatus(block: seq<byte>, FSStatusBlk: array<byte>, signature: seq<byte>, addresses: seq<byte>)
    returns (result: Result)
    requires |signature| == SIGNATURE && |addresses| <= 255 * ADDRESS
    requires Regular(block) ==> NewLength(block, addresses) <= FSStatusBlk.Length
    modifies FSStatusBlk
    ensures result.SizeError? <==> |block| > 4624
    ensures result.Outside? <==> |block| <= 4624 && !Regular(block)
    ensures !result.Built? ==> FSStatusBlk[..] == old(FSStatusBlk[..])
    ensures result.Built? ==>
              && result.length <= FSStatusBlk.Length && Regular(block)
              && Relocated(block, signature, addresses, FSStatusBlk[..result.length])
              && FSStatusBlk[result.length..] == old(FSStatusBlk[result.length..])
    ensures result.Built? ==>
              && result.length == |block| + (block[10] as int + 11) % 2 + 4 + 16 + 1 + |addresses|
              && (result.length <= 4624 <==> |block| + (block[10] as int + 11) % 2 + |addresses| <= 4603)
  {
    if |block| > QUANTUM_SIZE {
      return SizeError;
    }
    if |block| < SERVER_INFO + 1 {
      return Outside;
    }
    hide Relocated, TcpInfo, TcpRegion, Raised, Moved, Written, Assembled;
    var icon := IconAt(block);
    var len := NameEnd(block);
    if !(len <= icon <= |block|) {
      return Outside;
    }
    var pad := len % 2;
    var tcp := TcpRegion(signature, addresses);
    var FSStatusLen := |block| + pad + TCP_INFO + |tcp|;
    Assemble(block, FSStatusBlk, icon, len, pad + TCP_INFO, tcp);
    AssembledIsRelocated(block, signature, addresses, FSStatusBlk[..]);
    result := Built(FSStatusLen);
  }

  /** The regions of the new block inside the buffer. */
  predicate Assembled(block: seq<byte>, icon: nat, len: nat, shift: nat, tcp: seq<byte>, s: seq<byte>) {
    var sig, end := icon + shift, icon + shift + |tcp|;
    && SERVER_INFO <= len <= icon <= |block| && TCP_INFO <= shift && end + (|block| - icon) <= |s|
    && InfoOf(s) == NewInfo(InfoOf(block), shift, shift + |tcp|)
    && s[SERVER_INFO..len] == block[SERVER_INFO..len]
    && s[len + shift - TCP_INFO..len + shift] == TcpInfo(sig)
    && s[len + shift..sig] == block[len..icon]
    && s[sig..end] == tcp
    && s[end..end + (|block| - icon)] == block[icon..]
  }

  lemma AssembledIsRelocated(block: seq<byte>, signature: seq<byte>, addresses: seq<byte>, s: seq<byte>)
    requires Regular(block) && |signature| == SIGNATURE
    requires Assembled(block, IconAt(block), NameEnd(block), Shift(block), TcpRegion(signature, addresses), s)
    ensures NewLength(block, addresses) <= |s|
    ensures Relocated(block, signature, addresses, s[..NewLength(block, addresses)])
  {
    hide TcpInfo, TcpRegion, Moved, Raised;
    var n, len, shift, sig := NewLength(block, addresses), NameEnd(block), Shift(block), IconAt(block) + Shift(block);
    var end := sig + TcpLength(addresses);
    Truncated(s, n, SERVER_INFO, len);
    Truncated(s, n, len + Padding(block), len + shift);
    Truncated(s, n, len + shift, sig);
    Truncated(s, n, sig, end);
    Truncated(s, n, end, n);
  }

  lemma Truncated(s: seq<byte>, n: nat, i: nat, j: nat)
    requires i <= j <= n <= |s|
    ensures s[..n][i..j] == s[i..j]
  {
  }

  /** The copies in their order: foundation, offsets, icon, flags, body. */
  method Assemble(block: seq<byte>, a: array<byte>, icon: nat, len: nat, shift: nat, tcp: seq<byte>)
    requires SERVER_INFO <= len <= icon <= |block| && TCP_INFO <= shift
    requires icon + shift + |tcp| + (|block| - icon) <= a.Length
    requires icon + shift + |tcp| < 0x1_0000
    requires icon == if Short(block, VOLUME_ICON) == 0 then |block| else Short(block, VOLUME_ICON)
    modifies a
    ensures Assembled(block, icon, len, shift, tcp, a[..])
    ensures var n := |block| + shift + |tcp|; a[n..] == old(a[n..])
  {
    hide TcpInfo, Written, Short, InfoOf, MovedInfo, NewInfo, Assembled;
    ghost var s0, n := a[..], |block| + shift + |tcp|;
    LayFoundation(block, a, len, len + shift - TCP_INFO, icon + shift, tcp);
    ghost var s1 := a[..];
    TailOf(s1, s0, icon + shift + |tcp|, n);
    InfoOfPrefix(s1, block, len);
    MoveOffsets(a, shift, shift + |tcp|);
    ghost var s2 := a[..];
    TailOf(s2, s1, SERVER_INFO, n);
    MovedIconField(InfoOf(block), shift, shift + |tcp|);
    PlaceIcon(block, a, icon, shift + |tcp|);
    ghost var s3 := a[..];
    RaiseFlags(a);
    ghost var s4 := a[..];
    TailOf(s4, s3, SERVER_INFO, n);
    CopyBelow(a, len + shift, block[len..icon], n);
    StepsAssemble(block, icon, len, shift, tcp, s1, s2, s3, s4);
  }

  lemma TailOf(s: seq<byte>, t: seq<byte>, i: nat, n: nat)
    requires i <= n <= |s| == |t| && s[i..] == t[i..]
    ensures s[n..] == t[n..]
  {
    assert s[n..] == s[i..][n - i..] && t[n..] == t[i..][n - i..];
  }

  lemma MovedIconField(i: ServerInfo, shift: nat, iconShift: nat)
    ensures MovedInfo(i, shift, iconShift).volumeIcon == Moved(i.volumeIcon, iconShift)
  {
  }

  /** What the steps add up to. */
  lemma StepsAssemble(block: seq<byte>, icon: nat, len: nat, shift: nat, tcp: seq<byte>,
                      s1: seq<byte>, s2: seq<byte>, s3: seq<byte>, s4: seq<byte>)
    requires SERVER_INFO <= len <= icon <= |block| && TCP_INFO <= shift && |s1| == |s2| == |s3| == |s4|
    requires var sig, end := icon + shift, icon + shift + |tcp|;
             && end + (|block| - icon) <= |s1|
             && s1[..len] == block[..len] && s1[len + shift - TCP_INFO..len + shift] == TcpInfo(sig)
             && s1[sig..end] == tcp
             && s3[..end] == s2[..end] && s3[end..end + (|block| - icon)] == block[icon..]
    requires s2[SERVER_INFO..] == s1[SERVER_INFO..] && InfoOf(s2) == MovedInfo(InfoOf(s1), shift, shift + |tcp|)
    requires s4[SERVER_INFO..] == s3[SERVER_INFO..] && InfoOf(s4) == InfoOf(s3).(flags := Raised(InfoOf(s3).flags))
    ensures Assembled(block, icon, len, shift, tcp, Written(s4, len + shift, block[len..icon]))
  {
    hide TcpInfo, Written, Short, InfoOf, Moved, Raised;
    var sig, end := icon + shift, icon + shift + |tcp|;
    assert s1[SERVER_INFO..len] == s1[..len][SERVER_INFO..] == block[SERVER_INFO..len];
    KeptRegions(s1, s2, s3, s4, block[len..icon], len, shift, sig, end, end + (|block| - icon));
    InfoOfPrefix(s1, block, len);
    InfoOfPrefix(s2, s3, end);
    InfoOfPrefix(s4, Written(s4, len + shift, block[len..icon]), len + shift);
  }

  lemma InfoOfPrefix(s: seq<byte>, t: seq<byte>, n: nat)
    requires SERVER_INFO <= n <= |s| && n <= |t| && s[..n] == t[..n]
    ensures InfoOf(s) == InfoOf(t)
  {
    assert forall k :: 0 <= k < n ==> s[k] == s[..n][k] == t[..n][k] == t[k];
  }

  /** The icon behind everything else, if the block has one. */
  method PlaceIcon(block: seq<byte>, a: array<byte>, icon: nat, gap: nat)
    requires SERVER_INFO <= icon <= |block| && SERVER_INFO <= a.Length && icon + gap + (|block| - icon) <= a.Length
    requires 0 < gap && icon + gap < 0x1_0000
    requires icon == if Short(block, VOLUME_ICON) == 0 then |block| else Short(block, VOLUME_ICON)
    requires InfoOf(a[..]).volumeIcon == Moved(InfoOf(block).volumeIcon, gap)
    modifies a
    ensures a[..icon + gap] == old(a[..icon + gap]) && a[icon + gap..icon + gap + (|block| - icon)] == block[icon..]
    ensures a[|block| + gap..] == old(a[|block| + gap..])
  {
    ghost var s := a[..];
    if Short(a[..], VOLUME_ICON) != 0 {
      hide Written;
      CopyBelow(a, Short(a[..], VOLUME_ICON), block[icon..], |block| + gap);
      WrittenSlices(s, icon + gap, block[icon..], 0, icon + gap);
    }
  }

  /** A stretch past the server info, through the steps that do not touch it. */
  lemma KeptRegions(s1: seq<byte>, s2: seq<byte>, s3: seq<byte>, s4: seq<byte>, body: seq<byte>,
                    len: nat, shift: nat, sig: nat, end: nat, n: nat)
    requires |s1| == |s2| == |s3| == |s4| && SERVER_INFO <= len && len + shift + |body| == sig <= end <= n <= |s1|
    requires TCP_INFO <= shift
    requires s2[SERVER_INFO..] == s1[SERVER_INFO..] && s3[..end] == s2[..end] && s4[SERVER_INFO..] == s3[SERVER_INFO..]
    ensures var s5 := Written(s4, len + shift, body);
            && |s5| == |s1| && s5[..len + shift] == s4[..len + shift]
            && s5[SERVER_INFO..len] == s1[SERVER_INFO..len]
            && s5[len + shift - TCP_INFO..len + shift] == s1[len + shift - TCP_INFO..len + shift]
            && s5[len + shift..sig] == body
            && s5[sig..end] == s1[sig..end]
            && s5[end..n] == s3[end..n]
  {
    hide Written;
    var at := len + shift;
    WrittenSlices(s4, at, body, 0, at);
    WrittenSlices(s4, at, body, SERVER_INFO, len);
    WrittenSlices(s4, at, body, at - TCP_INFO, at);
    WrittenSlices(s4, at, body, sig, end);
    WrittenSlices(s4, at, body, end, n);
    Through(s1, s2, s3, s4, end, SERVER_INFO, len);
    Through(s1, s2, s3, s4, end, at - TCP_INFO, at);
    Through(s1, s2, s3, s4, end, sig, end);
    SameTail(s4, s3, end, n);
  }

  lemma SameTail(s: seq<byte>, t: seq<byte>, i: nat, j: nat)
    requires |s| == |t| && SERVER_INFO <= i <= j <= |s| && s[SERVER_INFO..] == t[SERVER_INFO..]
    ensures s[i..j] == t[i..j]
  {
    SliceOfDrop(s, SERVER_INFO, i, j);
    SliceOfDrop(t, SERVER_INFO, i, j);
  }

  lemma SliceOfDrop(s: seq<byte>, k: nat, i: nat, j: nat)
    requires k <= i <= j <= |s|
    ensures s[k..][i - k..j - k] == s[i..j]
  {
  }

  lemma Through(s1: seq<byte>, s2: seq<byte>, s3: seq<byte>, s4: seq<byte>, end: nat, i: nat, j: nat)
    requires |s1| == |s2| == |s3| == |s4| && SERVER_INFO <= i <= j <= end <= |s1|
    requires s2[SERVER_INFO..] == s1[SERVER_INFO..] && s3[..end] == s2[..end] && s4[SERVER_INFO..] == s3[SERVER_INFO..]
    ensures s4[i..j] == s1[i..j]
  {
    SameTail(s4, s3, i, j);
    assert s3[i..j] == s3[..end][i..j] == s2[..end][i..j] == s2[i..j];
    SameTail(s2, s1, i, j);
  }

  /** Header and name as they were, then the two new offsets, then their data. */
  method LayFoundation(block: seq<byte>, a: array<byte>, len: nat, info: nat, sig: nat, tcp: seq<byte>)
    requires SERVER_INFO <= len <= |block| && len <= info && info + TCP_INFO <= sig && sig + |tcp| <= a.Length
    modifies a
    ensures a[..len] == block[..len] && a[info..info + TCP_INFO] == TcpInfo(sig) && a[sig..sig + |tcp|] == tcp
    ensures a[sig + |tcp|..] == old(a[sig + |tcp|..])
  {
    ghost var s0 := a[..];
    CopyBelow(a, 0, block[..len], sig + |tcp|);
    ghost var s1 := a[..];
    CopyBelow(a, info, TcpInfo(sig), sig + |tcp|);
    ghost var s2 := a[..];
    CopyBelow(a, sig, tcp, sig + |tcp|);
    hide Written, TcpInfo;
    WrittenSlices(s0, 0, block[..len], 0, 0);
    WrittenSlices(s1, info, TcpInfo(sig), 0, len);
    WrittenSlices(s2, sig, tcp, 0, len);
    WrittenSlices(s2, sig, tcp, info, info + TCP_INFO);
  }
}

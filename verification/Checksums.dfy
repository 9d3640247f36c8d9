/** The two checksums of the Core99 NVRAM image
    (AppleCore99NVRAM-1.0d1/Core99NVRAM.cpp): the CHRP header checksum and the
    Adler-32 of the rest, section 8.2 of RFC 1950. */
module Checksums {
  import opened Bytes
  import opened Modulus

  /** unsigned long on the PowerPC; every operation on it is checked not to wrap. */
  newtype u32 = x: int | 0 <= x < 0x1_0000_0000

  const ADLER_BASE: int := 65521
  const DEFERRAL: int := 5000

  function Sum(s: seq<byte>): nat {
    if s == [] then 0 else Sum(s[..|s| - 1]) + s[|s| - 1]
  }

  lemma {:induction false} SumConcat(s: seq<byte>, t: seq<byte>)
    ensures Sum(s + t) == Sum(s) + Sum(t)
  {
    if t == [] {
      assert s + t == s;
    } else {
      SumConcat(s, t[..|t| - 1]);
      assert (s + t)[..|s + t| - 1] == s + t[..|t| - 1];
    }
  }

  lemma {:induction false} SumBounds(s: seq<byte>)
    ensures 0 <= Sum(s) <= 255 * |s|
    ensures Sum(s) == 255 * |s| <==> forall i :: 0 <= i < |s| ==> s[i] == 255
  {
    if s != [] {
      var t := s[..|s| - 1];
      SumBounds(t);
      assert forall i :: 0 <= i < |t| ==> t[i] == s[i];
    }
  }

  lemma {:induction false} SumOneChanged(s: seq<byte>, i: nat, b: byte)
    requires i < |s|
    ensures Sum(s[i := b]) == Sum(s) - s[i] + b
  {
    var last := |s| - 1;
    if i < last {
      assert s[i := b][..last] == s[..last][i := b];
      SumOneChanged(s[..last], i, b);
    } else {
      assert s[i := b][..last] == s[..last];
    }
  }

  lemma {:induction false} SumAtLeast(s: seq<byte>, i: nat)
    requires i < |s|
    ensures Sum(s) >= s[i]
  {
    if i < |s| - 1 {
      SumAtLeast(s[..|s| - 1], i);
    }
  }

  // --------------------------------------------------------------- Adler-32

  /** s1 of section 8.2 before reduction: one plus the sum of all bytes. */
  function S1(s: seq<byte>): nat {
    1 + Sum(s)
  }

  /** s2 before reduction: the sum of all s1 values. */
  function S2(s: seq<byte>): nat {
    if s == [] then 0 else S2(s[..|s| - 1]) + S1(s)
  }

  function Adler(s: seq<byte>): (r: int)
    ensures 0 <= r < 0x1_0000_0000
    ensures r % 65536 < ADLER_BASE
  {
    S2(s) % ADLER_BASE * 65536 + S1(s) % ADLER_BASE
  }

  /** The standard's own algorithm: both sums reduced after every byte. */
  function PerByte(s: seq<byte>): (int, int) {
    if s == [] then (1, 0) else
    var (a, b) := PerByte(s[..|s| - 1]);
    var a' := (a + s[|s| - 1]) % ADLER_BASE;
    (a', (b + a') % ADLER_BASE)
  }

  /** Reducing after every byte or only at the end gives the same checksum. */
  lemma {:induction false} PerByteIsAdler(s: seq<byte>)
    ensures PerByte(s) == (S1(s) % ADLER_BASE, S2(s) % ADLER_BASE)
    ensures Adler(s) == PerByte(s).1 * 65536 + PerByte(s).0
  {
    if s != [] {
      var t := s[..|s| - 1];
      PerByteIsAdler(t);
      var a, b := PerByte(t).0, PerByte(t).1;
      var a' := PerByte(s).0;
      ModTwice(S1(t), ADLER_BASE);
      ModTwice(S2(t), ADLER_BASE);
      ModTwice(S1(s), ADLER_BASE);
      ModAdd(a, S1(t), s[|s| - 1], ADLER_BASE);
      ModAdd(b, S2(t), a', ADLER_BASE);
      ModAdd(a', S1(s), S2(t), ADLER_BASE);
    }
  }

  /** Every byte weighed by how many sums it enters: as often as there are bytes from
      it to the end. */
  function Weighed(s: seq<byte>): nat {
    if s == [] then 0 else |s| * s[0] + Weighed(s[1..])
  }

  lemma {:induction false} WeighedMore(s: seq<byte>, b: byte)
    ensures Weighed(s + [b]) == Weighed(s) + Sum(s) + b
  {
    if s == [] {
      assert [b][1..] == [] && [] + [b] == [b];
    } else {
      assert (s + [b])[1..] == s[1..] + [b] && s == [s[0]] + s[1..];
      WeighedMore(s[1..], b);
      SumConcat([s[0]], s[1..]);
      SumOfOne(s[0]);
      OnceMore(|s|, s[0]);
      hide Sum;
    }
  }

  lemma OnceMore(n: nat, b: nat)
    ensures (n + 1) * b == n * b + b
  {
  }

  lemma SumOfOne(b: byte)
    ensures Sum([b]) == b
  {
    assert [b][..0] == [];
  }

  /** In closed form, with the numbers of section 8.2: 65521 is the modulus, the low
      half starts at 1, and the high half counts every byte by its place. */
  lemma {:induction false} AdlerIsWeighed(s: seq<byte>)
    ensures S2(s) == |s| + Weighed(s)
    ensures Adler(s) == (|s| + Weighed(s)) % 65521 * 65536 + (1 + Sum(s)) % 65521
  {
    if s != [] {
      var t := s[..|s| - 1];
      AdlerIsWeighed(t);
      WeighedMore(t, s[|s| - 1]);
      assert s == t + [s[|s| - 1]];
    }
  }

  /** The largest the two accumulators can be r bytes after a reduction. */
  function LowBound(r: nat): nat {
    65520 + 255 * r
  }

  function HighBound(r: nat): nat {
    65520 + 65520 * r + 255 * (r * (r + 1) / 2)
  }

  lemma HighBoundStep(r: nat)
    ensures HighBound(r + 1) == HighBound(r) + LowBound(r + 1)
  {
    assert (r + 1) * (r + 2) == r * (r + 1) + 2 * (r + 1);
  }

  lemma {:induction false} HighBoundMonotone(r: nat, q: nat)
    requires r <= q
    ensures HighBound(r) <= HighBound(q)
    decreases q - r
  {
    if r < q {
      HighBoundStep(r);
      HighBoundMonotone(r + 1, q);
    }
  }

  /** The two accumulators after the bytes of s, without any reduction. */
  function Deferred(low: int, high: int, s: seq<byte>): (int, int) {
    if s == [] then (low, high) else
    var (l, h) := Deferred(low, high, s[..|s| - 1]);
    (l + s[|s| - 1], h + l + s[|s| - 1])
  }

  /** From any residues, r bytes whatever they are can be added within 32 bits. */
  ghost predicate FitsFor(r: nat) {
    forall low: int, high: int, s: seq<byte> :: 0 <= low < ADLER_BASE && 0 <= high < ADLER_BASE && |s| == r ==>
      Deferred(low, high, s).0 < 0x1_0000_0000 && Deferred(low, high, s).1 < 0x1_0000_0000
  }

  lemma {:induction false} DeferredIsBounded(low: int, high: int, s: seq<byte>)
    requires 0 <= low < ADLER_BASE && 0 <= high < ADLER_BASE
    ensures Deferred(low, high, s).0 <= LowBound(|s|) && Deferred(low, high, s).1 <= HighBound(|s|)
  {
    if s != [] {
      DeferredIsBounded(low, high, s[..|s| - 1]);
      HighBoundStep(|s| - 1);
    }
  }

  function Ones(r: nat): (s: seq<byte>)
    ensures |s| == r
  {
    seq(r, _ => 255)
  }

  lemma {:induction false} OnesReachTheBound(r: nat)
    ensures Deferred(65520, 65520, Ones(r)) == (LowBound(r), HighBound(r))
  {
    if r > 0 {
      assert Ones(r)[..r - 1] == Ones(r - 1);
      OnesReachTheBound(r - 1);
      HighBoundStep(r - 1);
    }
  }

  /** Deferring the reduction is safe in 32 bits exactly up to 5552 bytes, over all
      bytes and all residues; the driver's 5000 reach 3,515,803,020 at worst. */
  lemma DeferralFitsExactly(r: nat)
    ensures FitsFor(r) <==> r <= 5552
    ensures Deferred(65520, 65520, Ones(DEFERRAL)).1 == 3_515_803_020
  {
    OnesReachTheBound(r);
    OnesReachTheBound(DEFERRAL);
    hide Deferred;
    if r <= 5552 {
      HighBoundMonotone(r, 5552);
      forall low: int, high: int, s: seq<byte> | 0 <= low < ADLER_BASE && 0 <= high < ADLER_BASE && |s| == r
        ensures Deferred(low, high, s).0 < 0x1_0000_0000 && Deferred(low, high, s).1 < 0x1_0000_0000
      {
        DeferredIsBounded(low, high, s);
      }
    } else {
      HighBoundMonotone(5553, r);
    }
  }

  /** How many bytes were added since the accumulators were last reduced. */
  function SinceReduction(cnt: nat): nat {
    if cnt == 0 then 0 else (cnt - 1) % DEFERRAL + 1
  }

  lemma BetweenReductions(cnt: nat)
    requires cnt % DEFERRAL != 0
    ensures SinceReduction(cnt) == cnt % DEFERRAL
  {
    ModUnique(cnt - 1, cnt / DEFERRAL, cnt % DEFERRAL - 1, DEFERRAL);
  }

  function Reduce(x: u32): (r: u32)
    ensures r as int <= 65520 && r as int % ADLER_BASE == x as int % ADLER_BASE
  {
    x % 65521
  }

  /** Adding one byte stays within the bounds, hence within 32 bits. */
  lemma StepFits(r: nat, low: int, high: int, b: byte)
    requires r < DEFERRAL && 0 <= low <= LowBound(r) && 0 <= high <= HighBound(r)
    ensures low + b <= LowBound(r + 1) < 0x1_0000_0000
    ensures high + (low + b) <= HighBound(r + 1) < 0x1_0000_0000
  {
    HighBoundStep(r);
    HighBoundMonotone(r + 1, DEFERRAL);
  }

  /** The two accumulators after the bytes done: within their bounds and
      congruent to the exact sums. */
  ghost predicate Accumulated(low: u32, high: u32, done: seq<byte>) {
    && low as int <= LowBound(SinceReduction(|done|))
    && high as int <= HighBound(SinceReduction(|done|))
    && low as int % ADLER_BASE == S1(done) % ADLER_BASE
    && high as int % ADLER_BASE == S2(done) % ADLER_BASE
  }

  /** One pass of adler32's loop. */
  method AdlerByte(low: u32, high: u32, cnt: nat, b: byte, ghost done: seq<byte>) returns (lowHalf: u32, highHalf: u32)
    requires cnt == |done| && Accumulated(low, high, done)
    ensures Accumulated(lowHalf, highHalf, done + [b])
  {
    lowHalf, highHalf := low, high;
    if cnt % 5000 == 0 {
      lowHalf := Reduce(lowHalf);
      highHalf := Reduce(highHalf);
    } else {
      BetweenReductions(cnt);
    }
    StepFits(cnt % DEFERRAL, lowHalf as int, highHalf as int, b);
    SumsExtend(done, b);
    StepSums(lowHalf as int, highHalf as int, S1(done), S2(done), b, ADLER_BASE);
    lowHalf := lowHalf + b as u32;
    highHalf := highHalf + lowHalf;
  }

  /** Core99NVRAM::adler32 over length bytes of buffer from offset start. */
  method Adler32(buffer: array<byte>, start: nat, length: nat) returns (result: u32)
    requires start + length <= buffer.Length
    ensures result as int == Adler(buffer[start..start + length])
  {
    var lowHalf: u32, highHalf: u32 := 1, 0;
    var cnt := 0;
    while cnt < length
      invariant 0 <= cnt <= length
      invariant Accumulated(lowHalf, highHalf, buffer[start..start + cnt])
    {
      ghost var done := buffer[start..start + cnt];
      lowHalf, highHalf := AdlerByte(lowHalf, highHalf, cnt, buffer[start + cnt], done);
      assert buffer[start..start + cnt + 1] == done + [buffer[start + cnt]];
      cnt := cnt + 1;
    }
    lowHalf := lowHalf % 65521;
    highHalf := highHalf % 65521;
    result := highHalf * 65536 + lowHalf;
  }

  /** One more byte keeps both accumulators congruent to the exact sums. */
  lemma StepSums(low: int, high: int, s1: int, s2: int, b: int, m: int)
    requires m > 0 && low % m == s1 % m && high % m == s2 % m
    ensures (low + b) % m == (s1 + b) % m
    ensures (high + (low + b)) % m == (s2 + (s1 + b)) % m
  {
    ModAdd(low, s1, b, m);
    ModAdd(high, s2, low + b, m);
    ModAdd(low + b, s1 + b, s2, m);
  }

  lemma SumsExtend(s: seq<byte>, b: byte)
    ensures S1(s + [b]) == S1(s) + b
    ensures S2(s + [b]) == S2(s) + (S1(s) + b)
  {
    assert (s + [b])[..|s|] == s;
  }

  // ---------------------------------------------------------- CHRP checksum

  const HEADER_SIZE := 16

  /** The header bytes the checksum covers: all sixteen but itself. */
  function Covered(s: seq<byte>): seq<byte>
    requires |s| >= HEADER_SIZE
  {
    s[..1] + s[2..HEADER_SIZE]
  }

  /** The ones'-complement sum of a total: zero only for zero, else the residue
      modulo 255 written with 255 instead of 0. */
  function OnesComplement(total: nat): (r: int)
    ensures 0 <= r < 256
  {
    if total == 0 then 0 else 1 + (total - 1) % 255
  }

  function Chrp(s: seq<byte>): (r: int)
    requires |s| >= HEADER_SIZE
    ensures 0 <= r < 256
  {
    OnesComplement(Sum(Covered(s)))
  }

  lemma EndAroundCarry(total: nat, b: byte)
    ensures var c := OnesComplement(total);
            var i := (c + b) % 256;
            (if i < c then i + 1 else i) == OnesComplement(total + b)
  {
    if total > 0 && b > 0 {
      var q := (total - 1) / 255;
      var c := OnesComplement(total);
      assert total + b - 1 == 255 * q + (c - 1 + b);
      if c + b < 256 {
        ModUnique(total + b - 1, q, c - 1 + b, 255);
      } else {
        ModUnique(total + b - 1, q + 1, c + b - 256, 255);
      }
    }
  }

  /** Core99NVRAM::chrpCheckSum: eight-bit additions with the carry fed back. */
  method ChrpCheckSum(buffer: array<byte>) returns (c_sum: byte)
    requires buffer.Length >= HEADER_SIZE
    ensures c_sum == Chrp(buffer[..])
  {
    c_sum := 0;
    var cnt := 0;
    ghost var seen: seq<byte> := [];
    while cnt < HEADER_SIZE
      invariant 0 <= cnt <= HEADER_SIZE
      invariant seen == if cnt <= 1 then buffer[..cnt] else buffer[..1] + buffer[2..cnt]
      invariant c_sum == OnesComplement(Sum(seen))
    {
      if cnt != 1 {
        var i_sum := (c_sum + buffer[cnt]) % 256;
        EndAroundCarry(Sum(seen), buffer[cnt]);
        if i_sum < c_sum {
          i_sum := i_sum + 1;
        }
        c_sum := i_sum;
        assert (seen + [buffer[cnt]])[..|seen|] == seen;
        seen := seen + [buffer[cnt]];
      }
      cnt := cnt + 1;
    }
    assert seen == Covered(buffer[..]);
  }
}

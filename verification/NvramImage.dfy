/** One 8 KB NVRAM image: how the driver seals it, how it is validated at
    start-up, and when a torn write of it is detected
    (AppleCore99NVRAM-1.0d1/Core99NVRAM.cpp and Core99NVRAM.h). */
module NvramImage {
  import opened Bytes
  import opened Checksums
  import opened Modulus

  const SIZE := 0x2000
  const SIGNATURE := 0x5A
  const CHECKSUM_AT := 1
  const ADLER_AT := 16
  const ADLER_START := 20
  const GENERATION_AT := 20
  const ULONG_MAX := 0xFFFF_FFFF

  type Image = s: seq<byte> | |s| == SIZE witness seq(SIZE, _ => 0)

  /** A big-endian unsigned long field of an image. */
  function Long(s: seq<byte>, at: nat): (v: int)
    requires at + 4 <= |s|
    ensures 0 <= v <= ULONG_MAX
  {
    var high, low: int := Short(s, at), Short(s, at + 2);
    high * 0x1_0000 + low
  }

  function PutLong(s: seq<byte>, at: nat, v: int): (r: seq<byte>)
    requires at + 4 <= |s| && 0 <= v <= ULONG_MAX
    ensures |r| == |s| && Long(r, at) == v
    ensures forall i :: 0 <= i < |s| && !(at <= i < at + 4) ==> r[i] == s[i]
  {
    PutShort(PutShort(s, at, v / 0x1_0000), at + 2, v % 0x1_0000)
  }

  /** validateGeneration: the generation of a valid image, else 0. */
  function Validate(s: Image): (g: int)
    ensures 0 <= g <= ULONG_MAX
  {
    if s[0] != SIGNATURE then 0
    else if s[CHECKSUM_AT] != Chrp(s) then 0
    else if Long(s, ADLER_AT) != Adler(s[ADLER_START..]) then 0
    else Long(s, GENERATION_AT)
  }

  /** What sync does to the header before it writes the image out. */
  function Seal(s: Image, generation: int): Image
    requires 0 <= generation <= ULONG_MAX
  {
    var numbered := PutLong(s, GENERATION_AT, generation);
    var summed := numbered[CHECKSUM_AT := Chrp(numbered)];
    PutLong(summed, ADLER_AT, Adler(summed[ADLER_START..]))
  }

  lemma ChrpIgnoresItself(s: Image, t: Image)
    requires forall i :: 0 <= i < HEADER_SIZE && i != CHECKSUM_AT ==> s[i] == t[i]
    ensures Chrp(s) == Chrp(t)
  {
    assert Covered(s) == Covered(t);
  }

  /** Sealing touches nothing but the three header fields. */
  lemma SealTouchesOnlyHeader(s: Image, generation: int)
    requires 0 <= generation <= ULONG_MAX
    ensures forall i :: 0 <= i < SIZE && i != CHECKSUM_AT && !(ADLER_AT <= i < GENERATION_AT + 4) ==>
              Seal(s, generation)[i] == s[i]
  {
    var numbered := PutLong(s, GENERATION_AT, generation);
    var summed := numbered[CHECKSUM_AT := Chrp(numbered)];
    assert Seal(s, generation) == PutLong(summed, ADLER_AT, Adler(summed[ADLER_START..]));
  }

  /** A sealed image validates to its generation exactly when the signature byte
      was left alone. */
  lemma SealedImageValidates(s: Image, generation: int)
    requires 0 <= generation <= ULONG_MAX
    ensures Seal(s, generation)[0] == s[0]
    ensures Validate(Seal(s, generation)) == if s[0] == SIGNATURE then generation else 0
  {
    var numbered := PutLong(s, GENERATION_AT, generation);
    var summed := numbered[CHECKSUM_AT := Chrp(numbered)];
    var sealed := Seal(s, generation);
    ChrpIgnoresItself(numbered, sealed);
    assert sealed[ADLER_START..] == summed[ADLER_START..];
    assert Long(sealed, GENERATION_AT) == Long(numbered, GENERATION_AT);
  }

  /** What the counter of sync becomes: an unsigned long wraps. */
  function NextGeneration(g: int): (n: int)
    requires 0 <= g <= ULONG_MAX
    ensures 0 <= n <= ULONG_MAX
  {
    (g + 1) % (ULONG_MAX + 1)
  }

  /** The image that sync writes outranks the generation before it exactly when
      its signature is intact and the counter does not wrap. */
  lemma NewImageOutranksExactly(s: Image, g: int)
    requires 0 <= g <= ULONG_MAX
    ensures Validate(Seal(s, NextGeneration(g))) > g <==> s[0] == SIGNATURE && g < ULONG_MAX
  {
    SealedImageValidates(s, NextGeneration(g));
  }

  // ------------------------------------------------------- one byte that is wrong

  /** Where the generation is, in the image's own bytes. */
  lemma GenerationInPlace(s: Image)
    ensures Validate(s) != 0 ==>
              && s[0] == 0x5A
              && Validate(s) == s[20] as int * 0x100_0000 + s[21] as int * 0x1_0000 + s[22] as int * 0x100 + s[23]
  {
  }

  /** A change of one byte of the header, other than the signature and the two
      checksums, goes unnoticed if and only if it is between 0 and 255, which are the
      same to a ones'-complement sum. */
  lemma HeaderByteExactly(s: Image, i: nat, b: byte)
    requires Validate(s) > 0 && 2 <= i < 16 && b != s[i]
    ensures Validate(s[i := b]) > 0 <==> {b, s[i]} == {0, 255}
    ensures Validate(s[i := b]) in {0, Validate(s)}
  {
    var p: Image := s[i := b];
    var c, d := Covered(s), Covered(p);
    assert d == c[i - 1 := b];
    SumOneChanged(c, i - 1, b);
    SumAtLeast(c, 0);
    SumAtLeast(d, 0);
    SameComplement(Sum(c), b - s[i]);
    assert p[ADLER_START..] == s[ADLER_START..];
    assert Chrp(p) == Chrp(s) <==> {b, s[i]} == {0, 255};
    hide Chrp, Adler;
    assert Long(p, ADLER_AT) == Long(s, ADLER_AT) && Long(p, GENERATION_AT) == Long(s, GENERATION_AT);
  }

  lemma SameComplement(total: nat, d: int)
    requires total > 0 && total + d > 0 && d != 0 && -255 <= d <= 255
    ensures OnesComplement(total + d) == OnesComplement(total) <==> d == 255 || d == -255
  {
    if d == 255 {
      ModUnique(total + d - 1, (total - 1) / 255 + 1, (total - 1) % 255, 255);
    } else if d == -255 {
      ModUnique(total - 1, (total + d - 1) / 255 + 1, (total + d - 1) % 255, 255);
    } else if d > 0 {
      DistinctResidues(total - 1, d, 255);
    } else {
      DistinctResidues(total + d - 1, -d, 255);
    }
  }

  /** Any other single wrong byte is noticed, wherever it is. */
  lemma OtherByteIsDetected(s: Image, i: nat, b: byte)
    requires Validate(s) > 0 && i < SIZE && !(2 <= i < 16) && b != s[i]
    ensures Validate(s[i := b]) == 0
  {
    var p: Image := s[i := b];
    if i == 1 {
      ChrpIgnoresItself(s, p);
    } else if 16 <= i < 20 {
      assert p[ADLER_START..] == s[ADLER_START..];
      hide Adler;
      assert Long(p, ADLER_AT) != Long(s, ADLER_AT);
    } else if 20 <= i {
      BodyByteMatters(s, i, b);
    }
  }

  lemma BodyByteMatters(s: Image, i: nat, b: byte)
    requires Validate(s) > 0 && ADLER_START <= i < SIZE && b != s[i]
    ensures Validate(s[i := b]) == 0
  {
    var p: Image := s[i := b];
    var x, y := s[ADLER_START..], p[ADLER_START..];
    assert y == x[i - ADLER_START := b];
    SumOneChanged(x, i - ADLER_START, b);
    AdlerLowHalf(x);
    AdlerLowHalf(y);
    if b > s[i] {
      DistinctResidues(S1(x), b - s[i], ADLER_BASE);
    } else {
      DistinctResidues(S1(y), s[i] - b, ADLER_BASE);
    }
    assert Long(p, ADLER_AT) == Long(s, ADLER_AT);
    hide Adler, Chrp, Sum;
  }

  // ------------------------------------------------------------ torn images

  function Erased(n: nat): (r: seq<byte>)
    ensures |r| == n && forall i :: 0 <= i < n ==> r[i] == 0xFF
  {
    seq(n, _ => 0xFF)
  }

  /** The first k bytes of an image programmed into an erased bank. */
  function Torn(s: Image, k: nat): (r: Image)
    requires k <= SIZE
  {
    s[..k] + Erased(SIZE - k)
  }

  /** No image can be valid while the low half of its Adler field is still
      erased: that half reads 0xFFFF, which no Adler-32 result has. */
  lemma ErasedAdlerFieldIsInvalid(s: Image)
    requires s[ADLER_AT + 2] == 0xFF && s[ADLER_AT + 3] == 0xFF
    ensures Validate(s) == 0
  {
    assert Long(s, ADLER_AT) % 65536 == 65535;
  }

  /** A write torn within its first 18 bytes is always detected. */
  lemma EarlyTearIsDetected(s: Image, k: nat)
    requires k <= 18
    ensures Validate(Torn(s, k)) == 0
  {
    ErasedAdlerFieldIsInvalid(Torn(s, k));
  }

  /** A torn copy of a valid image that has at least the header is accepted exactly
      when what it has of the Adler field is the Adler-32 of its body, and then with
      whatever the torn generation field reads; from byte 20 on that field is the
      whole image's. */
  lemma TearIsAcceptedExactly(s: Image, k: nat)
    requires Validate(s) > 0 && HEADER_SIZE <= k <= SIZE
    ensures var t := Torn(s, k);
            && Validate(t) == (if Long(t, ADLER_AT) == Adler(t[ADLER_START..]) then Long(t, GENERATION_AT) else 0)
            && (k >= ADLER_START ==> Long(t, ADLER_AT) == Adler(s[ADLER_START..]))
  {
    ChrpIgnoresItself(s, Torn(s, k));
  }

  /** A write that misses at most its last 256 bytes, not all of them 0xFF, is
      always detected: the bytes fall short of the sum by less than 65521. */
  lemma LateTearIsDetected(s: Image, k: nat)
    requires Validate(s) > 0 && SIZE - 256 <= k <= SIZE
    requires Torn(s, k) != s
    ensures Validate(Torn(s, k)) == 0
  {
    var kept, lost, blank := s[ADLER_START..k], s[k..], Erased(SIZE - k);
    var t := Torn(s, k);
    assert s[ADLER_START..] == kept + lost;
    assert t[ADLER_START..] == kept + blank;
    SumConcat(kept, lost);
    SumConcat(kept, blank);
    SumBounds(lost);
    SumBounds(blank);
    assert (forall i :: 0 <= i < |lost| ==> lost[i] == 255) ==> t == s;
    var deficit := Sum(blank) - Sum(lost);
    assert 1 <= deficit <= 255 * 256;
    DistinctResidues(S1(s[ADLER_START..]), deficit, ADLER_BASE);
    assert S1(t[ADLER_START..]) == S1(s[ADLER_START..]) + deficit;
    AdlerLowHalf(s[ADLER_START..]);
    AdlerLowHalf(t[ADLER_START..]);
    TearIsAcceptedExactly(s, k);
  }

  lemma DistinctResidues(x: int, d: int, m: int)
    requires 0 < d < m
    ensures (x + d) % m != x % m
  {
    if (x + d) % m == x % m {
      var q := (x + d) / m - x / m;
      assert m * q == d;
      MultipleIsFar(m, q);
    }
  }

  lemma AdlerLowHalf(s: seq<byte>)
    ensures Adler(s) % 65536 == S1(s) % ADLER_BASE
  {
    ModUnique(Adler(s), S2(s) % ADLER_BASE, S1(s) % ADLER_BASE, 65536);
  }

  // ------------------------------------------------------ images with holes

  /** A copy of s in which some bytes, wherever they are, are still erased. */
  predicate Holey(p: Image, s: Image) {
    forall i :: 0 <= i < SIZE ==> p[i] == s[i] || p[i] == 0xFF
  }

  /** What the holes in the body add to its sum of bytes. */
  function Surplus(p: Image, s: Image): int {
    Sum(p[ADLER_START..]) - Sum(s[ADLER_START..])
  }

  /** Holes that the low half of the Adler-32 alone does not show: one is in that half
      itself, or the holes of the body add a multiple of 65521. */
  predicate Suspicious(p: Image, s: Image) {
    p[ADLER_AT + 2] != s[ADLER_AT + 2] || p[ADLER_AT + 3] != s[ADLER_AT + 3] || Surplus(p, s) % ADLER_BASE == 0
  }

  /** An image no copy of which with holes passes for valid; only the suspicious ones
      have to be looked at. */
  ghost predicate HolesAreDetected(s: Image) {
    forall p: Image :: Holey(p, s) && p != s && Suspicious(p, s) ==> Validate(p) == 0
  }

  /** All others are detected, of every valid image. */
  lemma HoleIsDetected(p: Image, s: Image)
    requires Validate(s) > 0 && Holey(p, s) && !Suspicious(p, s)
    ensures Validate(p) == 0
  {
    AdlerLowHalf(s[ADLER_START..]);
    AdlerLowHalf(p[ADLER_START..]);
    LowHalf(s);
    LowHalf(p);
    hide Adler, Chrp, Sum;
    var x, y := S1(s[ADLER_START..]), S1(p[ADLER_START..]);
    if y % ADLER_BASE == x % ADLER_BASE {
      SameResidue(y, x, ADLER_BASE);
    }
  }

  lemma SameResidue(x: int, y: int, m: int)
    requires m > 0 && x % m == y % m
    ensures (x - y) % m == 0
  {
    ModUnique(x - y, x / m - y / m, 0, m);
  }

  lemma LowHalf(s: Image)
    ensures Long(s, ADLER_AT) % 65536 == Short(s, ADLER_AT + 2)
  {
  }

  lemma EveryHoleIsDetected(p: Image, s: Image)
    requires Validate(s) > 0 && Holey(p, s) && HolesAreDetected(s)
    ensures p == s || Validate(p) == 0
  {
    if !Suspicious(p, s) {
      HoleIsDetected(p, s);
    }
  }
}

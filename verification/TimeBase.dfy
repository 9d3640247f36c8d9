/** Setting the processor's time base from KeyLargo's global timer
    (AppleKeyLargo-1.0d6/KeyLargo.cpp).  Machine arithmetic is 32-bit for unsigned
    long and 64-bit two's complement for long long. */
module TimeBase {
  import opened Modulus

  const W32 := 0x1_0000_0000
  const W63 := 0x8000_0000_0000_0000
  const W64 := 0x1_0000_0000_0000_0000
  const TIMER_FREQUENCY := 18432000
  const DIVISOR := 4 * TIMER_FREQUENCY

  /** Conversion to unsigned long long and to long long. */
  function U64(n: int): (r: nat)
    ensures r < W64
  {
    n % W64
  }

  function S64(n: int): (r: int)
    ensures -W63 <= r < W63
  {
    if n % W64 < W63 then n % W64 else n % W64 - W64
  }

  /** Division of long long truncates toward zero. */
  function Truncated(n: int, d: int): int
    requires d > 0
  {
    if n >= 0 then n / d else -((-n) / d)
  }

  /** busSpeed scaled to the timer, with 32 fraction bits, as the code computes it. */
  function Ratio(busSpeed: int): int {
    Truncated(S64(busSpeed * W32), DIVISOR)
  }

  function RatioLow(ratio: int): int {
    ratio % W32
  }

  function RatioHigh(ratio: int): int {
    ratio / W32                                      // >> on a long long
  }

  /** The sum of the three lower partial products, held in a long long. */
  function Partial(gtHigh: nat, gtLow: nat, ratio: int): int {
    S64(S64(gtHigh * RatioLow(ratio)) + S64(gtLow * RatioHigh(ratio)) +
        U64(S64(gtLow * RatioLow(ratio)) + 0x8000_0000) / W32)
  }

  function TbHigh(gtHigh: nat, gtLow: nat, ratio: int): nat {
    (S64(gtHigh * RatioHigh(ratio)) + Partial(gtHigh, gtLow, ratio) / W32) % W32
  }

  function TbLow(gtHigh: nat, gtLow: nat, ratio: int): nat {
    Partial(gtHigh, gtLow, ratio) % W32
  }

  // ------------------------------------------------------------------ wrap-around

  /** Two numbers that differ by a multiple of 2^64. */
  predicate Same(x: int, y: int) {
    x % W64 == y % W64
  }

  lemma WrapsAreSame(n: int)
    ensures Same(S64(n), n) && Same(U64(n), n)
  {
  }

  lemma SameSum(x: int, y: int, x': int, y': int)
    requires Same(x, x') && Same(y, y')
    ensures Same(x + y, x' + y')
  {
    ModAdd(x, x', y, W64);
    ModAdd(y, y', x', W64);
  }

  /** Only the low half of an upper word matters. */
  lemma UpperWord(x: int, y: int)
    ensures Same((x + y / W32) % W32 * W32 + y % W32, x * W32 + y)
  {
    var h := x + y / W32;
    assert x * W32 + y == h % W32 * W32 + y % W32 + W64 * (h / W32);
    ModShift(h % W32 * W32 + y % W32, h / W32, W64);
  }

  lemma SameShifted(x: int, y: int)
    requires Same(x, y)
    ensures Same(x * W32, y * W32)
  {
    var k := x / W64 - y / W64;
    assert x * W32 == y * W32 + W64 * (k * W32);
    ModShift(y * W32, k * W32, W64);
  }

  // ----------------------------------------------------------------- the product

  /** What the split multiplication is for: timer times ratio, rounded to nearest. */
  function Scaled(gt: nat, ratio: int): int {
    (gt * ratio + 0x8000_0000) / W32
  }

  /** Schoolbook multiplication of two-digit numbers, less the low digit. */
  lemma SplitProduct(h: nat, l: nat, rh: int, rl: nat)
    ensures Scaled(h * W32 + l, rh * W32 + rl) == h * rh * W32 + (h * rl + l * rh + (l * rl + 0x8000_0000) / W32)
  {
    var upper := h * rh * W32 + h * rl + l * rh;
    var lower := l * rl + 0x8000_0000;
    assert (h * W32 + l) * (rh * W32 + rl) == upper * W32 + l * rl by {
      assert (h * W32 + l) * (rh * W32 + rl) == h * W32 * (rh * W32) + h * W32 * rl + l * (rh * W32) + l * rl;
    }
    assert upper * W32 + lower == W32 * (upper + lower / W32) + lower % W32;
    ModUnique(upper * W32 + lower, upper + lower / W32, lower % W32, W32);
  }

  lemma LargestProduct(x: nat, y: nat)
    requires x < W32 && y < W32
    ensures x * y <= (W32 - 1) * (W32 - 1)
  {
    Times(x, y, W32 - 1);
    Times(W32 - 1, x, W32 - 1);
  }

  /** The unsigned low product cannot wrap, so its rounding is exact. */
  lemma LowProductExact(p: nat)
    requires p <= (W32 - 1) * (W32 - 1)
    ensures U64(S64(p) + 0x8000_0000) == p + 0x8000_0000
  {
  }

  lemma WrappedSum(a: int, b: int, c: int)
    ensures Same(S64(S64(a) + S64(b) + c), a + b + c)
  {
    WrapsAreSame(a);
    WrapsAreSame(b);
    WrapsAreSame(S64(a) + S64(b) + c);
    hide S64;
    SameSum(S64(a), S64(b), a, b);
    SameSum(S64(a) + S64(b), c, a + b, c);
  }

  lemma PartialIsSum(h: nat, l: nat, ratio: int)
    requires l < W32
    ensures Same(Partial(h, l, ratio),
                 h * RatioLow(ratio) + l * RatioHigh(ratio) + (l * RatioLow(ratio) + 0x8000_0000) / W32)
  {
    var rl, rh := RatioLow(ratio), RatioHigh(ratio);
    hide S64, U64, Same, RatioLow, RatioHigh;
    LowRange(ratio);
    LargestProduct(l, rl);
    LowProductExact(l * rl);
    WrappedSum(h * rl, l * rh, (l * rl + 0x8000_0000) / W32);
  }

  lemma LowRange(ratio: int)
    ensures 0 <= RatioLow(ratio) < W32 && ratio == RatioHigh(ratio) * W32 + RatioLow(ratio)
  {
  }

  /** Whatever wraps on the way, the 64-bit time base is the rounded product of the
      64-bit timer and the ratio, modulo 2^64. */
  lemma SplitMultiplicationIsExact(gtHigh: nat, gtLow: nat, ratio: int)
    requires gtHigh < W32 && gtLow < W32
    ensures TbHigh(gtHigh, gtLow, ratio) * W32 + TbLow(gtHigh, gtLow, ratio) ==
            Scaled(gtHigh * W32 + gtLow, ratio) % W64
  {
    hide S64, U64, Partial, Scaled, RatioLow, RatioHigh;
    LowRange(ratio);
    var p, q := Partial(gtHigh, gtLow, ratio), gtHigh * RatioHigh(ratio);
    var low := gtHigh * RatioLow(ratio) + gtLow * RatioHigh(ratio) + (gtLow * RatioLow(ratio) + 0x8000_0000) / W32;
    PartialIsSum(gtHigh, gtLow, ratio);
    WrapsAreSame(q);
    SameShifted(S64(q), q);
    SameSum(S64(q) * W32, p, q * W32, low);
    UpperWord(S64(q), p);
    SplitProduct(gtHigh, gtLow, RatioHigh(ratio), RatioLow(ratio));
    WordPair(TbHigh(gtHigh, gtLow, ratio), TbLow(gtHigh, gtLow, ratio));
  }

  lemma WordPair(h: nat, l: nat)
    requires h < W32 && l < W32
    ensures (h * W32 + l) % W64 == h * W32 + l
  {
  }

  // -------------------------------------------------------------------- the ratio

  /** The ratio is the bus speed over four times the timer's frequency of 18.432 MHz, with
      32 fraction bits, exactly when the bus speed is below 2^31; above, it is negative. */
  lemma RatioIsRightExactly(busSpeed: nat)
    requires busSpeed < W32
    ensures Ratio(busSpeed) == busSpeed * 0x1_0000_0000 / 73728000 <==> busSpeed < 0x8000_0000
    ensures busSpeed >= 0x8000_0000 ==>
              Ratio(busSpeed) == -((0x1_0000_0000 - busSpeed) * 0x1_0000_0000 / 73728000)
  {
    if busSpeed >= 0x8000_0000 {
      assert S64(busSpeed * W32) == busSpeed * W32 - W64 < 0;
    }
  }

  /** Rounding is all that is lost: the new time base is within half a tick, plus
      gt / 2^32 for the truncated ratio, of the ideal gt * busSpeed / DIVISOR. */
  lemma ScalingError(gt: nat, busSpeed: nat)
    requires busSpeed < 0x8000_0000
    ensures var tb, ideal := Scaled(gt, Ratio(busSpeed)) as real, (gt * busSpeed) as real / 73728000.0;
            ideal - gt as real / 4294967296.0 - 0.5 < tb <= ideal + 0.5
  {
    var r := Ratio(busSpeed);
    RatioIsRightExactly(busSpeed);
    var tb := Scaled(gt, r);
    RatioBounds(busSpeed * W32, r);
    ProductBounds(gt, busSpeed, r, tb);
    Rational(gt, busSpeed, tb);
  }

  lemma RatioBounds(n: nat, r: nat)
    requires r == n / DIVISOR
    ensures r * DIVISOR <= n < (r + 1) * DIVISOR
  {
  }

  lemma ProductBounds(gt: nat, b: nat, r: nat, tb: nat)
    requires r * DIVISOR <= b * W32 < (r + 1) * DIVISOR
    requires tb == (gt * r + 0x8000_0000) / W32
    ensures 2 * W32 * DIVISOR * tb <= 2 * gt * b * W32 + W32 * DIVISOR
    ensures 2 * W32 * DIVISOR * tb > 2 * gt * b * W32 - 2 * gt * DIVISOR - W32 * DIVISOR
  {
    Times(gt, r * DIVISOR, b * W32);
    Times(gt, b * W32, r * DIVISOR + DIVISOR);
    var x, y := gt * r, gt * b;
    Regroup(gt, r, DIVISOR);
    Regroup(gt, b, W32);
    assert gt * (r * DIVISOR + DIVISOR) == gt * (r * DIVISOR) + gt * DIVISOR;
    Rounded(x, tb);
    assert 2 * gt * b * W32 == 2 * y * W32;
  }

  lemma Rounded(x: nat, tb: nat)
    requires tb == (x + 0x8000_0000) / W32
    ensures W32 * tb <= x + 0x8000_0000 < W32 * tb + W32
  {
  }

  lemma Times(a: nat, x: int, y: int)
    requires x <= y
    ensures a * x <= a * y
  {
  }

  lemma Regroup(a: int, b: int, c: int)
    ensures a * (b * c) == a * b * c
  {
  }

  lemma Rational(gt: nat, b: nat, tb: nat)
    requires 2 * W32 * DIVISOR * tb <= 2 * gt * b * W32 + W32 * DIVISOR
    requires 2 * W32 * DIVISOR * tb > 2 * gt * b * W32 - 2 * gt * DIVISOR - W32 * DIVISOR
    ensures var ideal := (gt * b) as real / DIVISOR as real;
            ideal - gt as real / W32 as real - 0.5 < tb as real <= ideal + 0.5
  {
    var x: int := gt * b;
    assert 2 * gt * b * W32 == 2 * x * W32;
    var w, d, g, t, p := W32 as real, DIVISOR as real, gt as real, tb as real, x as real;
    assert 2.0 * w * d * t <= 2.0 * p * w + w * d;
    assert 2.0 * w * d * t > 2.0 * p * w - 2.0 * g * d - w * d;
  }

  // ------------------------------------------------------------ reading a counter

  /** High, low, high again: if the two high words agree, the pair is what the
      counter held at the low read, however far it moved in between. */
  lemma StableReadIsExact(c1: nat, c2: nat, c3: nat)
    requires c1 <= c2 <= c3 && c1 / W32 == c3 / W32
    ensures c1 / W32 * W32 + c2 % W32 == c2
  {
    ModMonotone(c1, c2, W32);
    ModMonotone(c2, c3, W32);
  }

  predicate Monotone(samples: seq<nat>) {
    forall i, j :: 0 <= i <= j < |samples| ==> samples[i] <= samples[j]
  }

  /** A triple of reads can only fail to agree when a carry into the high word
      falls between its first and its last. */
  predicate Stable(samples: seq<nat>, k: nat)
    requires 3 * k + 2 < |samples|
  {
    samples[3 * k] / W32 == samples[3 * k + 2] / W32
  }

  /** Successive values of a 64-bit counter, enough of them for a stable read. */
  ghost predicate Readable(samples: seq<nat>) {
    && Monotone(samples) && |samples| % 3 == 0
    && (exists k :: 0 <= k < |samples| / 3 && Stable(samples, k))
    && forall i :: 0 <= i < |samples| ==> samples[i] < W64
  }

  /** What the counter held at the low read of the first stable triple from k on. */
  function FirstStable(samples: seq<nat>, k: nat): nat
    decreases |samples| - k
  {
    if 3 * k + 2 >= |samples| then 0
    else if Stable(samples, k) then samples[3 * k + 1]
    else FirstStable(samples, k + 1)
  }

  /** The retry loop; samples is what the counter holds at each successive read.
      It stops at the first triple without a carry, and reports how many it tried. */
  method ReadCounter(samples: seq<nat>) returns (high: nat, low: nat, tries: nat)
    requires Readable(samples)
    ensures 0 < tries <= |samples| / 3 && Stable(samples, tries - 1)
    ensures forall k :: 0 <= k < tries - 1 ==> !Stable(samples, k)
    ensures high < W32 && low < W32 && high * W32 + low == samples[3 * (tries - 1) + 1] == FirstStable(samples, 0)
  {
    hide Monotone;
    high := samples[0] / W32;
    low := samples[1] % W32;
    var high2 := samples[2] / W32;
    tries := 1;
    while high != high2
      invariant 0 < tries <= |samples| / 3
      invariant high == samples[3 * (tries - 1)] / W32 && low == samples[3 * (tries - 1) + 1] % W32
      invariant high2 == samples[3 * (tries - 1) + 2] / W32
      invariant forall k :: 0 <= k < tries - 1 ==> !Stable(samples, k)
      invariant FirstStable(samples, 0) == FirstStable(samples, tries - 1)
      decreases |samples| / 3 - tries
    {
      var at := 3 * tries;
      assert !Stable(samples, tries - 1);
      high, low, high2 := samples[at] / W32, samples[at + 1] % W32, samples[at + 2] / W32;
      tries := tries + 1;
    }
    StableTriple(samples, tries - 1);
  }

  lemma StableTriple(samples: seq<nat>, k: nat)
    requires Readable(samples) && 3 * k + 2 < |samples| && Stable(samples, k)
    ensures var high, low := samples[3 * k] / W32, samples[3 * k + 1] % W32;
            high < W32 && low < W32 && high * W32 + low == samples[3 * k + 1] == FirstStable(samples, k)
  {
    StableReadIsExact(samples[3 * k], samples[3 * k + 1], samples[3 * k + 2]);
    SplitWords(samples[3 * k] / W32, samples[3 * k + 1] % W32, samples[3 * k + 1]);
  }

  // ------------------------------------------------------------------- the drivers

  lemma Difference(x: int, y: int)
    ensures S64(x - S64(y)) == S64(x - y)
  {
  }

  /** The processor's time-base registers and the watchdog's. */
  class Registers {
    var tbUpper: nat
    var tbLower: nat
    var watchDogLow: nat
    var watchDogHigh: nat
    var watchDogEnable: nat

    ghost function TimeBase(): nat
      reads this
    {
      tbUpper * W32 + tbLower
    }

    /** The time base set once, from one reading of the timer. */
    method SetFromTimer(ratio: int, samples: seq<nat>)
      requires Readable(samples)
      modifies this`tbUpper, this`tbLower
      ensures TimeBase() == Scaled(FirstStable(samples, 0), ratio) % W64
    {
      hide Readable, Stable, FirstStable, Scaled, TbHigh, TbLow;
      var high, low, tries := ReadCounter(samples);
      SplitMultiplicationIsExact(high, low, ratio);
      tbLower := 0;
      tbUpper := TbHigh(high, low, ratio);
      tbLower := TbLow(high, low, ratio);
    }

    /** syncTimeBase: the time base is set twice, and the second reading counts. */
    method SyncTimeBase(busSpeed: int, oldTimeBase: seq<nat>, first: seq<nat>, second: seq<nat>)
      returns (diffTicks: int)
      requires Readable(oldTimeBase) && Readable(first) && Readable(second)
      modifies this`tbUpper, this`tbLower
      ensures TimeBase() == Scaled(FirstStable(second, 0), Ratio(busSpeed)) % W64
      ensures diffTicks == S64(TimeBase() - FirstStable(oldTimeBase, 0))
    {
      hide Ratio, S64, Scaled, Readable, Stable, FirstStable, Monotone;
      var ratio := Ratio(busSpeed);
      var high, low, tries := ReadCounter(oldTimeBase);
      diffTicks := S64(high * W32 + low);
      for cnt := 0 to 2
        invariant cnt == 2 ==> TimeBase() == Scaled(FirstStable(second, 0), ratio) % W64
      {
        SetFromTimer(ratio, if cnt == 0 then first else second);
      }
      Difference(tbUpper * W32 + tbLower, high * W32 + low);
      diffTicks := S64(tbUpper * W32 + tbLower - diffTicks);
    }

    /** setWatchDogTimer: the timer fires timeOut seconds after the counter's value. */
    method SetWatchDogTimer(timeOut: nat, samples: seq<nat>)
      requires timeOut < W32 && Readable(samples)
      modifies this`watchDogLow, this`watchDogHigh, this`watchDogEnable
      ensures watchDogEnable == if timeOut != 0 then 1 else 0
      ensures timeOut == 0 ==> watchDogLow == old(watchDogLow) && watchDogHigh == old(watchDogHigh)
      ensures timeOut != 0 ==> watchDogLow < W32 && watchDogHigh < W32
      ensures timeOut != 0 ==>
              watchDogHigh * 0x1_0000_0000 + watchDogLow ==
              (FirstStable(samples, 0) + timeOut * 18432000) % 0x1_0000_0000_0000_0000
    {
      if timeOut != 0 {
        hide Readable, Stable, FirstStable;
        var offset := U64(timeOut * TIMER_FREQUENCY);
        var high, low, tries := ReadCounter(samples);
        var due := U64(high * W32 + low + offset);
        watchDogLow := due % W32;
        watchDogHigh := due / W32;
      }
      watchDogEnable := if timeOut != 0 then 1 else 0;
    }
  }

  lemma SplitWords(high: nat, low: nat, n: nat)
    requires high * W32 + low == n < W64 && low < W32
    ensures high < W32
  {
  }
}

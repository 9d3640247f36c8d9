/** Division with remainder, for any modulus. */
module Modulus {
  lemma ModAdd(x: int, y: int, z: int, m: int)
    requires m > 0 && x % m == y % m
    ensures (x + z) % m == (y + z) % m
  {
    var k := x / m - y / m;
    assert x + z == y + z + m * k;
    ModShift(y + z, k, m);
  }

  lemma ModTwice(x: int, m: int)
    requires m > 0
    ensures x % m % m == x % m
  {
  }

  lemma ModShift(x: int, k: int, m: int)
    requires m > 0
    ensures (x + m * k) % m == x % m
  {
    var q := x / m;
    assert x + m * k == m * (q + k) + x % m;
    ModUnique(x + m * k, q + k, x % m, m);
  }

  lemma ModUnique(x: int, q: int, r: int, m: int)
    requires m > 0 && 0 <= r < m && x == m * q + r
    ensures x % m == r && x / m == q
  {
    var d := x / m - q;
    assert m * d == r - x % m;
    MultipleIsFar(m, d);
  }

  lemma MultipleIsFar(m: int, d: int)
    requires m > 0
    ensures d >= 1 ==> m * d >= m
    ensures d <= -1 ==> m * d <= -m
  {
  }

  /** Two numbers less than a modulus apart with the same remainder are equal. */
  lemma ModDistinct(x: int, y: int, m: int)
    requires m > 0 && x % m == y % m && -m < x - y < m
    ensures x == y
  {
    MultipleIsFar(m, x / m - y / m);
  }

  lemma ModMonotone(x: int, y: int, m: int)
    requires m > 0 && x <= y
    ensures x / m <= y / m
  {
    MultipleIsFar(m, y / m - x / m);
  }

  /** Walking d on from x, less than once round. */
  lemma ModOffset(x: int, d: int, m: int)
    requires m > 0 && 0 <= d < m
    ensures (x + d) % m == if x % m + d < m then x % m + d else x % m + d - m
  {
    if x % m + d < m {
      ModUnique(x + d, x / m, x % m + d, m);
    } else {
      ModUnique(x + d, x / m + 1, x % m + d - m, m);
    }
  }

  /** A remainder, and the same place one lap on. */
  lemma ModLap(k: int, m: int)
    requires 0 <= k < m
    ensures k % m == k && (k + m) % m == k
  {
    ModUnique(k, 0, k, m);
    ModUnique(k + m, 1, k, m);
  }
}

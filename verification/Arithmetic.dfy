/** Integer arithmetic: division facts, and the 64-bit integers of the original with their wrap-around. */
module Arithmetic {

  const TWO_16: int := 0x1_0000
  const TWO_32: int := 0x1_0000_0000
  const TWO_64: int := 0x1_0000_0000_0000_0000

  function Min(a: int, b: int): int { if a < b then a else b }

  function Max(a: int, b: int): int { if a > b then a else b }

  // ---- division -----------------------------------------------------------------------------------------

  lemma ModUnique(x: int, m: nat, q: int, r: nat)
    requires 0 <= r < m && x == m * q + r
    ensures x % m == r && x / m == q
  {
    var d := x / m - q;
    assert x == m * (x / m) + x % m;
    assert m * d == r - x % m;
    MultipleIsLarge(m, d);
  }

  lemma MultipleIsLarge(m: nat, d: int)
    ensures d >= 1 ==> m * d >= m
    ensures d <= -1 ==> m * d + m <= 0
  {
    if d >= 1 { Monotone(1, d, m); }
    if d <= -1 {
      Monotone(1, -d, m);
      assert m * d == -(-d * m);
    }
  }

  lemma Monotone(a: nat, b: nat, p: nat)
    requires a <= b
    ensures a * p <= b * p
  {
    assert b * p == a * p + (b - a) * p;
  }

  // ---- 64 bits --------------------------------------------------------------------------------------------

  const MIN_INT64: int := -0x8000_0000_0000_0000
  const MAX_INT64: int := 0x7FFF_FFFF_FFFF_FFFF

  type int64 = x: int | MIN_INT64 <= x <= MAX_INT64

  predicate Fits(x: int) { MIN_INT64 <= x <= MAX_INT64 }

  /** A result as 64 bits hold it. */
  function Wrap(x: int): int64 { (x - MIN_INT64) % TWO_64 + MIN_INT64 }

  /** Wrapping adds the one multiple of 2^64 that makes the result fit. */
  lemma WrapBy(x: int, k: int)
    requires Fits(x + TWO_64 * k)
    ensures Wrap(x) == x + TWO_64 * k
  {
    ModUnique(x - MIN_INT64, TWO_64, -k, x + TWO_64 * k - MIN_INT64);
  }

  lemma WrapShift(x: int, k: int)
    ensures Wrap(x + TWO_64 * k) == Wrap(x)
  {
    var y := x - MIN_INT64;
    ModUnique(y + TWO_64 * k, TWO_64, y / TWO_64 + k, y % TWO_64);
  }

  lemma WrapAdd(x: int, y: int)
    ensures Wrap(Wrap(x) + y) == Wrap(x + y) && Wrap(y + Wrap(x)) == Wrap(x + y)
  {
    var q := (x - MIN_INT64) / TWO_64;
    assert Wrap(x) == x - TWO_64 * q;
    WrapShift(x + y, -q);
  }
}

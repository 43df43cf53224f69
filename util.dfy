/** The integer helpers `min`, `max` and `wrap` (util.go, repeated in
    archive/util.go). */
module Util {
  /** The smaller of two integers. */
  function Min(a: int, b: int): (r: int)
    ensures r <= a && r <= b
    ensures r == a || r == b
  {
    if a < b then a else b
  }

  /** The larger of two integers. */
  function Max(a: int, b: int): (r: int)
    ensures r >= a && r >= b
    ensures r == a || r == b
  {
    if a > b then a else b
  }

  function Abs(a: int): nat {
    if a < 0 then -a else a
  }

  /** Go's `/`: the quotient truncated toward zero. */
  function GoQuot(a: int, m: int): int
    requires m != 0
  {
    var q := if a >= 0 then a / Abs(m) else -((-a) / Abs(m));
    if m > 0 then q else -q
  }

  /** Go's `%`: the remainder left by the truncated quotient, so it takes
      the sign of the dividend. A zero divisor panics in Go. */
  function GoRem(a: int, m: int): (r: int)
    requires m != 0
    ensures a == GoQuot(a, m) * m + r
    ensures Abs(r) < Abs(m)
    ensures a >= 0 ==> r >= 0
    ensures a <= 0 ==> r <= 0
  {
    if a >= 0 then a % Abs(m) else -((-a) % Abs(m))
  }

  /** `wrap(val, low, mod)`: the Go remainder of `val`, lifted by `mod`
      when it falls below `low`. */
  function Wrap(val: int, low: int, mod: int): int
    requires mod != 0
  {
    var v := GoRem(val, mod);
    if v < low then mod + v else v
  }

  /** For a positive modulus, `wrap` stays congruent to `val`, whatever
      `low` is. */
  lemma WrapCongruent(val: int, low: int, mod: int)
    requires mod > 0
    ensures (Wrap(val, low, mod) - val) % mod == 0
  {
    var v, q := GoRem(val, mod), GoQuot(val, mod);
    var k := if v < low then 1 - q else -q;
    assert Wrap(val, low, mod) - val == k * mod;
    ModUnique(Wrap(val, low, mod) - val, mod, k, 0);
  }

  /** With `low` 0 and a positive modulus, `wrap` is the mathematical
      (Euclidean) remainder, in [0, mod) also for a negative `val`. */
  lemma WrapRange(val: int, mod: int)
    requires mod > 0
    ensures Wrap(val, 0, mod) == val % mod
    ensures 0 <= Wrap(val, 0, mod) < mod
  {
    var v, q := GoRem(val, mod), GoQuot(val, mod);
    ModUnique(val, mod, q - (if v < 0 then 1 else 0), Wrap(val, 0, mod));
  }

  /** A value already in [low, mod), with `low` not negative, is left
      alone. */
  lemma WrapIdentity(val: int, low: int, mod: int)
    requires 0 <= low <= val < mod
    ensures Wrap(val, low, mod) == val
  {
    ModUnique(val, mod, 0, val);
  }

  lemma MulGe(d: int, m: int)
    requires d >= 1 && m > 0
    ensures d * m >= m
  {
    assert d * m == (d - 1) * m + m;
  }

  /** Division by a positive divisor has exactly one quotient and one
      remainder in [0, m). */
  lemma ModUnique(a: int, m: int, q: int, r: int)
    requires m > 0 && a == q * m + r && 0 <= r < m
    ensures a % m == r && a / m == q
  {
    var q', r' := a / m, a % m;
    assert a == q' * m + r';
    var d := q - q';
    assert d * m == r' - r by {
      assert q * m - q' * m == (q - q') * m;
    }
    if d >= 1 {
      MulGe(d, m);
    } else if d <= -1 {
      MulGe(-d, m);
    }
  }

  /** Go's `%` on a negative dividend differs from Dafny's Euclidean one:
      -1 % 3 is -1 in Go, and `wrap` turns it back into 2. */
  lemma WrapNegative()
    ensures GoRem(-1, 3) == -1 && -1 % 3 == 2
    ensures Wrap(-1, 0, 3) == 2
  {
  }
}

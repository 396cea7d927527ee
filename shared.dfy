/** conversion/shared.js: positive modulus, clamping and the sign used by the transfer curves. */
module Shared {
  import opened Js

  /**
   * `fmod(n, m) = ((n % m) + m) % m`: `n` reduced modulo `m` into the half-open
   * interval between 0 and `m`, also for a negative `n`.
   */
  function Fmod(n: real, m: real): (r: real)
    requires m != 0.0
    ensures 0.0 < m ==> 0.0 <= r < m
    ensures m < 0.0 ==> m < r <= 0.0
  {
    Rem(Rem(n, m) + m, m)
  }

  /** For a positive modulus, `fmod` is the floored (mathematical) modulus. */
  lemma FmodIsFloorMod(n: real, m: real)
    requires 0.0 < m
    ensures Fmod(n, m) == n - m * (n / m).Floor as real
  {
    var q := n / m;
    var t := Trunc(q);
    var r1 := Rem(n, m);
    assert r1 == n - m * t as real;
    assert Fmod(n, m) == Rem(r1 + m, m);
    SignOfQuotient(n, m);
    if 0.0 <= n {
      assert Fmod(n, m) == r1 by { RemOfInRange(r1, m); }
      assert t == q.Floor;
    } else if r1 == 0.0 {
      assert Fmod(n, m) == 0.0 by { RemOfInRange(0.0, m); }
      assert q.Floor == t by { DivUnique(n, m, t as real); }
    } else {
      assert Fmod(n, m) == r1 + m by { RemOfInRange(r1 + m, m); }
      NegativeFloor(n, m, t);
    }
  }

  /** For a negative `n` that `m` does not divide, the floor of `n / m` is one below its truncation. */
  lemma NegativeFloor(n: real, m: real, t: int)
    requires 0.0 < m && n < 0.0 && t == Trunc(n / m) && n - m * t as real != 0.0
    ensures (n / m).Floor == t - 1
    ensures n - m * t as real + m == n - m * (t - 1) as real
  {
    var q := n / m;
    assert m * q == n;
    SignOfQuotient(n, m);
    assert q != t as real;
    assert (t - 1) as real <= q < t as real;
  }

  /** `fmod(n, m) - n` is a whole multiple of the modulus. */
  lemma FmodDiffersByMultiple(n: real, m: real)
    requires 0.0 < m
    ensures (Fmod(n, m) - n) / m == ((Fmod(n, m) - n) / m).Floor as real
  {
    FmodIsFloorMod(n, m);
    var k := (n / m).Floor;
    NegatedProduct(m, k);
    WholeQuotient(Fmod(n, m) - n, m, -k);
  }

  lemma NegatedProduct(m: real, k: int)
    ensures -(m * k as real) == m * (-k) as real
  {
  }

  /** A whole multiple of `m`, divided by `m`, is a whole number. */
  lemma WholeQuotient(d: real, m: real, j: int)
    requires m != 0.0 && d == m * j as real
    ensures d / m == (d / m).Floor as real
  {
    DivUnique(d, m, j as real);
  }

  /** A value already in range is left alone. */
  lemma FmodOfInRange(n: real, m: real)
    requires 0.0 <= n < m
    ensures Fmod(n, m) == n
  {
    RemOfInRange(n, m);
  }

  /** `fmod` is idempotent: a reduced value is reduced again to itself. */
  lemma FmodIdempotent(n: real, m: real)
    requires 0.0 < m
    ensures Fmod(Fmod(n, m), m) == Fmod(n, m)
  {
    FmodOfInRange(Fmod(n, m), m);
  }

  /** `clamp(n, min, max) = Math.min(max, Math.max(min, n))`. */
  function Clamp(n: real, lo: real, hi: real): (r: real)
    ensures r <= hi
    ensures lo <= hi ==> lo <= r
    ensures lo <= n <= hi ==> r == n
    ensures n < lo && lo <= hi ==> r == lo
    ensures hi < n ==> r == hi
  {
    Min(hi, Max(lo, n))
  }

  function Clamp01(n: real): (r: real)
    ensures 0.0 <= r <= 1.0
    ensures 0.0 <= n <= 1.0 ==> r == n
    ensures n < 0.0 ==> r == 0.0
    ensures 1.0 < n ==> r == 1.0
  {
    Clamp(n, 0.0, 1.0)
  }

  /** `sign(n)`: -1 for a negative number and 1 otherwise, so zero has sign 1. */
  function Sign(n: real): (r: real)
    ensures r == -1.0 <==> n < 0.0
    ensures r == 1.0 <==> 0.0 <= n
    ensures r * Abs(n) == n
  {
    if n < 0.0 then -1.0 else 1.0
  }

  /** Clamping twice is clamping once. */
  lemma ClampIdempotent(n: real, lo: real, hi: real)
    requires lo <= hi
    ensures Clamp(Clamp(n, lo, hi), lo, hi) == Clamp(n, lo, hi)
  {}
}

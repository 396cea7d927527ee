/**
 * The JavaScript primitives that the colour code relies on, stated over exact
 * reals: truncation, the `%` operator, `Math.round`, `Math.min`/`Math.max`,
 * `Math.abs`, `String.fromCharCode`, `parseInt(s, 16)` and the two host
 * functions `Math.pow` and `Math.cbrt`, which the model takes as parameters
 * and constrains only by the axioms a lemma states as a precondition.
 */
module Js {

  /** Truncation toward zero, as ECMAScript's ToIntegerOrInfinity does. */
  function Trunc(x: real): (r: int)
    ensures 0.0 <= x ==> 0 <= r && r as real <= x < r as real + 1.0
    ensures x < 0.0 ==> r <= 0 && r as real - 1.0 < x <= r as real
  {
    if x >= 0.0 then x.Floor else -((-x).Floor)
  }

  function Abs(x: real): real { if x < 0.0 then -x else x }

  function Min(a: real, b: real): real { if a <= b then a else b }

  function Max(a: real, b: real): real { if a >= b then a else b }

  function Min3(a: real, b: real, c: real): real { Min(Min(a, b), c) }

  function Max3(a: real, b: real, c: real): real { Max(Max(a, b), c) }

  /** `Math.pow(x, n)` for a whole exponent `n`, over exact reals. */
  function Power(x: real, n: nat): real
  {
    if n == 0 then 1.0 else x * Power(x, n - 1)
  }

  /** The value of `Math.pow(x, 3)` and of `x ** 3` over exact reals. */
  function Cube(x: real): real { Power(x, 3) }

  /** The cube written out as a product. */
  lemma CubeIs(x: real)
    ensures Cube(x) == x * x * x
  {
    assert Power(x, 1) == x;
    assert Power(x, 2) == x * x;
  }

  /** Cubing is strictly increasing. */
  lemma CubeStrict(a: real, b: real)
    requires a < b
    ensures Cube(a) < Cube(b)
  {
    var d, q := b - a, a * a + a * b + b * b;
    CubeIs(a);
    CubeIs(b);
    assert Cube(b) - Cube(a) == d * q;
    assert q == (a + b / 2.0) * (a + b / 2.0) + 3.0 * (b * b) / 4.0;
    if b == 0.0 {
      assert 0.0 < a * a;
    } else {
      assert 0.0 < b * b;
    }
    MulLeftStrict(d, 0.0, q);
  }

  /** Cubing is one-to-one, and it orders its results as it orders its arguments. */
  lemma CubeOrder(a: real, b: real)
    ensures a < b <==> Cube(a) < Cube(b)
    ensures a == b <==> Cube(a) == Cube(b)
  {
    if a < b {
      CubeStrict(a, b);
    } else if b < a {
      CubeStrict(b, a);
    }
  }

  /** A cube root in the sense of `IsCubeRoot` takes every cube back to its base. */
  lemma CbrtOfCube(cbrt: Cbrt, f: real)
    requires IsCubeRoot(cbrt)
    ensures cbrt(Cube(f)) == f
  {
    assert Cube(cbrt(Cube(f))) == Cube(f);
    CubeOrder(cbrt(Cube(f)), f);
  }

  lemma MulLeftMono(m: real, a: real, b: real)
    requires 0.0 < m && a <= b
    ensures m * a <= m * b
  {}

  lemma MulLeftStrict(m: real, a: real, b: real)
    requires 0.0 < m && a < b
    ensures m * a < m * b
  {}

  /**
   * The `%` operator on numbers: `n - m * trunc(n / m)`. The remainder has the
   * sign of the dividend and is smaller than the divisor in magnitude. (A zero
   * divisor gives NaN in JavaScript and is excluded here.)
   */
  function Rem(n: real, m: real): (r: real)
    requires m != 0.0
    ensures 0.0 <= n ==> 0.0 <= r < Abs(m)
    ensures n < 0.0 ==> -Abs(m) < r <= 0.0
  {
    RemBounds(n, m);
    n - m * Trunc(n / m) as real
  }

  lemma RemBounds(n: real, m: real)
    requires m != 0.0
    ensures var r := n - m * Trunc(n / m) as real;
      (0.0 <= n ==> 0.0 <= r < Abs(m)) &&
      (n < 0.0 ==> -Abs(m) < r <= 0.0)
  {
    var t := Trunc(n / m) as real;
    if 0.0 < m {
      RemCorePos(n, m, t);
    } else {
      RemCoreNeg(n, m, t);
    }
  }

  lemma RemCoreNeg(n: real, m: real, t: real)
    requires m < 0.0 && t == Trunc(n / m) as real
    ensures 0.0 <= n ==> 0.0 <= n - m * t < -m
    ensures n < 0.0 ==> m < n - m * t <= 0.0
  {
    if n == 0.0 {
      assert n / m == 0.0;
    } else {
      NegDiv(n, m);
      RemCorePos(-n, -m, t);
      assert -n - (-m) * t == -(n - m * t);
    }
  }

  lemma RemCorePos(n: real, m: real, t: real)
    requires 0.0 < m
    requires 0.0 <= n / m ==> t <= n / m < t + 1.0
    requires n / m < 0.0 ==> t - 1.0 < n / m <= t
    ensures 0.0 <= n ==> 0.0 <= n - m * t < m
    ensures n < 0.0 ==> -m < n - m * t <= 0.0
  {
    SignOfQuotient(n, m);
    if 0.0 <= n {
      ScaleBetween(n, m, t, t + 1.0);
      assert m * (t + 1.0) == m * t + m;
    } else {
      ScaleBetween(n, m, t - 1.0, t);
      assert m * (t - 1.0) == m * t - m;
    }
  }

  /** For a positive `m`, bounds on `n / m` scale to bounds on `n`. */
  lemma ScaleBetween(n: real, m: real, lo: real, hi: real)
    requires 0.0 < m && lo <= n / m <= hi
    ensures m * lo <= n <= m * hi
    ensures n / m < hi ==> n < m * hi
    ensures lo < n / m ==> m * lo < n
  {
    var q := n / m;
    assert m * q == n;
    MulLeftMono(m, lo, q);
    MulLeftMono(m, q, hi);
    if q < hi { MulLeftStrict(m, q, hi); }
    if lo < q { MulLeftStrict(m, lo, q); }
  }

  lemma SignOfQuotient(n: real, m: real)
    requires 0.0 < m
    ensures 0.0 <= n <==> 0.0 <= n / m
    ensures 0.0 < n <==> 0.0 < n / m
  {
    var q := n / m;
    assert m * q == n;
    if 0.0 < q {
      MulLeftStrict(m, 0.0, q);
    } else if q == 0.0 {
    } else {
      MulLeftStrict(m, q, 0.0);
    }
  }

  /** A remainder of a dividend already in range is the dividend itself. */
  lemma RemOfInRange(n: real, m: real)
    requires 0.0 <= n < m
    ensures Rem(n, m) == n
    ensures Rem(n + m, m) == n
  {
    var q := n / m;
    SignOfQuotient(n, m);
    SignOfQuotient(m - n, m);
    DivAdd(m, -n, m);
    DivNeg(n, m);
    DivUnique(m, m, 1.0);
    assert 0.0 <= q < 1.0;
    assert Trunc(q) == 0;
    DivAdd(n, m, m);
    assert (n + m) / m == q + 1.0;
    assert Trunc(q + 1.0) == 1;
  }

  lemma DivUnique(x: real, m: real, q: real)
    requires m != 0.0 && m * q == x
    ensures x / m == q
  {}

  lemma DivAdd(a: real, b: real, m: real)
    requires m != 0.0
    ensures (a + b) / m == a / m + b / m
  {
    var qa := a / m;
    var qb := b / m;
    assert m * qa == a;
    assert m * qb == b;
    assert m * (qa + qb) == a + b;
    DivUnique(a + b, m, qa + qb);
  }

  lemma DivNeg(a: real, m: real)
    requires m != 0.0
    ensures (-a) / m == -(a / m)
  {
    var q := a / m;
    assert m * q == a;
    assert m * (-q) == -a;
    DivUnique(-a, m, -q);
  }

  lemma NegDiv(n: real, m: real)
    requires m != 0.0
    ensures (-n) / (-m) == n / m
  {}

  /** `Math.round`: the nearest integer, halves rounded toward +infinity. */
  function Round(x: real): (r: int)
    ensures x - 0.5 < r as real <= x + 0.5
  {
    (x + 0.5).Floor
  }

  /** The characters ECMAScript's TrimString removes: WhiteSpace and LineTerminator. */
  predicate IsWhitespace(c: char)
  {
    var u := c as int;
    u == 0x09 || u == 0x0B || u == 0x0C || u == 0x20 || u == 0xA0 || u == 0xFEFF ||
    u == 0x1680 || (0x2000 <= u <= 0x200A) || u == 0x202F || u == 0x205F || u == 0x3000 ||
    u == 0x0A || u == 0x0D || u == 0x2028 || u == 0x2029
  }

  /** The value of a radix-16 digit, or -1 for any other character. */
  function HexDigit(c: char): (d: int)
    ensures -1 <= d < 16
    ensures d == -1 <==> !(('0' <= c <= '9') || ('a' <= c <= 'f') || ('A' <= c <= 'F'))
  {
    if '0' <= c <= '9' then c as int - '0' as int
    else if 'a' <= c <= 'f' then c as int - 'a' as int + 10
    else if 'A' <= c <= 'F' then c as int - 'A' as int + 10
    else -1
  }

  predicate IsHexDigit(c: char) { HexDigit(c) >= 0 }

  function TrimStart(s: string): (t: string)
  {
    if s != [] && IsWhitespace(s[0]) then TrimStart(s[1..]) else s
  }

  /** The longest prefix of `s` made of hex digits. */
  function HexPrefix(s: string): (p: string)
    ensures forall i :: 0 <= i < |p| ==> IsHexDigit(p[i])
  {
    if s != [] && IsHexDigit(s[0]) then [s[0]] + HexPrefix(s[1..]) else []
  }

  /** The value of a string of hex digits, most significant first. */
  function HexValue(p: string): (v: nat)
    requires forall i :: 0 <= i < |p| ==> IsHexDigit(p[i])
  {
    if p == [] then 0
    else
      assert IsHexDigit(p[|p| - 1]);
      HexValue(p[..|p| - 1]) * 16 + HexDigit(p[|p| - 1])
  }

  /** The text after an optional sign. */
  function Unsigned(t: string): (u: string)
    ensures u == t || (t != [] && u == t[1..])
  {
    if t != [] && (t[0] == '-' || t[0] == '+') then t[1..] else t
  }

  /** The text after an optional "0x" or "0X". */
  function WithoutRadixPrefix(u: string): (w: string)
    ensures w == u || (|u| >= 2 && w == u[2..])
  {
    if |u| >= 2 && u[0] == '0' && (u[1] == 'x' || u[1] == 'X') then u[2..] else u
  }

  /**
   * `parseInt(s, 16)`: skip leading white space, take an optional sign, drop a
   * "0x"/"0X" prefix, then read the longest run of hex digits. `None` stands
   * for NaN, which the function returns when that run is empty.
   */
  function ParseHex(s: string): (r: Option<int>)
  {
    var t := TrimStart(s);
    var z := HexPrefix(WithoutRadixPrefix(Unsigned(t)));
    if z == [] then None
    else
      var v: int := HexValue(z);
      Some(if t != [] && t[0] == '-' then -v else v)
  }

  datatype Option<T> = None | Some(value: T)

  /**
   * `String.fromCharCode` of one argument: ToUint16 truncates the number. Only
   * codes below the surrogate range are modelled, because a Dafny `char` is a
   * Unicode scalar value.
   */
  function FromCharCode(x: real): (c: char)
    requires 0.0 <= x < 55296.0
    ensures c as int == Trunc(x)
  {
    Trunc(x) as char
  }

  /** `Math.pow` as the host supplies it. */
  type Pow = (real, real) -> real

  /** `Math.cbrt` as the host supplies it. */
  type Cbrt = real -> real

  /** A power of a non-negative base is non-negative. */
  ghost predicate PowNonNegative(pow: Pow)
  {
    forall x, k :: 0.0 <= x ==> 0.0 <= pow(x, k)
  }

  /** Zero to a positive power is zero. */
  ghost predicate PowZero(pow: Pow)
  {
    forall k :: 0.0 < k ==> pow(0.0, k) == 0.0
  }

  /** Powers of a positive base compose: `(x^p)^q == x^(p*q)`. */
  ghost predicate PowCompose(pow: Pow)
  {
    forall x, p, q {:trigger pow(pow(x, p), q)} :: 0.0 < x ==> pow(pow(x, p), q) == pow(x, p * q)
  }

  /** The first power of a positive base is the base. */
  ghost predicate PowOne(pow: Pow)
  {
    forall x :: 0.0 < x ==> pow(x, 1.0) == x
  }

  /** Raising a non-negative base to `p` and then to `q` gives the base back. */
  ghost predicate PowInverse(pow: Pow, p: real, q: real)
  {
    forall x {:trigger pow(pow(x, p), q)} :: 0.0 <= x ==> pow(pow(x, p), q) == x
  }

  /**
   * Reciprocal positive exponents undo each other: `(x^p)^q == x^(p*q) == x^1 == x`
   * for a positive base, and `0^p = 0`, `0^q = 0` for zero.
   */
  lemma InverseOfReciprocal(pow: Pow, p: real, q: real)
    requires PowCompose(pow) && PowOne(pow) && PowZero(pow)
    requires 0.0 < p && p * q == 1.0
    ensures PowInverse(pow, p, q)
  {
    assert 0.0 < q;
    forall x | 0.0 <= x
      ensures pow(pow(x, p), q) == x
    {
      if x == 0.0 {
        assert pow(0.0, p) == 0.0;
        assert pow(0.0, q) == 0.0;
      } else {
        assert pow(pow(x, p), q) == pow(x, p * q);
        assert pow(x, 1.0) == x;
      }
    }
  }

  /** The real cube root: cubing it gives back its argument. */
  ghost predicate IsCubeRoot(cbrt: Cbrt)
  {
    forall c :: Cube(cbrt(c)) == c
  }
}

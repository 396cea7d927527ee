/**
 * conversion/a98.js: the Adobe RGB (1998) transfer curve, a pure power law
 * with exponent 563/256 extended to negative values by sign, and the exact
 * rational matrices to and from D65 XYZ. `Matrix` comes from a module
 * `./matrix` that is not part of this model and is read as the row-major
 * matrix type of LinAlg.
 */
module A98 {
  import opened Js
  import opened Shared
  import opened LinAlg

  const Gamma: real := 563.0 / 256.0

  const InverseGamma: real := 256.0 / 563.0

  /** Decoding: `sign(c) * |c|^(563/256)`, with no linear segment. */
  function GammaToLinear(pow: Pow, c: real): real
  {
    Sign(c) * pow(Abs(c), Gamma)
  }

  /** Encoding: `sign(c) * |c|^(256/563)`, with no linear segment. */
  function LinearToGamma(pow: Pow, c: real): real
  {
    Sign(c) * pow(Abs(c), InverseGamma)
  }

  /** The two exponents are reciprocal. */
  lemma ExponentsReciprocal()
    ensures Gamma * InverseGamma == 1.0
  {
  }

  /** A signed power `sign(c) * |c|^k` is odd and fixes zero. */
  lemma SignedPowerOdd(pow: Pow, k: real, c: real)
    requires PowZero(pow) && 0.0 < k
    ensures Sign(-c) * pow(Abs(-c), k) == -(Sign(c) * pow(Abs(c), k))
    ensures Sign(0.0) * pow(Abs(0.0), k) == 0.0
  {
    if c == 0.0 {
      assert pow(0.0, k) == 0.0;
    } else {
      assert Abs(-c) == Abs(c);
    }
  }

  /** Both curves are odd and map 0 to 0, given that `0^k = 0` for `k > 0`. */
  lemma CurvesOdd(pow: Pow, c: real)
    requires PowZero(pow)
    ensures GammaToLinear(pow, -c) == -GammaToLinear(pow, c)
    ensures LinearToGamma(pow, -c) == -LinearToGamma(pow, c)
    ensures GammaToLinear(pow, 0.0) == 0.0 && LinearToGamma(pow, 0.0) == 0.0
  {
    SignedPowerOdd(pow, Gamma, c);
    SignedPowerOdd(pow, InverseGamma, c);
  }

  /** Both curves keep the sign of their input, given that powers are non-negative. */
  lemma CurvesKeepSign(pow: Pow, c: real)
    requires PowNonNegative(pow)
    ensures 0.0 <= c ==> 0.0 <= GammaToLinear(pow, c) && 0.0 <= LinearToGamma(pow, c)
    ensures c < 0.0 ==> GammaToLinear(pow, c) <= 0.0 && LinearToGamma(pow, c) <= 0.0
  {
    assert 0.0 <= pow(Abs(c), Gamma);
    assert 0.0 <= pow(Abs(c), InverseGamma);
  }

  /**
   * A signed power is undone by the signed power with the reciprocal
   * exponent: the magnitude because `(x^p)^q = x^(p*q) = x`, the sign because
   * `x^p` is zero only for `x = 0`.
   */
  lemma SignedPowerRoundTrip(pow: Pow, p: real, q: real, c: real)
    requires PowNonNegative(pow) && PowZero(pow) && PowCompose(pow) && PowOne(pow)
    requires 0.0 < p && p * q == 1.0
    ensures var g := Sign(c) * pow(Abs(c), p); Sign(g) * pow(Abs(g), q) == c
  {
    InverseOfReciprocal(pow, p, q);
    var m := pow(Abs(c), p);
    assert 0.0 <= m;
    assert pow(m, q) == Abs(c);
    assert 0.0 < q;
    assert pow(0.0, q) == 0.0;
    if c < 0.0 {
      assert m != 0.0;
      assert Sign(-m) == -1.0 && Abs(-m) == m;
    } else {
      assert Sign(m) == 1.0 && Abs(m) == m;
    }
  }

  /**
   * Decoding and encoding undo each other, given that powers of a positive
   * base compose, that `x^1 = x` and that `0^k = 0`: the exponents are reciprocal.
   */
  lemma CurvesRoundTrip(pow: Pow, c: real)
    requires PowNonNegative(pow) && PowZero(pow) && PowCompose(pow) && PowOne(pow)
    ensures LinearToGamma(pow, GammaToLinear(pow, c)) == c
    ensures GammaToLinear(pow, LinearToGamma(pow, c)) == c
  {
    ExponentsReciprocal();
    var g := GammaToLinear(pow, c);
    assert g == Sign(c) * pow(Abs(c), Gamma);
    assert LinearToGamma(pow, g) == c by {
      SignedPowerRoundTrip(pow, Gamma, InverseGamma, c);
    }
    var l := LinearToGamma(pow, c);
    assert l == Sign(c) * pow(Abs(c), InverseGamma);
    assert GammaToLinear(pow, l) == c by {
      SignedPowerRoundTrip(pow, InverseGamma, Gamma, c);
    }
  }

  /** Linear A98 RGB to D65 XYZ (conversion/a98.js:24-28). */
  const A98ToXyz: Matrix := [
    573536.0 /  994567.0,  263643.0 / 1420810.0,  187206.0 /  994567.0,
    591459.0 / 1989134.0, 6239551.0 / 9945670.0,  374412.0 / 4972835.0,
     53769.0 / 1989134.0,  351524.0 / 4972835.0, 4929758.0 / 4972835.0
  ]

  /** D65 XYZ to linear A98 RGB (conversion/a98.js:32-36). */
  const XyzToA98: Matrix := [
    1829569.0 /  896150.0, -506331.0 /  896150.0, -308931.0 /  896150.0,
    -851781.0 /  878810.0, 1648619.0 /  878810.0,   36519.0 /  878810.0,
      16779.0 / 1248040.0, -147721.0 / 1248040.0, 1266979.0 / 1248040.0
  ]

  /** The two rational matrices are exact inverses of each other. */
  lemma MatricesInverse()
    ensures MatMul(XyzToA98, A98ToXyz) == Identity
    ensures MatMul(A98ToXyz, XyzToA98) == Identity
  {
    InverseLeft();
    InverseRight();
  }

  lemma InverseLeft()
    ensures MatMul(XyzToA98, A98ToXyz) == Identity
  {
    MatMulOfEntries(XyzToA98, A98ToXyz, Identity);
  }

  lemma InverseRight()
    ensures MatMul(A98ToXyz, XyzToA98) == Identity
  {
    MatMulOfEntries(A98ToXyz, XyzToA98, Identity);
  }

  /** Linear A98 RGB to XYZ and back returns the same colour, exactly. */
  lemma XyzRoundTrip(rgb: Vector, xyz: Vector)
    ensures MulVec(XyzToA98, MulVec(A98ToXyz, rgb)) == rgb
    ensures MulVec(A98ToXyz, MulVec(XyzToA98, xyz)) == xyz
  {
    MatricesInverse();
    InverseRoundTrip(XyzToA98, A98ToXyz, rgb);
    InverseRoundTrip(A98ToXyz, XyzToA98, xyz);
  }
}

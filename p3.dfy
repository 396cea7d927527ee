/**
 * conversion/p3.js: Display P3 reuses the sRGB transfer curve and has its own
 * exact rational matrices to and from D65 XYZ. It imports from
 * conversion/srgb.js, which fails to link, and takes `Matrix` from a module
 * `./matrix` that is not part of this model; it is modelled as if it loaded,
 * with `Matrix` read as the row-major matrix type of LinAlg.
 */
module P3 {
  import opened Js
  import opened LinAlg
  import Srgb

  /** The P3 decoder is the sRGB decoder under another name. */
  function GammaToLinear(pow: Pow, c: real): (r: real)
    ensures r == Srgb.GammaToLinear(pow, c)
  {
    Srgb.GammaToLinear(pow, c)
  }

  /**
   * The P3 encoder is the sRGB encoder under another name (its doc comment
   * calls it a gamma-to-linear conversion).
   */
  function LinearToGamma(pow: Pow, c: real): (r: real)
    ensures r == Srgb.LinearToGamma(pow, c)
  {
    Srgb.LinearToGamma(pow, c)
  }

  /** Linear P3 to D65 XYZ (conversion/p3.js:15-19). */
  const P3ToXyz: Matrix := [
    608311.0 / 1250200.0, 189793.0 / 714400.0,  198249.0 / 1000160.0,
     35783.0 /  156275.0, 247089.0 / 357200.0,  198249.0 / 2500400.0,
         0.0 /       1.0,  32229.0 / 714400.0, 5220557.0 / 5000800.0
  ]

  /** D65 XYZ to linear P3 (conversion/p3.js:23-27). */
  const XyzToP3: Matrix := [
    446124.0 / 178915.0, -333277.0 / 357830.0, -72051.0 / 178915.0,
    -14852.0 /  17905.0,   63121.0 /  35810.0,    423.0 /  17905.0,
     11844.0 / 330415.0,  -50337.0 / 660830.0, 316169.0 / 330415.0
  ]

  /** The two rational matrices are exact inverses of each other. */
  lemma MatricesInverse()
    ensures MatMul(XyzToP3, P3ToXyz) == Identity
    ensures MatMul(P3ToXyz, XyzToP3) == Identity
  {
    InverseLeft();
    InverseRight();
  }

  lemma InverseLeft()
    ensures MatMul(XyzToP3, P3ToXyz) == Identity
  {
    MatMulOfEntries(XyzToP3, P3ToXyz, Identity);
  }

  lemma InverseRight()
    ensures MatMul(P3ToXyz, XyzToP3) == Identity
  {
    MatMulOfEntries(P3ToXyz, XyzToP3, Identity);
  }

  /** Linear P3 to XYZ and back returns the same colour, exactly. */
  lemma XyzRoundTrip(rgb: Vector, xyz: Vector)
    ensures MulVec(XyzToP3, MulVec(P3ToXyz, rgb)) == rgb
    ensures MulVec(P3ToXyz, MulVec(XyzToP3, xyz)) == xyz
  {
    MatricesInverse();
    InverseRoundTrip(XyzToP3, P3ToXyz, rgb);
    InverseRoundTrip(P3ToXyz, XyzToP3, xyz);
  }

  /** The zero in row 3, column 1: linear red never contributes to Z. */
  lemma RedDoesNotReachZ(u: Vector, v: Vector)
    requires u[1] == v[1] && u[2] == v[2]
    ensures MulVec(P3ToXyz, u)[2] == MulVec(P3ToXyz, v)[2]
  {
    assert MulVec(P3ToXyz, u)[2] == RowEntry(P3ToXyz, u, 2);
    assert MulVec(P3ToXyz, v)[2] == RowEntry(P3ToXyz, v, 2);
  }
}

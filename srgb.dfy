/**
 * conversion/srgb.js: the sRGB transfer curve, extended to negative values by
 * sign, and the exact rational matrices between linear sRGB and D65 XYZ, as
 * in the sample code of CSS Color Module Level 4. The file imports `Matrix`
 * from conversion/linalg.js, which does not export it, so the module fails to
 * link as written; it is modelled as if it loaded, with `Matrix` read as the
 * row-major matrix type of LinAlg.
 */
module Srgb {
  import opened Js
  import opened Shared
  import opened LinAlg

  /** Decoding from gamma to linear: a line near zero, a power curve beyond. */
  function GammaToLinear(pow: Pow, c: real): (r: real)
    ensures Abs(c) <= 0.04045 ==> r == c / 12.92
  {
    var abs := Abs(c);
    if abs <= 0.04045 then c / 12.92 else Sign(c) * pow((abs + 0.055) / 1.055, 2.4)
  }

  /** Encoding from linear to gamma: a line near zero, a power curve beyond. */
  function LinearToGamma(pow: Pow, c: real): (r: real)
    ensures Abs(c) <= 0.0031308 ==> r == 12.92 * c
  {
    var abs := Abs(c);
    if abs > 0.0031308 then Sign(c) * (1.055 * pow(abs, 1.0 / 2.4) - 0.055) else 12.92 * c
  }

  /** Both curves are odd, f(-c) = -f(c), and fix zero, whatever `pow` is. */
  lemma CurvesOdd(pow: Pow, c: real)
    ensures GammaToLinear(pow, -c) == -GammaToLinear(pow, c)
    ensures LinearToGamma(pow, -c) == -LinearToGamma(pow, c)
    ensures GammaToLinear(pow, 0.0) == 0.0 && LinearToGamma(pow, 0.0) == 0.0
  {
  }

  /**
   * Encoding then decoding is exact on the linear segment of the encoder,
   * because 12.92 * 0.0031308 = 0.040449936 is inside the decoder's segment.
   */
  lemma LinearSegmentRoundTrip(pow: Pow, c: real)
    requires Abs(c) <= 0.0031308
    ensures GammaToLinear(pow, LinearToGamma(pow, c)) == c
  {
  }

  /**
   * The two breakpoints do not line up: a gamma value just below 0.04045 is
   * decoded on the line, but the decoded value lies beyond 0.0031308, so
   * encoding it back goes through the power curve.
   */
  lemma BreakpointMismatch(pow: Pow, c: real)
    requires 0.040449936 < Abs(c) <= 0.04045
    ensures GammaToLinear(pow, c) == c / 12.92
    ensures 0.0031308 < Abs(GammaToLinear(pow, c))
    ensures LinearToGamma(pow, GammaToLinear(pow, c))
         == Sign(c) * (1.055 * pow(Abs(c / 12.92), 1.0 / 2.4) - 0.055)
  {
  }

  /** Linear sRGB to D65 XYZ (conversion/srgb.js:30-34). */
  const SrgbToXyz: Matrix := [
    506752.0 / 1228815.0,  87881.0 / 245763.0,   12673.0 /   70218.0,
     87098.0 /  409605.0, 175762.0 / 245763.0,   12673.0 /  175545.0,
      7918.0 /  409605.0,  87881.0 / 737289.0, 1001167.0 / 1053270.0
  ]

  /** D65 XYZ to linear sRGB (conversion/srgb.js:38-42). */
  const XyzToSrgb: Matrix := [
      12831.0 /   3959.0,    -329.0 /    214.0, -1974.0 /   3959.0,
    -851781.0 / 878810.0, 1648619.0 / 878810.0, 36519.0 / 878810.0,
        705.0 /  12673.0,   -2585.0 /  12673.0,   705.0 /    667.0
  ]

  /** The two rational matrices are exact inverses of each other. */
  lemma MatricesInverse()
    ensures MatMul(XyzToSrgb, SrgbToXyz) == Identity
    ensures MatMul(SrgbToXyz, XyzToSrgb) == Identity
  {
    InverseLeft();
    InverseRight();
  }

  lemma InverseLeft()
    ensures MatMul(XyzToSrgb, SrgbToXyz) == Identity
  {
    MatMulOfEntries(XyzToSrgb, SrgbToXyz, Identity);
  }

  lemma InverseRight()
    ensures MatMul(SrgbToXyz, XyzToSrgb) == Identity
  {
    MatMulOfEntries(SrgbToXyz, XyzToSrgb, Identity);
  }

  /** Linear sRGB to XYZ and back returns the same colour, exactly. */
  lemma XyzRoundTrip(rgb: Vector, xyz: Vector)
    ensures MulVec(XyzToSrgb, MulVec(SrgbToXyz, rgb)) == rgb
    ensures MulVec(SrgbToXyz, MulVec(XyzToSrgb, xyz)) == xyz
  {
    MatricesInverse();
    InverseRoundTrip(XyzToSrgb, SrgbToXyz, rgb);
    InverseRoundTrip(SrgbToXyz, XyzToSrgb, xyz);
  }
}

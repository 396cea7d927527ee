/**
 * conversion/rec2020.js: the ITU-R BT.2020 transfer curve, extended to
 * negative values by sign, and the exact rational matrices to and from D65 XYZ.
 * The file imports `Matrix` from conversion/linalg.js, which does not export
 * it, so the module fails to link as written; it is modelled as if it loaded,
 * with `Matrix` read as the row-major matrix type of LinAlg.
 */
module Rec2020 {
  import opened Js
  import opened Shared
  import opened LinAlg

  const Alpha: real := 1.09929682680944

  const Beta: real := 0.018053968510807

  /** Decoding: `c / 4.5` strictly below `4.5 * beta`, a power curve from there on. */
  function GammaToLinear(pow: Pow, c: real): (r: real)
    ensures Abs(c) < Beta * 4.5 ==> r == c / 4.5
  {
    var abs := Abs(c);
    if abs < Beta * 4.5 then c / 4.5
    else Sign(c) * pow((abs + Alpha - 1.0) / Alpha, 1.0 / 0.45)
  }

  /** Encoding: `4.5 * c` up to `beta` inclusive, a power curve beyond. */
  function LinearToGamma(pow: Pow, c: real): (r: real)
    ensures Abs(c) <= Beta ==> r == 4.5 * c
  {
    var abs := Abs(c);
    if abs > Beta then Sign(c) * (Alpha * pow(abs, 0.45) - (Alpha - 1.0)) else 4.5 * c
  }

  /** Both curves are odd, f(-c) = -f(c), and fix zero, whatever `pow` is. */
  lemma CurvesOdd(pow: Pow, c: real)
    ensures GammaToLinear(pow, -c) == -GammaToLinear(pow, c)
    ensures LinearToGamma(pow, -c) == -LinearToGamma(pow, c)
    ensures GammaToLinear(pow, 0.0) == 0.0 && LinearToGamma(pow, 0.0) == 0.0
  {
  }

  /**
   * Encoding then decoding is exact strictly below `beta`. At `beta` itself
   * the encoder stays on its line but lands on `4.5 * beta`, where the strict
   * comparison of the decoder switches to the power curve.
   */
  lemma LinearSegmentRoundTrip(pow: Pow, c: real)
    ensures Abs(c) < Beta ==> GammaToLinear(pow, LinearToGamma(pow, c)) == c
    ensures Abs(c) == Beta ==>
      GammaToLinear(pow, LinearToGamma(pow, c))
        == Sign(c) * pow((4.5 * Beta + Alpha - 1.0) / Alpha, 1.0 / 0.45)
  {
  }

  /** Decoding then encoding is exact on the whole of the decoder's linear segment. */
  lemma DecodeSegmentRoundTrip(pow: Pow, c: real)
    requires Abs(c) < Beta * 4.5
    ensures LinearToGamma(pow, GammaToLinear(pow, c)) == c
  {
  }

  /** Linear Rec.2020 to D65 XYZ (conversion/rec2020.js:33-37). */
  const Rec2020ToXyz: Matrix := [
    63426534.0 / 99577255.0,  20160776.0 / 139408157.0,  47086771.0 / 278816314.0,
    26158966.0 / 99577255.0, 472592308.0 / 697040785.0,   8267143.0 / 139408157.0,
           0.0 /        1.0,  19567812.0 / 697040785.0, 295819943.0 / 278816314.0
  ]

  /** D65 XYZ to linear Rec.2020 (conversion/rec2020.js:41-45). */
  const XyzToRec2020: Matrix := [
     30757411.0 / 17917100.0, -6372589.0 / 17917100.0, -4539589.0 / 17917100.0,
    -19765991.0 / 29648200.0, 47925759.0 / 29648200.0,   467509.0 / 29648200.0,
       792561.0 / 44930125.0, -1921689.0 / 44930125.0, 42328811.0 / 44930125.0
  ]

  /** The two rational matrices are exact inverses of each other. */
  lemma MatricesInverse()
    ensures MatMul(XyzToRec2020, Rec2020ToXyz) == Identity
    ensures MatMul(Rec2020ToXyz, XyzToRec2020) == Identity
  {
    InverseLeft();
    InverseRight();
  }

  lemma InverseLeft()
    ensures MatMul(XyzToRec2020, Rec2020ToXyz) == Identity
  {
    MatMulOfEntries(XyzToRec2020, Rec2020ToXyz, Identity);
  }

  lemma InverseRight()
    ensures MatMul(Rec2020ToXyz, XyzToRec2020) == Identity
  {
    MatMulOfEntries(Rec2020ToXyz, XyzToRec2020, Identity);
  }

  /** Linear Rec.2020 to XYZ and back returns the same colour, exactly. */
  lemma XyzRoundTrip(rgb: Vector, xyz: Vector)
    ensures MulVec(XyzToRec2020, MulVec(Rec2020ToXyz, rgb)) == rgb
    ensures MulVec(Rec2020ToXyz, MulVec(XyzToRec2020, xyz)) == xyz
  {
    MatricesInverse();
    InverseRoundTrip(XyzToRec2020, Rec2020ToXyz, rgb);
    InverseRoundTrip(Rec2020ToXyz, XyzToRec2020, xyz);
  }

  /** The zero in row 3, column 1: linear red never contributes to Z. */
  lemma RedDoesNotReachZ(u: Vector, v: Vector)
    requires u[1] == v[1] && u[2] == v[2]
    ensures MulVec(Rec2020ToXyz, u)[2] == MulVec(Rec2020ToXyz, v)[2]
  {
    assert MulVec(Rec2020ToXyz, u)[2] == RowEntry(Rec2020ToXyz, u, 2);
    assert MulVec(Rec2020ToXyz, v)[2] == RowEntry(Rec2020ToXyz, v, 2);
  }
}

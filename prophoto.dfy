/**
 * conversion/prophoto.js: the ProPhoto RGB transfer curve (exponent 1.8 with
 * a short linear segment, extended to negative values by sign) and the
 * decimal matrices to and from D50 XYZ. `Matrix` comes from a module
 * `./matrix` that is not part of this model and is read as the row-major
 * matrix type of LinAlg.
 */
module ProPhoto {
  import opened Js
  import opened Shared
  import opened LinAlg

  /** The decoder's linear segment ends at 16/512. */
  const Et2: real := 16.0 / 512.0

  /** The encoder's linear segment ends just below 1/512. */
  const Et: real := 1.0 / 512.0

  /** Decoding: `c / 16` up to 16/512 inclusive, `sign(c) * |c|^1.8` beyond. */
  function GammaToLinear(pow: Pow, c: real): (r: real)
    ensures Abs(c) <= Et2 ==> r == c / 16.0
  {
    var abs := Abs(c);
    if abs <= Et2 then c / 16.0 else Sign(c) * pow(abs, 1.8)
  }

  /** Encoding: `16 * c` below 1/512, `sign(c) * |c|^(1/1.8)` from 1/512 on. */
  function LinearToGamma(pow: Pow, c: real): (r: real)
    ensures Abs(c) < Et ==> r == 16.0 * c
  {
    var abs := Abs(c);
    if abs >= Et then Sign(c) * pow(abs, 1.0 / 1.8) else 16.0 * c
  }

  /** Both curves are odd, f(-c) = -f(c), and fix zero, whatever `pow` is. */
  lemma CurvesOdd(pow: Pow, c: real)
    ensures GammaToLinear(pow, -c) == -GammaToLinear(pow, c)
    ensures LinearToGamma(pow, -c) == -LinearToGamma(pow, c)
    ensures GammaToLinear(pow, 0.0) == 0.0 && LinearToGamma(pow, 0.0) == 0.0
  {
  }

  /** Encoding then decoding is exact on the encoder's linear segment. */
  lemma LinearSegmentRoundTrip(pow: Pow, c: real)
    requires Abs(c) < Et
    ensures GammaToLinear(pow, LinearToGamma(pow, c)) == c
  {
  }

  /**
   * Decoding then encoding is exact strictly inside the decoder's linear
   * segment; at its end, 16/512 decodes to 1/512, which the encoder sends
   * through the power curve.
   */
  lemma DecodeSegmentRoundTrip(pow: Pow, c: real)
    ensures Abs(c) < Et2 ==> LinearToGamma(pow, GammaToLinear(pow, c)) == c
    ensures Abs(c) == Et2 ==>
      LinearToGamma(pow, GammaToLinear(pow, c)) == Sign(c) * pow(Et, 1.0 / 1.8)
  {
  }

  /** Linear ProPhoto RGB to D50 XYZ (conversion/prophoto.js:29-33). */
  const ProPhotoToXyz: Matrix := [
    0.79776664490064230, 0.13518129740053308, 0.03134773412839220,
    0.28807482881940130, 0.71183523424187300, 0.00008993693872564,
    0.00000000000000000, 0.00000000000000000, 0.82510460251046020
  ]

  /** D50 XYZ to linear ProPhoto RGB (conversion/prophoto.js:37-41). */
  const XyzToProPhoto: Matrix := [
     1.34578688164715830, -0.25557208737979464, -0.05110186497554526,
    -0.54463070512490190,  1.50824774284514680,  0.02052744743642139,
     0.00000000000000000,  0.00000000000000000,  1.21196754563894520
  ]

  /**
   * The decimal matrices are inverses up to their last digits: every entry of
   * either product is within 10^-15 of the identity.
   */
  lemma MatricesNearInverse()
    ensures NearIdentity(MatMul(XyzToProPhoto, ProPhotoToXyz), 0.000000000000001)
    ensures NearIdentity(MatMul(ProPhotoToXyz, XyzToProPhoto), 0.000000000000001)
  {
    NearXyzToProPhotoTimesProPhotoToXyz();
    NearProPhotoToXyzTimesXyzToProPhoto();
  }

  lemma NearXyzToProPhotoTimesProPhotoToXyz()
    ensures NearIdentity(MatMul(XyzToProPhoto, ProPhotoToXyz), 0.000000000000001)
  {
    NearIdentityOfEntries(XyzToProPhoto, ProPhotoToXyz, 0.000000000000001);
  }

  lemma NearProPhotoToXyzTimesXyzToProPhoto()
    ensures NearIdentity(MatMul(ProPhotoToXyz, XyzToProPhoto), 0.000000000000001)
  {
    NearIdentityOfEntries(ProPhotoToXyz, XyzToProPhoto, 0.000000000000001);
  }

  /**
   * The zeros in row 3: Z depends only on linear blue, and blue only on Z,
   * each through a single factor.
   */
  lemma BlueOnlyThroughZ(v: Vector)
    ensures MulVec(ProPhotoToXyz, v)[2] == 0.82510460251046020 * v[2]
    ensures MulVec(XyzToProPhoto, v)[2] == 1.21196754563894520 * v[2]
  {
    assert MulVec(ProPhotoToXyz, v)[2] == RowEntry(ProPhotoToXyz, v, 2);
    assert MulVec(XyzToProPhoto, v)[2] == RowEntry(XyzToProPhoto, v, 2);
  }
}

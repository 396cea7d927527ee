/**
 * conversion/matrices.js: a single-file collection of the per-space curves,
 * the RGB/XYZ matrices, the Lab conversions and the Oklab constants. The file
 * uses four names it never defines or imports: `srgbGammaExpand` and
 * `srgbGammaCompress` (line 5-6), `sign` (line 113) and `D50` (line 146).
 * The model binds them to the sRGB curves of conversion/srgb.js applied to each
 * component, to `sign` of conversion/shared.js, and to a white point parameter
 * `d50` with positive components. Every definition is shown equal to its
 * counterpart in the per-space files, so the properties proved there carry
 * over.
 */
module Matrices {
  import opened Js
  import opened LinAlg
  import Shared
  import Srgb
  import P3
  import ProPhoto
  import A98
  import Rec2020
  import CieLab = Lab
  import SrcOklab

  /** `rgb.map(f)`: the function applied to each component on its own. */
  function MapVector(f: real -> real, v: Vector): (r: Vector)
    ensures forall i :: 0 <= i < 3 ==> r[i] == f(v[i])
  {
    [f(v[0]), f(v[1]), f(v[2])]
  }

  // ---------------------------------------------------------------- P3

  /** `p3GammaExpand`: the sRGB decoding curve on each component. */
  function P3GammaExpand(pow: Pow, rgb: Vector): (r: Vector)
    ensures forall i :: 0 <= i < 3 ==> r[i] == P3.GammaToLinear(pow, rgb[i])
  {
    MapVector(c => Srgb.GammaToLinear(pow, c), rgb)
  }

  /** `p3GammaCompress`: the sRGB encoding curve on each component. */
  function P3GammaCompress(pow: Pow, rgb: Vector): (r: Vector)
    ensures forall i :: 0 <= i < 3 ==> r[i] == P3.LinearToGamma(pow, rgb[i])
  {
    MapVector(c => Srgb.LinearToGamma(pow, c), rgb)
  }

  const P3ToXyz: Matrix := [
    608311.0 / 1250200.0, 189793.0 / 714400.0, 198249.0 / 1000160.0,
    35783.0 / 156275.0, 247089.0 / 357200.0, 198249.0 / 2500400.0,
    0.0 / 1.0, 32229.0 / 714400.0, 5220557.0 / 5000800.0
  ]

  const XyzToP3: Matrix := [
    446124.0 / 178915.0, -333277.0 / 357830.0, -72051.0 / 178915.0,
    -14852.0 / 17905.0, 63121.0 / 35810.0, 423.0 / 17905.0,
    11844.0 / 330415.0, -50337.0 / 660830.0, 316169.0 / 330415.0
  ]

  /** The P3 matrices here are those of conversion/p3.js. */
  lemma P3MatricesAgree()
    ensures P3ToXyz == P3.P3ToXyz && XyzToP3 == P3.XyzToP3
  {
  }

  // ---------------------------------------------------------- ProPhoto

  const Et2: real := 16.0 / 512.0
  const Et: real := 1.0 / 512.0

  /** `prophotoTransfer`: `c / 16` up to 16/512 inclusive, a signed power of 1.8 beyond. */
  function ProPhotoTransfer(pow: Pow, c: real): (r: real)
    ensures Abs(c) <= Et2 ==> r == c / 16.0
    ensures r == ProPhoto.GammaToLinear(pow, c)
  {
    var abs := Abs(c);
    if abs <= Et2 then c / 16.0 else (if c < 0.0 then -1.0 else 1.0) * pow(abs, 1.8)
  }

  /** `prophotoTransferInverse`: `16 * c` below 1/512, a signed power of 1/1.8 from there on. */
  function ProPhotoTransferInverse(pow: Pow, c: real): (r: real)
    ensures Abs(c) < Et ==> r == 16.0 * c
    ensures r == ProPhoto.LinearToGamma(pow, c)
  {
    var abs := Abs(c);
    if abs >= Et then (if c < 0.0 then -1.0 else 1.0) * pow(abs, 1.0 / 1.8) else 16.0 * c
  }

  /** `prophotoGammaExpand`: the transfer curve on each component. */
  function ProPhotoGammaExpand(pow: Pow, rgb: Vector): (r: Vector)
    ensures forall i :: 0 <= i < 3 ==> r[i] == ProPhotoTransfer(pow, rgb[i])
  {
    MapVector(c => ProPhotoTransfer(pow, c), rgb)
  }

  /** `prophotoGammaCompress`: the inverse transfer curve on each component. */
  function ProPhotoGammaCompress(pow: Pow, rgb: Vector): (r: Vector)
    ensures forall i :: 0 <= i < 3 ==> r[i] == ProPhotoTransferInverse(pow, rgb[i])
  {
    MapVector(c => ProPhotoTransferInverse(pow, c), rgb)
  }

  /** A linear colour whose components all lie in the linear segment survives compress then expand exactly. */
  lemma ProPhotoLinearRoundTrip(pow: Pow, rgb: Vector)
    requires Abs(rgb[0]) < Et && Abs(rgb[1]) < Et && Abs(rgb[2]) < Et
    ensures ProPhotoGammaExpand(pow, ProPhotoGammaCompress(pow, rgb)) == rgb
  {
    var r := ProPhotoGammaExpand(pow, ProPhotoGammaCompress(pow, rgb));
    ProPhoto.LinearSegmentRoundTrip(pow, rgb[0]);
    ProPhoto.LinearSegmentRoundTrip(pow, rgb[1]);
    ProPhoto.LinearSegmentRoundTrip(pow, rgb[2]);
    VectorEq(r, rgb);
  }

  const ProPhotoToXyz: Matrix := [
    0.79776664490064230, 0.13518129740053308, 0.03134773412839220,
    0.28807482881940130, 0.71183523424187300, 0.00008993693872564,
    0.00000000000000000, 0.00000000000000000, 0.82510460251046020
  ]

  const XyzToProPhoto: Matrix := [
    1.34578688164715830, -0.25557208737979464, -0.05110186497554526,
    -0.54463070512490190, 1.50824774284514680, 0.02052744743642139,
    0.00000000000000000, 0.00000000000000000, 1.21196754563894520
  ]

  /** The ProPhoto matrices here are those of conversion/prophoto.js. */
  lemma ProPhotoMatricesAgree()
    ensures ProPhotoToXyz == ProPhoto.ProPhotoToXyz && XyzToProPhoto == ProPhoto.XyzToProPhoto
  {
  }

  // --------------------------------------------------------------- A98

  /** `a98GammaToLinear`: `sign(c) * |c|^(563/256)`. */
  function A98GammaToLinear(pow: Pow, c: real): (r: real)
    ensures r == A98.GammaToLinear(pow, c)
  {
    (if c < 0.0 then -1.0 else 1.0) * pow(Abs(c), 563.0 / 256.0)
  }

  /** `a98LinearToGamma`: `sign(c) * |c|^(256/563)`. */
  function A98LinearToGamma(pow: Pow, c: real): (r: real)
    ensures r == A98.LinearToGamma(pow, c)
  {
    (if c < 0.0 then -1.0 else 1.0) * pow(Abs(c), 256.0 / 563.0)
  }

  /** The A98 pair is odd, and each undoes the other because powers of a positive base compose. */
  lemma A98CurvesOddAndInverse(pow: Pow, c: real)
    requires PowNonNegative(pow) && PowZero(pow) && PowCompose(pow) && PowOne(pow)
    ensures A98GammaToLinear(pow, -c) == -A98GammaToLinear(pow, c)
    ensures A98LinearToGamma(pow, -c) == -A98LinearToGamma(pow, c)
    ensures A98LinearToGamma(pow, A98GammaToLinear(pow, c)) == c
    ensures A98GammaToLinear(pow, A98LinearToGamma(pow, c)) == c
  {
    A98.CurvesOdd(pow, c);
    A98.CurvesRoundTrip(pow, c);
  }

  const A98ToXyz: Matrix := [
    573536.0 / 994567.0, 263643.0 / 1420810.0, 187206.0 / 994567.0,
    591459.0 / 1989134.0, 6239551.0 / 9945670.0, 374412.0 / 4972835.0,
    53769.0 / 1989134.0, 351524.0 / 4972835.0, 4929758.0 / 4972835.0
  ]

  const XyzToA98: Matrix := [
    1829569.0 / 896150.0, -506331.0 / 896150.0, -308931.0 / 896150.0,
    -851781.0 / 878810.0, 1648619.0 / 878810.0, 36519.0 / 878810.0,
    16779.0 / 1248040.0, -147721.0 / 1248040.0, 1266979.0 / 1248040.0
  ]

  /** The A98 matrices here are those of conversion/a98.js. */
  lemma A98MatricesAgree()
    ensures A98ToXyz == A98.A98ToXyz && XyzToA98 == A98.XyzToA98
  {
  }

  // ----------------------------------------------------------- Rec2020

  const Alpha: real := 1.09929682680944
  const Beta: real := 0.018053968510807

  /** `rec2020GammaToLinear`, with the unbound `sign` read as `sign` of conversion/shared.js. */
  function Rec2020GammaToLinear(pow: Pow, c: real): (r: real)
    ensures Abs(c) < Beta * 4.5 ==> r == c / 4.5
    ensures r == Rec2020.GammaToLinear(pow, c)
  {
    var abs := Abs(c);
    if abs < Beta * 4.5 then c / 4.5
    else Shared.Sign(c) * pow((abs + Alpha - 1.0) / Alpha, 1.0 / 0.45)
  }

  /** `rec2020LinearToGamma`, with `sign` bound the same way. */
  function Rec2020LinearToGamma(pow: Pow, c: real): (r: real)
    ensures Abs(c) <= Beta ==> r == 4.5 * c
    ensures r == Rec2020.LinearToGamma(pow, c)
  {
    var abs := Abs(c);
    if abs > Beta then Shared.Sign(c) * (Alpha * pow(abs, 0.45) - (Alpha - 1.0)) else 4.5 * c
  }

  const Rec2020ToXyz: Matrix := [
    63426534.0 / 99577255.0, 20160776.0 / 139408157.0, 47086771.0 / 278816314.0,
    26158966.0 / 99577255.0, 472592308.0 / 697040785.0, 8267143.0 / 139408157.0,
    0.0 / 1.0, 19567812.0 / 697040785.0, 295819943.0 / 278816314.0
  ]

  const XyzToRec2020: Matrix := [
    30757411.0 / 17917100.0, -6372589.0 / 17917100.0, -4539589.0 / 17917100.0,
    -19765991.0 / 29648200.0, 47925759.0 / 29648200.0, 467509.0 / 29648200.0,
    792561.0 / 44930125.0, -1921689.0 / 44930125.0, 42328811.0 / 44930125.0
  ]

  /** The Rec2020 matrices here are those of conversion/rec2020.js. */
  lemma Rec2020MatricesAgree()
    ensures Rec2020ToXyz == Rec2020.Rec2020ToXyz && XyzToRec2020 == Rec2020.XyzToRec2020
  {
  }

  // --------------------------------------------------------------- Lab

  /** `xyzToLab`: scale by the white point, apply `f`, combine; the same map as conversion/lab.js. */
  function XyzToLab(cbrt: Cbrt, d50: Vector, xyz: Vector): (r: Vector)
    requires CieLab.PositiveWhite(d50)
    ensures r == CieLab.XyzToLab(cbrt, d50, xyz)
  {
    var scaled := [xyz[0] / d50[0], xyz[1] / d50[1], xyz[2] / d50[2]];
    var f := MapVector(c => if c > CieLab.Epsilon then cbrt(c) else (CieLab.Kappa * c + 16.0) / 116.0, scaled);
    var r := [116.0 * f[1] - 16.0, 500.0 * (f[0] - f[1]), 200.0 * (f[1] - f[2])];
    VectorEq(r, CieLab.XyzToLab(cbrt, d50, xyz));
    r
  }

  /**
   * `labToXyz`: fills a local array `f`, Y's slot first, then inverts each
   * slot and scales by the white point. It computes the Lab-to-XYZ map of
   * conversion/lab.js.
   */
  method LabToXyz(d50: Vector, lab: Vector) returns (xyz: Vector)
    ensures xyz == CieLab.LabToXyz(d50, lab)
  {
    var f := new real[3](_ => 0.0);
    f[1] := (lab[0] + 16.0) / 116.0;
    f[0] := lab[1] / 500.0 + f[1];
    f[2] := f[1] - lab[2] / 200.0;
    var f0, f2 := f[0], f[2];
    var x := if Cube(f0) > CieLab.Epsilon then Cube(f0) else (116.0 * f0 - 16.0) / CieLab.Kappa;
    var y := if lab[0] > CieLab.Kappa * CieLab.Epsilon then Cube((lab[0] + 16.0) / 116.0) else lab[0] / CieLab.Kappa;
    var z := if Cube(f2) > CieLab.Epsilon then Cube(f2) else (116.0 * f2 - 16.0) / CieLab.Kappa;
    xyz := [x * d50[0], y * d50[1], z * d50[2]];
    CieLab.LabToXyzOf(d50, lab, f0, f2);
    assert x == CieLab.FInverse(f0) && y == CieLab.YFromL(lab[0]) && z == CieLab.FInverse(f2);
    VectorEq(xyz, CieLab.LabToXyz(d50, lab));
  }

  /** `xyzToLab` and `labToXyz` undo each other exactly, given a true cube root. */
  lemma LabRoundTrips(cbrt: Cbrt, d50: Vector, xyz: Vector, lab: Vector)
    requires IsCubeRoot(cbrt) && CieLab.PositiveWhite(d50)
    ensures CieLab.LabToXyz(d50, XyzToLab(cbrt, d50, xyz)) == xyz
    ensures XyzToLab(cbrt, d50, CieLab.LabToXyz(d50, lab)) == lab
  {
    CieLab.XyzRoundTrip(cbrt, d50, xyz);
    CieLab.LabRoundTrip(cbrt, d50, lab);
  }

  // ------------------------------------------------------------- Oklab

  const XyzToLms: Matrix := [
    0.8190224379967030, 0.3619062600528904, -0.1288737815209879,
    0.0329836539323885, 0.9292868615863434, 0.0361446663506424,
    0.0481771893596242, 0.2642395317527308, 0.6335478284694309
  ]

  const LmsToOklab: Matrix := [
    0.2104542683093140, 0.7936177747023054, -0.0040720430116193,
    1.9779985324311684, -2.4285922420485799, 0.4505937096174110,
    0.0259040424655478, 0.7827717124575296, -0.8086757549230774
  ]

  const LmsToXyz: Matrix := [
    1.2268798758459243, -0.5578149944602171, 0.2813910456659647,
    -0.0405757452148008, 1.1122868032803170, -0.0717110580655164,
    -0.0763729366746601, -0.4214933324022432, 1.5869240198367816
  ]

  const OklabToLms: Matrix := [
    1.0000000000000000, 0.3963377773761749, 0.2158037573099136,
    1.0000000000000000, -0.1055613458156586, -0.0638541728258133,
    1.0000000000000000, -0.0894841775298119, -1.2914855480194092
  ]

  /** The four LMS/Oklab matrices here are those of src/conversion/oklab.mjs. */
  lemma OklabMatricesAgree()
    ensures XyzToLms == SrcOklab.XyzToLms && LmsToOklab == SrcOklab.LmsToOklab
    ensures LmsToXyz == SrcOklab.LmsToXyz && OklabToLms == SrcOklab.OklabToLms
  {
  }
}

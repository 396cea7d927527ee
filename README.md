# Colour conversions and the Bézier control mesh of greatients

greatients draws gradient meshes in the browser. Before anything reaches the
GPU, two pieces of plain JavaScript do the work modelled here:

- **Colour conversion.** A colour can be written as a hexcode, as CSS `hsl()`
  or `hwb()` values, or as one of the RGB spaces sRGB, Display P3, Adobe RGB
  (1998), ProPhoto RGB and Rec. 2020. It can also be given in CIE XYZ, CIE Lab
  or Oklab. Each RGB space has a pair of transfer curves, gamma to linear and
  back, and a pair of 3×3 matrices to and from XYZ. Lab and Oklab are reached
  from XYZ.
- **The control mesh.** A Bézier mesh is a `Float32Array` holding ten numbers
  per control point, stored row by row. It can be created zero-filled and
  resized to a new width and height.

The model follows the code:

- Numbers are exact reals.
- Vectors and matrices are sequences of three and nine reals. The matrix
  products are loops over arrays proved equal to the mathematical product.
- `Math.pow` and `Math.cbrt` are parameters. A lemma that needs them to
  behave assumes so in its `requires`, for example "a true cube root" or
  "powers of a positive base compose".
- The hexcode parser models ECMAScript `parseInt(s, 16)` in full.
- The mesh buffer is an `array<real>`. The resize loop is proved to compute a
  specification function `Resize`, and the properties of the resize are
  proved about that function.

Module map:

| module | models |
|---|---|
| `Js` | ECMAScript semantics the code relies on: `%`, `Math.round`, `parseInt`, `String.fromCharCode`, `Math.pow`/`Math.cbrt` as parameters |
| `Shared` | conversion/shared.js |
| `LinAlg` | conversion/linalg.js |
| `SrcLinAlg` | src/conversion/linalg.mjs |
| `Srgb`, `P3`, `A98`, `ProPhoto`, `Rec2020` | conversion/srgb.js, p3.js, a98.js, prophoto.js, rec2020.js |
| `Lab` | conversion/lab.js |
| `Matrices` | conversion/matrices.js |
| `Records` | the `Rgb` and `Xyz` records |
| `Hsl`, `Hwb` | conversion/hsl.js, conversion/hwb.js |
| `SrcLab`, `SrcOklab`, `SrcRgb` | src/conversion/lab.mjs, oklab.mjs, rgb.js |
| `Bezier` | src/bezier/index.js |

Where the documentation and the code disagree, the model follows the code:

- `fromHex` is documented as parsing a hexcode. In fact it accepts whatever
  `parseInt(s, 16)` accepts for each channel: leading white space, a sign, a
  `0x` prefix, and trailing non-digits. A channel fails when no hex digit
  follows the white space, the sign and the `0x`/`0X` prefix, so a bare pair
  `0x` fails although it starts with the digit 0.
- The channels of `Rgb` are documented as 0..1. The parser produces values
  outside that range for signed input, and the constructors store any value.

## Model

| member | source | states |
|---|---|---|
| Js.Trunc | src/conversion/rgb.js:84 | truncation toward zero: the integer lies within one of `x`, on the side of zero (the ToUint16 step of `String.fromCharCode` for 0..255 values) |
| Js.Rem | conversion/hsl.js:63 | JavaScript's truncating `%`: for a non-negative dividend the remainder is in `[0, |m|)`, for a negative one in `(-|m|, 0]` |
| Js.RemOfInRange | conversion/hsl.js:63 | a dividend already in `[0, m)` is its own remainder, and so is that dividend plus `m` |
| Js.Round | conversion/hwb.js:65 | `Math.round` gives the integer within half a unit, rounding halves up |
| Js.HexDigit | src/conversion/rgb.js:30 | a radix-16 digit's value is in 0..15, and it is -1 exactly for the characters that are not `0-9`, `a-f` or `A-F` |
| Js.HexPrefix | src/conversion/rgb.js:30 | the digits `parseInt` reads are all hex digits |
| Js.Unsigned | src/conversion/rgb.js:30 | `parseInt` drops at most one leading sign character |
| Js.WithoutRadixPrefix | src/conversion/rgb.js:30 | `parseInt` with radix 16 drops at most a two-character `0x`/`0X` prefix |
| Js.ParseHex | src/conversion/rgb.js:30 | `parseInt(s, 16)`: white space, one sign and a `0x`/`0X` prefix skipped, then the longest run of hex digits, NaN (`None`) when that run is empty. It has no contract of its own; its properties are the lemmas on `ParseHex` in SrcRgb (ParseHexOfDigits, PairParses, NotADigit, DigitThenOther, SignedDigit, BarePrefixIsNaN) |
| Js.FromCharCode | src/conversion/rgb.js:84 | the character's code is the truncated argument |
| Js.CubeOrder | src/conversion/lab.mjs:56 | cubing (`** 3`) is one-to-one and order-preserving, which is why `f^3 > epsilon` decides the branch like `f > 6/29` |
| Js.CbrtOfCube | conversion/lab.js:13-15 | a true cube root takes a cube back to its base |
| Js.InverseOfReciprocal | conversion/a98.js:9-20 | if powers of a positive base compose, `x^1 = x` and `0^k = 0`, then raising to `p` and then to `1/p` gives back any non-negative base |
| Shared.Fmod | conversion/shared.js:7-9 | for a positive modulus the result is in `[0, m)`, for a negative one in `(m, 0]` |
| Shared.FmodIsFloorMod | conversion/shared.js:7-9 | for a positive modulus `fmod` equals the floored modulus `n - m * floor(n / m)` |
| Shared.FmodDiffersByMultiple | conversion/shared.js:7-9 | `fmod(n, m)` differs from `n` by a whole multiple of `m` |
| Shared.FmodOfInRange | conversion/shared.js:7-9 | a value already in `[0, m)` is returned unchanged |
| Shared.FmodIdempotent | conversion/shared.js:7-9 | reducing twice is reducing once |
| Shared.Clamp | conversion/shared.js:18-20 | the result never exceeds `max`. It is at least `min` when `min <= max`. It is `n` inside the range, `min` below it and `max` above it |
| Shared.ClampIdempotent | conversion/shared.js:18-20 | clamping twice is clamping once |
| Shared.Clamp01 | conversion/shared.js:27-29 | the result is in `[0, 1]`, equal to `n` inside, 0 below and 1 above |
| Shared.Sign | conversion/shared.js:36-38 | -1 exactly for negatives and 1 exactly for the rest, including zero; `sign(n) * |n| = n` |
| LinAlg.MulMat | conversion/linalg.js:21-32 | the loop over the two row-major arrays returns a fresh nine-element array holding the matrix product |
| LinAlg.MulVecMethod | conversion/linalg.js:40-48 | the loop returns a fresh three-element array holding the matrix times the column vector |
| LinAlg.DotComplete | conversion/linalg.js:21-32 | the loop's running sum over three terms is row `y` times column `x` |
| LinAlg.RowDotComplete | conversion/linalg.js:40-48 | the running sum over three terms is row `y` times the vector |
| LinAlg.MatMul | conversion/linalg.js:21-32 | the row-major product, entry `3y + x` being row `y` of `a` times column `x` of `b`. It has no contract of its own: LinAlg.MulMat is proved to compute it, and MatMulIdentity and MulVecOfProduct state its properties |
| LinAlg.MulVec | conversion/linalg.js:40-48 | the matrix times the column vector, component `y` being row `y` times `v`. It has no contract of its own: LinAlg.MulVecMethod is proved to compute it, and MulVecIdentity, MulVecAdditive, MulVecHomogeneous and InverseRoundTrip state its properties |
| LinAlg.MatMulIdentity | conversion/linalg.js:21-32 | the identity is neutral on both sides of `mulmat` |
| LinAlg.MulVecIdentity | conversion/linalg.js:40-48 | `mulvec` by the identity returns the vector |
| LinAlg.MulVecOfProduct | conversion/linalg.js:21-48 | `mulvec(mulmat(a, b), v) = mulvec(a, mulvec(b, v))`, so a composed matrix is the two conversions in sequence |
| LinAlg.MulVecAdditive | conversion/linalg.js:40-48 | `mulvec(m, .)` preserves sums |
| LinAlg.MulVecHomogeneous | conversion/linalg.js:40-48 | `mulvec(m, .)` preserves scalar multiples |
| LinAlg.InverseRoundTrip | conversion/linalg.js:21-48 | when `a * b` is the identity, `mulvec(a, mulvec(b, v)) = v` |
| SrcLinAlg.MatrixIsRowMajor | src/conversion/linalg.mjs:40-50 | `Matrix(m00, ..., m22)` stores its arguments row after row: multiplying by `Vector(x, y, z)` gives `m00 x + m01 y + m02 z` etc. |
| SrcLinAlg.MulMat | src/conversion/linalg.mjs:58-69 | the loop returns a fresh array holding the matrix product |
| SrcLinAlg.MulVecMethod | src/conversion/linalg.mjs:77-85 | the loop returns a fresh array holding the matrix-vector product |
| SrcLinAlg.MakeVector | src/conversion/linalg.mjs:22-24 | `Vector(x, y, z)`: the three coordinates in argument order. Its meaning as a column vector is stated by MatrixIsRowMajor |
| SrcLinAlg.MakeMatrix | src/conversion/linalg.mjs:40-50 | `Matrix(m00, ..., m22)`: the nine entries in argument order, row after row. MatrixIsRowMajor proves that `mulvec` then reads `mRC` as the entry in row R and column C |
| Srgb.GammaToLinear | conversion/srgb.js:9-14 | decoding is `c / 12.92` on the linear segment `|c| <= 0.04045` |
| Srgb.LinearToGamma | conversion/srgb.js:21-26 | encoding is `12.92 c` on the linear segment `|c| <= 0.0031308` |
| Srgb.CurvesOdd | conversion/srgb.js:9-26 | both curves are odd and fix zero, whatever `Math.pow` returns |
| Srgb.LinearSegmentRoundTrip | conversion/srgb.js:9-26 | encoding then decoding returns any value on the encoder's linear segment |
| Srgb.BreakpointMismatch | conversion/srgb.js:9-26 | just below the decoder's breakpoint 0.04045 the linear result is already past the encoder's breakpoint 0.0031308, so the two breakpoints do not match |
| Srgb.MatricesInverse | conversion/srgb.js:30-42 | the two rational matrices multiply to the identity in both orders |
| Srgb.XyzRoundTrip | conversion/srgb.js:30-42 | linear sRGB to XYZ and back, and XYZ to sRGB and back, return the input exactly |
| Srgb.SrgbToXyz | conversion/srgb.js:30-34 | `SRGB_TO_XYZ`: the nine exact fractions of the source, row-major. MatricesInverse proves that it and XyzToSrgb multiply to the identity in both orders |
| Srgb.XyzToSrgb | conversion/srgb.js:38-42 | `XYZ_TO_SRGB`: the nine exact fractions of the source. It is the exact inverse of SrgbToXyz (MatricesInverse, XyzRoundTrip) |
| P3.GammaToLinear | conversion/p3.js:8 | the P3 decoder is the sRGB decoder |
| P3.LinearToGamma | conversion/p3.js:11 | the P3 encoder is the sRGB encoder |
| P3.MatricesInverse | conversion/p3.js:15-27 | the P3 matrices are exact inverses in both orders |
| P3.XyzRoundTrip | conversion/p3.js:15-27 | P3 to XYZ and back, both ways, is exact |
| P3.RedDoesNotReachZ | conversion/p3.js:17 | the zero entry in row 3, column 1: colours differing only in red have the same Z |
| P3.P3ToXyz | conversion/p3.js:15-19 | `P3_TO_XYZ`: the nine exact fractions of the source, with 0 in row 3, column 1 (RedDoesNotReachZ); its product with XyzToP3 is the identity in both orders (MatricesInverse) |
| P3.XyzToP3 | conversion/p3.js:23-27 | `XYZ_TO_P3`: the nine exact fractions of the source, the exact inverse of P3ToXyz (MatricesInverse, XyzRoundTrip) |
| A98.ExponentsReciprocal | conversion/a98.js:9-20 | the exponents 563/256 and 256/563 multiply to 1 |
| A98.CurvesOdd | conversion/a98.js:9-20 | both signed-power curves are odd and fix zero |
| A98.CurvesKeepSign | conversion/a98.js:9-20 | both curves keep the sign of their input |
| A98.GammaToLinear | conversion/a98.js:9-11 | `sign(c) * |c|^(563/256)`, with no linear segment. It has no contract of its own; its properties are CurvesOdd, CurvesKeepSign and CurvesRoundTrip |
| A98.LinearToGamma | conversion/a98.js:18-20 | `sign(c) * |c|^(256/563)`, with no linear segment. It has no contract of its own; its properties are CurvesOdd, CurvesKeepSign and CurvesRoundTrip |
| A98.SignedPowerRoundTrip | conversion/a98.js:9-20 | a signed power with exponent `p` is undone by the signed power with exponent `q` when `p * q = 1`, given that powers of a positive base compose, `x^1 = x` and `0^k = 0` |
| A98.CurvesRoundTrip | conversion/a98.js:9-20 | decoding and encoding undo each other, in both orders, given that powers of a positive base compose, `x^1 = x`, `0^k = 0` and powers are non-negative. That the exponents are reciprocal is proved, not assumed |
| A98.MatricesInverse | conversion/a98.js:24-36 | the A98 matrices are exact inverses in both orders |
| A98.XyzRoundTrip | conversion/a98.js:24-36 | A98 to XYZ and back, both ways, is exact |
| A98.A98ToXyz | conversion/a98.js:24-28 | `A98_TO_XYZ`: the nine exact fractions of the source; its product with XyzToA98 is the identity in both orders (MatricesInverse) |
| A98.XyzToA98 | conversion/a98.js:32-36 | `XYZ_TO_A98`: the nine exact fractions of the source, the exact inverse of A98ToXyz (MatricesInverse, XyzRoundTrip) |
| ProPhoto.GammaToLinear | conversion/prophoto.js:12-15 | decoding is `c / 16` up to `Et2 = 16/512` inclusive |
| ProPhoto.LinearToGamma | conversion/prophoto.js:22-25 | encoding is `16 c` strictly below `Et = 1/512` |
| ProPhoto.CurvesOdd | conversion/prophoto.js:12-25 | both curves are odd and fix zero |
| ProPhoto.LinearSegmentRoundTrip | conversion/prophoto.js:12-25 | encoding then decoding is exact below `Et` |
| ProPhoto.DecodeSegmentRoundTrip | conversion/prophoto.js:12-25 | decoding then encoding is exact strictly inside `Et2`. At `|c| = Et2` the decoder's linear result lands exactly on `Et`, and the encoder then takes its power branch |
| ProPhoto.MatricesNearInverse | conversion/prophoto.js:29-41 | the published decimal matrices multiply to the identity within 10^-15, in both orders |
| ProPhoto.BlueOnlyThroughZ | conversion/prophoto.js:29-41 | the zero last rows: Z depends on blue alone, and blue on Z alone |
| ProPhoto.Et2 | conversion/prophoto.js:4 | the decoder's breakpoint 16/512; GammaToLinear is `c / 16` up to it inclusive |
| ProPhoto.Et | conversion/prophoto.js:5 | the encoder's breakpoint 1/512; LinearToGamma is `16 c` strictly below it, and LinearSegmentRoundTrip is exact there |
| ProPhoto.ProPhotoToXyz | conversion/prophoto.js:29-33 | `PROPHOTO_TO_XYZ`: the nine decimals of the source, with zeros in row 3, columns 1-2 (BlueOnlyThroughZ); within 1e-15 of the inverse of XyzToProPhoto (MatricesNearInverse) |
| ProPhoto.XyzToProPhoto | conversion/prophoto.js:37-41 | `XYZ_TO_PROPHOTO`: the nine decimals of the source, with zeros in row 3, columns 1-2 (BlueOnlyThroughZ); within 1e-15 of the inverse of ProPhotoToXyz (MatricesNearInverse) |
| Rec2020.GammaToLinear | conversion/rec2020.js:12-17 | decoding is `c / 4.5` strictly below `4.5 beta` |
| Rec2020.LinearToGamma | conversion/rec2020.js:24-29 | encoding is `4.5 c` up to `beta` inclusive |
| Rec2020.CurvesOdd | conversion/rec2020.js:12-29 | both curves are odd and fix zero |
| Rec2020.LinearSegmentRoundTrip | conversion/rec2020.js:12-29 | encoding then decoding is exact strictly inside `beta`. At `|c| = beta` the encoded value sits on the decoder's breakpoint, and the decoder takes its power branch |
| Rec2020.DecodeSegmentRoundTrip | conversion/rec2020.js:12-29 | decoding then encoding is exact on the whole of the decoder's linear segment |
| Rec2020.MatricesInverse | conversion/rec2020.js:33-45 | the Rec. 2020 matrices are exact inverses in both orders |
| Rec2020.XyzRoundTrip | conversion/rec2020.js:33-45 | Rec. 2020 to XYZ and back, both ways, is exact |
| Rec2020.RedDoesNotReachZ | conversion/rec2020.js:35 | colours differing only in red have the same Z |
| Rec2020.Alpha | conversion/rec2020.js:4 | `alpha = 1.09929682680944`, the scale of the power segments of both curves |
| Rec2020.Beta | conversion/rec2020.js:5 | `beta = 0.018053968510807`: LinearToGamma is `4.5 c` up to it inclusive, GammaToLinear is `c / 4.5` strictly below `4.5 beta` (LinearSegmentRoundTrip, DecodeSegmentRoundTrip) |
| Rec2020.Rec2020ToXyz | conversion/rec2020.js:33-37 | `REC2020_TO_XYZ`: the nine exact fractions of the source, with entry 6 equal to 0 (RedDoesNotReachZ); its product with XyzToRec2020 is the identity in both orders (MatricesInverse) |
| Rec2020.XyzToRec2020 | conversion/rec2020.js:41-45 | `XYZ_TO_REC2020`: the nine exact fractions of the source, the exact inverse of Rec2020ToXyz (MatricesInverse, XyzRoundTrip) |
| Lab.Constants | conversion/lab.js:3-4 | `kappa * epsilon = 8` and `epsilon = (6/29)^3` |
| Lab.FromLab | conversion/lab.js:23-39 | filling `f` slot by slot (Y first), inverting and scaling by the white point computes the Lab-to-XYZ map |
| Lab.YFromLIsFInverse | conversion/lab.js:23-39 | the test `L > kappa * epsilon` used for Y is the test `f^3 > epsilon` used for X and Z, so Y is inverted the same way |
| Lab.F | conversion/lab.js:13-15 | `f`: the cube root above epsilon, the line `(kappa c + 16) / 116` at and below it. It has no contract of its own; its properties are LinearPartBound, FPiecesMeet, FStrictlyIncreasing and FInverseOfF |
| Lab.FInverse | conversion/lab.js:29-35 | the inverse of `f` used for X and Z: `f^3` when that exceeds epsilon, `(116 f - 16) / kappa` otherwise. It has no contract of its own; its properties are FInverseOfF, FOfFInverse and YFromLIsFInverse |
| Lab.XyzToLab | conversion/lab.js:9-18 | XYZ scaled by the white point, `f` applied to each component, combined into `L = 116 f1 - 16`, `a = 500 (f0 - f1)`, `b = 200 (f1 - f2)`. It has no contract of its own; its properties are XyzRoundTrip, LightnessFromYOnly and AchromaticHasNoChroma |
| Lab.LabToXyz | conversion/lab.js:23-39 | each `f` recovered from L, a and b, inverted, and scaled by the white point. It has no contract of its own: Lab.FromLab is proved to compute it, and LabRoundTrip and NeutralIsWhiteMultiple state its properties |
| Lab.LinearPartBound | conversion/lab.js:13-15 | the linear part of `f` stays at or below 6/29 exactly when its argument is at most epsilon |
| Lab.FPiecesMeet | conversion/lab.js:13-15 | with a true cube root the two pieces of `f` meet at epsilon, both giving 6/29, so `f` has no jump where it switches |
| Lab.FStrictlyIncreasing | conversion/lab.js:13-15 | with a true cube root `f` is strictly increasing, and so one-to-one: `c < d` exactly when `f(c) < f(d)`, and `c = d` exactly when `f(c) = f(d)` |
| Lab.FInverseOfF | conversion/lab.js:9-39 | the inverse undoes `f`, given a true cube root |
| Lab.FOfFInverse | conversion/lab.js:9-39 | `f` undoes the inverse, given a true cube root |
| Lab.XyzRoundTrip | conversion/lab.js:9-39 | XYZ to Lab and back returns the colour exactly, for a positive white point |
| Lab.LabRoundTrip | conversion/lab.js:9-39 | Lab to XYZ and back returns the colour exactly |
| Lab.LightnessFromYOnly | conversion/lab.js:9-18 | L depends on Y alone |
| Lab.AchromaticHasNoChroma | conversion/lab.js:9-18 | a colour proportional to the white point has `a = b = 0` |
| Lab.NeutralIsWhiteMultiple | conversion/lab.js:23-39 | Lab `(L, 0, 0)` maps to a multiple of the white point |
| Matrices.MapVector | conversion/matrices.js:36 | `rgb.map(f)` applies `f` to each component |
| Matrices.P3GammaExpand | conversion/matrices.js:5 | P3 expansion is the sRGB decoder on each component |
| Matrices.P3GammaCompress | conversion/matrices.js:6 | P3 compression is the sRGB encoder on each component |
| Matrices.P3MatricesAgree | conversion/matrices.js:10-22 | the P3 matrices equal those of conversion/p3.js |
| Matrices.P3ToXyz | conversion/matrices.js:10-14 | `P3_TO_XYZ` of this file: equal entry by entry to P3.P3ToXyz (P3MatricesAgree), so P3's inverse lemmas apply |
| Matrices.XyzToP3 | conversion/matrices.js:18-22 | `XYZ_TO_P3` of this file: equal to P3.XyzToP3 (P3MatricesAgree) |
| Matrices.ProPhotoTransfer | conversion/matrices.js:39-42 | the transfer is `c / 16` up to `Et2` and equals the ProPhoto decoder of conversion/prophoto.js |
| Matrices.ProPhotoTransferInverse | conversion/matrices.js:53-56 | the inverse transfer is `16 c` below `Et` and equals the ProPhoto encoder |
| Matrices.ProPhotoGammaExpand | conversion/matrices.js:35-37 | the transfer on each component |
| Matrices.ProPhotoGammaCompress | conversion/matrices.js:49-51 | the inverse transfer on each component |
| Matrices.ProPhotoLinearRoundTrip | conversion/matrices.js:35-56 | a colour whose components all lie below `Et` survives compress then expand exactly |
| Matrices.ProPhotoMatricesAgree | conversion/matrices.js:60-72 | the ProPhoto matrices equal those of conversion/prophoto.js |
| Matrices.ProPhotoToXyz | conversion/matrices.js:60-64 | `PROPHOTO_TO_XYZ` of this file: equal to ProPhoto.ProPhotoToXyz (ProPhotoMatricesAgree) |
| Matrices.XyzToProPhoto | conversion/matrices.js:68-72 | `XYZ_TO_PROPHOTO` of this file: equal to ProPhoto.XyzToProPhoto (ProPhotoMatricesAgree) |
| Matrices.A98GammaToLinear | conversion/matrices.js:78-80 | equals the A98 decoder of conversion/a98.js |
| Matrices.A98LinearToGamma | conversion/matrices.js:82-84 | equals the A98 encoder |
| Matrices.A98CurvesOddAndInverse | conversion/matrices.js:78-84 | the A98 pair is odd, and each curve undoes the other, given that powers of a positive base compose, `x^1 = x`, `0^k = 0` and powers are non-negative |
| Matrices.A98MatricesAgree | conversion/matrices.js:88-100 | the A98 matrices equal those of conversion/a98.js |
| Matrices.A98ToXyz | conversion/matrices.js:88-92 | `A98_TO_XYZ` of this file: equal to A98.A98ToXyz (A98MatricesAgree) |
| Matrices.XyzToA98 | conversion/matrices.js:96-100 | `XYZ_TO_A98` of this file: equal to A98.XyzToA98 (A98MatricesAgree) |
| Matrices.Rec2020GammaToLinear | conversion/matrices.js:109-114 | `c / 4.5` below `4.5 beta`, and equal to the Rec. 2020 decoder |
| Matrices.Rec2020LinearToGamma | conversion/matrices.js:116-121 | `4.5 c` up to `beta`, and equal to the Rec. 2020 encoder |
| Matrices.Rec2020MatricesAgree | conversion/matrices.js:125-137 | the Rec. 2020 matrices equal those of conversion/rec2020.js |
| Matrices.Rec2020ToXyz | conversion/matrices.js:125-129 | `REC2020_TO_XYZ` of this file: equal to Rec2020.Rec2020ToXyz (Rec2020MatricesAgree) |
| Matrices.XyzToRec2020 | conversion/matrices.js:133-137 | `XYZ_TO_REC2020` of this file: equal to Rec2020.XyzToRec2020 (Rec2020MatricesAgree) |
| Matrices.XyzToLab | conversion/matrices.js:139-154 | `xyzToLab` is the same map as the XYZ-to-Lab of conversion/lab.js |
| Matrices.LabToXyz | conversion/matrices.js:156-179 | the loop filling `f` computes the Lab-to-XYZ map of conversion/lab.js |
| Matrices.LabRoundTrips | conversion/matrices.js:139-179 | `xyzToLab` and `labToXyz` undo each other, given a true cube root and a positive white point |
| Matrices.OklabMatricesAgree | conversion/matrices.js:215-245 | the four LMS/Oklab matrices equal those of src/conversion/oklab.mjs |
| Matrices.XyzToLms | conversion/matrices.js:217-221 | `XYZ_TO_LMS` of this file: equal to SrcOklab.XyzToLms (OklabMatricesAgree) |
| Matrices.LmsToOklab | conversion/matrices.js:225-229 | `LMS_TO_OKLAB` of this file: equal to SrcOklab.LmsToOklab (OklabMatricesAgree) |
| Matrices.LmsToXyz | conversion/matrices.js:233-237 | `LMS_TO_XYZ` of this file: equal to SrcOklab.LmsToXyz (OklabMatricesAgree) |
| Matrices.OklabToLms | conversion/matrices.js:241-245 | `OKLAB_TO_LMS` of this file: equal to SrcOklab.OklabToLms (OklabMatricesAgree) |
| Hsl.FmodKeeps | conversion/hsl.js:18-20 | `fmod` leaves a value already in range unchanged |
| Hsl.FromCss | conversion/hsl.js:16-22 | the hue lands in `[0, 12)` and both fractions in `[0, 1)`. Values in range are divided through. 100% wraps to 0 |
| Hsl.FromCssClamped | conversion/hsl.js:16-22 | the intended constructor: fractions in `[0, 1]`, with 100% mapped to 1 |
| Hsl.Ramp | conversion/hsl.js:64 | the trapezoid is in `[-1, 1]`: it is 1 on `[4, 8]` and -1 up to 2 and from 10 |
| Hsl.Channel | conversion/hsl.js:62-65 | each channel is the lightness moved by at most the chroma `a` |
| Hsl.ToRgb | conversion/hsl.js:59-71 | `toRgb`: the channels at offsets 0, 8 and 4 for red, green and blue. It has no contract of its own; its properties are UnsaturatedIsGray, ChannelsInUnitRange and PrimaryHues |
| Hsl.UnsaturatedIsGray | conversion/hsl.js:59-71 | with zero saturation every channel is the lightness |
| Hsl.ChromaBounds | conversion/hsl.js:61 | for `s, l` in `[0, 1]`, `0 <= a <= min(l, 1 - l)` |
| Hsl.Chroma | conversion/hsl.js:61 | `a = s * min(l, 1 - l)`: between 0 and `min(l, 1 - l)` for `s`, `l` in [0, 1] (ChromaBounds), and every channel lies within `l ± a` (Channel) |
| Hsl.ChannelsInUnitRange | conversion/hsl.js:59-71 | for `s, l` in `[0, 1]` every channel is in `[0, 1]` |
| Hsl.PrimaryHues | conversion/hsl.js:59-71 | full saturation at half lightness gives red at hue 0, green at 4 and blue at 8 |
| Hsl.NegativeHueIsNotWrapped | conversion/hsl.js:63 | the truncating `%` does not wrap a negative hue: hue -6 gives white, hue 6 cyan |
| Hsl.FullSaturationWraps | conversion/hsl.js:19 | `Hsl(0, 100, 50)` stores saturation 0, and `toRgb` makes it a gray |
| Hsl.ClampedFullSaturationIsRed | conversion/hsl.js:16-22 | the intended constructor makes `hsl(0, 100%, 50%)` red |
| Hwb.FromCss | conversion/hwb.js:48-51 | the hue lands in `[0, 12)` and `w, b` in `[0, 1]`. In-range values are divided through |
| Hwb.Percent | conversion/hwb.js:60-62 | a whole percentage in 0..100, exact for in-range fractions of whole percentages |
| Hwb.ToCss | conversion/hwb.js:59-66 | every field is an integer, with the hue in `[0, 360]` and `w, b` in `[0, 100]` |
| Hwb.HueCanReach360 | conversion/hwb.js:65 | a hue just below 12 rounds to 360 rather than wrapping to 0 |
| Hwb.CssRoundTrip | conversion/hwb.js:48-66 | a CSS colour with whole fields, hue in `[0, 360)` and `w, b` in `[0, 100]` survives `fromCss` then `toCss` |
| Hwb.HueRoundTrip | conversion/hwb.js:50-65 | a whole hue in `[0, 360)` survives the hue conversions |
| Hwb.PercentRoundTrip | conversion/hwb.js:50-62 | a whole percentage in `[0, 100]` survives the clamped division and rounding |
| Hwb.UsesCssUnits | conversion/hwb.js:84 | the HSL colour built there has saturation 0.01 and lightness 0.005, because `Hsl` takes percentages |
| Hwb.Mix | conversion/hwb.js:74-85 | `toRgb` once the hue's colour is known: the gray `w / (w + b)` when `w + b >= 1`, otherwise each channel `c (1 - w - b) + w`. It has no contract of its own; its properties are GrayWhenNoRoomForHue, ChannelsBetweenWhiteAndBlack, MixUnmixed and FromMixed |
| Hwb.ToRgbAsWritten | conversion/hwb.js:73-86 | `toRgb` as written, with line 84's CSS-unit `Hsl(h, 1, 0.5)`. It has no contract of its own; its properties are ToRgbBounds, UsesCssUnits and RedComesOutNearlyBlack |
| Hwb.MixChannel | conversion/hwb.js:74-76 | the inner `f(c) = c * m + w`: for `c` in [0, 1] and `m = 1 - w - b > 0` it lies in [w, 1 - b] (ChannelsBetweenWhiteAndBlack), and it keeps the order of channels, so min and max mix to min and max (used by FromMixed) |
| Hwb.ToRgb | conversion/hwb.js:73-86 | `toRgb` as intended, with the internal-unit HSL colour `(h, 1, 0.5)`. It has no contract of its own; its properties are ToRgbBounds, RedIsRed and IntendedRoundTrip |
| Hwb.GrayWhenNoRoomForHue | conversion/hwb.js:79-82 | when `w + b >= 1` every channel is `w / (w + b)`, in `[0, 1]` |
| Hwb.ChannelsBetweenWhiteAndBlack | conversion/hwb.js:74-86 | below the gray threshold every channel lies in `[w, 1 - b]` |
| Hwb.ToRgbBounds | conversion/hwb.js:73-86 | both the as-written and the intended `toRgb` keep channels in `[w, 1 - b]` |
| Hwb.FaintRed | conversion/hwb.js:84 | the HSL colour of that line for hue 0 is a faint red near black |
| Hwb.RedComesOutNearlyBlack | conversion/hwb.js:73-86 | as written, `Hwb(0, 0, 0)` gives `(0.00505, 0.00495, 0.00495)` |
| Hwb.MixUnmixed | conversion/hwb.js:74-86 | with no whiteness or blackness, mixing returns the hue's colour |
| Hwb.RedIsRed | conversion/hwb.js:73-86 | as intended, `Hwb(0, 0, 0)` is red |
| Hwb.FromRgb | conversion/hwb.js:93-97 | keeps the given hue. `w + b <= 1`, with equality exactly for grays |
| Hwb.HueExtremes | conversion/hwb.js:84 | a fully saturated half-light HSL colour has a channel at 0 and a channel at 1 |
| Hwb.IntendedRoundTrip | conversion/hwb.js:73-97 | with the intended `toRgb`, `fromRgb` recovers `w` and `b` of any colour with `w + b < 1` and hue in `[0, 12)` |
| Hwb.FromMixed | conversion/hwb.js:74-97 | mixing a colour spanning 0 to 1 and reading it back recovers `w` and `b` |
| Hwb.GrayRoundTrip | conversion/hwb.js:79-97 | a gray comes back with `w` and `b` scaled to sum to 1 |
| SrcLab.FromXyz | src/conversion/lab.mjs:31-42 | as written: the numeric keys 0..2 of the argument (the array in the model) are set to the white point and then to `f` of it, and the result does not depend on the input; the record's `x`, `y` and `z` are not touched |
| SrcLab.FromXyzAsWritten | src/conversion/lab.mjs:31-42 | the Lab colour `fromXyz` returns as written: `f` of each white-point component, combined as in conversion/lab.js. It has no contract of its own: SrcLab.FromXyz is proved to return it, and BlackReadsAsWhite states what it means |
| SrcLab.FromXyzIntended | src/conversion/lab.mjs:31-42 | `fromXyz` as intended: the XYZ-to-Lab map of conversion/lab.js. It has no contract of its own; its property is IntendedRoundTrip |
| SrcLab.BlackReadsAsWhite | src/conversion/lab.mjs:33 | as written, black has lightness 100 for a white point with unit Y; the intended conversion gives 0 |
| SrcLab.ToXyz | src/conversion/lab.mjs:49-59 | `toXyz` is the Lab-to-XYZ map of conversion/lab.js |
| SrcLab.YComponent | src/conversion/lab.mjs:52-56 | Y is the cube above `L = 8` and `L / kappa` at and below it |
| SrcLab.NeutralIsWhiteMultiple | src/conversion/lab.mjs:49-59 | `(L, 0, 0)` maps to a multiple of the white point |
| SrcLab.IntendedRoundTrip | src/conversion/lab.mjs:31-59 | the intended `fromXyz` and `toXyz` undo each other, given a true cube root |
| SrcOklab.XyzToOklab | src/conversion/oklab.mjs:53 | the constant `mulmat(LMS_TO_OKLAB, XYZ_TO_LMS)`. Its properties are LoadXyzToOklab, XyzToOklabIsLinearPath, XyzToOklabIsLinear, ComposedValues and ComposedNearInverse |
| SrcOklab.OklabToXyz | src/conversion/oklab.mjs:55 | the constant `mulmat(LMS_TO_XYZ, OKLAB_TO_LMS)`. Its properties are LoadOklabToXyz, OklabToXyzIsLinearPath, ComposedValues and ComposedNearInverse |
| SrcOklab.LoadXyzToOklab | src/conversion/oklab.mjs:53 | the `mulmat` loop on the two tables yields the composed constant |
| SrcOklab.LoadOklabToXyz | src/conversion/oklab.mjs:55 | likewise for the inverse direction |
| SrcOklab.XyzToOklabIsLinearPath | src/conversion/oklab.mjs:53 | applying `XYZ_TO_OKLAB` is going to LMS and then to Oklab |
| SrcOklab.OklabToXyzIsLinearPath | src/conversion/oklab.mjs:55 | applying `OKLAB_TO_XYZ` is going to LMS and then to XYZ |
| SrcOklab.XyzToOklabIsLinear | src/conversion/oklab.mjs:53 | the composed conversion respects sums and multiples |
| SrcOklab.LmsPairNearInverse | src/conversion/oklab.mjs:23-43 | `XYZ_TO_LMS` and `LMS_TO_XYZ` are inverse within 10^-15 in both orders |
| SrcOklab.OklabPairNearInverse | src/conversion/oklab.mjs:31-51 | `LMS_TO_OKLAB` and `OKLAB_TO_LMS` are inverse within 10^-15 in both orders |
| SrcOklab.ComposedEntries | src/conversion/oklab.mjs:53-55 | each entry of a composed constant is the row-by-column sum of its factors |
| SrcOklab.ComposedValues | src/conversion/oklab.mjs:53-55 | the exact values of the two composed constants |
| SrcOklab.ComposedNearInverse | src/conversion/oklab.mjs:53-55 | the composed constants are inverse within 10^-15 in both orders |
| SrcOklab.XyzToLms | src/conversion/oklab.mjs:23-27 | `XYZ_TO_LMS`: the nine decimals of the source; within 1e-15 of the inverse of LmsToXyz in both orders (LmsPairNearInverse) |
| SrcOklab.LmsToOklab | src/conversion/oklab.mjs:31-35 | `LMS_TO_OKLAB`: the nine decimals of the source; within 1e-15 of the inverse of OklabToLms in both orders (OklabPairNearInverse) |
| SrcOklab.LmsToXyz | src/conversion/oklab.mjs:39-43 | `LMS_TO_XYZ`: the nine decimals of the source, the near-inverse of XyzToLms (LmsPairNearInverse) |
| SrcOklab.OklabToLms | src/conversion/oklab.mjs:47-51 | `OKLAB_TO_LMS`: the nine decimals of the source, the near-inverse of LmsToOklab (OklabPairNearInverse) |
| SrcRgb.FromHex | src/conversion/rgb.js:27-69 | `fromHex`: one `#` stripped, then three one-digit or three two-digit channels, or the length error. It has no contract of its own; its properties are LengthChecked, OneHashStripped, HexDigitsParse, LongCode, TrailingNonDigitsIgnored, BarePrefixIsNaN and IntendedRoundTrip |
| SrcRgb.ParseStripped | src/conversion/rgb.js:41-67 | the `switch` on the length once a `#` is stripped: three one-digit channels, three two-digit channels, or the length error for every other length (LengthChecked, HexDigitsParse, LongCode) |
| SrcRgb.ShortChannel | src/conversion/rgb.js:44-47 | the three-digit `h`: one character read as `(c + 16 c) / 255`, failing when `parseInt` is NaN; a hex digit `d` gives `d / 15` in [0, 1] (ShortChannelOfDigit) |
| SrcRgb.LongChannel | src/conversion/rgb.js:59-61 | the six-digit `h(n)`: the pair at `2n..2n+2` read as one number over 255, failing when `parseInt` is NaN; two hex digits give their value over 255, in [0, 1] (LongChannelOfDigits) |
| SrcRgb.Combine | src/conversion/rgb.js:51 | `Rgb(h(r), h(g), h(b))` with the channels evaluated left to right (also line 62): the colour exactly when all three succeed, otherwise the first failing channel's error (CombineOutcome) |
| SrcRgb.CombineOutcome | src/conversion/rgb.js:51 | the colour is built exactly when all three channels parse, with their values; otherwise the error of the first failing channel, red before green before blue, is thrown |
| SrcRgb.ParseChannel | src/conversion/rgb.js:29-35 | fails exactly when `parseInt(s, 16)` is NaN, and otherwise returns its value |
| SrcRgb.StripHash | src/conversion/rgb.js:37-39 | one leading `#` is removed, nothing else |
| SrcRgb.LengthChecked | src/conversion/rgb.js:41-67 | any length other than 3 or 6 after the `#` throws "Unexpected hexcode length" |
| SrcRgb.OneHashStripped | src/conversion/rgb.js:37-39 | a leading `#` changes nothing; a second one is read as a channel and fails |
| SrcRgb.NotADigit | src/conversion/rgb.js:29-35 | a character that is neither a hex digit nor white space makes a channel NaN |
| SrcRgb.DigitThenOther | src/conversion/rgb.js:30 | a digit followed by a non-digit reads as the digit alone |
| SrcRgb.SignedDigit | src/conversion/rgb.js:30 | `-d` reads as minus the digit |
| SrcRgb.ParseHexOfDigits | src/conversion/rgb.js:30 | a string of hex digits parses to its value |
| SrcRgb.DigitValues | src/conversion/rgb.js:46-60 | one digit is at most 15, a pair at most 255 |
| SrcRgb.PairParses | src/conversion/rgb.js:60 | a pair of hex digits parses to its value |
| SrcRgb.ShortChannelOfDigit | src/conversion/rgb.js:44-47 | a short-form digit `d` gives `d / 15`, in `[0, 1]` |
| SrcRgb.LongChannelOfDigits | src/conversion/rgb.js:59-61 | a pair gives its value over 255, in `[0, 1]` |
| SrcRgb.HexDigitsParse | src/conversion/rgb.js:27-69 | a 3- or 6-digit hexcode, with or without `#`, parses, and every channel is in `[0, 1]` |
| SrcRgb.LongCode | src/conversion/rgb.js:54-63 | a six-digit code reads as its three pairs over 255 |
| SrcRgb.ShortExample | src/conversion/rgb.js:42-52 | `"#fff"` is white |
| SrcRgb.LongExample | src/conversion/rgb.js:54-63 | `"#000000"` is black |
| SrcRgb.TrailingNonDigitsIgnored | src/conversion/rgb.js:29-35 | `"zzz"` throws, while `"1z1z1z"` parses each pair as 1 |
| SrcRgb.BarePrefixIsNaN | src/conversion/rgb.js:29-35 | `parseInt("0x", 16)` is NaN, so `"0x0x0x"` throws "Hexcode channel is NaN" although every pair starts with a digit |
| SrcRgb.SignedPairsParse | src/conversion/rgb.js:30 | `"-1-1-1"` parses to negative channels |
| SrcRgb.Scaled | src/conversion/rgb.js:79 | the scaled channel is clamped to `[0, 255]` |
| SrcRgb.Nibbles | src/conversion/rgb.js:80 | the two truncated parts are in 0..15 and recombine to `floor(v)` |
| SrcRgb.PairAsWritten | src/conversion/rgb.js:78-81 | as written, each channel becomes two letters `a`..`p` encoding `floor(v)` |
| SrcRgb.ToHexAsWritten | src/conversion/rgb.js:76-85 | as written, the hexcode is six letters between `a` and `p` |
| SrcRgb.LowChannelWrittenAsLetters | src/conversion/rgb.js:80 | a channel at or below 0 is written `"aa"` |
| SrcRgb.BlackWrittenAsLetters | src/conversion/rgb.js:76-85 | black is written `"aaaaaa"` |
| SrcRgb.LettersReadBack | src/conversion/rgb.js:27-69 | `"aaaaaa"` reads back as 170/255 per channel, so black does not round-trip |
| SrcRgb.DigitChar | src/conversion/rgb.js:80 | the intended digit character has the given value |
| SrcRgb.PairIntended | src/conversion/rgb.js:78-81 | the intended pair is two hex digits encoding `floor(v)` |
| SrcRgb.ToHex | src/conversion/rgb.js:76-85 | the intended hexcode is six hex digits |
| SrcRgb.PairReadsBack | src/conversion/rgb.js:29-35 | an intended pair parses back to the truncated scaled channel |
| SrcRgb.IntendedRoundTrip | src/conversion/rgb.js:27-85 | reading back the intended hexcode gives each channel truncated to a multiple of 1/255 |
| SrcRgb.IntendedExactRoundTrip | src/conversion/rgb.js:27-85 | a colour whose channels are multiples of 1/255 in `[0, 1]` round-trips exactly |
| Bezier.Zeros | src/bezier/index.js:18 | a new buffer has the given length and is all zeros |
| Bezier.Point | src/bezier/index.js:11 | a point lying inside the buffer has ten numbers |
| Bezier.CreateControlPoints | src/bezier/index.js:17-19 | a fresh zero-filled buffer of `width * height * 10` numbers |
| Bezier.Subarray | src/bezier/index.js:44 | `subarray` clamps both indices: the length is the clamped span, and element `i` is element `begin + i` of the source |
| Bezier.Set | src/bezier/index.js:45 | `set` succeeds exactly when the source fits from the offset. It writes the source there and keeps every other element |
| Bezier.SetRun | src/bezier/index.js:44-45 | the element loop writes the run, as `Set` specifies |
| Bezier.CopyRun | src/bezier/index.js:41-45 | one iteration succeeds exactly when its step fits, and then leaves the buffer as the step specifies; when it does not fit, nothing is written, as `set` checks the bounds before writing |
| Bezier.Resize | src/bezier/index.js:29-49 | the resize as written, as a value: the rows and columns both meshes share, each iteration copying a run of `w` points, failing with the first overrun. It has no contract of its own: ResizeControlPoints is proved to compute it, and ResizeThrowsIff, ResizeKeepsSharedPoints and SameSizeCopies state its properties |
| Bezier.ResizeIntended | src/bezier/index.js:29-49 | the resize as intended, each iteration copying one point. It has no contract of its own; its properties are IntendedNeverThrows, IntendedKeepsSharedPoints, IntendedZeroFills and IntendedSameSizeCopies |
| Bezier.Step | src/bezier/index.js:41-45 | one iteration `(y, x)`: `out.set(points.subarray(srcStart * 10, srcEnd * 10), dstStart * 10)` with a run of `run` points; `None` is the RangeError. It succeeds exactly when its run fits (StepFits), and CopyRun is proved to perform it |
| Bezier.Row | src/bezier/index.js:40-46 | the inner loop: the first `x` iterations of row `y`, stopping at the first RangeError; it fails exactly when one of them does not fit (RowOutcome) |
| Bezier.Rows | src/bezier/index.js:36-47 | the outer loop from the zero-filled `out`: the first `y` rows, stopping at the first RangeError; it fails exactly when some iteration does not fit, and otherwise has the new length (RowsOutcome) |
| Bezier.ResizeControlPoints | src/bezier/index.js:29-49 | the nested loop throws exactly when `Resize` fails, and otherwise returns a fresh buffer equal to `Resize` |
| Bezier.StepFits | src/bezier/index.js:41-45 | an iteration succeeds exactly when its run fits in the new buffer, and keeps the buffer's length |
| Bezier.RowOutcome | src/bezier/index.js:40-46 | a row fails exactly when one of its iterations does not fit |
| Bezier.RowsOutcome | src/bezier/index.js:39-47 | the rows fail exactly when some iteration does not fit, and otherwise give a buffer of the new length |
| Bezier.ResizeThrowsIff | src/bezier/index.js:36-48 | the resize throws exactly when some iteration `(x, y)` with `x < w`, `y < h` overruns the new buffer. Otherwise the result has `newW * newH * 10` numbers |
| Bezier.GrowingNeverThrows | src/bezier/index.js:36-48 | growing in both directions never throws |
| Bezier.ShrinkingThrows | src/bezier/index.js:41-45 | shrinking 3×3 to 2×2 throws a RangeError |
| Bezier.ResizeKeepsSharedPoints | src/bezier/index.js:39-47 | when it returns, every point both meshes share holds the same old point |
| Bezier.SameSizeCopies | src/bezier/index.js:29-49 | resizing to the same size copies the buffer exactly |
| Bezier.RunSpillsIntoNewColumn | src/bezier/index.js:41-45 | growing 2×2 to 3×3 puts old point (0, 1) at new point (2, 0) |
| Bezier.IntendedNeverThrows | src/bezier/index.js:36-48 | the intended resize never throws and has the new length |
| Bezier.IntendedKeepsSharedPoints | src/bezier/index.js:39-47 | the intended resize copies every shared point |
| Bezier.IntendedZeroFills | src/bezier/index.js:36 | the intended resize leaves every other point zero |
| Bezier.IntendedSameSizeCopies | src/bezier/index.js:29-49 | the intended resize to the same size copies the buffer |
| Bezier.IntendedExamples | src/bezier/index.js:41-45 | on the two failing examples the intended resize leaves new point (2, 0) zero, and it shrinks 3×3 without throwing |

## Left out

- `Math.pow` and `Math.cbrt` are function parameters. No numeric accuracy of the host's implementations is modelled. Lemmas that need them state what they assume, such as a true cube root, or powers of a positive base that compose with `x^1 = x` and `0^k = 0`.
- `Math.pow(f, 3)` and `f ** 3` in the Lab conversions are exact cubes.
- IEEE 754 doubles, `NaN`, infinities and `Float32Array` rounding are not modelled. Numbers are exact reals, and decimal literals are taken at their exact decimal value. The mesh buffer holds reals.
- JavaScript strings are UTF-16 code units; the model uses Dafny characters.
- The polar spaces (conversion/lch.js, conversion/oklch.js, src/conversion/lch.js and lines 181-213 of conversion/matrices.js) are not part of this model.
- conversion/whitepoint.js is not part of this model. The D50/D65 white point is a parameter of the Lab conversions.
- conversion/matrices.js has no imports. It uses `sign` (lines 113 and 119), `D50` (lines 146 and 178) and `srgbGammaExpand`/`srgbGammaCompress` (lines 5-6) without binding them. Lines 5-6 run when the module loads, so loading the file as written throws a ReferenceError. That failure is not modelled. The model binds the names to `sign` of conversion/shared.js, a white-point parameter and the sRGB curves of conversion/srgb.js. conversion/prophoto.js and conversion/rec2020.js import `sign` from conversion/shared.js, and the ProPhoto curves of conversion/matrices.js write the sign inline.
- src/conversion/rgb.js imports `clamp` from src/conversion/shared.js, which is not part of this model. SrcRgb.Scaled binds it to `clamp` of conversion/shared.js, that is `Math.min(max, Math.max(min, n))`.
- conversion/hsl.js calls `fmod` without importing it. The model binds it to `fmod` of conversion/shared.js.
- conversion/lab.js exports two functions named `fromXyz` (lines 9 and 23). A duplicate export is a SyntaxError, so the module as written fails to load. That failure is not modelled. The model treats both functions as if the module loaded, and names the second one `LabToXyz`/`FromLab`, after what it computes.
- conversion/srgb.js (line 1) and conversion/rec2020.js (line 1) import `Matrix` from conversion/linalg.js, which exports only `mulmat` and `mulvec`; its `Matrix` is a JSDoc type, not an export. Linking either module is therefore a SyntaxError, and conversion/p3.js, which imports the sRGB curves from conversion/srgb.js, fails with it. conversion/p3.js (line 5), conversion/a98.js (line 2) and conversion/prophoto.js (line 2) import `Matrix` from a module `./matrix` that is not part of this model. That failure is not modelled. The model treats all five modules as if they loaded: `Matrix` is used in them only in `@type` comments, so the model takes it to be the nine-number row-major matrix type of conversion/linalg.js (LinAlg.Matrix), and the curves and matrix constants are modelled as the files define them.
- conversion/hwb.js imports `fromRgb as rgbToHsl` from conversion/hsl.js (line 1), but conversion/hsl.js exports only `Hsl` and `toRgb`. Linking conversion/hwb.js is therefore a SyntaxError, and none of its functions runs as written. That failure is not modelled. The model binds the names as if the module loaded, with `Hsl` and `toRgb` of conversion/hsl.js and the hue of `fromRgb` as a parameter.
- The record constructors `Rgb`, `Xyz`, `Lab`, `Oklab`, `Hsl`, `Hwb`, `CssHwb`, `Vector` and `Matrix` are Dafny datatypes or sequence constructors that store their arguments. conversion/rgb.js and src/conversion/xyz.mjs contribute only their records.
- src/conversion/lab.mjs: `fromXyz` receives an `{x, y, z}` record and writes `xyz[0]`, `xyz[1]` and `xyz[2]`, which adds three new numeric keys and leaves `x`, `y` and `z` unchanged. The model's three-element array stands for those three keys only; the record's own fields are not modelled, since the loop neither reads nor writes them.
- `fromRgb` of conversion/hsl.js is not modelled. Hwb.FromRgb takes the hue it would produce as a parameter.
- Bezier widths and heights are natural numbers. Negative, fractional and `NaN` sizes are not modelled.
- Bezier.ResizeControlPoints: when `out.set` throws, the partial writes to the discarded buffer are not modelled; the method returns `RangeError`.
- WebGL, the DOM, the shaders and src/bezier.js are not part of this model.

## Findings

| source | as written | input that shows it | evidently intended | confidence | as-written member | corrected member |
|---|---|---|---|---|---|---|
| src/conversion/lab.mjs:33 | each slot is assigned the white point's component (`=`) instead of divided by it | any XYZ, e.g. black `(0, 0, 0)` with a white point of unit Y: L = 100 | `xyz.x / white.x` etc., as conversion/lab.js does | high; not executed | SrcLab.BlackReadsAsWhite | SrcLab.IntendedRoundTrip |
| conversion/hsl.js:19-20 | `fmod(s / 100, 1)` wraps 100% to 0 | `Hsl(0, 100, 50)` gives gray `(0.5, 0.5, 0.5)` | clamp to `[0, 1]`, so that 100% is full saturation | high; not executed | Hsl.FullSaturationWraps | Hsl.ClampedFullSaturationIsRed |
| conversion/hwb.js:84 | `Hsl(h, 1, 0.5)` passes internal units to the CSS-unit constructor | `Hwb(0, 0, 0)` gives `(0.00505, 0.00495, 0.00495)` instead of red | the internal-unit HSL colour `(h, 1, 0.5)` | high; not executed | Hwb.RedComesOutNearlyBlack | Hwb.RedIsRed |
| src/conversion/rgb.js:80 | characters `97 + digit` give the letters `a`..`p`, not hex digits | black gives `"aaaaaa"`, which reads back as 170/255 | the hex digits of `floor(255 c)` | high; not executed | SrcRgb.BlackWrittenAsLetters | SrcRgb.IntendedExactRoundTrip |
| src/bezier/index.js:42 | each iteration copies a run of `w` points (`srcEnd = srcStart + w`) rather than one | 2×2 to 3×3 puts old point (0, 1) at new point (2, 0); 3×3 to 2×2 throws a RangeError | copy the single point (x, y) | high; not executed | Bezier.RunSpillsIntoNewColumn | Bezier.IntendedKeepsSharedPoints |

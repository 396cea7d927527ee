/**
 * src/conversion/oklab.mjs: the Oklab record and the matrices between XYZ,
 * the LMS cone space and Oklab. The two composed matrices are products
 * evaluated once, when the module loads. No cube root is applied to LMS on
 * this path: XYZ to Oklab is one linear map.
 */
module SrcOklab {
  import opened LinAlg
  import SrcLinAlg

  /** `Oklab(l, a, b)`: luminance and the two opponent axes, stored as given. */
  datatype Oklab = Oklab(l: real, a: real, b: real)

  const XyzToLms: Matrix := [
    0.8190224379967030, 0.3619062600528904, -0.1288737815209879,
    0.0329836539323885, 0.9292868615863434, 0.0361446663506424,
    0.0481771893596242, 0.2642395317527308, 0.6335478284694309
  ]

  const LmsToOklab: Matrix := [
    0.2104542683093140, 0.7936177747023054, -0.0040720430116193,
    1.9779985324311684, -2.4285922420485799, 0.4505937096174110,
    0.0259040424655478, 0.7827717124575296, -0.8086757549230774
  ]

  const LmsToXyz: Matrix := [
    1.2268798758459243, -0.5578149944602171, 0.2813910456659647,
    -0.0405757452148008, 1.1122868032803170, -0.0717110580655164,
    -0.0763729366746601, -0.4214933324022432, 1.5869240198367816
  ]

  const OklabToLms: Matrix := [
    1.0000000000000000, 0.3963377773761749, 0.2158037573099136,
    1.0000000000000000, -0.1055613458156586, -0.0638541728258133,
    1.0000000000000000, -0.0894841775298119, -1.2914855480194092
  ]

  /** `XYZ_TO_OKLAB = mulmat(LMS_TO_OKLAB, XYZ_TO_LMS)`. */
  const XyzToOklab: Matrix := MatMul(LmsToOklab, XyzToLms)

  /** `OKLAB_TO_XYZ = mulmat(LMS_TO_XYZ, OKLAB_TO_LMS)`. */
  const OklabToXyz: Matrix := MatMul(LmsToXyz, OklabToLms)

  /** The tolerance within which the published pairs are inverse: 10^-15. */
  const Tolerance: real := 0.000000000000001

  /** Loading `XYZ_TO_OKLAB`: the `mulmat` loop on the two tables yields the composed constant. */
  method LoadXyzToOklab() returns (m: Matrix)
    ensures m == XyzToOklab
  {
    var a := new real[9](i requires 0 <= i < 9 => LmsToOklab[i]);
    var b := new real[9](i requires 0 <= i < 9 => XyzToLms[i]);
    assert a[..] == LmsToOklab && b[..] == XyzToLms;
    var o := SrcLinAlg.MulMat(a, b);
    m := o[..];
  }

  /** Loading `OKLAB_TO_XYZ`: the `mulmat` loop on the two tables yields the composed constant. */
  method LoadOklabToXyz() returns (m: Matrix)
    ensures m == OklabToXyz
  {
    var a := new real[9](i requires 0 <= i < 9 => LmsToXyz[i]);
    var b := new real[9](i requires 0 <= i < 9 => OklabToLms[i]);
    assert a[..] == LmsToXyz && b[..] == OklabToLms;
    var o := SrcLinAlg.MulMat(a, b);
    m := o[..];
  }

  /** Applying `XYZ_TO_OKLAB` is going to LMS and then to Oklab, with nothing in between. */
  lemma XyzToOklabIsLinearPath(xyz: Vector)
    ensures MulVec(XyzToOklab, xyz) == MulVec(LmsToOklab, MulVec(XyzToLms, xyz))
  {
    MulVecOfProduct(LmsToOklab, XyzToLms, xyz);
  }

  /** Applying `OKLAB_TO_XYZ` is going to LMS and then to XYZ. */
  lemma OklabToXyzIsLinearPath(lab: Vector)
    ensures MulVec(OklabToXyz, lab) == MulVec(LmsToXyz, MulVec(OklabToLms, lab))
  {
    MulVecOfProduct(LmsToXyz, OklabToLms, lab);
  }

  /** Because the path is linear, XYZ to Oklab respects sums and multiples of colours. */
  lemma XyzToOklabIsLinear(u: Vector, v: Vector, k: real)
    ensures MulVec(XyzToOklab, Add(u, v)) == Add(MulVec(XyzToOklab, u), MulVec(XyzToOklab, v))
    ensures MulVec(XyzToOklab, Scale(k, u)) == Scale(k, MulVec(XyzToOklab, u))
  {
    MulVecAdditive(XyzToOklab, u, v);
    MulVecHomogeneous(XyzToOklab, k, u);
  }

  /** `LMS_TO_XYZ` and `XYZ_TO_LMS` are inverse within 10^-15, in both orders. */
  lemma LmsPairNearInverse()
    ensures NearIdentity(MatMul(LmsToXyz, XyzToLms), Tolerance)
    ensures NearIdentity(MatMul(XyzToLms, LmsToXyz), Tolerance)
  {
    NearLmsToXyzTimesXyzToLms();
    NearXyzToLmsTimesLmsToXyz();
  }

  /** `OKLAB_TO_LMS` and `LMS_TO_OKLAB` are inverse within 10^-15, in both orders. */
  lemma OklabPairNearInverse()
    ensures NearIdentity(MatMul(OklabToLms, LmsToOklab), Tolerance)
    ensures NearIdentity(MatMul(LmsToOklab, OklabToLms), Tolerance)
  {
    NearOklabToLmsTimesLmsToOklab();
    NearLmsToOklabTimesOklabToLms();
  }

  /** Each entry of a composed constant is the row-by-column sum of its two factors. */
  lemma ComposedEntries()
    ensures forall i :: 0 <= i < 9 ==> XyzToOklab[i] == Entry(LmsToOklab, XyzToLms, i / 3, i % 3)
    ensures forall i :: 0 <= i < 9 ==> OklabToXyz[i] == Entry(LmsToXyz, OklabToLms, i / 3, i % 3)
  {
    XyzToOklabEntries();
    OklabToXyzEntries();
  }

  lemma XyzToOklabEntries()
    ensures forall i :: 0 <= i < 9 ==> XyzToOklab[i] == Entry(LmsToOklab, XyzToLms, i / 3, i % 3)
  {
  }

  lemma OklabToXyzEntries()
    ensures forall i :: 0 <= i < 9 ==> OklabToXyz[i] == Entry(LmsToXyz, OklabToLms, i / 3, i % 3)
  {
  }

  /** The exact value of `XYZ_TO_OKLAB` over the reals. */
  const XyzToOklabValue: Matrix := [
    0.19834700236562841138399598872284, 0.81258729356956723871064117227552, -0.00101682172514530976513155876801,
    1.56162967280355583253931933464025, -1.4219441405839654249516772586355, -0.05722014075787752352987719059022,
    0.00807493831039920913282725483992, 0.52311020031652290222505228086184, -0.48738009800111038271014354830824
  ]

  /** The exact value of `OKLAB_TO_XYZ` over the reals; its first column is the D65 white point. */
  const OklabToXyzValue: Matrix := [
    0.9504559270516719, 0.5199624983460331170512386014022, -0.06302836678309945321772209484733,
    0.9999999999999998, -0.12707918751029776571818417287096, 0.0128332430832586006104917248839,
    1.0890577507598783, -0.12778066727001590936534811966101, -2.03905689602311261870582071740352
  ]

  lemma ComposedValues()
    ensures XyzToOklab == XyzToOklabValue
    ensures OklabToXyz == OklabToXyzValue
  {
    XyzToOklabExact();
    OklabToXyzExact();
  }

  lemma XyzToOklabExact()
    ensures XyzToOklab == XyzToOklabValue
  {
    ProductLiteral(LmsToOklab, XyzToLms);
  }

  lemma OklabToXyzExact()
    ensures OklabToXyz == OklabToXyzValue
  {
    ProductLiteral(LmsToXyz, OklabToLms);
  }

  /** The two composed constants are inverse within 10^-15, in both orders. */
  lemma ComposedNearInverse()
    ensures NearIdentity(MatMul(OklabToXyz, XyzToOklab), Tolerance)
    ensures NearIdentity(MatMul(XyzToOklab, OklabToXyz), Tolerance)
  {
    ComposedValues();
    NearOklabToXyzTimesXyzToOklab();
    NearXyzToOklabTimesOklabToXyz();
  }

  lemma NearLmsToXyzTimesXyzToLms()
    ensures NearIdentity(MatMul(LmsToXyz, XyzToLms), Tolerance)
  {
    NearIdentityOfEntries(LmsToXyz, XyzToLms, Tolerance);
  }

  lemma NearXyzToLmsTimesLmsToXyz()
    ensures NearIdentity(MatMul(XyzToLms, LmsToXyz), Tolerance)
  {
    NearIdentityOfEntries(XyzToLms, LmsToXyz, Tolerance);
  }

  lemma NearOklabToLmsTimesLmsToOklab()
    ensures NearIdentity(MatMul(OklabToLms, LmsToOklab), Tolerance)
  {
    NearIdentityOfEntries(OklabToLms, LmsToOklab, Tolerance);
  }

  lemma NearLmsToOklabTimesOklabToLms()
    ensures NearIdentity(MatMul(LmsToOklab, OklabToLms), Tolerance)
  {
    NearIdentityOfEntries(LmsToOklab, OklabToLms, Tolerance);
  }

  lemma NearOklabToXyzTimesXyzToOklab()
    ensures NearIdentity(MatMul(OklabToXyzValue, XyzToOklabValue), Tolerance)
  {
    NearIdentityOfEntries(OklabToXyzValue, XyzToOklabValue, Tolerance);
  }

  lemma NearXyzToOklabTimesOklabToXyz()
    ensures NearIdentity(MatMul(XyzToOklabValue, OklabToXyzValue), Tolerance)
  {
    NearIdentityOfEntries(XyzToOklabValue, OklabToXyzValue, Tolerance);
  }
}

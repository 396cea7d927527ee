/**
 * conversion/lab.js: CIE Lab relative to the D50 white point. The file
 * exports two functions under the one name `fromXyz` (lines 9 and 23), which
 * makes the module fail to load as written; the model treats it as if it
 * loaded. The first converts XYZ to Lab and the second Lab to XYZ, and the
 * model names them by what they do. The white point comes from a module that is not part
 * of this model and is a parameter `white` with three positive components.
 */
module Lab {
  import opened Js
  import opened LinAlg

  /** 216/24389 = (6/29)^3, the end of the linear part of `f`. */
  const Epsilon: real := 216.0 / 24389.0

  /** 24389/27 = (29/3)^3, the slope of the linear part. */
  const Kappa: real := 24389.0 / 27.0

  /** The constants of the CIE definition, as exact fractions. */
  lemma Constants()
    ensures Kappa * Epsilon == 8.0
    ensures Epsilon == Cube(6.0 / 29.0)
  {
  }

  predicate PositiveWhite(white: Vector)
  {
    0.0 < white[0] && 0.0 < white[1] && 0.0 < white[2]
  }

  /** `f`: the cube root above epsilon, a line through (0, 16/116) below. */
  function F(cbrt: Cbrt, c: real): real
  {
    if c > Epsilon then cbrt(c) else (Kappa * c + 16.0) / 116.0
  }

  /** The inverse of `f` as the Lab-to-XYZ direction writes it for X and Z. */
  function FInverse(f: real): real
  {
    if Cube(f) > Epsilon then Cube(f) else (116.0 * f - 16.0) / Kappa
  }

  /** Y as the Lab-to-XYZ direction computes it: the test is on L itself. */
  function YFromL(l: real): real
  {
    if l > Kappa * Epsilon then Cube((l + 16.0) / 116.0) else l / Kappa
  }

  /** The first `fromXyz` (lines 9-18): scale by the white point, apply `f`, combine. */
  function XyzToLab(cbrt: Cbrt, white: Vector, xyz: Vector): Vector
    requires PositiveWhite(white)
  {
    var f0 := F(cbrt, xyz[0] / white[0]);
    var f1 := F(cbrt, xyz[1] / white[1]);
    var f2 := F(cbrt, xyz[2] / white[2]);
    [116.0 * f1 - 16.0, 500.0 * (f0 - f1), 200.0 * (f1 - f2)]
  }

  /** The second `fromXyz` (lines 23-39) as a value: recover each `f`, invert it, scale by white. */
  function LabToXyz(white: Vector, lab: Vector): Vector
  {
    var f1 := (lab[0] + 16.0) / 116.0;
    var f0 := lab[1] / 500.0 + f1;
    var f2 := f1 - lab[2] / 200.0;
    [FInverse(f0) * white[0], YFromL(lab[0]) * white[1], FInverse(f2) * white[2]]
  }

  /**
   * The second `fromXyz` as written: it fills a local array `f` slot by
   * slot, Y's slot first, then maps the three components through the white
   * point. It computes `LabToXyz`.
   */
  method FromLab(white: Vector, lab: Vector) returns (xyz: Vector)
    ensures xyz == LabToXyz(white, lab)
  {
    var f := new real[3](_ => 0.0);
    f[1] := (lab[0] + 16.0) / 116.0;
    f[0] := lab[1] / 500.0 + f[1];
    f[2] := f[1] - lab[2] / 200.0;
    var f0, f2 := f[0], f[2];
    var x := if Cube(f0) > Epsilon then Cube(f0) else (116.0 * f0 - 16.0) / Kappa;
    var y := if lab[0] > Kappa * Epsilon then Cube((lab[0] + 16.0) / 116.0) else lab[0] / Kappa;
    var z := if Cube(f2) > Epsilon then Cube(f2) else (116.0 * f2 - 16.0) / Kappa;
    xyz := [x * white[0], y * white[1], z * white[2]];
    LabToXyzOf(white, lab, f0, f2);
    assert x == FInverse(f0) && y == YFromL(lab[0]) && z == FInverse(f2);
    VectorEq(xyz, LabToXyz(white, lab));
  }

  /** The Lab-to-XYZ map written out for given `f0` and `f2`. */
  lemma LabToXyzOf(white: Vector, lab: Vector, f0: real, f2: real)
    requires f0 == lab[1] / 500.0 + (lab[0] + 16.0) / 116.0
    requires f2 == (lab[0] + 16.0) / 116.0 - lab[2] / 200.0
    ensures LabToXyz(white, lab)[0] == FInverse(f0) * white[0]
    ensures LabToXyz(white, lab)[1] == YFromL(lab[0]) * white[1]
    ensures LabToXyz(white, lab)[2] == FInverse(f2) * white[2]
  {
  }

  /**
   * Because kappa * epsilon = 8, the test `L > 8` on Y is the test
   * `f1^3 > epsilon` used for X and Z, so Y is inverted like the others.
   */
  lemma YFromLIsFInverse(l: real)
    ensures YFromL(l) == FInverse((l + 16.0) / 116.0)
  {
    Constants();
    var f := (l + 16.0) / 116.0;
    CubeOrder(6.0 / 29.0, f);
    assert l > 8.0 <==> f > 6.0 / 29.0;
  }

  /** The linear part of `f` stays at or below 6/29 exactly when its argument is at most epsilon. */
  lemma LinearPartBound(c: real)
    ensures (Kappa * c + 16.0) / 116.0 <= 6.0 / 29.0 <==> c <= Epsilon
  {
  }

  /**
   * The two pieces of `f` meet at epsilon: the line reaches 6/29 there, and
   * so does a true cube root, so `f` has no jump at the switch.
   */
  lemma FPiecesMeet(cbrt: Cbrt)
    requires IsCubeRoot(cbrt)
    ensures (Kappa * Epsilon + 16.0) / 116.0 == 6.0 / 29.0
    ensures cbrt(Epsilon) == 6.0 / 29.0
    ensures F(cbrt, Epsilon) == cbrt(Epsilon)
  {
    Constants();
    CbrtOfCube(cbrt, 6.0 / 29.0);
  }

  /** With a true cube root, `f` is strictly increasing, hence one-to-one. */
  lemma FStrictlyIncreasing(cbrt: Cbrt, c: real, d: real)
    requires IsCubeRoot(cbrt)
    ensures c < d <==> F(cbrt, c) < F(cbrt, d)
    ensures c == d <==> F(cbrt, c) == F(cbrt, d)
  {
    if c < d {
      FIncreasingStep(cbrt, c, d);
    } else if d < c {
      FIncreasingStep(cbrt, d, c);
    }
  }

  lemma FIncreasingStep(cbrt: Cbrt, c: real, d: real)
    requires IsCubeRoot(cbrt) && c < d
    ensures F(cbrt, c) < F(cbrt, d)
  {
    Constants();
    if Epsilon < c {
      assert Cube(cbrt(c)) == c && Cube(cbrt(d)) == d;
      CubeOrder(cbrt(c), cbrt(d));
    } else if Epsilon < d {
      LinearPartBound(c);
      assert Cube(cbrt(d)) == d;
      CubeOrder(6.0 / 29.0, cbrt(d));
    }
  }

  /** `FInverse` undoes `f`, given a true cube root. */
  lemma FInverseOfF(cbrt: Cbrt, c: real)
    requires IsCubeRoot(cbrt)
    ensures FInverse(F(cbrt, c)) == c
  {
    Constants();
    if c > Epsilon {
      assert Cube(cbrt(c)) == c;
    } else {
      var f := (Kappa * c + 16.0) / 116.0;
      LinearPartBound(c);
      CubeOrder(f, 6.0 / 29.0);
      assert !(Cube(f) > Epsilon);
    }
  }

  /** `f` undoes `FInverse`, given a true cube root. */
  lemma FOfFInverse(cbrt: Cbrt, f: real)
    requires IsCubeRoot(cbrt)
    ensures F(cbrt, FInverse(f)) == f
  {
    Constants();
    if Cube(f) > Epsilon {
      CbrtOfCube(cbrt, f);
    } else {
      CubeOrder(6.0 / 29.0, f);
      assert f <= 6.0 / 29.0;
      var c := (116.0 * f - 16.0) / Kappa;
      assert c <= Epsilon;
    }
  }

  lemma ScaleBack(v: real, w: real)
    requires 0.0 < w
    ensures (v / w) * w == v
  {
  }

  lemma DivideBack(v: real, w: real)
    requires 0.0 < w
    ensures (v * w) / w == v
  {
  }

  /** Scaling by the white point, applying `f` and inverting it gives back the component. */
  lemma ComponentThere(cbrt: Cbrt, v: real, w: real, f: real)
    requires IsCubeRoot(cbrt) && 0.0 < w && f == F(cbrt, v / w)
    ensures FInverse(f) * w == v
  {
    FInverseOfF(cbrt, v / w);
    ScaleBack(v, w);
  }

  /** Inverting `f`, scaling by the white point and back, then applying `f` gives back `f`. */
  lemma ComponentBack(cbrt: Cbrt, f: real, w: real, v: real)
    requires IsCubeRoot(cbrt) && 0.0 < w && v == FInverse(f) * w
    ensures F(cbrt, v / w) == f
  {
    DivideBack(FInverse(f), w);
    FOfFInverse(cbrt, f);
  }

  /** The XYZ-to-Lab map written out for given values of `f`. */
  lemma XyzToLabOf(cbrt: Cbrt, white: Vector, xyz: Vector, f0: real, f1: real, f2: real)
    requires PositiveWhite(white)
    requires f0 == F(cbrt, xyz[0] / white[0])
    requires f1 == F(cbrt, xyz[1] / white[1])
    requires f2 == F(cbrt, xyz[2] / white[2])
    ensures XyzToLab(cbrt, white, xyz)[0] == 116.0 * f1 - 16.0
    ensures XyzToLab(cbrt, white, xyz)[1] == 500.0 * (f0 - f1)
    ensures XyzToLab(cbrt, white, xyz)[2] == 200.0 * (f1 - f2)
  {
  }

  /** XYZ to Lab and back returns the same colour exactly, given a true cube root. */
  lemma XyzRoundTrip(cbrt: Cbrt, white: Vector, xyz: Vector)
    requires IsCubeRoot(cbrt) && PositiveWhite(white)
    ensures LabToXyz(white, XyzToLab(cbrt, white, xyz)) == xyz
  {
    var lab := XyzToLab(cbrt, white, xyz);
    var f0 := F(cbrt, xyz[0] / white[0]);
    var f1 := F(cbrt, xyz[1] / white[1]);
    var f2 := F(cbrt, xyz[2] / white[2]);
    XyzToLabOf(cbrt, white, xyz, f0, f1, f2);
    var r := LabToXyz(white, lab);
    LabToXyzOf(white, lab, f0, f2);
    YFromLIsFInverse(lab[0]);
    ComponentThere(cbrt, xyz[0], white[0], f0);
    ComponentThere(cbrt, xyz[1], white[1], f1);
    ComponentThere(cbrt, xyz[2], white[2], f2);
    VectorEq(r, xyz);
  }

  /** Lab to XYZ and back returns the same colour exactly, given a true cube root. */
  lemma LabRoundTrip(cbrt: Cbrt, white: Vector, lab: Vector)
    requires IsCubeRoot(cbrt) && PositiveWhite(white)
    ensures XyzToLab(cbrt, white, LabToXyz(white, lab)) == lab
  {
    var f1 := (lab[0] + 16.0) / 116.0;
    var f0 := lab[1] / 500.0 + f1;
    var f2 := f1 - lab[2] / 200.0;
    var xyz := LabToXyz(white, lab);
    LabToXyzOf(white, lab, f0, f2);
    YFromLIsFInverse(lab[0]);
    ComponentBack(cbrt, f0, white[0], xyz[0]);
    ComponentBack(cbrt, f1, white[1], xyz[1]);
    ComponentBack(cbrt, f2, white[2], xyz[2]);
    XyzToLabOf(cbrt, white, xyz, f0, f1, f2);
    VectorEq(XyzToLab(cbrt, white, xyz), lab);
  }

  /** L depends on Y alone: two colours with the same Y have the same lightness. */
  lemma LightnessFromYOnly(cbrt: Cbrt, white: Vector, u: Vector, v: Vector)
    requires PositiveWhite(white) && u[1] == v[1]
    ensures XyzToLab(cbrt, white, u)[0] == XyzToLab(cbrt, white, v)[0]
  {
  }

  /** A colour whose components are proportional to the white point has a = b = 0. */
  lemma AchromaticHasNoChroma(cbrt: Cbrt, white: Vector, xyz: Vector)
    requires PositiveWhite(white)
    requires xyz[0] / white[0] == xyz[1] / white[1] == xyz[2] / white[2]
    ensures XyzToLab(cbrt, white, xyz)[1] == 0.0 && XyzToLab(cbrt, white, xyz)[2] == 0.0
  {
  }

  /** With a = b = 0 the result is a multiple of the white point, and no cube root is needed. */
  lemma NeutralIsWhiteMultiple(white: Vector, l: real)
    ensures LabToXyz(white, [l, 0.0, 0.0]) == Scale(YFromL(l), white)
  {
    var f1 := (l + 16.0) / 116.0;
    var lab: Vector := [l, 0.0, 0.0];
    LabToXyzOf(white, lab, f1, f1);
    assert YFromL(l) == FInverse(f1) by { YFromLIsFInverse(l); }
    VectorEq(LabToXyz(white, lab), Scale(YFromL(l), white));
  }
}

/**
 * src/conversion/lab.mjs: the newer Lab module, with a `Lab` record. Its
 * `fromXyz` adds the numeric keys 0, 1 and 2 to the caller's `{x, y, z}`
 * record, leaving `x`, `y` and `z` as they were, and, because line 33 assigns
 * the white point where it should divide by it, ignores the colour it is given.
 * Its `toXyz` computes what the Lab-to-XYZ function of conversion/lab.js
 * computes.
 */
module SrcLab {
  import opened Js
  import opened LinAlg
  import opened Records
  import CieLab = Lab

  /** `Lab(l, a, b)`: lightness and the two opponent axes. */
  datatype Lab = Lab(l: real, a: real, b: real)

  /** The Lab that `fromXyz` returns for any input: the white point measured against itself divided out. */
  function FromXyzAsWritten(cbrt: Cbrt, white: Vector): Lab
  {
    var f0 := CieLab.F(cbrt, white[0]);
    var f1 := CieLab.F(cbrt, white[1]);
    var f2 := CieLab.F(cbrt, white[2]);
    Lab(116.0 * f1 - 16.0, 500.0 * (f0 - f1), 200.0 * (f1 - f2))
  }

  /**
   * `fromXyz(xyz)` as written: each numeric key 0..2 of the argument first
   * receives the white point's component and then `f` of it; the result is
   * read back from those keys. The array `xyz` stands for these three keys,
   * which the loop adds to the record; its fields `x`, `y` and `z` are never
   * written and never read, so the input values never reach the result.
   */
  method FromXyz(cbrt: Cbrt, white: Vector, xyz: array<real>) returns (lab: Lab)
    requires xyz.Length == 3
    modifies xyz
    ensures xyz[..] == [CieLab.F(cbrt, white[0]), CieLab.F(cbrt, white[1]), CieLab.F(cbrt, white[2])]
    ensures lab == FromXyzAsWritten(cbrt, white)
  {
    for i := 0 to 3
      invariant forall j :: 0 <= j < i ==> xyz[j] == CieLab.F(cbrt, white[j])
    {
      xyz[i] := white[i];
      var c := xyz[i];
      xyz[i] := if c > CieLab.Epsilon then cbrt(c) else (CieLab.Kappa * c + 16.0) / 116.0;
    }
    lab := Lab(116.0 * xyz[1] - 16.0, 500.0 * (xyz[0] - xyz[1]), 200.0 * (xyz[1] - xyz[2]));
  }

  /** `fromXyz` as evidently intended: divide by the white point, as conversion/lab.js does. */
  function FromXyzIntended(cbrt: Cbrt, white: Vector, xyz: Xyz): Lab
    requires CieLab.PositiveWhite(white)
  {
    var r := CieLab.XyzToLab(cbrt, white, [xyz.x, xyz.y, xyz.z]);
    Lab(r[0], r[1], r[2])
  }

  /**
   * Black shows the difference: with a unit Y in the white point, the code as
   * written reports lightness 100 for it, the intended conversion 0.
   */
  lemma BlackReadsAsWhite(cbrt: Cbrt, white: Vector)
    requires IsCubeRoot(cbrt) && CieLab.PositiveWhite(white) && white[1] == 1.0
    ensures FromXyzAsWritten(cbrt, white).l == 100.0
    ensures FromXyzIntended(cbrt, white, Xyz(0.0, 0.0, 0.0)).l == 0.0
  {
    CbrtOfCube(cbrt, 1.0);
    assert Cube(1.0) == 1.0;
  }

  /** `toXyz(lab)`: lines 49-59, with `f ** 3` as an exact cube. */
  function ToXyz(white: Vector, lab: Lab): (r: Xyz)
    ensures [r.x, r.y, r.z] == CieLab.LabToXyz(white, [lab.l, lab.a, lab.b])
  {
    var f1 := (lab.l + 16.0) / 116.0;
    var f0 := lab.a / 500.0 + f1;
    var f2 := f1 - lab.b / 200.0;
    var x := if Cube(f0) > CieLab.Epsilon then Cube(f0) else (116.0 * f0 - 16.0) / CieLab.Kappa;
    var y := if lab.l > CieLab.Kappa * CieLab.Epsilon then Cube((lab.l + 16.0) / 116.0) else lab.l / CieLab.Kappa;
    var z := if Cube(f2) > CieLab.Epsilon then Cube(f2) else (116.0 * f2 - 16.0) / CieLab.Kappa;
    var r := Xyz(x * white[0], y * white[1], z * white[2]);
    CieLab.LabToXyzOf(white, [lab.l, lab.a, lab.b], f0, f2);
    assert x == CieLab.FInverse(f0) && y == CieLab.YFromL(lab.l) && z == CieLab.FInverse(f2);
    VectorEq([r.x, r.y, r.z], CieLab.LabToXyz(white, [lab.l, lab.a, lab.b]));
    r
  }

  /** Y switches from the cube to the line at L = 8. */
  lemma YComponent(white: Vector, lab: Lab)
    ensures lab.l > 8.0 ==> ToXyz(white, lab).y == Cube((lab.l + 16.0) / 116.0) * white[1]
    ensures lab.l <= 8.0 ==> ToXyz(white, lab).y == (lab.l / CieLab.Kappa) * white[1]
  {
    CieLab.Constants();
  }

  /** With a = b = 0 the result is a multiple of the white point. */
  lemma NeutralIsWhiteMultiple(white: Vector, l: real)
    ensures var r := ToXyz(white, Lab(l, 0.0, 0.0)); var k := CieLab.YFromL(l);
      r == Xyz(k * white[0], k * white[1], k * white[2])
  {
    CieLab.NeutralIsWhiteMultiple(white, l);
  }

  /** The intended `fromXyz` and `toXyz` undo each other, given a true cube root. */
  lemma IntendedRoundTrip(cbrt: Cbrt, white: Vector, xyz: Xyz, lab: Lab)
    requires IsCubeRoot(cbrt) && CieLab.PositiveWhite(white)
    ensures ToXyz(white, FromXyzIntended(cbrt, white, xyz)) == xyz
    ensures FromXyzIntended(cbrt, white, ToXyz(white, lab)) == lab
  {
    var v: Vector := [xyz.x, xyz.y, xyz.z];
    var m := CieLab.XyzToLab(cbrt, white, v);
    CieLab.XyzRoundTrip(cbrt, white, v);
    VectorEq([m[0], m[1], m[2]], m);
    var w: Vector := [lab.l, lab.a, lab.b];
    CieLab.LabRoundTrip(cbrt, white, w);
    var t := ToXyz(white, lab);
    VectorEq([t.x, t.y, t.z], CieLab.LabToXyz(white, w));
  }
}

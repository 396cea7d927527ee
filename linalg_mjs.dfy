/**
 * src/conversion/linalg.mjs: the second copy of the 3x3 helpers, with
 * constructors for vectors and matrices and products that start from the
 * zero values those constructors build.
 */
module SrcLinAlg {
  import opened LinAlg

  /** `Vector(x, y, z)`: the three coordinates in order. */
  function MakeVector(x: real, y: real, z: real): Vector
  {
    [x, y, z]
  }

  /** `Matrix(m00, ..., m22)`: the nine entries in argument order, row after row. */
  function MakeMatrix(m00: real, m01: real, m02: real,
                      m10: real, m11: real, m12: real,
                      m20: real, m21: real, m22: real): Matrix
  {
    [m00, m01, m02, m10, m11, m12, m20, m21, m22]
  }

  /**
   * The argument `mRC` of `Matrix` is the entry in row R and column C as
   * `mulvec` reads it: applying the matrix to a vector built with `Vector`
   * gives the three row sums.
   */
  lemma MatrixIsRowMajor(m00: real, m01: real, m02: real,
                         m10: real, m11: real, m12: real,
                         m20: real, m21: real, m22: real,
                         x: real, y: real, z: real)
    ensures MulVec(MakeMatrix(m00, m01, m02, m10, m11, m12, m20, m21, m22), MakeVector(x, y, z))
         == MakeVector(m00 * x + m01 * y + m02 * z,
                       m10 * x + m11 * y + m12 * z,
                       m20 * x + m21 * y + m22 * z)
  {
    var m := MakeMatrix(m00, m01, m02, m10, m11, m12, m20, m21, m22);
    var v := MakeVector(x, y, z);
    var o := MulVec(m, v);
    assert o[0] == RowEntry(m, v, 0) && o[1] == RowEntry(m, v, 1) && o[2] == RowEntry(m, v, 2);
    assert o[0] == m00 * x + m01 * y + m02 * z;
    assert o[1] == m10 * x + m11 * y + m12 * z;
    assert o[2] == m20 * x + m21 * y + m22 * z;
  }

  /**
   * `mulmat(a, b)`: starts from `Matrix(0, ..., 0)` and accumulates the
   * row-major product, exactly as conversion/linalg.js does. The arguments
   * are only read.
   */
  method MulMat(a: array<real>, b: array<real>) returns (o: array<real>)
    requires a.Length == 9 && b.Length == 9
    ensures fresh(o) && o.Length == 9
    ensures o[..] == MatMul(a[..], b[..])
  {
    var zero := MakeMatrix(0.0, 0.0, 0.0, 0.0, 0.0, 0.0, 0.0, 0.0, 0.0);
    o := new real[9](i requires 0 <= i < 9 => zero[i]);
    for y := 0 to 3
      invariant forall j :: 0 <= j < 9 ==>
        o[j] == if j < 3 * y then Entry(a[..], b[..], j / 3, j % 3) else 0.0
    {
      for x := 0 to 3
        invariant forall j :: 0 <= j < 9 ==>
          o[j] == if j < 3 * y + x then Entry(a[..], b[..], j / 3, j % 3) else 0.0
      {
        var i := y * 3 + x;
        for z := 0 to 3
          invariant o[i] == Dot(a[..], b[..], y, x, z)
          invariant forall j :: 0 <= j < 9 && j != i ==>
            o[j] == if j < 3 * y + x then Entry(a[..], b[..], j / 3, j % 3) else 0.0
        {
          o[i] := o[i] + a[y * 3 + z] * b[z * 3 + x];
        }
        DotComplete(a[..], b[..], y, x);
        RowMajorIndex(y, x);
      }
    }
    ProductOfEntries(o[..], a[..], b[..]);
  }

  /**
   * `mulvec(m, v)`: starts from `Vector(0, 0, 0)` and accumulates
   * `v[x] * m[3y+x]` into row `y`. The arguments are only read.
   */
  method MulVecMethod(m: array<real>, v: array<real>) returns (o: array<real>)
    requires m.Length == 9 && v.Length == 3
    ensures fresh(o) && o.Length == 3
    ensures o[..] == MulVec(m[..], v[..])
  {
    var zero := MakeVector(0.0, 0.0, 0.0);
    o := new real[3](i requires 0 <= i < 3 => zero[i]);
    for y := 0 to 3
      invariant forall j :: 0 <= j < 3 ==>
        o[j] == if j < y then RowEntry(m[..], v[..], j) else 0.0
    {
      for x := 0 to 3
        invariant o[y] == RowDot(m[..], v[..], y, x)
        invariant forall j :: 0 <= j < 3 && j != y ==>
          o[j] == if j < y then RowEntry(m[..], v[..], j) else 0.0
      {
        o[y] := o[y] + v[x] * m[y * 3 + x];
      }
      RowDotComplete(m[..], v[..], y);
    }
  }
}

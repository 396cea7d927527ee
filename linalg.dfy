/**
 * conversion/linalg.js: 3x3 matrices stored as nine numbers row after row
 * (the file's comments call the layout column-major, but the index
 * arithmetic `y * 3 + x` with `y` the row is row-major), and the two products
 * computed by triple loops that accumulate into a fresh array.
 */
module LinAlg {

  type Matrix = m: seq<real> | |m| == 9 witness [0.0, 0.0, 0.0, 0.0, 0.0, 0.0, 0.0, 0.0, 0.0]

  type Vector = v: seq<real> | |v| == 3 witness [0.0, 0.0, 0.0]

  const Identity: Matrix := [1.0, 0.0, 0.0, 0.0, 1.0, 0.0, 0.0, 0.0, 1.0]

  /** The first `k` terms of `sum_z a[3y+z] * b[3z+x]`, added in the loop's order. */
  function Dot(a: seq<real>, b: seq<real>, y: nat, x: nat, k: nat): real
    requires |a| == 9 && |b| == 9 && y < 3 && x < 3 && k <= 3
  {
    if k == 0 then 0.0 else Dot(a, b, y, x, k - 1) + a[3 * y + k - 1] * b[3 * (k - 1) + x]
  }

  /** The first `k` terms of `sum_x v[x] * m[3y+x]`, added in the loop's order. */
  function RowDot(m: seq<real>, v: seq<real>, y: nat, k: nat): real
    requires |m| == 9 && |v| == 3 && y < 3 && k <= 3
  {
    if k == 0 then 0.0 else RowDot(m, v, y, k - 1) + v[k - 1] * m[3 * y + k - 1]
  }

  /** Row `y` of `a` times column `x` of `b`. */
  function Entry(a: Matrix, b: Matrix, y: nat, x: nat): real
    requires y < 3 && x < 3
  {
    a[3 * y] * b[x] + a[3 * y + 1] * b[3 + x] + a[3 * y + 2] * b[6 + x]
  }

  /** The product `a * b` of two row-major matrices. */
  function MatMul(a: Matrix, b: Matrix): Matrix
  {
    seq(9, i requires 0 <= i < 9 => Entry(a, b, i / 3, i % 3))
  }

  /** Row `y` of `m` times the column vector `v`. */
  function RowEntry(m: Matrix, v: Vector, y: nat): real
    requires y < 3
  {
    m[3 * y] * v[0] + m[3 * y + 1] * v[1] + m[3 * y + 2] * v[2]
  }

  /** The product `m * v` of a row-major matrix and a column vector. */
  function MulVec(m: Matrix, v: Vector): Vector
  {
    seq(3, y requires 0 <= y < 3 => RowEntry(m, v, y))
  }

  /** The loop's running sums end at the entries of the products. */
  lemma DotComplete(a: Matrix, b: Matrix, y: nat, x: nat)
    requires y < 3 && x < 3
    ensures Dot(a, b, y, x, 3) == Entry(a, b, y, x)
  {
    assert Dot(a, b, y, x, 1) == a[3 * y] * b[x];
    assert Dot(a, b, y, x, 2) == a[3 * y] * b[x] + a[3 * y + 1] * b[3 + x];
  }

  lemma RowDotComplete(m: Matrix, v: Vector, y: nat)
    requires y < 3
    ensures RowDot(m, v, y, 3) == RowEntry(m, v, y)
  {
    assert RowDot(m, v, y, 1) == v[0] * m[3 * y];
    assert RowDot(m, v, y, 2) == v[0] * m[3 * y] + v[1] * m[3 * y + 1];
  }

  /** Vectors are equal when their three coordinates are. */
  lemma VectorEq(u: Vector, v: Vector)
    requires u[0] == v[0] && u[1] == v[1] && u[2] == v[2]
    ensures u == v
  {
    forall i | 0 <= i < 3 ensures u[i] == v[i] {
      assert i == 0 || i == 1 || i == 2;
    }
  }

  function Add(u: Vector, v: Vector): Vector { [u[0] + v[0], u[1] + v[1], u[2] + v[2]] }

  function Scale(k: real, v: Vector): Vector { [k * v[0], k * v[1], k * v[2]] }

  /** The identity matrix is neutral on both sides of a product. */
  lemma MatMulIdentity(a: Matrix)
    ensures MatMul(Identity, a) == a
    ensures MatMul(a, Identity) == a
  {
    IdentityLeft(a);
    IdentityRight(a);
  }

  lemma IdentityLeft(a: Matrix)
    ensures MatMul(Identity, a) == a
  {
    var l := MatMul(Identity, a);
    forall i | 0 <= i < 9 ensures l[i] == a[i] {
      var y, x := i / 3, i % 3;
      assert l[i] == Entry(Identity, a, y, x);
      assert Identity[3 * y + y] == 1.0;
    }
  }

  lemma IdentityRight(a: Matrix)
    ensures MatMul(a, Identity) == a
  {
    var r := MatMul(a, Identity);
    forall i | 0 <= i < 9 ensures r[i] == a[i] {
      var y, x := i / 3, i % 3;
      assert r[i] == Entry(a, Identity, y, x);
      assert Identity[3 * x + x] == 1.0;
    }
  }

  lemma MulVecIdentity(v: Vector)
    ensures MulVec(Identity, v) == v
  {
    var o := MulVec(Identity, v);
    assert o[0] == v[0] && o[1] == v[1] && o[2] == v[2];
  }

  lemma RowOfProduct(a: Matrix, b: Matrix, v: Vector, y: nat)
    requires y < 3
    ensures MulVec(MatMul(a, b), v)[y] == MulVec(a, MulVec(b, v))[y]
  {
    var ab, bv := MatMul(a, b), MulVec(b, v);
    var p0, p1, p2 := a[3 * y], a[3 * y + 1], a[3 * y + 2];
    var e0, e1, e2 := Entry(a, b, y, 0), Entry(a, b, y, 1), Entry(a, b, y, 2);
    ProductRow(a, b, y);
    EntriesOfRow(a, b, y, p0, p1, p2);
    MulVecEntries(b, v);
    RowEntryOf(ab, v, y, e0, e1, e2);
    Regroup(e0, e1, e2, p0, p1, p2, b, v, bv);
    RowEntryOf(a, bv, y, p0, p1, p2);
  }

  /** A product written out as the literal of its nine entries, row by row. */
  lemma ProductLiteral(a: Matrix, b: Matrix)
    ensures MatMul(a, b) == [
      Entry(a, b, 0, 0), Entry(a, b, 0, 1), Entry(a, b, 0, 2),
      Entry(a, b, 1, 0), Entry(a, b, 1, 1), Entry(a, b, 1, 2),
      Entry(a, b, 2, 0), Entry(a, b, 2, 1), Entry(a, b, 2, 2)]
  {
    ProductRow(a, b, 0);
    ProductRow(a, b, 1);
    ProductRow(a, b, 2);
  }

  /** Row `y` of a product holds the entries `Entry(a, b, y, x)`. */
  lemma ProductRow(a: Matrix, b: Matrix, y: nat)
    requires y < 3
    ensures MatMul(a, b)[3 * y] == Entry(a, b, y, 0)
    ensures MatMul(a, b)[3 * y + 1] == Entry(a, b, y, 1)
    ensures MatMul(a, b)[3 * y + 2] == Entry(a, b, y, 2)
  {
    if y == 0 {
    } else if y == 1 {
    } else {
    }
  }

  /** The entries of row `y` of a product, for given entries of that row of `a`. */
  lemma EntriesOfRow(a: Matrix, b: Matrix, y: nat, p0: real, p1: real, p2: real)
    requires y < 3 && a[3 * y] == p0 && a[3 * y + 1] == p1 && a[3 * y + 2] == p2
    ensures Entry(a, b, y, 0) == p0 * b[0] + p1 * b[3] + p2 * b[6]
    ensures Entry(a, b, y, 1) == p0 * b[1] + p1 * b[4] + p2 * b[7]
    ensures Entry(a, b, y, 2) == p0 * b[2] + p1 * b[5] + p2 * b[8]
  {
  }

  /** The three coordinates of `m * v`, written out. */
  lemma MulVecEntries(m: Matrix, v: Vector)
    ensures MulVec(m, v)[0] == m[0] * v[0] + m[1] * v[1] + m[2] * v[2]
    ensures MulVec(m, v)[1] == m[3] * v[0] + m[4] * v[1] + m[5] * v[2]
    ensures MulVec(m, v)[2] == m[6] * v[0] + m[7] * v[1] + m[8] * v[2]
  {
  }

  /** Row `y` of `m` times `v`, for given entries of that row. */
  lemma RowEntryOf(m: Matrix, v: Vector, y: nat, p0: real, p1: real, p2: real)
    requires y < 3 && m[3 * y] == p0 && m[3 * y + 1] == p1 && m[3 * y + 2] == p2
    ensures MulVec(m, v)[y] == p0 * v[0] + p1 * v[1] + p2 * v[2]
  {
  }

  /** One row of the associativity of matrix-vector products, over plain numbers. */
  lemma Regroup(e0: real, e1: real, e2: real, p0: real, p1: real, p2: real, b: Matrix, v: Vector, bv: Vector)
    requires e0 == p0 * b[0] + p1 * b[3] + p2 * b[6]
    requires e1 == p0 * b[1] + p1 * b[4] + p2 * b[7]
    requires e2 == p0 * b[2] + p1 * b[5] + p2 * b[8]
    requires bv[0] == b[0] * v[0] + b[1] * v[1] + b[2] * v[2]
    requires bv[1] == b[3] * v[0] + b[4] * v[1] + b[5] * v[2]
    requires bv[2] == b[6] * v[0] + b[7] * v[1] + b[8] * v[2]
    ensures e0 * v[0] + e1 * v[1] + e2 * v[2] == p0 * bv[0] + p1 * bv[1] + p2 * bv[2]
  {
  }

  /**
   * Applying a product matrix is applying its factors one after the other,
   * which is what makes a precomputed product such as XYZ-to-Oklab valid.
   */
  lemma MulVecOfProduct(a: Matrix, b: Matrix, v: Vector)
    ensures MulVec(MatMul(a, b), v) == MulVec(a, MulVec(b, v))
  {
    RowOfProduct(a, b, v, 0);
    RowOfProduct(a, b, v, 1);
    RowOfProduct(a, b, v, 2);
  }

  /** `mulvec(m, .)` preserves sums. */
  lemma MulVecAdditive(m: Matrix, u: Vector, v: Vector)
    ensures MulVec(m, Add(u, v)) == Add(MulVec(m, u), MulVec(m, v))
  {
    var s, su, sv := MulVec(m, Add(u, v)), MulVec(m, u), MulVec(m, v);
    AddRow(m, u, v, 0);
    AddRow(m, u, v, 1);
    AddRow(m, u, v, 2);
    assert s == [su[0] + sv[0], su[1] + sv[1], su[2] + sv[2]];
  }

  /** `mulvec(m, .)` preserves scalar multiples. */
  lemma MulVecHomogeneous(m: Matrix, k: real, v: Vector)
    ensures MulVec(m, Scale(k, v)) == Scale(k, MulVec(m, v))
  {
    var t, sv := MulVec(m, Scale(k, v)), MulVec(m, v);
    ScaleRow(m, k, v, 0);
    ScaleRow(m, k, v, 1);
    ScaleRow(m, k, v, 2);
    assert t[0] == RowEntry(m, Scale(k, v), 0) && sv[0] == RowEntry(m, v, 0);
    assert t[1] == RowEntry(m, Scale(k, v), 1) && sv[1] == RowEntry(m, v, 1);
    assert t[2] == RowEntry(m, Scale(k, v), 2) && sv[2] == RowEntry(m, v, 2);
    assert t[0] == k * sv[0] && t[1] == k * sv[1] && t[2] == k * sv[2];
    ScaleIs(k, sv);
    assert t == [k * sv[0], k * sv[1], k * sv[2]];
  }

  lemma ScaleIs(k: real, w: Vector)
    ensures Scale(k, w) == [k * w[0], k * w[1], k * w[2]]
  {}

  lemma AddRow(m: Matrix, u: Vector, v: Vector, y: nat)
    requires y < 3
    ensures RowEntry(m, Add(u, v), y) == RowEntry(m, u, y) + RowEntry(m, v, y)
  {}

  lemma ScaleRow(m: Matrix, k: real, v: Vector, y: nat)
    requires y < 3
    ensures RowEntry(m, Scale(k, v), y) == k * RowEntry(m, v, y)
  {
    var i := 3 * y;
    assert m[i] * (k * v[0]) == k * (m[i] * v[0]);
    assert m[i + 1] * (k * v[1]) == k * (m[i + 1] * v[1]);
    assert m[i + 2] * (k * v[2]) == k * (m[i + 2] * v[2]);
  }

  /** A right inverse undoes its matrix on every vector. */
  lemma InverseRoundTrip(a: Matrix, b: Matrix, v: Vector)
    requires MatMul(a, b) == Identity
    ensures MulVec(a, MulVec(b, v)) == v
  {
    MulVecOfProduct(a, b, v);
    MulVecIdentity(v);
  }

  /** A product is known once its nine entries are. */
  lemma MatMulOfEntries(a: Matrix, b: Matrix, p: Matrix)
    requires Entry(a, b, 0, 0) == p[0] && Entry(a, b, 0, 1) == p[1] && Entry(a, b, 0, 2) == p[2]
    requires Entry(a, b, 1, 0) == p[3] && Entry(a, b, 1, 1) == p[4] && Entry(a, b, 1, 2) == p[5]
    requires Entry(a, b, 2, 0) == p[6] && Entry(a, b, 2, 1) == p[7] && Entry(a, b, 2, 2) == p[8]
    ensures MatMul(a, b) == p
  {
    var m := MatMul(a, b);
    forall i | 0 <= i < 9 ensures m[i] == p[i] {
      assert m[i] == Entry(a, b, i / 3, i % 3);
    }
  }

  /** Position `3y + x` of a row-major matrix is row `y`, column `x`. */
  lemma RowMajorIndex(y: nat, x: nat)
    requires y < 3 && x < 3
    ensures (3 * y + x) / 3 == y && (3 * y + x) % 3 == x
  {
  }

  /** Nine numbers that are the entries of `a * b`, each in its place, are `a * b`. */
  lemma ProductOfEntries(s: seq<real>, a: Matrix, b: Matrix)
    requires |s| == 9 && forall j :: 0 <= j < 9 ==> s[j] == Entry(a, b, j / 3, j % 3)
    ensures s == MatMul(a, b)
  {
  }

  /** `e` lies within `tol` of `target`. */
  predicate Near(e: real, target: real, tol: real)
  {
    -tol <= e - target <= tol
  }

  /** A product is near the identity once its nine entries are near the identity's. */
  lemma NearIdentityOfEntries(a: Matrix, b: Matrix, tol: real)
    requires Near(Entry(a, b, 0, 0), 1.0, tol) && Near(Entry(a, b, 0, 1), 0.0, tol) && Near(Entry(a, b, 0, 2), 0.0, tol)
    requires Near(Entry(a, b, 1, 0), 0.0, tol) && Near(Entry(a, b, 1, 1), 1.0, tol) && Near(Entry(a, b, 1, 2), 0.0, tol)
    requires Near(Entry(a, b, 2, 0), 0.0, tol) && Near(Entry(a, b, 2, 1), 0.0, tol) && Near(Entry(a, b, 2, 2), 1.0, tol)
    ensures NearIdentity(MatMul(a, b), tol)
  {
    var m := MatMul(a, b);
    forall i | 0 <= i < 9 ensures -tol <= m[i] - Identity[i] <= tol {
      assert m[i] == Entry(a, b, i / 3, i % 3);
    }
  }

  /** The distance of every entry of `p` from the identity is at most `tol`. */
  predicate NearIdentity(p: Matrix, tol: real)
  {
    forall i :: 0 <= i < 9 ==> -tol <= p[i] - Identity[i] <= tol
  }

  /**
   * `mulmat(a, b)`: a fresh nine-element array accumulates, for each entry,
   * the three products of row `y` of `a` with column `x` of `b`. The argument
   * arrays are only read.
   */
  method MulMat(a: array<real>, b: array<real>) returns (o: array<real>)
    requires a.Length == 9 && b.Length == 9
    ensures fresh(o) && o.Length == 9
    ensures o[..] == MatMul(a[..], b[..])
  {
    o := new real[9](_ => 0.0);
    for y := 0 to 3
      invariant forall j :: 0 <= j < 9 ==>
        o[j] == if j < 3 * y then Entry(a[..], b[..], j / 3, j % 3) else 0.0
    {
      for x := 0 to 3
        invariant forall j :: 0 <= j < 9 ==>
          o[j] == if j < 3 * y + x then Entry(a[..], b[..], j / 3, j % 3) else 0.0
      {
        var i := y * 3 + x;
        for z := 0 to 3
          invariant o[i] == Dot(a[..], b[..], y, x, z)
          invariant forall j :: 0 <= j < 9 && j != i ==>
            o[j] == if j < 3 * y + x then Entry(a[..], b[..], j / 3, j % 3) else 0.0
        {
          o[i] := o[i] + a[y * 3 + z] * b[z * 3 + x];
        }
        DotComplete(a[..], b[..], y, x);
        RowMajorIndex(y, x);
      }
    }
    ProductOfEntries(o[..], a[..], b[..]);
  }

  /**
   * `mulvec(m, v)`: a fresh three-element array accumulates `v[x] * m[3y+x]`
   * for each row `y`. The arguments are only read.
   */
  method MulVecMethod(m: array<real>, v: array<real>) returns (o: array<real>)
    requires m.Length == 9 && v.Length == 3
    ensures fresh(o) && o.Length == 3
    ensures o[..] == MulVec(m[..], v[..])
  {
    o := new real[3](_ => 0.0);
    for y := 0 to 3
      invariant forall j :: 0 <= j < 3 ==>
        o[j] == if j < y then RowEntry(m[..], v[..], j) else 0.0
    {
      for x := 0 to 3
        invariant o[y] == RowDot(m[..], v[..], y, x)
        invariant forall j :: 0 <= j < 3 && j != y ==>
          o[j] == if j < y then RowEntry(m[..], v[..], j) else 0.0
      {
        o[y] := o[y] + v[x] * m[y * 3 + x];
      }
      RowDotComplete(m[..], v[..], y);
    }
  }
}

/**
 * src/bezier/index.js: the control points of a bezier mesh, ten numbers per
 * point (anchor, top, bottom, left and right control point, each x and y),
 * stored row by row in one flat buffer, and the resize that copies the points
 * of an old mesh into a fresh buffer for a new width and height.
 *
 * The buffer is an `array<real>`; `Float32Array` rounding is not modelled
 * (every number copied is one the buffer already held). Widths and heights
 * are natural numbers.
 */
module Bezier {
  import opened Js

  /** The numbers stored per control point. */
  const PointSize: nat := 10

  function MinNat(a: nat, b: nat): (m: nat)
    ensures m <= a && m <= b && (m == a || m == b)
  {
    if a <= b then a else b
  }

  /** A buffer of `n` zeros, as `new Float32Array(n)` creates. */
  function Zeros(n: nat): (z: seq<real>)
    ensures |z| == n && forall i :: 0 <= i < n ==> z[i] == 0.0
  {
    seq(n, _ => 0.0)
  }

  /** The length of the buffer of a `width` by `height` mesh. */
  function MeshLength(width: nat, height: nat): nat
  {
    width * height * PointSize
  }

  /** The position of point (x, y) in a mesh `width` points wide, counting row by row. */
  function PointIndex(width: nat, x: nat, y: nat): nat
  {
    y * width + x
  }

  /** The index of the first number of point (x, y) in a mesh `width` points wide. */
  function Cell(width: nat, x: nat, y: nat): nat
  {
    PointIndex(width, x, y) * PointSize
  }

  /** The ten numbers of point (x, y), or nothing when they lie past the end of `a`. */
  function Point(a: seq<real>, width: nat, x: nat, y: nat): (p: seq<real>)
    ensures Cell(width, x, y) + PointSize <= |a| ==> |p| == PointSize
  {
    var i := Cell(width, x, y);
    if i + PointSize <= |a| then a[i..i + PointSize] else []
  }

  /** `createControlPoints(width, height)`: a zero-filled buffer for `width * height` points. */
  method CreateControlPoints(width: nat, height: nat) returns (a: array<real>)
    ensures fresh(a) && a[..] == Zeros(width * height * PointSize)
  {
    a := new real[width * height * PointSize](_ => 0.0);
  }

  /** The number of elements `subarray(begin, end)` keeps of a buffer of length `len`. */
  function CopyLength(len: nat, begin: nat, end: nat): (n: nat)
    ensures n <= end - begin || n == 0
    ensures begin <= len ==> n <= len - begin
  {
    var lo := MinNat(begin, len);
    var hi := MinNat(end, len);
    if lo <= hi then hi - lo else 0
  }

  /** `a.subarray(begin, end)`: both indices clamped to the length of `a`. */
  function Subarray(a: seq<real>, begin: nat, end: nat): (s: seq<real>)
    ensures |s| == CopyLength(|a|, begin, end)
    ensures forall i :: 0 <= i < |s| ==> s[i] == a[begin + i]
  {
    var lo := MinNat(begin, |a|);
    var hi := MinNat(end, |a|);
    if lo <= hi then a[lo..hi] else []
  }

  /**
   * `o.set(src, offset)`: a RangeError when `src` does not fit, otherwise `o`
   * with `src` written from `offset` on.
   */
  function Set(o: seq<real>, src: seq<real>, offset: nat): (r: Option<seq<real>>)
    ensures r.Some? <==> offset + |src| <= |o|
    ensures r.Some? ==> |r.value| == |o|
    ensures r.Some? ==>
      forall i :: 0 <= i < |o| ==> r.value[i] == if offset <= i < offset + |src| then src[i - offset] else o[i]
  {
    if offset + |src| <= |o| then Some(o[..offset] + src + o[offset + |src|..]) else None
  }

  /**
   * Iteration (y, x) of the nested loop: the run of `run` points starting at
   * old point (x, y) written from new point (x, y) on. As written, `run` is
   * the copy width `w`.
   */
  function Step(points: seq<real>, o: seq<real>, oldW: nat, newW: nat, run: nat, y: nat, x: nat): Option<seq<real>>
  {
    var srcStart := PointIndex(oldW, x, y);
    Set(o, Subarray(points, srcStart * PointSize, (srcStart + run) * PointSize), PointIndex(newW, x, y) * PointSize)
  }

  /** Whether iteration (y, x) fits: whether its `set` stays inside a buffer of length `newLen`. */
  predicate Fits(len: nat, newLen: nat, oldW: nat, newW: nat, run: nat, y: nat, x: nat)
  {
    var srcStart := PointIndex(oldW, x, y);
    PointIndex(newW, x, y) * PointSize + CopyLength(len, srcStart * PointSize, (srcStart + run) * PointSize) <= newLen
  }

  /** The first `x` iterations of row `y`, from the buffer `o`. */
  function Row(points: seq<real>, o: seq<real>, oldW: nat, newW: nat, run: nat, y: nat, x: nat): Option<seq<real>>
  {
    if x == 0 then Some(o)
    else match Row(points, o, oldW, newW, run, y, x - 1)
      case None => None
      case Some(p) => Step(points, p, oldW, newW, run, y, x - 1)
  }

  /** The first `y` rows of `w` iterations each, from a zero-filled buffer. */
  function Rows(points: seq<real>, oldW: nat, newW: nat, newH: nat, w: nat, run: nat, y: nat): Option<seq<real>>
  {
    if y == 0 then Some(Zeros(MeshLength(newW, newH)))
    else match Rows(points, oldW, newW, newH, w, run, y - 1)
      case None => None
      case Some(p) => Row(points, p, oldW, newW, run, y - 1, w)
  }

  /** `resizeControlPoints` as written: each iteration copies a run of `w` points; `None` is the RangeError. */
  function Resize(points: seq<real>, oldW: nat, oldH: nat, newW: nat, newH: nat): Option<seq<real>>
  {
    var w := MinNat(oldW, newW);
    Rows(points, oldW, newW, newH, w, w, MinNat(oldH, newH))
  }

  /** The resize as evidently intended: each iteration copies the one point (x, y). */
  function ResizeIntended(points: seq<real>, oldW: nat, oldH: nat, newW: nat, newH: nat): Option<seq<real>>
  {
    Rows(points, oldW, newW, newH, MinNat(oldW, newW), 1, MinNat(oldH, newH))
  }

  /** The outcome of `resizeControlPoints`: the new buffer, or the RangeError `out.set` throws. */
  datatype Resized = Done(out: array<real>) | RangeError

  /** `out.set(src.subarray(lo, hi), offset)` on buffers, one element at a time. */
  method SetRun(out: array<real>, src: array<real>, lo: nat, hi: nat, offset: nat)
    requires out != src && lo <= hi <= src.Length && offset + (hi - lo) <= out.Length
    modifies out
    ensures Set(old(out[..]), src[lo..hi], offset) == Some(out[..])
  {
    ghost var before := out[..];
    for k := 0 to hi - lo
      invariant forall i :: 0 <= i < out.Length ==>
        out[i] == if offset <= i < offset + k then src[lo + i - offset] else before[i]
    {
      out[offset + k] := src[lo + k];
    }
    var r := Set(before, src[lo..hi], offset);
    assert r.Some?;
    assert r.value == out[..] by {
      forall i | 0 <= i < out.Length
        ensures r.value[i] == out[i]
      {
      }
    }
  }

  /**
   * The body of the inner loop: `out.set(points.subarray(srcStart * 10,
   * srcEnd * 10), dstStart * 10)`, reporting the RangeError instead of writing.
   */
  method CopyRun(points: array<real>, out: array<real>, oldW: nat, newW: nat, w: nat, y: nat, x: nat) returns (ok: bool)
    requires out != points
    modifies out
    ensures ok <==> Step(points[..], old(out[..]), oldW, newW, w, y, x).Some?
    ensures ok ==> Step(points[..], old(out[..]), oldW, newW, w, y, x) == Some(out[..])
    ensures !ok ==> out[..] == old(out[..])
  {
    var srcStart := PointIndex(oldW, x, y);
    var srcEnd := srcStart + w;
    var dstStart := PointIndex(newW, x, y);
    var lo := MinNat(srcStart * PointSize, points.Length);
    var hi := MinNat(srcEnd * PointSize, points.Length);
    assert Subarray(points[..], srcStart * PointSize, srcEnd * PointSize) == points[lo..hi];
    if dstStart * PointSize + (hi - lo) > out.Length {
      return false;
    }
    SetRun(out, points, lo, hi, dstStart * PointSize);
    return true;
  }

  /**
   * `resizeControlPoints(points, oldW, oldH, newW, newH)`: the nested loop
   * over the rows and columns both meshes share, each iteration setting a run
   * of `w` points from old point (x, y) at new point (x, y).
   */
  method ResizeControlPoints(points: array<real>, oldW: nat, oldH: nat, newW: nat, newH: nat) returns (r: Resized)
    ensures r.RangeError? <==> Resize(points[..], oldW, oldH, newW, newH).None?
    ensures r.Done? ==> fresh(r.out) && Resize(points[..], oldW, oldH, newW, newH) == Some(r.out[..])
  {
    var out := CreateControlPoints(newW, newH);
    var w := MinNat(oldW, newW);
    var h := MinNat(oldH, newH);
    for y: nat := 0 to h
      invariant Rows(points[..], oldW, newW, newH, w, w, y) == Some(out[..])
    {
      ghost var start := out[..];
      for x: nat := 0 to w
        invariant Row(points[..], start, oldW, newW, w, y, x) == Some(out[..])
      {
        var ok := CopyRun(points, out, oldW, newW, w, y, x);
        if !ok {
          RowStaysFailed(points[..], start, oldW, newW, w, y, x + 1, w);
          RowsStayFailed(points[..], oldW, newW, newH, w, w, y + 1, h);
          return RangeError;
        }
      }
    }
    return Done(out);
  }

  /** A failed row stays failed through its later iterations. */
  lemma {:induction false} RowStaysFailed(points: seq<real>, o: seq<real>, oldW: nat, newW: nat, run: nat, y: nat, x: nat, x': nat)
    requires x <= x' && Row(points, o, oldW, newW, run, y, x).None?
    ensures Row(points, o, oldW, newW, run, y, x').None?
    decreases x' - x
  {
    if x < x' {
      RowStaysFailed(points, o, oldW, newW, run, y, x + 1, x');
    }
  }

  /** A failed resize stays failed through its later rows. */
  lemma {:induction false} RowsStayFailed(points: seq<real>, oldW: nat, newW: nat, newH: nat, w: nat, run: nat, y: nat, y': nat)
    requires y <= y' && Rows(points, oldW, newW, newH, w, run, y).None?
    ensures Rows(points, oldW, newW, newH, w, run, y').None?
    decreases y' - y
  {
    if y < y' {
      RowsStayFailed(points, oldW, newW, newH, w, run, y + 1, y');
    }
  }

  /** A step succeeds exactly when it fits, and keeps the length of the buffer. */
  lemma StepFits(points: seq<real>, o: seq<real>, oldW: nat, newW: nat, run: nat, y: nat, x: nat)
    ensures Step(points, o, oldW, newW, run, y, x).Some? <==> Fits(|points|, |o|, oldW, newW, run, y, x)
    ensures Step(points, o, oldW, newW, run, y, x).Some? ==> |Step(points, o, oldW, newW, run, y, x).value| == |o|
  {
  }

  /** The first `x` iterations of a row fail exactly when one of them does not fit. */
  lemma {:induction false} RowOutcome(points: seq<real>, o: seq<real>, oldW: nat, newW: nat, run: nat, y: nat, x: nat)
    ensures Row(points, o, oldW, newW, run, y, x).None? <==>
      exists x': nat :: x' < x && !Fits(|points|, |o|, oldW, newW, run, y, x')
    ensures Row(points, o, oldW, newW, run, y, x).Some? ==> |Row(points, o, oldW, newW, run, y, x).value| == |o|
  {
    if x > 0 {
      var x0: nat := x - 1;
      RowOutcome(points, o, oldW, newW, run, y, x0);
      var r := Row(points, o, oldW, newW, run, y, x0);
      if r.Some? {
        StepFits(points, r.value, oldW, newW, run, y, x0);
      }
    }
  }

  /**
   * The first `y` rows fail exactly when one of their iterations does not fit
   * in the new buffer, and otherwise give a buffer of the new length.
   */
  lemma {:induction false} RowsOutcome(points: seq<real>, oldW: nat, newW: nat, newH: nat, w: nat, run: nat, y: nat)
    ensures Rows(points, oldW, newW, newH, w, run, y).None? <==>
      exists y': nat, x': nat :: y' < y && x' < w && !Fits(|points|, MeshLength(newW, newH), oldW, newW, run, y', x')
    ensures Rows(points, oldW, newW, newH, w, run, y).Some? ==>
      |Rows(points, oldW, newW, newH, w, run, y).value| == MeshLength(newW, newH)
  {
    var len := MeshLength(newW, newH);
    if y > 0 {
      var y0: nat := y - 1;
      RowsOutcome(points, oldW, newW, newH, w, run, y0);
      var r := Rows(points, oldW, newW, newH, w, run, y0);
      if r.None? {
        var y': nat, x': nat :| y' < y0 && x' < w && !Fits(|points|, len, oldW, newW, run, y', x');
        assert y' < y;
      } else {
        RowOutcome(points, r.value, oldW, newW, run, y0, w);
        if Row(points, r.value, oldW, newW, run, y0, w).None? {
          var x': nat :| x' < w && !Fits(|points|, len, oldW, newW, run, y0, x');
          assert y0 < y;
        } else {
          forall y': nat, x': nat | y' < y && x' < w
            ensures Fits(|points|, len, oldW, newW, run, y', x')
          {
            if y' == y0 {
              assert !(x' < w && !Fits(|points|, |r.value|, oldW, newW, run, y0, x'));
            }
          }
        }
      }
    }
  }

  /**
   * `resizeControlPoints` throws exactly when some iteration's `out.set`
   * overruns the new buffer; when it returns, the buffer has room for the new
   * mesh's points.
   */
  lemma ResizeThrowsIff(points: seq<real>, oldW: nat, oldH: nat, newW: nat, newH: nat)
    ensures Resize(points, oldW, oldH, newW, newH).None? <==>
      exists y: nat, x: nat :: y < MinNat(oldH, newH) && x < MinNat(oldW, newW) &&
        !Fits(|points|, MeshLength(newW, newH), oldW, newW, MinNat(oldW, newW), y, x)
    ensures Resize(points, oldW, oldH, newW, newH).Some? ==>
      |Resize(points, oldW, oldH, newW, newH).value| == MeshLength(newW, newH)
  {
    RowsOutcome(points, oldW, newW, newH, MinNat(oldW, newW), MinNat(oldW, newW), MinNat(oldH, newH));
  }

  /** `a <= b` scales by any natural factor. */
  lemma MulMono(a: nat, b: nat, c: nat)
    requires a <= b
    ensures a * c <= b * c
  {
    assert b * c == a * c + (b - a) * c;
  }

  /** A strict inequality between multiples of `c` holds between the factors. */
  lemma MulCancel(a: nat, b: nat, c: nat)
    requires a * c < b * c
    ensures a < b
  {
    if b <= a {
      MulMono(b, a, c);
    }
  }

  /** A point of a `width` by `height` mesh lies inside its buffer. */
  lemma CellInRange(width: nat, height: nat, x: nat, y: nat)
    requires x < width && y < height
    ensures Cell(width, x, y) + PointSize <= width * height * PointSize
  {
    MulMono(y + 1, height, width);
    assert PointIndex(width, x, y) + 1 <= (y + 1) * width;
  }

  /** In a mesh `width` points wide, a point of an earlier row or column comes first. */
  lemma CellBefore(width: nat, x': nat, y': nat, x: nat, y: nat)
    requires x' < width && (y' < y || (y' == y && x' < x))
    ensures PointIndex(width, x', y') < PointIndex(width, x, y)
  {
    if y' < y {
      MulMono(y' + 1, y, width);
      assert PointIndex(width, x', y') < (y' + 1) * width;
    }
  }

  /** Distinct points of a mesh `width` points wide have distinct positions. */
  lemma CellsDistinct(width: nat, x': nat, y': nat, x: nat, y: nat)
    requires x' < width && x < width && (x', y') != (x, y)
    ensures PointIndex(width, x', y') != PointIndex(width, x, y)
  {
    if y' < y || (y' == y && x' < x) {
      CellBefore(width, x', y', x, y);
    } else {
      CellBefore(width, x, y, x', y');
    }
  }

  /** When growing in both directions, every iteration's `set` stays inside the new buffer. */
  lemma GrowingFits(len: nat, oldW: nat, oldH: nat, newW: nat, newH: nat, y: nat, x: nat)
    requires len == oldW * oldH * PointSize && oldW <= newW && oldH <= newH
    requires x < oldW && y < oldH
    ensures Fits(len, MeshLength(newW, newH), oldW, newW, oldW, y, x)
  {
    var srcStart := PointIndex(oldW, x, y);
    CellInRange(oldW, oldH, x, y);
    var n := CopyLength(len, srcStart * PointSize, (srcStart + oldW) * PointSize);
    assert n <= len - srcStart * PointSize;
    // What the run can copy ends at the end of the old buffer, old point (0, oldH).
    assert srcStart + (oldH - y) * oldW - x == oldW * oldH by {
      assert (oldH - y) * oldW + y * oldW == oldH * oldW;
    }
    MulMono(oldW, newW, oldH - y);
    MulMono(oldH, newH, newW);
    assert (y * newW + (oldH - y) * newW) == oldH * newW;
    assert PointIndex(newW, x, y) + (oldH - y) * oldW - x <= newW * newH;
  }

  /** When the new mesh is at least as wide and as tall, `resizeControlPoints` never throws. */
  lemma GrowingNeverThrows(points: seq<real>, oldW: nat, oldH: nat, newW: nat, newH: nat)
    requires |points| == oldW * oldH * PointSize && oldW <= newW && oldH <= newH
    ensures Resize(points, oldW, oldH, newW, newH).Some?
  {
    ResizeThrowsIff(points, oldW, oldH, newW, newH);
    forall y: nat, x: nat | y < oldH && x < oldW
      ensures Fits(|points|, MeshLength(newW, newH), oldW, newW, oldW, y, x)
    {
      GrowingFits(|points|, oldW, oldH, newW, newH, y, x);
    }
  }

  /** Shrinking a 3 by 3 mesh to 2 by 2 throws: the last iteration's run overruns the buffer. */
  lemma ShrinkingThrows(points: seq<real>)
    requires |points| == 3 * 3 * PointSize
    ensures Resize(points, 3, 3, 2, 2).None?
  {
    ResizeThrowsIff(points, 3, 3, 2, 2);
    // Iteration (1, 1) sets old points 4 and 5 from new point 3: 50 numbers into 40.
    assert CopyLength(90, 40, 60) == 20;
    assert !Fits(90, 40, 3, 2, 2, 1, 1);
  }

  /** Two buffers agree on point (x, y) when they agree everywhere before `bound`, past the point. */
  lemma PointUnchanged(p: seq<real>, q: seq<real>, width: nat, x: nat, y: nat, bound: nat)
    requires |p| == |q| && Cell(width, x, y) + PointSize <= bound
    requires forall j :: 0 <= j < bound && j < |p| ==> q[j] == p[j]
    ensures Point(q, width, x, y) == Point(p, width, x, y)
  {
    var i := Cell(width, x, y);
    if i + PointSize <= |p| {
      assert q[i..i + PointSize] == p[i..i + PointSize];
    }
  }

  /** Two buffers agree on point (x, y) when they agree outside `[lo, hi)` and the point lies outside it. */
  lemma PointUntouched(p: seq<real>, q: seq<real>, width: nat, x: nat, y: nat, lo: nat, hi: nat)
    requires |p| == |q|
    requires Cell(width, x, y) + PointSize <= lo || hi <= Cell(width, x, y)
    requires forall j :: 0 <= j < |p| && !(lo <= j < hi) ==> q[j] == p[j]
    ensures Point(q, width, x, y) == Point(p, width, x, y)
  {
    var i := Cell(width, x, y);
    if i + PointSize <= |p| {
      assert q[i..i + PointSize] == p[i..i + PointSize];
    }
  }

  /**
   * Iteration (y, x) with a run of at least one point leaves every number
   * before new point (x, y) alone and writes old point (x, y) there.
   */
  lemma StepWritesPoint(points: seq<real>, p: seq<real>, oldW: nat, oldH: nat, newW: nat, run: nat, y: nat, x: nat)
    requires |points| == oldW * oldH * PointSize && x < oldW && y < oldH && 1 <= run
    requires Step(points, p, oldW, newW, run, y, x).Some?
    ensures var q := Step(points, p, oldW, newW, run, y, x).value;
      |q| == |p| && (forall j :: 0 <= j < Cell(newW, x, y) && j < |p| ==> q[j] == p[j]) &&
      Point(q, newW, x, y) == Point(points, oldW, x, y) && |Point(q, newW, x, y)| == PointSize
  {
    var srcStart := PointIndex(oldW, x, y);
    var src := Subarray(points, srcStart * PointSize, (srcStart + run) * PointSize);
    CellInRange(oldW, oldH, x, y);
    SetWrites(p, src, PointIndex(newW, x, y) * PointSize, PointSize);
    SubarrayPrefix(points, srcStart * PointSize, (srcStart + run) * PointSize, PointSize);
  }

  /**
   * A `set` that fits writes `src` from `offset` on and leaves everything
   * before `offset` alone; in particular its first `n` numbers land at `offset`.
   */
  lemma SetWrites(o: seq<real>, src: seq<real>, offset: nat, n: nat)
    requires Set(o, src, offset).Some? && n <= |src|
    ensures var q := Set(o, src, offset).value;
      offset + n <= |q| && q[offset..offset + n] == src[..n] && forall j :: 0 <= j < offset ==> q[j] == o[j]
  {
    var q := Set(o, src, offset).value;
    assert q[offset..offset + n] == src[..n] by {
      forall t | 0 <= t < n
        ensures q[offset + t] == src[t]
      {
      }
    }
  }

  /** The first `n` numbers of `a.subarray(begin, end)` are those of `a` from `begin`. */
  lemma SubarrayPrefix(a: seq<real>, begin: nat, end: nat, n: nat)
    requires 0 < n <= |Subarray(a, begin, end)|
    ensures begin + n <= |a| && Subarray(a, begin, end)[..n] == a[begin..begin + n]
  {
  }

  /** Points (x', y') of the rows before `y`, and of row `y` before column `x`, have been copied. */
  ghost predicate Copied(points: seq<real>, q: seq<real>, oldW: nat, newW: nat, w: nat, y: nat, x: nat)
  {
    forall y': nat, x': nat :: ((y' < y && x' < w) || (y' == y && x' < x)) ==>
      Point(q, newW, x', y') == Point(points, oldW, x', y') && |Point(q, newW, x', y')| == PointSize
  }

  /** Each iteration of a row copies its point and keeps the points copied before it. */
  lemma {:induction false} RowCopies(points: seq<real>, p: seq<real>, oldW: nat, oldH: nat, newW: nat, w: nat,
    run: nat, y: nat, x: nat)
    requires |points| == oldW * oldH * PointSize && w <= oldW && w <= newW && y < oldH && 1 <= run
    requires x <= w && Copied(points, p, oldW, newW, w, y, 0)
    requires Row(points, p, oldW, newW, run, y, x).Some?
    ensures Copied(points, Row(points, p, oldW, newW, run, y, x).value, oldW, newW, w, y, x)
    ensures |Row(points, p, oldW, newW, run, y, x).value| == |p|
  {
    if x > 0 {
      var x0: nat := x - 1;
      var r := Row(points, p, oldW, newW, run, y, x0).value;
      RowCopies(points, p, oldW, oldH, newW, w, run, y, x0);
      var q := Row(points, p, oldW, newW, run, y, x).value;
      StepWritesPoint(points, r, oldW, oldH, newW, run, y, x0);
      forall y': nat, x': nat | (y' < y && x' < w) || (y' == y && x' < x)
        ensures Point(q, newW, x', y') == Point(points, oldW, x', y') && |Point(q, newW, x', y')| == PointSize
      {
        if (y', x') != (y, x0) {
          CellBefore(newW, x', y', x0, y);
          PointUnchanged(r, q, newW, x', y', Cell(newW, x0, y));
        }
      }
    }
  }

  /** Every completed row has copied its `w` points. */
  lemma {:induction false} RowsCopy(points: seq<real>, oldW: nat, oldH: nat, newW: nat, newH: nat, w: nat,
    run: nat, y: nat)
    requires |points| == oldW * oldH * PointSize && w <= oldW && w <= newW && y <= oldH && (w == 0 || 1 <= run)
    requires Rows(points, oldW, newW, newH, w, run, y).Some?
    ensures Copied(points, Rows(points, oldW, newW, newH, w, run, y).value, oldW, newW, w, y, 0)
  {
    if y > 0 {
      var y0: nat := y - 1;
      RowsCopy(points, oldW, oldH, newW, newH, w, run, y0);
      var p := Rows(points, oldW, newW, newH, w, run, y0).value;
      var q := Rows(points, oldW, newW, newH, w, run, y).value;
      if w == 0 {
        assert q == p;
      } else {
        RowCopies(points, p, oldW, oldH, newW, w, run, y0, w);
      }
    }
  }

  /**
   * When `resizeControlPoints` returns, every point both meshes share holds
   * the ten numbers of the same point of the old mesh.
   */
  lemma ResizeKeepsSharedPoints(points: seq<real>, oldW: nat, oldH: nat, newW: nat, newH: nat)
    requires |points| == oldW * oldH * PointSize
    requires Resize(points, oldW, oldH, newW, newH).Some?
    ensures var o := Resize(points, oldW, oldH, newW, newH).value;
      forall y: nat, x: nat :: y < MinNat(oldH, newH) && x < MinNat(oldW, newW) ==>
        Point(o, newW, x, y) == Point(points, oldW, x, y) && |Point(o, newW, x, y)| == PointSize
  {
    var w := MinNat(oldW, newW);
    RowsCopy(points, oldW, oldH, newW, newH, w, w, MinNat(oldH, newH));
  }

  /** Every number of a `width` by `height` buffer belongs to one of its points. */
  lemma Locate(width: nat, height: nat, i: nat) returns (x: nat, y: nat)
    requires i < width * height * PointSize
    ensures x < width && y < height && Cell(width, x, y) <= i < Cell(width, x, y) + PointSize
  {
    var n := i / PointSize;
    assert n < width * height;
    x, y := n % width, n / width;
    assert PointIndex(width, x, y) == n;
    assert y * width <= n;
    MulCancel(y, height, width);
  }

  /** Two buffers of a `width` by `height` mesh that agree on every point are equal. */
  lemma PointsDetermine(o: seq<real>, points: seq<real>, width: nat, height: nat)
    requires |o| == |points| == width * height * PointSize
    requires forall y: nat, x: nat :: y < height && x < width ==> Point(o, width, x, y) == Point(points, width, x, y)
    ensures o == points
  {
    forall i | 0 <= i < |points|
      ensures o[i] == points[i]
    {
      var x, y := Locate(width, height, i);
      var c := Cell(width, x, y);
      assert Point(o, width, x, y) == Point(points, width, x, y);
      assert o[c..c + PointSize] == points[c..c + PointSize];
      assert o[c..c + PointSize][i - c] == points[c..c + PointSize][i - c];
    }
  }

  /** Resizing to the same size returns an exact copy of the buffer. */
  lemma SameSizeCopies(points: seq<real>, width: nat, height: nat)
    requires |points| == width * height * PointSize
    ensures Resize(points, width, height, width, height) == Some(points)
  {
    GrowingNeverThrows(points, width, height, width, height);
    ResizeThrowsIff(points, width, height, width, height);
    ResizeKeepsSharedPoints(points, width, height, width, height);
    PointsDetermine(Resize(points, width, height, width, height).value, points, width, height);
  }

  /** The first row of the 2 by 2 to 3 by 3 resize copies old points 1 and 2 to new points 1 and 2. */
  lemma SpillFirstRow(points: seq<real>) returns (s2: seq<real>)
    requires |points| == 2 * 2 * PointSize
    ensures Rows(points, 2, 3, 3, 2, 2, 1) == Some(s2)
    ensures |s2| == 90 && s2[20..30] == points[20..30]
  {
    var z := Zeros(90);
    var s1 := Set(z, points[0..20], 0).value;
    assert Step(points, z, 2, 3, 2, 0, 0) == Some(s1);
    s2 := Set(s1, points[10..30], 10).value;
    assert Step(points, s1, 2, 3, 2, 0, 1) == Some(s2);
    assert Row(points, z, 2, 3, 2, 0, 1) == Some(s1);
    assert Row(points, z, 2, 3, 2, 0, 2) == Some(s2);
    assert s2[20..30] == points[20..30] by {
      forall j | 20 <= j < 30
        ensures s2[j] == points[j]
      {
        assert s2[j] == points[10..30][j - 10];
      }
    }
  }

  /** The second row of the 2 by 2 to 3 by 3 resize writes from new point 3 on. */
  lemma SpillSecondRow(points: seq<real>, s2: seq<real>)
    requires |points| == 2 * 2 * PointSize && |s2| == 90
    ensures Row(points, s2, 2, 3, 2, 1, 2).Some?
    ensures |Row(points, s2, 2, 3, 2, 1, 2).value| == 90
    ensures Row(points, s2, 2, 3, 2, 1, 2).value[20..30] == s2[20..30]
  {
    var s3 := Set(s2, points[20..40], 30).value;
    assert PointIndex(2, 0, 1) == 2 && PointIndex(3, 0, 1) == 3;
    assert Subarray(points, 20, 40) == points[20..40];
    assert Step(points, s2, 2, 3, 2, 1, 0) == Some(s3);
    var s4 := Set(s3, points[30..40], 40).value;
    assert PointIndex(2, 1, 1) == 3 && PointIndex(3, 1, 1) == 4;
    assert Subarray(points, 30, 50) == points[30..40];
    assert Step(points, s3, 2, 3, 2, 1, 1) == Some(s4);
    assert Row(points, s2, 2, 3, 2, 1, 1) == Some(s3);
    assert Row(points, s2, 2, 3, 2, 1, 2) == Some(s4);
    assert s4[20..30] == s2[20..30];
  }

  /**
   * Growing 2 by 2 to 3 by 3 puts old point (0, 1) at new point (2, 0): the
   * run copied by iteration (0, 1) spills into the new column.
   */
  lemma RunSpillsIntoNewColumn(points: seq<real>)
    requires |points| == 2 * 2 * PointSize
    ensures Resize(points, 2, 2, 3, 3).Some?
    ensures Point(Resize(points, 2, 2, 3, 3).value, 3, 2, 0) == Point(points, 2, 0, 1) == points[20..30]
  {
    var s2 := SpillFirstRow(points);
    SpillSecondRow(points, s2);
    var o := Row(points, s2, 2, 3, 2, 1, 2).value;
    assert Resize(points, 2, 2, 3, 3) == Some(o);
    assert Cell(3, 2, 0) == 20 && Cell(2, 0, 1) == 20;
  }

  /** With runs of one point, every iteration's `set` stays inside the new buffer. */
  lemma SinglePointFits(len: nat, oldW: nat, newW: nat, newH: nat, y: nat, x: nat)
    requires x < newW && y < newH
    ensures Fits(len, MeshLength(newW, newH), oldW, newW, 1, y, x)
  {
    CellInRange(newW, newH, x, y);
  }

  /** The intended resize never throws, whatever the sizes. */
  lemma IntendedNeverThrows(points: seq<real>, oldW: nat, oldH: nat, newW: nat, newH: nat)
    ensures ResizeIntended(points, oldW, oldH, newW, newH).Some?
    ensures |ResizeIntended(points, oldW, oldH, newW, newH).value| == MeshLength(newW, newH)
  {
    var w, h := MinNat(oldW, newW), MinNat(oldH, newH);
    RowsOutcome(points, oldW, newW, newH, w, 1, h);
    forall y: nat, x: nat | y < h && x < w
      ensures Fits(|points|, MeshLength(newW, newH), oldW, newW, 1, y, x)
    {
      SinglePointFits(|points|, oldW, newW, newH, y, x);
    }
  }

  /** The intended resize copies every point both meshes share. */
  lemma IntendedKeepsSharedPoints(points: seq<real>, oldW: nat, oldH: nat, newW: nat, newH: nat)
    requires |points| == oldW * oldH * PointSize
    ensures var o := ResizeIntended(points, oldW, oldH, newW, newH);
      o.Some? && forall y: nat, x: nat :: y < MinNat(oldH, newH) && x < MinNat(oldW, newW) ==>
        Point(o.value, newW, x, y) == Point(points, oldW, x, y) && |Point(o.value, newW, x, y)| == PointSize
  {
    IntendedNeverThrows(points, oldW, oldH, newW, newH);
    RowsCopy(points, oldW, oldH, newW, newH, MinNat(oldW, newW), 1, MinNat(oldH, newH));
  }

  /** Iteration (y, x) with a run of one point writes nothing outside new point (x, y). */
  lemma SinglePointStep(points: seq<real>, p: seq<real>, oldW: nat, newW: nat, y: nat, x: nat)
    requires Step(points, p, oldW, newW, 1, y, x).Some?
    ensures var q := Step(points, p, oldW, newW, 1, y, x).value;
      |q| == |p| && forall j :: 0 <= j < |p| && !(Cell(newW, x, y) <= j < Cell(newW, x, y) + PointSize) ==> q[j] == p[j]
  {
  }

  /** The points (x', y') of the new mesh not yet visited are still zero. */
  ghost predicate Blank(q: seq<real>, newW: nat, newH: nat, w: nat, y: nat, x: nat)
  {
    forall y': nat, x': nat :: y' < newH && x' < newW && !((y' < y && x' < w) || (y' == y && x' < x)) ==>
      Point(q, newW, x', y') == Zeros(PointSize)
  }

  /** With runs of one point, a row leaves the points it has not visited alone. */
  lemma {:induction false} RowKeepsBlank(points: seq<real>, p: seq<real>, oldW: nat, newW: nat, newH: nat, w: nat,
    y: nat, x: nat)
    requires w <= newW && x <= w && Blank(p, newW, newH, w, y, 0)
    requires Row(points, p, oldW, newW, 1, y, x).Some?
    ensures Blank(Row(points, p, oldW, newW, 1, y, x).value, newW, newH, w, y, x)
  {
    if x > 0 {
      var x0: nat := x - 1;
      RowKeepsBlank(points, p, oldW, newW, newH, w, y, x0);
      var r := Row(points, p, oldW, newW, 1, y, x0).value;
      var q := Row(points, p, oldW, newW, 1, y, x).value;
      SinglePointStep(points, r, oldW, newW, y, x0);
      var c := Cell(newW, x0, y);
      forall y': nat, x': nat | y' < newH && x' < newW && !((y' < y && x' < w) || (y' == y && x' < x))
        ensures Point(q, newW, x', y') == Zeros(PointSize)
      {
        CellsDistinct(newW, x', y', x0, y);
        PointUntouched(r, q, newW, x', y', c, c + PointSize);
      }
    }
  }

  /** A zero-filled buffer is blank at every point. */
  lemma ZerosBlank(newW: nat, newH: nat, w: nat)
    ensures Blank(Zeros(MeshLength(newW, newH)), newW, newH, w, 0, 0)
  {
    var z := Zeros(MeshLength(newW, newH));
    forall y': nat, x': nat | y' < newH && x' < newW
      ensures Point(z, newW, x', y') == Zeros(PointSize)
    {
      CellInRange(newW, newH, x', y');
    }
  }

  /** With runs of one point, the completed rows leave every other point at zero. */
  lemma {:induction false} RowsKeepBlank(points: seq<real>, oldW: nat, newW: nat, newH: nat, w: nat, y: nat)
    requires w <= newW && Rows(points, oldW, newW, newH, w, 1, y).Some?
    ensures Blank(Rows(points, oldW, newW, newH, w, 1, y).value, newW, newH, w, y, 0)
  {
    if y == 0 {
      ZerosBlank(newW, newH, w);
    } else {
      var y0: nat := y - 1;
      RowsKeepBlank(points, oldW, newW, newH, w, y0);
      var p := Rows(points, oldW, newW, newH, w, 1, y0).value;
      RowKeepsBlank(points, p, oldW, newW, newH, w, y0, w);
      BlankNextRow(Rows(points, oldW, newW, newH, w, 1, y).value, newW, newH, w, y0);
    }
  }

  /** Being blank past the end of row `y` is being blank from the start of row `y + 1`. */
  lemma BlankNextRow(q: seq<real>, newW: nat, newH: nat, w: nat, y: nat)
    requires Blank(q, newW, newH, w, y, w)
    ensures Blank(q, newW, newH, w, y + 1, 0)
  {
    forall y': nat, x': nat | y' < newH && x' < newW && !(y' < y + 1 && x' < w)
      ensures Point(q, newW, x', y') == Zeros(PointSize)
    {
      assert !((y' < y && x' < w) || (y' == y && x' < w));
    }
  }

  /** The intended resize leaves every point outside the shared rows and columns at zero. */
  lemma IntendedZeroFills(points: seq<real>, oldW: nat, oldH: nat, newW: nat, newH: nat)
    ensures var o := ResizeIntended(points, oldW, oldH, newW, newH);
      o.Some? && forall y: nat, x: nat :: y < newH && x < newW && !(y < MinNat(oldH, newH) && x < MinNat(oldW, newW)) ==>
        Point(o.value, newW, x, y) == Zeros(PointSize)
  {
    IntendedNeverThrows(points, oldW, oldH, newW, newH);
    RowsKeepBlank(points, oldW, newW, newH, MinNat(oldW, newW), MinNat(oldH, newH));
  }

  /** The intended resize to the same size returns an exact copy of the buffer. */
  lemma IntendedSameSizeCopies(points: seq<real>, width: nat, height: nat)
    requires |points| == width * height * PointSize
    ensures ResizeIntended(points, width, height, width, height) == Some(points)
  {
    IntendedKeepsSharedPoints(points, width, height, width, height);
    IntendedNeverThrows(points, width, height, width, height);
    PointsDetermine(ResizeIntended(points, width, height, width, height).value, points, width, height);
  }

  /**
   * On the two examples where the code as written goes wrong, the intended
   * resize leaves new point (2, 0) of a grown 2 by 2 mesh at zero and shrinks
   * a 3 by 3 mesh without throwing.
   */
  lemma IntendedExamples(small: seq<real>, large: seq<real>)
    requires |small| == 2 * 2 * PointSize && |large| == 3 * 3 * PointSize
    ensures ResizeIntended(small, 2, 2, 3, 3).Some?
    ensures Point(ResizeIntended(small, 2, 2, 3, 3).value, 3, 2, 0) == Zeros(PointSize)
    ensures ResizeIntended(large, 3, 3, 2, 2).Some?
  {
    IntendedZeroFills(small, 2, 2, 3, 3);
    IntendedNeverThrows(large, 3, 3, 2, 2);
  }
}

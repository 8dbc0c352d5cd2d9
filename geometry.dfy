/** Geometric primitives of the ruler-and-compass engine: points, the value
    of a line (its two defining endpoints), circles, and the host's square
    root, which the engine uses for every distance it measures. */
module Geometry {
  import opened Algebra

  /** A point of the drawing plane. Points are never changed once made. */
  datatype Point = Point(x: real, y: real)

  /** The value of a line: the two points it passes through. The engine
      draws the finite segment between them and treats the line as infinite
      when it intersects it. */
  datatype Seg = Seg(p0: Point, p1: Point)

  /** A circle: centre (x, y) and radius r. Circles are never changed. */
  datatype Circle = Circle(x: real, y: real, r: real)

  /** The value of one object of the construction. */
  datatype Figure = LineFig(seg: Seg) | CircleFig(circle: Circle)

  /** Below this absolute determinant two lines count as parallel (1E-6). */
  const ParallelEps: real := 0.000001
  /** Below this discriminant a line touches a circle in one point (1E-12). */
  const TangentEps: real := 0.000000000001
  /** Below this half-chord two circles touch in one point (1E-3). */
  const CircleTangentEps: real := 0.001

  /** `sqrt(v)`, under a name of its own: the facts IsSqrt states are
      attached to this name, so a proof meets them only where it asks for
      them (through SqrtOf). */
  function Root(sqrt: real -> real, v: real): real
  {
    sqrt(v)
  }

  /** The host's square root. Nothing is known of it but that it returns
      the non-negative root of a non-negative argument. */
  ghost predicate IsSqrt(sqrt: real -> real)
  {
    forall v: real {:trigger Root(sqrt, v)} :: 0.0 <= v ==> 0.0 <= Root(sqrt, v) && Root(sqrt, v) * Root(sqrt, v) == v
  }

  /** The square root of one non-negative number. */
  lemma SqrtOf(sqrt: real -> real, v: real)
    requires IsSqrt(sqrt) && 0.0 <= v
    ensures 0.0 <= sqrt(v) && sqrt(v) * sqrt(v) == v
  {
    assert 0.0 <= Root(sqrt, v);
  }

  function Abs(v: real): real
  {
    if v < 0.0 then -v else v
  }

  /** Squared distance from p to (x, y), as `Point.distance` forms it. */
  function SqDist(p: Point, x: real, y: real): real
  {
    Norm2(p.x - x, p.y - y)
  }

  /** Squared length of a line's defining segment: `d0` of `Line.update`
      and `d2` of the line-circle case. */
  function SqLen(s: Seg): real
  {
    Norm2(s.p1.x - s.p0.x, s.p1.y - s.p0.y)
  }

  /** A line is proper when its defining segment has positive length, so
      the divisions by its squared length are defined. */
  predicate Proper(s: Seg)
  {
    0.0 < SqLen(s)
  }

  /** A squared length is never negative. */
  lemma Norm2NonNegative(a: real, b: real)
    ensures 0.0 <= Norm2(a, b)
  {
    SquareNonNegative(a);
    SquareNonNegative(b);
  }

  /** Only the zero vector has squared length zero. */
  lemma Norm2Zero(a: real, b: real)
    ensures Norm2(a, b) == 0.0 <==> a == 0.0 && b == 0.0
  {
    if Norm2(a, b) == 0.0 {
      SquareNonNegative(a);
      SquareNonNegative(b);
      SumZero(a * a, b * b);
      SquareZero(a);
      SquareZero(b);
    }
  }

  /** Reversing a vector keeps its squared length. */
  lemma Norm2Negate(a: real, b: real)
    ensures Norm2(-a, -b) == Norm2(a, b)
  {
  }

  /** `Point.distance`: the distance from p to (x, y). */
  function Distance(sqrt: real -> real, p: Point, x: real, y: real): (d: real)
    requires IsSqrt(sqrt)
    ensures 0.0 <= d && d * d == SqDist(p, x, y)
  {
    Norm2NonNegative(p.x - x, p.y - y);
    SqrtOf(sqrt, SqDist(p, x, y));
    sqrt(SqDist(p, x, y))
  }

  /** The square root is determined by its two facts. */
  lemma SqrtUnique(sqrt: real -> real, v: real, s: real)
    requires IsSqrt(sqrt)
    requires 0.0 <= s && s * s == v
    ensures sqrt(v) == s
  {
    SqrtOf(sqrt, v);
    SquareRootUnique(sqrt(v), s, v);
  }

  /** The square root is strictly increasing, so comparing distances is
      comparing squared distances. */
  lemma SqrtLess(sqrt: real -> real, u: real, v: real)
    requires IsSqrt(sqrt)
    requires 0.0 <= u && 0.0 <= v
    ensures sqrt(u) < sqrt(v) <==> u < v
  {
    SqrtOf(sqrt, u);
    SqrtOf(sqrt, v);
    SquareMonotone(sqrt(u), sqrt(v));
  }

  /** Distances compare as squared distances do. */
  lemma DistanceLess(sqrt: real -> real, p: Point, q: Point, x: real, y: real)
    requires IsSqrt(sqrt)
    ensures Distance(sqrt, p, x, y) < Distance(sqrt, q, x, y) <==> SqDist(p, x, y) < SqDist(q, x, y)
  {
    Norm2NonNegative(p.x - x, p.y - y);
    Norm2NonNegative(q.x - x, q.y - y);
    SqrtLess(sqrt, SqDist(p, x, y), SqDist(q, x, y));
  }
}

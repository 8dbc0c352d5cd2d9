/** Proofs about the circle-circle case of `Circle.intersect`: when it
    finds nothing, and that the points it finds lie on both circles.

    The first half works on plain coordinates: centres (ax, ay) and
    (ex, ey), radii ra and rb, and d, `xd`, `yd` as the source forms them.
    The second half instantiates it for two `Circle`s. */
module Meets {
  import opened Algebra
  import opened Geometry
  import opened Figures

  /** `xd` solves 2 d xd = d^2 - rb^2 + ra^2. */
  lemma AlongAtEquation(d: real, ra: real, rb: real)
    requires d != 0.0
    ensures AlongAt(d, ra, rb) * (2.0 * d) == d * d - rb * rb + ra * ra
  {
  }

  /** A point written in the frame of the centre line: `v` is 1/d, `xd`
      the distance along the line and `t` the signed distance across it. */
  function MeetAt(ax: real, ay: real, v: real, dx: real, dy: real, xd: real, t: real): Point
  {
    Point(ax + v * (t * dy + xd * dx), ay + v * (xd * dy - t * dx))
  }

  /** The base plus an offset of `t` is the point at `t` in that frame. */
  lemma BaseOffsetAt(ax: real, ay: real, dx: real, dy: real, d: real, xd: real, t: real)
    requires d != 0.0
    ensures d * (1.0 / d) == 1.0
    ensures Point(BaseAt(ax, ay, dx, dy, d, xd).x + OffsetAt(dx, dy, d, t).x,
                  BaseAt(ax, ay, dx, dy, d, xd).y + OffsetAt(dx, dy, d, t).y)
         == MeetAt(ax, ay, 1.0 / d, dx, dy, xd, t)
  {
    ChordFrame(dx, dy, d, xd, t, xd * dx / d + t * dy / d, xd * dy / d - t * dx / d);
  }

  /** Subtracting the offset is adding the opposite one. */
  lemma OffsetNegate(dx: real, dy: real, d: real, t: real)
    requires d != 0.0
    ensures OffsetAt(dx, dy, d, -t).x == -OffsetAt(dx, dy, d, t).x
    ensures OffsetAt(dx, dy, d, -t).y == -OffsetAt(dx, dy, d, t).y
  {
  }

  /** A point at `xd` along and `t` across, with `xd` on the radical line and
      t*t == ra^2 - xd^2, lies on both circles. */
  lemma MeetAtOnBoth(ax: real, ay: real, ex: real, ey: real, d: real, v: real, ra: real, rb: real, xd: real, t: real)
    requires d * d == Norm2(ex - ax, ey - ay) && d * v == 1.0
    requires xd * (2.0 * d) == d * d - rb * rb + ra * ra
    requires t * t == ra * ra - xd * xd
    ensures Norm2(MeetAt(ax, ay, v, ex - ax, ey - ay, xd, t).x - ax, MeetAt(ax, ay, v, ex - ax, ey - ay, xd, t).y - ay)
         == ra * ra
    ensures Norm2(MeetAt(ax, ay, v, ex - ax, ey - ay, xd, t).x - ex, MeetAt(ax, ay, v, ex - ax, ey - ay, xd, t).y - ey)
         == rb * rb
  {
    var m := MeetAt(ax, ay, v, ex - ax, ey - ay, xd, t);
    var qx, qy := m.x - ax, m.y - ay;
    assert qx == v * (t * (ey - ay) + xd * (ex - ax)) && qy == v * (xd * (ey - ay) - t * (ex - ax));
    ChordBoth(ex - ax, ey - ay, d, v, ra, rb, xd, t, qx, qy);
    assert m.x - ex == qx - (ex - ax) && m.y - ey == qy - (ey - ay);
  }

  /** The values the circle-circle case works from: d is the distance
      between the centres (ax, ay) and (ex, ey), and t*t is yd2. */
  predicate ChordSetup(ax: real, ay: real, ex: real, ey: real, d: real, ra: real, rb: real, t: real)
  {
    d * d == Norm2(ex - ax, ey - ay) && d != 0.0 &&
    t * t == ra * ra - AlongAt(d, ra, rb) * AlongAt(d, ra, rb)
  }

  /** The base plus the offset found for centres (ax, ay) and (ex, ey) at
      distance d lies on both circles. */
  lemma PlusAtOnBoth(ax: real, ay: real, ex: real, ey: real, d: real, ra: real, rb: real, t: real, p: Point)
    requires ChordSetup(ax, ay, ex, ey, d, ra, rb, t)
    requires p == Point(BaseAt(ax, ay, ex - ax, ey - ay, d, AlongAt(d, ra, rb)).x + OffsetAt(ex - ax, ey - ay, d, t).x,
                        BaseAt(ax, ay, ex - ax, ey - ay, d, AlongAt(d, ra, rb)).y + OffsetAt(ex - ax, ey - ay, d, t).y)
    ensures Norm2(p.x - ax, p.y - ay) == ra * ra
    ensures Norm2(p.x - ex, p.y - ey) == rb * rb
  {
    AlongAtEquation(d, ra, rb);
    BaseOffsetAt(ax, ay, ex - ax, ey - ay, d, AlongAt(d, ra, rb), t);
    MeetAtOnBoth(ax, ay, ex, ey, d, 1.0 / d, ra, rb, AlongAt(d, ra, rb), t);
  }

  /** The base minus the offset lies on both circles. */
  lemma MinusAtOnBoth(ax: real, ay: real, ex: real, ey: real, d: real, ra: real, rb: real, t: real, p: Point)
    requires ChordSetup(ax, ay, ex, ey, d, ra, rb, t)
    requires p == Point(BaseAt(ax, ay, ex - ax, ey - ay, d, AlongAt(d, ra, rb)).x - OffsetAt(ex - ax, ey - ay, d, t).x,
                        BaseAt(ax, ay, ex - ax, ey - ay, d, AlongAt(d, ra, rb)).y - OffsetAt(ex - ax, ey - ay, d, t).y)
    ensures Norm2(p.x - ax, p.y - ay) == ra * ra
    ensures Norm2(p.x - ex, p.y - ey) == rb * rb
  {
    assert (-t) * (-t) == t * t;
    OffsetNegate(ex - ax, ey - ay, d, t);
    PlusAtOnBoth(ax, ay, ex, ey, d, ra, rb, -t, p);
  }

  /** The solver-level form of `BaseAtDistances`, for any `xd`: the base
      lies at distance |xd| from the first centre and |d - xd| from the
      second. */
  lemma BaseAtAnyDistances(ax: real, ay: real, ex: real, ey: real, d: real, xd: real)
    requires d * d == Norm2(ex - ax, ey - ay) && d != 0.0
    ensures Norm2(BaseAt(ax, ay, ex - ax, ey - ay, d, xd).x - ax, BaseAt(ax, ay, ex - ax, ey - ay, d, xd).y - ay)
         == xd * xd
    ensures Norm2(BaseAt(ax, ay, ex - ax, ey - ay, d, xd).x - ex, BaseAt(ax, ay, ex - ax, ey - ay, d, xd).y - ey)
         == (d - xd) * (d - xd)
  {
    var dx, dy := ex - ax, ey - ay;
    BaseOffsetAt(ax, ay, dx, dy, d, xd, 0.0);
    var m := MeetAt(ax, ay, 1.0 / d, dx, dy, xd, 0.0);
    var qx, qy := m.x - ax, m.y - ay;
    assert qx == (1.0 / d) * (0.0 * dy + xd * dx) && qy == (1.0 / d) * (xd * dy - 0.0 * dx);
    ChordNorm(dx, dy, d, 1.0 / d, xd, xd, 0.0, qx, qy);
    ChordAlong(dx, dy, d, 1.0 / d, xd, 0.0, qx, qy);
    ShiftedNorm(qx, qy, dx, dy);
    assert m.x - ex == qx - dx && m.y - ey == qy - dy;
    SquareOfDifference(d, xd);
  }

  /** The base alone: it lies at distance xd from the first centre and at
      distance d - xd from the second. */
  lemma BaseAtDistances(ax: real, ay: real, ex: real, ey: real, d: real, ra: real, rb: real)
    requires d * d == Norm2(ex - ax, ey - ay) && d != 0.0
    ensures Norm2(BaseAt(ax, ay, ex - ax, ey - ay, d, AlongAt(d, ra, rb)).x - ax,
                  BaseAt(ax, ay, ex - ax, ey - ay, d, AlongAt(d, ra, rb)).y - ay)
         == AlongAt(d, ra, rb) * AlongAt(d, ra, rb)
    ensures Norm2(BaseAt(ax, ay, ex - ax, ey - ay, d, AlongAt(d, ra, rb)).x - ex,
                  BaseAt(ax, ay, ex - ax, ey - ay, d, AlongAt(d, ra, rb)).y - ey)
         == (d - AlongAt(d, ra, rb)) * (d - AlongAt(d, ra, rb))
  {
    BaseAtAnyDistances(ax, ay, ex, ey, d, AlongAt(d, ra, rb));
  }

  /* ---------------------------------------------------------------- */
  /* The same facts for two circles                                    */
  /* ---------------------------------------------------------------- */

  /** The centre distance vanishes exactly for concentric circles. */
  lemma CentreDistanceZero(sqrt: real -> real, a: Circle, b: Circle)
    requires IsSqrt(sqrt)
    ensures CentreDistance(sqrt, a, b) == 0.0 <==> Concentric(a, b)
    ensures 0.0 <= CentreDistance(sqrt, a, b)
    ensures CentreDistance(sqrt, a, b) * CentreDistance(sqrt, a, b) == Norm2(b.x - a.x, b.y - a.y)
  {
    Norm2NonNegative(b.x - a.x, b.y - a.y);
    Norm2Zero(b.x - a.x, b.y - a.y);
    SqrtOf(sqrt, Norm2(b.x - a.x, b.y - a.y));
    if Concentric(a, b) {
      SqrtUnique(sqrt, Norm2(b.x - a.x, b.y - a.y), 0.0);
    }
  }

  /** For non-concentric circles with non-negative radii, the case finds
      nothing exactly when the circles lie apart or one lies strictly
      inside the other. */
  lemma CircleCircleMisses(sqrt: real -> real, a: Circle, b: Circle)
    requires IsSqrt(sqrt) && !Concentric(a, b) && 0.0 <= a.r && 0.0 <= b.r
    ensures var d := CentreDistance(sqrt, a, b);
            CircleCircle(sqrt, a, b) == [] <==> (a.r + b.r < d || d < a.r - b.r || d < b.r - a.r)
  {
    CentreDistanceZero(sqrt, a, b);
    HalfChordMisses(sqrt, a, b);
  }

  /** `yd2` is negative exactly when the circles are apart or nested. */
  lemma HalfChordMisses(sqrt: real -> real, a: Circle, b: Circle)
    requires IsSqrt(sqrt) && !Concentric(a, b) && 0.0 <= a.r && 0.0 <= b.r
    ensures CentreDistance(sqrt, a, b) != 0.0
    ensures var d := CentreDistance(sqrt, a, b);
            HalfChordSq(sqrt, a, b) < 0.0 <==> (a.r + b.r < d || d < a.r - b.r || d < b.r - a.r)
  {
    CentreDistanceZero(sqrt, a, b);
    var d := CentreDistance(sqrt, a, b);
    AlongAtEquation(d, a.r, b.r);
    CirclesMiss(d, a.r, b.r, Along(sqrt, a, b));
  }

  /** The values the circle-circle case computes meet `ChordSetup`. */
  lemma MeetSetup(sqrt: real -> real, a: Circle, b: Circle)
    requires IsSqrt(sqrt) && CentreDistance(sqrt, a, b) != 0.0 && 0.0 <= HalfChordSq(sqrt, a, b)
    ensures ChordSetup(a.x, a.y, b.x, b.y, CentreDistance(sqrt, a, b), a.r, b.r, sqrt(HalfChordSq(sqrt, a, b)))
  {
    CentreDistanceZero(sqrt, a, b);
    SqrtOf(sqrt, HalfChordSq(sqrt, a, b));
  }

  /** The two points found, written out from their parts. */
  lemma MeetsFromParts(sqrt: real -> real, a: Circle, b: Circle)
    requires CentreDistance(sqrt, a, b) != 0.0
    ensures var d := CentreDistance(sqrt, a, b);
            var base := BaseAt(a.x, a.y, b.x - a.x, b.y - a.y, d, AlongAt(d, a.r, b.r));
            var off := OffsetAt(b.x - a.x, b.y - a.y, d, sqrt(HalfChordSq(sqrt, a, b)));
            MeetPlus(sqrt, a, b) == Point(base.x + off.x, base.y + off.y) &&
            MeetMinus(sqrt, a, b) == Point(base.x - off.x, base.y - off.y)
  {
  }

  /** The first point found lies on both circles. */
  lemma MeetPlusOnBoth(sqrt: real -> real, a: Circle, b: Circle)
    requires IsSqrt(sqrt) && CentreDistance(sqrt, a, b) != 0.0 && 0.0 <= HalfChordSq(sqrt, a, b)
    ensures SqDist(MeetPlus(sqrt, a, b), a.x, a.y) == a.r * a.r
    ensures SqDist(MeetPlus(sqrt, a, b), b.x, b.y) == b.r * b.r
  {
    MeetSetup(sqrt, a, b);
    MeetsFromParts(sqrt, a, b);
    PlusAtOnBoth(a.x, a.y, b.x, b.y, CentreDistance(sqrt, a, b), a.r, b.r, sqrt(HalfChordSq(sqrt, a, b)), MeetPlus(sqrt, a, b));
  }

  /** The second point found lies on both circles. */
  lemma MeetMinusOnBoth(sqrt: real -> real, a: Circle, b: Circle)
    requires IsSqrt(sqrt) && CentreDistance(sqrt, a, b) != 0.0 && 0.0 <= HalfChordSq(sqrt, a, b)
    ensures SqDist(MeetMinus(sqrt, a, b), a.x, a.y) == a.r * a.r
    ensures SqDist(MeetMinus(sqrt, a, b), b.x, b.y) == b.r * b.r
  {
    MeetSetup(sqrt, a, b);
    MeetsFromParts(sqrt, a, b);
    MinusAtOnBoth(a.x, a.y, b.x, b.y, CentreDistance(sqrt, a, b), a.r, b.r, sqrt(HalfChordSq(sqrt, a, b)), MeetMinus(sqrt, a, b));
  }

  /** A tangency found between two circles: the single point returned is
      the base, the half chord `yd2` is below 1E-6, and the base lies inside
      both circles by exactly `yd2` on the squared scale. */
  lemma CircleCircleTangent(sqrt: real -> real, a: Circle, b: Circle)
    requires IsSqrt(sqrt) && |CircleCircle(sqrt, a, b)| == 1
    ensures CentreDistance(sqrt, a, b) != 0.0
    ensures CircleCircle(sqrt, a, b) == [Base(sqrt, a, b)]
    ensures 0.0 <= HalfChordSq(sqrt, a, b) < CircleTangentEps * CircleTangentEps
    ensures SqDist(Base(sqrt, a, b), a.x, a.y) == a.r * a.r - HalfChordSq(sqrt, a, b)
    ensures SqDist(Base(sqrt, a, b), b.x, b.y) == b.r * b.r - HalfChordSq(sqrt, a, b)
    ensures Cross(Base(sqrt, a, b).x - a.x, Base(sqrt, a, b).y - a.y, b.x - a.x, b.y - a.y) == 0.0
  {
    var d, xd, yd2 := CentreDistance(sqrt, a, b), Along(sqrt, a, b), HalfChordSq(sqrt, a, b);
    CentreDistanceZero(sqrt, a, b);
    AlongAtEquation(d, a.r, b.r);
    SqrtOf(sqrt, yd2);
    SquareMonotone(sqrt(yd2), CircleTangentEps);
    BaseAtDistances(a.x, a.y, b.x, b.y, d, a.r, b.r);
    BaseOnCentreLine(a.x, a.y, b.x - a.x, b.y - a.y, d, xd);
  }

  /** The base lies on the line of centres. */
  lemma BaseOnCentreLine(ax: real, ay: real, dx: real, dy: real, d: real, xd: real)
    requires d != 0.0
    ensures Cross(BaseAt(ax, ay, dx, dy, d, xd).x - ax, BaseAt(ax, ay, dx, dy, d, xd).y - ay, dx, dy) == 0.0
  {
    var k := xd / d;
    assert BaseAt(ax, ay, dx, dy, d, xd).x - ax == k * dx;
    assert BaseAt(ax, ay, dx, dy, d, xd).y - ay == k * dy;
    assert (k * dx) * dy - dx * (k * dy) == 0.0;
  }

  /** The circle-circle case finds one point exactly when yd2 is
      non-negative and below (1E-3)^2: the test on sqrt(yd2) is a test on
      yd2 itself. */
  lemma CircleCircleSingle(sqrt: real -> real, a: Circle, b: Circle)
    requires IsSqrt(sqrt) && !Concentric(a, b)
    ensures CentreDistance(sqrt, a, b) != 0.0
    ensures |CircleCircle(sqrt, a, b)| == 1
            <==> 0.0 <= HalfChordSq(sqrt, a, b) < CircleTangentEps * CircleTangentEps
  {
    CentreDistanceZero(sqrt, a, b);
    var yd2 := HalfChordSq(sqrt, a, b);
    if 0.0 <= yd2 {
      SqrtOf(sqrt, yd2);
      SquareMonotone(sqrt(yd2), CircleTangentEps);
    }
  }

  /** A crossing found between two circles: the two points returned are
      base + offset and base - offset, each lies on both circles, and the
      base is their midpoint. */
  lemma CircleCircleSecant(sqrt: real -> real, a: Circle, b: Circle)
    requires IsSqrt(sqrt) && |CircleCircle(sqrt, a, b)| == 2
    ensures CentreDistance(sqrt, a, b) != 0.0
    ensures var r := CircleCircle(sqrt, a, b);
            && r == [MeetPlus(sqrt, a, b), MeetMinus(sqrt, a, b)]
            && (forall i :: 0 <= i < 2 ==> SqDist(r[i], a.x, a.y) == a.r * a.r && SqDist(r[i], b.x, b.y) == b.r * b.r)
            && Base(sqrt, a, b) == Point((r[0].x + r[1].x) / 2.0, (r[0].y + r[1].y) / 2.0)
  {
    MeetPlusOnBoth(sqrt, a, b);
    MeetMinusOnBoth(sqrt, a, b);
  }
}

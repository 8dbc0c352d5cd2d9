/** Proofs about the line-circle case of `Line.intersect`: the secant
    points lie on the line and on the circle, the foot is the nearest point
    of the line to the centre, and the sign of `root` decides whether the
    line meets the circle.

    The first half works on plain coordinates: the line through (sx, sy)
    and (tx, ty), the centre (cx, cy), with d2 and det as the source forms
    them. The second half instantiates it for a `Seg` and a `Circle`. */
module Secants {
  import opened Algebra
  import opened Geometry
  import opened Figures

  /** The point u*(det*dy + q*dx, q*dy - det*dx) from the centre. With
      u = 1/d2 it is the foot for q = 0 and the two secant points for
      q = +-sqrt(root). */
  function PlacedAt(cx: real, cy: real, u: real, det: real, dx: real, dy: real, q: real): Point
  {
    Point(cx + u * (det * dy + q * dx), cy + u * (q * dy - det * dx))
  }

  /** The foot, with u = 1/d2, is the placed point with q = 0. */
  lemma FootAtScaled(cx: real, cy: real, det: real, dx: real, dy: real, d2: real)
    requires d2 != 0.0
    ensures d2 * (1.0 / d2) == 1.0
    ensures FootAt(cx, cy, det, dx, dy, d2) == PlacedAt(cx, cy, 1.0 / d2, det, dx, dy, 0.0)
  {
    FootFrame(d2, det, dx, dy, det * dy / d2, -(det * dx / d2));
  }

  /** The foot plus the half chord is the placed point with q. */
  lemma ChordAtPlus(cx: real, cy: real, det: real, dx: real, dy: real, d2: real, q: real)
    requires d2 != 0.0
    ensures Point(FootAt(cx, cy, det, dx, dy, d2).x + HalfChordAt(dx, dy, d2, q).x,
                  FootAt(cx, cy, det, dx, dy, d2).y + HalfChordAt(dx, dy, d2, q).y)
         == PlacedAt(cx, cy, 1.0 / d2, det, dx, dy, q)
  {
    ShiftX(cx, d2, det, dx, dy, q, cx + det * dy / d2, dx / d2 * q);
    ShiftY(cy, d2, det, dx, dy, q, cy - det * dx / d2, dy / d2 * q);
  }

  /** The foot minus the half chord is the placed point with -q. */
  lemma ChordAtMinus(cx: real, cy: real, det: real, dx: real, dy: real, d2: real, q: real)
    requires d2 != 0.0
    ensures Point(FootAt(cx, cy, det, dx, dy, d2).x - HalfChordAt(dx, dy, d2, q).x,
                  FootAt(cx, cy, det, dx, dy, d2).y - HalfChordAt(dx, dy, d2, q).y)
         == PlacedAt(cx, cy, 1.0 / d2, det, dx, dy, -q)
  {
    ShiftBackX(cx, d2, det, dx, dy, q, cx + det * dy / d2, dx / d2 * q);
    ShiftBackY(cy, d2, det, dx, dy, q, cy - det * dx / d2, dy / d2 * q);
  }

  /** Every placed point lies on the line. */
  lemma PlacedAtOnLine(sx: real, sy: real, tx: real, ty: real, cx: real, cy: real,
                       d2: real, det: real, u: real, q: real)
    requires d2 == Norm2(tx - sx, ty - sy) && d2 * u == 1.0
    requires det == Cross(sx - cx, sy - cy, tx - cx, ty - cy)
    ensures Cross(PlacedAt(cx, cy, u, det, tx - sx, ty - sy, q).x - sx,
                  PlacedAt(cx, cy, u, det, tx - sx, ty - sy, q).y - sy, tx - sx, ty - sy) == 0.0
  {
    OnLineAt(sx - cx, sy - cy, tx - sx, ty - sy, d2, u, det, q,
             u * (det * (ty - sy) + q * (tx - sx)), u * (q * (ty - sy) - det * (tx - sx)));
  }

  /** A placed point lies on the circle of radius r when q*q is
      r^2 d2 - det^2. */
  lemma PlacedAtOnCircle(dx: real, dy: real, cx: real, cy: real, r: real,
                         d2: real, det: real, u: real, q: real)
    requires d2 == Norm2(dx, dy) && d2 * u == 1.0
    requires q * q == r * r * d2 - det * det
    ensures Norm2(PlacedAt(cx, cy, u, det, dx, dy, q).x - cx, PlacedAt(cx, cy, u, det, dx, dy, q).y - cy) == r * r
  {
    SecantNorm(dx, dy, d2, u, det, r, q * q, q, u * (det * dy + q * dx), u * (q * dy - det * dx));
  }

  /** |foot - centre|^2 * d2 == det^2. */
  lemma FootAtNorm(cx: real, cy: real, det: real, dx: real, dy: real, d2: real)
    requires d2 == Norm2(dx, dy) && d2 != 0.0
    ensures Norm2(FootAt(cx, cy, det, dx, dy, d2).x - cx, FootAt(cx, cy, det, dx, dy, d2).y - cy) * d2 == det * det
  {
    FootAtScaled(cx, cy, det, dx, dy, d2);
    FootNorm(dx, dy, d2, 1.0 / d2, det, FootAt(cx, cy, det, dx, dy, d2).x - cx, FootAt(cx, cy, det, dx, dy, d2).y - cy);
  }

  /** No point (qx, qy) of the line is nearer the centre than the foot. */
  lemma FootAtClosest(sx: real, sy: real, tx: real, ty: real, cx: real, cy: real,
                      d2: real, det: real, qx: real, qy: real)
    requires d2 == Norm2(tx - sx, ty - sy) && d2 != 0.0
    requires det == Cross(sx - cx, sy - cy, tx - cx, ty - cy)
    requires Cross(qx - sx, qy - sy, tx - sx, ty - sy) == 0.0
    ensures Norm2(FootAt(cx, cy, det, tx - sx, ty - sy, d2).x - cx, FootAt(cx, cy, det, tx - sx, ty - sy, d2).y - cy)
         <= Norm2(qx - cx, qy - cy)
  {
    var f := FootAt(cx, cy, det, tx - sx, ty - sy, d2);
    FootAtClosestParts(sx, sy, tx, ty, cx, cy, d2, det, qx, qy);
    FootClosest(sx - cx, sy - cy, tx - sx, ty - sy, d2, 1.0 / d2, det, f.x - cx, f.y - cy, qx - cx, qy - cy);
  }

  /** The facts `FootClosest` needs, in the terms of `FootAtClosest`. */
  lemma FootAtClosestParts(sx: real, sy: real, tx: real, ty: real, cx: real, cy: real,
                           d2: real, det: real, qx: real, qy: real)
    requires d2 == Norm2(tx - sx, ty - sy) && d2 != 0.0
    requires det == Cross(sx - cx, sy - cy, tx - cx, ty - cy)
    requires Cross(qx - sx, qy - sy, tx - sx, ty - sy) == 0.0
    ensures var f := FootAt(cx, cy, det, tx - sx, ty - sy, d2);
            FootSetup(sx - cx, sy - cy, tx - sx, ty - sy, d2, 1.0 / d2, det, f.x - cx, f.y - cy, qx - cx, qy - cy)
  {
    var dx, dy := tx - sx, ty - sy;
    var f := FootAt(cx, cy, det, dx, dy, d2);
    FootOffset(d2, det, dx, dy, f.x - cx, f.y - cy);
    CrossFrom(sx - cx, sy - cy, dx, dy, det);
    OnLineFromCentre(qx, qy, sx, sy, cx, cy, dx, dy);
  }

  /** The line condition for q, with q and the first endpoint taken
      relative to the centre. */
  lemma OnLineFromCentre(qx: real, qy: real, sx: real, sy: real, cx: real, cy: real, dx: real, dy: real)
    requires Cross(qx - sx, qy - sy, dx, dy) == 0.0
    ensures ((qx - cx) - (sx - cx)) * dy == ((qy - cy) - (sy - cy)) * dx
  {
    assert (qx - cx) - (sx - cx) == qx - sx && (qy - cy) - (sy - cy) == qy - sy;
  }

  /** det taken from the centre, with the second endpoint written as the
      first plus the direction. */
  lemma CrossFrom(x0: real, y0: real, dx: real, dy: real, det: real)
    requires det == Cross(x0, y0, x0 + dx, y0 + dy)
    ensures det == x0 * dy - dx * y0
  {
  }

  /** The foot lies on the line. */
  lemma FootAtOnLine(sx: real, sy: real, tx: real, ty: real, cx: real, cy: real, d2: real, det: real)
    requires d2 == Norm2(tx - sx, ty - sy) && d2 != 0.0
    requires det == Cross(sx - cx, sy - cy, tx - cx, ty - cy)
    ensures Cross(FootAt(cx, cy, det, tx - sx, ty - sy, d2).x - sx,
                  FootAt(cx, cy, det, tx - sx, ty - sy, d2).y - sy, tx - sx, ty - sy) == 0.0
  {
    FootAtScaled(cx, cy, det, tx - sx, ty - sy, d2);
    PlacedAtOnLine(sx, sy, tx, ty, cx, cy, d2, det, 1.0 / d2, 0.0);
  }

  /** The foot plus the half chord lies on the line. */
  lemma PlusAtOnLine(sx: real, sy: real, tx: real, ty: real, cx: real, cy: real, d2: real, det: real, q: real)
    requires d2 == Norm2(tx - sx, ty - sy) && d2 != 0.0
    requires det == Cross(sx - cx, sy - cy, tx - cx, ty - cy)
    ensures Cross(FootAt(cx, cy, det, tx - sx, ty - sy, d2).x + HalfChordAt(tx - sx, ty - sy, d2, q).x - sx,
                  FootAt(cx, cy, det, tx - sx, ty - sy, d2).y + HalfChordAt(tx - sx, ty - sy, d2, q).y - sy,
                  tx - sx, ty - sy) == 0.0
  {
    ChordAtPlus(cx, cy, det, tx - sx, ty - sy, d2, q);
    FootAtScaled(cx, cy, det, tx - sx, ty - sy, d2);
    PlacedAtOnLine(sx, sy, tx, ty, cx, cy, d2, det, 1.0 / d2, q);
  }

  /** The foot minus the half chord lies on the line. */
  lemma MinusAtOnLine(sx: real, sy: real, tx: real, ty: real, cx: real, cy: real, d2: real, det: real, q: real)
    requires d2 == Norm2(tx - sx, ty - sy) && d2 != 0.0
    requires det == Cross(sx - cx, sy - cy, tx - cx, ty - cy)
    ensures Cross(FootAt(cx, cy, det, tx - sx, ty - sy, d2).x - HalfChordAt(tx - sx, ty - sy, d2, q).x - sx,
                  FootAt(cx, cy, det, tx - sx, ty - sy, d2).y - HalfChordAt(tx - sx, ty - sy, d2, q).y - sy,
                  tx - sx, ty - sy) == 0.0
  {
    ChordAtMinus(cx, cy, det, tx - sx, ty - sy, d2, q);
    FootAtScaled(cx, cy, det, tx - sx, ty - sy, d2);
    PlacedAtOnLine(sx, sy, tx, ty, cx, cy, d2, det, 1.0 / d2, -q);
  }

  /** The foot plus the half chord lies on the circle when q*q is
      r^2 d2 - det^2. */
  lemma PlusAtOnCircle(dx: real, dy: real, cx: real, cy: real, r: real, d2: real, det: real, q: real)
    requires d2 == Norm2(dx, dy) && d2 != 0.0
    requires q * q == r * r * d2 - det * det
    ensures Norm2(FootAt(cx, cy, det, dx, dy, d2).x + HalfChordAt(dx, dy, d2, q).x - cx,
                  FootAt(cx, cy, det, dx, dy, d2).y + HalfChordAt(dx, dy, d2, q).y - cy) == r * r
  {
    ChordAtPlus(cx, cy, det, dx, dy, d2, q);
    FootAtScaled(cx, cy, det, dx, dy, d2);
    PlacedAtOnCircle(dx, dy, cx, cy, r, d2, det, 1.0 / d2, q);
  }

  /** The foot minus the half chord lies on the circle when q*q is
      r^2 d2 - det^2. */
  lemma MinusAtOnCircle(dx: real, dy: real, cx: real, cy: real, r: real, d2: real, det: real, q: real)
    requires d2 == Norm2(dx, dy) && d2 != 0.0
    requires q * q == r * r * d2 - det * det
    ensures Norm2(FootAt(cx, cy, det, dx, dy, d2).x - HalfChordAt(dx, dy, d2, q).x - cx,
                  FootAt(cx, cy, det, dx, dy, d2).y - HalfChordAt(dx, dy, d2, q).y - cy) == r * r
  {
    ChordAtMinus(cx, cy, det, dx, dy, d2, q);
    FootAtScaled(cx, cy, det, dx, dy, d2);
    assert (-q) * (-q) == q * q;
    PlacedAtOnCircle(dx, dy, cx, cy, r, d2, det, 1.0 / d2, -q);
  }

  /* ---------------------------------------------------------------- */
  /* The same facts for a line and a circle                            */
  /* ---------------------------------------------------------------- */

  /** The foot lies on the line. */
  lemma FootOnItsLine(s: Seg, c: Circle)
    requires Proper(s)
    ensures OnLine(s, Foot(s, c))
  {
    FootAtOnLine(s.p0.x, s.p0.y, s.p1.x, s.p1.y, c.x, c.y, SqLen(s), CrossAt(s, c));
  }

  /** No point of the line is nearer the centre than the foot. */
  lemma FootNearest(s: Seg, c: Circle, q: Point)
    requires Proper(s) && OnLine(s, q)
    ensures SqDist(Foot(s, c), c.x, c.y) <= SqDist(q, c.x, c.y)
  {
    FootAtClosest(s.p0.x, s.p0.y, s.p1.x, s.p1.y, c.x, c.y, SqLen(s), CrossAt(s, c), q.x, q.y);
  }

  /** `root` is negative exactly when the foot lies outside the circle. */
  lemma DiscriminantSign(s: Seg, c: Circle)
    requires Proper(s)
    ensures Discriminant(s, c) < 0.0 <==> c.r * c.r < SqDist(Foot(s, c), c.x, c.y)
    ensures 0.0 <= Discriminant(s, c) ==> SqDist(Foot(s, c), c.x, c.y) <= c.r * c.r
  {
    FootDistance(s, c);
    ScaledSign(Discriminant(s, c), c.r * c.r, SqDist(Foot(s, c), c.x, c.y), SqLen(s), CrossAt(s, c) * CrossAt(s, c));
  }

  /** The squared distance of the foot from the centre, scaled by d2, is det^2. */
  lemma FootDistance(s: Seg, c: Circle)
    requires Proper(s)
    ensures SqDist(Foot(s, c), c.x, c.y) * SqLen(s) == CrossAt(s, c) * CrossAt(s, c)
  {
    FootAtNorm(c.x, c.y, CrossAt(s, c), s.p1.x - s.p0.x, s.p1.y - s.p0.y, SqLen(s));
  }

  /** The line-circle case finds nothing exactly when every point of the
      (infinite) line lies outside the circle. */
  lemma LineCircleMisses(sqrt: real -> real, s: Seg, c: Circle)
    requires Proper(s)
    ensures LineCircle(sqrt, s, c).points == []
            <==> forall q: Point :: OnLine(s, q) ==> c.r * c.r < SqDist(q, c.x, c.y)
  {
    DiscriminantSign(s, c);
    FootOnItsLine(s, c);
    if Discriminant(s, c) < 0.0 {
      forall q: Point | OnLine(s, q)
        ensures c.r * c.r < SqDist(q, c.x, c.y)
      {
        FootNearest(s, c, q);
      }
    }
  }

  /** In the one-point case the point is the foot, on the line and within
      the circle (on it up to the 1E-12 tolerance of `root`). */
  lemma LineCircleTangent(sqrt: real -> real, s: Seg, c: Circle)
    requires Proper(s)
    requires |LineCircle(sqrt, s, c).points| == 1
    ensures LineCircle(sqrt, s, c).points == [Foot(s, c)]
    ensures OnLine(s, Foot(s, c)) && SqDist(Foot(s, c), c.x, c.y) <= c.r * c.r
    ensures LineCircle(sqrt, s, c).line == Updated(s, Foot(s, c))
  {
    DiscriminantSign(s, c);
    FootOnItsLine(s, c);
  }

  /** pp and pm, for any sq, lie on the line. */
  lemma ChordOnLine(s: Seg, c: Circle, sq: real)
    requires Proper(s)
    ensures OnLine(s, ChordPlus(s, c, sq)) && OnLine(s, ChordMinus(s, c, sq))
  {
    PlusAtOnLine(s.p0.x, s.p0.y, s.p1.x, s.p1.y, c.x, c.y, SqLen(s), CrossAt(s, c), sq);
    MinusAtOnLine(s.p0.x, s.p0.y, s.p1.x, s.p1.y, c.x, c.y, SqLen(s), CrossAt(s, c), sq);
  }

  /** pp and pm lie on the circle when sq is the square root of `root`. */
  lemma ChordOnCircle(s: Seg, c: Circle, sq: real)
    requires Proper(s) && sq * sq == Discriminant(s, c)
    ensures SqDist(ChordPlus(s, c, sq), c.x, c.y) == c.r * c.r
    ensures SqDist(ChordMinus(s, c, sq), c.x, c.y) == c.r * c.r
  {
    PlusAtOnCircle(s.p1.x - s.p0.x, s.p1.y - s.p0.y, c.x, c.y, c.r, SqLen(s), CrossAt(s, c), sq);
    MinusAtOnCircle(s.p1.x - s.p0.x, s.p1.y - s.p0.y, c.x, c.y, c.r, SqLen(s), CrossAt(s, c), sq);
  }

  /** In the two-point case, both points lie on the line and on the circle,
      the foot is their midpoint, and the line ends up covering both. */
  lemma LineCircleSecant(sqrt: real -> real, s: Seg, c: Circle)
    requires IsSqrt(sqrt) && Proper(s)
    requires |LineCircle(sqrt, s, c).points| == 2
    ensures var r := LineCircle(sqrt, s, c);
            && r.points == [ChordMinus(s, c, sqrt(Discriminant(s, c))), ChordPlus(s, c, sqrt(Discriminant(s, c)))]
            && (forall i :: 0 <= i < 2 ==> OnLine(s, r.points[i]) && SqDist(r.points[i], c.x, c.y) == c.r * c.r)
            && r.points[0].x + r.points[1].x == 2.0 * Foot(s, c).x
            && r.points[0].y + r.points[1].y == 2.0 * Foot(s, c).y
            && r.line == Updated(Updated(s, r.points[1]), r.points[0])
  {
    SqrtOf(sqrt, Discriminant(s, c));
    ChordOnLine(s, c, sqrt(Discriminant(s, c)));
    ChordOnCircle(s, c, sqrt(Discriminant(s, c)));
  }
}

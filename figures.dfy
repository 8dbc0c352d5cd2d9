/** The rules of the engine on values: how a line extends itself to cover a
    point (`Line.update`) and the three intersection cases of
    `Line.intersect` and `Circle.intersect`. The classes of module `Ruler`
    run these rules in place. */
module Figures {
  import opened Algebra
  import opened Geometry

  /* ---------------------------------------------------------------- */
  /* Line.update                                                       */
  /* ---------------------------------------------------------------- */

  /** `dd` of `Line.update`: the dot product of p - p0 with p1 - p0, which
      is negative before p0, and above `d0` beyond p1. */
  function Projection(s: Seg, p: Point): real
  {
    (p.x - s.p0.x) * (s.p1.x - s.p0.x) + (p.y - s.p0.y) * (s.p1.y - s.p0.y)
  }

  /** `Line.update`: when p projects before p0 it becomes the new p0, when
      it projects beyond p1 it becomes the new p1, and otherwise the line is
      left alone. At most one endpoint changes. */
  function Updated(s: Seg, p: Point): (r: Seg)
    ensures r == s || r == Seg(p, s.p1) || r == Seg(s.p0, p)
  {
    if Projection(s, p) < 0.0 then Seg(p, s.p1)
    else if Projection(s, p) > SqLen(s) then Seg(s.p0, p)
    else s
  }

  /** After an update, p projects inside the new segment: `dd` is 0 when p
      became p0, exactly `d0` when it became p1. */
  lemma UpdateCovers(s: Seg, p: Point)
    ensures 0.0 <= Projection(Updated(s, p), p) <= SqLen(Updated(s, p))
  {
    var r := Updated(s, p);
    Norm2NonNegative(r.p1.x - r.p0.x, r.p1.y - r.p0.y);
    if Projection(s, p) < 0.0 {
      assert r.p0 == p;
      assert Projection(r, p) == 0.0 * (r.p1.x - p.x) + 0.0 * (r.p1.y - p.y);
    } else if Projection(s, p) > SqLen(s) {
      assert r.p1 == p;
      assert Projection(r, p) == SqLen(r);
    }
  }

  /** Updating twice with the same point is updating once. */
  lemma UpdateIdempotent(s: Seg, p: Point)
    ensures Updated(Updated(s, p), p) == Updated(s, p)
  {
    UpdateCovers(s, p);
  }

  /** Moving p0 back to p: the new squared length is the old one, minus
      twice the projection, plus |p - p0|^2. */
  lemma BackIdentity(s: Seg, p: Point)
    ensures SqLen(Seg(p, s.p1)) == SqLen(s) - 2.0 * Projection(s, p) + SqDist(p, s.p0.x, s.p0.y)
  {
  }

  /** The segment only grows: an update never shortens it, and one that
      changes an endpoint lengthens it. Hence a proper line stays proper. */
  lemma UpdateGrows(s: Seg, p: Point)
    ensures SqLen(s) <= SqLen(Updated(s, p))
    ensures Updated(s, p) != s ==> SqLen(s) < SqLen(Updated(s, p))
  {
    if Projection(s, p) < 0.0 {
      BackIdentity(s, p);
      Norm2NonNegative(p.x - s.p0.x, p.y - s.p0.y);
    } else if Projection(s, p) > SqLen(s) {
      var vx, vy := s.p1.x - s.p0.x, s.p1.y - s.p0.y;
      var wx, wy := p.x - s.p0.x, p.y - s.p0.y;
      Lagrange(vx, vy, wx, wy);
      Norm2NonNegative(vx, vy);
      ForwardGrows(SqLen(s), SqLen(Seg(s.p0, p)), Projection(s, p), vx * wy - vy * wx);
    }
  }

  /* ---------------------------------------------------------------- */
  /* Line x line                                                       */
  /* ---------------------------------------------------------------- */

  /** `det` of the line-line case, from the differences p0 - p1 of the
      receiver a and of the argument b. */
  function Det(a: Seg, b: Seg): real
  {
    (a.p0.x - a.p1.x) * (b.p0.y - b.p1.y) - (a.p0.y - a.p1.y) * (b.p0.x - b.p1.x)
  }

  /** Two lines count as parallel when |det| is below 1E-6. */
  predicate Parallel(a: Seg, b: Seg)
  {
    Abs(Det(a, b)) < ParallelEps
  }

  /** Swapping receiver and argument negates `det`. */
  lemma DetSwap(a: Seg, b: Seg)
    ensures Det(b, a) == -Det(a, b)
  {
  }

  /** The point the line-line case computes, transcribed as written: its
      `cross0` and `cross1` each take one endpoint from either line. */
  function LineLinePoint(a: Seg, b: Seg): Point
    requires !Parallel(a, b)
  {
    var dx0 := a.p0.x - a.p1.x;
    var dy0 := a.p0.y - a.p1.y;
    var dx1 := b.p0.x - b.p1.x;
    var dy1 := b.p0.y - b.p1.y;
    var det := dx0 * dy1 - dy0 * dx1;
    var cross0 := a.p0.x * b.p1.y - a.p0.y * b.p1.x;
    var cross1 := b.p0.x * a.p1.y - b.p0.y * a.p1.x;
    Point((cross0 * dx1 - cross1 * dx0) / det, (cross0 * dy1 - cross1 * dy0) / det)
  }

  /** `det` and the point of the line-line case from the values of their
      parts, as the source forms them. */
  lemma LineLineFrom(a: Seg, b: Seg, dx0: real, dy0: real, dx1: real, dy1: real, det: real,
                     cross0: real, cross1: real)
    requires dx0 == a.p0.x - a.p1.x && dy0 == a.p0.y - a.p1.y
    requires dx1 == b.p0.x - b.p1.x && dy1 == b.p0.y - b.p1.y
    requires det == dx0 * dy1 - dy0 * dx1
    requires cross0 == a.p0.x * b.p1.y - a.p0.y * b.p1.x
    requires cross1 == b.p0.x * a.p1.y - b.p0.y * a.p1.x
    ensures det == Det(a, b)
    ensures !Parallel(a, b) ==>
              LineLinePoint(a, b) == Point((cross0 * dx1 - cross1 * dx0) / det, (cross0 * dy1 - cross1 * dy0) / det)
  {
    assert det == Det(a, b);
  }

  /** What a line-receiver intersection returns: the new points, and the
      receiver line after its updates. */
  datatype LineResult = LineResult(points: seq<Point>, line: Seg)

  /** `Line.intersect` with a line: nothing for parallel lines, otherwise
      the one computed point, to which the receiver is extended. */
  function LineLine(a: Seg, b: Seg): (r: LineResult)
    ensures r.points == [] <==> Abs(Det(a, b)) < ParallelEps
    ensures |r.points| <= 1
    ensures r.points == [] ==> r.line == a
    ensures |r.points| == 1 ==> r.line == Updated(a, r.points[0])
  {
    if Parallel(a, b) then LineResult([], a)
    else
      var p := LineLinePoint(a, b);
      LineResult([p], Updated(a, p))
  }

  /** The receiver never gets shorter. */
  lemma LineLineGrows(a: Seg, b: Seg)
    ensures SqLen(a) <= SqLen(LineLine(a, b).line)
  {
    if !Parallel(a, b) {
      UpdateGrows(a, LineLinePoint(a, b));
    }
  }

  /** A line never meets itself: `det` vanishes, and nothing changes. */
  lemma LineLineSelf(s: Seg)
    ensures LineLine(s, s) == LineResult([], s)
  {
    assert Det(s, s) == 0.0;
  }

  /** The parallel test gives the same answer whichever line receives. */
  lemma LineLineSymmetric(a: Seg, b: Seg)
    ensures LineLine(a, b).points == [] <==> LineLine(b, a).points == []
  {
    DetSwap(a, b);
  }

  /** A point lies on the line through the defining points of s. */
  predicate OnLine(s: Seg, p: Point)
  {
    Cross(p.x - s.p0.x, p.y - s.p0.y, s.p1.x - s.p0.x, s.p1.y - s.p0.y) == 0.0
  }

  /** As written, the line-line point need not lie on the argument line:
      for the receiver (0,0)-(1,0) and the argument (0,-1)-(0,1), which
      cross at (0,0), it is (0.5,0). */
  lemma LineLineOffArgument()
    ensures var a := Seg(Point(0.0, 0.0), Point(1.0, 0.0));
            var b := Seg(Point(0.0, -1.0), Point(0.0, 1.0));
            LineLine(a, b).points == [Point(0.5, 0.0)]
            && OnLine(a, Point(0.0, 0.0)) && OnLine(b, Point(0.0, 0.0))
            && !OnLine(b, Point(0.5, 0.0))
  {
    var a := Seg(Point(0.0, 0.0), Point(1.0, 0.0));
    var b := Seg(Point(0.0, -1.0), Point(0.0, 1.0));
    assert !Parallel(a, b) by {
      assert Det(a, b) == 2.0;
    }
    assert LineLinePoint(a, b) == Point(0.5, 0.0);
    assert LineLine(a, b).points == [LineLinePoint(a, b)];
  }

  /** As written, the line-line point may lie on neither line: for the
      receiver (0,1)-(1,1) and the argument (0,-1)-(0,1), which cross at
      (0,1), it is (0.5,0). */
  lemma LineLineOffBoth()
    ensures var a := Seg(Point(0.0, 1.0), Point(1.0, 1.0));
            var b := Seg(Point(0.0, -1.0), Point(0.0, 1.0));
            LineLine(a, b).points == [Point(0.5, 0.0)]
            && OnLine(a, Point(0.0, 1.0)) && OnLine(b, Point(0.0, 1.0))
            && !OnLine(a, Point(0.5, 0.0)) && !OnLine(b, Point(0.5, 0.0))
  {
    var a := Seg(Point(0.0, 1.0), Point(1.0, 1.0));
    var b := Seg(Point(0.0, -1.0), Point(0.0, 1.0));
    assert !Parallel(a, b) by {
      assert Det(a, b) == 2.0;
    }
    assert LineLinePoint(a, b) == Point(0.5, 0.0);
    assert LineLine(a, b).points == [LineLinePoint(a, b)];
  }

  /** As written, the update that follows can turn the receiver: for the
      receiver (2,1)-(3,1) and the argument (0,-1)-(0,1) the point is
      (1.5,-2), off the receiver, and the receiver becomes (1.5,-2)-(3,1),
      which no longer passes through its old p0. */
  lemma LineLineTurnsReceiver()
    ensures var a := Seg(Point(2.0, 1.0), Point(3.0, 1.0));
            var b := Seg(Point(0.0, -1.0), Point(0.0, 1.0));
            var r := LineLine(a, b);
            r.points == [Point(1.5, -2.0)]
            && r.line == Seg(Point(1.5, -2.0), Point(3.0, 1.0))
            && !OnLine(r.line, a.p0)
  {
    var a := Seg(Point(2.0, 1.0), Point(3.0, 1.0));
    var b := Seg(Point(0.0, -1.0), Point(0.0, 1.0));
    assert !Parallel(a, b) by {
      assert Det(a, b) == 2.0;
    }
    var p := LineLinePoint(a, b);
    assert p == Point(1.5, -2.0);
    assert Projection(a, p) == -0.5;
    assert Updated(a, p) == Seg(p, a.p1);
    assert LineLine(a, b) == LineResult([p], Updated(a, p));
  }

  /* ---------------------------------------------------------------- */
  /* Line x circle                                                     */
  /* ---------------------------------------------------------------- */

  /** `det` of the line-circle case: the cross product of the line's two
      defining points, both taken relative to the centre of c. */
  function CrossAt(s: Seg, c: Circle): real
  {
    Cross(s.p0.x - c.x, s.p0.y - c.y, s.p1.x - c.x, s.p1.y - c.y)
  }

  /** `root` of the line-circle case: r^2 d2 - det^2. The source forms d2
      from the endpoint differences taken relative to the centre, which are
      the differences of the endpoints themselves. */
  function Discriminant(s: Seg, c: Circle): real
  {
    c.r * c.r * SqLen(s) - CrossAt(s, c) * CrossAt(s, c)
  }

  /** `root` from the values of its parts. */
  lemma DiscriminantAt(s: Seg, c: Circle, r: real, d2: real, det: real)
    requires c.r == r && SqLen(s) == d2 && CrossAt(s, c) == det
    ensures Discriminant(s, c) == r * r * d2 - det * det
  {
  }

  /** The parts of the line-circle case as the source forms them, from
      the endpoints taken relative to the centre: the direction, `d2`,
      `det` and `root`. */
  lemma PartsFrom(s: Seg, c: Circle, x0: real, y0: real, x1: real, y1: real,
                  dx: real, dy: real, d2: real, det: real)
    requires x0 == s.p0.x - c.x && y0 == s.p0.y - c.y && x1 == s.p1.x - c.x && y1 == s.p1.y - c.y
    requires dx == x1 - x0 && dy == y1 - y0 && d2 == dx * dx + dy * dy && det == x0 * y1 - x1 * y0
    ensures dx == s.p1.x - s.p0.x && dy == s.p1.y - s.p0.y
    ensures d2 == SqLen(s) && det == CrossAt(s, c)
    ensures c.r * c.r * d2 - det * det == Discriminant(s, c)
  {
  }

  /** (x, y) of the line-circle case, from the centre (cx, cy), `det`,
      the direction (dx, dy) and `d2`. */
  function FootAt(cx: real, cy: real, det: real, dx: real, dy: real, d2: real): Point
    requires d2 != 0.0
  {
    Point(cx + det * dy / d2, cy - det * dx / d2)
  }

  /** The point (x, y) the line-circle case computes from the centre: the
      foot of the perpendicular from the centre to the line. */
  function Foot(s: Seg, c: Circle): Point
    requires Proper(s)
  {
    FootAt(c.x, c.y, CrossAt(s, c), s.p1.x - s.p0.x, s.p1.y - s.p0.y, SqLen(s))
  }

  /** The solver-level form of `FootOfCentreLine`, on plain variables:
      with det = 0 the foot formula gives the centre. */
  lemma FootThroughCentre(cx: real, cy: real, det: real, dx: real, dy: real, d2: real)
    requires d2 != 0.0 && det == 0.0
    ensures FootAt(cx, cy, det, dx, dy, d2) == Point(cx, cy)
  {
  }

  /** A line through the centre (det = 0) has the centre as its foot. */
  lemma FootOfCentreLine(s: Seg, c: Circle)
    requires Proper(s) && CrossAt(s, c) == 0.0
    ensures Foot(s, c) == Point(c.x, c.y)
  {
    FootThroughCentre(c.x, c.y, CrossAt(s, c), s.p1.x - s.p0.x, s.p1.y - s.p0.y, SqLen(s));
  }

  /** The foot from the values of its parts. */
  lemma FootFrom(s: Seg, c: Circle, dx: real, dy: real, d2: real, det: real)
    requires Proper(s)
    requires dx == s.p1.x - s.p0.x && dy == s.p1.y - s.p0.y && d2 == SqLen(s) && det == CrossAt(s, c)
    ensures Foot(s, c) == Point(c.x + det * dy / d2, c.y - det * dx / d2)
  {
  }

  /** (dxpm, dypm) from the direction (dx, dy), `d2` and sq = sqrt(root). */
  function HalfChordAt(dx: real, dy: real, d2: real, sq: real): Point
    requires d2 != 0.0
  {
    Point(dx / d2 * sq, dy / d2 * sq)
  }

  /** The solver-level form of `HalfChordOfLength`, on plain variables:
      scaling the direction by d2 / d2 gives the direction itself. */
  lemma HalfChordWhole(dx: real, dy: real, d2: real)
    requires d2 != 0.0
    ensures HalfChordAt(dx, dy, d2, d2) == Point(dx, dy)
  {
  }

  /** (dxpm, dypm): half the chord, along the line. */
  function HalfChord(s: Seg, sq: real): Point
    requires Proper(s)
  {
    HalfChordAt(s.p1.x - s.p0.x, s.p1.y - s.p0.y, SqLen(s), sq)
  }

  /** The half chord from the values of its parts. */
  lemma HalfChordFrom(s: Seg, dx: real, dy: real, d2: real, sq: real)
    requires Proper(s)
    requires dx == s.p1.x - s.p0.x && dy == s.p1.y - s.p0.y && d2 == SqLen(s)
    ensures HalfChord(s, sq) == Point(dx / d2 * sq, dy / d2 * sq)
  {
  }

  /** When sqrt(root) equals d2 the half chord is p1 - p0. */
  lemma HalfChordOfLength(s: Seg)
    requires Proper(s)
    ensures HalfChord(s, SqLen(s)) == Point(s.p1.x - s.p0.x, s.p1.y - s.p0.y)
  {
    HalfChordWhole(s.p1.x - s.p0.x, s.p1.y - s.p0.y, SqLen(s));
  }

  /** pp: the foot plus half the chord. */
  function ChordPlus(s: Seg, c: Circle, sq: real): Point
    requires Proper(s)
  {
    Point(Foot(s, c).x + HalfChord(s, sq).x, Foot(s, c).y + HalfChord(s, sq).y)
  }

  /** pm: the foot minus half the chord. */
  function ChordMinus(s: Seg, c: Circle, sq: real): Point
    requires Proper(s)
  {
    Point(Foot(s, c).x - HalfChord(s, sq).x, Foot(s, c).y - HalfChord(s, sq).y)
  }

  /** pp and pm from the values of the foot and of the half chord. */
  lemma ChordFrom(s: Seg, c: Circle, sq: real, f: Point, h: Point)
    requires Proper(s) && Foot(s, c) == f && HalfChord(s, sq) == h
    ensures ChordPlus(s, c, sq) == Point(f.x + h.x, f.y + h.y)
    ensures ChordMinus(s, c, sq) == Point(f.x - h.x, f.y - h.y)
  {
  }

  /** `Line.intersect` with a circle: nothing when `root` is negative; the
      foot alone, to which the line is extended, when `root` is below 1E-12;
      otherwise [pm, pp], after extending the line to pp and then to pm. */
  function LineCircle(sqrt: real -> real, s: Seg, c: Circle): (r: LineResult)
    requires Proper(s)
    ensures r.points == [] <==> Discriminant(s, c) < 0.0
    ensures |r.points| == 1 <==> 0.0 <= Discriminant(s, c) < TangentEps
    ensures |r.points| <= 2
    ensures r.points == [] ==> r.line == s
  {
    var root := Discriminant(s, c);
    if root < 0.0 then LineResult([], s)
    else if root < TangentEps then
      var p := Foot(s, c);
      LineResult([p], Updated(s, p))
    else
      var pp := ChordPlus(s, c, sqrt(root));
      var pm := ChordMinus(s, c, sqrt(root));
      LineResult([pm, pp], Updated(Updated(s, pp), pm))
  }

  /** The line never gets shorter. */
  lemma LineCircleGrows(sqrt: real -> real, s: Seg, c: Circle)
    requires Proper(s)
    ensures SqLen(s) <= SqLen(LineCircle(sqrt, s, c).line)
  {
    var root := Discriminant(s, c);
    if 0.0 <= root < TangentEps {
      UpdateGrows(s, Foot(s, c));
    } else if TangentEps <= root {
      var pp := ChordPlus(s, c, sqrt(root));
      UpdateGrows(s, pp);
      UpdateGrows(Updated(s, pp), ChordMinus(s, c, sqrt(root)));
    }
  }

  /* ---------------------------------------------------------------- */
  /* Circle x circle                                                   */
  /* ---------------------------------------------------------------- */

  /** Two circles are concentric when their centres coincide. */
  predicate Concentric(a: Circle, b: Circle)
  {
    a.x == b.x && a.y == b.y
  }

  /** `d`: the distance between the centres. */
  function CentreDistance(sqrt: real -> real, a: Circle, b: Circle): real
  {
    sqrt(Norm2(b.x - a.x, b.y - a.y))
  }

  /** `xd` from the centre distance d and the radii ra (receiver) and rb. */
  function AlongAt(d: real, ra: real, rb: real): real
    requires d != 0.0
  {
    (d * d - rb * rb + ra * ra) / (2.0 * d)
  }

  /** `xd`: how far along the line of centres, from the centre of a, the
      chord of the two circles crosses it. */
  function Along(sqrt: real -> real, a: Circle, b: Circle): real
    requires CentreDistance(sqrt, a, b) != 0.0
  {
    AlongAt(CentreDistance(sqrt, a, b), a.r, b.r)
  }

  /** `yd2`: the square of half the chord. */
  function HalfChordSq(sqrt: real -> real, a: Circle, b: Circle): real
    requires CentreDistance(sqrt, a, b) != 0.0
  {
    a.r * a.r - Along(sqrt, a, b) * Along(sqrt, a, b)
  }

  /** (x, y) from the centre (ax, ay), the vector (dx, dy) to the other
      centre, d and xd. */
  function BaseAt(ax: real, ay: real, dx: real, dy: real, d: real, xd: real): Point
    requires d != 0.0
  {
    Point(ax + xd * dx / d, ay + xd * dy / d)
  }

  /** (x, y): where the chord crosses the line of centres. */
  function Base(sqrt: real -> real, a: Circle, b: Circle): Point
    requires CentreDistance(sqrt, a, b) != 0.0
  {
    BaseAt(a.x, a.y, b.x - a.x, b.y - a.y, CentreDistance(sqrt, a, b), Along(sqrt, a, b))
  }

  /** (dxpm, dypm) from (dx, dy), d and yd. */
  function OffsetAt(dx: real, dy: real, d: real, yd: real): Point
    requires d != 0.0
  {
    Point(yd * dy / d, -yd * dx / d)
  }

  /** (dxpm, dypm): half the chord, perpendicular to the line of centres. */
  function Offset(sqrt: real -> real, a: Circle, b: Circle): Point
    requires CentreDistance(sqrt, a, b) != 0.0
  {
    OffsetAt(b.x - a.x, b.y - a.y, CentreDistance(sqrt, a, b), sqrt(HalfChordSq(sqrt, a, b)))
  }

  /** The base plus the offset: the first point returned. */
  function MeetPlus(sqrt: real -> real, a: Circle, b: Circle): Point
    requires CentreDistance(sqrt, a, b) != 0.0
  {
    Point(Base(sqrt, a, b).x + Offset(sqrt, a, b).x, Base(sqrt, a, b).y + Offset(sqrt, a, b).y)
  }

  /** The base minus the offset: the second point returned. */
  function MeetMinus(sqrt: real -> real, a: Circle, b: Circle): Point
    requires CentreDistance(sqrt, a, b) != 0.0
  {
    Point(Base(sqrt, a, b).x - Offset(sqrt, a, b).x, Base(sqrt, a, b).y - Offset(sqrt, a, b).y)
  }

  /** The parts of the circle-circle case from their values, as the
      source forms them. */
  lemma MeetPartsFrom(sqrt: real -> real, a: Circle, b: Circle, dx: real, dy: real, d: real, xd: real, yd2: real)
    requires dx == b.x - a.x && dy == b.y - a.y
    requires d == CentreDistance(sqrt, a, b) && d != 0.0
    requires xd == (d * d - b.r * b.r + a.r * a.r) / (2.0 * d)
    requires yd2 == a.r * a.r - xd * xd
    ensures Along(sqrt, a, b) == xd && HalfChordSq(sqrt, a, b) == yd2
    ensures Base(sqrt, a, b) == Point(a.x + xd * dx / d, a.y + xd * dy / d)
    ensures Offset(sqrt, a, b) == Point(sqrt(yd2) * dy / d, -sqrt(yd2) * dx / d)
  {
    assert Along(sqrt, a, b) == xd;
    assert HalfChordSq(sqrt, a, b) == yd2;
    assert Base(sqrt, a, b) == BaseAt(a.x, a.y, dx, dy, d, xd);
    assert Offset(sqrt, a, b) == OffsetAt(dx, dy, d, sqrt(yd2));
  }

  /** The two points of the circle-circle case from the values of the
      base and of the offset. */
  lemma MeetFrom(sqrt: real -> real, a: Circle, b: Circle, f: Point, h: Point)
    requires CentreDistance(sqrt, a, b) != 0.0
    requires Base(sqrt, a, b) == f && Offset(sqrt, a, b) == h
    ensures MeetPlus(sqrt, a, b) == Point(f.x + h.x, f.y + h.y)
    ensures MeetMinus(sqrt, a, b) == Point(f.x - h.x, f.y - h.y)
  {
  }

  /** `Circle.intersect` with a circle: nothing when `yd2` is negative, the
      base alone when the half chord is below 1E-3, and otherwise the two
      points base +- offset. For concentric circles the source divides by
      d = 0: with unequal radii `xd` is infinite, `yd2` negative and the
      result empty; with equal radii it is two NaN points, which reals
      cannot hold. The model returns nothing in both cases. */
  function CircleCircle(sqrt: real -> real, a: Circle, b: Circle): (r: seq<Point>)
    ensures |r| <= 2
    ensures CentreDistance(sqrt, a, b) == 0.0 ==> r == []
    ensures CentreDistance(sqrt, a, b) != 0.0 ==> (r == [] <==> HalfChordSq(sqrt, a, b) < 0.0)
    ensures CentreDistance(sqrt, a, b) != 0.0 ==>
              (|r| == 1 <==> 0.0 <= HalfChordSq(sqrt, a, b) && sqrt(HalfChordSq(sqrt, a, b)) < CircleTangentEps)
  {
    var d := CentreDistance(sqrt, a, b);
    if d == 0.0 then []
    else
      var yd2 := HalfChordSq(sqrt, a, b);
      if yd2 < 0.0 then []
      else if sqrt(yd2) < CircleTangentEps then [Base(sqrt, a, b)]
      else [MeetPlus(sqrt, a, b), MeetMinus(sqrt, a, b)]
  }
}

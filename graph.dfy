/** The engine as it runs: lines whose endpoints `update` replaces in
    place, the dispatch of `intersect`, and the construction graph with its
    mouse handlers. Each step is proved against the value-level rules of
    the `Figures` and `Construction` modules. Drawing is not modelled. */
module Ruler {
  import opened Algebra
  import opened Geometry
  import opened Figures
  import opened Construction

  /** A line of the construction. `Update` and `Intersect` reassign its
      endpoints; every other object of the engine is a value. */
  class Line {
    var p0: Point
    var p1: Point

    constructor (p0: Point, p1: Point)
      ensures Value() == Seg(p0, p1)
    {
      this.p0 := p0;
      this.p1 := p1;
    }

    /** The line's current endpoints, as a value. */
    function Value(): Seg
      reads this
    {
      Seg(p0, p1)
    }

    /** `Line.update`: extend the line backwards or forwards to p when p
        projects outside the segment p0-p1. The redraw it triggers is not
        modelled. */
    method Update(p: Point)
      modifies this
      ensures Value() == Updated(old(Value()), p)
    {
      var dx := p1.x - p0.x;
      var dy := p1.y - p0.y;
      var d0 := dx * dx + dy * dy;
      var dd := (p.x - p0.x) * dx + (p.y - p0.y) * dy;
      assert d0 == SqLen(Value()) && dd == Projection(Value(), p);
      if dd < 0.0 {
        p0 := p;
      } else if dd > d0 {
        p1 := p;
      }
    }

    /** `Line.intersect`: the points where this line meets obj, after
        extending this line to each of them. A line argument is left as it
        was. */
    method Intersect(sqrt: real -> real, obj: Shape) returns (pts: seq<Point>)
      requires Proper(Value())
      modifies this
      ensures obj.LineShape? ==> var r := LineLine(old(Value()), old(obj.line.Value()));
                                 pts == r.points && Value() == r.line
      ensures obj.CircleShape? ==> var r := LineCircle(sqrt, old(Value()), obj.circle);
                                   pts == r.points && Value() == r.line
    {
      if obj.LineShape? {
        pts := IntersectLine(obj.line);
      } else {
        pts := IntersectCircle(sqrt, obj.circle);
      }
    }

    /** The line branch of `Line.intersect`: nothing when the two lines are
        parallel, otherwise the one point its formula gives, to which this
        line is extended. */
    method IntersectLine(o: Line) returns (pts: seq<Point>)
      modifies this
      ensures var r := LineLine(old(Value()), old(o.Value()));
              pts == r.points && Value() == r.line
    {
      ghost var a, b := Value(), o.Value();
      var dx0 := p0.x - p1.x;
      var dy0 := p0.y - p1.y;
      var dx1 := o.p0.x - o.p1.x;
      var dy1 := o.p0.y - o.p1.y;
      var det := dx0 * dy1 - dy0 * dx1;
      var cross0 := p0.x * o.p1.y - p0.y * o.p1.x;
      var cross1 := o.p0.x * p1.y - o.p0.y * p1.x;
      LineLineFrom(a, b, dx0, dy0, dx1, dy1, det, cross0, cross1);
      if Abs(det) < ParallelEps {
        return [];
      }
      var x := (cross0 * dx1 - cross1 * dx0) / det;
      var y := (cross0 * dy1 - cross1 * dy0) / det;
      var point := Point(x, y);
      Update(point);
      pts := [point];
    }

    /** The circle branch of `Line.intersect`: nothing when `root` is
        negative, the foot of the perpendicular from the centre when `root`
        is below 1E-12, and otherwise [pm, pp], this line being extended to
        pp first and to pm second. */
    method IntersectCircle(sqrt: real -> real, c: Circle) returns (pts: seq<Point>)
      requires Proper(Value())
      modifies this
      ensures var r := LineCircle(sqrt, old(Value()), c);
              pts == r.points && Value() == r.line
    {
      ghost var s := Value();
      var x0 := p0.x - c.x;
      var y0 := p0.y - c.y;
      var x1 := p1.x - c.x;
      var y1 := p1.y - c.y;
      var dx := x1 - x0;
      var dy := y1 - y0;
      var d2 := dx * dx + dy * dy;
      var det := x0 * y1 - x1 * y0;
      var root := c.r * c.r * d2 - det * det;
      PartsFrom(s, c, x0, y0, x1, y1, dx, dy, d2, det);
      if root < 0.0 {
        return [];
      }
      var x := c.x + det * dy / d2;
      var y := c.y - det * dx / d2;
      FootFrom(s, c, dx, dy, d2, det);
      if root < TangentEps {
        var point := Point(x, y);
        Update(point);
        return [point];
      }
      var dxpm := dx / d2 * sqrt(root);
      var dypm := dy / d2 * sqrt(root);
      HalfChordFrom(s, dx, dy, d2, sqrt(root));
      var pp := Point(x + dxpm, y + dypm);
      var pm := Point(x - dxpm, y - dypm);
      ChordFrom(s, c, sqrt(root), Point(x, y), Point(dxpm, dypm));
      Update(pp);
      Update(pm);
      pts := [pm, pp];
    }
  }

  /** An object of the construction: a line, which may be extended in
      place, or a circle, which never changes. */
  datatype Shape = LineShape(line: Line) | CircleShape(circle: Circle)

  /** The line objects a shape consists of. */
  function Footprint(s: Shape): set<Line>
  {
    if s.LineShape? then {s.line} else {}
  }

  /** The current value of a shape. */
  function ValueOf(s: Shape): Figure
    reads Footprint(s)
  {
    match s
    case LineShape(l) => LineFig(l.Value())
    case CircleShape(c) => CircleFig(c)
  }

  /** `Circle.intersect`: a line argument is handed the call, so that it
      is the line that is extended; two circles meet as the radical line
      gives. Concentric circles, where the source divides by a zero
      distance, meet in no point. */
  method CircleIntersect(sqrt: real -> real, c: Circle, obj: Shape) returns (pts: seq<Point>)
    requires Sound(ValueOf(obj))
    modifies Footprint(obj)
    ensures var m := Intersect(sqrt, CircleFig(c), old(ValueOf(obj)));
            pts == m.points && ValueOf(obj) == m.argument
  {
    if obj.LineShape? {
      pts := obj.line.Intersect(sqrt, CircleShape(c));
    } else {
      pts := CirclesMeet(sqrt, c, obj.circle);
    }
  }

  /** The circle-circle branch of `Circle.intersect`. */
  method CirclesMeet(sqrt: real -> real, c: Circle, e: Circle) returns (pts: seq<Point>)
    ensures pts == CircleCircle(sqrt, c, e)
  {
    var dx := e.x - c.x;
    var dy := e.y - c.y;
    var d := sqrt(dx * dx + dy * dy);
    assert dx * dx + dy * dy == Norm2(e.x - c.x, e.y - c.y);
    assert d == CentreDistance(sqrt, c, e);
    if d == 0.0 {
      return [];
    }
    var xd := (d * d - e.r * e.r + c.r * c.r) / (2.0 * d);
    var yd2 := c.r * c.r - xd * xd;
    MeetPartsFrom(sqrt, c, e, dx, dy, d, xd, yd2);
    if yd2 < 0.0 {
      return [];
    }
    var yd := sqrt(yd2);
    var x := c.x + xd * dx / d;
    var y := c.y + xd * dy / d;
    if yd < CircleTangentEps {
      return [Point(x, y)];
    }
    var dxpm := yd * dy / d;
    var dypm := -yd * dx / d;
    MeetFrom(sqrt, c, e, Point(x, y), Point(dxpm, dypm));
    pts := [Point(x + dxpm, y + dypm), Point(x - dxpm, y - dypm)];
  }

  /** `a.intersect(b)`, dispatched on the kind of the receiver a. */
  method Meet(sqrt: real -> real, a: Shape, b: Shape) returns (pts: seq<Point>)
    requires Sound(ValueOf(a)) && Sound(ValueOf(b))
    requires a.LineShape? && b.LineShape? ==> a.line != b.line
    modifies Footprint(a), Footprint(b)
    ensures var m := Intersect(sqrt, old(ValueOf(a)), old(ValueOf(b)));
            pts == m.points && ValueOf(a) == m.receiver && ValueOf(b) == m.argument
  {
    match a
    case LineShape(l) =>
      pts := l.Intersect(sqrt, b);
    case CircleShape(c) =>
      pts := CircleIntersect(sqrt, c, b);
  }

  /** The index of the first point nearest to (x, y), or -1 when there are
      no points. */
  ghost predicate FirstNearest(sqrt: real -> real, pts: seq<Point>, x: real, y: real, k: int)
    requires IsSqrt(sqrt)
  {
    if pts == [] then k == -1
    else
      && 0 <= k < |pts|
      && (forall j :: 0 <= j < |pts| ==> Distance(sqrt, pts[k], x, y) <= Distance(sqrt, pts[j], x, y))
      && (forall j :: 0 <= j < k ==> Distance(sqrt, pts[k], x, y) < Distance(sqrt, pts[j], x, y))
  }

  /** The hit test of `mousedown` and `mousemove`: scan the points in
      order, keeping the first one strictly nearer than all before it. */
  method Nearest(sqrt: real -> real, pts: seq<Point>, x: real, y: real) returns (k: int)
    requires IsSqrt(sqrt)
    ensures pts == [] ==> k == -1
    ensures pts != [] ==> 0 <= k < |pts|
    ensures FirstNearest(sqrt, pts, x, y, k)
  {
    k := -1;
    var dist := 0.0;
    var i := 0;
    while i < |pts|
      invariant 0 <= i <= |pts|
      invariant -1 <= k < i && (k == -1 <==> i == 0)
      invariant 0 <= k ==> dist == Distance(sqrt, pts[k], x, y)
      invariant 0 <= k ==> forall j :: 0 <= j < i ==> dist <= Distance(sqrt, pts[j], x, y)
      invariant 0 <= k ==> forall j :: 0 <= j < k ==> dist < Distance(sqrt, pts[j], x, y)
    {
      var newDist := Distance(sqrt, pts[i], x, y);
      if k < 0 || newDist < dist {
        dist := newDist;
        k := i;
      }
      i := i + 1;
    }
  }

  /** The hit test picks one point only: the first nearest is unique. */
  lemma NearestUnique(sqrt: real -> real, pts: seq<Point>, x: real, y: real, k: int, k': int)
    requires IsSqrt(sqrt)
    requires FirstNearest(sqrt, pts, x, y, k) && FirstNearest(sqrt, pts, x, y, k')
    ensures k == k'
  {
    if pts != [] {
      assert Distance(sqrt, pts[k], x, y) == Distance(sqrt, pts[k'], x, y);
    }
  }

  /** The hit test does not depend on the square root: the first nearest
      point by distance is the first nearest by squared distance. */
  lemma NearestBySquares(sqrt: real -> real, pts: seq<Point>, x: real, y: real, k: int)
    requires IsSqrt(sqrt) && 0 <= k < |pts|
    ensures FirstNearest(sqrt, pts, x, y, k) <==>
            && (forall j :: 0 <= j < |pts| ==> SqDist(pts[k], x, y) <= SqDist(pts[j], x, y))
            && (forall j :: 0 <= j < k ==> SqDist(pts[k], x, y) < SqDist(pts[j], x, y))
  {
    forall j | 0 <= j < |pts|
      ensures Distance(sqrt, pts[k], x, y) <= Distance(sqrt, pts[j], x, y) <==> SqDist(pts[k], x, y) <= SqDist(pts[j], x, y)
      ensures Distance(sqrt, pts[k], x, y) < Distance(sqrt, pts[j], x, y) <==> SqDist(pts[k], x, y) < SqDist(pts[j], x, y)
    {
      DistanceLess(sqrt, pts[k], pts[j], x, y);
      DistanceLess(sqrt, pts[j], pts[k], x, y);
    }
  }

  /** The circle `mousemove` previews, if any. */
  datatype Preview = NoPreview | CirclePreview(circle: Circle)

  /** Every line object of objs belongs to lines. */
  predicate Within(objs: seq<Shape>, lines: set<Line>)
  {
    forall i :: 0 <= i < |objs| ==> Footprint(objs[i]) <= lines
  }

  /** No line object occurs twice in objs. */
  predicate Separate(objs: seq<Shape>)
  {
    forall i, j :: 0 <= i < j < |objs| && objs[i].LineShape? && objs[j].LineShape? ==> objs[i].line != objs[j].line
  }

  /** The construction graph: every object in the order it was added,
      every point in the order it was found, and the two point indices of
      the drag gesture (-1 when unset). */
  class Graph {
    /** The host's square root. */
    const sqrt: real -> real
    var objects: seq<Shape>
    var points: seq<Point>
    var iptr0: int
    var iptr1: int
    /** The value of every object. */
    ghost var figures: seq<Figure>
    /** The line objects of the graph. */
    ghost var Repr: set<Line>

    ghost predicate Valid()
      reads this, Repr
    {
      && IsSqrt(sqrt)
      && |figures| == |objects|
      && Within(objects, Repr)
      && (forall i :: 0 <= i < |objects| ==> ValueOf(objects[i]) == figures[i])
      && Separate(objects)
      && AllSound(figures)
      && -1 <= iptr0 < |points| && -1 <= iptr1 < |points|
    }

    /** The objects and points, as values. */
    ghost function Board(): Board
      reads this
    {
      Construction.Board(figures, points)
    }

    /** An empty graph: the state before `init`. */
    constructor (sqrt: real -> real)
      requires IsSqrt(sqrt)
      ensures Valid() && this.sqrt == sqrt && Repr == {}
      ensures objects == [] && points == [] && iptr0 == -1 && iptr1 == -1
    {
      this.sqrt := sqrt;
      objects, points := [], [];
      iptr0, iptr1 := -1, -1;
      figures, Repr := [], {};
    }

    /** `new_object`: the new object meets every existing object in order
        and the points found are appended; then the object is appended. */
    method NewObject(obj: Shape)
      requires Valid() && Sound(ValueOf(obj))
      requires obj.LineShape? ==> obj.line !in Repr
      modifies this, Repr, Footprint(obj)
      ensures Valid()
      ensures Board() == Added(sqrt, old(Board()), old(ValueOf(obj)))
      ensures objects == old(objects) + [obj] && Repr == old(Repr) + Footprint(obj)
      ensures iptr0 == old(iptr0) && iptr1 == old(iptr1)
    {
      ghost var w := SweepAll(sqrt, ValueOf(obj), figures);
      ghost var objects0, Repr0 := objects, Repr;
      MeetAll(obj);
      objects := objects + [obj];
      figures := w.others + [w.fig];
      Repr := Repr + Footprint(obj);
      AddedValid(obj, objects0, Repr0, w);
    }

    /** The state `new_object` leaves is valid: obj, which was not part of
        the graph, and the objects as the sweep w left them. */
    lemma AddedValid(obj: Shape, objs: seq<Shape>, lines: set<Line>, w: Sweep)
      requires objects == objs + [obj] && Repr == lines + Footprint(obj) && figures == w.others + [w.fig]
      requires IsSqrt(sqrt) && Within(objs, lines) && Separate(objs)
      requires obj.LineShape? ==> obj.line !in lines
      requires Sound(w.fig) && AllSound(w.others) && |w.others| == |objs|
      requires ValueOf(obj) == w.fig
      requires forall j :: 0 <= j < |objs| ==> ValueOf(objs[j]) == w.others[j]
      requires -1 <= iptr0 < |points| && -1 <= iptr1 < |points|
      ensures Valid()
    {
      forall j | 0 <= j < |objects|
        ensures ValueOf(objects[j]) == figures[j]
      {
        if j < |objs| {
          assert objects[j] == objs[j] && figures[j] == w.others[j];
        }
      }
    }

    /** `add_line`: a new line object through p0 and p1 is added. */
    method AddLine(p0: Point, p1: Point)
      requires Valid() && Proper(Seg(p0, p1))
      modifies this, Repr
      ensures Valid()
      ensures Board() == Added(sqrt, old(Board()), LineFig(Seg(p0, p1)))
      ensures iptr0 == old(iptr0) && iptr1 == old(iptr1)
      ensures fresh(Repr - old(Repr))
    {
      var line := new Line(p0, p1);
      NewObject(LineShape(line));
    }

    /** `add_circle`: a new circle centred on p0 through p1 is added. */
    method AddCircle(p0: Point, p1: Point)
      requires Valid()
      modifies this, Repr
      ensures Valid()
      ensures Board() == Added(sqrt, old(Board()), CircleFig(CircleThrough(sqrt, p0, p1)))
      ensures iptr0 == old(iptr0) && iptr1 == old(iptr1) && Repr == old(Repr)
    {
      var dx := p1.x - p0.x;
      var dy := p1.y - p0.y;
      var r := sqrt(dx * dx + dy * dy);
      assert Circle(p0.x, p0.y, r) == CircleThrough(sqrt, p0, p1) by {
        assert dx * dx + dy * dy == Norm2(p1.x - p0.x, p1.y - p0.y);
      }
      NewObject(CircleShape(Circle(p0.x, p0.y, r)));
    }

    /** `init`: the point (500,400) is recorded, then the line to (700,400)
        and the circle about (500,400) through (700,400) are added. On an
        empty graph this leaves the line (300,400)-(700,400), the circle of
        radius 200 and the points (500,400), (300,400) and (700,400). */
    method Init()
      requires Valid()
      modifies this, Repr
      ensures Valid()
      ensures Board() == Initial(sqrt, old(Board()))
      ensures iptr0 == old(iptr0) && iptr1 == old(iptr1)
      ensures old(Board()) == Construction.Board([], []) ==>
              Board() == Construction.Board([LineFig(Seg(Point(300.0, 400.0), Point(700.0, 400.0))),
                                             CircleFig(Circle(500.0, 400.0, 200.0))],
                                            [Point(500.0, 400.0), Point(300.0, 400.0), Point(700.0, 400.0)])
    {
      points := points + [Start0];
      assert Sound(LineFig(Seg(Start0, Start1))) by {
        StartFacts();
      }
      AddLine(Start0, Start1);
      AddCircle(Start0, Start1);
      if old(Board()) == Construction.Board([], []) {
        InitialFromEmpty(sqrt);
      }
    }

    /** `mousedown`: the first point nearest to (x, y) is picked, or none
        when there are no points. */
    method MouseDown(x: real, y: real)
      requires Valid()
      modifies this`iptr0
      ensures Valid()
      ensures FirstNearest(sqrt, points, x, y, iptr0)
    {
      iptr0 := Nearest(sqrt, points, x, y);
    }

    /** `mousemove`: while a point is picked, the first point nearest to
        (x, y) becomes the second pick, and if it differs from the first
        the circle about the first through the second is previewed. */
    method MouseMove(x: real, y: real) returns (preview: Preview)
      requires Valid()
      modifies this`iptr1
      ensures Valid()
      ensures iptr0 < 0 ==> iptr1 == old(iptr1) && preview == NoPreview
      ensures 0 <= iptr0 ==> FirstNearest(sqrt, points, x, y, iptr1)
      ensures 0 <= iptr0 ==>
              preview == if iptr1 != iptr0 then CirclePreview(CircleThrough(sqrt, points[iptr0], points[iptr1]))
                         else NoPreview
    {
      preview := NoPreview;
      if iptr0 >= 0 {
        iptr1 := Nearest(sqrt, points, x, y);
        if iptr1 != iptr0 {
          var p0 := points[iptr0];
          var p1 := points[iptr1];
          var r := Distance(sqrt, p0, p1.x, p1.y);
          Norm2Negate(p0.x - p1.x, p0.y - p1.y);
          preview := CirclePreview(Circle(p0.x, p0.y, r));
        }
      }
    }

    /** `mouseup`: two distinct picks commit the circle about the first
        through the second; the picks are cleared in every case. */
    method MouseUp()
      requires Valid()
      modifies this, Repr
      ensures Valid()
      ensures iptr0 == -1 && iptr1 == -1
      ensures old(0 <= iptr0 && 0 <= iptr1 && iptr1 != iptr0) ==>
              Board() == Added(sqrt, old(Board()), CircleFig(CircleThrough(sqrt, old(points[iptr0]), old(points[iptr1]))))
      ensures !old(0 <= iptr0 && 0 <= iptr1 && iptr1 != iptr0) ==> Board() == old(Board())
    {
      if iptr0 >= 0 && iptr1 >= 0 && iptr1 != iptr0 {
        var p0 := points[iptr0];
        var p1 := points[iptr1];
        AddCircle(p0, p1);
      }
      iptr0 := -1;
      iptr1 := -1;
    }

    /** The loop of `new_object`: obj meets each existing object in turn,
        and the points each meeting returns are appended. */
    method MeetAll(obj: Shape)
      requires Valid() && Sound(ValueOf(obj))
      requires obj.LineShape? ==> obj.line !in Repr
      modifies this`points, Repr, Footprint(obj)
      ensures var w := SweepAll(sqrt, old(ValueOf(obj)), figures);
              && points == old(points) + w.points
              && ValueOf(obj) == w.fig
              && (forall j :: 0 <= j < |objects| ==> ValueOf(objects[j]) == w.others[j])
    {
      ghost var f := ValueOf(obj);
      assert figures[..0] == [];
      var i := 0;
      while i < |objects|
        invariant 0 <= i <= |objects|
        invariant Swept(obj, f, old(points), i)
      {
        MeetOne(obj, i, f, old(points));
        i := i + 1;
      }
      assert figures[..i] == figures;
    }

    /** The objects before i have the values a and objects[i] has the
        value x: the objects up to i have the values a + [x]. */
    lemma Extended(a: seq<Figure>, x: Figure, i: int)
      requires 0 <= i < |objects| && |a| == i
      requires forall j :: 0 <= j < i ==> ValueOf(objects[j]) == a[j]
      requires ValueOf(objects[i]) == x
      ensures forall j :: 0 <= j < i + 1 ==> ValueOf(objects[j]) == (a + [x])[j]
    {
    }

    /** Appending twice is appending the concatenation. */
    static lemma AppendTwice(a: seq<Point>, b: seq<Point>, c: seq<Point>)
      ensures (a + b) + c == a + (b + c)
    {
    }

    /** After the loop of `new_object` has met the first i objects: the
        points found so far follow the old ones, obj and the objects met
        have the values the sweep gives, and the others are untouched. */
    ghost predicate Swept(obj: Shape, f: Figure, before: seq<Point>, i: int)
      reads this, Repr, Footprint(obj)
    {
      && 0 <= i <= |objects| == |figures|
      && Sound(f) && AllSound(figures)
      && SweptBy(obj, SweepAll(sqrt, f, figures[..i]), before, i)
    }

    /** The loop of `new_object` has met the first i objects, and w is how
        the meetings left the points and the figures. */
    ghost predicate SweptBy(obj: Shape, w: Sweep, before: seq<Point>, i: int)
      reads this, Repr, Footprint(obj)
    {
      && Within(objects, Repr)
      && 0 <= i <= |objects| == |figures| && |w.others| == i
      && points == before + w.points
      && ValueOf(obj) == w.fig
      && (forall j :: 0 <= j < i ==> ValueOf(objects[j]) == w.others[j])
      && (forall j :: i <= j < |objects| ==> ValueOf(objects[j]) == figures[j])
    }

    /** One pass of the loop of `new_object`: obj meets objects[i]. */
    method MeetOne(obj: Shape, i: int, ghost f: Figure, ghost before: seq<Point>)
      requires 0 <= i < |objects| && Separate(objects)
      requires obj.LineShape? ==> obj.line !in Repr
      requires Swept(obj, f, before, i)
      modifies this`points, Footprint(obj), Footprint(objects[i])
      ensures Swept(obj, f, before, i + 1)
    {
      SweepStep(sqrt, f, figures, i);
      ghost var w := SweepAll(sqrt, f, figures[..i]);
      ghost var m := Intersect(sqrt, w.fig, figures[i]);
      label Before:
      var pts := Meet(sqrt, obj, objects[i]);
      forall j | 0 <= j < |objects| && j != i
        ensures ValueOf(objects[j]) == old@Before(ValueOf(objects[j]))
      {
        assert Footprint(objects[j]) !! Footprint(obj) + Footprint(objects[i]);
      }
      points := points + pts;
      SweptNext(obj, before, i, w, m);
    }

    /** The state after i + 1 meetings, from the state after i and what
        the (i + 1)-th meeting m did. */
    lemma SweptNext(obj: Shape, before: seq<Point>, i: int, w: Sweep, m: Meeting)
      requires Within(objects, Repr)
      requires 0 <= i < |objects| == |figures| && |w.others| == i
      requires points == (before + w.points) + m.points
      requires ValueOf(obj) == m.receiver && ValueOf(objects[i]) == m.argument
      requires forall j :: 0 <= j < i ==> ValueOf(objects[j]) == w.others[j]
      requires forall j :: i < j < |objects| ==> ValueOf(objects[j]) == figures[j]
      ensures SweptBy(obj, Then(w, m), before, i + 1)
    {
      AppendTwice(before, w.points, m.points);
      Extended(w.others, m.argument, i);
    }
  }
}

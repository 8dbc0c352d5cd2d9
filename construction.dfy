/** The construction on values: what one call of `intersect` does to the
    two objects involved, what `new_object` does to the lists of objects
    and points, and what `init` builds. The classes of the `Ruler` module
    run these steps in place and are proved against them. */
module Construction {
  import opened Algebra
  import opened Geometry
  import opened Figures

  /** A figure the intersection formulas can work with: a line must have
      two distinct defining points (the line-circle case divides by d2).
      Circles always qualify. */
  predicate Sound(f: Figure)
  {
    f.LineFig? ==> Proper(f.seg)
  }

  /** One call `receiver.intersect(argument)`: the points it returns, and
      both objects afterwards. */
  datatype Meeting = Meeting(points: seq<Point>, receiver: Figure, argument: Figure)

  /** The dispatch of `Line.intersect` and `Circle.intersect`. A line
      receiver may extend itself; a circle receiver hands a line argument
      the call, so that it is the argument that may be extended; two
      circles change nothing. */
  function Intersect(sqrt: real -> real, a: Figure, b: Figure): (r: Meeting)
    requires Sound(a) && Sound(b)
    ensures |r.points| <= 2
    ensures r.receiver.LineFig? == a.LineFig? && r.argument.LineFig? == b.LineFig?
    ensures a.CircleFig? ==> r.receiver == a
    ensures b.CircleFig? || a.LineFig? ==> r.argument == b
    ensures Sound(r.receiver) && Sound(r.argument)
    ensures r.receiver.LineFig? ==> SqLen(a.seg) <= SqLen(r.receiver.seg)
    ensures r.argument.LineFig? ==> SqLen(b.seg) <= SqLen(r.argument.seg)
  {
    match a
    case LineFig(s) =>
      (match b
       case LineFig(t) =>
         LineLineGrows(s, t);
         var l := LineLine(s, t);
         Meeting(l.points, LineFig(l.line), b)
       case CircleFig(c) =>
         LineCircleGrows(sqrt, s, c);
         var l := LineCircle(sqrt, s, c);
         Meeting(l.points, LineFig(l.line), b))
    case CircleFig(c) =>
      (match b
       case LineFig(s) =>
         LineCircleGrows(sqrt, s, c);
         var l := LineCircle(sqrt, s, c);
         Meeting(l.points, a, LineFig(l.line))
       case CircleFig(e) =>
         Meeting(CircleCircle(sqrt, c, e), a, b))
  }

  /** Every figure of a list is sound. */
  predicate AllSound(fs: seq<Figure>)
  {
    forall i :: 0 <= i < |fs| ==> Sound(fs[i])
  }

  /** A prefix of a list of sound figures is sound. */
  lemma AllSoundPrefix(fs: seq<Figure>, i: nat)
    requires AllSound(fs) && i <= |fs|
    ensures AllSound(fs[..i])
  {
    forall j | 0 <= j < i
      ensures Sound(fs[..i][j])
    {
      assert fs[..i][j] == fs[j];
    }
  }

  /** The loop of `new_object` after it has met some existing objects: the
      points found so far in list order, the new figure as the meetings
      have left it, and the objects met, as they have left them. */
  datatype Sweep = Sweep(points: seq<Point>, fig: Figure, others: seq<Figure>)

  /** The sweep w followed by the meeting m: its points are appended, the
      new figure is what m left of it, and the object met is recorded. */
  function Then(w: Sweep, m: Meeting): Sweep
  {
    Sweep(w.points + m.points, m.receiver, w.others + [m.argument])
  }

  /** The new figure f meets the objects of `objs` one after the other. */
  function SweepAll(sqrt: real -> real, f: Figure, objs: seq<Figure>): (r: Sweep)
    requires Sound(f) && AllSound(objs)
    ensures |r.others| == |objs|
    ensures Sound(r.fig) && AllSound(r.others)
    decreases |objs|
  {
    if objs == [] then Sweep([], f, [])
    else
      var s := SweepAll(sqrt, f, objs[..|objs| - 1]);
      Then(s, Intersect(sqrt, s.fig, objs[|objs| - 1]))
  }

  /** One more step of the sweep: the figure meets the next object; the
      objects met before keep the values they had. */
  lemma SweepStep(sqrt: real -> real, f: Figure, objs: seq<Figure>, i: nat)
    requires Sound(f) && AllSound(objs) && i < |objs|
    ensures AllSound(objs[..i]) && AllSound(objs[..i + 1])
    ensures var w := SweepAll(sqrt, f, objs[..i]);
            var m := Intersect(sqrt, w.fig, objs[i]);
            var w' := SweepAll(sqrt, f, objs[..i + 1]);
            && w' == Then(w, m)
            && |w.others| == i
            && (forall j :: 0 <= j < i ==> w'.others[j] == w.others[j])
            && w'.others[i] == m.argument
  {
    AllSoundPrefix(objs, i);
    AllSoundPrefix(objs, i + 1);
    assert objs[..i + 1][..i] == objs[..i];
  }

  /** What a sweep r of the new figure f over objs keeps: at most two
      points per object met; every object keeps its kind; circles never
      change, and neither does the new figure when it is a circle; lines
      only grow; and a new line leaves all existing objects alone. */
  predicate Kept(f: Figure, objs: seq<Figure>, r: Sweep)
  {
    && |r.others| == |objs|
    && |r.points| <= 2 * |objs|
    && r.fig.LineFig? == f.LineFig?
    && (f.CircleFig? ==> r.fig == f)
    && (f.LineFig? ==> SqLen(f.seg) <= SqLen(r.fig.seg))
    && (f.LineFig? ==> r.others == objs)
    && (forall i :: 0 <= i < |objs| ==> r.others[i].LineFig? == objs[i].LineFig?)
    && (forall i :: 0 <= i < |objs| && objs[i].CircleFig? ==> r.others[i] == objs[i])
    && (forall i :: 0 <= i < |objs| && objs[i].LineFig? ==> SqLen(objs[i].seg) <= SqLen(r.others[i].seg))
  }

  /** One more meeting m of the figure s.fig with the object x, which
      keeps what `Intersect` keeps, extends what the sweep s keeps. */
  lemma KeptThen(f: Figure, objs: seq<Figure>, x: Figure, s: Sweep, m: Meeting)
    requires Kept(f, objs, s)
    requires |m.points| <= 2
    requires m.receiver.LineFig? == s.fig.LineFig? && m.argument.LineFig? == x.LineFig?
    requires s.fig.CircleFig? ==> m.receiver == s.fig
    requires x.CircleFig? || s.fig.LineFig? ==> m.argument == x
    requires m.receiver.LineFig? ==> SqLen(s.fig.seg) <= SqLen(m.receiver.seg)
    requires m.argument.LineFig? ==> SqLen(x.seg) <= SqLen(m.argument.seg)
    ensures Kept(f, objs + [x], Then(s, m))
  {
    var r := Then(s, m);
    forall i | 0 <= i < |objs| + 1
      ensures r.others[i] == if i < |objs| then s.others[i] else m.argument
    {
    }
  }

  /** The sweep keeps what `Kept` says, by induction on the objects met. */
  lemma {:induction false} SweepKeeps(sqrt: real -> real, f: Figure, objs: seq<Figure>)
    requires Sound(f) && AllSound(objs)
    ensures Kept(f, objs, SweepAll(sqrt, f, objs))
    decreases |objs|
  {
    if objs != [] {
      var init := objs[..|objs| - 1];
      SweepKeeps(sqrt, f, init);
      var s := SweepAll(sqrt, f, init);
      var m := Intersect(sqrt, s.fig, objs[|objs| - 1]);
      KeptThen(f, init, objs[|objs| - 1], s, m);
      assert init + [objs[|objs| - 1]] == objs;
    }
  }

  /** The whole construction as values: every object, and every point. */
  datatype Board = Board(figures: seq<Figure>, points: seq<Point>)

  /** `new_object`: the new figure meets every existing object in order,
      the points found are appended, and the new figure is appended. */
  function Added(sqrt: real -> real, b: Board, f: Figure): (r: Board)
    requires AllSound(b.figures) && Sound(f)
    ensures AllSound(r.figures)
  {
    var s := SweepAll(sqrt, f, b.figures);
    Board(s.others + [s.fig], b.points + s.points)
  }

  /** `new_object` appends one figure and only appends points: the old
      points stay a prefix, at most two per existing object are added,
      circles are left as they were, lines only grow, and the figure added
      last is the new one, which is unchanged if it is a circle. */
  lemma AddedGrows(sqrt: real -> real, b: Board, f: Figure)
    requires AllSound(b.figures) && Sound(f)
    ensures var r := Added(sqrt, b, f);
            && |r.figures| == |b.figures| + 1
            && r.points[..|b.points|] == b.points
            && |r.points| <= |b.points| + 2 * |b.figures|
            && r.figures[|b.figures|].LineFig? == f.LineFig?
            && (f.CircleFig? ==> r.figures[|b.figures|] == f)
            && (f.LineFig? ==> r.figures[..|b.figures|] == b.figures)
            && (forall i :: 0 <= i < |b.figures| && b.figures[i].CircleFig? ==> r.figures[i] == b.figures[i])
            && (forall i :: 0 <= i < |b.figures| && b.figures[i].LineFig? ==>
                  r.figures[i].LineFig? && SqLen(b.figures[i].seg) <= SqLen(r.figures[i].seg))
  {
    SweepKeeps(sqrt, f, b.figures);
    var s := SweepAll(sqrt, f, b.figures);
    assert (s.others + [s.fig])[..|b.figures|] == s.others;
  }

  /** The circle `add_circle` makes: centred on p0, through p1. */
  function CircleThrough(sqrt: real -> real, p0: Point, p1: Point): (c: Circle)
    requires IsSqrt(sqrt)
    ensures c.x == p0.x && c.y == p0.y
    ensures 0.0 <= c.r && c.r * c.r == SqDist(p1, p0.x, p0.y)
  {
    Norm2NonNegative(p1.x - p0.x, p1.y - p0.y);
    SqrtOf(sqrt, Norm2(p1.x - p0.x, p1.y - p0.y));
    Circle(p0.x, p0.y, sqrt(Norm2(p1.x - p0.x, p1.y - p0.y)))
  }

  /** The two points `init` starts from. */
  const Start0: Point := Point(500.0, 400.0)
  const Start1: Point := Point(700.0, 400.0)

  /** `init`: the point p0 is recorded, then the line p0-p1 and the circle
      centred on p0 through p1 are added. */
  function Initial(sqrt: real -> real, b: Board): (r: Board)
    requires IsSqrt(sqrt) && AllSound(b.figures)
    ensures AllSound(r.figures)
  {
    var b1 := Board(b.figures, b.points + [Start0]);
    var b2 := Added(sqrt, b1, LineFig(Seg(Start0, Start1)));
    Added(sqrt, b2, CircleFig(CircleThrough(sqrt, Start0, Start1)))
  }

  /** On the start line, seen from the start circle, `root` is 200^2 *
      40000 - 0^2: the line runs through the centre. */
  lemma StartDiscriminant()
    ensures Discriminant(Seg(Start0, Start1), Circle(500.0, 400.0, 200.0)) == 1600000000.0
  {
    var s := Seg(Start0, Start1);
    var c := Circle(500.0, 400.0, 200.0);
    assert SqLen(s) == 40000.0 && CrossAt(s, c) == 0.0;
    DiscriminantAt(s, c, 200.0, 40000.0, 0.0);
  }

  /** The start line runs through the start circle's centre (det = 0)
      and has d2 = 40000. */
  lemma StartFacts()
    ensures CrossAt(Seg(Start0, Start1), Circle(500.0, 400.0, 200.0)) == 0.0
    ensures SqLen(Seg(Start0, Start1)) == 40000.0
  {
  }

  /** With sqrt(root) = 40000 = d2, pp = (700,400) and pm = (300,400). */
  lemma StartChord()
    ensures ChordPlus(Seg(Start0, Start1), Circle(500.0, 400.0, 200.0), 40000.0) == Point(700.0, 400.0)
    ensures ChordMinus(Seg(Start0, Start1), Circle(500.0, 400.0, 200.0), 40000.0) == Point(300.0, 400.0)
  {
    var s := Seg(Start0, Start1);
    var c := Circle(500.0, 400.0, 200.0);
    StartFacts();
    FootOfCentreLine(s, c);
    HalfChordOfLength(s);
    ChordFrom(s, c, 40000.0, Point(500.0, 400.0), Point(200.0, 0.0));
  }

  /** pp = (700,400) is the far end already; pm = (300,400) lies behind
      p0 and becomes the new p0. */
  lemma StartUpdates()
    ensures Updated(Seg(Start0, Start1), Point(700.0, 400.0)) == Seg(Start0, Start1)
    ensures Updated(Seg(Start0, Start1), Point(300.0, 400.0)) == Seg(Point(300.0, 400.0), Start1)
  {
    var s := Seg(Start0, Start1);
    assert SqLen(s) == 40000.0;
    assert Projection(s, Point(700.0, 400.0)) == 40000.0;
    assert Projection(s, Point(300.0, 400.0)) == -40000.0;
  }

  /** On the start line, the start circle's discriminant is positive and
      its two cut points are (300,400) and (700,400): pp is the far end
      already, pm lies behind p0 and becomes the new p0. */
  lemma StartCut(sqrt: real -> real)
    requires IsSqrt(sqrt)
    ensures LineCircle(sqrt, Seg(Start0, Start1), Circle(500.0, 400.0, 200.0))
         == LineResult([Point(300.0, 400.0), Point(700.0, 400.0)], Seg(Point(300.0, 400.0), Start1))
  {
    StartDiscriminant();
    SqrtUnique(sqrt, 1600000000.0, 40000.0);
    StartChord();
    StartUpdates();
  }

  /** The first object added to a board meets nothing. */
  lemma AddedToEmpty(sqrt: real -> real, pts: seq<Point>, f: Figure)
    requires Sound(f)
    ensures Added(sqrt, Board([], pts), f) == Board([f], pts)
  {
    assert SweepAll(sqrt, f, []) == Sweep([], f, []);
  }

  /** The second object added meets the first one only. */
  lemma AddedToSingle(sqrt: real -> real, pts: seq<Point>, g: Figure, f: Figure)
    requires Sound(g) && Sound(f)
    ensures var m := Intersect(sqrt, f, g);
            Added(sqrt, Board([g], pts), f) == Board([m.argument, m.receiver], pts + m.points)
  {
    assert [g][..0] == [];
    assert SweepAll(sqrt, f, []) == Sweep([], f, []);
  }

  /** A circle receiver hands the meeting to a line argument. */
  lemma IntersectCircleLine(sqrt: real -> real, c: Circle, s: Seg)
    requires Proper(s)
    ensures var l := LineCircle(sqrt, s, c);
            Intersect(sqrt, CircleFig(c), LineFig(s)) == Meeting(l.points, CircleFig(c), LineFig(l.line))
  {
  }

  lemma PrependOne(a: Point, b: Point, c: Point)
    ensures [a] + [b, c] == [a, b, c]
  {
  }

  /** The circle `init` adds has radius 200. */
  lemma StartCircle(sqrt: real -> real)
    requires IsSqrt(sqrt)
    ensures CircleThrough(sqrt, Start0, Start1) == Circle(500.0, 400.0, 200.0)
  {
    assert Norm2(Start1.x - Start0.x, Start1.y - Start0.y) == 40000.0;
    SqrtUnique(sqrt, 40000.0, 200.0);
  }

  /** From an empty page, `init` yields the line from (300,400) to
      (700,400), the circle of radius 200 about (500,400), and the points
      (500,400), (300,400) and (700,400): the circle cuts its own radius
      line at both ends, and the line is extended backwards to (300,400). */
  lemma InitialFromEmpty(sqrt: real -> real)
    requires IsSqrt(sqrt)
    ensures Initial(sqrt, Board([], [])) ==
            Board([LineFig(Seg(Point(300.0, 400.0), Point(700.0, 400.0))), CircleFig(Circle(500.0, 400.0, 200.0))],
                  [Point(500.0, 400.0), Point(300.0, 400.0), Point(700.0, 400.0)])
  {
    var s := Seg(Start0, Start1);
    var c := Circle(500.0, 400.0, 200.0);
    StartCircle(sqrt);
    assert Sound(LineFig(s)) by {
      StartFacts();
    }
    var b1 := Board([], [] + [Start0]);
    assert b1 == Board([], [Start0]);
    AddedToEmpty(sqrt, [Start0], LineFig(s));
    var b2 := Added(sqrt, b1, LineFig(s));
    assert b2 == Board([LineFig(s)], [Start0]);
    AddedToSingle(sqrt, [Start0], LineFig(s), CircleFig(c));
    var q0, q1 := Point(300.0, 400.0), Point(700.0, 400.0);
    StartCut(sqrt);
    IntersectCircleLine(sqrt, c, s);
    var m := Intersect(sqrt, CircleFig(c), LineFig(s));
    assert m == Meeting([q0, q1], CircleFig(c), LineFig(Seg(q0, Start1)));
    PrependOne(Start0, q0, q1);
    assert Added(sqrt, b2, CircleFig(c)) == Board([LineFig(Seg(q0, Start1)), CircleFig(c)], [Start0, q0, q1]);
    assert Initial(sqrt, Board([], [])) == Added(sqrt, b2, CircleFig(c));
  }
}

# ruler-compass: the geometry engine and construction graph, in Dafny

ruler-compass is a browser toy for ruler-and-compass constructions. `init`
seeds one point, a line and a circle, and the circle's two crossings with
the line are added to the points. Dragging from one constructed
point to another adds the circle centred on the first point through the
second. Every new object is intersected with every existing object, and the
points found join the set of points the user can pick.

This project models the core of `ruler.js`:

- **Lines that grow** (`Line.update`). A line is held by its two defining
  endpoints. When a point is found on it outside the drawn segment, the
  endpoint on that side moves to that point. At most one endpoint changes,
  and the squared length never decreases. The direction is not kept: when
  the point is off the line, the line turns.
- **The intersection engine** (`Line.intersect`, `Circle.intersect`).
  - Line with line: the determinant test for parallel lines, then the
    source's point formula as written.
  - Line with circle: the discriminant `root`, the foot of the perpendicular
    from the centre, and the two chord points.
  - Circle with circle: the radical-line construction.
  - The thresholds 1E-6, 1E-12 and 1E-3 are named constants.
  - A circle receiver hands a line argument the call, so the line is what
    gets extended.
- **The construction graph** (`new_object`, `add_line`, `add_circle`,
  `init`). Two append-only lists hold the objects and the points. A new
  object meets each existing object in order, then is appended.
- **The drag gesture** (`mousedown`, `mousemove`, `mouseup`). These cover
  the first-nearest hit test and the two pick indices, which are -1 when
  unset. Releasing with two distinct picks commits a circle.

The source's square root is a parameter `sqrt: real -> real`. All that is
known of it is `Geometry.IsSqrt`: a non-negative argument gets its
non-negative square root. Distances are compared through that.

Layout:

- `algebra.dfy` (`Algebra`): real-arithmetic lemmas on plain variables.
- `geometry.dfy` (`Geometry`): points, segments, circles, the constants,
  `Point.distance` and the square root.
- `figures.dfy` (`Figures`): `update` and the three intersection cases, as
  functions on values.
- `secants.dfy` (`Secants`): what the line-circle case computes, in
  geometric terms.
- `meets.dfy` (`Meets`): the same for the circle-circle case.
- `construction.dfy` (`Construction`): the dispatch of `intersect`, the
  sweep of `new_object`, `add_circle`'s circle and `init`, as values.
- `graph.dfy` (`Ruler`):
  - the `Line` class, whose endpoints `Update` reassigns in place;
  - the `Graph` class, holding `objects`, `points`, `iptr0` and `iptr1`;
  - the methods that run the source's code and are proved against the
    functions above.

Two behaviours of the code are easy to misread, and the model keeps both
as written:

- The start circle is centred on the start line's endpoint (500,400), so
  it cuts the line in two points, (300,400) and (700,400), not one.
- The line-line point is in general on neither line. The source's
  `cross0` and `cross1` each take one endpoint from either line.
  `Figures.LineLineOffArgument` gives an input where the point misses the
  argument line, and `Figures.LineLineOffBoth` one where it misses both.
  The update that follows can then turn the receiver:
  `Figures.LineLineTurnsReceiver` gives such an input. So "lines that grow"
  below means that the squared length never decreases. It does not mean
  the line keeps its direction. The engine keeps the formula as written.

## Model

| member | source | states |
|---|---|---|
| Geometry.Distance | ruler.js:30-34 | `Point.distance` is non-negative and its square is dx*dx + dy*dy |
| Geometry.DistanceLess | ruler.js:30-34 | one distance is below another exactly when the squared distance is |
| Figures.Updated | ruler.js:49-61 | at most one endpoint changes: the result is the old line, p replacing p0, or p replacing p1 |
| Figures.UpdateCovers | ruler.js:50-60 | after the update, p projects into the new segment: 0 <= dd <= d0 |
| Figures.UpdateIdempotent | ruler.js:49-61 | updating twice with the same point is updating once |
| Figures.UpdateGrows | ruler.js:49-61 | the squared length never decreases and strictly increases when an endpoint moves, so a non-degenerate line stays non-degenerate |
| Ruler.Line.constructor | ruler.js:38-42 | a new line has the two given endpoints |
| Ruler.Line.Update | ruler.js:49-61 | the endpoints after the call are `Updated` of the endpoints before |
| Figures.DetSwap | ruler.js:64-68 | swapping receiver and argument negates det |
| Figures.LineLineFrom | ruler.js:64-75 | det and the point, built from the source's intermediate values, are `Det` and the as-written point |
| Figures.LineLine | ruler.js:63-78 | the result is empty exactly when abs(det) < 1E-6, has at most one point, leaves the receiver alone when empty and otherwise updates it with its point |
| Figures.LineLineGrows | ruler.js:63-78 | the receiver never gets shorter |
| Figures.LineLineSelf | ruler.js:63-71 | a line meets itself in no point and is left unchanged |
| Figures.LineLineSymmetric | ruler.js:63-71 | the parallel test gives the same answer whichever line is the receiver |
| Figures.LineLineOffArgument | ruler.js:72-75 | for the receiver (0,0)-(1,0) and the argument (0,-1)-(0,1), which cross at (0,0), the point returned is (0.5,0), which is not on the argument line |
| Figures.LineLineOffBoth | ruler.js:72-75 | for the receiver (0,1)-(1,1) and the argument (0,-1)-(0,1), which cross at (0,1), the point returned is (0.5,0), which is on neither line |
| Figures.LineLineTurnsReceiver | ruler.js:49-77 | for the receiver (2,1)-(3,1) and the argument (0,-1)-(0,1) the point is (1.5,-2), and the receiver becomes (1.5,-2)-(3,1), which no longer passes through its old p0 |
| Ruler.Line.IntersectLine | ruler.js:63-78 | the points returned and the receiver afterwards are those of `LineLine` on the old values of both lines; only the receiver is modified |
| Figures.PartsFrom | ruler.js:80-88 | the source's centre-relative coordinates give the direction p1 - p0, d2 as the squared length, det as the cross product and root as `Discriminant` |
| Figures.FootOfCentreLine | ruler.js:92-93 | for a line through the centre (det = 0) the point (x, y) is the centre |
| Figures.LineCircle | ruler.js:80-105 | the result is empty exactly when root < 0, has one point exactly when 0 <= root < 1E-12, never has more than two, and leaves the line alone when empty |
| Figures.LineCircleGrows | ruler.js:80-105 | the line never gets shorter, whichever branch is taken |
| Secants.FootOnItsLine | ruler.js:92-93 | (x, y) lies on the line |
| Secants.FootNearest | ruler.js:92-93 | no point of the line is nearer the centre than (x, y): it is the foot of the perpendicular |
| Secants.FootDistance | ruler.js:86-93 | the squared distance of (x, y) from the centre, times d2, is det*det |
| Secants.DiscriminantSign | ruler.js:88-91 | root < 0 exactly when (x, y) lies outside the circle; when root >= 0 it lies within |
| Secants.LineCircleMisses | ruler.js:88-91 | the result is empty exactly when every point of the infinite line lies outside the circle |
| Secants.LineCircleTangent | ruler.js:92-97 | in the one-point case the point is the foot, on the line and within the circle, and the line is updated with it |
| Secants.ChordOnLine | ruler.js:99-102 | pp and pm lie on the line |
| Secants.ChordOnCircle | ruler.js:99-102 | pp and pm lie on the circle when the root used squares to `root` |
| Secants.LineCircleSecant | ruler.js:99-105 | in the two-point case the result is [pm, pp]; both lie on the line and on the circle; their midpoint is the foot; the line is updated with pp, then with pm |
| Ruler.Line.IntersectCircle | ruler.js:79-106 | the points returned and the line afterwards are those of `LineCircle` on the old line |
| Ruler.Line.Intersect | ruler.js:62-107 | dispatches on the argument's kind to the line or the circle case, with their results |
| Figures.MeetPartsFrom | ruler.js:126-141 | the source's xd, yd2, (x, y) and (dxpm, dypm) are `Along`, `HalfChordSq`, `Base` and `Offset` |
| Figures.CircleCircle | ruler.js:126-142 | at most two points; none for concentric circles; otherwise none exactly when yd2 < 0, and exactly one when yd2 >= 0 and sqrt(yd2) < 1E-3 |
| Meets.CentreDistanceZero | ruler.js:126-128 | d is zero exactly for concentric circles, is non-negative, and squares to dx*dx + dy*dy |
| Meets.HalfChordMisses | ruler.js:126-131 | for non-concentric circles with non-negative radii, yd2 is negative exactly when they lie apart or one lies strictly inside the other |
| Meets.CircleCircleSingle | ruler.js:126-138 | for non-concentric circles there is exactly one point exactly when 0 <= yd2 < (1E-3)^2 |
| Meets.CircleCircleMisses | ruler.js:126-133 | for non-concentric circles with non-negative radii the result is empty exactly when they lie apart or one lies strictly inside the other |
| Meets.BaseOnCentreLine | ruler.js:135-136 | the point (x, y) lies on the line through the two centres |
| Meets.CircleCircleTangent | ruler.js:134-138 | in the one-point case the point is the base point, 0 <= yd2 < (1E-3)^2, the base lies inside each circle by exactly yd2 on the squared scale, and it lies on the line through the two centres |
| Meets.MeetPlusOnBoth | ruler.js:134-142 | base + offset lies on both circles |
| Meets.MeetMinusOnBoth | ruler.js:134-142 | base - offset lies on both circles |
| Meets.CircleCircleSecant | ruler.js:134-142 | in the two-point case the result is [base + offset, base - offset]; both lie on both circles; the base is their midpoint |
| Ruler.CirclesMeet | ruler.js:125-143 | the source's circle-circle code returns `CircleCircle` |
| Ruler.CircleIntersect | ruler.js:122-144 | a line argument is handed the call and may be extended; circles are unchanged; the result is `Intersect` with a circle receiver |
| Construction.Intersect | ruler.js:62-144 | at most two points; both objects keep their kind; circles are never changed; a line argument is changed only under a circle receiver; lines stay non-degenerate and never get shorter |
| Construction.IntersectCircleLine | ruler.js:123-124 | a circle receiver meeting a line is the line meeting the circle, with the line extended |
| Ruler.Meet | ruler.js:152 | `a.intersect(b)` on shapes returns what `Intersect` returns on their values and leaves both with the new values |
| Construction.SweepAll | ruler.js:151-153 | the loop meets every existing object once and keeps every figure sound |
| Construction.SweepStep | ruler.js:151-153 | one more pass appends that meeting's points and records the object met; the objects met before keep their values |
| Construction.KeptThen | ruler.js:151-153 | one more meeting preserves what the sweep keeps |
| Construction.SweepKeeps | ruler.js:150-155 | after the loop: at most two points per object; kinds kept; circles unchanged; no line's squared length decreases; a new line changes no existing object |
| Construction.Added | ruler.js:150-155 | `new_object` keeps every figure sound |
| Construction.AddedGrows | ruler.js:150-155 | one figure is appended, last; the old points are a prefix of the new; at most two points per existing object are added; existing circles are unchanged; no existing line's squared length decreases, and existing lines change only when the new object is a circle |
| Construction.AddedToEmpty | ruler.js:150-155 | the first object meets nothing and adds no point |
| Construction.AddedToSingle | ruler.js:150-155 | the second object meets the first object only |
| Construction.CircleThrough | ruler.js:162-166 | the circle of `add_circle` is centred on p0 with a non-negative radius whose square is the squared distance to p1 |
| Construction.StartCircle | ruler.js:171-175 | the circle `init` adds has radius 200 about (500,400) |
| Construction.StartCut | ruler.js:88-105 | the start circle cuts the start line at (300,400) and (700,400), and the line's p0 moves to (300,400) |
| Construction.Initial | ruler.js:170-175 | `init` keeps every figure sound |
| Construction.InitialFromEmpty | ruler.js:170-177 | from an empty page `init` yields the line (300,400)-(700,400), the circle of radius 200 about (500,400), and the points (500,400), (300,400), (700,400) |
| Ruler.Graph.constructor | ruler.js:147-148 | the graph starts with no objects, no points and both picks unset |
| Ruler.Graph.MeetAll | ruler.js:151-153 | the loop appends the sweep's points in order and leaves the new object and every existing object with the sweep's values |
| Ruler.Graph.MeetOne | ruler.js:152 | one pass of the loop preserves the loop invariant one object further on |
| Ruler.Graph.NewObject | ruler.js:150-155 | the new state is `Added` of the old one; the object is appended; the picks are unchanged; the graph stays valid |
| Ruler.Graph.AddLine | ruler.js:157-160 | the board becomes `Added` with the line p0-p1; the picks are unchanged |
| Ruler.Graph.AddCircle | ruler.js:162-168 | the board becomes `Added` with the circle about p0 through p1; the picks are unchanged |
| Ruler.Graph.Init | ruler.js:170-177 | the board becomes `Initial` of the old one and both picks are kept; from an empty graph it holds exactly the objects and points `init` is meant to leave |
| Ruler.Nearest | ruler.js:196-203 | returns -1 for no points, otherwise the first index of least distance to (x, y) |
| Ruler.NearestUnique | ruler.js:197-203 | the first nearest index is unique |
| Ruler.NearestBySquares | ruler.js:197-203 | the first nearest index by distance is the first nearest by squared distance, so the hit test does not depend on the square root |
| Ruler.Graph.MouseDown | ruler.js:192-204 | iptr0 becomes the first nearest point to the press, or -1 when there are no points |
| Ruler.Graph.MouseMove | ruler.js:206-227 | with no first pick, nothing changes and nothing is previewed; otherwise iptr1 becomes the first nearest point, and a circle about the first pick through the second is previewed exactly when the picks differ |
| Ruler.Graph.MouseUp | ruler.js:229-238 | with two set, distinct picks the circle about the first through the second is added, otherwise the board is unchanged; both picks are reset to -1 |

## Left out

- Drawing:
  - all `draw` methods and `draw_all`;
  - the redraws `update` triggers;
  - the preview circle `mousemove` draws. Only the decision to preview, and
    the circle, are modelled.
- Page and event wiring: the canvas, the context, listener registration and
  the reading of `clientX`/`clientY`. The handlers take the coordinates as
  parameters.
- The `Class` helper (ruler.js:3-15), which builds constructors. Lines are a
  Dafny class; points and circles are datatypes, since the source never
  changes them.
- Floating point: the model computes in exact reals. It has no rounding, no
  infinities and no NaN.
- `Math.sqrt` is a parameter with the two facts `Geometry.IsSqrt` states.
- Concentric circles: the source divides by d = 0.
  - For unequal radii `yd2` is negative, and both the source and the model
    return no point.
  - For equal radii the source returns two NaN points, which reals cannot
    represent. `Figures.CircleCircle` returns no point.
- The `for ... in` loops over `points` give string indices in the source.
  The model uses integer indices. The comparisons the handlers make come
  out the same.
- Ruler.Graph.AddLine: requires distinct endpoints. A zero-length line
  would make the line-circle case divide by zero, producing NaN. The
  source's only caller, `init`, passes distinct points.
- Ruler.Line.Intersect: requires a line with distinct endpoints, for the
  same reason. Every line the graph holds has them, and `update` keeps it so.
- Ruler.Graph.NewObject: requires the new object not to be in the graph
  yet. `add_line` and `add_circle` always pass a freshly made object.

/** Facts of real arithmetic that the geometric proofs rest on, each stated
    over plain real variables so that the solver meets one small polynomial
    identity or sign argument at a time. */
module Algebra {

  /** The squared length a*a + b*b of the vector (a, b). */
  function Norm2(a: real, b: real): real
  {
    a * a + b * b
  }

  /** The cross product ux*vy - vx*uy of (ux, uy) and (vx, vy). */
  function Cross(ux: real, uy: real, vx: real, vy: real): real
  {
    ux * vy - vx * uy
  }

  lemma SquarePositive(a: real)
    requires a != 0.0
    ensures 0.0 < a * a
  {
    if a < 0.0 {
      assert a * a == (-a) * (-a);
      assert 0.0 < -a;
    }
  }

  lemma SquareNonNegative(a: real)
    ensures 0.0 <= a * a
  {
    if a != 0.0 {
      SquarePositive(a);
    }
  }

  /** A product of two positive numbers is positive. */
  lemma ProductPositive(x: real, y: real)
    requires 0.0 < x && 0.0 < y
    ensures 0.0 < x * y
  {
  }

  /** A product of two non-negative numbers is non-negative. */
  lemma ProductNonNegative(x: real, y: real)
    requires 0.0 <= x && 0.0 <= y
    ensures 0.0 <= x * y
  {
  }

  /** b*b - a*a factors as (b - a)(b + a). */
  lemma DifferenceOfSquares(a: real, b: real, p: real, m: real)
    requires p == b + a && m == b - a
    ensures b * b - a * a == m * p
  {
  }

  /** Between non-negative numbers, squaring keeps the strict order. */
  lemma SquareMonotone(a: real, b: real)
    requires 0.0 <= a && 0.0 <= b
    ensures a < b <==> a * a < b * b
  {
    DifferenceOfSquares(a, b, b + a, b - a);
    if a < b {
      ProductPositive(b - a, b + a);
    } else {
      ProductNonNegative(a - b, b + a);
      assert (a - b) * (b + a) == -((b - a) * (b + a));
    }
  }

  /** Two non-negative numbers with the same square are equal. */
  lemma SquareRootUnique(t: real, s: real, v: real)
    requires 0.0 <= t && 0.0 <= s && t * t == v && s * s == v
    ensures t == s
  {
    DifferenceOfSquares(s, t, t + s, t - s);
    if t + s != 0.0 {
      ZeroFactor(t - s, t + s);
    }
  }

  /** Lagrange's identity in the plane: |v|^2 |w|^2 = (v.w)^2 + (v x w)^2. */
  lemma Lagrange(vx: real, vy: real, wx: real, wy: real)
    ensures (vx * vx + vy * vy) * (wx * wx + wy * wy)
         == (wx * vx + wy * vy) * (wx * vx + wy * vy) + (vx * wy - vy * wx) * (vx * wy - vy * wx)
  {
  }

  /** If |v|^2 |w|^2 >= (v.w)^2 and v.w exceeds |v|^2 >= 0, then |w|^2
      exceeds |v|^2. */
  lemma ForwardGrows(d0: real, w2: real, dd: real, cr: real)
    requires d0 * w2 == dd * dd + cr * cr
    requires 0.0 <= d0 < dd
    ensures d0 < w2
  {
    SquareNonNegative(cr);
    if w2 <= d0 {
      calc {
        d0 * w2;
      <=
        d0 * d0;
      <=
        d0 * dd;
      <
        dd * dd;
      <=
        dd * dd + cr * cr;
      ==
        d0 * w2;
      }
    }
  }

  /** Multiplying by u*u*d2*d2 is multiplying by one when d2*u is one. */
  lemma Unit2(x: real, a: real, d2: real, u: real)
    requires d2 * u == 1.0
    requires x == a * (u * u) * (d2 * d2)
    ensures x == a
  {
    var k := (u * u) * (d2 * d2);
    assert k == 1.0;
  }

  /** A product with a non-zero factor vanishes only with the other factor. */
  lemma ZeroFactor(a: real, b: real)
    requires a * b == 0.0
    requires b != 0.0
    ensures a == 0.0
  {
  }

  /** Only zero squares to zero. */
  lemma SquareZero(a: real)
    requires a * a == 0.0
    ensures a == 0.0
  {
    if a != 0.0 {
      ZeroFactor(a, a);
    }
  }

  /** Two non-negative numbers add up to zero only when both are zero. */
  lemma SumZero(x: real, y: real)
    requires 0.0 <= x && 0.0 <= y && x + y == 0.0
    ensures x == 0.0 && y == 0.0
  {
  }

  /** Multiplying by a positive number keeps the order. */
  lemma ScaleLess(a: real, b: real, d: real)
    requires 0.0 < d
    ensures a * d < b * d <==> a < b
  {
    if a < b {
      assert 0.0 < (b - a) * d;
    }
    if b <= a {
      assert 0.0 <= (a - b) * d;
    }
  }

  /** The sign of r2*l - e, where e == f2*l with l > 0, compares r2 with f2. */
  lemma ScaledSign(disc: real, r2: real, f2: real, l: real, e: real)
    requires 0.0 < l && f2 * l == e && disc == r2 * l - e
    ensures disc < 0.0 <==> r2 < f2
    ensures 0.0 <= disc ==> f2 <= r2
  {
    assert disc == (r2 - f2) * l;
    ScaleLess(r2 - f2, 0.0, l);
  }

  /** Line-circle case, centre at the origin: the line passes through
      (x0, y0) in the direction (dx, dy), d2 is its squared length, u is
      1/d2 and `det` is the cross product of the two defining points. The
      point u*(det*dy + q*dx, q*dy - det*dx) lies on the line for every q:
      q = 0 gives the foot of the perpendicular, q = +-sqrt(root) the two
      secant points. */
  lemma OnLineAt(x0: real, y0: real, dx: real, dy: real, d2: real, u: real, det: real, q: real,
                 vx: real, vy: real)
    requires d2 == dx * dx + dy * dy && d2 * u == 1.0
    requires det == x0 * dy - dx * y0
    requires vx == u * (det * dy + q * dx) && vy == u * (q * dy - det * dx)
    ensures (vx - x0) * dy == (vy - y0) * dx
  {
    calc {
      (vx - x0) * dy - (vy - y0) * dx;
    ==
      det * (u * (dx * dx + dy * dy)) - (x0 * dy - y0 * dx);
    ==
      det * (u * d2) - det;
    ==
      0.0;
    }
  }

  /** The foot, seen from the centre, is perpendicular to the line. */
  lemma FootPerpendicular(dx: real, dy: real, u: real, det: real, fx: real, fy: real)
    requires fx == u * (det * dy) && fy == u * (-(det * dx))
    ensures fx * dx + fy * dy == 0.0
  {
  }

  /** |foot|^2 * d2 == det^2: the squared distance of the line from the centre. */
  lemma FootNorm(dx: real, dy: real, d2: real, u: real, det: real, fx: real, fy: real)
    requires d2 == dx * dx + dy * dy && d2 * u == 1.0
    requires fx == u * (det * dy) && fy == u * (-(det * dx))
    ensures Norm2(fx, fy) * d2 == det * det
  {
    calc {
      (fx * fx + fy * fy) * d2;
    ==
      det * det * (u * u) * ((dx * dx + dy * dy) * d2);
    ==
      det * det * (u * u) * (d2 * d2);
    }
    Unit2((fx * fx + fy * fy) * d2, det * det, d2, u);
  }

  /** A vector perpendicular to (dx, dy) is perpendicular to every vector parallel to it. */
  lemma PerpendicularParallel(dx: real, dy: real, fx: real, fy: real, wx: real, wy: real)
    requires dx * dx + dy * dy != 0.0
    requires fx * dx + fy * dy == 0.0
    requires wx * dy == wy * dx
    ensures fx * wx + fy * wy == 0.0
  {
    var k := fx * wx + fy * wy;
    calc {
      k * dx;
      fx * wx * dx + fy * (wy * dx);
      fx * wx * dx + fy * (wx * dy);
      wx * (fx * dx + fy * dy);
      0.0;
    }
    calc {
      k * dy;
      fx * (wx * dy) + fy * wy * dy;
      fx * (wy * dx) + fy * wy * dy;
      wy * (fx * dx + fy * dy);
      0.0;
    }
    calc {
      k * (dx * dx + dy * dy);
      (k * dx) * dx + (k * dy) * dy;
      0.0;
    }
    ZeroFactor(k, dx * dx + dy * dy);
  }

  /** The setting of `FootClosest`: the line through (x0, y0) with
      direction (dx, dy), d2 = |(dx, dy)|^2 and u = 1/d2, det the cross
      product, (fx, fy) the foot, and (qx, qy) a point on the line; all
      relative to the centre. */
  predicate FootSetup(x0: real, y0: real, dx: real, dy: real, d2: real, u: real, det: real,
                    fx: real, fy: real, qx: real, qy: real)
  {
    d2 == dx * dx + dy * dy && d2 * u == 1.0
    && det == x0 * dy - dx * y0
    && fx == u * (det * dy) && fy == u * (-(det * dx))
    && (qx - x0) * dy == (qy - y0) * dx
  }

  /** No point (qx, qy) of the line is nearer the centre than the foot. */
  lemma FootClosest(x0: real, y0: real, dx: real, dy: real, d2: real, u: real, det: real,
                    fx: real, fy: real, qx: real, qy: real)
    requires FootSetup(x0, y0, dx, dy, d2, u, det, fx, fy, qx, qy)
    ensures Norm2(fx, fy) <= Norm2(qx, qy)
  {
    OnLineAt(x0, y0, dx, dy, d2, u, det, 0.0, fx, fy);
    FootPerpendicular(dx, dy, u, det, fx, fy);
    var wx, wy := qx - fx, qy - fy;
    assert wx * dy == wy * dx;
    PerpendicularParallel(dx, dy, fx, fy, wx, wy);
    SquareNonNegative(wx);
    SquareNonNegative(wy);
    assert qx * qx + qy * qy == fx * fx + fy * fy + 2.0 * (fx * wx + fy * wy) + (wx * wx + wy * wy);
    assert Norm2(fx, fy) == fx * fx + fy * fy && Norm2(qx, qy) == qx * qx + qy * qy;
  }

  /** The rotation identity behind the secant points. */
  lemma RotationNorm(p: real, q: real, dx: real, dy: real)
    ensures (p * dy + q * dx) * (p * dy + q * dx) + (q * dy - p * dx) * (q * dy - p * dx)
         == (p * p + q * q) * (dx * dx + dy * dy)
  {
  }

  lemma ScaledNorm(u: real, a: real, b: real)
    ensures (u * a) * (u * a) + (u * b) * (u * b) == u * u * (a * a + b * b)
  {
  }

  /** A secant point, written with u = 1/d2 and q = +-sqrt(root), lies on the circle. */
  lemma SecantNorm(dx: real, dy: real, d2: real, u: real, det: real, r: real, root: real, q: real,
                   vx: real, vy: real)
    requires d2 == dx * dx + dy * dy
    requires d2 * u == 1.0
    requires root == r * r * d2 - det * det
    requires q * q == root
    requires vx == u * (det * dy + q * dx)
    requires vy == u * (q * dy - det * dx)
    ensures vx * vx + vy * vy == r * r
  {
    ScaledNorm(u, det * dy + q * dx, q * dy - det * dx);
    RotationNorm(det, q, dx, dy);
    calc {
      vx * vx + vy * vy;
    ==
      u * u * ((det * dy + q * dx) * (det * dy + q * dx) + (q * dy - det * dx) * (q * dy - det * dx));
    ==
      u * u * ((det * det + q * q) * (dx * dx + dy * dy));
    ==
      u * u * ((det * det + root) * d2);
    ==
      u * u * (r * r * d2 * d2);
    ==
      r * r * (u * u) * (d2 * d2);
    }
    Unit2(vx * vx + vy * vy, r * r, d2, u);
  }

  /** The foot offset (fx, fy) of the line-circle case, as the source
      divides it by d2, is u*(det*dy, -det*dx) with u = 1/d2. */
  lemma FootFrame(d2: real, det: real, dx: real, dy: real, fx: real, fy: real)
    requires d2 != 0.0
    requires fx == det * dy / d2 && fy == -(det * dx / d2)
    ensures d2 * (1.0 / d2) == 1.0
    ensures fx == (1.0 / d2) * (det * dy + 0.0 * dx) && fy == (1.0 / d2) * (0.0 * dy - det * dx)
  {
  }

  /** The same offset in the form u*(det*dy), u*(-(det*dx)). */
  lemma FootOffset(d2: real, det: real, dx: real, dy: real, fx: real, fy: real)
    requires d2 != 0.0
    requires fx == det * dy / d2 && fy == -(det * dx / d2)
    ensures d2 * (1.0 / d2) == 1.0
    ensures fx == (1.0 / d2) * (det * dy) && fy == (1.0 / d2) * (-(det * dx))
  {
  }

  /** The x coordinate of the foot, cx + det*dy/d2, plus that of the half
      chord, dx/d2*q, in the form cx + u*(det*dy + q*dx) with u = 1/d2. */
  lemma ShiftX(cx: real, d2: real, det: real, dx: real, dy: real, q: real, fx: real, hx: real)
    requires d2 != 0.0
    requires fx == cx + det * dy / d2
    requires hx == dx / d2 * q
    ensures fx + hx == cx + (1.0 / d2) * (det * dy + q * dx)
  {
  }

  /** The same for y: cy - det*dx/d2 plus dy/d2*q. */
  lemma ShiftY(cy: real, d2: real, det: real, dx: real, dy: real, q: real, fy: real, hy: real)
    requires d2 != 0.0
    requires fy == cy - det * dx / d2
    requires hy == dy / d2 * q
    ensures fy + hy == cy + (1.0 / d2) * (q * dy - det * dx)
  {
  }

  /** The x coordinate of the foot minus that of the half chord. */
  lemma ShiftBackX(cx: real, d2: real, det: real, dx: real, dy: real, q: real, fx: real, hx: real)
    requires d2 != 0.0
    requires fx == cx + det * dy / d2
    requires hx == dx / d2 * q
    ensures fx - hx == cx + (1.0 / d2) * (det * dy + (-q) * dx)
  {
  }

  /** The y coordinate of the foot minus that of the half chord. */
  lemma ShiftBackY(cy: real, d2: real, det: real, dx: real, dy: real, q: real, fy: real, hy: real)
    requires d2 != 0.0
    requires fy == cy - det * dx / d2
    requires hy == dy / d2 * q
    ensures fy - hy == cy + (1.0 / d2) * ((-q) * dy - det * dx)
  {
  }

  /** Circle-circle case, first centre at the origin, second at (dx, dy): a point (xd, +-yd) in the frame of the centre line lies at distance ra from the first centre. */
  lemma ChordNorm(dx: real, dy: real, d: real, v: real, ra: real, xd: real, t: real, qx: real, qy: real)
    requires d * d == dx * dx + dy * dy
    requires d * v == 1.0
    requires t * t == ra * ra - xd * xd
    requires qx == v * (t * dy + xd * dx)
    requires qy == v * (xd * dy - t * dx)
    ensures qx * qx + qy * qy == ra * ra
  {
    ScaledNorm(v, t * dy + xd * dx, xd * dy - t * dx);
    RotationNorm(t, xd, dx, dy);
    calc {
      qx * qx + qy * qy;
    ==
      v * v * ((t * dy + xd * dx) * (t * dy + xd * dx) + (xd * dy - t * dx) * (xd * dy - t * dx));
    ==
      v * v * ((t * t + xd * xd) * (dx * dx + dy * dy));
    ==
      v * v * (ra * ra * (d * d));
    ==
      ra * ra * (v * v) * (d * d);
    }
    Unit2(qx * qx + qy * qy, ra * ra, d, v);
  }

  /** Its projection on the centre line is xd, in units of the centre distance d. */
  lemma ChordAlong(dx: real, dy: real, d: real, v: real, xd: real, t: real, qx: real, qy: real)
    requires d * d == dx * dx + dy * dy
    requires d * v == 1.0
    requires qx == v * (t * dy + xd * dx)
    requires qy == v * (xd * dy - t * dx)
    ensures qx * dx + qy * dy == xd * d
  {
    calc {
      qx * dx + qy * dy;
    ==
      v * xd * (dx * dx + dy * dy);
    ==
      xd * (d * v) * d;
    ==
      xd * d;
    }
  }

  /** The chord point written with divisions by d is the same point written
      with v = 1/d. */
  lemma ChordFrame(dx: real, dy: real, d: real, xd: real, t: real, qx: real, qy: real)
    requires d != 0.0
    requires qx == xd * dx / d + t * dy / d
    requires qy == xd * dy / d - t * dx / d
    ensures d * (1.0 / d) == 1.0
    ensures qx == (1.0 / d) * (t * dy + xd * dx)
    ensures qy == (1.0 / d) * (xd * dy - t * dx)
  {
  }

  /** The same point, seen from the second centre (dx, dy), lies at distance
      rb from it when xd is placed on the radical line. */
  lemma ChordSecond(dx: real, dy: real, d: real, v: real, ra: real, rb: real, xd: real, t: real,
                    qx: real, qy: real, ex: real, ey: real)
    requires d * d == dx * dx + dy * dy
    requires d * v == 1.0
    requires xd * (2.0 * d) == d * d - rb * rb + ra * ra
    requires t * t == ra * ra - xd * xd
    requires qx == v * (t * dy + xd * dx)
    requires qy == v * (xd * dy - t * dx)
    requires ex == qx - dx && ey == qy - dy
    ensures ex * ex + ey * ey == rb * rb
  {
    ChordNorm(dx, dy, d, v, ra, xd, t, qx, qy);
    ChordAlong(dx, dy, d, v, xd, t, qx, qy);
    calc {
      ex * ex + ey * ey;
    ==
      (qx * qx + qy * qy) - 2.0 * (qx * dx + qy * dy) + (dx * dx + dy * dy);
    ==
      ra * ra - xd * (2.0 * d) + d * d;
    ==
      rb * rb;
    }
  }

  /** Circle-circle case, first centre at the origin and second at (dx, dy):
      the point (qx, qy), placed xd along the line of centres and t across
      it (in units of 1/d, with v = 1/d), lies on both circles when xd is
      on the radical line and t*t is ra^2 - xd^2. */
  lemma ChordBoth(dx: real, dy: real, d: real, v: real, ra: real, rb: real, xd: real, t: real, qx: real, qy: real)
    requires d * d == dx * dx + dy * dy && d * v == 1.0
    requires xd * (2.0 * d) == d * d - rb * rb + ra * ra
    requires t * t == ra * ra - xd * xd
    requires qx == v * (t * dy + xd * dx)
    requires qy == v * (xd * dy - t * dx)
    ensures qx * qx + qy * qy == ra * ra
    ensures (qx - dx) * (qx - dx) + (qy - dy) * (qy - dy) == rb * rb
  {
    ChordNorm(dx, dy, d, v, ra, xd, t, qx, qy);
    ChordSecond(dx, dy, d, v, ra, rb, xd, t, qx, qy, qx - dx, qy - dy);
  }

  /** For a >= 0: a*a < b*b exactly when a < |b|. */
  lemma SquareLess(a: real, b: real)
    requires 0.0 <= a
    ensures a * a < b * b <==> (a < b || a < -b)
  {
    if a < b {
      assert a * a <= a * b < b * b;
    } else if a < -b {
      assert a * a <= a * (-b) < (-b) * (-b);
    } else {
      assert b <= a && -b <= a;
      if 0.0 <= b {
        assert b * b <= a * b <= a * a;
      } else {
        assert (-b) * (-b) <= a * (-b) <= a * a;
      }
    }
  }

  /** a < |b| is kept by scaling both sides with a positive number. */
  lemma ScaleBoth(a: real, b: real, c: real)
    requires 0.0 < c
    ensures a < b || a < -b <==> a * c < b * c || a * c < -(b * c)
  {
    ScaleLess(a, b, c);
    ScaleLess(a, -b, c);
  }

  /** The circle-circle case finds no point (yd2 < 0) exactly when the
      circles lie apart or one lies inside the other without touching. */
  lemma CirclesMiss(d: real, ra: real, rb: real, xd: real)
    requires 0.0 < d && 0.0 <= ra && 0.0 <= rb
    requires xd * (2.0 * d) == d * d - rb * rb + ra * ra
    ensures ra * ra - xd * xd < 0.0 <==> (ra + rb < d || d < ra - rb || d < rb - ra)
  {
    SquareLess(ra, xd);
    ScaleBoth(ra, xd, 2.0 * d);
    assert ra * (2.0 * d) < xd * (2.0 * d) <==> (d - ra) * (d - ra) > rb * rb;
    assert ra * (2.0 * d) < -(xd * (2.0 * d)) <==> (d + ra) * (d + ra) < rb * rb;
    SquareLess(rb, d - ra);
    SquareLess(d + ra, rb);
  }

  /** Moving the origin to (dx, dy): |q - e|^2 = |q|^2 - 2 q.e + |e|^2. */
  lemma ShiftedNorm(qx: real, qy: real, dx: real, dy: real)
    ensures Norm2(qx - dx, qy - dy) == Norm2(qx, qy) - 2.0 * (qx * dx + qy * dy) + Norm2(dx, dy)
  {
  }

  /** (d - x)^2 = d^2 - 2 x d + x^2. */
  lemma SquareOfDifference(d: real, x: real)
    ensures (d - x) * (d - x) == x * x - 2.0 * (x * d) + d * d
  {
  }
}

/** Perspective transforms of cli/internal/optical/transform.go, over the real numbers. */
module Projective {
  import opened Wrappers

  datatype Point = Point(x: real, y: real)

  /** Homogeneous coordinates. */
  datatype Vector = Vector(x: real, y: real, w: real)

  function Dot(a: real, b: real, c: real, x: real, y: real, w: real): real {
    a * x + b * y + c * w
  }

  function Minor(a: real, b: real, c: real, d: real): real {
    a * b - c * d
  }

  function Determinant3(a: real, b: real, c: real, d: real, e: real, f: real, g: real, h: real, i: real): real {
    Dot(a, b, c, Minor(e, i, h, f), Minor(g, f, d, i), Minor(d, h, g, e))
  }

  /** A 3x3 projective matrix; aRC is row R, column C. */
  datatype Transform = Transform(a11: real, a21: real, a31: real, a12: real, a22: real, a32: real, a13: real, a23: real, a33: real) {

    function Map(v: Vector): Vector {
      Vector(Dot(a11, a21, a31, v.x, v.y, v.w), Dot(a12, a22, a32, v.x, v.y, v.w), Dot(a13, a23, a33, v.x, v.y, v.w))
    }

    function Apply(p: Point): Point {
      var denominator := a13 * p.x + a23 * p.y + a33;
      if denominator == 0.0 then Point(0.0, 0.0)
      else Point((a11 * p.x + a21 * p.y + a31) / denominator, (a12 * p.x + a22 * p.y + a32) / denominator)
    }

    function Adjoint(): Transform {
      Transform(
        Minor(a22, a33, a23, a32), Minor(a23, a31, a21, a33), Minor(a21, a32, a22, a31),
        Minor(a13, a32, a12, a33), Minor(a11, a33, a13, a31), Minor(a12, a31, a11, a32),
        Minor(a12, a23, a13, a22), Minor(a13, a21, a11, a23), Minor(a11, a22, a12, a21))
    }

    function Times(o: Transform): Transform {
      Transform(
        Dot(a11, a21, a31, o.a11, o.a12, o.a13), Dot(a11, a21, a31, o.a21, o.a22, o.a23), Dot(a11, a21, a31, o.a31, o.a32, o.a33),
        Dot(a12, a22, a32, o.a11, o.a12, o.a13), Dot(a12, a22, a32, o.a21, o.a22, o.a23), Dot(a12, a22, a32, o.a31, o.a32, o.a33),
        Dot(a13, a23, a33, o.a11, o.a12, o.a13), Dot(a13, a23, a33, o.a21, o.a22, o.a23), Dot(a13, a23, a33, o.a31, o.a32, o.a33))
    }

    function Determinant(): real {
      Determinant3(a11, a21, a31, a12, a22, a32, a13, a23, a33)
    }
  }

  datatype Quad = Quad(p0: Point, p1: Point, p2: Point, p3: Point)

  predicate Parallelogram(q: Quad) {
    q.p0.x - q.p1.x + q.p2.x - q.p3.x == 0.0 && q.p0.y - q.p1.y + q.p2.y - q.p3.y == 0.0
  }

  function Denominator(q: Quad): real {
    (q.p1.x - q.p2.x) * (q.p3.y - q.p2.y) - (q.p3.x - q.p2.x) * (q.p1.y - q.p2.y)
  }

  function Numerator13(q: Quad): real {
    (q.p0.x - q.p1.x + q.p2.x - q.p3.x) * (q.p3.y - q.p2.y) - (q.p3.x - q.p2.x) * (q.p0.y - q.p1.y + q.p2.y - q.p3.y)
  }

  function Numerator23(q: Quad): real {
    (q.p1.x - q.p2.x) * (q.p0.y - q.p1.y + q.p2.y - q.p3.y) - (q.p0.x - q.p1.x + q.p2.x - q.p3.x) * (q.p1.y - q.p2.y)
  }

  /** Maps the unit square's corners onto four points; a parallelogram needs no perspective terms. */
  function SquareToQuad(q: Quad): Option<Transform> {
    var (x0, y0, x1, y1) := (q.p0.x, q.p0.y, q.p1.x, q.p1.y);
    var (x2, y2, x3, y3) := (q.p2.x, q.p2.y, q.p3.x, q.p3.y);
    if Parallelogram(q) then
      Some(Transform(x1 - x0, x2 - x1, x0, y1 - y0, y2 - y1, y0, 0.0, 0.0, 1.0))
    else if Denominator(q) == 0.0 then None
    else
      var a13 := Numerator13(q) / Denominator(q);
      var a23 := Numerator23(q) / Denominator(q);
      Some(Transform(x1 - x0 + a13 * x1, x3 - x0 + a23 * x3, x0, y1 - y0 + a13 * y1, y3 - y0 + a23 * y3, y0, a13, a23, 1.0))
  }

  function QuadToQuad(s: Quad, d: Quad): Option<Transform> {
    var source := SquareToQuad(s);
    var destination := SquareToQuad(d);
    if source.None? || destination.None? then None
    else Some(destination.value.Times(source.value.Adjoint()))
  }

  // ----- composition and inverse, in homogeneous coordinates

  lemma MulEq(u: real, e: real, x: real)
    requires u == e
    ensures u * x == e * x && x * u == x * e
  {}

  lemma ComposedRow(a: real, b: real, c: real, p1: real, p2: real, p3: real, q1: real, q2: real, q3: real,
                    r1: real, r2: real, r3: real, x: real, y: real, w: real)
    ensures Dot(Dot(a, b, c, p1, q1, r1), Dot(a, b, c, p2, q2, r2), Dot(a, b, c, p3, q3, r3), x, y, w)
         == Dot(a, b, c, Dot(p1, p2, p3, x, y, w), Dot(q1, q2, q3, x, y, w), Dot(r1, r2, r3, x, y, w))
  {
    MulEq(Dot(a, b, c, p1, q1, r1), a * p1 + b * q1 + c * r1, x);
    MulEq(Dot(a, b, c, p2, q2, r2), a * p2 + b * q2 + c * r2, y);
    MulEq(Dot(a, b, c, p3, q3, r3), a * p3 + b * q3 + c * r3, w);
    MulEq(Dot(p1, p2, p3, x, y, w), p1 * x + p2 * y + p3 * w, a);
    MulEq(Dot(q1, q2, q3, x, y, w), q1 * x + q2 * y + q3 * w, b);
    MulEq(Dot(r1, r2, r3, x, y, w), r1 * x + r2 * y + r3 * w, c);
  }

  lemma TimesComposes(t: Transform, o: Transform, v: Vector)
    ensures t.Times(o).Map(v) == t.Map(o.Map(v))
  {
    hide Dot;
    ComposedRow(t.a11, t.a21, t.a31, o.a11, o.a21, o.a31, o.a12, o.a22, o.a32, o.a13, o.a23, o.a33, v.x, v.y, v.w);
    ComposedRow(t.a12, t.a22, t.a32, o.a11, o.a21, o.a31, o.a12, o.a22, o.a32, o.a13, o.a23, o.a33, v.x, v.y, v.w);
    ComposedRow(t.a13, t.a23, t.a33, o.a11, o.a21, o.a31, o.a12, o.a22, o.a32, o.a13, o.a23, o.a33, v.x, v.y, v.w);
  }

  /** A product that proofs can treat as a symbol. */
  function Prod(a: real, b: real): real {
    a * b
  }

  function Scale(k: real, v: Vector): Vector {
    Vector(Prod(k, v.x), Prod(k, v.y), Prod(k, v.w))
  }

  lemma ScaledRow(a: real, b: real, c: real, k: real, x: real, y: real, w: real)
    ensures Dot(a, b, c, Prod(k, x), Prod(k, y), Prod(k, w)) == Prod(k, Dot(a, b, c, x, y, w))
  {
    MulEq(Prod(k, x), k * x, a);
    MulEq(Prod(k, y), k * y, b);
    MulEq(Prod(k, w), k * w, c);
    MulEq(Dot(a, b, c, x, y, w), a * x + b * y + c * w, k);
  }

  lemma MapScales(t: Transform, k: real, v: Vector)
    ensures t.Map(Scale(k, v)) == Scale(k, t.Map(v))
  {
    hide Dot, Prod;
    ScaledRow(t.a11, t.a21, t.a31, k, v.x, v.y, v.w);
    ScaledRow(t.a12, t.a22, t.a32, k, v.x, v.y, v.w);
    ScaledRow(t.a13, t.a23, t.a33, k, v.x, v.y, v.w);
  }

  lemma MinorDot(p1: real, p2: real, p3: real, p4: real, q1: real, q2: real, q3: real, q4: real,
                 r1: real, r2: real, r3: real, r4: real, x: real, y: real, z: real)
    ensures Dot(Minor(p1, p2, p3, p4), Minor(q1, q2, q3, q4), Minor(r1, r2, r3, r4), x, y, z)
         == (p1 * p2 - p3 * p4) * x + (q1 * q2 - q3 * q4) * y + (r1 * r2 - r3 * r4) * z
  {
    MulEq(Minor(p1, p2, p3, p4), p1 * p2 - p3 * p4, x);
    MulEq(Minor(q1, q2, q3, q4), q1 * q2 - q3 * q4, y);
    MulEq(Minor(r1, r2, r3, r4), r1 * r2 - r3 * r4, z);
  }

  lemma DeterminantValue(a: real, b: real, c: real, d: real, e: real, f: real, g: real, h: real, i: real)
    ensures Determinant3(a, b, c, d, e, f, g, h, i) == (e * i - h * f) * a + (g * f - d * i) * b + (d * h - g * e) * c
  {
    MulEq(Minor(e, i, h, f), e * i - h * f, a);
    MulEq(Minor(g, f, d, i), g * f - d * i, b);
    MulEq(Minor(d, h, g, e), d * h - g * e, c);
  }

  lemma FirstRow(a: real, b: real, c: real, d: real, e: real, f: real, g: real, h: real, i: real)
    ensures Dot(Minor(e, i, h, f), Minor(h, c, b, i), Minor(b, f, e, c), a, d, g) == Determinant3(a, b, c, d, e, f, g, h, i)
    ensures Dot(Minor(e, i, h, f), Minor(h, c, b, i), Minor(b, f, e, c), b, e, h) == 0.0
    ensures Dot(Minor(e, i, h, f), Minor(h, c, b, i), Minor(b, f, e, c), c, f, i) == 0.0
  {
    hide Dot, Minor, Determinant3;
    DeterminantValue(a, b, c, d, e, f, g, h, i);
    MinorDot(e, i, h, f, h, c, b, i, b, f, e, c, a, d, g);
    MinorDot(e, i, h, f, h, c, b, i, b, f, e, c, b, e, h);
    MinorDot(e, i, h, f, h, c, b, i, b, f, e, c, c, f, i);
  }

  lemma SecondRow(a: real, b: real, c: real, d: real, e: real, f: real, g: real, h: real, i: real)
    ensures Dot(Minor(g, f, d, i), Minor(a, i, g, c), Minor(d, c, a, f), a, d, g) == 0.0
    ensures Dot(Minor(g, f, d, i), Minor(a, i, g, c), Minor(d, c, a, f), b, e, h) == Determinant3(a, b, c, d, e, f, g, h, i)
    ensures Dot(Minor(g, f, d, i), Minor(a, i, g, c), Minor(d, c, a, f), c, f, i) == 0.0
  {
    hide Dot, Minor, Determinant3;
    DeterminantValue(a, b, c, d, e, f, g, h, i);
    MinorDot(g, f, d, i, a, i, g, c, d, c, a, f, a, d, g);
    MinorDot(g, f, d, i, a, i, g, c, d, c, a, f, b, e, h);
    MinorDot(g, f, d, i, a, i, g, c, d, c, a, f, c, f, i);
  }

  lemma ThirdRow(a: real, b: real, c: real, d: real, e: real, f: real, g: real, h: real, i: real)
    ensures Dot(Minor(d, h, g, e), Minor(g, b, a, h), Minor(a, e, d, b), a, d, g) == 0.0
    ensures Dot(Minor(d, h, g, e), Minor(g, b, a, h), Minor(a, e, d, b), b, e, h) == 0.0
    ensures Dot(Minor(d, h, g, e), Minor(g, b, a, h), Minor(a, e, d, b), c, f, i) == Determinant3(a, b, c, d, e, f, g, h, i)
  {
    hide Dot, Minor, Determinant3;
    DeterminantValue(a, b, c, d, e, f, g, h, i);
    MinorDot(d, h, g, e, g, b, a, h, a, e, d, b, a, d, g);
    MinorDot(d, h, g, e, g, b, a, h, a, e, d, b, b, e, h);
    MinorDot(d, h, g, e, g, b, a, h, a, e, d, b, c, f, i);
  }

  lemma AdjointProduct(t: Transform)
    ensures var d := t.Determinant();
      t.Adjoint().Times(t) == Transform(d, 0.0, 0.0, 0.0, d, 0.0, 0.0, 0.0, d)
  {
    hide Dot, Minor, Determinant3;
    FirstRow(t.a11, t.a21, t.a31, t.a12, t.a22, t.a32, t.a13, t.a23, t.a33);
    SecondRow(t.a11, t.a21, t.a31, t.a12, t.a22, t.a32, t.a13, t.a23, t.a33);
    ThirdRow(t.a11, t.a21, t.a31, t.a12, t.a22, t.a32, t.a13, t.a23, t.a33);
  }

  lemma DiagonalMap(d: real, v: Vector)
    ensures Transform(d, 0.0, 0.0, 0.0, d, 0.0, 0.0, 0.0, d).Map(v) == Scale(d, v)
  {}

  /** The adjoint undoes the transform up to the determinant. */
  lemma AdjointInverts(t: Transform, v: Vector)
    ensures t.Adjoint().Map(t.Map(v)) == Scale(t.Determinant(), v)
  {
    hide Transform.Adjoint, Transform.Determinant, Transform.Times, Transform.Map, Scale;
    var d := t.Determinant();
    TimesComposes(t.Adjoint(), t, v);
    AdjointProduct(t);
    DiagonalMap(d, v);
    assert t.Adjoint().Times(t) == Transform(d, 0.0, 0.0, 0.0, d, 0.0, 0.0, 0.0, d);
    assert t.Adjoint().Map(t.Map(v)) == t.Adjoint().Times(t).Map(v);
  }

  // ----- where the corners go

  function Lift(p: Point): Vector {
    Vector(p.x, p.y, 1.0)
  }

  /** A corner of the unit square, in the order (0,0), (1,0), (1,1), (0,1). */
  function UnitCorner(i: nat): Point
    requires i < 4
  {
    if i == 0 then Point(0.0, 0.0) else if i == 1 then Point(1.0, 0.0) else if i == 2 then Point(1.0, 1.0) else Point(0.0, 1.0)
  }

  function Corner(q: Quad, i: nat): Point
    requires i < 4
  {
    if i == 0 then q.p0 else if i == 1 then q.p1 else if i == 2 then q.p2 else q.p3
  }

  /** Twice the signed area of a triangle; zero exactly when its corners are collinear. */
  function Cross(p: Point, q: Point, r: Point): real {
    (q.x - p.x) * (r.y - p.y) - (r.x - p.x) * (q.y - p.y)
  }

  /** No three of the four corners lie on one line. */
  predicate GeneralPosition(q: Quad) {
    Cross(q.p0, q.p1, q.p2) != 0.0 && Cross(q.p0, q.p1, q.p3) != 0.0 && Cross(q.p0, q.p2, q.p3) != 0.0 && Cross(q.p1, q.p2, q.p3) != 0.0
  }

  lemma QuotientTimes(q: real, n: real, d: real)
    requires d != 0.0 && q == n / d
    ensures q * d == n
  {}

  /** Cramer's rule for two equations in two unknowns. */
  lemma Cramer(a: real, b: real, x1: real, x2: real, x3: real, y1: real, y2: real, y3: real, d: real)
    requires d == x1 * y2 - x2 * y1 && d != 0.0
    requires a * d == x3 * y2 - x2 * y3 && b * d == x1 * y3 - x3 * y1
    ensures a * x1 + b * x2 == x3 && a * y1 + b * y2 == y3
  {
    assert (a * x1 + b * x2) * d == (a * d) * x1 + (b * d) * x2 == x3 * d;
    assert (a * y1 + b * y2) * d == (a * d) * y1 + (b * d) * y2 == y3 * d;
    CancelFactor(a * x1 + b * x2, x3, d);
    CancelFactor(a * y1 + b * y2, y3, d);
  }

  lemma CancelFactor(u: real, v: real, d: real)
    requires d != 0.0 && u * d == v * d
    ensures u == v
  {
    assert (u - v) * d == 0.0;
  }

  lemma PerspectiveQuotients(q: Quad, t: Transform)
    requires SquareToQuad(q) == Some(t) && !Parallelogram(q)
    ensures Denominator(q) != 0.0
    ensures t.a13 * Denominator(q) == Numerator13(q) && t.a23 * Denominator(q) == Numerator23(q)
  {
    hide Numerator13, Numerator23, Denominator;
    QuotientTimes(t.a13, Numerator13(q), Denominator(q));
    QuotientTimes(t.a23, Numerator23(q), Denominator(q));
  }

  /** The two perspective terms solve the equations that put (1,1) on the third corner. */
  lemma PerspectiveTerms(q: Quad, t: Transform)
    requires SquareToQuad(q) == Some(t)
    ensures t.a13 * (q.p1.x - q.p2.x) + t.a23 * (q.p3.x - q.p2.x) == q.p0.x - q.p1.x + q.p2.x - q.p3.x
    ensures t.a13 * (q.p1.y - q.p2.y) + t.a23 * (q.p3.y - q.p2.y) == q.p0.y - q.p1.y + q.p2.y - q.p3.y
  {
    hide SquareToQuad;
    if Parallelogram(q) {
      ParallelogramShape(q, t);
      ZeroTimes(t.a13, q.p1.x - q.p2.x);
      ZeroTimes(t.a13, q.p1.y - q.p2.y);
      ZeroTimes(t.a23, q.p3.x - q.p2.x);
      ZeroTimes(t.a23, q.p3.y - q.p2.y);
    } else {
      PerspectiveQuotients(q, t);
      Cramer(t.a13, t.a23, q.p1.x - q.p2.x, q.p3.x - q.p2.x, q.p0.x - q.p1.x + q.p2.x - q.p3.x,
             q.p1.y - q.p2.y, q.p3.y - q.p2.y, q.p0.y - q.p1.y + q.p2.y - q.p3.y, Denominator(q));
    }
  }

  lemma ZeroTimes(a: real, x: real)
    requires a == 0.0
    ensures a * x == 0.0
  {}

  /** Both branches build a matrix of the same shape; the parallelogram's has no perspective terms. */
  lemma SquareShape(q: Quad, t: Transform)
    requires SquareToQuad(q) == Some(t)
    ensures t.a11 == q.p1.x - q.p0.x + t.a13 * q.p1.x && t.a21 == q.p3.x - q.p0.x + t.a23 * q.p3.x && t.a31 == q.p0.x
    ensures t.a12 == q.p1.y - q.p0.y + t.a13 * q.p1.y && t.a22 == q.p3.y - q.p0.y + t.a23 * q.p3.y && t.a32 == q.p0.y
    ensures t.a33 == 1.0
  {
    if Parallelogram(q) {
      ParallelogramShape(q, t);
      hide SquareToQuad;
      ZeroTimes(t.a13, q.p1.x);
      ZeroTimes(t.a13, q.p1.y);
      ZeroTimes(t.a23, q.p3.x);
      ZeroTimes(t.a23, q.p3.y);
    } else {
      PerspectiveShape(q, t);
    }
  }

  lemma ParallelogramShape(q: Quad, t: Transform)
    requires SquareToQuad(q) == Some(t) && Parallelogram(q)
    ensures t.a11 == q.p1.x - q.p0.x && t.a21 == q.p2.x - q.p1.x && t.a31 == q.p0.x
    ensures t.a12 == q.p1.y - q.p0.y && t.a22 == q.p2.y - q.p1.y && t.a32 == q.p0.y
    ensures t.a13 == 0.0 && t.a23 == 0.0 && t.a33 == 1.0
  {
    hide Numerator13, Numerator23, Denominator;
  }

  lemma PerspectiveShape(q: Quad, t: Transform)
    requires SquareToQuad(q) == Some(t) && !Parallelogram(q)
    ensures t.a11 == q.p1.x - q.p0.x + t.a13 * q.p1.x && t.a21 == q.p3.x - q.p0.x + t.a23 * q.p3.x && t.a31 == q.p0.x
    ensures t.a12 == q.p1.y - q.p0.y + t.a13 * q.p1.y && t.a22 == q.p3.y - q.p0.y + t.a23 * q.p3.y && t.a32 == q.p0.y
    ensures t.a33 == 1.0
  {
    hide Numerator13, Numerator23, Denominator;
  }

  function Weight(t: Transform, i: nat): real
    requires i < 4
  {
    t.Map(Lift(UnitCorner(i))).w
  }

  lemma MapUnitCorner(t: Transform, i: nat)
    requires i < 4
    ensures t.Map(Lift(UnitCorner(i))) ==
      if i == 0 then Vector(t.a31, t.a32, t.a33)
      else if i == 1 then Vector(t.a11 + t.a31, t.a12 + t.a32, t.a13 + t.a33)
      else if i == 2 then Vector(t.a11 + t.a21 + t.a31, t.a12 + t.a22 + t.a32, t.a13 + t.a23 + t.a33)
      else Vector(t.a21 + t.a31, t.a22 + t.a32, t.a23 + t.a33)
  {}

  lemma FourWeights(q: Quad, t: Transform)
    requires SquareToQuad(q) == Some(t)
    ensures Weight(t, 0) == 1.0 && Weight(t, 1) == t.a13 + 1.0 && Weight(t, 2) == t.a13 + t.a23 + 1.0 && Weight(t, 3) == t.a23 + 1.0
  {
    hide SquareToQuad, Transform.Map;
    SquareShape(q, t);
    MapUnitCorner(t, 0);
    MapUnitCorner(t, 1);
    MapUnitCorner(t, 2);
    MapUnitCorner(t, 3);
  }

  /** A homogeneous vector stands for the point it divides down to. */
  predicate Represents(v: Vector, p: Point) {
    v.x == v.w * p.x && v.y == v.w * p.y
  }

  lemma Represented(v: Vector, w: real, p: Point)
    requires v.w == w && v.x == Prod(w, p.x) && v.y == Prod(w, p.y)
    ensures Represents(v, p)
  {}

  lemma RepresentedScale(v: Vector, p: Point)
    requires Represents(v, p)
    ensures v == Scale(v.w, Lift(p))
  {}

  lemma SecondSums(q: Quad, t: Transform)
    requires SquareToQuad(q) == Some(t)
    ensures t.a11 + t.a31 == Prod(t.a13 + 1.0, q.p1.x) && t.a12 + t.a32 == Prod(t.a13 + 1.0, q.p1.y) && t.a33 == 1.0
  {
    hide SquareToQuad;
    SquareShape(q, t);
  }

  lemma FourthSums(q: Quad, t: Transform)
    requires SquareToQuad(q) == Some(t)
    ensures t.a21 + t.a31 == Prod(t.a23 + 1.0, q.p3.x) && t.a22 + t.a32 == Prod(t.a23 + 1.0, q.p3.y) && t.a33 == 1.0
  {
    hide SquareToQuad;
    SquareShape(q, t);
  }

  lemma OppositeSum(a: real, b: real, z0: real, z1: real, z2: real, z3: real, c1: real, c2: real, c3: real)
    requires c1 == z1 - z0 + a * z1 && c2 == z3 - z0 + b * z3 && c3 == z0
    requires a * (z1 - z2) + b * (z3 - z2) == z0 - z1 + z2 - z3
    ensures c1 + c2 + c3 == Prod(a + b + 1.0, z2)
  {}

  lemma ThirdSums(q: Quad, t: Transform)
    requires SquareToQuad(q) == Some(t)
    ensures t.a11 + t.a21 + t.a31 == Prod(t.a13 + t.a23 + 1.0, q.p2.x)
    ensures t.a12 + t.a22 + t.a32 == Prod(t.a13 + t.a23 + 1.0, q.p2.y) && t.a33 == 1.0
  {
    hide SquareToQuad, Prod;
    SquareShape(q, t);
    PerspectiveTerms(q, t);
    OppositeSum(t.a13, t.a23, q.p0.x, q.p1.x, q.p2.x, q.p3.x, t.a11, t.a21, t.a31);
    OppositeSum(t.a13, t.a23, q.p0.y, q.p1.y, q.p2.y, q.p3.y, t.a12, t.a22, t.a32);
  }

  lemma FirstSums(q: Quad, t: Transform)
    requires SquareToQuad(q) == Some(t)
    ensures t.a31 == Prod(1.0, q.p0.x) && t.a32 == Prod(1.0, q.p0.y) && t.a33 == 1.0
  {
    hide SquareToQuad;
    SquareShape(q, t);
  }

  /** The unit square's corners land on the four given points, as homogeneous vectors. */
  lemma SquareCorners(q: Quad, t: Transform, i: nat)
    requires SquareToQuad(q) == Some(t) && i < 4
    ensures t.Map(Lift(UnitCorner(i))) == Scale(Weight(t, i), Lift(Corner(q, i)))
  {
    hide SquareToQuad, Transform.Map, Represents, Prod, Scale, Lift, UnitCorner;
    MapUnitCorner(t, i);
    if i == 0 {
      FirstSums(q, t);
      Represented(Vector(t.a31, t.a32, t.a33), 1.0, q.p0);
    } else if i == 1 {
      SecondSums(q, t);
      Represented(Vector(t.a11 + t.a31, t.a12 + t.a32, t.a13 + t.a33), t.a13 + 1.0, q.p1);
    } else if i == 2 {
      ThirdSums(q, t);
      Represented(Vector(t.a11 + t.a21 + t.a31, t.a12 + t.a22 + t.a32, t.a13 + t.a23 + t.a33), t.a13 + t.a23 + 1.0, q.p2);
    } else {
      FourthSums(q, t);
      Represented(Vector(t.a21 + t.a31, t.a22 + t.a32, t.a23 + t.a33), t.a23 + 1.0, q.p3);
    }
    RepresentedScale(t.Map(Lift(UnitCorner(i))), Corner(q, i));
  }

  // ----- when the map is one-to-one

  lemma FactorZero(a: real, b: real)
    ensures a * b != 0.0 <==> a != 0.0 && b != 0.0
  {}

  lemma WeightAreas(a: real, b: real, d: real, x0: real, y0: real, x1: real, y1: real, x2: real, y2: real, x3: real, y3: real,
                    w1: real, w2: real, w3: real, area: real)
    requires d == (x1 - x2) * (y3 - y2) - (x3 - x2) * (y1 - y2) && area == (x2 - x1) * (y3 - y1) - (x3 - x1) * (y2 - y1)
    requires a * d == (x0 - x1 + x2 - x3) * (y3 - y2) - (x3 - x2) * (y0 - y1 + y2 - y3)
    requires b * d == (x1 - x2) * (y0 - y1 + y2 - y3) - (x0 - x1 + x2 - x3) * (y1 - y2)
    requires w1 == a + 1.0 && w2 == a + b + 1.0 && w3 == b + 1.0
    ensures d == 0.0 - area
    ensures w1 * area == (x2 - x0) * (y3 - y0) - (x3 - x0) * (y2 - y0)
    ensures w3 * area == (x1 - x0) * (y2 - y0) - (x2 - x0) * (y1 - y0)
    ensures w2 * area == (x1 - x0) * (y3 - y0) - (x3 - x0) * (y1 - y0)
  {
    MulEq(area, 0.0 - d, a);
    MulEq(area, 0.0 - d, b);
    MulEq(w1, a + 1.0, area);
    MulEq(w2, a + b + 1.0, area);
    MulEq(w3, b + 1.0, area);
  }

  lemma CrossUnfold(p: Point, q: Point, r: Point)
    ensures Cross(p, q, r) == (q.x - p.x) * (r.y - p.y) - (r.x - p.x) * (q.y - p.y)
  {}

  /** The minors beside the third column, when the columns are w1 P1 - P0, w3 P3 - P0 and P0. */
  lemma ColumnMinors(w1: real, w3: real, y0: real, y1: real, y3: real, c12: real, c22: real, c32: real, a: real, b: real, one: real)
    requires a == w1 - 1.0 && b == w3 - 1.0 && one == 1.0
    requires c12 == w1 * y1 - y0 && c22 == w3 * y3 - y0 && c32 == y0
    ensures c22 * one - b * c32 == w3 * (y3 - y0)
    ensures a * c32 - c12 * one == w1 * (y0 - y1)
    ensures c12 * b - a * c22 == w1 * w3 * (y1 - y3) + w1 * (y0 - y1) + w3 * (y3 - y0)
  {
    MulEq(one, 1.0, c22);
    MulEq(one, 1.0, c12);
    MulEq(c32, y0, b);
    MulEq(b, w3 - 1.0, y0);
    MulEq(c32, y0, a);
    MulEq(a, w1 - 1.0, y0);
    MulEq(c12, w1 * y1 - y0, b);
    MulEq(b, w3 - 1.0, w1 * y1 - y0);
    MulEq(c22, w3 * y3 - y0, a);
    MulEq(a, w1 - 1.0, w3 * y3 - y0);
  }

  lemma ColumnExpansion(w1: real, w3: real, x0: real, x1: real, x3: real, y0: real, y1: real, y3: real,
                        m1: real, m2: real, m3: real, c11: real, c21: real, c31: real)
    requires c11 == w1 * x1 - x0 && c21 == w3 * x3 - x0 && c31 == x0
    requires m1 == w3 * (y3 - y0) && m2 == w1 * (y0 - y1) && m3 == w1 * w3 * (y1 - y3) + w1 * (y0 - y1) + w3 * (y3 - y0)
    ensures m1 * c11 + m2 * c21 + m3 * c31 == (w1 * w3) * ((x1 - x0) * (y3 - y0) - (x3 - x0) * (y1 - y0))
  {
    MulEq(m1, w3 * (y3 - y0), c11);
    MulEq(c11, w1 * x1 - x0, w3 * (y3 - y0));
    MulEq(m2, w1 * (y0 - y1), c21);
    MulEq(c21, w3 * x3 - x0, w1 * (y0 - y1));
    MulEq(m3, w1 * w3 * (y1 - y3) + w1 * (y0 - y1) + w3 * (y3 - y0), c31);
    MulEq(c31, x0, w1 * w3 * (y1 - y3) + w1 * (y0 - y1) + w3 * (y3 - y0));
  }

  lemma ParallelogramAreas(q: Quad)
    requires Parallelogram(q)
    ensures Cross(q.p0, q.p1, q.p2) == Cross(q.p0, q.p1, q.p3) == Cross(q.p0, q.p2, q.p3) == Cross(q.p1, q.p2, q.p3)
  {
    FourthOfParallelogram(q.p0.x, q.p0.y, q.p1.x, q.p1.y, q.p2.x, q.p2.y, q.p3.x, q.p3.y);
  }

  lemma FourthOfParallelogram(x0: real, y0: real, x1: real, y1: real, x2: real, y2: real, x3: real, y3: real)
    requires x0 - x1 + x2 - x3 == 0.0 && y0 - y1 + y2 - y3 == 0.0
    ensures (x1 - x0) * (y2 - y0) - (x2 - x0) * (y1 - y0) == (x2 - x1) * (y3 - y1) - (x3 - x1) * (y2 - y1)
    ensures (x1 - x0) * (y3 - y0) - (x3 - x0) * (y1 - y0) == (x2 - x1) * (y3 - y1) - (x3 - x1) * (y2 - y1)
    ensures (x2 - x0) * (y3 - y0) - (x3 - x0) * (y2 - y0) == (x2 - x1) * (y3 - y1) - (x3 - x1) * (y2 - y1)
  {
    MulEq(x3, x0 - x1 + x2, y0);
    MulEq(x3, x0 - x1 + x2, y1);
    MulEq(x3, x0 - x1 + x2, y2);
    MulEq(y3, y0 - y1 + y2, x0);
    MulEq(y3, y0 - y1 + y2, x1);
    MulEq(y3, y0 - y1 + y2, x2);
  }

  lemma ShapedDeterminant(q: Quad, t: Transform, w1: real, w3: real, area: real)
    requires SquareToQuad(q) == Some(t) && w1 == t.a13 + 1.0 && w3 == t.a23 + 1.0 && area == Cross(q.p0, q.p1, q.p3)
    ensures t.Determinant() == (w1 * w3) * area
  {
    hide SquareToQuad, Cross, Determinant3;
    ShapedColumns(q, t, w1, w3);
    CrossUnfold(q.p0, q.p1, q.p3);
    ColumnDeterminant(w1, w3, q.p0.x, q.p1.x, q.p3.x, q.p0.y, q.p1.y, q.p3.y, t.a11, t.a21, t.a31, t.a12, t.a22, t.a32, t.a13, t.a23, t.a33, area);
  }

  lemma ColumnDeterminant(w1: real, w3: real, x0: real, x1: real, x3: real, y0: real, y1: real, y3: real, c11: real, c21: real, c31: real,
                          c12: real, c22: real, c32: real, a: real, b: real, one: real, area: real)
    requires a == w1 - 1.0 && b == w3 - 1.0 && one == 1.0
    requires c11 == w1 * x1 - x0 && c21 == w3 * x3 - x0 && c31 == x0
    requires c12 == w1 * y1 - y0 && c22 == w3 * y3 - y0 && c32 == y0
    requires area == (x1 - x0) * (y3 - y0) - (x3 - x0) * (y1 - y0)
    ensures Determinant3(c11, c21, c31, c12, c22, c32, a, b, one) == (w1 * w3) * area
  {
    hide Determinant3;
    DeterminantValue(c11, c21, c31, c12, c22, c32, a, b, one);
    ColumnMinors(w1, w3, y0, y1, y3, c12, c22, c32, a, b, one);
    ColumnExpansion(w1, w3, x0, x1, x3, y0, y1, y3, c22 * one - b * c32, a * c32 - c12 * one, c12 * b - a * c22, c11, c21, c31);
    MulEq(area, (x1 - x0) * (y3 - y0) - (x3 - x0) * (y1 - y0), w1 * w3);
  }

  lemma ShapedColumns(q: Quad, t: Transform, w1: real, w3: real)
    requires SquareToQuad(q) == Some(t) && w1 == t.a13 + 1.0 && w3 == t.a23 + 1.0
    ensures t.a11 == w1 * q.p1.x - q.p0.x && t.a12 == w1 * q.p1.y - q.p0.y
    ensures t.a21 == w3 * q.p3.x - q.p0.x && t.a22 == w3 * q.p3.y - q.p0.y
    ensures t.a31 == q.p0.x && t.a32 == q.p0.y && t.a33 == 1.0
  {
    hide SquareToQuad;
    SquareShape(q, t);
    MulEq(w1, t.a13 + 1.0, q.p1.x);
    MulEq(w1, t.a13 + 1.0, q.p1.y);
    MulEq(w3, t.a23 + 1.0, q.p3.x);
    MulEq(w3, t.a23 + 1.0, q.p3.y);
  }

  /** Each weight, scaled by the triangle it is measured against, is the area of the triangle without its opposite corner. */
  lemma ScaledWeights(q: Quad, t: Transform, w1: real, w2: real, w3: real, area: real)
    requires SquareToQuad(q) == Some(t) && area == Cross(q.p1, q.p2, q.p3)
    requires w1 == t.a13 + 1.0 && w2 == t.a13 + t.a23 + 1.0 && w3 == t.a23 + 1.0
    ensures !Parallelogram(q) ==> area != 0.0
    ensures w1 * area == Cross(q.p0, q.p2, q.p3) && w3 * area == Cross(q.p0, q.p1, q.p2) && w2 * area == Cross(q.p0, q.p1, q.p3)
  {
    if Parallelogram(q) {
      hide SquareToQuad, Cross;
      ParallelogramAreas(q);
      ParallelogramShape(q, t);
      MulEq(w1, 1.0, area);
      MulEq(w2, 1.0, area);
      MulEq(w3, 1.0, area);
    } else {
      PerspectiveWeights(q, t, w1, w2, w3, area);
    }
  }

  lemma PerspectiveWeights(q: Quad, t: Transform, w1: real, w2: real, w3: real, area: real)
    requires SquareToQuad(q) == Some(t) && area == Cross(q.p1, q.p2, q.p3) && !Parallelogram(q)
    requires w1 == t.a13 + 1.0 && w2 == t.a13 + t.a23 + 1.0 && w3 == t.a23 + 1.0
    ensures area != 0.0
    ensures w1 * area == Cross(q.p0, q.p2, q.p3) && w3 * area == Cross(q.p0, q.p1, q.p2) && w2 * area == Cross(q.p0, q.p1, q.p3)
  {
    hide SquareToQuad;
    PerspectiveQuotients(q, t);
    WeightAreas(t.a13, t.a23, Denominator(q), q.p0.x, q.p0.y, q.p1.x, q.p1.y, q.p2.x, q.p2.y, q.p3.x, q.p3.y, w1, w2, w3, area);
  }

  lemma NoMapIsCollinear(q: Quad)
    ensures SquareToQuad(q).None? <==> !Parallelogram(q) && Cross(q.p1, q.p2, q.p3) == 0.0
  {
    hide Numerator13, Numerator23, Denominator, Cross;
    DenominatorArea(q);
  }

  lemma DenominatorArea(q: Quad)
    ensures Denominator(q) == 0.0 - Cross(q.p1, q.p2, q.p3)
  {}

  /** The map of a quadrilateral exists and is invertible exactly when no three corners are collinear. */
  lemma InvertibleIsGeneral(q: Quad)
    ensures GeneralPosition(q) <==> SquareToQuad(q).Some? && SquareToQuad(q).value.Determinant() != 0.0
    ensures GeneralPosition(q) ==> forall i: nat | i < 4 :: Weight(SquareToQuad(q).value, i) != 0.0
  {
    hide Cross, Transform.Determinant, SquareToQuad, Weight;
    NoMapIsCollinear(q);
    if SquareToQuad(q).Some? {
      var t := SquareToQuad(q).value;
      var area := Cross(q.p1, q.p2, q.p3);
      var (w1, w2, w3) := (Weight(t, 1), Weight(t, 2), Weight(t, 3));
      FourWeights(q, t);
      ShapedDeterminant(q, t, w1, w3, Cross(q.p0, q.p1, q.p3));
      ScaledWeights(q, t, w1, w2, w3, area);
      FactorZero(w1, area);
      FactorZero(w2, area);
      FactorZero(w3, area);
      FactorZero(w1, w3);
      FactorZero(w1 * w3, Cross(q.p0, q.p1, q.p3));
    }
  }

  // ----- the composed map

  lemma Normalized(k: real, m: real, z: real, a: real, w: real)
    requires k != 0.0 && k * m == a * z && k * w == a
    ensures a != 0.0 ==> w != 0.0 && m / w == z
    ensures a == 0.0 ==> w == 0.0
  {
    FactorZero(k, w);
    if a != 0.0 {
      assert k * m == k * (w * z);
      CancelFactor(m, w * z, k);
    }
  }

  /** With a source in general position, a corner lands on its partner unless the partner has no weight: then it has no image. */
  lemma CornerLands(s: Quad, d: Quad, i: nat)
    requires GeneralPosition(s) && SquareToQuad(d).Some? && i < 4
    ensures QuadToQuad(s, d).Some?
    ensures QuadToQuad(s, d).value.Apply(Corner(s, i)) ==
      if Weight(SquareToQuad(d).value, i) != 0.0 then Corner(d, i) else Point(0.0, 0.0)
  {
    hide Cross, GeneralPosition, SquareToQuad, Weight, Transform.Determinant, Transform.Map, Transform.Times, Transform.Adjoint;
    InvertibleIsGeneral(s);
    var (source, destination) := (SquareToQuad(s).value, SquareToQuad(d).value);
    var t := destination.Times(source.Adjoint());
    var corner := Lift(UnitCorner(i));
    var (ws, wd, det) := (Weight(source, i), Weight(destination, i), source.Determinant());
    SquareCorners(s, source, i);
    SquareCorners(d, destination, i);
    AdjointInverts(source, corner);
    MapScales(t, ws, Lift(Corner(s, i)));
    TimesComposes(destination, source.Adjoint(), source.Map(corner));
    MapScales(destination, det, corner);
    var m := t.Map(Lift(Corner(s, i)));
    assert Scale(ws, m) == Scale(det, Scale(wd, Lift(Corner(d, i))));
    LandedPoint(t, Corner(s, i), Corner(d, i), ws, wd, det, m);
  }

  lemma ApplyDivides(t: Transform, p: Point)
    ensures var m := t.Map(Lift(p)); t.Apply(p) == if m.w == 0.0 then Point(0.0, 0.0) else Point(m.x / m.w, m.y / m.w)
  {}

  lemma LandedPoint(t: Transform, from: Point, to: Point, ws: real, wd: real, det: real, m: Vector)
    requires m == t.Map(Lift(from)) && ws != 0.0 && det != 0.0
    requires Scale(ws, m) == Scale(det, Scale(wd, Lift(to)))
    ensures t.Apply(from) == if wd != 0.0 then to else Point(0.0, 0.0)
  {
    hide Transform.Map, Transform.Apply;
    ApplyDivides(t, from);
    FactorZero(det, wd);
    assert det * (wd * to.x) == (det * wd) * to.x;
    assert det * (wd * to.y) == (det * wd) * to.y;
    Normalized(ws, m.x, to.x, det * wd, m.w);
    Normalized(ws, m.y, to.y, det * wd, m.w);
  }

  /** Two quadrilaterals without collinear corners: the map exists and takes every corner to its partner. */
  lemma CornersMatch(s: Quad, d: Quad)
    requires GeneralPosition(s) && GeneralPosition(d)
    ensures QuadToQuad(s, d).Some?
    ensures forall i: nat | i < 4 :: QuadToQuad(s, d).value.Apply(Corner(s, i)) == Corner(d, i)
  {
    hide Cross, SquareToQuad, QuadToQuad, GeneralPosition, Weight, Transform.Determinant, Transform.Apply;
    InvertibleIsGeneral(d);
    CornerLands(s, d, 0);
    forall i: nat | i < 4 ensures QuadToQuad(s, d).value.Apply(Corner(s, i)) == Corner(d, i) {
      CornerLands(s, d, i);
    }
  }
}

/**
 The similarity transform that aligns detected landmarks with the recognizer's
 template, over exact reals. The estimate is a least-squares optimum and the returned
 warp is its two-sided inverse.
 */
module Alignment {

  datatype Point = Point(x: real, y: real)

  /** x' = a x - b y + tx, y' = b x + a y + ty. */
  datatype Similarity = Similarity(a: real, b: real, tx: real, ty: real)

  const IDENTITY: Similarity := Similarity(1.0, 0.0, 0.0, 0.0)
  const EPSILON: real := 0.0000000001
  const LANDMARKS: nat := 5

  function Apply(t: Similarity, p: Point): Point {
    Point(t.a * p.x - t.b * p.y + t.tx, t.b * p.x + t.a * p.y + t.ty)
  }

  datatype Pair = Pair(src: Point, dst: Point)

  function SquaredError(t: Similarity, p: Pair): real {
    var ex := p.dst.x - (t.a * p.src.x - t.b * p.src.y + t.tx);
    var ey := p.dst.y - (t.b * p.src.x + t.a * p.src.y + t.ty);
    ex * ex + ey * ey
  }

  /** It is the squared distance of the target from the mapped source. */
  lemma ErrorIsDistance(t: Similarity, p: Pair)
    ensures SquaredError(t, p) == SquaredNorm(Point(p.dst.x - Apply(t, p.src).x, p.dst.y - Apply(t, p.src).y))
  {}

  /** The summed squared distance between the mapped source points and their targets. */
  function Residual(t: Similarity, ps: seq<Pair>): real {
    if ps == [] then 0.0 else Residual(t, ps[..|ps| - 1]) + SquaredError(t, ps[|ps| - 1])
  }

  // ----- moments -----

  datatype Moments = Moments(n: real, sx: real, sy: real, dx: real, dy: real, ss: real, dd: real, dot: real,
                             cross: real)

  function Add(m: Moments, p: Pair): Moments {
    var (s, d) := (p.src, p.dst);
    Moments(m.n + 1.0, m.sx + s.x, m.sy + s.y, m.dx + d.x, m.dy + d.y,
            m.ss + (s.x * s.x + s.y * s.y), m.dd + (d.x * d.x + d.y * d.y),
            m.dot + (s.x * d.x + s.y * d.y), m.cross + (s.x * d.y - s.y * d.x))
  }

  function Sums(ps: seq<Pair>): Moments {
    if ps == [] then Moments(0.0, 0.0, 0.0, 0.0, 0.0, 0.0, 0.0, 0.0, 0.0) else Add(Sums(ps[..|ps| - 1]), ps[|ps| - 1])
  }

  /** The residual as a quadratic in the transform, with the moments as coefficients. */
  function Quadratic(t: Similarity, m: Moments): real {
    m.dd + (t.a * t.a + t.b * t.b) * m.ss + (t.tx * t.tx + t.ty * t.ty) * m.n
    - 2.0 * (t.a * m.dot + t.b * m.cross + t.tx * m.dx + t.ty * m.dy)
    + 2.0 * (t.tx * (t.a * m.sx - t.b * m.sy) + t.ty * (t.b * m.sx + t.a * m.sy))
  }

  /** The moments of a single pair. */
  function Single(p: Pair): Moments {
    var (s, d) := (p.src, p.dst);
    Moments(1.0, s.x, s.y, d.x, d.y, s.x * s.x + s.y * s.y, d.x * d.x + d.y * d.y, s.x * d.x + s.y * d.y,
            s.x * d.y - s.y * d.x)
  }

  function Plus(m: Moments, k: Moments): Moments {
    Moments(m.n + k.n, m.sx + k.sx, m.sy + k.sy, m.dx + k.dx, m.dy + k.dy, m.ss + k.ss, m.dd + k.dd, m.dot + k.dot,
            m.cross + k.cross)
  }

  lemma Distributes(x: real, y: real, z: real)
    ensures x * (y + z) == x * y + x * z
  {}

  lemma QuadraticAdds(t: Similarity, m: Moments, k: Moments)
    ensures Quadratic(t, Plus(m, k)) == Quadratic(t, m) + Quadratic(t, k)
  {
    Distributes(t.a * t.a + t.b * t.b, m.ss, k.ss);
    Distributes(t.tx * t.tx + t.ty * t.ty, m.n, k.n);
    Distributes(t.a, m.dot, k.dot);
    Distributes(t.b, m.cross, k.cross);
    Distributes(t.tx, m.dx, k.dx);
    Distributes(t.ty, m.dy, k.dy);
    Distributes(t.a, m.sx, k.sx);
    Distributes(t.b, m.sy, k.sy);
    Distributes(t.b, m.sx, k.sx);
    Distributes(t.a, m.sy, k.sy);
    Distributes(t.tx, t.a * m.sx - t.b * m.sy, t.a * k.sx - t.b * k.sy);
    Distributes(t.ty, t.b * m.sx + t.a * m.sy, t.b * k.sx + t.a * k.sy);
  }

  lemma SquareExpands(u: real, w: real, t: real)
    ensures (u - (w + t)) * (u - (w + t)) == u * u + w * w + t * t - 2.0 * (u * w) - 2.0 * (u * t) + 2.0 * (t * w)
  {}

  lemma TurnsExpand(a: real, b: real, x: real, y: real)
    ensures (a * x - b * y) * (a * x - b * y) + (b * x + a * y) * (b * x + a * y) == (a * a + b * b) * (x * x + y * y)
  {}

  lemma CrossTermsExpand(a: real, b: real, x: real, y: real, u: real, v: real)
    ensures u * (a * x - b * y) + v * (b * x + a * y) == a * (x * u + y * v) + b * (x * v - y * u)
  {}

  lemma SingleError(t: Similarity, p: Pair)
    ensures Quadratic(t, Single(p)) == SquaredError(t, p)
  {
    var (s, d) := (p.src, p.dst);
    SquareExpands(d.x, t.a * s.x - t.b * s.y, t.tx);
    SquareExpands(d.y, t.b * s.x + t.a * s.y, t.ty);
    TurnsExpand(t.a, t.b, s.x, s.y);
    CrossTermsExpand(t.a, t.b, s.x, s.y, d.x, d.y);
  }

  lemma ErrorExpands(t: Similarity, m: Moments, p: Pair)
    ensures Quadratic(t, Add(m, p)) == Quadratic(t, m) + SquaredError(t, p)
  {
    assert Add(m, p) == Plus(m, Single(p));
    hide Quadratic, SquaredError;
    QuadraticAdds(t, m, Single(p));
    SingleError(t, p);
  }

  lemma {:induction false} ResidualIsQuadratic(t: Similarity, ps: seq<Pair>)
    ensures Residual(t, ps) == Quadratic(t, Sums(ps))
  {
    if ps != [] {
      ResidualIsQuadratic(t, ps[..|ps| - 1]);
      ErrorExpands(t, Sums(ps[..|ps| - 1]), ps[|ps| - 1]);
    }
  }

  // ----- optimality -----

  /** The gradient of the quadratic vanishes at `t`. */
  predicate Stationary(t: Similarity, m: Moments) {
    && t.a * m.ss + t.tx * m.sx + t.ty * m.sy == m.dot
    && t.b * m.ss - t.tx * m.sy + t.ty * m.sx == m.cross
    && t.tx * m.n + t.a * m.sx - t.b * m.sy == m.dx
    && t.ty * m.n + t.b * m.sx + t.a * m.sy == m.dy
  }

  function Difference(u: Similarity, t: Similarity): Similarity {
    Similarity(u.a - t.a, u.b - t.b, u.tx - t.tx, u.ty - t.ty)
  }

  /** The same sources, all aimed at the origin: their residual under `d` is the energy of `d`. */
  function Homogeneous(m: Moments): Moments { m.(dx := 0.0, dy := 0.0, dd := 0.0, dot := 0.0, cross := 0.0) }

  lemma QuadraticSplits(u: Similarity, t: Similarity, m: Moments)
    requires Stationary(t, m)
    ensures Quadratic(u, m) == Quadratic(t, m) + Quadratic(Difference(u, t), Homogeneous(m))
  {
    hide Quadratic;
    var d := Difference(u, t);
    assert u == Similarity(t.a + d.a, t.b + d.b, t.tx + d.tx, t.ty + d.ty);
    QuadraticShifts(t, d, m);
    Vanishes(d.a, t.a * m.ss + t.tx * m.sx + t.ty * m.sy - m.dot);
    Vanishes(d.b, t.b * m.ss - t.tx * m.sy + t.ty * m.sx - m.cross);
    Vanishes(d.tx, t.tx * m.n + t.a * m.sx - t.b * m.sy - m.dx);
    Vanishes(d.ty, t.ty * m.n + t.b * m.sx + t.a * m.sy - m.dy);
  }

  lemma Vanishes(x: real, y: real)
    requires y == 0.0
    ensures x * y == 0.0
  {}

  lemma QuadraticShifts(t: Similarity, d: Similarity, m: Moments)
    ensures Quadratic(Similarity(t.a + d.a, t.b + d.b, t.tx + d.tx, t.ty + d.ty), m)
         == Quadratic(t, m) + Quadratic(d, Homogeneous(m))
            + 2.0 * (d.a * (t.a * m.ss + t.tx * m.sx + t.ty * m.sy - m.dot)
                     + d.b * (t.b * m.ss - t.tx * m.sy + t.ty * m.sx - m.cross)
                     + d.tx * (t.tx * m.n + t.a * m.sx - t.b * m.sy - m.dx)
                     + d.ty * (t.ty * m.n + t.b * m.sx + t.a * m.sy - m.dy))
  {}

  function ToOrigin(ps: seq<Pair>): (qs: seq<Pair>)
    ensures |qs| == |ps|
  {
    if ps == [] then [] else ToOrigin(ps[..|ps| - 1]) + [Pair(ps[|ps| - 1].src, Point(0.0, 0.0))]
  }

  lemma AddOrigin(m: Moments, p: Pair)
    ensures Add(Homogeneous(m), Pair(p.src, Point(0.0, 0.0))) == Homogeneous(Add(m, p))
  {}

  lemma {:induction false} OriginMoments(ps: seq<Pair>)
    ensures Sums(ToOrigin(ps)) == Homogeneous(Sums(ps))
  {
    hide Add, Homogeneous;
    if ps == [] {
      OriginOfNothing();
    } else {
      OriginMoments(ps[..|ps| - 1]);
      assert ToOrigin(ps)[..|ps| - 1] == ToOrigin(ps[..|ps| - 1]);
      AddOrigin(Sums(ps[..|ps| - 1]), ps[|ps| - 1]);
    }
  }

  lemma OriginOfNothing()
    ensures Homogeneous(Sums([])) == Sums([])
  {}

  lemma {:induction false} ResidualNonNegative(t: Similarity, ps: seq<Pair>)
    ensures Residual(t, ps) >= 0.0
  {
    if ps != [] {
      ResidualNonNegative(t, ps[..|ps| - 1]);
      ErrorNonNegative(t, ps[|ps| - 1]);
    }
  }

  lemma ErrorNonNegative(t: Similarity, p: Pair)
    ensures SquaredError(t, p) >= 0.0
  {
    var ex := p.dst.x - (t.a * p.src.x - t.b * p.src.y + t.tx);
    var ey := p.dst.y - (t.b * p.src.x + t.a * p.src.y + t.ty);
    assert ex * ex >= 0.0 && ey * ey >= 0.0;
  }

  /** A stationary transform minimises the residual over all similarity transforms. */
  lemma StationaryMinimises(t: Similarity, u: Similarity, ps: seq<Pair>)
    requires Stationary(t, Sums(ps))
    ensures Residual(t, ps) <= Residual(u, ps)
  {
    hide Quadratic, Sums, Residual;
    var d := Difference(u, t);
    QuadraticSplits(u, t, Sums(ps));
    OriginMoments(ps);
    ResidualIsQuadratic(t, ps);
    ResidualIsQuadratic(u, ps);
    ResidualIsQuadratic(d, ToOrigin(ps));
    ResidualNonNegative(d, ToOrigin(ps));
  }

  // ----- the estimate -----

  function Determinant(m: Moments): real { m.n * m.ss - m.sx * m.sx - m.sy * m.sy }

  /** Sums about the centres (cx, cy) and (ex, ey), from the plain sums. */
  function CentredDot(m: Moments, c: Point, e: Point): real {
    m.dot - c.x * m.dx - c.y * m.dy - e.x * m.sx - e.y * m.sy + m.n * (c.x * e.x + c.y * e.y)
  }

  function CentredCross(m: Moments, c: Point, e: Point): real {
    m.cross - c.x * m.dy + c.y * m.dx - e.y * m.sx + e.x * m.sy + m.n * (c.x * e.y - c.y * e.x)
  }

  function CentredSpread(m: Moments, c: Point): real {
    m.ss - 2.0 * (c.x * m.sx + c.y * m.sy) + m.n * (c.x * c.x + c.y * c.y)
  }

  function Mean(x: real, y: real): Point { Point(x / 5.0, y / 5.0) }

  /** The least-squares transform of five pairs that are spread out. */
  function Forward(m: Moments): Similarity
    requires CentredSpread(m, Mean(m.sx, m.sy)) != 0.0
  {
    var c, e := Mean(m.sx, m.sy), Mean(m.dx, m.dy);
    var a := CentredDot(m, c, e) / CentredSpread(m, c);
    var b := CentredCross(m, c, e) / CentredSpread(m, c);
    Similarity(a, b, e.x - a * c.x + b * c.y, e.y - b * c.x - a * c.y)
  }

  function Abs(x: real): real { if x < 0.0 then -x else x }

  lemma QuotientTimes(x: real, y: real)
    requires y != 0.0
    ensures x / y * y == x
  {}

  lemma ForwardIsStationary(m: Moments)
    requires m.n == 5.0 && CentredSpread(m, Mean(m.sx, m.sy)) != 0.0
    ensures Stationary(Forward(m), m)
  {
    var c, e := Mean(m.sx, m.sy), Mean(m.dx, m.dy);
    var spread := CentredSpread(m, c);
    QuotientTimes(CentredDot(m, c, e), spread);
    QuotientTimes(CentredCross(m, c, e), spread);
    var t := Forward(m);
    assert m.sx == 5.0 * c.x && m.sy == 5.0 * c.y && m.dx == 5.0 * e.x && m.dy == 5.0 * e.y;
    SolvesNormalEquations(t.a, t.b, c, e, m.ss, m.dot, m.cross);
  }

  lemma SolvesNormalEquations(a: real, b: real, c: Point, e: Point, ss: real, dot: real, cross: real)
    requires a * (ss - 5.0 * (c.x * c.x + c.y * c.y)) == dot - 5.0 * (c.x * e.x + c.y * e.y)
    requires b * (ss - 5.0 * (c.x * c.x + c.y * c.y)) == cross - 5.0 * (c.x * e.y - c.y * e.x)
    ensures var (tx, ty) := (e.x - a * c.x + b * c.y, e.y - b * c.x - a * c.y);
            && a * ss + tx * (5.0 * c.x) + ty * (5.0 * c.y) == dot
            && b * ss - tx * (5.0 * c.y) + ty * (5.0 * c.x) == cross
            && tx * 5.0 + a * (5.0 * c.x) - b * (5.0 * c.y) == 5.0 * e.x
            && ty * 5.0 + b * (5.0 * c.x) + a * (5.0 * c.y) == 5.0 * e.y
  {}

  /** The inverse warp, as the code solves it. */
  function Inverse(t: Similarity): Similarity
    requires t.a * t.a + t.b * t.b != 0.0
  {
    var norm := t.a * t.a + t.b * t.b;
    var a, b := t.a / norm, -t.b / norm;
    Similarity(a, b, -(a * t.tx - b * t.ty), -(b * t.tx + a * t.ty))
  }

  lemma InverseUndoes(t: Similarity, p: Point)
    requires t.a * t.a + t.b * t.b != 0.0
    ensures Apply(Inverse(t), Apply(t, p)) == p && Apply(t, Apply(Inverse(t), p)) == p
  {
    var norm := t.a * t.a + t.b * t.b;
    var i := Inverse(t);
    UnitProduct(t.a, t.b);
    ComposesToIdentity(t, i, p);
  }

  lemma UnitProduct(a: real, b: real)
    requires a * a + b * b != 0.0
    ensures var (c, d) := (a / (a * a + b * b), -b / (a * a + b * b));
            c * a - d * b == 1.0 && c * b + d * a == 0.0
  {
    var n := a * a + b * b;
    var c, d := a / n, -b / n;
    QuotientTimes(a, n);
    QuotientTimes(-b, n);
    Factored(c, a, -d, b, n);
    Factored(c, b, d, a, n);
    CancelFactor(c * a - d * b, 1.0, n);
    CancelFactor(c * b + d * a, 0.0, n);
  }

  lemma Factored(c: real, x: real, d: real, y: real, n: real)
    ensures (c * x + d * y) * n == (c * n) * x + (d * n) * y
  {}

  lemma CancelFactor(x: real, y: real, n: real)
    requires n != 0.0 && x * n == y * n
    ensures x == y
  {
    assert (x - y) * n == 0.0;
  }

  lemma Composed(t: Similarity, u: Similarity, p: Point)
    ensures Apply(t, Apply(u, p)).x == (t.a * u.a - t.b * u.b) * p.x - (t.a * u.b + t.b * u.a) * p.y
      + (t.a * u.tx - t.b * u.ty + t.tx)
    ensures Apply(t, Apply(u, p)).y == (t.a * u.b + t.b * u.a) * p.x + (t.a * u.a - t.b * u.b) * p.y
      + (t.b * u.tx + t.a * u.ty + t.ty)
  {}

  lemma ComposesToIdentity(t: Similarity, i: Similarity, p: Point)
    requires i.a * t.a - i.b * t.b == 1.0 && i.a * t.b + i.b * t.a == 0.0
    requires i.tx == -(i.a * t.tx - i.b * t.ty) && i.ty == -(i.b * t.tx + i.a * t.ty)
    ensures Apply(i, Apply(t, p)) == p && Apply(t, Apply(i, p)) == p
  {
    hide Apply;
    Composed(i, t, p);
    Composed(t, i, p);
    var u, v := i.a * t.a - i.b * t.b, i.a * t.b + i.b * t.a;
    TranslationsCancel(t, i);
    assert u * p.x == p.x && u * p.y == p.y && v * p.x == 0.0 && v * p.y == 0.0;
  }

  lemma TranslationsCancel(t: Similarity, i: Similarity)
    requires i.a * t.a - i.b * t.b == 1.0 && i.a * t.b + i.b * t.a == 0.0
    requires i.tx == -(i.a * t.tx - i.b * t.ty) && i.ty == -(i.b * t.tx + i.a * t.ty)
    ensures t.a * i.tx - t.b * i.ty + t.tx == 0.0 && t.b * i.tx + t.a * i.ty + t.ty == 0.0
  {
    var u, v := i.a * t.a - i.b * t.b, i.a * t.b + i.b * t.a;
    BackTranslated(t.a, t.b, i.a, i.b, t.tx, t.ty);
    assert u * t.tx == t.tx && u * t.ty == t.ty && v * t.tx == 0.0 && v * t.ty == 0.0;
  }

  lemma BackTranslated(a: real, b: real, c: real, d: real, x: real, y: real)
    ensures a * -(c * x - d * y) - b * -(d * x + c * y) == (c * b + d * a) * y - (c * a - d * b) * x
    ensures b * -(c * x - d * y) + a * -(d * x + c * y) == -(c * b + d * a) * x - (c * a - d * b) * y
  {}

  // ----- the loops -----

  function Pairs(src: seq<Point>, dst: seq<Point>): (ps: seq<Pair>)
    requires |src| == |dst|
    ensures |ps| == |src| && forall i :: 0 <= i < |src| ==> ps[i] == Pair(src[i], dst[i])
  {
    seq(|src|, i requires 0 <= i < |src| => Pair(src[i], dst[i]))
  }

  lemma SumsStep(ps: seq<Pair>, i: nat)
    requires i < |ps|
    ensures Sums(ps[..i + 1]) == Add(Sums(ps[..i]), ps[i])
  {
    assert ps[..i + 1][..i] == ps[..i];
  }

  lemma {:induction false} CountOf(ps: seq<Pair>)
    ensures Sums(ps).n == |ps| as real
  {
    if ps != [] { CountOf(ps[..|ps| - 1]); }
  }

  lemma CentredDotStep(m: Moments, p: Pair, c: Point, e: Point)
    ensures CentredDot(Add(m, p), c, e)
         == CentredDot(m, c, e) + ((p.src.x - c.x) * (p.dst.x - e.x) + (p.src.y - c.y) * (p.dst.y - e.y))
  {}

  lemma CentredCrossStep(m: Moments, p: Pair, c: Point, e: Point)
    ensures CentredCross(Add(m, p), c, e)
         == CentredCross(m, c, e) + ((p.src.x - c.x) * (p.dst.y - e.y) - (p.src.y - c.y) * (p.dst.x - e.x))
  {}

  lemma CentredSpreadStep(m: Moments, p: Pair, c: Point)
    ensures CentredSpread(Add(m, p), c)
         == CentredSpread(m, c) + ((p.src.x - c.x) * (p.src.x - c.x) + (p.src.y - c.y) * (p.src.y - c.y))
  {}

  lemma NothingCentred(c: Point, e: Point)
    ensures CentredDot(Sums([]), c, e) == 0.0 && CentredCross(Sums([]), c, e) == 0.0
    ensures CentredSpread(Sums([]), c) == 0.0
  {}

  /** The second pass: sums of centred products. */
  method CentredSums(src: seq<Point>, dst: seq<Point>, c: Point, e: Point) returns (numA: real, numB: real, denom: real)
    requires |src| == |dst| == LANDMARKS
    ensures numA == CentredDot(Sums(Pairs(src, dst)), c, e)
    ensures numB == CentredCross(Sums(Pairs(src, dst)), c, e)
    ensures denom == CentredSpread(Sums(Pairs(src, dst)), c)
  {
    hide Add, Sums, CentredDot, CentredCross, CentredSpread;
    ghost var ps := Pairs(src, dst);
    numA, numB, denom := 0.0, 0.0, 0.0;
    NothingCentred(c, e);
    assert ps[..0] == [];
    for i := 0 to LANDMARKS
      invariant numA == CentredDot(Sums(ps[..i]), c, e)
      invariant numB == CentredCross(Sums(ps[..i]), c, e)
      invariant denom == CentredSpread(Sums(ps[..i]), c)
    {
      var sx, sy, dx, dy := src[i].x - c.x, src[i].y - c.y, dst[i].x - e.x, dst[i].y - e.y;
      SumsStep(ps, i);
      assert ps[i] == Pair(src[i], dst[i]);
      CentredDotStep(Sums(ps[..i]), ps[i], c, e);
      CentredCrossStep(Sums(ps[..i]), ps[i], c, e);
      CentredSpreadStep(Sums(ps[..i]), ps[i], c);
      numA := numA + (sx * dx + sy * dy);
      numB := numB + (sx * dy - sy * dx);
      denom := denom + (sx * sx + sy * sy);
    }
    assert ps[..LANDMARKS] == ps;
  }

  /** The running sums of the first pass agree with the moments. */
  predicate Tracks(m: Moments, sx: real, sy: real, dx: real, dy: real, ss: real) {
    sx == m.sx && sy == m.sy && dx == m.dx && dy == m.dy && ss == m.ss
  }

  lemma TracksStep(m: Moments, s: Point, d: Point, sx: real, sy: real, dx: real, dy: real, ss: real)
    requires Tracks(m, sx, sy, dx, dy, ss)
    ensures Tracks(Add(m, Pair(s, d)), sx + s.x, sy + s.y, dx + d.x, dy + d.y, ss + SquaredNorm(s))
  {}

  function SquaredNorm(p: Point): real { p.x * p.x + p.y * p.y }

  lemma TracksNothing(ps: seq<Pair>)
    ensures Tracks(Sums(ps[..0]), 0.0, 0.0, 0.0, 0.0, 0.0)
  {
    assert ps[..0] == [];
  }

  /** The first pass: the plain sums. */
  method PlainSums(src: seq<Point>, dst: seq<Point>) returns (sx: real, sy: real, dx: real, dy: real, ss: real)
    requires |src| == |dst| == LANDMARKS
    ensures Tracks(Sums(Pairs(src, dst)), sx, sy, dx, dy, ss)
  {
    hide Sums, Add, Tracks, SquaredNorm, Pairs;
    ghost var ps := Pairs(src, dst);
    sx, sy, dx, dy, ss := 0.0, 0.0, 0.0, 0.0, 0.0;
    TracksNothing(ps);
    for i := 0 to LANDMARKS
      invariant Tracks(Sums(ps[..i]), sx, sy, dx, dy, ss)
    {
      var s, d := src[i], dst[i];
      SumsStep(ps, i);
      TracksStep(Sums(ps[..i]), s, d, sx, sy, dx, dy, ss);
      sx, sy, dx, dy, ss := sx + s.x, sy + s.y, dx + d.x, dy + d.y, ss + SquaredNorm(s);
    }
    assert ps[..LANDMARKS] == ps;
  }

  // ----- when the estimate falls back -----

  /** The summed squared distance of the sources from a point. */
  function SpreadAbout(ps: seq<Pair>, c: Point): real {
    if ps == [] then 0.0
    else
      var p := ps[|ps| - 1].src;
      SpreadAbout(ps[..|ps| - 1], c) + SquaredNorm(Point(p.x - c.x, p.y - c.y))
  }

  /** How far the five sources are from their mean. */
  function Spread(ps: seq<Pair>): real { SpreadAbout(ps, Mean(Sums(ps).sx, Sums(ps).sy)) }

  lemma {:induction false} SpreadIsCentred(ps: seq<Pair>, c: Point)
    ensures SpreadAbout(ps, c) == CentredSpread(Sums(ps), c) >= 0.0
  {
    hide Add, CentredSpread, SquaredNorm;
    if ps == [] {
      NothingCentred(c, c);
    } else {
      SpreadIsCentred(ps[..|ps| - 1], c);
      SpreadStep(Sums(ps[..|ps| - 1]), ps[|ps| - 1], c);
    }
  }

  lemma SpreadStep(m: Moments, p: Pair, c: Point)
    ensures var off := SquaredNorm(Point(p.src.x - c.x, p.src.y - c.y));
            CentredSpread(Add(m, p), c) == CentredSpread(m, c) + off && off >= 0.0
  {
    CentredSpreadStep(m, p, c);
    SumOfSquares(p.src.x - c.x, p.src.y - c.y);
  }

  lemma DeterminantIsSpread(m: Moments)
    requires m.n == 5.0
    ensures Determinant(m) == 5.0 * CentredSpread(m, Mean(m.sx, m.sy))
  {
    var c := Mean(m.sx, m.sy);
    assert m.sx == 5.0 * c.x && m.sy == 5.0 * c.y;
    SquaresOfMultiples(c.x, c.y);
  }

  lemma SquaresOfMultiples(x: real, y: real)
    ensures (5.0 * x) * (5.0 * x) == 25.0 * (x * x) && (5.0 * y) * (5.0 * y) == 25.0 * (y * y)
    ensures x * (5.0 * x) == 5.0 * (x * x) && y * (5.0 * y) == 5.0 * (y * y)
  {}

  /** The rotation and scale of a transform, as a point. */
  function Turn(t: Similarity): Point { Point(t.a, t.b) }

  // ----- the optimum is unique -----

  lemma EnergyIs(d: Similarity, m: Moments, c: Point)
    requires m.n == 5.0 && m.sx == 5.0 * c.x && m.sy == 5.0 * c.y
    ensures Quadratic(d, Homogeneous(m)) == (d.a * d.a + d.b * d.b) * CentredSpread(m, c)
      + 5.0 * (Apply(d, c).x * Apply(d, c).x + Apply(d, c).y * Apply(d, c).y)
  {}

  lemma ZeroSum(x: real, y: real, s: real, u: real, v: real)
    requires s > 0.0 && (x * x + y * y) * s + 5.0 * (u * u + v * v) <= 0.0
    ensures x == 0.0 && y == 0.0 && u == 0.0 && v == 0.0
  {
    SumOfSquares(x, y);
    SumOfSquares(u, v);
    assert (x * x + y * y) * s >= 0.0;
    assert u * u + v * v == 0.0 && (x * x + y * y) * s == 0.0;
    CancelFactor(x * x + y * y, 0.0, s);
    ZeroSquares(x, y);
    ZeroSquares(u, v);
  }

  lemma ZeroSquares(x: real, y: real)
    requires x * x + y * y == 0.0
    ensures x == 0.0 && y == 0.0
  {
    assert x * x >= 0.0 && y * y >= 0.0;
    SquareZero(x);
    SquareZero(y);
  }

  lemma SquareZero(x: real)
    requires x * x == 0.0
    ensures x == 0.0
  {
    ZeroFactor(x, x);
  }

  lemma ZeroFactor(x: real, y: real)
    requires x * y == 0.0
    ensures x == 0.0 || y == 0.0
  {}

  /** Sources that differ at all have no other optimum than the closed form. */
  lemma OptimumIsForward(ps: seq<Pair>, t: Similarity)
    requires |ps| == 5 && Spread(ps) > 0.0 && forall u :: Residual(t, ps) <= Residual(u, ps)
    ensures CentredSpread(Sums(ps), Mean(Sums(ps).sx, Sums(ps).sy)) != 0.0 && t == Forward(Sums(ps))
  {
    hide Sums, CentredSpread, Forward, SpreadAbout, Quadratic, Residual, Stationary;
    var m := Sums(ps);
    var c := Mean(m.sx, m.sy);
    CountOf(ps);
    SpreadIsCentred(ps, c);
    ForwardIsStationary(m);
    var f := Forward(m);
    var d := Difference(t, f);
    QuadraticSplits(t, f, m);
    ResidualIsQuadratic(t, ps);
    ResidualIsQuadratic(f, ps);
    assert Residual(t, ps) <= Residual(f, ps);
    EnergyIs(d, m, c);
    ZeroSum(d.a, d.b, CentredSpread(m, c), Apply(d, c).x, Apply(d, c).y);
  }

  /** So the five pairs determine the best transform, and with it whether the estimate falls back. */
  lemma OptimumUnique(ps: seq<Pair>, t: Similarity, u: Similarity)
    requires |ps| == 5 && Spread(ps) > 0.0
    requires forall v :: Residual(t, ps) <= Residual(v, ps)
    requires forall v :: Residual(u, ps) <= Residual(v, ps)
    ensures t == u
  {
    OptimumIsForward(ps, t);
    OptimumIsForward(ps, u);
  }

  /** The returned warp is the two-sided inverse of a transform that no other similarity beats on the five
      pairs. It is the identity instead exactly where the sources hardly differ, or where the best transform all but
      collapses them; the tolerance of both is 1e-10. */
  method EstimateSimilarityTransform(src: seq<Point>, dst: seq<Point>)
    returns (warp: Similarity, ghost forward: Similarity)
    requires |src| == |dst| == LANDMARKS
    ensures Spread(Pairs(src, dst)) < 0.0000000001 ==> warp == IDENTITY
    ensures Spread(Pairs(src, dst)) >= 0.0000000001 ==>
      && (forall u :: Residual(forward, Pairs(src, dst)) <= Residual(u, Pairs(src, dst)))
      && (SquaredNorm(Turn(forward)) < 0.0000000001 ==> warp == IDENTITY)
      && (SquaredNorm(Turn(forward)) >= 0.0000000001 ==>
            forall p :: Apply(warp, Apply(forward, p)) == p && Apply(forward, Apply(warp, p)) == p)
  {
    hide Residual, Apply, Sums, CentredDot, CentredCross, CentredSpread, Stationary, Forward, Spread, Abs, SquaredNorm,
         Pairs;
    ghost var ps := Pairs(src, dst);
    ghost var m := Sums(ps);
    forward := IDENTITY;
    var sx, sy, dx, dy, ss := PlainSums(src, dst);
    var det := 5.0 * ss - sx * sx - sy * sy;
    var c, e := Mean(sx, sy), Mean(dx, dy);
    SpreadGuards(ps, det);
    if Abs(det) < EPSILON { return IDENTITY, forward; }
    var numA, numB, denom := CentredSums(src, dst, c, e);
    if Abs(denom) < EPSILON { return IDENTITY, forward; }
    var t := Solve(m, c, e, numA, numB, denom);
    forward := t;
    ForwardIsStationary(m);
    forall u ensures Residual(t, ps) <= Residual(u, ps) { StationaryMinimises(t, u, ps); }
    warp := InverseOrIdentity(t);
  }

  /** Both guards on the sources are one: their spread is below the tolerance. */
  lemma SpreadGuards(ps: seq<Pair>, det: real)
    requires |ps| == 5
    requires var m := Sums(ps); det == 5.0 * m.ss - m.sx * m.sx - m.sy * m.sy
    ensures Sums(ps).n == 5.0
    ensures var spread := CentredSpread(Sums(ps), Mean(Sums(ps).sx, Sums(ps).sy));
            && Spread(ps) == spread
            && (Abs(det) < EPSILON ==> spread < 0.0000000001)
            && (Abs(spread) < EPSILON <==> spread < 0.0000000001)
            && (Abs(spread) >= EPSILON ==> spread != 0.0)
  {
    hide Sums, CentredSpread, SpreadAbout, Determinant;
    var m := Sums(ps);
    CountOf(ps);
    DeterminantIs(m, det);
    DeterminantIsSpread(m);
    SpreadIsCentred(ps, Mean(m.sx, m.sy));
  }

  /** The inverse of a transform that does not all but collapse the plane. */
  method InverseOrIdentity(t: Similarity) returns (warp: Similarity)
    ensures SquaredNorm(Turn(t)) < 0.0000000001 ==> warp == IDENTITY
    ensures SquaredNorm(Turn(t)) >= 0.0000000001 ==>
      forall p :: Apply(warp, Apply(t, p)) == p && Apply(t, Apply(warp, p)) == p
  {
    hide Apply, Inverse;
    var norm := t.a * t.a + t.b * t.b;
    SumOfSquares(t.a, t.b);
    if Abs(norm) < EPSILON { return IDENTITY; }
    warp := Invert(t);
    forall p ensures Apply(warp, Apply(t, p)) == p && Apply(t, Apply(warp, p)) == p { InverseUndoes(t, p); }
  }

  method Solve(ghost m: Moments, c: Point, e: Point, numA: real, numB: real, denom: real) returns (t: Similarity)
    requires c == Mean(m.sx, m.sy) && e == Mean(m.dx, m.dy) && denom != 0.0
    requires numA == CentredDot(m, c, e) && numB == CentredCross(m, c, e) && denom == CentredSpread(m, c)
    ensures t == Forward(m)
  {
    hide CentredDot, CentredCross, CentredSpread;
    var a, b := numA / denom, numB / denom;
    t := Similarity(a, b, e.x - a * c.x + b * c.y, e.y - b * c.x - a * c.y);
  }

  method Invert(t: Similarity) returns (w: Similarity)
    requires t.a * t.a + t.b * t.b != 0.0
    ensures w == Inverse(t)
  {
    var norm := t.a * t.a + t.b * t.b;
    var a, b := t.a / norm, -t.b / norm;
    w := Similarity(a, b, -(a * t.tx - b * t.ty), -(b * t.tx + a * t.ty));
  }

  lemma DeterminantIs(m: Moments, det: real)
    requires m.n == 5.0 && det == 5.0 * m.ss - m.sx * m.sx - m.sy * m.sy
    ensures det == Determinant(m)
  {}

  lemma SumOfSquares(a: real, b: real)
    ensures a * a + b * b >= 0.0
  {
    assert a * a >= 0.0 && b * b >= 0.0;
  }
}

/**
 * A model of colorpicker-compose's PointMapper: the stateless object that
 * corrects a raw pointer coordinate so that it lands on a selectable part of
 * the colour palette.
 *
 * - For an image palette it bisects between the pointer (untrusted) and the
 *   canvas centre (trusted), sampling the midpoint's colour at every step,
 *   until the two bounds are at most 3 pixels apart, and answers the trusted
 *   bound.
 * - For the HSV wheel it clamps the pointer onto the disc of radius
 *   min(width/2, height/2) around the canvas centre.
 *
 * Coordinates are exact reals. The controller's pixel sampler becomes the
 * predicate `transparent` ("the colour sampled here is Color.Transparent"),
 * and kotlin.math.sqrt becomes the parameter `sqrt`, of which only
 * `IsSqrt(sqrt)` is known.
 */
module PointMapper {

  /** A coordinate on the palette canvas. */
  datatype Point = Point(x: real, y: real)

  /** The canvas size the controller reports. */
  datatype Size = Size(width: real, height: real)

  /** Which kind of palette the controller is showing. */
  datatype Palette = ImagePalette | HsvPalette

  /**
   * The two bounds of the bisection: `untrusted` is the bound that may lie
   * off the palette (the source's `start`), `trusted` the one believed to lie
   * on it (the source's `end`).
   */
  datatype Bounds = Bounds(untrusted: Point, trusted: Point)

  /** The square of a real, which is never negative. */
  function Square(v: real): (s: real)
    ensures s >= 0.0
  {
    v * v
  }

  /** The absolute value of a real. */
  function Abs(v: real): (a: real)
    ensures a >= 0.0 && (a == v || a == -v)
  {
    if v < 0.0 then -v else v
  }

  /** `sqrt` answers the non-negative square root of every non-negative real. */
  ghost predicate IsSqrt(sqrt: real -> real) {
    forall v: real :: v >= 0.0 ==> sqrt(v) >= 0.0 && Square(sqrt(v)) == v
  }

  /** A canvas size as the layout produces it: neither side negative. */
  predicate ValidSize(size: Size) {
    size.width >= 0.0 && size.height >= 0.0
  }

  /**
   * The canvas centre. getHuePoint computes it as (width * 0.5, height * 0.5),
   * getColorPoint as (width / 2, height / 2); both are this point.
   */
  function Center(size: Size): (c: Point)
    ensures c.x == size.width / 2.0 && c.y == size.height / 2.0
  {
    Point(size.width * 0.5, size.height * 0.5)
  }

  /** The radius of the HSV wheel: the smaller coordinate of the centre. */
  function Radius(size: Size): (r: real)
    ensures r <= Center(size).x && r <= Center(size).y
    ensures r == Center(size).x || r == Center(size).y
  {
    var c := Center(size);
    if c.x <= c.y then c.x else c.y
  }

  /** The number a fraction `t` of the way from `a` to `b`. */
  function Mix(a: real, b: real, t: real): (m: real) {
    a + t * (b - a)
  }

  /** The point a fraction `t` of the way from `a` to `b`. */
  function Lerp(a: Point, b: Point, t: real): (p: Point) {
    Point(Mix(a.x, b.x, t), Mix(a.y, b.y, t))
  }

  /** `p` lies on the closed segment from `a` to `b`. */
  ghost predicate OnSegment(p: Point, a: Point, b: Point) {
    exists t: real :: 0.0 <= t <= 1.0 && p == Lerp(a, b, t)
  }

  /** `p` lies on the segment from `a` to `b`, short of `b`. */
  ghost predicate ShortOf(p: Point, a: Point, b: Point) {
    exists t: real :: 0.0 <= t < 1.0 && p == Lerp(a, b, t)
  }

  /**
   * The squared Euclidean distance between two points, the reference that
   * getDistance and getHuePoint are measured against
   * (SquaredDistanceZero: it vanishes exactly for equal points).
   */
  function SquaredDistance(start: Point, end: Point): (d: real)
    ensures d >= 0.0
  {
    Square(end.x - start.x) + Square(end.y - start.y)
  }

  /**
   * getDistance: the square root of |dx| * |dx| + |dy| * |dy|, truncated to an
   * integer. The square root of a non-negative number is non-negative, so
   * truncation toward zero is the floor. The result is the integer square
   * root of the squared distance, and the bisection's stopping test `<= 3`
   * holds exactly when the squared distance is below 16.
   */
  function Distance(start: Point, end: Point, sqrt: real -> real): (d: int)
    requires IsSqrt(sqrt)
    ensures d >= 0
    ensures Square(d as real) <= SquaredDistance(start, end) < Square(d as real + 1.0)
    ensures d <= 3 <==> SquaredDistance(start, end) < 16.0
  {
    var dx, dy := Abs(end.x - start.x), Abs(end.y - start.y);
    AbsSquare(end.x - start.x);
    AbsSquare(end.y - start.y);
    var s := sqrt(dx * dx + dy * dy);
    RootFloorBounds(SquaredDistance(start, end), s);
    IntegerRootBelowFour(SquaredDistance(start, end), s.Floor);
    s.Floor
  }

  /**
   * getCenterPoint: the arithmetic midpoint. It is halfway along the segment
   * and splits the squared distance into two quarters.
   */
  function CenterPoint(start: Point, end: Point): (m: Point)
    ensures m == Lerp(start, end, 0.5)
    ensures SquaredDistance(start, m) == SquaredDistance(start, end) / 4.0
    ensures SquaredDistance(m, end) == SquaredDistance(start, end) / 4.0
  {
    var m := Point((end.x + start.x) / 2.0, (end.y + start.y) / 2.0);
    SquareHalf(end.x - start.x, m.x - start.x);
    SquareHalf(end.y - start.y, m.y - start.y);
    SquareHalf(end.x - start.x, end.x - m.x);
    SquareHalf(end.y - start.y, end.y - m.y);
    m
  }

  /**
   * One bisection step of approximatedPoint: sample the midpoint; a
   * transparent midpoint replaces the untrusted bound, any other colour
   * replaces the trusted bound. Either way the bounds end up half as far
   * apart, the untrusted bound stays transparent and the trusted bound stays
   * opaque.
   */
  function Step(b: Bounds, transparent: Point -> bool): (next: Bounds)
    ensures var mid := CenterPoint(b.untrusted, b.trusted);
      || (transparent(mid) && next.untrusted == mid && next.trusted == b.trusted)
      || (!transparent(mid) && next.untrusted == b.untrusted && next.trusted == mid)
    ensures transparent(b.untrusted) ==> transparent(next.untrusted)
    ensures !transparent(b.trusted) ==> !transparent(next.trusted)
    ensures SquaredDistance(next.untrusted, next.trusted)
         == SquaredDistance(b.untrusted, b.trusted) / 4.0
  {
    var mid := CenterPoint(b.untrusted, b.trusted);
    if transparent(mid) then Bounds(mid, b.trusted) else Bounds(b.untrusted, mid)
  }

  /**
   * The recursion of approximatedPoint, answering both final bounds. It stops
   * at once exactly when the truncated distance is at most 3; otherwise it
   * steps and recurses. The final bounds are within that tolerance, the
   * trusted one is opaque if the initial trusted point was, and the untrusted
   * one is transparent if the initial untrusted point was.
   */
  function Bisect(start: Point, end: Point, transparent: Point -> bool, sqrt: real -> real): (b: Bounds)
    requires IsSqrt(sqrt)
    ensures Distance(b.untrusted, b.trusted, sqrt) <= 3
    ensures b == Bounds(start, end) <==> Distance(start, end, sqrt) <= 3
    ensures transparent(start) ==> transparent(b.untrusted)
    ensures !transparent(end) ==> !transparent(b.trusted)
    decreases SquaredDistance(start, end).Floor
  {
    if Distance(start, end, sqrt) <= 3 then
      Bounds(start, end)
    else
      var next := Step(Bounds(start, end), transparent);
      QuarterFloorDecreases(SquaredDistance(start, end));
      Bisect(next.untrusted, next.trusted, transparent, sqrt)
  }

  /**
   * approximatedPoint: the trusted bound the bisection ends with. It is the
   * given trusted point when that is already within the tolerance, it is
   * opaque whenever the given trusted point is, it lies on the segment
   * between the two given points, and when the given untrusted point is
   * transparent a transparent point of that segment lies within the
   * tolerance of it: the answer is at the opaque side of a boundary.
   */
  function ApproximatedPoint(start: Point, end: Point, transparent: Point -> bool, sqrt: real -> real): (p: Point)
    requires IsSqrt(sqrt)
    ensures Distance(start, end, sqrt) <= 3 ==> p == end
    ensures !transparent(end) ==> !transparent(p)
    ensures OnSegment(p, start, end)
    ensures transparent(start) ==>
      exists q: Point :: transparent(q) && OnSegment(q, start, end) && Distance(q, p, sqrt) <= 3
  {
    var b := Bisect(start, end, transparent, sqrt);
    BisectOnSegment(start, end, transparent, sqrt);
    b.trusted
  }

  /**
   * getHuePoint: a point within the wheel's radius of the canvas centre is
   * answered unchanged; a point beyond it is moved along the ray from the
   * centre to distance exactly the radius. Either way the answer lies on
   * the wheel, the centre stays where it is, and on a wheel of radius zero
   * every point goes to the centre.
   */
  function HuePoint(point: Point, size: Size, sqrt: real -> real): (p: Point)
    requires IsSqrt(sqrt)
    requires ValidSize(size)
    ensures SquaredDistance(Center(size), p) <= Square(Radius(size))
    ensures SquaredDistance(Center(size), point) <= Square(Radius(size)) ==> p == point
    ensures SquaredDistance(Center(size), point) > Square(Radius(size)) ==>
      && SquaredDistance(Center(size), p) == Square(Radius(size))
      && ShortOf(p, Center(size), point)
    ensures Radius(size) == 0.0 ==> p == Center(size)
    ensures point == Center(size) ==> p == point
  {
    var center := Center(size);
    var x := point.x - center.x;
    var y := point.y - center.y;
    var radius := Radius(size);
    var r := sqrt(Square(x) + Square(y));
    assert Square(x) + Square(y) == SquaredDistance(center, point);
    assert r >= 0.0 && Square(r) == SquaredDistance(center, point);
    if r > radius then
      var k := radius / r;
      ScaledOntoCircle(center, point, r, radius, k);
      LerpAsOffset(center, point, k);
      var p := Point(x * k + center.x, y * k + center.y);
      ShortOfWitness(p, center, point, k);
      p
    else
      InsideCircle(center, point, r, radius);
      Point(x + center.x, y + center.y)
  }

  /**
   * getColorPoint: the HSV wheel is served by the radial clamp, any other
   * palette by the bisection from the pointer towards the canvas centre. The
   * answer is on the wheel (projected onto its rim along the pointer's ray
   * when the pointer is beyond it), or, when the canvas centre is opaque, an
   * opaque point between the pointer and the centre, within the tolerance of
   * a transparent point of that segment when the pointer is transparent.
   */
  function ColorPoint(palette: Palette, point: Point, size: Size,
                      transparent: Point -> bool, sqrt: real -> real): (p: Point)
    requires IsSqrt(sqrt)
    requires ValidSize(size)
    ensures palette == HsvPalette ==> p == HuePoint(point, size, sqrt)
    ensures palette == ImagePalette ==> p == ApproximatedPoint(point, Center(size), transparent, sqrt)
    ensures palette == HsvPalette ==>
      && SquaredDistance(Center(size), p) <= Square(Radius(size))
      && (SquaredDistance(Center(size), point) <= Square(Radius(size)) ==> p == point)
      && (SquaredDistance(Center(size), point) > Square(Radius(size)) ==>
            SquaredDistance(Center(size), p) == Square(Radius(size)) && ShortOf(p, Center(size), point))
    ensures palette == ImagePalette ==>
      && (!transparent(Center(size)) ==> !transparent(p))
      && OnSegment(p, point, Center(size))
      && (Distance(point, Center(size), sqrt) <= 3 ==> p == Center(size))
      && (transparent(point) ==>
            exists q: Point :: transparent(q) && OnSegment(q, point, Center(size)) && Distance(q, p, sqrt) <= 3)
  {
    var center := Center(size);
    if palette == HsvPalette then
      HuePoint(point, size, sqrt)
    else
      ApproximatedPoint(point, center, transparent, sqrt)
  }

  // ---------------------------------------------------------------------
  // Properties relating several calls
  // ---------------------------------------------------------------------

  /** Clamping onto the wheel is idempotent. */
  lemma HuePointIdempotent(point: Point, size: Size, sqrt: real -> real)
    requires IsSqrt(sqrt)
    requires ValidSize(size)
    ensures HuePoint(HuePoint(point, size, sqrt), size, sqrt) == HuePoint(point, size, sqrt)
  {
  }

  /** Both final bisection bounds lie on the segment between the given points. */
  lemma {:induction false} BisectOnSegment(start: Point, end: Point, transparent: Point -> bool, sqrt: real -> real)
    requires IsSqrt(sqrt)
    ensures OnSegment(Bisect(start, end, transparent, sqrt).untrusted, start, end)
    ensures OnSegment(Bisect(start, end, transparent, sqrt).trusted, start, end)
    decreases SquaredDistance(start, end).Floor
  {
    var b := Bisect(start, end, transparent, sqrt);
    if Distance(start, end, sqrt) <= 3 {
      LerpEnds(start, end);
    } else {
      var next := Step(Bounds(start, end), transparent);
      QuarterFloorDecreases(SquaredDistance(start, end));
      BisectOnSegment(next.untrusted, next.trusted, transparent, sqrt);
      assert b == Bisect(next.untrusted, next.trusted, transparent, sqrt);
      SubSegment(b.untrusted, next, start, end);
      SubSegment(b.trusted, next, start, end);
    }
  }

  // ---------------------------------------------------------------------
  // Helper facts
  // ---------------------------------------------------------------------

  /** The squared distance vanishes exactly between equal points. */
  lemma SquaredDistanceZero(a: Point, b: Point)
    ensures SquaredDistance(a, b) == 0.0 <==> a == b
  {
    if SquaredDistance(a, b) == 0.0 {
      SquareZero(b.x - a.x);
      SquareZero(b.y - a.y);
    }
  }

  lemma SquareZero(u: real)
    requires Square(u) <= 0.0
    ensures u == 0.0
  {
    ProductZero(u);
  }

  /** Only zero has a square that is not positive: a nonzero u has |u|/2 < |u|. */
  lemma ProductZero(u: real)
    requires u * u <= 0.0
    ensures u == 0.0
  {
    if u > 0.0 {
      ProductsOrdered(u / 2.0, u);
    } else if u < 0.0 {
      ProductsOrdered(-u / 2.0, -u);
    }
  }

  lemma ProductsOrdered(a: real, b: real)
    requires 0.0 <= a < b
    ensures a * a < b * b
  {
    assert a * (b - a) >= 0.0;
    assert (b - a) * b > 0.0;
  }

  lemma SquareMonotonic(a: real, b: real)
    requires 0.0 <= a <= b
    ensures Square(a) <= Square(b)
  {
    if a < b {
      ProductsOrdered(a, b);
    }
  }

  lemma SquareStrictlyMonotonic(a: real, b: real)
    requires 0.0 <= a < b
    ensures Square(a) < Square(b)
  {
    ProductsOrdered(a, b);
  }

  lemma AbsSquare(v: real)
    ensures Abs(v) * Abs(v) == Square(v)
  {
  }

  lemma SquareHalf(a: real, h: real)
    requires h == a / 2.0
    ensures Square(h) == Square(a) / 4.0
  {
  }

  /** The floor of a square root is the integer square root. */
  lemma RootFloorBounds(v: real, s: real)
    requires s >= 0.0 && Square(s) == v
    ensures s.Floor >= 0
    ensures Square(s.Floor as real) <= v < Square(s.Floor as real + 1.0)
  {
    var f := s.Floor as real;
    assert 0.0 <= f <= s < f + 1.0;
    SquareMonotonic(f, s);
    SquareStrictlyMonotonic(s, f + 1.0);
  }

  /** An integer square root is at most 3 exactly when the square is below 16. */
  lemma IntegerRootBelowFour(v: real, d: int)
    requires d >= 0
    requires Square(d as real) <= v < Square(d as real + 1.0)
    ensures d <= 3 <==> v < 16.0
  {
    if d <= 3 {
      SquareMonotonic(d as real + 1.0, 4.0);
    } else {
      SquareMonotonic(4.0, d as real);
    }
  }

  /** Quartering a squared distance of at least 16 lowers its floor. */
  lemma QuarterFloorDecreases(d: real)
    requires d >= 16.0
    ensures 0 <= (d / 4.0).Floor < d.Floor
  {
  }

  lemma LerpEnds(a: Point, b: Point)
    ensures Lerp(a, b, 0.0) == a && Lerp(a, b, 1.0) == b
  {
  }

  /** A fraction `t` along the upper half of a segment, as a fraction of the whole. */
  lemma UpperHalf(a: real, b: real, t: real)
    ensures Mix(Mix(a, b, 0.5), b, t) == Mix(a, b, (1.0 + t) / 2.0)
  {
  }

  /** A fraction `t` along the lower half of a segment, as a fraction of the whole. */
  lemma LowerHalf(a: real, b: real, t: real)
    ensures Mix(a, Mix(a, b, 0.5), t) == Mix(a, b, t / 2.0)
  {
  }

  /** A point of either half of a segment, as one step leaves it, is a point of the segment. */
  lemma SubSegment(p: Point, next: Bounds, a: Point, b: Point)
    requires next == Bounds(Lerp(a, b, 0.5), b) || next == Bounds(a, Lerp(a, b, 0.5))
    requires OnSegment(p, next.untrusted, next.trusted)
    ensures OnSegment(p, a, b)
  {
    var t :| 0.0 <= t <= 1.0 && p == Lerp(next.untrusted, next.trusted, t);
    if next == Bounds(Lerp(a, b, 0.5), b) {
      UpperHalf(a.x, b.x, t);
      UpperHalf(a.y, b.y, t);
      assert p == Lerp(a, b, (1.0 + t) / 2.0);
    } else {
      LowerHalf(a.x, b.x, t);
      LowerHalf(a.y, b.y, t);
      assert p == Lerp(a, b, t / 2.0);
    }
  }

  /** The unscaled branch of getHuePoint: the point is within the radius. */
  lemma InsideCircle(c: Point, point: Point, r: real, radius: real)
    requires 0.0 <= r <= radius
    requires Square(r) == SquaredDistance(c, point)
    ensures SquaredDistance(c, point) <= Square(radius)
    ensures radius == 0.0 ==> point == c
  {
    SquareMonotonic(r, radius);
    if radius == 0.0 {
      assert SquaredDistance(c, point) == 0.0;
      SquaredDistanceZero(c, point);
    }
  }

  /**
   * The scaled branch of getHuePoint: a point at distance r beyond the radius,
   * moved a fraction radius / r of the way from the centre, lands on the circle.
   */
  lemma ScaledOntoCircle(c: Point, point: Point, r: real, radius: real, k: real)
    requires 0.0 <= radius < r
    requires Square(r) == SquaredDistance(c, point)
    requires k == radius / r
    ensures 0.0 <= k < 1.0
    ensures SquaredDistance(c, Lerp(c, point, k)) == Square(radius)
    ensures SquaredDistance(c, point) > Square(radius)
    ensures radius == 0.0 ==> Lerp(c, point, k) == c
  {
    ScaleFactor(radius, r, k);
    var q := Lerp(c, point, k);
    var dx, dy := point.x - c.x, point.y - c.y;
    assert q.x - c.x == k * dx && q.y - c.y == k * dy;
    ScaledSquares(dx, dy, k, r);
    assert Square(k * r) == Square(radius);
    SquareStrictlyMonotonic(radius, r);
  }

  lemma ScaleFactor(radius: real, r: real, k: real)
    requires 0.0 <= radius < r && k == radius / r
    ensures 0.0 <= k < 1.0 && k * r == radius
  {
  }

  /** Scaling a vector of length `r` by `k` gives one of length k * r. */
  lemma ScaledSquares(dx: real, dy: real, k: real, r: real)
    requires Square(r) == Square(dx) + Square(dy)
    ensures Square(k * dx) + Square(k * dy) == Square(k * r)
  {
    assert Square(k * dx) + Square(k * dy) == k * k * (dx * dx + dy * dy);
  }

  lemma ShortOfWitness(p: Point, a: Point, b: Point, t: real)
    requires 0.0 <= t < 1.0 && p == Lerp(a, b, t)
    ensures ShortOf(p, a, b)
  {
  }

  /** getHuePoint's offset form of a point on the ray from the centre. */
  lemma LerpAsOffset(c: Point, point: Point, k: real)
    ensures Lerp(c, point, k) == Point((point.x - c.x) * k + c.x, (point.y - c.y) * k + c.y)
  {
  }
}

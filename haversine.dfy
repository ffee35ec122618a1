/**
 * Distance helpers of geokdbush-braun: the haversine of the great-circle
 * distance computed from projected coordinates, and the lower bound of that
 * distance from the query point to a bounding box.
 *
 * Projected coordinates: x = longitude / 180 and y = tan(latitude / 2), so
 * for a latitude phi, cos(phi) = (1 - y^2) / (1 + y^2) and
 * sin(phi) = 2y / (1 + y^2).  Real latitudes give y in [-1, 1].
 */
module Haversine {

  /** Earth radius in kilometres; `maxDistance` is divided by it. */
  const EARTH_RADIUS: real := 6371.0

  /**
   * The helpers that need floating-point trigonometry, kept abstract:
   * `degree` is pi/180, `braunY(lat) = tan(lat/2)`, `haverSin(t) = sin^2(t/2)`,
   * `haverSinX(dx) = haverSin(dx * pi)` and `vertexY(y, h)` is the projected
   * latitude where the great circle through the query reaches its extremum.
   */
  datatype Trig = Trig(
    degree: real,
    braunY: real -> real,
    haverSin: real -> real,
    haverSinX: real -> real,
    vertexY: (real, real) -> real)

  /** Axis-aligned bounding box of a k-d tree node, in projected units. */
  datatype Bounds = Bounds(minX: real, minY: real, maxX: real, maxY: real)

  predicate InBounds(px: real, py: real, b: Bounds) {
    b.minX <= px <= b.maxX && b.minY <= py <= b.maxY
  }

  /** A non-empty box inside the projected globe [-1, 1] x [-1, 1]. */
  predicate InGlobe(b: Bounds) {
    -1.0 <= b.minX <= b.maxX <= 1.0 && -1.0 <= b.minY <= b.maxY <= 1.0
  }

  function Square(v: real): (r: real)
    ensures r >= 0.0
  {
    v * v
  }

  function Min(a: real, b: real): (r: real)
    ensures r <= a && r <= b
    ensures r == a || r == b
  {
    if a <= b then a else b
  }

  /** (1 + y1^2)(1 + y2^2), the common denominator; it is never zero. */
  function Den(y1: real, y2: real): (d: real)
    ensures d >= 1.0
  {
    var a := Square(y1);
    var b := Square(y2);
    assert (1.0 + a) * (1.0 + b) == 1.0 + a + b + a * b;
    assert a * b >= 0.0;
    (1.0 + a) * (1.0 + b)
  }

  /**
   * `haverSinDist` exactly as written in the source: its latitude term is
   * square(y1*cosy2 - y2*cosy1) * den, which equals sin^2(phi1 - phi2) / 4
   * rather than the haversine sin^2((phi1 - phi2) / 2).
   */
  function HaverSinDistAsWritten(haverSinDX: real, y1: real, y2: real): real {
    var cosy1 := 1.0 - y1 * y1;
    var cosy2 := 1.0 - y2 * y2;
    var den := 1.0 / Den(y1, y2);
    var haverSinDY := Square(y1 * cosy2 - y2 * cosy1) * den;
    (haverSinDX * cosy1 * cosy2 + haverSinDY) * den
  }

  /**
   * The haversine of the great-circle distance between latitudes y1, y2
   * whose longitudes differ by an angle with haversine `haverSinDX`:
   * hav(dphi) + cos(phi1) cos(phi2) hav(dlambda), with
   * hav(dphi) = (y1 - y2)^2 / ((1 + y1^2)(1 + y2^2)).
   * This is the corrected form of the source's formula; the traversal uses it.
   */
  function HaverSinDist(haverSinDX: real, y1: real, y2: real): real {
    var cosy1 := 1.0 - y1 * y1;
    var cosy2 := 1.0 - y2 * y2;
    var den := 1.0 / Den(y1, y2);
    var haverSinDY := Square(y1 - y2);
    (haverSinDX * cosy1 * cosy2 + haverSinDY) * den
  }

  /** The two formulas agree on the longitude term and differ only in the latitude term. */
  lemma AsWrittenLatitudeTerm(y1: real, y2: real)
    ensures Square(y1 * (1.0 - y2 * y2) - y2 * (1.0 - y1 * y1))
         == Square(y1 - y2) * Square(1.0 + y1 * y2)
  {
    assert y1 * (1.0 - y2 * y2) - y2 * (1.0 - y1 * y1) == (y1 - y2) * (1.0 + y1 * y2);
  }

  /** The source formula is zero at equal latitudes. */
  lemma AsWrittenZero(y: real)
    ensures HaverSinDistAsWritten(0.0, y, y) == 0.0
  {
    var c := 1.0 - y * y;
    assert y * c - y * c == 0.0;
    assert Square(y * c - y * c) == 0.0;
  }

  /** The source formula is symmetric in the two latitudes. */
  lemma AsWrittenSymmetric(h: real, y1: real, y2: real)
    ensures HaverSinDistAsWritten(h, y1, y2) == HaverSinDistAsWritten(h, y2, y1)
  {
    var c1 := 1.0 - y1 * y1;
    var c2 := 1.0 - y2 * y2;
    var t := y1 * c2 - y2 * c1;
    var d := 1.0 / Den(y1, y2);
    var e := h * c1 * c2;
    var s := Square(t);
    assert HaverSinDistAsWritten(h, y1, y2) == (e + s * d) * d;
    assert y2 * c1 - y1 * c2 == -t;
    SquareNeg(t);
    DenSymmetric(y1, y2);
    ProductSwap(h, c1, c2);
    assert HaverSinDistAsWritten(h, y2, y1) == (e + s * d) * d;
  }

  lemma SquareNeg(t: real)
    ensures Square(-t) == Square(t)
  {
  }

  lemma DenSymmetric(y1: real, y2: real)
    ensures Den(y2, y1) == Den(y1, y2)
  {
  }

  lemma ProductSwap(h: real, a: real, b: real)
    ensures h * a * b == h * b * a
  {
  }

  /**
   * The source formula as written puts the north pole (y = 1) at distance 0
   * from the south pole (y = -1) on the same meridian.
   */
  lemma AsWrittenPoleToPole()
    ensures HaverSinDistAsWritten(0.0, 1.0, -1.0) == 0.0
  {
    assert Den(1.0, -1.0) == 4.0;
    assert Square(1.0 * 0.0 - (-1.0) * 0.0) == 0.0;
  }

  /** From latitude y = -1/2, the source formula puts the pole y = 1 at 9/100 ... */
  lemma AsWrittenToPole()
    ensures HaverSinDistAsWritten(0.0, -0.5, 1.0) == 9.0 / 100.0
  {
    assert Den(-0.5, 1.0) == 2.5;
    assert 1.0 / Den(-0.5, 1.0) == 0.4;
    assert Square(-0.5 * 0.0 - 1.0 * 0.75) == 0.5625;
  }

  /** ... and the latitude y = 1/2 at 144/625. */
  lemma AsWrittenMidLatitudes()
    ensures HaverSinDistAsWritten(0.0, -0.5, 0.5) == 144.0 / 625.0
  {
    assert Den(-0.5, 0.5) == 1.5625;
    assert 1.0 / Den(-0.5, 0.5) == 0.64;
    assert Square(-0.5 * 0.75 - 0.5 * 0.75) == 0.5625;
  }

  /**
   * So from latitude y = -1/2 the source formula ranks the pole y = 1
   * nearer than y = 1/2, although the pole lies farther along the same
   * meridian.
   */
  lemma AsWrittenCounterexample()
    ensures HaverSinDistAsWritten(0.0, -0.5, 1.0) < HaverSinDistAsWritten(0.0, -0.5, 0.5)
  {
    AsWrittenToPole();
    AsWrittenMidLatitudes();
  }

  /** The corrected formula on the same inputs: pole to pole is the maximum 1. */
  lemma CorrectedPoleToPole()
    ensures HaverSinDist(0.0, 1.0, -1.0) == 1.0
  {
    MeridianValue(1.0, -1.0, 4.0, 4.0);
  }

  /** From y = -1/2, the point y = 1/2 lies at 16/25 ... */
  lemma CorrectedMidLatitudes()
    ensures HaverSinDist(0.0, -0.5, 0.5) == 16.0 / 25.0
  {
    MeridianValue(-0.5, 0.5, 1.0, 1.5625);
    assert 1.0 / 1.5625 == 16.0 / 25.0;
  }

  /** ... and the pole y = 1 farther, at 9/10. */
  lemma CorrectedToPole()
    ensures HaverSinDist(0.0, -0.5, 1.0) == 9.0 / 10.0
  {
    MeridianValue(-0.5, 1.0, 2.25, 2.5);
    assert 2.25 / 2.5 == 9.0 / 10.0;
  }

  /** The formula with the division and the product regrouped. */
  lemma Unfolded(h: real, y1: real, y2: real)
    ensures HaverSinDist(h, y1, y2)
         == (h * ((1.0 - y1 * y1) * (1.0 - y2 * y2)) + Square(y1 - y2)) / Den(y1, y2)
  {
    var c1 := 1.0 - y1 * y1;
    var c2 := 1.0 - y2 * y2;
    assert h * c1 * c2 == h * (c1 * c2);
    var num := h * (c1 * c2) + Square(y1 - y2);
    assert num * (1.0 / Den(y1, y2)) == num / Den(y1, y2);
  }

  /** On one meridian only the latitude term remains. */
  lemma OnMeridian(y1: real, y2: real)
    ensures HaverSinDist(0.0, y1, y2) == Square(y1 - y2) / Den(y1, y2)
  {
    Unfolded(0.0, y1, y2);
    assert 0.0 * ((1.0 - y1 * y1) * (1.0 - y2 * y2)) == 0.0;
  }

  lemma MeridianValue(y1: real, y2: real, sq: real, den: real)
    requires Square(y1 - y2) == sq && Den(y1, y2) == den
    ensures HaverSinDist(0.0, y1, y2) == sq / den
  {
    OnMeridian(y1, y2);
  }

  /** Symmetric in the two latitudes. */
  lemma HaverSinDistSymmetric(h: real, y1: real, y2: real)
    ensures HaverSinDist(h, y1, y2) == HaverSinDist(h, y2, y1)
  {
    Unfolded(h, y1, y2);
    Unfolded(h, y2, y1);
    assert Square(y1 - y2) == Square(y2 - y1);
    assert Den(y2, y1) == Den(y1, y2);
    assert (1.0 - y1 * y1) * (1.0 - y2 * y2) == (1.0 - y2 * y2) * (1.0 - y1 * y1);
  }

  /** On one meridian the distance is zero exactly at equal latitudes. */
  lemma HaverSinDistZeroIff(y1: real, y2: real)
    ensures HaverSinDist(0.0, y1, y2) == 0.0 <==> y1 == y2
  {
    var d := Den(y1, y2);
    OnMeridian(y1, y2);
    if HaverSinDist(0.0, y1, y2) == 0.0 {
      assert Square(y1 - y2) == 0.0;
      ZeroProduct(y1 - y2, y1 - y2);
    }
  }

  lemma ZeroProduct(a: real, b: real)
    requires a * b == 0.0
    ensures a == 0.0 || b == 0.0
  {
  }

  lemma MulNonneg(a: real, b: real)
    requires a >= 0.0 && b >= 0.0
    ensures a * b >= 0.0
  {
  }

  lemma MulAtMost(a: real, b: real)
    requires 0.0 <= a <= 1.0 && b >= 0.0
    ensures a * b <= b
  {
    MulNonneg(1.0 - a, b);
  }

  /** cos(phi) written in y, up to the factor 1 + y^2, lies in [0, 1] for |y| <= 1. */
  lemma CosBound(y: real)
    requires -1.0 <= y <= 1.0
    ensures 0.0 <= 1.0 - y * y <= 1.0
  {
    if y >= 0.0 {
      assert y * y <= y * 1.0;
    } else {
      assert y * y <= (-y) * 1.0;
    }
  }

  /** cos(phi1) cos(phi2) + (y1 - y2)^2 + (y1 + y2)^2 is the common denominator. */
  lemma LatitudeIdentity(y1: real, y2: real)
    ensures (1.0 - y1 * y1) * (1.0 - y2 * y2) + Square(y1 - y2) + Square(y1 + y2) == Den(y1, y2)
  {
  }

  /**
   * For real latitudes (|y| <= 1) and a longitude haversine in [0, 1] the
   * result is a haversine, i.e. lies in [0, 1].
   */
  lemma HaverSinDistRange(h: real, y1: real, y2: real)
    requires 0.0 <= h <= 1.0
    requires -1.0 <= y1 <= 1.0 && -1.0 <= y2 <= 1.0
    ensures 0.0 <= HaverSinDist(h, y1, y2) <= 1.0
  {
    CosBound(y1);
    CosBound(y2);
    LatitudeIdentity(y1, y2);
    RangeCore(h, 1.0 - y1 * y1, 1.0 - y2 * y2, Square(y1 - y2), Square(y1 + y2), Den(y1, y2));
  }

  /** The range argument with the latitudes abstracted away. */
  lemma RangeCore(h: real, c1: real, c2: real, s: real, t: real, d: real)
    requires 0.0 <= h <= 1.0 && 0.0 <= c1 && 0.0 <= c2
    requires s >= 0.0 && t >= 0.0 && c1 * c2 + s + t == d && d >= 1.0
    ensures 0.0 <= (h * c1 * c2 + s) * (1.0 / d) <= 1.0
  {
    LongitudeTermBound(h, c1, c2);
    assert h * c1 * c2 == h * (c1 * c2);
    RatioBound(h * (c1 * c2), c1 * c2, s, t, d);
    var n := h * c1 * c2 + s;
    assert n * (1.0 / d) == n / d;
  }

  lemma LongitudeTermBound(h: real, c1: real, c2: real)
    requires 0.0 <= h <= 1.0 && 0.0 <= c1 && 0.0 <= c2
    ensures 0.0 <= h * (c1 * c2) <= c1 * c2
  {
    MulNonneg(c1, c2);
    MulNonneg(h, c1 * c2);
    MulAtMost(h, c1 * c2);
  }

  lemma RatioBound(hc: real, c: real, s: real, t: real, d: real)
    requires 0.0 <= hc <= c && s >= 0.0 && t >= 0.0
    requires c + s + t == d && d >= 1.0
    ensures 0.0 <= (hc + s) / d <= 1.0
  {
  }

  /**
   * Along one meridian and within real latitudes, the distance grows as the
   * second latitude moves away from the first, northward or southward (the
   * haversine is monotone in the angle up to 180 degrees).
   */
  lemma MeridianMonotone(y1: real, y2: real, y3: real)
    requires -1.0 <= y1 <= 1.0 && -1.0 <= y2 <= 1.0 && -1.0 <= y3 <= 1.0
    requires y1 <= y2 <= y3 || y3 <= y2 <= y1
    ensures HaverSinDist(0.0, y1, y2) <= HaverSinDist(0.0, y1, y3)
  {
    if y1 <= y2 <= y3 {
      MeridianNorth(y1, y2, y3);
    } else {
      MeridianNorth(-y1, -y2, -y3);
      MeridianReflect(y1, y2);
      MeridianReflect(y1, y3);
    }
  }

  /** Mirroring both latitudes across the equator keeps the distance. */
  lemma MeridianReflect(y1: real, y2: real)
    ensures HaverSinDist(0.0, -y1, -y2) == HaverSinDist(0.0, y1, y2)
  {
    OnMeridian(y1, y2);
    OnMeridian(-y1, -y2);
    assert -y1 - -y2 == -(y1 - y2);
    SquareNeg(y1 - y2);
    SquareNeg(y1);
    SquareNeg(y2);
  }

  /** The northward half of `MeridianMonotone`. */
  lemma MeridianNorth(y1: real, y2: real, y3: real)
    requires -1.0 <= y1 <= y2 <= y3 <= 1.0
    ensures HaverSinDist(0.0, y1, y2) <= HaverSinDist(0.0, y1, y3)
  {
    OnMeridian(y1, y2);
    OnMeridian(y1, y3);
    var a := 1.0 + Square(y1);
    var b2 := 1.0 + Square(y2);
    var b3 := 1.0 + Square(y3);
    MeridianIdentity(y1, y2, y3);
    ProductAtLeastMinusOne(y1, y2);
    ProductAtLeastMinusOne(y1, y3);
    NonnegCombination(y3 - y2, y3 - y1, 1.0 + y1 * y2, y2 - y1, 1.0 + y1 * y3);
    CrossDivide(Square(y1 - y2), Square(y1 - y3), a, b2, b3);
  }

  /**
   * (y3-y1)^2 (1+y2^2) - (y2-y1)^2 (1+y3^2)
   *   = (y3-y2) ((y3-y1)(1+y1 y2) + (y2-y1)(1+y1 y3))
   */
  lemma MeridianIdentity(y1: real, y2: real, y3: real)
    ensures Square(y1 - y3) * (1.0 + Square(y2)) - Square(y1 - y2) * (1.0 + Square(y3))
         == (y3 - y2) * ((y3 - y1) * (1.0 + y1 * y2) + (y2 - y1) * (1.0 + y1 * y3))
  {
  }

  lemma NonnegCombination(s: real, u: real, v: real, w: real, z: real)
    requires s >= 0.0 && u >= 0.0 && v >= 0.0 && w >= 0.0 && z >= 0.0
    ensures s * (u * v + w * z) >= 0.0
  {
    MulNonneg(u, v);
    MulNonneg(w, z);
    MulNonneg(s, u * v + w * z);
  }

  lemma ProductAtLeastMinusOne(u: real, v: real)
    requires -1.0 <= u <= 1.0 && -1.0 <= v <= 1.0
    ensures u * v >= -1.0
  {
    if u >= 0.0 {
      assert u * v >= u * -1.0;
    } else {
      assert u * v >= (-u) * -1.0;
    }
  }

  lemma CrossDivide(p: real, r: real, a: real, b2: real, b3: real)
    requires a >= 1.0 && b2 >= 1.0 && b3 >= 1.0
    requires r * b2 - p * b3 >= 0.0
    ensures p / (a * b2) <= r / (a * b3)
  {
    assert p / (a * b2) == (p * b3) / (a * b2 * b3);
    assert r / (a * b3) == (r * b2) / (a * b2 * b3);
    assert a * b2 * b3 > 0.0;
  }

  /**
   * Lower bound of the distance from the query (x, y) to any point inside
   * the box `b` (source `boxDist`).
   */
  function BoxDist(trig: Trig, dist: (real, real, real) -> real, x: real, y: real, b: Bounds): real {
    if x >= b.minX && x <= b.maxX then
      // query between the box's longitudes: only the latitude gap counts
      if y <= b.minY then dist(0.0, y, b.minY)
      else if y >= b.maxY then dist(0.0, y, b.maxY)
      else 0.0
    else
      // west or east of the box: nearest edge meridian, then the vertex
      // latitude if it falls inside the box, else the nearer corner
      var haverSinDX := Min(trig.haverSinX(x - b.minX), trig.haverSinX(x - b.maxX));
      var extremumY := trig.vertexY(y, haverSinDX);
      if extremumY >= b.minY && extremumY <= b.maxY then
        dist(haverSinDX, y, extremumY)
      else
        Min(dist(haverSinDX, y, b.minY), dist(haverSinDX, y, b.maxY))
  }

  /**
   * A query inside the box has lower bound 0, for any distance formula that
   * puts a latitude at distance 0 from itself on its own meridian.
   */
  lemma BoxDistInside(trig: Trig, dist: (real, real, real) -> real, x: real, y: real, b: Bounds)
    requires InBounds(x, y, b)
    requires dist(0.0, y, y) == 0.0
    ensures BoxDist(trig, dist, x, y, b) == 0.0
  {
    if y <= b.minY {
      assert b.minY == y;
    } else if y >= b.maxY {
      assert b.maxY == y;
    }
  }

  /** Both the corrected and the source formula meet that condition. */
  lemma BoxDistInsideBoth(trig: Trig, x: real, y: real, b: Bounds)
    requires InBounds(x, y, b)
    ensures BoxDist(trig, HaverSinDist, x, y, b) == 0.0
    ensures BoxDist(trig, HaverSinDistAsWritten, x, y, b) == 0.0
  {
    HaverSinDistZeroIff(y, y);
    BoxDistInside(trig, HaverSinDist, x, y, b);
    AsWrittenZero(y);
    BoxDistInside(trig, HaverSinDistAsWritten, x, y, b);
  }

  /**
   * When the query lies between the box's longitudes, the bound is zero
   * exactly when the query's latitude also lies within the box.
   */
  lemma BoxDistColumnZeroIff(trig: Trig, x: real, y: real, b: Bounds)
    requires b.minX <= x <= b.maxX
    requires b.minY <= b.maxY
    ensures BoxDist(trig, HaverSinDist, x, y, b) == 0.0 <==> b.minY <= y <= b.maxY
  {
    if y <= b.minY {
      HaverSinDistZeroIff(y, b.minY);
    } else if y >= b.maxY {
      HaverSinDistZeroIff(y, b.maxY);
    }
  }

  /**
   * For a query and a box within real latitudes, and a longitude haversine
   * ranging in [0, 1], the bound is itself a haversine in [0, 1].
   */
  lemma BoxDistRange(trig: Trig, x: real, y: real, b: Bounds)
    requires forall d :: 0.0 <= trig.haverSinX(d) <= 1.0
    requires -1.0 <= y <= 1.0
    requires -1.0 <= b.minY && b.minY <= 1.0 && -1.0 <= b.maxY && b.maxY <= 1.0
    ensures 0.0 <= BoxDist(trig, HaverSinDist, x, y, b) <= 1.0
  {
    if x >= b.minX && x <= b.maxX {
      HaverSinDistRange(0.0, y, b.minY);
      HaverSinDistRange(0.0, y, b.maxY);
    } else {
      var h := Min(trig.haverSinX(x - b.minX), trig.haverSinX(x - b.maxX));
      var e := trig.vertexY(y, h);
      HaverSinDistRange(h, y, b.minY);
      HaverSinDistRange(h, y, b.maxY);
      if e >= b.minY && e <= b.maxY {
        HaverSinDistRange(h, y, e);
      }
    }
  }
}

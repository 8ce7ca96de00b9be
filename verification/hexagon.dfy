/**
  `create_hexagon`: one flat-topped hexagon as a feature whose ring holds the
  six vertices at angles 0, 60, …, 300 degrees around the centre, at
  distance `radius`, and whose attribute list is the feature id.

  Cosine and sine of an angle in degrees are parameters (`Trig`); the
  geometric lemmas take any pair that has the exact values at the six vertex
  angles, as the true functions do.
*/
module Hexagon {

  datatype Point = Point(x: real, y: real)

  /** A polygon feature: its outer ring and its attribute values. */
  datatype Feature = Feature(ring: seq<Point>, attributes: seq<int>)

  /** Cosine and sine of an angle given in degrees. */
  datatype Trig = Trig(cos: int -> real, sin: int -> real)

  /** Python's `range(start, stop, step)` for a positive step. */
  function PyRange(start: int, stop: int, step: int): (r: seq<int>)
    requires step > 0
    ensures forall k :: 0 <= k < |r| ==> r[k] == start + k * step && r[k] < stop
    ensures stop <= start + |r| * step
    decreases stop - start
  {
    if start >= stop then [] else [start] + PyRange(start + step, stop, step)
  }

  /** The vertex angles of `create_hexagon`. */
  lemma VertexAngles()
    ensures PyRange(0, 360, 60) == [0, 60, 120, 180, 240, 300]
  {
    var r := PyRange(0, 360, 60);
    assert |r| <= 6 by {
      if |r| > 0 {
        assert r[|r| - 1] == 60 * (|r| - 1) < 360;
      }
    }
  }

  function Vertex(x: real, y: real, radius: real, t: Trig, angle: int): Point {
    Point(x + radius * t.cos(angle), y + radius * t.sin(angle))
  }

  /** The hexagon centred at `(x, y)` with circumradius `radius`, carrying `featureId`. */
  function CreateHexagon(x: real, y: real, radius: real, featureId: nat, t: Trig): (f: Feature)
    ensures |f.ring| == 6
    ensures forall k :: 0 <= k < 6 ==>
      f.ring[k] == Point(x + radius * t.cos(60 * k), y + radius * t.sin(60 * k))
    ensures f.attributes == [featureId]
  {
    var angles := PyRange(0, 360, 60);
    var points := seq(|angles|, k requires 0 <= k < |angles| => Vertex(x, y, radius, t, angles[k]));
    assert forall k :: 0 <= k < 6 ==>
      points[k] == Point(x + radius * t.cos(60 * k), y + radius * t.sin(60 * k)) by {
      VertexAngles();
      forall k | 0 <= k < 6
        ensures points[k] == Point(x + radius * t.cos(60 * k), y + radius * t.sin(60 * k))
      {
        assert angles[k] == 60 * k;
        assert points[k] == Vertex(x, y, radius, t, angles[k]);
        assert points[k] == Vertex(x, y, radius, t, 60 * k);
      }
    }
    Feature(points, [featureId])
  }

  /** `root3` is the square root of 3. */
  predicate IsRoot3(root3: real) {
    root3 > 0.0 && root3 * root3 == 3.0
  }

  /** `t` has the exact cosine and sine values at the six vertex angles. */
  predicate ExactAtVertices(t: Trig, root3: real) {
    && t.cos(0) == 1.0 && t.sin(0) == 0.0
    && t.cos(60) == 0.5 && t.sin(60) == root3 / 2.0
    && t.cos(120) == -0.5 && t.sin(120) == root3 / 2.0
    && t.cos(180) == -1.0 && t.sin(180) == 0.0
    && t.cos(240) == -0.5 && t.sin(240) == -root3 / 2.0
    && t.cos(300) == 0.5 && t.sin(300) == -root3 / 2.0
  }

  /** Cosine and sine at multiples of 60 degrees, computed exactly from the square root of 3. */
  function ExactTrig(root3: real): (t: Trig)
    ensures ExactAtVertices(t, root3)
  {
    Trig(a => CosSixth(a), a => SinSixth(a, root3))
  }

  /** Cosine of a multiple of 60 degrees; other angles are not used by the grid. */
  function CosSixth(a: int): real {
    var k := (a / 60) % 6;
    if a % 60 != 0 then 0.0
    else if k == 0 then 1.0
    else if k == 1 || k == 5 then 0.5
    else if k == 2 || k == 4 then -0.5
    else -1.0
  }

  /** Sine of a multiple of 60 degrees; other angles are not used by the grid. */
  function SinSixth(a: int, root3: real): real {
    var k := (a / 60) % 6;
    if a % 60 != 0 then 0.0
    else if k == 1 || k == 2 then root3 / 2.0
    else if k == 4 || k == 5 then -root3 / 2.0
    else 0.0
  }

  /** The six vertices of a flat-topped hexagon about `(x, y)` with circumradius `r` and apothem `h`. */
  function HexRing(x: real, y: real, r: real, h: real): seq<Point> {
    [Point(x + r, y), Point(x + r / 2.0, y + h), Point(x - r / 2.0, y + h),
     Point(x - r, y), Point(x - r / 2.0, y - h), Point(x + r / 2.0, y - h)]
  }

  /** The ring holds the vertices at 0, 60, …, 300 degrees, in that order. */
  lemma RingAtAngles(x: real, y: real, radius: real, featureId: nat, t: Trig)
    ensures CreateHexagon(x, y, radius, featureId, t).ring
      == [Vertex(x, y, radius, t, 0), Vertex(x, y, radius, t, 60), Vertex(x, y, radius, t, 120),
          Vertex(x, y, radius, t, 180), Vertex(x, y, radius, t, 240), Vertex(x, y, radius, t, 300)]
  {
    var ring := CreateHexagon(x, y, radius, featureId, t).ring;
    assert ring[0] == Vertex(x, y, radius, t, 0);
    assert ring[1] == Vertex(x, y, radius, t, 60);
    assert ring[2] == Vertex(x, y, radius, t, 120);
    assert ring[3] == Vertex(x, y, radius, t, 180);
    assert ring[4] == Vertex(x, y, radius, t, 240);
    assert ring[5] == Vertex(x, y, radius, t, 300);
  }

  /** The six vertices written out, with `h` the apothem `sqrt 3 / 2 * radius`. */
  lemma Vertices(x: real, y: real, radius: real, featureId: nat, t: Trig, root3: real)
    requires ExactAtVertices(t, root3)
    ensures CreateHexagon(x, y, radius, featureId, t).ring == HexRing(x, y, radius, radius * (root3 / 2.0))
  {
    RingAtAngles(x, y, radius, featureId, t);
    var h := radius * (root3 / 2.0);
    var hex := HexRing(x, y, radius, h);
    assert Vertex(x, y, radius, t, 0) == hex[0] by {
      assert radius * t.cos(0) == radius && radius * t.sin(0) == 0.0;
    }
    assert Vertex(x, y, radius, t, 60) == hex[1] by {
      assert radius * t.cos(60) == radius / 2.0 && radius * t.sin(60) == h;
    }
    assert Vertex(x, y, radius, t, 120) == hex[2] by {
      assert radius * t.cos(120) == -(radius / 2.0) && radius * t.sin(120) == h;
    }
    assert Vertex(x, y, radius, t, 180) == hex[3] by {
      assert radius * t.cos(180) == -radius && radius * t.sin(180) == 0.0;
    }
    assert Vertex(x, y, radius, t, 240) == hex[4] by {
      assert radius * t.cos(240) == -(radius / 2.0) && radius * t.sin(240) == -h;
    }
    assert Vertex(x, y, radius, t, 300) == hex[5] by {
      assert radius * t.cos(300) == radius / 2.0 && radius * t.sin(300) == -h;
    }
  }

  function SquaredDistance(p: Point, q: Point): real {
    (p.x - q.x) * (p.x - q.x) + (p.y - q.y) * (p.y - q.y)
  }

  /** Squared distance between two points given as offsets from a common origin. */
  lemma OffsetDistance(p: Point, q: Point, dx: real, dy: real)
    requires p.x - q.x == dx && p.y - q.y == dy
    ensures SquaredDistance(p, q) == dx * dx + dy * dy
  {
  }

  /** Every vertex of `HexRing` is `r` from the centre and every side is `r` long. */
  lemma HexRingRegular(x: real, y: real, r: real, h: real)
    requires h * h == 0.75 * (r * r)
    ensures var ring := HexRing(x, y, r, h);
      && (forall k :: 0 <= k < 6 ==> SquaredDistance(ring[k], Point(x, y)) == r * r)
      && (forall i, j {:trigger ring[i], ring[j]} :: 0 <= i < 6 && j == (i + 1) % 6 ==>
            SquaredDistance(ring[i], ring[j]) == r * r)
  {
    var ring := HexRing(x, y, r, h);
    var c := Point(x, y);
    var half := r / 2.0;
    assert half * half + h * h == r * r;
    OffsetDistance(ring[0], c, r, 0.0);
    OffsetDistance(ring[1], c, half, h);
    OffsetDistance(ring[2], c, -half, h);
    OffsetDistance(ring[3], c, -r, 0.0);
    OffsetDistance(ring[4], c, -half, -h);
    OffsetDistance(ring[5], c, half, -h);
    OffsetDistance(ring[0], ring[1], half, -h);
    OffsetDistance(ring[1], ring[2], r, 0.0);
    OffsetDistance(ring[2], ring[3], half, h);
    OffsetDistance(ring[3], ring[4], -half, h);
    OffsetDistance(ring[4], ring[5], -r, 0.0);
    OffsetDistance(ring[5], ring[0], -half, -h);
  }

  /**
    The hexagon is regular: every vertex lies on the circle of radius
    `radius` about the centre, and every side is `radius` long.
  */
  lemma Regular(x: real, y: real, radius: real, featureId: nat, t: Trig, root3: real)
    requires IsRoot3(root3) && ExactAtVertices(t, root3)
    ensures var ring := CreateHexagon(x, y, radius, featureId, t).ring;
      && (forall k :: 0 <= k < 6 ==> SquaredDistance(ring[k], Point(x, y)) == radius * radius)
      && (forall i, j {:trigger ring[i], ring[j]} :: 0 <= i < 6 && j == (i + 1) % 6 ==>
            SquaredDistance(ring[i], ring[j]) == radius * radius)
  {
    var h := radius * (root3 / 2.0);
    assert h * h == 0.75 * (radius * radius) by {
      assert h * h == (radius * radius) * (root3 * root3) / 4.0;
    }
    Vertices(x, y, radius, featureId, t, root3);
    HexRingRegular(x, y, radius, h);
  }

  /**
    The hexagon spans `2 * radius` horizontally (vertex 0 to vertex 3) and
    `sqrt 3 * radius` vertically (vertex 1 to vertex 5): the width and
    height the grid spaces its centres by.
  */
  lemma Span(x: real, y: real, radius: real, featureId: nat, t: Trig, root3: real)
    requires IsRoot3(root3) && ExactAtVertices(t, root3)
    ensures var ring := CreateHexagon(x, y, radius, featureId, t).ring;
      && ring[0].x - ring[3].x == 2.0 * radius
      && ring[1].y - ring[5].y == root3 * radius
      && ring[0].y == ring[3].y == y
      && ring[1].y == ring[2].y && ring[4].y == ring[5].y
  {
    Vertices(x, y, radius, featureId, t, root3);
  }

  /** Twice the signed area of `ring` from vertex `i` on, by the shoelace formula. */
  function ShoelaceSum(ring: seq<Point>, i: nat): real
    requires i <= |ring|
    decreases |ring| - i
  {
    if i == |ring| then 0.0
    else
      var p := ring[i];
      var q := ring[(i + 1) % |ring|];
      p.x * q.y - q.x * p.y + ShoelaceSum(ring, i + 1)
  }

  /** Signed area enclosed by `ring`, positive when it runs counter-clockwise. */
  function PolygonArea(ring: seq<Point>): real {
    ShoelaceSum(ring, 0) / 2.0
  }

  /** The shoelace sum of a six-point ring, written out. */
  lemma ShoelaceUnfold(ring: seq<Point>)
    requires |ring| == 6
    ensures ShoelaceSum(ring, 0)
      == (ring[0].x * ring[1].y - ring[1].x * ring[0].y)
       + (ring[1].x * ring[2].y - ring[2].x * ring[1].y)
       + (ring[2].x * ring[3].y - ring[3].x * ring[2].y)
       + (ring[3].x * ring[4].y - ring[4].x * ring[3].y)
       + (ring[4].x * ring[5].y - ring[5].x * ring[4].y)
       + (ring[5].x * ring[0].y - ring[0].x * ring[5].y)
  {
    assert ShoelaceSum(ring, 6) == 0.0;
    assert ShoelaceSum(ring, 5) == ring[5].x * ring[0].y - ring[0].x * ring[5].y;
    assert ShoelaceSum(ring, 4) == ring[4].x * ring[5].y - ring[5].x * ring[4].y + ShoelaceSum(ring, 5);
    assert ShoelaceSum(ring, 3) == ring[3].x * ring[4].y - ring[4].x * ring[3].y + ShoelaceSum(ring, 4);
    assert ShoelaceSum(ring, 2) == ring[2].x * ring[3].y - ring[3].x * ring[2].y + ShoelaceSum(ring, 3);
    assert ShoelaceSum(ring, 1) == ring[1].x * ring[2].y - ring[2].x * ring[1].y + ShoelaceSum(ring, 2);
  }

  /** `HexRing` encloses six times the triangle of base `r` and height `h`. */
  lemma HexRingArea(x: real, y: real, r: real, h: real)
    ensures PolygonArea(HexRing(x, y, r, h)) == 3.0 * r * h
  {
    var ring := HexRing(x, y, r, h);
    ShoelaceUnfold(ring);
    assert ring[0].x * ring[1].y - ring[1].x * ring[0].y == x * h + r * y / 2.0 + r * h;
    assert ring[1].x * ring[2].y - ring[2].x * ring[1].y == r * y + r * h;
    assert ring[2].x * ring[3].y - ring[3].x * ring[2].y == -x * h + r * y / 2.0 + r * h;
    assert ring[3].x * ring[4].y - ring[4].x * ring[3].y == -x * h - r * y / 2.0 + r * h;
    assert ring[4].x * ring[5].y - ring[5].x * ring[4].y == -r * y + r * h;
    assert ring[5].x * ring[0].y - ring[0].x * ring[5].y == x * h - r * y / 2.0 + r * h;
  }

  /**
    The hexagon encloses `3 * sqrt 3 / 2 * radius^2`, the area the grid
    generator divides by when it derives the radius from the requested area;
    its ring runs counter-clockwise.
  */
  lemma Area(x: real, y: real, radius: real, featureId: nat, t: Trig, root3: real)
    requires IsRoot3(root3) && ExactAtVertices(t, root3)
    ensures PolygonArea(CreateHexagon(x, y, radius, featureId, t).ring) == 3.0 * root3 / 2.0 * radius * radius
  {
    var h := radius * (root3 / 2.0);
    Vertices(x, y, radius, featureId, t, root3);
    HexRingArea(x, y, radius, h);
    assert 3.0 * radius * h == 3.0 * root3 / 2.0 * radius * radius;
  }
}

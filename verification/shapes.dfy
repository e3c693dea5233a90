/**
  What ray casting comes to, for shapes whose points can be said without a ray:
  boxes with holes, triangles by the side of each edge, and any ring at all by the
  triangles it is the sum of.
 */
module Shapes {
  import opened Geometry

  // ------------------------------------------------------ boxes with holes

  predicate Proper(b: Box) {
    b.minLon <= b.maxLon && b.minLat <= b.maxLat
  }

  /** Inside the box and on none of its sides. */
  predicate Within(b: Box, p: Position) {
    b.minLon < p.lon < b.maxLon && b.minLat < p.lat < b.maxLat
  }

  function BoxRings(bs: seq<Box>): (rings: seq<Ring>)
    ensures |rings| == |bs| && forall i :: 0 <= i < |bs| ==> rings[i] == BoxRing(bs[i])
  {
    seq(|bs|, i requires 0 <= i < |bs| => BoxRing(bs[i]))
  }

  function HoledBox(b: Box, holes: seq<Box>): Polygon {
    [BoxRing(b)] + BoxRings(holes)
  }

  lemma OnBoxRing(b: Box, p: Position)
    requires Proper(b)
    ensures InRing(BoxRing(b), p) && !OnRing(BoxRing(b), p) <==> Within(b, p)
  {
    hide OnSegment, RingParity;
    var r := BoxRing(b);
    BoxRingIsBox(b, p);
    if b.Contains(p) {
      BoxEdges(b, p);
      if !Within(b, p) {
        assert OnSegment(r[0], r[1], p) || OnSegment(r[1], r[2], p) || OnSegment(r[2], r[3], p) || OnSegment(r[3], r[4], p);
        var i := if OnSegment(r[0], r[1], p) then 1 else if OnSegment(r[1], r[2], p) then 2
                 else if OnSegment(r[2], r[3], p) then 3 else 4;
        assert OnSegment(r[i - 1], r[i], p);
      } else {
        OffTheSides(b, p);
      }
    }
  }

  lemma OffTheSides(b: Box, p: Position)
    requires Within(b, p)
    ensures !OnRing(BoxRing(b), p)
  {
    var r := BoxRing(b);
    assert !OnSegment(r[0], r[1], p) && !OnSegment(r[1], r[2], p) && !OnSegment(r[2], r[3], p) && !OnSegment(r[3], r[4], p);
  }

  /** A box with holes holds what the box holds, sides included, less the inside of each hole. */
  lemma HolesAreOut(b: Box, holes: seq<Box>, p: Position)
    requires Proper(b) && forall i :: 0 <= i < |holes| ==> Proper(holes[i])
    ensures InPolygon(HoledBox(b, holes), p) <==> b.Contains(p) && forall i :: 0 <= i < |holes| ==> !Within(holes[i], p)
  {
    hide OnRing, InRing;
    var poly := HoledBox(b, holes);
    BoxRingIsBox(b, p);
    forall i | 0 <= i < |holes| ensures poly[1 + i] == BoxRing(holes[i])
      && (InRing(poly[1 + i], p) && !OnRing(poly[1 + i], p) <==> Within(holes[i], p))
    {
      OnBoxRing(holes[i], p);
    }
    if InPolygon(poly, p) {
      forall i | 0 <= i < |holes| ensures !Within(holes[i], p) {
        assert !(InRing(poly[1 + i], p) && !OnRing(poly[1 + i], p));
      }
    }
  }

  datatype HoledBoxes = HoledBoxes(box: Box, holes: seq<Box>)

  predicate AllProper(h: HoledBoxes) {
    Proper(h.box) && forall i :: 0 <= i < |h.holes| ==> Proper(h.holes[i])
  }

  predicate Holds(h: HoledBoxes, p: Position) {
    h.box.Contains(p) && forall i :: 0 <= i < |h.holes| ==> !Within(h.holes[i], p)
  }

  function Polygons(hs: seq<HoledBoxes>): (polys: seq<Polygon>)
    ensures |polys| == |hs| && forall i :: 0 <= i < |hs| ==> polys[i] == HoledBox(hs[i].box, hs[i].holes)
  {
    seq(|hs|, i requires 0 <= i < |hs| => HoledBox(hs[i].box, hs[i].holes))
  }

  /** So a polygon, and several as one shape: a point is in one of the boxes and in no hole of that one. */
  lemma HoledShapes(g: Geometry, hs: seq<HoledBoxes>, p: Position)
    requires forall i :: 0 <= i < |hs| ==> AllProper(hs[i])
    ensures g.kind == POLYGON && |hs| == 1 && g.polygon == HoledBox(hs[0].box, hs[0].holes) ==>
      (Contained(g, p) <==> Holds(hs[0], p))
    ensures g.kind == MULTI_POLYGON && g.multiPolygon == Polygons(hs) ==>
      (Contained(g, p) <==> exists i :: 0 <= i < |hs| && Holds(hs[i], p))
  {
    hide InPolygon, HoledBox;
    forall i | 0 <= i < |hs| ensures InPolygon(HoledBox(hs[i].box, hs[i].holes), p) <==> Holds(hs[i], p) {
      HolesAreOut(hs[i].box, hs[i].holes, p);
    }
    if i :| 0 <= i < |hs| && Holds(hs[i], p) {
      assert Polygons(hs)[i] == HoledBox(hs[i].box, hs[i].holes);
    }
  }

  // -------------------------------------------------------------- triangles

  /** Twice the area of a triangle, positive when it is drawn against the clock. */
  function Area2(a: Position, b: Position, c: Position): real {
    a.lon * (b.lat - c.lat) + b.lon * (c.lat - a.lat) + c.lon * (a.lat - b.lat)
  }

  /** The area is the same from any corner, and turns its sign with the direction. */
  lemma AreaTurns(a: Position, b: Position, c: Position)
    ensures Area2(b, c, a) == Area2(a, b, c) && Area2(b, a, c) == -Area2(a, b, c)
  {
  }

  lemma CrossIsArea(a: Position, b: Position, p: Position)
    ensures Cross(a, b, p) == Area2(a, b, p)
  {
  }

  /** The point is on the same side of every edge, or on it. */
  predicate InTriangle(a: Position, b: Position, c: Position, p: Position) {
    || (Area2(a, b, c) > 0.0 && Area2(a, b, p) >= 0.0 && Area2(b, c, p) >= 0.0 && Area2(c, a, p) >= 0.0)
    || (Area2(a, b, c) < 0.0 && Area2(a, b, p) <= 0.0 && Area2(b, c, p) <= 0.0 && Area2(c, a, p) <= 0.0)
  }

  function Triangle(a: Position, b: Position, c: Position): Ring {
    [a, b, c, a]
  }

  /** Whether the ray crosses the edges of a triangle an odd number of times. */
  predicate TriangleParity(a: Position, b: Position, c: Position, p: Position) {
    (Crosses(a, b, p) != Crosses(b, c, p)) != Crosses(c, a, p)
  }

  lemma ParityOfTriangle(a: Position, b: Position, c: Position, p: Position)
    ensures RingParity(Triangle(a, b, c), p) == TriangleParity(a, b, c, p)
    ensures OnRing(Triangle(a, b, c), p) <==> OnSegment(a, b, p) || OnSegment(b, c, p) || OnSegment(c, a, p)
  {
    assert !Crosses(a, a, p);
    hide Crosses, OnSegment;
    SegmentSymmetric(a, b, p);
    SegmentSymmetric(b, c, p);
    SegmentSymmetric(c, a, p);
    var r := Triangle(a, b, c);
    assert r[..3][..2] == r[..2] && r[..2][..1] == r[..1];
    assert PathParity(r[..2], p) == Crosses(b, a, p);
    assert PathParity(r[..3], p) == (PathParity(r[..2], p) != Crosses(c, b, p));
    assert PathParity(r, p) == (PathParity(r[..3], p) != Crosses(a, c, p));
    if OnSegment(a, b, p) { assert OnSegment(r[0], r[1], p); }
    if OnSegment(b, c, p) { assert OnSegment(r[1], r[2], p); }
    if OnSegment(c, a, p) { assert OnSegment(r[2], r[3], p); }
  }

  /** A straddling edge is crossed when the point is on its west: left of it going north, right going south. */
  lemma CrossedOnWest(a: Position, b: Position, p: Position)
    requires Straddles(a, b, p)
    ensures b.lat > a.lat ==> (Crosses(a, b, p) <==> Area2(a, b, p) > 0.0)
    ensures b.lat < a.lat ==> (Crosses(a, b, p) <==> Area2(a, b, p) < 0.0)
  {
    CrossIsArea(a, b, p);
    CrossLonOnLine(a, b, p);
    var x, d := CrossLon(a, b, p) - p.lon, b.lat - a.lat;
    if d > 0.0 { SignOfProduct(x, d); } else { SignOfProduct(x, -d); assert x * -d == -(x * d); }
  }

  /** The areas to a point weigh the corners so that their mean is the point. */
  lemma Weights(u: Position, v: Position, w: Position, p: Position)
    ensures Area2(u, v, p) + Area2(v, w, p) + Area2(w, u, p) == Area2(u, v, w)
    ensures Area2(v, w, p) * (u.lat - p.lat) + Area2(w, u, p) * (v.lat - p.lat) + Area2(u, v, p) * (w.lat - p.lat) == 0.0
    ensures Area2(v, w, p) * (u.lon - p.lon) + Area2(w, u, p) * (v.lon - p.lon) + Area2(u, v, p) * (w.lon - p.lon) == 0.0
    ensures Area2(u, v, w) * (p.lat - v.lat) == Area2(v, w, p) * (u.lat - v.lat) + Area2(u, v, p) * (w.lat - v.lat)
  {
  }

  lemma ProductSigns(c: real, x: real)
    ensures c >= 0.0 && x >= 0.0 ==> c * x >= 0.0
    ensures c > 0.0 && x > 0.0 ==> c * x > 0.0
    ensures c <= 0.0 && x >= 0.0 ==> c * x <= 0.0
    ensures c < 0.0 && x > 0.0 ==> c * x < 0.0
  {
  }

  /** A weighted sum that is zero has zero between what is weighed. */
  lemma MeanBetween(c: real, x: real, d: real, y: real)
    requires c >= 0.0 && d >= 0.0 && c + d > 0.0 && c * x + d * y == 0.0
    ensures Min(x, y) <= 0.0 <= Max(x, y)
  {
    ProductSigns(c, x);
    ProductSigns(d, y);
    ProductSigns(c, -x);
    ProductSigns(d, -y);
    assert c * -x == -(c * x) && d * -y == -(d * y);
  }

  lemma ZeroIsOn(u: Position, v: Position, w: Position, p: Position)
    requires Area2(u, v, w) > 0.0
    requires Area2(u, v, p) == 0.0 && Area2(v, w, p) >= 0.0 && Area2(w, u, p) >= 0.0
    ensures OnSegment(u, v, p)
  {
    Weights(u, v, w, p);
    CrossIsArea(u, v, p);
    var c, d := Area2(v, w, p), Area2(w, u, p);
    hide Area2;
    MeanBetween(c, u.lat - p.lat, d, v.lat - p.lat);
    MeanBetween(c, u.lon - p.lon, d, v.lon - p.lon);
  }

  predicate OffEdges(u: Position, v: Position, w: Position, p: Position) {
    !OnSegment(u, v, p) && !OnSegment(v, w, p) && !OnSegment(w, u, p)
  }

  /** Off the edges, a point on the side of none of them that is away is on none of their lines. */
  lemma NoneIsZero(u: Position, v: Position, w: Position, p: Position)
    requires Area2(u, v, w) > 0.0 && OffEdges(u, v, w, p)
    requires Area2(u, v, p) >= 0.0 && Area2(v, w, p) >= 0.0 && Area2(w, u, p) >= 0.0
    ensures Area2(u, v, p) > 0.0 && Area2(v, w, p) > 0.0 && Area2(w, u, p) > 0.0
  {
    assert Area2(v, w, u) == Area2(u, v, w) == Area2(w, u, v);
    hide OnSegment, Area2;
    if Area2(u, v, p) == 0.0 { ZeroIsOn(u, v, w, p); }
    if Area2(v, w, p) == 0.0 { ZeroIsOn(v, w, u, p); }
    if Area2(w, u, p) == 0.0 { ZeroIsOn(w, u, v, p); }
  }

  /** One corner alone to the north, or alone to the south: the ray meets the two edges there. */
  lemma ApexParity(u: Position, v: Position, w: Position, p: Position)
    requires North(v, p) != North(u, p) && North(u, p) == North(w, p)
    ensures Area2(u, v, w) > 0.0 ==> (TriangleParity(u, v, w, p) ==>
      Area2(u, v, p) >= 0.0 && Area2(v, w, p) >= 0.0 && Area2(w, u, p) >= 0.0)
    ensures Area2(u, v, p) > 0.0 && Area2(v, w, p) > 0.0 ==> TriangleParity(u, v, w, p)
    ensures Area2(u, v, w) == 0.0 ==> !TriangleParity(u, v, w, p)
  {
    var a, c1, c2, c3 := Area2(u, v, w), Area2(u, v, p), Area2(v, w, p), Area2(w, u, p);
    Weights(u, v, w, p);
    CrossedOnWest(u, v, p);
    CrossedOnWest(v, w, p);
    assert !Crosses(w, u, p);
    hide Area2, Crosses;
    if North(v, p) {
      ApexWeights(a, c1, c2, c3, v.lat - p.lat, v.lat - u.lat, v.lat - w.lat, p.lat - u.lat, p.lat - w.lat);
    } else {
      ApexBelow(a, c1, c2, c3, p.lat - v.lat, u.lat - v.lat, w.lat - v.lat, u.lat - p.lat, w.lat - p.lat);
    }
  }

  lemma ApexWeights(a: real, c1: real, c2: real, c3: real, s: real, x: real, y: real, e: real, f: real)
    requires s > 0.0 && x > 0.0 && y > 0.0 && e >= 0.0 && f >= 0.0
    requires a * -s == c2 * -x + c1 * -y && c2 * -e + c3 * s + c1 * -f == 0.0
    ensures a > 0.0 ==> c1 > 0.0 || c2 > 0.0
    ensures a > 0.0 && c1 >= 0.0 && c2 >= 0.0 ==> c3 >= 0.0
    ensures a == 0.0 ==> (c1 > 0.0 <==> c2 < 0.0)
  {
    assert a * s == c2 * x + c1 * y && c3 * s == c2 * e + c1 * f;
    ProductSigns(a, s);
    Scaled(c1, y);
    Scaled(c2, x);
    ProductSigns(c2, e);
    ProductSigns(c1, f);
    Scaled(c3, s);
  }

  lemma ApexBelow(a: real, c1: real, c2: real, c3: real, s: real, x: real, y: real, e: real, f: real)
    requires s >= 0.0 && x > 0.0 && y > 0.0 && e > 0.0 && f > 0.0
    requires a * s == c2 * x + c1 * y && c2 * e + c3 * -s + c1 * f == 0.0
    ensures a > 0.0 ==> c1 >= 0.0 || c2 > 0.0
    ensures a > 0.0 && c1 >= 0.0 && c2 > 0.0 ==> c3 >= 0.0
    ensures a == 0.0 ==> (c1 < 0.0 <==> c2 > 0.0)
  {
    assert c3 * s == c2 * e + c1 * f;
    ProductSigns(a, s);
    Scaled(c1, y);
    Scaled(c2, x);
    Scaled(c2, e);
    Scaled(c1, f);
    ProductSigns(c3, s);
  }

  lemma Scaled(c: real, x: real)
    requires x > 0.0
    ensures (c * x > 0.0 <==> c > 0.0) && (c * x < 0.0 <==> c < 0.0)
  {
    SignOfProduct(c, x);
  }

  /** A point with all the corners on one side of its latitude is in the triangle on an edge or not at all. */
  lemma OneSided(u: Position, v: Position, w: Position, p: Position)
    requires North(u, p) == North(v, p) == North(w, p)
    ensures !(Area2(u, v, p) > 0.0 && Area2(v, w, p) > 0.0 && Area2(w, u, p) > 0.0)
    ensures !TriangleParity(u, v, w, p)
  {
    var c1, c2, c3 := Area2(u, v, p), Area2(v, w, p), Area2(w, u, p);
    Weights(u, v, w, p);
    assert Area2(u, v, w) == 0.0 || u.lat != p.lat || v.lat != p.lat || w.lat != p.lat;
    hide Area2, Crosses;
    if c1 > 0.0 && c2 > 0.0 && c3 > 0.0 {
      ThreePositive(c2, u.lat - p.lat, c3, v.lat - p.lat, c1, w.lat - p.lat);
    }
  }

  lemma ThreePositive(c: real, x: real, d: real, y: real, e: real, z: real)
    requires c > 0.0 && d > 0.0 && e > 0.0
    requires c * x + d * y + e * z == 0.0
    ensures !(x > 0.0 && y > 0.0 && z > 0.0)
    ensures x <= 0.0 && y <= 0.0 && z <= 0.0 ==> x == 0.0 && y == 0.0 && z == 0.0
  {
    Scaled(x, c);
    Scaled(y, d);
    Scaled(z, e);
    assert c * x == x * c && d * y == y * d && e * z == z * e;
  }

  /** A point off the edges of a triangle is in it by the ray exactly when it is by the sides. */
  lemma TriangleBySides(a: Position, b: Position, c: Position, p: Position)
    requires OffEdges(a, b, c, p)
    ensures TriangleParity(a, b, c, p) <==> InTriangle(a, b, c, p)
  {
    if Area2(a, b, c) < 0.0 {
      hide Area2, OnSegment, Crosses;
      AreaTurns(a, b, c);
      AreaTurns(c, a, b);
      AreaTurns(c, a, p);
      AreaTurns(b, c, p);
      AreaTurns(a, b, p);
      SegmentSymmetric(a, b, p);
      SegmentSymmetric(b, c, p);
      SegmentSymmetric(c, a, p);
      Counterclockwise(a, c, b, p);
    } else {
      Counterclockwise(a, b, c, p);
    }
  }

  lemma Counterclockwise(a: Position, b: Position, c: Position, p: Position)
    requires OffEdges(a, b, c, p) && Area2(a, b, c) >= 0.0
    ensures TriangleParity(a, b, c, p) <==> InTriangle(a, b, c, p)
  {
    hide Area2, Crosses, OnSegment, North;
    AreaTurns(a, b, c);
    AreaTurns(b, c, a);
    if InTriangle(a, b, c, p) { NoneIsZero(a, b, c, p); }
    if North(a, p) == North(b, p) == North(c, p) {
      OneSided(a, b, c, p);
    } else if North(a, p) == North(c, p) {
      ApexParity(a, b, c, p);
    } else if North(a, p) == North(b, p) {
      ApexParity(b, c, a, p);
    } else {
      ApexParity(c, a, b, p);
    }
  }

  /** A triangle holds what is on its edges and what is on the inner side of all three. */
  lemma TriangleHolds(a: Position, b: Position, c: Position, p: Position)
    ensures InRing(Triangle(a, b, c), p) <==> InTriangle(a, b, c, p) || !OffEdges(a, b, c, p)
  {
    hide InTriangle, OnSegment, TriangleParity, Triangle;
    ParityOfTriangle(a, b, c, p);
    if OffEdges(a, b, c, p) { TriangleBySides(a, b, c, p); }
  }

  // ------------------------------------------------------- lines and points

  /** On an edge, to a millionth of a millionth of a square degree, by twice the area of the triangle with it. */
  predicate NearEdge(a: Position, b: Position, p: Position) {
    && -0.000000000001 <= Area2(a, b, p) <= 0.000000000001
    && (a.lon <= p.lon <= b.lon || b.lon <= p.lon <= a.lon)
    && (a.lat <= p.lat <= b.lat || b.lat <= p.lat <= a.lat)
  }

  lemma OnEdge(a: Position, b: Position, p: Position)
    ensures OnSegment(a, b, p) <==> NearEdge(a, b, p)
  {
    CrossIsArea(a, b, p);
  }

  /** A point holds itself and nothing else, a line what is on an edge of it. */
  lemma LineHolds(g: Geometry, p: Position)
    ensures g.kind == POINT ==> (Contained(g, p) <==> p.lon == g.point.lon && p.lat == g.point.lat)
    ensures g.kind == LINE_STRING ==>
      (Contained(g, p) <==> exists i :: 0 <= i < |g.lineString| - 1 && NearEdge(g.lineString[i], g.lineString[i + 1], p))
  {
    hide OnSegment, NearEdge, InPolygon;
    var line := g.lineString;
    forall a, b ensures OnSegment(a, b, p) <==> NearEdge(a, b, p) { OnEdge(a, b, p); }
    if i :| 1 <= i < |line| && OnSegment(line[i - 1], line[i], p) { assert NearEdge(line[i - 1], line[i - 1 + 1], p); }
    if i :| 0 <= i < |line| - 1 && NearEdge(line[i], line[i + 1], p) { assert OnSegment(line[i + 1 - 1], line[i + 1], p); }
  }

  /** A geometry of any other kind holds nothing and has no outline. */
  lemma OtherKinds(g: Geometry, p: Position)
    requires g.kind !in [POINT, LINE_STRING, POLYGON, MULTI_POLYGON]
    ensures !Contained(g, p) && Outline(g) == []
  {
    hide InPolygon, OnRing;
  }

  // --------------------------------------------------------- bounding boxes

  predicate HoldsBox(c: Box, b: Box) {
    c.minLon <= b.minLon && c.minLat <= b.minLat && b.maxLon <= c.maxLon && b.maxLat <= c.maxLat
  }

  predicate HoldsAll(c: Box, ps: seq<Position>) {
    forall q :: q in ps ==> c.Contains(q)
  }

  /** The box round some positions is in every box that holds them. */
  lemma BoundsAreLeast(b: Box, ps: seq<Position>, c: Box)
    requires Bounds(b, ps)
    ensures HoldsBox(c, b) <==> HoldsAll(c, ps)
  {
  }

  lemma HoldsCorners(c: Box, b: Box)
    requires Proper(b)
    ensures HoldsAll(c, BoxRing(b)) <==> HoldsBox(c, b)
  {
    var r := BoxRing(b);
    assert r[0] in r && r[2] in r;
  }

  lemma HoldsBoth(c: Box, ps: seq<Position>, qs: seq<Position>)
    ensures HoldsAll(c, ps + qs) <==> HoldsAll(c, ps) && HoldsAll(c, qs)
  {
    if HoldsAll(c, ps + qs) {
      forall q | q in ps ensures c.Contains(q) { assert q in ps + qs; }
      forall q | q in qs ensures c.Contains(q) { assert q in ps + qs; }
    }
  }

  lemma OuterIsBox(b: Box, holes: seq<Box>)
    ensures OuterRing(HoledBox(b, holes)) == BoxRing(b)
  {
  }

  predicate HoldsBoxes(c: Box, hs: seq<HoledBoxes>) {
    forall i :: 0 <= i < |hs| ==> HoldsBox(c, hs[i].box)
  }

  lemma {:induction false} HoldsOuter(c: Box, hs: seq<HoledBoxes>)
    requires forall i :: 0 <= i < |hs| ==> Proper(hs[i].box)
    ensures HoldsAll(c, OuterRings(Polygons(hs))) <==> HoldsBoxes(c, hs)
  {
    hide BoxRing, HoledBox, HoldsBox, Proper;
    if hs != [] {
      var k := |hs| - 1;
      HoldsOuter(c, hs[..k]);
      assert Polygons(hs)[..k] == Polygons(hs[..k]);
      OuterIsBox(hs[k].box, hs[k].holes);
      HoldsCorners(c, hs[k].box);
      HoldsBoth(c, OuterRings(Polygons(hs[..k])), BoxRing(hs[k].box));
      hide HoldsAll;
      assert hs == hs[..k] + [hs[k]];
    }
  }

  /** The bounding box of boxes with holes is the least round the boxes, whatever the holes: what holds it holds them. */
  lemma BoundsOfBoxes(g: Geometry, hs: seq<HoledBoxes>, b: Box, c: Box)
    requires Bounds(b, Outline(g)) && forall i :: 0 <= i < |hs| ==> Proper(hs[i].box)
    requires g.kind == POLYGON ==> |hs| == 1 && [g.polygon] == Polygons(hs)
    requires g.kind == MULTI_POLYGON ==> g.multiPolygon == Polygons(hs)
    requires g.kind == POLYGON || g.kind == MULTI_POLYGON
    ensures HoldsBox(c, b) <==> HoldsBoxes(c, hs)
  {
    hide HoldsBox, Bounds, HoldsAll, HoledBox, Proper;
    BoundsAreLeast(b, Outline(g), c);
    if g.kind == POLYGON {
      OuterIsBox(hs[0].box, hs[0].holes);
      assert g.polygon == Polygons(hs)[0];
      HoldsCorners(c, hs[0].box);
    } else {
      HoldsOuter(c, hs);
    }
  }

  // -------------------------------------------------- a ring as triangles

  /** How often a point is in the triangles from the first vertex to each edge: whether that is odd. */
  function FanParity(ring: Ring, p: Position): bool {
    if |ring| < 3 then false
    else FanParity(ring[..|ring| - 1], p) != TriangleParity(ring[0], ring[|ring| - 2], ring[|ring| - 1], p)
  }

  /** A ring is crossed as often as those triangles are, up to what is crossed twice. */
  lemma {:induction false} RingIsFan(ring: Ring, p: Position)
    ensures RingParity(ring, p) == FanParity(ring, p)
  {
    hide Crosses;
    var n := |ring|;
    if n >= 3 {
      RingIsFan(ring[..n - 1], p);
      SegmentSymmetric(ring[0], ring[n - 1], p);
      SegmentSymmetric(ring[n - 2], ring[n - 1], p);
    } else if n == 2 {
      SegmentSymmetric(ring[0], ring[1], p);
      assert PathParity(ring, p) == (PathParity(ring[..1], p) != Crosses(ring[1], ring[0], p));
    } else if n == 1 {
      assert !Crosses(ring[0], ring[0], p) by { NotCrossed(ring[0], p); }
    }
  }

  lemma NotCrossed(a: Position, p: Position)
    ensures !Crosses(a, a, p)
  {
  }

  function FanCount(ring: Ring, p: Position): nat {
    if |ring| < 3 then 0
    else FanCount(ring[..|ring| - 1], p) + if InTriangle(ring[0], ring[|ring| - 2], ring[|ring| - 1], p) then 1 else 0
  }

  predicate OffFan(ring: Ring, p: Position) {
    forall i :: 2 <= i < |ring| ==> OffEdges(ring[0], ring[i - 1], ring[i], p)
  }

  lemma {:induction false} FanBySides(ring: Ring, p: Position)
    requires OffFan(ring, p)
    ensures FanParity(ring, p) <==> FanCount(ring, p) % 2 == 1
  {
    hide TriangleParity, InTriangle, OffEdges;
    if |ring| >= 3 {
      var n := |ring|;
      FanBySides(ring[..n - 1], p);
      TriangleBySides(ring[0], ring[n - 2], ring[n - 1], p);
    }
  }

  /**
    Any ring, off its edges and the lines from its first vertex, holds the points
    that are in an odd number of the triangles it is drawn from.
   */
  lemma RingBySides(ring: Ring, p: Position)
    requires OffFan(ring, p) && !OnRing(ring, p)
    ensures InRing(ring, p) <==> FanCount(ring, p) % 2 == 1
  {
    hide OffFan, OnRing, RingParity, FanCount, FanParity;
    RingIsFan(ring, p);
    FanBySides(ring, p);
  }
}

/**
  Point in shape by ray casting, over exact reals.

  `RingContains` is the loop: it toggles a flag at every edge that a ray to the
  east crosses. `InRing` is its value, and the lemmas say what the flag is worth:
  it does not depend on the direction or the starting vertex of a ring, nor on
  the ray being cast east rather than west, and it is false everywhere outside
  the bounding box.
 */
module Geometry {

  datatype Position = Position(lon: real, lat: real)

  type Ring = seq<Position>
  type Polygon = seq<Ring>

  const POINT := "Point"
  const LINE_STRING := "LineString"
  const POLYGON := "Polygon"
  const MULTI_POLYGON := "MultiPolygon"

  datatype Geometry = Geometry(
    kind: string,
    point: Position,
    lineString: seq<Position>,
    polygon: Polygon,
    multiPolygon: seq<Polygon>)

  datatype Box = Box(minLon: real, minLat: real, maxLon: real, maxLat: real) {
    predicate Contains(p: Position) {
      minLon <= p.lon <= maxLon && minLat <= p.lat <= maxLat
    }
  }

  /** How far off a line a point may be, as a cross product, and still be on it. */
  const TOLERANCE := 0.000000000001

  function Min(a: real, b: real): real { if b < a then b else a }

  function Max(a: real, b: real): real { if b > a then b else a }

  function Abs(a: real): real { if a < 0.0 then -a else a }

  // ------------------------------------------------------------ segments

  function Cross(a: Position, b: Position, p: Position): real {
    (b.lon - a.lon) * (p.lat - a.lat) - (b.lat - a.lat) * (p.lon - a.lon)
  }

  predicate OnSegment(a: Position, b: Position, p: Position) {
    && Abs(Cross(a, b, p)) <= TOLERANCE
    && Min(a.lon, b.lon) <= p.lon <= Max(a.lon, b.lon)
    && Min(a.lat, b.lat) <= p.lat <= Max(a.lat, b.lat)
  }

  /** The ends of the segment lie on either side of the line of latitude through p. */
  predicate Straddles(a: Position, b: Position, p: Position) {
    (a.lat > p.lat) != (b.lat > p.lat)
  }

  /** Where the segment meets the line of latitude through p. */
  function CrossLon(a: Position, b: Position, p: Position): real
    requires Straddles(a, b, p)
  {
    a.lon + (p.lat - a.lat) * (b.lon - a.lon) / (b.lat - a.lat)
  }

  /** The ray from p to the east crosses the segment. */
  predicate Crosses(a: Position, b: Position, p: Position) {
    Straddles(a, b, p) && p.lon < CrossLon(a, b, p)
  }

  /** CrossLon is a point of the line: c times the height is the cross product. */
  lemma CrossLonOnLine(a: Position, b: Position, p: Position)
    requires Straddles(a, b, p)
    ensures (CrossLon(a, b, p) - a.lon) * (b.lat - a.lat) == (p.lat - a.lat) * (b.lon - a.lon)
    ensures (CrossLon(a, b, p) - p.lon) * (b.lat - a.lat) == Cross(a, b, p)
  {
    var q := (p.lat - a.lat) * (b.lon - a.lon);
    assert q / (b.lat - a.lat) * (b.lat - a.lat) == q;
  }

  lemma QuotientIsUnique(x: real, y: real, d: real)
    requires d != 0.0 && x * d == y * d
    ensures x == y
  {
    assert (x - y) * d == 0.0;
  }

  /** A segment is crossed, and holds a point, whichever end it is read from. */
  lemma SegmentSymmetric(a: Position, b: Position, p: Position)
    ensures Crosses(a, b, p) == Crosses(b, a, p)
    ensures OnSegment(a, b, p) == OnSegment(b, a, p)
  {
    assert Cross(b, a, p) == -Cross(a, b, p);
    if Straddles(a, b, p) {
      CrossLonOnLine(a, b, p);
      CrossLonOnLine(b, a, p);
      SameOffset(CrossLon(a, b, p) - p.lon, CrossLon(b, a, p) - p.lon, b.lat - a.lat, a.lat - b.lat, Cross(a, b, p), Cross(b, a, p));
    }
  }

  lemma SameOffset(x: real, y: real, d: real, e: real, c: real, f: real)
    requires d != 0.0 && e == -d && c == -f && x * d == c && y * e == f
    ensures x == y
  {
    assert y * e == -(y * d);
    QuotientIsUnique(x, y, d);
  }

  /** The crossing lies between the ends of the segment. */
  lemma CrossLonBetween(a: Position, b: Position, p: Position)
    requires Straddles(a, b, p)
    ensures Min(a.lon, b.lon) <= CrossLon(a, b, p) <= Max(a.lon, b.lon)
  {
    CrossLonOnLine(a, b, p);
    Between(CrossLon(a, b, p) - a.lon, b.lat - a.lat, p.lat - a.lat, b.lon - a.lon);
  }

  /** If x * h == t * w with t between 0 and h, then x is between 0 and w. */
  lemma Between(x: real, h: real, t: real, w: real)
    requires h != 0.0 && x * h == t * w
    requires 0.0 <= t <= h || h <= t <= 0.0
    ensures 0.0 <= x <= w || w <= x <= 0.0
  {
    if h < 0.0 {
      assert x * (-h) == (-t) * w;
      BetweenUp(x, -h, -t, w);
    } else {
      BetweenUp(x, h, t, w);
    }
  }

  lemma BetweenUp(x: real, h: real, t: real, w: real)
    requires h > 0.0 && x * h == t * w && 0.0 <= t <= h
    ensures 0.0 <= x <= w || w <= x <= 0.0
  {
    SignOfProduct(x, h);
    if w >= 0.0 {
      assert 0.0 <= t * w <= h * w;
      SignOfProduct(x - w, h);
    } else {
      assert h * w <= t * w <= 0.0;
      SignOfProduct(w - x, h);
    }
  }

  lemma SignOfProduct(x: real, h: real)
    requires h > 0.0
    ensures x < 0.0 <==> x * h < 0.0
    ensures x > 0.0 <==> x * h > 0.0
  {
  }

  // --------------------------------------------------------------- rings

  predicate OnRing(ring: Ring, p: Position) {
    exists i :: 1 <= i < |ring| && OnSegment(ring[i - 1], ring[i], p)
  }

  /** Whether the ray from p crosses the path an odd number of times. */
  function PathParity(path: seq<Position>, p: Position): bool {
    if |path| < 2 then false
    else PathParity(path[..|path| - 1], p) != Crosses(path[|path| - 1], path[|path| - 2], p)
  }

  /** The same with the edge from the last vertex back to the first. */
  function RingParity(ring: Ring, p: Position): bool {
    ring != [] && (Crosses(ring[0], ring[|ring| - 1], p) != PathParity(ring, p))
  }

  predicate InRing(ring: Ring, p: Position) {
    OnRing(ring, p) || RingParity(ring, p)
  }

  method RingContains(ring: Ring, p: Position) returns (inside: bool)
    ensures inside == InRing(ring, p)
  {
    hide Crosses, OnSegment;
    if OnRing(ring, p) {
      return true;
    }
    inside := false;
    var i, j := 0, |ring| - 1;
    while i < |ring|
      invariant 0 <= i <= |ring|
      invariant j == if i == 0 then |ring| - 1 else i - 1
      invariant i == 0 ==> !inside
      invariant i > 0 ==> inside == (Crosses(ring[0], ring[|ring| - 1], p) != PathParity(ring[..i], p))
    {
      var a, b := ring[i], ring[j];
      if i > 0 { assert ring[..i + 1][..i] == ring[..i]; }
      if Crosses(a, b, p) {
        inside := !inside;
      }
      i, j := i + 1, i;
    }
    assert ring[..|ring|] == ring;
  }

  /** A path is crossed as often as its two parts are. */
  lemma {:induction false} ParityOfJoin(front: seq<Position>, v: Position, back: seq<Position>, p: Position)
    ensures PathParity(front + [v] + back, p) == (PathParity(front + [v], p) != PathParity([v] + back, p))
  {
    hide Crosses;
    if back == [] {
      assert front + [v] + back == front + [v];
    } else {
      var shorter := back[..|back| - 1];
      ParityOfJoin(front, v, shorter, p);
      assert (front + [v] + back)[..|front| + |back|] == front + [v] + shorter;
      assert ([v] + back)[..|back|] == [v] + shorter;
    }
  }

  function Reversed(path: seq<Position>): (r: seq<Position>)
    ensures |r| == |path|
    ensures forall i :: 0 <= i < |path| ==> r[i] == path[|path| - 1 - i]
  {
    if path == [] then [] else [path[|path| - 1]] + Reversed(path[..|path| - 1])
  }

  lemma {:induction false} ParityOfReversed(path: seq<Position>, p: Position)
    ensures PathParity(Reversed(path), p) == PathParity(path, p)
  {
    hide Crosses;
    if |path| >= 2 {
      var n := |path|;
      var front := path[..n - 1];
      ParityOfReversed(front, p);
      var back := Reversed(front)[1..];
      assert Reversed(front) == [path[n - 2]] + back;
      ParityOfJoin([path[n - 1]], path[n - 2], back, p);
      assert Reversed(path) == [path[n - 1]] + [path[n - 2]] + back;
      assert PathParity([path[n - 1]] + [path[n - 2]], p) == Crosses(path[n - 2], path[n - 1], p) by {
        assert ([path[n - 1]] + [path[n - 2]])[..1] == [path[n - 1]];
      }
      SegmentSymmetric(path[n - 1], path[n - 2], p);
    }
  }

  lemma OnReversed(ring: Ring, p: Position)
    ensures OnRing(ring, p) ==> OnRing(Reversed(ring), p)
  {
    hide OnSegment, Crosses;
    if i :| 1 <= i < |ring| && OnSegment(ring[i - 1], ring[i], p) {
      SegmentSymmetric(ring[i - 1], ring[i], p);
      var k := |ring| - i;
      assert Reversed(ring)[k - 1] == ring[i] && Reversed(ring)[k] == ring[i - 1];
    }
  }

  /** A ring holds the same points in either direction, whether it is closed or not. */
  lemma DirectionIsIrrelevant(ring: Ring, p: Position)
    ensures InRing(Reversed(ring), p) == InRing(ring, p)
  {
    hide OnSegment, Crosses, OnRing;
    OnReversed(ring, p);
    OnReversed(Reversed(ring), p);
    assert Reversed(Reversed(ring)) == ring;
    ParityOfReversed(ring, p);
    if ring != [] { SegmentSymmetric(ring[0], ring[|ring| - 1], p); }
  }

  predicate Closed(ring: Ring) {
    |ring| >= 2 && ring[0] == ring[|ring| - 1]
  }

  /** The same closed ring started at its k-th vertex. */
  function Rotated(ring: Ring, k: nat): Ring
    requires k < |ring|
  {
    ring[k..] + ring[1..k + 1]
  }

  lemma OnRotated(ring: Ring, k: nat, p: Position)
    requires Closed(ring) && k < |ring|
    ensures OnRing(ring, p) <==> OnRing(Rotated(ring, k), p)
  {
    hide OnSegment;
    var n, r := |ring| - 1, Rotated(ring, k);
    if i :| 1 <= i < |ring| && OnSegment(ring[i - 1], ring[i], p) {
      var j := if i <= k then n - k + i else i - k;
      assert r[j - 1] == ring[i - 1] && r[j] == ring[i];
    }
    if j :| 1 <= j < |r| && OnSegment(r[j - 1], r[j], p) {
      var i := if j <= n - k then j + k else j - (n - k);
      assert r[j - 1] == ring[i - 1] && r[j] == ring[i];
    }
  }

  lemma ParityOfRotated(ring: Ring, k: nat, p: Position)
    requires Closed(ring) && k < |ring|
    ensures PathParity(Rotated(ring, k), p) == PathParity(ring, p)
  {
    hide PathParity, Closed, Rotated;
    var n := |ring| - 1;
    ParityOfTwoParts(ring, k, p);
    PartsOfRotated(ring, k);
    ParityOfTwoParts(Rotated(ring, k), n - k, p);
  }

  /** A path is crossed as often as it is up to its k-th vertex and from there on. */
  lemma ParityOfTwoParts(path: seq<Position>, k: nat, p: Position)
    requires k < |path|
    ensures PathParity(path, p) == (PathParity(path[..k + 1], p) != PathParity(path[k..], p))
  {
    hide PathParity;
    assert path == path[..k] + [path[k]] + path[k + 1..];
    assert path[..k] + [path[k]] == path[..k + 1] && [path[k]] + path[k + 1..] == path[k..];
    ParityOfJoin(path[..k], path[k], path[k + 1..], p);
  }

  lemma PartsOfRotated(ring: Ring, k: nat)
    requires Closed(ring) && k < |ring|
    ensures |Rotated(ring, k)| == |ring|
    ensures Rotated(ring, k)[..|ring| - k] == ring[k..]
    ensures Rotated(ring, k)[|ring| - 1 - k..] == ring[..k + 1]
  {
    assert Rotated(ring, k)[|ring| - 1 - k] == ring[|ring| - 1];
  }

  /** A closed ring holds the same points whichever vertex it starts at. */
  lemma StartIsIrrelevant(ring: Ring, k: nat, p: Position)
    requires Closed(ring) && k < |ring|
    ensures Closed(Rotated(ring, k))
    ensures InRing(Rotated(ring, k), p) == InRing(ring, p)
  {
    hide OnSegment, OnRing, PathParity;
    OnRotated(ring, k, p);
    ParityOfRotated(ring, k, p);
  }

  /** The ring q is the ring r drawn the other way round, or closed and started elsewhere. */
  ghost predicate SameOutline(r: Ring, q: Ring) {
    q == Reversed(r) || (Closed(r) && exists k: nat :: k < |r| && q == Rotated(r, k))
  }

  lemma SameOutlineSamePoints(r: Ring, q: Ring, p: Position)
    requires SameOutline(r, q)
    ensures InRing(q, p) == InRing(r, p) && OnRing(q, p) == OnRing(r, p)
  {
    hide InRing, OnRing;
    if q == Reversed(r) {
      DirectionIsIrrelevant(r, p);
      OnReversed(r, p);
      OnReversed(q, p);
      assert Reversed(Reversed(r)) == r;
    } else {
      var k: nat :| k < |r| && q == Rotated(r, k);
      StartIsIrrelevant(r, k, p);
      OnRotated(r, k, p);
    }
  }

  // ------------------------------------------------- the ray to the west

  /** The ray from p to the west crosses the segment. */
  predicate CrossesWest(a: Position, b: Position, p: Position) {
    Straddles(a, b, p) && CrossLon(a, b, p) < p.lon
  }

  function WestParity(path: seq<Position>, p: Position): bool {
    if |path| < 2 then false
    else WestParity(path[..|path| - 1], p) != CrossesWest(path[|path| - 1], path[|path| - 2], p)
  }

  predicate North(v: Position, p: Position) {
    v.lat > p.lat
  }

  /** Off the segment, an edge that straddles the latitude of p is crossed by one of the two rays and not the other. */
  lemma OneRayCrosses(a: Position, b: Position, p: Position)
    requires !OnSegment(b, a, p)
    ensures (Crosses(a, b, p) != CrossesWest(a, b, p)) == (North(a, p) != North(b, p))
  {
    SegmentSymmetric(a, b, p);
    if Straddles(a, b, p) { CrossedAtPoint(a, b, p); }
  }

  /** A segment that meets the latitude of p at p itself holds p. */
  lemma CrossedAtPoint(a: Position, b: Position, p: Position)
    requires Straddles(a, b, p)
    ensures CrossLon(a, b, p) == p.lon ==> OnSegment(a, b, p)
  {
    CrossLonOnLine(a, b, p);
    CrossLonBetween(a, b, p);
    if CrossLon(a, b, p) == p.lon {
      assert Cross(a, b, p) == 0.0;
    }
  }

  lemma OnLongerPath(path: seq<Position>, n: nat, p: Position)
    requires n <= |path|
    ensures OnRing(path[..n], p) ==> OnRing(path, p)
  {
    hide OnSegment;
  }

  /** Both rays together cross a path an odd number of times when its ends are on either side. */
  lemma {:induction false} BothRays(path: seq<Position>, p: Position)
    requires path != [] && !OnRing(path, p)
    ensures (PathParity(path, p) != WestParity(path, p)) == (North(path[0], p) != North(path[|path| - 1], p))
  {
    hide Crosses, CrossesWest, North, OnSegment;
    var n := |path|;
    if n >= 2 {
      var front := path[..n - 1];
      OnLongerPath(path, n - 1, p);
      BothRays(front, p);
      OneRayCrosses(path[n - 1], path[n - 2], p);
    }
  }

  /** For a point off a closed ring it makes no difference which way the ray is cast. */
  lemma RayIsIrrelevant(ring: Ring, p: Position)
    requires Closed(ring) && !OnRing(ring, p)
    ensures InRing(ring, p) == WestParity(ring, p)
  {
    hide OnRing, PathParity, WestParity;
    BothRays(ring, p);
  }

  // ------------------------------------------------------------- shapes

  predicate InPolygon(poly: Polygon, p: Position) {
    && poly != [] && InRing(poly[0], p)
    && forall i :: 1 <= i < |poly| ==> !(InRing(poly[i], p) && !OnRing(poly[i], p))
  }

  method PolygonContains(poly: Polygon, p: Position) returns (inside: bool)
    ensures inside == InPolygon(poly, p)
  {
    hide InRing, OnRing;
    if |poly| == 0 {
      return false;
    }
    inside := RingContains(poly[0], p);
    if !inside {
      return false;
    }
    for i := 1 to |poly|
      invariant forall k :: 1 <= k < i ==> !(InRing(poly[k], p) && !OnRing(poly[k], p))
    {
      var hit := RingContains(poly[i], p);
      if hit && !OnRing(poly[i], p) {
        return false;
      }
    }
  }

  /** Redrawing any of a polygon's rings, holes included, leaves it holding the same points. */
  lemma RedrawnPolygon(poly: Polygon, redrawn: Polygon, p: Position)
    requires |poly| == |redrawn| && forall i :: 0 <= i < |poly| ==> SameOutline(poly[i], redrawn[i])
    ensures InPolygon(redrawn, p) == InPolygon(poly, p)
  {
    hide InRing, OnRing, SameOutline;
    forall i | 0 <= i < |poly| ensures InRing(redrawn[i], p) == InRing(poly[i], p) && OnRing(redrawn[i], p) == OnRing(poly[i], p) {
      SameOutlineSamePoints(poly[i], redrawn[i], p);
    }
  }

  predicate Contained(g: Geometry, p: Position) {
    if g.kind == POINT then g.point == p
    else if g.kind == LINE_STRING then OnRing(g.lineString, p)
    else if g.kind == POLYGON then InPolygon(g.polygon, p)
    else if g.kind == MULTI_POLYGON then exists i :: 0 <= i < |g.multiPolygon| && InPolygon(g.multiPolygon[i], p)
    else false
  }

  method Contains(g: Geometry, p: Position) returns (inside: bool)
    ensures inside == Contained(g, p)
  {
    hide InPolygon, OnRing;
    if g.kind == POINT {
      return g.point == p;
    } else if g.kind == LINE_STRING {
      return OnRing(g.lineString, p);
    } else if g.kind == POLYGON {
      inside := PolygonContains(g.polygon, p);
      return;
    } else if g.kind == MULTI_POLYGON {
      for i := 0 to |g.multiPolygon|
        invariant forall k :: 0 <= k < i ==> !InPolygon(g.multiPolygon[k], p)
      {
        inside := PolygonContains(g.multiPolygon[i], p);
        if inside {
          return true;
        }
      }
      return false;
    }
    return false;
  }

  /** The positions a bounding box is drawn round: the outer rings, holes left out. */
  function Outline(g: Geometry): seq<Position> {
    if g.kind == POINT then [g.point]
    else if g.kind == LINE_STRING then g.lineString
    else if g.kind == POLYGON then OuterRing(g.polygon)
    else if g.kind == MULTI_POLYGON then OuterRings(g.multiPolygon)
    else []
  }

  function OuterRing(poly: Polygon): Ring {
    if poly == [] then [] else poly[0]
  }

  function OuterRings(polys: seq<Polygon>): seq<Position> {
    if polys == [] then [] else OuterRings(polys[..|polys| - 1]) + OuterRing(polys[|polys| - 1])
  }

  /** The smallest box round some positions: it holds them all, and each side touches one. */
  ghost predicate Bounds(b: Box, ps: seq<Position>) {
    && (forall q :: q in ps ==> b.Contains(q))
    && (exists q :: q in ps && q.lon == b.minLon)
    && (exists q :: q in ps && q.lat == b.minLat)
    && (exists q :: q in ps && q.lon == b.maxLon)
    && (exists q :: q in ps && q.lat == b.maxLat)
  }

  method BoundingBox(g: Geometry) returns (b: Box)
    ensures Outline(g) == [] ==> b == Box(0.0, 0.0, 0.0, 0.0)
    ensures Outline(g) != [] ==> Bounds(b, Outline(g))
  {
    var positions := [];
    if g.kind == POINT {
      positions := [g.point];
    } else if g.kind == LINE_STRING {
      positions := g.lineString;
    } else if g.kind == POLYGON {
      positions := OuterRing(g.polygon);
    } else if g.kind == MULTI_POLYGON {
      for i := 0 to |g.multiPolygon|
        invariant positions == OuterRings(g.multiPolygon[..i])
      {
        assert g.multiPolygon[..i + 1][..i] == g.multiPolygon[..i];
        positions := positions + OuterRing(g.multiPolygon[i]);
      }
      assert g.multiPolygon[..|g.multiPolygon|] == g.multiPolygon;
    }
    if |positions| == 0 {
      return Box(0.0, 0.0, 0.0, 0.0);
    }
    b := Box(positions[0].lon, positions[0].lat, positions[0].lon, positions[0].lat);
    for i := 1 to |positions|
      invariant Bounds(b, positions[..i])
    {
      var q := positions[i];
      assert positions[..i + 1] == positions[..i] + [q];
      b := GrownBox(b, positions[..i], q);
    }
    assert positions[..|positions|] == positions;
  }

  function GrownBox(b: Box, ghost ps: seq<Position>, q: Position): (r: Box)
    requires Bounds(b, ps)
    ensures Bounds(r, ps + [q])
  {
    var r := Box(Min(b.minLon, q.lon), Min(b.minLat, q.lat), Max(b.maxLon, q.lon), Max(b.maxLat, q.lat));
    assert q in ps + [q];
    assert forall v :: v in ps ==> v in ps + [q] && r.Contains(v);
    r
  }

  // ------------------------------------------------------ outside the box

  predicate AllIn(b: Box, ps: seq<Position>) {
    forall i :: 0 <= i < |ps| ==> b.Contains(ps[i])
  }

  /** East, north and south of a box no edge inside it is crossed; to the west every straddling one is. */
  lemma CrossingOutside(b: Box, u: Position, v: Position, p: Position)
    requires b.Contains(u) && b.Contains(v) && !b.Contains(p)
    ensures !OnSegment(u, v, p)
    ensures Crosses(u, v, p) == (p.lon < b.minLon && North(u, p) != North(v, p))
  {
    if Straddles(u, v, p) { CrossLonBetween(u, v, p); }
  }

  lemma {:induction false} PathOutside(b: Box, path: seq<Position>, p: Position)
    requires AllIn(b, path) && !b.Contains(p) && path != []
    ensures PathParity(path, p) == (p.lon < b.minLon && North(path[0], p) != North(path[|path| - 1], p))
  {
    hide OnSegment, Crosses, North;
    if |path| >= 2 {
      PathOutside(b, path[..|path| - 1], p);
      CrossingOutside(b, path[|path| - 1], path[|path| - 2], p);
    }
  }

  /** The edges round a ring cross any ray from outside the box an even number of times. */
  lemma RingOutside(b: Box, ring: Ring, p: Position)
    requires AllIn(b, ring) && !b.Contains(p)
    ensures !OnRing(ring, p) && !InRing(ring, p)
  {
    hide OnSegment, Crosses, North;
    forall i | 1 <= i < |ring| ensures !OnSegment(ring[i - 1], ring[i], p) {
      CrossingOutside(b, ring[i - 1], ring[i], p);
    }
    if ring != [] {
      PathOutside(b, ring, p);
      CrossingOutside(b, ring[0], ring[|ring| - 1], p);
    }
  }

  lemma {:induction false} OuterRingsHold(polys: seq<Polygon>, i: nat, q: Position)
    requires i < |polys| && q in OuterRing(polys[i])
    ensures q in OuterRings(polys)
  {
    if i < |polys| - 1 { OuterRingsHold(polys[..|polys| - 1], i, q); }
  }

  /** What the bounding box does not hold, the shape does not hold: for every kind of geometry. */
  lemma OutsideTheBox(g: Geometry, b: Box, p: Position)
    requires Outline(g) != [] ==> Bounds(b, Outline(g))
    requires !b.Contains(p)
    ensures !Contained(g, p)
  {
    hide OnRing, InRing;
    if Outline(g) != [] {
      forall ring: Ring | forall q :: q in ring ==> q in Outline(g) ensures !OnRing(ring, p) && !InRing(ring, p) {
        RingOutside(b, ring, p);
      }
      if g.kind == MULTI_POLYGON {
        forall i | 0 <= i < |g.multiPolygon| ensures !InPolygon(g.multiPolygon[i], p) {
          forall q | q in OuterRing(g.multiPolygon[i]) ensures q in Outline(g) {
            OuterRingsHold(g.multiPolygon, i, q);
          }
        }
      }
    } else {
      EmptyOutline(g, p);
    }
  }

  lemma EmptyOutline(g: Geometry, p: Position)
    requires Outline(g) == []
    ensures !Contained(g, p)
  {
    if g.kind == MULTI_POLYGON {
      forall i | 0 <= i < |g.multiPolygon| ensures OuterRing(g.multiPolygon[i]) == [] {
        if OuterRing(g.multiPolygon[i]) != [] { OuterRingsHold(g.multiPolygon, i, OuterRing(g.multiPolygon[i])[0]); }
      }
    }
  }

  // -------------------------------------------------- a box as a polygon

  function BoxRing(b: Box): Ring {
    [Position(b.minLon, b.minLat), Position(b.maxLon, b.minLat), Position(b.maxLon, b.maxLat),
     Position(b.minLon, b.maxLat), Position(b.minLon, b.minLat)]
  }

  /** The ring round a box holds exactly what the box holds, its edges and corners included. */
  lemma BoxRingIsBox(b: Box, p: Position)
    requires b.minLon <= b.maxLon && b.minLat <= b.maxLat
    ensures InRing(BoxRing(b), p) <==> b.Contains(p)
  {
    hide Crosses, OnSegment, PathParity;
    var r := BoxRing(b);
    if !b.Contains(p) {
      RingOutside(b, r, p);
    } else {
      BoxEdges(b, p);
      if !OnRing(r, p) {
        assert !OnSegment(r[0], r[1], p) && !OnSegment(r[1], r[2], p) && !OnSegment(r[2], r[3], p) && !OnSegment(r[3], r[4], p);
        BoxParity(b, p);
      }
    }
  }

  lemma BoxEdges(b: Box, p: Position)
    requires b.Contains(p)
    ensures var r := BoxRing(b);
      && (p.lat == b.minLat ==> OnSegment(r[0], r[1], p)) && (p.lon == b.maxLon ==> OnSegment(r[1], r[2], p))
      && (p.lat == b.maxLat ==> OnSegment(r[2], r[3], p)) && (p.lon == b.minLon ==> OnSegment(r[3], r[4], p))
  {
  }

  lemma BoxParity(b: Box, p: Position)
    requires b.minLon < p.lon < b.maxLon && b.minLat < p.lat < b.maxLat
    ensures RingParity(BoxRing(b), p)
  {
    var r := BoxRing(b);
    assert !Crosses(r[1], r[0], p) && Crosses(r[2], r[1], p) && !Crosses(r[3], r[2], p)
      && !Crosses(r[4], r[3], p) && !Crosses(r[0], r[4], p);
    hide Crosses;
    assert r[..4][..3] == r[..3] && r[..4][..3][..2] == r[..2] && r[..2][..1] == r[..1];
    assert !PathParity(r[..2], p) && PathParity(r[..3], p) && PathParity(r[..4], p) && PathParity(r, p);
  }
}

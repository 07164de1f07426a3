/**
 * Ray-casting point-in-polygon test and the Chennai operating zone
 * (src/utils/geofencing.ts).
 *
 * Coordinates are exact reals. A polygon is a vertex list that is closed
 * implicitly: the edge examined at index `i` joins vertex `i` to vertex
 * `i - 1`, and at index 0 it joins vertex 0 to the last vertex.
 */
module Geofencing {

  datatype Point = Point(lat: real, lng: real)

  /** The edge examined at one loop step: `vi` is `polygon[i]`, `vj` is `polygon[j]`. */
  datatype Edge = Edge(vi: Point, vj: Point)

  /** The Chennai zone rectangle, clockwise from the north-west corner. */
  const ChennaiZonePolygon: seq<Point> := [
    Point(13.2367, 80.1849),  // north-west
    Point(13.2367, 80.3327),  // north-east
    Point(12.9343, 80.3327),  // south-east
    Point(12.9343, 80.1849)   // south-west
  ]

  function Min(a: real, b: real): real { if a <= b then a else b }
  function Max(a: real, b: real): real { if a <= b then b else a }

  /** The index the loop pairs with `i`: the previous vertex, wrapping round to the last one. */
  function Prev(i: nat, n: nat): nat
    requires i < n
  {
    if i == 0 then n - 1 else i - 1
  }

  function EdgeAt(polygon: seq<Point>, i: nat): Edge
    requires i < |polygon|
  {
    Edge(polygon[i], polygon[Prev(i, |polygon|)])
  }

  /** All edges in the order the loop examines them. */
  function Edges(polygon: seq<Point>): (es: seq<Edge>)
    ensures |es| == |polygon|
    ensures forall i :: 0 <= i < |polygon| ==> es[i] == EdgeAt(polygon, i)
  {
    seq(|polygon|, i requires 0 <= i < |polygon| => EdgeAt(polygon, i))
  }

  /**
   * The longitude of the line through the edge at latitude `lat`; defined
   * only for an edge that is not horizontal.
   */
  function CrossingLng(e: Edge, lat: real): (x: real)
    requires e.vi.lat != e.vj.lat
    ensures e.vi.lng == e.vj.lng ==> x == e.vi.lng
  {
    (e.vj.lng - e.vi.lng) * (lat - e.vi.lat) / (e.vj.lat - e.vi.lat) + e.vi.lng
  }

  /**
   * The crossing test of one edge: the point's latitude separates the two
   * endpoints (one strictly above, the other not), and the point lies west
   * of the edge at that latitude. The `&&` short-circuits, so the division
   * is only reached when the edge is not horizontal.
   */
  function Crosses(p: Point, e: Edge): (r: bool)
    ensures r ==> e.vi.lat != e.vj.lat
    ensures r ==> Min(e.vi.lat, e.vj.lat) <= p.lat < Max(e.vi.lat, e.vj.lat)
  {
    ((e.vi.lat > p.lat) != (e.vj.lat > p.lat)) && p.lng < CrossingLng(e, p.lat)
  }

  /** The number of edges in `es` that pass the crossing test. */
  function Crossings(p: Point, es: seq<Edge>): nat
  {
    if es == [] then 0
    else Crossings(p, es[..|es| - 1]) + (if Crosses(p, es[|es| - 1]) then 1 else 0)
  }

  /** Even-odd rule: inside iff an odd number of edges is crossed. */
  predicate InPolygon(p: Point, polygon: seq<Point>)
  {
    Crossings(p, Edges(polygon)) % 2 == 1
  }

  /**
   * `isPointInPolygon`: walks the edges with `i` and the trailing index `j`,
   * flipping `inside` at every crossing.
   */
  method IsPointInPolygon(point: Point, polygon: seq<Point>) returns (inside: bool)
    ensures inside == InPolygon(point, polygon)
  {
    inside := false;
    var i, j := 0, |polygon| - 1;
    while i < |polygon|
      invariant 0 <= i <= |polygon|
      invariant j == if i == 0 then |polygon| - 1 else i - 1
      invariant inside == (Crossings(point, Edges(polygon)[..i]) % 2 == 1)
    {
      var vi, vj := polygon[i], polygon[j];
      var intersect := ((vi.lat > point.lat) != (vj.lat > point.lat))
        && (point.lng < CrossingLng(Edge(vi, vj), point.lat));

      ghost var done := Edges(polygon)[..i + 1];
      assert done[..i] == Edges(polygon)[..i];
      assert done[i] == Edge(vi, vj);
      if intersect {
        inside := !inside;
      }
      j, i := i, i + 1;
    }
    assert Edges(polygon)[..i] == Edges(polygon);
  }

  /** `isWithinChennaiZone`: the ray-casting test against the Chennai rectangle. */
  function IsWithinChennaiZone(lat: real, lng: real): (r: bool)
    ensures r <==> 12.9343 <= lat < 13.2367 && 80.1849 <= lng < 80.3327
  {
    ChennaiZoneIsHalfOpenBox(lat, lng);
    InPolygon(Point(lat, lng), ChennaiZonePolygon)
  }

  // ---------------------------------------------------------------------
  // Properties of the crossing count
  // ---------------------------------------------------------------------

  lemma {:induction false} CrossingsAppend(p: Point, a: seq<Edge>, b: seq<Edge>)
    ensures Crossings(p, a + b) == Crossings(p, a) + Crossings(p, b)
    decreases |b|
  {
    if b == [] {
      assert a + b == a;
    } else {
      var b' := b[..|b| - 1];
      assert (a + b)[..|a + b| - 1] == a + b';
      CrossingsAppend(p, a, b');
    }
  }

  /** The line through an edge is the same line whichever endpoint comes first. */
  lemma CrossingLngSymmetric(a: Point, b: Point, lat: real)
    requires a.lat != b.lat
    ensures CrossingLng(Edge(a, b), lat) == CrossingLng(Edge(b, a), lat)
  {
    var d := b.lat - a.lat;
    var dx := b.lng - a.lng;
    var q1 := dx * (lat - a.lat) / d;
    var q2 := (a.lng - b.lng) * (lat - b.lat) / (a.lat - b.lat);
    assert q1 * d == dx * (lat - a.lat);
    assert q2 * d == dx * (lat - b.lat);
    assert (q2 - q1 + dx) * d == 0.0;
    assert q2 - q1 + dx == 0.0;
  }

  /** The crossing test gives the same answer whichever endpoint comes first. */
  lemma CrossesSymmetric(p: Point, a: Point, b: Point)
    ensures Crosses(p, Edge(a, b)) == Crosses(p, Edge(b, a))
  {
    if a.lat != b.lat {
      CrossingLngSymmetric(a, b, p.lat);
    }
  }

  /** An empty polygon: the loop never runs, so nothing is inside. */
  lemma EmptyPolygonContainsNothing(p: Point)
    ensures !InPolygon(p, [])
  {
  }

  /** A one-vertex polygon has only a horizontal self-edge, which is never crossed. */
  lemma SingleVertexContainsNothing(p: Point, v: Point)
    ensures !InPolygon(p, [v])
  {
    var es := Edges([v]);
    assert es == [Edge(v, v)];
    assert !Crosses(p, es[0]);
    assert es[..0] == [];
    assert Crossings(p, es) == Crossings(p, es[..0]);
  }

  /** A two-vertex polygon traverses one segment twice; its two edges cross together. */
  lemma TwoVertexContainsNothing(p: Point, a: Point, b: Point)
    ensures !InPolygon(p, [a, b])
  {
    var es := Edges([a, b]);
    assert es == [Edge(a, b), Edge(b, a)];
    assert es[..1] == [Edge(a, b)];
    assert es[..1][..0] == [];
    CrossesSymmetric(p, a, b);
    assert Crossings(p, es[..1]) == if Crosses(p, Edge(a, b)) then 1 else 0;
    assert Crossings(p, es) == Crossings(p, es[..1]) + (if Crosses(p, Edge(b, a)) then 1 else 0);
  }

  // ---------------------------------------------------------------------
  // Rotation of the vertex list
  // ---------------------------------------------------------------------

  function Rotate<T>(s: seq<T>, k: nat): (r: seq<T>)
    requires k <= |s|
    ensures |r| == |s|
    ensures forall i :: 0 <= i < |s| ==> r[i] == if i < |s| - k then s[i + k] else s[i + k - |s|]
  {
    s[k..] + s[..k]
  }

  lemma {:induction false} EdgesOfRotation(polygon: seq<Point>, k: nat)
    requires k < |polygon|
    ensures Edges(Rotate(polygon, k)) == Rotate(Edges(polygon), k)
  {
    var n := |polygon|;
    var r := Rotate(polygon, k);
    forall i | 0 <= i < n
      ensures Edges(r)[i] == Rotate(Edges(polygon), k)[i]
    {
      var src := if i < n - k then i + k else i + k - n;
      assert Prev(i, n) == (if i == 0 then n - 1 else i - 1);
      if i == 0 {
        assert r[n - 1] == polygon[Prev(src, n)];
      } else {
        assert r[i - 1] == polygon[Prev(src, n)];
      }
    }
  }

  /** Rotating the vertex list leaves the set of examined edges, hence the answer, unchanged. */
  lemma {:induction false} RotationPreservesContainment(p: Point, polygon: seq<Point>, k: nat)
    requires k < |polygon|
    ensures InPolygon(p, Rotate(polygon, k)) == InPolygon(p, polygon)
  {
    var es := Edges(polygon);
    EdgesOfRotation(polygon, k);
    assert Edges(Rotate(polygon, k)) == es[k..] + es[..k];
    CrossingsAppend(p, es[k..], es[..k]);
    CrossingsAppend(p, es[..k], es[k..]);
    assert es[..k] + es[k..] == es;
    assert Crossings(p, Edges(Rotate(polygon, k))) == Crossings(p, es);
  }

  // ---------------------------------------------------------------------
  // The Chennai rectangle
  // ---------------------------------------------------------------------

  /**
   * Inside the Chennai polygon exactly on the half-open box: the south and
   * west edges belong to the zone, the north and east edges do not.
   */
  lemma ChennaiZoneIsHalfOpenBox(lat: real, lng: real)
    ensures InPolygon(Point(lat, lng), ChennaiZonePolygon)
            <==> 12.9343 <= lat < 13.2367 && 80.1849 <= lng < 80.3327
  {
    var p := Point(lat, lng);
    var nw, ne, se, sw := ChennaiZonePolygon[0], ChennaiZonePolygon[1], ChennaiZonePolygon[2], ChennaiZonePolygon[3];
    var es := Edges(ChennaiZonePolygon);
    var west, north, east, south := Edge(nw, sw), Edge(ne, nw), Edge(se, ne), Edge(sw, se);
    assert es == [west, north, east, south];
    var band := 12.9343 <= lat < 13.2367;
    var cw := if Crosses(p, west) then 1 else 0;
    var ce := if Crosses(p, east) then 1 else 0;
    assert Crosses(p, west) <==> band && lng < 80.1849;
    assert !Crosses(p, north);
    assert Crosses(p, east) <==> band && lng < 80.3327;
    assert !Crosses(p, south);
    assert es[..1] == [west] && es[..1][..0] == [];
    assert Crossings(p, es[..1]) == cw;
    assert es[..2] == [west, north] && es[..2][..1] == es[..1];
    assert Crossings(p, es[..2]) == cw;
    assert es[..3] == [west, north, east] && es[..3][..2] == es[..2];
    assert Crossings(p, es[..3]) == cw + ce;
    assert es[..3] == es[..4 - 1];
    assert Crossings(p, es) == cw + ce;
  }
}

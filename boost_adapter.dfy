/** The traits through which a generic polygon-set library reads and builds
    polygons and polygon collections of this core. The library re-closes
    every ring itself, so it sees the stored vertices without a closing
    duplicate, and when it hands a ring back (with the first point repeated
    at the end) the last point is dropped again. */
module BoostAdapter {
  import opened Geometry
  import PolygonOps

  /** The winding directions the polygon-set library distinguishes. */
  datatype WindingDirection = ClockwiseWinding | CounterclockwiseWinding | UnknownWinding

  /** The vertices the library iterates over, from the begin iterator to the
      end iterator: the stored points in order, with no closing point added. */
  function IteratedPoints(t: Polygon): (r: seq<Point>)
    ensures |r| == |t.points|
    ensures forall i :: 0 <= i < |r| ==> r[i] == t.points[i]
  {
    t.points
  }

  /** The number of sides reported to the library: one per stored vertex,
      which is also the number of points the library iterates over. */
  function Size(t: Polygon): (n: nat)
    ensures n == |IteratedPoints(t)|
  {
    |t.points|
  }

  /** The orientation reported to the library: never a definite one, so the
      library works the orientation out from the vertices itself. */
  function Winding(t: Polygon): (w: WindingDirection)
    ensures w != ClockwiseWinding && w != CounterclockwiseWinding
  {
    UnknownWinding
  }

  /** Rebuilds `polygon` from the library's point sequence: the old points
      are discarded, every input point is copied in order, and the last one,
      which repeats the first, is removed. Removing from an empty sequence is
      undefined, so the input must have a point. */
  method SetPoints(polygon: Polygon, input: seq<Point>) returns (r: Polygon)
    requires |input| > 0
    ensures |r.points| == |input| - 1
    ensures forall i :: 0 <= i < |r.points| ==> r.points[i] == input[i]
    ensures r.points == DropLast(input)
  {
    var pts: seq<Point> := [];
    var it := 0;
    while it != |input|
      invariant 0 <= it <= |input|
      invariant pts == input[..it]
    {
      pts := pts + [input[it]];
      it := it + 1;
    }
    pts := pts[..|pts| - 1];
    r := polygon.(points := pts);
  }

  /** A ring handed to the library and rebuilt from the library's closed
      form is unchanged, and the library sees as many sides as the ring has
      vertices. */
  lemma RebuiltRingIsUnchanged(p: seq<Point>)
    requires |p| > 0
    ensures IteratedPoints(Polygon(DropLast(Closed(p)))) == p
    ensures Size(Polygon(DropLast(Closed(p)))) == |p|
  {
    DropLastUndoesClosed(p);
  }

  /** Writes every ring out as a closed polyline and rebuilds each with
      SetPoints: the collection comes back exactly as it was. */
  method ReopenPolylines(polys: seq<Polygon>) returns (rebuilt: seq<Polygon>)
    requires AllNonEmpty(polys)
    ensures rebuilt == polys
  {
    var polylines := PolygonOps.ToPolylines(polys);
    rebuilt := [];
    for k := 0 to |polylines|
      invariant rebuilt == polys[..k]
    {
      var q := SetPoints(Polygon([]), polylines[k].points);
      DropLastUndoesClosed(polys[k].points);
      rebuilt := rebuilt + [q];
    }
  }

  /** The polygons the library iterates over in a collection, from its begin
      iterator to its end iterator: all members, in stored order. */
  function Members(polygonSet: seq<Polygon>): (r: seq<Polygon>)
    ensures |r| == |polygonSet|
    ensures forall k :: 0 <= k < |r| ==> r[k] == polygonSet[k]
  {
    polygonSet
  }

  /** The collection is never reported as clean (free of overlaps), so the
      library always cleans it itself. */
  function Clean(polygonSet: seq<Polygon>): (b: bool)
    ensures !b
  {
    false
  }

  /** The collection is never reported as sorted, so the library always
      sorts it itself. */
  function Sorted(polygonSet: seq<Polygon>): (b: bool)
    ensures !b
  {
    false
  }

  /** Replaces the collection with the library's polygons: afterwards it
      holds exactly the input polygons, in order, and nothing of its old
      members. */
  method Set(polygons: seq<Polygon>, input: seq<Polygon>) returns (r: seq<Polygon>)
    ensures |r| == |input|
    ensures forall k :: 0 <= k < |input| ==> r[k] == input[k]
    ensures Members(r) == input
  {
    r := input;
  }
}

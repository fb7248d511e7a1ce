/** The inline free functions over polygons and polygon collections:
    conversion of rings to edge lists and to open polylines, and appending
    one collection to another. A collection of polygons is a `seq<Polygon>`
    (a vector of values); an in-place update of a collection is a method
    that returns the collection's new value. */
module PolygonOps {
  import opened Geometry

  /** The edges of one ring, closing edge last. Reading the last point of an
      empty ring is undefined, so the ring must have a point. */
  method ToLines(poly: Polygon) returns (lines: seq<Line>)
    requires |poly.points| > 0
    ensures lines == Edges(poly.points)
    ensures |lines| == |poly.points|
    ensures forall i :: 0 <= i < |lines| - 1 ==> lines[i] == Line(poly.points[i], poly.points[i + 1])
    ensures lines[|lines| - 1] == Line(poly.points[|poly.points| - 1], poly.points[0])
  {
    var pts := poly.points;
    ghost var e := Edges(pts);
    lines := [];
    var it := 0;
    while it != |pts| - 1
      invariant 0 <= it <= |pts| - 1
      invariant |lines| == it
      invariant forall k :: 0 <= k < it ==> lines[k] == Line(pts[k], pts[k + 1])
    {
      lines := lines + [Line(pts[it], pts[it + 1])];
      it := it + 1;
    }
    lines := lines + [Line(pts[|pts| - 1], pts[0])];
    assert lines == e;
  }

  /** The edges of every ring of the collection, ring after ring, one edge per
      stored point. The point count is summed first to size the result. */
  method ToLinesAll(polys: seq<Polygon>) returns (lines: seq<Line>)
    requires AllNonEmpty(polys)
    ensures lines == AllEdges(polys)
    ensures |lines| == TotalPoints(polys)
  {
    var nLines := 0;
    for i := 0 to |polys|
      invariant nLines == TotalPoints(polys[..i])
    {
      TotalPointsAppend(polys[..i], [polys[i]]);
      assert polys[..i + 1] == polys[..i] + [polys[i]];
      nLines := nLines + |polys[i].points|;
    }
    assert polys[..|polys|] == polys;

    lines := [];
    for i := 0 to |polys|
      invariant lines == AllEdges(polys[..i])
    {
      var pts := polys[i].points;
      ghost var e := Edges(pts);
      ghost var done := lines;
      var it := 0;
      while it != |pts| - 1
        invariant 0 <= it <= |pts| - 1
        invariant lines == done + e[..it]
      {
        lines := lines + [Line(pts[it], pts[it + 1])];
        it := it + 1;
      }
      lines := lines + [Line(pts[|pts| - 1], pts[0])];
      assert lines == done + e;
      AllEdgesAppend(polys[..i], [polys[i]]);
      assert polys[..i + 1] == polys[..i] + [polys[i]];
      assert AllEdges([polys[i]]) == e + AllEdges([]);
    }
    AllEdgesLength(polys);
    assert |lines| == nLines;
  }

  /** Each ring written out as an open path: one polyline per polygon, in the
      same order, each being the ring's points followed by its first point
      again. The result vector is allocated at its final size and filled by
      index. */
  method ToPolylines(polys: seq<Polygon>) returns (polylines: seq<Polyline>)
    requires AllNonEmpty(polys)
    ensures |polylines| == |polys|
    ensures forall k :: 0 <= k < |polys| ==> polylines[k].points == Closed(polys[k].points)
  {
    var out := new Polyline[|polys|](_ => Polyline([]));
    var idx := 0;
    for it := 0 to |polys|
      invariant idx == it
      invariant forall k :: 0 <= k < it ==> out[k].points == Closed(polys[k].points)
    {
      var pts := polys[it].points;
      out[idx] := Polyline(pts + [pts[0]]);
      idx := idx + 1;
    }
    assert idx == out.Length;
    polylines := out[..];
  }

  /** `dst` followed by every polygon of `src`, in order; the polygons
      already in `dst` keep their places and values. */
  method PolygonsAppend(dst: seq<Polygon>, src: seq<Polygon>) returns (r: seq<Polygon>)
    ensures |r| == |dst| + |src|
    ensures forall k :: 0 <= k < |dst| ==> r[k] == dst[k]
    ensures forall k :: 0 <= k < |src| ==> r[|dst| + k] == src[k]
  {
    r := dst + src;
  }

  /** Appending collections appends their edge lists: the edges of the
      appended collection are the old edges of `dst` followed by those of
      `src`. */
  lemma AppendKeepsEdges(dst: seq<Polygon>, src: seq<Polygon>, r: seq<Polygon>)
    requires AllNonEmpty(dst) && AllNonEmpty(src)
    requires |r| == |dst| + |src|
    requires forall k :: 0 <= k < |dst| ==> r[k] == dst[k]
    requires forall k :: 0 <= k < |src| ==> r[|dst| + k] == src[k]
    ensures AllNonEmpty(r)
    ensures AllEdges(r) == AllEdges(dst) + AllEdges(src)
    ensures TotalPoints(r) == TotalPoints(dst) + TotalPoints(src)
  {
    assert r == dst + src;
    AllEdgesAppend(dst, src);
    TotalPointsAppend(dst, src);
  }

  /** Every polyline produced from a collection is closed (first point equals
      last), is one point longer than its ring, and has the ring's edges as its
      segments. */
  lemma PolylinesTraceRings(polys: seq<Polygon>, polylines: seq<Polyline>)
    requires AllNonEmpty(polys)
    requires |polylines| == |polys|
    requires forall k :: 0 <= k < |polys| ==> polylines[k].points == Closed(polys[k].points)
    ensures forall k :: 0 <= k < |polys| ==>
      |polylines[k].points| == |polys[k].points| + 1 &&
      polylines[k].points[0] == polylines[k].points[|polylines[k].points| - 1] &&
      Segments(polylines[k].points) == Edges(polys[k].points)
  {
    forall k | 0 <= k < |polys|
      ensures Segments(polylines[k].points) == Edges(polys[k].points)
    {
      ClosedPathHasRingEdges(polys[k].points);
    }
  }
}

/** Value types of the polygon core and the specification functions that
    describe the closed-ring representation.

    A Polygon stores its vertices once each: the edge from the last stored
    point back to the first is implicit. A Polyline is an open path, so a
    closed contour written as a polyline repeats its first point at the end. */
module Geometry {

  /** A point with integer (scaled) coordinates. */
  datatype Point = Point(x: int, y: int)

  /** A segment from `a` to `b`. */
  datatype Line = Line(a: Point, b: Point)

  /** An open path through `points`, in order. */
  datatype Polyline = Polyline(points: seq<Point>)

  /** A closed ring through `points`; no closing duplicate is stored. */
  datatype Polygon = Polygon(points: seq<Point>)

  /** True when every polygon of the collection has at least one point, which
      is what the edge and polyline conversions need to read a first and a
      last point. */
  predicate AllNonEmpty(polys: seq<Polygon>)
  {
    forall k :: 0 <= k < |polys| ==> |polys[k].points| > 0
  }

  /** The edges of the ring `p`: edge `i` runs from vertex `i` to the next
      vertex, and the next vertex after the last one is the first one. */
  function Edges(p: seq<Point>): (r: seq<Line>)
    requires |p| > 0
    ensures |r| == |p|
  {
    seq(|p|, i requires 0 <= i < |p| => Line(p[i], if i + 1 < |p| then p[i + 1] else p[0]))
  }

  /** The edges of every ring of `polys`, ring after ring. */
  function AllEdges(polys: seq<Polygon>): (r: seq<Line>)
    requires AllNonEmpty(polys)
  {
    if polys == [] then [] else Edges(polys[0].points) + AllEdges(polys[1..])
  }

  /** The number of stored points over all rings of `polys`. */
  function TotalPoints(polys: seq<Polygon>): nat
  {
    if polys == [] then 0 else |polys[0].points| + TotalPoints(polys[1..])
  }

  /** The ring `p` written out as an open path: its first point appended. */
  function Closed(p: seq<Point>): (r: seq<Point>)
    requires |p| > 0
    ensures |r| == |p| + 1
    ensures r[0] == r[|r| - 1] == p[0]
  {
    p + [p[0]]
  }

  /** The consecutive segments of the open path `s`. */
  function Segments(s: seq<Point>): (r: seq<Line>)
    requires |s| > 0
    ensures |r| == |s| - 1
  {
    seq(|s| - 1, i requires 0 <= i < |s| - 1 => Line(s[i], s[i + 1]))
  }

  /** A point sequence with its last element dropped. */
  function DropLast(s: seq<Point>): (r: seq<Point>)
    requires |s| > 0
    ensures |r| == |s| - 1
  {
    s[..|s| - 1]
  }

  /** Each point of the ring starts exactly one edge, the one with its own
      index, and ends the edge before it; the edges therefore form one closed
      chain whose last link is the closing edge. */
  lemma EdgesFormClosedChain(p: seq<Point>)
    requires |p| > 0
    ensures forall i :: 0 <= i < |p| ==> Edges(p)[i].a == p[i]
    ensures forall i :: 0 <= i < |p| - 1 ==> Edges(p)[i].b == Edges(p)[i + 1].a
    ensures Edges(p)[|p| - 1] == Line(p[|p| - 1], p[0])
    ensures Edges(p)[|p| - 1].b == Edges(p)[0].a
  {
  }

  /** Writing a ring out as an open path keeps its edges: the segments of the
      closed path are exactly the ring's edges, closing edge last. */
  lemma ClosedPathHasRingEdges(p: seq<Point>)
    requires |p| > 0
    ensures Segments(Closed(p)) == Edges(p)
  {
  }

  /** Closing a ring and then dropping the last point gives the ring back. */
  lemma DropLastUndoesClosed(p: seq<Point>)
    requires |p| > 0
    ensures DropLast(Closed(p)) == p
  {
  }

  /** The edges of a concatenation of collections are the concatenation of
      their edges. */
  lemma {:induction false} AllEdgesAppend(a: seq<Polygon>, b: seq<Polygon>)
    requires AllNonEmpty(a) && AllNonEmpty(b)
    ensures AllNonEmpty(a + b)
    ensures AllEdges(a + b) == AllEdges(a) + AllEdges(b)
  {
    assert AllNonEmpty(a + b) by {
      forall k | 0 <= k < |a + b|
        ensures |(a + b)[k].points| > 0
      {
        if k < |a| { assert (a + b)[k] == a[k]; } else { assert (a + b)[k] == b[k - |a|]; }
      }
    }
    if a == [] {
      assert a + b == b;
    } else {
      assert (a + b)[1..] == a[1..] + b;
      AllEdgesAppend(a[1..], b);
    }
  }

  /** One edge is listed per stored point. */
  lemma {:induction false} AllEdgesLength(polys: seq<Polygon>)
    requires AllNonEmpty(polys)
    ensures |AllEdges(polys)| == TotalPoints(polys)
  {
    if polys != [] {
      AllEdgesLength(polys[1..]);
    }
  }

  /** The point count of a concatenation is the sum of the point counts. */
  lemma {:induction false} TotalPointsAppend(a: seq<Polygon>, b: seq<Polygon>)
    ensures TotalPoints(a + b) == TotalPoints(a) + TotalPoints(b)
  {
    if a == [] {
      assert a + b == b;
    } else {
      assert (a + b)[1..] == a[1..] + b;
      TotalPointsAppend(a[1..], b);
    }
  }

  /** Edge `j` of ring `k` sits in the collection's edge list right after the
      edges of rings `0 .. k-1`. */
  lemma {:induction false} AllEdgesAt(polys: seq<Polygon>, k: nat, j: nat)
    requires AllNonEmpty(polys)
    requires k < |polys| && j < |polys[k].points|
    ensures TotalPoints(polys[..k]) + j < |AllEdges(polys)|
    ensures AllEdges(polys)[TotalPoints(polys[..k]) + j] == Edges(polys[k].points)[j]
  {
    if k == 0 {
      assert polys[..0] == [];
    } else {
      var rest := polys[1..];
      assert polys[..k] == [polys[0]] + rest[..k - 1];
      TotalPointsAppend([polys[0]], rest[..k - 1]);
      assert [polys[0]][1..] == [];
      AllEdgesAt(rest, k - 1, j);
    }
  }
}

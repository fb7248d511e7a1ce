# Slic3r polygon rings: edge lists, polylines and the Boost.Polygon adapter

This project models the inline code of `xs/src/libslic3r/Polygon.hpp` in
Slic3r. The code converts between two forms of a closed contour:

- The ring form, `Polygon`. It stores each vertex once. The edge from the
  last vertex back to the first is implicit.
- The explicit forms: edge lists (`Lines`) and open polylines. A polyline
  repeats the first point at the end.

The model covers these pieces:

- `to_lines` for one polygon and for a collection of polygons.
- `to_polylines`.
- `polygons_append`.
- The traits that expose `Polygon` and `Polygons` to the Boost.Polygon
  polygon-set library: vertex iteration, size, winding, `set_points`, and
  the collection traits `begin`/`end`, `clean`, `sorted` and `set`.

Modules:

- `Geometry` (`geometry.dfy`) holds the value types `Point`, `Line`,
  `Polyline` and `Polygon`. It also holds the functions that define the
  ring's edges (`Edges`, `AllEdges`), its closed path (`Closed`) and the
  dropping of a closing point (`DropLast`), with lemmas about them.
- `PolygonOps` (`polygon_ops.dfy`) holds the free functions of namespace
  `Slic3r`. Each one is a method with the source's loops, proved against
  the functions of `Geometry`.
- `BoostAdapter` (`boost_adapter.dfy`) holds the trait specialisations of
  namespace `boost::polygon`.

`Polygon` and `Polygons` are C++ values: a `std::vector` of points and a
`std::vector` of polygons. They are modelled as a
datatype and as a `seq<Polygon>`. An operation that updates its argument in
place (`polygons_append`, `set_points`, `set`) is a method that returns
the argument's new value.

Reading the first or last point of an empty vector is undefined in C++,
and so is `pop_back` on an empty vector. `to_lines` and `to_polylines` read
the first or last point of every ring, so they require every ring to have
at least one point. `set_points` calls `pop_back` after copying the input
(`Polygon.hpp:185`), so it requires a non-empty input. A one-point ring has
one edge, from the point to itself.

The source drops the last input point in `set_points` unconditionally
(`Polygon.hpp:184-185`), whether or not it equals the first. The model
follows the code. The source comment at `Polygon.hpp:184` gives the reason:
Boost sets the last point equal to the first. That holds for the closed
sequences the library produces, and `RebuiltRingIsUnchanged` proves the
round trip for exactly those.

## Model

| member | source | states |
|---|---|---|
| `PolygonOps.ToLines` | xs/src/libslic3r/Polygon.hpp:82-90 | For a non-empty ring it returns exactly one edge per point. Edge `i` is `(points[i], points[i+1])` for every `i` before the last. The last edge is the closing edge `(back, front)`. Together these equal `Edges(points)`. |
| `PolygonOps.ToLinesAll` | xs/src/libslic3r/Polygon.hpp:92-106 | The result is the in-order concatenation of the edge lists of all rings. Its length is the summed point count that the first loop computes to reserve space. |
| `PolygonOps.ToPolylines` | xs/src/libslic3r/Polygon.hpp:108-120 | It returns one polyline per polygon, in the same order. Polyline `k` is the points of ring `k` followed by its first point. |
| `PolygonOps.PolygonsAppend` | xs/src/libslic3r/Polygon.hpp:65 | The new `dst` has length `|dst|+|src|`. The old members of `dst` keep their places and values, and the members of `src` follow them in order. |
| `PolygonOps.AppendKeepsEdges` | xs/src/libslic3r/Polygon.hpp:65 | After an append, the collection's edge list is the old edge list of `dst` followed by that of `src`. Its point count is the sum of the two counts. |
| `PolygonOps.PolylinesTraceRings` | xs/src/libslic3r/Polygon.hpp:113-117 | Every polyline from `to_polylines` is one point longer than its ring. Its first and last points are equal. Its consecutive segments are exactly the ring's edges, closing edge included. |
| `Geometry.EdgesFormClosedChain` | xs/src/libslic3r/Polygon.hpp:86-88 | Point `i` starts edge `i` and no other edge. Each edge ends where the next one starts. The last edge is `(back, front)` and ends at the start of edge 0. |
| `Geometry.ClosedPathHasRingEdges` | xs/src/libslic3r/Polygon.hpp:115-116 | The segments of the path made by appending the first point equal the ring's edge list. |
| `Geometry.Closed` | xs/src/libslic3r/Polygon.hpp:116 | The closed path of a non-empty ring is one point longer than the ring, and it starts and ends at the ring's first point. |
| `Geometry.DropLastUndoesClosed` | xs/src/libslic3r/Polygon.hpp:184-185 | Dropping the last point of a ring's closed path gives back the ring. |
| `Geometry.AllEdgesAppend` | xs/src/libslic3r/Polygon.hpp:99-104 | The edge list of two concatenated collections is the concatenation of their edge lists. |
| `Geometry.AllEdgesLength` | xs/src/libslic3r/Polygon.hpp:94-98 | A collection's edge list has one edge per stored point. |
| `Geometry.AllEdgesAt` | xs/src/libslic3r/Polygon.hpp:99-104 | Edge `j` of ring `k` sits in the collection's edge list at the position after all points of rings `0..k-1`. |
| `BoostAdapter.IteratedPoints` | xs/src/libslic3r/Polygon.hpp:153-160 | Iteration from `begin_points` to `end_points` yields exactly the stored points, in order, with no closing duplicate. |
| `BoostAdapter.Size` | xs/src/libslic3r/Polygon.hpp:163-165 | The reported number of sides equals the number of points iteration yields. |
| `BoostAdapter.Winding` | xs/src/libslic3r/Polygon.hpp:168-170 | The winding is never reported as clockwise or counter-clockwise. |
| `BoostAdapter.SetPoints` | xs/src/libslic3r/Polygon.hpp:177-187 | For a non-empty input of `n` points, the rebuilt polygon holds the first `n-1` input points, in order. The old points are discarded. |
| `BoostAdapter.RebuiltRingIsUnchanged` | xs/src/libslic3r/Polygon.hpp:177-186 | A ring rebuilt from its own closed path iterates as the original points and reports the original number of sides. |
| `BoostAdapter.ReopenPolylines` | xs/src/libslic3r/Polygon.hpp:108-119 | Running `to_polylines` and then `set_points` on each polyline gives back the original collection. |
| `BoostAdapter.Members` | xs/src/libslic3r/Polygon.hpp:200-206 | Iteration over a collection from `begin` to `end` yields every member in stored order. |
| `BoostAdapter.Clean` | xs/src/libslic3r/Polygon.hpp:209 | A collection is never reported as clean. |
| `BoostAdapter.Sorted` | xs/src/libslic3r/Polygon.hpp:210 | A collection is never reported as sorted. |
| `BoostAdapter.Set` | xs/src/libslic3r/Polygon.hpp:216-218 | The collection becomes exactly the input sequence, in order. Nothing of its old members remains. |

## Left out

- The `Polygon` members that are only declared are not modelled, because their bodies are not part of this model: `area`, `is_counter_clockwise`, `is_clockwise`, `make_clockwise`, `make_counter_clockwise`, `is_valid`, `contains`, `simplify`, the `split_at_*` family, `equally_spaced_points`, `centroid`, `wkt`, `concave_points`/`convex_points`, `triangulate_convex`, `lines`, `last_point`, the conversion operators and `operator[]` (`Polygon.hpp:18-48`). Many of them also compute in floating point.
- `get_extents*`, `remove_sticks`, `remove_degenerate` and `remove_small` (`Polygon.hpp:51-62`) are declarations only. Their implementation file is not part of this model.
- `polygons_rotate` (`Polygon.hpp:76-80`) rotates in floating point through `MultiPoint::rotate`, which is not part of this model.
- The rvalue overloads `polygons_append(Polygons&&)` and `to_polylines(Polygons&&)` (`Polygon.hpp:67-73`, `123-135`) differ from the lvalue versions only in moving storage instead of copying it. Their observable results are the same. `to_polylines(Polygons&&)` moves through a `const_iterator`, so it actually copies.
- `reserve` (`Polygon.hpp:85`, `98`) only preallocates capacity, and this model has no capacities. `ToLinesAll` keeps the loop that counts the points for it. `assign(n, Polyline())` (`Polygon.hpp:111`) is modelled: it sets the vector to `n` empty polylines, and `ToPolylines` allocates an array of `n` empty polylines and fills it by index.
- `boost::polygon::assign` is library code. It is modelled as a plain copy of the point's coordinates. The input of `set_points` is therefore a sequence of this core's `Point`s rather than of an arbitrary Boost point type.
- The `geometry_concept` specialisations and the `coordinate_type` / `iterator_type` typedefs (`Polygon.hpp:144`, `148-150`, `191`, `196-198`) are compile-time tags with no run-time behaviour.
- Coordinates (`coord_t`) are unbounded integers. The modelled code only copies coordinates and never does arithmetic on them, so width does not matter. The counter `n_lines` (`size_t`) is also unbounded, so `size_t` wrap-around is not modelled.
- In-place update is modelled on values. `PolygonsAppend`, `SetPoints` and `Set` return the new value of their argument instead of mutating it.
- PolygonsAppend: does not model the call where `dst` and `src` are the same vector. In C++, `polygons_append(v, v)` inserts a vector's own range into itself, which range `insert` leaves undefined. On values the two arguments cannot be told apart from two equal vectors, so the model defines that call as `v + v`.

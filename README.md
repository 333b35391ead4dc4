# SafeRoads route stitcher

A Dafny model of the route-assembly step of the SafeRoads routing server's
`/route` handler. The shortest-path query returns an ordered list of edge rows,
each with a GeoJSON geometry whose orientation is not guaranteed to match the
direction of travel. The handler turns them into one flat list of
`{lat, lon}` points:

- a row whose geometry is not a `LineString` is skipped;
- the first row's coordinates are reversed when the request's start point is
  strictly closer to the last coordinate than to the first;
- every later row is tested the same way against the last point already placed;
- each `[lon, lat]` position is re-emitted as `{lat, lon}`, and the blocks are
  concatenated without de-duplicating shared endpoints.

Around the loop, an absent shortest-path result is answered with 404
"Route not found", the stitched points are sent with 200, and a TypeError
raised inside the loop is caught and answered with 500 "Internal server error".

Files:

- `route_stitcher.dfy`, module `RouteStitcher`. It holds the data model:
  positions, `LatLon` points, geometries, edge rows, and the distance function
  as the type `Distance`. It specifies the loop as a left fold (`StepRow`,
  `StitchPrefix`, `Stitch`). It also gives two reference definitions that do
  not depend on the distance function: `Assemble`, the concatenation of the
  rows' blocks under any choice of orientations, and `PointCount`. The
  lemmas connect the fold to them.
- `route_handler.dfy`, module `RouteHandler`. It holds the imperative loop
  (`StitchRoute`), which appends to a growing `routePoints` sequence, and the
  handler (`HandleRoute`). Each is proved equal to its specification function.

The distance function `calculateDistance` is an uninterpreted parameter.
Every property holds for any distance function, except two groups that
assume a separating one: zero from a point to itself and positive between
distinct points (`Separates`). Those are the continuity lemmas and
`GreedyFollowsChain`.

The model follows what the handler's code does, which differs in places from
a design for this step in which route points are de-duplicated and malformed
edges are rejected one by one:

- Shared endpoints are not de-duplicated. Where one block ends at the point
  the next block starts with, the point appears twice, adjacently; it is not
  merged into one point.
- The handler does no speed, risk, time or distance formatting, and no
  variant handling.
- Only two row shapes throw, and each ends the whole request in 500:
  - a `LineString` with no coordinates, because `firstCoord` is undefined;
  - a `LineString` after row 0 when no point has been placed yet, because
    the last point of `routePoints` is undefined.
- This second case arises when every row before it is skipped. The branch
  for row 0 is chosen by row index, not by whether any point has been placed.
- A `LineString` with a single coordinate does not throw. Its first and last
  coordinates are the same, so it is emitted as one point.
- A geometry of any other type is skipped silently.

## Model

| member | source | states |
|---|---|---|
| `RouteStitcher.ToLatLon` | safeRoads_server/index.js:162 | the emitted point's `lat` is the position's second component and `lon` its first, values unaltered |
| `RouteStitcher.Reversed` | safeRoads_server/index.js:162 | `.reverse()` keeps the length and puts the element at distance `k` from the end at index `k` |
| `RouteStitcher.Block` | safeRoads_server/index.js:161-166 | a row's block has exactly as many points as the row has coordinates: nothing dropped or merged |
| `RouteStitcher.BlockAt` | safeRoads_server/index.js:161-166 | point `k` of a block comes from coordinate `k`, or from the coordinate `k` places from the end when reversed, with `lat = [1]` and `lon = [0]` and values unaltered |
| `RouteStitcher.BlockEnds` | safeRoads_server/index.js:161-166 | a block starts at the first coordinate and ends at the last, or the other way round when reversed |
| `RouteStitcher.Assemble` | safeRoads_server/index.js:137-196 | concatenating the blocks under any orientations yields exactly as many points as the LineString rows have coordinates |
| `RouteStitcher.StitchIsAssembly` | safeRoads_server/index.js:137-196 | a successful stitch is the row-order concatenation of every LineString row's block, each as stored or fully reversed, with exactly the rows' coordinate count; non-LineString rows contribute nothing |
| `RouteStitcher.PrefixIsAssembly` | safeRoads_server/index.js:137-196 | the same for `routePoints` after any number of rows |
| `RouteStitcher.PrefixGrows` | safeRoads_server/index.js:161-166 | the loop only appends: every earlier state of `routePoints` is a prefix of every later successful one |
| `RouteStitcher.FirstRowOrientation` | safeRoads_server/index.js:144-167 | the result begins with row 0's block, reversed exactly when dist(start, last) < dist(start, first), so a tie keeps the stored order |
| `RouteStitcher.LaterRowOrientation` | safeRoads_server/index.js:168-193 | for a later LineString row, the points placed before it exist and are kept, and its block follows them, reversed exactly when dist(lastPlaced, last) < dist(lastPlaced, first) |
| `RouteStitcher.LineRowStep` | safeRoads_server/index.js:139-193 | a LineString row that does not throw appends its block oriented against the start at index 0 and against the last placed point otherwise |
| `RouteStitcher.OtherRowSkipped` | safeRoads_server/index.js:139 | a non-LineString row leaves `routePoints` unchanged |
| `RouteStitcher.BlockStartsAtAnchor` | safeRoads_server/index.js:172-193 | under a separating distance, a block whose reference point is one of its endpoints begins at that point; an edge with both ends there keeps its stored order |
| `RouteStitcher.Continuity` | safeRoads_server/index.js:169-193 | under a separating distance, when the last placed point is an endpoint of the next row, that point starts the next block and appears twice, adjacently |
| `RouteStitcher.StartsAtStart` | safeRoads_server/index.js:144-167 | under a separating distance, a first row with the start point as an endpoint is emitted beginning at the start point |
| `RouteStitcher.GreedyFollowsChain` | safeRoads_server/index.js:137-196 | when the rows can be oriented into a walk from the start whose consecutive edges share endpoints and whose edges have distinct ends, a separating distance makes the stitcher emit exactly that walk |
| `RouteStitcher.PrefixFailsIff` | safeRoads_server/index.js:137-183 | after `n` rows the loop has thrown iff some earlier LineString row is empty or follows row 0 with no point placed; otherwise `routePoints` holds as many points as those rows have coordinates |
| `RouteStitcher.StitchFailsIff` | safeRoads_server/index.js:137-183 | the loop throws iff some LineString row is empty or follows row 0 with no point placed, independently of the start and the distance |
| `RouteStitcher.SkippedFirstRowFails` | safeRoads_server/index.js:144-174 | a non-LineString row 0 followed by a non-empty LineString row reads a missing last point |
| `RouteStitcher.PrefixGrowsFailed` | safeRoads_server/index.js:137-203 | a thrown error ends the loop: later states keep the same error |
| `RouteStitcher.GreedyPicksFlag` | safeRoads_server/index.js:185-193 | under a separating distance, when the block oriented one way begins at the reference point and has distinct ends, the strict nearest-endpoint test chooses that orientation |
| `RouteHandler.StitchRoute` | safeRoads_server/index.js:135-196 | the loop computes exactly the specified stitch; on success it has one point per coordinate of the LineString rows; it throws iff some row fails |
| `RouteHandler.HandleRoute` | safeRoads_server/index.js:127-204 | the handler answers exactly the specified response |
| `RouteHandler.RouteResponseCases` | safeRoads_server/index.js:130-203 | 404 "Route not found" iff there is no result; 200 iff a result was found and no row throws, carrying one point per coordinate (none for an empty result); exactly 500 "Internal server error" when a result was found and some row throws |

## Left out

- `calculateDistance` (haversine, radius 6371 km): floating-point trigonometry. It is the uninterpreted parameter `dist`, and NaN results are not modelled.
- `getRoute`: the nearest-vertex and `pgr_dijkstra` SQL run in PostgreSQL. Its result is the `found` parameter: `None` for the `undefined` returned on a database error, `Some(rows)` otherwise. In JavaScript an empty array is truthy, so it gives an empty route, not 404.
- `JSON.parse(row.geojson)`: the model takes the parsed geometry. A geometry that is not a `LineString` is `OtherGeometry`. Malformed JSON and positions that are not pairs are not modelled. Extra position components, such as an altitude, are ignored by the source's `[lon, lat]` destructuring.
- Reading `start.lat` and `start.lon` from the request body: `start` is a `LatLon` value, so a missing start point is not modelled.
- The in-place `.reverse()`: the reversed array is freshly parsed and not shared, so the model uses the pure `Reversed`.
- Firebase initialisation and `/send`, `/geocode`, `/search`, pool shutdown, signal handlers and `app.listen`: I/O and process lifecycle outside the stitcher.
- `safeRoads_server/tiff_pipeline.py`: a raster download and SQL scripts run by the database; nothing in it is sequential logic.
- Logging (`console.log`, `console.error`): no observable effect on the response.

/**
 The `/route` request handler around the stitcher: the gating on the
 shortest-path result, the `forEach` loop that fills `routePoints`, and the
 response the handler sends. The shortest-path query and `calculateDistance`
 are parameters: the found rows (or their absence) and an uninterpreted
 distance function.
 */
module RouteHandler {
  import opened RouteStitcher

  datatype Option<T> = None | Some(value: T)

  /** The JSON body of a response. */
  datatype Body = RouteBody(route: seq<LatLon>) | ErrorBody(error: string)

  /** An HTTP status together with its JSON body. */
  datatype Response = Response(status: int, body: Body)

  const NotFound: Response := Response(404, ErrorBody("Route not found"))
  const InternalError: Response := Response(500, ErrorBody("Internal server error"))

  /** The response for a shortest-path result: 404 when there is none, the
      stitched points with 200, or 500 when the loop throws. */
  function RouteResponse(dist: Distance, start: LatLon, found: Option<seq<EdgeRow>>): Response
  {
    match found
    case None => NotFound
    case Some(rows) =>
      match Stitch(dist, start, rows)
      case Stitched(points) => Response(200, RouteBody(points))
      case Failed(_) => InternalError
  }

  /** The `forEach` loop: each row is processed in order and appends its
      oriented coordinates to `routePoints`; a TypeError ends the loop. */
  method StitchRoute(dist: Distance, start: LatLon, rows: seq<EdgeRow>) returns (result: StitchResult)
    ensures result == Stitch(dist, start, rows)
    ensures result.Stitched? ==> |result.points| == PointCount(rows)
    ensures result.Failed? <==> exists i :: 0 <= i < |rows| && FailsAt(rows, i)
  {
    StitchFailsIff(dist, start, rows);
    var routePoints: seq<LatLon> := [];
    var index := 0;
    while index < |rows|
      invariant index <= |rows|
      invariant StitchPrefix(dist, start, rows, index) == Stitched(routePoints)
    {
      match rows[index].geojson {
        case OtherGeometry =>
        case LineString(coordinates) =>
          var from: LatLon;
          if index == 0 {
            if |coordinates| == 0 {
              PrefixGrowsFailed(dist, start, rows, index + 1, |rows|);
              return Failed(MissingCoordinate);
            }
            from := start;
          } else {
            if |routePoints| == 0 {
              PrefixGrowsFailed(dist, start, rows, index + 1, |rows|);
              return Failed(MissingLastPoint);
            }
            if |coordinates| == 0 {
              PrefixGrowsFailed(dist, start, rows, index + 1, |rows|);
              return Failed(MissingCoordinate);
            }
            from := routePoints[|routePoints| - 1];
          }
          var firstCoord, lastCoord := coordinates[0], coordinates[|coordinates| - 1];
          var distanceToFirst := dist(from.lat, from.lon, firstCoord.1, firstCoord.0);
          var distanceToLast := dist(from.lat, from.lon, lastCoord.1, lastCoord.0);
          if distanceToLast < distanceToFirst {
            routePoints := routePoints + Block(coordinates, true);
          } else {
            routePoints := routePoints + Block(coordinates, false);
          }
      }
      index := index + 1;
    }
    result := Stitched(routePoints);
    StitchIsAssembly(dist, start, rows);
  }

  /** The handler: an absent result is answered with 404, otherwise the rows
      are stitched and sent with 200, and a thrown error becomes 500. */
  method HandleRoute(dist: Distance, start: LatLon, found: Option<seq<EdgeRow>>) returns (response: Response)
    ensures response == RouteResponse(dist, start, found)
  {
    if found.None? {
      return NotFound;
    }
    var stitched := StitchRoute(dist, start, found.value);
    match stitched {
      case Stitched(routePoints) =>
        response := Response(200, RouteBody(routePoints));
      case Failed(_) =>
        response := InternalError;
    }
  }

  /** The three outcomes of the handler: 404 exactly when no result was found;
      200 exactly when a result was found on which no row throws, carrying one
      point per coordinate of its LineString rows (none for an empty result);
      500 "Internal server error" when a result was found and some row throws. */
  lemma RouteResponseCases(dist: Distance, start: LatLon, found: Option<seq<EdgeRow>>)
    ensures RouteResponse(dist, start, found) == NotFound <==> found.None?
    ensures RouteResponse(dist, start, found).status == 200 <==>
      found.Some? && forall i :: 0 <= i < |found.value| ==> !FailsAt(found.value, i)
    ensures RouteResponse(dist, start, found).status == 200 ==>
      RouteResponse(dist, start, found).body.RouteBody? &&
      |RouteResponse(dist, start, found).body.route| == PointCount(found.value)
    ensures found.Some? && (exists i :: 0 <= i < |found.value| && FailsAt(found.value, i)) ==>
      RouteResponse(dist, start, found) == InternalError
    ensures found == Some([]) ==> RouteResponse(dist, start, found) == Response(200, RouteBody([]))
  {
    if found.Some? {
      StitchFailsIff(dist, start, found.value);
      if Stitch(dist, start, found.value).Stitched? {
        StitchIsAssembly(dist, start, found.value);
      }
    }
  }
}

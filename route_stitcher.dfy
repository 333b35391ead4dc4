/**
 The route stitcher of the `/route` handler: it turns the ordered edge rows of a
 shortest-path result into one flat list of `{lat, lon}` points, orienting each
 edge's LineString by a greedy nearest-endpoint rule.

 This module holds the data model and the specification of the stitching loop
 as a left fold over the rows, together with the properties proved about it.
 The imperative loop itself is `RouteHandler.StitchRoute`.
 */
module RouteStitcher {

  /** A GeoJSON position as stored in a geometry: `[lon, lat]`, so `.0` is the
      longitude (`coordinate[0]`) and `.1` the latitude (`coordinate[1]`). */
  type Position = (real, real)

  /** A point of the emitted route, and the request's start point. */
  datatype LatLon = LatLon(lat: real, lon: real)

  /** The already-parsed `row.geojson`: only its type and coordinates matter. */
  datatype Geometry = LineString(coordinates: seq<Position>) | OtherGeometry

  /** One edge row returned by the shortest-path query. */
  datatype EdgeRow = EdgeRow(geojson: Geometry)

  /** `calculateDistance(lat1, lon1, lat2, lon2)`, left uninterpreted. */
  type Distance = (real, real, real, real) -> real

  /** The TypeErrors the loop body can raise. */
  datatype Failure =
    | MissingCoordinate   // `coordinates[0]` is undefined: an empty LineString
    | MissingLastPoint    // `routePoints[routePoints.length - 1]` is undefined at a row index > 0

  /** What the loop leaves behind: the filled `routePoints`, or the error it threw. */
  datatype StitchResult = Stitched(points: seq<LatLon>) | Failed(failure: Failure)

  /** `([lon, lat]) => ({ lat, lon })` */
  function ToLatLon(p: Position): (q: LatLon)
    ensures q.lat == p.1 && q.lon == p.0
  {
    LatLon(p.1, p.0)
  }

  /** The array after `.reverse()`. */
  function Reversed(s: seq<Position>): (r: seq<Position>)
    ensures |r| == |s|
    ensures forall k :: 0 <= k < |s| ==> r[k] == s[|s| - 1 - k]
  {
    if |s| == 0 then [] else [s[|s| - 1]] + Reversed(s[..|s| - 1])
  }

  function Oriented(cs: seq<Position>, reversed: bool): seq<Position>
  {
    if reversed then Reversed(cs) else cs
  }

  /** The points one LineString contributes: its coordinates as stored, or fully
      reversed, each swapped into named fields and otherwise unaltered. */
  function Block(cs: seq<Position>, reversed: bool): (b: seq<LatLon>)
    ensures |b| == |cs|
  {
    var oriented := Oriented(cs, reversed);
    seq(|oriented|, k requires 0 <= k < |oriented| => ToLatLon(oriented[k]))
  }

  /** Point `k` of a block comes from coordinate `k`, or from the coordinate
      `k` places from the end when reversed, with latitude and longitude
      swapped into named fields and otherwise unaltered. */
  lemma BlockAt(cs: seq<Position>, reversed: bool, k: nat)
    requires k < |cs|
    ensures var p := if reversed then cs[|cs| - 1 - k] else cs[k];
      Block(cs, reversed)[k].lat == p.1 && Block(cs, reversed)[k].lon == p.0
  {
  }

  /** The orientation test made against a reference point: reverse exactly when
      the last coordinate is strictly closer than the first. */
  predicate ReversesFrom(dist: Distance, from: LatLon, cs: seq<Position>)
    requires |cs| > 0
  {
    dist(from.lat, from.lon, cs[|cs| - 1].1, cs[|cs| - 1].0)
      < dist(from.lat, from.lon, cs[0].1, cs[0].0)
  }

  /** One iteration of the loop: row `index` processed against the points
      already placed. Row 0 is tested against the start point; every later row
      against the last placed point, which may be missing. */
  function StepRow(dist: Distance, start: LatLon, index: nat, placed: seq<LatLon>, row: EdgeRow): StitchResult
  {
    match row.geojson
    case OtherGeometry => Stitched(placed)
    case LineString(cs) =>
      if index == 0 then
        if |cs| == 0 then Failed(MissingCoordinate)
        else Stitched(placed + Block(cs, ReversesFrom(dist, start, cs)))
      else if |placed| == 0 then Failed(MissingLastPoint)
      else if |cs| == 0 then Failed(MissingCoordinate)
      else Stitched(placed + Block(cs, ReversesFrom(dist, placed[|placed| - 1], cs)))
  }

  /** The state of the loop after its first `n` rows: `routePoints` as it stands
      just before row `n` is processed, or the error thrown earlier. */
  function StitchPrefix(dist: Distance, start: LatLon, rows: seq<EdgeRow>, n: nat): StitchResult
    requires n <= |rows|
  {
    if n == 0 then Stitched([])
    else
      match StitchPrefix(dist, start, rows, n - 1)
      case Failed(e) => Failed(e)
      case Stitched(placed) => StepRow(dist, start, n - 1, placed, rows[n - 1])
  }

  /** The whole loop over the rows. */
  function Stitch(dist: Distance, start: LatLon, rows: seq<EdgeRow>): StitchResult
  {
    StitchPrefix(dist, start, rows, |rows|)
  }

  // ---------------------------------------------------------------------------
  // Reference definitions, independent of the distance function
  // ---------------------------------------------------------------------------

  /** The number of coordinates of the LineString rows. */
  function PointCount(rows: seq<EdgeRow>): nat
  {
    if |rows| == 0 then 0
    else
      PointCount(rows[..|rows| - 1]) +
      (match rows[|rows| - 1].geojson
       case LineString(cs) => |cs|
       case OtherGeometry => 0)
  }

  /** The points a row contributes under a given orientation; non-LineString
      rows contribute nothing. */
  function RowBlock(row: EdgeRow, reversed: bool): seq<LatLon>
  {
    match row.geojson
    case LineString(cs) => Block(cs, reversed)
    case OtherGeometry => []
  }

  /** The concatenation, in row order, of every row's block under the chosen
      orientations `flags`. */
  function Assemble(rows: seq<EdgeRow>, flags: seq<bool>): (r: seq<LatLon>)
    requires |flags| == |rows|
    ensures |r| == PointCount(rows)
  {
    if |rows| == 0 then []
    else
      Assemble(rows[..|rows| - 1], flags[..|rows| - 1]) + RowBlock(rows[|rows| - 1], flags[|rows| - 1])
  }

  /** Row `i` throws: it is a LineString and either has no coordinates or is
      not row 0 while no point has been placed before it. */
  predicate FailsAt(rows: seq<EdgeRow>, i: nat)
    requires i < |rows|
  {
    rows[i].geojson.LineString? &&
    (|rows[i].geojson.coordinates| == 0 || (i > 0 && PointCount(rows[..i]) == 0))
  }

  /** The distance function separates points: zero from a point to itself,
      positive to any other point. */
  ghost predicate Separates(dist: Distance)
  {
    (forall lat, lon :: dist(lat, lon, lat, lon) == 0.0) &&
    (forall lat1, lon1, lat2, lon2 ::
       (lat1 != lat2 || lon1 != lon2) ==> dist(lat1, lon1, lat2, lon2) > 0.0)
  }

  /** Row `i`'s oriented block has two distinct ends and begins at `start`
      (row 0) or where the previous row's oriented block ends. */
  ghost predicate LinksAt(start: LatLon, rows: seq<EdgeRow>, flags: seq<bool>, i: nat)
    requires |flags| == |rows| && i < |rows|
  {
    var cs := rows[i].geojson;
    cs.LineString? && |cs.coordinates| > 0 &&
    RowBlock(rows[i], flags[i])[0] != RowBlock(rows[i], flags[i])[|cs.coordinates| - 1] &&
    if i == 0 then RowBlock(rows[0], flags[0])[0] == start
    else
      rows[i - 1].geojson.LineString? && |rows[i - 1].geojson.coordinates| > 0 &&
      RowBlock(rows[i], flags[i])[0] ==
      RowBlock(rows[i - 1], flags[i - 1])[|rows[i - 1].geojson.coordinates| - 1]
  }

  /** The oriented blocks form a walk from `start`: every block has two distinct
      ends, the first begins at `start`, and each later one begins where the
      previous one ends. */
  ghost predicate Chained(start: LatLon, rows: seq<EdgeRow>, flags: seq<bool>)
    requires |flags| == |rows|
  {
    forall i :: 0 <= i < |rows| ==> LinksAt(start, rows, flags, i)
  }

  // ---------------------------------------------------------------------------
  // Lemmas
  // ---------------------------------------------------------------------------

  lemma AssemblePrefix(rows: seq<EdgeRow>, flags: seq<bool>, n: nat)
    requires |flags| == |rows| && n < |rows|
    ensures Assemble(rows[..n + 1], flags[..n + 1]) ==
            Assemble(rows[..n], flags[..n]) + RowBlock(rows[n], flags[n])
  {
    var prefix, chosen := rows[..n + 1], flags[..n + 1];
    assert prefix[..n] == rows[..n];
    assert chosen[..n] == flags[..n];
    assert Assemble(prefix, chosen) == Assemble(prefix[..n], chosen[..n]) + RowBlock(prefix[n], chosen[n]);
  }

  lemma {:induction false} PointCountPrefix(rows: seq<EdgeRow>, n: nat)
    requires n < |rows|
    ensures PointCount(rows[..n + 1]) ==
            PointCount(rows[..n]) + (if rows[n].geojson.LineString? then |rows[n].geojson.coordinates| else 0)
  {
    assert rows[..n + 1][..n] == rows[..n];
  }

  /** A successful step appends the row's block under some orientation. */
  lemma StepAppendsBlock(dist: Distance, start: LatLon, index: nat, placed: seq<LatLon>, row: EdgeRow)
    requires StepRow(dist, start, index, placed, row).Stitched?
    ensures exists flag :: StepRow(dist, start, index, placed, row).points == placed + RowBlock(row, flag)
  {
    match row.geojson
    case OtherGeometry =>
      assert StepRow(dist, start, index, placed, row).points == placed + RowBlock(row, false);
    case LineString(cs) =>
      var anchor := if index == 0 then start else placed[|placed| - 1];
      assert StepRow(dist, start, index, placed, row).points
          == placed + RowBlock(row, ReversesFrom(dist, anchor, cs));
  }

  /** Every successful prefix of the loop is an assembly of the processed rows
      under some orientations. */
  lemma {:induction false} PrefixIsAssembly(dist: Distance, start: LatLon, rows: seq<EdgeRow>, n: nat)
    requires n <= |rows|
    requires StitchPrefix(dist, start, rows, n).Stitched?
    ensures exists flags :: |flags| == n && StitchPrefix(dist, start, rows, n).points == Assemble(rows[..n], flags)
  {
    if n == 0 {
      assert StitchPrefix(dist, start, rows, 0).points == Assemble(rows[..0], []);
    } else {
      PrefixIsAssembly(dist, start, rows, n - 1);
      var placed := StitchPrefix(dist, start, rows, n - 1).points;
      var flags :| |flags| == n - 1 && placed == Assemble(rows[..n - 1], flags);
      StepAppendsBlock(dist, start, n - 1, placed, rows[n - 1]);
      var flag :| StitchPrefix(dist, start, rows, n).points == placed + RowBlock(rows[n - 1], flag);
      AssembleExtend(rows, n, flags, flag);
    }
  }

  lemma AssembleUnfold(rows: seq<EdgeRow>, flags: seq<bool>)
    requires |flags| == |rows| > 0
    ensures Assemble(rows, flags) ==
            Assemble(rows[..|rows| - 1], flags[..|rows| - 1]) + RowBlock(rows[|rows| - 1], flags[|rows| - 1])
  {
  }

  lemma AssembleExtend(rows: seq<EdgeRow>, n: nat, flags: seq<bool>, flag: bool)
    requires 0 < n <= |rows| && |flags| == n - 1
    ensures Assemble(rows[..n], flags + [flag]) == Assemble(rows[..n - 1], flags) + RowBlock(rows[n - 1], flag)
  {
    var prefix, all := rows[..n], flags + [flag];
    AssembleUnfold(prefix, all);
    assert prefix[..n - 1] == rows[..n - 1];
    assert all[..n - 1] == flags;
  }

  /** The output is the concatenation, in row order, of each LineString row's
      coordinates, each block as stored or fully reversed, and it holds exactly
      as many points as those rows have coordinates: no point is added,
      merged or dropped. */
  lemma StitchIsAssembly(dist: Distance, start: LatLon, rows: seq<EdgeRow>)
    requires Stitch(dist, start, rows).Stitched?
    ensures exists flags :: |flags| == |rows| && Stitch(dist, start, rows).points == Assemble(rows, flags)
    ensures |Stitch(dist, start, rows).points| == PointCount(rows)
  {
    PrefixIsAssembly(dist, start, rows, |rows|);
    assert rows[..|rows|] == rows;
  }

  /** The loop only appends: a successful later state extends every earlier one. */
  lemma {:induction false} PrefixGrows(dist: Distance, start: LatLon, rows: seq<EdgeRow>, n: nat, m: nat)
    requires n <= m <= |rows|
    requires StitchPrefix(dist, start, rows, m).Stitched?
    ensures StitchPrefix(dist, start, rows, n).Stitched?
    ensures StitchPrefix(dist, start, rows, n).points <= StitchPrefix(dist, start, rows, m).points
  {
    if n < m {
      PrefixGrows(dist, start, rows, n, m - 1);
    }
  }

  /** The first row is reversed exactly when the start point is strictly closer
      to its last coordinate than to its first; a tie keeps the stored order. */
  lemma FirstRowOrientation(dist: Distance, start: LatLon, rows: seq<EdgeRow>)
    requires |rows| > 0 && rows[0].geojson.LineString?
    requires Stitch(dist, start, rows).Stitched?
    ensures var cs := rows[0].geojson.coordinates;
      |cs| > 0 && |cs| <= |Stitch(dist, start, rows).points| &&
      Stitch(dist, start, rows).points[..|cs|] == Block(cs, ReversesFrom(dist, start, cs))
  {
    PrefixGrows(dist, start, rows, 1, |rows|);
  }

  /** Every later LineString row is tested against the last point placed before
      it, which then exists, and its block follows the points placed so far. */
  lemma LaterRowOrientation(dist: Distance, start: LatLon, rows: seq<EdgeRow>, i: nat)
    requires 0 < i < |rows| && rows[i].geojson.LineString?
    requires Stitch(dist, start, rows).Stitched?
    ensures StitchPrefix(dist, start, rows, i).Stitched?
    ensures var placed := StitchPrefix(dist, start, rows, i).points;
      var cs := rows[i].geojson.coordinates;
      var pts := Stitch(dist, start, rows).points;
      |placed| > 0 && |cs| > 0 && |placed| + |cs| <= |pts| && pts[..|placed|] == placed &&
      pts[|placed|..|placed| + |cs|] == Block(cs, ReversesFrom(dist, placed[|placed| - 1], cs))
  {
    PrefixGrows(dist, start, rows, i + 1, |rows|);
    LineRowStep(dist, start, rows, i);
    var placed := StitchPrefix(dist, start, rows, i).points;
    var cs := rows[i].geojson.coordinates;
    var block := Block(cs, ReversesFrom(dist, placed[|placed| - 1], cs));
    var pts := Stitch(dist, start, rows).points;
    SliceOfExtension(placed + block, pts, 0, |placed|);
    SliceOfExtension(placed + block, pts, |placed|, |placed| + |cs|);
    assert (placed + block)[|placed|..|placed| + |cs|] == block;
    assert (placed + block)[0..|placed|] == placed;
  }

  /** A LineString row that does not throw appends its block to the points
      placed so far, oriented against the start point at row 0 and against
      the last placed point, which then exists, at every later row. */
  lemma LineRowStep(dist: Distance, start: LatLon, rows: seq<EdgeRow>, i: nat)
    requires i < |rows| && rows[i].geojson.LineString?
    requires StitchPrefix(dist, start, rows, i + 1).Stitched?
    ensures StitchPrefix(dist, start, rows, i).Stitched?
    ensures var placed := StitchPrefix(dist, start, rows, i).points;
      var cs := rows[i].geojson.coordinates;
      |cs| > 0 && (i > 0 ==> |placed| > 0) &&
      StitchPrefix(dist, start, rows, i + 1).points ==
        placed + Block(cs, ReversesFrom(dist, if i == 0 then start else placed[|placed| - 1], cs))
  {
  }

  lemma SliceOfExtension<T>(q: seq<T>, s: seq<T>, a: nat, b: nat)
    requires q <= s && a <= b <= |q|
    ensures s[a..b] == q[a..b]
  {
  }

  /** A row that is not a LineString leaves the points placed so far unchanged. */
  lemma OtherRowSkipped(dist: Distance, start: LatLon, rows: seq<EdgeRow>, i: nat)
    requires i < |rows| && rows[i].geojson.OtherGeometry?
    requires StitchPrefix(dist, start, rows, i).Stitched?
    ensures StitchPrefix(dist, start, rows, i + 1) == StitchPrefix(dist, start, rows, i)
  {
  }

  /** Under a separating distance, a block whose reference point is one of its
      endpoints starts at that point (a closed edge, with both ends at the
      reference point, keeps its stored order). */
  lemma BlockStartsAtAnchor(dist: Distance, anchor: LatLon, cs: seq<Position>)
    requires Separates(dist) && |cs| > 0
    requires ToLatLon(cs[0]) == anchor || ToLatLon(cs[|cs| - 1]) == anchor
    ensures Block(cs, ReversesFrom(dist, anchor, cs))[0] == anchor
  {
    BlockEnds(cs, ReversesFrom(dist, anchor, cs));
  }

  /** Continuity under an accurate metric: when the next row has the last placed
      point as one of its endpoints, that point starts the next block,
      and it is not de-duplicated: it appears twice, adjacently. */
  lemma Continuity(dist: Distance, start: LatLon, rows: seq<EdgeRow>, i: nat)
    requires Separates(dist)
    requires 0 < i < |rows| && rows[i].geojson.LineString? && |rows[i].geojson.coordinates| > 0
    requires StitchPrefix(dist, start, rows, i).Stitched?
    requires var placed := StitchPrefix(dist, start, rows, i).points;
      var cs := rows[i].geojson.coordinates;
      |placed| > 0 &&
      (ToLatLon(cs[0]) == placed[|placed| - 1] || ToLatLon(cs[|cs| - 1]) == placed[|placed| - 1])
    ensures var placed := StitchPrefix(dist, start, rows, i).points;
      var next := StitchPrefix(dist, start, rows, i + 1);
      next.Stitched? && |next.points| > |placed| &&
      next.points[|placed|] == next.points[|placed| - 1] == placed[|placed| - 1]
  {
  }

  /** The same at the first row: an edge that has the start point as one of
      its endpoints is emitted beginning at the start point. */
  lemma StartsAtStart(dist: Distance, start: LatLon, rows: seq<EdgeRow>)
    requires Separates(dist)
    requires |rows| > 0 && rows[0].geojson.LineString? && |rows[0].geojson.coordinates| > 0
    requires var cs := rows[0].geojson.coordinates;
      ToLatLon(cs[0]) == start || ToLatLon(cs[|cs| - 1]) == start
    ensures var first := StitchPrefix(dist, start, rows, 1);
      first.Stitched? && |first.points| > 0 && first.points[0] == start
  {
  }

  lemma BlockEnds(cs: seq<Position>, reversed: bool)
    requires |cs| > 0
    ensures Block(cs, reversed)[0] == ToLatLon(if reversed then cs[|cs| - 1] else cs[0])
    ensures Block(cs, reversed)[|cs| - 1] == ToLatLon(if reversed then cs[0] else cs[|cs| - 1])
  {
    BlockAt(cs, reversed, 0);
    BlockAt(cs, reversed, |cs| - 1);
  }

  /** The greedy rule recovers a walk: when the rows' geometries can be oriented
      into a walk from the start point whose consecutive edges share endpoints,
      and the distance separates points, the stitcher emits exactly that walk. */
  lemma {:induction false} GreedyFollowsChain(dist: Distance, start: LatLon, rows: seq<EdgeRow>, flags: seq<bool>)
    requires |flags| == |rows|
    requires Separates(dist) && Chained(start, rows, flags)
    ensures Stitch(dist, start, rows) == Stitched(Assemble(rows, flags))
  {
    var n := 0;
    while n < |rows|
      invariant n <= |rows|
      invariant StitchPrefix(dist, start, rows, n) == Stitched(Assemble(rows[..n], flags[..n]))
    {
      ChainChoice(dist, start, rows, flags, n);
      OrientedStep(dist, start, rows, flags, n);
      n := n + 1;
    }
    assert rows[..|rows|] == rows && flags[..|rows|] == flags;
  }

  /** On a walk, the greedy test at row `n` picks the walk's orientation,
      whether the reference point is the start (row 0) or the end of the
      assembly so far. */
  lemma ChainChoice(dist: Distance, start: LatLon, rows: seq<EdgeRow>, flags: seq<bool>, n: nat)
    requires |flags| == |rows| && n < |rows|
    requires Separates(dist) && Chained(start, rows, flags)
    ensures rows[n].geojson.LineString? && |rows[n].geojson.coordinates| > 0
    ensures var placed := Assemble(rows[..n], flags[..n]);
      (n > 0 ==> |placed| > 0) &&
      ReversesFrom(dist, if n == 0 then start else placed[|placed| - 1], rows[n].geojson.coordinates) == flags[n]
  {
    assert LinksAt(start, rows, flags, n);
    var cs := rows[n].geojson.coordinates;
    assert RowBlock(rows[n], flags[n]) == Block(cs, flags[n]);
    if n == 0 {
      GreedyPicksFlag(dist, start, cs, flags[n]);
    } else {
      AssembleLast(rows, flags, n);
      var placed := Assemble(rows[..n], flags[..n]);
      GreedyPicksFlag(dist, placed[|placed| - 1], cs, flags[n]);
    }
  }

  /** A LineString row whose greedy test agrees with its flag extends the
      assembly by that row's block. */
  lemma OrientedStep(dist: Distance, start: LatLon, rows: seq<EdgeRow>, flags: seq<bool>, n: nat)
    requires |flags| == |rows| && n < |rows|
    requires rows[n].geojson.LineString? && |rows[n].geojson.coordinates| > 0
    requires StitchPrefix(dist, start, rows, n) == Stitched(Assemble(rows[..n], flags[..n]))
    requires var placed := Assemble(rows[..n], flags[..n]);
      (n > 0 ==> |placed| > 0) &&
      ReversesFrom(dist, if n == 0 then start else placed[|placed| - 1], rows[n].geojson.coordinates) == flags[n]
    ensures StitchPrefix(dist, start, rows, n + 1) == Stitched(Assemble(rows[..n + 1], flags[..n + 1]))
  {
    AssemblePrefix(rows, flags, n);
  }

  /** Under a separating distance, when the block under `flag` begins at the
      reference point and has distinct ends, the greedy test chooses `flag`. */
  lemma GreedyPicksFlag(dist: Distance, anchor: LatLon, cs: seq<Position>, flag: bool)
    requires Separates(dist) && |cs| > 0
    requires Block(cs, flag)[0] == anchor && Block(cs, flag)[0] != Block(cs, flag)[|cs| - 1]
    ensures ReversesFrom(dist, anchor, cs) == flag
  {
    BlockEnds(cs, flag);
    BlockStartsAtAnchor(dist, anchor, cs);
    BlockEnds(cs, ReversesFrom(dist, anchor, cs));
  }

  /** The last point of an assembly is the last point of its last block. */
  lemma AssembleLast(rows: seq<EdgeRow>, flags: seq<bool>, n: nat)
    requires |flags| == |rows| && 0 < n <= |rows|
    requires rows[n - 1].geojson.LineString? && |rows[n - 1].geojson.coordinates| > 0
    ensures var placed := Assemble(rows[..n], flags[..n]);
      |placed| > 0 &&
      placed[|placed| - 1] == RowBlock(rows[n - 1], flags[n - 1])[|rows[n - 1].geojson.coordinates| - 1]
  {
  }

  /** The loop throws exactly when some LineString row is empty or comes after
      row 0 with no point placed before it; which rows throw does not depend on
      the start point or the distance function. */
  lemma {:induction false} PrefixFailsIff(dist: Distance, start: LatLon, rows: seq<EdgeRow>, n: nat)
    requires n <= |rows|
    ensures StitchPrefix(dist, start, rows, n).Failed? <==> exists i :: 0 <= i < n && FailsAt(rows, i)
    ensures StitchPrefix(dist, start, rows, n).Stitched? ==>
      |StitchPrefix(dist, start, rows, n).points| == PointCount(rows[..n])
  {
    if n > 0 {
      PrefixFailsIff(dist, start, rows, n - 1);
      PointCountPrefix(rows, n - 1);
      if StitchPrefix(dist, start, rows, n - 1).Stitched? {
        assert StitchPrefix(dist, start, rows, n).Failed? <==> FailsAt(rows, n - 1);
      }
    } else {
      assert rows[..0] == [];
    }
  }

  lemma StitchFailsIff(dist: Distance, start: LatLon, rows: seq<EdgeRow>)
    ensures Stitch(dist, start, rows).Failed? <==> exists i :: 0 <= i < |rows| && FailsAt(rows, i)
  {
    PrefixFailsIff(dist, start, rows, |rows|);
  }

  /** A non-LineString row 0 followed by a non-empty LineString row reads a
      missing last point. */
  lemma SkippedFirstRowFails(dist: Distance, start: LatLon, rows: seq<EdgeRow>)
    requires |rows| >= 2 && rows[0].geojson.OtherGeometry?
    requires rows[1].geojson.LineString? && |rows[1].geojson.coordinates| > 0
    ensures Stitch(dist, start, rows) == Failed(MissingLastPoint)
  {
    assert StitchPrefix(dist, start, rows, 1) == Stitched([]);
    assert StitchPrefix(dist, start, rows, 2) == Failed(MissingLastPoint);
    PrefixGrowsFailed(dist, start, rows, 2, |rows|);
  }

  /** Once the loop has thrown, it stays thrown with the same error. */
  lemma {:induction false} PrefixGrowsFailed(dist: Distance, start: LatLon, rows: seq<EdgeRow>, n: nat, m: nat)
    requires n <= m <= |rows|
    requires StitchPrefix(dist, start, rows, n).Failed?
    ensures StitchPrefix(dist, start, rows, m) == StitchPrefix(dist, start, rows, n)
  {
    if n < m {
      PrefixGrowsFailed(dist, start, rows, n, m - 1);
    }
  }
}

/** Where the cells of a radius search lie: rows and columns of the grid, without reference to the code that
    computes them. */
module GeoNeighbours {
  import opened BitNumbers
  import opened GeoBits
  import opened GeoCodes
  import opened GeoCells

  function Whole(n: nat, d: nat): nat
    requires d >= 1
  {
    n / d
  }

  /** A step divides the map into `2 ^ step` rows and as many columns, counted from the south-west corner. */
  function Row(p: Coordinates, step: nat): nat
    requires OnMap(p) && step <= 26
  {
    Whole(LatitudeGrid(p), Pow2(26 - step))
  }

  function Column(p: Coordinates, step: nat): nat
    requires OnMap(p) && step <= 26
  {
    Whole(LongitudeGrid(p), Pow2(26 - step))
  }

  lemma GridIsSteps(step: nat)
    requires step <= 26
    ensures Pow2(step) * Pow2(26 - step) == CELLS
  {
    Powers();
    Pow2Sum(step, 26 - step);
  }

  // ---------------------------------------------------------------- one axis

  /** A value is in row `j` exactly if it lies between that row's edges. */
  lemma BetweenEdges(v: real, min: real, range: real, step: nat, j: int)
    requires range > 0.0 && step <= 26
    ensures Grid(v, min, range) / Pow2(26 - step) == j <==>
      j as real * (range / Pow2(step) as real) <= v - min < (j + 1) as real * (range / Pow2(step) as real)
  {
    hide Grid, CellWidth, Pow2;
    GridIsSteps(step);
    var g, u := Grid(v, min, range), CellWidth(range);
    GridCounts(v, min, range, g);
    var parts, size := Pow2(26 - step), Pow2(step);
    Widths(range, u, size, parts);
    var h := range / size as real;
    InPart(g, parts, j);
    AtMostFloor(v - min, u, g, j * parts);
    AtMostFloor(v - min, u, g, (j + 1) * parts);
    Regroup(j, parts, u, h);
    Regroup(j + 1, parts, u, h);
  }

  lemma Widths(range: real, u: real, size: nat, parts: nat)
    requires size >= 1 && parts >= 1 && size * parts == CELLS && CELLS as real * u == range
    ensures range / size as real == parts as real * u
  {
    var s, q := size as real, parts as real;
    assert s * q == CELLS as real;
    assert s * (q * u) == range;
    var h := range / s;
    assert h * s == range;
    assert (h - q * u) * s == 0.0;
  }

  lemma InPart(g: int, parts: nat, j: int)
    requires parts >= 1
    ensures g / parts == j <==> j * parts <= g < (j + 1) * parts
  {
    var q := g / parts;
    assert g == q * parts + g % parts;
    if j * parts <= g < (j + 1) * parts {
      assert j < q ==> (j + 1) * parts <= q * parts;
      assert q < j ==> (q + 1) * parts <= j * parts;
    }
  }

  lemma AtMostFloor(d: real, u: real, g: int, m: int)
    requires u > 0.0 && g as real * u <= d < g as real * u + u
    ensures m <= g <==> m as real * u <= d
  {
    if m <= g {
      Ordered(m as real, g as real, u);
    } else {
      Ordered(g as real + 1.0, m as real, u);
      assert (g as real + 1.0) * u == g as real * u + u;
    }
  }

  lemma Regroup(j: int, parts: nat, u: real, h: real)
    requires h == parts as real * u
    ensures (j * parts) as real * u == j as real * h
  {
    assert (j * parts) as real == j as real * parts as real;
    assert (j as real * parts as real) * u == j as real * (parts as real * u);
  }

  /** Quarters of a row's height decide the row. */
  lemma QuartersInRow(v: real, min: real, range: real, step: nat, quarters: int)
    requires range > 0.0 && step <= 26
    requires 4.0 * (v - min) == quarters as real * (range / Pow2(step) as real)
    ensures Grid(v, min, range) / Pow2(26 - step) == quarters / 4
  {
    hide Grid, Pow2;
    var h, j := range / Pow2(step) as real, quarters / 4;
    Positive(range, Pow2(step) as real);
    BetweenEdges(v, min, range, step, j);
    Ordered((4 * j) as real, quarters as real, h);
    OrderedNext((4 * j + 3) as real, quarters as real, h);
    FourTimes(j, h);
    QuarterOf(quarters);
    var d := v - min;
    assert 4.0 * (j as real * h) <= 4.0 * d < 4.0 * ((j + 1) as real * h);
  }

  lemma QuarterOf(quarters: int)
    ensures var j := quarters / 4; (4 * j) as real <= quarters as real < (4 * j + 3) as real + 1.0
  {
    var j := quarters / 4;
    assert 4 * j <= quarters <= 4 * j + 3;
  }

  lemma FourTimes(j: int, h: real)
    ensures (4 * j) as real * h == 4.0 * (j as real * h)
    ensures (4 * j + 3) as real * h + h == 4.0 * ((j + 1) as real * h)
  {
    var x := j as real;
    assert (4 * j) as real == 4.0 * x && (4 * j + 3) as real == 4.0 * x + 3.0 && (j + 1) as real == x + 1.0;
    assert (4.0 * x + 3.0) * h == 4.0 * (x * h) + 3.0 * h && (x + 1.0) * h == x * h + h;
  }

  /** A value lies on the axis exactly if its quarters do. */
  lemma QuartersOnAxis(d: real, range: real, size: nat, quarters: int)
    requires range > 0.0 && size >= 1 && 4.0 * d == quarters as real * (range / size as real)
    ensures 0.0 <= d <==> 0 <= quarters
    ensures d <= range <==> quarters <= 4 * size
  {
    var h := range / size as real;
    Positive(range, size as real);
    Ordered(0.0, quarters as real, h);
    Ordered(quarters as real, (4 * size) as real, h);
    assert (4 * size) as real * h == 4.0 * (size as real * h) == 4.0 * range;
  }

  // ---------------------------------------------------------------- the cell's corner

  /** The corner's grid number is its row's first one. */
  lemma CornerNumber(p: Coordinates, step: nat)
    requires OnMap(p) && step <= 26
    ensures Number32(Compact(Shl(CellOf(p, step), 52 - 2 * step))) == Row(p, step) * Pow2(26 - step)
  {
    hide Compact, Interleave, Word32, Number32, LatitudeGrid, LongitudeGrid, Shl, Shr, Pow2;
    var x, y, k := Word32(LatitudeGrid(p)), Word32(LongitudeGrid(p)), 26 - step;
    assert 52 - 2 * step == 2 * k;
    ShiftMany(x, y, k);
    CompactInterleave(Shr32(x, k), Shr32(y, k));
    CompactShiftedLeft(Interleave(Shr32(x, k), Shr32(y, k)), k);
    Powers();
    Number32OfWord(LatitudeGrid(p));
    Number32Shifted(x, k);
    WholeParts(LatitudeGrid(p), Pow2(k));
    Number32ShiftedLeft(Shr32(x, k), k);
  }

  lemma WholeParts(n: nat, d: nat)
    requires d >= 1
    ensures n / d * d <= n
  {
  }

  lemma AreaIs(p: Coordinates, step: nat)
    requires OnMap(p) && step <= 26
    ensures var a, r := CellArea(CellOf(p, step), step), Row(p, step) as real;
      var h, w := LATITUDE_RANGE / Pow2(step) as real, LONGITUDE_RANGE / Pow2(step) as real;
      a == Area(MIN_LATITUDE + r * h, MIN_LATITUDE + r * h + h, MIN_LONGITUDE + r * w, w)
  {
    hide Compact, Number32, LatitudeGrid, LongitudeGrid, Shl, CellOf, Pow2, Row;
    CornerNumber(p, step);
    GridIsSteps(step);
    InCells(Row(p, step), Pow2(step), Pow2(26 - step), LATITUDE_RANGE);
    InCells(Row(p, step), Pow2(step), Pow2(26 - step), LONGITUDE_RANGE);
  }

  lemma InCells(row: nat, size: nat, parts: nat, range: real)
    requires size >= 1 && parts >= 1 && size * parts == CELLS
    ensures (row * parts) as real * range / CELLS as real == row as real * (range / size as real)
  {
    var c, s, q, r: real := CELLS as real, size as real, parts as real, row as real;
    var h := range / s;
    assert h * s == range && s * q == c && (row * parts) as real == r * q;
    assert r * q * range == r * q * (h * s) == (r * h) * c by {
      assert r * q * (h * s) == (r * h) * (s * q);
    }
    var t := r * q * range / c;
    assert t * c == r * q * range;
    assert (t - r * h) * c == 0.0;
  }

  // ---------------------------------------------------------------- the neighbours

  /** A neighbour `dy` rows away is on the map exactly if there is such a row, and lies in it. */
  lemma NeighbourRow(p: Coordinates, step: nat, dy: int, dx: int)
    requires OnMap(p) && 1 <= step <= 26 && -1 <= dx <= 1
    ensures var n := Neighbour(CellArea(CellOf(p, step), step), dy, dx);
      && (InRows(n) <==> 0 <= Row(p, step) + dy < Pow2(step))
      && (InRows(n) ==> OnMap(n) && Row(n, step) == Row(p, step) + dy)
  {
    hide CellOf, CellArea, Pow2, Row, Column, Grid, OnMap, Neighbour, InRows;
    var n, r := Neighbour(CellArea(CellOf(p, step), step), dy, dx), Row(p, step);
    CellThere(p, step, dy, dx);
    LatitudeOfNeighbour(p, step, dy, dx);
    RowsOnMap(n.latitude, step, r + dy);
    InRowsIs(n);
    if InRows(n) {
      RowIs(n, step);
    }
  }

  lemma LatitudeOfNeighbour(p: Coordinates, step: nat, dy: int, dx: int)
    requires OnMap(p) && step <= 26
    ensures 4.0 * (Neighbour(CellArea(CellOf(p, step), step), dy, dx).latitude - MIN_LATITUDE) ==
      (4 * (Row(p, step) + dy) + 2) as real * (LATITUDE_RANGE / Pow2(step) as real)
  {
    hide CellOf, CellArea, Neighbour, Pow2, Row;
    AreaIs(p, step);
    var area := CellArea(CellOf(p, step), step);
    LatitudeOf(area, dy, dx);
    Middles(Row(p, step), dy, LATITUDE_RANGE / Pow2(step) as real);
    hide WrapLongitude;
  }

  lemma InRowsIs(n: Coordinates)
    ensures InRows(n) <==> 0.0 <= n.latitude - MIN_LATITUDE <= LATITUDE_RANGE
  {
  }

  lemma RowsOnMap(v: real, step: nat, j: int)
    requires step <= 26 && 4.0 * (v - MIN_LATITUDE) == (4 * j + 2) as real * (LATITUDE_RANGE / Pow2(step) as real)
    ensures 0.0 <= v - MIN_LATITUDE <= LATITUDE_RANGE <==> 0 <= j < Pow2(step)
    ensures Grid(v, MIN_LATITUDE, LATITUDE_RANGE) / Pow2(26 - step) == j
  {
    hide Grid, Pow2;
    QuartersOnAxis(v - MIN_LATITUDE, LATITUDE_RANGE, Pow2(step), 4 * j + 2);
    QuartersInRow(v, MIN_LATITUDE, LATITUDE_RANGE, step, 4 * j + 2);
  }

  lemma RowIs(n: Coordinates, step: nat)
    requires OnMap(n) && step <= 26
    ensures Row(n, step) == Grid(n.latitude, MIN_LATITUDE, LATITUDE_RANGE) / Pow2(26 - step)
    ensures Column(n, step) == Grid(n.longitude, MIN_LONGITUDE, LONGITUDE_RANGE) / Pow2(26 - step)
  {
  }

  lemma Middles(r: nat, dy: int, h: real)
    ensures var low := MIN_LATITUDE + r as real * h;
      4.0 * ((low + (low + h)) / 2.0 + dy as real * (low + h - low) - MIN_LATITUDE) == (4 * (r + dy) + 2) as real * h
  {
    assert (4 * (r + dy) + 2) as real == 4.0 * r as real + 4.0 * dy as real + 2.0;
  }

  /** The longitudes the code computes, in quarters of a column's width from the western edge. Since a cell's
      western edge comes from its row, and its eastern edge is a width, the columns depend on the row only. */
  function QuartersEast(r: nat, size: nat, dx: int): int
  {
    if dx == 0 then size + 2 * r + 2 else if dx > 0 then 3 * size + 6 - 2 * r else 6 * r - 2 - size
  }

  /** ... brought back onto the map. */
  function ReachedColumn(r: nat, size: nat, dx: int): int
  {
    Wrapped(QuartersEast(r, size, dx), size) / 4
  }

  function Wrapped(quarters: int, size: nat): int
  {
    if quarters > 4 * size then quarters - 4 * size else if quarters < 0 then quarters + 4 * size else quarters
  }

  lemma NeighbourColumn(p: Coordinates, step: nat, dy: int, dx: int)
    requires OnMap(p) && 1 <= step <= 26 && -1 <= dx <= 1
    requires InRows(Neighbour(CellArea(CellOf(p, step), step), dy, dx))
    ensures var n := Neighbour(CellArea(CellOf(p, step), step), dy, dx);
      OnMap(n) && Column(n, step) == ReachedColumn(Row(p, step), Pow2(step), dx)
  {
    hide CellOf, CellArea, Pow2, Row, Column, Grid, OnMap, Neighbour, InRows, QuartersEast, Wrapped;
    var n := Neighbour(CellArea(CellOf(p, step), step), dy, dx);
    CellThere(p, step, dy, dx);
    LongitudeOfNeighbour(p, step, dy, dx);
    QuartersInRow(n.longitude, MIN_LONGITUDE, LONGITUDE_RANGE, step,
                  Wrapped(QuartersEast(Row(p, step), Pow2(step), dx), Pow2(step)));
    RowIs(n, step);
  }

  lemma LongitudeOfNeighbour(p: Coordinates, step: nat, dy: int, dx: int)
    requires OnMap(p) && step <= 26 && -1 <= dx <= 1
    ensures var size := Pow2(step);
      4.0 * (Neighbour(CellArea(CellOf(p, step), step), dy, dx).longitude - MIN_LONGITUDE) ==
      Wrapped(QuartersEast(Row(p, step), size, dx), size) as real * (LONGITUDE_RANGE / size as real)
  {
    hide CellOf, CellArea, Neighbour, WrapLongitude, Pow2, Row, QuartersEast, Wrapped;
    AreaIs(p, step);
    var area, r, size := CellArea(CellOf(p, step), step), Row(p, step), Pow2(step);
    LongitudeOf(area, dy, dx);
    EastwardOf(area.minLon, area.maxLon, r, size, dx);
  }

  lemma EastwardOf(minLon: real, maxLon: real, r: nat, size: nat, dx: int)
    requires -1 <= dx <= 1 && size >= 1 && maxLon == LONGITUDE_RANGE / size as real
    requires minLon == MIN_LONGITUDE + r as real * (LONGITUDE_RANGE / size as real)
    ensures 4.0 * (WrapLongitude((minLon + maxLon) / 2.0 + dx as real * (maxLon - minLon)) - MIN_LONGITUDE) ==
      Wrapped(QuartersEast(r, size, dx), size) as real * (LONGITUDE_RANGE / size as real)
  {
    hide WrapLongitude, QuartersEast, Wrapped;
    Eastward(r, size, dx, LONGITUDE_RANGE / size as real, minLon, maxLon);
    WrappedQuarters((minLon + maxLon) / 2.0 + dx as real * (maxLon - minLon), size, QuartersEast(r, size, dx));
  }

  lemma WrappedQuarters(lon: real, size: nat, q: int)
    requires size >= 1 && 4.0 * (lon - MIN_LONGITUDE) == q as real * (LONGITUDE_RANGE / size as real)
    ensures 4.0 * (WrapLongitude(lon) - MIN_LONGITUDE) == Wrapped(q, size) as real * (LONGITUDE_RANGE / size as real)
  {
    var w := LONGITUDE_RANGE / size as real;
    QuartersOnAxis(lon - MIN_LONGITUDE, LONGITUDE_RANGE, size, q);
    assert (4 * size) as real * w == 1440.0 by {
      Positive(LONGITUDE_RANGE, size as real);
    }
    Shifted(q, 4 * size, w);
  }

  lemma LatitudeOf(a: Area, dy: int, dx: int)
    ensures Neighbour(a, dy, dx).latitude == (a.minLat + a.maxLat) / 2.0 + dy as real * (a.maxLat - a.minLat)
  {
  }

  lemma LongitudeOf(a: Area, dy: int, dx: int)
    ensures Neighbour(a, dy, dx).longitude ==
      WrapLongitude((a.minLon + a.maxLon) / 2.0 + dx as real * (a.maxLon - a.minLon))
  {
  }

  lemma Shifted(q: int, full: int, w: real)
    ensures (q - full) as real * w == q as real * w - full as real * w
    ensures (q + full) as real * w == q as real * w + full as real * w
  {
  }

  lemma Eastward(r: nat, size: nat, dx: int, w: real, minLon: real, maxLon: real)
    requires -1 <= dx <= 1 && size >= 1 && w == LONGITUDE_RANGE / size as real
    requires minLon == MIN_LONGITUDE + r as real * w && maxLon == w
    ensures 4.0 * ((minLon + maxLon) / 2.0 + dx as real * (maxLon - minLon) - MIN_LONGITUDE) ==
      QuartersEast(r, size, dx) as real * w
  {
    var s, x := size as real, r as real;
    assert s * w == 360.0;
    if dx == 0 {
      assert (size + 2 * r + 2) as real * w == s * w + 2.0 * (x * w) + 2.0 * w;
    } else if dx == 1 {
      assert dx as real * (maxLon - minLon) == maxLon - minLon;
      assert (3 * size + 6 - 2 * r) as real * w == 3.0 * (s * w) + 6.0 * w - 2.0 * (x * w);
    } else {
      assert dx as real * (maxLon - minLon) == minLon - maxLon;
      assert (6 * r - 2 - size) as real * w == 6.0 * (x * w) - 2.0 * w - s * w;
    }
  }

  /** The cell of `q` is one of those the search visits around `p`. */
  predicate Visited(p: Coordinates, q: Coordinates, step: nat, dy: int, dx: int)
    requires OnMap(p) && OnMap(q) && step <= 26
  {
    && -1 <= dy <= 1 && -1 <= dx <= 1
    && Row(q, step) == Row(p, step) + dy < Pow2(step)
    && Column(q, step) == ReachedColumn(Row(p, step), Pow2(step), dx)
  }

  /** The cells of the search: the position's row and the two beside it, as far as they are on the map, and in
      each the three columns that the row of the position leads to. */
  lemma VisitedIff(p: Coordinates, q: Coordinates, step: nat)
    requires OnMap(p) && OnMap(q) && 1 <= step <= 26
    ensures FoundBy(p, step, 2, -1, CellOf(q, step)) <==> exists dy, dx :: Visited(p, q, step, dy, dx)
  {
    hide CellOf, Row, Column, Pow2, CellArea, Neighbour, OnMap, InRows, ReachedColumn;
    var c := CellOf(q, step);
    forall dy, dx | -1 <= dy <= 1 && -1 <= dx <= 1
      ensures CellAt(p, step, dy, dx, c) <==> Visited(p, q, step, dy, dx)
    {
      VisitedAt(p, q, step, dy, dx);
    }
    hide CellAt, Visited;
    if FoundBy(p, step, 2, -1, c) {
      var y, x :| (-1 <= y <= 1 && -1 <= x <= 1 && (y < 2 || (y == 2 && x < -1))) && CellAt(p, step, y, x, c);
      assert Visited(p, q, step, y, x);
    }
    if dy, dx :| Visited(p, q, step, dy, dx) {
      VisitedNear(p, q, step, dy, dx);
      assert (-1 <= dy <= 1 && -1 <= dx <= 1 && (dy < 2 || (dy == 2 && dx < -1))) && CellAt(p, step, dy, dx, c);
    }
  }

  lemma VisitedNear(p: Coordinates, q: Coordinates, step: nat, dy: int, dx: int)
    requires OnMap(p) && OnMap(q) && step <= 26 && Visited(p, q, step, dy, dx)
    ensures -1 <= dy <= 1 && -1 <= dx <= 1
  {
  }

  lemma VisitedAt(p: Coordinates, q: Coordinates, step: nat, dy: int, dx: int)
    requires OnMap(p) && OnMap(q) && 1 <= step <= 26 && -1 <= dy <= 1 && -1 <= dx <= 1
    ensures CellAt(p, step, dy, dx, CellOf(q, step)) <==> Visited(p, q, step, dy, dx)
  {
    hide CellOf, Pow2, CellArea, Neighbour, OnMap, InRows, ReachedColumn, LatitudeGrid, LongitudeGrid;
    var n := Neighbour(CellArea(CellOf(p, step), step), dy, dx);
    CellThere(p, step, dy, dx);
    NeighbourRow(p, step, dy, dx);
    if InRows(n) {
      NeighbourColumn(p, step, dy, dx);
      SameCell(q, n, step);
    }
  }

  /** The search visits the position's own cell exactly if its column is one of those its row leads to. */
  lemma OwnCellIff(p: Coordinates, step: nat)
    requires OnMap(p) && 1 <= step <= 26
    ensures FoundBy(p, step, 2, -1, CellOf(p, step)) <==>
      && Row(p, step) < Pow2(step)
      && exists dx :: -1 <= dx <= 1 && Column(p, step) == ReachedColumn(Row(p, step), Pow2(step), dx)
  {
    hide CellOf, Row, Column, Pow2, CellArea, Neighbour, OnMap, InRows, ReachedColumn, FoundBy;
    VisitedIff(p, p, step);
    if dx :| -1 <= dx <= 1 && Column(p, step) == ReachedColumn(Row(p, step), Pow2(step), dx) {
      if Row(p, step) < Pow2(step) {
        assert Visited(p, p, step, 0, dx);
      }
    }
  }

  /** On the equator the columns next to the middle are reached, whatever the longitude: a quarter of the way
      round, the search does not visit the cell it starts from. */
  lemma OwnCellMissed(step: nat)
    requires 3 <= step <= 26
    ensures var p := Coordinates(0.0, 90.0); OnMap(p) && !FoundBy(p, step, 2, -1, CellOf(p, step))
  {
    var p := Coordinates(0.0, 90.0);
    MapIs(p);
    hide CellOf, Row, Column, FoundBy, OnMap, ReachedColumn, Pow2;
    EightParts(step);
    QuarterRound(step);
    forall dx | -1 <= dx <= 1 ensures Column(p, step) != ReachedColumn(Row(p, step), Pow2(step), dx) {
      MiddleColumns(Pow2(step), dx);
    }
    OwnCellIff(p, step);
  }

  lemma QuarterRound(step: nat)
    requires 3 <= step <= 26 && OnMap(Coordinates(0.0, 90.0))
    ensures Row(Coordinates(0.0, 90.0), step) == 2 * Pow2(step) / 4
    ensures Column(Coordinates(0.0, 90.0), step) == 3 * Pow2(step) / 4
  {
    RowIs(Coordinates(0.0, 90.0), step);
    hide Row, Column, Grid, Pow2, OnMap;
    QuartersRound(0.0, MIN_LATITUDE, LATITUDE_RANGE, step, 2);
    QuartersRound(90.0, MIN_LONGITUDE, LONGITUDE_RANGE, step, 3);
  }

  lemma QuartersRound(v: real, min: real, range: real, step: nat, n: nat)
    requires range > 0.0 && step <= 26 && 4.0 * (v - min) == n as real * range
    ensures Grid(v, min, range) / Pow2(26 - step) == n * Pow2(step) / 4
  {
    hide Grid, Pow2;
    PartsOf(range, Pow2(step), n);
    QuartersInRow(v, min, range, step, n * Pow2(step));
  }

  lemma PartsOf(range: real, size: nat, n: nat)
    requires size >= 1 && range > 0.0
    ensures (n * size) as real * (range / size as real) == n as real * range
  {
    var s, m := size as real, n as real;
    Positive(range, s);
    assert (n * size) as real == m * s;
    assert m * s * (range / s) == m * (s * (range / s));
  }

  lemma MiddleColumns(size: nat, dx: int)
    requires size >= 8 && size % 8 == 0 && -1 <= dx <= 1
    ensures ReachedColumn(2 * size / 4, size, dx) != 3 * size / 4
  {
  }

  lemma EightParts(step: nat)
    requires step >= 3
    ensures Pow2(step) % 8 == 0 && Pow2(step) >= 8
  {
    var rest := Pow2(step - 3);
    assert Pow2(3) == 8;
    hide Pow2;
    Pow2Sum(3, step - 3);
    assert 8 * rest % 8 == 0;
  }

  /** Around a position at 48.8534 degrees north the search visits rows 805 to 807 of 1024, and in each of them
      columns 952, 659 and 366, whatever the longitude. */
  lemma ColumnsOfARow(p: Coordinates)
    requires OnMap(p) && p.latitude == 48.8534
    ensures Row(p, 10) == 806 && Pow2(10) == 1024
    ensures ReachedColumn(806, 1024, -1) == 952
    ensures ReachedColumn(806, 1024, 0) == 659 && ReachedColumn(806, 1024, 1) == 366
  {
    assert Pow2(5) == 32 && Pow2(10) == 1024;
    RowIs(p, 10);
    hide Row, Grid, OnMap, Pow2;
    BetweenEdges(48.8534, MIN_LATITUDE, LATITUDE_RANGE, 10, 806);
  }

  /** The map, in degrees. */
  lemma MapIs(p: Coordinates)
    ensures OnMap(p) <==> -85.05112878 <= p.latitude <= 85.05112878 && -180.0 <= p.longitude <= 180.0
    ensures InRows(p) <==> -85.05112878 <= p.latitude <= 85.05112878
  {
  }
}

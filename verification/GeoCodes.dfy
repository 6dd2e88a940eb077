/** Positions as geo codes, over exact reals. */
module GeoCodes {
  import opened BitNumbers
  import opened GeoBits
  import opened CellWindows

  const CELLS: nat := 67108864
  const MIN_LATITUDE: real := -85.05112878
  const MAX_LATITUDE: real := 85.05112878
  const LATITUDE_RANGE: real := MAX_LATITUDE - MIN_LATITUDE
  const MIN_LONGITUDE: real := -180.0
  const MAX_LONGITUDE: real := 180.0
  const LONGITUDE_RANGE: real := MAX_LONGITUDE - MIN_LONGITUDE

  datatype Coordinates = Coordinates(latitude: real, longitude: real)

  /** The positions GEOADD admits. */
  predicate OnMap(p: Coordinates)
  {
    MIN_LATITUDE <= p.latitude <= MAX_LATITUDE && MIN_LONGITUDE <= p.longitude <= MAX_LONGITUDE
  }

  /** How many whole cells of a range lie below a value. */
  function Grid(v: real, min: real, range: real): int
    requires range > 0.0
  {
    (CELLS as real * (v - min) / range).Floor
  }

  /** The middle of a cell. */
  function CellCentre(g: bv32, min: real, range: real): real
  {
    var low := min + range * (Number32(g) as real / CELLS as real);
    var high := min + range * (Number32(g + 1) as real / CELLS as real);
    (low + high) / 2.0
  }

  function CellWidth(range: real): real
  {
    range / CELLS as real
  }

  /** The grid number counts whole cell widths. */
  lemma GridCounts(v: real, min: real, range: real, g: int)
    requires range > 0.0
    ensures CellWidth(range) > 0.0 && CELLS as real * CellWidth(range) == range
    ensures g == Grid(v, min, range) <==>
      g as real * CellWidth(range) <= v - min < g as real * CellWidth(range) + CellWidth(range)
  {
    var c, u, d := CELLS as real, CellWidth(range), v - min;
    var t := c * d / range;
    Positive(range, c);
    Scaled(d, range, c, t);
    FloorScaled(d, u, t, g);
  }

  lemma FloorScaled(d: real, u: real, t: real, g: int)
    requires u > 0.0 && t * u == d
    ensures g == t.Floor <==> g as real * u <= d < g as real * u + u
  {
    FloorIs(t, g);
    BetweenScaled(d, u, t, g as real);
  }

  lemma BetweenScaled(d: real, u: real, t: real, x: real)
    requires u > 0.0 && t * u == d
    ensures x <= t < x + 1.0 <==> x * u <= d < x * u + u
  {
    var over, under := t - x, x + 1.0 - t;
    assert over * u == d - x * u;
    assert under * u == x * u + u - d;
    SignScaled(over, u);
    SignScaled(under, u);
  }

  lemma SignScaled(x: real, u: real)
    requires u > 0.0
    ensures x > 0.0 <==> x * u > 0.0
    ensures x >= 0.0 <==> x * u >= 0.0
  {
  }

  lemma FloorIs(t: real, g: int)
    ensures g == t.Floor <==> g as real <= t < g as real + 1.0
  {
  }

  lemma Positive(range: real, c: real)
    requires range > 0.0 && c > 0.0
    ensures range / c > 0.0 && c * (range / c) == range
  {
  }

  lemma Scaled(d: real, range: real, c: real, t: real)
    requires c > 0.0 && range > 0.0 && t == c * d / range
    ensures t * (range / c) == d
  {
    var u := range / c;
    assert u * c == range && t * range == c * d;
    assert (t * u - d) * c == 0.0;
  }

  lemma Ordered(x: real, t: real, u: real)
    requires u > 0.0
    ensures x <= t <==> x * u <= t * u
  {
    assert (t - x) * u == t * u - x * u;
    assert t - x >= 0.0 <==> (t - x) * u >= 0.0;
  }

  lemma OrderedNext(x: real, t: real, u: real)
    requires u > 0.0
    ensures t < x + 1.0 <==> t * u < x * u + u
  {
    Ordered(x + 1.0, t, u);
    assert (x + 1.0) * u == x * u + u;
  }

  lemma GridInRange(v: real, min: real, range: real)
    requires range > 0.0 && min <= v <= min + range
    ensures 0 <= Grid(v, min, range) <= CELLS
    ensures Grid(v, min, range) == CELLS <==> v == min + range
  {
    var g, u := Grid(v, min, range), CellWidth(range);
    GridCounts(v, min, range, g);
    hide Grid, CellWidth;
    var c: real := CELLS as real;
    OrderedNext(g as real, 0.0, u);
    OrderedNext(g as real, c, u);
    Ordered(g as real, c, u);
    assert g == CELLS ==> g as real * u == c * u;
  }

  function LatitudeGrid(p: Coordinates): (g: nat)
    requires OnMap(p)
    ensures g <= CELLS
  {
    GridInRange(p.latitude, MIN_LATITUDE, LATITUDE_RANGE);
    Grid(p.latitude, MIN_LATITUDE, LATITUDE_RANGE)
  }

  function LongitudeGrid(p: Coordinates): (g: nat)
    requires OnMap(p)
    ensures g <= CELLS
  {
    GridInRange(p.longitude, MIN_LONGITUDE, LONGITUDE_RANGE);
    Grid(p.longitude, MIN_LONGITUDE, LONGITUDE_RANGE)
  }

  function GeoScoreEncode(p: Coordinates): bv64
    requires OnMap(p)
  {
    Interleave(Word32(LatitudeGrid(p)), Word32(LongitudeGrid(p)))
  }

  function GeoScoreDecode(code: bv64): Coordinates
  {
    Coordinates(CellCentre(Compact(code), MIN_LATITUDE, LATITUDE_RANGE),
                CellCentre(Compact(code >> 1), MIN_LONGITUDE, LONGITUDE_RANGE))
  }

  // ---------------------------------------------------------------- one axis

  lemma Powers()
    ensures Pow2(16) == 65536 && Pow2(26) == CELLS && Pow2(32) == 4294967296
  {
    assert Pow2(8) == 256;
    assert Pow2(12) == 4096;
    assert Pow2(16) == 65536;
    assert Pow2(20) == 1048576;
    assert Pow2(24) == 16777216;
    assert Pow2(28) == 268435456;
  }

  lemma CentreIs(n: nat, min: real, range: real)
    requires n <= CELLS
    ensures CellCentre(Word32(n), min, range) == min + n as real * CellWidth(range) + 0.5 * CellWidth(range)
  {
    hide Number32, Word32, Pow2;
    Powers();
    Number32OfWord(n);
    WordNotLast(n);
    Number32OfNext(Word32(n));
    Middle(n as real, min, range, CELLS as real);
  }

  lemma Middle(x: real, min: real, range: real, c: real)
    requires c > 0.0
    ensures (min + range * (x / c) + (min + range * ((x + 1.0) / c))) / 2.0 == min + x * (range / c) + 0.5 * (range / c)
  {
    var u := range / c;
    Unit(x, range, c);
    Unit(x + 1.0, range, c);
    assert (x + 1.0) * u == x * u + u;
  }

  lemma Unit(x: real, range: real, c: real)
    requires c > 0.0
    ensures range * (x / c) == x * (range / c)
  {
    var a, u := x / c, range / c;
    assert a * c == x && u * c == range;
    assert range * a == u * c * a == u * x;
  }

  lemma WordNotLast(n: nat)
    requires n <= CELLS
    ensures Word32(n) != 0xFFFF_FFFF
  {
    if Word32(n) == 0xFFFF_FFFF {
      Powers();
      Number32OfWord(n);
      LastWord();
    }
  }

  lemma LastWord()
    ensures Number32(0xFFFF_FFFF) > CELLS
  {
    hide Number32, Word32;
    Powers();
    var last := Word32(4294967295);
    Number32OfWord(4294967295);
    assert AtMost32(last, 0xFFFF_FFFF);
    Number32Monotone(last, 0xFFFF_FFFF);
  }

  /** Decoding a cell errs by at most half of it. */
  lemma CentreError(v: real, min: real, range: real)
    requires range > 0.0 && min <= v <= min + range
    ensures 0 <= Grid(v, min, range) <= CELLS
    ensures -range / 134217728.0 <= CellCentre(Word32(Grid(v, min, range)), min, range) - v <= range / 134217728.0
  {
    hide Word32, CellCentre, Grid;
    GridInRange(v, min, range);
    var n: nat := Grid(v, min, range);
    GridCounts(v, min, range, n);
    CentreIs(n, min, range);
  }

  /** The centre of a cell lies in that cell. */
  lemma GridOfCentre(n: nat, min: real, range: real)
    requires range > 0.0 && n <= CELLS
    ensures Grid(CellCentre(Word32(n), min, range), min, range) == n
  {
    hide Word32, CellCentre, Grid;
    CentreIs(n, min, range);
    GridCounts(CellCentre(Word32(n), min, range), min, range, n);
    hide CellWidth;
  }

  // ---------------------------------------------------------------- codes

  lemma DecodeOfEncode(p: Coordinates)
    requires OnMap(p)
    ensures GeoScoreDecode(GeoScoreEncode(p)) ==
      Coordinates(CellCentre(Word32(LatitudeGrid(p)), MIN_LATITUDE, LATITUDE_RANGE),
                  CellCentre(Word32(LongitudeGrid(p)), MIN_LONGITUDE, LONGITUDE_RANGE))
  {
    CompactInterleave(Word32(LatitudeGrid(p)), Word32(LongitudeGrid(p)));
    hide Compact, Interleave, Word32, CellCentre, LatitudeGrid, LongitudeGrid;
  }

  /** A stored position comes back within half a cell on each axis. */
  lemma StoredPositionError(p: Coordinates)
    requires OnMap(p)
    ensures var q := GeoScoreDecode(GeoScoreEncode(p));
      && -LATITUDE_RANGE / 134217728.0 <= q.latitude - p.latitude <= LATITUDE_RANGE / 134217728.0
      && -LONGITUDE_RANGE / 134217728.0 <= q.longitude - p.longitude <= LONGITUDE_RANGE / 134217728.0
  {
    hide GeoScoreDecode, GeoScoreEncode, CellCentre, Word32, Grid;
    DecodeOfEncode(p);
    CentreError(p.latitude, MIN_LATITUDE, LATITUDE_RANGE);
    CentreError(p.longitude, MIN_LONGITUDE, LONGITUDE_RANGE);
  }

  /** What a stored position comes back as is itself on the map exactly when the position was not on the
      northern or eastern edge; there, the cell is the one beyond the last. */
  lemma DecodedOnMap(p: Coordinates)
    requires OnMap(p)
    ensures OnMap(GeoScoreDecode(GeoScoreEncode(p))) <==> p.latitude < MAX_LATITUDE && p.longitude < MAX_LONGITUDE
  {
    hide GeoScoreDecode, GeoScoreEncode, CellCentre, Word32, Grid;
    DecodeOfEncode(p);
    GridInRange(p.latitude, MIN_LATITUDE, LATITUDE_RANGE);
    GridInRange(p.longitude, MIN_LONGITUDE, LONGITUDE_RANGE);
    CentreOnAxis(LatitudeGrid(p), MIN_LATITUDE, LATITUDE_RANGE);
    CentreOnAxis(LongitudeGrid(p), MIN_LONGITUDE, LONGITUDE_RANGE);
  }

  /** Every cell's centre is on the map and is stored under that cell's code. */
  lemma CodeOfCentre(m: nat, n: nat)
    requires m < CELLS && n < CELLS
    ensures var p := GeoScoreDecode(Interleave(Word32(m), Word32(n)));
      OnMap(p) && GeoScoreEncode(p) == Interleave(Word32(m), Word32(n))
  {
    CompactInterleave(Word32(m), Word32(n));
    hide CellCentre, Word32, Grid, Interleave, Compact;
    GridOfCentre(m, MIN_LATITUDE, LATITUDE_RANGE);
    GridOfCentre(n, MIN_LONGITUDE, LONGITUDE_RANGE);
    CentreOnAxis(m, MIN_LATITUDE, LATITUDE_RANGE);
    CentreOnAxis(n, MIN_LONGITUDE, LONGITUDE_RANGE);
  }

  lemma CentreOnAxis(n: nat, min: real, range: real)
    requires range > 0.0 && n <= CELLS
    ensures min <= CellCentre(Word32(n), min, range)
    ensures CellCentre(Word32(n), min, range) <= min + range <==> n < CELLS
  {
    hide Word32, CellCentre;
    CentreIs(n, min, range);
    GridCounts(min, min, range, 0);
    hide CellWidth;
    var u, c: real := CellWidth(range), CELLS as real;
    Ordered(0.0, n as real, u);
    Ordered(n as real + 1.0, c, u);
    assert (n as real + 1.0) * u == n as real * u + u;
    assert n == CELLS ==> n as real * u == c * u;
  }

  /** Storing a decoded position again gives the same code. */
  lemma ReencodeIsStable(p: Coordinates)
    requires OnMap(p) && p.latitude < MAX_LATITUDE && p.longitude < MAX_LONGITUDE
    ensures OnMap(GeoScoreDecode(GeoScoreEncode(p)))
    ensures GeoScoreEncode(GeoScoreDecode(GeoScoreEncode(p))) == GeoScoreEncode(p)
  {
    GridInRange(p.latitude, MIN_LATITUDE, LATITUDE_RANGE);
    GridInRange(p.longitude, MIN_LONGITUDE, LONGITUDE_RANGE);
    hide GeoScoreDecode, Word32, Grid, Interleave;
    CodeOfCentre(LatitudeGrid(p), LongitudeGrid(p));
  }

  // ---------------------------------------------------------------- cells of a given step

  /** The cell of a position: its code without the last bits. */
  function CellOf(p: Coordinates, step: nat): bv64
    requires OnMap(p) && step <= 26
  {
    Shr(GeoScoreEncode(p), 52 - 2 * step)
  }

  /** Two positions share a cell exactly when they share its row and its column. */
  lemma SameCell(p: Coordinates, q: Coordinates, step: nat)
    requires OnMap(p) && OnMap(q) && step <= 26
    ensures CellOf(p, step) == CellOf(q, step) <==>
      && LatitudeGrid(p) / Pow2(26 - step) == LatitudeGrid(q) / Pow2(26 - step)
      && LongitudeGrid(p) / Pow2(26 - step) == LongitudeGrid(q) / Pow2(26 - step)
  {
    hide Interleave, LatitudeGrid, LongitudeGrid, Shr32, Shr, Word32, Pow2;
    var k := 26 - step;
    var a, b, c, d := Word32(LatitudeGrid(p)), Word32(LongitudeGrid(p)), Word32(LatitudeGrid(q)),
      Word32(LongitudeGrid(q));
    assert 52 - 2 * step == 2 * k;
    ShiftMany(a, b, k);
    ShiftMany(c, d, k);
    InterleaveInjective(Shr32(a, k), Shr32(b, k), Shr32(c, k), Shr32(d, k));
    SameRow(LatitudeGrid(p), LatitudeGrid(q), k);
    SameRow(LongitudeGrid(p), LongitudeGrid(q), k);
  }

  lemma SameRow(m: nat, n: nat, k: nat)
    requires m <= CELLS && n <= CELLS && k <= 32
    ensures Shr32(Word32(m), k) == Shr32(Word32(n), k) <==> m / Pow2(k) == n / Pow2(k)
  {
    Powers();
    Number32OfWord(m);
    Number32OfWord(n);
    Number32Shifted(Word32(m), k);
    Number32Shifted(Word32(n), k);
    if m / Pow2(k) == n / Pow2(k) {
      Number32Injective(Shr32(Word32(m), k), Shr32(Word32(n), k));
    }
  }

  /** The number of a code's cell is the cell of its number: searching by score windows of `4^k` consecutive
      codes finds what shifting the codes would. */
  lemma CellNumber(p: Coordinates, step: nat)
    requires OnMap(p) && step <= 26
    ensures Number(CellOf(p, step), 12 + 2 * step) == CellOfCode(Number(GeoScoreEncode(p), 64), Pow2(52 - 2 * step))
  {
    NumberShifted(GeoScoreEncode(p), 52 - 2 * step, 64);
  }
}

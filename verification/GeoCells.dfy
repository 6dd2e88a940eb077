/** The cells a radius search visits: how coarse they are, which ones, and that each is visited once. */
module GeoCells {
  import opened BitNumbers
  import opened GeoBits
  import opened GeoCodes
  import opened SkipListOrder
  import opened CellWindows

  // ---------------------------------------------------------------- the step

  const MERCATOR_MAX: real := 20037726.37

  /** How often a radius must double to reach the end of the map. */
  function Doublings(radius: real): (n: nat)
    requires radius > 0.0
    decreases (MERCATOR_MAX / radius).Floor
  {
    if radius < MERCATOR_MAX then
      RatioHalves(radius);
      1 + Doublings(radius * 2.0)
    else 0
  }

  lemma RatioHalves(radius: real)
    requires 0.0 < radius < MERCATOR_MAX
    ensures 0 <= (MERCATOR_MAX / (radius * 2.0)).Floor < (MERCATOR_MAX / radius).Floor
  {
    var q := MERCATOR_MAX / radius;
    assert q * radius == MERCATOR_MAX;
    assert q > 1.0 by {
      assert (q - 1.0) * radius > 0.0;
    }
    var h := MERCATOR_MAX / (radius * 2.0);
    assert h * (radius * 2.0) == MERCATOR_MAX;
    assert (2.0 * h - q) * radius == 0.0;
  }

  function Clamp(n: int): (c: nat)
    ensures 1 <= c <= 26
  {
    if n < 1 then 1 else if n > 26 then 26 else n
  }

  /** One step coarser beyond 66 degrees, one more beyond 80. */
  function PolarSteps(lat: real): nat
  {
    if lat > 80.0 || lat < -80.0 then 2 else if lat > 66.0 || lat < -66.0 then 1 else 0
  }

  /** Away from the equator by more than 66 degrees, and by more than 80. */
  lemma PolarStepsAre(lat: real)
    ensures PolarSteps(lat) == 0 <==> -66.0 <= lat <= 66.0
    ensures PolarSteps(lat) == 2 <==> lat < -80.0 || lat > 80.0
    ensures PolarSteps(lat) <= 2
  {
  }

  /** The nearest number from 1 to 26. */
  lemma ClampIsNearest(n: int, other: int)
    requires 1 <= other <= 26
    ensures n <= Clamp(n) <= other || other <= Clamp(n) <= n
  {
  }

  method GeoSearchEstimateSteps(radius: real, lat: real) returns (r: nat)
    requires radius >= 0.0
    ensures 1 <= r <= 26
    ensures radius == 0.0 ==> r == 26
    ensures radius > 0.0 ==> r == Clamp(Doublings(radius) - 1 - PolarSteps(lat))
  {
    if radius == 0.0 {
      return 26;
    }
    var step: int := 1;
    var reach := radius;
    while reach < MERCATOR_MAX
      invariant reach > 0.0
      invariant step - 1 + Doublings(reach) == Doublings(radius)
      decreases (MERCATOR_MAX / reach).Floor
    {
      RatioHalves(reach);
      reach := reach * 2.0;
      step := step + 1;
    }
    step := step - 2;
    if lat > 66.0 || lat < -66.0 {
      step := step - 1;
      if lat > 80.0 || lat < -80.0 {
        step := step - 1;
      }
    }
    if step < 1 {
      step := 1;
    }
    if step > 26 {
      step := 26;
    }
    return step;
  }

  /** The step is fine enough for the radius and no finer: away from the clamps, a radius doubled once for each
      step spans the map for the first time with one doubling more. */
  lemma {:induction false} DoublingsExact(radius: real, n: nat)
    requires radius > 0.0
    ensures Doublings(radius) <= n <==> radius * Pow2(n) as real >= MERCATOR_MAX
    decreases n
  {
    if n == 0 {
      assert Pow2(0) as real == 1.0;
    } else {
      DoublingsExact(radius * 2.0, n - 1);
      assert Pow2(n) as real == 2.0 * Pow2(n - 1) as real;
      var p := Pow2(n - 1) as real;
      assert radius * (2.0 * p) == radius * 2.0 * p;
      if radius >= MERCATOR_MAX {
        assert radius * 2.0 * p >= radius * 2.0;
      }
    }
  }

  /** The end of the map, in metres, and the doublings for a radius of 100 kilometres. */
  lemma SomeDoublings()
    ensures Doublings(20037726.37) == 0 && Doublings(20037726.36) == 1 && Doublings(100000.0) == 8
  {
    assert Pow2(7) == 128 && Pow2(8) == 256;
    DoublingsExact(100000.0, 7);
    DoublingsExact(100000.0, 8);
  }

  // ---------------------------------------------------------------- the neighbour cells

  datatype Area = Area(minLat: real, maxLat: real, minLon: real, maxLon: real)

  /** The rectangle of a cell as the code computes it: both corners from the latitude bits, and a greatest
      longitude that is a width, not a position. */
  function CellArea(cell: bv64, step: nat): Area
    requires step <= 26
  {
    var full := Shl(cell, 52 - 2 * step);
    var latGrid := Number32(Compact(full)) as real;
    var lonGrid := Number32(Compact(full)) as real;
    var minLat := MIN_LATITUDE + latGrid * LATITUDE_RANGE / CELLS as real;
    var minLon := MIN_LONGITUDE + lonGrid * LONGITUDE_RANGE / CELLS as real;
    var size := Pow2(step) as real;
    Area(minLat, minLat + LATITUDE_RANGE / size, minLon, LONGITUDE_RANGE / size)
  }

  function WrapLongitude(lon: real): real
  {
    if lon > 180.0 then lon - 360.0 else if lon < -180.0 then lon + 360.0 else lon
  }

  /** The point one cell's height and width away, as often as `dy` and `dx` say. */
  function Neighbour(a: Area, dy: int, dx: int): Coordinates
  {
    Coordinates((a.minLat + a.maxLat) / 2.0 + dy as real * (a.maxLat - a.minLat),
                WrapLongitude((a.minLon + a.maxLon) / 2.0 + dx as real * (a.maxLon - a.minLon)))
  }

  predicate InRows(p: Coordinates)
  {
    MIN_LATITUDE <= p.latitude <= MIN_LATITUDE + LATITUDE_RANGE
  }

  /** Where a cell's first corner lies. */
  ghost predicate CornerOnMap(a: Area)
  {
    -180.0 <= a.minLon <= 180.0 && 0.0 < a.maxLon <= 180.0
  }

  /** However the longitude is moved, it is brought back onto the map. */
  lemma NeighbourOnMap(a: Area, dy: int, dx: int)
    requires CornerOnMap(a) && -1 <= dx <= 1
    ensures OnMap(Neighbour(a, dy, dx)) <==> InRows(Neighbour(a, dy, dx))
  {
    if dx == -1 {
      assert dx as real * (a.maxLon - a.minLon) == a.minLon - a.maxLon;
    } else if dx == 0 {
      assert dx as real * (a.maxLon - a.minLon) == 0.0;
    } else {
      assert dx as real * (a.maxLon - a.minLon) == a.maxLon - a.minLon;
    }
  }

  /** Clearing a code's low bits leaves its corner on the map. */
  lemma ClearedGrid(p: Coordinates, step: nat)
    requires OnMap(p) && step <= 26
    ensures Number32(Compact(Shl(CellOf(p, step), 52 - 2 * step))) <= LatitudeGrid(p)
  {
    hide Compact, Interleave, Word32, Number32, LatitudeGrid, LongitudeGrid, Shl, Shr;
    var x, y, k := Word32(LatitudeGrid(p)), Word32(LongitudeGrid(p)), 26 - step;
    assert 52 - 2 * step == 2 * k;
    ShiftMany(x, y, k);
    CompactInterleave(Shr32(x, k), Shr32(y, k));
    CompactShiftedLeft(Interleave(Shr32(x, k), Shr32(y, k)), k);
    ClearedBelow(x, k);
    Number32Monotone(Shl32(Shr32(x, k), k), x);
    Powers();
    Number32OfWord(LatitudeGrid(p));
  }

  lemma CornerIsOnMap(p: Coordinates, step: nat)
    requires OnMap(p) && 1 <= step <= 26
    ensures CornerOnMap(CellArea(CellOf(p, step), step))
  {
    hide CellOf, Shl, Compact, Number32;
    ClearedGrid(p, step);
    var g := Number32(Compact(Shl(CellOf(p, step), 52 - 2 * step)));
    assert g <= CELLS;
    SizeBound(step);
    Fraction(LONGITUDE_RANGE, Pow2(step) as real);
  }

  lemma SizeBound(step: nat)
    requires step >= 1
    ensures Pow2(step) >= 2
  {
  }

  lemma Fraction(range: real, size: real)
    requires range > 0.0 && size >= 2.0
    ensures 0.0 < range / size <= range / 2.0
  {
    var f := range / size;
    assert f * size == range;
    assert f > 0.0;
    assert f * 2.0 <= f * size;
  }

  /** The cell next to a position's, if it lies in the rows of the map. */
  predicate CellAt(p: Coordinates, step: nat, dy: int, dx: int, c: bv64)
    requires OnMap(p) && 1 <= step <= 26 && -1 <= dx <= 1
  {
    CornerIsOnMap(p, step);
    var n := Neighbour(CellArea(CellOf(p, step), step), dy, dx);
    NeighbourOnMap(CellArea(CellOf(p, step), step), dy, dx);
    InRows(n) && c == CellOf(n, step)
  }

  ghost predicate Distinct<T(!new)>(cs: seq<T>)
  {
    forall a, b :: 0 <= a < b < |cs| ==> cs[a] != cs[b]
  }

  lemma DistinctEmpty(cs: seq<bv64>)
    requires cs == []
    ensures Distinct(cs)
  {
  }

  /** The one cell a direction contributes, or none from a row beyond the map. */
  lemma CellThere(p: Coordinates, step: nat, dy: int, dx: int)
    requires OnMap(p) && 1 <= step <= 26 && -1 <= dx <= 1
    ensures var n := Neighbour(CellArea(CellOf(p, step), step), dy, dx);
      && (OnMap(n) <==> InRows(n))
      && (InRows(n) ==> forall c :: CellAt(p, step, dy, dx, c) <==> c == CellOf(n, step))
      && (!InRows(n) ==> forall c :: !CellAt(p, step, dy, dx, c))
  {
    hide CellArea, OnMap, CellOf;
    CornerIsOnMap(p, step);
    NeighbourOnMap(CellArea(CellOf(p, step), step), dy, dx);
  }

  /** Found in a row before `dy`, or in row `dy` before `dx`. */
  ghost predicate FoundBy(p: Coordinates, step: nat, dy: int, dx: int, c: bv64)
    requires OnMap(p) && 1 <= step <= 26
  {
    exists y, x :: (-1 <= y <= 1 && -1 <= x <= 1 && (y < dy || (y == dy && x < dx))) && CellAt(p, step, y, x, c)
  }

  lemma FoundNext(p: Coordinates, step: nat, dy: int, dx: int)
    requires OnMap(p) && 1 <= step <= 26 && -1 <= dy <= 1 && -1 <= dx <= 1
    ensures forall c :: FoundBy(p, step, dy, dx + 1, c) <==> FoundBy(p, step, dy, dx, c) || CellAt(p, step, dy, dx, c)
  {
    hide CellAt, OnMap;
    forall c | CellAt(p, step, dy, dx, c) ensures FoundBy(p, step, dy, dx + 1, c) {
    }
    forall c | FoundBy(p, step, dy, dx, c) ensures FoundBy(p, step, dy, dx + 1, c) {
      var y, x :| (-1 <= y <= 1 && -1 <= x <= 1 && (y < dy || (y == dy && x < dx))) && CellAt(p, step, y, x, c);
      assert y < dy || (y == dy && x < dx + 1);
    }
    forall c | FoundBy(p, step, dy, dx + 1, c) ensures FoundBy(p, step, dy, dx, c) || CellAt(p, step, dy, dx, c) {
      var y, x :| (-1 <= y <= 1 && -1 <= x <= 1 && (y < dy || (y == dy && x < dx + 1))) && CellAt(p, step, y, x, c);
      assert (y == dy && x == dx) || (y < dy || (y == dy && x < dx));
    }
  }

  lemma FoundRow(p: Coordinates, step: nat, dy: int)
    requires OnMap(p) && 1 <= step <= 26 && -1 <= dy <= 1
    ensures forall c :: FoundBy(p, step, dy + 1, -1, c) <==> FoundBy(p, step, dy, 2, c)
  {
    hide CellAt, OnMap;
    forall c | FoundBy(p, step, dy, 2, c) ensures FoundBy(p, step, dy + 1, -1, c) {
      var y, x :| (-1 <= y <= 1 && -1 <= x <= 1 && (y < dy || (y == dy && x < 2))) && CellAt(p, step, y, x, c);
      assert y < dy + 1;
    }
    forall c | FoundBy(p, step, dy + 1, -1, c) ensures FoundBy(p, step, dy, 2, c) {
      var y, x :| (-1 <= y <= 1 && -1 <= x <= 1 && (y < dy + 1 || (y == dy + 1 && x < -1))) && CellAt(p, step, y, x, c);
      assert y < dy || (y == dy && x < 2);
    }
  }

  lemma FoundNone(p: Coordinates, step: nat)
    requires OnMap(p) && 1 <= step <= 26
    ensures forall c :: !FoundBy(p, step, -1, -1, c)
  {
  }

  /** Visiting one direction of a row on the map adds its cell. */
  lemma FoundVisit(p: Coordinates, step: nat, dy: int, dx: int, n: Coordinates, next: int)
    requires next == dx + 1
    requires OnMap(p) && 1 <= step <= 26 && -1 <= dy <= 1 && -1 <= dx <= 1
    requires n == Neighbour(CellArea(CellOf(p, step), step), dy, dx) && InRows(n)
    ensures OnMap(n)
    ensures forall c :: FoundBy(p, step, dy, next, c) <==> FoundBy(p, step, dy, dx, c) || c == CellOf(n, step)
  {
    hide FoundBy, CellArea, CellOf, OnMap, CellAt;
    CellThere(p, step, dy, dx);
    FoundNext(p, step, dy, dx);
    forall c: bv64 ensures FoundBy(p, step, dy, next, c) <==> FoundBy(p, step, dy, dx, c) || c == CellOf(n, step) {
      assert CellAt(p, step, dy, dx, c) <==> c == CellOf(n, step);
    }
  }

  /** A row beyond the map has no cells. */
  lemma RowSkipped(p: Coordinates, step: nat, dy: int)
    requires OnMap(p) && 1 <= step <= 26 && -1 <= dy <= 1
    requires !InRows(Neighbour(CellArea(CellOf(p, step), step), dy, 0))
    ensures forall c :: FoundBy(p, step, dy + 1, -1, c) <==> FoundBy(p, step, dy, -1, c)
  {
    hide FoundBy, CellArea, CellOf, OnMap, CellAt;
    CellThere(p, step, dy, -1);
    CellThere(p, step, dy, 0);
    CellThere(p, step, dy, 1);
    FoundNext(p, step, dy, -1);
    FoundNext(p, step, dy, 0);
    FoundNext(p, step, dy, 1);
    FoundRow(p, step, dy);
  }

  /** Keep a cell unless it was kept before. */
  method Keep(cells: seq<bv64>, seen: set<bv64>, c: bv64) returns (cells': seq<bv64>, seen': set<bv64>)
    requires Distinct(cells) && forall x :: x in seen <==> x in cells
    ensures Distinct(cells') && forall x :: x in seen' <==> x in cells'
    ensures forall x :: x in cells' <==> x in cells || x == c
  {
    cells', seen' := cells, seen;
    if c !in seen {
      seen' := seen + {c};
      cells' := cells + [c];
    }
  }

  method GeoSearchGetNeighborCells(lon: real, lat: real, step: nat) returns (cells: seq<bv64>)
    requires OnMap(Coordinates(lat, lon)) && 1 <= step <= 26
    ensures Distinct(cells)
    ensures forall c :: c in cells <==> FoundBy(Coordinates(lat, lon), step, 2, -1, c)
  {
    hide CellOf, CellArea, FoundBy, Distinct, OnMap, CellAt;
    ghost var p := Coordinates(lat, lon);
    var cell := CellOf(Coordinates(lat, lon), step);
    var area := CellArea(cell, step);
    var h, w := area.maxLat - area.minLat, area.maxLon - area.minLon;
    var cLat, cLon := (area.minLat + area.maxLat) / 2.0, (area.minLon + area.maxLon) / 2.0;
    var seen: set<bv64> := {};
    cells := [];
    DistinctEmpty(cells);
    FoundNone(p, step);
    var dy := -1;
    while dy <= 1
      invariant -1 <= dy <= 2
      invariant Distinct(cells)
      invariant forall c :: c in seen <==> c in cells
      invariant forall c :: c in cells <==> FoundBy(p, step, dy, -1, c)
    {
      var nLat := cLat + dy as real * h;
      if nLat < MIN_LATITUDE || nLat > MIN_LATITUDE + LATITUDE_RANGE {
        assert nLat == Neighbour(area, dy, 0).latitude;
        RowSkipped(p, step, dy);
        dy := dy + 1;
        continue;
      }
      var dx := -1;
      while dx <= 1
        invariant -1 <= dx <= 2
        invariant Distinct(cells)
        invariant forall c :: c in seen <==> c in cells
        invariant forall c :: c in cells <==> FoundBy(p, step, dy, dx, c)
      {
        var nLon := cLon + dx as real * w;
        if nLon > 180.0 {
          nLon := nLon - 360.0;
        } else if nLon < -180.0 {
          nLon := nLon + 360.0;
        }
        FoundVisit(p, step, dy, dx, Coordinates(nLat, nLon), dx + 1);
        var c := CellOf(Coordinates(nLat, nLon), step);
        cells, seen := Keep(cells, seen, c);
        dx := dx + 1;
      }
      FoundRow(p, step, dy);
      dy := dy + 1;
    }
  }

  // ---------------------------------------------------------------- the search windows

  function Numbers(cells: seq<bv64>): (ns: seq<nat>)
    ensures |ns| == |cells| && forall i :: 0 <= i < |cells| ==> ns[i] == Number(cells[i], 64)
  {
    seq(|cells|, i requires 0 <= i < |cells| => Number(cells[i], 64))
  }

  lemma SameNumber(c: bv64, d: bv64)
    ensures Number(c, 64) == Number(d, 64) <==> c == d
  {
    AllGone(c);
    AllGone(d);
    hide Number, Shr;
    if Number(c, 64) == Number(d, 64) {
      NumberInjective(c, d, 64);
    }
  }

  /** A code's cell is one of those visited exactly if its leading bits are. */
  lemma CodeInCells(code: bv64, shift: nat, cells: seq<bv64>)
    requires shift <= 64
    ensures CellOfCode(Number(code, 64), Pow2(shift)) in Numbers(cells) <==> Shr(code, shift) in cells
  {
    hide Number, Shr, Pow2;
    NumberShifted(code, shift, 64);
    AllGone(code);
    ShrTwice(code, shift, 64 - shift);
    NumberPadded(Shr(code, shift), 64 - shift, shift);
    var n := Number(Shr(code, shift), 64);
    assert CellOfCode(Number(code, 64), Pow2(shift)) == n;
    forall i | 0 <= i < |cells| ensures Numbers(cells)[i] == n <==> cells[i] == Shr(code, shift) {
      SameNumber(cells[i], Shr(code, shift));
    }
  }

  /** Walking the windows of distinct cells meets each member exactly once if the leading bits of its code are
      one of the cells and it passes the filter, and not at all otherwise. */
  lemma EachVisitedOnce(ks: seq<Key>, i: nat, code: bv64, shift: nat, cells: seq<bv64>, near: real -> bool)
    requires i < |ks| && MembersDistinct(ks) && ks[i].score == Number(code, 64) as real && shift <= 64
    requires Distinct(cells)
    ensures multiset(CellMembers(ks, Numbers(cells), Pow2(shift), near))[ks[i].member] ==
      if Shr(code, shift) in cells && near(ks[i].score) then 1 else 0
  {
    hide Number, Shr, Pow2, CellMembers, CellOfCode, MembersDistinct;
    CodeInCells(code, shift, cells);
    forall a, b | 0 <= a < b < |cells| ensures Numbers(cells)[a] != Numbers(cells)[b] {
      SameNumber(cells[a], cells[b]);
    }
    CellsVisitOnce(ks, i, Number(code, 64), Numbers(cells), Pow2(shift), near);
  }

  /** The bounds computed by shifting a cell and its successor left are those of the cell's window. */
  lemma WindowBounds(cell: bv64, shift: nat)
    requires (Number(cell, 64) + 1) * Pow2(shift) < Pow2(64)
    ensures Number(Shl(cell, shift), 64) as real == CellStart(Number(cell, 64), Pow2(shift))
    ensures Number(Shl(Next(cell), shift), 64) as real == CellStart(Number(cell, 64) + 1, Pow2(shift))
  {
    hide Number, Shl, Shr, Next, Pow2;
    var n, p := Number(cell, 64), Pow2(shift);
    assert n * p <= (n + 1) * p && n + 1 <= (n + 1) * p;
    NumberShiftedLeft(cell, shift);
    NotLast(cell);
    AllGone(Next(cell));
    NumberOfNext(cell, 64);
    NumberShiftedLeft(Next(cell), shift);
  }

  lemma NotLast(cell: bv64)
    requires Number(cell, 64) + 1 < Pow2(64)
    ensures cell != ALL_ONES
  {
    hide Number, Shr, Pow2, Word;
    var last := Word(Pow2(64) - 1, 64);
    NumberOfWord(Pow2(64) - 1, 64);
    AllGone(last);
    AllGone(ALL_ONES);
    assert AtMost(last, ALL_ONES);
    NumberMonotone(last, ALL_ONES, 64);
  }

  // ---------------------------------------------------------------- the search

  lemma {:induction false} Pow2Sum(a: nat, b: nat)
    ensures Pow2(a + b) == Pow2(a) * Pow2(b)
  {
    if a > 0 {
      Pow2Sum(a - 1, b);
    }
  }

  /** A grid number has 27 bits, and but for the far edge 26. */
  lemma TopBits(n: nat)
    requires n <= CELLS
    ensures Shr32(Word32(n), 27) == 0
  {
    Powers();
    assert Pow2(27) == 134217728;
    Number32OfWord(n);
    Number32Shifted(Word32(n), 27);
    NumberOfZero(32);
    assert Wide(0) == 0;
    hide Number, Word32, Wide;
    Number32Injective(Shr32(Word32(n), 27), 0);
  }

  lemma InterleaveZero()
    ensures Interleave(0, 0) == 0
  {
  }

  /** A code has 54 bits. */
  lemma CodeBits(p: Coordinates)
    requires OnMap(p)
    ensures Number(GeoScoreEncode(p), 64) < Pow2(54)
  {
    hide Interleave, Word32, Shr, Shr32, Number, Pow2, LatitudeGrid, LongitudeGrid;
    var x, y := Word32(LatitudeGrid(p)), Word32(LongitudeGrid(p));
    ShiftMany(x, y, 27);
    TopBits(LatitudeGrid(p));
    TopBits(LongitudeGrid(p));
    InterleaveZero();
    NumberShifted(GeoScoreEncode(p), 54, 64);
    NumberOfZero(10);
    Quotient(Number(GeoScoreEncode(p), 64), Pow2(54));
  }

  lemma Quotient(n: nat, d: nat)
    requires d >= 1 && n / d == 0
    ensures n < d
  {
  }

  /** The cell of any position leaves room for its window's bounds. */
  lemma CellRoom(p: Coordinates, step: nat)
    requires OnMap(p) && step <= 26
    ensures (Number(CellOf(p, step), 64) + 1) * Pow2(52 - 2 * step) < Pow2(64)
  {
    hide GeoScoreEncode, Number, Pow2, Shr;
    var k := 52 - 2 * step;
    var code := GeoScoreEncode(p);
    CodeBits(p);
    NumberShifted(code, k, 64);
    AllGone(code);
    ShrTwice(code, k, 64 - k);
    NumberPadded(Shr(code, k), 64 - k, k);
    Pow2Sum(k, 54 - k);
    Room(Number(code, 64), Pow2(k), Pow2(54 - k));
    Pow2Sum(54, 10);
    Ten(Pow2(54));
  }

  lemma Room(n: nat, d: nat, q: nat)
    requires d >= 1 && n < d * q
    ensures (n / d + 1) * d <= d * q
  {
    var r := n / d;
    assert n == r * d + n % d;
    assert r >= q ==> r * d >= q * d;
    assert r + 1 <= q;
    assert (r + 1) * d <= q * d;
  }

  lemma Ten(n: nat)
    requires n >= 1
    ensures n * Pow2(10) > n
  {
    assert Pow2(5) == 32;
    assert Pow2(10) == 1024;
  }

  /** The two bounds the search computes for a neighbour cell are those of its window. */
  lemma NeighbourBounds(p: Coordinates, step: nat, dy: int, dx: int, c: bv64)
    requires OnMap(p) && 1 <= step <= 26 && FoundBy(p, step, dy, dx, c)
    ensures var shift := 52 - 2 * step;
      && Number(Shl(c, shift), 64) as real == CellStart(Number(c, 64), Pow2(shift))
      && Number(Shl(Next(c), shift), 64) as real == CellStart(Number(c, 64) + 1, Pow2(shift))
  {
    hide Number, Shl, Pow2, Next, CellOf, CellArea, OnMap;
    var y, x :| (-1 <= y <= 1 && -1 <= x <= 1 && (y < dy || (y == dy && x < dx))) && CellAt(p, step, y, x, c);
    CellThere(p, step, y, x);
    CellRoom(Neighbour(CellArea(CellOf(p, step), step), y, x), step);
    WindowBounds(c, 52 - 2 * step);
  }
}

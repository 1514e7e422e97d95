/** One elevation tile and its point sampler (`SingleDEM::sample` in
    cpp/dem.cpp): pole-crossing normalisation, the transform into fractional
    pixel coordinates, the row and column checks with antimeridian
    wraparound, the four no-data checks, bilinear interpolation and the
    sphere radius. */
module Sampler {
  import opened Options
  import opened GeoTransform

  /** What `SingleDEM::sample` reports: return code 0 with a value written to
      `*outVal`, or return code 1 with `*outVal` untouched. */
  datatype SampleResult = Ok(value: real) | Fail

  /** A query point in degrees. */
  datatype LatLon = LatLon(lat: real, lon: real)

  /** A loaded tile. `pixels[row][column]` is the band's value; `latLonToGeo`
      stands for the geographic-to-projected coordinate transform of the
      geospatial library (it takes longitude first and may reject a point). */
  datatype Tile = Tile(
    width: int,
    height: int,
    pixels: seq<seq<real>>,
    noData: real,
    sphereRadius: real,
    circumnavigates: bool,
    latLonToGeo: Point2 -> Option<Point2>,
    imageToGeo: Affine)

  /** The raster holds `height` rows of `width` pixels, and is not empty. */
  ghost predicate Valid(t: Tile)
  {
    && t.width >= 1
    && t.height >= 1
    && |t.pixels| == t.height
    && forall r :: 0 <= r < |t.pixels| ==> |t.pixels[r]| == t.width
  }

  // ---------------------------------------------------------------------
  // Pole-crossing normalisation

  /** Reflects a query that went over a pole back towards [-90, 90]: first a
      latitude above 90 is mirrored about 90, then a latitude below -90 is
      mirrored about -90, each mirror adding 180 degrees of longitude. */
  function Normalize(q: LatLon): (r: LatLon)
    ensures -90.0 <= q.lat <= 90.0 ==> r == q
    ensures 90.0 < q.lat <= 270.0 ==> r == LatLon(180.0 - q.lat, q.lon + 180.0)
    ensures -270.0 <= q.lat < -90.0 ==> r == LatLon(-180.0 - q.lat, q.lon + 180.0)
    ensures 270.0 < q.lat ==> r == LatLon(q.lat - 360.0, q.lon + 360.0)
    ensures q.lat < -270.0 ==> r.lat > 90.0
    ensures -90.0 <= r.lat <= 90.0 <==> -270.0 <= q.lat <= 450.0
  {
    var north := if q.lat > 90.0 then LatLon(180.0 - q.lat, q.lon + 180.0) else q;
    if north.lat < -90.0 then LatLon(-180.0 - north.lat, north.lon + 180.0) else north
  }

  /** Normalising twice is the same as normalising once exactly when the
      first pass lands in [-90, 90]. */
  lemma NormalizeIdempotent(q: LatLon)
    ensures Normalize(Normalize(q)) == Normalize(q) <==> -270.0 <= q.lat <= 450.0
  {
  }

  // ---------------------------------------------------------------------
  // Floor, ceiling and fractional part of a pixel coordinate

  function Floor(x: real): (f: int)
    ensures f as real <= x < f as real + 1.0
  {
    x.Floor
  }

  function Ceil(x: real): (c: int)
    ensures c as real - 1.0 < x <= c as real
    ensures c == Floor(x) || c == Floor(x) + 1
    ensures c == Floor(x) <==> x == Floor(x) as real
  {
    if x.Floor as real == x then x.Floor else x.Floor + 1
  }

  function Frac(x: real): (f: real)
    ensures 0.0 <= f < 1.0
    ensures x == Floor(x) as real + f
  {
    x - Floor(x) as real
  }

  /** Floor and ceiling commute with shifting by a whole number. */
  lemma ShiftByWhole(x: real, k: int)
    ensures Floor(x + k as real) == Floor(x) + k
    ensures Ceil(x + k as real) == Ceil(x) + k
    ensures Frac(x + k as real) == Frac(x)
  {
    var f := Floor(x);
    assert (f + k) as real <= x + k as real < (f + k) as real + 1.0;
    FloorUnique(x + k as real, f + k);
  }

  lemma FloorUnique(x: real, n: int)
    requires n as real <= x < n as real + 1.0
    ensures Floor(x) == n
  {
  }

  // ---------------------------------------------------------------------
  // Column wraparound and pixel reads

  /** The column adjustment for a tile that circumnavigates the globe: one
      width is added to a negative column, then one width is subtracted from a
      column at or past the right edge. */
  function WrapColumn(width: int, c: int): (r: int)
    ensures 0 <= c < width ==> r == c
    ensures width >= 1 && -width <= c < 2 * width ==> 0 <= r < width && r == c % width
    ensures width >= 1 && c < -width ==> r < 0
    ensures width >= 1 && c >= 2 * width ==> r >= width
  {
    var shifted := if c < 0 then c + width else c;
    var r := if shifted >= width then shifted - width else shifted;
    if width >= 1 && -width <= c < 2 * width then
      ModShift(r, width);
      r
    else r
  }

  /** A value in [0, w), moved by one `w` either way, keeps its remainder. */
  lemma ModShift(m: int, w: int)
    requires w >= 1 && 0 <= m < w
    ensures (m + w) % w == m && (m - w) % w == m && m % w == m
  {
  }

  /** A one-pixel raster read into a buffer: a position inside the raster
      overwrites the buffer, one outside it leaves the previous content. */
  function Read(t: Tile, previous: real, column: int, row: int): (v: real)
    ensures Valid(t) && 0 <= row < t.height && 0 <= column < t.width ==> v == t.pixels[row][column]
    ensures Valid(t) && !(0 <= row < t.height && 0 <= column < t.width) ==> v == previous
  {
    if 0 <= row < |t.pixels| && 0 <= column < |t.pixels[row]| then t.pixels[row][column]
    else previous
  }

  // ---------------------------------------------------------------------
  // Bilinear interpolation

  datatype Corners = Corners(topLeft: real, topRight: real, bottomLeft: real, bottomRight: real)

  function Lerp(a: real, b: real, t: real): (r: real)
    ensures 0.0 <= t <= 1.0 && a <= b ==> a <= r <= b
    ensures 0.0 <= t <= 1.0 && b <= a ==> b <= r <= a
    ensures t == 0.0 ==> r == a
  {
    var r := a + (b - a) * t;
    LerpBetween(a, b, t, r);
    r
  }

  lemma LerpBetween(a: real, b: real, t: real, r: real)
    requires r == a + (b - a) * t
    ensures 0.0 <= t <= 1.0 && a <= b ==> a <= r <= b
    ensures 0.0 <= t <= 1.0 && b <= a ==> b <= r <= a
  {
    if 0.0 <= t <= 1.0 {
      var p := (b - a) * t;
      if a <= b {
        ScaledDown(b - a, t, p);
      } else {
        ScaledDown(a - b, t, -p);
      }
    }
  }

  /** A non-negative amount scaled by a factor in [0, 1] stays within
      [0, amount]. */
  lemma ScaledDown(d: real, t: real, p: real)
    requires 0.0 <= t <= 1.0 && 0.0 <= d
    requires p == d * t
    ensures 0.0 <= p <= d
  {
    assert d - p == d * (1.0 - t);
  }

  function Min4(c: Corners): real
  {
    var top := if c.topLeft <= c.topRight then c.topLeft else c.topRight;
    var bottom := if c.bottomLeft <= c.bottomRight then c.bottomLeft else c.bottomRight;
    if top <= bottom then top else bottom
  }

  function Max4(c: Corners): real
  {
    var top := if c.topLeft >= c.topRight then c.topLeft else c.topRight;
    var bottom := if c.bottomLeft >= c.bottomRight then c.bottomLeft else c.bottomRight;
    if top >= bottom then top else bottom
  }

  /** Interpolates the top pair and the bottom pair along the column, then
      the two results along the row. */
  function Bilinear(c: Corners, xFrac: real, yFrac: real): (r: real)
    ensures 0.0 <= xFrac <= 1.0 && 0.0 <= yFrac <= 1.0 ==> Min4(c) <= r <= Max4(c)
    ensures xFrac == 0.0 && yFrac == 0.0 ==> r == c.topLeft
  {
    var top := Lerp(c.topLeft, c.topRight, xFrac);
    var bottom := Lerp(c.bottomLeft, c.bottomRight, xFrac);
    Lerp(top, bottom, yFrac)
  }

  // ---------------------------------------------------------------------
  // Sampling at a fractional pixel position

  /** `SingleDEM::sample` after the transform: `column` and `row` are the
      fractional pixel coordinates, `junk` the content of the uninitialised
      read buffer. */
  function SampleImage(t: Tile, junk: real, column: real, row: real): (r: SampleResult)
    ensures r.Ok? ==> 0 <= Floor(row) <= Ceil(row) < t.height
    ensures row < 0.0 || Ceil(row) >= t.height ==> r.Fail?
    ensures !t.circumnavigates && r.Ok? ==> 0 <= Floor(column) <= Ceil(column) < t.width
    ensures !t.circumnavigates && (column < 0.0 || Ceil(column) >= t.width) ==> r.Fail?
  {
    var rowFloor := Floor(row);
    var rowCeil := Ceil(row);
    if row < 0.0 || row >= t.height as real || rowCeil >= t.height then Fail
    else if !t.circumnavigates && (column < 0.0 || column >= t.width as real || Ceil(column) >= t.width) then Fail
    else
      var columnFloor := if t.circumnavigates then WrapColumn(t.width, Floor(column)) else Floor(column);
      var columnCeil := if t.circumnavigates then WrapColumn(t.width, Ceil(column)) else Ceil(column);
      var topLeft := Read(t, junk, columnFloor, rowFloor);
      if topLeft == t.noData then Fail else
      var topRight := Read(t, topLeft, columnCeil, rowFloor);
      if topRight == t.noData then Fail else
      var bottomLeft := Read(t, topRight, columnFloor, rowCeil);
      if bottomLeft == t.noData then Fail else
      var bottomRight := Read(t, bottomLeft, columnCeil, rowCeil);
      if bottomRight == t.noData then Fail else
      Ok(Bilinear(Corners(topLeft, topRight, bottomLeft, bottomRight), Frac(column), Frac(row))
         + t.sphereRadius)
  }

  /** The position lies inside the tile's coverage: both rows exist and,
      unless the tile wraps around, both columns exist. */
  predicate Covered(t: Tile, column: real, row: real)
  {
    && 0.0 <= row && Ceil(row) < t.height
    && (t.circumnavigates || (0.0 <= column && Ceil(column) < t.width))
  }

  /** The four pixels around a covered position, with the columns taken
      modulo the width. */
  function CornersAt(t: Tile, column: real, row: real): Corners
    requires Valid(t) && Covered(t, column, row)
  {
    var cf := Floor(column) % t.width;
    var cc := Ceil(column) % t.width;
    var rf := Floor(row);
    var rc := Ceil(row);
    Corners(t.pixels[rf][cf], t.pixels[rf][cc], t.pixels[rc][cf], t.pixels[rc][cc])
  }

  predicate HasNoDataCorner(t: Tile, column: real, row: real)
    requires Valid(t) && Covered(t, column, row)
  {
    var c := CornersAt(t, column, row);
    c.topLeft == t.noData || c.topRight == t.noData || c.bottomLeft == t.noData || c.bottomRight == t.noData
  }

  /** The column adjustment of a wrapping tile reaches every column: its
      floor and ceiling lie within one width of the raster. */
  predicate WithinOneWidth(t: Tile, column: real)
  {
    t.circumnavigates ==> -t.width <= Floor(column) && Ceil(column) < 2 * t.width
  }

  /** While the wrapped columns stay within one width of the raster, the
      sampler succeeds exactly on covered positions whose four corners all
      hold data, and then returns the bilinear interpolation of those corners
      plus the sphere radius. */
  lemma SampleImageCharacterized(t: Tile, junk: real, column: real, row: real)
    requires Valid(t)
    requires WithinOneWidth(t, column)
    ensures SampleImage(t, junk, column, row).Ok? <==>
              Covered(t, column, row) && !HasNoDataCorner(t, column, row)
    ensures SampleImage(t, junk, column, row).Ok? ==>
              SampleImage(t, junk, column, row).value ==
                Bilinear(CornersAt(t, column, row), Frac(column), Frac(row)) + t.sphereRadius
  {
    if Covered(t, column, row) {
      var cf := if t.circumnavigates then WrapColumn(t.width, Floor(column)) else Floor(column);
      var cc := if t.circumnavigates then WrapColumn(t.width, Ceil(column)) else Ceil(column);
      ReadsAreCorners(t, junk, column, row, cf, cc);
    }
  }

  lemma ReadsAreCorners(t: Tile, junk: real, column: real, row: real, cf: int, cc: int)
    requires Valid(t) && Covered(t, column, row)
    requires cf == Floor(column) % t.width && cc == Ceil(column) % t.width
    ensures var c := CornersAt(t, column, row);
      && Read(t, junk, cf, Floor(row)) == c.topLeft
      && Read(t, c.topLeft, cc, Floor(row)) == c.topRight
      && Read(t, c.topRight, cf, Ceil(row)) == c.bottomLeft
      && Read(t, c.bottomLeft, cc, Ceil(row)) == c.bottomRight
  {
  }

  /** At a whole-pixel position the sampler returns that pixel's value plus
      the sphere radius, unless the pixel is no-data. */
  lemma SampleAtPixelCentre(t: Tile, junk: real, column: int, row: int)
    requires Valid(t) && 0 <= column < t.width && 0 <= row < t.height
    ensures SampleImage(t, junk, column as real, row as real) ==
              if t.pixels[row][column] == t.noData then Fail
              else Ok(t.pixels[row][column] + t.sphereRadius)
  {
    ShiftByWhole(0.0, column);
    ShiftByWhole(0.0, row);
    assert Floor(column as real) == column && Ceil(column as real) == column;
    assert Floor(row as real) == row && Ceil(row as real) == row;
    SampleImageCharacterized(t, junk, column as real, row as real);
  }

  /** On a tile that circumnavigates, moving a covered column one full width
      left or right does not change the sample. */
  lemma WrapContinuity(t: Tile, junk: real, column: real, row: real)
    requires Valid(t) && t.circumnavigates
    requires 0.0 <= column && Ceil(column) < t.width
    ensures SampleImage(t, junk, column - t.width as real, row) == SampleImage(t, junk, column, row)
    ensures SampleImage(t, junk, column + t.width as real, row) == SampleImage(t, junk, column, row)
  {
    ShiftByWhole(column, -t.width);
    ShiftByWhole(column, t.width);
    assert column - t.width as real == column + (-t.width) as real;
    assert WrapColumn(t.width, Floor(column) - t.width) == Floor(column);
    assert WrapColumn(t.width, Ceil(column) - t.width) == Ceil(column);
    assert WrapColumn(t.width, Floor(column) + t.width) == Floor(column);
    assert WrapColumn(t.width, Ceil(column) + t.width) == Ceil(column);
  }

  /** Past one width the wrap of a circumnavigating tile leaves the ceiling
      column outside the raster, and the reads there return the buffer's
      previous content: on the 1-by-2 tile [1, 2] the column 3.5, which is
      1.5 modulo the width, samples 2 instead of the wrapped interpolation
      1.5. */
  lemma FarColumnReadsStale()
    ensures var t := Tile(2, 1, [[1.0, 2.0]], -1.0, 0.0, true, p => Some(p), Identity);
      SampleImage(t, 0.0, 3.5, 0.0) == Ok(2.0) &&
      Bilinear(Corners(2.0, 1.0, 2.0, 1.0), Frac(1.5), Frac(0.0)) == 1.5
  {
    var t := Tile(2, 1, [[1.0, 2.0]], -1.0, 0.0, true, p => Some(p), Identity);
    FloorUnique(3.5, 3);
    FloorUnique(1.5, 1);
    FloorUnique(0.0, 0);
    assert WrapColumn(2, 3) == 1 && WrapColumn(2, 4) == 2;
  }

  // ---------------------------------------------------------------------
  // Sampling at a geographic position

  /** The fractional pixel position of a query: the normalised query goes
      through the geospatial transform (longitude first), then through the
      tile's projected-to-pixel map. `None` when the transform rejects it.
      The position is the pixel the tile's pixel-to-projected map sends to
      the projected point, or that point itself when the map is singular. */
  function ImagePosition(t: Tile, q: LatLon): (r: Option<Point2>)
    ensures r.None? <==> t.latLonToGeo(Point2(Normalize(q).lon, Normalize(q).lat)).None?
    ensures r.Some? && Determinant(t.imageToGeo) != 0.0 ==>
      Apply(t.imageToGeo, r.value) == t.latLonToGeo(Point2(Normalize(q).lon, Normalize(q).lat)).value
    ensures r.Some? && Determinant(t.imageToGeo) == 0.0 ==>
      r.value == t.latLonToGeo(Point2(Normalize(q).lon, Normalize(q).lat)).value
  {
    var n := Normalize(q);
    match t.latLonToGeo(Point2(n.lon, n.lat))
    case None => None
    case Some(geo) => Some(Apply(GeoToImage(t.imageToGeo), geo))
  }

  /** The full sampler. It fails when the transform rejects the query, and a
      success lies on existing rows (and, unless the tile wraps, on existing
      columns) of the image. */
  function Sample(t: Tile, junk: real, q: LatLon): (r: SampleResult)
    ensures ImagePosition(t, q).None? ==> r.Fail?
    ensures r.Ok? ==> ImagePosition(t, q).Some?
    ensures r.Ok? ==>
      0 <= Floor(ImagePosition(t, q).value.y) <= Ceil(ImagePosition(t, q).value.y) < t.height
    ensures r.Ok? && !t.circumnavigates ==>
      0 <= Floor(ImagePosition(t, q).value.x) <= Ceil(ImagePosition(t, q).value.x) < t.width
  {
    match ImagePosition(t, q)
    case None => Fail
    case Some(p) => SampleImage(t, junk, p.x, p.y)
  }

  /** At a query the transform accepts, and whose wrapped columns stay within
      one width, the sampler succeeds exactly when the pixel position is
      covered and all four corners hold data; it then returns their bilinear
      interpolation plus the sphere radius. */
  lemma SampleCharacterized(t: Tile, junk: real, q: LatLon)
    requires Valid(t)
    ensures var pos := ImagePosition(t, q);
      pos.Some? && WithinOneWidth(t, pos.value.x) ==>
        (Sample(t, junk, q).Ok? <==>
           Covered(t, pos.value.x, pos.value.y) && !HasNoDataCorner(t, pos.value.x, pos.value.y))
    ensures var pos := ImagePosition(t, q);
      pos.Some? && WithinOneWidth(t, pos.value.x) && Sample(t, junk, q).Ok? ==>
        Covered(t, pos.value.x, pos.value.y) &&
        Sample(t, junk, q).value ==
          Bilinear(CornersAt(t, pos.value.x, pos.value.y), Frac(pos.value.x), Frac(pos.value.y))
          + t.sphereRadius
  {
    var pos := ImagePosition(t, q);
    if pos.Some? && WithinOneWidth(t, pos.value.x) {
      SampleImageCharacterized(t, junk, pos.value.x, pos.value.y);
    }
  }

  /** A query that went over a pole samples the same as its reflection. */
  lemma SampleThroughPole(t: Tile, junk: real, q: LatLon)
    requires -270.0 <= q.lat <= 450.0
    ensures Sample(t, junk, q) == Sample(t, junk, Normalize(q))
  {
    NormalizeIdempotent(q);
  }

  /** The C interface: the return code and the content of `*outVal`
      afterwards, given its content `outVal` before the call. */
  function SampleInto(outVal: real, t: Tile, junk: real, q: LatLon): (r: (int, real))
    ensures r.0 == 0 || r.0 == 1
    ensures r.0 == 1 <==> Sample(t, junk, q).Fail?
    ensures r.0 == 1 ==> r.1 == outVal
    ensures r.0 == 0 ==> r.1 == Sample(t, junk, q).value
  {
    match Sample(t, junk, q)
    case Fail => (1, outVal)
    case Ok(v) => (0, v)
  }
}

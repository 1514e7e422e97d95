/** The index arithmetic of moonsurface.py: how `create_moon` splits a
    `.mesh` file into its vertex, edge and face blocks, how it lays a
    texture rectangle over every face, and how `process_pixel` addresses a
    DEM image. */
module Layout {
  import opened Options
  import opened Arithmetic
  import opened Sampler
  import opened Tessellation

  // ---------------------------------------------------------------------
  // Block sizes of a mesh file

  /** One `.mesh` line per vertex: as many as the C++ vertex buffer has
      slots. */
  function VertexLineCount(w: int, h: int): (r: int)
    ensures r == VertexCount(Grid(w, h))
    ensures w >= 1 && h >= 1 ==> r >= 1
  {
    if w >= 1 && h >= 1 then MulAtLeast(w, h); w * h else w * h
  }

  /** One line per link between neighbouring vertices: fewer than two per
      vertex. */
  function EdgeLineCount(w: int, h: int): (r: int)
    ensures w >= 1 && h >= 1 ==> 0 <= r < 2 * VertexLineCount(w, h)
  {
    if w >= 1 && h >= 1 then
      MulNonNegative(w, h - 1);
      MulNonNegative(w - 1, h);
      w * (h - 1) + (w - 1) * h
    else w * (h - 1) + (w - 1) * h
  }

  /** An edge between two vertices, by 0-based row-major index. */
  datatype Edge = Edge(from: int, to: int)

  /** The edges from the vertex of cell (lat, lon) to its east and to its
      north neighbour, where those exist. */
  function CellEdges(w: int, h: int, lat: int, lon: int): seq<Edge>
  {
    var i := lat * w + lon;
    (if lon < w - 1 then [Edge(i, i + 1)] else []) + (if lat < h - 1 then [Edge(i, i + w)] else [])
  }

  /** The edges of the first `n` vertices of row `lat`. */
  function RowEdges(w: int, h: int, lat: int, n: int): (es: seq<Edge>)
    requires 1 <= w && 0 <= n <= w
    ensures |es| == (if n < w then n else w - 1) + (if lat < h - 1 then n else 0)
    ensures forall k :: 0 <= k < |es| ==> es[k].to == es[k].from + 1 || es[k].to == es[k].from + w
  {
    if n == 0 then [] else RowEdges(w, h, lat, n - 1) + CellEdges(w, h, lat, n - 1)
  }

  /** The edges of the first `m` rows of a `w` by `h` grid of vertices. */
  function GridEdges(w: int, h: int, m: int): (es: seq<Edge>)
    requires w >= 1 && h >= 1 && 0 <= m <= h
    ensures |es| == m * (w - 1) + (if m < h then m else h - 1) * w
    ensures forall k :: 0 <= k < |es| ==> es[k].to == es[k].from + 1 || es[k].to == es[k].from + w
  {
    if m == 0 then []
    else
      assert (m - 1) * (w - 1) + (w - 1) == m * (w - 1);
      assert (m - 1) * w + w == m * w;
      GridEdges(w, h, m - 1) + RowEdges(w, h, m - 1, w)
  }

  /** The edge count `create_moon` assumes is the number of pairs of
      horizontally or vertically adjacent vertices. */
  lemma EdgeCountIsNeighbourPairs(w: int, h: int)
    requires w >= 1 && h >= 1
    ensures |GridEdges(w, h, h)| == EdgeLineCount(w, h)
    ensures EdgeLineCount(w, h) >= 0
  {
    MulNonNegative(w, h - 1);
    MulNonNegative(w - 1, h);
  }

  /** Three vertices a side: nine vertices, twelve edges, four faces. */
  lemma SmallMesh()
    ensures VertexLineCount(3, 3) == 9 && EdgeLineCount(3, 3) == 12
    ensures |GridEdges(3, 3, 3)| == 12
    ensures (3 - 1) * (3 - 1) == 4
  {
  }

  // ---------------------------------------------------------------------
  // Python slices

  /** A slice bound as Python resolves it against a sequence of length `n`:
      a negative bound counts from the end, then it is clamped to [0, n]. */
  function SliceBound(i: int, n: int): (b: int)
    requires n >= 0
    ensures 0 <= b <= n
    ensures 0 <= i <= n ==> b == i
    ensures -n <= i < 0 ==> b == i + n
    ensures i > n ==> b == n
    ensures i < -n ==> b == 0
  {
    if i < 0 then (if i + n < 0 then 0 else i + n) else if i > n then n else i
  }

  /** `s[start:stop]`. */
  function Slice<T>(s: seq<T>, start: int, stop: int): (r: seq<T>)
    ensures 0 <= start <= stop <= |s| ==> r == s[start..stop]
    ensures 0 <= stop <= start ==> r == []
    ensures 0 <= start <= |s| <= stop ==> r == s[start..]
  {
    var a, b := SliceBound(start, |s|), SliceBound(stop, |s|);
    if a < b then s[a..b] else []
  }

  /** `s[start:]`. */
  function SliceFrom<T>(s: seq<T>, start: int): (r: seq<T>)
    ensures 0 <= start <= |s| ==> r == s[start..]
    ensures start >= |s| ==> r == []
  {
    s[SliceBound(start, |s|)..]
  }

  // ---------------------------------------------------------------------
  // Splitting a mesh file

  datatype MeshBlocks = MeshBlocks(vertexLines: seq<string>, edgeLines: seq<string>, faceLines: seq<string>)

  /** The block slicing of `create_moon`, given the grid size read from the
      header line. For a proper grid the three blocks are consecutive and
      together are every line after the header, in order; each of the first
      two blocks has its full count when the file is long enough. */
  function SplitMesh(meshLines: seq<string>, w: int, h: int): (r: MeshBlocks)
    requires |meshLines| >= 1
    ensures w >= 1 && h >= 1 ==>
      r.vertexLines + r.edgeLines + r.faceLines == meshLines[1..]
    ensures w >= 1 && h >= 1 && |meshLines| > VertexLineCount(w, h) ==>
      r.vertexLines == meshLines[1..VertexLineCount(w, h) + 1]
    ensures w >= 1 && h >= 1 && |meshLines| > VertexLineCount(w, h) + EdgeLineCount(w, h) ==>
      |r.edgeLines| == EdgeLineCount(w, h)
  {
    var nv := VertexLineCount(w, h);
    var ne := EdgeLineCount(w, h);
    var vs, es, fs := Slice(meshLines, 1, nv + 1), Slice(meshLines, nv + 1, nv + 1 + ne),
                      SliceFrom(meshLines, nv + 1 + ne);
    if w >= 1 && h >= 1 then
      MulAtLeast(w, h);
      EdgeCountIsNeighbourPairs(w, h);
      BlockBounds(meshLines, nv, ne, vs, es, fs);
      MeshBlocks(vs, es, fs)
    else MeshBlocks(vs, es, fs)
  }

  lemma BlockBounds(meshLines: seq<string>, nv: int, ne: int, vs: seq<string>, es: seq<string>, fs: seq<string>)
    requires |meshLines| >= 1 && nv >= 1 && ne >= 0
    requires vs == Slice(meshLines, 1, nv + 1) && es == Slice(meshLines, nv + 1, nv + 1 + ne)
    requires fs == SliceFrom(meshLines, nv + 1 + ne)
    ensures vs + es + fs == meshLines[1..]
    ensures |meshLines| > nv ==> vs == meshLines[1..nv + 1]
    ensures |meshLines| > nv + ne ==> |es| == ne
  {
    var n := |meshLines|;
    var a := if nv + 1 <= n then nv + 1 else n;
    var b := if nv + 1 + ne <= n then nv + 1 + ne else n;
    assert vs == meshLines[1..a];
    assert es == meshLines[a..b];
    assert fs == meshLines[b..];
    assert meshLines[1..a] + meshLines[a..b] + meshLines[b..] == meshLines[1..];
  }

  /** Splitting a file written as a header, the vertex lines, the edge
      lines and the face lines gives back the three blocks. */
  lemma SplitMeshRoundTrip(header: string, vs: seq<string>, es: seq<string>, fs: seq<string>, w: int, h: int)
    requires w >= 1 && h >= 1
    requires |vs| == VertexLineCount(w, h) && |es| == EdgeLineCount(w, h)
    ensures SplitMesh([header] + vs + es + fs, w, h) == MeshBlocks(vs, es, fs)
  {
    var lines := [header] + vs + es + fs;
    var r := SplitMesh(lines, w, h);
    assert lines[1..] == vs + es + fs;
    assert r.vertexLines == lines[1..|vs| + 1] == vs;
    assert r.edgeLines == lines[|vs| + 1..|vs| + 1 + |es|] == es;
  }

  // ---------------------------------------------------------------------
  // Face texture rectangles

  /** The face with index `k` in a row-major grid `facesWidth` faces wide:
      Python's `//` and `%` agree with Euclidean division for a positive
      divisor. The row is below `facesHeight` for every face of the grid. */
  lemma FaceCellInGrid(facesWidth: int, facesHeight: int, k: int)
    requires facesWidth >= 1 && 0 <= k < facesWidth * facesHeight
    ensures var c := Decompose(facesWidth, k);
      c.lat * facesWidth + c.lon == k && 0 <= c.lon < facesWidth && 0 <= c.lat < facesHeight
  {
    QuotientBelow(k, facesWidth, facesHeight);
  }

  /** The four loop UVs of a face whose texture rectangle runs from `base`
      to `extent`, in the order they are assigned to the face's loops. */
  function FaceCorners(base: Uv, extent: Uv): (q: seq<Uv>)
    ensures |q| == 4
    ensures TwiceSignedArea(q) == 2.0 * (extent.u - base.u) * (extent.v - base.v)
  {
    [base, Uv(extent.u, base.v), extent, Uv(base.u, extent.v)]
  }

  /** Twice the signed area of a quadrilateral (the shoelace formula):
      positive when its corners run counter-clockwise. */
  function TwiceSignedArea(q: seq<Uv>): real
    requires |q| == 4
  {
    (q[0].u * q[1].v - q[1].u * q[0].v) + (q[1].u * q[2].v - q[2].u * q[1].v)
    + (q[2].u * q[3].v - q[3].u * q[2].v) + (q[3].u * q[0].v - q[0].u * q[3].v)
  }

  /** `a / d < b / d` for a positive divisor. */
  lemma DivideStrict(a: real, b: real, d: real)
    requires d > 0.0 && a < b
    ensures a / d < b / d
  {
    assert a / d * d == a && b / d * d == b;
  }

  lemma DivideBounds(n: real, d: real)
    requires 0.0 <= n <= d && d > 0.0
    ensures 0.0 <= n / d <= 1.0
  {
    assert n / d * d == n;
  }

  /** The rectangle of face `k` as `create_moon` computes it: it divides
      the face's column and row by `facesWidth + 1` and `facesHeight + 1`.
      Every rectangle is non-empty and lies in [0, 1) in both directions. */
  function FaceRectAsWritten(facesWidth: int, facesHeight: int, k: int): (r: (Uv, Uv))
    requires facesWidth >= 1 && facesHeight >= 1 && 0 <= k < facesWidth * facesHeight
    ensures r.0.u < r.1.u && r.0.v < r.1.v
    ensures 0.0 <= r.0.u && r.1.u < 1.0 && 0.0 <= r.0.v && r.1.v < 1.0
  {
    var baseUv, extentUv := Uv(0.0, 0.0), Uv(1.0, 1.0);
    FaceCellInGrid(facesWidth, facesHeight, k);
    var c := Decompose(facesWidth, k);
    var du, dv := (facesWidth + 1) as real, (facesHeight + 1) as real;
    DivideStrict(c.lon as real, (c.lon + 1) as real, du);
    DivideStrict(c.lat as real, (c.lat + 1) as real, dv);
    DivideStrict((c.lon + 1) as real, du, du);
    DivideStrict((c.lat + 1) as real, dv, dv);
    DivideBounds(c.lon as real, du);
    DivideBounds(c.lat as real, dv);
    (Uv(baseUv.u + c.lon as real / du * (extentUv.u - baseUv.u),
        baseUv.v + c.lat as real / dv * (extentUv.v - baseUv.v)),
     Uv(baseUv.u + (c.lon + 1) as real / du * (extentUv.u - baseUv.u),
        baseUv.v + (c.lat + 1) as real / dv * (extentUv.v - baseUv.v)))
  }

  function FaceUvAsWritten(facesWidth: int, facesHeight: int, k: int): (q: seq<Uv>)
    requires facesWidth >= 1 && facesHeight >= 1 && 0 <= k < facesWidth * facesHeight
    ensures |q| == 4 && TwiceSignedArea(q) > 0.0
  {
    var r := FaceRectAsWritten(facesWidth, facesHeight, k);
    PositiveArea(r.0, r.1);
    FaceCorners(r.0, r.1)
  }

  lemma PositiveArea(base: Uv, extent: Uv)
    requires base.u < extent.u && base.v < extent.v
    ensures 2.0 * (extent.u - base.u) * (extent.v - base.v) > 0.0
  {
    MulPositive(extent.u - base.u, extent.v - base.v);
  }

  lemma MulPositive(a: real, b: real)
    requires a > 0.0 && b > 0.0
    ensures 2.0 * a * b > 0.0
  {
  }

  /** The rectangles as written stop short of the mesh's texture extent
      (1, 1): on a single face the rectangle covers only the lower-left
      quarter, and on any grid the last face ends at
      (facesWidth / (facesWidth + 1), facesHeight / (facesHeight + 1)). */
  lemma FaceUvAsWrittenFallsShort(facesWidth: int, facesHeight: int)
    requires facesWidth >= 1 && facesHeight >= 1
    ensures FaceRectAsWritten(1, 1, 0) == (Uv(0.0, 0.0), Uv(0.5, 0.5))
    ensures var last := facesWidth * facesHeight - 1;
      last >= 0 &&
      FaceRectAsWritten(facesWidth, facesHeight, last).1
        == Uv(facesWidth as real / (facesWidth + 1) as real, facesHeight as real / (facesHeight + 1) as real)
  {
    var last := facesWidth * facesHeight - 1;
    MulAtLeast(facesWidth, facesHeight);
    DivModUnique(last, facesWidth, facesHeight - 1, facesWidth - 1);
    DivModUnique(0, 1, 0, 0);
  }

  /** The rectangle of face `k` with the divisor the grid needs: `facesWidth`
      and `facesHeight` faces span the unit square. */
  function FaceRect(facesWidth: int, facesHeight: int, k: int): (r: (Uv, Uv))
    requires facesWidth >= 1 && facesHeight >= 1 && 0 <= k < facesWidth * facesHeight
    ensures r.0.u < r.1.u && r.0.v < r.1.v
    ensures 0.0 <= r.0.u && r.1.u <= 1.0 && 0.0 <= r.0.v && r.1.v <= 1.0
  {
    FaceCellInGrid(facesWidth, facesHeight, k);
    var c := Decompose(facesWidth, k);
    var du, dv := facesWidth as real, facesHeight as real;
    DivideStrict(c.lon as real, (c.lon + 1) as real, du);
    DivideStrict(c.lat as real, (c.lat + 1) as real, dv);
    DivideBounds((c.lon + 1) as real, du);
    DivideBounds((c.lat + 1) as real, dv);
    (Uv(c.lon as real / du, c.lat as real / dv), Uv((c.lon + 1) as real / du, (c.lat + 1) as real / dv))
  }

  function FaceUv(facesWidth: int, facesHeight: int, k: int): (q: seq<Uv>)
    requires facesWidth >= 1 && facesHeight >= 1 && 0 <= k < facesWidth * facesHeight
    ensures |q| == 4 && TwiceSignedArea(q) > 0.0
  {
    var r := FaceRect(facesWidth, facesHeight, k);
    PositiveArea(r.0, r.1);
    FaceCorners(r.0, r.1)
  }

  /** The corrected rectangles span the whole texture: the first face starts
      at (0, 0) and the last one ends at (1, 1). */
  lemma FaceUvSpansUnitSquare(facesWidth: int, facesHeight: int)
    requires facesWidth >= 1 && facesHeight >= 1
    ensures 0 < facesWidth * facesHeight
    ensures FaceRect(facesWidth, facesHeight, 0).0 == Uv(0.0, 0.0)
    ensures FaceRect(facesWidth, facesHeight, facesWidth * facesHeight - 1).1 == Uv(1.0, 1.0)
  {
    MulAtLeast(facesWidth, facesHeight);
    DivModUnique(0, facesWidth, 0, 0);
    DivModUnique(facesWidth * facesHeight - 1, facesWidth, facesHeight - 1, facesWidth - 1);
  }

  /** For the grid the C++ generator writes, face `k` is the quad of
      EmitFaces, and the corrected loop UVs are exactly the per-vertex UVs
      of that quad's corners, in the quad's own corner order. */
  lemma FaceUvMatchesVertexUv(g: Grid, k: int)
    requires g.width >= 2 && g.height >= 2 && 0 <= k < (g.width - 1) * (g.height - 1)
    ensures var f := Quad(g.width, Decompose(g.width - 1, k));
      FaceUv(g.width - 1, g.height - 1, k)
        == [VertexUv(g, Decompose(g.width, f.a - 1)), VertexUv(g, Decompose(g.width, f.b - 1)),
            VertexUv(g, Decompose(g.width, f.c - 1)), VertexUv(g, Decompose(g.width, f.d - 1))]
  {
    FaceCellInGrid(g.width - 1, g.height - 1, k);
    QuadCorners(g, Decompose(g.width - 1, k));
  }

  // ---------------------------------------------------------------------
  // DEM pixel addressing in process_pixel

  /** Python's float `%`; a zero divisor raises ZeroDivisionError,
      modelled as `None`. */
  function PyMod(a: real, b: real): (r: Option<real>)
    ensures r.None? <==> b == 0.0
  {
    if b == 0.0 then None else Some(a - b * Floor(a / b) as real)
  }

  /** The result takes the divisor's sign, is smaller than it in magnitude,
      and differs from `a` by a whole multiple of it. */
  lemma PyModRange(a: real, b: real)
    requires b != 0.0
    ensures b > 0.0 ==> 0.0 <= PyMod(a, b).value < b
    ensures b < 0.0 ==> b < PyMod(a, b).value <= 0.0
    ensures ((a - PyMod(a, b).value) / b).Floor as real == (a - PyMod(a, b).value) / b
  {
    var q := Floor(a / b);
    var r := a - b * q as real;
    PyModAt(a, b, q, r);
    var t := a / b;
    assert a == b * t;
    if b > 0.0 {
      RemainderRange(a, b, t, q as real);
    } else {
      RemainderRange(-a, -b, t, q as real);
    }
    assert a - r == b * q as real;
    QuotientOf(b * q as real, q as real, b);
  }

  /** The remainder `a - b * q` for a positive divisor and `q` the floor of
      the quotient `t`. */
  lemma RemainderRange(a: real, b: real, t: real, q: real)
    requires b > 0.0 && a == b * t && q <= t < q + 1.0
    ensures 0.0 <= a - b * q < b
  {
    var z := t - q;
    assert a - b * q == b * z;
    ScaleOrder(b, 0.0, z);
    ScaleStrict(b, z, 1.0);
    assert b * z < b;
  }

  lemma QuotientOf(x: real, y: real, d: real)
    requires d != 0.0 && x == y * d
    ensures x / d == y
  {
  }

  lemma ScaleOrder(b: real, x: real, y: real)
    requires b > 0.0 && x <= y
    ensures b * x <= b * y
  {
    assert b * y - b * x == b * (y - x);
  }

  lemma ScaleStrict(b: real, x: real, y: real)
    requires b > 0.0 && x < y
    ensures b * x < b * y
  {
    assert b * y - b * x == b * (y - x);
  }

  lemma PyModAt(a: real, b: real, q: int, r: real)
    requires b != 0.0 && q == Floor(a / b) && r == a - b * q as real
    ensures PyMod(a, b) == Some(r)
  {
    var m := PyMod(a, b);
    assert m.Some?;
    assert m.value == a - b * Floor(a / b) as real;
    assert m.value == r;
    assert m == Some(m.value);
  }

  /** Python's `%` is the unique remainder: whenever `a == q * b + r` for a
      whole `q` and an `r` of the divisor's sign and smaller magnitude, the
      result is `r`. */
  lemma PyModCharacterized(a: real, b: real, q: int, r: real)
    requires b != 0.0 && a == q as real * b + r
    requires b > 0.0 ==> 0.0 <= r < b
    requires b < 0.0 ==> b < r <= 0.0
    ensures PyMod(a, b) == Some(r)
  {
    var f := r / b;
    UnitFraction(r, b, f);
    WholePlusFraction(a, b, q as real, r, f);
    FloorUnique(a / b, q);
    PyModAt(a, b, q, r);
  }

  /** A remainder of the divisor's sign and smaller magnitude is a fraction
      in [0, 1) of the divisor. */
  lemma UnitFraction(r: real, b: real, f: real)
    requires b != 0.0 && f == r / b
    requires b > 0.0 ==> 0.0 <= r < b
    requires b < 0.0 ==> b < r <= 0.0
    ensures 0.0 <= f < 1.0 && r == f * b
  {
    if b > 0.0 {
      PositiveUnitFraction(r, b, f);
    } else {
      assert -r / -b == f;
      PositiveUnitFraction(-r, -b, f);
    }
  }

  lemma PositiveUnitFraction(r: real, b: real, f: real)
    requires b > 0.0 && 0.0 <= r < b && f == r / b
    ensures 0.0 <= f < 1.0 && r == f * b
  {
    DivideBounds(r, b);
    DivideStrict(r, b, b);
    assert f * b == r;
  }

  lemma WholePlusFraction(a: real, b: real, q: real, r: real, f: real)
    requires b != 0.0 && a == q * b + r && r == f * b
    ensures a / b == q + f
  {
    assert a == (q + f) * b;
    QuotientOf(a, q + f, b);
  }

  /** Adding a whole multiple of the divisor does not change the result. */
  lemma PyModPeriodic(a: real, b: real, k: int, a': real)
    requires b != 0.0 && a' == a + k as real * b
    ensures PyMod(a', b) == PyMod(a, b)
  {
    var t := a / b;
    QuotientShift(a, b, k, a', t);
    ShiftByWhole(t, k);
    var q := Floor(t);
    RemainderShift(a, b, k, a', q);
    PyModAt(a, b, q, a - b * q as real);
    PyModAt(a', b, q + k, a' - b * (q + k) as real);
  }

  lemma QuotientShift(a: real, b: real, k: int, a': real, t: real)
    requires b != 0.0 && a' == a + k as real * b && t == a / b
    ensures a' / b == t + k as real
  {
    assert a == t * b;
    QuotientOf(a', t + k as real, b);
  }

  lemma RemainderShift(a: real, b: real, k: int, a': real, q: int)
    requires a' == a + k as real * b
    ensures a' - b * (q + k) as real == a - b * q as real
  {
  }

  datatype PixelAddress = PixelAddress(x: real, y: real)

  /** How far `x` lies across the extent that starts at `start`, as a
      fraction of it. */
  function Fraction(x: real, start: real, extent: real): (r: real)
    requires extent != 0.0
    ensures start + r * extent == x
    ensures x == start ==> r == 0.0
    ensures x == start + extent ==> r == 1.0
  {
    var d := x - start;
    if d == extent then QuotientOf(d, 1.0, extent); d / extent else d / extent
  }

  /** `dem_x`: the fraction scaled to the image width and wrapped into it. */
  function DemColumn(dlon: real, width: real): (r: Option<real>)
    ensures r.None? <==> width == 0.0
  {
    PyMod(width * dlon, width)
  }

  /** `dem_y`: rows count down from the top of the image. */
  function DemRow(dlat: real, height: real): (r: Option<real>)
    ensures r.None? <==> height == 0.0
  {
    PyMod(height - height * dlat, height)
  }

  /** `dem_x` and `dem_y` of `process_pixel`. A zero extent or a zero image
      size raises. */
  function DemPixel(p: LatLon, minLatLon: LatLon, extents: LatLon, width: int, height: int)
    : (r: Option<PixelAddress>)
    ensures r.None? <==> extents.lat == 0.0 || extents.lon == 0.0 || width == 0 || height == 0
  {
    if extents.lat == 0.0 || extents.lon == 0.0 then None
    else
      var x := DemColumn(Fraction(p.lon, minLatLon.lon, extents.lon), width as real);
      var y := DemRow(Fraction(p.lat, minLatLon.lat, extents.lat), height as real);
      if x.None? || y.None? then None else Some(PixelAddress(x.value, y.value))
  }

  /** With a positive image size every address lies inside the image. */
  lemma DemPixelInImage(p: LatLon, minLatLon: LatLon, extents: LatLon, width: int, height: int)
    requires extents.lat != 0.0 && extents.lon != 0.0 && width > 0 && height > 0
    ensures DemPixel(p, minLatLon, extents, width, height).Some?
    ensures var a := DemPixel(p, minLatLon, extents, width, height).value;
      0.0 <= a.x < width as real && 0.0 <= a.y < height as real
  {
    var dlon := Fraction(p.lon, minLatLon.lon, extents.lon);
    var dlat := Fraction(p.lat, minLatLon.lat, extents.lat);
    DemColumnInImage(dlon, width as real);
    DemRowInImage(dlat, height as real);
  }

  lemma DemColumnInImage(dlon: real, width: real)
    requires width > 0.0
    ensures DemColumn(dlon, width).Some? && 0.0 <= DemColumn(dlon, width).value < width
  {
    PyModRange(width * dlon, width);
  }

  lemma DemRowInImage(dlat: real, height: real)
    requires height > 0.0
    ensures DemRow(dlat, height).Some? && 0.0 <= DemRow(dlat, height).value < height
  {
    PyModRange(height - height * dlat, height);
  }

  /** One full extent further on is one more whole fraction. */
  lemma FractionShift(x: real, start: real, extent: real)
    requires extent != 0.0
    ensures Fraction(x + extent, start, extent) == Fraction(x, start, extent) + 1.0
  {
    var f := Fraction(x, start, extent);
    assert x - start == f * extent;
    QuotientOf(x + extent - start, f + 1.0, extent);
  }

  /** A column one whole width further on wraps to the same place. */
  lemma DemColumnPeriodic(dlon: real, dlon': real, width: real)
    requires dlon' == dlon + 1.0
    ensures DemColumn(dlon', width) == DemColumn(dlon, width)
  {
    if width != 0.0 {
      OneMore(width, dlon, dlon', width * dlon, width * dlon');
      PyModPeriodic(width * dlon, width, 1, width * dlon');
    }
  }

  lemma OneMore(w: real, d: real, d': real, a: real, a': real)
    requires d' == d + 1.0 && a == w * d && a' == w * d'
    ensures a' == a + 1 as real * w
  {
  }

  /** One full extent further east addresses the same column. */
  lemma DemPixelWrapsLongitude(p: LatLon, minLatLon: LatLon, extents: LatLon, width: int, height: int)
    requires extents.lon != 0.0
    ensures DemPixel(LatLon(p.lat, p.lon + extents.lon), minLatLon, extents, width, height)
         == DemPixel(p, minLatLon, extents, width, height)
  {
    FractionShift(p.lon, minLatLon.lon, extents.lon);
    DemColumnPeriodic(Fraction(p.lon, minLatLon.lon, extents.lon),
                      Fraction(p.lon + extents.lon, minLatLon.lon, extents.lon), width as real);
  }

  lemma RowRange(h: real, d: real, p: real)
    requires h > 0.0 && 0.0 < d <= 1.0 && p == h * d
    ensures 0.0 <= h - p < h
  {
    ScaleOrder(h, d, 1.0);
    ScaleStrict(h, 0.0, d);
    assert h * 1.0 == h && h * 0.0 == 0.0;
  }

  /** Strictly inside the extent's latitude band, or on its northern edge,
      the row is measured down from the top of the image. */
  lemma DemRowFromTop(dlat: real, height: real)
    requires height > 0.0 && 0.0 < dlat <= 1.0
    ensures DemRow(dlat, height) == Some(height * (1.0 - dlat))
  {
    var hr := height;
    var a := hr - hr * dlat;
    RowRange(hr, dlat, hr * dlat);
    DivideStrict(a, hr, hr);
    DivideBounds(a, hr);
    assert hr / hr == 1.0;
    FloorUnique(a / hr, 0);
    PyModAt(a, hr, 0, a);
  }

  /** On the extent's southern edge (`dlat == 0`) the row `height` wraps to
      0, the top row of the image, which is also where the northern edge
      lands; halfway up the row is in the middle. Rows therefore run
      0, height / 2, 0 from south to north. */
  lemma SouthEdgeIsTopRow(height: real)
    requires height > 0.0
    ensures DemRow(0.0, height) == Some(0.0)
    ensures DemRow(1.0, height) == Some(0.0)
    ensures DemRow(0.5, height) == Some(height / 2.0)
  {
    PyModCharacterized(height - height * 0.0, height, 1, 0.0);
    PyModCharacterized(height - height * 1.0, height, 0, 0.0);
    PyModCharacterized(height - height * 0.5, height, 0, height / 2.0);
  }

  /** `dem_y` as evidently intended: measured down from the top of the
      image, with the southern edge kept on the last row instead of wrapped
      to the first. */
  function DemRowClamped(dlat: real, height: real): real
  {
    ClampRow(height - height * dlat, height)
  }

  function ClampRow(y: real, height: real): real
  {
    if y > height - 1.0 then height - 1.0 else if y < 0.0 then 0.0 else y
  }

  /** The corrected row never increases going north. */
  lemma DemRowClampedOrdered(dlat: real, dlat': real, height: real)
    requires dlat <= dlat' && height >= 1.0
    ensures DemRowClamped(dlat', height) <= DemRowClamped(dlat, height)
  {
    ScaleOrder(height, dlat, dlat');
    var y, y' := height - height * dlat, height - height * dlat';
    assert y' <= y;
    assert ClampRow(y', height) <= ClampRow(y, height);
  }

  /** The corrected row stays on the image, and puts the southern edge on
      the bottom row and the northern edge on the top row. */
  lemma DemRowClampedOnImage(dlat: real, height: real)
    requires height >= 1.0
    ensures 0.0 <= DemRowClamped(dlat, height) < height
    ensures DemRowClamped(0.0, height) == height - 1.0
    ensures DemRowClamped(1.0, height) == 0.0
  {
    assert height - height * 0.0 == height;
    assert height - height * 1.0 == 0.0;
  }

  /** Away from the southern row the correction agrees with the source. */
  lemma DemRowClampedAgrees(dlat: real, height: real)
    requires height >= 1.0 && dlat <= 1.0 && height * dlat >= 1.0
    ensures DemRow(dlat, height) == Some(DemRowClamped(dlat, height))
  {
    assert dlat > 0.0 by {
      if dlat <= 0.0 {
        ScaleOrder(height, dlat, 0.0);
      }
    }
    DemRowFromTop(dlat, height);
  }
}

/** The mesh generator of cpp/moonsurface.cpp: the grid sizing, the striding
    of vertex indices over worker threads, the decomposition of a vertex
    index into its grid cell, the per-vertex texture coordinates, the quad
    faces, and the texture crop window. The projector a thread calls for
    each vertex is a parameter. */
module Tessellation {
  import opened Arithmetic
  import opened TextureMap
  import opened Sampler

  /** The mesh options that matter here: the south-west corner, the extent
      in degrees (latitude first) and the vertex density. */
  datatype MeshOptions = MeshOptions(minLat: real, minLon: real, latExtent: real, lonExtent: real,
                                     vertsPerDegree: real)

  /** Non-negative extents and a positive density. */
  predicate WellFormed(o: MeshOptions)
  {
    o.latExtent >= 0.0 && o.lonExtent >= 0.0 && o.vertsPerDegree > 0.0
  }

  /** Vertices per row (`width`) and per column (`height`). */
  datatype Grid = Grid(width: int, height: int)

  /** A vertex's place in the grid: row `lat` from the south, column `lon`
      from the west. */
  datatype Cell = Cell(lat: int, lon: int)

  predicate InGrid(g: Grid, c: Cell)
  {
    0 <= c.lat < g.height && 0 <= c.lon < g.width
  }

  /** The grid sizing of `create_mesh`: one vertex per `1 / density`
      degrees, both ends included, so that `n - 1` is the largest whole
      number of steps that fits into the extent. */
  function GridSize(o: MeshOptions): (g: Grid)
    ensures (g.height - 1) as real <= o.latExtent * o.vertsPerDegree < g.height as real
    ensures (g.width - 1) as real <= o.lonExtent * o.vertsPerDegree < g.width as real
    ensures WellFormed(o) ==> g.width >= 1 && g.height >= 1
  {
    Grid(Floor(o.lonExtent * o.vertsPerDegree) + 1, Floor(o.latExtent * o.vertsPerDegree) + 1)
  }

  function VertexCount(g: Grid): int
  {
    g.width * g.height
  }

  // ---------------------------------------------------------------------
  // Vertex index <-> grid cell

  /** A vertex index splits into its row and column; for a non-negative
      index the truncating division of the source agrees with Dafny's. */
  function Decompose(w: int, i: int): (c: Cell)
    requires w >= 1 && i >= 0
    ensures c.lat * w + c.lon == i
    ensures 0 <= c.lon < w && c.lat >= 0
  {
    QuotientNonNegative(i, w);
    Cell(i / w, i % w)
  }

  /** The row-major index of a cell. */
  function Compose(w: int, c: Cell): int
  {
    c.lat * w + c.lon
  }

  lemma DecomposeCompose(w: int, c: Cell)
    requires w >= 1 && 0 <= c.lon < w && c.lat >= 0
    ensures Compose(w, c) >= 0
    ensures Decompose(w, Compose(w, c)) == c
  {
    MulNonNegative(c.lat, w);
    DivModUnique(Compose(w, c), w, c.lat, c.lon);
  }

  /** A cell with a column in range lies in the grid exactly when its index
      is a vertex index. */
  lemma CellIndexInRange(g: Grid, c: Cell)
    requires g.width >= 1 && 0 <= c.lon < g.width
    ensures InGrid(g, c) <==> 0 <= Compose(g.width, c) < VertexCount(g)
  {
    var w, h := g.width, g.height;
    if InGrid(g, c) {
      MulNonNegative(c.lat, w);
      MulMonotone(c.lat, h - 1, w);
      assert (h - 1) * w + w == w * h;
    }
    if 0 <= Compose(w, c) < VertexCount(g) {
      DecomposeCompose(w, if c.lat >= 0 then c else Cell(0, c.lon));
      if c.lat < 0 {
        MulMonotone(c.lat, -1, w);
      }
      QuotientBelow(Compose(w, c), w, h);
    }
  }

  /** Every vertex index names a cell of the grid. */
  lemma DecomposeInGrid(g: Grid, i: int)
    requires g.width >= 1 && 0 <= i < VertexCount(g)
    ensures InGrid(g, Decompose(g.width, i))
  {
    QuotientBelow(i, g.width, g.height);
  }

  /** The latitude and longitude of a cell's vertex. */
  function CellLatLon(o: MeshOptions, c: Cell): LatLon
    requires o.vertsPerDegree != 0.0
  {
    LatLon(o.minLat + c.lat as real / o.vertsPerDegree, o.minLon + c.lon as real / o.vertsPerDegree)
  }

  /** Neighbouring vertices are one step of `1 / vertsPerDegree` degrees
      apart, north and east. */
  lemma CellSpacing(o: MeshOptions, c: Cell)
    requires o.vertsPerDegree != 0.0
    ensures CellLatLon(o, Cell(c.lat + 1, c.lon)).lat == CellLatLon(o, c).lat + 1.0 / o.vertsPerDegree
    ensures CellLatLon(o, Cell(c.lat, c.lon + 1)).lon == CellLatLon(o, c).lon + 1.0 / o.vertsPerDegree
  {
    var d := o.vertsPerDegree;
    assert (c.lat + 1) as real / d == c.lat as real / d + 1.0 / d;
    assert (c.lon + 1) as real / d == c.lon as real / d + 1.0 / d;
  }

  /** Every vertex of the grid lies inside the requested extent, and the
      first one is its south-west corner. */
  lemma CellInsideExtent(o: MeshOptions, c: Cell)
    requires WellFormed(o) && InGrid(GridSize(o), c)
    ensures o.minLat <= CellLatLon(o, c).lat <= o.minLat + o.latExtent
    ensures o.minLon <= CellLatLon(o, c).lon <= o.minLon + o.lonExtent
    ensures c == Cell(0, 0) ==> CellLatLon(o, c) == LatLon(o.minLat, o.minLon)
  {
    var g := GridSize(o);
    StepsWithin(c.lat as real, o.latExtent, o.vertsPerDegree);
    StepsWithin(c.lon as real, o.lonExtent, o.vertsPerDegree);
  }

  lemma StepsWithin(n: real, extent: real, d: real)
    requires d > 0.0 && 0.0 <= n <= extent * d
    ensures 0.0 <= n / d <= extent
  {
    assert n / d <= (extent * d) / d;
  }

  // ---------------------------------------------------------------------
  // Work distribution over threads

  /** The vertex indices a thread starting at `t` visits, in order, when
      `threads` threads share `n` vertices: t, t + threads, ... below n. */
  function Stripe(t: int, threads: int, n: int): (s: seq<int>)
    requires threads >= 1
    ensures forall k :: 0 <= k < |s| ==> s[k] == t + k * threads && s[k] < n
    ensures t + |s| * threads >= n
    decreases n - t
  {
    if t >= n then [] else [t] + Stripe(t + threads, threads, n)
  }

  /** Thread `t` visits exactly the vertex indices congruent to `t`. */
  lemma StripeMembership(t: int, threads: int, n: int, i: int)
    requires 0 <= t < threads
    ensures i in Stripe(t, threads, n) <==> 0 <= i < n && i % threads == t
  {
    var s := Stripe(t, threads, n);
    if i in s {
      var k :| 0 <= k < |s| && s[k] == i;
      MulNonNegative(k, threads);
      DivModUnique(i, threads, k, t);
    }
    if 0 <= i < n && i % threads == t {
      var k := i / threads;
      DivModBasics(i, threads);
      if k < 0 {
        MulMonotone(k, -1, threads);
      }
      if k >= |s| {
        MulMonotone(|s|, k, threads);
      }
      assert s[k] == i;
    }
  }

  /** The stripes partition the vertex indices: each index is visited by
      thread `i % threads` and by no other. */
  lemma StripesPartition(threads: int, n: int, i: int)
    requires threads >= 1 && 0 <= i < n
    ensures forall t :: 0 <= t < threads ==> (i in Stripe(t, threads, n) <==> t == i % threads)
  {
    forall t | 0 <= t < threads
      ensures i in Stripe(t, threads, n) <==> t == i % threads
    {
      StripeMembership(t, threads, n, i);
    }
  }

  /** Two indices of one residue class less than `m` apart are equal. */
  lemma SameResidue(i: int, j: int, m: int)
    requires m >= 1 && i % m == j % m && i <= j < i + m
    ensures i == j
  {
    DivModBasics(i, m);
    DivModBasics(j, m);
    assert j - i == (j / m - i / m) * m;
    if j / m > i / m {
      MulAtLeast(j / m - i / m, m);
    } else if j / m < i / m {
      MulAtLeast(i / m - j / m, m);
    }
  }

  /** From one index of a stripe the next one is `threads` further on, and
      nothing in between belongs to the stripe. */
  lemma NextInStripe(i: int, threads: int)
    requires threads >= 1 && i >= 0
    ensures (i + threads) % threads == i % threads
    ensures forall j :: i < j < i + threads ==> j % threads != i % threads
  {
    forall j | i < j < i + threads
      ensures j % threads != i % threads
    {
      if j % threads == i % threads {
        SameResidue(i, j, threads);
      }
    }
    DivModBasics(i, threads);
    DivModUnique(i + threads, threads, i / threads + 1, i % threads);
  }

  /** The vertex stored at index `j`: the projection of its cell's
      latitude and longitude. */
  function VertexAt<V>(o: MeshOptions, project: LatLon -> V, j: int): V
    requires WellFormed(o) && j >= 0
  {
    project(CellLatLon(o, Decompose(GridSize(o).width, j)))
  }

  /** `work_thread`: walks the stripe of thread `t` and stores each visited
      vertex; every other slot is left as it was. */
  method WorkThread<V>(o: MeshOptions, t: int, threads: int, project: LatLon -> V, vertices: seq<V>)
    returns (out: seq<V>)
    requires WellFormed(o) && 0 <= t < threads && |vertices| == VertexCount(GridSize(o))
    ensures |out| == |vertices|
    ensures forall j :: 0 <= j < |out| ==>
      out[j] == if j % threads == t then VertexAt(o, project, j) else vertices[j]
  {
    var g := GridSize(o);
    var w, n := g.width, g.width * g.height;
    out := vertices;
    var i := t;
    DivModUnique(i, threads, 0, t);
    while i < n
      invariant t <= i && i % threads == t && |out| == n
      invariant forall j :: 0 <= j < n ==>
        out[j] == if j % threads == t && j < i then VertexAt(o, project, j) else vertices[j]
    {
      var latIdx, lonIdx := i / w, i % w;
      var lat := o.minLat + latIdx as real / o.vertsPerDegree;
      var lon := o.minLon + lonIdx as real / o.vertsPerDegree;
      assert project(LatLon(lat, lon)) == VertexAt(o, project, i);
      out := out[i := project(LatLon(lat, lon))];
      NextInStripe(i, threads);
      i := i + threads;
    }
  }

  /** `create_mesh`'s thread loop: every thread runs WorkThread on the
      shared vector. The stripes are disjoint (StripesPartition), so the
      threads' writes never meet and running them one after the other
      computes what the concurrent run does. With at least one thread every
      slot holds its own vertex; with none, the vector keeps its initial
      value. */
  method Tessellate<V>(o: MeshOptions, threads: int, project: LatLon -> V, blank: V)
    returns (vertices: seq<V>)
    requires WellFormed(o) && threads >= 0
    ensures |vertices| == VertexCount(GridSize(o))
    ensures threads >= 1 ==> forall i :: 0 <= i < |vertices| ==>
      vertices[i] == project(CellLatLon(o, Decompose(GridSize(o).width, i)))
    ensures threads == 0 ==> forall i :: 0 <= i < |vertices| ==> vertices[i] == blank
  {
    var n := VertexCount(GridSize(o));
    MulNonNegative(GridSize(o).width, GridSize(o).height);
    vertices := seq(n, _ => blank);
    var t := 0;
    while t < threads
      invariant 0 <= t <= threads && |vertices| == n
      invariant forall j :: 0 <= j < n ==>
        vertices[j] == if threads >= 1 && j % threads < t then VertexAt(o, project, j) else blank
    {
      vertices := WorkThread(o, t, threads, project, vertices);
      t := t + 1;
    }
  }

  // ---------------------------------------------------------------------
  // Texture coordinates

  datatype Uv = Uv(u: real, v: real)

  /** The `vt` line of a vertex: its column and row as fractions of the
      grid. */
  function VertexUv(g: Grid, c: Cell): Uv
    requires g.width >= 2 && g.height >= 2
  {
    Uv(c.lon as real / (g.width - 1) as real, c.lat as real / (g.height - 1) as real)
  }

  /** The grid spans the unit square: its west and south edges are at 0,
      its east and north edges at 1, and no other vertex is on either. */
  lemma VertexUvBounds(g: Grid, c: Cell)
    requires g.width >= 2 && g.height >= 2
    ensures InGrid(g, c) ==> 0.0 <= VertexUv(g, c).u <= 1.0 && 0.0 <= VertexUv(g, c).v <= 1.0
    ensures VertexUv(g, c).u == 0.0 <==> c.lon == 0
    ensures VertexUv(g, c).u == 1.0 <==> c.lon == g.width - 1
    ensures VertexUv(g, c).v == 0.0 <==> c.lat == 0
    ensures VertexUv(g, c).v == 1.0 <==> c.lat == g.height - 1
  {
    FractionOfSpan(c.lon, g.width - 1);
    FractionOfSpan(c.lat, g.height - 1);
  }

  lemma FractionOfSpan(i: int, n: int)
    requires n >= 1
    ensures 0 <= i <= n ==> 0.0 <= i as real / n as real <= 1.0
    ensures i as real / n as real == 0.0 <==> i == 0
    ensures i as real / n as real == 1.0 <==> i == n
  {
    var x := i as real / n as real;
    assert x * n as real == i as real;
  }

  /** Texture coordinates grow with the column and with the row. */
  lemma VertexUvIncreasing(g: Grid, c: Cell, c': Cell)
    requires g.width >= 2 && g.height >= 2
    ensures c.lon < c'.lon <==> VertexUv(g, c).u < VertexUv(g, c').u
    ensures c.lat < c'.lat <==> VertexUv(g, c).v < VertexUv(g, c').v
  {
    Quotients(c.lon as real, c'.lon as real, (g.width - 1) as real);
    Quotients(c.lat as real, c'.lat as real, (g.height - 1) as real);
  }

  lemma Quotients(a: real, b: real, d: real)
    requires d > 0.0
    ensures a < b <==> a / d < b / d
  {
    assert a / d * d == a && b / d * d == b;
  }

  /** The uv loop of `create_mesh`, rows outside, columns inside: the k-th
      `vt` line belongs to vertex k, which is what lets every face reuse its
      vertex index as its texture index. */
  method EmitUvs(g: Grid) returns (uvs: seq<Uv>)
    requires g.width >= 2 && g.height >= 2
    ensures |uvs| == VertexCount(g)
    ensures forall k :: 0 <= k < |uvs| ==> uvs[k] == VertexUv(g, Decompose(g.width, k))
  {
    var w := g.width;
    uvs := [];
    var lat := 0;
    while lat < g.height
      invariant 0 <= lat <= g.height && |uvs| == lat * w
      invariant forall k :: 0 <= k < |uvs| ==> uvs[k] == VertexUv(g, Decompose(w, k))
    {
      var lon := 0;
      while lon < w
        invariant 0 <= lon <= w && |uvs| == lat * w + lon
        invariant forall k :: 0 <= k < |uvs| ==> uvs[k] == VertexUv(g, Decompose(w, k))
      {
        var uv := Uv(lon as real / (w - 1) as real, lat as real / (g.height - 1) as real);
        DecomposeCompose(w, Cell(lat, lon));
        assert uv == VertexUv(g, Decompose(w, |uvs|));
        uvs := uvs + [uv];
        lon := lon + 1;
      }
      assert lat * w + w == (lat + 1) * w;
      lat := lat + 1;
    }
  }

  // ---------------------------------------------------------------------
  // Faces

  /** An `f` line: four 1-based OBJ indices, each used for the vertex and
      for its texture coordinate. */
  datatype Face = Face(a: int, b: int, c: int, d: int)

  /** The quad whose south-west vertex is cell `c`. */
  function Quad(w: int, c: Cell): (f: Face)
    ensures f.a == Compose(w, c) + 1
    ensures f.b == Compose(w, Cell(c.lat, c.lon + 1)) + 1
    ensures f.c == Compose(w, Cell(c.lat + 1, c.lon + 1)) + 1
    ensures f.d == Compose(w, Cell(c.lat + 1, c.lon)) + 1
  {
    var k := c.lat * w + c.lon + 1;
    Face(k, k + 1, k + w + 1, k + w)
  }

  /** A quad's corners are, in order, its cell, the east neighbour, the
      north-east neighbour and the north neighbour: four distinct vertices
      of the grid, counter-clockwise with east along u and north along v. */
  lemma QuadCorners(g: Grid, c: Cell)
    requires g.width >= 2 && 0 <= c.lat < g.height - 1 && 0 <= c.lon < g.width - 1
    ensures var f := Quad(g.width, c);
      && Decompose(g.width, f.a - 1) == c
      && Decompose(g.width, f.b - 1) == Cell(c.lat, c.lon + 1)
      && Decompose(g.width, f.c - 1) == Cell(c.lat + 1, c.lon + 1)
      && Decompose(g.width, f.d - 1) == Cell(c.lat + 1, c.lon)
    ensures var f := Quad(g.width, c);
      1 <= f.a < f.b < f.d < f.c <= VertexCount(g)
  {
    var w := g.width;
    var f := Quad(w, c);
    assert f.c - 1 == Compose(w, Cell(c.lat + 1, c.lon + 1));
    assert f.d - 1 == Compose(w, Cell(c.lat + 1, c.lon));
    DecomposeCompose(w, c);
    DecomposeCompose(w, Cell(c.lat, c.lon + 1));
    DecomposeCompose(w, Cell(c.lat + 1, c.lon + 1));
    DecomposeCompose(w, Cell(c.lat + 1, c.lon));
    CellIndexInRange(g, Cell(c.lat + 1, c.lon + 1));
  }

  /** The face loop of `create_mesh`: one quad per cell that has an east
      and a north neighbour, rows outside, columns inside. */
  method EmitFaces(g: Grid) returns (faces: seq<Face>)
    requires g.width >= 1 && g.height >= 1
    ensures |faces| == (g.width - 1) * (g.height - 1)
    ensures forall k :: 0 <= k < |faces| ==>
      g.width >= 2 && faces[k] == Quad(g.width, Decompose(g.width - 1, k))
  {
    var w := g.width;
    faces := [];
    var lat := 0;
    while lat < g.height - 1
      invariant 0 <= lat <= g.height - 1 && |faces| == lat * (w - 1)
      invariant forall k :: 0 <= k < |faces| ==> w >= 2 && faces[k] == Quad(w, Decompose(w - 1, k))
    {
      var lon := 0;
      while lon < w - 1
        invariant 0 <= lon <= w - 1 && |faces| == lat * (w - 1) + lon
        invariant forall k :: 0 <= k < |faces| ==> w >= 2 && faces[k] == Quad(w, Decompose(w - 1, k))
      {
        var coord := lat * w + lon + 1;
        var face := Face(coord, coord + 1, coord + w + 1, coord + w);
        DecomposeCompose(w - 1, Cell(lat, lon));
        assert face == Quad(w, Decompose(w - 1, |faces|));
        faces := faces + [face];
        lon := lon + 1;
      }
      assert lat * (w - 1) + (w - 1) == (lat + 1) * (w - 1);
      lat := lat + 1;
    }
  }

  // ---------------------------------------------------------------------
  // Texture crop window

  /** The bounds `create_texture` computes, as fractions of the global
      texture. */
  datatype TextureWindow = TextureWindow(minLatUv: real, maxLatUv: real, minLonUv: real, maxLonUv: real)

  /** The window spans the requested extent at the global texture's
      scale (180 degrees of latitude and 360 of longitude to the unit), and
      it lies inside the texture exactly when the extent lies on the
      globe. */
  function CropWindow(o: MeshOptions): (r: TextureWindow)
    ensures (r.maxLatUv - r.minLatUv) * 180.0 == o.latExtent
    ensures (r.maxLonUv - r.minLonUv) * 360.0 == o.lonExtent
    ensures o.latExtent >= 0.0 ==>
      (-90.0 <= o.minLat && o.minLat + o.latExtent <= 90.0 <==> 0.0 <= r.minLatUv && r.maxLatUv <= 1.0)
    ensures o.lonExtent >= 0.0 ==>
      (-180.0 <= o.minLon && o.minLon + o.lonExtent <= 180.0 <==> 0.0 <= r.minLonUv && r.maxLonUv <= 1.0)
  {
    var lo := LatLonToUv(o.minLat, o.minLon);
    var hi := LatLonToUv(o.minLat + o.latExtent, o.minLon + o.lonExtent);
    TextureWindow(lo.1, hi.1, lo.0, hi.0)
  }

  /** Two degrees square at one vertex per degree: a three-by-three grid
      with four quads. */
  lemma SmallGrid()
    ensures GridSize(MeshOptions(-1.0, -1.0, 2.0, 2.0, 1.0)) == Grid(3, 3)
    ensures VertexCount(Grid(3, 3)) == 9
  {
    FloorUnique(2.0, 2);
  }
}

# Moon surface generator: elevation lookup and mesh arithmetic

The generator builds a textured mesh of a patch of the Moon's surface in
three steps:

1. It looks up elevations in a set of digital elevation models (DEMs).
2. It lays a regular latitude/longitude grid of vertices over the patch.
   Worker threads fill the grid, and the result is written as an OBJ mesh
   with per-vertex texture coordinates and quad faces.
3. A Python script splits a `.mesh` file into vertex, edge and face blocks
   and assigns UV rectangles to the faces.

This project models the discrete and real-arithmetic core of those steps and
proves its properties. Floats are modelled as mathematical reals.

- **Sampling one tile** (`SingleDEM::sample`, module `Sampler`):
  - a query that crosses a pole is folded back;
  - the geospatial transform (an oracle) and the inverted affine geotransform
    (`GeoTransform`) give fractional pixel coordinates;
  - the row is checked;
  - the column is wrapped for a tile that circumnavigates the globe, and
    checked otherwise;
  - each of the four corners is read and compared with the no-data value;
  - the corners are interpolated bilinearly and the sphere radius is added.
- **Resolving several tiles** (`DEMManager::sample`, module `Manager`): a fold
  over the tiles in load order. A successful sample replaces the running answer
  when its footprint magnitude is strictly below the running resolution.
- **Projection** (the `getCartesian` overloads, module `Cartesian`):
  - the sine and cosine values are inputs;
  - the structure is modelled: base conversion, then the tangent-frame
    rotations and translation, then the scale applied last.
- **Tessellation driver** (`create_mesh` and `work_thread`, module
  `Tessellation`):
  - grid sizing;
  - the round-robin stripe of cell indices each thread visits;
  - splitting a cell index into latitude and longitude indices;
  - the vertex buffer after all stripes;
  - the UV and face loops;
  - the crop window of `create_texture`.
- **Python layout arithmetic** (`moonsurface.py`):
  - `lat_lon_to_uv` (module `TextureMap`);
  - the block slicing of a `.mesh` file, using Python slice semantics;
  - face-index decomposition and per-face UV rectangles;
  - the float modulo that addresses DEM pixels in `process_pixel`, which
    follows Python's floor semantics and raises `ZeroDivisionError` on a
    zero divisor (module `Layout`).

Notes on the code's behaviour at its edges:

- The two pole checks in `SingleDEM::sample` run one after the other. A
  latitude above 270 is mirrored twice, giving lat - 360 and lon + 360. A
  latitude below -270 is mirrored once and lands above 90.
- `Sampler.Normalize` therefore brings a latitude back into [-90, 90] exactly
  for latitudes in [-270, 450], which includes every latitude in
  [-270, 270].
- The column wrap adds or subtracts the width once. Columns outside
  [-width, 2·width) stay out of range.
- A corner read outside the raster leaves the read buffer untouched.
  `Sampler.Read` models this with the buffer's previous value (`junk`, for the
  uninitialised first read). Rows are checked before any read, so only a
  column can be outside: on a circumnavigating tile, a column more than one
  width outside the raster is not wrapped into it, and the sample then
  reuses an earlier corner's value (`Sampler.FarColumnReadsStale`).
- OBJ face indices are 1-based, so `Tessellation.Quad` adds one.
- The resolver stores the SIGNED footprint (see Findings).

## Model

| member | source | states |
|---|---|---|
| GeoTransform.Apply | cpp/dem.cpp:85-86 | the identity coefficients leave every point where it is, and the origin goes to the two offset coefficients |
| GeoTransform.ApplyPreservesBetween | cpp/dem.cpp:85-86 | the affine step takes the point a fraction of the way between two points to the point the same fraction of the way between their images |
| GeoTransform.Invert | cpp/dem.cpp:23 | the inverse affine map exists exactly when the determinant is non-zero |
| GeoTransform.InvertIsLeftInverse | cpp/dem.cpp:23 | the inverted geotransform undoes the pixel-to-projected map at every point |
| GeoTransform.InvertIsRightInverse | cpp/dem.cpp:23 | the pixel-to-projected map undoes the inverted geotransform at every point |
| GeoTransform.GeoToImage | cpp/dem.cpp:23-31 | a singular geotransform falls back to the identity; otherwise the stored map is a two-sided inverse of the pixel-to-projected map |
| GeoTransform.IdentityFixesEveryPoint | cpp/dem.cpp:25-30 | the fallback coefficients (0,1,0,0,0,1) map every point to itself |
| GeoTransform.PixelSize | cpp/dem.cpp:32 | the footprint is negative for a north-up raster (positive x step, negative y step), and zero when either step is zero |
| Sampler.Normalize | cpp/dem.cpp:67-74 | latitudes in [-90, 90] are left unchanged; (90, 270] becomes 180-lat with lon+180; [-270, -90) becomes -180-lat with lon+180; above 270 both mirrors fire, giving lat-360 with lon+360; below -270 the result is above 90; the result lies in [-90, 90] exactly when lat is in [-270, 450] |
| Sampler.NormalizeIdempotent | cpp/dem.cpp:67-74 | normalising again changes nothing exactly when the first pass landed in [-90, 90] |
| Sampler.Floor | cpp/dem.cpp:88 | the integer floor lies at most one below the coordinate |
| Sampler.Ceil | cpp/dem.cpp:89 | the integer ceiling is the floor, or the floor plus one for a non-integer coordinate |
| Sampler.Frac | cpp/dem.cpp:146-147 | the fractional part lies in [0, 1) and adds to the floor to give the coordinate back |
| Sampler.WrapColumn | cpp/dem.cpp:97-110 | a column in range is unchanged; a column in [-width, 2·width) lands in [0, width) and is congruent to the original modulo width; columns further out stay out of range |
| Sampler.Read | cpp/dem.cpp:121-140 | a read inside the raster returns the pixel; a read at any row or column outside it returns the buffer's previous value |
| Sampler.Lerp | cpp/dem.cpp:148-150 | interpolation with a weight in [0, 1] lies between its two ends and returns the first at weight 0 |
| Sampler.Bilinear | cpp/dem.cpp:146-150 | with both fractions in [0, 1] the result lies between the minimum and maximum of the four corners; with both zero it is the top-left corner |
| Sampler.SampleImage | cpp/dem.cpp:88-155 | success implies 0 ≤ row floor ≤ row ceiling < height; a negative row or a ceiling at or beyond the height fails; for a tile that does not circumnavigate, success implies the column floor and ceiling are in [0, width), and a column out of range fails |
| Sampler.SampleImageCharacterized | cpp/dem.cpp:88-155 | for a well-formed tile whose wrapped columns stay within one width, the sampler succeeds exactly when the row and columns are covered and no corner equals the no-data value; the value is then the bilinear interpolation of the four corners plus the sphere radius |
| Sampler.ReadsAreCorners | cpp/dem.cpp:97-143 | for covered coordinates the four reads return the pixels at the wrapped floor and ceiling columns and rows |
| Sampler.SampleAtPixelCentre | cpp/dem.cpp:146-155 | at whole pixel coordinates the sample is that pixel plus the sphere radius, or a failure when that pixel is no-data |
| Sampler.WrapContinuity | cpp/dem.cpp:97-110 | on a circumnavigating tile, for a column whose floor and ceiling both lie on the raster, shifting the column by one width either way gives the same sample |
| Sampler.FarColumnReadsStale | cpp/dem.cpp:97-143 | on a circumnavigating 1×2 tile [1, 2], column 3.5 is left outside the raster by the single wrap, and the sample is 2 (an earlier corner's value) rather than 1.5, the interpolation at the wrapped column |
| Sampler.ImagePosition | cpp/dem.cpp:75-86 | the query's pixel position is absent exactly when the transform rejects the normalised query; otherwise the pixel-to-projected map sends it back to the projected point, or it is that point itself when the map is singular |
| Sampler.Sample | cpp/dem.cpp:66-156 | a query the geospatial transform rejects fails; a success means the transform accepted the normalised query and its pixel position lies on existing rows, and on existing columns unless the tile wraps |
| Sampler.SampleCharacterized | cpp/dem.cpp:66-155 | at an accepted query whose wrapped columns stay within one width, the sample succeeds exactly when its pixel position is covered and no corner is no-data, and its value is then the bilinear interpolation of the four corners plus the sphere radius |
| Sampler.SampleThroughPole | cpp/dem.cpp:67-74 | for latitudes in [-270, 450] sampling a query equals sampling its normalised form |
| Sampler.SampleInto | cpp/dem.cpp:64-155 | the return code is 0 or 1; it is 1 exactly when sampling fails, and then the output value is untouched; on 0 the output is the sampled value |
| Manager.Step | cpp/dem.cpp:173-177 | a failed sample changes nothing; a change installs the candidate's value and signed footprint; a negative stored resolution is never replaced; the magnitude of the stored resolution never grows |
| Manager.Fold | cpp/dem.cpp:169-179 | the value is present exactly when some tile succeeded, exactly when the resolution is no longer +infinity, and then it is a successful tile's value whose signed footprint is the stored resolution |
| Manager.Resolve | cpp/dem.cpp:168-184 | the answer is the sentinel exactly when every tile failed, and otherwise the value of some successful tile |
| Manager.ResolveLoop | cpp/dem.cpp:168-184 | the imperative loop computes the fold, and answers with the sentinel exactly when every tile failed |
| Manager.SampleTiles | cpp/dem.cpp:168-184 | sampling every tile and resolving answers with the sentinel exactly when every tile's sample fails |
| Manager.FinestWins | cpp/dem.cpp:171-178 | with non-negative footprints, the earliest successful tile of smallest footprint is chosen and its footprint stored |
| Manager.FinestExists | cpp/dem.cpp:171-178 | when some tile succeeded, some tile is the earliest successful one of smallest footprint |
| Manager.ResolveIsFinest | cpp/dem.cpp:168-184 | with non-negative footprints the resolver answers with the sentinel exactly when no tile succeeded, and otherwise with the value of the earliest successful tile of minimal footprint |
| Manager.FinerTileWins | cpp/dem.cpp:174-176 | with footprints 0.5 then 0.1 the second, finer tile answers |
| Manager.NegativeResolutionLocksIn | cpp/dem.cpp:174-176 | once the stored resolution is negative, no later tile changes the state |
| Manager.SignedFootprintKeepsCoarser | cpp/dem.cpp:174-176 | with footprints -0.5 then -0.1 the coarser first tile answers |
| Manager.ByMagnitudeIsFoldOfMagnitudes | cpp/dem.cpp:174-176 | the corrected fold equals the as-written fold over the footprint magnitudes |
| Manager.ResolveByMagnitudeIsFinest | cpp/dem.cpp:168-184 | the corrected resolver answers with the earliest successful tile of smallest footprint magnitude, whatever the signs |
| Manager.ByMagnitudeAgreesOnNonNegative | cpp/dem.cpp:174-176 | where no footprint is negative the corrected resolver answers as the written one does |
| Manager.ByMagnitudePicksFiner | cpp/dem.cpp:174-176 | with footprints -0.5 then -0.1 the corrected resolver picks the finer tile |
| Cartesian.Tilt | cpp/dem.cpp:214 | the tilt angle -(90 - lat) is on the unit circle when the centre latitude is |
| Cartesian.ToCartesian | cpp/dem.cpp:186-194 | the body-centred point lies at distance `radius` from the centre |
| Cartesian.RotateAboutZ | cpp/dem.cpp:207-211 | the rotation about the polar axis keeps z and the distance from the centre |
| Cartesian.RotateAboutY | cpp/dem.cpp:213-217 | the rotation about the y axis keeps y and the distance from the centre |
| Cartesian.ToTangent | cpp/dem.cpp:204-224 | apart from the downward translation by the centre elevation, the tangent frame keeps distances from the centre |
| Cartesian.Scale | cpp/dem.cpp:196-202 | scaling multiplies the squared norm by the squared factor and keeps the origin |
| Cartesian.ScaleInverse | cpp/dem.cpp:196-202 | scaling by a non-zero factor and then by its inverse gives back the point |
| Cartesian.GlobalPoint | cpp/dem.cpp:196-202 | the point is non-finite exactly when no tile answered; otherwise its squared norm is scale² times elevation² |
| Cartesian.FlatPoint | cpp/dem.cpp:226-232 | the point is non-finite exactly when the point's or the centre's elevation is missing |
| Cartesian.CentreMapsToOrigin | cpp/dem.cpp:204-232 | the centre, at its own elevation, maps to the origin of its tangent frame at every scale |
| TextureMap.LatLonToUv | moonsurface.py:3-4 | u is in [0, 1] exactly when lon is in [-180, 180], and v is in [0, 1] exactly when lat is in [-90, 90] |
| TextureMap.LatLonToUvIncreasing | moonsurface.py:3-4 | u grows strictly with longitude and v strictly with latitude, in both directions of the comparison |
| TextureMap.UvRoundTrip | moonsurface.py:3-4 | the map has an inverse: converting angles to texture coordinates and back, or the other way round, gives back the input |
| Tessellation.GridSize | cpp/moonsurface.cpp:34-35 | each dimension is the largest whole number of steps within the extent, plus one; for non-negative extents and positive density both are at least 1 |
| Tessellation.Decompose | cpp/moonsurface.cpp:16-17 | lat·w + lon equals the index, with 0 ≤ lon < w and lat ≥ 0 |
| Tessellation.DecomposeCompose | cpp/moonsurface.cpp:16-17 | decomposing a composed in-row cell gives back that cell |
| Tessellation.CellIndexInRange | cpp/moonsurface.cpp:15-17 | a cell with lon in [0, w) is in the grid exactly when its index is in [0, w·h) |
| Tessellation.DecomposeInGrid | cpp/moonsurface.cpp:15-17 | every index below w·h decomposes into a cell of the grid (lat < h) |
| Tessellation.CellInsideExtent | cpp/moonsurface.cpp:18-19 | every grid vertex lies within the requested extent, and cell (0, 0) is the minimum corner |
| Tessellation.CellSpacing | cpp/moonsurface.cpp:18-19 | the vertex positions `CellLatLon` computes are one step of 1/density degrees apart between neighbouring cells, north and east |
| Tessellation.Stripe | cpp/moonsurface.cpp:15 | the stripe of thread t is t, t+T, t+2T, … below n, and stops at the first such index at or above n |
| Tessellation.StripeMembership | cpp/moonsurface.cpp:15 | an index is in thread t's stripe exactly when it is in [0, n) and congruent to t modulo T |
| Tessellation.StripesPartition | cpp/moonsurface.cpp:15 | every index in [0, n) lies in exactly one thread's stripe, so the stripes are disjoint and their union is [0, w·h) |
| Tessellation.NextInStripe | cpp/moonsurface.cpp:15 | stepping by T keeps the residue, and no index strictly between shares it |
| Tessellation.WorkThread | cpp/moonsurface.cpp:10-29 | one thread writes the projected vertex into exactly the slots of its stripe and leaves the rest unchanged |
| Tessellation.Tessellate | cpp/moonsurface.cpp:34-53 | the buffer has w·h slots; with at least one thread each slot holds the projection of its own cell's latitude and longitude, and with none every slot stays blank |
| Tessellation.VertexUvBounds | cpp/moonsurface.cpp:67-71 | for w, h ≥ 2 every UV of the grid lies in [0, 1]; u is 0 exactly on the first column and 1 exactly on the last, and likewise v on the rows |
| Tessellation.VertexUvIncreasing | cpp/moonsurface.cpp:67-71 | u increases strictly with the column and v with the row |
| Tessellation.EmitUvs | cpp/moonsurface.cpp:66-71 | the loop emits w·h UVs, the k-th being the UV of the k-th cell in row-major order |
| Tessellation.Quad | cpp/moonsurface.cpp:77-81 | the four indices of a face are the 1-based row-major indices of the cell, its east, north-east and north neighbours |
| Tessellation.QuadCorners | cpp/moonsurface.cpp:77-81 | the four 1-based indices are the cell, its east, north-east and north neighbours, strictly ordered and within [1, w·h] |
| Tessellation.EmitFaces | cpp/moonsurface.cpp:73-83 | the loops emit (w-1)·(h-1) faces, the k-th being the quad of the k-th face cell in row-major order |
| Tessellation.CropWindow | cpp/moonsurface.cpp:110-113 | the window spans the extent at 180 and 360 degrees to the unit, and for a non-negative extent lies in [0, 1] exactly when the extent lies on the globe |
| Tessellation.SmallGrid | cpp/moonsurface.cpp:34-38 | a 2°×2° patch at one vertex per degree is a 3×3 grid of 9 vertices |
| Layout.VertexLineCount | moonsurface.py:132 | the vertex block has as many lines as the C++ vertex buffer has slots, at least one for a proper grid |
| Layout.EdgeLineCount | moonsurface.py:133 | the edge count of a proper grid is non-negative and below two per vertex |
| Layout.RowEdges | moonsurface.py:133 | one row contributes its east links and, below the top row, its north links, each joining a vertex to its east or north neighbour |
| Layout.GridEdges | moonsurface.py:133 | the first m rows have m·(w-1) east links plus a north link per vertex below the top row |
| Layout.EdgeCountIsNeighbourPairs | moonsurface.py:133 | the edge count w·(h-1) + (w-1)·h is the number of neighbour pairs of the grid |
| Layout.SliceBound | moonsurface.py:134-136 | a Python slice bound in [-n, n] is taken as is or counted from the end; one past the end becomes n and one before -n becomes 0 |
| Layout.Slice | moonsurface.py:134-135 | a slice with bounds in range is the subsequence, an empty or reversed one is empty, and one whose stop is past the end is the rest of the sequence from its start |
| Layout.SliceFrom | moonsurface.py:136 | a tail slice in range is the suffix, and one past the end is empty |
| Layout.SplitMesh | moonsurface.py:129-136 | for a proper grid the vertex, edge and face blocks together are every line after the header, in order; the vertex block is exactly the w·h lines after the header when the file is long enough, and the edge block has its full count when the file is long enough |
| Layout.SplitMeshRoundTrip | moonsurface.py:132-136 | a header followed by full vertex and edge blocks and any face lines splits back into those blocks |
| Layout.FaceCellInGrid | moonsurface.py:183-185 | the face index is row·facesWidth + column, with the column below facesWidth and the row below facesHeight |
| Layout.FaceCorners | moonsurface.py:191 | four corners in the order base, (extent.u, base.v), extent, (base.u, extent.v): a counter-clockwise rectangle of twice its area |
| Layout.FaceRectAsWritten | moonsurface.py:174-189 | with divisors facesWidth+1 and facesHeight+1, base < extent componentwise and every coordinate lies in [0, 1) |
| Layout.FaceUvAsWritten | moonsurface.py:187-191 | the as-written loop UVs form a counter-clockwise rectangle of positive area |
| Layout.FaceUvAsWrittenFallsShort | moonsurface.py:174-189 | a single face covers only [0, 0.5]²; the last face ends at (fw/(fw+1), fh/(fh+1)), short of the declared extent (1, 1) |
| Layout.FaceRect | moonsurface.py:174-189 | with divisors facesWidth and facesHeight, base < extent componentwise and every coordinate lies in [0, 1] |
| Layout.FaceUv | moonsurface.py:187-191 | the corrected loop UVs form a counter-clockwise rectangle of positive area |
| Layout.FaceUvSpansUnitSquare | moonsurface.py:174-176 | the corrected first face starts at (0, 0) and the last one ends at (1, 1) |
| Layout.FaceUvMatchesVertexUv | moonsurface.py:183-191 | the corrected UVs of face k are the per-vertex UVs of the corners of the C++ quad for the same face, in the same order |
| Layout.PyMod | moonsurface.py:39-40 | Python float modulo raises (None) exactly for a zero divisor |
| Layout.PyModRange | moonsurface.py:39-40 | the remainder takes the divisor's sign: in [0, b) for b > 0 and in (b, 0] for b < 0; a minus the remainder is a whole multiple of b |
| Layout.PyModCharacterized | moonsurface.py:39-40 | whenever a = q·b + r with q whole and r of the divisor's sign and smaller magnitude, Python's `%` gives r |
| Layout.PyModPeriodic | moonsurface.py:39-40 | adding a whole multiple of the divisor does not change the remainder |
| Layout.DemPixel | moonsurface.py:34-40 | the address raises exactly when an angular extent or an image dimension is zero |
| Layout.DemPixelInImage | moonsurface.py:34-40 | for non-zero extents and positive image size the address exists and lies in [0, width) × [0, height) |
| Layout.DemColumnInImage | moonsurface.py:39 | for a positive width the column lies in [0, width) |
| Layout.DemRowInImage | moonsurface.py:40 | for a positive height the row lies in [0, height) |
| Layout.Fraction | moonsurface.py:35-36 | the fraction measures the point across the extent: start + fraction·extent is the point, 0 at the start and 1 at the far edge |
| Layout.DemColumn | moonsurface.py:39 | the column raises exactly when the image width is zero |
| Layout.DemRow | moonsurface.py:40 | the row raises exactly when the image height is zero |
| Layout.FractionShift | moonsurface.py:35-36 | moving a point by one extent moves its fraction by exactly one |
| Layout.DemColumnPeriodic | moonsurface.py:39 | a longitude fraction one larger addresses the same column |
| Layout.DemPixelWrapsLongitude | moonsurface.py:34-40 | moving the longitude by one full angular extent addresses the same pixel |
| Layout.DemRowFromTop | moonsurface.py:40 | for a latitude fraction in (0, 1] the row counts from the top, height·(1 - dlat) |
| Layout.SouthEdgeIsTopRow | moonsurface.py:40 | on the southern edge of the extent (dlat = 0) the modulo wraps the row to 0, the top row, the same row as the northern edge; halfway the row is height/2 |
| Layout.DemRowClampedOrdered | moonsurface.py:40 | the corrected row never increases going north |
| Layout.DemRowClampedOnImage | moonsurface.py:40 | the corrected row stays on the image, with the southern edge on the bottom row and the northern edge on the top row |
| Layout.DemRowClampedAgrees | moonsurface.py:40 | the corrected row equals the source's wherever the latitude is at least one row above the southern edge |

## Left out

- The geospatial library: opening rasters, spatial references, the
  lat/lon-to-projected transform (a function-valued field of the tile that
  may reject a point), raster reads (a pixel grid with out-of-range reads
  leaving the buffer untouched) and the no-data lookup (a field).
- The equirectangular and full-circle detection at cpp/dem.cpp:34-60, with
  its 1e-8 tolerance: `circumnavigates` is an input.
- The internals and tolerance of the geotransform inversion: `GeoTransform.Invert`
  uses the exact determinant test.
- IEEE float rounding, infinities and NaN. Reals are exact. The `-INFINITY`
  sentinel and a non-finite projected point are `None`.
- `(int)floor`/`(int)ceil` overflow for huge coordinates: integers are unbounded.
- Tessellation.GridSize, Tessellation.Stripe and Tessellation.Tessellate: the
  source's 32-bit `int` products `vertices_height * vertices_width`
  (cpp/moonsurface.cpp:15 and :38) and the stride `coord_idx += thread_count`
  (:15) can overflow for very large grids; the model's integers are
  unbounded, so it does not model that overflow.
- Trigonometry, in `getCartesian` and in `process_pixel` (`math.cos`,
  `math.sin`, `math.radians`): each angle is given by its cosine and sine, as
  inputs on the unit circle.
- Cartesian.FlatPoint: its contract states only when the point is finite. The
  geometric facts are stated on its parts (ToTangent, Scale) and by
  CentreMapsToOrigin.
- Thread creation, joining and concurrency: the threads write disjoint
  stripes, so they are modelled as stripes applied one after the other.
- File output: OBJ vertex/UV/face text, the MTL file, and the texture crop
  at cpp/moonsurface.cpp:115-125. Only the emitted numbers are
  modelled.
- Parsing: the integer header of the `.mesh` file and the float/int line
  parsing of the blocks. The split takes w and h as already parsed.
- `cutout_img_lat_lon` (PIL mosaics), `img.getpixel`, the rest of
  `process_pixel` after the pixel address, pickle, the ephemeris and sun angle.
- All Blender object, material and node set-up in `create_moon`, beyond the
  index arithmetic.
- `load_moon.py`, command-line parsing, and the header files (declarations only).
- Tessellation.VertexUvBounds and Tessellation.EmitUvs require w, h ≥ 2: with
  one row or column the source divides 0 by 0 (NaN).
- Tessellation.CellInsideExtent and Tessellation.Tessellate require
  non-negative extents and a positive density. Other inputs give degenerate
  grids that the model does not describe:
  - an extent in (-1/density, 0) gives a dimension 0 and an empty buffer;
  - a more negative extent gives a negative dimension, and the buffer at
    cpp/moonsurface.cpp:38 is sized by the product of the dimensions, which
    is positive when both are negative (extents -5 and -5 at density 1 give
    dimensions -4 and -4 and a 16-slot buffer) and otherwise converts to a
    huge unsigned size and throws `length_error`;
  - a negative density with positive extents flips the signs the same way;
  - a zero density gives a 1×1 grid (cpp/moonsurface.cpp:34-35 multiplies by
    the density), whose one vertex is at `min + 0 / 0.0`, which is NaN
    (cpp/moonsurface.cpp:18-19).
- Tessellation.Tessellate also requires a non-negative thread count: a
  negative count is a negative array size at cpp/moonsurface.cpp:39, which
  is undefined.

## Findings

| source | as written | input that shows it | evidently intended | confidence | as-written member | corrected member |
|---|---|---|---|---|---|---|
| cpp/dem.cpp:174-176 | the comparison uses the footprint's magnitude `fabs(pixelSize)`, but the running resolution stores the signed `pixelSize`; for a north-up raster the footprint is negative, so the first successful such tile can never be replaced | two north-up tiles with footprints -0.5 and -0.1, both succeeding: the coarse first tile answers | keep the finest tile by magnitude, storing `fabs(pixelSize)` | high (not executed) | Manager.SignedFootprintKeepsCoarser | Manager.ResolveByMagnitudeIsFinest |
| moonsurface.py:187-189 | the face UV rectangles divide by `faces_width + 1` and `faces_height + 1`, so the faces cover only part of the declared UV extent (0,0)-(1,1) | a single face (faces_width = faces_height = 1) gets the rectangle (0,0)-(0.5,0.5) | divide by `faces_width` and `faces_height`, so the faces tile the unit square and agree with the per-vertex UVs of the C++ mesh | high (not executed) | Layout.FaceUvAsWrittenFallsShort | Layout.FaceUvSpansUnitSquare |
| moonsurface.py:40 | `dem_y = (height - height * dlat) % height` wraps the southern edge of the extent (dlat = 0, row `height`) to row 0, the top row of the image, where the northern edge also lands | a point on the extent's minimum latitude: dlat = 0 gives dem_y = 0, the same row as dlat = 1 | keep the southern edge on the bottom row, clamping the row instead of wrapping it | medium (not executed; `process_pixel` has no caller in the file) | Layout.SouthEdgeIsTopRow | Layout.DemRowClampedOnImage |

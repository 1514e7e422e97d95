/** The six-coefficient affine map a raster uses between pixel space and its
    projected ("geo") space, and the projected-to-pixel map each tile keeps
    (cpp/dem.cpp, the `SingleDEM` constructor and the affine step of
    `SingleDEM::sample`). */
module GeoTransform {
  import opened Options

  datatype Point2 = Point2(x: real, y: real)

  /** Coefficients in GDAL order: the first output is
      `c0 + c1 * x + c2 * y`, the second `c3 + c4 * x + c5 * y`. */
  datatype Affine = Affine(c0: real, c1: real, c2: real, c3: real, c4: real, c5: real)

  const Identity := Affine(0.0, 1.0, 0.0, 0.0, 0.0, 1.0)

  /** The affine step of `SingleDEM::sample`: the identity coefficients
      leave a point where it is, and the origin goes to the two offsets. */
  function Apply(a: Affine, p: Point2): (r: Point2)
    ensures a == Identity ==> r == p
    ensures p == Point2(0.0, 0.0) ==> r == Point2(a.c0, a.c3)
  {
    Point2(a.c0 + a.c1 * p.x + a.c2 * p.y, a.c3 + a.c4 * p.x + a.c5 * p.y)
  }

  /** The point a fraction `s` of the way from `p` to `q`. */
  function Between(p: Point2, q: Point2, s: real): Point2
  {
    Point2(p.x + (q.x - p.x) * s, p.y + (q.y - p.y) * s)
  }

  /** The map is affine: it takes the point a fraction of the way between
      two points to the point the same fraction of the way between their
      images, so straight lines of projected space stay straight in pixel
      space. */
  lemma ApplyPreservesBetween(a: Affine, p: Point2, q: Point2, s: real)
    ensures Apply(a, Between(p, q, s)) == Between(Apply(a, p), Apply(a, q), s)
  {
    var m := Between(p, q, s);
    assert a.c1 * m.x + a.c2 * m.y == a.c1 * p.x + a.c2 * p.y + (a.c1 * (q.x - p.x) + a.c2 * (q.y - p.y)) * s;
    assert a.c4 * m.x + a.c5 * m.y == a.c4 * p.x + a.c5 * p.y + (a.c4 * (q.x - p.x) + a.c5 * (q.y - p.y)) * s;
  }

  function Determinant(a: Affine): real
  {
    a.c1 * a.c5 - a.c2 * a.c4
  }

  /** The inverse affine map, or `None` when the linear part is singular. */
  function Invert(a: Affine): (r: Option<Affine>)
    ensures r.None? <==> Determinant(a) == 0.0
  {
    var det := Determinant(a);
    if det == 0.0 then None
    else Some(Affine((a.c2 * a.c3 - a.c0 * a.c5) / det, a.c5 / det, -a.c2 / det,
                     (a.c0 * a.c4 - a.c1 * a.c3) / det, -a.c4 / det, a.c1 / det))
  }

  /** The projected-to-pixel map a tile keeps: the inverse of its
      pixel-to-projected map, or the identity when that cannot be inverted. */
  function GeoToImage(imageToGeo: Affine): (r: Affine)
    ensures Determinant(imageToGeo) == 0.0 ==> r == Identity
    ensures Determinant(imageToGeo) != 0.0 ==>
      forall p :: Apply(r, Apply(imageToGeo, p)) == p && Apply(imageToGeo, Apply(r, p)) == p
  {
    match Invert(imageToGeo)
    case None => Identity
    case Some(inv) =>
      InvertIsLeftInverse(imageToGeo);
      InvertIsRightInverse(imageToGeo);
      inv
  }

  /** The signed product of the two scale coefficients, the tile's
      resolution proxy. */
  function PixelSize(imageToGeo: Affine): (r: real)
    ensures imageToGeo.c1 > 0.0 && imageToGeo.c5 < 0.0 ==> r < 0.0
    ensures (imageToGeo.c1 == 0.0 || imageToGeo.c5 == 0.0) ==> r == 0.0
  {
    imageToGeo.c1 * imageToGeo.c5
  }

  lemma IdentityFixesEveryPoint(p: Point2)
    ensures Apply(Identity, p) == p
  {
  }

  lemma InvertIsLeftInverse(a: Affine)
    requires Determinant(a) != 0.0
    ensures Invert(a).Some?
    ensures forall p :: Apply(Invert(a).value, Apply(a, p)) == p
  {
    var inv := Invert(a).value;
    var det := Determinant(a);
    forall p
      ensures Apply(inv, Apply(a, p)) == p
    {
      var q := Apply(a, p);
      LeftRows(a.c0, a.c1, a.c2, a.c3, a.c4, a.c5, p.x, p.y, q.x, q.y);
      OverCommonDivisor(a.c2 * a.c3 - a.c0 * a.c5, a.c5, -a.c2, det, q.x, q.y);
      OverCommonDivisor(a.c0 * a.c4 - a.c1 * a.c3, -a.c4, a.c1, det, q.x, q.y);
      CancelDivisor(det, p.x);
      CancelDivisor(det, p.y);
    }
  }

  lemma InvertIsRightInverse(a: Affine)
    requires Determinant(a) != 0.0
    ensures Invert(a).Some?
    ensures forall p :: Apply(a, Apply(Invert(a).value, p)) == p
  {
    forall p
      ensures Apply(a, Apply(Invert(a).value, p)) == p
    {
      RightInverseAt(a, p);
    }
  }

  lemma RightInverseAt(a: Affine, p: Point2)
    requires Determinant(a) != 0.0
    ensures Invert(a).Some? && Apply(a, Apply(Invert(a).value, p)) == p
  {
    var q := Apply(Invert(a).value, p);
    RightInverseScalar(a.c0, a.c1, a.c2, a.c3, a.c4, a.c5, Determinant(a), p.x, p.y, q.x, q.y);
  }

  lemma RightInverseScalar(c0: real, c1: real, c2: real, c3: real, c4: real, c5: real,
                           det: real, x: real, y: real, qx: real, qy: real)
    requires det == c1 * c5 - c2 * c4 && det != 0.0
    requires qx == (c2 * c3 - c0 * c5) / det + (c5 / det) * x + (-c2 / det) * y
    requires qy == (c0 * c4 - c1 * c3) / det + (-c4 / det) * x + (c1 / det) * y
    ensures c0 + c1 * qx + c2 * qy == x && c3 + c4 * qx + c5 * qy == y
  {
    var nx := (c2 * c3 - c0 * c5) + c5 * x + -c2 * y;
    var ny := (c0 * c4 - c1 * c3) + -c4 * x + c1 * y;
    OverCommonDivisor(c2 * c3 - c0 * c5, c5, -c2, det, x, y);
    OverCommonDivisor(c0 * c4 - c1 * c3, -c4, c1, det, x, y);
    ScaleByQuotients(c0, c1, c2, det, nx, ny);
    ScaleByQuotients(c3, c4, c5, det, nx, ny);
    RightRows(c0, c1, c2, c3, c4, c5, x, y, nx, ny);
    CancelDivisor(det, x);
    CancelDivisor(det, y);
  }

  /** Pulling a common non-zero divisor out of an affine combination. */
  lemma OverCommonDivisor(n0: real, n1: real, n2: real, d: real, u: real, v: real)
    requires d != 0.0
    ensures n0 / d + (n1 / d) * u + (n2 / d) * v == (n0 + n1 * u + n2 * v) / d
  {
  }

  /** An affine combination of two quotients over the same divisor. */
  lemma ScaleByQuotients(k0: real, k1: real, k2: real, d: real, nx: real, ny: real)
    requires d != 0.0
    ensures k0 + k1 * (nx / d) + k2 * (ny / d) == (k0 * d + k1 * nx + k2 * ny) / d
  {
  }

  lemma CancelDivisor(d: real, u: real)
    requires d != 0.0
    ensures (d * u) / d == u
  {
  }

  /** The two polynomial identities behind `InvertIsLeftInverse`. */
  lemma LeftRows(c0: real, c1: real, c2: real, c3: real, c4: real, c5: real,
                 x: real, y: real, qx: real, qy: real)
    requires qx == c0 + c1 * x + c2 * y && qy == c3 + c4 * x + c5 * y
    ensures (c2 * c3 - c0 * c5) + c5 * qx + -c2 * qy == (c1 * c5 - c2 * c4) * x
    ensures (c0 * c4 - c1 * c3) + -c4 * qx + c1 * qy == (c1 * c5 - c2 * c4) * y
  {
  }

  /** The two polynomial identities behind `InvertIsRightInverse`. */
  lemma RightRows(c0: real, c1: real, c2: real, c3: real, c4: real, c5: real,
                  x: real, y: real, nx: real, ny: real)
    requires nx == (c2 * c3 - c0 * c5) + c5 * x + -c2 * y
    requires ny == (c0 * c4 - c1 * c3) + -c4 * x + c1 * y
    ensures c0 * (c1 * c5 - c2 * c4) + c1 * nx + c2 * ny == (c1 * c5 - c2 * c4) * x
    ensures c3 * (c1 * c5 - c2 * c4) + c4 * nx + c5 * ny == (c1 * c5 - c2 * c4) * y
  {
  }
}

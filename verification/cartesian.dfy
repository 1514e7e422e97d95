/** The spherical-to-Cartesian projector (the `getCartesian` overloads of
    cpp/dem.cpp). The trigonometric values the code computes are inputs: an
    angle is given by its cosine and sine. */
module Cartesian {
  import opened Options

  datatype Point3 = Point3(x: real, y: real, z: real)

  const Origin := Point3(0.0, 0.0, 0.0)

  /** An angle, given by the cosine and the sine the code computes from it. */
  datatype Angle = Angle(cos: real, sin: real)

  predicate OnUnitCircle(a: Angle)
  {
    a.cos * a.cos + a.sin * a.sin == 1.0
  }

  function NormSquared(p: Point3): real
  {
    p.x * p.x + p.y * p.y + p.z * p.z
  }

  /** The angle -(90 - lat) by which the tangent frame tilts, from the
      centre latitude: its cosine is sin(lat) and its sine is -cos(lat). */
  function Tilt(centerLat: Angle): (a: Angle)
    ensures OnUnitCircle(centerLat) ==> OnUnitCircle(a)
  {
    Angle(centerLat.sin, -centerLat.cos)
  }

  /** Body-centred coordinates of a point at distance `radius` from the
      centre; the distance from the centre is preserved. */
  function ToCartesian(radius: real, lat: Angle, lon: Angle): (p: Point3)
    ensures OnUnitCircle(lat) && OnUnitCircle(lon) ==> NormSquared(p) == radius * radius
  {
    var p := Point3(radius * lat.cos * lon.cos, radius * lat.cos * lon.sin, radius * lat.sin);
    SphericalNorm(radius, lat.cos, lat.sin, lon.cos, lon.sin);
    p
  }

  /** The rotation by the centre longitude about the polar axis. */
  function RotateAboutZ(p: Point3, a: Angle): (r: Point3)
    ensures r.z == p.z
    ensures OnUnitCircle(a) ==> NormSquared(r) == NormSquared(p)
  {
    PlaneRotationNorm(p.x, p.y, a.cos, a.sin);
    Point3(p.x * a.cos + p.y * a.sin, -p.x * a.sin + p.y * a.cos, p.z)
  }

  /** The rotation about the resulting y axis. */
  function RotateAboutY(p: Point3, a: Angle): (r: Point3)
    ensures r.y == p.y
    ensures OnUnitCircle(a) ==> NormSquared(r) == NormSquared(p)
  {
    PlaneRotationNorm(p.x, p.z, a.cos, a.sin);
    Point3(p.x * a.cos + p.z * a.sin, p.y, -p.x * a.sin + p.z * a.cos)
  }

  /** The local tangent frame: rotate about z by the centre longitude, about
      y by the tilt, then move down by the centre elevation. Apart from that
      translation the map is a rotation, so it keeps distances from the
      centre. */
  function ToTangent(p: Point3, centerLon: Angle, tilt: Angle, centerElevation: real): (r: Point3)
    ensures OnUnitCircle(centerLon) && OnUnitCircle(tilt) ==>
      NormSquared(Point3(r.x, r.y, r.z + centerElevation)) == NormSquared(p)
  {
    var g := RotateAboutY(RotateAboutZ(p, centerLon), tilt);
    Point3(g.x, g.y, g.z - centerElevation)
  }

  /** Uniform scale, applied last by the scaled overloads. */
  function Scale(p: Point3, s: real): (r: Point3)
    ensures NormSquared(r) == s * s * NormSquared(p)
    ensures p == Origin ==> r == Origin
  {
    ScaleNorm(p, s);
    Point3(p.x * s, p.y * s, p.z * s)
  }

  /** Scaling by a non-zero factor is undone by scaling by its inverse. */
  lemma ScaleInverse(p: Point3, s: real)
    requires s != 0.0
    ensures Scale(Scale(p, s), 1.0 / s) == p
  {
    Unscale(p.x, s);
    Unscale(p.y, s);
    Unscale(p.z, s);
  }

  /** `getCartesian(out, lat, lon, scale)`: the resolver's answer projected
      and scaled. An answer of `None` (the `-INFINITY` sentinel) gives a
      non-finite point, modelled as `None`. */
  function GlobalPoint(elevation: Option<real>, lat: Angle, lon: Angle, scale: real): (r: Option<Point3>)
    ensures r.None? <==> elevation.None?
    ensures r.Some? && OnUnitCircle(lat) && OnUnitCircle(lon) ==>
      NormSquared(r.value) == scale * scale * (elevation.value * elevation.value)
  {
    match elevation
    case None => None
    case Some(e) => Some(Scale(ToCartesian(e, lat, lon), scale))
  }

  /** `getCartesian(out, lat, lon, center_lat, center_lon, center_elevation,
      scale)`: projected, moved into the centre's tangent frame, then scaled.
      A missing elevation, for the point or the centre, gives a non-finite
      point. */
  function FlatPoint(elevation: Option<real>, lat: Angle, lon: Angle,
                     centerLat: Angle, centerLon: Angle, centerElevation: Option<real>,
                     scale: real): (r: Option<Point3>)
    ensures r.None? <==> elevation.None? || centerElevation.None?
  {
    if elevation.None? || centerElevation.None? then None
    else Some(Scale(ToTangent(ToCartesian(elevation.value, lat, lon), centerLon, Tilt(centerLat),
                              centerElevation.value), scale))
  }

  /** The centre point, at the centre's own elevation, lands on the origin of
      its tangent frame, whatever the scale. */
  lemma CentreMapsToOrigin(elevation: real, lat: Angle, lon: Angle, scale: real)
    requires OnUnitCircle(lat) && OnUnitCircle(lon)
    ensures FlatPoint(Some(elevation), lat, lon, lat, lon, Some(elevation), scale) == Some(Origin)
  {
    var p := ToCartesian(elevation, lat, lon);
    var z := RotateAboutZ(p, lon);
    CentreRotations(elevation, lat.cos, lat.sin, lon.cos, lon.sin);
    assert z == Point3(elevation * lat.cos, 0.0, elevation * lat.sin);
    assert ToTangent(p, lon, Tilt(lat), elevation) == Origin;
  }

  // ---------------------------------------------------------------------
  // Polynomial identities behind the contracts above

  lemma SphericalNorm(r: real, cl: real, sl: real, cm: real, sm: real)
    ensures cl * cl + sl * sl == 1.0 && cm * cm + sm * sm == 1.0 ==>
      (r * cl * cm) * (r * cl * cm) + (r * cl * sm) * (r * cl * sm) + (r * sl) * (r * sl) == r * r
  {
    if cl * cl + sl * sl == 1.0 && cm * cm + sm * sm == 1.0 {
      assert (r * cl * cm) * (r * cl * cm) + (r * cl * sm) * (r * cl * sm)
          == (r * cl) * (r * cl) * (cm * cm + sm * sm);
      assert (r * cl) * (r * cl) + (r * sl) * (r * sl) == r * r * (cl * cl + sl * sl);
    }
  }

  lemma PlaneRotationNorm(u: real, v: real, c: real, s: real)
    ensures c * c + s * s == 1.0 ==>
      (u * c + v * s) * (u * c + v * s) + (-u * s + v * c) * (-u * s + v * c) == u * u + v * v
  {
    if c * c + s * s == 1.0 {
      assert (u * c + v * s) * (u * c + v * s) + (-u * s + v * c) * (-u * s + v * c)
          == (u * u + v * v) * (c * c + s * s);
    }
  }

  lemma ScaleNorm(p: Point3, s: real)
    ensures (p.x * s) * (p.x * s) + (p.y * s) * (p.y * s) + (p.z * s) * (p.z * s)
         == s * s * (p.x * p.x + p.y * p.y + p.z * p.z)
  {
  }

  lemma Unscale(u: real, s: real)
    requires s != 0.0
    ensures (u * s) * (1.0 / s) == u
  {
  }

  /** The two rotations applied to the centre point itself. */
  lemma CentreRotations(r: real, cl: real, sl: real, cm: real, sm: real)
    requires cl * cl + sl * sl == 1.0 && cm * cm + sm * sm == 1.0
    ensures (r * cl * cm) * cm + (r * cl * sm) * sm == r * cl
    ensures -(r * cl * cm) * sm + (r * cl * sm) * cm == 0.0
    ensures (r * cl) * sl + (r * sl) * -cl == 0.0
    ensures -(r * cl) * -cl + (r * sl) * sl == r
  {
    assert (r * cl * cm) * cm + (r * cl * sm) * sm == (r * cl) * (cm * cm + sm * sm);
    assert -(r * cl) * -cl + (r * sl) * sl == r * (cl * cl + sl * sl);
  }
}

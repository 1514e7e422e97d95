/** The equirectangular map from a latitude and longitude in degrees to
    texture coordinates (`lat_lon_to_uv` in moonsurface.py; the C++
    `create_texture` uses the same two formulas). */
module TextureMap {

  function LonToU(lon: real): real
  {
    lon / 360.0 + 0.5
  }

  function LatToV(lat: real): real
  {
    0.5 + lat / 180.0
  }

  /** `lat_lon_to_uv(lat, lon)`: the whole globe, longitude in [-180, 180]
      and latitude in [-90, 90], lands on the unit square. */
  function LatLonToUv(lat: real, lon: real): (r: (real, real))
    ensures -180.0 <= lon <= 180.0 <==> 0.0 <= r.0 <= 1.0
    ensures -90.0 <= lat <= 90.0 <==> 0.0 <= r.1 <= 1.0
  {
    (LonToU(lon), LatToV(lat))
  }

  /** Both coordinates grow strictly with their angle. */
  lemma LatLonToUvIncreasing(lat: real, lon: real, lat': real, lon': real)
    ensures lon < lon' <==> LatLonToUv(lat, lon).0 < LatLonToUv(lat', lon').0
    ensures lat < lat' <==> LatLonToUv(lat, lon).1 < LatLonToUv(lat', lon').1
  {
  }

  /** The angles a pair of texture coordinates stands for. */
  function UvToLatLon(u: real, v: real): (r: (real, real))
  {
    ((v - 0.5) * 180.0, (u - 0.5) * 360.0)
  }

  lemma UvRoundTrip(lat: real, lon: real, u: real, v: real)
    ensures UvToLatLon(LatLonToUv(lat, lon).0, LatLonToUv(lat, lon).1) == (lat, lon)
    ensures LatLonToUv(UvToLatLon(u, v).0, UvToLatLon(u, v).1) == (u, v)
  {
  }
}

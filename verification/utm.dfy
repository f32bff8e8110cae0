/** UTM zone and hemisphere selection (convert_dms_to_utm.py, lines 76-79).
    Of the projection itself only the zones it accepts are part of this
    model. */
module Utm {

  /** Python's `int()` on a float: truncation toward zero. */
  function Trunc(x: real): (n: int)
    ensures if x >= 0.0 then n as real <= x < n as real + 1.0
            else n as real - 1.0 < x <= n as real
  {
    if x >= 0.0 then x.Floor else -((-x).Floor)
  }

  /** Truncation never reverses the order of its arguments. */
  lemma TruncMonotone(a: real, b: real)
    requires a <= b
    ensures Trunc(a) <= Trunc(b)
  {
  }

  /** `int((lon + 180) / 6) + 1`: from the antimeridian eastward, the
      six-degree band the longitude falls in, counted from 1. */
  function Zone(lon: real): (z: int)
    ensures lon >= -180.0 ==> -180.0 + 6.0 * (z - 1) as real <= lon < -180.0 + 6.0 * z as real
    ensures -180.0 <= lon < 180.0 ==> 1 <= z <= 60
  {
    var q := (lon + 180.0) / 6.0;
    assert lon == 6.0 * q - 180.0;
    Trunc(q) + 1
  }

  /** From the antimeridian eastward, zone `z` is exactly the band of
      longitudes `[-180 + 6(z-1), -180 + 6z)`. */
  lemma ZoneBand(lon: real, z: int)
    requires lon >= -180.0
    ensures Zone(lon) == z <==> -180.0 + 6.0 * (z - 1) as real <= lon < -180.0 + 6.0 * z as real
  {
    var q := (lon + 180.0) / 6.0;
    assert lon == 6.0 * q - 180.0;
  }

  /** Longitudes in `[-180, 180)` get the zones 1 to 60. */
  lemma ZoneRange(lon: real)
    requires -180.0 <= lon < 180.0
    ensures 1 <= Zone(lon) <= 60
  {
    ZoneBand(lon, Zone(lon));
  }

  /** Moving east never lowers the zone. */
  lemma ZoneMonotone(a: real, b: real)
    requires a <= b
    ensures Zone(a) <= Zone(b)
  {
    TruncMonotone((a + 180.0) / 6.0, (b + 180.0) / 6.0);
  }

  /** The antimeridian starts zone 1, Greenwich starts zone 31, and 180
      itself falls into a 61st zone. */
  lemma ZoneLandmarks()
    ensures Zone(-180.0) == 1 && Zone(0.0) == 31 && Zone(180.0) == 61
    ensures Zone(-174.0) == 2 && Zone(179.5) == 60
  {
    ZoneBand(-180.0, 1);
    ZoneBand(0.0, 31);
    ZoneBand(180.0, 61);
    ZoneBand(-174.0, 2);
    ZoneBand(179.5, 60);
  }

  /** West of the antimeridian truncation rounds toward zone 1: the six
      degrees below -180 still give zone 1, and only from -186 down does the
      zone drop to 0 or below. */
  lemma ZoneWestOfRange(lon: real)
    requires lon < -180.0
    ensures Zone(lon) <= 1
    ensures Zone(lon) == 1 <==> lon > -186.0
  {
  }

  /** The zones the `utm` projection accepts in its `+zone=` parameter
      (convert_dms_to_utm.py, line 79): any other value is refused. */
  predicate ValidZone(z: int) {
    1 <= z <= 60
  }

  /** The projection accepts the computed zone exactly for longitudes
      strictly between -186 and 180: 180 itself already gives zone 61. */
  lemma ValidZoneRange(lon: real)
    ensures ValidZone(Zone(lon)) <==> -186.0 < lon < 180.0
  {
    if lon < -180.0 {
      ZoneWestOfRange(lon);
    } else if lon >= 180.0 {
      ZoneBand(180.0, 61);
      ZoneMonotone(180.0, lon);
    } else {
      ZoneRange(lon);
    }
  }

  datatype Hemisphere = North | South

  /** `'north' if lat >= 0 else 'south'`: the equator counts as north. */
  function HemisphereOf(lat: real): (h: Hemisphere)
    ensures h == North <==> lat >= 0.0
  {
    if lat >= 0.0 then North else South
  }

  /** The lowercase name the projection string uses. */
  function HemisphereName(h: Hemisphere): (s: string)
    ensures s == "north" <==> h == North
  {
    match h
    case North => "north"
    case South => "south"
  }
}

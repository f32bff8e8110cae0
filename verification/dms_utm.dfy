/** The batch in convert_dms_to_utm.py: the seven-column rename, the
    normalisation of both coordinate columns, their decoding, and the zone
    and hemisphere of every point. Each step is applied to a whole column
    and the first exception ends the run, so the model reports the first
    failure in that order. */
module DmsToUtm {
  import opened Results
  import opened Cells
  import opened Dms
  import opened Utm
  import opened Text
  import opened Collections

  /** The number of names the script assigns to the table's columns. */
  const ColumnNames: seq<string> := ["ponto", "lat", "long", "alt", "sigmaLat", "sigmaLong", "sigmaAlt"]

  datatype Axis = Latitude | Longitude

  datatype ConvertError =
    | ColumnCountMismatch(found: nat)                    // the rename found another column count
    | NotText(axis: Axis, row: nat)                      // `.replace` on a missing or numeric cell
    | BadCoordinate(axis: Axis, row: nat, reason: DmsError)
    | BadZone(row: nat, zone: int)                       // the projection refuses the row's zone
    | NoRows                                             // the four UTM columns receive a frame without columns

  /** The columns of one input row the batch reads or copies. */
  datatype InputRow = InputRow(ponto: Cell, lat: Cell, long: Cell, alt: Cell)

  /** One output point: decimal degrees, UTM zone and hemisphere. */
  datatype UtmRow = UtmRow(ponto: Cell, latitude: real, longitude: real, alt: Cell,
                           zone: int, hemisphere: Hemisphere)

  function CoordinateCell(row: InputRow, axis: Axis): Cell {
    match axis
    case Latitude => row.lat
    case Longitude => row.long
  }

  /** One coordinate column, in row order. */
  function Column(rows: seq<InputRow>, axis: Axis): (cells: seq<Cell>)
    ensures |cells| == |rows|
    ensures forall i :: 0 <= i < |rows| ==> cells[i] == CoordinateCell(rows[i], axis)
  {
    if |rows| == 0 then [] else [CoordinateCell(rows[0], axis)] + Column(rows[1..], axis)
  }

  /** `normalizar_dms` on one cell: `.replace` exists only on text. */
  function NormalizeCell(c: Cell): (r: Result<string, ()>)
    ensures r.Ok? <==> c.Text?
  {
    if c.Text? then Ok(Normalize(c.s)) else Err(())
  }

  /** The zone of one longitude, as far as the projection built from it
      accepts it. */
  function CheckZone(lon: real): (r: Result<int, int>)
    ensures r.Ok? <==> ValidZone(Zone(lon))
    ensures r.Ok? ==> r.value == Zone(lon)
    ensures r.Err? ==> r.error == Zone(lon)
  {
    var z := Zone(lon);
    if ValidZone(z) then Ok(z) else Err(z)
  }

  /** Zone and hemisphere of one decoded point. */
  function ToUtm(row: InputRow, lat: real, lon: real): UtmRow {
    UtmRow(row.ponto, lat, lon, row.alt, Zone(lon), HemisphereOf(lat))
  }

  function BuildRows(rows: seq<InputRow>, lats: seq<real>, lons: seq<real>): (out: seq<UtmRow>)
    requires |lats| == |rows| && |lons| == |rows|
    ensures |out| == |rows|
    ensures forall i :: 0 <= i < |rows| ==> out[i] == ToUtm(rows[i], lats[i], lons[i])
  {
    if |rows| == 0 then []
    else [ToUtm(rows[0], lats[0], lons[0])] + BuildRows(rows[1..], lats[1..], lons[1..])
  }

  /** The whole batch over the table's column count and its rows. The UTM
      loop builds a projection per row, which fails on the first row whose
      zone lies outside 1..60. A table without rows gets through every
      per-row step, but the assignment of the four UTM columns then receives
      a frame built from an empty list, which has no columns, and pandas
      raises. */
  function Convert(columnCount: nat, rows: seq<InputRow>): (r: Result<seq<UtmRow>, ConvertError>)
    ensures r.Ok? ==> columnCount == |ColumnNames| && |rows| > 0 && |r.value| == |rows|
    ensures columnCount != |ColumnNames| ==> r == Err(ColumnCountMismatch(columnCount))
    ensures columnCount == |ColumnNames| && |rows| == 0 ==> r == Err(NoRows)
  {
    if columnCount != |ColumnNames| then Err(ColumnCountMismatch(columnCount))
    else
      match ApplyAll(Column(rows, Latitude), NormalizeCell)
      case Err(p) => Err(NotText(Latitude, p.0))
      case Ok(lat) =>
        match ApplyAll(Column(rows, Longitude), NormalizeCell)
        case Err(p) => Err(NotText(Longitude, p.0))
        case Ok(lon) =>
          match ApplyAll(lat, ToDecimal)
          case Err(p) => Err(BadCoordinate(Latitude, p.0, p.1))
          case Ok(lats) =>
            match ApplyAll(lon, ToDecimal)
            case Err(p) => Err(BadCoordinate(Longitude, p.0, p.1))
            case Ok(lons) =>
              match ApplyAll(lons, CheckZone)
              case Err(p) => Err(BadZone(p.0, p.1))
              case Ok(_) =>
                if |rows| == 0 then Err(NoRows) else Ok(BuildRows(rows, lats, lons))
  }

  // ---------------------------------------------------------------------------
  // One row on its own
  // ---------------------------------------------------------------------------

  /** The decimal value of one coordinate cell, as the batch computes it. */
  function CellValue(c: Cell): (r: Result<real, DmsError>)
    requires c.Text?
  {
    ToDecimal(Normalize(c.s))
  }

  /** A row the batch can convert: both cells decode and the projection
      accepts the longitude's zone. */
  predicate RowConverts(row: InputRow) {
    && row.lat.Text? && row.long.Text?
    && CellValue(row.lat).Ok? && CellValue(row.long).Ok?
    && ValidZone(Zone(CellValue(row.long).value))
  }

  /** The conversion of one row on its own. */
  function ConvertRow(row: InputRow): UtmRow
    requires RowConverts(row)
  {
    ToUtm(row, CellValue(row.lat).value, CellValue(row.long).value)
  }

  /** The batch succeeds exactly when the column count is right, there is at
      least one row, and every row converts on its own; it then holds the
      row-by-row conversions. */
  lemma ConvertIsRowwise(columnCount: nat, rows: seq<InputRow>)
    ensures Convert(columnCount, rows).Ok?
        <==> columnCount == |ColumnNames| && |rows| > 0 && forall i :: 0 <= i < |rows| ==> RowConverts(rows[i])
    ensures Convert(columnCount, rows).Ok? ==>
      forall i :: 0 <= i < |rows| ==> RowConverts(rows[i]) && Convert(columnCount, rows).value[i] == ConvertRow(rows[i])
  {
    if Convert(columnCount, rows).Ok? {
      ConvertOkRows(columnCount, rows);
    } else if columnCount == |ColumnNames| && |rows| > 0 {
      ConvertErrRow(columnCount, rows);
    }
  }

  lemma ConvertOkRows(columnCount: nat, rows: seq<InputRow>)
    requires Convert(columnCount, rows).Ok?
    ensures forall i :: 0 <= i < |rows| ==>
      RowConverts(rows[i]) && Convert(columnCount, rows).value[i] == ConvertRow(rows[i])
  {
    var lat := ApplyAll(Column(rows, Latitude), NormalizeCell).value;
    var lon := ApplyAll(Column(rows, Longitude), NormalizeCell).value;
    var dLat := ApplyAll(lat, ToDecimal).value;
    var dLon := ApplyAll(lon, ToDecimal).value;
    assert ApplyAll(dLon, CheckZone).Ok?;
    assert Convert(columnCount, rows).value == BuildRows(rows, dLat, dLon);
    forall i | 0 <= i < |rows|
      ensures RowConverts(rows[i]) && Convert(columnCount, rows).value[i] == ConvertRow(rows[i])
    {
      assert CellValue(rows[i].lat) == Ok(dLat[i]);
      assert CellValue(rows[i].long) == Ok(dLon[i]);
      assert CheckZone(dLon[i]).Ok?;
    }
  }

  lemma ConvertErrRow(columnCount: nat, rows: seq<InputRow>)
    requires columnCount == |ColumnNames| && |rows| > 0 && Convert(columnCount, rows).Err?
    ensures exists i :: 0 <= i < |rows| && !RowConverts(rows[i])
  {
    ConvertFirstFailure(columnCount, rows);
    FailingRow(rows, Convert(columnCount, rows).error);
  }

  /** The row a first failure names cannot be converted on its own. */
  lemma FailingRow(rows: seq<InputRow>, e: ConvertError)
    requires FailureIsFirst(rows, e) && |rows| > 0
    ensures (e.NotText? || e.BadCoordinate? || e.BadZone?) && e.row < |rows| && !RowConverts(rows[e.row])
  {
  }

  /** `e` is the first failure in the script's order: every latitude is
      normalised before any longitude, and every token is normalised before
      any is decoded, every coordinate is decoded before any zone is
      projected, and only a table without rows reaches the UTM columns and
      fails there. */
  predicate FailureIsFirst(rows: seq<InputRow>, e: ConvertError) {
    match e
    case ColumnCountMismatch(_) => false
    case NotText(Latitude, i) =>
      i < |rows| && !rows[i].lat.Text? && forall j :: 0 <= j < i ==> rows[j].lat.Text?
    case NotText(Longitude, i) =>
      && i < |rows| && !rows[i].long.Text?
      && (forall j :: 0 <= j < |rows| ==> rows[j].lat.Text?)
      && forall j :: 0 <= j < i ==> rows[j].long.Text?
    case BadCoordinate(Latitude, i, reason) =>
      && i < |rows| && (forall j :: 0 <= j < |rows| ==> rows[j].lat.Text? && rows[j].long.Text?)
      && CellValue(rows[i].lat) == Err(reason)
      && forall j :: 0 <= j < i ==> CellValue(rows[j].lat).Ok?
    case BadCoordinate(Longitude, i, reason) =>
      && i < |rows| && (forall j :: 0 <= j < |rows| ==> rows[j].lat.Text? && rows[j].long.Text?)
      && (forall j :: 0 <= j < |rows| ==> CellValue(rows[j].lat).Ok?)
      && CellValue(rows[i].long) == Err(reason)
      && forall j :: 0 <= j < i ==> CellValue(rows[j].long).Ok?
    case BadZone(i, z) =>
      && i < |rows| && (forall j :: 0 <= j < |rows| ==> rows[j].lat.Text? && rows[j].long.Text?)
      && (forall j :: 0 <= j < |rows| ==> CellValue(rows[j].lat).Ok?)
      && (forall j :: 0 <= j < |rows| ==> CellValue(rows[j].long).Ok?)
      && z == Zone(CellValue(rows[i].long).value) && !ValidZone(z)
      && forall j :: 0 <= j < i ==> ValidZone(Zone(CellValue(rows[j].long).value))
    case NoRows => |rows| == 0
  }

  /** The failing row of the zone loop, and the rows before it. */
  lemma ZoneFailure(rows: seq<InputRow>, lons: seq<real>, i: nat, z: int)
    requires |lons| == |rows|
    requires forall j :: 0 <= j < |rows| ==> rows[j].lat.Text? && rows[j].long.Text?
    requires forall j :: 0 <= j < |rows| ==> CellValue(rows[j].long) == Ok(lons[j])
    requires ApplyAll(lons, CheckZone) == Err((i, z))
    ensures i < |rows| && z == Zone(CellValue(rows[i].long).value) && !ValidZone(z)
    ensures forall j :: 0 <= j < i ==> ValidZone(Zone(CellValue(rows[j].long).value))
  {
    assert CheckZone(lons[i]) == Err(z);
    assert CellValue(rows[i].long).value == lons[i];
    forall j | 0 <= j < i ensures ValidZone(Zone(CellValue(rows[j].long).value)) {
      assert CheckZone(lons[j]).Ok?;
      assert CellValue(rows[j].long).value == lons[j];
    }
  }

  /** A column that normalises without failure is all text. */
  lemma NormalizedColumn(rows: seq<InputRow>, axis: Axis)
    requires ApplyAll(Column(rows, axis), NormalizeCell).Ok?
    ensures forall j :: 0 <= j < |rows| ==> CoordinateCell(rows[j], axis).Text?
  {
    var cells := Column(rows, axis);
    forall j | 0 <= j < |rows| ensures CoordinateCell(rows[j], axis).Text? {
      assert cells[j] == CoordinateCell(rows[j], axis);
      assert NormalizeCell(cells[j]).Ok?;
    }
  }

  /** The decoded column holds each cell's own value. */
  lemma DecodedColumn(rows: seq<InputRow>, axis: Axis, tokens: seq<string>, values: seq<real>)
    requires ApplyAll(Column(rows, axis), NormalizeCell) == Ok(tokens)
    requires ApplyAll(tokens, ToDecimal) == Ok(values)
    ensures forall j :: 0 <= j < |rows| ==>
      CoordinateCell(rows[j], axis).Text? && CellValue(CoordinateCell(rows[j], axis)) == Ok(values[j])
  {
    forall j | 0 <= j < |rows|
      ensures CoordinateCell(rows[j], axis).Text? && CellValue(CoordinateCell(rows[j], axis)) == Ok(values[j])
    {
      assert Column(rows, axis)[j] == CoordinateCell(rows[j], axis);
      assert NormalizeCell(Column(rows, axis)[j]) == Ok(tokens[j]);
    }
  }

  /** The failing cell of a decoded column, and the cells before it. */
  lemma DecodeFailure(rows: seq<InputRow>, axis: Axis, tokens: seq<string>, i: nat, reason: DmsError)
    requires ApplyAll(Column(rows, axis), NormalizeCell) == Ok(tokens)
    requires ApplyAll(tokens, ToDecimal) == Err((i, reason))
    ensures i < |rows| && CoordinateCell(rows[i], axis).Text?
    ensures CellValue(CoordinateCell(rows[i], axis)) == Err(reason)
    ensures forall j :: 0 <= j < i ==> CoordinateCell(rows[j], axis).Text? && CellValue(CoordinateCell(rows[j], axis)).Ok?
  {
    assert Column(rows, axis)[i] == CoordinateCell(rows[i], axis);
    assert NormalizeCell(Column(rows, axis)[i]) == Ok(tokens[i]);
    forall j | 0 <= j < i
      ensures CoordinateCell(rows[j], axis).Text? && CellValue(CoordinateCell(rows[j], axis)).Ok?
    {
      assert Column(rows, axis)[j] == CoordinateCell(rows[j], axis);
      assert NormalizeCell(Column(rows, axis)[j]) == Ok(tokens[j]);
    }
  }

  /** The failing cell of a normalised column, and the cells before it. */
  lemma NormalizeFailure(rows: seq<InputRow>, axis: Axis, i: nat)
    requires ApplyAll(Column(rows, axis), NormalizeCell).Err?
    requires ApplyAll(Column(rows, axis), NormalizeCell).error.0 == i
    ensures i < |rows| && !CoordinateCell(rows[i], axis).Text?
    ensures forall j :: 0 <= j < i ==> CoordinateCell(rows[j], axis).Text?
  {
    assert Column(rows, axis)[i] == CoordinateCell(rows[i], axis);
    forall j | 0 <= j < i ensures CoordinateCell(rows[j], axis).Text? {
      assert Column(rows, axis)[j] == CoordinateCell(rows[j], axis);
    }
  }

  /** Whenever the batch fails with the right column count, the failure it
      reports is the first one in the script's order. */
  lemma ConvertFirstFailure(columnCount: nat, rows: seq<InputRow>)
    requires columnCount == |ColumnNames|
    ensures Convert(columnCount, rows).Err? ==> FailureIsFirst(rows, Convert(columnCount, rows).error)
  {
    var nLat := ApplyAll(Column(rows, Latitude), NormalizeCell);
    var nLon := ApplyAll(Column(rows, Longitude), NormalizeCell);
    if nLat.Err? {
      NormalizeFailure(rows, Latitude, nLat.error.0);
    } else if nLon.Err? {
      NormalizedColumn(rows, Latitude);
      NormalizeFailure(rows, Longitude, nLon.error.0);
    } else {
      NormalizedColumn(rows, Latitude);
      NormalizedColumn(rows, Longitude);
      var dLat := ApplyAll(nLat.value, ToDecimal);
      if dLat.Err? {
        DecodeFailure(rows, Latitude, nLat.value, dLat.error.0, dLat.error.1);
      } else {
        DecodedColumn(rows, Latitude, nLat.value, dLat.value);
        var dLon := ApplyAll(nLon.value, ToDecimal);
        if dLon.Err? {
          DecodeFailure(rows, Longitude, nLon.value, dLon.error.0, dLon.error.1);
        } else {
          DecodedColumn(rows, Longitude, nLon.value, dLon.value);
          var zones := ApplyAll(dLon.value, CheckZone);
          if zones.Err? {
            ZoneFailure(rows, dLon.value, zones.error.0, zones.error.1);
          }
        }
      }
    }
  }

  /** A latitude written `-0°…` puts its point in the northern hemisphere. */
  lemma NegativeZeroIsNorth(row: InputRow, t: Tokens, rest: string)
    requires WellFormed(t) && ParseSeconds(t.seconds).Some?
    requires t.negative && DecimalValue(t.degrees) == 0
    requires row.lat.Text? && Normalize(row.lat.s) == Render(t, rest)
    requires RowConverts(row)
    ensures ConvertRow(row).hemisphere == North
  {
    NegativeZeroLosesSign(t, rest);
  }
}

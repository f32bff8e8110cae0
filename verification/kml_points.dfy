/** generate_kml_points.py: one KML file per row of a point table. The
    required-column check runs before any row; each row then either yields a
    placemark saved under its own name or is logged as a failure, and a
    failing row never stops the rows after it. */
module KmlPoints {
  import opened Results
  import opened Cells
  import opened Text
  import opened Paths

  /** A float as Python holds it after `float(...)`: `nan` is a value, not an
      error. */
  datatype Float = NaN | Finite(x: real)

  /** What the script takes from Python and its libraries: `float()` of a
      piece of text (`None` when it raises), `str()` of a number, and whether
      `kml.save` succeeds on a path. */
  datatype Conversions = Conversions(
    parseFloat: string -> Option<Float>,
    showNumber: real -> string,
    saves: string -> bool)

  /** The columns every input table must have. */
  const Required: set<string> := {"ponto", "latitude", "longitude", "alt"}

  /** A table: its column names and its rows, each row a map from column name
      to cell. */
  datatype Table = Table(columns: set<string>, rows: seq<map<string, Cell>>)

  /** `str(v)` of a cell. */
  function Show(conv: Conversions, c: Cell): string {
    match c
    case Missing => "nan"
    case Num(x) => conv.showNumber(x)
    case Text(s) => s
  }

  /** `float(v)` of a cell: `None` when Python raises. */
  function ToFloat(conv: Conversions, c: Cell): Option<Float> {
    match c
    case Missing => Some(NaN)
    case Num(x) => Some(Finite(x))
    case Text(s) => conv.parseFloat(s)
  }

  /** The point's description: the fallback text exactly when the altitude
      is missing, and otherwise the altitude's text between `Altitude: ` and
      ` m`, so that it can be read back. */
  function Description(conv: Conversions, alt: Cell): (d: string)
    ensures d == "Sem altitude informada" <==> !NotNa(alt)
    ensures NotNa(alt) ==>
      && |d| >= 12 && d[..10] == "Altitude: " && d[|d| - 2..] == " m"
      && d[10..|d| - 2] == Show(conv, alt)
  {
    if NotNa(alt) then
      var d := "Altitude: " + Show(conv, alt) + " m";
      assert d[0] != "Sem altitude informada"[0];
      d
    else "Sem altitude informada"
  }

  /** One generated point: the `(lon, lat)` coordinate order of KML. */
  datatype Placemark = Placemark(name: string, lon: Float, lat: Float, description: string, path: string)

  datatype Reason = BadLatitude | BadLongitude | SaveFailed(path: string)

  /** What one row produced: a saved placemark, or the label the error
      message shows and why. */
  datatype Outcome = Created(placemark: Placemark) | Failed(shown: string, reason: Reason)

  /** The body of the `try` for one row. */
  function ProcessRow(conv: Conversions, outputDir: string, row: map<string, Cell>): Outcome {
    var ponto := Strip(Show(conv, Get(row, "ponto")));
    var shown := Show(conv, Get(row, "ponto"));
    match ToFloat(conv, Get(row, "latitude"))
    case None => Failed(shown, BadLatitude)
    case Some(lat) =>
      match ToFloat(conv, Get(row, "longitude"))
      case None => Failed(shown, BadLongitude)
      case Some(lon) =>
        var path := JoinPath(outputDir, ponto + ".kml");
        if conv.saves(path) then
          Created(Placemark(ponto, lon, lat, Description(conv, Get(row, "alt")), path))
        else Failed(shown, SaveFailed(path))
  }

  /** A row yields a placemark exactly when both coordinates convert and the
      file is saved; the placemark is named after the trimmed `ponto`, keeps
      the `(lon, lat)` values, and a failure is reported under the untrimmed
      `ponto`. */
  lemma ProcessRowOutcome(conv: Conversions, outputDir: string, row: map<string, Cell>)
    ensures var o := ProcessRow(conv, outputDir, row);
      var name := Strip(Show(conv, Get(row, "ponto")));
      && (o.Created? <==>
           && ToFloat(conv, Get(row, "latitude")).Some?
           && ToFloat(conv, Get(row, "longitude")).Some?
           && conv.saves(JoinPath(outputDir, name + ".kml")))
      && (o.Created? ==> o.placemark == Placemark(name,
            ToFloat(conv, Get(row, "longitude")).value, ToFloat(conv, Get(row, "latitude")).value,
            Description(conv, Get(row, "alt")), JoinPath(outputDir, name + ".kml")))
      && (o.Failed? ==> o.shown == Show(conv, Get(row, "ponto")))
  {
  }

  /** The placemark's name is the text of `ponto` with its surrounding
      whitespace stripped, and its file is that name with the `.kml`
      extension. */
  lemma PlacemarkName(conv: Conversions, outputDir: string, row: map<string, Cell>)
    requires ProcessRow(conv, outputDir, row).Created?
    ensures var p := ProcessRow(conv, outputDir, row).placemark;
      && p.name == Strip(Show(conv, Get(row, "ponto")))
      && Trimmed(p.name) && p.path == JoinPath(outputDir, p.name + ".kml")
  {
    ProcessRowOutcome(conv, outputDir, row);
  }

  /** Number of created placemarks. */
  function CountCreated(outs: seq<Outcome>): (n: nat)
    ensures n <= |outs|
    ensures n == |outs| <==> forall i :: 0 <= i < |outs| ==> outs[i].Created?
  {
    if |outs| == 0 then 0 else (if outs[0].Created? then 1 else 0) + CountCreated(outs[1..])
  }

  lemma {:induction false} CountCreatedAppend(a: seq<Outcome>, b: seq<Outcome>)
    ensures CountCreated(a + b) == CountCreated(a) + CountCreated(b)
    decreases |a|
  {
    if |a| == 0 {
      assert a + b == b;
    } else {
      assert (a + b)[1..] == a[1..] + b;
      CountCreatedAppend(a[1..], b);
    }
  }

  /** Each row on its own, in order. */
  function ProcessRows(conv: Conversions, outputDir: string, rows: seq<map<string, Cell>>): (outs: seq<Outcome>)
    ensures |outs| == |rows|
  {
    if |rows| == 0 then [] else [ProcessRow(conv, outputDir, rows[0])] + ProcessRows(conv, outputDir, rows[1..])
  }

  /** Every row's outcome is that row's own, whatever the rows around it
      did. */
  lemma {:induction false} ProcessRowsAt(conv: Conversions, outputDir: string, rows: seq<map<string, Cell>>, i: nat)
    requires i < |rows|
    ensures ProcessRows(conv, outputDir, rows)[i] == ProcessRow(conv, outputDir, rows[i])
    decreases i
  {
    if i > 0 {
      ProcessRowsAt(conv, outputDir, rows[1..], i - 1);
    }
  }

  /** A failing row does not affect the others: the outcomes of a table
      split in two are the outcomes of its halves. */
  lemma {:induction false} ProcessRowsAppend(conv: Conversions, outputDir: string, a: seq<map<string, Cell>>, b: seq<map<string, Cell>>)
    ensures ProcessRows(conv, outputDir, a + b) == ProcessRows(conv, outputDir, a) + ProcessRows(conv, outputDir, b)
    decreases |a|
  {
    if |a| == 0 {
      assert a + b == b;
    } else {
      assert (a + b)[0] == a[0];
      assert (a + b)[1..] == a[1..] + b;
      ProcessRowsAppend(conv, outputDir, a[1..], b);
    }
  }

  lemma ProcessRowsSnoc(conv: Conversions, outputDir: string, rows: seq<map<string, Cell>>, i: nat)
    requires i < |rows|
    ensures ProcessRows(conv, outputDir, rows[..i + 1])
         == ProcessRows(conv, outputDir, rows[..i]) + [ProcessRow(conv, outputDir, rows[i])]
  {
    ProcessRowsAppend(conv, outputDir, rows[..i], [rows[i]]);
    assert rows[..i + 1] == rows[..i] + [rows[i]];
  }

  datatype Report = Report(outcomes: seq<Outcome>, sucesso: nat, falhas: nat)

  datatype KmlError = MissingColumns(columns: set<string>)

  /** The script after its input is read: the column check, then the
      per-row loop with its two counters. */
  method Generate(conv: Conversions, outputDir: string, table: Table) returns (r: Result<Report, KmlError>)
    ensures r.Err? <==> !(Required <= table.columns)
    ensures r.Err? ==> r.error == MissingColumns(Required)
    ensures r.Ok? ==> r.value.outcomes == ProcessRows(conv, outputDir, table.rows)
    ensures r.Ok? ==> r.value.sucesso + r.value.falhas == |table.rows|
    ensures r.Ok? ==> r.value.sucesso == CountCreated(r.value.outcomes)
  {
    if !(Required <= table.columns) {
      return Err(MissingColumns(Required));
    }
    var sucesso, falhas := 0, 0;
    var outcomes: seq<Outcome> := [];
    var i := 0;
    while i < |table.rows|
      invariant 0 <= i <= |table.rows|
      invariant outcomes == ProcessRows(conv, outputDir, table.rows[..i])
      invariant sucesso == CountCreated(outcomes)
      invariant sucesso + falhas == i
    {
      var o := ProcessRow(conv, outputDir, table.rows[i]);
      ProcessRowsSnoc(conv, outputDir, table.rows, i);
      CountCreatedAppend(outcomes, [o]);
      if o.Created? {
        sucesso := sucesso + 1;
      } else {
        falhas := falhas + 1;
      }
      outcomes := outcomes + [o];
      i := i + 1;
    }
    assert table.rows[..i] == table.rows;
    return Ok(Report(outcomes, sucesso, falhas));
  }
}

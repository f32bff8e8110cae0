/** merge_shapefiles.py: every `.shp` file of a folder is read, its features
    are tagged with the file's name, every layer is brought to the first
    layer's CRS, and the layers are concatenated. Reading a file and
    transforming a geometry between two CRSs are parameters. */
module MergeLayers {
  import opened Results
  import opened Cells
  import opened Paths
  import opened Layers
  import opened Collections

  /** The tag column. */
  const SourceColumn: string := "source_file"

  /** Whether `glob('*.shp')` picks a directory entry: the `.shp` suffix,
      and no leading dot, since a wildcard never matches a hidden name. */
  predicate IsShapefileName(name: string) {
    |name| >= 4 && name[|name| - 4..] == ".shp" && name[0] != '.'
  }

  /** The entries `glob('*.shp')` keeps, in listing order. */
  function ShapefileNames(listing: seq<string>): (names: seq<string>)
    ensures |names| <= |listing|
    ensures forall k :: 0 <= k < |names| ==> IsShapefileName(names[k])
    ensures |names| == 0 <==> forall i :: 0 <= i < |listing| ==> !IsShapefileName(listing[i])
  {
    if |listing| == 0 then []
    else if IsShapefileName(listing[0]) then [listing[0]] + ShapefileNames(listing[1..])
    else ShapefileNames(listing[1..])
  }

  /** An entry is globbed exactly when it is in the listing and has the
      shapefile name shape. */
  lemma {:induction false} ShapefileNamesMember(listing: seq<string>, name: string)
    ensures name in ShapefileNames(listing) <==> name in listing && IsShapefileName(name)
    decreases |listing|
  {
    if |listing| > 0 {
      ShapefileNamesMember(listing[1..], name);
      assert name in listing <==> name == listing[0] || name in listing[1..];
    }
  }

  /** `os.path.join(directory, name)` for each globbed name. */
  function JoinAll(directory: string, names: seq<string>): (paths: seq<string>)
    ensures |paths| == |names|
    ensures forall k :: 0 <= k < |names| ==> paths[k] == JoinPath(directory, names[k])
  {
    if |names| == 0 then [] else [JoinPath(directory, names[0])] + JoinAll(directory, names[1..])
  }

  /** The paths the glob returns. */
  function ShapefilePaths(directory: string, listing: seq<string>): (paths: seq<string>)
    ensures |paths| == |ShapefileNames(listing)|
  {
    JoinAll(directory, ShapefileNames(listing))
  }

  /** `gdf["source_file"] = name` on every feature. */
  function TagFeatures<G>(fs: seq<Feature<G>>, name: string): (r: seq<Feature<G>>)
    ensures |r| == |fs|
    ensures forall j :: 0 <= j < |fs| ==>
      r[j].geometry == fs[j].geometry && r[j].attributes == fs[j].attributes[SourceColumn := Text(name)]
  {
    if |fs| == 0 then []
    else [Feature(fs[0].attributes[SourceColumn := Text(name)], fs[0].geometry)] + TagFeatures(fs[1..], name)
  }

  /** A layer with the tag column set to `name`: the CRS and the features'
      geometries are kept, every feature gets the tag and keeps its other
      attributes, and the tag column joins the columns after the existing
      ones unless it is there already. */
  function Tag<C, G>(layer: Layer<C, G>, name: string): (r: Layer<C, G>)
    ensures r.crs == layer.crs
    ensures forall c :: c in r.columns <==> c in layer.columns || c == SourceColumn
    ensures |layer.columns| <= |r.columns| && r.columns[..|layer.columns|] == layer.columns
    ensures |r.features| == |layer.features|
    ensures forall j :: 0 <= j < |layer.features| ==>
      && r.features[j].geometry == layer.features[j].geometry
      && r.features[j].attributes == layer.features[j].attributes[SourceColumn := Text(name)]
  {
    var columns := if SourceColumn in layer.columns then layer.columns else layer.columns + [SourceColumn];
    Layer(columns, TagFeatures(layer.features, name), layer.crs)
  }

  /** The reading loop: layer `k` is file `k` as read, in its own CRS, with
      the same features in the same order, each with its `source_file` set to
      the file's basename and every other attribute and its geometry kept. */
  function ReadAll<C, G>(paths: seq<string>, read: string -> Layer<C, G>): (layers: seq<Layer<C, G>>)
    ensures |layers| == |paths|
    ensures forall k :: 0 <= k < |paths| ==>
      && layers[k].crs == read(paths[k]).crs
      && SourceColumn in layers[k].columns
      && |layers[k].features| == |read(paths[k]).features|
      && forall j :: 0 <= j < |read(paths[k]).features| ==>
        && layers[k].features[j].geometry == read(paths[k]).features[j].geometry
        && layers[k].features[j].attributes
           == read(paths[k]).features[j].attributes[SourceColumn := Text(Basename(paths[k]))]
  {
    seq(|paths|, k requires 0 <= k < |paths| => Tag(read(paths[k]), Basename(paths[k])))
  }

  /** `to_crs` on every geometry of a layer. */
  function TransformFeatures<C, G>(fs: seq<Feature<G>>, from: C, to: C, transform: (G, C, C) -> G): (r: seq<Feature<G>>)
    ensures |r| == |fs|
    ensures forall j :: 0 <= j < |fs| ==>
      r[j].attributes == fs[j].attributes && r[j].geometry == transform(fs[j].geometry, from, to)
  {
    if |fs| == 0 then []
    else
      var g := transform(fs[0].geometry, from, to);
      [Feature(fs[0].attributes, g)] + TransformFeatures(fs[1..], from, to, transform)
  }

  /** One turn of the unification loop: a layer already in the reference CRS
      is left alone; otherwise it is transformed, which geopandas refuses
      when either CRS is unset. */
  function UnifyLayer<C(==), G>(layer: Layer<C, G>, reference: Option<C>, transform: (G, C, C) -> G): (r: Result<Layer<C, G>, ()>)
    ensures layer.crs == reference ==> r == Ok(layer)
    ensures r.Err? <==> layer.crs != reference && (layer.crs.None? || reference.None?)
    ensures r.Ok? ==> r.value.crs == reference && r.value.columns == layer.columns
    ensures r.Ok? ==> |r.value.features| == |layer.features|
    ensures r.Ok? ==> forall j :: 0 <= j < |layer.features| ==>
      r.value.features[j].attributes == layer.features[j].attributes
    ensures r.Ok? && layer.crs != reference ==>
      && layer.crs.Some? && reference.Some?
      && forall j :: 0 <= j < |layer.features| ==>
        r.value.features[j].geometry == transform(layer.features[j].geometry, layer.crs.value, reference.value)
  {
    if layer.crs == reference then Ok(layer)
    else if layer.crs.None? || reference.None? then Err(())
    else Ok(Layer(layer.columns, TransformFeatures(layer.features, layer.crs.value, reference.value, transform), reference))
  }

  /** `pd.concat(gdfs)`: the features of every layer, layer after layer. */
  function Flatten<C, G>(layers: seq<Layer<C, G>>): (fs: seq<Feature<G>>)
    ensures |fs| == TotalFeatures(layers)
  {
    if |layers| == 0 then [] else layers[0].features + Flatten(layers[1..])
  }

  function TotalFeatures<C, G>(layers: seq<Layer<C, G>>): nat {
    if |layers| == 0 then 0 else |layers[0].features| + TotalFeatures(layers[1..])
  }

  /** The merged feature sequence holds exactly the features of the layers. */
  lemma {:induction false} FlattenMember<C, G>(layers: seq<Layer<C, G>>, x: Feature<G>)
    ensures x in Flatten(layers) <==> exists k :: 0 <= k < |layers| && x in layers[k].features
    decreases |layers|
  {
    if |layers| > 0 {
      FlattenMember(layers[1..], x);
      if x in Flatten(layers[1..]) {
        var k :| 0 <= k < |layers[1..]| && x in layers[1..][k].features;
        assert x in layers[k + 1].features;
      }
      if exists k :: 0 <= k < |layers| && x in layers[k].features {
        var k :| 0 <= k < |layers| && x in layers[k].features;
        if k > 0 { assert x in layers[1..][k - 1].features; }
      }
    }
  }

  /** The column union of `concat`: each name once, in order of first
      appearance. */
  function AllColumns<C, G>(layers: seq<Layer<C, G>>): seq<string> {
    if |layers| == 0 then [] else layers[0].columns + AllColumns(layers[1..])
  }

  datatype MergeError =
    | NoShapefiles              // the glob found nothing
    | CannotTransform(path: string)  // `to_crs` with an unset CRS on either side

  /** The script after its folder is chosen: `listing` is the folder's
      entries as the operating system lists them. */
  function Merge<C(==), G>(directory: string, listing: seq<string>, read: string -> Layer<C, G>,
                           transform: (G, C, C) -> G): (r: Result<Layer<C, G>, MergeError>)
    ensures r == Err(NoShapefiles) <==> forall i :: 0 <= i < |listing| ==> !IsShapefileName(listing[i])
  {
    var paths := ShapefilePaths(directory, listing);
    if |paths| == 0 then Err(NoShapefiles)
    else
      var layers := ReadAll(paths, read);
      var reference := layers[0].crs;
      match Unify(layers, reference, transform)
      case Err(p) => Err(CannotTransform(paths[p.0]))
      case Ok(unified) => Ok(Concat(unified, reference))
  }

  /** The CRS unification loop over all layers. */
  function Unify<C(==), G>(layers: seq<Layer<C, G>>, reference: Option<C>, transform: (G, C, C) -> G)
    : (r: Result<seq<Layer<C, G>>, (nat, ())>)
    ensures r.Ok? ==> |r.value| == |layers|
  {
    ApplyAll(layers, (l: Layer<C, G>) => UnifyLayer(l, reference, transform))
  }

  /** `GeoDataFrame(pd.concat(layers), crs=reference)`. */
  function Concat<C, G>(layers: seq<Layer<C, G>>, reference: Option<C>): (r: Layer<C, G>)
    ensures r.crs == reference && |r.features| == TotalFeatures(layers)
  {
    Layer(Dedup(AllColumns(layers)), Flatten(layers), reference)
  }

  // ---------------------------------------------------------------------------
  // Properties
  // ---------------------------------------------------------------------------

  /** After the unification loop every layer is in the reference CRS, keeps
      its columns, its feature count and its attributes, and a layer that was
      already in the reference CRS is untouched. */
  lemma UnifyAtReference<C, G>(layers: seq<Layer<C, G>>, reference: Option<C>, transform: (G, C, C) -> G, k: nat)
    requires Unify(layers, reference, transform).Ok?
    requires k < |layers|
    ensures var u := Unify(layers, reference, transform).value[k];
      && u.crs == reference && u.columns == layers[k].columns
      && |u.features| == |layers[k].features|
      && (forall j :: 0 <= j < |u.features| ==> u.features[j].attributes == layers[k].features[j].attributes)
      && (layers[k].crs == reference ==> u == layers[k])
      && (layers[k].crs != reference ==>
           && layers[k].crs.Some? && reference.Some?
           && forall j :: 0 <= j < |u.features| ==>
             u.features[j].geometry == transform(layers[k].features[j].geometry, layers[k].crs.value, reference.value))
  {
    var f := (l: Layer<C, G>) => UnifyLayer(l, reference, transform);
    assert f(layers[k]) == Ok(Unify(layers, reference, transform).value[k]);
  }

  /** The loop stops at the first layer it cannot transform: one whose CRS
      differs from the reference while one of the two is unset. */
  lemma UnifyFailure<C, G>(layers: seq<Layer<C, G>>, reference: Option<C>, transform: (G, C, C) -> G)
    requires Unify(layers, reference, transform).Err?
    ensures var i := Unify(layers, reference, transform).error.0;
      && i < |layers| && layers[i].crs != reference
      && (layers[i].crs.None? || reference.None?)
      && forall j :: 0 <= j < i ==> layers[j].crs == reference || (layers[j].crs.Some? && reference.Some?)
  {
    var f := (l: Layer<C, G>) => UnifyLayer(l, reference, transform);
    var i := Unify(layers, reference, transform).error.0;
    assert f(layers[i]).Err?;
    forall j | 0 <= j < i ensures layers[j].crs == reference || (layers[j].crs.Some? && reference.Some?) {
      assert f(layers[j]).Ok?;
    }
  }

  /** Layers of pointwise equal sizes hold as many features in all. */
  lemma {:induction false} TotalFeaturesPointwise<C, G>(a: seq<Layer<C, G>>, b: seq<Layer<C, G>>)
    requires |a| == |b|
    requires forall k :: 0 <= k < |a| ==> |a[k].features| == |b[k].features|
    ensures TotalFeatures(a) == TotalFeatures(b)
    decreases |a|
  {
    if |a| > 0 {
      TotalFeaturesPointwise(a[1..], b[1..]);
    }
  }

  /** The files as read, before tagging. */
  function ReadRaw<C, G>(paths: seq<string>, read: string -> Layer<C, G>): (layers: seq<Layer<C, G>>)
    ensures |layers| == |paths|
    ensures forall k :: 0 <= k < |paths| ==> layers[k] == read(paths[k])
  {
    seq(|paths|, k requires 0 <= k < |paths| => read(paths[k]))
  }

  /** Number of features of the files as read. */
  function FeaturesRead<C, G>(paths: seq<string>, read: string -> Layer<C, G>): nat {
    TotalFeatures(ReadRaw(paths, read))
  }

  /** Tagging adds no feature and drops none. */
  lemma ReadAllTotal<C, G>(paths: seq<string>, read: string -> Layer<C, G>)
    ensures TotalFeatures(ReadAll(paths, read)) == FeaturesRead(paths, read)
  {
    var tagged, raw := ReadAll(paths, read), ReadRaw(paths, read);
    forall k | 0 <= k < |paths| ensures |tagged[k].features| == |raw[k].features| {
    }
    TotalFeaturesPointwise(tagged, raw);
  }

  /** The merged layer carries the first file's CRS and one feature for every
      feature of every file. */
  lemma MergeShape<C, G>(directory: string, listing: seq<string>, read: string -> Layer<C, G>,
                             transform: (G, C, C) -> G)
    requires Merge(directory, listing, read, transform).Ok?
    ensures var paths := ShapefilePaths(directory, listing);
      var m := Merge(directory, listing, read, transform).value;
      && |paths| > 0
      && m.crs == read(paths[0]).crs
      && |m.features| == FeaturesRead(paths, read)
  {
    var paths := ShapefilePaths(directory, listing);
    var layers := ReadAll(paths, read);
    var unified := Unify(layers, layers[0].crs, transform).value;
    forall k | 0 <= k < |layers| ensures |layers[k].features| == |unified[k].features| {
      UnifyAtReference(layers, layers[0].crs, transform, k);
    }
    TotalFeaturesPointwise(layers, unified);
    ReadAllTotal(paths, read);
  }

  /** Every merged feature is a feature of one of the files, with its
      attributes kept and the tag set to that file's basename. */
  lemma MergeTagged<C, G>(directory: string, listing: seq<string>, read: string -> Layer<C, G>,
                              transform: (G, C, C) -> G, x: Feature<G>)
    requires Merge(directory, listing, read, transform).Ok?
    requires x in Merge(directory, listing, read, transform).value.features
    ensures var paths := ShapefilePaths(directory, listing);
      exists k, j :: 0 <= k < |paths| && 0 <= j < |read(paths[k]).features| &&
        x.attributes == read(paths[k]).features[j].attributes[SourceColumn := Text(Basename(paths[k]))]
  {
    var paths := ShapefilePaths(directory, listing);
    var layers := ReadAll(paths, read);
    var unified := Unify(layers, layers[0].crs, transform).value;
    FlattenMember(unified, x);
    var k :| 0 <= k < |unified| && x in unified[k].features;
    var j :| 0 <= j < |unified[k].features| && unified[k].features[j] == x;
    UnifyAtReference(layers, layers[0].crs, transform, k);
    assert x.attributes == layers[k].features[j].attributes;
    assert x.attributes == read(paths[k]).features[j].attributes[SourceColumn := Text(Basename(paths[k]))];
  }

  /** Feature `j` of layer `k` sits in the concatenation right after the
      features of the layers before `k`. */
  lemma {:induction false} FlattenAt<C, G>(layers: seq<Layer<C, G>>, k: nat, j: nat)
    requires k < |layers| && j < |layers[k].features|
    ensures TotalFeatures(layers[..k]) + j < |Flatten(layers)|
    ensures Flatten(layers)[TotalFeatures(layers[..k]) + j] == layers[k].features[j]
    decreases k
  {
    if k == 0 {
      assert layers[..k] == [];
    } else {
      FlattenAt(layers[1..], k - 1, j);
      assert layers[..k][1..] == layers[1..][..k - 1];
    }
  }

  /** Appending a layer adds its features to the total. */
  lemma {:induction false} TotalFeaturesSnoc<C, G>(layers: seq<Layer<C, G>>, l: Layer<C, G>)
    ensures TotalFeatures(layers + [l]) == TotalFeatures(layers) + |l.features|
    decreases |layers|
  {
    if |layers| > 0 {
      assert (layers + [l])[1..] == layers[1..] + [l];
      TotalFeaturesSnoc(layers[1..], l);
    }
  }

  /** The files before `k + 1` hold the features of the files before `k`
      and then those of file `k`: the offsets of consecutive files follow
      each other without gap or overlap. */
  lemma FeaturesReadStep<C, G>(paths: seq<string>, read: string -> Layer<C, G>, k: nat)
    requires k < |paths|
    ensures FeaturesRead(paths[..k + 1], read) == FeaturesRead(paths[..k], read) + |read(paths[k]).features|
  {
    assert ReadRaw(paths[..k + 1], read) == ReadRaw(paths[..k], read) + [read(paths[k])];
    TotalFeaturesSnoc(ReadRaw(paths[..k], read), read(paths[k]));
  }

  /** `x` is feature `j` of `raw` tagged with `name`, with its geometry
      unchanged when `raw` already has the `reference` CRS and transformed to
      it otherwise. */
  ghost predicate TaggedUnified<C, G>(x: Feature<G>, raw: Layer<C, G>, j: nat, name: string,
                                      reference: Option<C>, transform: (G, C, C) -> G)
    requires j < |raw.features|
  {
    var f := raw.features[j];
    && x.attributes == f.attributes[SourceColumn := Text(name)]
    && (raw.crs == reference ==> x.geometry == f.geometry)
    && (raw.crs != reference ==>
         && raw.crs.Some? && reference.Some?
         && x.geometry == transform(f.geometry, raw.crs.value, reference.value))
  }

  /** Feature `j` of file `k` sits in `fs` right after all the features of
      the files before `k`, tagged with the file's basename, with its other
      attributes, and with its geometry unchanged when the file already has
      the first file's CRS and transformed to that CRS otherwise. */
  ghost predicate PlacedAt<C, G>(fs: seq<Feature<G>>, paths: seq<string>, read: string -> Layer<C, G>,
                           transform: (G, C, C) -> G, k: nat, j: nat)
    requires k < |paths| && j < |read(paths[k]).features|
  {
    var at := FeaturesRead(paths[..k], read) + j;
    && at < |fs|
    && TaggedUnified(fs[at], read(paths[k]), j, Basename(paths[k]), read(paths[0]).crs, transform)
  }

  /** The merge is the files' features concatenated in file order: every
      feature of every file is placed at its own offset, as `PlacedAt` says.
      With `FeaturesReadStep` and `MergeShape` the offsets of consecutive
      files meet without gap or overlap and cover the whole merge. */
  lemma {:induction false} MergeAt<C, G>(directory: string, listing: seq<string>, read: string -> Layer<C, G>,
                      transform: (G, C, C) -> G, k: nat, j: nat)
    requires Merge(directory, listing, read, transform).Ok?
    requires k < |ShapefilePaths(directory, listing)|
    requires j < |read(ShapefilePaths(directory, listing)[k]).features|
    ensures PlacedAt(Merge(directory, listing, read, transform).value.features,
                     ShapefilePaths(directory, listing), read, transform, k, j)
  {
    var paths := ShapefilePaths(directory, listing);
    var layers := ReadAll(paths, read);
    MergeFeatures(directory, listing, read, transform);
    var unified := Unify(layers, read(paths[0]).crs, transform).value;
    var m := Merge(directory, listing, read, transform).value;
    UnifiedAt(paths, read, transform, layers, unified, m.features, k, j);
  }

  /** A successful merge holds the concatenation of the unified layers. */
  lemma MergeFeatures<C, G>(directory: string, listing: seq<string>, read: string -> Layer<C, G>,
                            transform: (G, C, C) -> G)
    requires Merge(directory, listing, read, transform).Ok?
    ensures var paths := ShapefilePaths(directory, listing);
      && |paths| > 0
      && Unify(ReadAll(paths, read), read(paths[0]).crs, transform).Ok?
      && Merge(directory, listing, read, transform).value.features
         == Flatten(Unify(ReadAll(paths, read), read(paths[0]).crs, transform).value)
  {
    var paths := ShapefilePaths(directory, listing);
    var layers := ReadAll(paths, read);
    assert layers[0].crs == read(paths[0]).crs;
  }

  /** The step of `MergeAt` after the reading and the unification loop. */
  lemma {:induction false} UnifiedAt<C, G>(paths: seq<string>, read: string -> Layer<C, G>, transform: (G, C, C) -> G,
                        layers: seq<Layer<C, G>>, unified: seq<Layer<C, G>>, fs: seq<Feature<G>>,
                        k: nat, j: nat)
    requires |paths| > 0 && layers == ReadAll(paths, read)
    requires Unify(layers, read(paths[0]).crs, transform) == Ok(unified) && fs == Flatten(unified)
    requires k < |paths| && j < |read(paths[k]).features|
    ensures PlacedAt(fs, paths, read, transform, k, j)
  {
    UnifiedFeatureAt(paths, read, transform, layers, unified, k, j);
    UnifiedOffset(paths, read, transform, layers, unified, k);
    FlattenAt(unified, k, j);
  }

  /** Feature `j` of unified layer `k` is feature `j` of file `k`, tagged
      and unified to the first file's CRS. */
  lemma UnifiedFeatureAt<C, G>(paths: seq<string>, read: string -> Layer<C, G>, transform: (G, C, C) -> G,
                               layers: seq<Layer<C, G>>, unified: seq<Layer<C, G>>, k: nat, j: nat)
    requires |paths| > 0 && layers == ReadAll(paths, read)
    requires Unify(layers, read(paths[0]).crs, transform) == Ok(unified)
    requires k < |paths| && j < |read(paths[k]).features|
    ensures k < |unified| && j < |unified[k].features|
    ensures TaggedUnified(unified[k].features[j], read(paths[k]), j, Basename(paths[k]), read(paths[0]).crs, transform)
  {
    UnifyStep(layers, read(paths[0]).crs, transform, unified, k);
    TaggedThenUnified(read(paths[k]), layers[k], unified[k], Basename(paths[k]), read(paths[0]).crs, transform, j);
  }

  /** The unified layers before `k` hold as many features as the files
      before `k`. */
  lemma UnifiedOffset<C, G>(paths: seq<string>, read: string -> Layer<C, G>, transform: (G, C, C) -> G,
                            layers: seq<Layer<C, G>>, unified: seq<Layer<C, G>>, k: nat)
    requires |paths| > 0 && layers == ReadAll(paths, read)
    requires Unify(layers, read(paths[0]).crs, transform) == Ok(unified)
    requires k <= |paths|
    ensures TotalFeatures(unified[..k]) == FeaturesRead(paths[..k], read)
  {
    var raw := ReadRaw(paths[..k], read);
    forall i | 0 <= i < k ensures |unified[..k][i].features| == |raw[i].features| {
      UnifyAtReference(layers, read(paths[0]).crs, transform, i);
    }
    TotalFeaturesPointwise(unified[..k], raw);
  }

  /** Turn `k` of the unification loop produced unified layer `k`. */
  lemma UnifyStep<C, G>(layers: seq<Layer<C, G>>, reference: Option<C>, transform: (G, C, C) -> G,
                        unified: seq<Layer<C, G>>, k: nat)
    requires Unify(layers, reference, transform) == Ok(unified) && k < |layers|
    ensures k < |unified| && UnifyLayer(layers[k], reference, transform) == Ok(unified[k])
  {
    var f := (l: Layer<C, G>) => UnifyLayer(l, reference, transform);
    assert f(layers[k]) == Ok(unified[k]);
  }

  /** A feature tagged with `name` and then unified to `reference` is the
      raw feature with the tag, moved to the reference CRS when its layer
      has another. */
  lemma TaggedThenUnified<C, G>(raw: Layer<C, G>, l: Layer<C, G>, u: Layer<C, G>, name: string,
                                reference: Option<C>, transform: (G, C, C) -> G, j: nat)
    requires l.crs == raw.crs && |l.features| == |raw.features| && j < |raw.features|
    requires l.features[j].geometry == raw.features[j].geometry
    requires l.features[j].attributes == raw.features[j].attributes[SourceColumn := Text(name)]
    requires UnifyLayer(l, reference, transform) == Ok(u)
    ensures j < |u.features|
    ensures TaggedUnified(u.features[j], raw, j, name, reference, transform)
  {
  }

  /** `to_crs` can bring a layer from `from` to `to`: nothing to do when
      they agree, otherwise both must be set. */
  predicate Transformable<C(==)>(from: Option<C>, to: Option<C>) {
    from == to || (from.Some? && to.Some?)
  }

  /** A merge succeeds exactly when the folder has a shapefile and every
      file can be brought to the first file's CRS. */
  lemma MergeSucceeds<C, G>(directory: string, listing: seq<string>, read: string -> Layer<C, G>,
                            transform: (G, C, C) -> G)
    ensures var paths := ShapefilePaths(directory, listing);
      Merge(directory, listing, read, transform).Ok? <==>
        |paths| > 0 && forall k :: 0 <= k < |paths| ==> Transformable(read(paths[k]).crs, read(paths[0]).crs)
  {
    var paths := ShapefilePaths(directory, listing);
    if |paths| > 0 {
      var layers := ReadAll(paths, read);
      var reference := layers[0].crs;
      assert reference == read(paths[0]).crs;
      var u := Unify(layers, reference, transform);
      if u.Err? {
        UnifyFailure(layers, reference, transform);
        assert !Transformable(read(paths[u.error.0]).crs, reference);
      } else {
        forall k | 0 <= k < |paths| ensures Transformable(read(paths[k]).crs, reference) {
          UnifyAtReference(layers, reference, transform, k);
        }
      }
    }
  }

  /** A failed merge with shapefiles names the first file that cannot be
      brought to the first file's CRS. */
  lemma MergeFailure<C, G>(directory: string, listing: seq<string>, read: string -> Layer<C, G>,
                           transform: (G, C, C) -> G)
    requires Merge(directory, listing, read, transform).Err?
    requires |ShapefilePaths(directory, listing)| > 0
    ensures var paths := ShapefilePaths(directory, listing);
      exists i :: 0 <= i < |paths|
        && Merge(directory, listing, read, transform).error == CannotTransform(paths[i])
        && !Transformable(read(paths[i]).crs, read(paths[0]).crs)
        && forall j :: 0 <= j < i ==> Transformable(read(paths[j]).crs, read(paths[0]).crs)
  {
    var paths := ShapefilePaths(directory, listing);
    var layers := ReadAll(paths, read);
    var reference := layers[0].crs;
    assert reference == read(paths[0]).crs;
    UnifyFailure(layers, reference, transform);
    var i := Unify(layers, reference, transform).error.0;
    assert !Transformable(read(paths[i]).crs, reference);
    assert Merge(directory, listing, read, transform).error == CannotTransform(paths[i]);
  }

  /** The globbed paths' basenames are the globbed entry names. */
  lemma ShapefileBasenames(directory: string, listing: seq<string>, k: nat)
    requires forall i :: 0 <= i < |listing| ==> '/' !in listing[i]
    requires k < |ShapefileNames(listing)|
    ensures Basename(ShapefilePaths(directory, listing)[k]) == ShapefileNames(listing)[k]
  {
    var name := ShapefileNames(listing)[k];
    ShapefileNamesMember(listing, name);
    BasenameOfJoin(directory, name);
  }
}

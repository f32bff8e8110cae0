/** filter_and_export_features.py: keep the features whose identifying
    field holds one of the wanted values, export them together, then export
    one subset per wanted value. The field and the values are parameters;
    geometries are opaque. */
module FeatureFilter {
  import opened Results
  import opened Cells
  import opened Paths
  import opened Layers

  /** `gdf[field].isin(wanted)` for one feature. */
  predicate Selected<G>(f: Feature<G>, field: string, wanted: seq<string>) {
    var c := Get(f.attributes, field);
    c.Text? && c.s in wanted
  }

  /** `gdf[gdf[field].isin(wanted)]`: the selected features in their
      original order. */
  function Keep<G>(fs: seq<Feature<G>>, field: string, wanted: seq<string>): (r: seq<Feature<G>>)
    ensures |r| <= |fs|
    ensures forall i :: 0 <= i < |r| ==> Selected(r[i], field, wanted)
  {
    if |fs| == 0 then []
    else if Selected(fs[0], field, wanted) then [fs[0]] + Keep(fs[1..], field, wanted)
    else Keep(fs[1..], field, wanted)
  }

  /** Filtering commutes with concatenation, so the relative order of the
      kept features is their original order. */
  lemma {:induction false} KeepAppend<G>(a: seq<Feature<G>>, b: seq<Feature<G>>, field: string, wanted: seq<string>)
    ensures Keep(a + b, field, wanted) == Keep(a, field, wanted) + Keep(b, field, wanted)
    decreases |a|
  {
    if |a| == 0 {
      assert a + b == b;
    } else {
      assert (a + b)[0] == a[0];
      assert (a + b)[1..] == a[1..] + b;
      KeepAppend(a[1..], b, field, wanted);
    }
  }

  /** A feature is kept exactly when it is in the layer and selected. */
  lemma {:induction false} KeepMember<G>(fs: seq<Feature<G>>, field: string, wanted: seq<string>, x: Feature<G>)
    ensures x in Keep(fs, field, wanted) <==> x in fs && Selected(x, field, wanted)
    decreases |fs|
  {
    if |fs| > 0 {
      KeepMember(fs[1..], field, wanted, x);
      assert x in fs <==> x == fs[0] || x in fs[1..];
    }
  }

  /** Picking one wanted value out of the already filtered features gives
      the same subset as picking it out of the whole layer. */
  lemma {:induction false} KeepNarrows<G>(fs: seq<Feature<G>>, field: string, wanted: seq<string>, v: string)
    requires v in wanted
    ensures Keep(Keep(fs, field, wanted), field, [v]) == Keep(fs, field, [v])
    decreases |fs|
  {
    if |fs| > 0 {
      KeepNarrows(fs[1..], field, wanted, v);
      if Selected(fs[0], field, wanted) {
        var k := Keep(fs[1..], field, wanted);
        assert ([fs[0]] + k)[0] == fs[0] && ([fs[0]] + k)[1..] == k;
      }
    }
  }

  /** What the per-value loop does with one wanted value. */
  datatype ExportStep<G> =
    | Exported(fileName: string, path: string, subset: seq<Feature<G>>)
    | Skipped(value: string)   // the warning for a value with no feature

  /** One iteration of the per-value loop. */
  function StepFor<G>(fs: seq<Feature<G>>, field: string, v: string, folder: string): (s: ExportStep<G>)
    ensures s.Exported? <==> |Keep(fs, field, [v])| > 0
    ensures s.Exported? ==> s.subset == Keep(fs, field, [v]) && s.path == JoinPath(folder, s.fileName)
    ensures s.Exported? ==> s.fileName == v + ".shp"
    ensures s.Skipped? ==> s.value == v
  {
    var subset := Keep(fs, field, [v]);
    if |subset| > 0 then Exported(v + ".shp", JoinPath(folder, v + ".shp"), subset) else Skipped(v)
  }

  /** The per-value loop: one step per wanted value, in order; a skipped
      value does not stop the loop. */
  function Steps<G>(fs: seq<Feature<G>>, field: string, wanted: seq<string>, folder: string): (r: seq<ExportStep<G>>)
    ensures |r| == |wanted|
    ensures forall i :: 0 <= i < |wanted| ==> r[i] == StepFor(fs, field, wanted[i], folder)
  {
    if |wanted| == 0 then []
    else [StepFor(fs, field, wanted[0], folder)] + Steps(fs, field, wanted[1..], folder)
  }

  datatype FilterError = FieldMissing(field: string) | NoFeatures

  /** Everything the script writes: the combined file and the per-value
      steps. */
  datatype Export<G> = Export(allPath: string, filtered: seq<Feature<G>>, steps: seq<ExportStep<G>>)

  /** The name of the combined output file. */
  const CombinedName: string := "feicoes_filtradas.shp"

  /** The script after reading its layer. */
  function FilterAndExport<C, G>(layer: Layer<C, G>, field: string, wanted: seq<string>, folder: string): (r: Result<Export<G>, FilterError>)
    ensures r.Err? && field !in layer.columns ==> r.error == FieldMissing(field)
    ensures r.Err? <==> field !in layer.columns || |Keep(layer.features, field, wanted)| == 0
    ensures r.Ok? ==> r.value.filtered == Keep(layer.features, field, wanted)
    ensures r.Ok? ==> r.value.allPath == JoinPath(folder, CombinedName)
    ensures r.Err? && field in layer.columns ==> r.error == NoFeatures
    ensures r.Ok? ==> |r.value.steps| == |wanted|
    ensures r.Ok? ==> forall i :: 0 <= i < |wanted| ==>
      r.value.steps[i] == StepFor(layer.features, field, wanted[i], folder)
  {
    if field !in layer.columns then Err(FieldMissing(field))
    else
      var filtered := Keep(layer.features, field, wanted);
      if |filtered| == 0 then Err(NoFeatures)
      else Ok(Export(JoinPath(folder, CombinedName), filtered, Steps(layer.features, field, wanted, folder)))
  }

  /** Every exported subset lies inside the combined export, and holds
      exactly the features carrying its value. */
  lemma ExportedWithinFiltered<C, G>(layer: Layer<C, G>, field: string, wanted: seq<string>, folder: string, i: nat, x: Feature<G>)
    requires FilterAndExport(layer, field, wanted, folder).Ok?
    requires i < |wanted|
    ensures var e := FilterAndExport(layer, field, wanted, folder).value;
      e.steps[i].Exported? ==>
        (x in e.steps[i].subset <==> x in layer.features && Selected(x, field, [wanted[i]])) &&
        (x in e.steps[i].subset ==> x in e.filtered)
  {
    var e := FilterAndExport(layer, field, wanted, folder).value;
    KeepMember(layer.features, field, [wanted[i]], x);
    KeepMember(layer.features, field, wanted, x);
  }

  /** Every feature of the combined export also appears in the file of its
      own value. */
  lemma FilteredCovered<C, G>(layer: Layer<C, G>, field: string, wanted: seq<string>, folder: string, x: Feature<G>)
    requires FilterAndExport(layer, field, wanted, folder).Ok?
    requires x in FilterAndExport(layer, field, wanted, folder).value.filtered
    ensures var e := FilterAndExport(layer, field, wanted, folder).value;
      exists i :: 0 <= i < |wanted| && e.steps[i].Exported? && x in e.steps[i].subset
  {
    var e := FilterAndExport(layer, field, wanted, folder).value;
    KeepMember(layer.features, field, wanted, x);
    var v := Get(x.attributes, field).s;
    var i :| 0 <= i < |wanted| && wanted[i] == v;
    KeepMember(layer.features, field, [v], x);
    assert e.steps[i].Exported? && x in e.steps[i].subset;
  }
}

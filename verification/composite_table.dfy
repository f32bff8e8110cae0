/** The table around the loops of generate_composite_samples.py: column names
    are stripped, the classes and predictors are taken in order of first
    occurrence, and the records become a table whose columns are
    `amostra_id`, `classe` and the predictors in code-point order. */
module CompositeTable {
  import opened Results
  import opened Cells
  import opened Text
  import opened Collections
  import opened StringOrder
  import opened CompositeSamples

  /** One input row: its class label and its predictor label. The `median`
      values only reach the result through the block means. */
  datatype SampleRow = SampleRow(classe: string, predictor: string)

  /** The CSV as read: its header and its rows. */
  datatype Table = Table(columns: seq<string>, rows: seq<SampleRow>)

  /** The table written out: its columns and one record per row. */
  datatype Frame = Frame(columns: seq<string>, rows: seq<Record>)

  /** A `KeyError`: a column the script indexes is missing, or no record was
      made, so the frame has no `amostra_id` column to select. */
  datatype CompositeError = MissingColumn(name: string) | EmptyResult

  /** Line 24: every header name stripped of surrounding white space. Name
      `i` becomes the piece of `names[i]` that starts at `StripOffset`: what
      precedes and follows it is all white space, and the piece neither
      starts nor ends with white space, so no more could be removed. */
  function StripAll(names: seq<string>): (r: seq<string>)
    ensures |r| == |names|
    ensures forall i :: 0 <= i < |names| ==>
      var a := StripOffset(names[i]);
      && a + |r[i]| <= |names[i]| && r[i] == names[i][a..a + |r[i]|]
      && AllSpace(names[i][..a]) && AllSpace(names[i][a + |r[i]|..])
      && Trimmed(r[i])
  {
    StripEach(names);
    seq(|names|, i requires 0 <= i < |names| => Strip(names[i]))
  }

  lemma StripEach(names: seq<string>)
    ensures forall i :: 0 <= i < |names| ==>
      AllSpace(names[i][..StripOffset(names[i])])
      && AllSpace(names[i][StripOffset(names[i]) + |Strip(names[i])|..])
  {
    forall i | 0 <= i < |names|
      ensures AllSpace(names[i][..StripOffset(names[i])])
      ensures AllSpace(names[i][StripOffset(names[i]) + |Strip(names[i])|..])
    {
      StripDropsOnlySpace(names[i]);
    }
  }

  /** Stripping a header twice is stripping it once. */
  lemma StripAllIdempotent(names: seq<string>)
    ensures StripAll(StripAll(names)) == StripAll(names)
  {
    forall i | 0 <= i < |names| ensures StripAll(StripAll(names))[i] == StripAll(names)[i] {
      StripIdempotent(names[i]);
    }
  }

  function Classes(rows: seq<SampleRow>): (r: seq<string>)
    ensures |r| == |rows| && forall i :: 0 <= i < |rows| ==> r[i] == rows[i].classe
  {
    seq(|rows|, i requires 0 <= i < |rows| => rows[i].classe)
  }

  function Predictors(rows: seq<SampleRow>): (r: seq<string>)
    ensures |r| == |rows| && forall i :: 0 <= i < |rows| ==> r[i] == rows[i].predictor
  {
    seq(|rows|, i requires 0 <= i < |rows| => rows[i].predictor)
  }

  predicate Fixed(name: string) {
    name == IdColumn || name == ClassColumn
  }

  /** Line 60: the columns other than `amostra_id` and `classe`, in order. */
  function Others(names: seq<string>): (r: seq<string>)
    ensures forall x :: multiset(r)[x] == if Fixed(x) then 0 else multiset(names)[x]
    decreases |names|
  {
    if |names| == 0 then []
    else
      assert names == [names[0]] + names[1..];
      (if Fixed(names[0]) then [] else [names[0]]) + Others(names[1..])
  }

  /** The columns of `pd.DataFrame(amostras)`: the first record made has
      `amostra_id`, `classe` and then every predictor; the later records add
      no column. */
  function FrameColumns(preds: seq<string>): seq<string> {
    Dedup([IdColumn, ClassColumn] + preds)
  }

  /** Lines 59-61. */
  function OutputColumns(preds: seq<string>): seq<string> {
    [IdColumn, ClassColumn] + Sort(Others(FrameColumns(preds)))
  }

  /** Line 62 on one record: its value in every selected column, `NaN` where
      it has none. */
  function Select(rec: Record, columns: seq<string>): Record {
    map n | n in columns :: if n in rec then rec[n] else Missing
  }

  /** Lines 55-56 and 62: the records in insertion order, restricted to the
      selected columns. */
  function Rows(s: Samples, columns: seq<string>): (r: seq<Record>)
    ensures |r| == |s.order|
  {
    seq(|s.order|, j requires 0 <= j < |s.order| =>
      Select(if s.order[j] in s.records then s.records[s.order[j]] else map[], columns))
  }

  /** The whole script between reading the CSV and writing it out. */
  function Composite(t: Table, mean: Means): (r: Result<Frame, CompositeError>)
    ensures var names := StripAll(t.columns);
      && (r == Err(MissingColumn(ClassColumn)) <==> ClassColumn !in names)
      && (r == Err(EmptyResult) <==> ClassColumn in names && |t.rows| == 0)
      && (r == Err(MissingColumn(PredictorColumn)) <==>
            ClassColumn in names && |t.rows| > 0 && PredictorColumn !in names)
      && (r == Err(MissingColumn(MedianColumn)) <==>
            ClassColumn in names && |t.rows| > 0 && PredictorColumn in names && MedianColumn !in names)
      && (r.Ok? <==> |t.rows| > 0 && ClassColumn in names && PredictorColumn in names && MedianColumn in names)
  {
    var names := StripAll(t.columns);
    if ClassColumn !in names then Err(MissingColumn(ClassColumn))
    else if |t.rows| == 0 then Err(EmptyResult)
    else if PredictorColumn !in names then Err(MissingColumn(PredictorColumn))
    else if MedianColumn !in names then Err(MissingColumn(MedianColumn))
    else
      var columns := OutputColumns(Dedup(Predictors(t.rows)));
      Ok(Frame(columns, Rows(Build(Dedup(Classes(t.rows)), Dedup(Predictors(t.rows)), mean), columns)))
  }

  // ---------------------------------------------------------------------------
  // Columns
  // ---------------------------------------------------------------------------

  /** In a sequence without repetitions every element occurs once. */
  lemma {:induction false} DistinctCounts(xs: seq<string>)
    requires Distinct(xs)
    ensures forall x :: multiset(xs)[x] == if x in xs then 1 else 0
    decreases |xs|
  {
    if |xs| > 0 {
      var t := xs[1..];
      assert xs == [xs[0]] + t;
      assert Distinct(t);
      DistinctCounts(t);
    }
  }

  /** A sequence in which nothing occurs twice has no repetitions. */
  lemma CountsDistinct(xs: seq<string>)
    requires forall x :: multiset(xs)[x] <= 1
    ensures Distinct(xs)
  {
    forall i, j | 0 <= i < j < |xs| ensures xs[i] != xs[j] {
      var a, b := xs[..j], xs[j..];
      assert xs == a + b;
      assert xs[i] == a[i] && xs[j] == b[0];
      assert multiset(xs)[xs[j]] == multiset(a)[xs[j]] + multiset(b)[xs[j]];
    }
  }

  lemma FrameColumnsMember(preds: seq<string>, x: string)
    ensures x in FrameColumns(preds) <==> Fixed(x) || x in preds
  {
    var all := [IdColumn, ClassColumn] + preds;
    if x in all {
      var i :| 0 <= i < |all| && all[i] == x;
      assert x in Dedup(all);
    }
    if x in Dedup(all) {
      var i :| 0 <= i < |Dedup(all)| && Dedup(all)[i] == x;
      assert x in all;
    }
  }

  /** The predictor columns, sorted and each once. */
  lemma SortedOthers(preds: seq<string>)
    ensures var o := Sort(Others(FrameColumns(preds)));
      && Sorted(o) && Distinct(o)
      && forall x :: x in o <==> !Fixed(x) && x in preds
  {
    var f := FrameColumns(preds);
    var o := Sort(Others(f));
    DistinctCounts(f);
    CountsDistinct(o);
    forall x ensures x in o <==> !Fixed(x) && x in preds {
      FrameColumnsMember(preds, x);
      assert x in o <==> multiset(o)[x] > 0;
      assert x in f <==> multiset(f)[x] > 0;
    }
  }

  /** The written table has `amostra_id`, then `classe`, then every
      predictor once in code-point order, and no other column. */
  lemma OutputColumnsShape(preds: seq<string>)
    ensures var cs := OutputColumns(preds);
      && |cs| >= 2 && cs[0] == IdColumn && cs[1] == ClassColumn
      && Sorted(cs[2..]) && Distinct(cs)
      && forall x :: x in cs <==> Fixed(x) || x in preds
  {
    var o := Sort(Others(FrameColumns(preds)));
    SortedOthers(preds);
    PrefixColumns(o);
  }

  lemma PrefixColumns(o: seq<string>)
    requires Distinct(o) && IdColumn !in o && ClassColumn !in o
    ensures var cs := [IdColumn, ClassColumn] + o;
      && cs[2..] == o && Distinct(cs)
      && forall x :: x in cs <==> Fixed(x) || x in o
  {
    var cs := [IdColumn, ClassColumn] + o;
    assert cs[2..] == o;
    forall i, j | 0 <= i < j < |cs| ensures cs[i] != cs[j] {
      if j >= 2 {
        assert cs[j] == o[j - 2];
        if i >= 2 {
          assert cs[i] == o[i - 2];
        }
      }
    }
  }

  /** The column order does not depend on the order in which the predictors
      first occur: only on which predictors there are. */
  lemma OutputColumnsIgnorePredictorOrder(p: seq<string>, q: seq<string>)
    requires forall x :: x in p <==> x in q
    ensures OutputColumns(p) == OutputColumns(q)
  {
    var a := Others(FrameColumns(p));
    var b := Others(FrameColumns(q));
    DistinctCounts(FrameColumns(p));
    DistinctCounts(FrameColumns(q));
    forall x ensures multiset(a)[x] == multiset(b)[x] {
      FrameColumnsMember(p, x);
      FrameColumnsMember(q, x);
    }
    assert multiset(a) == multiset(b);
    SortPermutationInvariant(a, b);
  }

  // ---------------------------------------------------------------------------
  // Rows
  // ---------------------------------------------------------------------------

  /** A finished record has a value in every selected column, so selecting
      fills in nothing. */
  lemma SelectWhole(rec: Record, c: string, i: nat, preds: seq<string>, mean: Means)
    requires RecordShape(rec, c, i, preds, mean)
    ensures Select(rec, OutputColumns(preds)) == rec
  {
    OutputColumnsShape(preds);
  }

  /** A successful run: some rows, and the frame built from their classes
      and predictors in order of first occurrence. */
  lemma CompositeValue(t: Table, mean: Means)
    requires Composite(t, mean).Ok?
    ensures |t.rows| > 0
    ensures var preds := Dedup(Predictors(t.rows));
      && Composite(t, mean).value.columns == OutputColumns(preds)
      && Composite(t, mean).value.rows == Rows(Build(Dedup(Classes(t.rows)), preds, mean), OutputColumns(preds))
  {
  }

  /** A row read off a finished record is that record. */
  lemma RowIs(s: Samples, j: nat, c: string, i: nat, preds: seq<string>, mean: Means)
    requires j < |s.order| && s.order[j] == (c, i) && (c, i) in s.records
    requires RecordShape(s.records[(c, i)], c, i, preds, mean)
    ensures RecordShape(Rows(s, OutputColumns(preds))[j], c, i, preds, mean)
  {
    SelectWhole(s.records[(c, i)], c, i, preds, mean);
  }

  /** The loops' records, read off in insertion order. */
  lemma RowsOfBuild(classes: seq<string>, preds: seq<string>, mean: Means, j: nat)
    requires Distinct(classes) && |preds| > 0
    ensures var rs := Rows(Build(classes, preds, mean), OutputColumns(preds));
      && |rs| == |classes| * NSamples
      && (j < |rs| ==> RecordShape(rs[j], classes[j / NSamples], j % NSamples + 1, preds, mean))
  {
    OrderBuild(classes, preds, mean);
    if j < |classes| * NSamples {
      RecordContents(classes, preds, mean, classes[j / NSamples], j % NSamples + 1);
      RowOfSamples(Build(classes, preds, mean), classes, preds, mean, j);
    }
  }

  lemma RowOfSamples(s: Samples, classes: seq<string>, preds: seq<string>, mean: Means, j: nat)
    requires j < |classes| * NSamples && s.order == ClassKeys(classes)
    requires var k := (classes[j / NSamples], j % NSamples + 1);
      k in s.records && RecordShape(s.records[k], k.0, k.1, preds, mean)
    ensures j < |Rows(s, OutputColumns(preds))|
    ensures RecordShape(Rows(s, OutputColumns(preds))[j], classes[j / NSamples], j % NSamples + 1, preds, mean)
  {
    assert s.order[j] == (classes[j / NSamples], j % NSamples + 1);
    RowIs(s, j, classes[j / NSamples], j % NSamples + 1, preds, mean);
  }

  /** The labels `unique()` yields are those of the rows. */
  lemma DedupLabels(labels: seq<string>, x: string)
    ensures x in Dedup(labels) <==> x in labels
  {
    if x in Dedup(labels) {
      var k :| 0 <= k < |Dedup(labels)| && Dedup(labels)[k] == x;
    }
    if x in labels {
      var i :| 0 <= i < |labels| && labels[i] == x;
    }
  }

  /** Row `j` of the written table is the record of class `j / 15` (classes in
      order of first occurrence) and block `j % 15 + 1`: its number, its class
      and every predictor's block mean, and nothing else. */
  lemma CompositeRows(t: Table, mean: Means, j: nat)
    requires Composite(t, mean).Ok?
    ensures var f := Composite(t, mean).value;
      var classes := Dedup(Classes(t.rows));
      && |f.rows| == |classes| * NSamples
      && (j < |f.rows| ==>
            RecordShape(f.rows[j], classes[j / NSamples], j % NSamples + 1, Dedup(Predictors(t.rows)), mean))
  {
    CompositeValue(t, mean);
    var preds := Dedup(Predictors(t.rows));
    DedupLabels(Predictors(t.rows), Predictors(t.rows)[0]);
    RowsOfBuild(Dedup(Classes(t.rows)), preds, mean, j);
  }

  /** The written table's columns: `amostra_id`, `classe`, then every
      predictor label of the rows once, in code-point order. */
  lemma CompositeColumns(t: Table, mean: Means)
    requires Composite(t, mean).Ok?
    ensures var cs := Composite(t, mean).value.columns;
      && |cs| >= 2 && cs[0] == IdColumn && cs[1] == ClassColumn
      && Sorted(cs[2..]) && Distinct(cs)
      && forall x :: x in cs <==> Fixed(x) || x in Predictors(t.rows)
  {
    CompositeValue(t, mean);
    var preds := Dedup(Predictors(t.rows));
    OutputColumnsShape(preds);
    forall x ensures x in preds <==> x in Predictors(t.rows) {
      DedupLabels(Predictors(t.rows), x);
    }
  }
}

/** generate_composite_samples.py: for every class and every predictor the
    rows are split into fifteen blocks, and block `i` of predictor `p` sets
    column `p` of the class's record number `i`. Then the columns are put in
    order: `amostra_id`, `classe`, and the rest sorted. The shuffle, the
    split and the block means are a parameter (`Means`). */
module CompositeSamples {
  import opened Results
  import opened Cells
  import opened Text
  import opened Collections
  import opened StringOrder

  /** `n_amostras`. */
  const NSamples: nat := 15
  const IdColumn: string := "amostra_id"
  const ClassColumn: string := "classe"
  const PredictorColumn: string := "preditoras"
  const MedianColumn: string := "median"

  /** A record's key: its class and its block number. */
  type Key = (string, nat)
  type Record = map<string, Cell>

  /** The mean of the `median` column over block `i` of a class and a
      predictor, as pandas and numpy compute it. */
  type Means = (string, string, nat) -> Cell

  /** `amostras_por_preditor`: the records and the order in which their keys
      were first inserted. */
  datatype Samples = Samples(order: seq<Key>, records: map<Key, Record>)

  /** The record created the first time a key is met. */
  function BaseRecord(c: string, i: nat): Record {
    map[IdColumn := Num(i as real), ClassColumn := Text(c)]
  }

  /** The record a key holds just before a block is stored in it. */
  function Init(s: Samples, k: Key): Record {
    if k in s.records then s.records[k] else BaseRecord(k.0, k.1)
  }

  /** Lines 47-50 for one block. */
  function StoreBlock(s: Samples, c: string, p: string, i: nat, v: Cell): Samples {
    var k := (c, i);
    Samples(if k in s.records then s.order else s.order + [k], s.records[k := Init(s, k)[p := v]])
  }

  /** The innermost loop over blocks `1..n` of one class and predictor. */
  function StoreBlocks(s: Samples, c: string, p: string, n: nat, mean: Means): Samples
    decreases n
  {
    if n == 0 then s else StoreBlock(StoreBlocks(s, c, p, n - 1, mean), c, p, n, mean(c, p, n))
  }

  /** The predictor loop for one class. */
  function StorePreds(s: Samples, c: string, preds: seq<string>, mean: Means): Samples
    decreases |preds|
  {
    if |preds| == 0 then s
    else StoreBlocks(StorePreds(s, c, preds[..|preds| - 1], mean), c, preds[|preds| - 1], NSamples, mean)
  }

  /** Both loops over all classes, from an empty dictionary. */
  function Build(classes: seq<string>, preds: seq<string>, mean: Means): Samples
    decreases |classes|
  {
    if |classes| == 0 then Samples([], map[])
    else StorePreds(Build(classes[..|classes| - 1], preds, mean), classes[|classes| - 1], preds, mean)
  }

  predicate InBlocks(k: Key, c: string, n: nat) {
    k.0 == c && 1 <= k.1 <= n
  }

  // ---------------------------------------------------------------------------
  // What the loops build
  // ---------------------------------------------------------------------------

  /** `r` is `base` with column `p` set to `mean(c, p, i)` for every
      predictor `p` in `preds`. */
  ghost predicate Covers(r: Record, base: Record, c: string, i: nat, preds: seq<string>, mean: Means) {
    && (forall n :: n in r <==> n in base || n in preds)
    && (forall n :: n in r ==> r[n] == if n in preds then mean(c, n, i) else base[n])
  }

  lemma CoversOne(base: Record, c: string, i: nat, p: string, mean: Means)
    ensures Covers(base[p := mean(c, p, i)], base, c, i, [p], mean)
  {
  }

  lemma CoversSnoc(r: Record, base: Record, c: string, i: nat, ps: seq<string>, p: string, mean: Means)
    requires Covers(r, base, c, i, ps, mean)
    ensures Covers(r[p := mean(c, p, i)], base, c, i, ps + [p], mean)
  {
    assert forall n :: n in ps + [p] <==> n in ps || n == p;
  }

  /** Storing the same predictors twice stores nothing new. */
  lemma CoversTwice(x: Record, y: Record, base: Record, c: string, i: nat, ps: seq<string>, mean: Means)
    requires Covers(x, y, c, i, ps, mean) && Covers(y, base, c, i, ps, mean)
    ensures Covers(x, base, c, i, ps, mean)
  {
  }

  /** The block loop sets column `p` in the records of blocks `1..n` of
      class `c`, creating those that do not exist, and touches nothing else. */
  lemma {:induction false} BlocksEffect(s: Samples, c: string, p: string, n: nat, mean: Means, k: Key)
    ensures var r := StoreBlocks(s, c, p, n, mean);
      && (k in r.records <==> k in s.records || InBlocks(k, c, n))
      && (k in r.records ==> r.records[k] == if InBlocks(k, c, n) then Init(s, k)[p := mean(c, p, k.1)] else s.records[k])
    decreases n
  {
    if n > 0 {
      BlocksEffect(s, c, p, n - 1, mean, k);
    }
  }

  /** The predictor loop of class `c` leaves each of its fifteen records
      covering what it held before with every predictor, and touches nothing
      else. */
  lemma {:induction false} PredsEffect(s: Samples, c: string, preds: seq<string>, mean: Means, k: Key)
    ensures var r := StorePreds(s, c, preds, mean);
      if InBlocks(k, c, NSamples) && |preds| > 0 then
        k in r.records && Covers(r.records[k], Init(s, k), c, k.1, preds, mean)
      else
        (k in r.records <==> k in s.records) && (k in r.records ==> r.records[k] == s.records[k])
    decreases |preds|
  {
    if |preds| > 0 {
      var ps := preds[..|preds| - 1];
      var p := preds[|preds| - 1];
      assert preds == ps + [p];
      var r' := StorePreds(s, c, ps, mean);
      PredsEffect(s, c, ps, mean, k);
      BlocksEffect(r', c, p, NSamples, mean, k);
      if InBlocks(k, c, NSamples) {
        if |ps| == 0 {
          CoversOne(Init(s, k), c, k.1, p, mean);
          assert preds == [p];
        } else {
          CoversSnoc(r'.records[k], Init(s, k), c, k.1, ps, p, mean);
        }
      }
    }
  }

  /** One turn of the class loop, stated over plain values. */
  lemma ClassStep(before: Samples, after: Samples, cs: seq<string>, c: string, preds: seq<string>, mean: Means, k: Key)
    requires |preds| > 0
    requires k in before.records <==> k.0 in cs && 1 <= k.1 <= NSamples
    requires k in before.records ==> Covers(before.records[k], BaseRecord(k.0, k.1), k.0, k.1, preds, mean)
    requires if InBlocks(k, c, NSamples) then
        k in after.records && Covers(after.records[k], Init(before, k), c, k.1, preds, mean)
      else
        (k in after.records <==> k in before.records) && (k in after.records ==> after.records[k] == before.records[k])
    ensures k in after.records <==> k.0 in cs + [c] && 1 <= k.1 <= NSamples
    ensures k in after.records ==> Covers(after.records[k], BaseRecord(k.0, k.1), k.0, k.1, preds, mean)
  {
    if InBlocks(k, c, NSamples) && k in before.records {
      CoversTwice(after.records[k], before.records[k], BaseRecord(k.0, k.1), k.0, k.1, preds, mean);
    }
  }

  /** With at least one predictor, the dictionary holds exactly one record
      for every class and block number `1..15`, and that record is the base
      record with every predictor's block mean stored in it. */
  lemma {:induction false} BuildEffect(classes: seq<string>, preds: seq<string>, mean: Means, k: Key)
    requires |preds| > 0
    ensures var r := Build(classes, preds, mean);
      && (k in r.records <==> k.0 in classes && 1 <= k.1 <= NSamples)
      && (k in r.records ==> Covers(r.records[k], BaseRecord(k.0, k.1), k.0, k.1, preds, mean))
    decreases |classes|
  {
    if |classes| > 0 {
      var cs := classes[..|classes| - 1];
      var c := classes[|classes| - 1];
      assert classes == cs + [c];
      var before := Build(cs, preds, mean);
      BuildEffect(cs, preds, mean, k);
      PredsEffect(before, c, preds, mean, k);
      ClassStep(before, StorePreds(before, c, preds, mean), cs, c, preds, mean, k);
    }
  }

  /** What a finished record holds: every predictor's block mean, its number
      and its class (unless a predictor of the same name overwrote them), and
      no other column. */
  ghost predicate RecordShape(rec: Record, c: string, i: nat, preds: seq<string>, mean: Means)
  {
    && (forall p :: p in preds ==> p in rec && rec[p] == mean(c, p, i))
    && (IdColumn !in preds ==> IdColumn in rec && rec[IdColumn] == Num(i as real))
    && (ClassColumn !in preds ==> ClassColumn in rec && rec[ClassColumn] == Text(c))
    && (forall n :: n in rec <==> n == IdColumn || n == ClassColumn || n in preds)
  }

  lemma RecordOfCovers(rec: Record, c: string, i: nat, preds: seq<string>, mean: Means)
    requires Covers(rec, BaseRecord(c, i), c, i, preds, mean)
    ensures RecordShape(rec, c, i, preds, mean)
  {
  }

  /** Read off a record: its number, its class and the predictors' means. A
      predictor named like a fixed column overwrites that column. */
  lemma RecordContents(classes: seq<string>, preds: seq<string>, mean: Means, c: string, i: nat)
    requires |preds| > 0 && c in classes && 1 <= i <= NSamples
    ensures (c, i) in Build(classes, preds, mean).records
    ensures RecordShape(Build(classes, preds, mean).records[(c, i)], c, i, preds, mean)
  {
    BuildEffect(classes, preds, mean, (c, i));
    RecordOfCovers(Build(classes, preds, mean).records[(c, i)], c, i, preds, mean);
  }

  // ---------------------------------------------------------------------------
  // Insertion order
  // ---------------------------------------------------------------------------

  /** `(c, 1), ..., (c, n)`. */
  function BlockKeys(c: string, n: nat): (ks: seq<Key>)
    ensures |ks| == n
    ensures forall i :: 0 <= i < n ==> ks[i] == (c, i + 1)
    decreases n
  {
    if n == 0 then [] else BlockKeys(c, n - 1) + [(c, n)]
  }

  /** The fifteen keys of every class, class after class: key `j` is block
      `j % 15 + 1` of class number `j / 15`. */
  function ClassKeys(classes: seq<string>): (ks: seq<Key>)
    ensures |ks| == |classes| * NSamples
    ensures forall j :: 0 <= j < |ks| ==> ks[j] == (classes[j / NSamples], j % NSamples + 1)
    decreases |classes|
  {
    if |classes| == 0 then []
    else
      var cs := classes[..|classes| - 1];
      var ks := ClassKeys(cs) + BlockKeys(classes[|classes| - 1], NSamples);
      assert forall j :: |cs| * NSamples <= j < |ks| ==> j / NSamples == |cs| && j % NSamples == j - |cs| * NSamples;
      assert forall j :: 0 <= j < |cs| * NSamples ==> j / NSamples < |cs| && classes[j / NSamples] == cs[j / NSamples];
      ks
  }

  lemma {:induction false} OrderBlocksFresh(s: Samples, c: string, p: string, n: nat, mean: Means)
    requires forall i :: 1 <= i <= n ==> (c, i) !in s.records
    ensures StoreBlocks(s, c, p, n, mean).order == s.order + BlockKeys(c, n)
    decreases n
  {
    if n > 0 {
      OrderBlocksFresh(s, c, p, n - 1, mean);
      BlocksEffect(s, c, p, n - 1, mean, (c, n));
    }
  }

  lemma {:induction false} OrderBlocksPresent(s: Samples, c: string, p: string, n: nat, mean: Means)
    requires forall i :: 1 <= i <= n ==> (c, i) in s.records
    ensures StoreBlocks(s, c, p, n, mean).order == s.order
    decreases n
  {
    if n > 0 {
      OrderBlocksPresent(s, c, p, n - 1, mean);
      BlocksEffect(s, c, p, n - 1, mean, (c, n));
    }
  }

  /** The first predictor of a new class inserts its fifteen keys; the
      others insert none. */
  lemma {:induction false} OrderPreds(s: Samples, c: string, preds: seq<string>, mean: Means)
    requires |preds| > 0
    requires forall i :: 1 <= i <= NSamples ==> (c, i) !in s.records
    ensures StorePreds(s, c, preds, mean).order == s.order + BlockKeys(c, NSamples)
    decreases |preds|
  {
    var ps := preds[..|preds| - 1];
    var p := preds[|preds| - 1];
    var r' := StorePreds(s, c, ps, mean);
    if |ps| == 0 {
      OrderBlocksFresh(s, c, p, NSamples, mean);
    } else {
      OrderPreds(s, c, ps, mean);
      forall i | 1 <= i <= NSamples ensures (c, i) in r'.records {
        PredsEffect(s, c, ps, mean, (c, i));
      }
      OrderBlocksPresent(r', c, p, NSamples, mean);
    }
  }

  /** For distinct classes (as `unique()` gives them) and at least one
      predictor, the records come out class by class, blocks 1 to 15. */
  lemma {:induction false} OrderBuild(classes: seq<string>, preds: seq<string>, mean: Means)
    requires Distinct(classes) && |preds| > 0
    ensures Build(classes, preds, mean).order == ClassKeys(classes)
    decreases |classes|
  {
    if |classes| > 0 {
      var cs := classes[..|classes| - 1];
      var c := classes[|classes| - 1];
      assert Distinct(cs);
      OrderBuild(cs, preds, mean);
      forall i | 1 <= i <= NSamples ensures (c, i) !in Build(cs, preds, mean).records {
        BuildEffect(cs, preds, mean, (c, i));
      }
      OrderPreds(Build(cs, preds, mean), c, preds, mean);
    }
  }
}

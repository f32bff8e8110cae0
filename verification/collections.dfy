/** Sequence helpers shared by the table scripts. */
module Collections {
  import opened Results

  predicate Distinct<T(==)>(xs: seq<T>) {
    forall i, j :: 0 <= i < j < |xs| ==> xs[i] != xs[j]
  }

  /** pandas' `unique()` and the column union of `concat`: each element once,
      at the place it first occurs. */
  function Dedup<T(==)>(xs: seq<T>): (r: seq<T>)
    ensures Distinct(r)
    ensures forall i :: 0 <= i < |r| ==> r[i] in xs
    ensures forall i :: 0 <= i < |xs| ==> xs[i] in r
    ensures |r| <= |xs|
    decreases |xs|
  {
    if |xs| == 0 then []
    else
      var d := Dedup(xs[..|xs| - 1]);
      var x := xs[|xs| - 1];
      assert forall i :: 0 <= i < |xs| - 1 ==> xs[i] == xs[..|xs| - 1][i];
      if x in d then d else d + [x]
  }

  /** A sequence without repetitions is its own `unique()`. */
  lemma {:induction false} DedupDistinct<T>(xs: seq<T>)
    requires Distinct(xs)
    ensures Dedup(xs) == xs
    decreases |xs|
  {
    if |xs| > 0 {
      var p, x := xs[..|xs| - 1], xs[|xs| - 1];
      assert Distinct(p) by {
        forall i, j | 0 <= i < j < |p| ensures p[i] != p[j] {
          assert p[i] == xs[i] && p[j] == xs[j];
        }
      }
      DedupDistinct(p);
      assert x !in p by {
        forall i | 0 <= i < |p| ensures p[i] != x {
          assert p[i] == xs[i];
        }
      }
      assert xs == p + [x];
    }
  }

  /** Appending elements already present changes nothing, so each element
      keeps the place of its first occurrence. */
  lemma {:induction false} DedupAppendSeen<T>(xs: seq<T>, ys: seq<T>)
    requires forall i :: 0 <= i < |ys| ==> ys[i] in xs
    ensures Dedup(xs + ys) == Dedup(xs)
    decreases |ys|
  {
    if |ys| == 0 {
      assert xs + ys == xs;
    } else {
      var p := ys[..|ys| - 1];
      assert (xs + ys)[..|xs + ys| - 1] == xs + p;
      assert forall i :: 0 <= i < |p| ==> p[i] == ys[i];
      DedupAppendSeen(xs, p);
      assert (xs + ys)[|xs + ys| - 1] == ys[|ys| - 1];
      var k :| 0 <= k < |xs| && xs[k] == ys[|ys| - 1];
      assert xs[k] in Dedup(xs);
    }
  }

  /** Where `x` first occurs in `xs`. */
  function FirstIndex<T(==)>(xs: seq<T>, x: T): (i: nat)
    requires x in xs
    ensures i < |xs| && xs[i] == x && x !in xs[..i]
  {
    if xs[0] == x then 0
    else
      var i := 1 + FirstIndex(xs[1..], x);
      assert xs[..i] == [xs[0]] + xs[1..][..i - 1];
      i
  }

  /** The first occurrence is the only position holding `x` with no `x`
      before it. */
  lemma FirstIndexUnique<T>(xs: seq<T>, x: T, i: nat)
    requires i < |xs| && xs[i] == x && x !in xs[..i]
    ensures FirstIndex(xs, x) == i
  {
    var f := FirstIndex(xs, x);
    assert forall k :: 0 <= k < i ==> xs[..i][k] == xs[k];
    assert forall k :: 0 <= k < f ==> xs[..f][k] == xs[k];
  }

  /** Appending elements does not move a first occurrence. */
  lemma FirstIndexAppend<T>(xs: seq<T>, ys: seq<T>, x: T)
    requires x in xs
    ensures FirstIndex(xs + ys, x) == FirstIndex(xs, x)
  {
    var i := FirstIndex(xs, x);
    assert (xs + ys)[..i] == xs[..i];
    FirstIndexUnique(xs + ys, x, i);
  }

  /** `unique()` lists the values in the order of their first occurrence in
      the input. With `Distinct` and the membership clauses of `Dedup`, this
      pins `Dedup(xs)` down completely. */
  lemma {:induction false} DedupFirstAppearance<T>(xs: seq<T>)
    ensures forall i, j :: 0 <= i < j < |Dedup(xs)| ==>
      FirstIndex(xs, Dedup(xs)[i]) < FirstIndex(xs, Dedup(xs)[j])
    decreases |xs|
  {
    if |xs| > 0 {
      var p, x := xs[..|xs| - 1], xs[|xs| - 1];
      assert xs == p + [x];
      DedupFirstAppearance(p);
      var d := Dedup(p);
      forall i, j | 0 <= i < j < |Dedup(xs)|
        ensures FirstIndex(xs, Dedup(xs)[i]) < FirstIndex(xs, Dedup(xs)[j])
      {
        FirstIndexAppend(p, [x], d[i]);
        if j < |d| {
          FirstIndexAppend(p, [x], d[j]);
        } else {
          assert x !in p && Dedup(xs)[j] == x;
          assert xs[..|p|] == p;
          FirstIndexUnique(xs, x, |p|);
        }
      }
    }
  }

  /** A loop that applies `f` to each element in turn and stops at the first
      one `f` raises on: the results in order, or that element's position
      and what was raised. */
  function ApplyAll<T, U, E>(xs: seq<T>, f: T -> Result<U, E>): (r: Result<seq<U>, (nat, E)>)
    ensures r.Ok? ==> |r.value| == |xs|
    ensures r.Ok? ==> forall i :: 0 <= i < |xs| ==> f(xs[i]) == Ok(r.value[i])
    ensures r.Err? ==> r.error.0 < |xs| && f(xs[r.error.0]) == Err(r.error.1)
    ensures r.Err? ==> forall i :: 0 <= i < r.error.0 ==> f(xs[i]).Ok?
  {
    if |xs| == 0 then Ok([])
    else
      match f(xs[0])
      case Err(e) => Err((0, e))
      case Ok(v) =>
        match ApplyAll(xs[1..], f)
        case Err(p) => Err((p.0 + 1, p.1))
        case Ok(rest) => Ok([v] + rest)
  }
}

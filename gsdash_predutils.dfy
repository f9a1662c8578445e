/** The dashboard's prediction helpers: box-plot summaries of an ensemble's
    member predictions, and the long-format table of every member's
    prediction for every drug. */
module GsdashPredUtils {
  import opened Common
  import opened Ensembles

  // ---------------------------------------------------------------------
  // np.percentile (method 'linear') over the reals
  // ---------------------------------------------------------------------

  predicate Sorted(s: seq<real>) {
    forall i, j :: 0 <= i < j < |s| ==> s[i] <= s[j]
  }

  /** A sorted list with a smaller head in front is still sorted. */
  lemma ConsSorted(a: real, rest: seq<real>)
    requires Sorted(rest) && forall k :: 0 <= k < |rest| ==> a <= rest[k]
    ensures Sorted([a] + rest)
  {
    var r := [a] + rest;
    forall i, j | 0 <= i < j < |r| ensures r[i] <= r[j] {
      if i > 0 {
        assert r[i] == rest[i - 1] && r[j] == rest[j - 1];
      }
    }
  }

  function Insert(x: real, s: seq<real>): (r: seq<real>)
    requires Sorted(s)
    ensures multiset(r) == multiset(s) + multiset{x}
    ensures Sorted(r)
  {
    if s == [] || x <= s[0] then
      ConsSorted(x, s);
      [x] + s
    else
      assert s == [s[0]] + s[1..];
      var rest := Insert(x, s[1..]);
      forall k | 0 <= k < |rest| ensures s[0] <= rest[k] {
        assert rest[k] in multiset(rest);
        if rest[k] != x {
          assert rest[k] in multiset(s[1..]);
          var m :| 0 <= m < |s[1..]| && s[1..][m] == rest[k];
          assert s[m + 1] == rest[k];
        }
      }
      ConsSorted(s[0], rest);
      [s[0]] + rest
  }

  /** The data in ascending order, as numpy sorts before taking percentiles. */
  function SortedCopy(s: seq<real>): (r: seq<real>)
    ensures Sorted(r) && multiset(r) == multiset(s)
  {
    if s == [] then []
    else
      assert s == [s[0]] + s[1..];
      Insert(s[0], SortedCopy(s[1..]))
  }

  lemma FractionOfGap(f: real, d: real)
    requires 0.0 <= f <= 1.0 && 0.0 <= d
    ensures 0.0 <= f * d
    ensures f * d <= d
  {
  }

  /** The point a fraction f of the way from a to b. */
  function Lerp(a: real, b: real, f: real): real {
    a + f * (b - a)
  }

  /** A fraction between 0 and 1 of the way stays between the end points. */
  lemma LerpWithin(a: real, b: real, f: real)
    requires a <= b && 0.0 <= f <= 1.0
    ensures a <= Lerp(a, b, f)
    ensures Lerp(a, b, f) <= b
  {
    var d := b - a;
    FractionOfGap(f, d);
    assert Lerp(a, b, f) == a + f * d;
  }

  /** Going further along the way never goes back. */
  lemma LerpMonotone(a: real, b: real, f1: real, f2: real)
    requires a <= b && f1 <= f2
    ensures Lerp(a, b, f1) <= Lerp(a, b, f2)
  {
    ScaleMonotone(f1, f2, b - a);
  }

  /** numpy's virtual index of the q-th percentile among n sorted values. */
  function VirtualIndex(n: nat, q: real): (pos: real)
    requires n > 0 && 0.0 <= q <= 100.0
    ensures 0.0 <= pos <= (n - 1) as real
  {
    var d := (n - 1) as real;
    var x := q * d;
    ScaleMonotone(0.0, q, d);
    ScaleMonotone(q, 100.0, d);
    assert 0.0 <= x <= 100.0 * d;
    x / 100.0
  }

  /** The q-th percentile of sorted data: the value at the virtual index,
      interpolated linearly between its two neighbours. */
  function Percentile(s: seq<real>, q: real): (v: real)
    requires Sorted(s) && |s| > 0 && 0.0 <= q <= 100.0
    ensures s[0] <= v <= s[|s| - 1]
  {
    var pos := VirtualIndex(|s|, q);
    var lo := pos.Floor;
    if lo >= |s| - 1 then s[|s| - 1]
    else
      LerpWithin(s[lo], s[lo + 1], pos - lo as real);
      Lerp(s[lo], s[lo + 1], pos - lo as real)
  }

  /** A percentile lies between the neighbours of its virtual index. */
  lemma PercentileBetweenNeighbours(s: seq<real>, q: real)
    requires Sorted(s) && |s| > 0 && 0.0 <= q <= 100.0
    ensures var lo := VirtualIndex(|s|, q).Floor;
      && s[lo] <= Percentile(s, q)
      && (lo < |s| - 1 ==> Percentile(s, q) <= s[lo + 1])
  {
    var pos := VirtualIndex(|s|, q);
    var lo := pos.Floor;
    if lo < |s| - 1 {
      var f := pos - lo as real;
      assert 0.0 <= f <= 1.0;
      LerpWithin(s[lo], s[lo + 1], f);
    }
  }

  /** A higher level has a virtual index at least as high. */
  lemma VirtualIndexMonotone(n: nat, q1: real, q2: real)
    requires n > 0 && 0.0 <= q1 <= q2 <= 100.0
    ensures VirtualIndex(n, q1) <= VirtualIndex(n, q2)
  {
    ScaleMonotone(q1, q2, (n - 1) as real);
  }

  lemma PercentileMonotone(s: seq<real>, q1: real, q2: real)
    requires Sorted(s) && |s| > 0 && 0.0 <= q1 <= q2 <= 100.0
    ensures Percentile(s, q1) <= Percentile(s, q2)
  {
    var n := |s|;
    var pos1, pos2 := VirtualIndex(n, q1), VirtualIndex(n, q2);
    VirtualIndexMonotone(n, q1, q2);
    var lo1, lo2 := pos1.Floor, pos2.Floor;
    assert lo1 <= lo2;
    PercentileBetweenNeighbours(s, q1);
    PercentileBetweenNeighbours(s, q2);
    if lo2 >= n - 1 {
    } else if lo1 == lo2 {
      LerpMonotone(s[lo1], s[lo1 + 1], pos1 - lo1 as real, pos2 - lo1 as real);
    } else {
      assert s[lo1 + 1] <= s[lo2];
    }
  }

  lemma PercentileExtremes(s: seq<real>)
    requires Sorted(s) && |s| > 0
    ensures Percentile(s, 0.0) == s[0]
    ensures Percentile(s, 100.0) == s[|s| - 1]
  {
    assert VirtualIndex(|s|, 0.0) == 0.0;
    assert VirtualIndex(|s|, 100.0) == (|s| - 1) as real;
  }

  // ---------------------------------------------------------------------
  // intervals
  // ---------------------------------------------------------------------

  /** The five percentile levels of `intervals`: 0, the lower bound, the
      median, the upper bound and 100, with the bounds symmetric about 50. */
  function IntervalLevels(percentile: real): (levels: seq<real>)
    ensures |levels| == 5
    ensures levels[0] == 0.0 && levels[2] == 50.0 && levels[4] == 100.0
    ensures levels[1] == (100.0 - percentile) / 2.0
    ensures levels[1] + levels[3] == 100.0
    ensures 0.0 <= percentile <= 100.0 ==> 0.0 <= levels[1] <= 50.0 <= levels[3] <= 100.0
  {
    var low := (100.0 - percentile) / 2.0;
    var upp := 100.0 - low;
    var med := 50.0;
    [0.0, low, med, upp, 100.0]
  }

  /** `intervals`: the data's percentiles at the five levels. numpy rejects
      a level outside [0, 100] (so a percentile outside [-100, 100]) and
      cannot take a percentile of no data. For 0 <= percentile <= 100 the
      summary runs from the minimum to the maximum in ascending order. */
  function Intervals(data: seq<real>, percentile: real): (r: Result<seq<real>>)
    ensures r.Ok? <==> -100.0 <= percentile <= 100.0 && |data| > 0
    ensures !(-100.0 <= percentile <= 100.0) ==> r == Fail(ValueError)
    ensures -100.0 <= percentile <= 100.0 && |data| == 0 ==> r == Fail(IndexError)
    ensures r.Ok? ==> |r.value| == 5
    ensures r.Ok? ==> r.value[0] in data && forall x :: x in data ==> r.value[0] <= x
    ensures r.Ok? ==> r.value[4] in data && forall x :: x in data ==> x <= r.value[4]
    ensures r.Ok? && 0.0 <= percentile <= 100.0 ==> forall i, j :: 0 <= i < j < 5 ==> r.value[i] <= r.value[j]
  {
    var levels := IntervalLevels(percentile);
    LevelsValid(percentile);
    if !(forall i :: 0 <= i < 5 ==> 0.0 <= levels[i] <= 100.0) then Fail(ValueError)
    else if |data| == 0 then Fail(IndexError)
    else
      var s := SortedCopy(data);
      var r := seq(5, i requires 0 <= i < 5 => Percentile(s, levels[i]));
      IntervalsSummarise(data, s, levels, r);
      Ok(r)
  }

  /** numpy accepts the five levels exactly when the percentile lies in
      [-100, 100]; from 0 to 100 they ascend. */
  lemma LevelsValid(percentile: real)
    ensures var levels := IntervalLevels(percentile);
      (forall i :: 0 <= i < 5 ==> 0.0 <= levels[i] <= 100.0) <==> -100.0 <= percentile <= 100.0
    ensures var levels := IntervalLevels(percentile);
      0.0 <= percentile <= 100.0 ==> forall i, j :: 0 <= i < j < 5 ==> levels[i] <= levels[j]
  {
    var levels := IntervalLevels(percentile);
    if !(-100.0 <= percentile <= 100.0) {
      assert !(0.0 <= levels[1] <= 100.0);
    }
  }

  lemma IntervalsSummarise(data: seq<real>, s: seq<real>, levels: seq<real>, r: seq<real>)
    requires |data| > 0 && Sorted(s) && multiset(s) == multiset(data)
    requires |levels| == 5 && levels[0] == 0.0 && levels[4] == 100.0
    requires forall i :: 0 <= i < 5 ==> 0.0 <= levels[i] <= 100.0
    requires |r| == 5 && forall i :: 0 <= i < 5 ==> r[i] == Percentile(s, levels[i])
    ensures r[0] in data && forall x :: x in data ==> r[0] <= x
    ensures r[4] in data && forall x :: x in data ==> x <= r[4]
    ensures (forall i, j :: 0 <= i < j < 5 ==> levels[i] <= levels[j]) ==> forall i, j :: 0 <= i < j < 5 ==> r[i] <= r[j]
  {
    PercentileExtremes(s);
    assert s[0] in multiset(data) && s[|s| - 1] in multiset(data);
    forall x | x in data ensures s[0] <= x <= s[|s| - 1] {
      assert x in multiset(s);
      var k :| 0 <= k < |s| && s[k] == x;
    }
    if forall i, j :: 0 <= i < j < 5 ==> levels[i] <= levels[j] {
      forall i, j | 0 <= i < j < 5 ensures r[i] <= r[j] {
        PercentileMonotone(s, levels[i], levels[j]);
      }
    }
  }

  // ---------------------------------------------------------------------
  // predictions
  // ---------------------------------------------------------------------

  /** One row of the long-format table: a drug and one member's log10 fold
      resistance prediction. */
  datatype Record = Record(drug: string, log10DR: real)

  /** The records of one drug, one per prediction, in order. */
  function Tagged(drug: string, values: seq<real>): seq<Record> {
    seq(|values|, i requires 0 <= i < |values| => Record(drug, values[i]))
  }

  /** The number of members of all the given models together. */
  function TotalMembers(models: seq<Ensemble>): nat {
    if models == [] then 0 else TotalMembers(models[..|models| - 1]) + |models[|models| - 1].members|
  }

  /** The table `predictions` builds: over the pairs of `zip(drugs, models)`
      (as many as the shorter list), each drug's member predictions in order,
      one record per member of each zipped model. */
  function Flattened(drugs: seq<string>, models: seq<Ensemble>, datum: seq<real>): (r: seq<Record>)
    ensures forall k :: 0 <= k < |r| ==> r[k].drug in drugs
    decreases |drugs|
  {
    var n := Min(|drugs|, |models|);
    if n == 0 then []
    else
      var front := Flattened(drugs[..n - 1], models[..n - 1], datum);
      DrugsGrow(drugs, n);
      front + Tagged(drugs[n - 1], MemberPredictions(models[n - 1], datum))
  }

  /** A drug among the first n - 1 is among all the drugs. */
  lemma DrugsGrow(drugs: seq<string>, n: nat)
    requires 0 < n <= |drugs|
    ensures forall d :: d in drugs[..n - 1] ==> d in drugs
  {
    forall d | d in drugs[..n - 1] ensures d in drugs {
      var i :| 0 <= i < n - 1 && drugs[..n - 1][i] == d;
      assert drugs[i] == d;
    }
  }

  /** `predictions`: the ensemble's combined prediction is computed and then
      thrown away (its name is rebound to each record); one record is
      appended per member of each zipped model. */
  method Predictions(drugs: seq<string>, models: seq<Ensemble>, datum: seq<real>) returns (preds: seq<Record>)
    ensures preds == Flattened(drugs, models, datum)
  {
    preds := [];
    var n := Min(|drugs|, |models|);
    var i := 0;
    while i < n
      invariant 0 <= i <= n
      invariant preds == Flattened(drugs[..i], models[..i], datum)
    {
      var drug, mdl := drugs[i], models[i];
      var pred := mdl.aggregate(datum);
      var prange := PredRange(mdl, datum);
      ghost var before := preds;
      var k := 0;
      while k < |prange|
        invariant 0 <= k <= |prange|
        invariant preds == before + Tagged(drug, prange[..k])
      {
        preds := preds + [Record(drug, prange[k])];
        k := k + 1;
      }
      assert prange[..k] == prange;
      assert drugs[..i + 1][..i] == drugs[..i] && models[..i + 1][..i] == models[..i];
      i := i + 1;
    }
    ZipTruncates(drugs, models, datum);
  }

  /** Only the zipped prefix of the two lists matters. */
  lemma ZipTruncates(drugs: seq<string>, models: seq<Ensemble>, datum: seq<real>)
    ensures var n := Min(|drugs|, |models|);
      Flattened(drugs, models, datum) == Flattened(drugs[..n], models[..n], datum)
  {
    var n := Min(|drugs|, |models|);
    if n > 0 {
      assert drugs[..n][..n - 1] == drugs[..n - 1];
      assert models[..n][..n - 1] == models[..n - 1];
    }
  }

  /** The table has one record per member of each of the first
      min(|drugs|, |models|) models. */
  lemma {:induction false} FlattenedLength(drugs: seq<string>, models: seq<Ensemble>, datum: seq<real>)
    ensures |Flattened(drugs, models, datum)| == TotalMembers(models[..Min(|drugs|, |models|)])
    decreases |drugs|
  {
    var n := Min(|drugs|, |models|);
    if n > 0 {
      FlattenedLength(drugs[..n - 1], models[..n - 1], datum);
      assert models[..n - 1][..n - 1] == models[..n - 1];
      assert models[..n][..n - 1] == models[..n - 1];
    }
  }

  /** The record of member m of the j-th zipped model sits after the records
      of all earlier models: grouped by drug in list order and, within a
      drug, in member order, tagged with the drug zipped with that model. */
  lemma {:induction false} FlattenedAt(drugs: seq<string>, models: seq<Ensemble>, datum: seq<real>, j: nat, m: nat)
    requires j < Min(|drugs|, |models|) && m < |models[j].members|
    ensures var at := TotalMembers(models[..j]) + m;
      && at < |Flattened(drugs, models, datum)|
      && Flattened(drugs, models, datum)[at] == Record(drugs[j], models[j].members[m](datum))
    decreases |drugs|
  {
    var n := Min(|drugs|, |models|);
    var prefix, tail := LastSplit(drugs, models, datum);
    var rec := Record(drugs[j], models[j].members[m](datum));
    if j == n - 1 {
      assert tail[m] == rec;
      InTail(prefix, tail, m, rec);
    } else {
      FlattenedAt(drugs[..n - 1], models[..n - 1], datum, j, m);
      assert models[..n - 1][..j] == models[..j];
      InPrefix(prefix, tail, TotalMembers(models[..j]) + m, rec);
    }
  }

  /** The table splits into the records of all but the last zipped model,
      one per member of those models, and the records of the last one. */
  lemma LastSplit(drugs: seq<string>, models: seq<Ensemble>, datum: seq<real>)
    returns (prefix: seq<Record>, tail: seq<Record>)
    requires Min(|drugs|, |models|) > 0
    ensures var n := Min(|drugs|, |models|);
      && prefix == Flattened(drugs[..n - 1], models[..n - 1], datum)
      && tail == Tagged(drugs[n - 1], MemberPredictions(models[n - 1], datum))
      && Flattened(drugs, models, datum) == prefix + tail
      && |prefix| == TotalMembers(models[..n - 1])
  {
    var n := Min(|drugs|, |models|);
    prefix := Flattened(drugs[..n - 1], models[..n - 1], datum);
    tail := Tagged(drugs[n - 1], MemberPredictions(models[n - 1], datum));
    FlattenedLength(drugs[..n - 1], models[..n - 1], datum);
    assert models[..n - 1][..n - 1] == models[..n - 1];
  }

  lemma InPrefix(prefix: seq<Record>, tail: seq<Record>, at: nat, rec: Record)
    requires at < |prefix| && prefix[at] == rec
    ensures at < |prefix + tail| && (prefix + tail)[at] == rec
  {
  }

  lemma InTail(prefix: seq<Record>, tail: seq<Record>, m: nat, rec: Record)
    requires m < |tail| && tail[m] == rec
    ensures |prefix| + m < |prefix + tail| && (prefix + tail)[|prefix| + m] == rec
  {
  }

  /** When every model has c members the table has c records per zipped drug. */
  lemma {:induction false} UniformMemberCount(drugs: seq<string>, models: seq<Ensemble>, datum: seq<real>, c: nat)
    requires forall i :: 0 <= i < |models| ==> |models[i].members| == c
    ensures |Flattened(drugs, models, datum)| == Min(|drugs|, |models|) * c
  {
    FlattenedLength(drugs, models, datum);
    TotalOfUniform(models[..Min(|drugs|, |models|)], c);
  }

  lemma {:induction false} TotalOfUniform(models: seq<Ensemble>, c: nat)
    requires forall i :: 0 <= i < |models| ==> |models[i].members| == c
    ensures TotalMembers(models) == |models| * c
  {
    if models != [] {
      TotalOfUniform(models[..|models| - 1], c);
    }
  }

  /** The combined prediction plays no part: models with the same members
      give the same table whatever they aggregate to. */
  lemma {:induction false} AggregateIgnored(drugs: seq<string>, models: seq<Ensemble>, others: seq<Ensemble>, datum: seq<real>)
    requires |models| == |others|
    requires forall i :: 0 <= i < |models| ==> models[i].members == others[i].members
    ensures Flattened(drugs, models, datum) == Flattened(drugs, others, datum)
    decreases |drugs|
  {
    var n := Min(|drugs|, |models|);
    if n > 0 {
      AggregateIgnored(drugs[..n - 1], models[..n - 1], others[..n - 1], datum);
      assert MemberPredictions(models[n - 1], datum) == MemberPredictions(others[n - 1], datum);
    }
  }
}

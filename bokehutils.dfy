/** Error bars formatted for Bokeh's multi_line glyph: one pair of x
    positions and one pair of y end points per data point, optionally
    ordered by the data's x labels. */
module BokehUtils {
  import opened Common

  // ---------------------------------------------------------------------
  // iterable_shape
  // ---------------------------------------------------------------------

  /** A Python list of errors: a flat list of numbers, or a list of rows. */
  datatype PyList = Flat(items: seq<real>) | Nested(rows: seq<seq<real>>)

  /** A two-dimensional numpy array, by rows, with its column count. */
  datatype Array2 = Array2(rows: seq<seq<real>>, width: nat)

  predicate Rectangular(rows: seq<seq<real>>) {
    forall i :: 0 <= i < |rows| ==> |rows[i]| == |rows[0]|
  }

  /** `iterable_shape`: a one-dimensional list of N numbers becomes an N x 1
      array, a two-dimensional one is kept as it is. An empty list is one-
      dimensional with nothing to infer the -1 of the reshape from, which
      numpy rejects. */
  function IterableShape(l: PyList): (r: Result<Array2>)
    requires l.Nested? ==> Rectangular(l.rows)
    ensures r.Fail? <==> (l.Flat? && |l.items| == 0) || (l.Nested? && |l.rows| == 0)
    ensures r.Fail? ==> r.failure == ValueError
    ensures r.Ok? && l.Flat? ==> |r.value.rows| == |l.items| && r.value.width == 1
    ensures r.Ok? && l.Flat? ==> forall i :: 0 <= i < |l.items| ==> r.value.rows[i] == [l.items[i]]
    ensures r.Ok? && l.Nested? ==> r.value.rows == l.rows && r.value.width == |l.rows[0]|
    ensures r.Ok? ==> forall i :: 0 <= i < |r.value.rows| ==> |r.value.rows[i]| == r.value.width
  {
    match l
    case Flat(items) =>
      if |items| == 0 then Fail(ValueError)
      else Ok(Array2(seq(|items|, i requires 0 <= i < |items| => [items[i]]), 1))
    case Nested(rows) =>
      if |rows| == 0 then Fail(ValueError) else Ok(Array2(rows, |rows[0]|))
  }

  // ---------------------------------------------------------------------
  // yerrorbars
  // ---------------------------------------------------------------------

  /** What `errors` can be: one number for every point, a list or tuple of
      errors, some other iterable (a numpy array, say), or none of these. */
  datatype ErrorSpec = Scalar(e: real) | Listed(l: PyList) | OtherIterable | NotIterable

  datatype Bars = Bars(xs: seq<seq<real>>, ys: seq<seq<real>>)

  /** The error list passes both shape assertions for n data points. */
  predicate ShapeAccepted(l: PyList, n: nat)
    requires l.Nested? ==> Rectangular(l.rows)
  {
    var shaped := IterableShape(l);
    shaped.Ok? && |shaped.value.rows| == n && (shaped.value.width == 1 || shaped.value.width == 2)
  }

  /** The bars before any sorting. */
  function UnsortedBars(n: nat, ydata: seq<real>, errors: ErrorSpec): (r: Result<Bars>)
    requires errors.Listed? && errors.l.Nested? ==> Rectangular(errors.l.rows)
    ensures r.Ok? ==> |r.value.xs| == n && |r.value.ys| == n
    ensures r.Ok? ==> forall i :: 0 <= i < n ==> r.value.xs[i] == [(i + 1) as real, (i + 1) as real]
    ensures errors.OtherIterable? || errors.NotIterable? ==> r == Fail(NameError)
    ensures errors.Scalar? ==> (r.Ok? <==> n <= |ydata|)
    ensures errors.Scalar? && r.Ok? ==> forall i :: 0 <= i < n ==> r.value.ys[i] == [ydata[i] - errors.e, ydata[i] + errors.e]
    ensures errors.Listed? ==> (r.Ok? <==> ShapeAccepted(errors.l, n) && n <= |ydata|)
    ensures errors.Listed? && IterableShape(errors.l).Fail? ==> r == Fail(ValueError)
    ensures errors.Listed? && IterableShape(errors.l).Ok? && !ShapeAccepted(errors.l, n) ==> r == Fail(AssertionError)
    ensures errors.Listed? && r.Ok? ==> var e := IterableShape(errors.l).value;
      forall i :: 0 <= i < n ==>
        r.value.ys[i] == [ydata[i] - e.rows[i][0], ydata[i] + e.rows[i][e.width - 1]]
  {
    var xs := seq(n, i requires 0 <= i < n => [(i + 1) as real, (i + 1) as real]);
    match errors
    case Scalar(e) =>
      if |ydata| < n then Fail(IndexError)
      else Ok(Bars(xs, seq(n, i requires 0 <= i < n => [ydata[i] - e, ydata[i] + e])))
    case Listed(l) =>
      var shaped := IterableShape(l);
      if shaped.Fail? then Fail(ValueError)
      else
        var e := shaped.value;
        if |e.rows| != n then Fail(AssertionError)
        else if e.width != 1 && e.width != 2 then Fail(AssertionError)
        else if |ydata| < n then Fail(IndexError)
        else if e.width == 1 then
          Ok(Bars(xs, seq(n, i requires 0 <= i < n => [ydata[i] - e.rows[i][0], ydata[i] + e.rows[i][0]])))
        else
          Ok(Bars(xs, seq(n, i requires 0 <= i < n => [ydata[i] - e.rows[i][0], ydata[i] + e.rows[i][1]])))
    case OtherIterable => Fail(NameError)
    case NotIterable => Fail(NameError)
  }

  /** `yerrorbars` on the table's x-label column and y column: the bars, and
      with `sort` both lists reordered by `sorted(zip(labels, ...))`. */
  function YErrorBars(xlabels: seq<string>, ydata: seq<real>, errors: ErrorSpec, sort: bool): (r: Result<Bars>)
    requires errors.Listed? && errors.l.Nested? ==> Rectangular(errors.l.rows)
    ensures r.Ok? <==> UnsortedBars(|xlabels|, ydata, errors).Ok?
    ensures r.Ok? ==> |r.value.xs| == |xlabels| && |r.value.ys| == |xlabels|
    ensures r.Fail? ==> r == UnsortedBars(|xlabels|, ydata, errors)
    ensures r.Ok? && !sort ==> r == UnsortedBars(|xlabels|, ydata, errors)
    ensures r.Ok? && sort ==> var u := UnsortedBars(|xlabels|, ydata, errors).value;
      && r.value.xs == Seconds(SortPairs(Zip(xlabels, u.xs)))
      && r.value.ys == Seconds(SortPairs(Zip(xlabels, u.ys)))
  {
    var u := UnsortedBars(|xlabels|, ydata, errors);
    if u.Fail? then u
    else if !sort then u
    else
      var sx := SortPairs(Zip(xlabels, u.value.xs));
      var sy := SortPairs(Zip(xlabels, u.value.ys));
      Ok(Bars(Seconds(sx), Seconds(sy)))
  }

  // ---------------------------------------------------------------------
  // Python's ordering of strings, lists and tuples, and `sorted`
  // ---------------------------------------------------------------------

  /** `a < b` on Python strings: lexicographic by code point. */
  predicate StrLess(a: string, b: string)
    decreases |a|
  {
    if |a| == 0 then |b| > 0
    else if |b| == 0 then false
    else if a[0] != b[0] then a[0] < b[0]
    else StrLess(a[1..], b[1..])
  }

  /** `a < b` on Python lists of numbers: lexicographic. */
  predicate ListLess(a: seq<real>, b: seq<real>)
    decreases |a|
  {
    if |a| == 0 then |b| > 0
    else if |b| == 0 then false
    else if a[0] != b[0] then a[0] < b[0]
    else ListLess(a[1..], b[1..])
  }

  /** A label with the list it is zipped with. */
  type Pair = (string, seq<real>)

  /** `p < q` on Python tuples: by label, then by list. */
  predicate PairLess(p: Pair, q: Pair): (b: bool)
    ensures StrLess(p.0, q.0) ==> b
    ensures b ==> LabelAtMost(p.0, q.0)
  {
    StrLess(p.0, q.0) || (p.0 == q.0 && ListLess(p.1, q.1))
  }

  predicate LabelAtMost(a: string, b: string) {
    a == b || StrLess(a, b)
  }

  lemma {:induction false} StrTrichotomy(a: string, b: string)
    ensures a == b || StrLess(a, b) || StrLess(b, a)
    decreases |a|
  {
    if |a| > 0 && |b| > 0 && a[0] == b[0] {
      StrTrichotomy(a[1..], b[1..]);
      if a[1..] == b[1..] {
        assert a == [a[0]] + a[1..] && b == [b[0]] + b[1..];
      }
    }
  }

  lemma {:induction false} StrTransitive(a: string, b: string, c: string)
    requires StrLess(a, b) && StrLess(b, c)
    ensures StrLess(a, c)
    decreases |a|
  {
    if |a| > 0 && a[0] == b[0] && b[0] == c[0] {
      StrTransitive(a[1..], b[1..], c[1..]);
    }
  }

  lemma LabelAtMostTransitive(a: string, b: string, c: string)
    requires LabelAtMost(a, b) && LabelAtMost(b, c)
    ensures LabelAtMost(a, c)
  {
    if StrLess(a, b) && StrLess(b, c) {
      StrTransitive(a, b, c);
    }
  }

  /** Sorted by label, ascending. */
  predicate LabelsAscending(s: seq<Pair>) {
    forall i, j :: 0 <= i < j < |s| ==> LabelAtMost(s[i].0, s[j].0)
  }

  /** Inserting `p` before the first element that is not less than it. */
  function InsertPair(p: Pair, s: seq<Pair>): (r: seq<Pair>)
    ensures multiset(r) == multiset(s) + multiset{p}
    ensures |r| == |s| + 1
  {
    if s == [] || !PairLess(s[0], p) then [p] + s
    else
      assert s == [s[0]] + s[1..];
      [s[0]] + InsertPair(p, s[1..])
  }

  /** `sorted`: Python's sort is stable, and pairs that compare equal are
      identical, so insertion sort yields the very same list. */
  function SortPairs(ps: seq<Pair>): (r: seq<Pair>)
    ensures multiset(r) == multiset(ps)
    ensures |r| == |ps|
  {
    if ps == [] then []
    else
      assert ps == [ps[0]] + ps[1..];
      InsertPair(ps[0], SortPairs(ps[1..]))
  }

  function Zip(labels: seq<string>, vs: seq<seq<real>>): (r: seq<Pair>)
    requires |labels| == |vs|
  {
    seq(|labels|, i requires 0 <= i < |labels| => (labels[i], vs[i]))
  }

  function Firsts(ps: seq<Pair>): seq<string> {
    seq(|ps|, i requires 0 <= i < |ps| => ps[i].0)
  }

  function Seconds(ps: seq<Pair>): seq<seq<real>> {
    seq(|ps|, i requires 0 <= i < |ps| => ps[i].1)
  }

  lemma {:induction false} InsertKeepsAscending(p: Pair, s: seq<Pair>)
    requires LabelsAscending(s)
    ensures LabelsAscending(InsertPair(p, s))
    decreases |s|
  {
    var r := InsertPair(p, s);
    if s == [] || !PairLess(s[0], p) {
      if s != [] {
        assert LabelAtMost(p.0, s[0].0) by {
          StrTrichotomy(p.0, s[0].0);
        }
        forall j | 0 < j < |r| ensures LabelAtMost(r[0].0, r[j].0) {
          if j > 1 {
            LabelAtMostTransitive(p.0, s[0].0, s[j - 1].0);
          }
        }
      }
    } else {
      InsertKeepsAscending(p, s[1..]);
      var rest := InsertPair(p, s[1..]);
      forall j | 0 <= j < |rest| ensures LabelAtMost(s[0].0, rest[j].0) {
        assert rest[j] in multiset(rest);
        if rest[j] != p {
          assert rest[j] in multiset(s[1..]);
          var k :| 0 <= k < |s[1..]| && s[1..][k] == rest[j];
          assert s[k + 1] == rest[j];
        }
      }
    }
  }

  /** `sorted(zip(labels, ...))` orders the pairs by ascending label. */
  lemma {:induction false} SortedAscending(ps: seq<Pair>)
    ensures LabelsAscending(SortPairs(ps))
  {
    if ps != [] {
      SortedAscending(ps[1..]);
      InsertKeepsAscending(ps[0], SortPairs(ps[1..]));
    }
  }

  /** Inserting pairs with the same label into lists with the same labels,
      none equal to it, puts them at the same place: with distinct labels
      the order of the lists never matters. */
  lemma {:induction false} InsertFirstsAgree(p: Pair, s: seq<Pair>, q: Pair, t: seq<Pair>)
    requires p.0 == q.0 && Firsts(s) == Firsts(t) && p.0 !in Firsts(s)
    ensures Firsts(InsertPair(p, s)) == Firsts(InsertPair(q, t))
    decreases |s|
  {
    assert |s| == |Firsts(s)| == |Firsts(t)| == |t|;
    if s != [] {
      assert s[0].0 == Firsts(s)[0] == Firsts(t)[0] == t[0].0;
      if PairLess(s[0], p) {
        FirstsTail(s);
        FirstsTail(t);
        InsertFirstsAgree(p, s[1..], q, t[1..]);
        FirstsCons(s[0], InsertPair(p, s[1..]));
        FirstsCons(t[0], InsertPair(q, t[1..]));
      } else {
        assert PairLess(s[0], p) == PairLess(t[0], q) by {
          assert s[0].0 != p.0;
        }
        FirstsCons(p, s);
        FirstsCons(q, t);
      }
    }
  }

  lemma FirstsCons(p: Pair, s: seq<Pair>)
    ensures Firsts([p] + s) == [p.0] + Firsts(s)
  {
  }

  lemma FirstsTail(s: seq<Pair>)
    requires s != []
    ensures Firsts(s[1..]) == Firsts(s)[1..]
    ensures forall x :: x in Firsts(s[1..]) ==> x in Firsts(s)
  {
  }

  /** The head's label is not among the labels of the sorted tail. */
  lemma HeadLabelNotInSortedTail(ps: seq<Pair>)
    requires ps != [] && Distinct(Firsts(ps))
    ensures ps[0].0 !in Firsts(SortPairs(ps[1..]))
  {
    var s := SortPairs(ps[1..]);
    forall k | 0 <= k < |s| ensures Firsts(s)[k] != ps[0].0 {
      assert s[k] in multiset(ps[1..]);
      var m :| 0 <= m < |ps[1..]| && ps[1..][m] == s[k];
      assert Firsts(ps)[0] != Firsts(ps)[m + 1];
    }
  }

  lemma {:induction false} SortFirstsAgree(ps: seq<Pair>, qs: seq<Pair>)
    requires Firsts(ps) == Firsts(qs) && Distinct(Firsts(ps))
    ensures Firsts(SortPairs(ps)) == Firsts(SortPairs(qs))
  {
    assert |ps| == |Firsts(ps)| == |Firsts(qs)| == |qs|;
    if ps != [] {
      assert Firsts(ps[1..]) == Firsts(ps)[1..] && Firsts(qs[1..]) == Firsts(qs)[1..];
      SortFirstsAgree(ps[1..], qs[1..]);
      HeadLabelNotInSortedTail(ps);
      assert ps[0].0 == Firsts(ps)[0] == Firsts(qs)[0] == qs[0].0;
      InsertFirstsAgree(ps[0], SortPairs(ps[1..]), qs[0], SortPairs(qs[1..]));
    }
  }

  /** With distinct labels, sorting the x pairs and the y pairs moves both
      by one and the same permutation: the k-th sorted x and the k-th sorted
      y come from the same data point. */
  lemma SortSharedPermutation(labels: seq<string>, xs: seq<seq<real>>, ys: seq<seq<real>>, k: nat)
    requires |xs| == |labels| && |ys| == |labels| && Distinct(labels) && k < |labels|
    ensures var sx, sy := SortPairs(Zip(labels, xs)), SortPairs(Zip(labels, ys));
      exists i :: 0 <= i < |labels| && sx[k] == (labels[i], xs[i]) && sy[k] == (labels[i], ys[i])
  {
    var zx, zy := Zip(labels, xs), Zip(labels, ys);
    var i := SortedEntry(labels, xs, k);
    var j := SortedEntry(labels, ys, k);
    assert Firsts(zx) == labels && Firsts(zy) == labels;
    SortFirstsAgree(zx, zy);
    assert Firsts(SortPairs(zx))[k] == Firsts(SortPairs(zy))[k];
    assert labels[i] == labels[j];
  }

  /** Every entry of the sorted pairs is one of the zipped data points. */
  lemma SortedEntry(labels: seq<string>, vs: seq<seq<real>>, k: nat) returns (i: nat)
    requires |vs| == |labels| && k < |labels|
    ensures i < |labels| && SortPairs(Zip(labels, vs))[k] == (labels[i], vs[i])
  {
    var z := Zip(labels, vs);
    var sz := SortPairs(z);
    assert sz[k] in multiset(z);
    i :| 0 <= i < |z| && z[i] == sz[k];
  }

  /** With `sort`, the bars are a permutation of the unsorted ones, ordered
      by ascending x label. */
  lemma SortedBarsArePermuted(xlabels: seq<string>, ydata: seq<real>, errors: ErrorSpec)
    requires errors.Listed? && errors.l.Nested? ==> Rectangular(errors.l.rows)
    requires YErrorBars(xlabels, ydata, errors, true).Ok?
    ensures var r, u := YErrorBars(xlabels, ydata, errors, true).value, UnsortedBars(|xlabels|, ydata, errors).value;
      && multiset(r.xs) == multiset(u.xs) && multiset(r.ys) == multiset(u.ys)
      && LabelsAscending(SortPairs(Zip(xlabels, u.xs))) && LabelsAscending(SortPairs(Zip(xlabels, u.ys)))
  {
    var u := UnsortedBars(|xlabels|, ydata, errors).value;
    SortedAscending(Zip(xlabels, u.xs));
    SortedAscending(Zip(xlabels, u.ys));
    SecondsPermuted(xlabels, u.xs);
    SecondsPermuted(xlabels, u.ys);
  }

  lemma SecondsPermuted(labels: seq<string>, vs: seq<seq<real>>)
    requires |labels| == |vs|
    ensures multiset(Seconds(SortPairs(Zip(labels, vs)))) == multiset(vs)
  {
    var z := Zip(labels, vs);
    assert Seconds(z) == vs;
    SortKeepsSeconds(z);
  }

  lemma SecondsCons(p: Pair, s: seq<Pair>)
    ensures Seconds([p] + s) == [p.1] + Seconds(s)
  {
  }

  lemma {:induction false} InsertKeepsSeconds(p: Pair, s: seq<Pair>)
    ensures multiset(Seconds(InsertPair(p, s))) == multiset(Seconds(s)) + multiset{p.1}
    decreases |s|
  {
    if s == [] || !PairLess(s[0], p) {
      SecondsCons(p, s);
    } else {
      InsertKeepsSeconds(p, s[1..]);
      SecondsCons(s[0], InsertPair(p, s[1..]));
      SecondsCons(s[0], s[1..]);
      assert s == [s[0]] + s[1..];
    }
  }

  lemma {:induction false} SortKeepsSeconds(ps: seq<Pair>)
    ensures multiset(Seconds(SortPairs(ps))) == multiset(Seconds(ps))
  {
    if ps != [] {
      var t := SortPairs(ps[1..]);
      assert SortPairs(ps) == InsertPair(ps[0], t);
      SortKeepsSeconds(ps[1..]);
      InsertKeepsSeconds(ps[0], t);
      SecondsCons(ps[0], ps[1..]);
      assert ps == [ps[0]] + ps[1..];
    }
  }
}

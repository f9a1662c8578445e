/** Turning an amino-acid sequence into a numeric feature vector of fixed
    length: each residue is replaced through a residue table, and the
    resulting vector is resampled by linear interpolation to the reference
    length of the protein. Values are reals: interpolation is exact here. */
module SequenceTransformer {
  import opened Common

  /** The two residue tables: molecular weight and isoelectric point per
      one-letter amino-acid code. Their contents live outside this model. */
  datatype ResidueTables = ResidueTables(molecularWeights: map<char, real>, isoelectricPoints: map<char, real>)

  /** The ambiguity codes are averages: B of D and N, Z of E and Q. */
  predicate AveragesAmbiguityCodes(t: map<char, real>) {
    && 'B' in t && 'D' in t && 'N' in t
    && 'Z' in t && 'E' in t && 'Q' in t
    && t['B'] == (t['D'] + t['N']) / 2.0
    && t['Z'] == (t['E'] + t['Q']) / 2.0
  }

  predicate ValidTables(tables: ResidueTables) {
    AveragesAmbiguityCodes(tables.molecularWeights) && AveragesAmbiguityCodes(tables.isoelectricPoints)
  }

  /** The reference length of each protein that sequences are resampled to. */
  const RefLengths: map<string, nat> := map["protease" := 99, "rt" := 560]

  // ---------------------------------------------------------------------
  // Residue replacement
  // ---------------------------------------------------------------------

  /** pandas `replace(keys, values)` on one single-character cell: a key of
      the table becomes its number, anything else is left as it was. */
  function ReplaceResidue(table: map<char, real>, c: char): (r: Cell)
    ensures r.Number? <==> c in table
    ensures r.Number? ==> r.x == table[c]
    ensures !r.Number? ==> r == Text([c])
  {
    if c in table then Number(table[c]) else Text([c])
  }

  /** The sequence split into characters with every character replaced. */
  function Replaced(table: map<char, real>, s: string): (r: seq<Cell>)
    ensures |r| == |s|
    ensures forall i :: 0 <= i < |s| && s[i] in table ==> r[i] == Number(table[s[i]])
    ensures forall i :: 0 <= i < |s| && s[i] !in table ==> r[i] == Text([s[i]])
  {
    if s == [] then [] else [ReplaceResidue(table, s[0])] + Replaced(table, s[1..])
  }

  /** `to_numeric_rep`: rejects a sequence with an 'X', then checks `rep`
      against ['mw', 'pka'] but picks a table only for 'mw' or 'pKa'. So 'pKa'
      fails the assertion, 'pka' leaves the table unbound, and only 'mw'
      yields a vector. */
  function ToNumericRep(tables: ResidueTables, sequence: string, rep: string): (r: Result<seq<Cell>>)
    ensures 'X' in sequence ==> r == Fail(AssertionError)
    ensures 'X' !in sequence && rep != "mw" && rep != "pka" ==> r == Fail(AssertionError)
    ensures 'X' !in sequence && rep == "pka" ==> r == Fail(NameError)
    ensures r.Ok? <==> 'X' !in sequence && rep == "mw"
    ensures r.Ok? ==> |r.value| == |sequence|
    ensures r.Ok? ==> forall i :: 0 <= i < |sequence| ==> r.value[i] == ReplaceResidue(tables.molecularWeights, sequence[i])
  {
    if 'X' in sequence then Fail(AssertionError)
    else if rep != "mw" && rep != "pka" then Fail(AssertionError)
    else if rep == "mw" then Ok(Replaced(tables.molecularWeights, sequence))
    else Fail(NameError)
  }

  /** The two residues an ambiguity code stands for: D or N for B, E or Q
      for Z. */
  function Constituents(code: char): (char, char) {
    if code == 'B' then ('D', 'N') else ('E', 'Q')
  }

  /** With tables that satisfy the averaging invariant, a B (or a Z)
      encodes as the mean of what its two constituents would encode as at
      the same place. */
  lemma AmbiguityCodeIsMean(tables: ResidueTables, s: string, i: nat)
    requires ValidTables(tables)
    requires 'X' !in s && i < |s| && (s[i] == 'B' || s[i] == 'Z')
    ensures var (a, b) := Constituents(s[i]);
      && ToNumericRep(tables, s, "mw").Ok?
      && ToNumericRep(tables, s[i := a], "mw").Ok?
      && ToNumericRep(tables, s[i := b], "mw").Ok?
      && ToNumericRep(tables, s, "mw").value[i].x
         == (ToNumericRep(tables, s[i := a], "mw").value[i].x + ToNumericRep(tables, s[i := b], "mw").value[i].x) / 2.0
  {
    var (a, b) := Constituents(s[i]);
    var sa, sb := s[i := a], s[i := b];
    assert forall j :: 0 <= j < |sa| ==> sa[j] != 'X' by {
      forall j | 0 <= j < |sa| ensures sa[j] != 'X' { assert j != i ==> sa[j] == s[j]; }
    }
    assert forall j :: 0 <= j < |sb| ==> sb[j] != 'X' by {
      forall j | 0 <= j < |sb| ensures sb[j] != 'X' { assert j != i ==> sb[j] == s[j]; }
    }
  }

  // ---------------------------------------------------------------------
  // Linear interpolation with extrapolation (scipy interp1d, kind 'linear',
  // fill_value 'extrapolate') over the knots 0, 1, ..., n-1
  // ---------------------------------------------------------------------

  function Ceil(t: real): int {
    -((-t).Floor)
  }

  /** The left knot of the segment used at `t`: scipy finds the first knot
      at or right of `t` and clips it into 1..n-1, so points left of the
      knots use the first segment and points right of them the last. */
  function SegmentStart(n: nat, t: real): (lo: nat)
    requires n >= 2
    ensures lo <= n - 2
    ensures 0.0 < t <= (n - 1) as real ==> lo as real < t <= lo as real + 1.0
    ensures t > (n - 1) as real ==> lo == n - 2
  {
    var idx := Ceil(t);
    var clipped := if idx < 1 then 1 else if idx > n - 1 then n - 1 else idx;
    clipped - 1
  }

  /** Going a fraction f in [0, 1] of the way from a to b stays between a and
      b, whichever of the two is larger. */
  lemma PartWayBetween(a: real, b: real, f: real, v: real)
    requires 0.0 <= f <= 1.0 && v == a + f * (b - a)
    ensures (a <= v <= b) || (b <= v <= a)
  {
    if a <= b {
      var d := b - a;
      ScaleMonotone(0.0, f, d);
      ScaleMonotone(f, 1.0, d);
      assert v == a + f * d;
    } else {
      var d := a - b;
      ScaleMonotone(0.0, f, d);
      ScaleMonotone(f, 1.0, d);
      assert v == a - f * d;
      assert b <= v <= a;
    }
  }

  /** The interpolant at `t`. Between the first and the last knot it never
      overshoots: its value lies between the two data points around `t`. */
  function Interpolate(y: seq<real>, t: real): (v: real)
    requires |y| >= 2
    ensures 0.0 <= t <= (|y| - 1) as real ==>
      var lo := SegmentStart(|y|, t);
      (y[lo] <= v <= y[lo + 1]) || (y[lo + 1] <= v <= y[lo])
  {
    var lo := SegmentStart(|y|, t);
    var f := t - lo as real;
    if 0.0 <= t <= (|y| - 1) as real then
      assert t == 0.0 ==> lo == 0;
      var v := y[lo] + f * (y[lo + 1] - y[lo]);
      PartWayBetween(y[lo], y[lo + 1], f, v);
      v
    else
      y[lo] + f * (y[lo + 1] - y[lo])
  }

  /** The interpolant passes through every data point. */
  lemma InterpolateAtKnot(y: seq<real>, j: nat)
    requires |y| >= 2 && j < |y|
    ensures Interpolate(y, j as real) == y[j]
  {
    var lo := SegmentStart(|y|, j as real);
    assert Ceil(j as real) == j;
    if j == 0 {
      assert lo == 0;
    } else {
      assert lo == j - 1;
    }
  }

  /** `numpy.linspace(0, r, r)`: the k-th of r evenly spaced points from 0 to r. */
  function SamplePoint(k: nat, r: nat): (t: real)
    requires r >= 2
    ensures 0.0 <= t
    ensures k == 0 ==> t == 0.0
    ensures k == r - 1 ==> t == r as real
    ensures k < r ==> t <= r as real
  {
    var last := (r - 1) as real;
    var x := (k as real) * (r as real);
    ScaleMonotone(0.0, k as real, r as real);
    if k < r then
      ScaleMonotone(k as real, last, r as real);
      DivisionBounds(x, last, r as real);
      x / last
    else
      DivisionBounds(x, last, x / last);
      x / last
  }

  /** Dividing a value in [0, c * d] by d > 0 gives a value in [0, c], and
      dividing c * d by d gives back c. */
  lemma DivisionBounds(x: real, d: real, c: real)
    requires 0.0 < d && 0.0 <= x
    ensures x == d * c ==> x / d == c
    ensures 0.0 <= x / d
    ensures x <= c * d ==> x / d <= c
  {
    var q := x / d;
    assert q * d == x;
  }

  /** `standardize_sequence`: the protein must name a reference length, and
      interp1d needs at least two points; the result has one sample per
      reference position, taken at the linspace points. */
  function StandardizeSequence(rep: seq<real>, protein: string): (r: Result<seq<real>>)
    ensures protein !in RefLengths ==> r == Fail(AssertionError)
    ensures protein in RefLengths && |rep| < 2 ==> r == Fail(ValueError)
    ensures r.Ok? <==> protein in RefLengths && |rep| >= 2
    ensures r.Ok? ==> RefLengths[protein] >= 2 && r.value == Resample(rep, RefLengths[protein])
  {
    if protein !in RefLengths then Fail(AssertionError)
    else if |rep| < 2 then Fail(ValueError)
    else
      var refSize := RefLengths[protein];
      assert refSize >= 2;
      Ok(Resample(rep, refSize))
  }

  /** The interpolant of `rep` taken at the `refSize` linspace points: one
      sample per reference position, the first one at the first data point. */
  function Resample(rep: seq<real>, refSize: nat): (r: seq<real>)
    requires |rep| >= 2 && refSize >= 2
    ensures |r| == refSize
    ensures r[0] == rep[0]
    ensures forall k :: 0 <= k < refSize ==> r[k] == Interpolate(rep, SamplePoint(k, refSize))
  {
    InterpolateAtKnot(rep, 0);
    seq(refSize, k requires 0 <= k < refSize => Interpolate(rep, SamplePoint(k, refSize)))
  }

  /** The reference lengths: protease vectors are resampled to 99 values and
      reverse transcriptase vectors to 560; any other protein is refused. */
  lemma ReferenceLengths(rep: seq<real>, protein: string)
    requires |rep| >= 2
    ensures protein == "protease" ==> StandardizeSequence(rep, protein).Ok? && |StandardizeSequence(rep, protein).value| == 99
    ensures protein == "rt" ==> StandardizeSequence(rep, protein).Ok? && |StandardizeSequence(rep, protein).value| == 560
    ensures protein != "protease" && protein != "rt" ==> StandardizeSequence(rep, protein) == Fail(AssertionError)
  {
  }

  /** Two vectors of different lengths standardize to the same shape. */
  lemma StandardizedShapesAgree(a: seq<real>, b: seq<real>, protein: string)
    requires protein in RefLengths && |a| >= 2 && |b| >= 2
    ensures StandardizeSequence(a, protein).Ok? && StandardizeSequence(b, protein).Ok?
    ensures |StandardizeSequence(a, protein).value| == |StandardizeSequence(b, protein).value|
  {
  }

  /** The vector c, c, ..., c of length n. */
  function ConstantVector(c: real, n: nat): seq<real> {
    seq(n, _ => c)
  }

  /** The vector a, a + b, a + 2b, ... of length n. */
  function AffineVector(a: real, b: real, n: nat): seq<real> {
    seq(n, i => a + b * i as real)
  }

  /** A constant vector stays constant whatever its length and whatever
      length it is resampled to. */
  lemma ConstantStaysConstant(c: real, n: nat, refSize: nat)
    requires n >= 2 && refSize >= 2
    ensures forall k :: 0 <= k < refSize ==> Resample(ConstantVector(c, n), refSize)[k] == c
  {
    var y := ConstantVector(c, n);
    forall k | 0 <= k < refSize ensures Resample(y, refSize)[k] == c {
      var t := SamplePoint(k, refSize);
      var lo := SegmentStart(n, t);
      assert y[lo] == c && y[lo + 1] == c;
    }
  }

  /** The interpolant of an affine vector is that affine function everywhere. */
  lemma InterpolateAffine(a: real, b: real, n: nat, t: real)
    requires n >= 2
    ensures Interpolate(AffineVector(a, b, n), t) == a + b * t
  {
    var y := AffineVector(a, b, n);
    var lo := SegmentStart(n, t);
    var l := lo as real;
    assert y[lo] == a + b * l;
    assert y[lo + 1] == a + b * (l + 1.0);
    assert y[lo + 1] - y[lo] == b;
    assert (t - l) * b + b * l == b * t;
  }

  /** Linear interpolation with extrapolation reproduces an affine vector
      a + b*i exactly at every sample point, inside or beyond the data. */
  lemma AffineIsReproduced(a: real, b: real, n: nat, refSize: nat)
    requires n >= 2 && refSize >= 2
    ensures forall k :: 0 <= k < refSize ==> Resample(AffineVector(a, b, n), refSize)[k] == a + b * SamplePoint(k, refSize)
  {
    forall k | 0 <= k < refSize
      ensures Resample(AffineVector(a, b, n), refSize)[k] == a + b * SamplePoint(k, refSize)
    {
      InterpolateAffine(a, b, n, SamplePoint(k, refSize));
    }
  }

  /** The last sample sits at the reference length itself; when the data
      end before it, its value is extrapolated along the last segment. */
  lemma LastSampleExtrapolates(rep: seq<real>, refSize: nat)
    requires 2 <= |rep| && |rep| - 1 < refSize
    ensures SamplePoint(refSize - 1, refSize) == refSize as real
    ensures var n := |rep|;
      Resample(rep, refSize)[refSize - 1] == rep[n - 2] + (refSize - (n - 2)) as real * (rep[n - 1] - rep[n - 2])
  {
    var n := |rep|;
    var d := (refSize - 1) as real;
    assert d * (refSize as real) / d == refSize as real;
    assert SegmentStart(n, refSize as real) == n - 2;
  }
}

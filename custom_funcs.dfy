/** Cleaning of the drug-resistance tables: each row is one sequenced
    virus, the first columns hold drug resistance values and the remaining
    ones the amino acid found at each position of the protein. */
module CustomFuncs {
  import opened Common
  import opened Tables
  import SequenceTransformer

  /** The drugs a cleaned table may be prepared for. */
  const AllowedDrugNames: seq<string> := [
    "FPV", "ATV", "IDV", "LPV", "NFV", "SQV", "TPV", "DRV",
    "3TC", "ABC", "AZT", "D4T", "DDI", "TDF", "EFV", "NVP",
    "ETR", "RPV"]

  /** The number of drug columns in the table of each drug class. */
  const DrugColVals: map<string, nat> := map["protease" := 8, "nnrt" := 4, "nrt" := 6]

  // ---------------------------------------------------------------------
  // read_data: splitting the columns and upper-casing the sequences
  // ---------------------------------------------------------------------

  /** Upper-casing of one character (ASCII letters only). */
  function UpperChar(c: char): char {
    if 'a' <= c <= 'z' then (c as int - 32) as char else c
  }

  function Upper(s: string): string {
    seq(|s|, i requires 0 <= i < |s| => UpperChar(s[i]))
  }

  /** `series.str.upper()` on one cell: strings are upper-cased, anything
      else becomes NaN. */
  function UpperCell(x: Cell): (r: Cell)
    ensures r.Text? <==> x.Text?
    ensures r.Text? ==> |r.s| == |x.s| && forall i :: 0 <= i < |r.s| ==> !('a' <= r.s[i] <= 'z')
    ensures !r.Text? ==> r == NaN
  {
    match x
    case Text(s) => Text(Upper(s))
    case _ => NaN
  }

  /** pandas allows the `.str` accessor on a column that holds strings; a
      non-empty column of numbers or NaN alone has no strings at all. */
  predicate HasStrings(col: seq<Cell>) {
    |col| == 0 || exists i :: 0 <= i < |col| && col[i].Text?
  }

  /** Where the drug columns end in the table of a drug class: Python's
      slice clamps to the number of columns. */
  function SplitAt(protein: string, n: nat): (k: nat)
    requires protein in DrugColVals
    ensures k <= n
  {
    Min(DrugColVals[protein], n)
  }

  datatype Loaded = Loaded(data: Frame, drugCols: seq<string>, featCols: seq<string>)

  /** `read_data` on the table read from the file (the index column already
      taken out): the drug class must be known; the first columns are the
      drug columns, the rest the feature columns, and every feature column
      is upper-cased in place. */
  method ReadData(protein: string, raw: Table) returns (r: Result<Loaded>)
    requires WellFormed(raw)
    ensures protein !in DrugColVals ==> r == Fail(AssertionError)
    ensures protein in DrugColVals ==>
      (r.Ok? <==> forall c :: c in raw.labels[SplitAt(protein, |raw.labels|)..] ==> HasStrings(Column(raw, c)))
    ensures protein in DrugColVals && r.Fail? ==> r.failure == AttributeError
    ensures r.Ok? ==> var k := SplitAt(protein, |raw.labels|);
      && r.value.drugCols == raw.labels[..k]
      && r.value.featCols == raw.labels[k..]
      && fresh(r.value.data) && r.value.data.Valid()
      && r.value.data.Value() == MapColumns(raw, raw.labels[k..], UpperCell)
  {
    if protein !in DrugColVals {
      return Fail(AssertionError);
    }
    var k := SplitAt(protein, |raw.labels|);
    var data := new Frame(raw);
    var drugCols, featCols := raw.labels[..k], raw.labels[k..];
    for i := 0 to |featCols|
      invariant fresh(data) && data.Valid()
      invariant data.Value() == MapColumns(raw, featCols[..i], UpperCell)
      invariant forall c :: c in featCols[..i] ==> HasStrings(Column(raw, c))
    {
      var col := featCols[i];
      assert col !in featCols[..i] by {
        forall j | 0 <= j < i ensures featCols[j] != col {
          assert raw.labels[k + j] != raw.labels[k + i];
        }
      }
      ColumnAfterMap(raw, featCols[..i], UpperCell, col);
      var current := Column(data.Value(), col);
      if !HasStrings(current) {
        return Fail(AttributeError);
      }
      data.SetColumn(col, MapCells(UpperCell, current));
      MapColumnsStep(raw, featCols, i, UpperCell);
    }
    assert featCols[..|featCols|] == featCols;
    return Ok(Loaded(data, drugCols, featCols));
  }

  /** The drug and feature columns together are all the columns, in order,
      and after upper-casing no feature cell holds a lower-case letter. */
  lemma ReadDataSplit(protein: string, raw: Table, c: string, row: nat)
    requires WellFormed(raw) && protein in DrugColVals
    requires c in raw.labels[SplitAt(protein, |raw.labels|)..] && row < raw.height
    ensures var k := SplitAt(protein, |raw.labels|);
      && raw.labels[..k] + raw.labels[k..] == raw.labels
      && |raw.labels[..k]| == Min(DrugColVals[protein], |raw.labels|)
    ensures var x := Column(MapColumns(raw, raw.labels[SplitAt(protein, |raw.labels|)..], UpperCell), c)[row];
      x.NaN? || (x.Text? && forall i :: 0 <= i < |x.s| ==> !('a' <= x.s[i] <= 'z'))
  {
    ColumnAfterMap(raw, raw.labels[SplitAt(protein, |raw.labels|)..], UpperCell, c);
    var y := Column(raw, c)[row];
    assert |Column(raw, c)| == raw.height;
    assert MapCells(UpperCell, Column(raw, c))[row] == UpperCell(y);
    if y.Text? {
      forall i | 0 <= i < |y.s| ensures !('a' <= Upper(y.s)[i] <= 'z') {
        assert Upper(y.s)[i] == UpperChar(y.s[i]);
      }
    }
  }

  /** Upper-casing twice is upper-casing once. */
  lemma UpperCellIdempotent(x: Cell)
    ensures UpperCell(UpperCell(x)) == UpperCell(x)
  {
    if x.Text? {
      assert Upper(Upper(x.s)) == Upper(x.s);
    }
  }

  // ---------------------------------------------------------------------
  // replace_ambiguous_letters_with_nan
  // ---------------------------------------------------------------------

  /** `len(str(x)) > 1`: a string of two or more letters, or any number or
      NaN, whose string form is at least three characters long. */
  predicate LongerThanOne(x: Cell) {
    x.Text? ==> |x.s| > 1
  }

  /** The first pass: multi-letter cells become NaN. */
  function DropLong(x: Cell): (r: Cell)
    ensures r == x || r == NaN
    ensures r.Text? ==> |r.s| <= 1
  {
    if LongerThanOne(x) then NaN else x
  }

  /** The second pass: the marks '#' and '~' become NaN. */
  function DropMarks(x: Cell): (r: Cell)
    ensures r == x || r == NaN
    ensures r != Text("#") && r != Text("~")
  {
    if x == Text("#") || x == Text("~") then NaN else x
  }

  /** Both passes, one after the other. */
  function CleanAmbiguous(x: Cell): (r: Cell)
    ensures Ambiguous(x) ==> r == NaN
    ensures !Ambiguous(x) ==> r == x
  {
    DropMarks(DropLong(x))
  }

  predicate Ambiguous(x: Cell) {
    LongerThanOne(x) || x == Text("#") || x == Text("~")
  }

  /** `replace_ambiguous_letters_with_nan`: works on a copy; each feature
      column of the copy is set from the original column, then cleaned of
      the marks. A feature that is not a column fails the lookup. */
  method ReplaceAmbiguousLettersWithNan(df: Frame, featCols: seq<string>) returns (r: Result<Frame>)
    requires df.Valid()
    ensures r.Fail? <==> exists c :: c in featCols && c !in df.labels
    ensures r.Fail? ==> r.failure == KeyError
    ensures r.Ok? ==> fresh(r.value) && r.value.Valid()
    ensures r.Ok? ==> r.value.Value() == MapColumns(df.Value(), featCols, CleanAmbiguous)
  {
    var newDf := df.Copy();
    for i := 0 to |featCols|
      invariant fresh(newDf) && newDf.Valid()
      invariant newDf.Value() == MapColumns(df.Value(), featCols[..i], CleanAmbiguous)
      invariant forall c :: c in featCols[..i] ==> c in df.labels
    {
      var col := featCols[i];
      if col !in df.labels {
        return Fail(KeyError);
      }
      ghost var before := newDf.Value();
      newDf.SetColumn(col, MapCells(DropLong, Column(df.Value(), col)));
      ColumnAfterReplace(before, col, MapCells(DropLong, Column(df.Value(), col)), col);
      newDf.SetColumn(col, MapCells(DropMarks, Column(newDf.Value(), col)));
      assert MapCells(DropMarks, MapCells(DropLong, Column(df.Value(), col)))
          == MapCells(CleanAmbiguous, Column(df.Value(), col)) by {
        var s := Column(df.Value(), col);
        var a := MapCells(DropMarks, MapCells(DropLong, s));
        forall k | 0 <= k < |s| ensures a[k] == CleanAmbiguous(s[k]) {
          assert MapCells(DropLong, s)[k] == DropLong(s[k]);
        }
      }
      MapColumnsStep(df.Value(), featCols, i, CleanAmbiguous);
    }
    assert featCols[..|featCols|] == featCols;
    return Ok(newDf);
  }

  /** A feature cell becomes NaN exactly when it is ambiguous, and is kept
      otherwise; the other columns are kept whole. */
  lemma AmbiguousCellRule(t: Table, featCols: seq<string>, c: string, row: nat)
    requires WellFormed(t) && c in t.labels && row < t.height
    ensures var x, y := Column(t, c)[row], Column(MapColumns(t, featCols, CleanAmbiguous), c)[row];
      && (c in featCols && Ambiguous(x) ==> y == NaN)
      && (c in featCols && !Ambiguous(x) ==> y == x)
      && (c !in featCols ==> y == x)
  {
    ColumnAfterMap(t, featCols, CleanAmbiguous, c);
    var x := Column(t, c)[row];
    assert |Column(t, c)| == t.height;
    if c in featCols {
      assert Column(MapColumns(t, featCols, CleanAmbiguous), c) == MapCells(CleanAmbiguous, Column(t, c));
      assert MapCells(CleanAmbiguous, Column(t, c))[row] == CleanAmbiguous(x);
    }
  }

  /** Cleaning a cleaned table changes nothing. */
  lemma ReplaceAmbiguousIdempotent(t: Table, featCols: seq<string>)
    requires Shaped(t)
    ensures var once := MapColumns(t, featCols, CleanAmbiguous);
      MapColumns(once, featCols, CleanAmbiguous) == once
  {
    var once := MapColumns(t, featCols, CleanAmbiguous);
    var twice := MapColumns(once, featCols, CleanAmbiguous);
    forall j | 0 <= j < |once.columns| ensures twice.columns[j] == once.columns[j] {
      if once.labels[j] in featCols {
        forall k | 0 <= k < |once.columns[j]| ensures CleanAmbiguous(once.columns[j][k]) == once.columns[j][k] {
          assert once.columns[j][k] == CleanAmbiguous(t.columns[j][k]);
        }
      }
    }
  }

  // ---------------------------------------------------------------------
  // replace_dashes_with_canonical_letters
  // ---------------------------------------------------------------------

  /** `replace({'-': letter})` on one cell. */
  function DashTo(letter: string): Cell -> Cell {
    x => if x == Text("-") then Text(letter) else x
  }

  /** Imputation of one cell: a dash becomes the letter, and every other
      cell is kept as it is. */
  lemma DashToRule(letter: string, x: Cell)
    ensures x == Text("-") ==> DashTo(letter)(x) == Text(letter)
    ensures x != Text("-") ==> DashTo(letter)(x) == x
  {
  }

  /** `replace({v: nan})` as a cell map: the cell `v` becomes NaN. Lines
      122 and 123 use it with 'X' and with '.'. */
  function DropValue(v: string): Cell -> Cell {
    x => if x == Text(v) then NaN else x
  }

  /** Dropping one value: a cell is kept or becomes NaN, only the value
      itself becomes NaN, and the value is never left. */
  lemma DropValueRule(v: string, x: Cell)
    ensures DropValue(v)(x) == x || DropValue(v)(x) == NaN
    ensures x != Text(v) ==> DropValue(v)(x) == x
    ensures DropValue(v)(x) != Text(v)
  {
  }

  /** The first k feature columns exist, and so do consensus letters for
      their positions. */
  predicate Imputable(t: Table, cmap: map<int, string>, cols: seq<string>, k: nat) {
    k <= |cols| && forall j :: 0 <= j < k ==> cols[j] in t.labels && j in cmap
  }

  /** One round of the imputation loop: every dash in column c becomes
      `letter`, and the result is written back under the same name. */
  function ImputeRound(prev: Table, letter: string, c: string): (r: Table)
    requires WellFormed(prev) && c in prev.labels
    ensures r.labels == prev.labels && r.height == prev.height && WellFormed(r)
  {
    ReplaceColumn(prev, c, MapCells(DashTo(letter), Column(prev, c)))
  }

  /** A round imputes its own column and leaves every other one as it was. */
  lemma RoundColumn(prev: Table, letter: string, c: string, d: string)
    requires WellFormed(prev) && c in prev.labels && d in prev.labels
    ensures d == c ==> Column(ImputeRound(prev, letter, c), d) == MapCells(DashTo(letter), Column(prev, c))
    ensures d != c ==> Column(ImputeRound(prev, letter, c), d) == Column(prev, d)
  {
    ColumnAfterReplace(prev, c, MapCells(DashTo(letter), Column(prev, c)), d);
  }

  /** The frame after the first k rounds of the imputation loop: round j
      replaces every dash in column `cols[j]` by the letter for position j. */
  function ImputeDashes(t: Table, cmap: map<int, string>, cols: seq<string>, k: nat): (r: Table)
    requires WellFormed(t) && Imputable(t, cmap, cols, k)
    ensures r.labels == t.labels && r.height == t.height && WellFormed(r)
    decreases k
  {
    if k == 0 then t
    else ImputeRound(ImputeDashes(t, cmap, cols, k - 1), cmap[k - 1], cols[k - 1])
  }

  /** `replace_dashes_with_canonical_letters`: imputes the consensus letters
      into the caller's own frame, column by column, then returns a new frame
      in which every 'X' and then every '.' is NaN. A missing column or
      position fails the lookup and leaves the caller's frame imputed up to
      that column. */
  method ReplaceDashesWithCanonicalLetters(df: Frame, cmap: map<int, string>, featCols: seq<string>)
    returns (r: Result<Frame>)
    requires df.Valid()
    modifies df
    ensures df.Valid()
    ensures r.Ok? <==> Imputable(old(df.Value()), cmap, featCols, |featCols|)
    ensures r.Ok? ==> df.Value() == ImputeDashes(old(df.Value()), cmap, featCols, |featCols|)
    ensures r.Ok? ==> fresh(r.value) && r.value.Valid()
    ensures r.Ok? ==> r.value.Value() == MapAll(MapAll(df.Value(), DropValue("X")), DropValue("."))
    ensures r.Fail? ==> r.failure == KeyError
    ensures r.Fail? ==> exists k :: (0 <= k < |featCols|
      && Imputable(old(df.Value()), cmap, featCols, k)
      && !Imputable(old(df.Value()), cmap, featCols, k + 1)
      && df.Value() == ImputeDashes(old(df.Value()), cmap, featCols, k))
  {
    var ok := ImputeInPlace(df, cmap, featCols);
    if !ok {
      return Fail(KeyError);
    }
    var withoutX := df.Replace(DropValue("X"));
    var withoutDot := withoutX.Replace(DropValue("."));
    return Ok(withoutDot);
  }

  /** The imputation loop of `replace_dashes_with_canonical_letters`, which
      works on the caller's frame: round i overwrites column `featCols[i]`,
      and the first missing column or position stops it. */
  method ImputeInPlace(df: Frame, cmap: map<int, string>, featCols: seq<string>) returns (ok: bool)
    requires df.Valid()
    modifies df
    ensures df.Valid()
    ensures ok <==> Imputable(old(df.Value()), cmap, featCols, |featCols|)
    ensures ok ==> df.Value() == ImputeDashes(old(df.Value()), cmap, featCols, |featCols|)
    ensures !ok ==> exists k :: (0 <= k < |featCols|
      && Imputable(old(df.Value()), cmap, featCols, k)
      && !Imputable(old(df.Value()), cmap, featCols, k + 1)
      && df.Value() == ImputeDashes(old(df.Value()), cmap, featCols, k))
  {
    ghost var t := df.Value();
    for i := 0 to |featCols|
      invariant df.Valid()
      invariant Imputable(t, cmap, featCols, i)
      invariant df.Value() == ImputeDashes(t, cmap, featCols, i)
    {
      var col := featCols[i];
      ghost var before := df.Value();
      if col !in df.labels || i !in cmap {
        ImputationStops(t, cmap, featCols, i);
        assert !Imputable(t, cmap, featCols, i + 1) && before == ImputeDashes(t, cmap, featCols, i);
        return false;
      }
      ImputationStep(t, cmap, featCols, i);
      ImputeColumnInPlace(df, cmap[i], col);
    }
    return true;
  }

  /** One round of the loop: `df[col] = df[col].replace({'-': letter})`. */
  method ImputeColumnInPlace(df: Frame, letter: string, col: string)
    requires df.Valid() && col in df.labels
    modifies df
    ensures df.Valid()
    ensures df.Value() == ImputeRound(old(df.Value()), letter, col)
  {
    df.SetColumn(col, MapCells(DashTo(letter), Column(df.Value(), col)));
  }

  /** One more imputation round, when column and position exist. */
  lemma ImputationStep(t: Table, cmap: map<int, string>, cols: seq<string>, i: nat)
    requires WellFormed(t) && Imputable(t, cmap, cols, i) && i < |cols|
    requires cols[i] in t.labels && i in cmap
    ensures Imputable(t, cmap, cols, i + 1)
    ensures ImputeDashes(t, cmap, cols, i + 1) == ImputeRound(ImputeDashes(t, cmap, cols, i), cmap[i], cols[i])
  {
  }

  /** A missing column or position ends the imputation for good. */
  lemma ImputationStops(t: Table, cmap: map<int, string>, cols: seq<string>, i: nat)
    requires i < |cols| && !(cols[i] in t.labels && i in cmap)
    ensures !Imputable(t, cmap, cols, i + 1)
    ensures !Imputable(t, cmap, cols, |cols|)
  {
  }

  /** A column outside the first k feature columns is never touched. */
  lemma {:induction false} UntouchedColumn(t: Table, cmap: map<int, string>, cols: seq<string>, k: nat, c: string)
    requires WellFormed(t) && Imputable(t, cmap, cols, k) && c in t.labels && c !in cols[..k]
    ensures Column(ImputeDashes(t, cmap, cols, k), c) == Column(t, c)
    decreases k
  {
    if k > 0 {
      var prev := ImputeDashes(t, cmap, cols, k - 1);
      assert ImputeDashes(t, cmap, cols, k) == ImputeRound(prev, cmap[k - 1], cols[k - 1]);
      NotInPrefix(cols, k, c);
      UntouchedColumn(t, cmap, cols, k - 1, c);
      RoundColumn(prev, cmap[k - 1], cols[k - 1], c);
    }
  }

  /** What is not among the first k entries is not among the first k - 1
      and is not the k-th. */
  lemma NotInPrefix(cols: seq<string>, k: nat, c: string)
    requires 0 < k <= |cols| && c !in cols[..k]
    ensures c !in cols[..k - 1] && c != cols[k - 1]
  {
    assert cols[..k] == cols[..k - 1] + [cols[k - 1]];
  }

  /** With distinct feature columns, feature column i has each of its dashes
      replaced by the letter for position i and nothing else changed. */
  lemma {:induction false} ImputedColumn(t: Table, cmap: map<int, string>, cols: seq<string>, k: nat, i: nat)
    requires WellFormed(t) && Imputable(t, cmap, cols, k) && Distinct(cols) && i < k
    ensures Column(ImputeDashes(t, cmap, cols, k), cols[i]) == MapCells(DashTo(cmap[i]), Column(t, cols[i]))
    decreases k
  {
    var c := cols[i];
    DistinctNotEarlier(cols, i);
    UntouchedColumn(t, cmap, cols, i, c);
    OwnRound(t, cmap, cols, i + 1);
    DistinctNotLater(cols, i, k);
    UnchangedAfter(t, cmap, cols, i + 1, k, c);
  }

  /** Round k - 1 imputes its own column of the frame the earlier rounds left. */
  lemma OwnRound(t: Table, cmap: map<int, string>, cols: seq<string>, k: nat)
    requires WellFormed(t) && Imputable(t, cmap, cols, k) && 0 < k
    ensures Column(ImputeDashes(t, cmap, cols, k), cols[k - 1])
         == MapCells(DashTo(cmap[k - 1]), Column(ImputeDashes(t, cmap, cols, k - 1), cols[k - 1]))
  {
    var prev := ImputeDashes(t, cmap, cols, k - 1);
    assert ImputeDashes(t, cmap, cols, k) == ImputeRound(prev, cmap[k - 1], cols[k - 1]);
    RoundColumn(prev, cmap[k - 1], cols[k - 1], cols[k - 1]);
  }

  /** Rounds from..k - 1 keep a column that none of them names. */
  lemma {:induction false} UnchangedAfter(t: Table, cmap: map<int, string>, cols: seq<string>, from: nat, k: nat, c: string)
    requires WellFormed(t) && Imputable(t, cmap, cols, k) && from <= k && c in t.labels
    requires forall j :: from <= j < k ==> cols[j] != c
    ensures Column(ImputeDashes(t, cmap, cols, k), c) == Column(ImputeDashes(t, cmap, cols, from), c)
    decreases k
  {
    if from < k {
      var prev := ImputeDashes(t, cmap, cols, k - 1);
      assert cols[k - 1] != c;
      assert ImputeDashes(t, cmap, cols, k) == ImputeRound(prev, cmap[k - 1], cols[k - 1]);
      RoundColumn(prev, cmap[k - 1], cols[k - 1], c);
      assert Column(ImputeDashes(t, cmap, cols, k), c) == Column(prev, c);
      UnchangedAfter(t, cmap, cols, from, k - 1, c);
      assert Column(prev, c) == Column(ImputeDashes(t, cmap, cols, from), c);
    }
  }

  /** In a list without repeats no later entry equals entry i. */
  lemma DistinctNotLater(cols: seq<string>, i: nat, k: nat)
    requires Distinct(cols) && i < k <= |cols|
    ensures forall j :: i + 1 <= j < k ==> cols[j] != cols[i]
  {
  }

  /** In a list without repeats an entry does not occur before its position. */
  lemma DistinctNotEarlier(cols: seq<string>, i: nat)
    requires Distinct(cols) && i < |cols|
    ensures cols[i] !in cols[..i]
  {
  }

  /** The whole cleaning of one cell of feature column i: the dash is
      imputed first, then 'X' and '.' become NaN (so a consensus 'X' too);
      cells of other columns only lose their 'X' and '.'. */
  lemma CleanedCell(t: Table, cmap: map<int, string>, cols: seq<string>, c: string, row: nat)
    requires WellFormed(t) && Imputable(t, cmap, cols, |cols|) && Distinct(cols)
    requires c in t.labels && row < t.height
    ensures var out := MapAll(MapAll(ImputeDashes(t, cmap, cols, |cols|), DropValue("X")), DropValue("."));
      && (forall i :: 0 <= i < |cols| && cols[i] == c ==>
            Column(out, c)[row] == DropValue(".")(DropValue("X")(DashTo(cmap[i])(Column(t, c)[row]))))
      && (c !in cols ==> Column(out, c)[row] == DropValue(".")(DropValue("X")(Column(t, c)[row])))
  {
    var u := ImputeDashes(t, cmap, cols, |cols|);
    CleanedCellOf(u, c, row);
    forall i | 0 <= i < |cols| && cols[i] == c
      ensures Column(u, c) == MapCells(DashTo(cmap[i]), Column(t, c))
    {
      ImputedColumn(t, cmap, cols, |cols|, i);
    }
    if c !in cols {
      assert cols[..|cols|] == cols;
      UntouchedColumn(t, cmap, cols, |cols|, c);
    }
  }

  /** After the 'X' and '.' passes, each cell is its imputed value with both
      removed. */
  lemma CleanedCellOf(u: Table, c: string, row: nat)
    requires WellFormed(u) && c in u.labels && row < u.height
    ensures Column(MapAll(MapAll(u, DropValue("X")), DropValue(".")), c)[row] == DropValue(".")(DropValue("X")(Column(u, c)[row]))
  {
    var withoutX := MapAll(u, DropValue("X"));
    ColumnAfterMap(u, u.labels, DropValue("X"), c);
    ColumnAfterMap(withoutX, withoutX.labels, DropValue("."), c);
  }

  /** No cell of the returned frame is 'X' or '.'. */
  lemma NoXOrDotRemains(u: Table, j: nat, row: nat)
    requires Shaped(u) && j < |u.columns| && row < u.height
    ensures MapAll(MapAll(u, DropValue("X")), DropValue(".")).columns[j][row] != Text("X")
    ensures MapAll(MapAll(u, DropValue("X")), DropValue(".")).columns[j][row] != Text(".")
  {
    var withoutX := MapAll(u, DropValue("X"));
    assert |u.columns[j]| == u.height;
    assert u.labels[j] in u.labels;
    assert withoutX.columns[j] == MapCells(DropValue("X"), u.columns[j]);
    assert withoutX.columns[j][row] == DropValue("X")(u.columns[j][row]);
    assert withoutX.labels[j] in withoutX.labels;
    assert |withoutX.columns[j]| == u.height;
    assert MapAll(withoutX, DropValue(".")).columns[j] == MapCells(DropValue("."), withoutX.columns[j]);
    DropValueRule("X", u.columns[j][row]);
    DropValueRule(".", withoutX.columns[j][row]);
  }

  // ---------------------------------------------------------------------
  // read_consensus: the position-to-letter map
  // ---------------------------------------------------------------------

  /** `{i: letter for i, letter in enumerate(sequence)}`. */
  function ConsensusMap(consensus: string): (m: map<int, string>)
    ensures forall i :: i in m <==> 0 <= i < |consensus|
    ensures forall i :: 0 <= i < |consensus| ==> m[i] == [consensus[i]]
  {
    map i | 0 <= i < |consensus| :: [consensus[i]]
  }

  /** `read_consensus` given the two consensus sequences as read from their
      files: protease tables use the protease consensus, both reverse
      transcriptase classes the RT consensus. */
  function ReadConsensus(drugClass: string, proteaseConsensus: string, rtConsensus: string): (r: Result<map<int, string>>)
    ensures drugClass !in DrugColVals ==> r == Fail(AssertionError)
    ensures drugClass == "protease" ==> r == Ok(ConsensusMap(proteaseConsensus))
    ensures drugClass == "nnrt" || drugClass == "nrt" ==> r == Ok(ConsensusMap(rtConsensus))
  {
    if drugClass !in DrugColVals then Fail(AssertionError)
    else if drugClass == "protease" then Ok(ConsensusMap(proteaseConsensus))
    else Ok(ConsensusMap(rtConsensus))
  }

  /** With a consensus at least as long as the distinct feature columns,
      imputation cannot fail, and a dash in feature column i becomes the i-th
      consensus letter. */
  lemma ConsensusImputes(t: Table, consensus: string, cols: seq<string>, i: nat, row: nat)
    requires WellFormed(t) && Distinct(cols) && |cols| <= |consensus|
    requires forall c :: c in cols ==> c in t.labels
    requires i < |cols| && row < t.height
    ensures Imputable(t, ConsensusMap(consensus), cols, |cols|)
    ensures var x := Column(t, cols[i])[row];
      Column(ImputeDashes(t, ConsensusMap(consensus), cols, |cols|), cols[i])[row]
        == if x == Text("-") then Text([consensus[i]]) else x
  {
    var m := ConsensusMap(consensus);
    assert Imputable(t, m, cols, |cols|) by {
      forall j | 0 <= j < |cols| ensures cols[j] in t.labels && j in m {
        assert cols[j] in cols;
      }
    }
    ImputedColumn(t, m, cols, |cols|, i);
  }

  // ---------------------------------------------------------------------
  // drop_na_from_data
  // ---------------------------------------------------------------------

  /** Row r has no NaN in any of the columns. */
  predicate NaNFreeRow(cols: seq<seq<Cell>>, r: nat) {
    forall j :: 0 <= j < |cols| && r < |cols[j]| ==> cols[j][r] != NaN
  }

  /** The rows among the first n without NaN, in ascending order. */
  function KeptRows(cols: seq<seq<Cell>>, n: nat): (kept: seq<nat>)
    ensures forall i :: 0 <= i < |kept| ==> kept[i] < n && NaNFreeRow(cols, kept[i])
    ensures forall i, j :: 0 <= i < j < |kept| ==> kept[i] < kept[j]
    ensures forall r :: 0 <= r < n && NaNFreeRow(cols, r) ==> r in kept
  {
    if n == 0 then []
    else KeptRows(cols, n - 1) + (if NaNFreeRow(cols, n - 1) then [n - 1] else [])
  }

  /** `df[cols]`. */
  function Select(t: Table, cols: seq<string>): (r: Table)
    requires Shaped(t) && forall c :: c in cols ==> c in t.labels
    ensures Shaped(r) && r.labels == cols && r.height == t.height
  {
    Table(cols, seq(|cols|, j requires 0 <= j < |cols| => Column(t, cols[j])), t.height)
  }

  /** `df.dropna()`: the rows without NaN in any column, in order. */
  function DropNaRows(s: Table): (r: Table)
    requires Shaped(s)
    ensures Shaped(r) && r.labels == s.labels
  {
    var kept := KeptRows(s.columns, s.height);
    Table(s.labels,
      seq(|s.columns|, j requires 0 <= j < |s.columns| =>
        seq(|kept|, k requires 0 <= k < |kept| => s.columns[j][kept[k]])),
      |kept|)
  }

  /** `drop_na_from_data`: the drug must be an allowed drug and a column;
      the result holds the feature columns followed by the drug column, with
      exactly the rows that have no NaN in any of them, in their order. */
  function DropNaFromData(t: Table, drug: string, featCols: seq<string>): (r: Result<Table>)
    requires WellFormed(t)
    ensures drug !in AllowedDrugNames || drug !in t.labels ==> r == Fail(AssertionError)
    ensures drug in AllowedDrugNames && drug in t.labels ==>
      (r.Ok? <==> forall c :: c in featCols ==> c in t.labels)
    ensures drug in AllowedDrugNames && drug in t.labels && r.Fail? ==> r.failure == KeyError
    ensures r.Ok? ==> r.value.labels == featCols + [drug] && Shaped(r.value)
    ensures r.Ok? ==> var sel := Select(t, featCols + [drug]); var kept := KeptRows(sel.columns, t.height);
      && r.value.height == |kept|
      && forall j, k :: 0 <= j < |r.value.labels| && 0 <= k < |kept| ==>
           r.value.columns[j][k] == Column(t, r.value.labels[j])[kept[k]]
  {
    if drug !in AllowedDrugNames || drug !in t.labels then Fail(AssertionError)
    else
      var columns := featCols + [drug];
      if exists c :: c in columns && c !in t.labels then Fail(KeyError)
      else Ok(DropNaRows(Select(t, columns)))
  }

  /** No NaN is left after `dropna`. */
  lemma DropNaLeavesNoNaN(s: Table, j: nat, k: nat)
    requires Shaped(s) && j < |s.columns| && k < DropNaRows(s).height
    ensures DropNaRows(s).columns[j][k] != NaN
  {
    var kept := KeptRows(s.columns, s.height);
    assert NaNFreeRow(s.columns, kept[k]);
  }

  /** In a table without NaN every row is kept. */
  lemma {:induction false} KeepsEveryNaNFreeRow(cols: seq<seq<Cell>>, n: nat)
    requires forall r :: 0 <= r < n ==> NaNFreeRow(cols, r)
    ensures KeptRows(cols, n) == seq(n, i => i)
  {
    if n > 0 {
      KeepsEveryNaNFreeRow(cols, n - 1);
      assert seq(n, i => i) == seq(n - 1, i => i) + [n - 1];
    }
  }

  /** `dropna` twice is `dropna` once. */
  lemma DropNaIdempotent(s: Table)
    requires Shaped(s)
    ensures DropNaRows(DropNaRows(s)) == DropNaRows(s)
  {
    var once := DropNaRows(s);
    forall r | 0 <= r < once.height ensures NaNFreeRow(once.columns, r) {
      forall j | 0 <= j < |once.columns| && r < |once.columns[j]| ensures once.columns[j][r] != NaN {
        DropNaLeavesNoNaN(s, j, r);
      }
    }
    KeepsEveryNaNFreeRow(once.columns, once.height);
    var twice := DropNaRows(once);
    forall j | 0 <= j < |once.columns| ensures twice.columns[j] == once.columns[j] {
      assert |once.columns[j]| == once.height;
    }
  }

  // ---------------------------------------------------------------------
  // to_numeric_rep on the feature columns of a table
  // ---------------------------------------------------------------------

  /** `replace(keys, values)` on one cell: a one-letter string that is a key
      becomes its number; every other cell is kept. */
  function ResidueCell(table: map<char, real>, x: Cell): (r: Cell)
    ensures x.Text? && |x.s| == 1 ==> r == SequenceTransformer.ReplaceResidue(table, x.s[0])
    ensures !(x.Text? && |x.s| == 1) ==> r == x
  {
    match x
    case Text(s) => if |s| == 1 && s[0] in table then Number(table[s[0]]) else x
    case _ => x
  }

  function Residues(table: map<char, real>): Cell -> Cell {
    x => ResidueCell(table, x)
  }

  /** The table picked by `rep`. */
  function TableFor(tables: SequenceTransformer.ResidueTables, rep: string): map<char, real>
    requires rep == "mw" || rep == "pKa"
  {
    if rep == "mw" then tables.molecularWeights else tables.isoelectricPoints
  }

  /** Replacing twice is replacing once: numbers are never keys. */
  lemma ResiduesIdempotent(table: map<char, real>)
    ensures forall x :: Residues(table)(Residues(table)(x)) == Residues(table)(x)
  {
  }

  /** `to_numeric_rep`: on a copy, both 'mw' and 'pKa' pick a table, and
      each feature column of the copy has its residues replaced. */
  method ToNumericRep(df: Frame, tables: SequenceTransformer.ResidueTables, featCols: seq<string>, rep: string)
    returns (r: Result<Frame>)
    requires df.Valid()
    ensures rep != "mw" && rep != "pKa" ==> r == Fail(AssertionError)
    ensures rep == "mw" || rep == "pKa" ==> (r.Ok? <==> forall c :: c in featCols ==> c in df.labels)
    ensures (rep == "mw" || rep == "pKa") && r.Fail? ==> r.failure == KeyError
    ensures r.Ok? ==> fresh(r.value) && r.value.Valid()
    ensures r.Ok? ==> r.value.Value() == MapColumns(df.Value(), featCols, Residues(TableFor(tables, rep)))
  {
    var dfNew := df.Copy();
    if rep != "mw" && rep != "pKa" {
      return Fail(AssertionError);
    }
    var numeric := TableFor(tables, rep);
    ResiduesIdempotent(numeric);
    for i := 0 to |featCols|
      invariant fresh(dfNew) && dfNew.Valid()
      invariant dfNew.Value() == MapColumns(df.Value(), featCols[..i], Residues(numeric))
      invariant forall c :: c in featCols[..i] ==> c in df.labels
    {
      var col := featCols[i];
      if col !in dfNew.labels {
        return Fail(KeyError);
      }
      dfNew.SetColumn(col, MapCells(Residues(numeric), Column(dfNew.Value(), col)));
      MapColumnsStepInPlace(df.Value(), featCols, i, Residues(numeric));
    }
    assert featCols[..|featCols|] == featCols;
    return Ok(dfNew);
  }

  /** A feature cell that is a one-letter key of the table becomes its
      number, as in the sequence featuriser; other cells and other columns
      are kept. */
  lemma NumericCellRule(t: Table, table: map<char, real>, featCols: seq<string>, c: string, row: nat)
    requires WellFormed(t) && c in t.labels && row < t.height
    ensures var x, y := Column(t, c)[row], Column(MapColumns(t, featCols, Residues(table)), c)[row];
      && (c in featCols && x.Text? && |x.s| == 1 ==> y == SequenceTransformer.ReplaceResidue(table, x.s[0]))
      && (c in featCols && !(x.Text? && |x.s| == 1) ==> y == x)
      && (c !in featCols ==> y == x)
  {
    ColumnAfterMap(t, featCols, Residues(table), c);
    var x := Column(t, c)[row];
    if x.Text? && |x.s| == 1 {
      assert x.s == [x.s[0]];
    }
  }
}

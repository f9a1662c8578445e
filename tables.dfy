/** A pandas DataFrame as the cleaning code uses it: named columns of equal
    height, looked up by name. A table value is `Table`; a frame whose
    columns are overwritten in place is the class `Frame`. The row index
    (the sequence identifiers) plays no part in the cleaning and is left
    out. */
module Tables {
  import opened Common

  datatype Table = Table(labels: seq<string>, columns: seq<seq<Cell>>, height: nat)

  /** One column per label, every column `height` cells tall. */
  predicate Shaped(t: Table) {
    |t.columns| == |t.labels| && forall j :: 0 <= j < |t.columns| ==> |t.columns[j]| == t.height
  }

  /** A frame read from a file: shaped, and no label used twice. */
  predicate WellFormed(t: Table) {
    Shaped(t) && Distinct(t.labels)
  }

  /** The position of the first column named `c`. */
  function IndexOf(labels: seq<string>, c: string): (j: nat)
    requires c in labels
    ensures j < |labels| && labels[j] == c
    ensures forall i :: 0 <= i < j ==> labels[i] != c
  {
    if labels[0] == c then 0 else 1 + IndexOf(labels[1..], c)
  }

  /** `df[c]`. */
  function Column(t: Table, c: string): seq<Cell>
    requires Shaped(t) && c in t.labels
  {
    t.columns[IndexOf(t.labels, c)]
  }

  /** `series.apply(f)`, cell by cell. */
  function MapCells(f: Cell -> Cell, s: seq<Cell>): seq<Cell> {
    seq(|s|, i requires 0 <= i < |s| => f(s[i]))
  }

  /** Every column whose label is in `cols` mapped cell by cell by `f`; the
      other columns as they were. */
  function MapColumns(t: Table, cols: seq<string>, f: Cell -> Cell): (r: Table)
    requires Shaped(t)
    ensures r.labels == t.labels && r.height == t.height && Shaped(r)
  {
    t.(columns := seq(|t.columns|, j requires 0 <= j < |t.columns| =>
      if t.labels[j] in cols then MapCells(f, t.columns[j]) else t.columns[j]))
  }

  /** `df.replace(...)`, every cell of every column. */
  function MapAll(t: Table, f: Cell -> Cell): (r: Table)
    requires Shaped(t)
  {
    MapColumns(t, t.labels, f)
  }

  /** `df[c] = cells` for a column that exists. */
  function ReplaceColumn(t: Table, c: string, cells: seq<Cell>): (r: Table)
    requires Shaped(t) && c in t.labels && |cells| == t.height
    ensures r.labels == t.labels && r.height == t.height && Shaped(r)
  {
    t.(columns := t.columns[IndexOf(t.labels, c) := cells])
  }

  /** Mapping columns keeps the column, mapped or not, found under each name. */
  lemma ColumnAfterMap(t: Table, cols: seq<string>, f: Cell -> Cell, c: string)
    requires Shaped(t) && c in t.labels
    ensures c in cols ==> Column(MapColumns(t, cols, f), c) == MapCells(f, Column(t, c))
    ensures c !in cols ==> Column(MapColumns(t, cols, f), c) == Column(t, c)
  {
  }

  /** Overwriting one column leaves every other column where it was. */
  lemma ColumnAfterReplace(t: Table, c: string, cells: seq<Cell>, d: string)
    requires WellFormed(t) && c in t.labels && d in t.labels && |cells| == t.height
    ensures Column(ReplaceColumn(t, c, cells), d) == if d == c then cells else Column(t, d)
  {
    if d != c {
      assert IndexOf(t.labels, d) != IndexOf(t.labels, c);
    }
  }

  /** Mapping one more column is overwriting that column with its mapped
      original: the loop `for col in cols: new[col] = f(df[col])`. */
  lemma MapColumnsStep(t: Table, cols: seq<string>, i: nat, f: Cell -> Cell)
    requires WellFormed(t) && i < |cols| && cols[i] in t.labels
    ensures MapColumns(t, cols[..i + 1], f)
         == ReplaceColumn(MapColumns(t, cols[..i], f), cols[i], MapCells(f, Column(t, cols[i])))
  {
    var a := MapColumns(t, cols[..i + 1], f);
    var b := ReplaceColumn(MapColumns(t, cols[..i], f), cols[i], MapCells(f, Column(t, cols[i])));
    var m := IndexOf(t.labels, cols[i]);
    assert cols[..i + 1] == cols[..i] + [cols[i]];
    forall j | 0 <= j < |t.columns| ensures a.columns[j] == b.columns[j] {
      if t.labels[j] == cols[i] {
        assert j == m;
      }
    }
  }

  /** The same step when `f` is idempotent and the loop reads the column it
      writes: mapping an already mapped column changes nothing. */
  lemma MapColumnsStepInPlace(t: Table, cols: seq<string>, i: nat, f: Cell -> Cell)
    requires WellFormed(t) && i < |cols| && cols[i] in t.labels
    requires forall x :: f(f(x)) == f(x)
    ensures var prev := MapColumns(t, cols[..i], f);
      MapColumns(t, cols[..i + 1], f) == ReplaceColumn(prev, cols[i], MapCells(f, Column(prev, cols[i])))
  {
    var prev := MapColumns(t, cols[..i], f);
    MapColumnsStep(t, cols, i, f);
    ColumnAfterMap(t, cols[..i], f, cols[i]);
    if cols[i] in cols[..i] {
      assert MapCells(f, Column(prev, cols[i])) == MapCells(f, Column(t, cols[i]));
    }
  }

  /** A frame whose columns are overwritten in place. */
  class Frame {
    var labels: seq<string>
    var columns: seq<seq<Cell>>
    var height: nat

    function Value(): Table
      reads this
    {
      Table(labels, columns, height)
    }

    predicate Valid()
      reads this
    {
      WellFormed(Value())
    }

    constructor (t: Table)
      ensures Value() == t
    {
      labels := t.labels;
      columns := t.columns;
      height := t.height;
    }

    /** `df.copy()`. */
    method Copy() returns (f: Frame)
      ensures fresh(f) && f.Value() == Value()
    {
      f := new Frame(Value());
    }

    /** `df[c] = cells`, writing into this frame. */
    method SetColumn(c: string, cells: seq<Cell>)
      requires Valid() && c in labels && |cells| == height
      modifies this
      ensures Valid()
      ensures Value() == ReplaceColumn(old(Value()), c, cells)
    {
      columns := columns[IndexOf(labels, c) := cells];
    }

    /** `df.replace(...)`: a new frame, this one untouched. */
    method Replace(f: Cell -> Cell) returns (g: Frame)
      requires Valid()
      ensures fresh(g) && g.Valid()
      ensures g.Value() == MapAll(Value(), f)
    {
      g := new Frame(MapAll(Value(), f));
    }
  }
}

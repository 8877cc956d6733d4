/**
 * The tabular data the pipeline works on, modelled after a pandas DataFrame:
 * an ordered list of distinct column names, one column of cells per name, and
 * the row labels (the DataFrame index). Rows are implicit: row i is the i-th
 * cell of every column.
 */
module Tables {
  import opened Common

  type Name = string

  /** A table cell: pandas' missing marker (NaN, None, NaT), a number or a string. */
  datatype Cell = Missing | Num(x: real) | Text(s: string)

  type Column = seq<Cell>

  datatype Table = Table(columns: seq<Name>, data: map<Name, Column>, index: seq<int>) {
    function Height(): nat {
      |index|
    }
  }

  /** Column names are distinct, exactly the named columns are stored, and all have one cell per row label. */
  ghost predicate WellFormed(t: Table) {
    && Distinct(t.columns)
    && (forall c :: c in t.data ==> c in t.columns)
    && (forall k :: 0 <= k < |t.columns| ==> t.columns[k] in t.data)
    && (forall c :: c in t.data ==> |t.data[c]| == |t.index|)
  }

  /** A column of `n` missing cells (pandas `np.nan` broadcast over the index). */
  function Missings(n: nat): (col: Column)
    ensures |col| == n
  {
    seq(n, _ => Missing)
  }

  /** `df[name] = col`: overwrite an existing column in place, or append a new one at the end. */
  function SetColumn(t: Table, name: Name, col: Column): (r: Table)
    requires WellFormed(t) && |col| == |t.index|
    ensures WellFormed(r)
  {
    Table(if name in t.data then t.columns else t.columns + [name], t.data[name := col], t.index)
  }

  /** Assigning a column adds its name (at the end, when new), holds the given cells and changes no other column. */
  lemma SetColumnFrame(t: Table, name: Name, col: Column)
    requires WellFormed(t) && |col| == |t.index|
    ensures SetColumn(t, name, col).data.Keys == t.data.Keys + {name}
    ensures SetColumn(t, name, col).data[name] == col
    ensures forall d :: d in t.data && d != name ==> SetColumn(t, name, col).data[d] == t.data[d]
    ensures |t.columns| <= |SetColumn(t, name, col).columns|
    ensures SetColumn(t, name, col).columns[..|t.columns|] == t.columns
  {
    var r := SetColumn(t, name, col);
    assert r.data == t.data[name := col];
    assert r.data.Keys == t.data.Keys + {name};
    if name !in t.data {
      assert (t.columns + [name])[..|t.columns|] == t.columns;
    }
  }

  /** `df[names] = values` for columns that all exist already: replace them, keep everything else. */
  function SetColumns(t: Table, values: map<Name, Column>): (r: Table)
    requires WellFormed(t)
    requires forall c :: c in values ==> c in t.data && |values[c]| == |t.index|
    ensures WellFormed(r)
  {
    Table(t.columns, t.data + values, t.index)
  }

  /** `df.drop(columns=[name])` for an existing or absent column. */
  function DropColumn(t: Table, name: Name): (r: Table)
    requires WellFormed(t)
    ensures WellFormed(r)
  {
    FilterDistinct(t.columns, c => c != name);
    Table(Filter(t.columns, c => c != name), t.data - {name}, t.index)
  }

  /** A column computed cell by cell. */
  function MapCells(col: Column, f: Cell -> Cell): (r: Column)
    ensures |r| == |col| && forall i :: 0 <= i < |col| ==> r[i] == f(col[i])
  {
    seq(|col|, i requires 0 <= i < |col| => f(col[i]))
  }

  /** `df[cols]`: the named columns only, in the given order. */
  function Project(t: Table, cols: seq<Name>): (r: Table)
    requires WellFormed(t) && Distinct(cols)
    requires forall k :: 0 <= k < |cols| ==> cols[k] in t.data
    ensures WellFormed(r) && r.columns == cols && r.index == t.index
    ensures forall c :: c in r.data ==> r.data[c] == t.data[c]
  {
    Table(cols, map c | c in cols :: t.data[c], t.index)
  }

  /** The rows at positions `rows`, in that order, keeping their labels. */
  function Select(t: Table, rows: seq<nat>): (r: Table)
    requires WellFormed(t)
    requires forall k :: 0 <= k < |rows| ==> rows[k] < |t.index|
    ensures WellFormed(r) && |r.index| == |rows|
  {
    Table(
      t.columns,
      map c | c in t.data :: seq(|rows|, k requires 0 <= k < |rows| => t.data[c][rows[k]]),
      seq(|rows|, k requires 0 <= k < |rows| => t.index[rows[k]]))
  }

  /** `reset_index(drop=True)`: relabel the rows 0 .. n - 1. */
  function ResetIndex(t: Table): (r: Table)
    requires WellFormed(t)
    ensures WellFormed(r)
  {
    t.(index := Dense(|t.index|))
  }

  /** Every cell of row i is missing (the rows `dropna(how="all")` removes). */
  predicate RowAllMissing(t: Table, i: nat)
    requires WellFormed(t) && i < |t.index|
  {
    forall k :: 0 <= k < |t.columns| ==> t.data[t.columns[k]][i] == Missing
  }

  /** The names among `names` that are not columns, in order (`[c for c in names if c not in df.columns]`). */
  function Absent(names: seq<Name>, columns: seq<Name>): (r: seq<Name>)
    ensures forall x :: x in r <==> x in names && x !in columns
  {
    Filter(names, c => c !in columns)
  }

  /** Rows i and j agree on every column in `keys`. */
  predicate RowsEqualOn(t: Table, keys: seq<Name>, i: nat, j: nat)
    requires forall k :: 0 <= k < |keys| ==> keys[k] in t.data
    requires forall c :: c in t.data ==> i < |t.data[c]| && j < |t.data[c]|
  {
    forall k :: 0 <= k < |keys| ==> t.data[keys[k]][i] == t.data[keys[k]][j]
  }

  /** `Series.shift(lag)`: the cell `lag` positions earlier (later, for a negative lag), missing when there is none. */
  function Shift(col: Column, lag: int): (r: Column)
    ensures |r| == |col|
  {
    seq(|col|, i requires 0 <= i < |col| => if 0 <= i - lag < |col| then col[i - lag] else Missing)
  }

  lemma SelectSelect(t: Table, a: seq<nat>, b: seq<nat>)
    requires WellFormed(t)
    requires forall k :: 0 <= k < |a| ==> a[k] < |t.index|
    requires forall k :: 0 <= k < |b| ==> b[k] < |a|
    ensures Select(Select(t, a), b) == Select(t, seq(|b|, k requires 0 <= k < |b| => a[b[k]]))
  {
    var ab := seq(|b|, k requires 0 <= k < |b| => a[b[k]]);
    var lhs, rhs := Select(Select(t, a), b), Select(t, ab);
    assert lhs.data.Keys == rhs.data.Keys;
    forall c | c in lhs.data ensures lhs.data[c] == rhs.data[c] {
    }
  }

  lemma SelectAll(t: Table)
    requires WellFormed(t)
    ensures Select(t, Dense(|t.index|)) == t
  {
    var r := Select(t, Dense(|t.index|));
    assert r.data.Keys == t.data.Keys;
    forall c | c in t.data ensures r.data[c] == t.data[c] {
    }
  }

  /** A DataFrame whose columns are assigned and dropped in place. */
  class Frame {
    var columns: seq<Name>
    var data: map<Name, Column>
    var index: seq<int>

    function View(): Table
      reads this
    {
      Table(columns, data, index)
    }

    ghost predicate Valid()
      reads this
    {
      WellFormed(View())
    }

    constructor (t: Table)
      requires WellFormed(t)
      ensures Valid() && View() == t
    {
      columns, data, index := t.columns, t.data, t.index;
    }

    /** `df[name] = col` */
    method Assign(name: Name, col: Column)
      requires Valid() && |col| == |index|
      modifies this
      ensures Valid() && View() == SetColumn(old(View()), name, col)
    {
      if name !in data {
        columns := columns + [name];
      }
      data := data[name := col];
    }

    /** `df[names] = values` for existing columns */
    method AssignExisting(values: map<Name, Column>)
      requires Valid()
      requires forall c :: c in values ==> c in data && |values[c]| == |index|
      modifies this
      ensures Valid() && View() == SetColumns(old(View()), values)
    {
      data := data + values;
    }

    /** `df.drop(columns=[name], inplace=True)` for a column that exists */
    method Drop(name: Name)
      requires Valid() && name in data
      modifies this
      ensures Valid() && View() == DropColumn(old(View()), name)
    {
      FilterDistinct(columns, c => c != name);
      columns := Filter(columns, c => c != name);
      data := data - {name};
    }
  }
}

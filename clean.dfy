/**
 * The cleaning utilities: duplicate removal followed by removal of all-empty
 * rows, missing-value filling by strategy, and required-column validation.
 */
module Clean {
  import opened Common
  import opened Tables

  // ---------------------------------------------------------------------------
  // validatecolumns
  // ---------------------------------------------------------------------------

  /** True exactly when every required column is present; the absent ones are `Absent(required, t.columns)`. */
  function ValidateColumns(t: Table, required: seq<Name>): (ok: bool)
    ensures ok <==> forall k :: 0 <= k < |required| ==> required[k] in t.columns
  {
    var missing := Absent(required, t.columns);
    if missing == [] then
      assert forall k :: 0 <= k < |required| ==> required[k] in t.columns by {
        forall k | 0 <= k < |required| ensures required[k] in t.columns {
          assert required[k] !in missing;
        }
      }
      true
    else
      assert missing[0] in missing;
      false
  }

  // ---------------------------------------------------------------------------
  // dropduplicatesandtrim
  // ---------------------------------------------------------------------------

  /** No earlier row agrees with row i on `keys` (`duplicated(keep="first")` is false). */
  predicate IsFirstOccurrence(t: Table, keys: seq<Name>, i: nat)
    requires WellFormed(t) && i < |t.index|
    requires forall k :: 0 <= k < |keys| ==> keys[k] in t.data
  {
    forall j :: 0 <= j < i ==> !RowsEqualOn(t, keys, j, i)
  }

  /** `drop_duplicates(subset=keys)`: keep the first row of every group of rows equal on `keys`. */
  function DropDuplicates(t: Table, keys: seq<Name>): (r: Table)
    requires WellFormed(t)
    requires forall k :: 0 <= k < |keys| ==> keys[k] in t.data
    ensures WellFormed(r)
  {
    Select(t, Where(|t.index|, (i: nat) => i < |t.index| && IsFirstOccurrence(t, keys, i)))
  }

  /** `dropna(how="all")` */
  function DropAllMissing(t: Table): (r: Table)
    requires WellFormed(t)
    ensures WellFormed(r)
  {
    Select(t, Where(|t.index|, (i: nat) => i < |t.index| && !RowAllMissing(t, i)))
  }

  /** `dropna(how="all").reset_index(drop=True)` */
  function Trim(t: Table): (r: Table)
    requires WellFormed(t)
    ensures WellFormed(r)
  {
    ResetIndex(DropAllMissing(t))
  }

  /**
   * Trimming keeps exactly the rows that are not entirely missing, in their
   * order (`idx` gives the original position of each remaining row), keeps
   * the columns, and renumbers the rows 0 .. k - 1.
   */
  lemma TrimSpec(t: Table) returns (idx: seq<nat>)
    requires WellFormed(t)
    ensures Trim(t).columns == t.columns && Trim(t).data.Keys == t.data.Keys
    ensures Trim(t).index == Dense(|idx|)
    ensures StrictlyIncreasing(idx)
    ensures forall k :: 0 <= k < |idx| ==> idx[k] < |t.index| && !RowAllMissing(t, idx[k])
    ensures forall i: nat :: i < |t.index| && !RowAllMissing(t, i) ==> i in idx
    ensures forall c, k :: c in t.data && 0 <= k < |idx| ==> Trim(t).data[c][k] == t.data[c][idx[k]]
    ensures forall k :: 0 <= k < |idx| ==> !RowAllMissing(Trim(t), k)
  {
    idx := Where(|t.index|, (i: nat) => i < |t.index| && !RowAllMissing(t, i));
    var u := Trim(t);
    forall k | 0 <= k < |idx| ensures idx[k] < |t.index| && !RowAllMissing(t, idx[k]) {
      assert idx[k] in idx;
    }
    forall k | 0 <= k < |idx| ensures !RowAllMissing(u, k) {
      assert idx[k] in idx;
      var j :| 0 <= j < |t.columns| && t.data[t.columns[j]][idx[k]] != Missing;
      assert u.data[t.columns[j]][k] != Missing;
    }
  }

  /** A column without missing cells keeps every row through trimming. */
  lemma TrimKeepsAll(t: Table, c: Name)
    requires WellFormed(t) && c in t.data && forall i :: 0 <= i < |t.data[c]| ==> t.data[c][i] != Missing
    ensures Trim(t) == ResetIndex(t)
  {
    forall i | 0 <= i < |t.index| ensures !RowAllMissing(t, i) {
      var j :| 0 <= j < |t.columns| && t.columns[j] == c;
    }
    WhereAll(|t.index|, (i: nat) => i < |t.index| && !RowAllMissing(t, i));
    SelectAll(t);
  }

  /** The comparison columns: the given subset, or every column. */
  function DedupKeys(t: Table, subset: Option<seq<Name>>): seq<Name> {
    if subset.None? then t.columns else subset.value
  }

  /** `DataFrame.empty`: no rows or no columns. */
  predicate IsEmpty(t: Table) {
    |t.index| == 0 || t.columns == []
  }

  /**
   * `dropduplicatesandtrim`. `drop_duplicates` returns an empty table as it is,
   * before it looks at the subset; otherwise a subset naming an absent column
   * raises a KeyError listing the absent names.
   */
  function DropDuplicatesAndTrim(t: Table, subset: Option<seq<Name>>): Result<Table, seq<Name>>
    requires WellFormed(t)
  {
    var keys := DedupKeys(t, subset);
    var missing := Absent(keys, t.columns);
    if IsEmpty(t) then Ok(Trim(t))
    else if missing != [] then Err(missing)
    else
      assert forall k :: 0 <= k < |keys| ==> keys[k] in t.data by {
        forall k | 0 <= k < |keys| ensures keys[k] in t.data {
          assert keys[k] !in missing;
        }
      }
      Ok(Trim(DropDuplicates(t, keys)))
  }

  /** The positions of the rows of `t` that `dropduplicatesandtrim` keeps. */
  predicate Kept(t: Table, keys: seq<Name>, i: nat)
    requires WellFormed(t) && i < |t.index|
    requires forall k :: 0 <= k < |keys| ==> keys[k] in t.data
  {
    IsFirstOccurrence(t, keys, i) && !RowAllMissing(t, i)
  }

  /** Every comparison key is a column exactly when `Absent` reports none. */
  lemma KeysPresent(t: Table, keys: seq<Name>)
    requires WellFormed(t)
    ensures Absent(keys, t.columns) == [] <==> forall k :: 0 <= k < |keys| ==> keys[k] in t.data
  {
    var missing := Absent(keys, t.columns);
    if missing == [] {
      forall k | 0 <= k < |keys| ensures keys[k] in t.data {
        assert keys[k] !in missing;
      }
    } else {
      assert missing[0] in missing;
    }
  }

  /**
   * The two row filters compose into one selection: `idx`, increasing, holds
   * exactly the positions of the kept rows.
   */
  lemma TrimRows(t: Table, keys: seq<Name>) returns (idx: seq<nat>)
    requires WellFormed(t)
    requires forall k :: 0 <= k < |keys| ==> keys[k] in t.data
    ensures forall k :: 0 <= k < |idx| ==> idx[k] < |t.index|
    ensures DropAllMissing(DropDuplicates(t, keys)) == Select(t, idx)
    ensures StrictlyIncreasing(idx)
    ensures forall k :: 0 <= k < |idx| ==> Kept(t, keys, idx[k])
    ensures forall i: nat :: i < |t.index| && Kept(t, keys, i) ==> i in idx
  {
    var first := Where(|t.index|, (i: nat) => i < |t.index| && IsFirstOccurrence(t, keys, i));
    var s1 := Select(t, first);
    assert DropDuplicates(t, keys) == s1;
    var nonEmpty := Where(|s1.index|, (i: nat) => i < |s1.index| && !RowAllMissing(s1, i));
    assert DropAllMissing(s1) == Select(s1, nonEmpty);
    SelectSelect(t, first, nonEmpty);
    idx := seq(|nonEmpty|, k requires 0 <= k < |nonEmpty| => first[nonEmpty[k]]);
    forall k | 0 <= k < |first| ensures IsFirstOccurrence(t, keys, first[k]) {
      assert first[k] in first;
    }
    forall m | 0 <= m < |nonEmpty| ensures !RowAllMissing(s1, nonEmpty[m]) {
      assert nonEmpty[m] in nonEmpty;
    }
    ComposedSound(t, keys, first, nonEmpty, idx);
    ComposedComplete(t, keys, first, nonEmpty, idx);
  }

  /** Every position picked by the two filters is a kept row, in increasing order. */
  lemma ComposedSound(t: Table, keys: seq<Name>, first: seq<nat>, nonEmpty: seq<nat>, idx: seq<nat>)
    requires WellFormed(t)
    requires forall k :: 0 <= k < |keys| ==> keys[k] in t.data
    requires StrictlyIncreasing(first) && StrictlyIncreasing(nonEmpty)
    requires forall k :: 0 <= k < |first| ==> first[k] < |t.index| && IsFirstOccurrence(t, keys, first[k])
    requires forall m :: 0 <= m < |nonEmpty| ==> nonEmpty[m] < |first| && !RowAllMissing(Select(t, first), nonEmpty[m])
    requires |idx| == |nonEmpty| && forall k :: 0 <= k < |idx| ==> idx[k] == first[nonEmpty[k]]
    ensures StrictlyIncreasing(idx)
    ensures forall k :: 0 <= k < |idx| ==> idx[k] < |t.index| && Kept(t, keys, idx[k])
  {
    forall k | 0 <= k < |idx| ensures idx[k] < |t.index| && Kept(t, keys, idx[k]) {
      SelectedRowKept(t, keys, first, nonEmpty[k]);
    }
  }

  /** Every kept row is picked by the two filters. */
  lemma ComposedComplete(t: Table, keys: seq<Name>, first: seq<nat>, nonEmpty: seq<nat>, idx: seq<nat>)
    requires WellFormed(t)
    requires forall k :: 0 <= k < |keys| ==> keys[k] in t.data
    requires forall k :: 0 <= k < |first| ==> first[k] < |t.index|
    requires forall i: nat :: i < |t.index| && IsFirstOccurrence(t, keys, i) ==> i in first
    requires forall m: nat :: m < |first| && !RowAllMissing(Select(t, first), m) ==> m in nonEmpty
    requires |idx| == |nonEmpty| && forall k :: 0 <= k < |idx| ==> nonEmpty[k] < |first| && idx[k] == first[nonEmpty[k]]
    ensures forall i: nat :: i < |t.index| && Kept(t, keys, i) ==> i in idx
  {
    forall i: nat | i < |t.index| && Kept(t, keys, i) ensures i in idx {
      assert i in first;
      var m :| 0 <= m < |first| && first[m] == i;
      KeptRowSelected(t, keys, first, m);
      assert m in nonEmpty;
      var k :| 0 <= k < |nonEmpty| && nonEmpty[k] == m;
      assert idx[k] == i;
    }
  }

  /** A row that is not entirely missing among the first occurrences is a kept row. */
  lemma SelectedRowKept(t: Table, keys: seq<Name>, first: seq<nat>, m: nat)
    requires WellFormed(t)
    requires forall k :: 0 <= k < |keys| ==> keys[k] in t.data
    requires forall k :: 0 <= k < |first| ==> first[k] < |t.index| && IsFirstOccurrence(t, keys, first[k])
    requires m < |first| && !RowAllMissing(Select(t, first), m)
    ensures Kept(t, keys, first[m])
  {
    var s1 := Select(t, first);
    var j :| 0 <= j < |s1.columns| && s1.data[s1.columns[j]][m] != Missing;
    assert t.data[t.columns[j]][first[m]] != Missing;
  }

  /** A kept row is not entirely missing among the first occurrences. */
  lemma KeptRowSelected(t: Table, keys: seq<Name>, first: seq<nat>, m: nat)
    requires WellFormed(t)
    requires forall k :: 0 <= k < |keys| ==> keys[k] in t.data
    requires forall k :: 0 <= k < |first| ==> first[k] < |t.index|
    requires m < |first| && Kept(t, keys, first[m])
    ensures !RowAllMissing(Select(t, first), m)
  {
    var s1 := Select(t, first);
    var j :| 0 <= j < |t.columns| && t.data[t.columns[j]][first[m]] != Missing;
    assert s1.data[t.columns[j]][m] != Missing;
  }

  /** Kept rows differ on the keys and are never entirely missing. */
  lemma KeptRowsDistinct(t: Table, keys: seq<Name>, idx: seq<nat>)
    requires WellFormed(t)
    requires forall k :: 0 <= k < |keys| ==> keys[k] in t.data
    requires forall k :: 0 <= k < |idx| ==> idx[k] < |t.index| && Kept(t, keys, idx[k])
    requires StrictlyIncreasing(idx)
    ensures forall k1, k2 :: 0 <= k1 < k2 < |idx| ==> !RowsEqualOn(ResetIndex(Select(t, idx)), keys, k1, k2)
    ensures forall k :: 0 <= k < |idx| ==> !RowAllMissing(ResetIndex(Select(t, idx)), k)
  {
    var u := ResetIndex(Select(t, idx));
    forall k1, k2 | 0 <= k1 < k2 < |idx| ensures !RowsEqualOn(u, keys, k1, k2) {
      assert IsFirstOccurrence(t, keys, idx[k2]);
      assert !RowsEqualOn(t, keys, idx[k1], idx[k2]);
    }
    forall k | 0 <= k < |idx| ensures !RowAllMissing(u, k) {
      assert Kept(t, keys, idx[k]);
    }
  }

  /**
   * `u` holds the kept rows of `t`, in their original order (`idx` gives the
   * original position of each row of `u`), relabelled 0 .. k - 1; no two of
   * them agree on the keys and none is entirely missing.
   */
  ghost predicate DeduplicatedFrom(t: Table, keys: seq<Name>, u: Table, idx: seq<nat>)
    requires WellFormed(t)
    requires forall k :: 0 <= k < |keys| ==> keys[k] in t.data
  {
    && WellFormed(u) && u.columns == t.columns
    && u.index == Dense(|u.index|)
    && StrictlyIncreasing(idx) && |idx| == |u.index|
    && (forall k :: 0 <= k < |idx| ==> idx[k] < |t.index| && Kept(t, keys, idx[k]))
    && (forall i: nat :: i < |t.index| && Kept(t, keys, i) ==> i in idx)
    && (forall c, k :: c in u.data && 0 <= k < |idx| ==> u.data[c][k] == t.data[c][idx[k]])
    && (forall k1, k2 :: 0 <= k1 < k2 < |u.index| ==> !RowsEqualOn(u, keys, k1, k2))
    && (forall k :: 0 <= k < |u.index| ==> !RowAllMissing(u, k))
  }

  /**
   * The output keeps exactly the rows that are the first of their group on
   * the keys and not entirely missing, in their original order (`idx` gives
   * the original position of each output row), relabelled 0 .. k - 1; so no
   * two output rows agree on the keys and none is entirely missing. The
   * result is an error exactly when the table is not empty and a key is not a
   * column; an empty table gives an empty table with the same columns.
   */
  lemma DropDuplicatesAndTrimSpec(t: Table, subset: Option<seq<Name>>) returns (idx: seq<nat>)
    requires WellFormed(t)
    ensures DropDuplicatesAndTrim(t, subset).Err? <==>
      !IsEmpty(t) && exists k :: 0 <= k < |DedupKeys(t, subset)| && DedupKeys(t, subset)[k] !in t.columns
    ensures IsEmpty(t) ==> DropDuplicatesAndTrim(t, subset) == Ok(Table(t.columns, map c | c in t.data :: [], []))
    ensures DropDuplicatesAndTrim(t, subset).Ok? && (forall k :: 0 <= k < |DedupKeys(t, subset)| ==> DedupKeys(t, subset)[k] in t.data) ==>
      DeduplicatedFrom(t, DedupKeys(t, subset), DropDuplicatesAndTrim(t, subset).value, idx)
  {
    var keys := DedupKeys(t, subset);
    KeysPresent(t, keys);
    if IsEmpty(t) {
      idx := [];
      EmptyTrim(t);
      if forall k :: 0 <= k < |keys| ==> keys[k] in t.data {
        EmptyDeduplicated(t, keys);
      }
    } else if Absent(keys, t.columns) != [] {
      idx := [];
    } else {
      assert DropDuplicatesAndTrim(t, subset) == Ok(Trim(DropDuplicates(t, keys)));
      idx := Deduplicated(t, keys);
    }
  }

  /** Trimming an empty table leaves its columns and no row. */
  lemma EmptyTrim(t: Table)
    requires WellFormed(t) && IsEmpty(t)
    ensures Trim(t) == Table(t.columns, map c | c in t.data :: [], [])
  {
    forall i: nat | i < |t.index| ensures RowAllMissing(t, i) {
    }
    WhereNone(|t.index|, (i: nat) => i < |t.index| && !RowAllMissing(t, i));
    var u := Trim(t);
    assert u.data.Keys == t.data.Keys;
    forall c | c in u.data ensures u.data[c] == [] {
    }
  }

  /** An empty table without rows is already deduplicated on present keys. */
  lemma EmptyDeduplicated(t: Table, keys: seq<Name>)
    requires WellFormed(t) && IsEmpty(t) && forall k :: 0 <= k < |keys| ==> keys[k] in t.data
    ensures DeduplicatedFrom(t, keys, Table(t.columns, map c | c in t.data :: [], []), [])
  {
    forall i: nat | i < |t.index| ensures !Kept(t, keys, i) {
      assert RowAllMissing(t, i);
    }
  }

  lemma Deduplicated(t: Table, keys: seq<Name>) returns (idx: seq<nat>)
    requires WellFormed(t) && forall k :: 0 <= k < |keys| ==> keys[k] in t.data
    ensures DeduplicatedFrom(t, keys, Trim(DropDuplicates(t, keys)), idx)
  {
    idx := TrimRows(t, keys);
    KeptRowsDistinct(t, keys, idx);
  }

  /** Applying `dropduplicatesandtrim` to its own output changes nothing. */
  lemma DropDuplicatesAndTrimIdempotent(t: Table, subset: Option<seq<Name>>)
    requires WellFormed(t)
    requires DropDuplicatesAndTrim(t, subset).Ok?
    ensures DropDuplicatesAndTrim(DropDuplicatesAndTrim(t, subset).value, subset) == DropDuplicatesAndTrim(t, subset)
  {
    var idx := DropDuplicatesAndTrimSpec(t, subset);
    var u := DropDuplicatesAndTrim(t, subset).value;
    var keys := DedupKeys(t, subset);
    if IsEmpty(t) {
      TrimFixpoint(u);
    } else {
      KeysPresent(t, keys);
      assert DedupKeys(u, subset) == keys;
      assert forall k :: 0 <= k < |keys| ==> keys[k] in u.data;
      if IsEmpty(u) {
        TrimFixpoint(u);
      } else {
        KeysPresent(u, keys);
        DeduplicatedFixpoint(u, keys);
      }
    }
  }

  /** A densely labelled table without all-missing rows is left as it is by trimming. */
  lemma TrimFixpoint(u: Table)
    requires WellFormed(u) && u.index == Dense(|u.index|)
    requires forall k :: 0 <= k < |u.index| ==> !RowAllMissing(u, k)
    ensures Trim(u) == u
  {
    WhereAll(|u.index|, (i: nat) => i < |u.index| && !RowAllMissing(u, i));
    SelectAll(u);
    assert DropAllMissing(u) == u;
  }

  /** A densely labelled table without duplicate or all-missing rows is left as it is. */
  lemma DeduplicatedFixpoint(u: Table, keys: seq<Name>)
    requires WellFormed(u) && forall k :: 0 <= k < |keys| ==> keys[k] in u.data
    requires u.index == Dense(|u.index|)
    requires forall k1, k2 :: 0 <= k1 < k2 < |u.index| ==> !RowsEqualOn(u, keys, k1, k2)
    requires forall k :: 0 <= k < |u.index| ==> !RowAllMissing(u, k)
    ensures Trim(DropDuplicates(u, keys)) == u
  {
    WhereAll(|u.index|, (i: nat) => i < |u.index| && IsFirstOccurrence(u, keys, i));
    SelectAll(u);
    assert DropDuplicates(u, keys) == u;
    TrimFixpoint(u);
  }

  // ---------------------------------------------------------------------------
  // handlemissing
  // ---------------------------------------------------------------------------

  /** `fillna(v)`: every missing cell becomes v. */
  function FillConst(col: Column, v: Cell): (r: Column)
    ensures |r| == |col|
  {
    seq(|col|, i requires 0 <= i < |col| => if col[i] == Missing then v else col[i])
  }

  /** `ffill()`: a missing cell takes the value just above it once that one is filled. */
  function FFill(col: Column): (r: Column)
    ensures |r| == |col|
  {
    if col == [] then []
    else
      var above := FFill(col[..|col| - 1]);
      var last := col[|col| - 1];
      above + [if last != Missing || |above| == 0 then last else above[|above| - 1]]
  }

  /** The position of the nearest present cell at or above row i, if any. */
  function LastPresent(col: Column, i: nat): (r: Option<nat>)
    requires i < |col|
    ensures r.Some? ==> r.value <= i && col[r.value] != Missing
    ensures r.Some? ==> forall m :: r.value < m <= i ==> col[m] == Missing
    ensures r.None? ==> forall m :: 0 <= m <= i ==> col[m] == Missing
  {
    if col[i] != Missing then Some(i) else if i == 0 then None else LastPresent(col, i - 1)
  }

  /** Forward filling gives each cell the nearest present value at or above it; leading gaps stay missing. */
  lemma {:induction false} FFillSpec(col: Column, i: nat)
    requires i < |col|
    ensures FFill(col)[i] == match LastPresent(col, i) case Some(j) => col[j] case None => Missing
    decreases |col|
  {
    var init := col[..|col| - 1];
    var above := FFill(init);
    if i < |col| - 1 {
      FFillSpec(init, i);
      LastPresentPrefix(col, init, i);
    } else if col[i] == Missing && i > 0 {
      FFillSpec(init, i - 1);
      LastPresentPrefix(col, init, i - 1);
    }
  }

  lemma {:induction false} LastPresentPrefix(col: Column, init: Column, i: nat)
    requires i < |init| <= |col| && init == col[..|init|]
    ensures LastPresent(init, i) == LastPresent(col, i)
  {
    if col[i] == Missing && i > 0 {
      LastPresentPrefix(col, init, i - 1);
    }
  }

  /**
   * The median and the mean of a numeric column (not modelled further): a
   * number, or none (NaN) when the column holds no number.
   */
  datatype Stats = Stats(median: Column -> Option<real>, mean: Column -> Option<real>)

  /** A statistic as the cell `fillna` receives: NaN when there is none. */
  function StatCell(v: Option<real>): (c: Cell)
    ensures c.Missing? || c.Num?
  {
    match v
    case Some(x) => Num(x)
    case None => Missing
  }

  /** The strategies that compute a statistic of the column, which raises a TypeError on text. */
  predicate NeedsNumbers(strategy: string) {
    strategy == "median" || strategy == "mean"
  }

  predicate KnownStrategy(strategy: string) {
    strategy == "median" || strategy == "mean" || strategy == "zero" || strategy == "ffill"
  }

  /** The new contents of one targeted column. */
  function FillColumn(strategy: string, col: Column, stats: Stats): (r: Column)
    ensures |r| == |col|
  {
    if strategy == "median" then FillConst(col, StatCell(stats.median(col)))
    else if strategy == "mean" then FillConst(col, StatCell(stats.mean(col)))
    else if strategy == "zero" then FillConst(col, Num(0.0))
    else if strategy == "ffill" then FFill(col)
    else col
  }

  /** Only numbers and missing values: the numeric dtype. */
  predicate IsNumeric(col: Column) {
    forall i :: 0 <= i < |col| ==> col[i].Missing? || col[i].Num?
  }

  /** The targeted columns: the given list, or the numeric columns in column order. */
  function Targets(t: Table, cols: Option<seq<Name>>): seq<Name> {
    if cols.Some? then cols.value else Filter(t.columns, c => c in t.data && IsNumeric(t.data[c]))
  }

  /** A targeted column the loop can fill: present, and numeric when the strategy takes a statistic. */
  predicate Fillable(t: Table, strategy: string, c: Name) {
    c in t.data && (NeedsNumbers(strategy) ==> IsNumeric(t.data[c]))
  }

  /** The table after the loop, and whether it ran to the end rather than stopping with a KeyError or a TypeError. */
  datatype Filled = Filled(table: Table, ok: bool)

  function FillStep(t: Table, strategy: string, c: Name, stats: Stats): (r: Filled)
    requires WellFormed(t)
    ensures WellFormed(r.table) && r.table.columns == t.columns && r.table.index == t.index
    ensures r.table.data.Keys == t.data.Keys
  {
    if !KnownStrategy(strategy) then Filled(t, true)
    else if !Fillable(t, strategy, c) then Filled(t, false)
    else Filled(SetColumn(t, c, FillColumn(strategy, t.data[c], stats)), true)
  }

  /** The column loop of `handlemissing`: stops at the first targeted column that is absent, or not numeric for median / mean. */
  function FillAll(t: Table, strategy: string, targets: seq<Name>, stats: Stats): (r: Filled)
    requires WellFormed(t)
    ensures WellFormed(r.table) && r.table.columns == t.columns && r.table.index == t.index
    ensures r.table.data.Keys == t.data.Keys
  {
    if targets == [] then Filled(t, true)
    else
      var prev := FillAll(t, strategy, targets[..|targets| - 1], stats);
      if !prev.ok then prev else FillStep(prev.table, strategy, targets[|targets| - 1], stats)
  }

  /** Once the loop has stopped, the later targets change nothing. */
  lemma {:induction false} FillAllStops(t: Table, strategy: string, targets: seq<Name>, k: nat, stats: Stats)
    requires WellFormed(t) && k <= |targets|
    requires !FillAll(t, strategy, targets[..k], stats).ok
    ensures FillAll(t, strategy, targets, stats) == FillAll(t, strategy, targets[..k], stats)
    decreases |targets|
  {
    if k < |targets| {
      var init := targets[..|targets| - 1];
      assert init[..k] == targets[..k];
      FillAllStops(t, strategy, init, k, stats);
    } else {
      assert targets[..k] == targets;
    }
  }

  /** One more target: one more step, unless the loop has already stopped. */
  lemma FillAllSnoc(t: Table, strategy: string, targets: seq<Name>, k: nat, stats: Stats)
    requires WellFormed(t) && k < |targets|
    requires FillAll(t, strategy, targets[..k], stats).ok
    ensures FillAll(t, strategy, targets[..k + 1], stats)
      == FillStep(FillAll(t, strategy, targets[..k], stats).table, strategy, targets[k], stats)
  {
    assert targets[..k + 1][..k] == targets[..k];
  }

  /**
   * `handlemissing`: fills the targeted columns of `df` in place; false when
   * it stopped with a KeyError at an absent column, or with a TypeError
   * computing the median or mean of a column holding text.
   */
  method HandleMissing(df: Frame, strategy: string, cols: Option<seq<Name>>, stats: Stats) returns (ok: bool)
    requires df.Valid()
    modifies df
    ensures df.Valid()
    ensures Filled(df.View(), ok) == FillAll(old(df.View()), strategy, Targets(old(df.View()), cols), stats)
  {
    var targets := Targets(df.View(), cols);
    ghost var t0 := df.View();
    ok := true;
    for k := 0 to |targets|
      invariant df.Valid()
      invariant FillAll(t0, strategy, targets[..k], stats) == Filled(df.View(), true)
    {
      FillAllSnoc(t0, strategy, targets, k, stats);
      ok := FillTarget(df, strategy, targets[k], stats);
      if !ok {
        FillAllStops(t0, strategy, targets, k + 1, stats);
        return;
      }
    }
    assert targets[..|targets|] == targets;
  }

  /** One pass of the loop of `handlemissing`, on column `col`; false when it raises. */
  method FillTarget(df: Frame, strategy: string, col: Name, stats: Stats) returns (ok: bool)
    requires df.Valid()
    modifies df
    ensures df.Valid()
    ensures Filled(df.View(), ok) == FillStep(old(df.View()), strategy, col, stats)
  {
    ok := true;
    if KnownStrategy(strategy) {
      if col !in df.data {
        return false;
      }
      if (strategy == "median" || strategy == "mean") && !IsNumeric(df.data[col]) {
        return false;
      }
      var filled: Column;
      if strategy == "median" {
        filled := FillConst(df.data[col], StatCell(stats.median(df.data[col])));
      } else if strategy == "mean" {
        filled := FillConst(df.data[col], StatCell(stats.mean(df.data[col])));
      } else if strategy == "zero" {
        filled := FillConst(df.data[col], Num(0.0));
      } else {
        filled := FFill(df.data[col]);
      }
      df.Assign(col, filled);
    }
  }

  /** Forward filling twice is forward filling once. */
  lemma FFillIdempotent(col: Column)
    ensures FFill(FFill(col)) == FFill(col)
  {
    var f := FFill(col);
    forall i | 0 <= i < |col| ensures FFill(f)[i] == f[i] {
      FFillSpec(col, i);
      FFillSpec(f, i);
      if f[i] == Missing {
        assert LastPresent(col, i).None?;
        assert LastPresent(f, i).None? by {
          forall m | 0 <= m <= i ensures f[m] == Missing {
            FFillSpec(col, m);
            assert LastPresent(col, m).None?;
          }
        }
      }
    }
  }

  /** Filling a column a second time with the same strategy changes nothing. */
  lemma FillColumnIdempotent(strategy: string, col: Column, stats: Stats)
    ensures FillColumn(strategy, FillColumn(strategy, col, stats), stats) == FillColumn(strategy, col, stats)
  {
    if strategy == "ffill" {
      FFillIdempotent(col);
    } else if strategy == "median" || strategy == "mean" {
      var v := StatCell(if strategy == "median" then stats.median(col) else stats.mean(col));
      if v == Missing {
        assert FillConst(col, v) == col;
      }
    }
  }

  /** The loop changes no column it does not target. */
  lemma {:induction false} FillAllFrame(t: Table, strategy: string, targets: seq<Name>, stats: Stats)
    requires WellFormed(t)
    ensures forall c :: c in t.data && c !in targets ==> FillAll(t, strategy, targets, stats).table.data[c] == t.data[c]
  {
    if targets != [] {
      var init := targets[..|targets| - 1];
      FillAllFrame(t, strategy, init, stats);
      assert forall c :: c in init ==> c in targets;
    }
  }

  /**
   * The loop runs to the end exactly when the strategy is unknown or every
   * target is a column that, for median and mean, holds no text.
   */
  lemma {:induction false} FillAllOk(t: Table, strategy: string, targets: seq<Name>, stats: Stats)
    requires WellFormed(t)
    ensures FillAll(t, strategy, targets, stats).ok <==>
      !KnownStrategy(strategy) || forall k :: 0 <= k < |targets| ==> Fillable(t, strategy, targets[k])
  {
    if targets != [] {
      var init, last := targets[..|targets| - 1], targets[|targets| - 1];
      FillAllOk(t, strategy, init, stats);
      var prev := FillAll(t, strategy, init, stats);
      assert FillAll(t, strategy, targets, stats).ok == (prev.ok && (!KnownStrategy(strategy) || Fillable(prev.table, strategy, last)));
      assert forall k :: 0 <= k < |init| ==> init[k] == targets[k];
      assert (forall k :: 0 <= k < |targets| ==> Fillable(t, strategy, targets[k])) <==>
        (forall k :: 0 <= k < |init| ==> Fillable(t, strategy, init[k])) && Fillable(t, strategy, last);
      if prev.ok && KnownStrategy(strategy) {
        FillAllFrame(t, strategy, init, stats);
        if last in init && last in t.data {
          FillAllTargets(t, strategy, init, stats);
          FillKeepsNumeric(strategy, t.data[last], stats);
        }
      }
    }
  }

  /** Filling never turns a numeric column into one holding text. */
  lemma FillKeepsNumeric(strategy: string, col: Column, stats: Stats)
    ensures IsNumeric(FillColumn(strategy, col, stats)) <==> IsNumeric(col)
  {
    var f := FillColumn(strategy, col, stats);
    FillColumnSpec(strategy, col, stats);
    if strategy == "ffill" && IsNumeric(col) {
      forall i | 0 <= i < |col| ensures f[i].Missing? || f[i].Num? {
        match LastPresent(col, i) {
          case Some(j) => assert f[i] == col[j];
          case None =>
        }
      }
    }
  }

  /** An unknown strategy leaves the table as it was. */
  lemma {:induction false} FillAllUnknown(t: Table, strategy: string, targets: seq<Name>, stats: Stats)
    requires WellFormed(t) && !KnownStrategy(strategy)
    ensures FillAll(t, strategy, targets, stats) == Filled(t, true)
  {
    if targets != [] {
      FillAllUnknown(t, strategy, targets[..|targets| - 1], stats);
    }
  }

  /**
   * When the loop runs to the end, every targeted column holds the strategy's
   * fill of its original contents, however often it is listed.
   */
  lemma {:induction false} FillAllTargets(t: Table, strategy: string, targets: seq<Name>, stats: Stats)
    requires WellFormed(t)
    requires FillAll(t, strategy, targets, stats).ok
    ensures forall c :: c in targets && c in t.data ==>
      FillAll(t, strategy, targets, stats).table.data[c] == FillColumn(strategy, t.data[c], stats)
  {
    if targets != [] {
      var init, last := targets[..|targets| - 1], targets[|targets| - 1];
      var prev := FillAll(t, strategy, init, stats);
      assert prev.ok;
      if !KnownStrategy(strategy) {
        FillAllUnknown(t, strategy, targets, stats);
        forall c | c in t.data ensures FillColumn(strategy, t.data[c], stats) == t.data[c] {
          FillColumnSpec(strategy, t.data[c], stats);
        }
      } else {
        FillAllTargets(t, strategy, init, stats);
        FillAllFrame(t, strategy, init, stats);
        assert last in prev.table.data;
        assert FillAll(t, strategy, targets, stats).table ==
          SetColumn(prev.table, last, FillColumn(strategy, prev.table.data[last], stats));
        FillTargetsStep(t, prev.table, strategy, targets, stats);
      }
    }
  }

  /** The inductive step of `FillAllTargets`, over any table the first targets were filled in. */
  lemma FillTargetsStep(t: Table, prev: Table, strategy: string, targets: seq<Name>, stats: Stats)
    requires WellFormed(t) && WellFormed(prev) && prev.index == t.index && prev.data.Keys == t.data.Keys
    requires KnownStrategy(strategy) && targets != [] && targets[|targets| - 1] in t.data
    requires forall c :: c in targets[..|targets| - 1] && c in t.data ==> prev.data[c] == FillColumn(strategy, t.data[c], stats)
    requires forall c :: c in t.data && c !in targets[..|targets| - 1] ==> prev.data[c] == t.data[c]
    ensures var last := targets[|targets| - 1];
      var r := SetColumn(prev, last, FillColumn(strategy, prev.data[last], stats));
      forall c :: c in targets && c in t.data ==> r.data[c] == FillColumn(strategy, t.data[c], stats)
  {
    var init, last := targets[..|targets| - 1], targets[|targets| - 1];
    assert targets == init + [last];
    assert forall c :: c in targets ==> c in init || c == last;
    if last in init {
      FillColumnIdempotent(strategy, t.data[last], stats);
    }
  }

  /**
   * What `handlemissing` leaves in a targeted column: "zero" fills every gap
   * with 0, "ffill" the nearest present value above (none above: still
   * missing), "median" and "mean" one constant derived from the column;
   * present cells are never changed, and an unknown strategy changes nothing.
   */
  lemma FillColumnSpec(strategy: string, col: Column, stats: Stats)
    ensures forall i :: 0 <= i < |col| && col[i] != Missing ==> FillColumn(strategy, col, stats)[i] == col[i]
    ensures strategy == "zero" ==> forall i :: 0 <= i < |col| && col[i] == Missing ==> FillColumn(strategy, col, stats)[i] == Num(0.0)
    ensures strategy == "ffill" ==> forall i :: 0 <= i < |col| ==>
      FillColumn(strategy, col, stats)[i] == match LastPresent(col, i) case Some(j) => col[j] case None => Missing
    ensures strategy == "median" ==> forall i :: 0 <= i < |col| && col[i] == Missing ==>
      FillColumn(strategy, col, stats)[i] == StatCell(stats.median(col))
    ensures strategy == "mean" ==> forall i :: 0 <= i < |col| && col[i] == Missing ==>
      FillColumn(strategy, col, stats)[i] == StatCell(stats.mean(col))
    ensures !KnownStrategy(strategy) ==> FillColumn(strategy, col, stats) == col
  {
    if strategy == "ffill" {
      forall i | 0 <= i < |col|
        ensures FFill(col)[i] == match LastPresent(col, i) case Some(j) => col[j] case None => Missing
      {
        FFillSpec(col, i);
      }
    }
  }

  /** Without a column list only numeric columns are targeted, so the loop always runs to the end. */
  lemma NumericTargets(t: Table, strategy: string, stats: Stats)
    requires WellFormed(t)
    ensures forall c :: c in Targets(t, None) <==> c in t.columns && IsNumeric(t.data[c])
    ensures FillAll(t, strategy, Targets(t, None), stats).ok
  {
    FillAllOk(t, strategy, Targets(t, None), stats);
  }
}

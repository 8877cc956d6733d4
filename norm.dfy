/**
 * Normalisation of a processed current table against its training split:
 * which columns are scaled, the copies of originals kept beside them, and
 * where the scaler's parameters come from.
 */
module Norm {
  import opened Common
  import opened Config
  import opened Tables

  /** `[c for c in wanted if c in t.columns]` */
  function Available(wanted: seq<Name>, t: Table): (r: seq<Name>)
    ensures forall k :: 0 <= k < |r| ==> r[k] in t.data
  {
    Filter(wanted, c => c in t.data)
  }

  /** The columns wanted and present, in the order wanted, each once when wanted once. */
  lemma AvailableSpec(wanted: seq<Name>, t: Table)
    ensures IsSubsequence(Available(wanted, t), wanted)
    ensures forall c :: c in Available(wanted, t) <==> c in wanted && c in t.data
    ensures Distinct(wanted) ==> Distinct(Available(wanted, t))
  {
    FilterIsSubsequence(wanted, c => c in t.data);
    if Distinct(wanted) {
      FilterDistinct(wanted, c => c in t.data);
    }
  }

  /** The name `f"{col}Orig"` of the copy kept of an original column. */
  function OrigName(c: Name): Name {
    c + "Orig"
  }

  lemma OrigNameInjective(a: Name, b: Name)
    ensures OrigName(a) == OrigName(b) ==> a == b
  {
    if OrigName(a) == OrigName(b) {
      AppendCancel(a, b, "Orig");
    }
  }

  /** How many originals are copied at most. */
  const ORIG_COPIES: nat := 3

  /** `cols[:3]` */
  function FirstFew(cols: seq<Name>): (r: seq<Name>)
    ensures |r| == if |cols| < ORIG_COPIES then |cols| else ORIG_COPIES
    ensures r == cols[..|r|]
  {
    if |cols| < ORIG_COPIES then cols else cols[..ORIG_COPIES]
  }

  /** One iteration of the copy loop: `df[f"{c}Orig"] = df[c]`. */
  function CopyStep(t: Table, c: Name): (r: Table)
    requires WellFormed(t) && c in t.data
    ensures WellFormed(r) && r.index == t.index
  {
    SetColumn(t, OrigName(c), t.data[c])
  }

  /** The copy loop over `cols`, in order. */
  function CopyOriginals(t: Table, cols: seq<Name>): (r: Table)
    requires WellFormed(t) && forall k :: 0 <= k < |cols| ==> cols[k] in t.data
    ensures WellFormed(r) && r.index == t.index && t.data.Keys <= r.data.Keys
  {
    if cols == [] then t
    else CopyStep(CopyOriginals(t, cols[..|cols| - 1]), cols[|cols| - 1])
  }

  /** The copy loop as the source runs it, on a DataFrame changed in place. */
  method CopyOriginalsInPlace(df: Frame, cols: seq<Name>)
    requires df.Valid() && forall k :: 0 <= k < |cols| ==> cols[k] in df.data
    modifies df
    ensures df.Valid() && df.View() == CopyOriginals(old(df.View()), cols)
  {
    ghost var t0 := df.View();
    for k := 0 to |cols|
      invariant df.Valid() && df.View() == CopyOriginals(t0, cols[..k])
    {
      assert cols[..k + 1][..k] == cols[..k];
      var col := cols[k];
      df.Assign(OrigName(col), df.data[col]);
    }
    assert cols[..|cols|] == cols;
  }

  /** No column to copy is itself the copy of one. */
  predicate NoOrigClash(cols: seq<Name>) {
    forall i, j :: 0 <= i < |cols| && 0 <= j < |cols| ==> OrigName(cols[i]) != cols[j]
  }

  /** The copies made of `cols`. */
  function OrigNames(cols: seq<Name>): (r: set<Name>)
    ensures forall k :: 0 <= k < |cols| ==> OrigName(cols[k]) in r
  {
    if cols == [] then {}
    else
      var init := cols[..|cols| - 1];
      assert forall k :: 0 <= k < |init| ==> init[k] == cols[k];
      OrigNames(init) + {OrigName(cols[|cols| - 1])}
  }

  lemma {:induction false} OrigNamesOnly(cols: seq<Name>, name: Name)
    requires name in OrigNames(cols)
    ensures exists k :: 0 <= k < |cols| && name == OrigName(cols[k])
  {
    var init := cols[..|cols| - 1];
    if name != OrigName(cols[|cols| - 1]) {
      OrigNamesOnly(init, name);
      var k :| 0 <= k < |init| && name == OrigName(init[k]);
      assert init[k] == cols[k];
    }
  }

  /** One copy adds the copy's column, holding c's cells, and changes no other column. */
  lemma CopyStepFrame(t: Table, c: Name)
    requires WellFormed(t) && c in t.data
    ensures CopyStep(t, c).data.Keys == t.data.Keys + {OrigName(c)}
    ensures CopyStep(t, c).data[OrigName(c)] == t.data[c]
    ensures forall d :: d in t.data && d != OrigName(c) ==> CopyStep(t, c).data[d] == t.data[d]
  {
  }

  /** Copying adds exactly the copies of `cols`. */
  lemma {:induction false} CopyOriginalsKeys(t: Table, cols: seq<Name>)
    requires WellFormed(t) && forall k :: 0 <= k < |cols| ==> cols[k] in t.data
    ensures CopyOriginals(t, cols).data.Keys == t.data.Keys + OrigNames(cols)
  {
    if cols != [] {
      var init, last := cols[..|cols| - 1], cols[|cols| - 1];
      assert forall k :: 0 <= k < |init| ==> init[k] == cols[k];
      CopyOriginalsKeys(t, init);
      CopyStepFrame(CopyOriginals(t, init), last);
    }
  }

  /** Copying changes no column that is not a copy of one of `cols`. */
  lemma {:induction false} CopyOriginalsUnchanged(t: Table, cols: seq<Name>)
    requires WellFormed(t) && forall k :: 0 <= k < |cols| ==> cols[k] in t.data
    ensures forall c :: c in t.data && c !in OrigNames(cols) ==> CopyOriginals(t, cols).data[c] == t.data[c]
  {
    if cols != [] {
      var init, last := cols[..|cols| - 1], cols[|cols| - 1];
      assert forall k :: 0 <= k < |init| ==> init[k] == cols[k];
      CopyOriginalsUnchanged(t, init);
      CopyStepFrame(CopyOriginals(t, init), last);
    }
  }

  /**
   * Without clashes, the copy of each column of `cols` holds that column's
   * cells as they were before the loop.
   */
  lemma {:induction false} CopyOriginalsValues(t: Table, cols: seq<Name>)
    requires WellFormed(t) && (forall k :: 0 <= k < |cols| ==> cols[k] in t.data) && NoOrigClash(cols)
    ensures forall k :: 0 <= k < |cols| ==>
      OrigName(cols[k]) in CopyOriginals(t, cols).data && CopyOriginals(t, cols).data[OrigName(cols[k])] == t.data[cols[k]]
  {
    if cols != [] {
      var init, last := cols[..|cols| - 1], cols[|cols| - 1];
      assert forall k :: 0 <= k < |init| ==> init[k] == cols[k] && init[k] in t.data;
      NoOrigClashPrefix(cols);
      CopyOriginalsValues(t, init);
      var prev := CopyOriginals(t, init);
      assert CopyOriginals(t, cols) == CopyStep(prev, last);
      CopySourceIntact(t, cols);
      CopyStepValues(t, prev, cols);
    }
  }

  /** The inductive step of `CopyOriginalsValues`, for any table the earlier copies led to. */
  lemma NoOrigClashPrefix(cols: seq<Name>)
    requires NoOrigClash(cols) && cols != []
    ensures NoOrigClash(cols[..|cols| - 1])
  {
    var init := cols[..|cols| - 1];
    assert forall k :: 0 <= k < |init| ==> init[k] == cols[k];
  }

  /** The copies of the first columns leave the last column as it was. */
  lemma CopySourceIntact(t: Table, cols: seq<Name>)
    requires WellFormed(t) && (forall k :: 0 <= k < |cols| ==> cols[k] in t.data) && NoOrigClash(cols) && cols != []
    ensures var init, last := cols[..|cols| - 1], cols[|cols| - 1];
      last in CopyOriginals(t, init).data && CopyOriginals(t, init).data[last] == t.data[last]
  {
    var init, last := cols[..|cols| - 1], cols[|cols| - 1];
    assert forall k :: 0 <= k < |init| ==> init[k] == cols[k];
    if last in OrigNames(init) {
      OrigNamesOnly(init, last);
      assert false;
    }
    CopyOriginalsUnchanged(t, init);
  }

  lemma CopyStepValues(t: Table, prev: Table, cols: seq<Name>)
    requires cols != [] && WellFormed(prev)
    requires cols[|cols| - 1] in prev.data && cols[|cols| - 1] in t.data && prev.data[cols[|cols| - 1]] == t.data[cols[|cols| - 1]]
    requires forall k :: 0 <= k < |cols| - 1 ==> cols[k] in t.data
    requires forall k :: 0 <= k < |cols| - 1 ==> OrigName(cols[k]) in prev.data && prev.data[OrigName(cols[k])] == t.data[cols[k]]
    ensures var r := CopyStep(prev, cols[|cols| - 1]);
      forall k :: 0 <= k < |cols| ==> OrigName(cols[k]) in r.data && r.data[OrigName(cols[k])] == t.data[cols[k]]
  {
    var last, r := cols[|cols| - 1], CopyStep(prev, cols[|cols| - 1]);
    CopyStepFrame(prev, last);
    forall k | 0 <= k < |cols| ensures OrigName(cols[k]) in r.data && r.data[OrigName(cols[k])] == t.data[cols[k]] {
      if k < |cols| - 1 {
        OrigNameInjective(cols[k], last);
      }
    }
  }

  /** What normalising one current table against its training split gives. */
  datatype NormOutcome = NoTrainColumns | NoCurrentColumns | FeatureMismatch | Normalized(table: Table)

  /** Every column of `cols` scaled cell by cell with the fitted parameters. */
  function ScaleColumns<P>(params: P, scale: (P, Name, Cell) -> Cell, t: Table, cols: seq<Name>): (r: map<Name, Column>)
    requires forall k :: 0 <= k < |cols| ==> cols[k] in t.data
    ensures forall c :: c in r <==> c in cols
    ensures forall c :: c in r ==> |r[c]| == |t.data[c]|
    ensures forall c, i :: c in r && 0 <= i < |t.data[c]| ==> r[c][i] == scale(params, c, t.data[c][i])
  {
    map c | c in cols :: MapCells(t.data[c], x => scale(params, c, x))
  }

  /** The length of a name and its eighth character: enough to tell the normalisable columns apart. */
  function Signature(c: Name): (int, char) {
    (|c|, if |c| > 7 then c[7] else ' ')
  }

  /** The normalisable columns are distinct, and none ends like a copy (in "Orig"). */
  lemma NormalizeColsFacts()
    ensures Distinct(NORMALIZE_COLS) && NoOrigClash(NORMALIZE_COLS)
  {
    NormalizeColsDistinct();
    NormalizeColsNoClash();
  }

  lemma NormalizeColsNoClash()
    ensures NoOrigClash(NORMALIZE_COLS)
  {
    var s := NORMALIZE_COLS;
    assert |s| == 8;
    assert s[0] == "FeatureA" && s[2] == "FeatureB" && s[4] == "FeatureC" && s[6] == "SignalX";
    assert s[1] == "FeatureA" + "Lag1" && s[3] == "FeatureB" + "Lag1" && s[5] == "FeatureC" + "Lag1" && s[7] == "SignalX" + "Lag1";
    forall j | 0 <= j < |s| ensures s[j][|s[j]| - 1] != 'g' {
    }
    forall i, j | 0 <= i < |s| && 0 <= j < |s| ensures OrigName(s[i]) != s[j] {
      var o := OrigName(s[i]);
      assert o[|o| - 1] == 'g';
    }
  }

  lemma NormalizeColsDistinct()
    ensures Distinct(NORMALIZE_COLS)
  {
    var s := NORMALIZE_COLS;
    assert |s| == 8;
    assert Signature(s[0]) == (8, 'A') && Signature(s[1]) == (12, 'A') && Signature(s[2]) == (8, 'B') && Signature(s[3]) == (12, 'B');
    assert Signature(s[4]) == (8, 'C') && Signature(s[5]) == (12, 'C') && Signature(s[6]) == (7, ' ') && Signature(s[7]) == (11, 'L');
    forall i, j | 0 <= i < j < |s| ensures s[i] != s[j] {
      assert Signature(s[i]) != Signature(s[j]);
    }
  }

  /**
   * Lines 32-50 of the normalisation run for one dataset: `fit` learns the
   * scaler's parameters from the training projection, `scale` maps one cell
   * of a named column with them.
   */
  function Normalize<P>(train: Table, current: Table, fit: Table -> P, scale: (P, Name, Cell) -> Cell): NormOutcome
    requires WellFormed(train) && WellFormed(current)
  {
    var trainCols := Available(NORMALIZE_COLS, train);
    if trainCols == [] then NoTrainColumns
    else
      NormalizeColsFacts();
      AvailableSpec(NORMALIZE_COLS, train);
      NormalizeFitted(current, trainCols, fit(Project(train, trainCols)), scale)
  }

  /** Lines 39-50, once the scaler is fitted on the training columns `trainCols`. */
  function NormalizeFitted<P>(current: Table, trainCols: seq<Name>, params: P, scale: (P, Name, Cell) -> Cell): NormOutcome
    requires WellFormed(current)
  {
    var currentCols := Available(trainCols, current);
    if currentCols == [] then NoCurrentColumns
    else
      var withOrig := CopyOriginals(current, FirstFew(currentCols));
      if currentCols != trainCols then FeatureMismatch
      else Normalized(SetColumns(withOrig, ScaleColumns(params, scale, withOrig, currentCols)))
  }

  /** The body of the per-dataset loop of `normalizecurrentagainsttrain`, once both tables are read. */
  method NormalizeCurrent<P>(train: Table, current: Table, fit: Table -> P, scale: (P, Name, Cell) -> Cell)
    returns (out: NormOutcome)
    requires WellFormed(train) && WellFormed(current)
    ensures out == Normalize(train, current, fit, scale)
  {
    var trainCols := Available(NORMALIZE_COLS, train);
    if trainCols == [] {
      return NoTrainColumns;
    }
    NormalizeColsFacts();
    AvailableSpec(NORMALIZE_COLS, train);
    var params := fit(Project(train, trainCols));
    out := NormalizeFittedCurrent(current, trainCols, params, scale);
  }

  /** Copies and scales the current table in place, once the scaler is fitted. */
  method NormalizeFittedCurrent<P>(current: Table, trainCols: seq<Name>, params: P, scale: (P, Name, Cell) -> Cell)
    returns (out: NormOutcome)
    requires WellFormed(current)
    ensures out == NormalizeFitted(current, trainCols, params, scale)
  {
    var currentCols := Available(trainCols, current);
    if currentCols == [] {
      return NoCurrentColumns;
    }
    var few := FirstFew(currentCols);
    assert forall k :: 0 <= k < |few| ==> few[k] in current.data;
    var df := new Frame(current);
    CopyOriginalsInPlace(df, few);
    if currentCols != trainCols {
      return FeatureMismatch;
    }
    df.AssignExisting(ScaleColumns(params, scale, df.View(), currentCols));
    out := Normalized(df.View());
  }

  /**
   * The four outcomes: no normalisable column in the training split; none of
   * them in the current table; only some of them (the scaler, fitted on all,
   * refuses a subset); or all of them, which normalises.
   */
  lemma NormalizeOutcomes<P>(train: Table, current: Table, fit: Table -> P, scale: (P, Name, Cell) -> Cell)
    requires WellFormed(train) && WellFormed(current)
    ensures var trainCols := Available(NORMALIZE_COLS, train);
      && (Normalize(train, current, fit, scale).NoTrainColumns? <==>
            forall k :: 0 <= k < |NORMALIZE_COLS| ==> NORMALIZE_COLS[k] !in train.data)
      && (Normalize(train, current, fit, scale).NoCurrentColumns? <==>
            trainCols != [] && forall k :: 0 <= k < |trainCols| ==> trainCols[k] !in current.data)
      && (Normalize(train, current, fit, scale).FeatureMismatch? <==>
            (exists k :: 0 <= k < |trainCols| && trainCols[k] in current.data) &&
            (exists k :: 0 <= k < |trainCols| && trainCols[k] !in current.data))
      && (Normalize(train, current, fit, scale).Normalized? <==>
            trainCols != [] && forall k :: 0 <= k < |trainCols| ==> trainCols[k] in current.data)
  {
    var trainCols := Available(NORMALIZE_COLS, train);
    AvailableSpec(NORMALIZE_COLS, train);
    if trainCols == [] {
      forall k | 0 <= k < |NORMALIZE_COLS| ensures NORMALIZE_COLS[k] !in train.data {
        assert NORMALIZE_COLS[k] !in trainCols;
      }
    } else {
      NormalizeColsFacts();
      assert trainCols[0] in NORMALIZE_COLS && trainCols[0] in train.data;
      FittedOutcomes(current, trainCols, fit(Project(train, trainCols)), scale);
    }
  }

  /** The outcomes once the scaler is fitted on the (non-empty) training columns. */
  lemma FittedOutcomes<P>(current: Table, trainCols: seq<Name>, params: P, scale: (P, Name, Cell) -> Cell)
    requires WellFormed(current) && trainCols != []
    ensures NormalizeFitted(current, trainCols, params, scale).NoCurrentColumns? <==>
      forall k :: 0 <= k < |trainCols| ==> trainCols[k] !in current.data
    ensures NormalizeFitted(current, trainCols, params, scale).FeatureMismatch? <==>
      (exists k :: 0 <= k < |trainCols| && trainCols[k] in current.data) &&
      (exists k :: 0 <= k < |trainCols| && trainCols[k] !in current.data)
    ensures NormalizeFitted(current, trainCols, params, scale).Normalized? <==>
      forall k :: 0 <= k < |trainCols| ==> trainCols[k] in current.data
  {
    AvailableSpec(trainCols, current);
    var currentCols := Available(trainCols, current);
    if currentCols != [] {
      assert currentCols[0] in trainCols;
    }
    if forall k :: 0 <= k < |trainCols| ==> trainCols[k] in current.data {
      WhereKeepsAll(trainCols, current);
    }
  }

  /** Filtering by presence keeps everything when everything is present. */
  lemma {:induction false} WhereKeepsAll(cols: seq<Name>, t: Table)
    requires forall k :: 0 <= k < |cols| ==> cols[k] in t.data
    ensures Available(cols, t) == cols
  {
    if cols != [] {
      var init := cols[..|cols| - 1];
      assert forall k :: 0 <= k < |init| ==> init[k] == cols[k];
      WhereKeepsAll(init, t);
      assert cols == init + [cols[|cols| - 1]];
    }
  }

  /**
   * A normalised table keeps the current rows; it adds exactly the copies of
   * the first three normalisable columns (fewer when there are fewer), each
   * holding its original's cells; every normalisable column holds its cells
   * scaled with parameters fitted on the training projection alone; every
   * other column is unchanged.
   */
  lemma NormalizedSpec<P>(train: Table, current: Table, fit: Table -> P, scale: (P, Name, Cell) -> Cell)
    requires WellFormed(train) && WellFormed(current)
    requires Normalize(train, current, fit, scale).Normalized?
    ensures var r := Normalize(train, current, fit, scale).table;
      var cols := Available(NORMALIZE_COLS, train);
      var few := FirstFew(cols);
      && Distinct(cols) && |few| == (if |cols| < 3 then |cols| else 3)
      && r.index == current.index
      && r.data.Keys == current.data.Keys + OrigNames(few)
      && (forall k :: 0 <= k < |few| ==> r.data[OrigName(few[k])] == current.data[few[k]])
      && (forall c :: c in current.data && c !in cols && c !in OrigNames(few) ==> r.data[c] == current.data[c])
      && (forall c :: c in cols ==> c in current.data && |r.data[c]| == |current.data[c]|)
      && (forall c, i :: c in cols && 0 <= i < |current.data[c]| ==>
            r.data[c][i] == scale(fit(Project(train, cols)), c, current.data[c][i]))
  {
    var cols := Available(NORMALIZE_COLS, train);
    NormalizeColsFacts();
    AvailableSpec(NORMALIZE_COLS, train);
    AvailableSpec(cols, current);
    assert NoOrigClash(cols) by {
      forall i, j | 0 <= i < |cols| && 0 <= j < |cols| ensures OrigName(cols[i]) != cols[j] {
        assert cols[i] in NORMALIZE_COLS && cols[j] in NORMALIZE_COLS;
      }
    }
    if Available(cols, current) != cols {
      assert false;
    } else {
      CopyThenScale(current, cols, fit(Project(train, cols)), scale);
    }
  }

  /**
   * Copying the first few of `cols` and then scaling all of `cols`: the copies
   * hold the cells from before the scaling, the scaled columns hold the
   * scaled cells of the input, and nothing else changes.
   */
  lemma CopyThenScale<P>(t: Table, cols: seq<Name>, params: P, scale: (P, Name, Cell) -> Cell)
    requires WellFormed(t) && (forall k :: 0 <= k < |cols| ==> cols[k] in t.data) && NoOrigClash(cols)
    ensures var few := FirstFew(cols);
      var w := CopyOriginals(t, few);
      var r := SetColumns(w, ScaleColumns(params, scale, w, cols));
      && r.index == t.index
      && r.data.Keys == t.data.Keys + OrigNames(few)
      && (forall k :: 0 <= k < |few| ==> r.data[OrigName(few[k])] == t.data[few[k]])
      && (forall c :: c in t.data && c !in cols && c !in OrigNames(few) ==> r.data[c] == t.data[c])
      && (forall c :: c in cols ==> |r.data[c]| == |t.data[c]|)
      && (forall c, i :: c in cols && 0 <= i < |t.data[c]| ==> r.data[c][i] == scale(params, c, t.data[c][i]))
  {
    var few := FirstFew(cols);
    assert forall k :: 0 <= k < |few| ==> few[k] == cols[k];
    assert NoOrigClash(few);
    CopyOriginalsKeys(t, few);
    CopyOriginalsUnchanged(t, few);
    CopyOriginalsValues(t, few);
    var w := CopyOriginals(t, few);
    forall c | c in cols ensures c !in OrigNames(few) {
      if c in OrigNames(few) {
        OrigNamesOnly(few, c);
        assert false;
      }
    }
    forall k | 0 <= k < |few| ensures OrigName(few[k]) !in cols {
    }
    assert forall k :: 0 <= k < |cols| ==> cols[k] in w.data;
    ScaleAfterCopy(t, w, cols, few, params, scale);
  }

  /** Scaling in place after the copies were taken, over any table holding exactly those copies. */
  lemma ScaleAfterCopy<P>(t: Table, w: Table, cols: seq<Name>, few: seq<Name>, params: P, scale: (P, Name, Cell) -> Cell)
    requires WellFormed(t) && WellFormed(w) && w.index == t.index
    requires forall k :: 0 <= k < |cols| ==> cols[k] in t.data && cols[k] in w.data
    requires forall k :: 0 <= k < |few| ==> few[k] in t.data
    requires w.data.Keys == t.data.Keys + OrigNames(few)
    requires forall k :: 0 <= k < |few| ==> OrigName(few[k]) in w.data && w.data[OrigName(few[k])] == t.data[few[k]]
    requires forall c :: c in t.data && c !in OrigNames(few) ==> w.data[c] == t.data[c]
    requires forall c :: c in cols ==> c !in OrigNames(few)
    requires forall k :: 0 <= k < |few| ==> OrigName(few[k]) !in cols
    ensures var r := SetColumns(w, ScaleColumns(params, scale, w, cols));
      && r.index == t.index
      && r.data.Keys == t.data.Keys + OrigNames(few)
      && (forall k :: 0 <= k < |few| ==> r.data[OrigName(few[k])] == t.data[few[k]])
      && (forall c :: c in t.data && c !in cols && c !in OrigNames(few) ==> r.data[c] == t.data[c])
      && (forall c :: c in cols ==> |r.data[c]| == |t.data[c]|)
      && (forall c, i :: c in cols && 0 <= i < |t.data[c]| ==> r.data[c][i] == scale(params, c, t.data[c][i]))
  {
    var sc := ScaleColumns(params, scale, w, cols);
    ScaledOthers(w, sc);
    assert forall c :: c in cols ==> w.data[c] == t.data[c];
  }

  /** Replacing some columns changes none of the others and no key. */
  lemma ScaledOthers(w: Table, sc: map<Name, Column>)
    requires WellFormed(w) && forall c :: c in sc ==> c in w.data && |sc[c]| == |w.index|
    ensures SetColumns(w, sc).data.Keys == w.data.Keys
    ensures forall c :: c in w.data && c !in sc ==> SetColumns(w, sc).data[c] == w.data[c]
    ensures forall c :: c in sc ==> SetColumns(w, sc).data[c] == sc[c]
  {
  }
}

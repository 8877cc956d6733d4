/**
 * Feature engineering of the current files: lag columns, the daily direction
 * flag and the length of the run it belongs to, the gap and indicator
 * columns, and the final removal of empty rows.
 */
module Features {
  import opened Common
  import opened Tables
  import Clean

  // ---------------------------------------------------------------------------
  // addlagfeatures
  // ---------------------------------------------------------------------------

  /** The name `f"{c}Lag{lag}"`. */
  function LagName(c: Name, lag: int): Name {
    c + "Lag" + IntToString(lag)
  }

  lemma LagNameInjective(a: Name, b: Name, lag: int)
    ensures LagName(a, lag) == LagName(b, lag) ==> a == b
  {
    var suffix := "Lag" + IntToString(lag);
    assert LagName(a, lag) == a + suffix;
    assert LagName(b, lag) == b + suffix;
    if LagName(a, lag) == LagName(b, lag) {
      AppendCancel(a, b, suffix);
    }
  }

  /** One iteration: `df[f"{c}Lag{lag}"] = df[c].shift(lag)` when c is a column. */
  function LagStep(t: Table, c: Name, lag: int): (r: Table)
    requires WellFormed(t)
    ensures WellFormed(r) && r.index == t.index
  {
    if c in t.data then SetColumn(t, LagName(c, lag), Shift(t.data[c], lag)) else t
  }

  /** The loop of `addlagfeatures` over `cols`, in order. */
  function LagAll(t: Table, cols: seq<Name>, lag: int): (r: Table)
    requires WellFormed(t)
    ensures WellFormed(r) && r.index == t.index
  {
    if cols == [] then t else LagStep(LagAll(t, cols[..|cols| - 1], lag), cols[|cols| - 1], lag)
  }

  /** `addlagfeatures(df, cols, lag)`, which changes `df` in place. */
  method AddLagFeatures(df: Frame, cols: seq<Name>, lag: int)
    requires df.Valid()
    modifies df
    ensures df.Valid() && df.View() == LagAll(old(df.View()), cols, lag)
  {
    ghost var t0 := df.View();
    for k := 0 to |cols|
      invariant df.Valid() && df.View() == LagAll(t0, cols[..k], lag)
    {
      assert cols[..k + 1][..k] == cols[..k];
      var c := cols[k];
      if c in df.data {
        df.Assign(LagName(c, lag), Shift(df.data[c], lag));
      }
    }
    assert cols[..|cols|] == cols;
  }

  /** No source column is the lag column of a source column, so no iteration disturbs another's input. */
  predicate NoLagClash(cols: seq<Name>, lag: int) {
    forall i, j :: 0 <= i < |cols| && 0 <= j < |cols| ==> LagName(cols[i], lag) != cols[j]
  }

  /** One iteration touches the lag column of c only, and only when c is present. */
  lemma LagStepFrame(t: Table, c: Name, lag: int)
    requires WellFormed(t)
    ensures |t.columns| <= |LagStep(t, c, lag).columns|
    ensures LagStep(t, c, lag).columns[..|t.columns|] == t.columns
    ensures forall d :: d in LagStep(t, c, lag).data <==> d in t.data || (c in t.data && d == LagName(c, lag))
    ensures forall d :: d in t.data && d != LagName(c, lag) ==> LagStep(t, c, lag).data[d] == t.data[d]
    ensures c in t.data ==> LagStep(t, c, lag).data[LagName(c, lag)] == Shift(t.data[c], lag)
    ensures LagStep(t, c, lag).data.Keys == t.data.Keys + if c in t.data then {LagName(c, lag)} else {}
  {
    if c in t.data {
      SetColumnFrame(t, LagName(c, lag), Shift(t.data[c], lag));
    }
  }

  /**
   * Lagging changes nothing but lag columns of `cols`: the row labels stay,
   * the existing columns keep their order at the front, every column that is
   * no lag column of `cols` keeps its cells, and every new column is one.
   */
  lemma {:induction false} LagAllFrame(t: Table, cols: seq<Name>, lag: int)
    requires WellFormed(t)
    ensures LagAll(t, cols, lag).index == t.index
    ensures |t.columns| <= |LagAll(t, cols, lag).columns|
    ensures LagAll(t, cols, lag).columns[..|t.columns|] == t.columns
    ensures forall c :: c in t.data ==> c in LagAll(t, cols, lag).data
    ensures forall c :: c in t.data && (forall k :: 0 <= k < |cols| ==> LagName(cols[k], lag) != c) ==>
      LagAll(t, cols, lag).data[c] == t.data[c]
    ensures forall c :: c in LagAll(t, cols, lag).data ==>
      c in t.data || exists k :: 0 <= k < |cols| && c == LagName(cols[k], lag)
  {
    if cols != [] {
      var init, last := cols[..|cols| - 1], cols[|cols| - 1];
      LagAllFrame(t, init, lag);
      var prev := LagAll(t, init, lag);
      assert LagAll(t, cols, lag) == LagStep(prev, last, lag);
      LagStepFrame(prev, last, lag);
      assert LagStep(prev, last, lag).columns[..|t.columns|] == prev.columns[..|t.columns|];
      LagStepUnchanged(t, prev, init, cols, lag);
      LagStepOrigin(t, prev, init, cols, lag);
    }
  }

  lemma LagStepUnchanged(t: Table, prev: Table, init: seq<Name>, cols: seq<Name>, lag: int)
    requires WellFormed(t) && WellFormed(prev) && cols != [] && init == cols[..|cols| - 1]
    requires forall c :: c in t.data ==> c in prev.data
    requires forall c :: c in t.data && (forall k :: 0 <= k < |init| ==> LagName(init[k], lag) != c) ==>
      prev.data[c] == t.data[c]
    ensures var r := LagStep(prev, cols[|cols| - 1], lag);
      forall c :: c in t.data && (forall k :: 0 <= k < |cols| ==> LagName(cols[k], lag) != c) ==> r.data[c] == t.data[c]
  {
    var last := cols[|cols| - 1];
    LagStepFrame(prev, last, lag);
    var r := LagStep(prev, last, lag);
    forall c | c in t.data && (forall k :: 0 <= k < |cols| ==> LagName(cols[k], lag) != c)
      ensures r.data[c] == t.data[c]
    {
      assert LagName(last, lag) != c;
      assert forall k :: 0 <= k < |init| ==> init[k] == cols[k];
    }
  }

  lemma LagStepOrigin(t: Table, prev: Table, init: seq<Name>, cols: seq<Name>, lag: int)
    requires WellFormed(prev) && cols != [] && init == cols[..|cols| - 1]
    requires forall c :: c in prev.data ==> c in t.data || exists k :: 0 <= k < |init| && c == LagName(init[k], lag)
    ensures var r := LagStep(prev, cols[|cols| - 1], lag);
      forall c :: c in r.data ==> c in t.data || exists k :: 0 <= k < |cols| && c == LagName(cols[k], lag)
  {
    var last := cols[|cols| - 1];
    LagStepFrame(prev, last, lag);
    var r := LagStep(prev, last, lag);
    forall c | c in r.data ensures c in t.data || exists k :: 0 <= k < |cols| && c == LagName(cols[k], lag) {
      if c !in prev.data {
        assert c == LagName(cols[|cols| - 1], lag);
      } else if c !in t.data {
        var k :| 0 <= k < |init| && c == LagName(init[k], lag);
        assert init[k] == cols[k];
      }
    }
  }

  /** The lag columns of the source columns of `cols` present in `t`. */
  function AddedLags(t: Table, cols: seq<Name>, lag: int): (r: set<Name>)
    ensures forall k :: 0 <= k < |cols| && cols[k] in t.data ==> LagName(cols[k], lag) in r
  {
    if cols == [] then {}
    else
      var init, last := cols[..|cols| - 1], cols[|cols| - 1];
      assert forall k :: 0 <= k < |init| ==> init[k] == cols[k];
      AddedLags(t, init, lag) + if last in t.data then {LagName(last, lag)} else {}
  }

  /**
   * Without clashes, lagging adds exactly the lag columns of the source
   * columns that are present; absent ones are ignored.
   */
  lemma {:induction false} LagAllKeys(t: Table, cols: seq<Name>, lag: int)
    requires WellFormed(t) && NoLagClash(cols, lag)
    ensures LagAll(t, cols, lag).data.Keys == t.data.Keys + AddedLags(t, cols, lag)
  {
    if cols != [] {
      var init, last := cols[..|cols| - 1], cols[|cols| - 1];
      assert NoLagClash(init, lag) by {
        assert forall k :: 0 <= k < |init| ==> init[k] == cols[k];
      }
      LagAllKeys(t, init, lag);
      var prev := LagAll(t, init, lag);
      assert last in prev.data <==> last in t.data by {
        LagAllFrame(t, init, lag);
        assert forall k :: 0 <= k < |init| ==> init[k] == cols[k];
        assert forall k :: 0 <= k < |init| ==> LagName(init[k], lag) != last;
      }
      LagStepFrame(prev, last, lag);
      assert LagAll(t, cols, lag) == LagStep(prev, last, lag);
    }
  }

  /**
   * Without clashes, the lag column of a present source column c holds c's
   * cells moved down by `lag` rows: row i holds row i - lag of c, or nothing
   * when there is no such row.
   */
  lemma {:induction false} LagAllValues(t: Table, cols: seq<Name>, lag: int)
    requires WellFormed(t) && NoLagClash(cols, lag)
    ensures forall k :: 0 <= k < |cols| && cols[k] in t.data ==>
      LagName(cols[k], lag) in LagAll(t, cols, lag).data &&
      LagAll(t, cols, lag).data[LagName(cols[k], lag)] == Shift(t.data[cols[k]], lag)
  {
    if cols != [] {
      var init, last := cols[..|cols| - 1], cols[|cols| - 1];
      assert forall k :: 0 <= k < |init| ==> init[k] == cols[k];
      assert NoLagClash(init, lag);
      LagAllValues(t, init, lag);
      LagAllFrame(t, init, lag);
      var prev := LagAll(t, init, lag);
      LagStepFrame(prev, last, lag);
      var r := LagAll(t, cols, lag);
      assert r == LagStep(prev, last, lag);
      assert last in prev.data <==> last in t.data by {
        assert forall k :: 0 <= k < |init| ==> LagName(init[k], lag) != last;
      }
      assert last in t.data ==> prev.data[last] == t.data[last] by {
        assert forall k :: 0 <= k < |init| ==> LagName(init[k], lag) != last;
      }
      forall k | 0 <= k < |cols| && cols[k] in t.data
        ensures LagName(cols[k], lag) in r.data && r.data[LagName(cols[k], lag)] == Shift(t.data[cols[k]], lag)
      {
        if k < |cols| - 1 {
          assert init[k] == cols[k];
          if last in t.data {
            LagNameInjective(cols[k], last, lag);
          }
        }
      }
    }
  }

  predicate EndsInOne(c: Name) {
    |c| > 0 && c[|c| - 1] == '1'
  }

  /** The lag sources of the current-file pipeline. */
  const LAG_SOURCE_COLS: seq<Name> :=
    ["DailyPct", "TR", "ATR7", "DayPositive", "ConsecutivePosNegDays", "OpentoHighPct", "OpentoLowPct"]

  /** The lag columns of the sources are their names followed by "Lag1", and none of them is a source. */
  lemma LagSourcesNoClash()
    ensures NoLagClash(LAG_SOURCE_COLS, 1)
    ensures forall k :: 0 <= k < |LAG_SOURCE_COLS| ==> LagName(LAG_SOURCE_COLS[k], 1) == LAG_SOURCE_COLS[k] + "Lag1"
    ensures forall k :: 0 <= k < |LAG_SOURCE_COLS| ==> EndsInOne(LagName(LAG_SOURCE_COLS[k], 1))
  {
    assert IntToString(1) == "1";
    forall i, j | 0 <= i < |LAG_SOURCE_COLS| && 0 <= j < |LAG_SOURCE_COLS|
      ensures LagName(LAG_SOURCE_COLS[i], 1) != LAG_SOURCE_COLS[j]
    {
      var l := LagName(LAG_SOURCE_COLS[i], 1);
      assert l[|l| - 1] == '1';
    }
  }

  // ---------------------------------------------------------------------------
  // The daily direction flag and its run length
  // ---------------------------------------------------------------------------

  /** `np.where(df["DailyPct"] > 0, 1, 0)` on one cell: a missing value is not above 0. */
  function DayPositive(c: Cell): (r: Cell)
    ensures r == Num(1.0) || r == Num(0.0)
    ensures r == Num(1.0) <==> c.Num? && c.x > 0.0
  {
    if c.Num? && c.x > 0.0 then Num(1.0) else Num(0.0)
  }

  /** A string cell: comparing the column with 0 raises a TypeError. */
  predicate HasText(col: Column) {
    exists i :: 0 <= i < |col| && col[i].Text?
  }

  /** Elementwise `!=`, under which a missing value differs from everything, itself included. */
  predicate CellNe(a: Cell, b: Cell) {
    a.Missing? || b.Missing? || a != b
  }

  /** `col != col.shift(1)`: where a new run starts. */
  function Changes(col: Column): (r: seq<bool>)
    ensures |r| == |col|
  {
    var above := Shift(col, 1);
    seq(|col|, i requires 0 <= i < |col| => CellNe(col[i], above[i]))
  }

  /** The number of true values. */
  function CountTrue(bs: seq<bool>): nat {
    if bs == [] then 0 else CountTrue(bs[..|bs| - 1]) + if bs[|bs| - 1] then 1 else 0
  }

  /** `.cumsum()` of a boolean series: the group number of every row. */
  function CumSum(bs: seq<bool>): (r: seq<nat>)
    ensures |r| == |bs|
  {
    seq(|bs|, i requires 0 <= i < |bs| => CountTrue(bs[..i + 1]))
  }

  /** The number of rows before row i in group v. */
  function CountBefore(g: seq<nat>, i: nat, v: nat): nat
    requires i <= |g|
  {
    if i == 0 then 0 else CountBefore(g, i - 1, v) + if g[i - 1] == v then 1 else 0
  }

  /** `groupby(grp).cumcount() + 1` with `grp = (col != col.shift(1)).cumsum()`. */
  function RunLengths(col: Column): (r: Column)
    ensures |r| == |col|
  {
    var g := CumSum(Changes(col));
    seq(|col|, i requires 0 <= i < |col| => Num((CountBefore(g, i, g[i]) + 1) as real))
  }

  lemma {:induction false} CountTrueMonotone(bs: seq<bool>, j: nat, i: nat)
    requires j <= i <= |bs|
    ensures CountTrue(bs[..j]) <= CountTrue(bs[..i])
    decreases i - j
  {
    if j < i {
      CountTrueMonotone(bs, j, i - 1);
      assert bs[..i][..i - 1] == bs[..i - 1];
    }
  }

  lemma {:induction false} CountBeforeNone(g: seq<nat>, i: nat, v: nat)
    requires i <= |g| && forall j :: 0 <= j < i ==> g[j] < v
    ensures CountBefore(g, i, v) == 0
  {
    if i > 0 {
      CountBeforeNone(g, i - 1, v);
    }
  }

  /**
   * The run length of row 0 is 1; a later row continues the run of the row
   * above (one more) when the two are equal, and starts a new run (1)
   * otherwise, so every run length is at least 1.
   */
  lemma RunLengthsStep(col: Column, i: nat)
    requires i < |col|
    ensures RunLengths(col)[i].Num? && RunLengths(col)[i].x >= 1.0
    ensures i == 0 ==> RunLengths(col)[i] == Num(1.0)
    ensures i > 0 && CellNe(col[i], col[i - 1]) ==> RunLengths(col)[i] == Num(1.0)
    ensures i > 0 && !CellNe(col[i], col[i - 1]) ==> RunLengths(col)[i] == Num(RunLengths(col)[i - 1].x + 1.0)
  {
    var ch := Changes(col);
    var g := CumSum(ch);
    if i == 0 {
      CountBeforeNone(g, 0, g[0]);
    } else {
      assert ch[..i + 1][..i] == ch[..i];
      assert g[i] == g[i - 1] + if ch[i] then 1 else 0;
      if ch[i] {
        forall j | 0 <= j < i ensures g[j] < g[i] {
          CountTrueMonotone(ch, j + 1, i);
        }
        CountBeforeNone(g, i, g[i]);
      }
    }
  }

  // ---------------------------------------------------------------------------
  // calculatecustomindicator and the difference column
  // ---------------------------------------------------------------------------

  /** The indicator's formula is withheld: a column of missing values, one per row. */
  function CustomIndicator(t: Table, period: int): (r: Column)
    ensures |r| == |t.index| && forall i :: 0 <= i < |r| ==> r[i] == Missing
  {
    Missings(|t.index|)
  }

  /**
   * Elementwise subtraction; a missing operand gives a missing result. A text
   * operand, on which pandas raises, is treated as missing: at the one use,
   * `CustomIndicatorDiff`, both operands are all missing, so no text occurs.
   */
  function Difference(a: Column, b: Column): (r: Column)
    requires |a| == |b|
    ensures |r| == |a|
    ensures forall i :: 0 <= i < |a| ==> (r[i] == Missing <==> !(a[i].Num? && b[i].Num?))
    ensures forall i :: 0 <= i < |a| && a[i].Num? && b[i].Num? ==> r[i] == Num(a[i].x - b[i].x)
  {
    seq(|a|, i requires 0 <= i < |a| => if a[i].Num? && b[i].Num? then Num(a[i].x - b[i].x) else Missing)
  }

  // ---------------------------------------------------------------------------
  // processcurrentfiles: the steps applied to one current table
  // ---------------------------------------------------------------------------

  /** ISO year, ISO week and weekday name of a date cell. */
  datatype Calendar = Calendar(isoYear: Cell -> Cell, isoWeek: Cell -> Cell, dayName: Cell -> Cell)

  /** The one failure of the steps below: `df["DailyPct"] > 0` on a column holding a string. */
  datatype FeatureError = ComparisonTypeError

  const CUSTOM_INDICATOR_PERIOD: int := 7

  /** `df[name] = np.nan` */
  function AddMissing(t: Table, name: Name): (r: Table)
    requires WellFormed(t)
    ensures WellFormed(r) && r.index == t.index
  {
    SetColumn(t, name, Missings(|t.index|))
  }

  /** The daily-percentage and true-range placeholders, when their inputs exist. */
  function WithPlaceholders(t: Table): (r: Table)
    requires WellFormed(t)
    ensures WellFormed(r) && r.index == t.index
  {
    var t1 := if "Open" in t.data && "Close" in t.data then AddMissing(t, "DailyPct") else t;
    if "High" in t1.data && "Low" in t1.data && "Open" in t1.data then AddMissing(AddMissing(t1, "TR"), "ATR7") else t1
  }

  /** The direction flag and its run length, when there is a daily percentage. */
  function WithRunLength(t: Table): (r: Result<Table, FeatureError>)
    requires WellFormed(t)
    ensures r.Ok? ==> WellFormed(r.value) && r.value.index == t.index
  {
    if "DailyPct" !in t.data then Ok(t)
    else if HasText(t.data["DailyPct"]) then Err(ComparisonTypeError)
    else
      var positive := MapCells(t.data["DailyPct"], DayPositive);
      Ok(SetColumn(SetColumn(t, "DayPositive", positive), "ConsecutivePosNegDays", RunLengths(positive)))
  }

  /** The open-to-extrema placeholders. */
  function WithOpenExtrema(t: Table): (r: Table)
    requires WellFormed(t)
    ensures WellFormed(r) && r.index == t.index
  {
    AddMissing(AddMissing(t, "OpentoHighPct"), "OpentoLowPct")
  }

  /** Year, week and weekday of the dates, when there is a date column. */
  function WithCalendar(t: Table, cal: Calendar): (r: Table)
    requires WellFormed(t)
    ensures WellFormed(r) && r.index == t.index
  {
    if "Date" !in t.data then t
    else
      var dates := t.data["Date"];
      var t1 := SetColumn(t, "Year", MapCells(dates, cal.isoYear));
      var t2 := SetColumn(t1, "Week", MapCells(dates, cal.isoWeek));
      SetColumn(t2, "DayOfWeek", MapCells(dates, cal.dayName))
  }

  /** The weekly and gap placeholders and the previous close. */
  function WithGapColumns(t: Table): (r: Table)
    requires WellFormed(t)
    ensures WellFormed(r) && r.index == t.index
  {
    var t1 := AddMissing(AddMissing(t, "VWAPWeekly"), "DistOpenVWAPpct");
    var t2 := SetColumn(t1, "PreviousClose", if "Close" in t1.data then Shift(t1.data["Close"], 1) else Missings(|t1.index|));
    AddMissing(t2, "OPG")
  }

  /** The custom indicator and its difference from the previous row. */
  function WithCustomIndicator(t: Table): (r: Table)
    requires WellFormed(t)
    ensures WellFormed(r) && r.index == t.index
  {
    var indicator := CustomIndicator(t, CUSTOM_INDICATOR_PERIOD);
    var t1 := SetColumn(t, "CustomIndicator", indicator);
    SetColumn(t1, "CustomIndicatorDiff", Difference(t1.data["CustomIndicator"], Shift(t1.data["CustomIndicator"], 1)))
  }

  /** The weekly and gap placeholders, the previous close and the custom indicator with its difference. */
  function WithIndicators(t: Table): (r: Table)
    requires WellFormed(t)
    ensures WellFormed(r) && r.index == t.index
  {
    WithCustomIndicator(WithGapColumns(t))
  }

  /** The year and week columns are dropped again. */
  function WithoutYearWeek(t: Table): (r: Table)
    requires WellFormed(t)
    ensures WellFormed(r) && r.index == t.index
  {
    var t1 := if "Year" in t.data then DropColumn(t, "Year") else t;
    if "Week" in t1.data then DropColumn(t1, "Week") else t1
  }

  /** Everything after the run length, up to the final trimming. */
  function Engineered(u: Table, cal: Calendar): (r: Table)
    requires WellFormed(u)
    ensures WellFormed(r) && r.index == u.index
  {
    WithoutYearWeek(WithIndicators(WithCalendar(LagAll(WithOpenExtrema(u), LAG_SOURCE_COLS, 1), cal)))
  }

  /** The table written for one current file (already sorted by date), or the error that skips it. */
  function ProcessFile(t: Table, cal: Calendar): Result<Table, FeatureError>
    requires WellFormed(t)
  {
    match WithRunLength(WithPlaceholders(t))
    case Err(e) => Err(e)
    case Ok(u) => Ok(Clean.Trim(Engineered(u, cal)))
  }

  method AddPlaceholders(df: Frame)
    requires df.Valid()
    modifies df
    ensures df.Valid() && df.View() == WithPlaceholders(old(df.View()))
  {
    if "Open" in df.data && "Close" in df.data {
      df.Assign("DailyPct", Missings(|df.index|));
    }
    if "High" in df.data && "Low" in df.data && "Open" in df.data {
      df.Assign("TR", Missings(|df.index|));
      df.Assign("ATR7", Missings(|df.index|));
    }
  }

  method AddRunLength(df: Frame) returns (r: Result<(), FeatureError>)
    requires df.Valid()
    modifies df
    ensures df.Valid()
    ensures r.Err? <==> WithRunLength(old(df.View())).Err?
    ensures r.Ok? ==> df.View() == WithRunLength(old(df.View())).value
  {
    r := Ok(());
    if "DailyPct" in df.data {
      var pct := df.data["DailyPct"];
      if HasText(pct) {
        return Err(ComparisonTypeError);
      }
      var positive := MapCells(pct, DayPositive);
      df.Assign("DayPositive", positive);
      df.Assign("ConsecutivePosNegDays", RunLengths(positive));
    }
  }

  method AddCalendar(df: Frame, cal: Calendar)
    requires df.Valid()
    modifies df
    ensures df.Valid() && df.View() == WithCalendar(old(df.View()), cal)
  {
    if "Date" in df.data {
      var dates := df.data["Date"];
      df.Assign("Year", MapCells(dates, cal.isoYear));
      df.Assign("Week", MapCells(dates, cal.isoWeek));
      df.Assign("DayOfWeek", MapCells(dates, cal.dayName));
    }
  }

  method AddIndicators(df: Frame)
    requires df.Valid()
    modifies df
    ensures df.Valid() && df.View() == WithIndicators(old(df.View()))
  {
    df.Assign("VWAPWeekly", Missings(|df.index|));
    df.Assign("DistOpenVWAPpct", Missings(|df.index|));
    if "Close" in df.data {
      df.Assign("PreviousClose", Shift(df.data["Close"], 1));
    } else {
      df.Assign("PreviousClose", Missings(|df.index|));
    }
    df.Assign("OPG", Missings(|df.index|));
    assert df.View() == WithGapColumns(old(df.View()));
    df.Assign("CustomIndicator", CustomIndicator(df.View(), CUSTOM_INDICATOR_PERIOD));
    df.Assign("CustomIndicatorDiff", Difference(df.data["CustomIndicator"], Shift(df.data["CustomIndicator"], 1)));
  }

  method DropYearWeek(df: Frame)
    requires df.Valid()
    modifies df
    ensures df.Valid() && df.View() == WithoutYearWeek(old(df.View()))
  {
    if "Year" in df.data {
      df.Drop("Year");
    }
    if "Week" in df.data {
      df.Drop("Week");
    }
  }

  /** The body of the per-file loop of `processcurrentfiles`, after the date sort. */
  method ProcessCurrent(t: Table, cal: Calendar) returns (r: Result<Table, FeatureError>)
    requires WellFormed(t)
    ensures r == ProcessFile(t, cal)
  {
    var df := new Frame(t);
    AddPlaceholders(df);
    var step := AddRunLength(df);
    if step.Err? {
      return Err(ComparisonTypeError);
    }
    ghost var u := df.View();
    df.Assign("OpentoHighPct", Missings(|df.index|));
    df.Assign("OpentoLowPct", Missings(|df.index|));
    AddLagFeatures(df, LAG_SOURCE_COLS, 1);
    AddCalendar(df, cal);
    AddIndicators(df);
    DropYearWeek(df);
    r := Ok(Clean.Trim(df.View()));
  }

  /** Lagging the sources leaves every column whose name does not end in '1' as it was, present or absent. */
  lemma LagSourcesKeep(t: Table, c: Name)
    requires WellFormed(t) && !EndsInOne(c)
    ensures c in LagAll(t, LAG_SOURCE_COLS, 1).data <==> c in t.data
    ensures c in t.data ==> LagAll(t, LAG_SOURCE_COLS, 1).data[c] == t.data[c]
  {
    LagSourcesNoClash();
    LagAllFrame(t, LAG_SOURCE_COLS, 1);
  }

  /**
   * Processing fails exactly when the daily percentage is taken from the
   * input (there is no open and close to replace it) and holds a string.
   */
  lemma ProcessFileError(t: Table, cal: Calendar)
    requires WellFormed(t)
    ensures ProcessFile(t, cal).Err? <==>
      "DailyPct" in t.data && !("Open" in t.data && "Close" in t.data) && HasText(t.data["DailyPct"])
  {
    var p := WithPlaceholders(t);
    assert ProcessFile(t, cal).Err? <==> WithRunLength(p).Err?;
    PlaceholdersDailyPct(t);
    if "Open" in t.data && "Close" in t.data {
      assert !HasText(Missings(|t.index|));
    }
  }

  /** The daily percentage after the placeholders: all missing when open and close exist, else the input's. */
  lemma PlaceholdersDailyPct(t: Table)
    requires WellFormed(t)
    ensures "DailyPct" in WithPlaceholders(t).data <==> "DailyPct" in t.data || ("Open" in t.data && "Close" in t.data)
    ensures "Open" in t.data && "Close" in t.data ==> WithPlaceholders(t).data["DailyPct"] == Missings(|t.index|)
    ensures !("Open" in t.data && "Close" in t.data) && "DailyPct" in t.data ==>
      WithPlaceholders(t).data["DailyPct"] == t.data["DailyPct"]
  {
  }

  /** Column c is present in b exactly when in a, with the same cells. */
  ghost predicate Keeps(a: Table, b: Table, c: Name) {
    (c in b.data <==> c in a.data) && (c in a.data ==> b.data[c] == a.data[c])
  }

  /** The columns the steps after the run length assign, besides lag columns. */
  const DERIVED_COLS: seq<Name> := ["OpentoHighPct", "OpentoLowPct", "Year", "Week", "DayOfWeek",
    "VWAPWeekly", "DistOpenVWAPpct", "PreviousClose", "OPG", "CustomIndicator", "CustomIndicatorDiff"]

  const INDICATOR_COLS: seq<Name> :=
    ["VWAPWeekly", "DistOpenVWAPpct", "PreviousClose", "OPG", "CustomIndicator", "CustomIndicatorDiff"]

  /** Assigning one column keeps every other column. */
  lemma SetColumnKeeps(t: Table, name: Name, col: Column)
    requires WellFormed(t) && |col| == |t.index|
    ensures t.data.Keys <= SetColumn(t, name, col).data.Keys
    ensures name in SetColumn(t, name, col).data && SetColumn(t, name, col).data[name] == col
    ensures forall c :: c != name ==> Keeps(t, SetColumn(t, name, col), c)
  {
  }

  lemma OpenExtremaFrame(t: Table)
    requires WellFormed(t)
    ensures t.data.Keys <= WithOpenExtrema(t).data.Keys
    ensures forall c :: c != "OpentoHighPct" && c != "OpentoLowPct" ==> Keeps(t, WithOpenExtrema(t), c)
  {
    var n := |t.index|;
    var t1 := AddMissing(t, "OpentoHighPct");
    SetColumnKeeps(t, "OpentoHighPct", Missings(n));
    SetColumnKeeps(t1, "OpentoLowPct", Missings(n));
    forall c | c != "OpentoHighPct" && c != "OpentoLowPct" ensures Keeps(t, WithOpenExtrema(t), c) {
      assert Keeps(t, t1, c) && Keeps(t1, WithOpenExtrema(t), c);
    }
  }

  lemma LagSourcesFrame(t: Table)
    requires WellFormed(t)
    ensures t.data.Keys <= LagAll(t, LAG_SOURCE_COLS, 1).data.Keys
    ensures forall c :: !EndsInOne(c) ==> Keeps(t, LagAll(t, LAG_SOURCE_COLS, 1), c)
  {
    LagAllFrame(t, LAG_SOURCE_COLS, 1);
    forall c | !EndsInOne(c) ensures Keeps(t, LagAll(t, LAG_SOURCE_COLS, 1), c) {
      LagSourcesKeep(t, c);
    }
  }

  lemma CalendarFrame(t: Table, cal: Calendar)
    requires WellFormed(t)
    ensures t.data.Keys <= WithCalendar(t, cal).data.Keys
    ensures forall c :: c != "Year" && c != "Week" && c != "DayOfWeek" ==> Keeps(t, WithCalendar(t, cal), c)
    ensures "Date" in t.data ==> WithCalendar(t, cal).data["DayOfWeek"] == MapCells(t.data["Date"], cal.dayName)
  {
    if "Date" in t.data {
      var dates := t.data["Date"];
      var t1 := SetColumn(t, "Year", MapCells(dates, cal.isoYear));
      var t2 := SetColumn(t1, "Week", MapCells(dates, cal.isoWeek));
      var r := SetColumn(t2, "DayOfWeek", MapCells(dates, cal.dayName));
      assert WithCalendar(t, cal) == r;
      SetColumnKeeps(t, "Year", MapCells(dates, cal.isoYear));
      SetColumnKeeps(t1, "Week", MapCells(dates, cal.isoWeek));
      SetColumnKeeps(t2, "DayOfWeek", MapCells(dates, cal.dayName));
      forall c | c != "Year" && c != "Week" && c != "DayOfWeek" ensures Keeps(t, r, c) {
        assert Keeps(t, t1, c) && Keeps(t1, t2, c) && Keeps(t2, r, c);
      }
    }
  }

  lemma GapColumnsFrame(t: Table)
    requires WellFormed(t)
    ensures t.data.Keys <= WithGapColumns(t).data.Keys
    ensures forall c :: c != "VWAPWeekly" && c != "DistOpenVWAPpct" && c != "PreviousClose" && c != "OPG" ==>
      Keeps(t, WithGapColumns(t), c)
    ensures "PreviousClose" in WithGapColumns(t).data
    ensures WithGapColumns(t).data["PreviousClose"] ==
      if "Close" in t.data then Shift(t.data["Close"], 1) else Missings(|t.index|)
  {
    var n := |t.index|;
    var t0 := AddMissing(t, "VWAPWeekly");
    var t1 := AddMissing(t0, "DistOpenVWAPpct");
    var pc := if "Close" in t1.data then Shift(t1.data["Close"], 1) else Missings(n);
    var t2 := SetColumn(t1, "PreviousClose", pc);
    var r := AddMissing(t2, "OPG");
    assert WithGapColumns(t) == r;
    SetColumnKeeps(t, "VWAPWeekly", Missings(n));
    SetColumnKeeps(t0, "DistOpenVWAPpct", Missings(n));
    SetColumnKeeps(t1, "PreviousClose", pc);
    SetColumnKeeps(t2, "OPG", Missings(n));
    assert Keeps(t, t1, "Close");
    assert Keeps(t2, r, "PreviousClose");
    forall c | c != "VWAPWeekly" && c != "DistOpenVWAPpct" && c != "PreviousClose" && c != "OPG"
      ensures Keeps(t, r, c)
    {
      assert Keeps(t, t0, c) && Keeps(t0, t1, c) && Keeps(t1, t2, c) && Keeps(t2, r, c);
    }
  }

  lemma CustomIndicatorFrame(t: Table)
    requires WellFormed(t)
    ensures t.data.Keys <= WithCustomIndicator(t).data.Keys
    ensures forall c :: c != "CustomIndicator" && c != "CustomIndicatorDiff" ==> Keeps(t, WithCustomIndicator(t), c)
    ensures "CustomIndicator" in WithCustomIndicator(t).data && "CustomIndicatorDiff" in WithCustomIndicator(t).data
    ensures WithCustomIndicator(t).data["CustomIndicator"] == Missings(|t.index|)
    ensures WithCustomIndicator(t).data["CustomIndicatorDiff"] == Missings(|t.index|)
  {
    var ci := Missings(|t.index|);
    assert CustomIndicator(t, CUSTOM_INDICATOR_PERIOD) == ci;
    var t1 := SetColumn(t, "CustomIndicator", ci);
    SetColumnKeeps(t, "CustomIndicator", ci);
    assert Difference(ci, Shift(ci, 1)) == ci;
    var r := SetColumn(t1, "CustomIndicatorDiff", ci);
    assert WithCustomIndicator(t) == r;
    SetColumnKeeps(t1, "CustomIndicatorDiff", ci);
    assert Keeps(t1, r, "CustomIndicator");
    forall c | c != "CustomIndicator" && c != "CustomIndicatorDiff" ensures Keeps(t, r, c) {
      assert Keeps(t, t1, c) && Keeps(t1, r, c);
    }
  }

  lemma IndicatorsFrame(t: Table)
    requires WellFormed(t)
    ensures t.data.Keys <= WithIndicators(t).data.Keys
    ensures forall c :: c !in INDICATOR_COLS ==> Keeps(t, WithIndicators(t), c)
    ensures "PreviousClose" in WithIndicators(t).data
    ensures "CustomIndicator" in WithIndicators(t).data && "CustomIndicatorDiff" in WithIndicators(t).data
    ensures WithIndicators(t).data["PreviousClose"] ==
      if "Close" in t.data then Shift(t.data["Close"], 1) else Missings(|t.index|)
    ensures WithIndicators(t).data["CustomIndicator"] == Missings(|t.index|)
    ensures WithIndicators(t).data["CustomIndicatorDiff"] == Missings(|t.index|)
  {
    var g := WithGapColumns(t);
    GapColumnsFrame(t);
    CustomIndicatorFrame(g);
    assert Keeps(g, WithIndicators(t), "PreviousClose");
    forall c | c !in INDICATOR_COLS ensures Keeps(t, WithIndicators(t), c) {
      assert Keeps(t, g, c);
      assert Keeps(g, WithCustomIndicator(g), c);
    }
  }

  lemma WithoutYearWeekFrame(t: Table)
    requires WellFormed(t)
    ensures "Year" !in WithoutYearWeek(t).data && "Week" !in WithoutYearWeek(t).data
    ensures forall c :: c != "Year" && c != "Week" ==> Keeps(t, WithoutYearWeek(t), c)
  {
  }

  /**
   * The steps after the run length change no column of the input other than
   * lag columns and the derived columns they assign: every other column keeps
   * its cells, and no other column appears.
   */
  lemma EngineeredKeeps(u: Table, cal: Calendar)
    requires WellFormed(u)
    ensures forall c :: c !in DERIVED_COLS && !EndsInOne(c) ==> Keeps(u, Engineered(u, cal), c)
  {
    var t3 := WithCalendar(LagAll(WithOpenExtrema(u), LAG_SOURCE_COLS, 1), cal);
    forall c | c !in DERIVED_COLS && !EndsInOne(c) ensures Keeps(u, Engineered(u, cal), c) {
      MidStagesKeep(u, cal, c);
      LateStagesKeep(t3, c);
    }
  }

  /** After the feature steps the year and week columns are gone, and every other column of the input is still there. */
  lemma EngineeredDropsYearWeek(u: Table, cal: Calendar)
    requires WellFormed(u)
    ensures "Year" !in Engineered(u, cal).data && "Week" !in Engineered(u, cal).data
    ensures forall c :: c in u.data && c != "Year" && c != "Week" ==> c in Engineered(u, cal).data
  {
    var t1 := WithOpenExtrema(u);
    var t2 := LagAll(t1, LAG_SOURCE_COLS, 1);
    var t3 := WithCalendar(t2, cal);
    var t4 := WithIndicators(t3);
    var e := WithoutYearWeek(t4);
    assert Engineered(u, cal) == e;
    OpenExtremaFrame(u);
    LagSourcesFrame(t1);
    CalendarFrame(t2, cal);
    IndicatorsFrame(t3);
    WithoutYearWeekFrame(t4);
    forall c | c in u.data && c != "Year" && c != "Week" ensures c in e.data {
      assert c in t1.data;
      assert c in t2.data;
      assert c in t3.data;
      assert c in t4.data;
      assert Keeps(t4, e, c);
    }
  }

  /** The stages before the calendar keep every column that is no placeholder and no lag column. */
  lemma EarlyStagesKeep(u: Table, c: Name)
    requires WellFormed(u) && c != "OpentoHighPct" && c != "OpentoLowPct" && !EndsInOne(c)
    ensures Keeps(u, LagAll(WithOpenExtrema(u), LAG_SOURCE_COLS, 1), c)
  {
    var t1 := WithOpenExtrema(u);
    OpenExtremaFrame(u);
    LagSourcesFrame(t1);
    assert Keeps(u, t1, c);
    assert Keeps(t1, LagAll(t1, LAG_SOURCE_COLS, 1), c);
  }

  /** The stages after the calendar keep every column they do not assign or drop. */
  lemma LateStagesKeep(t: Table, c: Name)
    requires WellFormed(t) && c !in INDICATOR_COLS && c != "Year" && c != "Week"
    ensures Keeps(t, WithoutYearWeek(WithIndicators(t)), c)
  {
    IndicatorsFrame(t);
    WithoutYearWeekFrame(WithIndicators(t));
    assert Keeps(t, WithIndicators(t), c);
    assert Keeps(WithIndicators(t), WithoutYearWeek(WithIndicators(t)), c);
  }

  /** The weekday column is derived from the date column, when there is one. */
  lemma EngineeredWeekday(u: Table, cal: Calendar)
    requires WellFormed(u) && "Date" in u.data
    ensures "DayOfWeek" in Engineered(u, cal).data
    ensures Engineered(u, cal).data["DayOfWeek"] == MapCells(u.data["Date"], cal.dayName)
  {
    var t2 := LagAll(WithOpenExtrema(u), LAG_SOURCE_COLS, 1);
    assert !EndsInOne("Date");
    EarlyStagesKeep(u, "Date");
    LateWeekday(t2, cal);
  }

  lemma LateWeekday(t: Table, cal: Calendar)
    requires WellFormed(t) && "Date" in t.data
    ensures "DayOfWeek" in WithoutYearWeek(WithIndicators(WithCalendar(t, cal))).data
    ensures WithoutYearWeek(WithIndicators(WithCalendar(t, cal))).data["DayOfWeek"] == MapCells(t.data["Date"], cal.dayName)
  {
    CalendarFrame(t, cal);
    LateStagesKeep(WithCalendar(t, cal), "DayOfWeek");
  }

  /** The stages from the calendar on keep every column they do not assign or drop. */
  lemma CalendarOnwardKeeps(t: Table, cal: Calendar, c: Name)
    requires WellFormed(t) && c !in DERIVED_COLS
    ensures Keeps(t, WithoutYearWeek(WithIndicators(WithCalendar(t, cal))), c)
  {
    CalendarFrame(t, cal);
    assert Keeps(t, WithCalendar(t, cal), c);
    LateStagesKeep(WithCalendar(t, cal), c);
  }

  lemma LagNotDerived(c: Name)
    requires EndsInOne(c)
    ensures c !in DERIVED_COLS
  {
  }

  /** The stages before the indicators keep every column that is not derived and no lag column. */
  lemma MidStagesKeep(u: Table, cal: Calendar, c: Name)
    requires WellFormed(u) && c !in DERIVED_COLS && !EndsInOne(c)
    ensures Keeps(u, WithCalendar(LagAll(WithOpenExtrema(u), LAG_SOURCE_COLS, 1), cal), c)
  {
    var t2 := LagAll(WithOpenExtrema(u), LAG_SOURCE_COLS, 1);
    EarlyStagesKeep(u, c);
    CalendarFrame(t2, cal);
    assert Keeps(t2, WithCalendar(t2, cal), c);
  }

  lemma IndicatorsPreviousClose(t: Table)
    requires WellFormed(t)
    ensures "PreviousClose" in WithIndicators(t).data
    ensures WithIndicators(t).data["PreviousClose"] ==
      if "Close" in t.data then Shift(t.data["Close"], 1) else Missings(|t.index|)
  {
    GapColumnsFrame(t);
    CustomIndicatorFrame(WithGapColumns(t));
  }

  /** The previous close is the close moved down one row, or all missing without a close. */
  lemma EngineeredPreviousClose(u: Table, cal: Calendar)
    requires WellFormed(u)
    ensures "PreviousClose" in Engineered(u, cal).data
    ensures Engineered(u, cal).data["PreviousClose"] ==
      if "Close" in u.data then Shift(u.data["Close"], 1) else Missings(|u.index|)
  {
    var t3 := WithCalendar(LagAll(WithOpenExtrema(u), LAG_SOURCE_COLS, 1), cal);
    assert !EndsInOne("Close");
    MidStagesKeep(u, cal, "Close");
    IndicatorsPreviousClose(t3);
    LateStagesPreviousClose(WithIndicators(t3));
  }

  lemma LateStagesKeepsIndicator(t: Table)
    requires WellFormed(t)
    ensures Keeps(t, WithoutYearWeek(t), "CustomIndicator") && Keeps(t, WithoutYearWeek(t), "CustomIndicatorDiff")
  {
    WithoutYearWeekFrame(t);
  }

  lemma LateStagesPreviousClose(t: Table)
    requires WellFormed(t)
    ensures Keeps(t, WithoutYearWeek(t), "PreviousClose")
  {
    WithoutYearWeekFrame(t);
  }

  /** The custom indicator and its difference are all missing. */
  lemma EngineeredIndicator(u: Table, cal: Calendar)
    requires WellFormed(u)
    ensures "CustomIndicator" in Engineered(u, cal).data && "CustomIndicatorDiff" in Engineered(u, cal).data
    ensures Engineered(u, cal).data["CustomIndicator"] == Missings(|u.index|)
    ensures Engineered(u, cal).data["CustomIndicatorDiff"] == Missings(|u.index|)
  {
    LateIndicator(WithCalendar(LagAll(WithOpenExtrema(u), LAG_SOURCE_COLS, 1), cal));
  }

  lemma LateIndicator(t: Table)
    requires WellFormed(t)
    ensures "CustomIndicator" in WithoutYearWeek(WithIndicators(t)).data
    ensures "CustomIndicatorDiff" in WithoutYearWeek(WithIndicators(t)).data
    ensures WithoutYearWeek(WithIndicators(t)).data["CustomIndicator"] == Missings(|t.index|)
    ensures WithoutYearWeek(WithIndicators(t)).data["CustomIndicatorDiff"] == Missings(|t.index|)
  {
    var t4 := WithIndicators(t);
    IndicatorsFrame(t);
    LateStagesKeepsIndicator(t4);
  }

  /**
   * Every present lag source (the open-to-extrema placeholders always are)
   * has its "Lag1" column in the result: its cells moved down one row.
   */
  lemma EngineeredLags(u: Table, cal: Calendar)
    requires WellFormed(u)
    ensures forall k :: 0 <= k < |LAG_SOURCE_COLS| && LAG_SOURCE_COLS[k] in WithOpenExtrema(u).data ==>
      LAG_SOURCE_COLS[k] + "Lag1" in Engineered(u, cal).data &&
      Engineered(u, cal).data[LAG_SOURCE_COLS[k] + "Lag1"] == Shift(WithOpenExtrema(u).data[LAG_SOURCE_COLS[k]], 1)
  {
    var t1 := WithOpenExtrema(u);
    var t2 := LagAll(t1, LAG_SOURCE_COLS, 1);
    LagSourcesNoClash();
    LagAllValues(t1, LAG_SOURCE_COLS, 1);
    forall k | 0 <= k < |LAG_SOURCE_COLS| && LAG_SOURCE_COLS[k] in t1.data
      ensures LAG_SOURCE_COLS[k] + "Lag1" in Engineered(u, cal).data &&
        Engineered(u, cal).data[LAG_SOURCE_COLS[k] + "Lag1"] == Shift(t1.data[LAG_SOURCE_COLS[k]], 1)
    {
      var l := LAG_SOURCE_COLS[k] + "Lag1";
      assert l == LagName(LAG_SOURCE_COLS[k], 1);
      assert l[|l| - 1] == '1';
      LagNotDerived(l);
      CalendarOnwardKeeps(t2, cal, l);
    }
  }

  /**
   * The rows written are exactly the rows of the engineered table that are
   * not entirely missing, in their order (`idx` gives their positions), and
   * they are numbered 0 .. k - 1; the engineered table has the input's rows.
   */
  lemma ProcessFileRows(t: Table, cal: Calendar) returns (idx: seq<nat>)
    requires WellFormed(t) && ProcessFile(t, cal).Ok?
    ensures var e := Engineered(WithRunLength(WithPlaceholders(t)).value, cal);
      && e.index == t.index
      && ProcessFile(t, cal).value.index == Dense(|idx|)
      && StrictlyIncreasing(idx)
      && (forall k :: 0 <= k < |idx| ==> idx[k] < |t.index| && !RowAllMissing(e, idx[k]))
      && (forall i: nat :: i < |t.index| && !RowAllMissing(e, i) ==> i in idx)
      && (forall c, k :: c in e.data && 0 <= k < |idx| ==> ProcessFile(t, cal).value.data[c][k] == e.data[c][idx[k]])
      && (forall k :: 0 <= k < |idx| ==> !RowAllMissing(ProcessFile(t, cal).value, k))
  {
    var e := Engineered(WithRunLength(WithPlaceholders(t)).value, cal);
    idx := Clean.TrimSpec(e);
  }

  /** The run-length step adds the direction flag of the daily percentage and its run lengths. */
  lemma RunLengthStage(t: Table)
    requires WellFormed(t) && "DailyPct" in t.data && WithRunLength(t).Ok?
    ensures "DayPositive" in WithRunLength(t).value.data && "ConsecutivePosNegDays" in WithRunLength(t).value.data
    ensures WithRunLength(t).value.data["DayPositive"] == MapCells(t.data["DailyPct"], DayPositive)
    ensures WithRunLength(t).value.data["ConsecutivePosNegDays"] == RunLengths(MapCells(t.data["DailyPct"], DayPositive))
  {
  }

  /** The flag and run-length columns pass the feature steps unchanged. */
  lemma EngineeredFlag(u: Table, cal: Calendar)
    requires WellFormed(u)
    ensures Keeps(u, Engineered(u, cal), "DayPositive") && Keeps(u, Engineered(u, cal), "ConsecutivePosNegDays")
  {
    EngineeredKeeps(u, cal);
    assert !EndsInOne("DayPositive") && !EndsInOne("ConsecutivePosNegDays");
    assert "DayPositive" !in DERIVED_COLS && "ConsecutivePosNegDays" !in DERIVED_COLS;
  }

  /** A never-missing flag column keeps every row through trimming, and with them the flag and run-length cells. */
  lemma FlagRowsKept(u: Table, e: Table)
    requires WellFormed(u) && WellFormed(e) && e.index == u.index
    requires "DayPositive" in u.data && "ConsecutivePosNegDays" in u.data
    requires Keeps(u, e, "DayPositive") && Keeps(u, e, "ConsecutivePosNegDays")
    requires forall i :: 0 <= i < |u.data["DayPositive"]| ==> u.data["DayPositive"][i] != Missing
    ensures Clean.Trim(e).index == Dense(|u.index|)
    ensures "DayPositive" in Clean.Trim(e).data && "ConsecutivePosNegDays" in Clean.Trim(e).data
    ensures Clean.Trim(e).data["DayPositive"] == u.data["DayPositive"]
    ensures Clean.Trim(e).data["ConsecutivePosNegDays"] == u.data["ConsecutivePosNegDays"]
  {
    Clean.TrimKeepsAll(e, "DayPositive");
  }

  /** The flag and run length survive the feature steps and the trimming, which drops no row. */
  lemma EngineeredRunLength(u: Table, cal: Calendar)
    requires WellFormed(u) && "DayPositive" in u.data && "ConsecutivePosNegDays" in u.data
    requires forall i :: 0 <= i < |u.data["DayPositive"]| ==> u.data["DayPositive"][i] != Missing
    ensures Clean.Trim(Engineered(u, cal)).index == Dense(|u.index|)
    ensures "DayPositive" in Clean.Trim(Engineered(u, cal)).data
    ensures "ConsecutivePosNegDays" in Clean.Trim(Engineered(u, cal)).data
    ensures Clean.Trim(Engineered(u, cal)).data["DayPositive"] == u.data["DayPositive"]
    ensures Clean.Trim(Engineered(u, cal)).data["ConsecutivePosNegDays"] == u.data["ConsecutivePosNegDays"]
  {
    EngineeredFlag(u, cal);
    FlagRowsKept(u, Engineered(u, cal));
  }

  /**
   * With a daily percentage, the direction flag is derived from it cell by
   * cell, no row is dropped (the flag is never missing), and the written run
   * length column is the run length of the written flag column.
   */
  lemma ProcessFileRunLength(t: Table, cal: Calendar)
    requires WellFormed(t) && ProcessFile(t, cal).Ok? && "DailyPct" in WithPlaceholders(t).data
    ensures var r := ProcessFile(t, cal).value;
      && r.index == Dense(|t.index|)
      && "DayPositive" in r.data && "ConsecutivePosNegDays" in r.data
      && r.data["DayPositive"] == MapCells(WithPlaceholders(t).data["DailyPct"], DayPositive)
      && r.data["ConsecutivePosNegDays"] == RunLengths(r.data["DayPositive"])
  {
    var p := WithPlaceholders(t);
    assert ProcessFile(t, cal).value == Clean.Trim(Engineered(WithRunLength(p).value, cal));
    RunLengthWritten(p, cal);
  }

  /** The run-length columns of a table with a daily percentage, as written after the feature steps. */
  lemma RunLengthWritten(p: Table, cal: Calendar)
    requires WellFormed(p) && "DailyPct" in p.data && WithRunLength(p).Ok?
    ensures var r := Clean.Trim(Engineered(WithRunLength(p).value, cal));
      && r.index == Dense(|p.index|)
      && "DayPositive" in r.data && "ConsecutivePosNegDays" in r.data
      && r.data["DayPositive"] == MapCells(p.data["DailyPct"], DayPositive)
      && r.data["ConsecutivePosNegDays"] == RunLengths(r.data["DayPositive"])
  {
    var u := WithRunLength(p).value;
    RunLengthStage(p);
    EngineeredRunLength(u, cal);
  }
}

/**
 * The prediction stage: candidate-feature discovery, the bounded exhaustive
 * search over feature combinations, and the per-dataset summary entries.
 * The logistic-regression classifier is an oracle that gives, for a training
 * table, an evaluation table and a feature list, the number of evaluation rows
 * the fitted model labels correctly.
 */
module Pred {
  import opened Common
  import opened Config
  import opened Tables
  import opened Combinations

  // ---------------------------------------------------------------------------
  // Candidate-feature discovery
  // ---------------------------------------------------------------------------

  predicate HasCandidatePrefix(col: Name) {
    exists k :: 0 <= k < |CANDIDATE_FEATURE_PREFIXES| && StartsWith(col, CANDIDATE_FEATURE_PREFIXES[k])
  }

  /** Not excluded, and either lag-derived (suffix rule) or a domain signal (prefix rule). */
  predicate IsCandidate(col: Name) {
    col !in EXCLUDE_FEATURES && (EndsWith(col, LAG_SUFFIX) || HasCandidatePrefix(col))
  }

  function Candidates(columns: seq<Name>): seq<Name> {
    Filter(columns, IsCandidate)
  }

  /** The filter loop of `discovercandidatefeatures`. */
  method DiscoverCandidateFeatures(columns: seq<Name>) returns (candidates: seq<Name>)
    ensures candidates == Candidates(columns)
  {
    candidates := [];
    for k := 0 to |columns|
      invariant candidates == Candidates(columns[..k])
    {
      var col := columns[k];
      assert columns[..k + 1] == columns[..k] + [col];
      assert columns[..k + 1][..k] == columns[..k];
      if col in EXCLUDE_FEATURES {
        // skipped
      } else if EndsWith(col, LAG_SUFFIX) {
        candidates := candidates + [col];
      } else if exists p :: 0 <= p < |CANDIDATE_FEATURE_PREFIXES| && StartsWith(col, CANDIDATE_FEATURE_PREFIXES[p]) {
        candidates := candidates + [col];
      }
    }
    assert columns[..|columns|] == columns;
  }

  /**
   * The candidates are the input columns that pass the rules, in input order;
   * each passing column occurs as often as in the input, so distinct columns
   * give distinct candidates.
   */
  lemma CandidatesSpec(columns: seq<Name>)
    ensures IsSubsequence(Candidates(columns), columns)
    ensures forall x :: x in Candidates(columns) <==>
      x in columns && x !in EXCLUDE_FEATURES && (EndsWith(x, LAG_SUFFIX) || HasCandidatePrefix(x))
    ensures forall x :: multiset(Candidates(columns))[x] == if IsCandidate(x) then multiset(columns)[x] else 0
    ensures Distinct(columns) ==> Distinct(Candidates(columns))
  {
    FilterIsSubsequence(columns, IsCandidate);
    forall x ensures multiset(Candidates(columns))[x] == if IsCandidate(x) then multiset(columns)[x] else 0 {
      FilterMultiplicity(columns, IsCandidate, x);
    }
    if Distinct(columns) {
      FilterDistinct(columns, IsCandidate);
    }
  }

  // ---------------------------------------------------------------------------
  // Bounded combinatorial search
  // ---------------------------------------------------------------------------

  /** Correct predictions on `eval` of a classifier fitted on `train` with `features` as inputs. */
  type Oracle = (Table, Table, seq<Name>) -> nat

  /** The search result: no model, or the winning features with their number of correct test predictions. */
  datatype Selection = NoModel | Best(features: seq<Name>, correct: nat)

  /** `bestaccuracy`, which starts at 0. */
  function BestCorrect(s: Selection): nat {
    if s.NoModel? then 0 else s.correct
  }

  function Min(a: int, b: int): int {
    if a <= b then a else b
  }

  /** Every feature is a column of `t` (`all(f in df.columns for f in features)`). */
  predicate Present(features: seq<Name>, t: Table) {
    forall k :: 0 <= k < |features| ==> features[k] in t.columns
  }

  predicate Usable(features: seq<Name>, train: Table, test: Table) {
    Present(features, train) && Present(features, test)
  }

  /** The combinations of sizes 2 .. size, smaller sizes first. */
  function VisitsThrough(candidates: seq<Name>, size: nat): seq<seq<Name>> {
    if size < 2 then [] else VisitsThrough(candidates, size - 1) + Choose(candidates, size)
  }

  /** The combinations the search visits, in visiting order: sizes 2 .. min(5, n). */
  function Visits(candidates: seq<Name>): seq<seq<Name>> {
    VisitsThrough(candidates, if |candidates| < 5 then |candidates| else 5)
  }

  /** One iteration of the inner loop: keep the combination only if it is usable and strictly better. */
  function Step(s: Selection, features: seq<Name>, train: Table, test: Table, correct: Oracle): Selection {
    if Usable(features, train, test) && correct(train, test, features) > BestCorrect(s)
    then Best(features, correct(train, test, features))
    else s
  }

  function Scan(visits: seq<seq<Name>>, train: Table, test: Table, correct: Oracle): Selection {
    if visits == [] then NoModel
    else Step(Scan(visits[..|visits| - 1], train, test, correct), visits[|visits| - 1], train, test, correct)
  }

  function SelectFeatures(train: Table, test: Table, candidates: seq<Name>, correct: Oracle): Selection {
    Scan(Visits(candidates), train, test, correct)
  }

  /** The nested loops of `trainandselectfeatures`. */
  method TrainAndSelectFeatures(train: Table, test: Table, candidates: seq<Name>, correct: Oracle)
    returns (best: Selection)
    ensures best == SelectFeatures(train, test, candidates, correct)
  {
    var bestAccuracy: nat := 0;
    best := NoModel;
    var r := 2;
    while r < Min(6, |candidates| + 1)
      invariant 2 <= r && (r <= Min(6, |candidates| + 1) || r == 2)
      invariant best == Scan(VisitsThrough(candidates, r - 1), train, test, correct)
      invariant bestAccuracy == BestCorrect(best)
    {
      var combos := Choose(candidates, r);
      best, bestAccuracy := ScanCombos(VisitsThrough(candidates, r - 1), combos, train, test, correct, best, bestAccuracy);
      assert VisitsThrough(candidates, r) == VisitsThrough(candidates, r - 1) + combos;
      r := r + 1;
    }
    if |candidates| < 2 {
      assert VisitsThrough(candidates, r - 1) == [] == Visits(candidates);
    } else {
      assert r - 1 == if |candidates| < 5 then |candidates| else 5;
    }
  }

  /** The inner loop of `trainandselectfeatures` over the combinations of one size, after those in `done`. */
  method ScanCombos(ghost done: seq<seq<Name>>, combos: seq<seq<Name>>, train: Table, test: Table, correct: Oracle,
                    best0: Selection, accuracy0: nat)
    returns (best: Selection, bestAccuracy: nat)
    requires best0 == Scan(done, train, test, correct) && accuracy0 == BestCorrect(best0)
    ensures best == Scan(done + combos, train, test, correct) && bestAccuracy == BestCorrect(best)
  {
    best, bestAccuracy := best0, accuracy0;
    var k := 0;
    assert done + combos[..0] == done;
    while k < |combos|
      invariant 0 <= k <= |combos|
      invariant best == Scan(done + combos[..k], train, test, correct)
      invariant bestAccuracy == BestCorrect(best)
    {
      var features := combos[k];
      ScanSnoc(done, combos, k, train, test, correct);
      if Present(features, train) && Present(features, test) {
        var acc := correct(train, test, features);
        if acc > bestAccuracy {
          bestAccuracy := acc;
          best := Best(features, acc);
        }
      }
      k := k + 1;
    }
    assert combos[..|combos|] == combos;
  }

  /** Extending the visited prefix by one combination is one `Step`. */
  lemma ScanSnoc(done: seq<seq<Name>>, combos: seq<seq<Name>>, k: nat, train: Table, test: Table, correct: Oracle)
    requires k < |combos|
    ensures Scan(done + combos[..k + 1], train, test, correct)
      == Step(Scan(done + combos[..k], train, test, correct), combos[k], train, test, correct)
  {
    var next := done + combos[..k + 1];
    assert next[..|next| - 1] == done + combos[..k];
    assert next[|next| - 1] == combos[k];
  }

  /** Position k of `visits` is the first usable combination attaining the largest, positive, count. */
  ghost predicate FirstBest(visits: seq<seq<Name>>, k: nat, train: Table, test: Table, correct: Oracle) {
    && k < |visits|
    && Usable(visits[k], train, test)
    && correct(train, test, visits[k]) > 0
    && (forall j :: 0 <= j < |visits| && Usable(visits[j], train, test) ==>
          correct(train, test, visits[j]) <= correct(train, test, visits[k]))
    && (forall j :: 0 <= j < k && Usable(visits[j], train, test) ==>
          correct(train, test, visits[j]) < correct(train, test, visits[k]))
  }

  /**
   * The fold is an argmax with strict tie-breaking: no model exactly when no
   * usable combination has a positive count, and otherwise the first usable
   * combination with the maximal count, together with that count.
   */
  lemma {:induction false} ScanIsFirstArgmax(visits: seq<seq<Name>>, train: Table, test: Table, correct: Oracle)
    ensures Scan(visits, train, test, correct).NoModel? <==>
      forall j :: 0 <= j < |visits| && Usable(visits[j], train, test) ==> correct(train, test, visits[j]) == 0
    ensures Scan(visits, train, test, correct).Best? ==>
      && Scan(visits, train, test, correct).correct == correct(train, test, Scan(visits, train, test, correct).features)
      && exists k: nat :: FirstBest(visits, k, train, test, correct) && visits[k] == Scan(visits, train, test, correct).features
  {
    if visits != [] {
      var init, last := visits[..|visits| - 1], visits[|visits| - 1];
      ScanIsFirstArgmax(init, train, test, correct);
      var s := Scan(init, train, test, correct);
      assert forall j :: 0 <= j < |init| ==> init[j] == visits[j];
      if Usable(last, train, test) && correct(train, test, last) > BestCorrect(s) {
        if s.Best? {
          var k: nat :| FirstBest(init, k, train, test, correct) && init[k] == s.features;
        }
        assert FirstBest(visits, |visits| - 1, train, test, correct);
      } else if s.Best? {
        var k: nat :| FirstBest(init, k, train, test, correct) && init[k] == s.features;
        assert FirstBest(visits, k, train, test, correct);
      }
    }
  }

  lemma {:induction false} VisitsThroughShape(candidates: seq<Name>, size: nat, k: nat)
    requires k < |VisitsThrough(candidates, size)|
    ensures 2 <= |VisitsThrough(candidates, size)[k]| <= size
    ensures IsSubsequence(VisitsThrough(candidates, size)[k], candidates)
  {
    if size >= 2 {
      var init := VisitsThrough(candidates, size - 1);
      if k < |init| {
        VisitsThroughShape(candidates, size - 1, k);
      }
    }
  }

  lemma {:induction false} VisitsThroughSizes(candidates: seq<Name>, size: nat, k1: nat, k2: nat)
    requires k1 < k2 < |VisitsThrough(candidates, size)|
    ensures |VisitsThrough(candidates, size)[k1]| <= |VisitsThrough(candidates, size)[k2]|
  {
    var init := VisitsThrough(candidates, size - 1);
    if k2 < |init| {
      VisitsThroughSizes(candidates, size - 1, k1, k2);
    } else if k1 < |init| {
      VisitsThroughShape(candidates, size - 1, k1);
    }
  }

  lemma {:induction false} VisitsThroughComplete(candidates: seq<Name>, size: nat, idx: seq<nat>)
    requires 2 <= |idx| <= size && StrictlyIncreasing(idx) && InRange(idx, 0, |candidates|)
    ensures Pick(candidates, idx) in VisitsThrough(candidates, size)
  {
    if |idx| == size {
      ChooseComplete(candidates, size, idx);
    } else {
      VisitsThroughComplete(candidates, size - 1, idx);
    }
  }

  lemma {:induction false} IncreasingLowerBound(idx: seq<nat>, k: nat)
    requires StrictlyIncreasing(idx) && k < |idx|
    ensures idx[k] >= k
  {
    if k > 0 {
      IncreasingLowerBound(idx, k - 1);
    }
  }

  /**
   * The search visits nothing with fewer than two candidates; otherwise each
   * visited combination has 2 .. min(5, n) features taken from the candidates
   * in candidate order, and sizes never decrease along the visit order.
   */
  lemma VisitsShape(candidates: seq<Name>)
    ensures |candidates| < 2 ==> Visits(candidates) == []
    ensures forall k :: 0 <= k < |Visits(candidates)| ==>
      2 <= |Visits(candidates)[k]| <= 5 && |Visits(candidates)[k]| <= |candidates|
      && IsSubsequence(Visits(candidates)[k], candidates)
    ensures forall k1, k2 :: 0 <= k1 < k2 < |Visits(candidates)| ==>
      |Visits(candidates)[k1]| <= |Visits(candidates)[k2]|
  {
    var size := if |candidates| < 5 then |candidates| else 5;
    forall k | 0 <= k < |Visits(candidates)|
      ensures 2 <= |Visits(candidates)[k]| <= size && IsSubsequence(Visits(candidates)[k], candidates)
    {
      VisitsThroughShape(candidates, size, k);
    }
    forall k1, k2 | 0 <= k1 < k2 < |Visits(candidates)|
      ensures |Visits(candidates)[k1]| <= |Visits(candidates)[k2]|
    {
      VisitsThroughSizes(candidates, size, k1, k2);
    }
  }

  /** Every choice of 2 .. 5 candidates by increasing positions is visited. */
  lemma VisitsComplete(candidates: seq<Name>, idx: seq<nat>)
    requires 2 <= |idx| <= 5 && StrictlyIncreasing(idx) && InRange(idx, 0, |candidates|)
    ensures Pick(candidates, idx) in Visits(candidates)
  {
    IncreasingLowerBound(idx, |idx| - 1);
    VisitsThroughComplete(candidates, if |candidates| < 5 then |candidates| else 5, idx);
  }

  /**
   * What `trainandselectfeatures` returns: nothing for fewer than two
   * candidates or when no usable combination scores above zero; otherwise a
   * combination of 2 .. 5 candidates, in candidate order, present in both
   * splits, with the maximal count, visited before every other usable
   * combination with that count.
   */
  lemma SelectFeaturesSpec(train: Table, test: Table, candidates: seq<Name>, correct: Oracle)
    ensures |candidates| < 2 ==> SelectFeatures(train, test, candidates, correct) == NoModel
    ensures SelectFeatures(train, test, candidates, correct).NoModel? <==>
      forall j :: 0 <= j < |Visits(candidates)| && Usable(Visits(candidates)[j], train, test) ==>
        correct(train, test, Visits(candidates)[j]) == 0
    ensures SelectFeatures(train, test, candidates, correct).Best? ==>
      && 2 <= |SelectFeatures(train, test, candidates, correct).features| <= 5
      && IsSubsequence(SelectFeatures(train, test, candidates, correct).features, candidates)
      && Usable(SelectFeatures(train, test, candidates, correct).features, train, test)
      && SelectFeatures(train, test, candidates, correct).correct
         == correct(train, test, SelectFeatures(train, test, candidates, correct).features) > 0
      && exists k: nat :: FirstBest(Visits(candidates), k, train, test, correct)
           && Visits(candidates)[k] == SelectFeatures(train, test, candidates, correct).features
  {
    var visits := Visits(candidates);
    ScanIsFirstArgmax(visits, train, test, correct);
    VisitsShape(candidates);
    var best := Scan(visits, train, test, correct);
    if best.Best? {
      var k: nat :| FirstBest(visits, k, train, test, correct) && visits[k] == best.features;
      assert 2 <= |visits[k]| <= 5 && IsSubsequence(visits[k], candidates);
    }
  }

  // ---------------------------------------------------------------------------
  // Per-dataset driver and summary entries
  // ---------------------------------------------------------------------------

  /** The files found for one basename: the training split, and the test and current splits when they exist. */
  datatype PredInput = PredInput(basename: Name, train: Table, test: Option<Table>, current: Option<Table>)

  /** One row of the final summary; the current accuracy is absent unless it could be measured. */
  datatype SummaryEntry = SummaryEntry(dataset: Name, testCorrect: nat, currentCorrect: Option<nat>, features: seq<Name>)

  datatype SkipReason = MissingTestFile | MissingTarget | NoCandidates | NoValidCombination

  datatype Outcome = Skipped(reason: SkipReason) | Evaluated(entry: SummaryEntry)

  /** The accuracy recorded for the current split of a dataset whose search found `features`. */
  function CurrentCorrect(d: PredInput, features: seq<Name>, correct: Oracle): Option<nat> {
    if d.current.Some? && Present(features, d.current.value) && TARGET_COL in d.current.value.columns
    then Some(correct(d.train, d.current.value, features))
    else None
  }

  /** The processing of one basename in `runpredictions`. */
  function EvaluateDataset(d: PredInput, correct: Oracle): Outcome {
    if d.test.None? then Skipped(MissingTestFile)
    else if TARGET_COL !in d.train.columns || TARGET_COL !in d.test.value.columns then Skipped(MissingTarget)
    else if Candidates(d.train.columns) == [] then Skipped(NoCandidates)
    else
      match SelectFeatures(d.train, d.test.value, Candidates(d.train.columns), correct)
      case NoModel => Skipped(NoValidCombination)
      case Best(features, testCorrect) =>
        Evaluated(SummaryEntry(d.basename, testCorrect, CurrentCorrect(d, features, correct), features))
  }

  function Outcomes(datasets: seq<PredInput>, correct: Oracle): (outs: seq<Outcome>)
    ensures |outs| == |datasets|
  {
    seq(|datasets|, i requires 0 <= i < |datasets| => EvaluateDataset(datasets[i], correct))
  }

  /** The entries of the evaluated datasets, in order. */
  function Entries(outs: seq<Outcome>): seq<SummaryEntry> {
    if outs == [] then []
    else
      Entries(outs[..|outs| - 1])
      + match outs[|outs| - 1]
        case Evaluated(e) => [e]
        case Skipped(_) => []
  }

  function Summary(datasets: seq<PredInput>, correct: Oracle): seq<SummaryEntry> {
    Entries(Outcomes(datasets, correct))
  }

  /** The loop of `runpredictions` over the training files, collecting `summaryresults`. */
  method RunPredictions(datasets: seq<PredInput>, correct: Oracle) returns (summary: seq<SummaryEntry>)
    ensures summary == Summary(datasets, correct)
  {
    summary := [];
    ghost var outs := Outcomes(datasets, correct);
    for i := 0 to |datasets|
      invariant summary == Entries(outs[..i])
    {
      var d := datasets[i];
      assert outs[..i + 1][..i] == outs[..i];
      assert outs[i] == EvaluateDataset(d, correct);
      if d.test.Some? && TARGET_COL in d.train.columns && TARGET_COL in d.test.value.columns {
        var candidates := DiscoverCandidateFeatures(d.train.columns);
        if candidates != [] {
          var best := TrainAndSelectFeatures(d.train, d.test.value, candidates, correct);
          if best.Best? {
            var current: Option<nat> := None;
            if d.current.Some? && Present(best.features, d.current.value) {
              if TARGET_COL in d.current.value.columns {
                current := Some(correct(d.train, d.current.value, best.features));
              }
            }
            summary := summary + [SummaryEntry(d.basename, best.correct, current, best.features)];
          }
        }
      }
    }
    assert outs[..|datasets|] == outs;
  }

  /**
   * A dataset yields an entry exactly when it passes the file and target
   * checks, has candidates, and the search finds a model. The entry carries
   * the dataset's name, the best features and their positive test count; its
   * current accuracy is present exactly when the current split exists and
   * has every best feature and the target.
   */
  lemma EvaluateDatasetSpec(d: PredInput, correct: Oracle)
    ensures EvaluateDataset(d, correct).Evaluated? <==>
      && d.test.Some? && TARGET_COL in d.train.columns && TARGET_COL in d.test.value.columns
      && SelectFeatures(d.train, d.test.value, Candidates(d.train.columns), correct).Best?
    ensures EvaluateDataset(d, correct).Evaluated? ==>
      var e := EvaluateDataset(d, correct).entry;
      && e.dataset == d.basename
      && e.features == SelectFeatures(d.train, d.test.value, Candidates(d.train.columns), correct).features
      && Usable(e.features, d.train, d.test.value)
      && e.testCorrect == correct(d.train, d.test.value, e.features) > 0
      && (e.currentCorrect.Some? <==>
            d.current.Some? && Present(e.features, d.current.value) && TARGET_COL in d.current.value.columns)
  {
    if d.test.Some? {
      var cands := Candidates(d.train.columns);
      SelectFeaturesSpec(d.train, d.test.value, cands, correct);
      if cands == [] {
        assert Visits(cands) == [];
      }
    }
  }

  /** The entries are those of the evaluated outcomes, in order: `idx` gives the outcome of each entry. */
  lemma {:induction false} EntriesOrder(outs: seq<Outcome>) returns (idx: seq<nat>)
    ensures StrictlyIncreasing(idx) && |idx| == |Entries(outs)|
    ensures forall k :: 0 <= k < |idx| ==> idx[k] < |outs| && outs[idx[k]] == Evaluated(Entries(outs)[k])
    ensures forall i :: 0 <= i < |outs| && outs[i].Evaluated? ==> i in idx
  {
    if outs == [] {
      idx := [];
    } else {
      var init := outs[..|outs| - 1];
      var idx0 := EntriesOrder(init);
      assert forall j :: 0 <= j < |init| ==> init[j] == outs[j];
      var last := outs[|outs| - 1];
      if last.Evaluated? {
        assert Entries(outs) == Entries(init) + [last.entry];
        idx := idx0 + [|outs| - 1];
      } else {
        assert Entries(outs) == Entries(init);
        idx := idx0;
      }
    }
  }

  /**
   * The summary holds one entry per dataset that was evaluated, in processing
   * order, and nothing for the others: `idx` gives the dataset of each entry.
   */
  lemma SummaryOrder(datasets: seq<PredInput>, correct: Oracle) returns (idx: seq<nat>)
    ensures |Summary(datasets, correct)| <= |datasets|
    ensures StrictlyIncreasing(idx) && |idx| == |Summary(datasets, correct)|
    ensures forall k :: 0 <= k < |idx| ==>
      idx[k] < |datasets| && EvaluateDataset(datasets[idx[k]], correct) == Evaluated(Summary(datasets, correct)[k])
    ensures forall i :: 0 <= i < |datasets| && EvaluateDataset(datasets[i], correct).Evaluated? ==> i in idx
  {
    var outs := Outcomes(datasets, correct);
    idx := EntriesOrder(outs);
    IncreasingBelow(idx, |outs|);
  }

  /** A strictly increasing sequence of positions below n has at most n elements. */
  lemma IncreasingBelow(idx: seq<nat>, n: nat)
    requires StrictlyIncreasing(idx) && forall k :: 0 <= k < |idx| ==> idx[k] < n
    ensures |idx| <= n
  {
    if |idx| > 0 {
      IncreasingLowerBound(idx, |idx| - 1);
    }
  }
}

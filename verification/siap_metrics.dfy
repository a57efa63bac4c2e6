/** The SIAP (single integrated air picture) metrics of a run, read from the per-step counts:
    completeness, false-track ratio and ambiguity, each as a time series and as one overall value.
    The overall values divide sums over all steps, so every step weighs in proportion to its
    counts rather than as one point of an average. A zero denominator gives NaN, infinity or a
    `ZeroDivisionError` in the original; here it gives `None`. */
module SiapMetrics {
  import opened Wrappers
  import opened LinearSumAssignment
  import opened CostMatrix
  import opened DataManager
  import opened DataTruthAnalyzer

  // ---------------------------------------------------------------- the counts of one step

  function Assigned(st: StepData): int {
    st.numAssignedTrks
  }

  function Associated(st: StepData): int {
    st.numAssociatedTrks
  }

  function TruthCount(st: StepData): int {
    |st.validTruthIds|
  }

  function TrackCount(st: StepData): int {
    |st.validTrkIds|
  }

  /** Valid tracks with no truth inside their gate. */
  function FalseCount(st: StepData): int {
    |st.validTrkIds| - st.numAssociatedTrks
  }

  /** The bounds every step of the engine meets. */
  predicate Consistent(st: StepData) {
    0 <= st.numAssignedTrks <= st.numAssociatedTrks <= |st.validTrkIds| && st.numAssignedTrks <= |st.validTruthIds|
  }

  // ---------------------------------------------------------------- ratios and sums

  /** `num / den`, undefined when the denominator is zero. */
  function Ratio(num: int, den: int): (r: Option<real>)
    ensures r.Some? <==> den != 0
    ensures r.Some? ==> r.value * (den as real) == num as real
  {
    if den == 0 then None else Some(num as real / den as real)
  }

  /** `sum(...)` of one count over the steps, in time order. */
  function Total(steps: seq<StepData>, count: StepData -> int): int {
    if |steps| == 0 then 0 else Total(steps[..|steps| - 1], count) + count(steps[|steps| - 1])
  }

  /** The sum over the steps of each step's ratio times its weight, skipping undefined ratios: the
      numerator an average weighted by `den` would have. */
  function WeightedTotal(steps: seq<StepData>, num: StepData -> int, den: StepData -> int): real {
    if |steps| == 0 then 0.0
    else
      var st := steps[|steps| - 1];
      var r := Ratio(num(st), den(st));
      WeightedTotal(steps[..|steps| - 1], num, den) + (if r.Some? then r.value * (den(st) as real) else 0.0)
  }

  // ---------------------------------------------------------------- the metrics

  /** Overall completeness: assigned tracks over valid truths, summed over time. */
  function Completeness(steps: seq<StepData>): (c: Option<real>)
    ensures c.Some? <==> Total(steps, TruthCount) != 0
    ensures c.Some? ==> c.value * (Total(steps, TruthCount) as real) == Total(steps, Assigned) as real
  {
    Ratio(Total(steps, Assigned), Total(steps, TruthCount))
  }

  /** Overall false-track ratio: unassociated tracks over valid tracks, summed over time. */
  function FalseTrackRatio(steps: seq<StepData>): (f: Option<real>)
    ensures f.Some? <==> Total(steps, TrackCount) != 0
    ensures f.Some? ==> f.value * (Total(steps, TrackCount) as real) == Total(steps, FalseCount) as real
  {
    Ratio(Total(steps, FalseCount), Total(steps, TrackCount))
  }

  /** Overall ambiguity: associated tracks over assigned tracks, summed over time. */
  function Ambiguity(steps: seq<StepData>): (a: Option<real>)
    ensures a.Some? <==> Total(steps, Assigned) != 0
    ensures a.Some? ==> a.value * (Total(steps, Assigned) as real) == Total(steps, Associated) as real
  {
    Ratio(Total(steps, Associated), Total(steps, Assigned))
  }

  /** The completeness, false-track ratio and ambiguity of each step, in time order. */
  function CompletenessOverTime(steps: seq<StepData>): (c: seq<Option<real>>)
    ensures |c| == |steps|
    ensures forall k :: 0 <= k < |steps| ==> (c[k].Some? <==> TruthCount(steps[k]) != 0)
    ensures forall k :: 0 <= k < |steps| && c[k].Some? ==> c[k].value * (TruthCount(steps[k]) as real) == Assigned(steps[k]) as real
  {
    seq(|steps|, k requires 0 <= k < |steps| => Ratio(Assigned(steps[k]), TruthCount(steps[k])))
  }

  function FalseTrackRatioOverTime(steps: seq<StepData>): (f: seq<Option<real>>)
    ensures |f| == |steps|
    ensures forall k :: 0 <= k < |steps| ==> (f[k].Some? <==> TrackCount(steps[k]) != 0)
    ensures forall k :: 0 <= k < |steps| && f[k].Some? ==> f[k].value * (TrackCount(steps[k]) as real) == FalseCount(steps[k]) as real
  {
    seq(|steps|, k requires 0 <= k < |steps| => Ratio(FalseCount(steps[k]), TrackCount(steps[k])))
  }

  function AmbiguityOverTime(steps: seq<StepData>): (a: seq<Option<real>>)
    ensures |a| == |steps|
    ensures forall k :: 0 <= k < |steps| ==> (a[k].Some? <==> Assigned(steps[k]) != 0)
    ensures forall k :: 0 <= k < |steps| && a[k].Some? ==> a[k].value * (Assigned(steps[k]) as real) == Associated(steps[k]) as real
  {
    seq(|steps|, k requires 0 <= k < |steps| => Ratio(Associated(steps[k]), Assigned(steps[k])))
  }

  // ---------------------------------------------------------------- facts about sums

  /** A sum of counts that are pointwise no larger is no larger. */
  lemma {:induction false} TotalMonotone(steps: seq<StepData>, f: StepData -> int, g: StepData -> int)
    requires forall k :: 0 <= k < |steps| ==> f(steps[k]) <= g(steps[k])
    ensures Total(steps, f) <= Total(steps, g)
  {
    if |steps| > 0 {
      TotalMonotone(steps[..|steps| - 1], f, g);
    }
  }

  /** A sum of non-negative counts is positive exactly when some step's count is. */
  lemma {:induction false} TotalPositive(steps: seq<StepData>, f: StepData -> int)
    requires forall k :: 0 <= k < |steps| ==> 0 <= f(steps[k])
    ensures 0 <= Total(steps, f)
    ensures 0 < Total(steps, f) <==> exists k :: 0 <= k < |steps| && 0 < f(steps[k])
  {
    if |steps| > 0 {
      var n := |steps| - 1;
      TotalPositive(steps[..n], f);
      if exists k :: 0 <= k < n && 0 < f(steps[..n][k]) {
        var k :| 0 <= k < n && 0 < f(steps[..n][k]);
        assert steps[k] == steps[..n][k];
      }
      if exists k :: 0 <= k < |steps| && 0 < f(steps[k]) {
        var k :| 0 <= k < |steps| && 0 < f(steps[k]);
        if k < n {
          assert steps[..n][k] == steps[k];
        }
      }
    }
  }

  /** The false-track numerator is the valid tracks minus the associated ones, summed. */
  lemma {:induction false} FalseTotalSplits(steps: seq<StepData>)
    ensures Total(steps, FalseCount) == Total(steps, TrackCount) - Total(steps, Associated)
  {
    if |steps| > 0 {
      FalseTotalSplits(steps[..|steps| - 1]);
    }
  }

  /** When a step with a zero denominator also has a zero numerator, the overall ratio is the
      average of the per-step ratios weighted by their denominators. */
  lemma {:induction false} WeightedTotalIsNumerator(steps: seq<StepData>, num: StepData -> int, den: StepData -> int)
    requires forall k :: 0 <= k < |steps| ==> den(steps[k]) == 0 ==> num(steps[k]) == 0
    ensures WeightedTotal(steps, num, den) == Total(steps, num) as real
  {
    if |steps| > 0 {
      WeightedTotalIsNumerator(steps[..|steps| - 1], num, den);
    }
  }

  // ---------------------------------------------------------------- properties of the metrics

  /** Completeness and false-track ratio lie in [0, 1] and ambiguity is at least 1, whenever they
      are defined; they are defined exactly when some step has a valid truth, a valid track and an
      assigned track respectively. */
  lemma MetricsBounded(steps: seq<StepData>)
    requires forall k :: 0 <= k < |steps| ==> Consistent(steps[k])
    ensures Completeness(steps).Some? <==> exists k :: 0 <= k < |steps| && 0 < TruthCount(steps[k])
    ensures FalseTrackRatio(steps).Some? <==> exists k :: 0 <= k < |steps| && 0 < TrackCount(steps[k])
    ensures Ambiguity(steps).Some? <==> exists k :: 0 <= k < |steps| && 0 < Assigned(steps[k])
    ensures Completeness(steps).Some? ==> 0.0 <= Completeness(steps).value <= 1.0
    ensures FalseTrackRatio(steps).Some? ==> 0.0 <= FalseTrackRatio(steps).value <= 1.0
    ensures Ambiguity(steps).Some? ==> 1.0 <= Ambiguity(steps).value
  {
    TotalPositive(steps, TruthCount);
    TotalPositive(steps, TrackCount);
    TotalPositive(steps, Assigned);
    TotalPositive(steps, Associated);
    TotalPositive(steps, FalseCount);
    TotalMonotone(steps, Assigned, TruthCount);
    TotalMonotone(steps, FalseCount, TrackCount);
    TotalMonotone(steps, Assigned, Associated);
    UnitRatio(Total(steps, Assigned), Total(steps, TruthCount));
    UnitRatio(Total(steps, FalseCount), Total(steps, TrackCount));
    AboveOneRatio(Total(steps, Associated), Total(steps, Assigned));
  }

  /** A ratio of a non-negative count to a count at least as large lies in [0, 1]. */
  lemma UnitRatio(num: int, den: int)
    requires 0 <= num <= den
    ensures Ratio(num, den).Some? ==> 0.0 <= Ratio(num, den).value <= 1.0
  {
    if den != 0 {
      assert 0.0 <= (num as real) / (den as real) <= 1.0;
    }
  }

  /** A ratio of a count to a positive count no larger is at least 1. */
  lemma AboveOneRatio(num: int, den: int)
    requires 0 <= den <= num
    ensures Ratio(num, den).Some? ==> 1.0 <= Ratio(num, den).value
  {
    if den != 0 {
      assert 1.0 <= (num as real) / (den as real);
    }
  }

  /** Each step's completeness and false-track ratio lie in [0, 1] and its ambiguity is at least
      1, whenever defined. */
  lemma StepMetricsBounded(steps: seq<StepData>, k: nat)
    requires k < |steps| && Consistent(steps[k])
    ensures var c := CompletenessOverTime(steps)[k]; c.Some? ==> 0.0 <= c.value <= 1.0
    ensures var f := FalseTrackRatioOverTime(steps)[k]; f.Some? ==> 0.0 <= f.value <= 1.0
    ensures var a := AmbiguityOverTime(steps)[k]; a.Some? ==> 1.0 <= a.value
  {
    var st := steps[k];
    UnitRatio(Assigned(st), TruthCount(st));
    UnitRatio(FalseCount(st), TrackCount(st));
    AboveOneRatio(Associated(st), Assigned(st));
  }

  /** The average of the per-step ratios `num / den` weighted by `den`: the sum of each defined
      ratio times its weight, over the sum of the weights. */
  function WeightedMean(steps: seq<StepData>, num: StepData -> int, den: StepData -> int): Option<real> {
    var w := Total(steps, den);
    if w == 0 then None else Some(WeightedTotal(steps, num, den) / (w as real))
  }

  /** Overall completeness is time-weighted: it is the average of the per-step values weighted
      by each step's number of valid truths, not their plain average. */
  lemma CompletenessIsTimeWeighted(steps: seq<StepData>)
    requires forall k :: 0 <= k < |steps| ==> Consistent(steps[k])
    ensures Completeness(steps) == WeightedMean(steps, Assigned, TruthCount)
  {
    assert forall k :: 0 <= k < |steps| ==> TruthCount(steps[k]) == 0 ==> Assigned(steps[k]) == 0;
    WeightedTotalIsNumerator(steps, Assigned, TruthCount);
  }

  /** Overall false-track ratio is time-weighted: it is the average of the per-step values
      weighted by each step's number of valid tracks. */
  lemma FalseTrackRatioIsTimeWeighted(steps: seq<StepData>)
    requires forall k :: 0 <= k < |steps| ==> Consistent(steps[k])
    ensures FalseTrackRatio(steps) == WeightedMean(steps, FalseCount, TrackCount)
  {
    assert forall k :: 0 <= k < |steps| ==> TrackCount(steps[k]) == 0 ==> FalseCount(steps[k]) == 0;
    WeightedTotalIsNumerator(steps, FalseCount, TrackCount);
  }

  /** A step with one truth and two tracks inside its gate, one of them assigned (a track dual),
      has ambiguity 2, overall and at its time: associated over assigned, not the inverse. */
  lemma DualTrackAmbiguity(st: StepData)
    requires st.numAssociatedTrks == 2 && st.numAssignedTrks == 1
    ensures Ambiguity([st]) == Some(2.0)
    ensures AmbiguityOverTime([st]) == [Some(2.0)]
  {
    assert [st][..0] == [];
    assert Total([st], Associated) == 2;
    assert Total([st], Assigned) == 1;
  }

  /** The metrics of a successful run of the engine: completeness and false-track ratio in [0, 1],
      ambiguity at least 1, per-step counts within the same bounds, and every step's assigned
      count equal to the number of truths that recorded a track. */
  lemma RunMetricsBounded(tracks: Manager, truths: Manager, sqrt: real -> real, solve: Matrix -> seq<nat>)
    requires tracks.Valid() && truths.Valid() && truths.Raw() && IsSqrt(sqrt) && IsSolver(solve)
    ensures AssignTracksToTruth(tracks, truths, sqrt, solve).Success? ==>
      var steps := AssignTracksToTruth(tracks, truths, sqrt, solve).value.allTimeData;
      && (Completeness(steps).Some? ==> 0.0 <= Completeness(steps).value <= 1.0)
      && (FalseTrackRatio(steps).Some? ==> 0.0 <= FalseTrackRatio(steps).value <= 1.0)
      && (Ambiguity(steps).Some? ==> 1.0 <= Ambiguity(steps).value)
      && (forall k :: 0 <= k < |steps| ==> Consistent(steps[k]))
      && forall k :: 0 <= k < |steps| ==> steps[k].Shaped() && steps[k].CountsAssigned()
  {
    if AssignTracksToTruth(tracks, truths, sqrt, solve).Success? {
      MetricsBounded(AssignTracksToTruth(tracks, truths, sqrt, solve).value.allTimeData);
    }
  }
}

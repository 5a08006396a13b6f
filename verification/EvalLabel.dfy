/** The status label that `main` of `validate_eval_suite.py` prints for a suite without errors. */
module EvalLabel {
  import opened EvalSuite
  import opened Counters
  import opened EvalCatalog
  import EvalRuns

  datatype Label = Exploratory | Pilot | Benchmark | StableBenchmark

  predicate IsAdvanced(s: Structure) {
    s in {Combined, Layered, Distributed, Camouflaged, Interference}
  }

  ghost predicate HasAllTiers(rows: seq<Seed>) {
    && (exists s :: s in rows && s.control != NegativeControl && s.difficulty == Easy)
    && (exists s :: s in rows && s.control != NegativeControl && s.difficulty == Medium)
    && (exists s :: s in rows && s.control != NegativeControl && s.difficulty == Hard)
  }

  ghost predicate HasAdvanced(rows: seq<Seed>) {
    exists s :: s in rows && s.control != NegativeControl && IsAdvanced(s.structure)
  }

  ghost predicate HasControl(rows: seq<Seed>, c: Control) {
    exists s :: s in rows && s.control == c
  }

  /** The three tests of `main` that repeat the catalogue check; here no standard seed means no negative needed. */
  ghost predicate NegativeRatioOk(rows: seq<Seed>) {
    Count(rows, Controlled(NegativeControl)) >= NegativesFor(Count(rows, Controlled(Standard)))
  }

  ghost predicate AllDimensionsDense(rows: seq<Seed>) {
    (exists d :: Count(rows, Measures(d)) > 0) && DimensionsOk(rows)
  }

  ghost function LabelOf(filesPresent: bool, rows: seq<Seed>, distinctRuns: nat, depthOk: bool): Label {
    if !filesPresent then Exploratory
    else if |rows| < 30 || !HasAdvanced(rows) then Pilot
    else if |rows| >= 36 && HasControl(rows, PositiveControl) && HasControl(rows, NegativeControl)
      && HasControl(rows, RegressionSeed)
            && HasAllTiers(rows) && HasAdvanced(rows) && NegativeRatioOk(rows) && depthOk && distinctRuns >= 3 then
      if |rows| >= 54 && NegativeRatioOk(rows) && AllDimensionsDense(rows) then StableBenchmark else Benchmark
    else Pilot
  }

  /** A benchmark catalogue without errors passes the control, negative-ratio and density tests of `main`. */
  lemma AcceptedCatalogPassesRepeatedTests(rows: seq<Seed>, cells: Cells)
    requires CatalogOk(rows, cells, BenchmarkSuite)
    ensures HasControl(rows, PositiveControl) && HasControl(rows, NegativeControl) && HasControl(rows, RegressionSeed)
    ensures NegativeRatioOk(rows) && AllDimensionsDense(rows)
  {
    CountZero(rows, Controlled(PositiveControl));
    CountZero(rows, Controlled(NegativeControl));
    CountZero(rows, Controlled(RegressionSeed));
    var s :| s in rows && s.control == PositiveControl;
    CountZero(rows, Measures(s.dimension));
    assert Measures(s.dimension)(s);
  }

  /** So in benchmark mode without errors the label is decided by size, tiers, structure, depth and runs alone:
      stable from 54 seeds, benchmark from 36 to 53, otherwise pilot. */
  lemma LabelIsExact(rows: seq<Seed>, cells: Cells, distinctRuns: nat, depthOk: bool)
    requires CatalogOk(rows, cells, BenchmarkSuite)
    ensures var ready := HasAllTiers(rows) && HasAdvanced(rows) && depthOk && distinctRuns >= 3;
            var status := LabelOf(true, rows, distinctRuns, depthOk);
            && (status == StableBenchmark <==> ready && |rows| >= 54)
            && (status == Benchmark <==> ready && 36 <= |rows| < 54)
            && (status == Pilot <==> !ready || |rows| < 36)
  {
    AcceptedCatalogPassesRepeatedTests(rows, cells);
  }

  /** When the scored runs were accepted too, with at least three runs asked for, the runs need no counting: the label
      of an accepted suite is decided by its seeds. */
  lemma AcceptedSuiteLabel(rows: seq<Seed>, cells: Cells, c: EvalRuns.Context, runRows: seq<EvalRuns.Row>,
                           depthOk: bool)
    requires CatalogOk(rows, cells, BenchmarkSuite)
    requires c.kind == BenchmarkSuite && c.minRuns >= 3 && (forall s :: s in rows ==> s.id in c.seeds)
    requires runRows != [] && EvalRuns.Accepted(c, runRows)
    ensures |EvalRuns.FullRuns(runRows)| >= 3
    ensures var ready := HasAllTiers(rows) && HasAdvanced(rows) && depthOk;
            var status := LabelOf(true, rows, |EvalRuns.FullRuns(runRows)|, depthOk);
            && (status == StableBenchmark <==> ready && |rows| >= 54)
            && (status == Benchmark <==> ready && 36 <= |rows| < 54)
            && (status == Pilot <==> !ready || |rows| < 36)
  {
    AcceptedCatalogPassesRepeatedTests(rows, cells);
    var s :| s in rows && s.control == RegressionSeed;
    EvalRuns.EnoughFullRuns(c, runRows, s.id);
    LabelIsExact(rows, cells, |EvalRuns.FullRuns(runRows)|, depthOk);
  }

  /** A row that measures a capability and has the property p. */
  ghost predicate Capable(rows: seq<Seed>, n: nat, p: Seed -> bool)
    requires n <= |rows|
  {
    exists i :: 0 <= i < n && rows[i].control != NegativeControl && p(rows[i])
  }

  function OfDifficulty(d: Difficulty): Seed -> bool {
    (s: Seed) => s.difficulty == d
  }

  function OfStructure(t: Structure): Seed -> bool {
    (s: Seed) => s.structure == t
  }

  lemma CapableNext(rows: seq<Seed>, n: nat, p: Seed -> bool)
    requires n < |rows|
    ensures Capable(rows, n + 1, p) <==> Capable(rows, n, p) || (rows[n].control != NegativeControl && p(rows[n]))
  {
    if rows[n].control != NegativeControl && p(rows[n]) {
      assert Capable(rows, n + 1, p);
    }
  }

  /** What the loop has gathered from the first n rows. */
  ghost predicate Gathered(rows: seq<Seed>, n: nat, controls: set<Control>, difficulties: set<Difficulty>,
                           structures: set<Structure>)
    requires n <= |rows|
  {
    && (forall c :: c in controls <==> exists i :: 0 <= i < n && rows[i].control == c)
    && (forall d :: d in difficulties <==> Capable(rows, n, OfDifficulty(d)))
    && (forall t :: t in structures <==> Capable(rows, n, OfStructure(t)))
  }

  lemma GatherNext(rows: seq<Seed>, n: nat, controls: set<Control>, difficulties: set<Difficulty>,
                   structures: set<Structure>)
    requires n < |rows| && Gathered(rows, n, controls, difficulties, structures)
    ensures var s := rows[n];
            if s.control == NegativeControl then Gathered(rows, n + 1, controls + {s.control}, difficulties, structures)
            else Gathered(rows, n + 1, controls + {s.control}, difficulties + {s.difficulty},
                          structures + {s.structure})
  {
    forall d ensures Capable(rows, n + 1, OfDifficulty(d))
                     <==> d in difficulties || (rows[n].control != NegativeControl && d == rows[n].difficulty)
    {
      CapableNext(rows, n, OfDifficulty(d));
    }
    forall t ensures Capable(rows, n + 1, OfStructure(t))
                     <==> t in structures || (rows[n].control != NegativeControl && t == rows[n].structure)
    {
      CapableNext(rows, n, OfStructure(t));
    }
  }

  /** The sums and sets `main` takes over the accepted rows. */
  method Tally(rows: seq<Seed>)
    returns (standard: nat, negatives: nat, controls: set<Control>, difficulties: set<Difficulty>,
             structures: set<Structure>)
    ensures standard == Count(rows, Controlled(Standard)) && negatives == Count(rows, Controlled(NegativeControl))
    ensures Gathered(rows, |rows|, controls, difficulties, structures)
  {
    standard, negatives, controls, difficulties, structures := 0, 0, {}, {}, {};
    var i := 0;
    while i < |rows|
      invariant 0 <= i <= |rows|
      invariant standard == Count(rows[..i], Controlled(Standard))
                && negatives == Count(rows[..i], Controlled(NegativeControl))
      invariant Gathered(rows, i, controls, difficulties, structures)
    {
      var s := rows[i];
      CountNext(rows, i, Controlled(Standard));
      CountNext(rows, i, Controlled(NegativeControl));
      GatherNext(rows, i, controls, difficulties, structures);
      controls := controls + {s.control};
      if s.control == Standard { standard := standard + 1; }
      if s.control == NegativeControl {
        negatives := negatives + 1;
      } else {
        difficulties := difficulties + {s.difficulty};
        structures := structures + {s.structure};
      }
      i := i + 1;
    }
    assert rows[..i] == rows;
  }

  lemma TierAgrees(rows: seq<Seed>, d: Difficulty)
    ensures Capable(rows, |rows|, OfDifficulty(d))
            <==> exists s :: s in rows && s.control != NegativeControl && s.difficulty == d
  {
  }

  lemma AdvancedAgrees(rows: seq<Seed>, structures: set<Structure>)
    requires forall t :: t in structures <==> Capable(rows, |rows|, OfStructure(t))
    ensures (exists t :: t in structures && IsAdvanced(t)) <==> HasAdvanced(rows)
  {
    if s :| s in rows && s.control != NegativeControl && IsAdvanced(s.structure) {
      assert OfStructure(s.structure)(s);
      assert s.structure in structures;
    }
  }

  lemma TalliesAgree(rows: seq<Seed>, controls: set<Control>, difficulties: set<Difficulty>, structures: set<Structure>)
    requires Gathered(rows, |rows|, controls, difficulties, structures)
    ensures forall c :: c in controls <==> HasControl(rows, c)
    ensures Easy in difficulties && Medium in difficulties && Hard in difficulties <==> HasAllTiers(rows)
    ensures (exists t :: t in structures && IsAdvanced(t)) <==> HasAdvanced(rows)
  {
    TierAgrees(rows, Easy);
    TierAgrees(rows, Medium);
    TierAgrees(rows, Hard);
    AdvancedAgrees(rows, structures);
  }

  /** The end of `main`: the label over the accepted rows. */
  method ComputeLabel(filesPresent: bool, rows: seq<Seed>, runRows: seq<EvalRuns.Row>, taxonomy: set<string>)
    returns (status: Label)
    ensures status == LabelOf(filesPresent, rows, |EvalRuns.FullRuns(runRows)|,
                              DepthOk(rows, FloorsFor(rows), taxonomy))
    ensures HasLabel(filesPresent, rows, FullRunCount(runRows), DepthHolds(rows, taxonomy), status)
  {
    var standard, negatives, controls, difficulties, structures := Tally(rows);
    TalliesAgree(rows, controls, difficulties, structures);
    var hasAllControls := PositiveControl in controls && NegativeControl in controls && RegressionSeed in controls;
    var hasAllTiers := Easy in difficulties && Medium in difficulties && Hard in difficulties;
    var hasAdvanced := exists t :: t in structures && IsAdvanced(t);
    var ratioOk := negatives >= if standard > 0 then NegativesFor(standard) else 0;
    var dimensions := CountDimensions(rows);
    var dense := dimensions != map[] && forall d :: d in dimensions ==> dimensions[d] >= DIMENSION_FLOOR;
    DenseAgrees(rows, dimensions);
    var distinctRuns := |EvalRuns.FullRuns(runRows)|;
    var depthOk, notes := ComputeDepthReadiness(rows, taxonomy);
    assert hasAllControls
           <==> HasControl(rows, PositiveControl) && HasControl(rows, NegativeControl)
                && HasControl(rows, RegressionSeed);
    assert ratioOk <==> NegativeRatioOk(rows);
    if !filesPresent {
      status := Exploratory;
    } else if |rows| < 30 || !hasAdvanced {
      status := Pilot;
    } else if |rows| >= 36 && hasAllControls && hasAllTiers && hasAdvanced && ratioOk && depthOk && distinctRuns >= 3 {
      status := if |rows| >= 54 && ratioOk && dense then StableBenchmark else Benchmark;
    } else {
      status := Pilot;
    }
    LabelsExactly(filesPresent, rows, distinctRuns, depthOk, status);
    FullRunsExactly(runRows);
    DepthExactly(rows, taxonomy);
  }

  lemma DenseAgrees(rows: seq<Seed>, dimensions: map<string, nat>)
    requires forall d :: At(dimensions, d) == Count(rows, Measures(d))
    requires forall d :: d in dimensions ==> dimensions[d] > 0
    ensures AllDimensionsDense(rows)
            <==> dimensions != map[] && forall d :: d in dimensions ==> dimensions[d] >= DIMENSION_FLOOR
  {
    if dimensions != map[] {
      var d :| d in dimensions;
      assert Count(rows, Measures(d)) == At(dimensions, d) > 0;
    }
    if d :| d in dimensions && dimensions[d] < DIMENSION_FLOOR {
      assert Count(rows, Measures(d)) == At(dimensions, d);
    }
    forall d | Count(rows, Measures(d)) > 0 ensures d in dimensions {
      assert At(dimensions, d) > 0;
    }
  }

  /* ---- the label, over the rows themselves ---- */

  /** Some seed that measures a capability has that difficulty. */
  ghost predicate Measured(rows: seq<Seed>, d: Difficulty) {
    exists i :: 0 <= i < |rows| && rows[i].control != NegativeControl && rows[i].difficulty == d
  }

  ghost predicate MeasuredAdvanced(rows: seq<Seed>) {
    exists i :: 0 <= i < |rows| && rows[i].control != NegativeControl
                && rows[i].structure in {Combined, Layered, Distributed, Camouflaged, Interference}
  }

  /** What makes a benchmark: 36 seeds with all controls, difficulties and an advanced structure, one negative for
      every 15% of the standard seeds, enough depth and three full runs. */
  ghost predicate IsBenchmark(rows: seq<Seed>, fullRuns: nat, depthOk: bool) {
    && |rows| >= 36 && fullRuns >= 3 && depthOk
    && WithControl(rows, PositiveControl) >= 1 && WithControl(rows, NegativeControl) >= 1
    && WithControl(rows, RegressionSeed) >= 1
    && Measured(rows, Easy) && Measured(rows, Medium) && Measured(rows, Hard) && MeasuredAdvanced(rows)
    && 100 * WithControl(rows, NegativeControl) >= 15 * WithControl(rows, Standard)
  }

  /** What makes it stable: 54 seeds, and at least 8 for each dimension measured. */
  ghost predicate IsStable(rows: seq<Seed>) {
    && |rows| >= 54 && (exists i :: 0 <= i < |rows| && rows[i].control != NegativeControl)
    && forall i :: 0 <= i < |rows| && rows[i].control != NegativeControl ==> OfDimension(rows, rows[i].dimension) >= 8
  }

  ghost predicate HasLabel(filesPresent: bool, rows: seq<Seed>, fullRuns: nat, depthOk: bool, status: Label) {
    match status
    case Exploratory => !filesPresent
    case Pilot => filesPresent && !IsBenchmark(rows, fullRuns, depthOk)
    case Benchmark => filesPresent && IsBenchmark(rows, fullRuns, depthOk) && !IsStable(rows)
    case StableBenchmark => filesPresent && IsBenchmark(rows, fullRuns, depthOk) && IsStable(rows)
  }

  lemma HasControlExactly(rows: seq<Seed>, c: Control)
    ensures HasControl(rows, c) <==> WithControl(rows, c) >= 1
  {
    ControlsCount(rows, c);
    CountZero(rows, Controlled(c));
    if HasControl(rows, c) {
      var s :| s in rows && s.control == c;
      assert Controlled(c)(s);
    }
  }

  lemma MeasuredExactly(rows: seq<Seed>)
    ensures HasAllTiers(rows) <==> Measured(rows, Easy) && Measured(rows, Medium) && Measured(rows, Hard)
    ensures HasAdvanced(rows) <==> MeasuredAdvanced(rows)
  {
  }

  lemma DenseExactly(rows: seq<Seed>)
    ensures |rows| >= 54 && AllDimensionsDense(rows) <==> IsStable(rows)
  {
    DimensionsExactly(rows);
    if d :| Count(rows, Measures(d)) > 0 {
      CountZero(rows, Measures(d));
      var s :| s in rows && Measures(d)(s);
      var i :| 0 <= i < |rows| && rows[i] == s;
      assert rows[i].control != NegativeControl;
    }
    if i :| 0 <= i < |rows| && rows[i].control != NegativeControl {
      CountZero(rows, Measures(rows[i].dimension));
      assert Measures(rows[i].dimension)(rows[i]);
    }
  }

  lemma RatioExactly(rows: seq<Seed>)
    ensures NegativeRatioOk(rows) <==> 100 * WithControl(rows, NegativeControl) >= 15 * WithControl(rows, Standard)
  {
    ControlsCount(rows, NegativeControl);
    ControlsCount(rows, Standard);
    NegativesExactly(WithControl(rows, Standard), WithControl(rows, NegativeControl));
  }

  /** How many different runs have a row with the full scope. */
  ghost function FullRunCount(runRows: seq<EvalRuns.Row>): nat {
    |set i | 0 <= i < |runRows| && runRows[i].scope == "benchmark_full" :: runRows[i].run|
  }

  lemma FullRunsExactly(runRows: seq<EvalRuns.Row>)
    ensures |EvalRuns.FullRuns(runRows)| == FullRunCount(runRows)
  {
    assert EvalRuns.FullRuns(runRows)
        == set i | 0 <= i < |runRows| && runRows[i].scope == "benchmark_full" :: runRows[i].run;
  }

  /** Every suite, accepted or not, has exactly one label, and it is the specified one. */
  lemma LabelsExactly(filesPresent: bool, rows: seq<Seed>, fullRuns: nat, depthOk: bool, status: Label)
    ensures status == LabelOf(filesPresent, rows, fullRuns, depthOk)
            <==> HasLabel(filesPresent, rows, fullRuns, depthOk, status)
  {
    HasControlExactly(rows, PositiveControl);
    HasControlExactly(rows, NegativeControl);
    HasControlExactly(rows, RegressionSeed);
    MeasuredExactly(rows);
    DenseExactly(rows);
    RatioExactly(rows);
  }
}

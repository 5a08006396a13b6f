/** `validate_run_results` of `validate_eval_suite.py`: which scored rows make a complete, auditable set of runs. */
module EvalRuns {
  import opened Options
  import opened EvalSuite
  import opened Counters
  import opened Sequences

  const FULL := "benchmark_full"
  const TARGETED := "targeted_regression"
  const MODES := {"repo_persona_subagent", "repo_persona_host", "external_peer_cli"}

  datatype Evidence = NoPath | FileMissing | FilePresent

  /** A scored row; `skillsOk` says that its observed skills, if recorded, are known ones. */
  datatype Row = Row(run: string, eval: string, scope: string, mode: string, agent: string, model: string,
                     modelLabel: string, seed: string, result: string, severity: string, notes: string,
                     evidence: Evidence, excerpt: string, skillsOk: bool)

  datatype Manifest = Manifest(scope: string, mode: string, agent: string, model: string, modelLabel: string,
                               status: string, confirmation: string)

  /** Keyed by run id and eval name. */
  type Manifests = map<(string, string), Manifest>

  datatype Problem =
    | NoRows | EmptyRun | UnknownSeed | DuplicateScore | BadResult | BadSeverity | EmptyColumn | NoNotes | NoEvidence
    | MissingEvidence | NoExcerpt | BadScope | BadMode | BadSkills | NoManifest | NotCompleted | Disagrees
    | BadNegativeScore | BadScore
    | NoQualifyingRun | TooFewRuns(seed: string) | IncompleteRun(run: string) | Unconfirmed(run: string)

  /** What the validator is given beside the rows. */
  datatype Context = Context(seeds: set<string>, negatives: set<string>, manifests: Manifests, minRuns: int,
                             requireRuns: bool, kind: SuiteKind)

  function If(c: bool, p: Problem): seq<Problem> {
    if c then [p] else []
  }

  function ManifestProblems(c: Context, row: Row): seq<Problem> {
    if (row.run, row.eval) !in c.manifests then [NoManifest]
    else
      var m := c.manifests[(row.run, row.eval)];
      If(m.status != "completed", NotCompleted)
      + If(row.scope != m.scope || row.mode != m.mode || row.agent != m.agent || row.model != m.model
        || row.modelLabel != m.modelLabel, Disagrees)
  }

  function ScoreProblems(c: Context, row: Row): seq<Problem> {
    if row.seed in c.negatives then
      If(row.result !in {"CORRECT_SKIP", "FALSE_POSITIVE"}, BadNegativeScore)
        + If(row.severity != "na", BadNegativeScore)
    else
      If(row.result in {"FALSE_POSITIVE", "CORRECT_SKIP"}, BadScore)
      + If(row.result in {"CAUGHT", "PARTIAL"} && row.severity !in {"yes", "no"}, BadScore)
      + If(row.result == "MISSED" && row.severity != "na", BadScore)
  }

  /** The checks a row gets once its run, seed and score are established. */
  function RowProblems(c: Context, row: Row): seq<Problem> {
    If(row.result !in {"CAUGHT", "PARTIAL", "MISSED", "FALSE_POSITIVE", "CORRECT_SKIP"}, BadResult)
    + If(row.severity !in {"yes", "no", "na"}, BadSeverity)
    + If(row.agent == "" || row.model == "" || row.scope == "" || row.mode == "", EmptyColumn)
    + If(row.notes == "", NoNotes)
    + If(row.evidence == NoPath, NoEvidence) + If(row.evidence == FileMissing, MissingEvidence)
    + If(row.result in {"CAUGHT", "PARTIAL", "FALSE_POSITIVE"} && row.excerpt == "", NoExcerpt)
    + If(row.scope != "" && row.scope != FULL && row.scope != TARGETED, BadScope)
    + If(row.mode != "" && row.mode !in MODES, BadMode)
    + If(!row.skillsOk, BadSkills)
    + ManifestProblems(c, row) + ScoreProblems(c, row)
  }

  /* ---- what an accepted set of rows is ---- */

  ghost predicate IsFullRun(rows: seq<Row>, run: string) {
    exists i :: 0 <= i < |rows| && rows[i].run == run && rows[i].scope == FULL
  }

  /** The runs of a scope in which a seed is scored. */
  function RunsScoring(rows: seq<Row>, seed: string, scope: string): set<string> {
    set i | 0 <= i < |rows| && rows[i].seed == seed && rows[i].scope == scope :: rows[i].run
  }

  function SeedsScored(rows: seq<Row>, run: string): set<string> {
    set i | 0 <= i < |rows| && rows[i].run == run && rows[i].scope == FULL :: rows[i].seed
  }

  function EvalsOf(rows: seq<Row>, run: string): set<string> {
    set i | 0 <= i < |rows| && rows[i].run == run :: rows[i].eval
  }

  function RowsOf(rows: seq<Row>, run: string): seq<Row> {
    if rows == [] then [] else RowsOf(rows[..|rows| - 1], run) + if rows[|rows| - 1].run == run then [rows[|rows| - 1]]
      else []
  }

  ghost predicate RowsFine(c: Context, rows: seq<Row>) {
    forall i :: 0 <= i < |rows| ==> rows[i].run != "" && rows[i].seed in c.seeds && RowProblems(c, rows[i]) == []
  }

  /** No seed is scored twice in one run. */
  ghost predicate RowsDistinct(rows: seq<Row>) {
    forall i, j :: 0 <= i < j < |rows| ==> rows[i].run != rows[j].run || rows[i].seed != rows[j].seed
  }

  ghost predicate RowsOk(c: Context, rows: seq<Row>) {
    RowsFine(c, rows) && RowsDistinct(rows)
  }

  function ScopeOf(kind: SuiteKind): string {
    if kind == BenchmarkSuite then FULL else TARGETED
  }

  /** The seeds that must appear in enough runs: all of them, or in a targeted pack those it scores. */
  ghost predicate Counted(c: Context, rows: seq<Row>, seed: string) {
    if c.kind == BenchmarkSuite then seed in c.seeds else RunsScoring(rows, seed, TARGETED) != {}
  }

  ghost predicate RunsEnough(c: Context, rows: seq<Row>) {
    forall seed :: Counted(c, rows, seed) ==> |RunsScoring(rows, seed, ScopeOf(c.kind))| >= c.minRuns
  }

  ghost predicate RunsComplete(c: Context, rows: seq<Row>) {
    forall run :: IsFullRun(rows, run) ==> c.seeds <= SeedsScored(rows, run)
  }

  ghost predicate IsLarge(rows: seq<Row>, run: string) {
    |RowsOf(rows, run)| > 10 || |EvalsOf(rows, run)| > 1
  }

  ghost predicate RunsConfirmed(c: Context, rows: seq<Row>) {
    forall run, eval :: IsLarge(rows, run) && (run, eval) in c.manifests
      ==> c.manifests[(run, eval)].confirmation == "confirmed"
  }

  ghost predicate HasScope(rows: seq<Row>, scope: string) {
    exists i :: 0 <= i < |rows| && rows[i].scope == scope
  }

  ghost predicate Accepted(c: Context, rows: seq<Row>) {
    if rows == [] then !c.requireRuns
    else
      && RowsOk(c, rows) && (c.requireRuns ==> HasScope(rows, ScopeOf(c.kind)))
      && RunsEnough(c, rows) && RunsComplete(c, rows) && RunsConfirmed(c, rows)
  }

  /* ---- what an accepted result guarantees ---- */

  ghost predicate ScoresOnce(rows: seq<Row>, run: string, seed: string) {
    exists i :: 0 <= i < |rows| && rows[i].run == run && rows[i].seed == seed
                && forall j :: 0 <= j < |rows| && rows[j].run == run && rows[j].seed == seed ==> j == i
  }

  /** Every row's run has a completed manifest row that agrees on scope, mode, agent and model. */
  lemma RowsAreAuditable(c: Context, rows: seq<Row>, i: nat)
    requires RowsOk(c, rows) && i < |rows|
    ensures var row := rows[i];
            (row.run, row.eval) in c.manifests
            && var m := c.manifests[(row.run, row.eval)];
               m.status == "completed" && row.scope == m.scope && row.mode == m.mode && row.agent == m.agent
                 && row.model == m.model
    ensures rows[i].scope in {FULL, TARGETED} && rows[i].agent != "" && rows[i].model != ""
  {
    assert RowProblems(c, rows[i]) == [];
    NoManifestProblems(c, rows[i]);
  }

  lemma NoManifestProblems(c: Context, row: Row)
    requires RowProblems(c, row) == []
    ensures ManifestProblems(c, row) == [] && ScoreProblems(c, row) == []
    ensures row.agent != "" && row.model != "" && row.scope in {FULL, TARGETED}
  {
    assert |ManifestProblems(c, row)| + |ScoreProblems(c, row)| <= |RowProblems(c, row)|;
  }

  /** A benchmark_full run scores every catalogue seed exactly once, and all its rows are benchmark_full rows. */
  lemma FullRunScoresEverySeedOnce(c: Context, rows: seq<Row>, run: string)
    requires rows != [] && Accepted(c, rows) && IsFullRun(rows, run)
    ensures forall seed :: seed in c.seeds ==> ScoresOnce(rows, run, seed)
    ensures forall i :: 0 <= i < |rows| && rows[i].run == run ==> rows[i].scope == FULL
  {
    forall seed | seed in c.seeds ensures ScoresOnce(rows, run, seed) {
      assert seed in SeedsScored(rows, run);
    }
    forall i | 0 <= i < |rows| && rows[i].run == run ensures rows[i].scope == FULL {
      assert rows[i].seed in SeedsScored(rows, run);
      var k :| 0 <= k < |rows| && rows[k].run == run && rows[k].scope == FULL && rows[k].seed == rows[i].seed;
    }
  }

  /** The seeds of a run's rows, in order. */
  function SeedsInOrder(rows: seq<Row>, run: string): seq<string> {
    if rows == [] then []
    else SeedsInOrder(rows[..|rows| - 1], run) + if rows[|rows| - 1].run == run then [rows[|rows| - 1].seed] else []
  }

  lemma {:induction false} SeedsInOrderAreDistinct(rows: seq<Row>, run: string)
    requires RowsDistinct(rows)
    ensures forall seed :: seed in SeedsInOrder(rows, run)
                           <==> exists i :: 0 <= i < |rows| && rows[i].run == run && rows[i].seed == seed
    ensures var s := SeedsInOrder(rows, run);
            |s| == |RowsOf(rows, run)| && forall i, j :: 0 <= i < j < |s| ==> s[i] != s[j]
  {
    if rows != [] {
      var front, last := rows[..|rows| - 1], rows[|rows| - 1];
      SeedsInOrderAreDistinct(front, run);
      assert rows == front + [last];
      var s := SeedsInOrder(front, run);
      forall i | 0 <= i < |s| && last.run == run ensures s[i] != last.seed {
        assert s[i] in s;
      }
    }
  }

  lemma {:induction false} DistinctLength(s: seq<string>, elements: set<string>)
    requires forall i, j :: 0 <= i < j < |s| ==> s[i] != s[j]
    requires forall x :: x in s <==> x in elements
    ensures |s| == |elements|
  {
    if s == [] {
      assert elements == {};
    } else {
      var front, last := s[..|s| - 1], s[|s| - 1];
      assert s == front + [last];
      forall x ensures x in front <==> x in elements - {last} {
        if x in front { assert x in s; }
      }
      DistinctLength(front, elements - {last});
    }
  }

  /** So it has exactly as many rows as the catalogue has seeds. */
  lemma FullRunHasOneRowPerSeed(c: Context, rows: seq<Row>, run: string)
    requires rows != [] && Accepted(c, rows) && IsFullRun(rows, run)
    ensures |RowsOf(rows, run)| == |c.seeds|
  {
    FullRunScoresEverySeedOnce(c, rows, run);
    SeedsInOrderAreDistinct(rows, run);
    forall seed ensures seed in SeedsInOrder(rows, run) <==> seed in c.seeds {
      if seed in c.seeds { assert ScoresOnce(rows, run, seed); }
    }
    DistinctLength(SeedsInOrder(rows, run), c.seeds);
  }

  /** In benchmark mode every seed is scored in at least `minRuns` distinct runs that each cover the catalogue. */
  lemma SeedsAreScoredOftenEnough(c: Context, rows: seq<Row>, seed: string)
    requires rows != [] && Accepted(c, rows) && c.kind == BenchmarkSuite && seed in c.seeds
    ensures |RunsScoring(rows, seed, FULL)| >= c.minRuns
    ensures forall run :: run in RunsScoring(rows, seed, FULL)
              ==> IsFullRun(rows, run) && |RowsOf(rows, run)| == |c.seeds| && forall s :: s in c.seeds
                                                                                          ==> ScoresOnce(rows, run, s)
  {
    assert Counted(c, rows, seed);
    forall run | run in RunsScoring(rows, seed, FULL)
      ensures IsFullRun(rows, run) && |RowsOf(rows, run)| == |c.seeds| && forall s :: s in c.seeds
                                                                                      ==> ScoresOnce(rows, run, s)
    {
      FullRunScoresEverySeedOnce(c, rows, run);
      FullRunHasOneRowPerSeed(c, rows, run);
    }
  }

  /** The benchmark_full runs, as `main` counts them for the label. */
  function FullRuns(rows: seq<Row>): set<string> {
    set i | 0 <= i < |rows| && rows[i].scope == FULL :: rows[i].run
  }

  /** An accepted benchmark with any seed has at least `minRuns` of them. */
  lemma EnoughFullRuns(c: Context, rows: seq<Row>, seed: string)
    requires rows != [] && Accepted(c, rows) && c.kind == BenchmarkSuite && seed in c.seeds
    ensures |FullRuns(rows)| >= c.minRuns
  {
    assert Counted(c, rows, seed);
    assert RunsScoring(rows, seed, FULL) <= FullRuns(rows);
    SubsetIsSmaller(RunsScoring(rows, seed, FULL), FullRuns(rows));
  }

  /* ---- the validator as the code runs it ---- */

  function AtSet(m: map<string, set<string>>, key: string): set<string> {
    if key in m then m[key] else {}
  }

  ghost predicate NoEmptySet(m: map<string, set<string>>) {
    forall k :: k in m ==> m[k] != {}
  }

  function AddTo(m: map<string, set<string>>, key: string, x: string): (r: map<string, set<string>>)
    ensures forall k :: AtSet(r, k) == AtSet(m, k) + if k == key then {x} else {}
    ensures NoEmptySet(m) ==> NoEmptySet(r)
  {
    m[key := AtSet(m, key) + {x}]
  }

  function Bump(m: map<string, nat>, key: string): (r: map<string, nat>)
    ensures forall k :: At(r, k) == At(m, k) + if k == key then 1 else 0
    ensures (forall k :: k in m ==> m[k] > 0) ==> forall k :: k in r ==> r[k] > 0
  {
    m[key := At(m, key) + 1]
  }

  lemma ScoringNext(rows: seq<Row>, n: nat, seed: string, scope: string)
    requires n < |rows|
    ensures RunsScoring(rows[..n + 1], seed, scope)
         == RunsScoring(rows[..n], seed, scope) + if rows[n].seed == seed && rows[n].scope == scope then {rows[n].run}
            else {}
  {
    var before, now, row := rows[..n], rows[..n + 1], rows[n];
    forall x | x in RunsScoring(before, seed, scope) ensures x in RunsScoring(now, seed, scope) {
      var i :| 0 <= i < |before| && before[i].seed == seed && before[i].scope == scope && before[i].run == x;
      assert now[i] == before[i];
    }
    assert now[n] == row;
  }

  lemma ScoredNext(rows: seq<Row>, n: nat, run: string)
    requires n < |rows|
    ensures SeedsScored(rows[..n + 1], run)
         == SeedsScored(rows[..n], run) + if rows[n].run == run && rows[n].scope == FULL then {rows[n].seed} else {}
  {
    var before, now, row := rows[..n], rows[..n + 1], rows[n];
    forall x | x in SeedsScored(before, run) ensures x in SeedsScored(now, run) {
      var i :| 0 <= i < |before| && before[i].run == run && before[i].scope == FULL && before[i].seed == x;
      assert now[i] == before[i];
    }
    assert now[n] == row;
  }

  lemma EvalsOfNext(rows: seq<Row>, n: nat, run: string)
    requires n < |rows|
    ensures EvalsOf(rows[..n + 1], run) == EvalsOf(rows[..n], run) + if rows[n].run == run then {rows[n].eval} else {}
  {
    var before, now, row := rows[..n], rows[..n + 1], rows[n];
    forall x | x in EvalsOf(before, run) ensures x in EvalsOf(now, run) {
      var i :| 0 <= i < |before| && before[i].run == run && before[i].eval == x;
      assert now[i] == before[i];
    }
    assert now[n] == row;
  }

  lemma RowsOfNext(rows: seq<Row>, n: nat, run: string)
    requires n < |rows|
    ensures RowsOf(rows[..n + 1], run) == RowsOf(rows[..n], run) + if rows[n].run == run then [rows[n]] else []
  {
    assert rows[..n + 1][..n] == rows[..n];
  }

  ghost predicate TalliesSeeds(rows: seq<Row>, m: map<string, set<string>>, scope: string) {
    NoEmptySet(m) && forall seed :: AtSet(m, seed) == RunsScoring(rows, seed, scope)
  }

  ghost predicate TalliesRuns(rows: seq<Row>, m: map<string, set<string>>) {
    NoEmptySet(m) && forall run :: AtSet(m, run) == SeedsScored(rows, run)
  }

  ghost predicate TalliesEvals(rows: seq<Row>, m: map<string, set<string>>) {
    forall run :: AtSet(m, run) == EvalsOf(rows, run)
  }

  ghost predicate TalliesRows(rows: seq<Row>, m: map<string, nat>) {
    (forall run :: At(m, run) == |RowsOf(rows, run)|) && forall run :: run in m ==> m[run] > 0
  }

  function IfScope(row: Row, scope: string, m: map<string, set<string>>, key: string, x: string)
    : map<string, set<string>>
  {
    if row.scope == scope then AddTo(m, key, x) else m
  }

  lemma SeedsNext(rows: seq<Row>, n: nat, m: map<string, set<string>>, scope: string)
    requires n < |rows| && TalliesSeeds(rows[..n], m, scope)
    ensures TalliesSeeds(rows[..n + 1], IfScope(rows[n], scope, m, rows[n].seed, rows[n].run), scope)
  {
    forall k
      ensures AtSet(IfScope(rows[n], scope, m, rows[n].seed, rows[n].run), k) == RunsScoring(rows[..n + 1], k, scope)
    {
      ScoringNext(rows, n, k, scope);
    }
  }

  lemma RunsNext(rows: seq<Row>, n: nat, m: map<string, set<string>>)
    requires n < |rows| && TalliesRuns(rows[..n], m)
    ensures TalliesRuns(rows[..n + 1], IfScope(rows[n], FULL, m, rows[n].run, rows[n].seed))
  {
    forall k ensures AtSet(IfScope(rows[n], FULL, m, rows[n].run, rows[n].seed), k) == SeedsScored(rows[..n + 1], k) {
      ScoredNext(rows, n, k);
    }
  }

  lemma EvalsNext(rows: seq<Row>, n: nat, m: map<string, set<string>>, counts: map<string, nat>)
    requires n < |rows| && TalliesEvals(rows[..n], m) && TalliesRows(rows[..n], counts)
    ensures TalliesEvals(rows[..n + 1], AddTo(m, rows[n].run, rows[n].eval))
            && TalliesRows(rows[..n + 1], Bump(counts, rows[n].run))
  {
    forall k
      ensures AtSet(AddTo(m, rows[n].run, rows[n].eval), k) == EvalsOf(rows[..n + 1], k)
      ensures At(Bump(counts, rows[n].run), k) == |RowsOf(rows[..n + 1], k)|
    {
      EvalsOfNext(rows, n, k);
      RowsOfNext(rows, n, k);
    }
  }

  /** The counters and sets the row loop fills. */
  class RunAudit {
    var problems: seq<Problem>
    var seen: set<(string, string)>
    var scopes: set<string>
    var fullRunsBySeed: map<string, set<string>>
    var targetedRunsBySeed: map<string, set<string>>
    var seedsByFullRun: map<string, set<string>>
    var rowsByRun: map<string, nat>
    var evalsByRun: map<string, set<string>>

    constructor ()
      ensures problems == [] && seen == {} && scopes == {}
              && fullRunsBySeed == targetedRunsBySeed == seedsByFullRun == evalsByRun == map[]
      ensures rowsByRun == map[]
    {
      problems, seen, scopes, rowsByRun := [], {}, {}, map[];
      fullRunsBySeed, targetedRunsBySeed, seedsByFullRun, evalsByRun := map[], map[], map[], map[];
    }

    /** As long as nothing was reported, the object has tallied exactly these rows. */
    ghost predicate Tallies(rows: seq<Row>)
      reads this
    {
      && TalliesSeeds(rows, fullRunsBySeed, FULL) && TalliesSeeds(rows, targetedRunsBySeed, TARGETED)
      && TalliesRuns(rows, seedsByFullRun) && TalliesEvals(rows, evalsByRun) && TalliesRows(rows, rowsByRun)
    }

    /** The tail of the loop body: what an unskipped row adds. */
    method Tally(ghost rows: seq<Row>, ghost n: nat, row: Row)
      requires n < |rows| && rows[n] == row
      modifies this`scopes, this`fullRunsBySeed, this`targetedRunsBySeed, this`seedsByFullRun, this`rowsByRun,
               this`evalsByRun
      ensures old(Tallies(rows[..n])) ==> Tallies(rows[..n + 1])
      ensures scopes == old(scopes) + {row.scope}
    {
      if Tallies(rows[..n]) {
        SeedsNext(rows, n, fullRunsBySeed, FULL);
        SeedsNext(rows, n, targetedRunsBySeed, TARGETED);
        RunsNext(rows, n, seedsByFullRun);
        EvalsNext(rows, n, evalsByRun, rowsByRun);
      }
      scopes := scopes + {row.scope};
      rowsByRun := Bump(rowsByRun, row.run);
      evalsByRun := AddTo(evalsByRun, row.run, row.eval);
      fullRunsBySeed := IfScope(row, FULL, fullRunsBySeed, row.seed, row.run);
      seedsByFullRun := IfScope(row, FULL, seedsByFullRun, row.run, row.seed);
      targetedRunsBySeed := IfScope(row, TARGETED, targetedRunsBySeed, row.seed, row.run);
    }

    ghost predicate Tracks(rows: seq<Row>)
      reads this
    {
      Tallies(rows) && Seen(seen, rows) && SeenScopes(scopes, rows)
    }

    /** Nothing reported means the rows so far are acceptable and tallied. */
    ghost predicate Progress(c: Context, rows: seq<Row>)
      reads this
    {
      (problems == [] <==> RowsOk(c, rows)) && (problems == [] ==> Tracks(rows))
    }

    /** A row that is not skipped. */
    method AcceptRow(ghost rows: seq<Row>, ghost n: nat, row: Row, found: seq<Problem>)
      requires n < |rows| && rows[n] == row
      modifies this
      ensures problems == old(problems) + found
      ensures old(Tracks(rows[..n])) ==> Tracks(rows[..n + 1])
    {
      SeenNext(rows, n, seen, scopes);
      seen := seen + {(row.run, row.seed)};
      problems := problems + found;
      Tally(rows, n, row);
    }

    /** One row: an empty run, an unknown seed or a repeated score is reported and skips the rest. */
    method AuditRow(c: Context, ghost rows: seq<Row>, ghost n: nat, row: Row)
      requires n < |rows| && rows[n] == row
      requires Progress(c, rows[..n])
      modifies this
      ensures Progress(c, rows[..n + 1])
    {
      RowsOkNext(c, rows, n);
      if row.run == "" {
        problems := problems + [EmptyRun];
        return;
      }
      if row.seed !in c.seeds {
        problems := problems + [UnknownSeed];
        return;
      }
      if (row.run, row.seed) in seen {
        problems := problems + [DuplicateScore];
        return;
      }
      AcceptRow(rows, n, row, RowProblems(c, row));
    }

    method AuditRows(c: Context, rows: seq<Row>)
      requires problems == [] && seen == {} && scopes == {} && Tallies([])
      modifies this
      ensures problems == [] <==> RowsOk(c, rows)
      ensures problems == [] ==> Tallies(rows) && SeenScopes(scopes, rows)
    {
      var i := 0;
      assert rows[..0] == [];
      while i < |rows|
        invariant 0 <= i <= |rows|
        invariant Progress(c, rows[..i])
      {
        AuditRow(c, rows, i, rows[i]);
        i := i + 1;
      }
      assert rows[..i] == rows;
    }
  }

  ghost predicate Seen(seen: set<(string, string)>, rows: seq<Row>) {
    && (forall row: Row :: (row.run, row.seed) in seen <==> ScoredBefore(rows, row))
  }

  ghost predicate SeenScopes(scopes: set<string>, rows: seq<Row>) {
    forall scope :: scope in scopes <==> HasScope(rows, scope)
  }

  lemma SeenNext(rows: seq<Row>, n: nat, seen: set<(string, string)>, scopes: set<string>)
    requires n < |rows|
    ensures Seen(seen, rows[..n]) ==> Seen(seen + {(rows[n].run, rows[n].seed)}, rows[..n + 1])
    ensures SeenScopes(scopes, rows[..n]) ==> SeenScopes(scopes + {rows[n].scope}, rows[..n + 1])
  {
    var before, now := rows[..n], rows[..n + 1];
    assert now == before + [rows[n]];
    forall i | 0 <= i < n ensures now[i] == before[i] {
    }
    assert now[n] == rows[n];
  }

  ghost predicate ScoredBefore(rows: seq<Row>, row: Row) {
    exists i :: 0 <= i < |rows| && rows[i].run == row.run && rows[i].seed == row.seed
  }

  lemma RowsFineNext(c: Context, rows: seq<Row>, n: nat)
    requires n < |rows|
    ensures RowsFine(c, rows[..n + 1])
            <==> RowsFine(c, rows[..n]) && rows[n].run != "" && rows[n].seed in c.seeds && RowProblems(c, rows[n]) == []
  {
    var before, now := rows[..n], rows[..n + 1];
    assert forall i :: 0 <= i < n ==> now[i] == before[i];
    assert now[n] == rows[n];
  }

  lemma RowsDistinctNext(rows: seq<Row>, n: nat)
    requires n < |rows|
    ensures RowsDistinct(rows[..n + 1]) <==> RowsDistinct(rows[..n]) && !ScoredBefore(rows[..n], rows[n])
  {
    var before, now := rows[..n], rows[..n + 1];
    assert forall i :: 0 <= i < n ==> now[i] == before[i];
    assert now[n] == rows[n];
  }

  lemma RowsOkNext(c: Context, rows: seq<Row>, n: nat)
    requires n < |rows|
    ensures RowsOk(c, rows[..n + 1])
            <==> RowsOk(c, rows[..n]) && rows[n].run != "" && rows[n].seed in c.seeds && RowProblems(c, rows[n]) == []
                 && !ScoredBefore(rows[..n], rows[n])
  {
    RowsFineNext(c, rows, n);
    RowsDistinctNext(rows, n);
  }

  /* ---- the checks after the loop ---- */

  /** Each seed of `targets` in at least `minRuns` of its runs. */
  method CheckRunCounts(targets: set<string>, runs: map<string, set<string>>, minRuns: int)
    returns (problems: seq<Problem>)
    ensures problems == [] <==> forall seed :: seed in targets ==> |AtSet(runs, seed)| >= minRuns
  {
    problems := [];
    var rest := targets;
    while rest != {}
      invariant rest <= targets
      invariant problems == [] <==> forall seed :: seed in targets - rest ==> |AtSet(runs, seed)| >= minRuns
      decreases rest
    {
      var seed :| seed in rest;
      rest := rest - {seed};
      assert targets - rest == (targets - rest - {seed}) + {seed};
      if |AtSet(runs, seed)| < minRuns {
        problems := problems + [TooFewRuns(seed)];
        assert seed in targets - rest;
      }
    }
  }

  /** Each benchmark_full run scores the whole catalogue. */
  method CheckCompleteness(seeds: set<string>, seedsByRun: map<string, set<string>>) returns (problems: seq<Problem>)
    ensures problems == [] <==> forall run :: run in seedsByRun ==> seeds <= seedsByRun[run]
  {
    problems := [];
    var rest := seedsByRun.Keys;
    while rest != {}
      invariant rest <= seedsByRun.Keys
      invariant problems == [] <==> forall run :: run in seedsByRun.Keys - rest ==> seeds <= seedsByRun[run]
      decreases rest
    {
      var run :| run in rest;
      rest := rest - {run};
      if seeds - seedsByRun[run] != {} {
        problems := problems + [IncompleteRun(run)];
        var missing :| missing in seeds - seedsByRun[run];
        assert run in seedsByRun.Keys - rest && !(seeds <= seedsByRun[run]);
      } else {
        forall x | x in seeds ensures x in seedsByRun[run] {
          assert x !in seeds - seedsByRun[run];
        }
      }
    }
  }

  /** Each large run's manifest rows are all confirmed. */
  method CheckConfirmation(manifests: Manifests, rowsByRun: map<string, nat>, evalsByRun: map<string, set<string>>)
    returns (problems: seq<Problem>)
    ensures problems == []
            <==> forall run :: Exceeds(rowsByRun, evalsByRun, run) ==> Confirmed(manifests, run)
  {
    problems := [];
    var rest := rowsByRun.Keys;
    while rest != {}
      invariant rest <= rowsByRun.Keys
      invariant problems == []
                <==> forall run :: run !in rest && Exceeds(rowsByRun, evalsByRun, run) ==> Confirmed(manifests, run)
      decreases rest
    {
      var run :| run in rest;
      rest := rest - {run};
      if Exceeds(rowsByRun, evalsByRun, run) {
        if !Confirmed(manifests, run) {
          problems := problems + [Unconfirmed(run)];
        }
      }
    }
  }

  /** The workload-confirmation threshold, on the counters. */
  predicate Exceeds(rowsByRun: map<string, nat>, evalsByRun: map<string, set<string>>, run: string) {
    run in rowsByRun && (rowsByRun[run] > 10 || |AtSet(evalsByRun, run)| > 1)
  }

  predicate Confirmed(manifests: Manifests, run: string) {
    forall key :: key in manifests && key.0 == run ==> manifests[key].confirmation == "confirmed"
  }

  lemma TalliedRunCounts(c: Context, rows: seq<Row>, targets: set<string>, runs: map<string, set<string>>)
    requires TalliesSeeds(rows, runs, ScopeOf(c.kind))
    requires targets == if c.kind == BenchmarkSuite then c.seeds else runs.Keys
    ensures RunsEnough(c, rows) <==> forall seed :: seed in targets ==> |AtSet(runs, seed)| >= c.minRuns
  {
    forall seed
      ensures AtSet(runs, seed) == RunsScoring(rows, seed, ScopeOf(c.kind))
              && (seed in targets <==> Counted(c, rows, seed))
    {
    }
  }

  /** A run has an entry as soon as it has a benchmark_full row. */
  lemma FullRunIsTallied(rows: seq<Row>, run: string)
    ensures IsFullRun(rows, run) <==> SeedsScored(rows, run) != {}
  {
    if IsFullRun(rows, run) {
      var i :| 0 <= i < |rows| && rows[i].run == run && rows[i].scope == FULL;
      assert rows[i].seed in SeedsScored(rows, run);
    }
  }

  lemma TalliedCompleteness(c: Context, rows: seq<Row>, m: map<string, set<string>>)
    requires TalliesRuns(rows, m)
    ensures RunsComplete(c, rows) <==> forall run :: run in m ==> c.seeds <= m[run]
  {
    forall run ensures run in m <==> IsFullRun(rows, run) {
      FullRunIsTallied(rows, run);
      assert AtSet(m, run) == SeedsScored(rows, run);
    }
    forall run | run in m ensures m[run] == SeedsScored(rows, run) {
      assert AtSet(m, run) == SeedsScored(rows, run);
    }
  }

  lemma {:induction false} NoRowsNoEvals(rows: seq<Row>, run: string)
    requires RowsOf(rows, run) == []
    ensures EvalsOf(rows, run) == {}
  {
    if rows != [] {
      EvalsOfNext(rows, |rows| - 1, run);
      assert rows[..|rows| - 1 + 1] == rows;
      NoRowsNoEvals(rows[..|rows| - 1], run);
    }
  }

  lemma TalliedConfirmation(c: Context, rows: seq<Row>, counts: map<string, nat>, evals: map<string, set<string>>)
    requires TalliesRows(rows, counts) && TalliesEvals(rows, evals)
    ensures RunsConfirmed(c, rows)
            <==> forall run :: Exceeds(counts, evals, run) ==> Confirmed(c.manifests, run)
  {
    forall run ensures IsLarge(rows, run) <==> Exceeds(counts, evals, run) {
      assert At(counts, run) == |RowsOf(rows, run)| && AtSet(evals, run) == EvalsOf(rows, run);
      if run !in counts {
        NoRowsNoEvals(rows, run);
      }
    }
    if RunsConfirmed(c, rows) {
      forall run | IsLarge(rows, run) ensures Confirmed(c.manifests, run) {
        forall key | key in c.manifests && key.0 == run ensures c.manifests[key].confirmation == "confirmed" {
          assert key == (run, key.1);
        }
      }
    }
  }

  /** `validate_run_results`: no problem is reported exactly when the rows are acceptable. */
  method ValidateRunResults(c: Context, rows: seq<Row>) returns (problems: seq<Problem>)
    ensures problems == [] <==> Accepted(c, rows)
    ensures problems == [] <==> RunsHold(c, rows)
  {
    AcceptedExactly(c, rows);
    if rows == [] {
      return if c.requireRuns then [NoRows] else [];
    }
    var audit := new RunAudit();
    audit.AuditRows(c, rows);
    problems := audit.problems;
    var scope := ScopeOf(c.kind);
    if c.requireRuns && scope !in audit.scopes { problems := problems + [NoQualifyingRun]; }
    var runs := if c.kind == BenchmarkSuite then audit.fullRunsBySeed else audit.targetedRunsBySeed;
    var targets := if c.kind == BenchmarkSuite then c.seeds else audit.targetedRunsBySeed.Keys;
    var counts := CheckRunCounts(targets, runs, c.minRuns);
    var completeness := CheckCompleteness(c.seeds, audit.seedsByFullRun);
    var confirmation := CheckConfirmation(c.manifests, audit.rowsByRun, audit.evalsByRun);
    if audit.problems == [] {
      TalliedRunCounts(c, rows, targets, runs);
      TalliedCompleteness(c, rows, audit.seedsByFullRun);
      TalliedConfirmation(c, rows, audit.rowsByRun, audit.evalsByRun);
    }
    problems := problems + counts + completeness + confirmation;
  }

  /* ---- acceptance, over the rows themselves ---- */

  /** The row names a run and a known seed, fills every column with known values, points at evidence that exists, and
      quotes it when it claims a finding. */
  ghost predicate IsFilled(c: Context, row: Row) {
    && row.run != "" && row.seed in c.seeds && row.agent != "" && row.model != "" && row.notes != "" && row.skillsOk
    && row.scope in {"benchmark_full", "targeted_regression"}
    && row.mode in {"repo_persona_subagent", "repo_persona_host", "external_peer_cli"}
    && row.evidence == FilePresent
    && (row.result in {"CAUGHT", "PARTIAL", "FALSE_POSITIVE"} ==> row.excerpt != "")
  }

  /** A negative control is skipped or flagged wrongly, without a severity; any other seed is caught in full or in part,
      with one, or missed, without one. */
  ghost predicate IsScored(c: Context, row: Row) {
    if row.seed in c.negatives then row.result in {"CORRECT_SKIP", "FALSE_POSITIVE"} && row.severity == "na"
    else (row.result in {"CAUGHT", "PARTIAL"} && row.severity in {"yes", "no"})
         || (row.result == "MISSED" && row.severity == "na")
  }

  /** The manifest lists the row's run and eval as completed, with the same scope, mode, agent and model. */
  ghost predicate IsBacked(c: Context, row: Row) {
    && (row.run, row.eval) in c.manifests
    && var m := c.manifests[(row.run, row.eval)];
       && m.status == "completed" && m.scope == row.scope && m.mode == row.mode && m.agent == row.agent
       && m.model == row.model && m.modelLabel == row.modelLabel
  }

  lemma ScoresExactly(c: Context, row: Row)
    ensures ScoreProblems(c, row) == []
            && row.result in {"CAUGHT", "PARTIAL", "MISSED", "FALSE_POSITIVE", "CORRECT_SKIP"}
            <==> IsScored(c, row)
  {
  }

  lemma ManifestsExactly(c: Context, row: Row)
    ensures ManifestProblems(c, row) == [] <==> IsBacked(c, row)
  {
  }

  /** A row is fine exactly when it is filled, scored and backed so. */
  lemma RowsExactly(c: Context, row: Row)
    ensures row.run != "" && row.seed in c.seeds && RowProblems(c, row) == []
            <==> IsFilled(c, row) && IsScored(c, row) && IsBacked(c, row)
  {
    ScoresExactly(c, row);
    ManifestsExactly(c, row);
  }

  /** The runs of that scope that score the seed. */
  ghost function Runs(rows: seq<Row>, seed: string, scope: string): nat {
    |set i | 0 <= i < |rows| && rows[i].seed == seed && rows[i].scope == scope :: rows[i].run|
  }

  ghost predicate SeedsHold(c: Context, rows: seq<Row>) {
    if c.kind == BenchmarkSuite then forall seed :: seed in c.seeds ==> Runs(rows, seed, "benchmark_full") >= c.minRuns
    else forall i :: 0 <= i < |rows| && rows[i].scope == "targeted_regression"
                     ==> Runs(rows, rows[i].seed, "targeted_regression") >= c.minRuns
  }

  /** Every full run scores every seed. */
  ghost predicate FullRunsHold(c: Context, rows: seq<Row>) {
    forall i, seed :: 0 <= i < |rows| && rows[i].scope == "benchmark_full" && seed in c.seeds
                      ==> FullyScores(rows, rows[i].run, seed)
  }

  ghost predicate FullyScores(rows: seq<Row>, run: string, seed: string) {
    exists j :: 0 <= j < |rows| && rows[j].run == run && rows[j].scope == "benchmark_full" && rows[j].seed == seed
  }

  ghost function PositionsOf(rows: seq<Row>, run: string): set<int> {
    set i | 0 <= i < |rows| && rows[i].run == run
  }

  ghost function RowCount(rows: seq<Row>, run: string): nat {
    |PositionsOf(rows, run)|
  }

  ghost function EvalCount(rows: seq<Row>, run: string): nat {
    |set i | 0 <= i < |rows| && rows[i].run == run :: rows[i].eval|
  }

  /** A run with more than ten rows or one eval has only confirmed manifest rows. */
  ghost predicate LargeRunsHold(c: Context, rows: seq<Row>) {
    forall key :: key in c.manifests && (RowCount(rows, key.0) > 10 || EvalCount(rows, key.0) > 1)
                  ==> c.manifests[key].confirmation == "confirmed"
  }

  ghost predicate ScoredOnce(rows: seq<Row>) {
    forall i, j :: 0 <= i < |rows| && 0 <= j < |rows| && (rows[i].run, rows[i].seed) == (rows[j].run, rows[j].seed)
                   ==> i == j
  }

  /** What an accepted set of rows is: without rows, one that need not have any. */
  ghost predicate RunsHold(c: Context, rows: seq<Row>) {
    if rows == [] then !c.requireRuns
    else
      && (forall i :: 0 <= i < |rows| ==> IsFilled(c, rows[i]) && IsScored(c, rows[i]) && IsBacked(c, rows[i]))
      && ScoredOnce(rows)
      && (c.requireRuns
          ==> HasScope(rows, if c.kind == BenchmarkSuite then "benchmark_full" else "targeted_regression"))
      && SeedsHold(c, rows) && FullRunsHold(c, rows) && LargeRunsHold(c, rows)
  }

  lemma RowsOkExactly(c: Context, rows: seq<Row>)
    ensures RowsOk(c, rows)
            <==> (forall i :: 0 <= i < |rows| ==> IsFilled(c, rows[i]) && IsScored(c, rows[i]) && IsBacked(c, rows[i]))
                 && ScoredOnce(rows)
  {
    forall i | 0 <= i < |rows|
      ensures rows[i].run != "" && rows[i].seed in c.seeds && RowProblems(c, rows[i]) == []
              <==> IsFilled(c, rows[i]) && IsScored(c, rows[i]) && IsBacked(c, rows[i])
    {
      RowsExactly(c, rows[i]);
    }
  }

  lemma RunsExactly(rows: seq<Row>, seed: string, scope: string)
    ensures |RunsScoring(rows, seed, scope)| == Runs(rows, seed, scope)
  {
    assert RunsScoring(rows, seed, scope)
        == set i | 0 <= i < |rows| && rows[i].seed == seed && rows[i].scope == scope :: rows[i].run;
  }

  lemma SeedsExactly(c: Context, rows: seq<Row>)
    ensures RunsEnough(c, rows) <==> SeedsHold(c, rows)
  {
    forall seed, scope ensures |RunsScoring(rows, seed, scope)| == Runs(rows, seed, scope) {
      RunsExactly(rows, seed, scope);
    }
    if c.kind == BenchmarkSuite {
      if RunsEnough(c, rows) {
        forall seed | seed in c.seeds ensures Runs(rows, seed, "benchmark_full") >= c.minRuns {
          assert Counted(c, rows, seed);
        }
      }
    } else {
      TargetsExactly(c, rows);
    }
  }

  lemma TargetsExactly(c: Context, rows: seq<Row>)
    requires c.kind != BenchmarkSuite
    ensures RunsEnough(c, rows) <==> SeedsHold(c, rows)
  {
    forall i | 0 <= i < |rows| && rows[i].scope == TARGETED ensures Counted(c, rows, rows[i].seed) {
      assert rows[i].run in RunsScoring(rows, rows[i].seed, TARGETED);
    }
    forall seed ensures |RunsScoring(rows, seed, TARGETED)| == Runs(rows, seed, TARGETED) {
      RunsExactly(rows, seed, TARGETED);
    }
    if SeedsHold(c, rows) {
      forall seed | Counted(c, rows, seed) ensures |RunsScoring(rows, seed, TARGETED)| >= c.minRuns {
        var run :| run in RunsScoring(rows, seed, TARGETED);
        var i :| 0 <= i < |rows| && rows[i].seed == seed && rows[i].scope == TARGETED && rows[i].run == run;
        assert Runs(rows, rows[i].seed, TARGETED) >= c.minRuns;
      }
    }
  }

  lemma FullRunsExactly(c: Context, rows: seq<Row>)
    ensures RunsComplete(c, rows) <==> FullRunsHold(c, rows)
  {
    forall run, seed ensures seed in SeedsScored(rows, run) <==> FullyScores(rows, run, seed) {
    }
    if RunsComplete(c, rows) {
      forall i, seed | 0 <= i < |rows| && rows[i].scope == FULL && seed in c.seeds
        ensures FullyScores(rows, rows[i].run, seed)
      {
        assert IsFullRun(rows, rows[i].run);
        assert seed in SeedsScored(rows, rows[i].run);
      }
    }
    if FullRunsHold(c, rows) {
      forall run, seed | IsFullRun(rows, run) && seed in c.seeds ensures seed in SeedsScored(rows, run) {
        var i :| 0 <= i < |rows| && rows[i].run == run && rows[i].scope == FULL;
        assert FullyScores(rows, rows[i].run, seed);
      }
    }
  }

  lemma PositionsNext(rows: seq<Row>, run: string, n: nat)
    requires |rows| == n + 1
    ensures PositionsOf(rows, run) == PositionsOf(rows[..n], run) + if rows[n].run == run then {n} else {}
    ensures n !in PositionsOf(rows[..n], run)
  {
  }

  lemma {:induction false} RowCountExactly(rows: seq<Row>, run: string)
    ensures |RowsOf(rows, run)| == RowCount(rows, run)
  {
    if rows == [] {
      assert PositionsOf(rows, run) == {};
    } else {
      var n := |rows| - 1;
      RowCountExactly(rows[..n], run);
      PositionsNext(rows, run, n);
    }
  }

  lemma LargeExactly(rows: seq<Row>, run: string)
    ensures IsLarge(rows, run) <==> RowCount(rows, run) > 10 || EvalCount(rows, run) > 1
  {
    RowCountExactly(rows, run);
    assert EvalsOf(rows, run) == set i | 0 <= i < |rows| && rows[i].run == run :: rows[i].eval;
  }

  lemma LargeRunsExactly(c: Context, rows: seq<Row>)
    ensures RunsConfirmed(c, rows) <==> LargeRunsHold(c, rows)
  {
    forall run ensures IsLarge(rows, run) <==> RowCount(rows, run) > 10 || EvalCount(rows, run) > 1 {
      LargeExactly(rows, run);
    }
    if RunsConfirmed(c, rows) {
      forall key | key in c.manifests && IsLarge(rows, key.0) ensures c.manifests[key].confirmation == "confirmed" {
        assert (key.0, key.1) == key;
      }
    }
    if LargeRunsHold(c, rows) {
      forall run, eval | IsLarge(rows, run) && (run, eval) in c.manifests
        ensures c.manifests[(run, eval)].confirmation == "confirmed"
      {
        assert (run, eval).0 == run;
      }
    }
  }

  /** The validator accepts exactly these rows. */
  lemma AcceptedExactly(c: Context, rows: seq<Row>)
    ensures Accepted(c, rows) <==> RunsHold(c, rows)
  {
    if rows != [] {
      RowsOkExactly(c, rows);
      SeedsExactly(c, rows);
      FullRunsExactly(c, rows);
      LargeRunsExactly(c, rows);
    }
  }
}

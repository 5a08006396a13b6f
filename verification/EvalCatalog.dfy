/** The seed catalogue and depth gates of `validate_eval_suite.py`. Ratios are compared in exact arithmetic. */
module EvalCatalog {
  import opened EvalSuite
  import opened Counters
  import opened Sequences

  datatype Structure = Single | Combined | Layered | Distributed | Camouflaged | Interference | UnknownStructure

  datatype Difficulty = Easy | Medium | Hard | UnknownDifficulty

  datatype Complexity = Textbook | Production | Staff | Principal | Distinguished | UnknownComplexity

  datatype Control = Standard | PositiveControl | NegativeControl | RegressionSeed | UnknownControl

  datatype Requirement = Required | Optional | Pruned | UnknownRequirement

  /** A row of the coverage matrix, by its id in `Cells`. */
  datatype Cell = Cell(agent: string, dimension: string, bugNature: string, structure: Structure,
                       difficulty: Difficulty, requirement: Requirement)

  type Cells = map<string, Cell>

  /** A catalogue row; `otherwiseValid` says that the row passes the checks that are not spelled out here (known bug
      nature and concepts, complexity category, severity, false-positive risk, references and extension columns). */
  datatype Seed = Seed(id: string, agent: string, dimension: string, bugNature: string, structure: Structure,
                       difficulty: Difficulty, complexity: Complexity, concepts: seq<string>, control: Control,
                       cell: string, otherwiseValid: bool)

  datatype CatalogError =
    | EmptyId(row: nat) | DuplicateId(row: nat) | BadRow(row: nat) | TextbookNotPositive(row: nat)
    | UnknownCell(row: nat) | PrunedCell(row: nat) | CellMismatch(row: nat) | EmptyRequiredCell(cell: string)
    | MissingControl(control: Control) | TooFewNegatives(found: nat, required: nat) | ThinDimensions

  const DIMENSION_FLOOR: nat := 8

  /* ---- counting ---- */

  function Count(rows: seq<Seed>, p: Seed -> bool): nat {
    if rows == [] then 0 else Count(rows[..|rows| - 1], p) + if p(rows[|rows| - 1]) then 1 else 0
  }

  function Controlled(control: Control): Seed -> bool {
    (s: Seed) => s.control == control
  }

  /** The seeds that measure a dimension: all but the negative controls. */
  function Measures(dimension: string): Seed -> bool {
    (s: Seed) => s.control != NegativeControl && s.dimension == dimension
  }

  /** 15% of the standard seeds, rounded up. */
  function NegativesFor(standard: nat): nat {
    (15 * standard + 99) / 100
  }

  /** In the catalogue check a suite without standard seeds still needs one negative control. */
  function RequiredNegatives(standard: nat): nat {
    if standard > 0 then NegativesFor(standard) else 1
  }

  lemma {:induction false} CountZero(rows: seq<Seed>, p: Seed -> bool)
    ensures Count(rows, p) > 0 <==> exists s :: s in rows && p(s)
  {
    if rows != [] {
      var front, last := rows[..|rows| - 1], rows[|rows| - 1];
      CountZero(front, p);
      assert rows == front + [last];
    }
  }

  /* ---- what an accepted catalogue is ---- */

  predicate AgreesWith(s: Seed, cell: Cell) {
    && s.agent == cell.agent && s.dimension == cell.dimension && s.bugNature == cell.bugNature
    && s.structure == cell.structure && s.difficulty == cell.difficulty
  }

  /** The seed belongs to a cell of the matrix that is not pruned and agrees with it. */
  predicate InCell(s: Seed, cells: Cells) {
    s.cell in cells && cells[s.cell].requirement != Pruned && AgreesWith(s, cells[s.cell])
  }

  predicate RowOk(s: Seed, cells: Cells) {
    && s.structure != UnknownStructure && s.difficulty != UnknownDifficulty && s.complexity != UnknownComplexity
    && s.control != UnknownControl && s.otherwiseValid && InCell(s, cells)
    && (s.complexity == Textbook ==> s.control == PositiveControl)
  }

  ghost predicate IdsUpTo(rows: seq<Seed>, n: nat)
    requires n <= |rows|
  {
    && (forall i :: 0 <= i < n ==> rows[i].id != "")
    && (forall i, j :: 0 <= i < j < n ==> rows[i].id != rows[j].id)
  }

  ghost predicate RowsUpTo(rows: seq<Seed>, cells: Cells, n: nat)
    requires n <= |rows|
  {
    forall i :: 0 <= i < n ==> RowOk(rows[i], cells)
  }

  ghost predicate HasSeed(rows: seq<Seed>, n: nat, cell: string)
    requires n <= |rows|
  {
    exists i :: 0 <= i < n && rows[i].cell == cell
  }

  /** Every required cell has a seed. */
  ghost predicate CellsFilled(rows: seq<Seed>, cells: Cells) {
    forall id :: id in cells && cells[id].requirement == Required ==> HasSeed(rows, |rows|, id)
  }

  ghost predicate IdsOk(rows: seq<Seed>) {
    IdsUpTo(rows, |rows|)
  }

  ghost predicate DimensionsOk(rows: seq<Seed>) {
    forall d :: Count(rows, Measures(d)) == 0 || Count(rows, Measures(d)) >= DIMENSION_FLOOR
  }

  ghost predicate ControlsOk(rows: seq<Seed>, kind: SuiteKind) {
    && Count(rows, Controlled(RegressionSeed)) > 0
    && (kind == BenchmarkSuite
       ==> Count(rows, Controlled(PositiveControl)) > 0 && Count(rows, Controlled(NegativeControl)) > 0)
  }

  ghost predicate NegativesOk(rows: seq<Seed>) {
    Count(rows, Controlled(NegativeControl)) >= RequiredNegatives(Count(rows, Controlled(Standard)))
  }

  ghost predicate CatalogOk(rows: seq<Seed>, cells: Cells, kind: SuiteKind) {
    && IdsOk(rows) && RowsUpTo(rows, cells, |rows|) && CellsFilled(rows, cells) && ControlsOk(rows, kind)
    && (kind == BenchmarkSuite ==> NegativesOk(rows) && DimensionsOk(rows))
  }

  /* ---- the validator as the code runs it ---- */

  method CountDimensions(rows: seq<Seed>) returns (counts: map<string, nat>)
    ensures forall d :: At(counts, d) == Count(rows, Measures(d))
    ensures forall d :: d in counts ==> counts[d] > 0
  {
    counts := map[];
    var i := 0;
    while i < |rows|
      invariant 0 <= i <= |rows|
      invariant forall d :: At(counts, d) == Count(rows[..i], Measures(d))
      invariant forall d :: d in counts ==> counts[d] > 0
    {
      assert rows[..i + 1][..i] == rows[..i];
      if rows[i].control != NegativeControl {
        counts := counts[rows[i].dimension := At(counts, rows[i].dimension) + 1];
      }
      i := i + 1;
    }
    assert rows[..i] == rows;
  }

  /** The ids seen in the first n rows. */
  ghost predicate Seen(rows: seq<Seed>, n: nat, ids: set<string>)
    requires n <= |rows|
  {
    forall id :: id in ids <==> id != "" && IdBefore(rows, n, id)
  }

  ghost predicate IdBefore(rows: seq<Seed>, n: nat, id: string)
    requires n <= |rows|
  {
    exists i :: 0 <= i < n && rows[i].id == id
  }

  lemma SeenNext(rows: seq<Seed>, n: nat, ids: set<string>)
    requires n < |rows| && Seen(rows, n, ids)
    ensures Seen(rows, n + 1, if rows[n].id == "" then ids else ids + {rows[n].id})
  {
    forall id ensures IdBefore(rows, n + 1, id) <==> IdBefore(rows, n, id) || id == rows[n].id {
      assert rows[n].id == rows[n].id;
    }
  }

  lemma IdsNext(rows: seq<Seed>, n: nat)
    requires n < |rows|
    ensures IdsUpTo(rows, n + 1) <==> IdsUpTo(rows, n) && rows[n].id != "" && !IdBefore(rows, n, rows[n].id)
  {
  }

  ghost predicate CountsControls(rows: seq<Seed>, n: nat, controls: map<Control, nat>)
    requires n <= |rows|
  {
    forall c :: At(controls, c) == Count(rows[..n], Controlled(c))
  }

  lemma CountNext(rows: seq<Seed>, n: nat, p: Seed -> bool)
    requires n < |rows|
    ensures Count(rows[..n + 1], p) == Count(rows[..n], p) + if p(rows[n]) then 1 else 0
  {
    assert rows[..n + 1][..n] == rows[..n];
  }

  lemma ControlsNext(rows: seq<Seed>, n: nat, controls: map<Control, nat>)
    requires n < |rows| && CountsControls(rows, n, controls)
    ensures CountsControls(rows, n + 1, controls[rows[n].control := At(controls, rows[n].control) + 1])
  {
    forall c
      ensures At(controls[rows[n].control := At(controls, rows[n].control) + 1], c)
              == Count(rows[..n + 1], Controlled(c))
    {
      CountNext(rows, n, Controlled(c));
      assert At(controls, c) == Count(rows[..n], Controlled(c));
    }
  }

  function CellErrors(s: Seed, cells: Cells, i: nat): (errors: seq<CatalogError>)
    ensures errors == [] <==> InCell(s, cells)
  {
    if s.cell !in cells then [UnknownCell(i)]
    else
      (if cells[s.cell].requirement == Pruned then [PrunedCell(i)] else [])
      + (if AgreesWith(s, cells[s.cell]) then [] else [CellMismatch(i)])
  }

  /** The checks of one row once its id is new. */
  function RowErrors(s: Seed, cells: Cells, i: nat): (errors: seq<CatalogError>)
    ensures errors == [] <==> RowOk(s, cells)
  {
    (if s.structure == UnknownStructure || s.difficulty == UnknownDifficulty || s.complexity == UnknownComplexity
        || s.control == UnknownControl || !s.otherwiseValid then [BadRow(i)] else [])
    + CellErrors(s, cells, i)
    + (if s.complexity == Textbook && s.control != PositiveControl then [TextbookNotPositive(i)] else [])
  }

  /** The cells the first n rows use. */
  ghost predicate Uses(rows: seq<Seed>, n: nat, used: set<string>)
    requires n <= |rows|
  {
    forall id :: id in used <==> HasSeed(rows, n, id)
  }

  lemma UsesNext(rows: seq<Seed>, n: nat, used: set<string>)
    requires n < |rows| && Uses(rows, n, used)
    ensures Uses(rows, n + 1, used + {rows[n].cell})
  {
    forall id ensures HasSeed(rows, n + 1, id) <==> HasSeed(rows, n, id) || id == rows[n].cell {
      assert rows[n].cell == rows[n].cell;
    }
  }

  lemma RowsNext(rows: seq<Seed>, cells: Cells, n: nat)
    requires n < |rows|
    ensures RowsUpTo(rows, cells, n + 1) <==> RowsUpTo(rows, cells, n) && RowOk(rows[n], cells)
  {
  }

  /** The loop's variables. */
  datatype Tables = Tables(ids: set<string>, used: set<string>, controls: map<Control, nat>, errors: seq<CatalogError>)

  /** One row: an empty or repeated id skips the row's other checks and counts. */
  function CheckRow(t: Tables, s: Seed, cells: Cells, i: nat): Tables {
    if s.id == "" then t.(errors := t.errors + [EmptyId(i)])
    else if s.id in t.ids then t.(errors := t.errors + [DuplicateId(i)])
    else
      Tables(t.ids + {s.id}, if s.cell in cells then t.used + {s.cell} else t.used,
             t.controls[s.control := At(t.controls, s.control) + 1], t.errors + RowErrors(s, cells, i))
  }

  function CheckUpTo(rows: seq<Seed>, cells: Cells, n: nat): Tables
    requires n <= |rows|
  {
    if n == 0 then Tables({}, {}, map[], []) else CheckRow(CheckUpTo(rows, cells, n - 1), rows[n - 1], cells, n - 1)
  }

  /** What the tables say about the first n rows. */
  ghost predicate Checked(rows: seq<Seed>, cells: Cells, n: nat, t: Tables)
    requires n <= |rows|
  {
    && Seen(rows, n, t.ids)
    && (t.errors == [] <==> IdsUpTo(rows, n) && RowsUpTo(rows, cells, n))
    && (t.errors == [] ==> CountsControls(rows, n, t.controls) && Uses(rows, n, t.used))
  }

  lemma SkippedRow(rows: seq<Seed>, cells: Cells, n: nat, t: Tables)
    requires n < |rows| && Checked(rows, cells, n, t)
    requires rows[n].id == "" || rows[n].id in t.ids
    ensures Checked(rows, cells, n + 1, CheckRow(t, rows[n], cells, n))
  {
    SeenNext(rows, n, t.ids);
    IdsNext(rows, n);
    if rows[n].id in t.ids {
      assert t.ids + {rows[n].id} == t.ids;
    }
  }

  lemma CheckedRow(rows: seq<Seed>, cells: Cells, n: nat, t: Tables)
    requires n < |rows| && Checked(rows, cells, n, t)
    requires rows[n].id != "" && rows[n].id !in t.ids
    ensures Checked(rows, cells, n + 1, CheckRow(t, rows[n], cells, n))
  {
    SeenNext(rows, n, t.ids);
    IdsNext(rows, n);
    RowsNext(rows, cells, n);
    if t.errors == [] {
      ControlsNext(rows, n, t.controls);
      UsesNext(rows, n, t.used);
    }
  }

  lemma CheckNext(rows: seq<Seed>, cells: Cells, n: nat, before: Tables, after: Tables)
    requires 0 < n <= |rows| && Checked(rows, cells, n - 1, before)
    requires after == CheckRow(before, rows[n - 1], cells, n - 1)
    ensures Checked(rows, cells, n, after)
  {
    if rows[n - 1].id == "" || rows[n - 1].id in before.ids {
      SkippedRow(rows, cells, n - 1, before);
    } else {
      CheckedRow(rows, cells, n - 1, before);
    }
  }

  lemma NothingChecked(rows: seq<Seed>, cells: Cells)
    ensures Checked(rows, cells, 0, Tables({}, {}, map[], []))
  {
    assert rows[..0] == [];
  }

  lemma {:induction false} TablesAreRight(rows: seq<Seed>, cells: Cells, n: nat)
    requires n <= |rows|
    ensures Checked(rows, cells, n, CheckUpTo(rows, cells, n))
  {
    if n == 0 {
      NothingChecked(rows, cells);
    } else {
      TablesAreRight(rows, cells, n - 1);
      CheckNext(rows, cells, n, CheckUpTo(rows, cells, n - 1), CheckUpTo(rows, cells, n));
    }
  }

  /** The loop over the rows. */
  method CheckRows(rows: seq<Seed>, cells: Cells)
    returns (ids: set<string>, used: set<string>, controls: map<Control, nat>, errors: seq<CatalogError>)
    ensures Seen(rows, |rows|, ids)
    ensures errors == [] <==> IdsOk(rows) && RowsUpTo(rows, cells, |rows|)
    ensures errors == [] ==> Uses(rows, |rows|, used)
    ensures errors == [] ==> forall c :: At(controls, c) == Count(rows, Controlled(c))
  {
    ids, used, controls, errors := {}, {}, map[], [];
    var i := 0;
    while i < |rows|
      invariant 0 <= i <= |rows|
      invariant Tables(ids, used, controls, errors) == CheckUpTo(rows, cells, i)
    {
      var s := rows[i];
      if s.id == "" {
        errors := errors + [EmptyId(i)];
      } else if s.id in ids {
        errors := errors + [DuplicateId(i)];
      } else {
        ids := ids + {s.id};
        errors := errors + RowErrors(s, cells, i);
        if s.cell in cells { used := used + {s.cell}; }
        controls := controls[s.control := At(controls, s.control) + 1];
      }
      i := i + 1;
    }
    TablesAreRight(rows, cells, |rows|);
    assert rows[..|rows|] == rows;
  }

  predicate Unfilled(cells: Cells, used: set<string>, e: CatalogError) {
    e.EmptyRequiredCell? && e.cell in cells && cells[e.cell].requirement == Required && e.cell !in used
  }

  /** Each required cell that no row uses. */
  method CheckCells(cells: Cells, used: set<string>) returns (errors: seq<CatalogError>)
    ensures forall e :: e in errors <==> Unfilled(cells, used, e)
  {
    errors := [];
    var rest := cells.Keys;
    while rest != {}
      invariant rest <= cells.Keys
      invariant forall e :: e in errors <==> Unfilled(cells, used, e) && e.cell !in rest
      decreases rest
    {
      var id :| id in rest;
      rest := rest - {id};
      if cells[id].requirement == Required && id !in used { errors := errors + [EmptyRequiredCell(id)]; }
    }
  }

  lemma CellsAgree(rows: seq<Seed>, cells: Cells, used: set<string>, errors: seq<CatalogError>)
    requires Uses(rows, |rows|, used)
    requires forall e :: e in errors <==> Unfilled(cells, used, e)
    ensures errors == [] <==> CellsFilled(rows, cells)
  {
    if errors != [] {
      assert errors[0] in errors;
    } else {
      forall id | id in cells && cells[id].requirement == Required ensures id in used {
        assert EmptyRequiredCell(id) !in errors;
      }
    }
  }

  /** No error is reported exactly when the catalogue meets every condition. */
  method ValidateSeedCatalog(rows: seq<Seed>, cells: Cells, kind: SuiteKind)
    returns (ids: set<string>, errors: seq<CatalogError>)
    ensures Seen(rows, |rows|, ids)
    ensures errors == [] <==> CatalogOk(rows, cells, kind)
    ensures errors == [] <==> CatalogHolds(rows, cells, kind)
  {
    CatalogExactly(rows, cells, kind);
    var used, controls;
    ids, used, controls, errors := CheckRows(rows, cells);
    var unfilled := CheckCells(cells, used);
    if errors == [] { CellsAgree(rows, cells, used, unfilled); }
    errors := errors + unfilled;
    if At(controls, RegressionSeed) == 0 { errors := errors + [MissingControl(RegressionSeed)]; }
    if kind == BenchmarkSuite {
      if At(controls, PositiveControl) == 0 { errors := errors + [MissingControl(PositiveControl)]; }
      if At(controls, NegativeControl) == 0 { errors := errors + [MissingControl(NegativeControl)]; }
      var required := RequiredNegatives(At(controls, Standard));
      if At(controls, NegativeControl) < required {
        errors := errors + [TooFewNegatives(At(controls, NegativeControl), required)];
      }
      var dimensions := CountDimensions(rows);
      if exists d :: d in dimensions && dimensions[d] < DIMENSION_FLOOR {
        errors := errors + [ThinDimensions];
        var d :| d in dimensions && dimensions[d] < DIMENSION_FLOOR;
        assert Count(rows, Measures(d)) == dimensions[d];
      } else {
        forall d ensures Count(rows, Measures(d)) == 0 || Count(rows, Measures(d)) >= DIMENSION_FLOOR {
          assert At(dimensions, d) == Count(rows, Measures(d));
        }
      }
    }
  }

  /* ---- the conditions, over the rows themselves ---- */

  ghost function Positions(rows: seq<Seed>, p: Seed -> bool): set<int> {
    set i | 0 <= i < |rows| && p(rows[i])
  }

  /** A count is the number of positions it counts. */
  lemma {:induction false} CountsPositions(rows: seq<Seed>, p: Seed -> bool)
    ensures Count(rows, p) == |Positions(rows, p)|
  {
    if rows == [] {
      assert Positions(rows, p) == {};
    } else {
      var n := |rows| - 1;
      CountsPositions(rows[..n], p);
      assert Positions(rows, p) == Positions(rows[..n], p) + if p(rows[n]) then {n} else {};
    }
  }

  ghost function WithControl(rows: seq<Seed>, control: Control): nat {
    |set i | 0 <= i < |rows| && rows[i].control == control|
  }

  ghost function OfDimension(rows: seq<Seed>, dimension: string): nat {
    |set i | 0 <= i < |rows| && rows[i].control != NegativeControl && rows[i].dimension == dimension|
  }

  lemma ControlsCount(rows: seq<Seed>, control: Control)
    ensures Count(rows, Controlled(control)) == WithControl(rows, control)
  {
    CountsPositions(rows, Controlled(control));
    assert Positions(rows, Controlled(control)) == set i | 0 <= i < |rows| && rows[i].control == control;
  }

  lemma DimensionsCount(rows: seq<Seed>, dimension: string)
    ensures Count(rows, Measures(dimension)) == OfDimension(rows, dimension)
  {
    CountsPositions(rows, Measures(dimension));
    assert Positions(rows, Measures(dimension))
        == set i | 0 <= i < |rows| && rows[i].control != NegativeControl && rows[i].dimension == dimension;
  }

  /** The required number of negatives is the least that is 15% of the standard seeds. */
  lemma NegativesExactly(standard: nat, k: nat)
    ensures k >= NegativesFor(standard) <==> 100 * k >= 15 * standard
  {
  }

  /** A row has known values, sits in a known cell that is not pruned, agrees with it in every shared column, and is
      textbook only as a positive control. */
  ghost predicate RowHolds(s: Seed, cells: Cells) {
    && s.structure in {Single, Combined, Layered, Distributed, Camouflaged, Interference}
    && s.difficulty in {Easy, Medium, Hard} && s.complexity in {Textbook, Production, Staff, Principal, Distinguished}
    && s.control in {Standard, PositiveControl, NegativeControl, RegressionSeed} && s.otherwiseValid
    && s.cell in cells
    && (var cell := cells[s.cell];
        && cell.requirement != Pruned && s.agent == cell.agent && s.dimension == cell.dimension
        && s.bugNature == cell.bugNature && s.structure == cell.structure && s.difficulty == cell.difficulty)
    && !(s.complexity == Textbook && s.control != PositiveControl)
  }

  ghost predicate BenchmarkHolds(rows: seq<Seed>) {
    && WithControl(rows, PositiveControl) >= 1 && WithControl(rows, NegativeControl) >= 1
    && 100 * WithControl(rows, NegativeControl) >= 15 * WithControl(rows, Standard)
    && forall i :: 0 <= i < |rows| && rows[i].control != NegativeControl ==> OfDimension(rows, rows[i].dimension) >= 8
  }

  /** Ids that are present and distinct, good rows, a seed in every required cell, a regression seed, and for a
      benchmark all controls, enough negatives and at least 8 seeds for every dimension measured. */
  ghost predicate CatalogHolds(rows: seq<Seed>, cells: Cells, kind: SuiteKind) {
    && (forall i :: 0 <= i < |rows| ==> rows[i].id != "" && RowHolds(rows[i], cells))
    && (forall i, j :: 0 <= i < |rows| && 0 <= j < |rows| && rows[i].id == rows[j].id ==> i == j)
    && (forall id :: id in cells && cells[id].requirement == Required ==> exists s :: s in rows && s.cell == id)
    && WithControl(rows, RegressionSeed) >= 1
    && (kind == BenchmarkSuite ==> BenchmarkHolds(rows))
  }

  lemma RowExactly(s: Seed, cells: Cells)
    ensures RowOk(s, cells) <==> RowHolds(s, cells)
  {
  }

  lemma IdsExactly(rows: seq<Seed>)
    ensures IdsOk(rows)
            <==> (forall i :: 0 <= i < |rows| ==> rows[i].id != "")
                 && forall i, j :: 0 <= i < |rows| && 0 <= j < |rows| && rows[i].id == rows[j].id ==> i == j
  {
  }

  lemma CellsExactly(rows: seq<Seed>, cells: Cells)
    ensures CellsFilled(rows, cells)
            <==> forall id :: id in cells && cells[id].requirement == Required ==> exists s :: s in rows && s.cell == id
  {
    forall id ensures HasSeed(rows, |rows|, id) <==> exists s :: s in rows && s.cell == id {
      if s :| s in rows && s.cell == id {
        assert HasSeed(rows, |rows|, id);
      }
    }
  }

  lemma {:induction false} DimensionsExactly(rows: seq<Seed>)
    ensures DimensionsOk(rows)
            <==> forall i :: 0 <= i < |rows| && rows[i].control != NegativeControl
                             ==> OfDimension(rows, rows[i].dimension) >= 8
  {
    forall d ensures Count(rows, Measures(d)) == OfDimension(rows, d) {
      DimensionsCount(rows, d);
    }
    forall i | 0 <= i < |rows| && rows[i].control != NegativeControl
      ensures Count(rows, Measures(rows[i].dimension)) > 0
    {
      CountZero(rows, Measures(rows[i].dimension));
      assert Measures(rows[i].dimension)(rows[i]);
    }
    if forall i :: 0 <= i < |rows| && rows[i].control != NegativeControl ==> OfDimension(rows, rows[i].dimension) >= 8 {
      forall d | Count(rows, Measures(d)) > 0 ensures Count(rows, Measures(d)) >= 8 {
        CountZero(rows, Measures(d));
        var s :| s in rows && Measures(d)(s);
        var i :| 0 <= i < |rows| && rows[i] == s;
        assert OfDimension(rows, rows[i].dimension) >= 8;
      }
    }
  }

  lemma BenchmarkExactly(rows: seq<Seed>)
    ensures Count(rows, Controlled(PositiveControl)) > 0 && Count(rows, Controlled(NegativeControl)) > 0
            && NegativesOk(rows) && DimensionsOk(rows)
            <==> BenchmarkHolds(rows)
  {
    ControlsCount(rows, PositiveControl);
    ControlsCount(rows, NegativeControl);
    ControlsCount(rows, Standard);
    NegativesExactly(WithControl(rows, Standard), WithControl(rows, NegativeControl));
    DimensionsExactly(rows);
  }

  /** The catalogue check accepts exactly these catalogues. */
  lemma CatalogExactly(rows: seq<Seed>, cells: Cells, kind: SuiteKind)
    ensures CatalogOk(rows, cells, kind) <==> CatalogHolds(rows, cells, kind)
  {
    IdsExactly(rows);
    CellsExactly(rows, cells);
    ControlsCount(rows, RegressionSeed);
    BenchmarkExactly(rows);
    forall i | 0 <= i < |rows| ensures RowOk(rows[i], cells) <==> RowHolds(rows[i], cells) {
      RowExactly(rows[i], cells);
    }
  }

  /* ---- what an accepted catalogue says about the matrix ---- */

  function RequiredCells(cells: Cells): set<string> {
    set id | id in cells && cells[id].requirement == Required
  }

  function UsedCells(rows: seq<Seed>): (used: set<string>)
    ensures |used| <= |rows|
    ensures forall id :: id in used <==> exists s :: s in rows && s.cell == id
  {
    if rows == [] then {}
    else
      assert rows == rows[..|rows| - 1] + [rows[|rows| - 1]];
      UsedCells(rows[..|rows| - 1]) + {rows[|rows| - 1].cell}
  }

  /** An accepted catalogue has at least as many seeds as the matrix has required cells, and uses every required cell,
      no pruned one and none the matrix does not know. */
  lemma AcceptedCatalogFitsMatrix(rows: seq<Seed>, cells: Cells, kind: SuiteKind)
    requires CatalogOk(rows, cells, kind)
    ensures |RequiredCells(cells)| <= |rows|
    ensures RequiredCells(cells) <= UsedCells(rows)
    ensures forall id :: id in UsedCells(rows) ==> id in cells && cells[id].requirement != Pruned
  {
    forall id | id in RequiredCells(cells) ensures id in UsedCells(rows) {
      assert HasSeed(rows, |rows|, id);
    }
    SubsetIsSmaller(RequiredCells(cells), UsedCells(rows));
  }

  /* ---- depth ---- */

  /** Floors and ceilings in percent. */
  datatype Floors = Floors(textbookMax: nat, productionMax: nat, staffMin: nat, principalMin: nat,
                           distinguishedMin: nat, staffPlusMin: nat)

  const GENERAL := Floors(10, 10, 35, 25, 20, 80)
  const ARCHITECT := Floors(5, 10, 30, 30, 25, 85)
  const SHALLOW_HARD_MAX: nat := 20
  const CONCENTRATION_MAX: nat := 50

  datatype DepthNote =
    | TooMany(tier: Complexity) | TooFew(tier: Complexity) | TooFewStaffPlus | ShallowHard | Concentrated | NoConcepts

  predicate IsStaffPlus(c: Complexity) {
    c in {Staff, Principal, Distinguished}
  }

  predicate IsLow(c: Complexity) {
    c in {Textbook, Production}
  }

  predicate Eligible(s: Seed) {
    s.complexity != UnknownComplexity && s.control != NegativeControl
  }

  function InTier(tier: Complexity): Seed -> bool {
    (s: Seed) => Eligible(s) && s.complexity == tier
  }

  function StaffPlusSeed(): Seed -> bool {
    (s: Seed) => Eligible(s) && IsStaffPlus(s.complexity)
  }

  function HardSeed(): Seed -> bool {
    (s: Seed) => Eligible(s) && s.difficulty == Hard
  }

  function ShallowHardSeed(): Seed -> bool {
    (s: Seed) => Eligible(s) && s.difficulty == Hard && IsLow(s.complexity)
  }

  function Occurrences(concepts: seq<string>, concept: string): nat {
    if concepts == [] then 0
    else Occurrences(concepts[..|concepts| - 1], concept) + if concepts[|concepts| - 1] == concept then 1 else 0
  }

  /** How often the staff+ seeds name a concept of the taxonomy. */
  function Mentions(rows: seq<Seed>, taxonomy: set<string>, concept: string): nat {
    if rows == [] then 0
    else
      var last := rows[|rows| - 1];
      Mentions(rows[..|rows| - 1], taxonomy, concept)
      + if StaffPlusSeed()(last) && concept in taxonomy then Occurrences(last.concepts, concept) else 0
  }

  function Total(rows: seq<Seed>): nat {
    Count(rows, InTier(Textbook)) + Count(rows, InTier(Production)) + Count(rows, InTier(Staff))
    + Count(rows, InTier(Principal)) + Count(rows, InTier(Distinguished))
  }

  /** `ratio(count, total) > max`, where an empty total gives ratio zero. */
  predicate Exceeds(count: nat, total: nat, max: nat) {
    total > 0 && 100 * count > max * total
  }

  /** `ratio(count, total) < min`. */
  predicate FallsShort(count: nat, total: nat, min: nat) {
    if total > 0 then 100 * count < min * total else min > 0
  }

  function StaffPlusCount(rows: seq<Seed>): nat {
    Count(rows, InTier(Staff)) + Count(rows, InTier(Principal)) + Count(rows, InTier(Distinguished))
  }

  ghost predicate TiersOk(rows: seq<Seed>, floors: Floors) {
    var total := Total(rows);
    && !Exceeds(Count(rows, InTier(Textbook)), total, floors.textbookMax)
    && !Exceeds(Count(rows, InTier(Production)), total, floors.productionMax)
    && !FallsShort(Count(rows, InTier(Staff)), total, floors.staffMin)
    && !FallsShort(Count(rows, InTier(Principal)), total, floors.principalMin)
    && !FallsShort(Count(rows, InTier(Distinguished)), total, floors.distinguishedMin)
  }

  ghost predicate StaffPlusOk(rows: seq<Seed>, floors: Floors) {
    !FallsShort(StaffPlusCount(rows), Total(rows), floors.staffPlusMin)
  }

  ghost predicate HardOk(rows: seq<Seed>) {
    !Exceeds(Count(rows, ShallowHardSeed()), Count(rows, HardSeed()), SHALLOW_HARD_MAX)
  }

  /** Some concept of the taxonomy is named, and none by more than half of the staff+ seeds. */
  ghost predicate ConceptsOk(rows: seq<Seed>, taxonomy: set<string>) {
    var staffPlus := Count(rows, StaffPlusSeed());
    staffPlus > 0 ==> (exists c :: Mentions(rows, taxonomy, c) > 0)
                      && forall c :: !Exceeds(Mentions(rows, taxonomy, c), staffPlus, CONCENTRATION_MAX)
  }

  ghost predicate DepthOk(rows: seq<Seed>, floors: Floors, taxonomy: set<string>) {
    TiersOk(rows, floors) && StaffPlusOk(rows, floors) && HardOk(rows) && ConceptsOk(rows, taxonomy)
  }

  lemma FloorsAdd(total: nat, a: nat, b: nat, c: nat, floor: nat, x: nat, y: nat, z: nat)
    requires floor <= a + b + c && 100 * x >= a * total && 100 * y >= b * total && 100 * z >= c * total
    ensures 100 * (x + y + z) >= floor * total
  {
    var slack := a + b + c - floor;
    assert (floor + slack) * total == floor * total + slack * total;
    assert (a + b + c) * total == a * total + b * total + c * total;
  }

  /** In exact arithmetic a staff+ floor that is at most the sum of the three tier minima never decides. */
  lemma TierMinimaImplyStaffPlus(rows: seq<Seed>, floors: Floors)
    requires floors.staffPlusMin <= floors.staffMin + floors.principalMin + floors.distinguishedMin
    requires TiersOk(rows, floors)
    ensures StaffPlusOk(rows, floors)
  {
    if Total(rows) > 0 {
      FloorsAdd(Total(rows), floors.staffMin, floors.principalMin, floors.distinguishedMin, floors.staffPlusMin,
                Count(rows, InTier(Staff)), Count(rows, InTier(Principal)), Count(rows, InTier(Distinguished)));
    }
  }

  /** Both of the validator's tables have such a floor, so its separate staff+ test is redundant. */
  lemma StaffPlusTestIsRedundant(rows: seq<Seed>, taxonomy: set<string>)
    ensures var floors := FloorsFor(rows);
            DepthOk(rows, floors, taxonomy) <==> TiersOk(rows, floors) && HardOk(rows) && ConceptsOk(rows, taxonomy)
  {
    if TiersOk(rows, FloorsFor(rows)) {
      TierMinimaImplyStaffPlus(rows, FloorsFor(rows));
    }
  }

  function LowerDash(c: char): char {
    if 'A' <= c <= 'Z' then (c as int - 'A' as int + 'a' as int) as char else if c == '_' || c == ' ' then '-' else c
  }

  function Normalize(agent: string): string {
    if agent == "" then "" else [LowerDash(agent[0])] + Normalize(agent[1..])
  }

  predicate IsArchitectOrCodeReview(agent: string) {
    Normalize(agent) in {"architect", "software-architect", "code-review"}
  }

  function FloorsFor(rows: seq<Seed>): Floors {
    if exists s :: s in rows && IsArchitectOrCodeReview(s.agent) then ARCHITECT else GENERAL
  }

  method CountConcepts(seed: Seed, taxonomy: set<string>, before: map<string, nat>) returns (counts: map<string, nat>)
    ensures forall c :: At(counts, c) == At(before, c) + if c in taxonomy then Occurrences(seed.concepts, c) else 0
  {
    counts := before;
    var i := 0;
    while i < |seed.concepts|
      invariant 0 <= i <= |seed.concepts|
      invariant forall c :: At(counts, c) == At(before, c) + if c in taxonomy then Occurrences(seed.concepts[..i], c)
                else 0
    {
      assert seed.concepts[..i + 1][..i] == seed.concepts[..i];
      if seed.concepts[i] in taxonomy {
        counts := counts[seed.concepts[i] := At(counts, seed.concepts[i]) + 1];
      }
      i := i + 1;
    }
    assert seed.concepts[..i] == seed.concepts;
  }

  /** The loop of `compute_depth_readiness`. */
  method CountDepth(rows: seq<Seed>, taxonomy: set<string>)
    returns (tiers: map<Complexity, nat>, hard: nat, shallowHard: nat, staffPlus: nat, concepts: map<string, nat>)
    ensures forall t :: t != UnknownComplexity ==> At(tiers, t) == Count(rows, InTier(t))
    ensures hard == Count(rows, HardSeed()) && shallowHard == Count(rows, ShallowHardSeed())
            && staffPlus == Count(rows, StaffPlusSeed())
    ensures forall c :: At(concepts, c) == Mentions(rows, taxonomy, c)
  {
    tiers, hard, shallowHard, staffPlus, concepts := map[], 0, 0, 0, map[];
    var i := 0;
    while i < |rows|
      invariant 0 <= i <= |rows|
      invariant forall t :: t != UnknownComplexity ==> At(tiers, t) == Count(rows[..i], InTier(t))
      invariant hard == Count(rows[..i], HardSeed())
      invariant shallowHard == Count(rows[..i], ShallowHardSeed())
      invariant staffPlus == Count(rows[..i], StaffPlusSeed())
      invariant forall c :: At(concepts, c) == Mentions(rows[..i], taxonomy, c)
    {
      var s := rows[i];
      assert rows[..i + 1][..i] == rows[..i];
      if Eligible(s) {
        tiers := tiers[s.complexity := At(tiers, s.complexity) + 1];
        if s.difficulty == Hard {
          hard := hard + 1;
          if IsLow(s.complexity) { shallowHard := shallowHard + 1; }
        }
        if IsStaffPlus(s.complexity) {
          staffPlus := staffPlus + 1;
          concepts := CountConcepts(s, taxonomy, concepts);
        }
      }
      i := i + 1;
    }
    assert rows[..i] == rows;
  }

  /** The concept notes: the most common concept decides. */
  method ConceptNotes(staffPlus: nat, concepts: map<string, nat>) returns (notes: seq<DepthNote>)
    ensures notes == [] <==> (staffPlus > 0 ==> (exists c :: At(concepts, c) > 0)
                                                && forall c :: !Exceeds(At(concepts, c), staffPlus, CONCENTRATION_MAX))
  {
    notes := [];
    if staffPlus > 0 {
      if exists c :: c in concepts && concepts[c] > 0 {
        if exists c :: c in concepts && Exceeds(concepts[c], staffPlus, CONCENTRATION_MAX) {
          notes := [Concentrated];
          var c :| c in concepts && Exceeds(concepts[c], staffPlus, CONCENTRATION_MAX);
          assert Exceeds(At(concepts, c), staffPlus, CONCENTRATION_MAX);
        } else {
          var c :| c in concepts && concepts[c] > 0;
          assert At(concepts, c) > 0;
        }
      } else {
        notes := [NoConcepts];
      }
    }
  }

  /** The five tier gates. */
  method TierNotes(rows: seq<Seed>, tiers: map<Complexity, nat>, total: nat, floors: Floors)
    returns (notes: seq<DepthNote>)
    requires total == Total(rows)
    requires forall t :: t != UnknownComplexity ==> At(tiers, t) == Count(rows, InTier(t))
    ensures notes == [] <==> TiersOk(rows, floors)
  {
    notes := [];
    if Exceeds(At(tiers, Textbook), total, floors.textbookMax) { notes := notes + [TooMany(Textbook)]; }
    if Exceeds(At(tiers, Production), total, floors.productionMax) { notes := notes + [TooMany(Production)]; }
    if FallsShort(At(tiers, Staff), total, floors.staffMin) { notes := notes + [TooFew(Staff)]; }
    if FallsShort(At(tiers, Principal), total, floors.principalMin) { notes := notes + [TooFew(Principal)]; }
    if FallsShort(At(tiers, Distinguished), total, floors.distinguishedMin) {
      notes := notes + [TooFew(Distinguished)];
    }
  }

  /** Ready exactly when every depth gate holds. */
  method ComputeDepthReadiness(rows: seq<Seed>, taxonomy: set<string>) returns (ready: bool, notes: seq<DepthNote>)
    ensures ready <==> notes == []
    ensures ready <==> DepthOk(rows, FloorsFor(rows), taxonomy)
    ensures ready <==> DepthHolds(rows, taxonomy)
  {
    DepthExactly(rows, taxonomy);
    var tiers, hard, shallowHard, staffPlus, concepts := CountDepth(rows, taxonomy);
    var floors := FloorsFor(rows);
    var total := At(tiers, Textbook) + At(tiers, Production) + At(tiers, Staff) + At(tiers, Principal)
      + At(tiers, Distinguished);
    notes := TierNotes(rows, tiers, total, floors);
    var staffPlusTotal := At(tiers, Staff) + At(tiers, Principal) + At(tiers, Distinguished);
    assert staffPlusTotal == StaffPlusCount(rows);
    var more: seq<DepthNote> := [];
    if FallsShort(staffPlusTotal, total, floors.staffPlusMin) { more := more + [TooFewStaffPlus]; }
    if hard > 0 && Exceeds(shallowHard, hard, SHALLOW_HARD_MAX) { more := more + [ShallowHard]; }
    assert more == [] <==> StaffPlusOk(rows, floors) && HardOk(rows);
    var conceptNotes := ConceptNotes(staffPlus, concepts);
    ConceptsAgree(rows, taxonomy, concepts);
    notes := notes + more + conceptNotes;
    ready := notes == [];
  }

  lemma ConceptsAgree(rows: seq<Seed>, taxonomy: set<string>, concepts: map<string, nat>)
    requires forall c :: At(concepts, c) == Mentions(rows, taxonomy, c)
    ensures var staffPlus := Count(rows, StaffPlusSeed());
            ConceptsOk(rows, taxonomy)
            <==> (staffPlus > 0 ==> (exists c :: At(concepts, c) > 0)
                                    && forall c :: !Exceeds(At(concepts, c), staffPlus, CONCENTRATION_MAX))
  {
    var staffPlus := Count(rows, StaffPlusSeed());
    if staffPlus > 0 {
      if c :| Mentions(rows, taxonomy, c) > 0 {
        assert At(concepts, c) > 0;
      }
      if c :| Exceeds(Mentions(rows, taxonomy, c), staffPlus, CONCENTRATION_MAX) {
        assert Exceeds(At(concepts, c), staffPlus, CONCENTRATION_MAX);
      }
    }
  }

  /* ---- depth, over the rows themselves ---- */

  /** `ratio`: nothing of nothing is zero. */
  ghost function Ratio(count: nat, total: nat): real {
    if total == 0 then 0.0 else count as real / total as real
  }

  lemma RatiosExactly(count: nat, total: nat, percent: nat)
    ensures Exceeds(count, total, percent) <==> Ratio(count, total) > percent as real / 100.0
    ensures FallsShort(count, total, percent) <==> Ratio(count, total) < percent as real / 100.0
  {
    if total > 0 {
      var r, p := Ratio(count, total), percent as real / 100.0;
      var t := total as real;
      assert count as real == r * t && percent as real == 100.0 * p;
      assert (100 * count) as real == 100.0 * (r * t) && (percent * total) as real == 100.0 * (p * t);
      TimesKeepsOrder(r, p, t);
    }
  }

  lemma TimesKeepsOrder(a: real, b: real, t: real)
    requires t > 0.0
    ensures a * t > b * t <==> a > b
    ensures a * t < b * t <==> a < b
  {
    assert (a - b) * t == a * t - b * t;
  }

  /** The depth-eligible seeds of some of the tiers. */
  ghost function Deep(rows: seq<Seed>, tiers: set<Complexity>): nat {
    |set i | 0 <= i < |rows| && rows[i].control != NegativeControl && rows[i].complexity in tiers|
  }

  ghost function DeepHard(rows: seq<Seed>, tiers: set<Complexity>): nat {
    |set i | 0 <= i < |rows| && rows[i].control != NegativeControl && rows[i].complexity in tiers
             && rows[i].difficulty == Hard|
  }

  const ALL_TIERS := {Textbook, Production, Staff, Principal, Distinguished}
  const TOP_TIERS := {Staff, Principal, Distinguished}

  lemma DeepCount(rows: seq<Seed>, tiers: set<Complexity>, p: Seed -> bool)
    requires forall s :: p(s) <==> s.control != NegativeControl && s.complexity in tiers
    ensures Count(rows, p) == Deep(rows, tiers)
  {
    CountsPositions(rows, p);
    assert Positions(rows, p)
        == set i | 0 <= i < |rows| && rows[i].control != NegativeControl && rows[i].complexity in tiers;
  }

  lemma DeepHardCount(rows: seq<Seed>, tiers: set<Complexity>, p: Seed -> bool)
    requires forall s :: p(s) <==> s.control != NegativeControl && s.complexity in tiers && s.difficulty == Hard
    ensures Count(rows, p) == DeepHard(rows, tiers)
  {
    CountsPositions(rows, p);
    assert Positions(rows, p)
        == set i | 0 <= i < |rows| && rows[i].control != NegativeControl && rows[i].complexity in tiers
                   && rows[i].difficulty == Hard;
  }

  lemma {:induction false} CountsAdd(rows: seq<Seed>, p: Seed -> bool, q: Seed -> bool, either: Seed -> bool)
    requires forall s :: either(s) <==> p(s) || q(s)
    requires forall s :: !(p(s) && q(s))
    ensures Count(rows, either) == Count(rows, p) + Count(rows, q)
  {
    if rows != [] {
      CountsAdd(rows[..|rows| - 1], p, q, either);
    }
  }

  /** Seeds of some tiers and seeds of another tier. */
  lemma DeepAdd(rows: seq<Seed>, tiers: set<Complexity>, tier: Complexity)
    requires tier !in tiers && tier != UnknownComplexity
    ensures Deep(rows, tiers + {tier}) == Deep(rows, tiers) + Count(rows, InTier(tier))
  {
    var p := (s: Seed) => s.control != NegativeControl && s.complexity in tiers;
    var either := (s: Seed) => s.control != NegativeControl && s.complexity in tiers + {tier};
    CountsAdd(rows, p, InTier(tier), either);
    DeepCount(rows, tiers, p);
    DeepCount(rows, tiers + {tier}, either);
  }

  lemma TierCount(rows: seq<Seed>, tier: Complexity)
    requires tier != UnknownComplexity
    ensures Count(rows, InTier(tier)) == Deep(rows, {tier})
  {
    DeepCount(rows, {tier}, InTier(tier));
  }

  lemma TotalsExactly(rows: seq<Seed>)
    ensures StaffPlusCount(rows) == Deep(rows, TOP_TIERS) && Total(rows) == Deep(rows, ALL_TIERS)
  {
    TierCount(rows, Staff);
    DeepAdd(rows, {Staff}, Principal);
    DeepAdd(rows, {Staff, Principal}, Distinguished);
    assert {Staff} + {Principal} == {Staff, Principal};
    assert {Staff, Principal} + {Distinguished} == TOP_TIERS;
    DeepAdd(rows, TOP_TIERS, Textbook);
    DeepAdd(rows, TOP_TIERS + {Textbook}, Production);
    assert TOP_TIERS + {Textbook} + {Production} == ALL_TIERS;
  }

  /** The places where a staff+ seed names a concept of the taxonomy. */
  ghost function Names(rows: seq<Seed>, taxonomy: set<string>, concept: string): set<(int, int)> {
    set i, j | 0 <= i < |rows| && 0 <= j < |rows[i].concepts| && rows[i].control != NegativeControl
               && rows[i].complexity in TOP_TIERS && concept in taxonomy && rows[i].concepts[j] == concept :: (i, j)
  }

  ghost function NamesIn(concepts: seq<string>, concept: string, row: int): set<(int, int)> {
    set j | 0 <= j < |concepts| && concepts[j] == concept :: (row, j)
  }

  lemma {:induction false} OccurrencesExactly(concepts: seq<string>, concept: string, row: int)
    ensures Occurrences(concepts, concept) == |NamesIn(concepts, concept, row)|
  {
    if concepts == [] {
      assert NamesIn(concepts, concept, row) == {};
    } else {
      var n := |concepts| - 1;
      OccurrencesExactly(concepts[..n], concept, row);
      assert NamesIn(concepts, concept, row)
          == NamesIn(concepts[..n], concept, row) + if concepts[n] == concept then {(row, n)} else {};
    }
  }

  lemma NamesNext(rows: seq<Seed>, taxonomy: set<string>, concept: string, n: nat)
    requires |rows| == n + 1
    ensures var added := if rows[n].control != NegativeControl && rows[n].complexity in TOP_TIERS && concept in taxonomy
                         then NamesIn(rows[n].concepts, concept, n) else {};
            Names(rows, taxonomy, concept) == Names(rows[..n], taxonomy, concept) + added
            && Names(rows[..n], taxonomy, concept) !! added
  {
    forall i, j | (i, j) in Names(rows[..n], taxonomy, concept) ensures (i, j) in Names(rows, taxonomy, concept) {
      assert rows[..n][i] == rows[i];
    }
    forall i, j | (i, j) in Names(rows, taxonomy, concept) && i < n
      ensures (i, j) in Names(rows[..n], taxonomy, concept)
    {
      assert rows[..n][i] == rows[i];
    }
  }

  lemma DisjointSizes<T>(a: set<T>, b: set<T>)
    requires a !! b
    ensures |a + b| == |a| + |b|
  {
  }

  lemma {:induction false} MentionsExactly(rows: seq<Seed>, taxonomy: set<string>, concept: string)
    ensures Mentions(rows, taxonomy, concept) == |Names(rows, taxonomy, concept)|
  {
    if rows == [] {
      assert Names(rows, taxonomy, concept) == {};
    } else {
      var n := |rows| - 1;
      MentionsExactly(rows[..n], taxonomy, concept);
      OccurrencesExactly(rows[n].concepts, concept, n);
      NamesNext(rows, taxonomy, concept, n);
      assert StaffPlusSeed()(rows[n]) <==> rows[n].control != NegativeControl && rows[n].complexity in TOP_TIERS;
      if StaffPlusSeed()(rows[n]) && concept in taxonomy {
        DisjointSizes(Names(rows[..n], taxonomy, concept), NamesIn(rows[n].concepts, concept, n));
      }
    }
  }

  /** The agent's name is one of those three, in any case, with underscores or spaces for hyphens. */
  ghost predicate IsStrict(agent: string) {
    Reads(agent, "architect") || Reads(agent, "software-architect") || Reads(agent, "code-review")
  }

  ghost predicate Reads(agent: string, name: string) {
    |agent| == |name| && forall i :: 0 <= i < |name| ==> ReadsAs(agent[i], name[i])
  }

  /** The character is that lowercase letter in either case, or any of the three that count as a hyphen. */
  ghost predicate ReadsAs(c: char, letter: char) {
    if letter == '-' then c == '-' || c == '_' || c == ' '
    else c != '_' && c != ' ' && (if 'A' <= c <= 'Z' then c as int + 32 == letter as int else c == letter)
  }

  lemma {:induction false} ReadsExactly(agent: string, name: string)
    ensures Normalize(agent) == name <==> Reads(agent, name)
  {
    if agent != "" && name != "" {
      ReadsExactly(agent[1..], name[1..]);
      assert name == [name[0]] + name[1..];
      assert LowerDash(agent[0]) == name[0] <==> ReadsAs(agent[0], name[0]);
      if Reads(agent, name) {
        assert Reads(agent[1..], name[1..]);
      }
      if Reads(agent[1..], name[1..]) && ReadsAs(agent[0], name[0]) {
        forall i | 0 <= i < |name| ensures ReadsAs(agent[i], name[i]) {
          if i > 0 {
            assert ReadsAs(agent[1..][i - 1], name[1..][i - 1]);
          }
        }
      }
    }
  }

  lemma StrictExactly(agent: string)
    ensures IsArchitectOrCodeReview(agent) <==> IsStrict(agent)
  {
    ReadsExactly(agent, "architect");
    ReadsExactly(agent, "software-architect");
    ReadsExactly(agent, "code-review");
  }

  ghost predicate SomeStrict(rows: seq<Seed>) {
    exists i :: 0 <= i < |rows| && IsStrict(rows[i].agent)
  }

  lemma FloorsExactly(rows: seq<Seed>)
    ensures FloorsFor(rows)
            == if SomeStrict(rows) then Floors(5, 10, 30, 30, 25, 85) else Floors(10, 10, 35, 25, 20, 80)
  {
    forall s | s in rows ensures IsArchitectOrCodeReview(s.agent) <==> IsStrict(s.agent) {
      StrictExactly(s.agent);
    }
  }

  /** The share of a tier, or of several, among the depth-eligible seeds. */
  ghost function Share(rows: seq<Seed>, tiers: set<Complexity>): real {
    Ratio(Deep(rows, tiers), Deep(rows, ALL_TIERS))
  }

  ghost predicate TierSharesHold(rows: seq<Seed>) {
    var strict := SomeStrict(rows);
    && Share(rows, {Textbook}) <= (if strict then 0.05 else 0.10)
    && Share(rows, {Production}) <= 0.10
    && Share(rows, {Staff}) >= (if strict then 0.30 else 0.35)
    && Share(rows, {Principal}) >= (if strict then 0.30 else 0.25)
    && Share(rows, {Distinguished}) >= (if strict then 0.25 else 0.20)
  }

  /** A staff+ seed means that some concept of the taxonomy is named, and none more often than half their number. */
  ghost predicate ConceptsHold(rows: seq<Seed>, taxonomy: set<string>) {
    var staffPlus := Deep(rows, TOP_TIERS);
    staffPlus > 0 ==> (exists c :: |Names(rows, taxonomy, c)| > 0)
                      && forall c :: Ratio(|Names(rows, taxonomy, c)|, staffPlus) <= 0.50
  }

  /** The depth gates as shares of the eligible seeds, with the stricter table when some agent is an architect or
      does code review. */
  ghost predicate DepthHolds(rows: seq<Seed>, taxonomy: set<string>) {
    && TierSharesHold(rows)
    && Share(rows, TOP_TIERS) >= (if SomeStrict(rows) then 0.85 else 0.80)
    && Ratio(DeepHard(rows, {Textbook, Production}), DeepHard(rows, ALL_TIERS)) <= 0.20
    && ConceptsHold(rows, taxonomy)
  }

  lemma TierSharesExactly(rows: seq<Seed>)
    ensures TiersOk(rows, FloorsFor(rows)) <==> TierSharesHold(rows)
  {
    var floors, total := FloorsFor(rows), Total(rows);
    FloorsExactly(rows);
    TotalsExactly(rows);
    TierCount(rows, Textbook);
    TierCount(rows, Production);
    TierCount(rows, Staff);
    TierCount(rows, Principal);
    TierCount(rows, Distinguished);
    RatiosExactly(Deep(rows, {Textbook}), total, floors.textbookMax);
    RatiosExactly(Deep(rows, {Production}), total, floors.productionMax);
    RatiosExactly(Deep(rows, {Staff}), total, floors.staffMin);
    RatiosExactly(Deep(rows, {Principal}), total, floors.principalMin);
    RatiosExactly(Deep(rows, {Distinguished}), total, floors.distinguishedMin);
  }

  lemma StaffPlusExactly(rows: seq<Seed>)
    ensures StaffPlusOk(rows, FloorsFor(rows))
            <==> Share(rows, TOP_TIERS) >= if SomeStrict(rows) then 0.85 else 0.80
  {
    FloorsExactly(rows);
    TotalsExactly(rows);
    RatiosExactly(StaffPlusCount(rows), Total(rows), FloorsFor(rows).staffPlusMin);
  }

  lemma HardExactly(rows: seq<Seed>)
    ensures HardOk(rows) <==> Ratio(DeepHard(rows, {Textbook, Production}), DeepHard(rows, ALL_TIERS)) <= 0.20
  {
    DeepHardCount(rows, {Textbook, Production}, ShallowHardSeed());
    DeepHardCount(rows, ALL_TIERS, HardSeed());
    RatiosExactly(Count(rows, ShallowHardSeed()), Count(rows, HardSeed()), 20);
  }

  lemma ConceptsExactly(rows: seq<Seed>, taxonomy: set<string>)
    ensures ConceptsOk(rows, taxonomy) <==> ConceptsHold(rows, taxonomy)
  {
    var staffPlus := Deep(rows, TOP_TIERS);
    DeepCount(rows, TOP_TIERS, StaffPlusSeed());
    forall c
      ensures Mentions(rows, taxonomy, c) == |Names(rows, taxonomy, c)|
      ensures Exceeds(Mentions(rows, taxonomy, c), staffPlus, CONCENTRATION_MAX)
              <==> Ratio(|Names(rows, taxonomy, c)|, staffPlus) > 0.50
    {
      MentionsExactly(rows, taxonomy, c);
      RatiosExactly(Mentions(rows, taxonomy, c), staffPlus, 50);
    }
    if ConceptsOk(rows, taxonomy) {
      assert ConceptsHold(rows, taxonomy);
    }
  }

  /** A suite is ready exactly when those shares hold. */
  lemma DepthExactly(rows: seq<Seed>, taxonomy: set<string>)
    ensures DepthOk(rows, FloorsFor(rows), taxonomy) <==> DepthHolds(rows, taxonomy)
  {
    TierSharesExactly(rows);
    StaffPlusExactly(rows);
    HardExactly(rows);
    ConceptsExactly(rows, taxonomy);
  }
}

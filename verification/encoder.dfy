/** The whole encoder: the puzzle text split at `|`, the cell descriptor
    decoded into atoms, the hint string and the game rules turned into
    constraints on them, and what a model of those constraints means for
    the grid. */
module Encoder {
  import opened Results
  import opened Atoms
  import opened Grid
  import opened Constraints
  import opened Cells
  import opened Hints
  import opened GameRules

  /** What is handed to the solver: the atoms, one per decoded cell, and
      every assertion, in the order they are made. */
  datatype Problem = Problem(vars: seq<Atom>, constraints: seq<Constraint>)

  // ---------------------------------------------------------------------
  // Splitting the puzzle text

  /** The puzzle text split at its first `|` into the cell descriptor and
      the hint string; no split when there is no `|` at all. */
  function Split(puzzle: string): (r: Option<(string, string)>)
    ensures r.None? <==> '|' !in puzzle
    ensures r.Some? ==> puzzle == r.value.0 + "|" + r.value.1 && '|' !in r.value.0
  {
    if |puzzle| == 0 then None
    else if puzzle[0] == '|' then Some(([], puzzle[1..]))
    else
      match Split(puzzle[1..])
      case None => None
      case Some((a, b)) => Some(([puzzle[0]] + a, b))
  }

  /** Any text built from a `|`-free descriptor, a `|` and a hint string is
      split back into exactly those two parts. */
  lemma {:induction false} SplitJoin(cells: string, hints: string)
    requires '|' !in cells
    ensures Split(cells + "|" + hints) == Some((cells, hints))
  {
    var puzzle := cells + "|" + hints;
    if |cells| == 0 {
      assert puzzle == "|" + hints;
      assert puzzle[1..] == hints;
    } else {
      assert puzzle[0] == cells[0];
      assert puzzle[1..] == cells[1..] + "|" + hints;
      SplitJoin(cells[1..], hints);
      assert [cells[0]] + cells[1..] == cells;
    }
  }

  // ---------------------------------------------------------------------
  // Encoding

  /** The inputs the encoder gets through without a panic: a descriptor
      without underflowing runs, a hint string without underflowing skips,
      hints that read existing atoms, and enough atoms for the rules. More
      atoms than the grid has cells are accepted. */
  ghost predicate Feasible(cells: string, hints: string, w: nat, h: nat)
  {
    && CellsOk(cells)
    && SkipsOk(hints)
    && HintsSafe(hints, w, CellCount(cells), 0)
    && (w == 0 || h == 0 || w * h <= CellCount(cells))
  }

  /** The panic of the rule loops with `n` atoms, if any: the first atom
      they read that does not exist. */
  function RulesFault(w: nat, h: nat, n: nat): Option<Fault>
  {
    match FirstOutOfRange(Rules(w, h), n)
    case Some(i) => Some(IndexOutOfBounds(i, n))
    case None => None
  }

  /** The rule loops panic exactly when the grid has cells and more of them
      than there are atoms, and then on an atom of the grid. */
  lemma RulesFaultMeaning(w: nat, h: nat, n: nat)
    ensures RulesFault(w, h, n).None? <==> w == 0 || h == 0 || w * h <= n
    ensures RulesFault(w, h, n).Some? ==>
      && RulesFault(w, h, n).value.IndexOutOfBounds?
      && RulesFault(w, h, n).value.len == n
      && n <= RulesFault(w, h, n).value.index < w * h
  {
    RulesInRange(w, h, n);
    RulesInRange(w, h, w * h);
    FirstOutOfRangeMeaning(Rules(w, h), n);
    FirstOutOfRangeBelow(Rules(w, h), n, w * h);
  }

  /** The ways the encoder stops, in the order the program meets them: an
      underflowing run in the descriptor, then the first faulting hint
      character, then the first missing atom the rule loops read. */
  ghost predicate StopsWith(cells: string, hints: string, w: nat, h: nat, f: Fault)
  {
    || (!CellsOk(cells) && f == CellRunUnderflow)
    || (&& CellsOk(cells)
        && exists k :: 0 <= k < |hints| && StopsAt(hints, k, w, CellCount(cells), f))
    || (&& CellsOk(cells) && SkipsOk(hints)
        && HintsSafe(hints, w, CellCount(cells), 0)
        && RulesFault(w, h, CellCount(cells)) == Some(f))
  }

  /** A hint character never faults like the cell loop. */
  lemma HintFaultIsNotCellFault(s: string, k: nat, w: nat, n: nat, f: Fault)
    requires k < |s| && StopsAt(s, k, w, n, f)
    ensures f != CellRunUnderflow
  {
  }

  /** The cell loop, the hint loop and the rule loops in sequence. The
      encoder succeeds exactly on feasible inputs, with the decoded atoms
      and the hint assertions followed by the rules; the descriptor is at
      fault exactly when its loop underflows; otherwise the first fault met
      is reported. */
  method Encode(cells: string, hints: string, w: nat, h: nat) returns (r: Result<Problem>)
    ensures r.Ok? <==> Feasible(cells, hints, w, h)
    ensures r.Ok? ==>
      && Feasible(cells, hints, w, h)
      && r.value == Problem(Decode(cells, 0), Emitted(hints, w, 0) + Rules(w, h))
    ensures r == Err(CellRunUnderflow) <==> !CellsOk(cells)
    ensures r.Err? ==> StopsWith(cells, hints, w, h, r.fault)
  {
    var decoded := DecodeCells(cells);
    if decoded.Err? {
      return Err(decoded.fault);
    }
    var vars := decoded.value;
    var n := |vars|;
    var scanned := ScanHints(hints, w, n);
    if scanned.Err? {
      r := Err(scanned.fault);
      ghost var k :| 0 <= k < |hints| && StopsAt(hints, k, w, n, scanned.fault);
      HintFaultIsNotCellFault(hints, k, w, n, scanned.fault);
      return;
    }
    var rules := Rules(w, h);
    RulesFaultMeaning(w, h, n);
    match FirstOutOfRange(rules, n)
    case Some(i) =>
      r := Err(IndexOutOfBounds(i, n));
    case None =>
      r := Ok(Problem(vars, scanned.value.out + rules));
  }

  // ---------------------------------------------------------------------
  // What the solver's models are

  /** `g` solves the puzzle: it keeps the given cells, keeps every hint
      relation, has no three equal cells in a line and has `w / 2` black
      cells in each row and `h / 2` in each column. */
  ghost predicate Solution(g: seq<bool>, cells: string, hints: string, w: nat, h: nat)
    requires CellsOk(cells) && SkipsOk(hints)
  {
    && KeepsFixed(Decode(cells, 0), g)
    && HintsHold(g, hints, w, 0)
    && NoTriples(g, w, h)
    && Balanced(g, w, h)
  }

  /** For grids of fewer than 2^31 columns and rows, a model satisfies every
      assertion the encoder makes exactly when its valuation of the atoms is
      a solution of the puzzle. */
  lemma ModelsAreSolutions(cells: string, hints: string, w: nat, h: nat, m: Model)
    requires Feasible(cells, hints, w, h) && w < 0x8000_0000 && h < 0x8000_0000
    ensures var vars := Decode(cells, 0);
      Satisfies(Values(vars, m), Emitted(hints, w, 0) + Rules(w, h)) <==>
      Solution(Values(vars, m), cells, hints, w, h)
  {
    var vars := Decode(cells, 0);
    var g := Values(vars, m);
    assert |g| == CellCount(cells);
    if w == 0 || h == 0 {
      assert w * h == 0;
    }
    SatisfiesConcat(g, Emitted(hints, w, 0), Rules(w, h));
    HintsMeaning(g, hints, w, 0);
    RulesMeaning(g, w, h);
    LiteralsSurviveEveryModel(vars, m);
    assert KeepsFixed(vars, g);
  }

  /** Conversely, every solution of the puzzle is the valuation of some
      model: the fresh constants are distinct, so any choice for the unknown
      cells is available to the solver. */
  lemma SolutionsAreModels(cells: string, hints: string, w: nat, h: nat, g: seq<bool>)
    returns (m: Model)
    requires Feasible(cells, hints, w, h) && w < 0x8000_0000 && h < 0x8000_0000
    requires Solution(g, cells, hints, w, h)
    ensures Values(Decode(cells, 0), m) == g
    ensures Satisfies(g, Emitted(hints, w, 0) + Rules(w, h))
  {
    DecodeIds(cells, 0);
    m := Realize(Decode(cells, 0), g);
    ModelsAreSolutions(cells, hints, w, h, m);
  }

  /** A descriptor of exactly the grid's cells whose hints are all placed
      inside the grid is always encoded. */
  lemma WellFormedPuzzlesEncode(cells: string, hints: string, w: nat, h: nat)
    requires CellsOk(cells) && SkipsOk(hints)
    requires CellCount(cells) == w * h && WellPlaced(hints, w, h, 0)
    ensures Feasible(cells, hints, w, h)
  {
    WellPlacedSafe(hints, w, h, CellCount(cells), 0);
  }

  /** Surplus atoms are not inert. The rule loops never read past the
      `w * h` grid atoms, but a hint in the last row reads an atom below it.
      With descriptor `aaaa1` on a 2 by 2 grid, hint `3` on cell 2 ties that
      cell to the surplus literal atom 4, so every model makes cell 2 true. */
  lemma SurplusAtomsCanBeRead(m: Model)
    ensures Feasible("aaaa1", "b3", 2, 2)
    ensures Emitted("b3", 2, 0) == [Eq(2, 4)]
    ensures Decode("aaaa1", 0)[4] == Fixed(true)
    ensures Satisfies(Values(Decode("aaaa1", 0), m), Emitted("b3", 2, 0)) ==> m(2)
  {
    SurplusDescriptor();
    SurplusHints();
    var g := Values(Decode("aaaa1", 0), m);
    assert g[2] == m(2) && g[4];
    if Satisfies(g, Emitted("b3", 2, 0)) {
      SingleEq(g, Emitted("b3", 2, 0), 2, 4);
    }
  }

  /** Descriptor `aaaa1`: four fresh constants, then the literal `true`. */
  lemma SurplusDescriptor()
    ensures CellsOk("aaaa1") && CellCount("aaaa1") == 5
    ensures Decode("aaaa1", 0) == [Free(0), Free(1), Free(2), Free(3), Fixed(true)]
  {
    var cells: seq<CellChar> := "aaaa1";
    assert cells[1..] == "aaa1" && cells[2..] == "aa1" && cells[3..] == "a1" && cells[4..] == "1";
    assert Decode("1", 4) == [Fixed(true)];
    SingleRun(3);
    assert Decode("a1", 3) == [Free(3)] + Decode("1", 4);
    SingleRun(2);
    assert Decode("aa1", 2) == [Free(2)] + Decode("a1", 3);
    SingleRun(1);
    assert Decode("aaa1", 1) == [Free(1)] + Decode("aa1", 2);
    SingleRun(0);
    assert Decode(cells, 0) == [Free(0)] + Decode("aaa1", 1);
  }

  /** `a` is a run of one fresh constant. */
  lemma SingleRun(next: nat)
    ensures CharAtoms('a', next) == [Free(next)]
    ensures CharFreshCount('a') == 1
  {
    assert CharAtoms('a', next)[0] == Free(next);
  }

  /** Hint string `b3` on width 2: skip cells 0 and 1, then `v=` on cell 2. */
  lemma SurplusHints()
    ensures SkipsOk("b3") && Emitted("b3", 2, 0) == [Eq(2, 4)]
    ensures HintsSafe("b3", 2, 5, 0)
  {
    var hints: seq<HintChar> := "b3";
    assert hints[1..] == "3";
    assert Emitted("3", 2, 2) == Emit('3', 2, 2) + Emitted([], 2, 3);
    assert Emitted(hints, 2, 0) == Emitted("3", 2, 2);
    assert InRange(Eq(2, 4), 5);
    HintsSafeMeaning(hints, 2, 5, 0);
  }

  /** A grid satisfying the one assertion `Eq(i, j)` has equal cells i and j. */
  lemma SingleEq(g: seq<bool>, cs: seq<Constraint>, i: nat, j: nat)
    requires cs == [Eq(i, j)] && Satisfies(g, cs)
    ensures i < |g| && j < |g| && g[i] == g[j]
  {
    assert Holds(g, cs[0]);
  }

  /** A `0` or `1` of the descriptor is read back, whatever the model, as
      the cell value it gives. */
  lemma GivenCellsReadBack(cells: string, k: nat, m: Model)
    requires CellsOk(cells) && k < |cells| && IsLiteral(cells[k])
    ensures CellCount(cells[..k]) < CellCount(cells)
    ensures Values(Decode(cells, 0), m)[CellCount(cells[..k])] == (cells[k] == '1')
  {
    LiteralCell(cells, k, 0);
  }
}

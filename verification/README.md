# Binairo-plus encoder, modelled in Dafny

The program solves a Binairo-plus puzzle: a `width` by `height` grid of
black and white cells. Each row and each column holds equally many of each
colour, no three equal cells are adjacent in a line, and extra `=` / `x`
marks between neighbouring cells say that the two are equal or differ. The
puzzle text is `<cells>|<hints>`:

- The cell descriptor holds `0` and `1` for given cells, and letters for
  runs of unknown cells (`a` is one, `b` two, ...).
- In the hint string, the digits `1`–`8` attach an `=` or `x` to the right
  neighbour of the cursor cell, to the lower neighbour, or to both.
- Letters in the hint string move the cursor over cells that carry no hint.

The program turns this into Boolean atoms and solver assertions, asks z3
for a model and prints the grid.

This project models the encoder and proves what its output means:

- `Cells`: the cell loop. It is `Decode` as a function and `DecodeCells` as
  the loop itself. Given cells become literal atoms; unknown cells become
  fresh constants, numbered in creation order.
- `Hints`: the hint loop.
  - `Emit` is the eight arms of the digit match. `Emitted` is the whole
    string, and `ScanHints` is the loop itself.
  - Hint digits are proved to pack an optional horizontal and an optional
    vertical relation as `h + 3 * v`.
- `GameRules`: the three rule loops. These are the two windows of three
  cells per cell, then the row and column cardinality assertions with
  target `width as i32 / 2` and `height as i32 / 2`.
- `Constraints`: the assertions as data.
  - `Holds` / `Satisfies` give their meaning for a grid of values.
  - `FirstOutOfRange` gives the first atom index, in evaluation order, that
    a list of assertions reads past the end of `vars`.
- `Atoms`: literal and fresh atoms, and the valuation a solver model gives
  them.
- `ReadBack`: reading the solved grid back row by row.
- `Encoder`:
  - splitting the puzzle text at `|`;
  - the whole pipeline, with every underflow and out-of-bounds panic of a
    debug build returned as a `Fault`;
  - the two lemmas that tie solver models to puzzle solutions in both
    directions.
- `Grid`, `Seqs`, `Results`: grid coordinates and the puzzle's rules stated
  on a row-major grid; generic sequence facts; `Option`, `Result` and
  `Fault`.

The program does not validate its input, and the model keeps that behaviour:

- A descriptor may decode to more atoms than the grid has cells, and the
  puzzle is still encoded (`Encoder.Feasible`). The rule loops never read
  the surplus atoms. A hint in the last row, or one past the grid, does
  relate cells to them, and a literal surplus atom can then force a grid
  cell (`Encoder.SurplusAtomsCanBeRead`).
- A descriptor with too few atoms is not rejected up front. The program
  panics at the first missing atom it reads. That can happen in the hint
  loop or in the rule loops, and `Encoder.Encode` reports exactly that index.
- A hint in the last column is not rejected. Its horizontal relation ties
  the cell to the first cell of the next row. `Hints.WellPlaced` states the
  placement that makes hints mean grid neighbours.
- Odd sizes keep the floor-divided balance target.

`GameRules.CellTriples` writes the cells above cell p = width·i + j as
p − width and p − 2·width. These are the numbers the program computes as
`width * (i - 1) + j` and `width * (i - 2) + j`.

## Model

| member | source | states |
|---|---|---|
| Cells.DecodeCells | src/main.rs:18-28 | The cell loop fails, with the run-length underflow, exactly when some character is not `0`/`1` and lies below '`'. Otherwise it yields one literal atom per `0`/`1` and `1 + (c - 'a')` fresh constants per other character, in text order. |
| Cells.LiteralCell | src/main.rs:19-22 | A `0` or `1` at position k of the descriptor becomes one literal atom with that value, at the atom position after all earlier characters' atoms. |
| Cells.RunCells | src/main.rs:23-27 | Any other character becomes `1 + (c - 'a')` consecutive fresh constants, numbered on from all constants created before it. |
| Cells.DecodeIds | src/main.rs:24-26 | Fresh constants of a decoded descriptor are pairwise distinct, strictly increasing in position, and drawn from the creation counter's range. |
| Cells.DecodeConcat | src/main.rs:18-28 | Decoding is compositional: descriptor `s + t` yields the atoms of `s` followed by those of `t`, whose constants continue the numbering. |
| Atoms.Realize | src/main.rs:25 | Fresh constants in increasing order are independent: any grid that keeps the literal cells is the valuation of some model. |
| Hints.EmitPacking | src/main.rs:32-52 | The eight arms of the digit match are `Relate(horizontal) + Relate(vertical)` with digit = h + 3·v (none/equal/differ as 0/1/2), horizontal first. Each arm asserts one assertion per present relation. |
| Hints.EmitMeaning | src/main.rs:33-52 | A grid satisfies a digit's assertions at cursor p exactly when the cell p relates as the digit says to cell p + 1 and to cell p + width. |
| Hints.EmitInRange | src/main.rs:33-52 | A digit's assertions read only existing atoms exactly when p, p + 1 (if horizontal) and p + width (if vertical) are below the atom count. |
| Hints.CursorStep | src/main.rs:53-55 | The cursor starts at 0. Each character advances it by 1 for a digit and by `1 + (c - 'a')` for a letter. |
| Hints.ScanHints | src/main.rs:30-56 | The hint loop succeeds exactly when every character is a digit 1–8 or at least `a`, and every digit reads existing atoms at its cursor. It then yields the final cursor and all assertions in order. Otherwise it stops at a character that faults in exactly the program's way: the first missing index read, or the skip underflow. Every character before it has run cleanly. |
| Hints.HintsMeaning | src/main.rs:30-56 | A grid satisfies the assertions of the hint string exactly when every digit's relations hold at the cell the cursor stood on. |
| Hints.HintsSafeMeaning | src/main.rs:30-56 | The hint assertions read only existing atoms exactly when every digit does at its own cursor cell. |
| Hints.EmittedConcat | src/main.rs:31-56 | The hint loop is compositional: `s + t` asserts what `s` does, then what `t` does from the cursor `s` left. |
| Hints.WellPlacedSafe | src/main.rs:33-52 | Hints inside the grid, with no horizontal part in the last column and no vertical part in the last row, read only cells of the grid. |
| Hints.HintOnGrid | src/main.rs:33-52 | On a well-placed cell (r, c), a hint relates (r, c) with its right neighbour (r, c + 1) and its lower neighbour (r + 1, c). |
| GameRules.TriplesMeaning | src/main.rs:57-74 | With at least width·height atoms, a grid satisfies the window assertions exactly when no three vertically or horizontally consecutive cells are equal. |
| GameRules.SmallGridsHaveNoTriples | src/main.rs:57-74 | The window loops assert nothing exactly when the grid is empty or at most 2 by 2. |
| GameRules.HalfI32Small | src/main.rs:77-81 | Below 2^31 the `as i32` cast and the truncating halving give the floor of half the size, so an odd size gets the floor target. |
| GameRules.HalfI32Wraps | src/main.rs:77-81 | The cast sees only the low 32 bits of the size. |
| GameRules.SumsMeaning | src/main.rs:75-82 | A grid satisfies the cardinality assertions exactly when each row holds `width as i32 / 2` true cells and each column `height as i32 / 2`. |
| GameRules.RulesMeaning | src/main.rs:57-82 | For sizes below 2^31, a grid satisfies all rule assertions exactly when it has no three equal cells in a line and every row and column is balanced (w / 2 and h / 2). |
| GameRules.RulesInRange | src/main.rs:57-82 | The rule loops read only existing atoms exactly when the grid is empty or there are at least width·height atoms. |
| Constraints.FirstOutOfRangeMeaning | src/main.rs:60-80 | The first-missing-index scan finds nothing exactly when every assertion reads only existing atoms. |
| Encoder.Split | src/main.rs:9-12 | The puzzle text is split exactly when it contains a `|`. The parts rejoin to the text around that `|`, and the first part contains no `|`. |
| Encoder.SplitJoin | src/main.rs:9 | Any `|`-free descriptor, a `|` and any hint string are split back into exactly those two parts. |
| Encoder.RulesFaultMeaning | src/main.rs:57-82 | The rule loops panic exactly when the grid has cells and more of them than there are atoms. They then panic on an index of the grid that is at least the atom count. |
| Encoder.Encode | src/main.rs:17-82 | The encoder succeeds exactly on feasible inputs, yielding the decoded atoms and the hint assertions followed by the rule assertions. The descriptor faults exactly when its loop underflows. Any other failure is the first fault of the hint loop, or else the rule loops' first missing index. |
| Encoder.ModelsAreSolutions | src/main.rs:17-82 | For a feasible puzzle below 2^31 in each size, a model satisfies every assertion exactly when its valuation keeps the given cells and the hints, has no three equal cells in a line and is balanced. |
| Encoder.SolutionsAreModels | src/main.rs:17-82 | Every such solution of the puzzle is the valuation of a model that satisfies every assertion. |
| Encoder.WellFormedPuzzlesEncode | src/main.rs:17-82 | A descriptor of exactly width·height cells with no underflowing run, and a hint string whose characters other than the digits 1–8 are all at least `a` and whose hints are well placed, is always encoded. |
| Encoder.SurplusAtomsCanBeRead | src/main.rs:30-56 | With descriptor `aaaa1` and hints `b3` on a 2 by 2 grid, the puzzle is encoded, the hint asserts `Eq(2, 4)` against the surplus literal atom 4, and every model satisfying the hint assertions makes grid cell 2 true. |
| Encoder.GivenCellsReadBack | src/main.rs:19-22 | Whatever the model, a `0`/`1` of the descriptor is valued as that given cell. |
| ReadBack.ReadRows | src/main.rs:85-87 | Read-back yields `height` rows; row i is cells i·width … i·width + width − 1 of the model's valuation. |
| ReadBack.RowMajor | src/main.rs:87 | Cell (r, c) of the read-back grid is the model's value of atom r·width + c. |

## Left out

- Command-line handling (src/main.rs:4-8, 13-14) is not modelled: reading the three arguments, the usage message, and the `unwrap` of parsing width and height. The sizes are parameters of type `nat`.
- A puzzle without `|` prints a message and ends normally. The model gives `Encoder.Split` returning `None` and goes no further.
- z3 is not modelled (src/main.rs:15-16, 29, 83-84): the context, the solver object and the satisfiability check. The model's stand-in is `Atoms.Model`: the values of the fresh constants, with satisfaction defined by `Constraints.Satisfies`.
  - The `assert_eq!` on the solver's answer is not modelled, nor the unsatisfiable case.
  - The `unwrap`s of `model.eval` are not modelled. Every grid atom appears in a row-sum assertion, so the model gives each a value.
- Printing the grid (src/main.rs:88-94) is not modelled: `⚫` for true, `⚪` for false. `ReadBack.ReadRows` returns the rows of values instead.
- `Vec::with_capacity(width * height)` (src/main.rs:17) is not modelled. For huge grids it panics with a capacity overflow, or the allocation fails and the process aborts. Both happen before the cell loop, where `Encoder.Encode` would instead report its first fault. The model reserves nothing.
- Release-build arithmetic is not modelled. The model has debug-build semantics: `usize` underflow in a run length or a skip is a panic, reported as a `Fault`.
  - Release-build wrap-around of those subtractions is not modelled.
  - Overflow of `width * height`, `idx + width` or the cursor past `usize::MAX` is not modelled either. Integers are unbounded.
- Encoder.ModelsAreSolutions: states the meaning only for widths and heights below 2^31. Above that the `as i32` cast wraps and the row target is not w / 2. `GameRules.SumsMeaning` states the exact target, `width as i32 / 2`, for every size.

/** The Binairo rules the encoder adds for a `w` by `h` grid, whatever the
    descriptor: no three equal cells in a line, and half of every line true. */
module GameRules {
  import opened Grid
  import opened Constraints
  import opened Seqs

  // ---------------------------------------------------------------------
  // The rule loops

  /** A window of three cells is asserted as "not all three true" followed
      by "at least one true". */
  function Window(a: nat, b: nat, c: nat): seq<Constraint>
  {
    [NotAll3(a, b, c), Any3(a, b, c)]
  }

  /** The windows ending at cell (i, j), whose atom is `p = w * i + j`: the
      vertical one through (i - 1, j) and (i - 2, j) from the third row on,
      then the horizontal one through (i, j - 1) and (i, j - 2) from the
      third column on. The program writes the cells above as
      `width * (i - 1) + j` and `width * (i - 2) + j`, that is `p - w` and
      `p - 2 * w`. */
  function CellTriples(w: nat, i: nat, j: nat): seq<Constraint>
  {
    var p := w * i + j;
    (if i >= 2 then MulMonotone(2, i, w); Window(p, p - w, p - 2 * w) else [])
    + (if j >= 2 then Window(p, p - 1, p - 2) else [])
  }

  /** The inner loop: the windows ending at each cell of row `i` in turn. */
  function RowTriples(w: nat, i: nat): seq<Constraint>
  {
    Flatten(seq(w, j requires 0 <= j < w => CellTriples(w, i, j)))
  }

  /** The outer loop: row after row. */
  function Triples(w: nat, h: nat): seq<Constraint>
  {
    Flatten(seq(h, i requires 0 <= i < h => RowTriples(w, i)))
  }

  /** `x as i32 / 2`: the cast keeps the low 32 bits as a two's complement
      value and the division truncates toward zero. */
  function HalfI32(x: nat): int
  {
    var low := x % 0x1_0000_0000;
    var v := if low < 0x8000_0000 then low else low - 0x1_0000_0000;
    if v >= 0 then v / 2 else -((-v) / 2)
  }

  /** The cells of row `i`, left to right. */
  function RowCells(w: nat, i: nat): seq<nat>
  {
    seq(w, j requires 0 <= j < w => i * w + j)
  }

  /** The cells of column `j`, top to bottom. */
  function ColumnCells(w: nat, h: nat, j: nat): seq<nat>
  {
    seq(h, i requires 0 <= i < h => i * w + j)
  }

  /** One "exactly half true" constraint per row, then one per column. */
  function RowSums(w: nat, h: nat): seq<Constraint>
  {
    seq(h, i requires 0 <= i < h => Exactly(RowCells(w, i), HalfI32(w)))
  }

  function ColumnSums(w: nat, h: nat): seq<Constraint>
  {
    seq(w, j requires 0 <= j < w => Exactly(ColumnCells(w, h, j), HalfI32(h)))
  }

  /** Everything the three rule loops assert, in order. */
  function Rules(w: nat, h: nat): seq<Constraint>
  {
    Triples(w, h) + RowSums(w, h) + ColumnSums(w, h)
  }

  // ---------------------------------------------------------------------
  // The halving

  /** For every size a 32-bit signed integer holds, the cast and truncating
      division are plain floor division: `w / 2` of `w` cells, rounding
      down for odd sizes. */
  lemma HalfI32Small(x: nat)
    requires x < 0x8000_0000
    ensures HalfI32(x) == x / 2
    ensures 2 * HalfI32(x) <= x < 2 * HalfI32(x) + 2
  {
  }

  /** The cast only sees the low 32 bits of the size. */
  lemma HalfI32Wraps(x: nat)
    ensures HalfI32(x + 0x1_0000_0000) == HalfI32(x)
  {
    assert (x + 0x1_0000_0000) % 0x1_0000_0000 == x % 0x1_0000_0000;
  }

  // ---------------------------------------------------------------------
  // What the triple constraints mean

  /** The windows ending at cell (i, j) are mixed in `g`. */
  ghost predicate WindowsMixed(g: seq<bool>, w: nat, i: nat, j: nat)
  {
    && (i >= 2 ==> Mixed(At(g, w, i, j), At(g, w, i - 1, j), At(g, w, i - 2, j)))
    && (j >= 2 ==> Mixed(At(g, w, i, j), At(g, w, i, j - 1), At(g, w, i, j - 2)))
  }

  /** A "not all true" and an "at least one true" on the same three cells
      hold together exactly when the cells are mixed. */
  lemma WindowMeaning(g: seq<bool>, a: nat, b: nat, c: nat)
    requires a < |g| && b < |g| && c < |g|
    ensures Satisfies(g, Window(a, b, c)) <==> Mixed(g[a], g[b], g[c])
  {
    var cs := Window(a, b, c);
    if Mixed(g[a], g[b], g[c]) {
      forall q | 0 <= q < |cs|
        ensures Holds(g, cs[q])
      {
      }
    }
    if Satisfies(g, cs) {
      assert Holds(g, cs[0]) && Holds(g, cs[1]);
    }
  }

  /** A window reads its three cells and nothing else. */
  lemma WindowInRange(a: nat, b: nat, c: nat, n: nat)
    ensures AllInRange(Window(a, b, c), n) <==> a < n && b < n && c < n
  {
    var cs := Window(a, b, c);
    assert Indices(cs[0]) == [a, b, c] && Indices(cs[1]) == [a, b, c];
    if AllInRange(cs, n) {
      assert InRange(cs[0], n);
      assert Indices(cs[0])[0] == a && Indices(cs[0])[1] == b && Indices(cs[0])[2] == c;
    }
  }

  /** The vertical window ending at (i, j) reads three grid cells and
      asserts that they are mixed. */
  lemma VerticalWindow(g: seq<bool>, w: nat, h: nat, i: nat, j: nat)
    requires 2 <= i < h && j < w
    ensures w * i + j >= 2 * w
    ensures AllInRange(Window(w * i + j, w * i + j - w, w * i + j - 2 * w), w * h)
    ensures w * h <= |g| ==>
      (Satisfies(g, Window(w * i + j, w * i + j - w, w * i + j - 2 * w)) <==>
       Mixed(At(g, w, i, j), At(g, w, i - 1, j), At(g, w, i - 2, j)))
  {
    var p := w * i + j;
    assert p == i * w + j;
    assert p - w == (i - 1) * w + j && p - 2 * w == (i - 2) * w + j;
    CellIndexBound(w, h, i, j);
    CellIndexBound(w, h, i - 1, j);
    CellIndexBound(w, h, i - 2, j);
    WindowInRange(p, p - w, p - 2 * w, w * h);
    if w * h <= |g| {
      WindowMeaning(g, p, p - w, p - 2 * w);
    }
  }

  /** The horizontal window ending at (i, j) likewise. */
  lemma HorizontalWindow(g: seq<bool>, w: nat, h: nat, i: nat, j: nat)
    requires i < h && 2 <= j < w
    ensures AllInRange(Window(w * i + j, w * i + j - 1, w * i + j - 2), w * h)
    ensures w * h <= |g| ==>
      (Satisfies(g, Window(w * i + j, w * i + j - 1, w * i + j - 2)) <==>
       Mixed(At(g, w, i, j), At(g, w, i, j - 1), At(g, w, i, j - 2)))
  {
    var p := w * i + j;
    assert p == i * w + j;
    CellIndexBound(w, h, i, j);
    WindowInRange(p, p - 1, p - 2, w * h);
    if w * h <= |g| {
      WindowMeaning(g, p, p - 1, p - 2);
    }
  }

  lemma CellTriplesMeaning(g: seq<bool>, w: nat, h: nat, i: nat, j: nat)
    requires i < h && j < w && w * h <= |g|
    ensures Satisfies(g, CellTriples(w, i, j)) <==> WindowsMixed(g, w, i, j)
  {
    var p := w * i + j;
    if i >= 2 {
      VerticalWindow(g, w, h, i, j);
    }
    var vert := if i >= 2 then Window(p, p - w, p - 2 * w) else [];
    var horiz := if j >= 2 then Window(p, p - 1, p - 2) else [];
    SatisfiesConcat(g, vert, horiz);
    if j >= 2 {
      HorizontalWindow(g, w, h, i, j);
    }
  }

  /** Every window ending in row `i` is mixed. */
  ghost predicate RowMixed(g: seq<bool>, w: nat, i: nat)
  {
    forall j :: 0 <= j < w ==> WindowsMixed(g, w, i, j)
  }

  lemma RowTriplesMeaning(g: seq<bool>, w: nat, h: nat, i: nat)
    requires i < h && w * h <= |g|
    ensures Satisfies(g, RowTriples(w, i)) <==> RowMixed(g, w, i)
  {
    var cells := seq(w, j requires 0 <= j < w => CellTriples(w, i, j));
    SatisfiesFlatten(g, cells);
    forall j | 0 <= j < w
      ensures Satisfies(g, cells[j]) <==> WindowsMixed(g, w, i, j)
    {
      CellTriplesMeaning(g, w, h, i, j);
    }
  }

  lemma TriplesMeaningRows(g: seq<bool>, w: nat, h: nat)
    requires w * h <= |g|
    ensures Satisfies(g, Triples(w, h)) <==> forall i :: 0 <= i < h ==> RowMixed(g, w, i)
  {
    var rows := seq(h, i requires 0 <= i < h => RowTriples(w, i));
    SatisfiesFlatten(g, rows);
    forall i | 0 <= i < h
      ensures Satisfies(g, rows[i]) <==> RowMixed(g, w, i)
    {
      RowTriplesMeaning(g, w, h, i);
    }
  }

  /** On a grid with every cell present, the triple constraints hold exactly
      when no row and no column has three consecutive equal cells. */
  lemma TriplesMeaning(g: seq<bool>, w: nat, h: nat)
    requires w * h <= |g|
    ensures Satisfies(g, Triples(w, h)) <==> NoTriples(g, w, h)
  {
    TriplesMeaningRows(g, w, h);
    if forall i :: 0 <= i < h ==> RowMixed(g, w, i) {
      forall r: nat, c: nat | r < h && c + 2 < w
        ensures Mixed(At(g, w, r, c), At(g, w, r, c + 1), At(g, w, r, c + 2))
      {
        assert RowMixed(g, w, r);
        assert WindowsMixed(g, w, r, c + 2);
      }
      forall r: nat, c: nat | r + 2 < h && c < w
        ensures Mixed(At(g, w, r, c), At(g, w, r + 1, c), At(g, w, r + 2, c))
      {
        assert RowMixed(g, w, r + 2);
        assert WindowsMixed(g, w, r + 2, c);
      }
    }
    if NoTriples(g, w, h) {
      forall i | 0 <= i < h
        ensures RowMixed(g, w, i)
      {
        forall j | 0 <= j < w
          ensures WindowsMixed(g, w, i, j)
        {
          if i >= 2 {
            var r: nat := i - 2;
            assert Mixed(At(g, w, r, j), At(g, w, r + 1, j), At(g, w, r + 2, j));
          }
          if j >= 2 {
            var c: nat := j - 2;
            assert Mixed(At(g, w, i, c), At(g, w, i, c + 1), At(g, w, i, c + 2));
          }
        }
      }
    }
  }

  // ---------------------------------------------------------------------
  // Which grids get triple constraints at all

  /** A cell has windows ending at it exactly from the third row or the
      third column on. */
  lemma CellTriplesEmpty(w: nat, i: nat, j: nat)
    ensures CellTriples(w, i, j) == [] <==> i < 2 && j < 2
  {
    if i >= 2 {
      assert |CellTriples(w, i, j)| >= 2;
    } else if j >= 2 {
      assert |CellTriples(w, i, j)| == 2;
    }
  }

  /** So a grid with at most two rows and at most two columns gets no triple
      constraint, and every larger non-empty one gets some. */
  lemma SmallGridsHaveNoTriples(w: nat, h: nat)
    ensures Triples(w, h) == [] <==> w == 0 || h == 0 || (w <= 2 && h <= 2)
  {
    var rows := seq(h, i requires 0 <= i < h => RowTriples(w, i));
    FlattenEmpty(rows);
    forall i | 0 <= i < h
      ensures rows[i] == [] <==> forall j :: 0 <= j < w ==> CellTriples(w, i, j) == []
    {
      var cells := seq(w, j requires 0 <= j < w => CellTriples(w, i, j));
      FlattenEmpty(cells);
      assert forall j :: 0 <= j < w ==> cells[j] == CellTriples(w, i, j);
    }
    forall i, j | 0 <= i < h && 0 <= j < w
      ensures CellTriples(w, i, j) == [] <==> i < 2 && j < 2
    {
      CellTriplesEmpty(w, i, j);
    }
    if w > 0 && h > 2 {
      assert CellTriples(w, 2, 0) != [];
      assert rows[2] != [];
    }
    if h > 0 && w > 2 {
      assert CellTriples(w, 0, 2) != [];
      assert rows[0] != [];
    }
  }

  // ---------------------------------------------------------------------
  // What the balance constraints mean

  /** Picking the cells of row `i` out of `g` gives the row. */
  lemma RowPick(g: seq<bool>, w: nat, h: nat, i: nat)
    requires i < h && w * h <= |g|
    ensures forall t :: 0 <= t < |RowCells(w, i)| ==> RowCells(w, i)[t] < |g|
    ensures Pick(g, RowCells(w, i)) == Row(g, w, i)
  {
    forall t | 0 <= t < w
      ensures RowCells(w, i)[t] < |g|
    {
      CellIndexBound(w, h, i, t);
    }
    forall t | 0 <= t < w
      ensures Pick(g, RowCells(w, i))[t] == Row(g, w, i)[t]
    {
      CellIndexBound(w, h, i, t);
    }
  }

  lemma ColumnPick(g: seq<bool>, w: nat, h: nat, j: nat)
    requires j < w && w * h <= |g|
    ensures forall t :: 0 <= t < |ColumnCells(w, h, j)| ==> ColumnCells(w, h, j)[t] < |g|
    ensures Pick(g, ColumnCells(w, h, j)) == Column(g, w, h, j)
  {
    forall t | 0 <= t < h
      ensures ColumnCells(w, h, j)[t] < |g|
    {
      CellIndexBound(w, h, t, j);
    }
    forall t | 0 <= t < h
      ensures Pick(g, ColumnCells(w, h, j))[t] == Column(g, w, h, j)[t]
    {
      CellIndexBound(w, h, t, j);
    }
  }

  /** The row constraints hold exactly when every row has `HalfI32(w)` true
      cells, and the column constraints when every column has `HalfI32(h)`. */
  lemma SumsMeaning(g: seq<bool>, w: nat, h: nat)
    requires w * h <= |g|
    ensures Satisfies(g, RowSums(w, h)) <==> forall r :: 0 <= r < h ==> Trues(Row(g, w, r)) == HalfI32(w)
    ensures Satisfies(g, ColumnSums(w, h)) <==> forall c :: 0 <= c < w ==> Trues(Column(g, w, h, c)) == HalfI32(h)
  {
    forall r | 0 <= r < h
      ensures Holds(g, RowSums(w, h)[r]) <==> Trues(Row(g, w, r)) == HalfI32(w)
    {
      RowPick(g, w, h, r);
    }
    forall c | 0 <= c < w
      ensures Holds(g, ColumnSums(w, h)[c]) <==> Trues(Column(g, w, h, c)) == HalfI32(h)
    {
      ColumnPick(g, w, h, c);
    }
  }

  /** For sizes a 32-bit signed integer holds, the rules are exactly the
      Binairo rules on a grid that has every cell. */
  lemma RulesMeaning(g: seq<bool>, w: nat, h: nat)
    requires w * h <= |g| && w < 0x8000_0000 && h < 0x8000_0000
    ensures Satisfies(g, Rules(w, h)) <==> NoTriples(g, w, h) && Balanced(g, w, h)
  {
    TriplesMeaning(g, w, h);
    SumsMeaning(g, w, h);
    HalfI32Small(w);
    HalfI32Small(h);
    SatisfiesConcat(g, Triples(w, h), RowSums(w, h));
    SatisfiesConcat(g, Triples(w, h) + RowSums(w, h), ColumnSums(w, h));
  }

  // ---------------------------------------------------------------------
  // Which atoms the rules read

  lemma CellTriplesInGrid(w: nat, h: nat, i: nat, j: nat)
    requires i < h && j < w
    ensures AllInRange(CellTriples(w, i, j), w * h)
  {
    var p := w * i + j;
    if i >= 2 {
      VerticalWindow([], w, h, i, j);
    }
    var vert := if i >= 2 then Window(p, p - w, p - 2 * w) else [];
    var horiz := if j >= 2 then Window(p, p - 1, p - 2) else [];
    AllInRangeConcat(vert, horiz, w * h);
    if j >= 2 {
      HorizontalWindow([], w, h, i, j);
    }
  }

  lemma RowTriplesInGrid(w: nat, h: nat, i: nat)
    requires i < h
    ensures AllInRange(RowTriples(w, i), w * h)
  {
    var cells := seq(w, j requires 0 <= j < w => CellTriples(w, i, j));
    AllInRangeFlatten(cells, w * h);
    forall j | 0 <= j < w
      ensures AllInRange(cells[j], w * h)
    {
      CellTriplesInGrid(w, h, i, j);
    }
  }

  lemma TriplesInGrid(w: nat, h: nat)
    ensures AllInRange(Triples(w, h), w * h)
  {
    var rows := seq(h, i requires 0 <= i < h => RowTriples(w, i));
    AllInRangeFlatten(rows, w * h);
    forall i | 0 <= i < h
      ensures AllInRange(rows[i], w * h)
    {
      RowTriplesInGrid(w, h, i);
    }
  }

  lemma RowInGrid(w: nat, h: nat, r: nat)
    requires r < h
    ensures forall t :: 0 <= t < |RowCells(w, r)| ==> RowCells(w, r)[t] < w * h
  {
    forall t | 0 <= t < w
      ensures RowCells(w, r)[t] < w * h
    {
      CellIndexBound(w, h, r, t);
    }
  }

  lemma ColumnInGrid(w: nat, h: nat, c: nat)
    requires c < w
    ensures forall t :: 0 <= t < |ColumnCells(w, h, c)| ==> ColumnCells(w, h, c)[t] < w * h
  {
    forall t | 0 <= t < h
      ensures ColumnCells(w, h, c)[t] < w * h
    {
      CellIndexBound(w, h, t, c);
    }
  }

  lemma SumsInGrid(w: nat, h: nat)
    ensures AllInRange(RowSums(w, h), w * h)
    ensures AllInRange(ColumnSums(w, h), w * h)
  {
    forall r | 0 <= r < h
      ensures InRange(RowSums(w, h)[r], w * h)
    {
      RowInGrid(w, h, r);
    }
    forall c | 0 <= c < w
      ensures InRange(ColumnSums(w, h)[c], w * h)
    {
      ColumnInGrid(w, h, c);
    }
  }

  /** The rules read atoms `0 .. w * h - 1` and nothing else, so with `n`
      atoms they read only existing ones exactly when the grid is empty or
      has at most `n` cells: the last cell is read by the last row sum. */
  lemma RulesInRange(w: nat, h: nat, n: nat)
    ensures AllInRange(Rules(w, h), n) <==> w == 0 || h == 0 || w * h <= n
  {
    TriplesInGrid(w, h);
    SumsInGrid(w, h);
    AllInRangeConcat(Triples(w, h), RowSums(w, h), w * h);
    AllInRangeConcat(Triples(w, h) + RowSums(w, h), ColumnSums(w, h), w * h);
    AllInRangeConcat(Triples(w, h), RowSums(w, h), n);
    AllInRangeConcat(Triples(w, h) + RowSums(w, h), ColumnSums(w, h), n);
    if w * h <= n {
      AllInRangeWeaken(Rules(w, h), w * h, n);
    }
    if w > 0 && h > 0 && AllInRange(Rules(w, h), n) {
      var last := RowSums(w, h)[h - 1];
      assert InRange(last, n);
      assert Indices(last)[w - 1] == (h - 1) * w + (w - 1);
      assert (h - 1) * w + (w - 1) == w * h - 1;
    }
  }
}

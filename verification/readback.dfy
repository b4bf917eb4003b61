/** Reading a solved grid back out of a solver model, row by row. */
module ReadBack {
  import opened Atoms
  import opened Grid

  /** The inner loop: row `i` is the model's value of atoms `i * w + j`,
      `j` from 0 to `w - 1`. Every such atom exists, since the rule loops
      have already read each of them. */
  method ReadRow(vars: seq<Atom>, m: Model, w: nat, h: nat, i: nat) returns (line: seq<bool>)
    requires w * h <= |vars| && i < h
    ensures line == Row(Values(vars, m), w, i)
  {
    ghost var g := Values(vars, m);
    line := [];
    var j := 0;
    while j < w
      invariant j <= w && |line| == j
      invariant forall c :: 0 <= c < j ==> line[c] == At(g, w, i, c)
    {
      CellIndexBound(w, h, i, j);
      assert Eval(vars[i * w + j], m) == At(g, w, i, j);
      line := line + [Eval(vars[i * w + j], m)];
      j := j + 1;
    }
  }

  /** The nested loop over rows and columns: row `i` of the result is row
      `i` of the model's valuation of the atoms, so the grid is read in
      row-major order. */
  method ReadRows(vars: seq<Atom>, m: Model, w: nat, h: nat) returns (rows: seq<seq<bool>>)
    requires w * h <= |vars|
    ensures |rows| == h
    ensures forall i :: 0 <= i < h ==> rows[i] == Row(Values(vars, m), w, i)
  {
    rows := [];
    var i := 0;
    while i < h
      invariant i <= h && |rows| == i
      invariant forall r :: 0 <= r < i ==> rows[r] == Row(Values(vars, m), w, r)
    {
      var line := ReadRow(vars, m, w, h, i);
      rows := rows + [line];
      i := i + 1;
    }
  }

  /** Read back row by row, cell (r, c) is the value of atom `r * w + c`. */
  lemma RowMajor(vars: seq<Atom>, m: Model, w: nat, h: nat, r: nat, c: nat)
    requires w * h <= |vars| && r < h && c < w
    ensures r * w + c < |vars|
    ensures Row(Values(vars, m), w, r)[c] == Eval(vars[r * w + c], m)
  {
    CellIndexBound(w, h, r, c);
  }
}

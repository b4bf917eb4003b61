/** The hint descriptor: the text after `|`, read with a row-major cursor.
    Digits `1`-`8` relate the cell under the cursor to its right and lower
    neighbours; any other character skips cells. */
module Hints {
  import opened Results
  import opened Grid
  import opened Constraints
  import opened Seqs

  predicate IsHint(ch: char)
  {
    '1' <= ch <= '8'
  }

  /** A character the hint loop reads without an arithmetic fault: `ch - 'a'`
      underflows for every non-digit below `a`. */
  predicate HintCharOk(ch: char)
  {
    IsHint(ch) || 'a' <= ch
  }

  type HintChar = ch: char | HintCharOk(ch) witness 'a'

  predicate SkipsOk(s: string)
  {
    forall k :: 0 <= k < |s| ==> HintCharOk(s[k])
  }

  /** How a hint relates two neighbouring cells. */
  datatype Rel = Same | Differ

  /** The assertions of one hint digit at cursor `idx`, as the arms of the
      program's match make them: the horizontal one, to `idx + 1`, first;
      `x != y` is written `x.not()._eq(y)` there. */
  function Emit(ch: char, idx: nat, w: nat): seq<Constraint>
    requires IsHint(ch)
  {
    match ch
    case '1' => [Eq(idx, idx + 1)]
    case '2' => [Ne(idx, idx + 1)]
    case '3' => [Eq(idx, idx + w)]
    case '4' => [Eq(idx, idx + 1), Eq(idx, idx + w)]
    case '5' => [Ne(idx, idx + 1), Eq(idx, idx + w)]
    case '6' => [Ne(idx, idx + w)]
    case '7' => [Eq(idx, idx + 1), Ne(idx, idx + w)]
    case '8' => [Ne(idx, idx + 1), Ne(idx, idx + w)]
  }

  /** The loop state: the cursor and the assertions made so far. */
  datatype Cursor = Cursor(idx: nat, out: seq<Constraint>)

  // ---------------------------------------------------------------------
  // The hint alphabet as a packed pair of relations

  /** 0: no relation, 1: equal, 2: different. */
  function Code(d: int): Option<Rel>
  {
    if d == 1 then Some(Same) else if d == 2 then Some(Differ) else None
  }

  /** A hint digit `d` packs its horizontal relation `x` and its vertical
      relation `y` as `d == x + 3 * y`. */
  function Horizontal(ch: char): Option<Rel>
    requires IsHint(ch)
  {
    Code((ch as int - '0' as int) % 3)
  }

  function Vertical(ch: char): Option<Rel>
    requires IsHint(ch)
  {
    Code((ch as int - '0' as int) / 3)
  }


  /** `g` has cells `i` and `j` related as `rel` asks. */
  ghost predicate RelHolds(g: seq<bool>, rel: Option<Rel>, i: nat, j: nat)
  {
    match rel
    case None => true
    case Some(Same) => i < |g| && j < |g| && g[i] == g[j]
    case Some(Differ) => i < |g| && j < |g| && g[i] != g[j]
  }

  /** The hint `ch` on cell `p` holds of `g`. */
  ghost predicate HintHolds(g: seq<bool>, ch: char, p: nat, w: nat)
    requires IsHint(ch)
  {
    RelHolds(g, Horizontal(ch), p, p + 1) && RelHolds(g, Vertical(ch), p, p + w)
  }

  /** The assertion of one relation between atoms `i` and `j`. */
  function Relate(rel: Option<Rel>, i: nat, j: nat): seq<Constraint>
  {
    match rel
    case None => []
    case Some(Same) => [Eq(i, j)]
    case Some(Differ) => [Ne(i, j)]
  }

  /** The arms of the match are the base-3 packing `d == x + 3 * y` of a
      horizontal code `x` and a vertical code `y`: `1`, `2` horizontal only,
      `3`, `6` vertical only, `4`, `5`, `7`, `8` both. A digit asserts its
      horizontal relation, then its vertical one, and nothing else. */
  lemma EmitPacking(ch: char, idx: nat, w: nat)
    requires IsHint(ch)
    ensures Emit(ch, idx, w) == Relate(Horizontal(ch), idx, idx + 1) + Relate(Vertical(ch), idx, idx + w)
    ensures |Emit(ch, idx, w)| == (if Horizontal(ch).Some? then 1 else 0) + (if Vertical(ch).Some? then 1 else 0)
  {
    var d := ch as int - '0' as int;
    assert 1 <= d <= 8;
    if d == 1 { assert ch == '1'; }
    else if d == 2 { assert ch == '2'; }
    else if d == 3 { assert ch == '3'; }
    else if d == 4 { assert ch == '4'; }
    else if d == 5 { assert ch == '5'; }
    else if d == 6 { assert ch == '6'; }
    else if d == 7 { assert ch == '7'; }
    else { assert ch == '8'; }
  }

  lemma RelateMeaning(g: seq<bool>, rel: Option<Rel>, i: nat, j: nat)
    ensures Satisfies(g, Relate(rel, i, j)) <==> RelHolds(g, rel, i, j)
  {
    if rel.Some? {
      assert Relate(rel, i, j)[0] in Relate(rel, i, j);
    }
  }

  /** The assertions of one digit hold exactly when its hint does. */
  lemma EmitMeaning(g: seq<bool>, ch: char, p: nat, w: nat)
    requires IsHint(ch)
    ensures Satisfies(g, Emit(ch, p, w)) <==> HintHolds(g, ch, p, w)
  {
    EmitPacking(ch, p, w);
    SatisfiesConcat(g, Relate(Horizontal(ch), p, p + 1), Relate(Vertical(ch), p, p + w));
    RelateMeaning(g, Horizontal(ch), p, p + 1);
    RelateMeaning(g, Vertical(ch), p, p + w);
  }

  /** The cells hint `ch` on cell `p` reads all lie below `n`: `p` itself,
      `p + 1` if it has a horizontal part, `p + w` if it has a vertical one. */
  predicate HintInRange(ch: char, p: nat, w: nat, n: nat)
    requires IsHint(ch)
  {
    && p < n
    && (Horizontal(ch).Some? ==> p + 1 < n)
    && (Vertical(ch).Some? ==> p + w < n)
  }

  /** One digit reads cell `p`, then `p + 1` if it has a horizontal part and
      `p + w` if it has a vertical part, and nothing else. */
  lemma EmitInRange(ch: char, p: nat, w: nat, n: nat)
    requires IsHint(ch)
    ensures AllInRange(Emit(ch, p, w), n) <==> HintInRange(ch, p, w, n)
  {
    EmitPacking(ch, p, w);
    AllInRangeConcat(Relate(Horizontal(ch), p, p + 1), Relate(Vertical(ch), p, p + w), n);
    RelateInRange(Horizontal(ch), p, p + 1, n);
    RelateInRange(Vertical(ch), p, p + w, n);
    assert Horizontal(ch).Some? || Vertical(ch).Some? by {
      var d := ch as int - '0' as int;
      assert 1 <= d <= 8;
    }
  }

  lemma RelateInRange(rel: Option<Rel>, i: nat, j: nat, n: nat)
    ensures AllInRange(Relate(rel, i, j), n) <==> (rel.Some? ==> i < n && j < n)
  {
    if rel.Some? {
      var c := Relate(rel, i, j)[0];
      assert Relate(rel, i, j) == [c];
      assert Indices(c) == [i, j];
      assert InRange(c, n) <==> i < n && j < n by {
        assert Indices(c)[0] == i && Indices(c)[1] == j;
      }
    }
  }

  // ---------------------------------------------------------------------
  // The cursor as a fold over the descriptor

  /** How far one character moves the cursor: one cell for a digit; for a
      letter, `ch - 'a'` skipped cells and then one more. */
  function Advance(ch: HintChar): (a: nat)
    ensures a >= 1
  {
    if IsHint(ch) then 1 else (ch as int - 'a' as int) + 1
  }

  /** The total distance the characters of `s` move the cursor. */
  function Offset(s: seq<HintChar>): nat
  {
    if |s| == 0 then 0 else Advance(s[0]) + Offset(s[1..])
  }

  /** The cursor when character `k` is read, the loop having started at `idx`. */
  function Position(s: seq<HintChar>, k: nat, idx: nat): nat
    requires k <= |s|
  {
    idx + Offset(s[..k])
  }

  /** The assertions of `s`, character by character, from cursor `idx`. */
  function Emitted(s: seq<HintChar>, w: nat, idx: nat): seq<Constraint>
  {
    if |s| == 0 then []
    else (if IsHint(s[0]) then Emit(s[0], idx, w) else []) + Emitted(s[1..], w, idx + Advance(s[0]))
  }

  /** Character `k` of `s`, if a hint, holds of `g` on the cell the cursor
      stands on when it is read. */
  ghost predicate HoldsAt(g: seq<bool>, s: seq<HintChar>, w: nat, idx: nat, k: nat)
    requires k < |s|
  {
    IsHint(s[k]) ==> HintHolds(g, s[k], Position(s, k, idx), w)
  }

  ghost predicate HintsHold(g: seq<bool>, s: seq<HintChar>, w: nat, idx: nat)
  {
    forall k :: 0 <= k < |s| ==> HoldsAt(g, s, w, idx, k)
  }

  /** Character `k` of `s`, if a hint, reads only atoms below `n`. */
  ghost predicate SafeAt(s: seq<HintChar>, w: nat, n: nat, idx: nat, k: nat)
    requires k < |s|
  {
    IsHint(s[k]) ==> HintInRange(s[k], Position(s, k, idx), w, n)
  }

  ghost predicate HintsSafe(s: seq<HintChar>, w: nat, n: nat, idx: nat)
  {
    forall k :: 0 <= k < |s| ==> SafeAt(s, w, n, idx, k)
  }

  lemma {:induction false} OffsetConcat(s: seq<HintChar>, t: seq<HintChar>)
    ensures Offset(s + t) == Offset(s) + Offset(t)
  {
    if |s| == 0 {
      assert s + t == t;
    } else {
      assert (s + t)[0] == s[0];
      assert (s + t)[1..] == s[1..] + t;
      OffsetConcat(s[1..], t);
    }
  }

  /** The cursor starts at `idx` and each character moves it on by its
      `Advance`: exactly one for a digit, `ch - 'a' + 1` for a letter. */
  lemma CursorStep(s: seq<HintChar>, k: nat, idx: nat)
    requires k < |s|
    ensures Position(s, 0, idx) == idx
    ensures Position(s, k + 1, idx) == Position(s, k, idx) + Advance(s[k])
  {
    assert s[..0] == [];
    assert s[..k + 1] == s[..k] + [s[k]];
    OffsetConcat(s[..k], [s[k]]);
    assert [s[k]][1..] == [];
  }

  /** After the first character the cursor positions are those of the rest. */
  lemma PositionTail(s: seq<HintChar>, k: nat, idx: nat)
    requires 0 < |s| && k < |s|
    ensures Position(s, k + 1, idx) == Position(s[1..], k, idx + Advance(s[0]))
  {
    assert s[..k + 1][0] == s[0];
    assert s[..k + 1][1..] == s[1..][..k];
  }

  lemma HintsHoldCons(g: seq<bool>, s: seq<HintChar>, w: nat, idx: nat)
    requires 0 < |s|
    ensures HintsHold(g, s, w, idx) <==>
      && (IsHint(s[0]) ==> HintHolds(g, s[0], idx, w))
      && HintsHold(g, s[1..], w, idx + Advance(s[0]))
  {
    var idx1 := idx + Advance(s[0]);
    assert Position(s, 0, idx) == idx by { assert s[..0] == []; }
    assert HoldsAt(g, s, w, idx, 0) <==> (IsHint(s[0]) ==> HintHolds(g, s[0], idx, w));
    forall k | 0 <= k < |s[1..]|
      ensures HoldsAt(g, s[1..], w, idx1, k) <==> HoldsAt(g, s, w, idx, k + 1)
    {
      PositionTail(s, k, idx);
      assert s[k + 1] == s[1..][k];
    }
    if HintsHold(g, s, w, idx) {
      assert HoldsAt(g, s, w, idx, 0);
      forall k | 0 <= k < |s[1..]|
        ensures HoldsAt(g, s[1..], w, idx1, k)
      {
        assert HoldsAt(g, s, w, idx, k + 1);
      }
    }
    if HoldsAt(g, s, w, idx, 0) && HintsHold(g, s[1..], w, idx1) {
      forall k | 0 <= k < |s|
        ensures HoldsAt(g, s, w, idx, k)
      {
        if k > 0 {
          assert HoldsAt(g, s[1..], w, idx1, k - 1);
        }
      }
    }
  }

  lemma HintsSafeCons(s: seq<HintChar>, w: nat, n: nat, idx: nat)
    requires 0 < |s|
    ensures HintsSafe(s, w, n, idx) <==>
      && (IsHint(s[0]) ==> HintInRange(s[0], idx, w, n))
      && HintsSafe(s[1..], w, n, idx + Advance(s[0]))
  {
    var idx1 := idx + Advance(s[0]);
    assert Position(s, 0, idx) == idx by { assert s[..0] == []; }
    assert SafeAt(s, w, n, idx, 0) <==> (IsHint(s[0]) ==> HintInRange(s[0], idx, w, n));
    forall k | 0 <= k < |s[1..]|
      ensures SafeAt(s[1..], w, n, idx1, k) <==> SafeAt(s, w, n, idx, k + 1)
    {
      PositionTail(s, k, idx);
      assert s[k + 1] == s[1..][k];
    }
    if HintsSafe(s, w, n, idx) {
      assert SafeAt(s, w, n, idx, 0);
      forall k | 0 <= k < |s[1..]|
        ensures SafeAt(s[1..], w, n, idx1, k)
      {
        assert SafeAt(s, w, n, idx, k + 1);
      }
    }
    if SafeAt(s, w, n, idx, 0) && HintsSafe(s[1..], w, n, idx1) {
      forall k | 0 <= k < |s|
        ensures SafeAt(s, w, n, idx, k)
      {
        if k > 0 {
          assert SafeAt(s[1..], w, n, idx1, k - 1);
        }
      }
    }
  }

  /** The assertions of the hint loop hold exactly when every hint holds on
      the cell the cursor stood on: no other cell is constrained. */
  lemma {:induction false} HintsMeaning(g: seq<bool>, s: seq<HintChar>, w: nat, idx: nat)
    ensures Satisfies(g, Emitted(s, w, idx)) <==> HintsHold(g, s, w, idx)
  {
    if |s| > 0 {
      var first := if IsHint(s[0]) then Emit(s[0], idx, w) else [];
      var idx1 := idx + Advance(s[0]);
      HintsMeaning(g, s[1..], w, idx1);
      SatisfiesConcat(g, first, Emitted(s[1..], w, idx1));
      if IsHint(s[0]) {
        EmitMeaning(g, s[0], idx, w);
      }
      HintsHoldCons(g, s, w, idx);
    }
  }

  /** Emitting is compositional: the assertions of `s + t` are those of `s`
      followed by those of `t`, read from where `s` left the cursor. */
  lemma {:induction false} EmittedConcat(s: seq<HintChar>, t: seq<HintChar>, w: nat, idx: nat)
    ensures Emitted(s + t, w, idx) == Emitted(s, w, idx) + Emitted(t, w, idx + Offset(s))
  {
    if |s| == 0 {
      assert s + t == t;
    } else {
      var u := s + t;
      assert u[0] == s[0];
      assert u[1..] == s[1..] + t;
      var idx1 := idx + Advance(s[0]);
      var head := if IsHint(s[0]) then Emit(s[0], idx, w) else [];
      EmittedConcat(s[1..], t, w, idx1);
      assert Emitted(u, w, idx) == head + Emitted(s[1..] + t, w, idx1);
      assert Emitted(s, w, idx) == head + Emitted(s[1..], w, idx1);
      assert idx1 + Offset(s[1..]) == idx + Offset(s);
      Regroup(Emitted(u, w, idx), Emitted(s, w, idx), head,
              Emitted(s[1..], w, idx1), Emitted(t, w, idx + Offset(s)));
    }
  }

  /** Reading one more character `ch` moves the cursor on by `Advance(ch)`. */
  lemma OffsetSnoc(t: seq<HintChar>, ch: HintChar)
    ensures Offset(t + [ch]) == Offset(t) + Advance(ch)
  {
    OffsetConcat(t, [ch]);
    assert [ch][1..] == [];
  }

  /** Reading one more character adds its assertions, if it is a hint, made
      on the cell the cursor has reached. */
  lemma EmittedSnoc(t: seq<HintChar>, ch: HintChar, w: nat, idx: nat)
    ensures Emitted(t + [ch], w, idx) == Emitted(t, w, idx) + (if IsHint(ch) then Emit(ch, idx + Offset(t), w) else [])
  {
    EmittedConcat(t, [ch], w, idx);
    assert [ch][1..] == [];
    var last := if IsHint(ch) then Emit(ch, idx + Offset(t), w) else [];
    assert Emitted([ch], w, idx + Offset(t)) == last + [];
    assert last + [] == last;
  }

  /** The assertions of the hint loop read only atoms below `n` exactly when
      each hint does on the cell the cursor stood on. */
  lemma {:induction false} HintsSafeMeaning(s: seq<HintChar>, w: nat, n: nat, idx: nat)
    ensures AllInRange(Emitted(s, w, idx), n) <==> HintsSafe(s, w, n, idx)
  {
    if |s| > 0 {
      var first := if IsHint(s[0]) then Emit(s[0], idx, w) else [];
      var idx1 := idx + Advance(s[0]);
      HintsSafeMeaning(s[1..], w, n, idx1);
      AllInRangeConcat(first, Emitted(s[1..], w, idx1), n);
      if IsHint(s[0]) {
        EmitInRange(s[0], idx, w, n);
      }
      HintsSafeCons(s, w, n, idx);
    }
  }

  /** What stops the loop at character `ch` read with the cursor on `p`: a
      hint reading an atom at or past `n` (the first such index), or a
      character below `a` that is not a hint digit. */
  function CharFault(ch: char, p: nat, w: nat, n: nat): Option<Fault>
  {
    if IsHint(ch) then
      match FirstOutOfRange(Emit(ch, p, w), n)
      case Some(i) => Some(IndexOutOfBounds(i, n))
      case None => None
    else if ch < 'a' then Some(SkipUnderflow(ch))
    else None
  }

  /** The loop reads characters `0 .. k` of `s` without fault and stops at
      character `k` with fault `f`. */
  ghost predicate StopsAt(s: string, k: nat, w: nat, n: nat, f: Fault)
    requires k < |s|
  {
    && SkipsOk(s[..k])
    && HintsSafe(s[..k], w, n, 0)
    && CharFault(s[k], Offset(s[..k]), w, n) == Some(f)
  }

  /** The hint loop, starting with the cursor on cell 0 and nothing asserted.
      It succeeds exactly when every character is a hint digit or a letter
      from `a` on and every hint reads existing atoms; the cursor then stands
      `Offset(s)` on and the assertions made are `Emitted(s, w, 0)`. On a
      fault it stops at the first character that faults, with that
      character's fault. */
  method ScanHints(s: string, w: nat, n: nat) returns (r: Result<Cursor>)
    ensures r.Ok? <==> SkipsOk(s) && HintsSafe(s, w, n, 0)
    ensures r.Ok? ==> SkipsOk(s) && r.value == Cursor(Offset(s), Emitted(s, w, 0))
    ensures r.Err? ==> exists k :: 0 <= k < |s| && StopsAt(s, k, w, n, r.fault)
  {
    var idx: nat := 0;
    var out: seq<Constraint> := [];
    ghost var done: seq<HintChar> := [];
    var k := 0;
    while k < |s|
      invariant k <= |s|
      invariant done == s[..k]
      invariant idx == Offset(done) && out == Emitted(done, w, 0)
      invariant AllInRange(out, n)
    {
      var ch := s[k];
      if IsHint(ch) {
        var cs := Emit(ch, idx, w);
        FirstOutOfRangeMeaning(cs, n);
        match FirstOutOfRange(cs, n)
        case Some(i) =>
          r := Err(IndexOutOfBounds(i, n));
          HintsSafeMeaning(done, w, n, 0);
          assert StopsAt(s, k, w, n, r.fault);
          if SkipsOk(s) {
            EmitInRange(ch, idx, w, n);
            assert !SafeAt(s, w, n, 0, k);
          }
          return;
        case None =>
          AllInRangeConcat(out, cs, n);
          out := out + cs;
          idx := idx + 1;
      } else if ch < 'a' {
        r := Err(SkipUnderflow(ch));
        HintsSafeMeaning(done, w, n, 0);
        assert StopsAt(s, k, w, n, r.fault);
        assert !HintCharOk(s[k]);
        return;
      } else {
        idx := idx + (ch as int - 'a' as int) + 1;
      }
      OffsetSnoc(done, ch);
      EmittedSnoc(done, ch, w, 0);
      done := done + [ch];
      k := k + 1;
      assert s[..k] == s[..k - 1] + [ch];
    }
    assert s == s[..k];
    HintsSafeMeaning(s, w, n, 0);
    r := Ok(Cursor(idx, out));
  }

  // ---------------------------------------------------------------------
  // Hints placed as the puzzle author intends

  /** Every hint stands inside the `w` by `h` grid, and one with a
      horizontal part is not in the last column, one with a vertical part
      not in the last row. The program does not check this: a horizontal hint
      in the last column relates the cell to the first of the next row. */
  ghost predicate WellPlaced(s: seq<HintChar>, w: nat, h: nat, idx: nat)
  {
    && 0 < w
    && forall k :: 0 <= k < |s| && IsHint(s[k]) ==>
         var p := Position(s, k, idx);
         && p < w * h
         && (Horizontal(s[k]).Some? ==> p % w + 1 < w)
         && (Vertical(s[k]).Some? ==> p / w + 1 < h)
  }

  /** Well-placed hints only read cells of the grid, so with at least
      `w * h` atoms the hint loop cannot panic. */
  lemma WellPlacedSafe(s: seq<HintChar>, w: nat, h: nat, n: nat, idx: nat)
    requires WellPlaced(s, w, h, idx) && w * h <= n
    ensures HintsSafe(s, w, n, idx)
    ensures HintsSafe(s, w, w * h, idx)
  {
    forall k | 0 <= k < |s|
      ensures SafeAt(s, w, w * h, idx, k) && SafeAt(s, w, n, idx, k)
    {
      if IsHint(s[k]) {
        NeighbourIndices(w, h, Position(s, k, idx));
      }
    }
  }

  /** `x` and `y` are related as `rel` asks. */
  predicate Agrees(rel: Option<Rel>, x: bool, y: bool)
  {
    match rel
    case None => true
    case Some(Same) => x == y
    case Some(Differ) => x != y
  }

  /** On a well-placed cell `p = r * w + c`, a hint relates cell (r, c) to
      its right neighbour (r, c + 1) and its lower neighbour (r + 1, c). */
  lemma HintOnGrid(g: seq<bool>, ch: char, p: nat, w: nat, h: nat)
    requires IsHint(ch) && 0 < w && p < w * h <= |g|
    requires Horizontal(ch).Some? ==> p % w + 1 < w
    requires Vertical(ch).Some? ==> p / w + 1 < h
    ensures HintHolds(g, ch, p, w) <==>
      && Agrees(Horizontal(ch), At(g, w, p / w, p % w), At(g, w, p / w, p % w + 1))
      && Agrees(Vertical(ch), At(g, w, p / w, p % w), At(g, w, p / w + 1, p % w))
  {
    Neighbours(g, w, h, p);
  }
}

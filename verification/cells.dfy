/** The cell descriptor: the text before `|`, decoded character by character
    into one atom per grid cell. `0` and `1` are given cells; any other
    character is a run of unknown cells, `a` standing for one, `b` for two,
    and so on. */
module Cells {
  import opened Results
  import opened Atoms
  import opened Seqs

  predicate IsLiteral(ch: char)
  {
    ch == '0' || ch == '1'
  }

  /** `1 + (ch as usize) - ('a' as usize)`, evaluated left to right: it is
      negative, a `usize` underflow, for characters below '`'. */
  function RunLength(ch: char): int
  {
    1 + ch as int - 'a' as int
  }

  /** A character the cell loop decodes without an arithmetic fault. */
  predicate CellCharOk(ch: char)
  {
    IsLiteral(ch) || RunLength(ch) >= 0
  }

  type CellChar = ch: char | CellCharOk(ch) witness '0'

  predicate CellsOk(s: string)
  {
    forall k :: 0 <= k < |s| ==> CellCharOk(s[k])
  }

  /** How many atoms, and how many of them fresh, one character adds. */
  function CharAtomCount(ch: CellChar): nat
  {
    if IsLiteral(ch) then 1 else RunLength(ch)
  }

  function CharFreshCount(ch: CellChar): nat
  {
    if IsLiteral(ch) then 0 else RunLength(ch)
  }

  /** The sum of the per-character contributions. */
  function CellCount(s: seq<CellChar>): nat
  {
    if |s| == 0 then 0 else CharAtomCount(s[0]) + CellCount(s[1..])
  }

  function FreshCount(s: seq<CellChar>): nat
  {
    if |s| == 0 then 0 else CharFreshCount(s[0]) + FreshCount(s[1..])
  }

  /** The atoms pushed for one character, fresh constants numbered from `next`. */
  function CharAtoms(ch: CellChar, next: nat): (r: seq<Atom>)
    ensures |r| == CharAtomCount(ch)
  {
    if ch == '0' then [Fixed(false)]
    else if ch == '1' then [Fixed(true)]
    else seq(RunLength(ch), t requires 0 <= t < RunLength(ch) => Free(next + t))
  }

  /** `0` and `1` each push one literal. */
  lemma LiteralAtoms(ch: CellChar, next: nat)
    ensures ch == '0' ==> CharAtoms(ch, next) == [Fixed(false)]
    ensures ch == '1' ==> CharAtoms(ch, next) == [Fixed(true)]
  {
  }

  /** The fresh constants of one character are numbered `next`, `next + 1`, ... */
  lemma RunIds(ch: CellChar, next: nat)
    ensures forall t :: 0 <= t < |CharAtoms(ch, next)| && CharAtoms(ch, next)[t].Free? ==>
              CharAtoms(ch, next)[t].id == next + t && t < CharFreshCount(ch)
  {
  }

  /** The cell loop: the atoms of each character in turn, fresh constants
      numbered consecutively from `next`; one atom per unit of contribution. */
  function Decode(s: seq<CellChar>, next: nat): (vars: seq<Atom>)
    ensures |vars| == CellCount(s)
  {
    if |s| == 0 then [] else CharAtoms(s[0], next) + Decode(s[1..], next + CharFreshCount(s[0]))
  }

  /** The fresh constants of a decoded descriptor are distinct, in creation
      order, and drawn from `[next, next + FreshCount(s))`. */
  lemma {:induction false} DecodeIds(s: seq<CellChar>, next: nat)
    ensures forall k :: 0 <= k < |Decode(s, next)| && Decode(s, next)[k].Free? ==>
              next <= Decode(s, next)[k].id < next + FreshCount(s)
    ensures IdsIncreasing(Decode(s, next))
  {
    if |s| > 0 {
      var head := CharAtoms(s[0], next);
      var tail := Decode(s[1..], next + CharFreshCount(s[0]));
      DecodeIds(s[1..], next + CharFreshCount(s[0]));
      var vars := head + tail;
      assert vars == Decode(s, next);
      RunIds(s[0], next);
      forall k | 0 <= k < |vars| && vars[k].Free?
        ensures next <= vars[k].id < next + FreshCount(s)
      {
        if k >= |head| {
          assert vars[k] == tail[k - |head|];
        }
      }
      forall i, j | 0 <= i < j < |vars| && vars[i].Free? && vars[j].Free?
        ensures vars[i].id < vars[j].id
      {
        if j < |head| {
        } else if i < |head| {
          assert vars[j] == tail[j - |head|];
        } else {
          assert vars[i] == tail[i - |head|];
          assert vars[j] == tail[j - |head|];
        }
      }
    }
  }

  /** The atom and fresh-constant counts of `s + t` are the sums of those of
      `s` and `t`. */
  lemma {:induction false} CountsConcat(s: seq<CellChar>, t: seq<CellChar>)
    ensures CellCount(s + t) == CellCount(s) + CellCount(t)
    ensures FreshCount(s + t) == FreshCount(s) + FreshCount(t)
  {
    if |s| == 0 {
      assert s + t == t;
    } else {
      assert (s + t)[0] == s[0];
      assert (s + t)[1..] == s[1..] + t;
      CountsConcat(s[1..], t);
    }
  }

  /** Decoding is compositional: the atoms of `s + t` are those of `s`
      followed by those of `t`, whose fresh constants continue the count. */
  lemma {:induction false} DecodeConcat(s: seq<CellChar>, t: seq<CellChar>, next: nat)
    ensures Decode(s + t, next) == Decode(s, next) + Decode(t, next + FreshCount(s))
    decreases |s|, 1
  {
    if |s| == 0 {
      assert s + t == t;
    } else {
      DecodeConcatStep(s, t, next);
    }
  }

  lemma {:induction false} DecodeConcatStep(s: seq<CellChar>, t: seq<CellChar>, next: nat)
    requires |s| > 0
    ensures Decode(s + t, next) == Decode(s, next) + Decode(t, next + FreshCount(s))
    decreases |s|, 0
  {
    var ch, rest := s[0], s[1..];
    var n1 := next + CharFreshCount(ch);
    var u := s + t;
    assert u[0] == ch;
    assert u[1..] == rest + t;
    DecodeConcat(rest, t, n1);
    var a, b, c := CharAtoms(ch, next), Decode(rest, n1), Decode(t, n1 + FreshCount(rest));
    assert Decode(u, next) == a + Decode(rest + t, n1);
    assert Decode(u, next) == a + (b + c);
    assert Decode(s, next) == a + b;
    assert next + FreshCount(s) == n1 + FreshCount(rest);
    Regroup(Decode(u, next), Decode(s, next), a, b, c);
  }

  /** Atom `t` of character `k` sits at position `CellCount(s[..k]) + t`,
      its fresh constants numbered on from `next + FreshCount(s[..k])`. */
  lemma {:induction false} AtomAt(s: seq<CellChar>, k: nat, t: nat, next: nat)
    requires k < |s| && t < CharAtomCount(s[k])
    ensures CellCount(s[..k]) + t < |Decode(s, next)|
    ensures Decode(s, next)[CellCount(s[..k]) + t] == CharAtoms(s[k], next + FreshCount(s[..k]))[t]
  {
    var head := CharAtoms(s[0], next);
    var n1 := next + CharFreshCount(s[0]);
    if k == 0 {
      assert s[..0] == [];
    } else {
      AtomAt(s[1..], k - 1, t, n1);
      assert s[..k][0] == s[0];
      assert s[..k][1..] == s[1..][..k - 1];
      assert CellCount(s[..k]) == CharAtomCount(s[0]) + CellCount(s[1..][..k - 1]);
      assert FreshCount(s[..k]) == CharFreshCount(s[0]) + FreshCount(s[1..][..k - 1]);
    }
  }

  /** The atoms of characters `0 .. k` fit inside those of `s`. */
  lemma PrefixCount(s: seq<CellChar>, k: nat)
    requires k < |s|
    ensures CellCount(s[..k]) + CharAtomCount(s[k]) <= CellCount(s)
  {
    assert s == s[..k] + s[k..];
    CountsConcat(s[..k], s[k..]);
    assert s[k..][0] == s[k];
  }

  /** A `0` or `1` in the descriptor is one literal atom holding that value. */
  lemma LiteralCell(s: seq<CellChar>, k: nat, next: nat)
    requires k < |s| && IsLiteral(s[k])
    ensures CellCount(s[..k]) < |Decode(s, next)|
    ensures Decode(s, next)[CellCount(s[..k])] == Fixed(s[k] == '1')
  {
    AtomAt(s, k, 0, next);
    LiteralAtoms(s[k], next + FreshCount(s[..k]));
  }

  /** Any other character is a run of `1 + (ch - 'a')` consecutive fresh
      constants, numbered on from those of the characters before it. */
  lemma RunCells(s: seq<CellChar>, k: nat, next: nat)
    requires k < |s| && !IsLiteral(s[k])
    ensures CellCount(s[..k]) + (1 + s[k] as int - 'a' as int) <= |Decode(s, next)|
    ensures forall i :: CellCount(s[..k]) <= i < CellCount(s[..k]) + (1 + s[k] as int - 'a' as int) ==>
              Decode(s, next)[i] == Free(next + FreshCount(s[..k]) + (i - CellCount(s[..k])))
  {
    var start := CellCount(s[..k]);
    PrefixCount(s, k);
    forall i | start <= i < start + (1 + s[k] as int - 'a' as int)
      ensures Decode(s, next)[i] == Free(next + FreshCount(s[..k]) + (i - start))
    {
      AtomAt(s, k, i - start, next);
      RunIds(s[k], next + FreshCount(s[..k]));
    }
  }

  /** Reading one more character appends its atoms, fresh constants numbered
      on from those already created. */
  lemma DecodeSnoc(t: seq<CellChar>, ch: CellChar)
    ensures Decode(t + [ch], 0) == Decode(t, 0) + CharAtoms(ch, FreshCount(t))
    ensures FreshCount(t + [ch]) == FreshCount(t) + CharFreshCount(ch)
  {
    DecodeConcat(t, [ch], 0);
    CountsConcat(t, [ch]);
    assert [ch][1..] == [];
    assert Decode([ch], FreshCount(t)) == CharAtoms(ch, FreshCount(t)) + [];
  }

  /** The cell loop over the descriptor text, creating fresh constants with a
      counter that starts at 0. It fails exactly when some character is
      neither `0`, `1` nor at least '`', and otherwise produces `Decode(s, 0)`. */
  method DecodeCells(s: string) returns (r: Result<seq<Atom>>)
    ensures r.Ok? <==> CellsOk(s)
    ensures r.Ok? ==> CellsOk(s) && r.value == Decode(s, 0)
    ensures r.Err? ==> r.fault == CellRunUnderflow
  {
    var vars: seq<Atom> := [];
    var next: nat := 0;
    ghost var done: seq<CellChar> := [];
    var k := 0;
    while k < |s|
      invariant k <= |s| && done == s[..k]
      invariant vars == Decode(done, 0) && next == FreshCount(done)
    {
      var ch := s[k];
      ghost var before := vars;
      if ch == '0' {
        vars := vars + [Fixed(false)];
      } else if ch == '1' {
        vars := vars + [Fixed(true)];
      } else if RunLength(ch) < 0 {
        r := Err(CellRunUnderflow);
        assert !CellCharOk(s[k]);
        return;
      } else {
        var t := 0;
        while t < RunLength(ch)
          invariant t <= RunLength(ch)
          invariant vars == before + CharAtoms(ch, next)[..t]
        {
          vars := vars + [Free(next + t)];
          t := t + 1;
          assert CharAtoms(ch, next)[..t] == CharAtoms(ch, next)[..t - 1] + [Free(next + t - 1)];
        }
        assert CharAtoms(ch, next)[..t] == CharAtoms(ch, next);
        next := next + RunLength(ch);
      }
      DecodeSnoc(done, ch);
      done := done + [ch];
      k := k + 1;
      assert s[..k] == s[..k - 1] + [ch];
    }
    assert s == s[..k];
    r := Ok(vars);
  }
}

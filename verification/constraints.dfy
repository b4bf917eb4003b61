/** The assertions the encoder hands to the solver, as data, and what it
    means for a grid of cell values to satisfy them. Indices are positions
    in the decoded atom sequence. */
module Constraints {
  import opened Results
  import opened Grid
  import opened Seqs

  datatype Constraint =
    /** `a._eq(b)` */
    | Eq(i: nat, j: nat)
    /** `a.not()._eq(b)` */
    | Ne(i: nat, j: nat)
    /** `Bool::and(&[a, b, c]).not()` */
    | NotAll3(a: nat, b: nat, c: nat)
    /** `Bool::or(&[a, b, c])` */
    | Any3(a: nat, b: nat, c: nat)
    /** `Bool::pb_eq` with unit weights: exactly `k` of `cells` are true. */
    | Exactly(cells: seq<nat>, k: int)

  /** The positions a constraint reads, in the order the program indexes them. */
  function Indices(c: Constraint): seq<nat>
  {
    match c
    case Eq(i, j) => [i, j]
    case Ne(i, j) => [i, j]
    case NotAll3(a, b, d) => [a, b, d]
    case Any3(a, b, d) => [a, b, d]
    case Exactly(cells, _) => cells
  }

  ghost predicate InRange(c: Constraint, n: nat)
  {
    forall t :: 0 <= t < |Indices(c)| ==> Indices(c)[t] < n
  }

  ghost predicate AllInRange(cs: seq<Constraint>, n: nat)
  {
    forall q :: 0 <= q < |cs| ==> InRange(cs[q], n)
  }

  /** The values of the listed cells. */
  function Pick(g: seq<bool>, cells: seq<nat>): seq<bool>
    requires forall t :: 0 <= t < |cells| ==> cells[t] < |g|
  {
    seq(|cells|, t requires 0 <= t < |cells| => g[cells[t]])
  }

  /** `g` gives every position the constraint reads a value, and satisfies it. */
  ghost predicate Holds(g: seq<bool>, c: Constraint)
  {
    match c
    case Eq(i, j) => i < |g| && j < |g| && g[i] == g[j]
    case Ne(i, j) => i < |g| && j < |g| && g[i] != g[j]
    case NotAll3(a, b, d) => a < |g| && b < |g| && d < |g| && !(g[a] && g[b] && g[d])
    case Any3(a, b, d) => a < |g| && b < |g| && d < |g| && (g[a] || g[b] || g[d])
    case Exactly(cells, k) =>
      && (forall t :: 0 <= t < |cells| ==> cells[t] < |g|)
      && Trues(Pick(g, cells)) == k
  }

  ghost predicate Satisfies(g: seq<bool>, cs: seq<Constraint>)
  {
    forall q :: 0 <= q < |cs| ==> Holds(g, cs[q])
  }

  /** Asserting two lists is asserting each. */
  lemma SatisfiesConcat(g: seq<bool>, a: seq<Constraint>, b: seq<Constraint>)
    ensures Satisfies(g, a + b) <==> Satisfies(g, a) && Satisfies(g, b)
  {
    if Satisfies(g, a) && Satisfies(g, b) {
      forall q | 0 <= q < |a + b|
        ensures Holds(g, (a + b)[q])
      {
        if q < |a| {
          assert (a + b)[q] == a[q];
        } else {
          assert (a + b)[q] == b[q - |a|];
        }
      }
    }
    if Satisfies(g, a + b) {
      forall q | 0 <= q < |a|
        ensures Holds(g, a[q])
      {
        assert (a + b)[q] == a[q];
      }
      forall q | 0 <= q < |b|
        ensures Holds(g, b[q])
      {
        assert (a + b)[|a| + q] == b[q];
      }
    }
  }

  lemma AllInRangeConcat(a: seq<Constraint>, b: seq<Constraint>, n: nat)
    ensures AllInRange(a + b, n) <==> AllInRange(a, n) && AllInRange(b, n)
  {
    if AllInRange(a + b, n) {
      forall q | 0 <= q < |a|
        ensures InRange(a[q], n)
      {
        assert (a + b)[q] == a[q];
      }
      forall q | 0 <= q < |b|
        ensures InRange(b[q], n)
      {
        assert (a + b)[|a| + q] == b[q];
      }
    }
    if AllInRange(a, n) && AllInRange(b, n) {
      forall q | 0 <= q < |a + b|
        ensures InRange((a + b)[q], n)
      {
        if q < |a| {
          assert (a + b)[q] == a[q];
        } else {
          assert (a + b)[q] == b[q - |a|];
        }
      }
    }
  }

  /** Asserting a flattened list is asserting every list in it. */
  lemma {:induction false} SatisfiesFlatten(g: seq<bool>, xss: seq<seq<Constraint>>)
    ensures Satisfies(g, Flatten(xss)) <==> forall k :: 0 <= k < |xss| ==> Satisfies(g, xss[k])
  {
    if |xss| > 0 {
      var init := xss[..|xss| - 1];
      SatisfiesFlatten(g, init);
      SatisfiesConcat(g, Flatten(init), xss[|xss| - 1]);
      assert forall k :: 0 <= k < |init| ==> init[k] == xss[k];
    }
  }

  lemma {:induction false} AllInRangeFlatten(xss: seq<seq<Constraint>>, n: nat)
    ensures AllInRange(Flatten(xss), n) <==> forall k :: 0 <= k < |xss| ==> AllInRange(xss[k], n)
  {
    if |xss| > 0 {
      var init := xss[..|xss| - 1];
      AllInRangeFlatten(init, n);
      AllInRangeConcat(Flatten(init), xss[|xss| - 1], n);
      assert forall k :: 0 <= k < |init| ==> init[k] == xss[k];
    }
  }

  /** A list read in range against `m` is read in range against any `n >= m`. */
  lemma AllInRangeWeaken(cs: seq<Constraint>, m: nat, n: nat)
    requires AllInRange(cs, m) && m <= n
    ensures AllInRange(cs, n)
  {
    forall q | 0 <= q < |cs|
      ensures InRange(cs[q], n)
    {
      assert InRange(cs[q], m);
    }
  }

  /** The first position, in evaluation order, that a list of constraints
      reads at or beyond `n`: the index whose `vars[...]` panics. */
  function FirstOutOfRange(cs: seq<Constraint>, n: nat): (r: Option<nat>)
    ensures r.Some? ==> n <= r.value
  {
    if |cs| == 0 then None
    else
      match FirstIndexOutOfRange(Indices(cs[0]), n)
      case Some(i) => Some(i)
      case None => FirstOutOfRange(cs[1..], n)
  }

  function FirstIndexOutOfRange(xs: seq<nat>, n: nat): (r: Option<nat>)
    ensures r.Some? ==> n <= r.value
  {
    if |xs| == 0 then None
    else if n <= xs[0] then Some(xs[0])
    else FirstIndexOutOfRange(xs[1..], n)
  }

  /** The scan finds an offending position exactly when there is one, and
      the one it finds is among those read. */
  lemma {:induction false} FirstIndexMeaning(xs: seq<nat>, n: nat)
    ensures FirstIndexOutOfRange(xs, n).None? <==> forall t :: 0 <= t < |xs| ==> xs[t] < n
    ensures FirstIndexOutOfRange(xs, n).Some? ==> FirstIndexOutOfRange(xs, n).value in xs
  {
    if |xs| > 0 && xs[0] < n {
      FirstIndexMeaning(xs[1..], n);
      assert forall t :: 0 < t < |xs| ==> xs[t] == xs[1..][t - 1];
    }
  }

  /** The panic happens exactly when some constraint reads a position at or
      beyond `n`. */
  lemma {:induction false} FirstOutOfRangeMeaning(cs: seq<Constraint>, n: nat)
    ensures FirstOutOfRange(cs, n).None? <==> AllInRange(cs, n)
  {
    if |cs| > 0 {
      FirstIndexMeaning(Indices(cs[0]), n);
      FirstOutOfRangeMeaning(cs[1..], n);
      assert cs == [cs[0]] + cs[1..];
      AllInRangeConcat([cs[0]], cs[1..], n);
    }
  }

  /** When every position read lies below `m`, so does the offending one. */
  lemma {:induction false} FirstOutOfRangeBelow(cs: seq<Constraint>, n: nat, m: nat)
    requires AllInRange(cs, m)
    ensures FirstOutOfRange(cs, n).Some? ==> FirstOutOfRange(cs, n).value < m
  {
    if |cs| > 0 {
      FirstIndexMeaning(Indices(cs[0]), n);
      assert InRange(cs[0], m);
      assert AllInRange(cs[1..], m) by {
        forall q | 0 <= q < |cs[1..]|
          ensures InRange(cs[1..][q], m)
        {
          assert cs[1..][q] == cs[q + 1];
        }
      }
      FirstOutOfRangeBelow(cs[1..], n, m);
    }
  }
}

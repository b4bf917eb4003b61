/** The Boolean atoms the encoder creates, one per decoded cell, and how a
    solver model gives them truth values. */
module Atoms {

  /** A literal created with `Bool::from_bool`, or a constant created with
      `Bool::fresh_const`, identified by its creation number. */
  datatype Atom = Fixed(b: bool) | Free(id: nat)

  /** A model of the solver, reduced to the value it gives each fresh constant. */
  type Model = nat -> bool

  function Eval(a: Atom, m: Model): bool
  {
    match a
    case Fixed(b) => b
    case Free(id) => m(id)
  }

  /** The truth value of every atom, position by position. */
  function Values(vars: seq<Atom>, m: Model): seq<bool>
  {
    seq(|vars|, k requires 0 <= k < |vars| => Eval(vars[k], m))
  }

  /** The candidate grid `g` agrees with every literal atom. */
  ghost predicate KeepsFixed(vars: seq<Atom>, g: seq<bool>)
  {
    && |g| == |vars|
    && forall k :: 0 <= k < |vars| && vars[k].Fixed? ==> g[k] == vars[k].b
  }

  /** Fresh constants appear in strictly increasing creation order, so no two
      positions share one. */
  ghost predicate IdsIncreasing(vars: seq<Atom>)
  {
    forall i, j :: 0 <= i < j < |vars| && vars[i].Free? && vars[j].Free? ==> vars[i].id < vars[j].id
  }

  /** Whatever the model, a literal atom evaluates to its literal. */
  lemma LiteralsSurviveEveryModel(vars: seq<Atom>, m: Model)
    ensures KeepsFixed(vars, Values(vars, m))
  {
  }

  /** Conversely, when fresh constants are pairwise distinct, every grid that
      agrees with the literals is the valuation of some model: the free
      cells are truly unconstrained before the rules are added. */
  lemma {:induction false} Realize(vars: seq<Atom>, g: seq<bool>) returns (m: Model)
    requires IdsIncreasing(vars)
    requires KeepsFixed(vars, g)
    ensures Values(vars, m) == g
  {
    if |vars| == 0 {
      m := _ => false;
    } else {
      var last := |vars| - 1;
      var m' := Realize(vars[..last], g[..last]);
      match vars[last]
      case Fixed(b) =>
        m := m';
        assert forall k :: 0 <= k < last ==> Eval(vars[k], m) == Eval(vars[..last][k], m');
      case Free(id) =>
        var v := g[last];
        m := (x: nat) => if x == id then v else m'(x);
        forall k | 0 <= k < last
          ensures Eval(vars[k], m) == g[k]
        {
          assert vars[..last][k] == vars[k];
          assert Values(vars[..last], m')[k] == g[k];
          if vars[k].Free? {
            assert vars[k].id < id;
          }
        }
    }
  }
}

/** Generic facts about sequences shared by the decoders. */
module Seqs {

  /** The lists of `xss` one after another, as nested loops produce them. */
  function Flatten<T>(xss: seq<seq<T>>): seq<T>
  {
    if |xss| == 0 then [] else Flatten(xss[..|xss| - 1]) + xss[|xss| - 1]
  }

  /** Nested loops produce nothing exactly when every inner loop does. */
  lemma {:induction false} FlattenEmpty<T>(xss: seq<seq<T>>)
    ensures Flatten(xss) == [] <==> forall k :: 0 <= k < |xss| ==> xss[k] == []
  {
    if |xss| > 0 {
      var init := xss[..|xss| - 1];
      FlattenEmpty(init);
      assert forall k :: 0 <= k < |init| ==> init[k] == xss[k];
    }
  }

  /** Re-associating `a + (b + c)` around a known prefix `a + b`. */
  lemma Regroup<T>(x: seq<T>, y: seq<T>, a: seq<T>, b: seq<T>, c: seq<T>)
    requires x == a + (b + c) && y == a + b
    ensures x == y + c
  {
  }
}

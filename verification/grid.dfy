/** A candidate solution as a row-major sequence of cell values, and the
    Binairo rules stated directly on it. */
module Grid {

  /** Cell (r, c) of a grid `w` cells wide, stored at `r * w + c`; a position
      past the end of `g` reads as false. */
  function At(g: seq<bool>, w: nat, r: nat, c: nat): bool
  {
    if r * w + c < |g| then g[r * w + c] else false
  }

  function Row(g: seq<bool>, w: nat, r: nat): seq<bool>
  {
    seq(w, c requires 0 <= c < w => At(g, w, r, c))
  }

  function Column(g: seq<bool>, w: nat, h: nat, c: nat): seq<bool>
  {
    seq(h, r requires 0 <= r < h => At(g, w, r, c))
  }

  /** The number of true cells in a line. */
  function Trues(s: seq<bool>): (n: nat)
    ensures n <= |s|
  {
    if |s| == 0 then 0 else Trues(s[..|s| - 1]) + (if s[|s| - 1] then 1 else 0)
  }

  /** Three cells that are not all the same value. */
  predicate Mixed(x: bool, y: bool, z: bool)
  {
    !(x == y && y == z)
  }

  /** No row and no column holds three consecutive equal cells. */
  ghost predicate NoTriples(g: seq<bool>, w: nat, h: nat)
  {
    && (forall r: nat, c: nat :: r < h && c + 2 < w ==>
          Mixed(At(g, w, r, c), At(g, w, r, c + 1), At(g, w, r, c + 2)))
    && (forall r: nat, c: nat :: r + 2 < h && c < w ==>
          Mixed(At(g, w, r, c), At(g, w, r + 1, c), At(g, w, r + 2, c)))
  }

  /** Every row holds `w / 2` true cells and every column `h / 2`, with the
      division rounding down for odd sizes. */
  ghost predicate Balanced(g: seq<bool>, w: nat, h: nat)
  {
    && (forall r: nat :: r < h ==> Trues(Row(g, w, r)) == w / 2)
    && (forall c: nat :: c < w ==> Trues(Column(g, w, h, c)) == h / 2)
  }

  /** Row-major positions of a `w` by `h` grid stay below `w * h`. */
  lemma CellIndexBound(w: nat, h: nat, r: nat, c: nat)
    requires r < h && c < w
    ensures r * w + c < w * h
  {
    calc {
      r * w + c;
    <
      r * w + w;
    ==
      (r + 1) * w;
    <=  { MulMonotone(r + 1, h, w); }
      h * w;
    }
  }

  lemma MulMonotone(a: nat, b: nat, k: nat)
    requires a <= b
    ensures a * k <= b * k
  {
  }

  /** A linear position `p` names cell (p / w, p % w); its right neighbour,
      when not in the last column, and its lower neighbour, when not in the
      last row, are `p + 1` and `p + w`, all inside the grid. */
  lemma NeighbourIndices(w: nat, h: nat, p: nat)
    requires 0 < w && p < w * h
    ensures p / w < h && p == (p / w) * w + p % w
    ensures p % w + 1 < w ==> p + 1 < w * h && p + 1 == (p / w) * w + (p % w + 1)
    ensures p / w + 1 < h ==> p + w < w * h && p + w == (p / w + 1) * w + p % w
  {
    var r, c := p / w, p % w;
    assert p == r * w + c;
    if h <= r {
      MulMonotone(h, r, w);
      assert false;
    }
    if c + 1 < w {
      CellIndexBound(w, h, r, c + 1);
    }
    if r + 1 < h {
      CellIndexBound(w, h, r + 1, c);
      assert (r + 1) * w + c == p + w;
    }
  }

  lemma Neighbours(g: seq<bool>, w: nat, h: nat, p: nat)
    requires 0 < w && p < w * h && w * h <= |g|
    ensures p / w < h
    ensures g[p] == At(g, w, p / w, p % w)
    ensures p % w + 1 < w ==> p + 1 < w * h && g[p + 1] == At(g, w, p / w, p % w + 1)
    ensures p / w + 1 < h ==> p + w < w * h && g[p + w] == At(g, w, p / w + 1, p % w)
  {
    NeighbourIndices(w, h, p);
  }
}

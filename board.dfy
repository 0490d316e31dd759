/** Value-level view of the simulator's 2-D integer grids.
    A grid is indexed `g[x][y]` with `x` the outer coordinate (the source's
    `grid_width` axis) and `y` the inner one (`grid_height`). */
module Board {

  type Cells = seq<seq<int>>

  /** `g` is a `w`-by-`h` rectangle. */
  predicate IsGrid(g: Cells, w: nat, h: nat)
  {
    |g| == w && forall x :: 0 <= x < w ==> |g[x]| == h
  }

  predicate InRange(g: Cells, x: int, y: int)
  {
    0 <= x < |g| && 0 <= y < |g[x]|
  }

  /** The zero-padded read: a position outside the grid reads as a dead cell. */
  function At(g: Cells, x: int, y: int): (v: int)
    ensures InRange(g, x, y) ==> v == g[x][y]
    ensures !InRange(g, x, y) ==> v == 0
  {
    if InRange(g, x, y) then g[x][y] else 0
  }

  /** Every cell is dead (0) or alive (1). */
  predicate IsBinary(g: Cells)
  {
    forall x, y :: 0 <= x < |g| && 0 <= y < |g[x]| ==> g[x][y] == 0 || g[x][y] == 1
  }

  /** A `w`-by-`h` grid holding `v` everywhere (`np.zeros`, `-np.ones`). */
  function Filled(w: nat, h: nat, v: int): (r: Cells)
    ensures IsGrid(r, w, h)
    ensures forall x, y :: InRange(r, x, y) ==> r[x][y] == v
  {
    seq(w, _ => seq(h, _ => v))
  }

  /** `g` with the one cell at `(x, y)` replaced by `v`. */
  function Set(g: Cells, x: int, y: int, v: int): (r: Cells)
    requires InRange(g, x, y)
    ensures |r| == |g| && forall i :: 0 <= i < |g| ==> |r[i]| == |g[i]|
    ensures r[x][y] == v
    ensures forall i, j :: InRange(g, i, j) && (i, j) != (x, y) ==> r[i][j] == g[i][j]
  {
    g[x := g[x][y := v]]
  }

  /** Two grids of the same shape that agree cell by cell are equal. */
  lemma SameCellsEqual(g: Cells, g': Cells)
    requires |g| == |g'| && forall x :: 0 <= x < |g| ==> |g[x]| == |g'[x]|
    requires forall x, y :: InRange(g, x, y) ==> g[x][y] == g'[x][y]
    ensures g == g'
  {
    forall x | 0 <= x < |g| ensures g[x] == g'[x] {
      assert forall y :: 0 <= y < |g[x]| ==> InRange(g, x, y);
    }
  }
}

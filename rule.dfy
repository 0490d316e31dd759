/** The transition rule of `GameOfLife.update_grid`: a Moore-neighbourhood
    count with a dead border, then Conway's B3/S23 birth/survival rule. */
module Rule {
  import opened Board

  /** The eight non-zero entries of the kernel [[1,1,1],[1,0,1],[1,1,1]],
      as offsets from the centre cell. */
  const Offsets: seq<(int, int)> :=
    [(-1, -1), (-1, 0), (-1, 1), (0, -1), (0, 1), (1, -1), (1, 0), (1, 1)]

  /** The convolution kernel the source passes to `convolve2d`. */
  const Kernel: Cells := [[1, 1, 1], [1, 0, 1], [1, 1, 1]]

  /** `(i, j)` is one of the eight cells surrounding `(x, y)`. */
  predicate Adjacent(x: int, y: int, i: int, j: int)
  {
    -1 <= i - x <= 1 && -1 <= j - y <= 1 && (i, j) != (x, y)
  }

  /** Sum of the zero-padded reads at `(x, y)` shifted by each offset. */
  function SumAt(g: Cells, x: int, y: int, offs: seq<(int, int)>): (n: int)
  {
    if offs == [] then 0
    else At(g, x + offs[0].0, y + offs[0].1) + SumAt(g, x, y, offs[1..])
  }

  /** The value `convolve2d(grid, Kernel, mode='same', boundary='fill',
      fillvalue=0)` holds at `(x, y)`. */
  function Neighbours(g: Cells, x: int, y: int): (n: int)
    ensures IsBinary(g) ==> 0 <= n <= 8
  {
    SumAtBounds(g, x, y, Offsets);
    SumAt(g, x, y, Offsets)
  }

  /** Reference definition of the library call: a centred ('same') 2-D
      convolution of `g` with a 3-by-3 kernel `k`, reading 0 outside `g`.
      Convolution flips the kernel: entry `k[i][j]` weighs the cell at
      `(x + 1 - i, y + 1 - j)`. */
  function ConvolveSame(g: Cells, k: Cells, x: int, y: int): (r: int)
    requires IsGrid(k, 3, 3)
    ensures IsBinary(g) && IsBinary(k) ==> 0 <= r <= 9
  {
    KernelRows(g, k, x, y, 0)
  }

  function KernelRows(g: Cells, k: Cells, x: int, y: int, i: nat): (r: int)
    requires IsGrid(k, 3, 3)
    ensures IsBinary(g) && IsBinary(k) && i <= 3 ==> 0 <= r <= 3 * (3 - i)
    decreases 3 - i
  {
    if i >= 3 then 0 else KernelRow(g, k, x, y, i, 0) + KernelRows(g, k, x, y, i + 1)
  }

  function KernelRow(g: Cells, k: Cells, x: int, y: int, i: nat, j: nat): (r: int)
    requires IsGrid(k, 3, 3) && i < 3
    ensures IsBinary(g) && IsBinary(k) && j <= 3 ==> 0 <= r <= 3 - j
    decreases 3 - j
  {
    if j >= 3 then 0
    else k[i][j] * At(g, x + 1 - i, y + 1 - j) + KernelRow(g, k, x, y, i, j + 1)
  }

  /** The eight bounds-checked terms of the count, written out. */
  lemma NeighboursExpanded(g: Cells, x: int, y: int)
    ensures Neighbours(g, x, y) ==
      At(g, x - 1, y - 1) + At(g, x - 1, y) + At(g, x - 1, y + 1) +
      At(g, x, y - 1) + At(g, x, y + 1) +
      At(g, x + 1, y - 1) + At(g, x + 1, y) + At(g, x + 1, y + 1)
  {
    assert SumAt(g, x, y, [(1, 1)][1..]) == 0;
    assert SumAt(g, x, y, [(1, 1)]) == At(g, x + 1, y + 1);
    assert SumAt(g, x, y, [(1, 0), (1, 1)]) == At(g, x + 1, y) + At(g, x + 1, y + 1);
    assert SumAt(g, x, y, [(1, -1), (1, 0), (1, 1)]) == At(g, x + 1, y - 1) + At(g, x + 1, y) + At(g, x + 1, y + 1);
    assert SumAt(g, x, y, [(0, 1), (1, -1), (1, 0), (1, 1)]) == At(g, x, y + 1) + At(g, x + 1, y - 1) + At(g, x + 1, y) + At(g, x + 1, y + 1);
    assert SumAt(g, x, y, [(0, -1), (0, 1), (1, -1), (1, 0), (1, 1)]) == At(g, x, y - 1) + At(g, x, y + 1) + At(g, x + 1, y - 1) + At(g, x + 1, y) + At(g, x + 1, y + 1);
    assert SumAt(g, x, y, [(-1, 1), (0, -1), (0, 1), (1, -1), (1, 0), (1, 1)]) == At(g, x - 1, y + 1) + At(g, x, y - 1) + At(g, x, y + 1) + At(g, x + 1, y - 1) + At(g, x + 1, y) + At(g, x + 1, y + 1);
    assert SumAt(g, x, y, [(-1, 0), (-1, 1), (0, -1), (0, 1), (1, -1), (1, 0), (1, 1)]) == At(g, x - 1, y) + At(g, x - 1, y + 1) + At(g, x, y - 1) + At(g, x, y + 1) + At(g, x + 1, y - 1) + At(g, x + 1, y) + At(g, x + 1, y + 1);
    assert SumAt(g, x, y, [(-1, -1), (-1, 0), (-1, 1), (0, -1), (0, 1), (1, -1), (1, 0), (1, 1)]) == At(g, x - 1, y - 1) + At(g, x - 1, y) + At(g, x - 1, y + 1) + At(g, x, y - 1) + At(g, x, y + 1) + At(g, x + 1, y - 1) + At(g, x + 1, y) + At(g, x + 1, y + 1);
  }

  /** The explicit count is exactly what `convolve2d` computes with the
      source's kernel: the library call and the model agree at every cell. */
  lemma NeighboursIsConvolution(g: Cells, x: int, y: int)
    ensures Neighbours(g, x, y) == ConvolveSame(g, Kernel, x, y)
  {
    NeighboursExpanded(g, x, y);
    var k := Kernel;
    assert KernelRow(g, k, x, y, 0, 0) == At(g, x + 1, y + 1) + At(g, x + 1, y) + At(g, x + 1, y - 1);
    assert KernelRow(g, k, x, y, 1, 0) == At(g, x, y + 1) + At(g, x, y - 1);
    assert KernelRow(g, k, x, y, 2, 0) == At(g, x - 1, y + 1) + At(g, x - 1, y) + At(g, x - 1, y - 1);
  }

  lemma {:induction false} SumAtBounds(g: Cells, x: int, y: int, offs: seq<(int, int)>)
    ensures IsBinary(g) ==> 0 <= SumAt(g, x, y, offs) <= |offs|
  {
    if offs != [] {
      SumAtBounds(g, x, y, offs[1..]);
    }
  }

  lemma {:induction false} SumAtLocal(g: Cells, g': Cells, x: int, y: int, offs: seq<(int, int)>)
    requires forall k :: 0 <= k < |offs| ==>
      At(g, x + offs[k].0, y + offs[k].1) == At(g', x + offs[k].0, y + offs[k].1)
    ensures SumAt(g, x, y, offs) == SumAt(g', x, y, offs)
  {
    if offs != [] {
      assert forall k :: 0 <= k < |offs[1..]| ==> offs[1..][k] == offs[k + 1];
      SumAtLocal(g, g', x, y, offs[1..]);
    }
  }

  /** The count at `(x, y)` depends on the eight surrounding positions only:
      not on the cell itself and not on anything farther away, so nothing
      wraps round from the opposite edge. */
  lemma NeighboursLocal(g: Cells, g': Cells, x: int, y: int)
    requires forall i, j :: Adjacent(x, y, i, j) ==> At(g, i, j) == At(g', i, j)
    ensures Neighbours(g, x, y) == Neighbours(g', x, y)
  {
    forall k | 0 <= k < |Offsets|
      ensures At(g, x + Offsets[k].0, y + Offsets[k].1) == At(g', x + Offsets[k].0, y + Offsets[k].1)
    {
      assert Adjacent(x, y, x + Offsets[k].0, y + Offsets[k].1);
    }
    SumAtLocal(g, g', x, y, Offsets);
  }

  /** A corner cell sees only its three in-range neighbours. */
  lemma CornerNeighbours(g: Cells)
    ensures Neighbours(g, 0, 0) == At(g, 0, 1) + At(g, 1, 0) + At(g, 1, 1)
  {
    NeighboursExpanded(g, 0, 0);
  }

  /** Hence on a 0/1 grid a corner count is at most 3. */
  lemma CornerAtMostThree(g: Cells)
    requires IsBinary(g)
    ensures 0 <= Neighbours(g, 0, 0) <= 3
  {
    CornerNeighbours(g);
  }

  /** The other three corners of a `w`-by-`h` grid see only their three
      in-range neighbours too: the reads past the last row or column are
      zero and nothing wraps round to index 0. */
  lemma FarCornerNeighbours(g: Cells, w: nat, h: nat)
    requires IsGrid(g, w, h) && w > 0 && h > 0
    ensures Neighbours(g, 0, h - 1) == At(g, 0, h - 2) + At(g, 1, h - 2) + At(g, 1, h - 1)
    ensures Neighbours(g, w - 1, 0) == At(g, w - 2, 0) + At(g, w - 2, 1) + At(g, w - 1, 1)
    ensures Neighbours(g, w - 1, h - 1) == At(g, w - 2, h - 2) + At(g, w - 2, h - 1) + At(g, w - 1, h - 2)
  {
    NeighboursExpanded(g, 0, h - 1);
    NeighboursExpanded(g, w - 1, 0);
    NeighboursExpanded(g, w - 1, h - 1);
  }

  /** Hence on a 0/1 grid the count at each of the four corners is at most 3. */
  lemma CornersAtMostThree(g: Cells, w: nat, h: nat)
    requires IsGrid(g, w, h) && w > 0 && h > 0 && IsBinary(g)
    ensures 0 <= Neighbours(g, 0, 0) <= 3
    ensures 0 <= Neighbours(g, 0, h - 1) <= 3
    ensures 0 <= Neighbours(g, w - 1, 0) <= 3
    ensures 0 <= Neighbours(g, w - 1, h - 1) <= 3
  {
    CornerAtMostThree(g);
    FarCornerNeighbours(g, w, h);
  }

  /** The B3/S23 rule for one cell: `alive` is the cell's value before the
      step (alive means exactly 1), `n` its neighbour count. */
  function NextCell(alive: int, n: int): (r: int)
    ensures r == 0 || r == 1
  {
    if n == 3 || (alive == 1 && n == 2) then 1 else 0
  }

  /** Birth needs exactly three neighbours; survival two or three; every
      other cell is dead afterwards. */
  lemma BirthAndSurvival(alive: int, n: int)
    ensures alive != 1 ==> (NextCell(alive, n) == 1 <==> n == 3)
    ensures alive == 1 ==> (NextCell(alive, n) == 1 <==> 2 <= n <= 3)
  {
  }

  /** The whole neighbour array (`neighbors` in the source), same shape as `g`. */
  function NeighbourCounts(g: Cells): (r: Cells)
    ensures |r| == |g| && forall x :: 0 <= x < |g| ==> |r[x]| == |g[x]|
  {
    seq(|g|, x requires 0 <= x < |g| => seq(|g[x]|, y => Neighbours(g, x, y)))
  }

  /** One generation: every count is taken from the pre-step grid `g`, and
      only then is each new cell built from it. */
  function NextGen(g: Cells): (r: Cells)
    ensures |r| == |g| && forall x :: 0 <= x < |g| ==> |r[x]| == |g[x]|
    ensures IsBinary(r)
  {
    var n := NeighbourCounts(g);
    seq(|g|, x requires 0 <= x < |g| =>
      seq(|g[x]|, y requires 0 <= y < |g[x]| => NextCell(g[x][y], n[x][y])))
  }

  /** Each cell after a step is 1 iff its count in the pre-step grid is 3,
      or it was 1 and its count is 2; otherwise it is 0. */
  lemma NextGenCell(g: Cells, x: int, y: int)
    requires InRange(g, x, y)
    ensures NextGen(g)[x][y] == 1 <==>
      Neighbours(g, x, y) == 3 || (g[x][y] == 1 && Neighbours(g, x, y) == 2)
    ensures NextGen(g)[x][y] == 0 <==>
      !(Neighbours(g, x, y) == 3 || (g[x][y] == 1 && Neighbours(g, x, y) == 2))
  {
  }

  /** A step keeps the grid's dimensions. */
  lemma NextGenShape(g: Cells, w: nat, h: nat)
    requires IsGrid(g, w, h)
    ensures IsGrid(NextGen(g), w, h) && IsBinary(NextGen(g))
  {
  }

  lemma {:induction false} SumAtDead(w: nat, h: nat, x: int, y: int, offs: seq<(int, int)>)
    ensures SumAt(Filled(w, h, 0), x, y, offs) == 0
  {
    if offs != [] {
      SumAtDead(w, h, x, y, offs[1..]);
    }
  }

  /** An all-dead grid is a fixed point of the step. */
  lemma AllDeadIsFixedPoint(w: nat, h: nat)
    ensures NextGen(Filled(w, h, 0)) == Filled(w, h, 0)
  {
    var d := Filled(w, h, 0);
    forall x, y | InRange(d, x, y) ensures NextGen(d)[x][y] == d[x][y] {
      SumAtDead(w, h, x, y, Offsets);
    }
    SameCellsEqual(NextGen(d), d);
  }

  /** The blinker, a period-2 oscillator, in its two phases. */
  const VerticalBlinker: Cells := [[0, 1, 0], [0, 1, 0], [0, 1, 0]]
  const HorizontalBlinker: Cells := [[0, 0, 0], [1, 1, 1], [0, 0, 0]]

  /** The vertical blinker in a 3-by-3 grid turns horizontal and back. */
  lemma BlinkerOscillates()
    ensures NextGen(VerticalBlinker) == HorizontalBlinker
    ensures NextGen(HorizontalBlinker) == VerticalBlinker
  {
    var v, h := VerticalBlinker, HorizontalBlinker;
    VerticalRow(v, 0); VerticalRow(v, 1); VerticalRow(v, 2);
    HorizontalRow(h, 0); HorizontalRow(h, 1); HorizontalRow(h, 2);
  }

  lemma VerticalRow(g: Cells, x: int)
    requires g == [[0, 1, 0], [0, 1, 0], [0, 1, 0]] && 0 <= x < 3
    ensures NextGen(g)[x] == if x == 1 then [1, 1, 1] else [0, 0, 0]
  {
    NeighboursExpanded(g, x, 0);
    NeighboursExpanded(g, x, 1);
    NeighboursExpanded(g, x, 2);
  }

  lemma HorizontalRow(g: Cells, x: int)
    requires g == [[0, 0, 0], [1, 1, 1], [0, 0, 0]] && 0 <= x < 3
    ensures NextGen(g)[x] == [0, 1, 0]
  {
    NeighboursExpanded(g, x, 0);
    NeighboursExpanded(g, x, 1);
    NeighboursExpanded(g, x, 2);
  }
}

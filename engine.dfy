/** The simulation state of the `GameOfLife` widget: the live `grid`, the
    `old_grid` it is compared with to decide what to repaint, and the
    operations that change them. */
module Engine {
  import opened Board
  import opened Rule
  import opened Diff

  /** The contents of a 2-D array as a value. */
  function Snapshot(a: array2<int>): (s: Cells)
    reads a
    ensures IsGrid(s, a.Length0, a.Length1)
    ensures forall x, y :: 0 <= x < a.Length0 && 0 <= y < a.Length1 ==> s[x][y] == a[x, y]
  {
    seq(a.Length0, x requires 0 <= x < a.Length0 reads a =>
      seq(a.Length1, y requires 0 <= y < a.Length1 reads a => a[x, y]))
  }

  /** Comparing two arrays at an in-range cell is comparing their snapshots. */
  lemma DiffersAt(a: array2<int>, b: array2<int>, x: int, y: int)
    requires 0 <= x < a.Length0 && 0 <= y < a.Length1
    requires b.Length0 == a.Length0 && b.Length1 == a.Length1
    ensures Differs(Snapshot(a), Snapshot(b), (x, y)) == (a[x, y] != b[x, y])
  {
  }

  /** The changed cells of two arrays of one shape, stated on the arrays:
      exactly the coordinates where they differ, in strict row-major order. */
  lemma ChangedOfArrays(a: array2<int>, b: array2<int>)
    requires b.Length0 == a.Length0 && b.Length1 == a.Length1
    ensures forall p :: p in ChangedCells(Snapshot(a), Snapshot(b), a.Length0, a.Length1) <==>
      0 <= p.0 < a.Length0 && 0 <= p.1 < a.Length1 && a[p.0, p.1] != b[p.0, p.1]
    ensures Ordered(ChangedCells(Snapshot(a), Snapshot(b), a.Length0, a.Length1))
  {
    ChangedCellsSpec(Snapshot(a), Snapshot(b), a.Length0, a.Length1);
  }

  /** A fresh array holding the grid value `g` (`np.copy`, `np.zeros`,
      `-np.ones`). */
  method FromCells(g: Cells, w: nat, h: nat) returns (a: array2<int>)
    requires IsGrid(g, w, h)
    ensures fresh(a)
    ensures a.Length0 == w && a.Length1 == h && Snapshot(a) == g
  {
    a := new int[w, h]((x, y) requires 0 <= x < w && 0 <= y < h => g[x][y]);
    SameCellsEqual(Snapshot(a), g);
  }

  class GameOfLife {
    /** `grid_width` and `grid_height`. */
    const width: nat
    const height: nat
    var grid: array2<int>
    var oldGrid: array2<int>

    ghost predicate Valid()
      reads this
    {
      grid.Length0 == width && grid.Length1 == height &&
      oldGrid.Length0 == width && oldGrid.Length1 == height &&
      grid != oldGrid
    }

    /** The coordinates `update_ui` repaints in the current state. */
    ghost function Changed(): (r: seq<Coord>)
      reads this, grid, oldGrid
    {
      ChangedCells(Snapshot(oldGrid), Snapshot(grid), width, height)
    }

    /** `__init__`: `old_grid` is all zeros and `grid` is the initial
        pattern, which the source draws at random. */
    constructor (initial: array2<int>)
      ensures Valid() && fresh(grid) && fresh(oldGrid)
      ensures width == initial.Length0 && height == initial.Length1
      ensures Snapshot(grid) == Snapshot(initial)
      ensures Snapshot(oldGrid) == Filled(width, height, 0)
    {
      var w, h := initial.Length0, initial.Length1;
      var zeros := FromCells(Filled(w, h, 0), w, h);
      var cells := FromCells(Snapshot(initial), w, h);
      width, height, oldGrid, grid := w, h, zeros, cells;
    }

    /** `set_game`: `grid` becomes a copy of `arr` and every `old_grid`
        cell the sentinel -1, so a 0/1 pattern is repainted everywhere. */
    method SetGame(arr: array2<int>)
      requires Valid()
      requires arr.Length0 == width && arr.Length1 == height
      modifies this
      ensures Valid() && fresh(grid) && fresh(oldGrid)
      ensures Snapshot(grid) == old(Snapshot(arr))
      ensures Snapshot(oldGrid) == Filled(width, height, -1)
      ensures IsBinary(Snapshot(grid)) ==> Changed() == RowMajor(width, height)
    {
      oldGrid := FromCells(Filled(width, height, -1), width, height);
      grid := FromCells(Snapshot(arr), width, height);
      if IsBinary(Snapshot(grid)) {
        SetGameDiff(Snapshot(grid), width, height);
      }
    }

    /** `clear_game`: `grid` becomes all dead, `old_grid` is kept, and the
        cells repainted are exactly those where `old_grid` is non-zero. */
    method ClearGame() returns (repainted: seq<Coord>)
      requires Valid()
      modifies this
      ensures Valid() && fresh(grid) && oldGrid == old(oldGrid)
      ensures Snapshot(grid) == Filled(width, height, 0)
      ensures Snapshot(oldGrid) == old(Snapshot(oldGrid))
      ensures repainted == Changed()
      ensures forall p :: p in repainted <==>
        0 <= p.0 < width && 0 <= p.1 < height && oldGrid[p.0, p.1] != 0
    {
      grid := FromCells(Filled(width, height, 0), width, height);
      repainted := UpdateUi();
      ClearDiff(Snapshot(oldGrid), width, height);
    }

    /** `clear_game` as evidently intended: `old_grid` first takes a copy of
        the grid on screen, as `update_grid` does, so the cells repainted are
        exactly those alive before the clear. */
    method ClearGameSynced() returns (repainted: seq<Coord>)
      requires Valid()
      modifies this
      ensures Valid() && fresh(grid) && fresh(oldGrid)
      ensures Snapshot(grid) == Filled(width, height, 0)
      ensures Snapshot(oldGrid) == old(Snapshot(grid))
      ensures repainted == Changed()
      ensures forall p :: p in repainted <==>
        0 <= p.0 < width && 0 <= p.1 < height && old(grid[p.0, p.1]) != 0
    {
      oldGrid := FromCells(Snapshot(grid), width, height);
      grid := FromCells(Filled(width, height, 0), width, height);
      repainted := UpdateUi();
      ClearDiff(Snapshot(oldGrid), width, height);
    }

    /** `update_grid`: `old_grid` becomes a copy of the pre-step grid, all
        counts are taken from that grid, and only then is the new grid
        built from them. */
    method UpdateGrid() returns (repainted: seq<Coord>)
      requires Valid()
      modifies this
      ensures Valid() && fresh(grid) && fresh(oldGrid)
      ensures Snapshot(oldGrid) == old(Snapshot(grid))
      ensures Snapshot(grid) == NextGen(old(Snapshot(grid)))
      ensures repainted == Changed()
    {
      var pre := Snapshot(grid);
      oldGrid := FromCells(pre, width, height);
      var neighbours := NeighbourCounts(pre);
      var next := new int[width, height]((x, y) requires 0 <= x < width && 0 <= y < height =>
        NextCell(pre[x][y], neighbours[x][y]));
      SameCellsEqual(Snapshot(next), NextGen(pre));
      grid := next;
      repainted := UpdateUi();
    }

    /** `toggle_cell`: flips `grid[x, y]` to `1 - grid[x, y]` and copies the
        new value into `old_grid[x, y]`, so the toggled cell leaves the
        diff and every other entry of it stays. */
    method ToggleCell(x: int, y: int)
      requires Valid()
      requires 0 <= x < width && 0 <= y < height
      modifies grid, oldGrid
      ensures Valid()
      ensures Snapshot(grid) == Set(old(Snapshot(grid)), x, y, 1 - old(grid[x, y]))
      ensures Snapshot(oldGrid) == Set(old(Snapshot(oldGrid)), x, y, 1 - old(grid[x, y]))
      ensures Changed() == Without(old(Changed()), (x, y))
    {
      ghost var g0, o0 := Snapshot(grid), Snapshot(oldGrid);
      ghost var v := 1 - grid[x, y];
      grid[x, y] := 1 - grid[x, y];
      oldGrid[x, y] := grid[x, y];
      SameCellsEqual(Snapshot(grid), Set(g0, x, y, v));
      SameCellsEqual(Snapshot(oldGrid), Set(o0, x, y, v));
      ToggleDiff(o0, g0, width, height, x, y, v);
    }

    /** `update_ui`: visits `x` ascending, then `y` ascending, and collects
        each coordinate where `old_grid` and `grid` differ; it changes
        neither grid. */
    method UpdateUi() returns (repainted: seq<Coord>)
      requires Valid()
      ensures repainted == Changed()
      ensures forall p :: p in repainted <==>
        0 <= p.0 < width && 0 <= p.1 < height && oldGrid[p.0, p.1] != grid[p.0, p.1]
      ensures Ordered(repainted)
    {
      ghost var o, g := Snapshot(oldGrid), Snapshot(grid);
      repainted := [];
      for x := 0 to width
        invariant repainted == Differing(o, g, RowMajor(x, height))
      {
        assert RowMajor(x, height) + Row(x, 0) == RowMajor(x, height);
        for y := 0 to height
          invariant repainted == Differing(o, g, RowMajor(x, height) + Row(x, y))
        {
          ScanStep(o, g, x, y, height);
          DiffersAt(oldGrid, grid, x, y);
          if oldGrid[x, y] != grid[x, y] {
            repainted := repainted + [(x, y)];
          }
        }
        assert RowMajor(x + 1, height) == RowMajor(x, height) + Row(x, height);
      }
      ChangedOfArrays(oldGrid, grid);
    }
  }

  /** `clear_game` as written compares the cleared grid with `old_grid`,
      which after a step holds the generation before the one on screen.
      After one step of the vertical blinker, cell (1, 0) is alive and shown,
      yet the clear does not repaint it. */
  lemma ClearAfterStepMissesBornCell()
    ensures NextGen(VerticalBlinker)[1][0] == 1
    ensures (1, 0) !in ChangedCells(VerticalBlinker, Filled(3, 3, 0), 3, 3)
  {
    BlinkerOscillates();
    ClearDiff(VerticalBlinker, 3, 3);
  }

  /** The same scenario through the modelled operations: start from the
      vertical blinker, step once (which repaints (1, 0) black), then clear:
      the clear does not repaint (1, 0), so it stays black on screen though
      the grid is now dead there. */
  method ClearAfterStepScenario() returns (stepped: seq<Coord>, cleared: seq<Coord>)
    ensures (1, 0) in stepped
    ensures (1, 0) !in cleared
  {
    var initial := new int[3, 3]((x, y) => if y == 1 then 1 else 0);
    SameCellsEqual(Snapshot(initial), VerticalBlinker);
    var game := new GameOfLife(initial);
    BlinkerOscillates();
    stepped := game.UpdateGrid();
    ChangedOfArrays(game.oldGrid, game.grid);
    assert game.oldGrid[1, 0] == 0 && game.grid[1, 0] == 1;
    cleared := game.ClearGame();
  }
}

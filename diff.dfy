/** Change detection of `GameOfLife.update_ui`: the coordinates where
    `old_grid != grid`, visited with `x` in the outer loop and `y` inner. */
module Diff {
  import opened Board

  type Coord = (int, int)

  /** Row `x` of the enumeration: `(x, 0), …, (x, n - 1)`. */
  function Row(x: int, n: nat): (r: seq<Coord>)
    ensures |r| == n && forall j :: 0 <= j < n ==> r[j] == (x, j)
  {
    seq(n, j => (x, j))
  }

  lemma RowSnoc(x: int, n: nat)
    ensures Row(x, n + 1) == Row(x, n) + [(x, n)]
  {
    assert Row(x, n + 1)[..n] == Row(x, n);
  }

  /** Every coordinate of a `w`-by-`h` grid, `x` ascending, then `y`. */
  function RowMajor(w: nat, h: nat): (r: seq<Coord>)
  {
    if w == 0 then [] else RowMajor(w - 1, h) + Row(w - 1, h)
  }

  /** Strict row-major precedence. */
  predicate Before(a: Coord, b: Coord)
  {
    a.0 < b.0 || (a.0 == b.0 && a.1 < b.1)
  }

  predicate Ordered(s: seq<Coord>)
  {
    forall i, j :: 0 <= i < j < |s| ==> Before(s[i], s[j])
  }

  /** Strict order rules out repeated coordinates. */
  lemma OrderedDistinct(s: seq<Coord>)
    requires Ordered(s)
    ensures forall i, j :: 0 <= i < j < |s| ==> s[i] != s[j]
  {
  }

  /** The enumeration of a `w`-by-`h` grid has `w * h` entries. */
  lemma {:induction false} RowMajorLength(w: nat, h: nat)
    ensures |RowMajor(w, h)| == w * h
  {
    if w > 0 {
      RowMajorLength(w - 1, h);
      assert (w - 1) * h + h == w * h;
    }
  }

  /** The enumeration visits exactly the grid's coordinates. */
  lemma {:induction false} RowMajorMembers(w: nat, h: nat)
    ensures forall p :: p in RowMajor(w, h) <==> 0 <= p.0 < w && 0 <= p.1 < h
  {
    if w > 0 {
      RowMajorMembers(w - 1, h);
      var s, t := RowMajor(w - 1, h), Row(w - 1, h);
      forall p: Coord ensures p in s + t <==> 0 <= p.0 < w && 0 <= p.1 < h {
        if 0 <= p.0 < w && 0 <= p.1 < h && p.0 == w - 1 {
          assert t[p.1] == p;
        }
      }
    }
  }

  /** The enumeration is in strict row-major order. */
  lemma {:induction false} RowMajorOrdered(w: nat, h: nat)
    ensures Ordered(RowMajor(w, h))
  {
    if w > 0 {
      RowMajorOrdered(w - 1, h);
      RowMajorMembers(w - 1, h);
      var s, t := RowMajor(w - 1, h), Row(w - 1, h);
      forall i, j | 0 <= i < j < |s + t| ensures Before((s + t)[i], (s + t)[j]) {
        if i < |s| && j >= |s| {
          assert s[i] in s;
        }
      }
    }
  }

  predicate Differs(o: Cells, g: Cells, p: Coord)
  {
    At(o, p.0, p.1) != At(g, p.0, p.1)
  }

  /** The coordinates of `s`, in order, at which `o` and `g` differ. */
  function Differing(o: Cells, g: Cells, s: seq<Coord>): (r: seq<Coord>)
    ensures |r| <= |s|
  {
    if s == [] then []
    else Differing(o, g, s[..|s| - 1]) + (if Differs(o, g, s[|s| - 1]) then [s[|s| - 1]] else [])
  }

  /** Visiting one more coordinate appends it iff the grids differ there. */
  lemma DifferingSnoc(o: Cells, g: Cells, s: seq<Coord>, p: Coord)
    ensures Differing(o, g, s + [p]) == Differing(o, g, s) + (if Differs(o, g, p) then [p] else [])
  {
    assert (s + [p])[..|s|] == s;
  }

  /** One step of the inner loop of `update_ui`: visiting `(x, y)` after
      the rows before `x` and the first `y` cells of row `x`. */
  lemma ScanStep(o: Cells, g: Cells, x: nat, y: nat, h: nat)
    ensures Differing(o, g, RowMajor(x, h) + Row(x, y + 1)) ==
      Differing(o, g, RowMajor(x, h) + Row(x, y)) + (if Differs(o, g, (x, y)) then [(x, y)] else [])
  {
    RowSnoc(x, y);
    assert RowMajor(x, h) + Row(x, y + 1) == (RowMajor(x, h) + Row(x, y)) + [(x, y)];
    DifferingSnoc(o, g, RowMajor(x, h) + Row(x, y), (x, y));
  }

  lemma {:induction false} DifferingMembership(o: Cells, g: Cells, s: seq<Coord>)
    ensures forall p :: p in Differing(o, g, s) <==> p in s && Differs(o, g, p)
  {
    if s != [] {
      DifferingMembership(o, g, s[..|s| - 1]);
      assert s == s[..|s| - 1] + [s[|s| - 1]];
    }
  }

  lemma {:induction false} DifferingOrdered(o: Cells, g: Cells, s: seq<Coord>)
    requires Ordered(s)
    ensures Ordered(Differing(o, g, s))
  {
    if s != [] {
      var init, last := s[..|s| - 1], s[|s| - 1];
      DifferingOrdered(o, g, init);
      DifferingMembership(o, g, init);
      var d := Differing(o, g, init);
      forall i | 0 <= i < |d| ensures Before(d[i], last) {
        assert d[i] in init;
      }
    }
  }

  /** Where every coordinate differs, nothing is filtered out. */
  lemma {:induction false} DifferingEverywhere(o: Cells, g: Cells, s: seq<Coord>)
    requires forall k :: 0 <= k < |s| ==> Differs(o, g, s[k])
    ensures Differing(o, g, s) == s
  {
    if s != [] {
      DifferingEverywhere(o, g, s[..|s| - 1]);
      assert s == s[..|s| - 1] + [s[|s| - 1]];
    }
  }

  /** `s` with every occurrence of `q` removed. */
  function Without(s: seq<Coord>, q: Coord): (r: seq<Coord>)
    ensures forall p :: p in r <==> p in s && p != q
  {
    if s == [] then []
    else
      assert s == s[..|s| - 1] + [s[|s| - 1]];
      Without(s[..|s| - 1], q) + (if s[|s| - 1] == q then [] else [s[|s| - 1]])
  }

  /** If `(o', g')` differ from `(o, g)` only at `q`, where `o'` and `g'`
      agree, the diff loses `q` and keeps everything else in place. */
  lemma {:induction false} DifferingSynced(o: Cells, g: Cells, o': Cells, g': Cells, q: Coord, s: seq<Coord>)
    requires forall k :: 0 <= k < |s| && s[k] != q ==> Differs(o', g', s[k]) == Differs(o, g, s[k])
    requires !Differs(o', g', q)
    ensures Differing(o', g', s) == Without(Differing(o, g, s), q)
  {
    if s != [] {
      var init, last := s[..|s| - 1], s[|s| - 1];
      DifferingSynced(o, g, o', g', q, init);
      var d := Differing(o, g, init);
      if Differs(o, g, last) {
        assert Differing(o, g, s) == d + [last];
        assert (d + [last])[..|d + [last]| - 1] == d;
      } else {
        assert Differing(o, g, s) == d;
      }
    }
  }

  /** The changed-cell list of `update_ui` for a `w`-by-`h` grid; it has
      at most one entry per cell. */
  function ChangedCells(o: Cells, g: Cells, w: nat, h: nat): (r: seq<Coord>)
    ensures |r| <= w * h
  {
    RowMajorLength(w, h);
    Differing(o, g, RowMajor(w, h))
  }

  /** The changed cells are exactly the in-range coordinates where the two
      grids differ, in strict row-major order, hence without repetition. */
  lemma ChangedCellsSpec(o: Cells, g: Cells, w: nat, h: nat)
    ensures forall p :: p in ChangedCells(o, g, w, h) <==>
      0 <= p.0 < w && 0 <= p.1 < h && At(o, p.0, p.1) != At(g, p.0, p.1)
    ensures Ordered(ChangedCells(o, g, w, h))
    ensures forall i, j :: 0 <= i < j < |ChangedCells(o, g, w, h)| ==>
      ChangedCells(o, g, w, h)[i] != ChangedCells(o, g, w, h)[j]
  {
    RowMajorMembers(w, h);
    RowMajorOrdered(w, h);
    DifferingMembership(o, g, RowMajor(w, h));
    DifferingOrdered(o, g, RowMajor(w, h));
    OrderedDistinct(ChangedCells(o, g, w, h));
  }

  /** `toggle_cell`: writing the same new value `v` into both grids at an
      in-range `(x, y)` removes `(x, y)` from the diff and changes nothing
      else in it. */
  lemma ToggleDiff(o: Cells, g: Cells, w: nat, h: nat, x: int, y: int, v: int)
    requires IsGrid(o, w, h) && IsGrid(g, w, h)
    requires 0 <= x < w && 0 <= y < h
    ensures ChangedCells(Set(o, x, y, v), Set(g, x, y, v), w, h) ==
      Without(ChangedCells(o, g, w, h), (x, y))
  {
    DifferingSynced(o, g, Set(o, x, y, v), Set(g, x, y, v), (x, y), RowMajor(w, h));
  }

  /** `clear_game`: against an all-dead grid the diff is exactly the cells
      where the old grid is non-zero. */
  lemma ClearDiff(o: Cells, w: nat, h: nat)
    requires IsGrid(o, w, h)
    ensures forall p :: p in ChangedCells(o, Filled(w, h, 0), w, h) <==>
      0 <= p.0 < w && 0 <= p.1 < h && o[p.0][p.1] != 0
  {
    ChangedCellsSpec(o, Filled(w, h, 0), w, h);
  }

  /** The first diff, against the all-zero `old_grid` of the constructor,
      is exactly the alive cells of a 0/1 grid. */
  lemma InitialDiff(g: Cells, w: nat, h: nat)
    requires IsGrid(g, w, h) && IsBinary(g)
    ensures forall p :: p in ChangedCells(Filled(w, h, 0), g, w, h) <==>
      0 <= p.0 < w && 0 <= p.1 < h && g[p.0][p.1] == 1
  {
    ChangedCellsSpec(Filled(w, h, 0), g, w, h);
  }

  /** `set_game`: against the all-`-1` sentinel a 0/1 grid differs
      everywhere, so the diff is every coordinate in row-major order. */
  lemma SetGameDiff(g: Cells, w: nat, h: nat)
    requires IsGrid(g, w, h) && IsBinary(g)
    ensures ChangedCells(Filled(w, h, -1), g, w, h) == RowMajor(w, h)
    ensures |ChangedCells(Filled(w, h, -1), g, w, h)| == w * h
  {
    RowMajorLength(w, h);
    RowMajorMembers(w, h);
    var s := RowMajor(w, h);
    forall k | 0 <= k < |s| ensures Differs(Filled(w, h, -1), g, s[k]) {
      assert s[k] in s;
    }
    DifferingEverywhere(Filled(w, h, -1), g, s);
  }
}

/**
 * The board engine: the live grid of cells, the game-over flag and the
 * flag budget, with `build`, `clearCell`/`floodClear`, the left- and
 * right-click handlers, the win test and the game-over wrong-flag pass as
 * operations that update the grid in place.
 */
module Minesweeper {
  import opened Geometry
  import opened Cells
  import opened Reveal

  /**
   * The inner 3x3 scan of `build`: the number of bomb cells in the window
   * around (y, x), clipped at the edges. The window includes (y, x) itself,
   * so the result is the adjacent-bomb count plus one when (y, x) is a bomb.
   */
  method CountAdjacentBombs(a: array2<Cell>, y: int, x: int, ghost bombs: set<Pos>) returns (count: nat)
    requires 0 <= y < a.Length0 && 0 <= x < a.Length1
    requires forall i, j {:trigger a[i, j]} :: 0 <= i < a.Length0 && 0 <= j < a.Length1 ==> (a[i, j].isBomb <==> (i, j) in bombs)
    ensures count == AdjacentBombs(bombs, a.Length0, a.Length1, (y, x)) + (if (y, x) in bombs then 1 else 0)
  {
    var height, width := a.Length0, a.Length1;
    count := 0;
    for ix := -1 to 2
      invariant count == ScanCount(height, width, (y, x), bombs, 3 * (ix + 1))
    {
      for iy := -1 to 2
        invariant count == ScanCount(height, width, (y, x), bombs, 3 * (ix + 1) + (iy + 1))
      {
        var ny, nx := y + iy, x + ix;
        ScanCountStep(height, width, (y, x), bombs, iy, ix);
        if 0 <= ny < height && 0 <= nx < width && a[ny, nx].isBomb {
          count := count + 1;
        }
      }
    }
    SquareCount(bombs, height, width, (y, x));
  }

  /** Position q comes before (y, x) in row-major order. */
  predicate Before(q: Pos, y: int, x: int)
  {
    q.0 < y || (q.0 == y && q.1 < x)
  }

  /** The positions of `s` before (y, x) in row-major order. */
  ghost function CountedBefore(s: set<Pos>, y: int, x: int): set<Pos>
  {
    set q | q in s && Before(q, y, x)
  }

  lemma CountedBeforeStep(s: set<Pos>, y: int, x: int)
    ensures CountedBefore(s, y, x + 1)
            == CountedBefore(s, y, x) + (if (y, x) in s then {(y, x)} else {})
  {
  }

  lemma CountedBeforeRow(s: set<Pos>, height: int, width: int, y: int)
    requires forall q :: q in s ==> InGrid(height, width, q)
    ensures CountedBefore(s, y, width) == CountedBefore(s, y + 1, 0)
  {
  }

  /** The cell at q while `build` runs: its number is filled in once the scan has passed q. */
  ghost function BuiltCell(bs: set<Pos>, height: int, width: int, q: Pos, numbered: bool): Cell
  {
    Cell(q in bs, false, false,
         if numbered && q !in bs then Some(AdjacentBombs(bs, height, width, q)) else None, false)
  }

  /**
   * One pass of the outer loop of `build`: scan row y left to right, count
   * its bombs and give every safe cell of the row its adjacent-bomb count.
   */
  method NumberRow(a: array2<Cell>, y: nat, ghost bs: set<Pos>, bombsAbove: nat) returns (allBombs: nat)
    requires y < a.Length0
    requires forall i, j {:trigger a[i, j]} :: 0 <= i < a.Length0 && 0 <= j < a.Length1 ==>
               a[i, j] == BuiltCell(bs, a.Length0, a.Length1, (i, j), Before((i, j), y, 0))
    requires forall q :: q in bs ==> InGrid(a.Length0, a.Length1, q)
    requires bombsAbove == |CountedBefore(bs, y, 0)|
    modifies a
    ensures forall i, j {:trigger a[i, j]} :: 0 <= i < a.Length0 && 0 <= j < a.Length1 ==>
              a[i, j] == BuiltCell(bs, a.Length0, a.Length1, (i, j), Before((i, j), y + 1, 0))
    ensures allBombs == |CountedBefore(bs, y + 1, 0)|
  {
    var height, width := a.Length0, a.Length1;
    allBombs := bombsAbove;
    for x := 0 to width
      invariant forall i, j {:trigger a[i, j]} :: 0 <= i < height && 0 <= j < width ==>
                  a[i, j] == BuiltCell(bs, height, width, (i, j), Before((i, j), y, x))
      invariant allBombs == |CountedBefore(bs, y, x)|
    {
      CountedBeforeStep(bs, y, x);
      if a[y, x].isBomb {
        allBombs := allBombs + 1;
      } else {
        var bombCount := CountAdjacentBombs(a, y, x, bs);
        a[y, x] := a[y, x].(number := Some(bombCount));
      }
      forall i, j | 0 <= i < height && 0 <= j < width && (i, j) != (y, x)
        ensures a[i, j] == BuiltCell(bs, height, width, (i, j), Before((i, j), y, x + 1))
      {
        assert Before((i, j), y, x + 1) == Before((i, j), y, x);
      }
    }
    CountedBeforeRow(bs, height, width, y);
  }

  /**
   * `build`: make a height x width grid whose bombs are given by `layout`
   * (row y, column x), give every safe cell its adjacent-bomb count and
   * every bomb a null number, and count the bombs.
   */
  method Build(height: nat, width: nat, layout: seq<seq<bool>>)
      returns (a: array2<Cell>, allBombs: nat, ghost bs: set<Pos>)
    requires |layout| == height
    requires forall y :: 0 <= y < height ==> |layout[y]| == width
    ensures fresh(a) && a.Length0 == height && a.Length1 == width
    ensures forall q {:trigger q in bs} :: q in bs <==> InGrid(height, width, q) && layout[q.0][q.1]
    ensures allBombs == |bs|
    ensures forall i, j {:trigger a[i, j]} :: 0 <= i < height && 0 <= j < width ==>
              a[i, j] == BuiltCell(bs, height, width, (i, j), true)
  {
    a := new Cell[height, width]((y, x) requires 0 <= y < height && 0 <= x < width =>
      Cell(layout[y][x], false, false, None, false));
    bs := set y, x | 0 <= y < height && 0 <= x < width && layout[y][x] :: (y, x);
    allBombs := 0;
    assert CountedBefore(bs, 0, 0) == {};
    for y := 0 to height
      invariant forall i, j {:trigger a[i, j]} :: 0 <= i < height && 0 <= j < width ==>
                  a[i, j] == BuiltCell(bs, height, width, (i, j), Before((i, j), y, 0))
      invariant allBombs == |CountedBefore(bs, y, 0)|
    {
      allBombs := NumberRow(a, y, bs, allBombs);
    }
    assert CountedBefore(bs, height, 0) == bs;
  }

  /** The grid `build` produces, as a map. */
  ghost function BuiltGrid(bs: set<Pos>, height: nat, width: nat): Grid
  {
    map y, x | 0 <= y < height && 0 <= x < width :: (y, x) := BuiltCell(bs, height, width, (y, x), true)
  }

  /** A freshly built grid is well formed for its bombs and carries no flag. */
  lemma BuiltGridWellFormed(bs: set<Pos>, height: nat, width: nat)
    requires forall q :: q in bs ==> InGrid(height, width, q)
    ensures WellFormed(BuiltGrid(bs, height, width), height, width, bs)
    ensures FlaggedSet(BuiltGrid(bs, height, width)) == {}
  {
  }

  class Board {
    const height: nat
    const width: nat
    /** The grid, indexed [y, x]. */
    const cells: array2<Cell>
    /** The bomb layout drawn when the board was built; it never changes. */
    ghost const bombs: set<Pos>
    var isGameOver: bool
    /** The flag budget shown as "Bombs:", seeded with the number of bombs. */
    var numOfBombs: int
    /** The contents of `cells` as a map, kept in step with every write. */
    ghost var grid: Grid

    /** `grid` covers the height x width positions and mirrors `cells`. */
    ghost predicate Linked()
      reads this, cells
    {
      && cells.Length0 == height && cells.Length1 == width
      && (forall p :: p in grid <==> InGrid(height, width, p))
      && (forall p {:trigger cells[p.0, p.1]} {:trigger grid[p]} :: p in grid ==> cells[p.0, p.1] == grid[p])
    }

    /**
     * The board invariant: the grid is well formed for the bombs it was
     * built with, and the flag budget plus the flags on the board is the
     * number of bombs, with the budget never negative.
     */
    ghost predicate Valid()
      reads this, cells
    {
      && Linked()
      && WellFormed(grid, height, width, bombs)
      && 0 <= numOfBombs && numOfBombs + |FlaggedSet(grid)| == |bombs|
    }

    /** The write `cells[y][x] = c`, mirrored in `grid`. */
    method SetCell(p: Pos, c: Cell)
      requires Linked() && p in grid
      modifies this`grid, cells
      ensures Linked()
      ensures grid == old(grid)[p := c]
    {
      cells[p.0, p.1] := c;
      grid := grid[p := c];
    }

    /** The cells that are still covered; each reveal step takes one away. */
    ghost function Uncleared(): set<Pos>
      reads this
    {
      UnclearedOf(grid)
    }

    /**
     * Installs a freshly built grid (the state updates at the end of
     * `build`): the game is not over and the flag budget is the number of
     * bombs. A restart builds a new board the same way.
     */
    constructor (height: nat, width: nat, layout: seq<seq<bool>>)
      requires |layout| == height
      requires forall y :: 0 <= y < height ==> |layout[y]| == width
      ensures Valid() && fresh(cells)
      ensures this.height == height && this.width == width
      ensures forall p {:trigger grid[p]} :: p in grid ==> (p in bombs <==> layout[p.0][p.1])
      ensures forall p :: p in grid ==> !grid[p].isCleared && !grid[p].isFlagged && !grid[p].isWrong
      ensures !isGameOver && numOfBombs == |bombs|
    {
      var a, allBombs, bs := Build(height, width, layout);
      this.height := height;
      this.width := width;
      cells := a;
      bombs := bs;
      grid := BuiltGrid(bs, height, width);
      numOfBombs := allBombs;
      isGameOver := false;
      new;
      BuiltGridWellFormed(bs, height, width);
    }

    /**
     * `floodClear`: clear p unless it is flagged and, when its number is
     * zero, flood into every neighbour that is not yet cleared. Only called
     * on safe cells. It terminates because every nested call is made on a
     * cell that is not yet cleared, so the set of uncleared cells shrinks
     * from one call to the next.
     */
    method FloodClear(p: Pos) returns (ghost visited: seq<Pos>)
      requires Valid() && p in grid && p !in bombs
      modifies this`grid, cells
      decreases Uncleared(), if grid[p].isCleared then 2 else 0, 0
      ensures Valid()
      ensures Revealed(old(grid), grid, {p}, visited)
    {
      var c := cells[p.0, p.1];
      if c.isFlagged {
        RevealFlagged(grid, p);
        visited := [];
        return;
      }
      RevealCell(grid, p);
      c := c.(isCleared := true);
      SetCell(p, c);
      visited := [p];
      RevealedKeepsBoard(old(grid), grid, height, width, bombs, {p}, visited);
      if c.number == Some(0) {
        var ns := Neighbours(height, width, p);
        FloodStart(old(grid), p, ns);
        visited := FloodNeighbours(old(grid), p, visited, ns);
        FloodDone(old(grid), grid, p, visited, ns);
      }
    }

    /**
     * The `forEveryCellNeighbour` pass of `floodClear(p)`: every neighbour
     * that is not yet cleared is flood-cleared in turn. `g0` is the grid
     * before `floodClear(p)` began and `done` the cells it has cleared so far.
     */
    method FloodNeighbours(ghost g0: Grid, p: Pos, ghost done: seq<Pos>, ns: seq<Pos>)
        returns (ghost visited: seq<Pos>)
      requires Valid() && FloodLoop(g0, grid, p, done, ns, 0)
      requires forall k :: 0 <= k < |ns| ==> InGrid(height, width, ns[k]) && Adjacent(p, ns[k])
      modifies this`grid, cells
      decreases Uncleared(), 1, 1
      ensures Valid() && FloodLoop(g0, grid, p, visited, ns, |ns|)
    {
      visited := done;
      for i := 0 to |ns|
        invariant Valid() && FloodLoop(g0, grid, p, visited, ns, i)
        invariant Uncleared() <= old(Uncleared())
      {
        visited := FloodOne(g0, p, visited, ns, i);
      }
    }

    /** The callback of that pass for neighbour `ns[i]`: flood-clear it unless it is already cleared. */
    method FloodOne(ghost g0: Grid, p: Pos, ghost done: seq<Pos>, ns: seq<Pos>, i: nat)
        returns (ghost visited: seq<Pos>)
      requires Valid() && FloodLoop(g0, grid, p, done, ns, i) && i < |ns|
      requires InGrid(height, width, ns[i]) && Adjacent(p, ns[i])
      modifies this`grid, cells
      decreases Uncleared(), 1, 0
      ensures Valid() && FloodLoop(g0, grid, p, visited, ns, i + 1)
      ensures Uncleared() <= old(Uncleared())
    {
      var q := ns[i];
      visited := done;
      if !cells[q.0, q.1].isCleared {
        SpawnedIsSafe(grid, height, width, bombs, p, q);
        ghost var sub: seq<Pos>;
        sub := FloodClear(q);
        FloodStep(g0, old(grid), grid, p, done, ns, i, sub);
        GrownUncleared(old(grid), grid);
        visited := done + sub;
      } else {
        FloodSkip(g0, grid, p, done, ns, i);
      }
    }

    /**
     * `clearCell`: a bomb is marked wrong and ends the game without clearing
     * anything; any other cell is flood-cleared. It does not look at the
     * game-over flag.
     */
    method ClearCell(p: Pos) returns (ghost visited: seq<Pos>)
      requires Valid() && p in grid
      modifies this, cells
      ensures Valid()
      ensures Revealed(old(grid), grid, {p}, visited)
      ensures isGameOver == (old(isGameOver) || p in bombs)
      ensures numOfBombs == old(numOfBombs)
      ensures p in bombs ==> visited == [] && grid == old(grid)[p := old(grid)[p].(isWrong := true)]
    {
      if cells[p.0, p.1].isBomb {
        var c := cells[p.0, p.1].(isWrong := true);
        SetCell(p, c);
        isGameOver := true;
        visited := [];
        assert Partial(old(grid), grid, {p}, visited);
        RevealedKeepsBoard(old(grid), grid, height, width, bombs, {p}, visited);
        return;
      }
      visited := FloodClear(p);
    }

    /** The first neighbour loop of the chord rule: count the flags around p. */
    method CountFlaggedNeighbours(p: Pos) returns (flags: nat)
      requires Valid() && p in grid
      ensures flags == FlagsAround(grid, p)
    {
      var ns := Neighbours(height, width, p);
      flags := 0;
      for i := 0 to |ns|
        invariant flags == CountIn(ns[..i], FlaggedSet(grid))
      {
        CountInStep(ns, i, FlaggedSet(grid));
        if cells[ns[i].0, ns[i].1].isFlagged {
          flags := flags + 1;
        }
      }
      assert ns[..|ns|] == ns;
      FlagsAroundCount(grid, height, width, p);
    }

    /**
     * The left-click handler. Ignored once the game is over, on a flagged
     * cell, and on a cleared cell whose number is not positive. An uncleared
     * cell is revealed with `clearCell`. A cleared numbered cell whose
     * flagged-neighbour count equals its number has `clearCell` applied to
     * every unflagged neighbour (the chord); with any other count nothing
     * happens.
     */
    method LeftClick(p: Pos) returns (ghost visited: seq<Pos>)
      requires Valid() && p in grid
      modifies this, cells
      ensures Valid()
      ensures numOfBombs == old(numOfBombs)
      ensures old(isGameOver) || old(grid[p]).isFlagged
              || (old(grid[p]).isCleared && !HasPositiveNumber(old(grid[p])))
              ==> grid == old(grid) && isGameOver == old(isGameOver)
      ensures !old(isGameOver) && !old(grid[p]).isFlagged && !old(grid[p]).isCleared
              ==> Revealed(old(grid), grid, {p}, visited) && isGameOver == (p in bombs)
      ensures !old(isGameOver) && !old(grid[p]).isFlagged && old(grid[p]).isCleared
              && HasPositiveNumber(old(grid[p])) && FlagsAround(old(grid), p) != old(grid[p]).number.value
              ==> grid == old(grid) && isGameOver == old(isGameOver)
      ensures !old(isGameOver) && !old(grid[p]).isFlagged && old(grid[p]).isCleared
              && HasPositiveNumber(old(grid[p])) && FlagsAround(old(grid), p) == old(grid[p]).number.value
              ==> Revealed(old(grid), grid, UnflaggedAround(old(grid), p), visited)
                  && isGameOver == (UnflaggedAround(old(grid), p) * bombs != {})
    {
      visited := [];
      if isGameOver {
        return;
      }
      var c := cells[p.0, p.1];
      if c.isFlagged {
        return;
      }
      if !c.isCleared {
        visited := ClearCell(p);
        return;
      }
      if !HasPositiveNumber(c) {
        return;
      }
      var flags := CountFlaggedNeighbours(p);
      if flags != c.number.value {
        return;
      }
      visited := Chord(p);
    }

    /** The chord: `clearCell` on every unflagged neighbour of p, in neighbour order. */
    method Chord(p: Pos) returns (ghost visited: seq<Pos>)
      requires Valid() && !isGameOver
      modifies this, cells
      ensures Valid() && numOfBombs == old(numOfBombs)
      ensures Revealed(old(grid), grid, UnflaggedAround(old(grid), p), visited)
      ensures isGameOver == (UnflaggedAround(old(grid), p) * bombs != {})
    {
      var ns := Neighbours(height, width, p);
      ghost var roots: set<Pos> := {};
      visited := [];
      RevealedNothing(grid);
      for i := 0 to |ns|
        invariant Valid() && numOfBombs == old(numOfBombs)
        invariant Revealed(old(grid), grid, roots, visited)
        invariant roots == ChordRoots(old(grid), ns, i)
        invariant isGameOver == (roots * bombs != {})
      {
        ChordRootsStep(old(grid), ns, i);
        roots, visited := ChordOne(old(grid), roots, visited, ns[i]);
      }
      ChordRootsAll(old(grid), p, ns);
    }

    /** The chord's callback for one neighbour q: `clearCell(q)` unless q is flagged. */
    method ChordOne(ghost g0: Grid, ghost roots: set<Pos>, ghost done: seq<Pos>, q: Pos)
        returns (ghost roots': set<Pos>, ghost visited: seq<Pos>)
      requires Valid() && q in grid && Revealed(g0, grid, roots, done)
      modifies this, cells
      ensures Valid() && numOfBombs == old(numOfBombs)
      ensures roots' == roots + (if q in g0 && !g0[q].isFlagged then {q} else {})
      ensures Revealed(g0, grid, roots', visited)
      ensures isGameOver == (old(isGameOver) || (q in g0 && !g0[q].isFlagged && q in bombs))
    {
      roots', visited := roots, done;
      if !cells[q.0, q.1].isFlagged {
        ghost var v: seq<Pos>;
        v := ClearCell(q);
        RevealedCompose(g0, old(grid), grid, roots, done, {q}, v);
        roots' := roots + {q};
        visited := done + v;
      }
    }

    /**
     * The right-click handler: ignored once the game is over, on a cleared
     * cell, or while the budget is zero; otherwise it flips the flag and
     * moves the budget (down when placing, up when removing).
     */
    method RightClick(p: Pos)
      requires Valid() && p in grid
      modifies this, cells
      ensures Valid()
      ensures (grid, numOfBombs) == ToggleFlag(old(grid), old(numOfBombs), old(isGameOver), p)
      ensures isGameOver == old(isGameOver)
    {
      if isGameOver {
        return;
      }
      var c := cells[p.0, p.1];
      if c.isCleared {
        return;
      }
      if numOfBombs == 0 {
        return;
      }
      ToggleFlagKeepsBudget(grid, height, width, bombs, numOfBombs, isGameOver, p);
      c := c.(isFlagged := !c.isFlagged);
      SetCell(p, c);
      if c.isFlagged {
        numOfBombs := numOfBombs - 1;
      } else {
        numOfBombs := numOfBombs + 1;
      }
    }

    /** The win loop of the render function: true exactly when every safe cell is cleared. */
    method CheckWin() returns (win: bool)
      requires Valid()
      ensures win == Won(grid)
    {
      win := true;
      ghost var missing: Pos := (0, 0);
      for y := 0 to height
        invariant win ==> forall q :: q in grid && Before(q, y, 0) && !grid[q].isBomb ==> grid[q].isCleared
        invariant !win ==> missing in grid && !grid[missing].isBomb && !grid[missing].isCleared
      {
        for x := 0 to width
          invariant win ==> forall q :: q in grid && Before(q, y, x) && !grid[q].isBomb ==> grid[q].isCleared
          invariant !win ==> missing in grid && !grid[missing].isBomb && !grid[missing].isCleared
        {
          if !cells[y, x].isBomb && !cells[y, x].isCleared {
            win := false;
            missing := (y, x);
          }
        }
      }
    }

    /** The render pass at game over: every flag on a safe cell is marked wrong. */
    method MarkWrongFlagsPass()
      requires Valid()
      modifies this`grid, cells
      ensures Valid()
      ensures grid == MarkWrongFlags(old(grid), isGameOver)
    {
      MarkWrongFlagsKeepsBoard(grid, height, width, bombs, isGameOver);
      MarkWrongCells();
      grid := MarkWrongFlags(grid, isGameOver);
    }

    /** The nested loop of that pass, over the cells row by row. */
    method MarkWrongCells()
      requires Linked()
      modifies cells
      ensures forall p {:trigger cells[p.0, p.1]} :: p in grid ==> cells[p.0, p.1] == MarkWrong(grid[p], isGameOver)
    {
      for y := 0 to height
        invariant forall i, j {:trigger cells[i, j]} :: 0 <= i < height && 0 <= j < width ==>
                    cells[i, j] == if Before((i, j), y, 0) then MarkWrong(grid[(i, j)], isGameOver) else grid[(i, j)]
      {
        for x := 0 to width
          invariant forall i, j {:trigger cells[i, j]} :: 0 <= i < height && 0 <= j < width ==>
                      cells[i, j] == if Before((i, j), y, x) then MarkWrong(grid[(i, j)], isGameOver) else grid[(i, j)]
        {
          var c := cells[y, x];
          if isGameOver && c.isFlagged && !c.isBomb {
            cells[y, x] := c.(isWrong := true);
          }
          forall i, j | 0 <= i < height && 0 <= j < width && (i, j) != (y, x)
            ensures cells[i, j] == if Before((i, j), y, x + 1) then MarkWrong(grid[(i, j)], isGameOver) else grid[(i, j)]
          {
            assert Before((i, j), y, x + 1) == Before((i, j), y, x);
          }
        }
      }
    }
  }
}

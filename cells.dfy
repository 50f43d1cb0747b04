/**
 * The cell record of the board, the board as a map from positions to
 * cells, the invariant every board of a game satisfies, and the pure
 * transitions of the right-click handler and of the game-over wrong-flag
 * marking.
 */
module Cells {
  import opened Geometry

  datatype Option<T> = None | Some(value: T)

  /**
   * One grid position. `number` is the count of adjacent bombs for a safe
   * cell and null (None) for a bomb; `isWrong` marks the bomb that was hit
   * and, once the game is over, every flag placed on a safe cell.
   */
  datatype Cell = Cell(isBomb: bool, isCleared: bool, isFlagged: bool, number: Option<nat>, isWrong: bool)

  /** The script's `cell.number > 0`, which is false for a null number. */
  predicate HasPositiveNumber(c: Cell)
  {
    c.number.Some? && c.number.value > 0
  }

  /** The script's `c.number === 0`. */
  predicate IsZero(c: Cell)
  {
    c.number == Some(0)
  }

  /** The whole board, indexed by position. */
  type Grid = map<Pos, Cell>

  function FlaggedSet(g: Grid): set<Pos>
  {
    set p | p in g && g[p].isFlagged
  }

  function ClearedSet(g: Grid): set<Pos>
  {
    set p | p in g && g[p].isCleared
  }

  /**
   * What holds of a board throughout one game: it covers exactly the
   * height x width positions, its bombs are `bombs`, every safe cell holds
   * its adjacent-bomb count and every bomb a null number, no cell is both
   * cleared and flagged, and no bomb is ever cleared.
   */
  ghost predicate WellFormed(g: Grid, height: nat, width: nat, bombs: set<Pos>)
  {
    && (forall p :: p in g <==> InGrid(height, width, p))
    && bombs <= g.Keys
    && (forall p {:trigger g[p]} :: p in g ==> (g[p].isBomb <==> p in bombs))
    && (forall p {:trigger g[p]} :: p in g ==>
          g[p].number == if p in bombs then None else Some(AdjacentBombs(bombs, height, width, p)))
    && (forall p {:trigger g[p]} :: p in g ==> !(g[p].isCleared && g[p].isFlagged))
    && (forall p {:trigger g[p]} :: p in g && g[p].isCleared ==> !g[p].isBomb)
  }

  /** Number of flagged cells of g adjacent to p. */
  ghost function FlagsAround(g: Grid, p: Pos): nat
  {
    |set q | q in g && Adjacent(p, q) && g[q].isFlagged|
  }

  /** Counting the flagged cells along the neighbour list of p gives the flags around p. */
  lemma FlagsAroundCount(g: Grid, height: nat, width: nat, p: Pos)
    requires forall q :: q in g <==> InGrid(height, width, q)
    ensures CountIn(Neighbours(height, width, p), FlaggedSet(g)) == FlagsAround(g, p)
  {
    NeighbourCount(FlaggedSet(g), height, width, p);
    assert (set q | q in FlaggedSet(g) && InGrid(height, width, q) && Adjacent(p, q))
        == set q | q in g && Adjacent(p, q) && g[q].isFlagged;
  }

  /** The win test of the render loop: every cell that is not a bomb is cleared. */
  predicate Won(g: Grid)
  {
    forall p :: p in g && !g[p].isBomb ==> g[p].isCleared
  }

  /** On a board of a game, winning means the cleared cells are exactly the safe cells. */
  lemma WonIffSafeCellsCleared(g: Grid, height: nat, width: nat, bombs: set<Pos>)
    requires WellFormed(g, height, width, bombs)
    ensures Won(g) <==> ClearedSet(g) == g.Keys - bombs
  {
    if Won(g) {
      assert ClearedSet(g) == g.Keys - bombs;
    }
    if ClearedSet(g) == g.Keys - bombs {
      forall p | p in g && !g[p].isBomb ensures g[p].isCleared {
        assert p in g.Keys - bombs;
      }
    }
  }

  /**
   * The right-click handler as a transition on (board, flag budget): it is
   * rejected when the game is over, when the cell is cleared, or when the
   * budget is zero (whether the click would set or remove the flag);
   * otherwise the flag flips and the budget moves the other way.
   */
  function ToggleFlag(g: Grid, budget: int, gameOver: bool, p: Pos): (Grid, int)
    requires p in g
  {
    if gameOver || g[p].isCleared || budget == 0 then (g, budget)
    else
      var flagged := !g[p].isFlagged;
      (g[p := g[p].(isFlagged := flagged)], if flagged then budget - 1 else budget + 1)
  }

  /** Flipping one flag adds that position to, or removes it from, the flagged set. */
  lemma FlipFlagSet(g: Grid, p: Pos)
    requires p in g
    ensures var g' := g[p := g[p].(isFlagged := !g[p].isFlagged)];
            |FlaggedSet(g')| == if g[p].isFlagged then |FlaggedSet(g)| - 1 else |FlaggedSet(g)| + 1
  {
    var g' := g[p := g[p].(isFlagged := !g[p].isFlagged)];
    if g[p].isFlagged {
      assert FlaggedSet(g') == FlaggedSet(g) - {p};
    } else {
      assert FlaggedSet(g') == FlaggedSet(g) + {p};
    }
  }

  /**
   * The right-click handler keeps the board well formed, keeps the budget
   * non-negative, and keeps budget + number of flags equal to the bomb
   * total it was seeded with.
   */
  lemma ToggleFlagKeepsBudget(g: Grid, height: nat, width: nat, bombs: set<Pos>, budget: int, gameOver: bool, p: Pos)
    requires WellFormed(g, height, width, bombs) && p in g
    requires 0 <= budget && budget + |FlaggedSet(g)| == |bombs|
    ensures var (g', budget') := ToggleFlag(g, budget, gameOver, p);
            && WellFormed(g', height, width, bombs)
            && 0 <= budget' && budget' + |FlaggedSet(g')| == |bombs|
  {
    if !(gameOver || g[p].isCleared || budget == 0) {
      FlipFlagSet(g, p);
    }
  }

  /** When the click is accepted, a second identical click undoes it as long as the budget has not reached zero in between. */
  lemma ToggleTwiceRestores(g: Grid, budget: int, p: Pos)
    requires p in g && !g[p].isCleared
    requires 0 < budget && (g[p].isFlagged || 1 < budget)
    ensures var (g1, b1) := ToggleFlag(g, budget, false, p);
            ToggleFlag(g1, b1, false, p) == (g, budget)
  {
    var (g1, b1) := ToggleFlag(g, budget, false, p);
    assert g1[p].(isFlagged := !g1[p].isFlagged) == g[p];
    assert g1[p := g1[p].(isFlagged := !g1[p].isFlagged)] == g;
  }

  /**
   * The budget check also rejects removing a flag: with one bomb and the
   * budget at one, flagging a cell and right-clicking it again leaves the
   * flag in place and the budget at zero.
   */
  lemma FlagStuckAtZeroBudget()
    ensures var g := map[(0, 0) := Cell(true, false, false, None, false)];
            var (g1, b1) := ToggleFlag(g, 1, false, (0, 0));
            var (g2, b2) := ToggleFlag(g1, b1, false, (0, 0));
            g2[(0, 0)].isFlagged && b2 == 0
  {
  }

  /** The right-click handler with the budget check applied only to placing a flag. */
  function ToggleFlagIntended(g: Grid, budget: int, gameOver: bool, p: Pos): (Grid, int)
    requires p in g
  {
    if gameOver || g[p].isCleared || (budget == 0 && !g[p].isFlagged) then (g, budget)
    else
      var flagged := !g[p].isFlagged;
      (g[p := g[p].(isFlagged := flagged)], if flagged then budget - 1 else budget + 1)
  }

  /** With the intended check, two right clicks on an uncleared cell always restore board and budget. */
  lemma IntendedToggleTwiceRestores(g: Grid, budget: nat, p: Pos)
    requires p in g && !g[p].isCleared
    ensures var (g1, b1) := ToggleFlagIntended(g, budget, false, p);
            ToggleFlagIntended(g1, b1, false, p) == (g, budget)
  {
    var (g1, b1) := ToggleFlagIntended(g, budget, false, p);
    if !(budget == 0 && !g[p].isFlagged) {
      assert g1[p].(isFlagged := !g1[p].isFlagged) == g[p];
      assert g1[p := g1[p].(isFlagged := !g1[p].isFlagged)] == g;
    }
  }

  /** The intended handler keeps the same budget invariant as the one in the script. */
  lemma IntendedToggleKeepsBudget(g: Grid, height: nat, width: nat, bombs: set<Pos>, budget: int, gameOver: bool, p: Pos)
    requires WellFormed(g, height, width, bombs) && p in g
    requires 0 <= budget && budget + |FlaggedSet(g)| == |bombs|
    ensures var (g', budget') := ToggleFlagIntended(g, budget, gameOver, p);
            && WellFormed(g', height, width, bombs)
            && 0 <= budget' && budget' + |FlaggedSet(g')| == |bombs|
  {
    if !(gameOver || g[p].isCleared || (budget == 0 && !g[p].isFlagged)) {
      FlipFlagSet(g, p);
    }
  }

  /** The two handlers differ exactly on removing a flag while the budget is zero. */
  lemma ToggleFlagDiffersOnlyAtZero(g: Grid, budget: int, gameOver: bool, p: Pos)
    requires p in g
    ensures ToggleFlag(g, budget, gameOver, p) != ToggleFlagIntended(g, budget, gameOver, p)
            <==> !gameOver && !g[p].isCleared && budget == 0 && g[p].isFlagged
  {
    if !gameOver && !g[p].isCleared && budget == 0 && g[p].isFlagged {
      assert ToggleFlagIntended(g, budget, gameOver, p).1 == 1;
    }
  }

  /** One cell of the game-over pass: a flag on a safe cell gets `isWrong`. */
  function MarkWrong(c: Cell, gameOver: bool): Cell
  {
    if gameOver && c.isFlagged && !c.isBomb then c.(isWrong := true) else c
  }

  /** The game-over pass of the render loop: every flag on a safe cell gets `isWrong`. */
  function MarkWrongFlags(g: Grid, gameOver: bool): (r: Grid)
    ensures r.Keys == g.Keys
    ensures gameOver ==> forall p :: p in r && r[p].isFlagged && !r[p].isBomb ==> r[p].isWrong
    ensures forall p :: p in g ==> r[p].(isWrong := g[p].isWrong) == g[p] && (g[p].isWrong ==> r[p].isWrong)
    ensures forall p :: p in g ==> (r[p].isWrong <==> g[p].isWrong || (gameOver && g[p].isFlagged && !g[p].isBomb))
    ensures !gameOver ==> r == g
  {
    map p | p in g :: MarkWrong(g[p], gameOver)
  }

  /** Marking wrong flags changes no flag and keeps the board well formed; marking twice is marking once. */
  lemma MarkWrongFlagsKeepsBoard(g: Grid, height: nat, width: nat, bombs: set<Pos>, gameOver: bool)
    requires WellFormed(g, height, width, bombs)
    ensures WellFormed(MarkWrongFlags(g, gameOver), height, width, bombs)
    ensures FlaggedSet(MarkWrongFlags(g, gameOver)) == FlaggedSet(g)
    ensures MarkWrongFlags(MarkWrongFlags(g, gameOver), gameOver) == MarkWrongFlags(g, gameOver)
  {
  }
}

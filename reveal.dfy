/**
 * What a reveal does to the board, stated as a relation between the board
 * before and after.
 *
 * A reveal starts from a set of `roots`: the cells `clearCell` is called on.
 * That is one cell for a plain left click and every unflagged neighbour for
 * a chord. `visited` lists, in order, the cells `floodClear` cleared.
 * Clearing spreads from a cell only when its number is zero. The relation
 * pins the result down completely (see RevealedDeterministic).
 */
module Reveal {
  import opened Geometry
  import opened Cells

  /** Same positions, same bombs, flags and numbers; cleared cells stay cleared. */
  ghost predicate Grown(before: Grid, after: Grid)
  {
    && after.Keys == before.Keys
    && forall p :: p in before ==>
         && after[p].isBomb == before[p].isBomb
         && after[p].isFlagged == before[p].isFlagged
         && after[p].number == before[p].number
         && (before[p].isCleared ==> after[p].isCleared)
  }

  /** Clearing a reaches b: a has number zero and b is one of its neighbours. */
  ghost predicate Spawns(g: Grid, a: Pos, b: Pos)
  {
    a in g && IsZero(g[a]) && Adjacent(a, b)
  }

  /**
   * Every visited cell is on the board, unflagged and safe, and is either a
   * root or was uncleared and is reached from an earlier visited zero cell.
   */
  ghost predicate Traced(g: Grid, roots: set<Pos>, visited: seq<Pos>)
  {
    forall k :: 0 <= k < |visited| ==>
      && visited[k] in g
      && !g[visited[k]].isFlagged
      && !g[visited[k]].isBomb
      && (|| visited[k] in roots
          || (!g[visited[k]].isCleared && exists j :: 0 <= j < k && Spawns(g, visited[j], visited[k])))
  }

  /** Every in-grid neighbour of q is flagged or cleared. */
  ghost predicate Settled(g: Grid, q: Pos)
  {
    forall r :: r in g && Adjacent(q, r) ==> g[r].isFlagged || g[r].isCleared
  }

  /** Every visited zero cell from index `lo` on has all its unflagged neighbours cleared. */
  ghost predicate ClosedFrom(g: Grid, visited: seq<Pos>, lo: nat)
  {
    forall k :: lo <= k < |visited| && visited[k] in g && IsZero(g[visited[k]]) ==> Settled(g, visited[k])
  }

  /** Revealed without the closure condition: the state in the middle of a flood. */
  ghost predicate Partial(before: Grid, after: Grid, roots: set<Pos>, visited: seq<Pos>)
  {
    && Grown(before, after)
    && (forall p :: p in before ==>
          after[p].isWrong == (before[p].isWrong || (p in roots && before[p].isBomb)))
    && (forall p :: p in before ==> (after[p].isCleared <==> before[p].isCleared || p in visited))
    && Traced(before, roots, visited)
    && (forall r :: r in roots && r in before && !before[r].isFlagged && !before[r].isBomb ==> r in visited)
  }

  /**
   * `after` is `before` with `clearCell` applied to every root. A bomb root is
   * marked wrong and nothing is cleared for it. An unflagged safe root is
   * flood-cleared. The cells cleared are exactly the visited ones. Each of
   * them is safe and unflagged, and traces back to a root through zero
   * cells. Every visited zero cell ends up with all its unflagged neighbours
   * cleared.
   */
  ghost predicate Revealed(before: Grid, after: Grid, roots: set<Pos>, visited: seq<Pos>)
  {
    Partial(before, after, roots, visited) && ClosedFrom(after, visited, 0)
  }

  lemma SettledPersists(g1: Grid, g2: Grid, q: Pos)
    requires Grown(g1, g2) && Settled(g1, q)
    ensures Settled(g2, q)
  {
  }

  /** Revealing from no roots changes nothing. */
  lemma RevealedNothing(g: Grid)
    ensures Revealed(g, g, {}, [])
  {
  }

  /** Two reveals in a row are one reveal from the union of their roots. */
  lemma RevealedCompose(g0: Grid, g1: Grid, g2: Grid, r1: set<Pos>, v1: seq<Pos>, r2: set<Pos>, v2: seq<Pos>)
    requires Revealed(g0, g1, r1, v1) && Revealed(g1, g2, r2, v2)
    ensures Revealed(g0, g2, r1 + r2, v1 + v2)
  {
    var v := v1 + v2;
    forall k | 0 <= k < |v|
      ensures v[k] in g0 && !g0[v[k]].isFlagged && !g0[v[k]].isBomb
      ensures v[k] in r1 + r2 || (!g0[v[k]].isCleared && exists j :: 0 <= j < k && Spawns(g0, v[j], v[k]))
    {
      if k < |v1| {
        assert v[k] == v1[k];
        if v1[k] !in r1 {
          var j :| 0 <= j < k && Spawns(g0, v1[j], v1[k]);
          assert v[j] == v1[j];
        }
      } else {
        var k2 := k - |v1|;
        assert v[k] == v2[k2];
        if v2[k2] !in r2 {
          var j :| 0 <= j < k2 && Spawns(g1, v2[j], v2[k2]);
          assert v[j + |v1|] == v2[j];
          assert Spawns(g0, v[j + |v1|], v[k]);
        }
      }
    }
    forall k | 0 <= k < |v| && v[k] in g2 && IsZero(g2[v[k]]) ensures Settled(g2, v[k]) {
      if k < |v1| {
        assert v[k] == v1[k];
        SettledPersists(g1, g2, v[k]);
      } else {
        assert v[k] == v2[k - |v1|];
      }
    }
  }

  /**
   * One step of `floodClear`: a flood started from an uncleared safe
   * neighbour q of an earlier visited zero cell extends the partial reveal.
   * q is not itself a root, and cells already closed stay closed.
   */
  lemma FloodExtend(g0: Grid, g1: Grid, g2: Grid, roots: set<Pos>, v: seq<Pos>, lo: nat,
                    j: nat, q: Pos, w: seq<Pos>)
    requires Partial(g0, g1, roots, v) && ClosedFrom(g1, v, lo) && lo <= |v|
    requires j < |v| && Spawns(g0, v[j], q)
    requires q in g1 && !g1[q].isCleared && !g1[q].isBomb
    requires Revealed(g1, g2, {q}, w)
    ensures Partial(g0, g2, roots, v + w) && ClosedFrom(g2, v + w, lo)
  {
    var u := v + w;
    forall k | 0 <= k < |u|
      ensures u[k] in g0 && !g0[u[k]].isFlagged && !g0[u[k]].isBomb
      ensures u[k] in roots || (!g0[u[k]].isCleared && exists i :: 0 <= i < k && Spawns(g0, u[i], u[k]))
    {
      if k < |v| {
        assert u[k] == v[k];
        if v[k] !in roots {
          var i :| 0 <= i < k && Spawns(g0, v[i], v[k]);
          assert u[i] == v[i];
        }
      } else {
        var k2 := k - |v|;
        assert u[k] == w[k2];
        if w[k2] == q {
          assert u[j] == v[j];
          assert Spawns(g0, u[j], u[k]);
        } else {
          var i :| 0 <= i < k2 && Spawns(g1, w[i], w[k2]);
          assert u[i + |v|] == w[i];
          assert Spawns(g0, u[i + |v|], u[k]);
        }
      }
    }
    forall k | lo <= k < |u| && u[k] in g2 && IsZero(g2[u[k]]) ensures Settled(g2, u[k]) {
      if k < |v| {
        assert u[k] == v[k];
        SettledPersists(g1, g2, u[k]);
      } else {
        assert u[k] == w[k - |v|];
      }
    }
  }

  /** `floodClear` on a flagged cell does nothing. */
  lemma RevealFlagged(g: Grid, p: Pos)
    requires p in g && g[p].isFlagged && !g[p].isBomb
    ensures Revealed(g, g, {p}, [])
  {
  }

  /** Clearing an unflagged safe cell is a partial reveal from it, and a full one unless its number is zero. */
  lemma RevealCell(g0: Grid, p: Pos)
    requires p in g0 && !g0[p].isFlagged && !g0[p].isBomb
    ensures Partial(g0, g0[p := g0[p].(isCleared := true)], {p}, [p])
    ensures !IsZero(g0[p]) ==> Revealed(g0, g0[p := g0[p].(isCleared := true)], {p}, [p])
  {
  }

  /** The cells of `g` that are not cleared. */
  ghost function UnclearedOf(g: Grid): set<Pos>
  {
    set q | q in g && !g[q].isCleared
  }

  lemma GrownUncleared(g1: Grid, g2: Grid)
    requires Grown(g1, g2)
    ensures UnclearedOf(g2) <= UnclearedOf(g1)
  {
  }

  /**
   * The state of `floodClear(p)` after its neighbour loop has handled the
   * first i neighbours `ns[..i]`: p has been cleared and has number zero,
   * the partial reveal from p holds with every visited cell after p closed,
   * each handled neighbour is flagged or cleared, and p and every other
   * cell cleared so far are no longer uncleared.
   */
  ghost predicate FloodLoop(g0: Grid, g: Grid, p: Pos, visited: seq<Pos>, ns: seq<Pos>, i: nat)
  {
    && Partial(g0, g, {p}, visited) && ClosedFrom(g, visited, 1)
    && |visited| >= 1 && visited[0] == p && p in g && IsZero(g[p])
    && i <= |ns|
    && (forall k :: 0 <= k < i ==> ns[k] in g && (g[ns[k]].isFlagged || g[ns[k]].isCleared))
    && UnclearedOf(g) <= UnclearedOf(g0) - {p}
  }

  /** Clearing p itself starts the neighbour loop. */
  lemma FloodStart(g0: Grid, p: Pos, ns: seq<Pos>)
    requires p in g0 && !g0[p].isFlagged && !g0[p].isBomb && IsZero(g0[p])
    ensures FloodLoop(g0, g0[p := g0[p].(isCleared := true)], p, [p], ns, 0)
  {
    var g := g0[p := g0[p].(isCleared := true)];
    assert UnclearedOf(g) == UnclearedOf(g0) - {p};
  }

  /** A neighbour that is already cleared needs nothing. */
  lemma FloodSkip(g0: Grid, g: Grid, p: Pos, visited: seq<Pos>, ns: seq<Pos>, i: nat)
    requires FloodLoop(g0, g, p, visited, ns, i) && i < |ns|
    requires ns[i] in g && g[ns[i]].isCleared
    ensures FloodLoop(g0, g, p, visited, ns, i + 1)
  {
  }

  /** Neighbours handled before a reveal stay handled, and the root of the reveal is handled by it. */
  lemma HandledStay(g1: Grid, g2: Grid, ns: seq<Pos>, i: nat, w: seq<Pos>)
    requires i < |ns| && ns[i] in g1 && !g1[ns[i]].isBomb
    requires forall k :: 0 <= k < i ==> ns[k] in g1 && (g1[ns[k]].isFlagged || g1[ns[k]].isCleared)
    requires Partial(g1, g2, {ns[i]}, w)
    ensures forall k :: 0 <= k < i + 1 ==> ns[k] in g2 && (g2[ns[k]].isFlagged || g2[ns[k]].isCleared)
  {
  }

  /** An uncleared safe neighbour is flooded from, and the loop moves on. */
  lemma FloodStep(g0: Grid, g1: Grid, g2: Grid, p: Pos, visited: seq<Pos>, ns: seq<Pos>, i: nat, w: seq<Pos>)
    requires FloodLoop(g0, g1, p, visited, ns, i) && i < |ns|
    requires ns[i] in g1 && !g1[ns[i]].isCleared && !g1[ns[i]].isBomb && Adjacent(p, ns[i])
    requires Revealed(g1, g2, {ns[i]}, w)
    ensures FloodLoop(g0, g2, p, visited + w, ns, i + 1)
  {
    var q := ns[i];
    assert Spawns(g0, visited[0], q);
    FloodExtend(g0, g1, g2, {p}, visited, 1, 0, q, w);
    GrownUncleared(g1, g2);
    HandledStay(g1, g2, ns, i, w);
    assert (visited + w)[0] == p;
  }

  /** Once every neighbour is handled, p is settled and the flood from p is a full reveal. */
  lemma FloodDone(g0: Grid, g: Grid, p: Pos, visited: seq<Pos>, ns: seq<Pos>)
    requires FloodLoop(g0, g, p, visited, ns, |ns|)
    requires forall q :: q in g && Adjacent(p, q) ==> q in ns
    ensures Revealed(g0, g, {p}, visited)
  {
    forall r | r in g && Adjacent(p, r) ensures g[r].isFlagged || g[r].isCleared {
      var k :| 0 <= k < |ns| && ns[k] == r;
    }
    assert Settled(g, visited[0]);
  }

  /** The in-grid neighbours of p that carry no flag: the cells a chord on p reveals. */
  ghost function UnflaggedAround(g: Grid, p: Pos): set<Pos>
  {
    set q | q in g && Adjacent(p, q) && !g[q].isFlagged
  }

  /** The unflagged cells among the first i neighbours `ns[..i]`: the roots a chord has revealed so far. */
  ghost function ChordRoots(g: Grid, ns: seq<Pos>, i: nat): set<Pos>
    requires i <= |ns|
  {
    set q | q in ns[..i] && q in g && !g[q].isFlagged
  }

  lemma ChordRootsStep(g: Grid, ns: seq<Pos>, i: nat)
    requires i < |ns|
    ensures ChordRoots(g, ns, i + 1)
            == ChordRoots(g, ns, i) + (if ns[i] in g && !g[ns[i]].isFlagged then {ns[i]} else {})
  {
    assert ns[..i + 1] == ns[..i] + [ns[i]];
  }

  /** Over the whole neighbour list the chord's roots are the unflagged neighbours. */
  lemma ChordRootsAll(g: Grid, p: Pos, ns: seq<Pos>)
    requires forall q :: q in ns <==> q in g && Adjacent(p, q)
    ensures ChordRoots(g, ns, |ns|) == UnflaggedAround(g, p)
  {
    assert ns[..|ns|] == ns;
  }

  /** A cell visited by one reveal is visited by any other reveal from the same roots. */
  lemma {:induction false} VisitedByBoth(g0: Grid, g2: Grid, roots: set<Pos>, v1: seq<Pos>, v2: seq<Pos>, k: nat)
    requires Traced(g0, roots, v1) && Revealed(g0, g2, roots, v2)
    requires k < |v1|
    ensures v1[k] in v2
    decreases k
  {
    if v1[k] !in roots {
      var j :| 0 <= j < k && Spawns(g0, v1[j], v1[k]);
      VisitedByBoth(g0, g2, roots, v1, v2, j);
      var i :| 0 <= i < |v2| && v2[i] == v1[j];
      assert Settled(g2, v2[i]);
    }
  }

  /** The relation determines the board after a reveal: there is only one outcome. */
  lemma RevealedDeterministic(g0: Grid, g1: Grid, g2: Grid, roots: set<Pos>, v1: seq<Pos>, v2: seq<Pos>)
    requires Revealed(g0, g1, roots, v1) && Revealed(g0, g2, roots, v2)
    ensures g1 == g2
  {
    forall k | 0 <= k < |v1| ensures v1[k] in v2 {
      VisitedByBoth(g0, g2, roots, v1, v2, k);
    }
    forall k | 0 <= k < |v2| ensures v2[k] in v1 {
      VisitedByBoth(g0, g1, roots, v2, v1, k);
    }
    forall p | p in g1 ensures g1[p] == g2[p] {
      assert g1[p].isCleared == g2[p].isCleared;
    }
  }

  /** A reveal keeps the board well formed and changes no flag. */
  lemma RevealedKeepsBoard(g0: Grid, g1: Grid, height: nat, width: nat, bombs: set<Pos>, roots: set<Pos>, v: seq<Pos>)
    requires WellFormed(g0, height, width, bombs) && Partial(g0, g1, roots, v)
    ensures WellFormed(g1, height, width, bombs)
    ensures FlaggedSet(g1) == FlaggedSet(g0)
  {
    forall p | p in g1 && g1[p].isCleared && !g0[p].isCleared
      ensures !g1[p].isFlagged && !g1[p].isBomb
    {
      var k :| 0 <= k < |v| && v[k] == p;
    }
  }

  /** On a well-formed board, a cell reached from a zero cell is safe. */
  lemma SpawnedIsSafe(g: Grid, height: nat, width: nat, bombs: set<Pos>, a: Pos, b: Pos)
    requires WellFormed(g, height, width, bombs) && Spawns(g, a, b) && b in g
    ensures !g[b].isBomb
  {
    ZeroCountNoNeighbour(bombs, height, width, a, b);
  }
}

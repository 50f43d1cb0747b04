/**
 * Geometry of the Minesweeper board: positions, the 8-neighbourhood with
 * clipping at the grid edges, and counting over neighbour lists.
 *
 * A position is a pair (y, x): row first, column second, matching the
 * board's `cells[y][x]` layout.
 */
module Geometry {

  type Pos = (int, int)

  predicate InGrid(height: int, width: int, p: Pos)
  {
    0 <= p.0 < height && 0 <= p.1 < width
  }

  /** q is one of the (up to) eight cells around p: both offsets in {-1, 0, 1}, not p itself. */
  predicate Adjacent(p: Pos, q: Pos)
  {
    p != q && -1 <= q.0 - p.0 <= 1 && -1 <= q.1 - p.1 <= 1
  }

  /**
   * The offset (dy, dx) the bomb-counting loop of `build` looks at in its
   * k-th step: the column offset is the outer loop, the row offset the
   * inner one, both running -1, 0, 1.
   */
  function ScanOffset(k: int): Pos
  {
    if k < 3 then (k - 1, -1)
    else if k < 6 then (k - 4, 0)
    else (k - 7, 1)
  }

  lemma ScanOffsetAt(dy: int, dx: int)
    requires -1 <= dy <= 1 && -1 <= dx <= 1
    ensures ScanOffset(3 * (dx + 1) + (dy + 1)) == (dy, dx)
  {
  }

  /** The 3x3 window in scan order; the centre (0, 0) sits at index 4. */
  const Square: seq<Pos> :=
    [(-1, -1), (0, -1), (1, -1), (-1, 0), (0, 0), (1, 0), (-1, 1), (0, 1), (1, 1)]

  lemma SquareIsScan(k: nat)
    requires k < |Square|
    ensures Square[k] == ScanOffset(k)
  {
  }

  /** The same window without its centre: the order `forEveryCellNeighbour` visits neighbours in. */
  const Deltas: seq<Pos> := Square[..4] + Square[5..]

  /** The in-grid targets of the offsets `ds` applied to p, in order. */
  function Shift(height: int, width: int, p: Pos, ds: seq<Pos>): seq<Pos>
  {
    if ds == [] then []
    else
      var d := ds[|ds| - 1];
      var q := (p.0 + d.0, p.1 + d.1);
      Shift(height, width, p, ds[..|ds| - 1]) + (if InGrid(height, width, q) then [q] else [])
  }

  predicate Distinct(s: seq<Pos>)
  {
    forall i, j :: 0 <= i < j < |s| ==> s[i] != s[j]
  }

  /** Number of elements of `qs` (counted with repetition) that lie in `s`. */
  function CountIn(qs: seq<Pos>, s: set<Pos>): nat
  {
    if qs == [] then 0
    else CountIn(qs[..|qs| - 1], s) + (if qs[|qs| - 1] in s then 1 else 0)
  }

  lemma {:induction false} ShiftMembers(height: int, width: int, p: Pos, ds: seq<Pos>, q: Pos)
    ensures q in Shift(height, width, p, ds) <==>
            InGrid(height, width, q) && (q.0 - p.0, q.1 - p.1) in ds
  {
    if ds != [] {
      var init := ds[..|ds| - 1];
      ShiftMembers(height, width, p, init, q);
      assert ds == init + [ds[|ds| - 1]];
    }
  }

  lemma {:induction false} ShiftAppend(height: int, width: int, p: Pos, ds: seq<Pos>, es: seq<Pos>)
    ensures Shift(height, width, p, ds + es) == Shift(height, width, p, ds) + Shift(height, width, p, es)
    decreases |es|
  {
    if es != [] {
      var init := es[..|es| - 1];
      assert (ds + es)[..|ds + es| - 1] == ds + init;
      ShiftAppend(height, width, p, ds, init);
    } else {
      assert ds + es == ds;
    }
  }

  lemma {:induction false} CountAppend(qs: seq<Pos>, rs: seq<Pos>, s: set<Pos>)
    ensures CountIn(qs + rs, s) == CountIn(qs, s) + CountIn(rs, s)
    decreases |rs|
  {
    if rs != [] {
      var init := rs[..|rs| - 1];
      assert (qs + rs)[..|qs + rs| - 1] == qs + init;
      CountAppend(qs, init, s);
    } else {
      assert qs + rs == qs;
    }
  }

  /** Extending the offset list by one offset counts its target once more when it is in the grid and in `s`. */
  lemma ShiftCountStep(height: int, width: int, p: Pos, ds: seq<Pos>, k: nat, s: set<Pos>)
    requires k < |ds|
    ensures var q := (p.0 + ds[k].0, p.1 + ds[k].1);
            CountIn(Shift(height, width, p, ds[..k + 1]), s)
            == CountIn(Shift(height, width, p, ds[..k]), s) + (if InGrid(height, width, q) && q in s then 1 else 0)
  {
    var q := (p.0 + ds[k].0, p.1 + ds[k].1);
    assert ds[..k + 1][..k] == ds[..k];
    var front := Shift(height, width, p, ds[..k]);
    if InGrid(height, width, q) {
      assert (front + [q])[..|front|] == front;
    } else {
      assert front + [] == front;
    }
  }

  /** Number of cells of `s` among the in-grid cells of the first n steps of the 3x3 scan around p. */
  function ScanCount(height: int, width: int, p: Pos, s: set<Pos>, n: nat): nat
  {
    if n == 0 then 0
    else
      var d := ScanOffset(n - 1);
      var q := (p.0 + d.0, p.1 + d.1);
      ScanCount(height, width, p, s, n - 1) + (if InGrid(height, width, q) && q in s then 1 else 0)
  }

  /** Step 3 * (dx + 1) + (dy + 1) of the scan looks at p + (dy, dx). */
  lemma ScanCountStep(height: int, width: int, p: Pos, s: set<Pos>, dy: int, dx: int)
    requires -1 <= dy <= 1 && -1 <= dx <= 1
    ensures var q := (p.0 + dy, p.1 + dx);
            ScanCount(height, width, p, s, 3 * (dx + 1) + (dy + 1) + 1)
            == ScanCount(height, width, p, s, 3 * (dx + 1) + (dy + 1)) + (if InGrid(height, width, q) && q in s then 1 else 0)
  {
    ScanOffsetAt(dy, dx);
  }

  lemma {:induction false} ScanCountIsShift(height: int, width: int, p: Pos, s: set<Pos>, n: nat)
    requires n <= |Square|
    ensures ScanCount(height, width, p, s, n) == CountIn(Shift(height, width, p, Square[..n]), s)
  {
    if n > 0 {
      ScanCountIsShift(height, width, p, s, n - 1);
      ShiftCountStep(height, width, p, Square, n - 1, s);
      SquareIsScan(n - 1);
    }
  }

  /** Counting one more element of a list. */
  lemma CountInStep(qs: seq<Pos>, i: nat, s: set<Pos>)
    requires i < |qs|
    ensures CountIn(qs[..i + 1], s) == CountIn(qs[..i], s) + (if qs[i] in s then 1 else 0)
  {
    assert qs[..i + 1][..i] == qs[..i];
  }

  /** Offsets that differ give targets that differ, so a list of distinct offsets shifts to a list of distinct cells. */
  lemma {:induction false} ShiftDistinct(height: int, width: int, p: Pos, ds: seq<Pos>)
    requires Distinct(ds)
    ensures Distinct(Shift(height, width, p, ds))
  {
    if ds != [] {
      var init := ds[..|ds| - 1];
      var d := ds[|ds| - 1];
      ShiftDistinct(height, width, p, init);
      assert d !in init;
      var q := (p.0 + d.0, p.1 + d.1);
      ShiftMembers(height, width, p, init, q);
    }
  }

  /**
   * The in-grid neighbours of p, in the order `forEveryCellNeighbour`
   * hands them to its callback: exactly the in-grid cells adjacent to p,
   * each once.
   */
  function Neighbours(height: int, width: int, p: Pos): (ns: seq<Pos>)
    ensures forall q :: q in ns <==> InGrid(height, width, q) && Adjacent(p, q)
    ensures forall k :: 0 <= k < |ns| ==> InGrid(height, width, ns[k]) && Adjacent(p, ns[k])
    ensures Distinct(ns)
    ensures |ns| <= 8
  {
    assert Deltas == [(-1, -1), (0, -1), (1, -1), (-1, 0), (1, 0), (-1, 1), (0, 1), (1, 1)];
    forall q ensures q in Shift(height, width, p, Deltas) <==> InGrid(height, width, q) && Adjacent(p, q) {
      ShiftMembers(height, width, p, Deltas, q);
    }
    ShiftDistinct(height, width, p, Deltas);
    ShiftLength(height, width, p, Deltas);
    Shift(height, width, p, Deltas)
  }

  lemma {:induction false} ShiftLength(height: int, width: int, p: Pos, ds: seq<Pos>)
    ensures |Shift(height, width, p, ds)| <= |ds|
  {
    if ds != [] {
      ShiftLength(height, width, p, ds[..|ds| - 1]);
    }
  }

  /** The set of elements of `qs` that lie in `s`. */
  function Among(qs: seq<Pos>, s: set<Pos>): set<Pos>
  {
    set q | q in qs && q in s
  }

  /** Counting a list without repetitions is taking the size of the set it lists. */
  lemma {:induction false} CountInIsCardinality(qs: seq<Pos>, s: set<Pos>)
    requires Distinct(qs)
    ensures CountIn(qs, s) == |Among(qs, s)|
  {
    if qs == [] {
      assert Among(qs, s) == {};
    } else {
      var init := qs[..|qs| - 1];
      var last := qs[|qs| - 1];
      CountInIsCardinality(init, s);
      assert last !in init;
      if last in s {
        assert Among(qs, s) == Among(init, s) + {last};
      } else {
        assert Among(qs, s) == Among(init, s);
      }
    }
  }

  /** Number of cells of `bombs` among the in-grid neighbours of p: the value `build` stores as a safe cell's `number`. */
  function AdjacentBombs(bombs: set<Pos>, height: int, width: int, p: Pos): nat
  {
    |set q | q in bombs && InGrid(height, width, q) && Adjacent(p, q)|
  }

  /** Counting the members of `s` along the neighbour list gives the adjacency count. */
  lemma NeighbourCount(s: set<Pos>, height: int, width: int, p: Pos)
    ensures CountIn(Neighbours(height, width, p), s) == AdjacentBombs(s, height, width, p)
  {
    var ns := Neighbours(height, width, p);
    CountInIsCardinality(ns, s);
    assert Among(ns, s) == set q | q in s && InGrid(height, width, q) && Adjacent(p, q);
  }

  /**
   * The 3x3 scan of `build` counts p itself as well; for a cell inside the
   * grid that only adds one when p is itself in `s`.
   */
  lemma SquareCount(s: set<Pos>, height: int, width: int, p: Pos)
    requires InGrid(height, width, p)
    ensures ScanCount(height, width, p, s, |Square|)
            == AdjacentBombs(s, height, width, p) + (if p in s then 1 else 0)
  {
    ScanCountIsShift(height, width, p, s, |Square|);
    assert Square[..|Square|] == Square;
    SquareSplit(s, height, width, p);
    NeighbourCount(s, height, width, p);
  }

  /** Counting over the whole window is counting over the neighbours plus the centre. */
  lemma SquareSplit(s: set<Pos>, height: int, width: int, p: Pos)
    requires InGrid(height, width, p)
    ensures CountIn(Shift(height, width, p, Square), s)
            == CountIn(Shift(height, width, p, Deltas), s) + (if p in s then 1 else 0)
  {
    var front, back := Square[..4], Square[5..];
    assert Square == (front + [(0, 0)]) + back;
    assert Deltas == front + back;
    ShiftAppend(height, width, p, front + [(0, 0)], back);
    ShiftAppend(height, width, p, front, [(0, 0)]);
    ShiftAppend(height, width, p, front, back);
    assert Shift(height, width, p, [(0, 0)]) == [p] by {
      assert [(0, 0)][..0] == [];
    }
    var sf, sb := Shift(height, width, p, front), Shift(height, width, p, back);
    CountAppend(sf + [p], sb, s);
    CountAppend(sf, [p], s);
    CountAppend(sf, sb, s);
    assert CountIn([p], s) == if p in s then 1 else 0 by {
      assert [p][..0] == [];
    }
  }

  /** A cell whose count is zero has no neighbour in `s`. */
  lemma ZeroCountNoNeighbour(s: set<Pos>, height: int, width: int, p: Pos, q: Pos)
    requires AdjacentBombs(s, height, width, p) == 0
    requires InGrid(height, width, q) && Adjacent(p, q)
    ensures q !in s
  {
    var around := set r | r in s && InGrid(height, width, r) && Adjacent(p, r);
    assert around == {};
    assert q !in around;
  }

}

/**
 * The region a reveal uncovers, stated independently of the recursive
 * traversal that computes it.  From the clicked cell the cascade may step
 * from a zero cell to any adjacent cell; it never enters a cell that is
 * blocked (already revealed or flagged when the reveal starts) and never
 * leaves the grid.  The uncovered region is every cell such a walk reaches:
 * the connected zero region around the click plus its numbered border.
 */
module Cascade {
  import opened Grid

  /** A walk the cascade can take: on the grid, through unblocked cells, expanding only from zero cells. */
  ghost predicate IsWalk(rows: int, cols: int, mines: set<Cell>, blocked: set<Cell>, p: seq<Cell>)
  {
    |p| > 0 &&
    (forall i :: 0 <= i < |p| ==> InBounds(rows, cols, p[i]) && p[i] !in blocked) &&
    (forall i :: 0 <= i < |p| - 1 ==> IsZeroCell(rows, cols, mines, p[i]) && Adjacent(p[i], p[i + 1]))
  }

  ghost predicate Reachable(rows: int, cols: int, mines: set<Cell>, blocked: set<Cell>, c: Cell, n: Cell)
  {
    exists p {:trigger IsWalk(rows, cols, mines, blocked, p)} :: IsWalk(rows, cols, mines, blocked, p) && p[0] == c && p[|p| - 1] == n
  }

  /** `region` is exactly the set of cells the cascade reaches from `c`. */
  ghost predicate IsReachSet(rows: int, cols: int, mines: set<Cell>, blocked: set<Cell>, c: Cell, region: set<Cell>)
  {
    forall n {:trigger Reachable(rows, cols, mines, blocked, c, n)} ::
      n in region <==> Reachable(rows, cols, mines, blocked, c, n)
  }

  /** Every cell of `region` is reached from `c`. */
  ghost predicate WithinReach(rows: int, cols: int, mines: set<Cell>, blocked: set<Cell>, c: Cell, region: set<Cell>)
  {
    forall n {:trigger Reachable(rows, cols, mines, blocked, c, n)} ::
      n in region ==> Reachable(rows, cols, mines, blocked, c, n)
  }

  /** Every zero cell of `region` has each of its on-grid neighbours in `done`. */
  ghost predicate Closed(rows: int, cols: int, mines: set<Cell>, region: set<Cell>, done: set<Cell>)
  {
    forall z, n {:trigger Adjacent(z, n)} :: z in region && IsZeroCell(rows, cols, mines, z) && InBounds(rows, cols, n) && Adjacent(z, n) ==> n in done
  }

  /** An unblocked cell reaches itself: the clicked cell is uncovered. */
  lemma ReachableSelf(rows: int, cols: int, mines: set<Cell>, blocked: set<Cell>, c: Cell)
    requires InBounds(rows, cols, c) && c !in blocked
    ensures Reachable(rows, cols, mines, blocked, c, c)
  {
    assert IsWalk(rows, cols, mines, blocked, [c]);
  }

  /**
   * A walk found from a neighbour m of an unblocked zero cell c, against a
   * larger blocked set, extends to a walk from c: what each nested reveal
   * uncovers is reachable from the cell whose zero count triggered it.
   */
  lemma ReachablePrepend(rows: int, cols: int, mines: set<Cell>, blocked: set<Cell>, wider: set<Cell>,
                         c: Cell, m: Cell, n: Cell)
    requires blocked <= wider
    requires Reachable(rows, cols, mines, wider, m, n)
    requires InBounds(rows, cols, c) && c !in blocked && IsZeroCell(rows, cols, mines, c) && Adjacent(c, m)
    ensures Reachable(rows, cols, mines, blocked, c, n)
  {
    var p :| IsWalk(rows, cols, mines, wider, p) && p[0] == m && p[|p| - 1] == n;
    var q := [c] + p;
    forall i | 0 <= i < |q|
      ensures InBounds(rows, cols, q[i]) && q[i] !in blocked
    {
      if i > 0 {
        assert q[i] == p[i - 1];
      }
    }
    forall i | 0 <= i < |q| - 1
      ensures IsZeroCell(rows, cols, mines, q[i]) && Adjacent(q[i], q[i + 1])
    {
      if i > 0 {
        assert q[i] == p[i - 1] && q[i + 1] == p[i];
      }
    }
    assert IsWalk(rows, cols, mines, blocked, q) && q[0] == c && q[|q| - 1] == n;
  }

  /**
   * A region that holds the clicked cell (when that cell is unblocked) and
   * leaves no zero cell with an unreached neighbour contains every cell the
   * cascade can reach: no cell of the zero region or its border is missed.
   */
  lemma ClosedRegionContainsReachable(rows: int, cols: int, mines: set<Cell>, blocked: set<Cell>,
                                      region: set<Cell>, c: Cell, n: Cell)
    requires InBounds(rows, cols, c) && c !in blocked ==> c in region
    requires Closed(rows, cols, mines, region, blocked + region)
    requires Reachable(rows, cols, mines, blocked, c, n)
    ensures n in region
  {
    var p :| IsWalk(rows, cols, mines, blocked, p) && p[0] == c && p[|p| - 1] == n;
    var i := 0;
    while i < |p| - 1
      invariant 0 <= i < |p| && p[i] in region
    {
      assert IsZeroCell(rows, cols, mines, p[i]) && Adjacent(p[i], p[i + 1]);
      assert InBounds(rows, cols, p[i + 1]) && p[i + 1] !in blocked;
      i := i + 1;
    }
  }

  /** Closure survives growing the done set and joining two closed regions. */
  lemma ClosedUnion(rows: int, cols: int, mines: set<Cell>, a: set<Cell>, b: set<Cell>,
                    doneA: set<Cell>, done: set<Cell>)
    requires Closed(rows, cols, mines, a, doneA) && doneA <= done
    requires Closed(rows, cols, mines, b, done)
    ensures Closed(rows, cols, mines, a + b, done)
  {
  }
  /** A reveal of a blocked cell uncovers nothing, and nothing is reachable from it. */
  lemma BlockedReachesNothing(rows: int, cols: int, mines: set<Cell>, blocked: set<Cell>, c: Cell)
    requires c in blocked
    ensures IsReachSet(rows, cols, mines, blocked, c, {})
  {
    forall n {:trigger Reachable(rows, cols, mines, blocked, c, n)} | Reachable(rows, cols, mines, blocked, c, n)
      ensures false
    {
      ClosedRegionContainsReachable(rows, cols, mines, blocked, {}, c, n);
    }
  }

  /**
   * The cascade from an unblocked cell: the cell itself, and, when it is a
   * zero cell, what the reveals of its neighbours uncovered.  If that part is
   * reached from c and leaves no zero cell with an unreached neighbour, the
   * whole is exactly the set of cells reachable from c.
   */
  lemma CascadeFrom(rows: int, cols: int, mines: set<Cell>, blocked: set<Cell>, c: Cell,
                    more: set<Cell>, done: set<Cell>)
    requires InBounds(rows, cols, c) && c !in blocked
    requires done == blocked + ({c} + more)
    requires !IsZeroCell(rows, cols, mines, c) ==> more == {}
    requires IsZeroCell(rows, cols, mines, c) ==> forall n {:trigger Adjacent(c, n)} :: InBounds(rows, cols, n) && Adjacent(c, n) ==> n in done
    requires WithinReach(rows, cols, mines, blocked, c, more)
    requires Closed(rows, cols, mines, more, done)
    ensures IsReachSet(rows, cols, mines, blocked, c, {c} + more)
    ensures Closed(rows, cols, mines, {c} + more, done)
  {
    ReachableSelf(rows, cols, mines, blocked, c);
    assert Closed(rows, cols, mines, {c}, done);
    ClosedUnion(rows, cols, mines, {c}, more, done, done);
    forall n {:trigger Reachable(rows, cols, mines, blocked, c, n)} | Reachable(rows, cols, mines, blocked, c, n)
      ensures n in {c} + more
    {
      ClosedRegionContainsReachable(rows, cols, mines, blocked, {c} + more, c, n);
    }
  }

  /** A reveal that hits a mine uncovers that cell alone: a mine is never a zero cell. */
  lemma MineStopsCascade(rows: int, cols: int, mines: set<Cell>, blocked: set<Cell>, c: Cell, done: set<Cell>)
    requires InBounds(rows, cols, c) && c !in blocked && c in mines
    ensures IsReachSet(rows, cols, mines, blocked, c, {c})
    ensures Closed(rows, cols, mines, {c}, done)
  {
    ReachableSelf(rows, cols, mines, blocked, c);
    forall n {:trigger Reachable(rows, cols, mines, blocked, c, n)} | Reachable(rows, cols, mines, blocked, c, n)
      ensures n == c
    {
      ClosedRegionContainsReachable(rows, cols, mines, blocked, {c}, c, n);
    }
  }

  /**
   * What the reveal of a neighbour m of the zero cell `c` uncovered, against
   * the cells blocked at that time (a superset of `blocked`), is reached from
   * c too: the nested reveal continues the cascade that started at c.
   */
  lemma NeighbourReach(rows: int, cols: int, mines: set<Cell>, blocked: set<Cell>, wider: set<Cell>,
                       c: Cell, m: Cell, more: set<Cell>)
    requires blocked <= wider
    requires InBounds(rows, cols, c) && c !in blocked && IsZeroCell(rows, cols, mines, c) && Adjacent(c, m)
    requires IsReachSet(rows, cols, mines, wider, m, more)
    ensures WithinReach(rows, cols, mines, blocked, c, more)
  {
    forall n {:trigger Reachable(rows, cols, mines, blocked, c, n)} | n in more
      ensures Reachable(rows, cols, mines, blocked, c, n)
    {
      ReachablePrepend(rows, cols, mines, blocked, wider, c, m, n);
    }
  }

  /** Two regions reached from `c` and closed make a union reached from `c` and closed. */
  lemma RegionGrow(rows: int, cols: int, mines: set<Cell>, blocked: set<Cell>, c: Cell,
                   region: set<Cell>, more: set<Cell>, doneBefore: set<Cell>, done: set<Cell>)
    requires WithinReach(rows, cols, mines, blocked, c, region)
    requires WithinReach(rows, cols, mines, blocked, c, more)
    requires Closed(rows, cols, mines, region, doneBefore) && doneBefore <= done
    requires Closed(rows, cols, mines, more, done)
    ensures WithinReach(rows, cols, mines, blocked, c, region + more)
    ensures Closed(rows, cols, mines, region + more, done)
  {
    ClosedUnion(rows, cols, mines, region, more, doneBefore, done);
  }
}

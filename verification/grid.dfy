/**
 * Geometry of the Minesweeper grid: cells, the eight neighbour offsets the
 * engine walks, Chebyshev adjacency, the 3x3 safety block around the first
 * click and the candidate cells for mine placement.
 */
module Grid {

  /** A cell is addressed as (row, column), like the engine's `cell` tuples. */
  type Cell = (int, int)

  /** Row and column offsets of the eight neighbours, in the engine's order. */
  const DX: seq<int> := [-1, 0, 1, -1, 1, -1, 0, 1]
  const DY: seq<int> := [-1, -1, -1, 0, 0, 1, 1, 1]

  /** The offsets take every value from -1 to 1, and only those. */
  lemma OffsetRange()
    ensures forall d :: d in DX <==> -1 <= d <= 1
    ensures forall d :: d in DY <==> -1 <= d <= 1
  {
  }

  /** The k-th neighbour position of `c` (possibly off the grid). */
  function Offset(c: Cell, k: int): Cell
    requires 0 <= k < 8
  {
    (c.0 + DX[k], c.1 + DY[k])
  }

  predicate InBounds(rows: int, cols: int, c: Cell)
  {
    0 <= c.0 < rows && 0 <= c.1 < cols
  }

  /** Chebyshev distance exactly one: one of the up-to-eight surrounding cells. */
  predicate Adjacent(a: Cell, b: Cell)
  {
    a != b && -1 <= a.0 - b.0 <= 1 && -1 <= a.1 - b.1 <= 1
  }

  /** Chebyshev distance at most one: the 3x3 block centred on `anchor`. */
  predicate InBlock(anchor: Cell, c: Cell)
  {
    -1 <= c.0 - anchor.0 <= 1 && -1 <= c.1 - anchor.1 <= 1
  }

  /** Every cell of a rows x cols grid. */
  function AllCells(rows: int, cols: int): set<Cell>
  {
    set i, j | 0 <= i < rows && 0 <= j < cols :: (i, j)
  }

  /** The cells a mine may be placed on: the grid minus the block around the anchor. */
  function Candidates(rows: int, cols: int, anchor: Cell): set<Cell>
  {
    set c | c in AllCells(rows, cols) && !InBlock(anchor, c)
  }

  /** The nine positions of the block around `anchor`, on or off the grid. */
  function Block(anchor: Cell): set<Cell>
  {
    var (r, c) := anchor;
    {(r - 1, c - 1), (r - 1, c), (r - 1, c + 1),
     (r, c - 1), (r, c), (r, c + 1),
     (r + 1, c - 1), (r + 1, c), (r + 1, c + 1)}
  }

  /** The in-grid cells adjacent to `c` that hold a mine. */
  function AdjacentMines(rows: int, cols: int, mines: set<Cell>, c: Cell): set<Cell>
  {
    set n | n in mines && InBounds(rows, cols, n) && Adjacent(c, n)
  }

  /** An on-grid safe cell with no adjacent mine: the cells whose reveal cascades. */
  predicate IsZeroCell(rows: int, cols: int, mines: set<Cell>, c: Cell)
  {
    InBounds(rows, cols, c) && c !in mines && |AdjacentMines(rows, cols, mines, c)| == 0
  }

  /**
   * The number of offsets among the first k whose cell is on the grid and
   * holds a mine: what the adjacency count has accumulated after k steps.
   */
  function OffsetMineCount(rows: int, cols: int, mines: set<Cell>, c: Cell, k: int): (n: nat)
    requires 0 <= k <= 8
    ensures n <= k
  {
    if k == 0 then 0
    else
      var o := Offset(c, k - 1);
      OffsetMineCount(rows, cols, mines, c, k - 1)
        + (if InBounds(rows, cols, o) && o in mines then 1 else 0)
  }

  /** The cells counted by OffsetMineCount(.., k). */
  function OffsetMines(rows: int, cols: int, mines: set<Cell>, c: Cell, k: int): set<Cell>
    requires 0 <= k <= 8
  {
    set m | 0 <= m < k && InBounds(rows, cols, Offset(c, m)) && Offset(c, m) in mines :: Offset(c, m)
  }

  /** Every offset is a neighbour, and distinct offsets give distinct cells. */
  lemma OffsetsAdjacentAndDistinct(c: Cell)
    ensures forall k :: 0 <= k < 8 ==> Adjacent(c, Offset(c, k))
    ensures forall k, m :: 0 <= k < 8 && 0 <= m < 8 && Offset(c, k) == Offset(c, m) ==> k == m
  {
  }

  /** The eight offsets enumerate the neighbours: every adjacent cell is some offset. */
  lemma AdjacentIsOffset(c: Cell, n: Cell) returns (k: int)
    requires Adjacent(c, n)
    ensures 0 <= k < 8 && n == Offset(c, k)
  {
    var dr, dc := n.0 - c.0, n.1 - c.1;
    if dc == -1 {
      k := dr + 1;
    } else if dc == 0 {
      k := if dr == -1 then 3 else 4;
    } else {
      k := dr + 6;
    }
  }

  lemma {:induction false} OffsetMinesCard(rows: int, cols: int, mines: set<Cell>, c: Cell, k: int)
    requires 0 <= k <= 8
    ensures |OffsetMines(rows, cols, mines, c, k)| == OffsetMineCount(rows, cols, mines, c, k)
  {
    if k == 0 {
      assert OffsetMines(rows, cols, mines, c, 0) == {};
    } else {
      OffsetMinesCard(rows, cols, mines, c, k - 1);
      OffsetsAdjacentAndDistinct(c);
      var o := Offset(c, k - 1);
      var prev := OffsetMines(rows, cols, mines, c, k - 1);
      assert o !in prev;
      if InBounds(rows, cols, o) && o in mines {
        assert OffsetMines(rows, cols, mines, c, k) == prev + {o};
      } else {
        assert OffsetMines(rows, cols, mines, c, k) == prev;
      }
    }
  }

  /**
   * Counting a cell's mines offset by offset, as place_numbers does, yields
   * exactly the number of its on-grid neighbours that are mines, so at most 8.
   */
  lemma OffsetMineCountIsAdjacentMines(rows: int, cols: int, mines: set<Cell>, c: Cell)
    ensures OffsetMineCount(rows, cols, mines, c, 8) == |AdjacentMines(rows, cols, mines, c)|
    ensures |AdjacentMines(rows, cols, mines, c)| <= 8
  {
    OffsetMinesCard(rows, cols, mines, c, 8);
    OffsetsAdjacentAndDistinct(c);
    forall n | n in AdjacentMines(rows, cols, mines, c)
      ensures n in OffsetMines(rows, cols, mines, c, 8)
    {
      var k := AdjacentIsOffset(c, n);
    }
    assert OffsetMines(rows, cols, mines, c, 8) == AdjacentMines(rows, cols, mines, c);
  }

  /** A cell whose count is zero has no mine among its on-grid neighbours. */
  lemma ZeroCountNoAdjacentMine(rows: int, cols: int, mines: set<Cell>, c: Cell, n: Cell)
    requires |AdjacentMines(rows, cols, mines, c)| == 0
    requires InBounds(rows, cols, n) && Adjacent(c, n)
    ensures n !in mines
  {
    var s := AdjacentMines(rows, cols, mines, c);
    assert s == {};
    assert n !in s;
  }

  function RowCells(r: int, cols: int): set<Cell>
  {
    set j | 0 <= j < cols :: (r, j)
  }

  lemma {:induction false} RowCellsCard(r: int, cols: nat)
    ensures |RowCells(r, cols)| == cols
  {
    if cols == 0 {
      assert RowCells(r, 0) == {};
    } else {
      RowCellsCard(r, cols - 1);
      assert RowCells(r, cols) == RowCells(r, cols - 1) + {(r, cols - 1)};
    }
  }

  /** A rows x cols grid has rows * cols cells. */
  lemma {:induction false} AllCellsCard(rows: nat, cols: nat)
    ensures |AllCells(rows, cols)| == rows * cols
  {
    if rows == 0 {
      assert AllCells(0, cols) == {};
    } else {
      AllCellsCard(rows - 1, cols);
      RowCellsCard(rows - 1, cols);
      assert AllCells(rows, cols) == AllCells(rows - 1, cols) + RowCells(rows - 1, cols);
      assert AllCells(rows - 1, cols) * RowCells(rows - 1, cols) == {};
      assert rows * cols == (rows - 1) * cols + cols;
    }
  }

  lemma CandidatesIsDifference(rows: int, cols: int, anchor: Cell)
    ensures Candidates(rows, cols, anchor) == AllCells(rows, cols) - Block(anchor)
  {
    forall c | c in AllCells(rows, cols)
      ensures InBlock(anchor, c) <==> c in Block(anchor)
    {
    }
  }

  lemma BlockCard(anchor: Cell)
    ensures |Block(anchor)| == 9
  {
  }

  lemma DifferenceCard<T>(a: set<T>, b: set<T>)
    ensures |a - b| == |a| - |a * b|
    ensures |a - b| >= |a| - |b|
  {
    var i := a * b;
    assert a == (a - b) + i;
    assert (a - b) * i == {};
    assert i <= b;
  }

  /** A subset is no larger than its superset, and a proper subset is smaller. */
  lemma SubsetCard<T>(s: set<T>, t: set<T>)
    requires s <= t
    ensures |s| <= |t|
    ensures s != t ==> |s| < |t|
  {
    DifferenceCard(t, s);
    assert t * s == s;
    if s != t {
      var x :| x in t && x !in s;
      assert x in t - s;
    }
  }

  /** The union of two disjoint sets has as many elements as the two together. */
  lemma DisjointUnionCard<T>(a: set<T>, b: set<T>)
    requires forall x :: x in b ==> x !in a
    ensures |a + b| == |a| + |b|
  {
    assert a * b == {};
  }

  /**
   * Uncovering `c` and then the disjoint set `more` uncovers `{c} + more`,
   * disjoint from what was uncovered before and one larger than `more`.
   */
  lemma ExtendByOneThenMore<T>(before: set<T>, c: T, more: set<T>)
    requires c !in before
    requires forall x :: x in more ==> x !in before + {c}
    ensures (before + {c}) + more == before + ({c} + more)
    ensures forall x :: x in {c} + more ==> x !in before
    ensures |{c} + more| == |more| + 1
  {
    DisjointUnionCard(more, {c});
    assert {c} + more == more + {c};
  }

  /** Regrouping a three-way union, a hint for accumulating uncovered regions. */
  lemma UnionAssoc<T>(a: set<T>, b: set<T>, c: set<T>)
    ensures (a + b) + c == a + (b + c)
  {
  }

  /** A set of on-grid cells holds at most rows * cols cells. */
  lemma CellsBound(rows: nat, cols: nat, s: set<Cell>)
    requires forall x :: x in s ==> InBounds(rows, cols, x)
    ensures |s| <= rows * cols
  {
    assert s <= AllCells(rows, cols) by {
      forall x | x in s
        ensures x in AllCells(rows, cols)
      {
        var (i, j) := x;
        assert InBounds(rows, cols, (i, j));
      }
    }
    SubsetCard(s, AllCells(rows, cols));
    AllCellsCard(rows, cols);
  }

  /**
   * Placement always has room when at most rows*cols - 9 mines are asked for:
   * the block around the first click removes at most nine cells.
   */
  lemma CandidatesLowerBound(rows: nat, cols: nat, anchor: Cell)
    ensures |Candidates(rows, cols, anchor)| >= rows * cols - 9
  {
    AllCellsCard(rows, cols);
    CandidatesIsDifference(rows, cols, anchor);
    BlockCard(anchor);
    DifferenceCard(AllCells(rows, cols), Block(anchor));
  }

  /**
   * When the whole block lies inside the grid exactly nine cells are
   * excluded, so asking for more than rows*cols - 9 mines cannot succeed.
   */
  lemma CandidatesInterior(rows: nat, cols: nat, anchor: Cell)
    requires 1 <= anchor.0 < rows - 1 && 1 <= anchor.1 < cols - 1
    ensures |Candidates(rows, cols, anchor)| == rows * cols - 9
  {
    AllCellsCard(rows, cols);
    CandidatesIsDifference(rows, cols, anchor);
    BlockCard(anchor);
    assert Block(anchor) <= AllCells(rows, cols);
    assert AllCells(rows, cols) * Block(anchor) == Block(anchor);
    DifferenceCard(AllCells(rows, cols), Block(anchor));
  }
}

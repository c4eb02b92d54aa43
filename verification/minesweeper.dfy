/**
 * The board engine of the Minesweeper game: three rows x columns grids
 * (cell values, revealed marks, flags), the flag and mine counters, the
 * count of cells uncovered by reveals and the two end-of-game flags.
 *
 * A cell value is MINE (-1) or the number of adjacent mines.  The board is
 * all zeros until the first click populates it; the cells around that click
 * never hold a mine.
 */
module Engine {
  import opened Grid
  import opened Cascade

  /** The value the engine stores in a cell that holds a mine. */
  const MINE: int := -1

  /**
   * How a reveal request ends.  The engine returns True for Blocked and
   * Safe, None for AlreadyRevealed and False for Detonated.
   */
  datatype RevealOutcome = Blocked | AlreadyRevealed | Safe | Detonated

  /**
   * Draws `k` distinct members of `population`, in some order: the engine's
   * random sample, with the choice among the possible samples left open.
   */
  method Sample(population: set<Cell>, k: int) returns (chosen: seq<Cell>)
    requires 0 <= k <= |population|
    ensures |chosen| == k
    ensures forall i :: 0 <= i < |chosen| ==> chosen[i] in population
    ensures forall i, j :: 0 <= i < j < |chosen| ==> chosen[i] != chosen[j]
  {
    chosen := [];
    var remaining := population;
    while |chosen| < k
      invariant |chosen| <= k
      invariant remaining <= population
      invariant |remaining| == |population| - |chosen|
      invariant forall i :: 0 <= i < |chosen| ==> chosen[i] in population && chosen[i] !in remaining
      invariant forall i, j :: 0 <= i < j < |chosen| ==> chosen[i] != chosen[j]
    {
      assert |remaining| > 0;
      var x :| x in remaining;
      chosen := chosen + [x];
      remaining := remaining - {x};
    }
  }

  /** A sequence without repetitions has as many distinct members as it has elements. */
  lemma {:induction false} DistinctElementsCard(s: seq<Cell>)
    requires forall i, j :: 0 <= i < j < |s| ==> s[i] != s[j]
    ensures |set x | x in s| == |s|
  {
    if s != [] {
      var t := s[..|s| - 1];
      DistinctElementsCard(t);
      assert (set x | x in s) == (set x | x in t) + {s[|s| - 1]};
      assert s[|s| - 1] !in (set x | x in t);
    }
  }

  /**
   * While no mine has been detonated, the cells counted by reveals are safe
   * cells, so the count never exceeds rows*columns - mines; and it reaches
   * that target exactly when every safe cell has been uncovered.
   */
  lemma WinMeansEverySafeCellRevealed(rows: nat, columns: nat, mineCells: set<Cell>, counted: set<Cell>)
    requires mineCells <= AllCells(rows, columns)
    requires counted <= AllCells(rows, columns) - mineCells
    ensures |counted| <= rows * columns - |mineCells|
    ensures |counted| == rows * columns - |mineCells| <==> counted == AllCells(rows, columns) - mineCells
  {
    var safe := AllCells(rows, columns) - mineCells;
    AllCellsCard(rows, columns);
    DifferenceCard(AllCells(rows, columns), mineCells);
    assert AllCells(rows, columns) * mineCells == mineCells;
    DifferenceCard(safe, counted);
    assert safe * counted == counted;
    if |counted| == |safe| {
      assert safe - counted == {};
      assert safe == counted;
    }
  }

  /** Toggling one cell's flag moves the flag count and the flagged-mine count by one. */
  lemma FlagToggleBookkeeping(flags: set<Cell>, mineCells: set<Cell>, c: Cell, place: bool)
    requires place <==> c !in flags
    ensures var after := if place then flags + {c} else flags - {c};
      |after| == |flags| + (if place then 1 else -1) &&
      |after * mineCells| == |flags * mineCells| + (if c !in mineCells then 0 else if place then 1 else -1)
  {
    var after := if place then flags + {c} else flags - {c};
    if c in mineCells {
      assert after * mineCells == if place then flags * mineCells + {c} else flags * mineCells - {c};
    } else {
      assert after * mineCells == flags * mineCells;
    }
  }

  class Minesweeper {
    const rows: int
    const columns: int
    const mines: int
    const board: array2<int>
    const revealed: array2<bool>
    const flagged: array2<bool>

    var minesLeft: int
    var flagsLeft: int
    var revealedCount: int
    var gameOver: bool
    var gameWon: bool

    /** The cells holding a mine, the cells whose revealed mark is set, and the flagged cells. */
    ghost var mineCells: set<Cell>
    ghost var revealedCells: set<Cell>
    ghost var flaggedCells: set<Cell>

    predicate Dims()
    {
      board.Length0 == rows && board.Length1 == columns &&
      revealed.Length0 == rows && revealed.Length1 == columns &&
      flagged.Length0 == rows && flagged.Length1 == columns
    }

    /** The number of revealed safe cells that wins the game. */
    function Target(): int
    {
      rows * columns - mines
    }

    /** The fixed part of the state: a non-empty grid, a mine budget, distinct mark grids. */
    predicate Shape()
    {
      Dims() && rows > 0 && columns > 0 && mines >= 0 && revealed != flagged
    }

    /** mineCells holds exactly the on-grid cells whose value is MINE. */
    ghost predicate MinesLinked()
      reads this`mineCells, board
      requires Dims()
    {
      (forall x {:trigger x in mineCells} :: x in mineCells ==> InBounds(rows, columns, x)) &&
      (forall i, j {:trigger board[i, j]} :: 0 <= i < rows && 0 <= j < columns ==> (board[i, j] == MINE <==> (i, j) in mineCells))
    }

    /** revealedCells holds exactly the on-grid cells marked revealed. */
    ghost predicate RevealedLinked()
      reads this`revealedCells, revealed
      requires Dims()
    {
      (forall x {:trigger x in revealedCells} :: x in revealedCells ==> InBounds(rows, columns, x)) &&
      (forall i, j {:trigger revealed[i, j]} :: 0 <= i < rows && 0 <= j < columns ==> (revealed[i, j] <==> (i, j) in revealedCells))
    }

    /** flaggedCells holds exactly the on-grid cells marked flagged. */
    ghost predicate FlagsLinked()
      reads this`flaggedCells, flagged
      requires Dims()
    {
      (forall x {:trigger x in flaggedCells} :: x in flaggedCells ==> InBounds(rows, columns, x)) &&
      (forall i, j {:trigger flagged[i, j]} :: 0 <= i < rows && 0 <= j < columns ==> (flagged[i, j] <==> (i, j) in flaggedCells))
    }

    /** Every cell that is not a mine holds the number of its adjacent mines. */
    ghost predicate Consistent()
      reads this`mineCells, board
      requires Dims()
    {
      forall i, j {:trigger board[i, j]} :: 0 <= i < rows && 0 <= j < columns && board[i, j] != MINE ==>
        board[i, j] == |AdjacentMines(rows, columns, mineCells, (i, j))|
    }

    /** Flag conservation: every flag is either left or on the board. */
    ghost predicate FlagBudget()
      reads this`flagsLeft, this`flaggedCells
    {
      0 <= flagsLeft && flagsLeft + |flaggedCells| == mines
    }

    /** Everything Valid() asks except that the cell values are consistent. */
    ghost predicate WellFormed()
      reads this, board, revealed, flagged
    {
      Shape() && MinesLinked() && RevealedLinked() && FlagsLinked() && FlagBudget()
    }

    ghost predicate Valid()
      reads this, board, revealed, flagged
    {
      WellFormed() && Consistent()
    }

    /** The state before the first click: no mine placed, nothing revealed. */
    ghost predicate Unpopulated()
      reads this`revealedCells, board
      requires Dims()
    {
      (forall i, j :: 0 <= i < rows && 0 <= j < columns ==> board[i, j] == 0) &&
      revealedCells == {}
    }

    /** minesLeft as the number of mines not under a flag. */
    ghost predicate MinesLeftExact()
      reads this`minesLeft, this`flaggedCells, this`mineCells
    {
      minesLeft == mines - |flaggedCells * mineCells|
    }

    constructor (rows: int, columns: int, mines: int)
      requires rows > 0 && columns > 0 && mines >= 0
      ensures this.rows == rows && this.columns == columns && this.mines == mines
      ensures fresh(board) && fresh(revealed) && fresh(flagged)
      ensures Valid() && Unpopulated()
      ensures flaggedCells == {} && mineCells == {}
      ensures minesLeft == mines && flagsLeft == mines && MinesLeftExact()
      ensures revealedCount == 0 && !gameOver && !gameWon
    {
      this.rows := rows;
      this.columns := columns;
      this.mines := mines;
      minesLeft := mines;
      flagsLeft := mines;
      board := new int[rows, columns]((i, j) => 0);
      revealed := new bool[rows, columns]((i, j) => false);
      flagged := new bool[rows, columns]((i, j) => false);
      revealedCount := 0;
      gameOver := false;
      gameWon := false;
      mineCells := {};
      revealedCells := {};
      flaggedCells := {};
    }

    /**
     * The cells of the grid outside the 3x3 block around `anchor`: every
     * cell, minus each anchor + (DX[a], DY[b]) for all 64 offset pairs.
     */
    method CandidateCells(anchor: Cell) returns (cells: set<Cell>)
      requires rows >= 0 && columns >= 0
      ensures cells == Candidates(rows, columns, anchor)
    {
      cells := set i, j | 0 <= i < rows && 0 <= j < columns :: (i, j);
      for a := 0 to 8
        invariant forall x :: x in cells <==>
          x in AllCells(rows, columns) && !(x.0 - anchor.0 in DX[..a] && x.1 - anchor.1 in DY)
      {
        for b := 0 to 8
          invariant forall x :: x in cells <==>
            x in AllCells(rows, columns) &&
            !((x.0 - anchor.0 in DX[..a] && x.1 - anchor.1 in DY) ||
              (x.0 - anchor.0 == DX[a] && x.1 - anchor.1 in DY[..b]))
        {
          assert DY[..b + 1] == DY[..b] + [DY[b]];
          var n := (anchor.0 + DX[a], anchor.1 + DY[b]);
          if n in cells {
            cells := cells - {n};
          }
        }
        assert DY[..8] == DY;
        assert DX[..a + 1] == DX[..a] + [DX[a]];
      }
      assert DX[..8] == DX;
      OffsetRange();
    }

    /**
     * Places the mines outside the block around `anchor`.  Fails, leaving the
     * board untouched, when fewer than `mines` candidate cells remain.
     */
    method PlaceMines(anchor: Cell) returns (ok: bool)
      requires Valid() && Unpopulated()
      modifies this`mineCells, board
      ensures WellFormed() && revealedCells == {}
      ensures ok <==> |Candidates(rows, columns, anchor)| >= mines
      ensures !ok ==> unchanged(board) && mineCells == old(mineCells)
      ensures ok ==> mineCells <= Candidates(rows, columns, anchor) && |mineCells| == mines
      ensures forall i, j :: 0 <= i < rows && 0 <= j < columns ==> board[i, j] == 0 || board[i, j] == MINE
    {
      var cells := CandidateCells(anchor);
      if |cells| < mines {
        return false;
      }
      var chosen := Sample(cells, mines);
      for t := 0 to |chosen|
        invariant forall i, j :: 0 <= i < rows && 0 <= j < columns ==>
          board[i, j] == if (i, j) in chosen[..t] then MINE else 0
      {
        assert chosen[..t + 1] == chosen[..t] + [chosen[t]];
        board[chosen[t].0, chosen[t].1] := MINE;
      }
      assert chosen[..|chosen|] == chosen;
      mineCells := set x | x in chosen;
      DistinctElementsCard(chosen);
      return true;
    }

    /** Writes into every non-mine cell the number of its adjacent mines. */
    method PlaceNumbers()
      requires WellFormed()
      requires forall i, j :: 0 <= i < rows && 0 <= j < columns ==> board[i, j] == 0 || board[i, j] == MINE
      modifies board
      ensures Valid()
      ensures mineCells == old(mineCells)
      ensures forall i, j :: 0 <= i < rows && 0 <= j < columns ==>
        board[i, j] == if (i, j) in mineCells then MINE else |AdjacentMines(rows, columns, mineCells, (i, j))|
    {
      ghost var m := mineCells;
      for i := 0 to rows
        invariant forall r, c :: 0 <= r < rows && 0 <= c < columns ==>
          board[r, c] == if (r, c) in m then MINE
                         else if r < i then |AdjacentMines(rows, columns, m, (r, c))|
                         else 0
      {
        for j := 0 to columns
          invariant forall r, c :: 0 <= r < rows && 0 <= c < columns ==>
            board[r, c] == if (r, c) in m then MINE
                           else if r < i || (r == i && c < j) then |AdjacentMines(rows, columns, m, (r, c))|
                           else 0
        {
          if board[i, j] == MINE {
            continue;
          }
          OffsetsAdjacentAndDistinct((i, j));
          for k := 0 to 8
            invariant board[i, j] == OffsetMineCount(rows, columns, m, (i, j), k)
            invariant forall r, c :: 0 <= r < rows && 0 <= c < columns && (r, c) != (i, j) ==>
              board[r, c] == if (r, c) in m then MINE
                             else if r < i || (r == i && c < j) then |AdjacentMines(rows, columns, m, (r, c))|
                             else 0
          {
            var ni := i + DX[k];
            var nj := j + DY[k];
            if 0 <= ni < rows && 0 <= nj < columns && board[ni, nj] == MINE {
              board[i, j] := board[i, j] + 1;
            }
          }
          OffsetMineCountIsAdjacentMines(rows, columns, m, (i, j));
        }
      }
      assert mineCells == m;
    }

    /**
     * The first click: places the mines away from `anchor`, then the
     * adjacency counts.  On failure the board is left as it was.
     */
    method PopulateBoard(anchor: Cell) returns (ok: bool)
      requires Valid() && Unpopulated()
      modifies this`mineCells, board
      ensures Valid() && revealedCells == {}
      ensures ok <==> |Candidates(rows, columns, anchor)| >= mines
      ensures !ok ==> unchanged(board) && mineCells == old(mineCells)
      ensures ok ==> |mineCells| == mines
      ensures ok ==> forall x :: InBlock(anchor, x) ==> x !in mineCells
      ensures ok ==> forall i, j :: 0 <= i < rows && 0 <= j < columns ==>
        board[i, j] == if (i, j) in mineCells then MINE else |AdjacentMines(rows, columns, mineCells, (i, j))|
    {
      ok := PlaceMines(anchor);
      if ok {
        PlaceNumbers();
      }
    }

    /**
     * Toggles the flag on `c`.  Placing a flag is refused when none is
     * left; the cell's revealed mark is not consulted.
     */
    method FlagCell(c: Cell)
      requires Valid() && InBounds(rows, columns, c)
      modifies this`flaggedCells, this`flagsLeft, this`minesLeft, flagged
      ensures Valid()
      ensures old(flagsLeft == 0 && !flagged[c.0, c.1]) ==>
        flaggedCells == old(flaggedCells) && flagsLeft == old(flagsLeft) && minesLeft == old(minesLeft)
      ensures !old(flagsLeft == 0 && !flagged[c.0, c.1]) ==>
        flagged[c.0, c.1] == !old(flagged[c.0, c.1]) &&
        flaggedCells == (if flagged[c.0, c.1] then old(flaggedCells) + {c} else old(flaggedCells) - {c}) &&
        flagsLeft == old(flagsLeft) + (if flagged[c.0, c.1] then -1 else 1) &&
        minesLeft == old(minesLeft) + (if c !in mineCells then 0 else if flagged[c.0, c.1] then -1 else 1)
      ensures forall i, j :: 0 <= i < rows && 0 <= j < columns && (i, j) != c ==> flagged[i, j] == old(flagged[i, j])
      ensures old(MinesLeftExact()) ==> MinesLeftExact()
    {
      if flagsLeft == 0 && !flagged[c.0, c.1] {
        return;
      }
      var place := !flagged[c.0, c.1];
      flagged[c.0, c.1] := place;
      if place {
        flaggedCells := flaggedCells + {c};
        flagsLeft := flagsLeft - 1;
      } else {
        flaggedCells := flaggedCells - {c};
        flagsLeft := flagsLeft + 1;
      }
      if board[c.0, c.1] == MINE {
        minesLeft := minesLeft + (if place then -1 else 1);
      }
      FlagToggleBookkeeping(old(flaggedCells), mineCells, c, place);
    }

    /**
     * Marks the unrevealed cell `c` revealed and counts it; uncovering a mine
     * ends the game.  Reports whether `c` holds a mine.
     */
    method Uncover(c: Cell) returns (hit: bool)
      requires Valid() && InBounds(rows, columns, c) && c !in revealedCells
      modifies this`revealedCells, this`revealedCount, this`gameOver, revealed
      ensures Valid()
      ensures hit <==> c in mineCells
      ensures revealedCells == old(revealedCells) + {c} && |revealedCells| == old(|revealedCells|) + 1
      ensures revealedCount == old(revealedCount) + 1
      ensures gameOver == (old(gameOver) || hit)
    {
      revealed[c.0, c.1] := true;
      DisjointUnionCard(revealedCells, {c});
      revealedCells := revealedCells + {c};
      revealedCount := revealedCount + 1;
      forall i, j {:trigger revealed[i, j]} | 0 <= i < rows && 0 <= j < columns
        ensures revealed[i, j] <==> (i, j) in revealedCells
      {
        if (i, j) != c {
          assert revealed[i, j] == old(revealed[i, j]);
        }
      }
      hit := board[c.0, c.1] == MINE;
      if hit {
        gameOver := true;
      }
    }

    /** Declares the game won once the count of revealed cells reaches the target. */
    method CheckWin()
      requires Valid()
      modifies this`gameWon
      ensures Valid()
      ensures gameWon == (old(gameWon) || revealedCount == Target())
    {
      if revealedCount == Target() {
        gameWon := true;
      }
    }

    /**
     * Reveals `c`.  A flagged or already revealed cell is left alone; a mine
     * ends the game; a zero cell uncovers its neighbours in turn.  The ghost
     * result `uncovered` is the set of cells the call reveals: exactly those
     * the cascade can reach from `c`.
     */
    method RevealCell(c: Cell) returns (r: RevealOutcome, ghost uncovered: set<Cell>)
      requires Valid() && InBounds(rows, columns, c)
      modifies this`revealedCells, this`revealedCount, this`gameOver, this`gameWon, revealed
      decreases rows * columns - |revealedCells|, 1
      ensures Valid()
      ensures r == Blocked <==> flagged[c.0, c.1]
      ensures r == AlreadyRevealed <==> !flagged[c.0, c.1] && old(revealed[c.0, c.1])
      ensures r == Detonated <==> !flagged[c.0, c.1] && !old(revealed[c.0, c.1]) && c in mineCells
      ensures revealedCells == old(revealedCells) + uncovered
      ensures forall x :: x in uncovered ==> x !in old(revealedCells)
      ensures |revealedCells| == old(|revealedCells|) + |uncovered|
      ensures revealedCount == old(revealedCount) + |uncovered|
      ensures IsReachSet(rows, columns, mineCells, old(revealedCells + flaggedCells), c, uncovered)
      ensures Closed(rows, columns, mineCells, uncovered, revealedCells + flaggedCells)
      ensures c in revealedCells + flaggedCells
      ensures r == Blocked || r == AlreadyRevealed ==> uncovered == {}
      ensures r == Detonated ==> uncovered == {c}
      ensures r != Detonated ==> forall x :: x in uncovered ==> x !in mineCells
      ensures gameOver == (old(gameOver) || r == Detonated)
      ensures old(gameWon) ==> gameWon
      ensures gameWon && !old(gameWon) ==> r == Safe && old(revealedCount) < Target() <= revealedCount
      ensures r == Safe && revealedCount <= Target() ==> (gameWon <==> old(gameWon) || revealedCount == Target())
    {
      if flagged[c.0, c.1] || revealed[c.0, c.1] {
        BlockedReachesNothing(rows, columns, mineCells, revealedCells + flaggedCells, c);
        r := if flagged[c.0, c.1] then Blocked else AlreadyRevealed;
        return r, {};
      }
      r, uncovered := RevealFresh(c);
    }

    /**
     * Reveals the cell `c`, which is neither flagged nor revealed: marks and
     * counts it, then either ends the game on a mine or lets the cascade
     * continue from it.
     */
    method RevealFresh(c: Cell) returns (r: RevealOutcome, ghost uncovered: set<Cell>)
      requires Valid() && InBounds(rows, columns, c) && c !in revealedCells && c !in flaggedCells
      modifies this`revealedCells, this`revealedCount, this`gameOver, this`gameWon, revealed
      decreases rows * columns - |revealedCells|, 0
      ensures Valid()
      ensures r == Safe || r == Detonated
      ensures r == Detonated <==> c in mineCells
      ensures revealedCells == old(revealedCells) + uncovered
      ensures forall x :: x in uncovered ==> x !in old(revealedCells)
      ensures |revealedCells| == old(|revealedCells|) + |uncovered|
      ensures revealedCount == old(revealedCount) + |uncovered|
      ensures IsReachSet(rows, columns, mineCells, old(revealedCells + flaggedCells), c, uncovered)
      ensures Closed(rows, columns, mineCells, uncovered, revealedCells + flaggedCells)
      ensures c in uncovered
      ensures r == Detonated ==> uncovered == {c}
      ensures r != Detonated ==> forall x :: x in uncovered ==> x !in mineCells
      ensures gameOver == (old(gameOver) || r == Detonated)
      ensures old(gameWon) ==> gameWon
      ensures gameWon && !old(gameWon) ==> r == Safe && old(revealedCount) < Target() <= revealedCount
      ensures r == Safe && revealedCount <= Target() ==> (gameWon <==> old(gameWon) || revealedCount == Target())
    {
      ghost var blocked0 := revealedCells + flaggedCells;
      var hit := Uncover(c);
      if hit {
        MineStopsCascade(rows, columns, mineCells, blocked0, c, revealedCells + flaggedCells);
        return Detonated, {c};
      }
      CellsBound(rows, columns, revealedCells);
      uncovered := SpreadFrom(c, old(revealedCells), old(revealedCount), blocked0);
      r := Safe;
    }

    /**
     * What follows the uncovering of the safe cell `c`: a zero cell hands
     * over to its neighbours, then the win test runs.  `before` and
     * `countBefore` are the revealed cells and the count just before `c` was
     * uncovered; `uncovered` is `c` together with what its neighbours uncover.
     */
    method SpreadFrom(c: Cell, ghost before: set<Cell>, ghost countBefore: int, ghost blocked0: set<Cell>)
      returns (ghost uncovered: set<Cell>)
      requires Valid() && InBounds(rows, columns, c) && c !in mineCells
      requires c !in before && revealedCells == before + {c} && revealedCount == countBefore + 1
      requires c !in blocked0 && revealedCells + flaggedCells == blocked0 + {c}
      requires |revealedCells| <= rows * columns
      modifies this`revealedCells, this`revealedCount, this`gameOver, this`gameWon, revealed
      decreases rows * columns - |revealedCells|, 4
      ensures Valid()
      ensures revealedCells == before + uncovered
      ensures forall x :: x in uncovered ==> x !in before
      ensures |revealedCells| == |before| + |uncovered|
      ensures revealedCount == countBefore + |uncovered|
      ensures c in uncovered
      ensures forall x :: x in uncovered ==> x !in mineCells
      ensures gameOver == old(gameOver)
      ensures IsReachSet(rows, columns, mineCells, blocked0, c, uncovered)
      ensures Closed(rows, columns, mineCells, uncovered, revealedCells + flaggedCells)
      ensures old(gameWon) ==> gameWon
      ensures gameWon && !old(gameWon) ==> countBefore < Target() <= revealedCount
      ensures revealedCount <= Target() ==> (gameWon <==> old(gameWon) || revealedCount == Target())
    {
      ghost var more: set<Cell> := {};
      if board[c.0, c.1] == 0 {
        assert IsZeroCell(rows, columns, mineCells, c);
        more := RevealNeighbours(c, blocked0);
      } else {
        assert !IsZeroCell(rows, columns, mineCells, c);
      }
      CascadeFrom(rows, columns, mineCells, blocked0, c, more, revealedCells + flaggedCells);
      ExtendByOneThenMore(before, c, more);
      uncovered := {c} + more;
      CheckWin();
    }

    /**
     * Reveals every unrevealed on-grid neighbour of the zero cell `cell`.
     * `blocked0` is what was blocked when the outermost reveal began; the
     * ghost result `uncovered` is the set of cells the nested reveals uncover.
     */
    method RevealNeighbours(cell: Cell, ghost blocked0: set<Cell>) returns (ghost uncovered: set<Cell>)
      requires Valid() && InBounds(rows, columns, cell) && board[cell.0, cell.1] == 0
      requires cell in revealedCells && cell !in blocked0 && blocked0 <= revealedCells + flaggedCells
      requires |revealedCells| <= rows * columns
      modifies this`revealedCells, this`revealedCount, this`gameOver, this`gameWon, revealed
      decreases rows * columns - |revealedCells|, 3
      ensures Valid()
      ensures revealedCells == old(revealedCells) + uncovered
      ensures forall x :: x in uncovered ==> x !in old(revealedCells)
      ensures |revealedCells| == old(|revealedCells|) + |uncovered|
      ensures revealedCount == old(revealedCount) + |uncovered|
      ensures forall x :: x in uncovered ==> x !in mineCells
      ensures gameOver == old(gameOver)
      ensures WithinReach(rows, columns, mineCells, blocked0, cell, uncovered)
      ensures Closed(rows, columns, mineCells, uncovered, revealedCells + flaggedCells)
      ensures forall n {:trigger Adjacent(cell, n)} :: InBounds(rows, columns, n) && Adjacent(cell, n) ==>
        n in revealedCells + flaggedCells
      ensures old(gameWon) ==> gameWon
      ensures gameWon && !old(gameWon) ==> old(revealedCount) < Target() <= revealedCount
    {
      assert cell !in mineCells;
      assert IsZeroCell(rows, columns, mineCells, cell);
      uncovered := {};
      for k := 0 to 8
        invariant Valid()
        invariant revealedCells == old(revealedCells) + uncovered
        invariant forall x :: x in uncovered ==> x !in old(revealedCells)
        invariant |revealedCells| == old(|revealedCells|) + |uncovered|
        invariant revealedCount == old(revealedCount) + |uncovered|
        invariant forall x :: x in uncovered ==> x !in mineCells
        invariant gameOver == old(gameOver)
        invariant blocked0 <= revealedCells + flaggedCells
        invariant WithinReach(rows, columns, mineCells, blocked0, cell, uncovered)
        invariant Closed(rows, columns, mineCells, uncovered, revealedCells + flaggedCells)
        invariant forall q :: 0 <= q < k && InBounds(rows, columns, Offset(cell, q)) ==>
          Offset(cell, q) in revealedCells + flaggedCells
        invariant old(gameWon) ==> gameWon
        invariant gameWon && !old(gameWon) ==> old(revealedCount) < Target() <= revealedCount
      {
        ghost var before := revealedCells;
        CellsBound(rows, columns, revealedCells);
        ghost var more := RevealNeighbour(cell, k, blocked0);
        forall q | 0 <= q < k + 1 && InBounds(rows, columns, Offset(cell, q))
          ensures Offset(cell, q) in revealedCells + flaggedCells
        {
          if q < k {
            assert Offset(cell, q) in before + flaggedCells;
          }
        }
        RegionGrow(rows, columns, mineCells, blocked0, cell, uncovered, more,
                   before + flaggedCells, revealedCells + flaggedCells);
        DisjointUnionCard(uncovered, more);
        UnionAssoc(old(revealedCells), uncovered, more);
        uncovered := uncovered + more;
      }
      forall n {:trigger Adjacent(cell, n)} | InBounds(rows, columns, n) && Adjacent(cell, n)
        ensures n in revealedCells + flaggedCells
      {
        var k := AdjacentIsOffset(cell, n);
      }
    }

    /**
     * One turn of the neighbour loop: reveals the k-th neighbour of the zero
     * cell `cell` when it lies on the grid and is not yet revealed.  The ghost
     * result `more` is what that reveal uncovers.
     */
    method RevealNeighbour(cell: Cell, k: int, ghost blocked0: set<Cell>) returns (ghost more: set<Cell>)
      requires Valid() && InBounds(rows, columns, cell) && 0 <= k < 8
      requires board[cell.0, cell.1] == 0
      requires cell !in blocked0 && blocked0 <= revealedCells + flaggedCells
      requires |revealedCells| <= rows * columns
      modifies this`revealedCells, this`revealedCount, this`gameOver, this`gameWon, revealed
      decreases rows * columns - |revealedCells|, 2
      ensures Valid()
      ensures revealedCells == old(revealedCells) + more
      ensures forall x :: x in more ==> x !in old(revealedCells)
      ensures |revealedCells| == old(|revealedCells|) + |more|
      ensures revealedCount == old(revealedCount) + |more|
      ensures forall x :: x in more ==> x !in mineCells
      ensures gameOver == old(gameOver)
      ensures WithinReach(rows, columns, mineCells, blocked0, cell, more)
      ensures Closed(rows, columns, mineCells, more, revealedCells + flaggedCells)
      ensures InBounds(rows, columns, Offset(cell, k)) ==> Offset(cell, k) in revealedCells + flaggedCells
      ensures old(gameWon) ==> gameWon
      ensures gameWon && !old(gameWon) ==> old(revealedCount) < Target() <= revealedCount
    {
      var ni := cell.0 + DX[k];
      var nj := cell.1 + DY[k];
      more := {};
      if 0 <= ni < rows && 0 <= nj < columns && !revealed[ni, nj] {
        var m := (ni, nj);
        assert cell !in mineCells;
        assert IsZeroCell(rows, columns, mineCells, cell);
        OffsetsAdjacentAndDistinct(cell);
        assert m == Offset(cell, k) && Adjacent(cell, m);
        ZeroCountNoAdjacentMine(rows, columns, mineCells, cell, m);
        ghost var wider := revealedCells + flaggedCells;
        var outcome: RevealOutcome;
        outcome, more := RevealCell(m);
        NeighbourReach(rows, columns, mineCells, blocked0, wider, cell, m, more);
      }
    }

    /** Uncovers every mine for the end-of-game display; nothing else changes. */
    method RevealAllMines()
      requires Valid()
      modifies this`revealedCells, revealed
      ensures Valid()
      ensures forall i, j :: 0 <= i < rows && 0 <= j < columns ==>
        revealed[i, j] == (old(revealed[i, j]) || board[i, j] == MINE)
      ensures revealedCells == old(revealedCells) + mineCells
    {
      for i := 0 to rows
        invariant forall r, c :: 0 <= r < rows && 0 <= c < columns ==>
          revealed[r, c] == (old(revealed[r, c]) || (board[r, c] == MINE && r < i))
        modifies revealed
      {
        for j := 0 to columns
          invariant forall r, c :: 0 <= r < rows && 0 <= c < columns ==>
            revealed[r, c] == (old(revealed[r, c]) || (board[r, c] == MINE && (r < i || (r == i && c < j))))
          modifies revealed
        {
          if board[i, j] == MINE {
            revealed[i, j] := true;
          }
        }
      }
      revealedCells := revealedCells + mineCells;
      forall i, j {:trigger revealed[i, j]} | 0 <= i < rows && 0 <= j < columns
        ensures revealed[i, j] <==> (i, j) in revealedCells
      {
        assert revealed[i, j] == (old(revealed[i, j]) || board[i, j] == MINE);
      }
    }
  }
}

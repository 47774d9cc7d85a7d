/** The Tetris panel's game logic: a class holding the 20 by 10 board, the
    falling piece and its position, the score, the delay of the timer and
    the game-over flag. Every operation is proved to change the state as the
    corresponding function of module TetrisRules says; the timer, the key
    listener and the painting are not part of it. */
module Tetris {
  import opened TetrisRules

  class TetrisGame {
    var board: array2<int>
    /** The board as rows of cells. */
    ghost var cells: Grid
    var currentBlock: seq<seq<int>>
    var blockRow: int
    var blockCol: int
    var gameOver: bool
    var score: int
    var speed: int

    /** `board` is a 20 by 10 array holding exactly `cells`. */
    ghost predicate Linked()
      reads this, board
    {
      && board.Length0 == ROWS && board.Length1 == COLS && IsGrid(cells)
      && forall i, j :: 0 <= i < ROWS && 0 <= j < COLS ==> board[i, j] == cells[i][j]
    }

    ghost function State(): Game
      reads this
    {
      Game(cells, currentBlock, blockRow, blockCol, gameOver, score, speed)
    }

    /** The state between two events. */
    ghost predicate Valid()
      reads this, board
    {
      Linked() && Good(State())
    }

    /** An empty board, score 0, delay 500 and a first piece at the top. */
    constructor ()
      ensures Valid() && State() == Initial() && fresh(board)
    {
      board := new int[ROWS, COLS]((i, j) => 0);
      cells := Empty(ROWS);
      currentBlock := [];
      blockRow, blockCol := 0, COLS / 2;
      gameOver, score, speed := false, 0, StartSpeed;
      new;
      ghost var s := State();
      GenerateBlock();
      ResetRestores(s);
    }

    /** `generateBlock`: the T-piece at the top in column 4, and the game
        is over when it does not fit there. */
    method GenerateBlock()
      requires Linked()
      modifies this
      ensures Linked() && board == old(board) && State() == Spawn(old(State()))
    {
      currentBlock := TPiece;
      blockRow := 0;
      blockCol := SpawnCol;
      var fits := CanMove(blockRow, blockCol);
      if !fits {
        gameOver := true;
      }
    }

    /** `canMove`: false once the game is over, otherwise whether the piece
        fits with its top-left corner at (newRow, newCol). */
    method CanMove(newRow: int, newCol: int) returns (ok: bool)
      requires Linked() && Shape(currentBlock)
      ensures ok == (!gameOver && Fits(cells, currentBlock, newRow, newCol))
    {
      if gameOver {
        return false;
      }
      var r := 0;
      while r < |currentBlock|
        invariant 0 <= r <= |currentBlock|
        invariant forall i, j :: 0 <= i < r && 0 <= j < |currentBlock[0]| ==> CellFits(cells, currentBlock, newRow, newCol, i, j)
      {
        var c := 0;
        while c < |currentBlock[0]|
          invariant 0 <= c <= |currentBlock[0]|
          invariant forall i, j :: 0 <= i < r && 0 <= j < |currentBlock[0]| ==> CellFits(cells, currentBlock, newRow, newCol, i, j)
          invariant forall j :: 0 <= j < c ==> CellFits(cells, currentBlock, newRow, newCol, r, j)
        {
          if currentBlock[r][c] == 1 {
            var boardRow, boardCol := newRow + r, newCol + c;
            if boardRow >= ROWS || boardCol < 0 || boardCol >= COLS || (boardRow >= 0 && board[boardRow, boardCol] == 1) {
              assert !CellFits(cells, currentBlock, newRow, newCol, r, c);
              return false;
            }
          }
          c := c + 1;
        }
        r := r + 1;
      }
      return true;
    }

    /** `placeBlock`: the piece's cells are written row by row; the first
        filled cell above the top row ends the game (nothing has been
        written by then), otherwise full rows are cleared and a new piece
        is generated. */
    method PlaceBlock()
      requires Linked() && Shape(currentBlock) && Within(currentBlock, blockRow, blockCol)
      modifies this, board
      ensures Linked() && board == old(board) && State() == Place(old(State()))
    {
      ghost var before := State();
      var r := 0;
      while r < |currentBlock|
        invariant 0 <= r <= |currentBlock|
        invariant Linked() && board == old(board) && State() == before.(cells := cells)
        invariant StampedUpTo(cells, before.cells, currentBlock, blockRow, blockCol, r, 0)
      {
        var stopped := StampRow(r, before.cells);
        if stopped {
          gameOver := true;
          return;
        }
        r := r + 1;
      }
      assert !Above(currentBlock, blockRow);
      SameGrid(cells, Stamp(before.cells, currentBlock, blockRow, blockCol));
      CheckRows();
      GenerateBlock();
    }

    /** One pass of the inner loop of `placeBlock`, over row r of the piece;
        `stopped` when a filled cell of that row is above the top row. */
    method StampRow(r: int, ghost g0: Grid) returns (stopped: bool)
      requires Linked() && Shape(currentBlock) && Within(currentBlock, blockRow, blockCol)
      requires 0 <= r < |currentBlock| && IsGrid(g0)
      requires StampedUpTo(cells, g0, currentBlock, blockRow, blockCol, r, 0)
      modifies this, board
      ensures Linked() && board == old(board) && State() == old(State()).(cells := cells)
      ensures stopped ==> cells == g0 && Above(currentBlock, blockRow)
      ensures !stopped ==> StampedUpTo(cells, g0, currentBlock, blockRow, blockCol, r + 1, 0)
    {
      var c := 0;
      while c < |currentBlock[0]|
        invariant Linked() && board == old(board) && State() == old(State()).(cells := cells)
        invariant 0 <= c <= |currentBlock[0]|
        invariant StampedUpTo(cells, g0, currentBlock, blockRow, blockCol, r, c)
      {
        if currentBlock[r][c] == 1 {
          var boardRow := blockRow + r;
          if boardRow < 0 {
            SameGrid(cells, g0);
            return true;
          }
          assert boardRow < ROWS && 0 <= blockCol + c < COLS;
          board[boardRow, blockCol + c] := 1;
          cells := cells[boardRow := cells[boardRow][blockCol + c := 1]];
        }
        c := c + 1;
      }
      return false;
    }

    /** `checkRows`: scanning from the bottom row up, a full row is removed
        by moving every row above it down one and emptying the top row, and
        the same row is looked at again; 100 points per removed row and, if
        any went, the speed is adjusted. */
    method CheckRows()
      requires Linked()
      modifies this, board
      ensures Linked() && board == old(board) && State() == Clear(old(State()))
    {
      ghost var before := State();
      var rowsCleared := 0;
      var r := ROWS - 1;
      assert cells[..r + 1] == cells && cells[r + 1..] == [];
      while r >= 0
        invariant -1 <= r < ROWS
        invariant Linked() && board == old(board) && State() == before.(cells := cells)
        invariant Clean(cells[..r + 1]) + cells[r + 1..] == Clean(before.cells)
        invariant rowsCleared + FullCount(cells[..r + 1]) == FullCount(before.cells)
        decreases FullCount(cells[..r + 1]), r
      {
        var full := RowFull(r);
        if full {
          rowsCleared := rowsCleared + 1;
          ghost var g := cells;
          ShiftDown(r);
          ClearStep(g, r);
        } else {
          KeepStep(cells, r);
          r := r - 1;
        }
      }
      assert cells[..0] == [] && cells[0..] == cells;
      if rowsCleared > 0 {
        score := score + rowsCleared * 100;
        AdjustSpeed();
      }
    }

    /** The inner loop of `checkRows`: whether row r has no empty cell. */
    method RowFull(r: int) returns (full: bool)
      requires Linked() && 0 <= r < ROWS
      ensures full == Full(cells[r])
    {
      full := true;
      var c := 0;
      while c < COLS
        invariant 0 <= c <= COLS
        invariant forall j :: 0 <= j < c ==> cells[r][j] != 0
      {
        if board[r, c] == 0 {
          full := false;
          break;
        }
        c := c + 1;
      }
    }

    /** Removing full row r: rows r - 1 down to 0 are copied one row lower
        and row 0 becomes empty. */
    method ShiftDown(r: int)
      requires Linked() && 0 <= r < ROWS
      modifies this, board
      ensures Linked() && board == old(board)
      ensures State() == old(State()).(cells := [EmptyRow()] + old(cells)[..r] + old(cells)[r + 1..])
    {
      ghost var g := cells;
      var row := r;
      while row > 0
        invariant 0 <= row <= r
        invariant Linked() && board == old(board) && State() == old(State()).(cells := cells)
        invariant forall i :: 0 <= i < ROWS && row < i <= r ==> cells[i] == g[i - 1]
        invariant forall i :: 0 <= i < ROWS && !(row < i <= r) ==> cells[i] == g[i]
      {
        CopyRow(row - 1, row);
        row := row - 1;
      }
      ClearTop();
      ghost var shifted := [EmptyRow()] + g[..r] + g[r + 1..];
      forall i | 0 <= i < ROWS
        ensures cells[i] == shifted[i]
      {
        if i == 0 {
        } else if i <= r {
          assert shifted[i] == g[..r][i - 1];
        } else {
          assert shifted[i] == g[r + 1..][i - r - 1];
        }
      }
    }

    /** `System.arraycopy` of row `from` over row `to`. */
    method CopyRow(from: int, to: int)
      requires Linked() && 0 <= from < ROWS && 0 <= to < ROWS
      modifies this, board
      ensures Linked() && board == old(board)
      ensures State() == old(State()).(cells := old(cells)[to := old(cells)[from]])
    {
      ghost var g := cells;
      var c := 0;
      while c < COLS
        invariant 0 <= c <= COLS
        invariant Linked() && board == old(board) && State() == old(State()).(cells := cells)
        invariant forall i :: 0 <= i < ROWS && i != to ==> cells[i] == g[i]
        invariant forall j :: 0 <= j < COLS ==> cells[to][j] == if j < c then g[from][j] else g[to][j]
      {
        board[to, c] := board[from, c];
        cells := cells[to := cells[to][c := board[from, c]]];
        c := c + 1;
      }
      assert cells[to] == g[from];
    }

    /** `board[0] = new int[COLS]`: the top row becomes empty. */
    method ClearTop()
      requires Linked()
      modifies this, board
      ensures Linked() && board == old(board)
      ensures State() == old(State()).(cells := old(cells)[0 := EmptyRow()])
    {
      ghost var g := cells;
      var c := 0;
      while c < COLS
        invariant 0 <= c <= COLS
        invariant Linked() && board == old(board) && State() == old(State()).(cells := cells)
        invariant forall i :: 0 < i < ROWS ==> cells[i] == g[i]
        invariant forall j :: 0 <= j < COLS ==> cells[0][j] == if j < c then 0 else g[0][j]
      {
        board[0, c] := 0;
        cells := cells[0 := cells[0][c := 0]];
        c := c + 1;
      }
      assert cells[0] == EmptyRow();
    }

    /** `adjustSpeed`: the delay shrinks by 50 for every 500 points, down to
        100 at least. */
    method AdjustSpeed()
      modifies this`speed
      ensures speed == Faster(old(speed), score)
    {
      var next := speed - 50 * Quot(score, 500);
      var newSpeed := if next > MinSpeed then next else MinSpeed;
      if newSpeed != speed {
        speed := newSpeed;
      }
    }

    /** `handleInput`: one key press. */
    method HandleInput(key: int)
      requires Valid()
      modifies this, board
      ensures Valid() && State() == Input(old(State()), key)
    {
      ghost var s := State();
      if gameOver {
        if key == KeyR {
          ResetGame();
          ResetRestores(s);
        }
      } else {
        var ok: bool;
        if key == KeyLeft {
          ok := CanMove(blockRow, blockCol - 1);
          if ok { blockCol := blockCol - 1; }
        }
        if key == KeyRight {
          ok := CanMove(blockRow, blockCol + 1);
          if ok { blockCol := blockCol + 1; }
        }
        if key == KeyDown {
          ok := CanMove(blockRow + 1, blockCol);
          if ok { blockRow := blockRow + 1; }
        }
        if key == KeySpace {
          HardDrop();
        }
      }
      InputGood(s, key);
    }

    /** The space bar: the piece moves down while it fits one row lower,
        then it is placed. */
    method HardDrop()
      requires Linked() && Sane(State()) && !gameOver
      modifies this, board
      ensures Linked() && State() == Input(old(State()), KeySpace)
    {
      DropDown();
      LandingFits(cells, currentBlock, old(blockRow), blockCol);
      FitsWithin(cells, currentBlock, blockRow, blockCol);
      PlaceBlock();
    }

    /** The loop of the space bar: the piece ends on its landing row. */
    method DropDown()
      requires Linked() && Sane(State()) && !gameOver
      modifies this`blockRow
      ensures blockRow == Landing(cells, currentBlock, old(blockRow), blockCol)
    {
      var down := CanMove(blockRow + 1, blockCol);
      while down
        invariant Fits(cells, currentBlock, blockRow, blockCol)
        invariant Landing(cells, currentBlock, blockRow, blockCol) == Landing(cells, currentBlock, old(blockRow), blockCol)
        invariant down == Fits(cells, currentBlock, blockRow + 1, blockCol)
        decreases ROWS - blockRow
      {
        assert CellFits(cells, currentBlock, blockRow + 1, blockCol, 0, 0);
        blockRow := blockRow + 1;
        down := CanMove(blockRow + 1, blockCol);
      }
    }

    /** `resetGame`: a fresh empty board, score 0, delay 500 and a new piece. */
    method ResetGame()
      modifies this
      ensures Valid() && State() == Initial() && fresh(board)
    {
      board := new int[ROWS, COLS]((i, j) => 0);
      cells := Empty(ROWS);
      gameOver := false;
      score := 0;
      speed := StartSpeed;
      blockRow := 0;
      blockCol := COLS / 2;
      ghost var s := State();
      GenerateBlock();
      ResetRestores(s);
    }

    /** `actionPerformed`, one tick of the timer. */
    method ActionPerformed()
      requires Valid()
      modifies this, board
      ensures Valid() && State() == Tick(old(State()))
    {
      TickGood(State());
      if gameOver {
        return;
      }
      var ok := CanMove(blockRow + 1, blockCol);
      if ok {
        blockRow := blockRow + 1;
      } else {
        FitsWithin(cells, currentBlock, blockRow, blockCol);
        PlaceBlock();
      }
    }
  }

  /** After the loops of `placeBlock` have visited the cells of the piece
      before (r, c) in row order: the filled ones among them are written to
      the grid and lie on the board, and nothing else has changed. */
  ghost predicate StampedUpTo(g: Grid, g0: Grid, block: seq<seq<int>>, row: int, col: int, r: int, c: int)
    requires IsGrid(g) && IsGrid(g0) && Shape(block)
  {
    && (forall i, j :: 0 <= i < ROWS && 0 <= j < COLS ==>
         g[i][j] == if Covers(block, row, col, i, j) && (i - row < r || (i - row == r && j - col < c)) then 1 else g0[i][j])
    && (forall i, j :: 0 <= i < |block| && 0 <= j < |block[0]| && block[i][j] == 1 && (i < r || (i == r && j < c)) ==> row + i >= 0)
  }
}

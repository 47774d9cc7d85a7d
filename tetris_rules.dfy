/** The rules of the Tetris board as values: the grid of 20 rows of 10
    cells (1 filled, 0 empty), the falling T-piece, collision, placing a
    piece, clearing full rows, scoring, speeding up and the key handling.
    The class in module Tetris is proved to follow these functions. */
module TetrisRules {

  const ROWS := 20
  const COLS := 10
  const StartSpeed := 500
  const MinSpeed := 100

  /** Key codes of the arrow keys, the space bar and R. */
  const KeyLeft := 37
  const KeyRight := 39
  const KeyDown := 40
  const KeySpace := 32
  const KeyR := 82

  type Grid = seq<seq<int>>

  /** The only piece the game generates: a T pointing down. */
  const TPiece: seq<seq<int>> := [[1, 1, 1], [0, 1, 0]]

  /** The column at which a new piece appears in the top row. */
  const SpawnCol := COLS / 2 - 1

  function EmptyRow(): seq<int> {
    seq(COLS, _ => 0)
  }

  /** k empty rows. */
  function Empty(k: nat): (g: Grid)
    ensures |g| == k && forall i :: 0 <= i < k ==> g[i] == EmptyRow()
  {
    seq(k, _ => EmptyRow())
  }

  predicate IsGrid(g: Grid) {
    |g| == ROWS && forall i :: 0 <= i < |g| ==> |g[i]| == COLS
  }

  /** Every cell is 0 or 1. */
  predicate Binary(g: Grid) {
    forall i, j :: 0 <= i < |g| && 0 <= j < |g[i]| ==> g[i][j] == 0 || g[i][j] == 1
  }

  /** A rectangular piece of at least one row. */
  predicate Shape(block: seq<seq<int>>) {
    |block| > 0 && forall r :: 0 <= r < |block| ==> |block[r]| == |block[0]|
  }

  /** Cell (r, c) of the piece is filled and, with the piece's top-left
      corner at (row, col), lands above the bottom, between the walls and,
      when it is on the board, on a cell that is not filled. */
  predicate CellFits(g: Grid, block: seq<seq<int>>, row: int, col: int, r: int, c: int)
    requires IsGrid(g) && Shape(block) && 0 <= r < |block| && 0 <= c < |block[0]|
  {
    block[r][c] == 1 ==>
      row + r < ROWS && 0 <= col + c < COLS && (row + r >= 0 ==> g[row + r][col + c] != 1)
  }

  /** `canMove` without the game-over test: every filled cell of the piece fits. */
  predicate Fits(g: Grid, block: seq<seq<int>>, row: int, col: int)
    requires IsGrid(g) && Shape(block)
  {
    forall r, c :: 0 <= r < |block| && 0 <= c < |block[0]| ==> CellFits(g, block, row, col, r, c)
  }

  /** Every filled cell of the piece is above the bottom and between the
      walls (it may still be above the top row). */
  predicate Within(block: seq<seq<int>>, row: int, col: int)
    requires Shape(block)
  {
    forall r, c :: 0 <= r < |block| && 0 <= c < |block[0]| && block[r][c] == 1 ==> row + r < ROWS && 0 <= col + c < COLS
  }

  /** A piece that fits is within the walls and above the bottom. */
  lemma FitsWithin(g: Grid, block: seq<seq<int>>, row: int, col: int)
    requires IsGrid(g) && Shape(block) && Fits(g, block, row, col)
    ensures Within(block, row, col)
  {
    forall r, c | 0 <= r < |block| && 0 <= c < |block[0]| && block[r][c] == 1
      ensures row + r < ROWS && 0 <= col + c < COLS
    {
      assert CellFits(g, block, row, col, r, c);
    }
  }

  /** Some filled cell of the piece is above the top row. */
  predicate Above(block: seq<seq<int>>, row: int)
    requires Shape(block)
  {
    exists r, c :: 0 <= r < |block| && 0 <= c < |block[0]| && block[r][c] == 1 && row + r < 0
  }

  /** Board cell (i, j) lies under a filled cell of the piece. */
  predicate Covers(block: seq<seq<int>>, row: int, col: int, i: int, j: int)
    requires Shape(block)
  {
    0 <= i - row < |block| && 0 <= j - col < |block[0]| && block[i - row][j - col] == 1
  }

  /** The grid with every cell under a filled cell of the piece set to 1. */
  function Stamp(g: Grid, block: seq<seq<int>>, row: int, col: int): (g': Grid)
    requires IsGrid(g) && Shape(block)
    ensures IsGrid(g')
    ensures forall i, j :: 0 <= i < ROWS && 0 <= j < COLS ==>
      g'[i][j] == if Covers(block, row, col, i, j) then 1 else g[i][j]
  {
    seq(ROWS, i requires 0 <= i < ROWS =>
      seq(COLS, j requires 0 <= j < COLS => if Covers(block, row, col, i, j) then 1 else g[i][j]))
  }

  /** Grids that agree cell by cell are equal. */
  lemma SameGrid(a: Grid, b: Grid)
    requires IsGrid(a) && IsGrid(b)
    requires forall i, j :: 0 <= i < ROWS && 0 <= j < COLS ==> a[i][j] == b[i][j]
    ensures a == b
  {
    forall i | 0 <= i < ROWS
      ensures a[i] == b[i]
    {
      assert forall j :: 0 <= j < COLS ==> a[i][j] == b[i][j];
    }
  }

  /** A row is full when none of its cells is 0. */
  predicate Full(line: seq<int>) {
    forall c :: 0 <= c < |line| ==> line[c] != 0
  }

  predicate NoFull(g: Grid) {
    forall i :: 0 <= i < |g| ==> !Full(g[i])
  }

  /** The number of full rows. */
  function FullCount(rows: Grid): nat {
    if rows == [] then 0 else (if Full(rows[0]) then 1 else 0) + FullCount(rows[1..])
  }

  /** The rows that are not full, in their order: together with the full
      ones they account for every row, none of them is full, and each is a
      row of the input. */
  function Kept(rows: Grid): (kept: Grid)
    ensures |kept| + FullCount(rows) == |rows|
    ensures forall i :: 0 <= i < |kept| ==> !Full(kept[i]) && kept[i] in rows
  {
    if rows == [] then [] else (if Full(rows[0]) then [] else [rows[0]]) + Kept(rows[1..])
  }

  /** `checkRows` on a grid: every full row is removed, the rows above it
      move down, and as many empty rows appear at the top. */
  function Clean(rows: Grid): (g: Grid)
    ensures |g| == |rows|
  {
    Empty(FullCount(rows)) + Kept(rows)
  }

  /** Splitting the rows splits the kept rows and the count of full rows. */
  lemma {:induction false} KeptAppend(a: Grid, b: Grid)
    ensures Kept(a + b) == Kept(a) + Kept(b)
    ensures FullCount(a + b) == FullCount(a) + FullCount(b)
  {
    if a != [] {
      assert (a + b)[1..] == a[1..] + b;
      KeptAppend(a[1..], b);
      Associative(if Full(a[0]) then [] else [a[0]], Kept(a[1..]), Kept(b));
    } else {
      assert a + b == b;
    }
  }

  /** A row that is not full in front is kept in front. */
  lemma KeptCons(x: seq<int>, rows: Grid)
    requires !Full(x)
    ensures Kept([x] + rows) == [x] + Kept(rows) && FullCount([x] + rows) == FullCount(rows)
  {
    assert ([x] + rows)[1..] == rows;
  }

  /** A row added at the bottom is kept when it is not full and counted when it is. */
  lemma KeptSnoc(rows: Grid, x: seq<int>)
    ensures Full(x) ==> Kept(rows + [x]) == Kept(rows) && FullCount(rows + [x]) == FullCount(rows) + 1
    ensures !Full(x) ==> Kept(rows + [x]) == Kept(rows) + [x] && FullCount(rows + [x]) == FullCount(rows)
  {
    KeptAppend(rows, [x]);
    assert [x][1..] == [];
  }

  /** Scanning up past a row that is not full leaves the cleared result alone. */
  lemma KeepStep(g: Grid, r: int)
    requires 0 <= r < |g| && !Full(g[r])
    ensures Clean(g[..r]) + g[r..] == Clean(g[..r + 1]) + g[r + 1..]
    ensures FullCount(g[..r]) == FullCount(g[..r + 1])
  {
    var k, kept := FullCount(g[..r]), Kept(g[..r]);
    assert g[..r + 1] == g[..r] + [g[r]];
    KeptSnoc(g[..r], g[r]);
    assert g[r..] == [g[r]] + g[r + 1..];
    Associative(Empty(k), kept, [g[r]]);
    Associative(Empty(k) + kept, [g[r]], g[r + 1..]);
  }

  lemma Associative<T>(a: seq<T>, b: seq<T>, c: seq<T>)
    ensures a + (b + c) == (a + b) + c
  {
  }

  /** One more empty row at the top. */
  lemma EmptySnoc(k: nat)
    ensures Empty(k) + [EmptyRow()] == Empty(k + 1)
  {
  }

  /** Removing the full row r, shifting the rows above down and adding an
      empty row at the top leaves the cleared result alone and leaves one
      full row fewer in rows 0 .. r. */
  lemma ClearStep(g: Grid, r: int)
    requires 0 <= r < |g| && Full(g[r])
    ensures var g' := [EmptyRow()] + g[..r] + g[r + 1..];
      && |g'| == |g| && g'[r + 1..] == g[r + 1..]
      && Clean(g'[..r + 1]) + g'[r + 1..] == Clean(g[..r + 1]) + g[r + 1..]
      && FullCount(g'[..r + 1]) + 1 == FullCount(g[..r + 1])
  {
    var g' := [EmptyRow()] + g[..r] + g[r + 1..];
    var top := [EmptyRow()] + g[..r];
    assert g'[..r + 1] == top && g'[r + 1..] == g[r + 1..];
    assert !Full(EmptyRow()) by { assert EmptyRow()[0] == 0; }
    var k, kept := FullCount(g[..r]), Kept(g[..r]);
    KeptCons(EmptyRow(), g[..r]);
    assert g[..r + 1] == g[..r] + [g[r]];
    KeptSnoc(g[..r], g[r]);
    EmptySnoc(k);
    Associative(Empty(k), [EmptyRow()], kept);
  }

  /** Clearing keeps the grid's shape and its 0/1 cells and leaves no full row. */
  lemma CleanShape(g: Grid)
    requires IsGrid(g)
    ensures IsGrid(Clean(g)) && NoFull(Clean(g))
    ensures Binary(g) ==> Binary(Clean(g))
  {
    var k := FullCount(g);
    var c := Clean(g);
    assert !Full(EmptyRow()) by { assert EmptyRow()[0] == 0; }
    forall i | 0 <= i < |c|
      ensures |c[i]| == COLS && !Full(c[i]) && (c[i] == EmptyRow() || c[i] in g)
    {
      if i >= k {
        assert c[i] == Kept(g)[i - k];
      }
    }
  }

  /** A grid without full rows is left as it is: clearing twice is clearing once. */
  lemma {:induction false} CleanSettled(g: Grid)
    requires NoFull(g)
    ensures Clean(g) == g && FullCount(g) == 0
  {
    if g != [] {
      assert NoFull(g[1..]) by {
        forall i | 0 <= i < |g[1..]| ensures !Full(g[1..][i]) { assert g[1..][i] == g[i + 1]; }
      }
      CleanSettled(g[1..]);
      assert Kept(g) == [g[0]] + Kept(g[1..]);
    }
  }

  /** The whole state of the game. */
  datatype Game = Game(cells: Grid, block: seq<seq<int>>, row: int, col: int, over: bool, score: int, speed: int)

  /** The states the game can be in between two events: the board has the
      right shape, the falling piece is the T-piece and fits where it is
      unless the game is over. */
  predicate Sane(s: Game) {
    IsGrid(s.cells) && s.block == TPiece && (!s.over ==> Fits(s.cells, s.block, s.row, s.col))
  }

  /** Sane, and moreover: cells are 0 or 1, no row is full, the piece is not
      above the top, the score is not negative and the speed lies between
      the fastest and the starting delay. */
  predicate Good(s: Game) {
    && Sane(s) && Binary(s.cells) && NoFull(s.cells) && s.row >= 0 && s.score >= 0
    && MinSpeed <= s.speed <= StartSpeed
  }

  /** Java's `/`, which truncates toward zero. */
  function Quot(a: int, b: int): int
    requires b > 0
  {
    if a >= 0 then a / b else -((-a) / b)
  }

  /** `adjustSpeed`: the delay drops by 50 for every 500 points, but not below 100. */
  function Faster(speed: int, score: int): (s: int)
    ensures s >= MinSpeed
    ensures score >= 0 && speed >= MinSpeed ==> s <= speed
  {
    var next := speed - 50 * Quot(score, 500);
    if next > MinSpeed then next else MinSpeed
  }

  /** `generateBlock`: a new T-piece at the top in column 4; the game is
      over when it does not fit there. */
  function Spawn(s: Game): (s': Game)
    requires IsGrid(s.cells)
    ensures Sane(s')
  {
    s.(block := TPiece, row := 0, col := SpawnCol, over := s.over || !Fits(s.cells, TPiece, 0, SpawnCol))
  }

  /** `checkRows`: full rows are removed, 100 points per row, and the speed
      is adjusted when any row went. */
  function Clear(s: Game): Game {
    var k := FullCount(s.cells);
    var score := s.score + 100 * k;
    s.(cells := Clean(s.cells), score := score, speed := if k > 0 then Faster(s.speed, score) else s.speed)
  }

  /** `placeBlock`: a piece reaching above the top ends the game and nothing
      is written; otherwise its cells are filled, full rows are cleared and
      a new piece is generated. */
  function Place(s: Game): Game
    requires IsGrid(s.cells) && Shape(s.block) && Within(s.block, s.row, s.col)
  {
    if Above(s.block, s.row) then s.(over := true)
    else
      var placed := s.(cells := Stamp(s.cells, s.block, s.row, s.col));
      CleanShape(placed.cells);
      Spawn(Clear(placed))
  }

  /** The row a hard drop brings the piece to: it goes down while it fits
      one row lower. */
  function Landing(g: Grid, block: seq<seq<int>>, row: int, col: int): (r: int)
    requires IsGrid(g) && Shape(block) && |block[0]| > 0 && block[0][0] == 1
    ensures r >= row
    decreases ROWS - row
  {
    if Fits(g, block, row + 1, col) then
      assert CellFits(g, block, row + 1, col, 0, 0);
      Landing(g, block, row + 1, col)
    else row
  }

  /** A piece that fits where it is lands on a row where it still fits and
      from which it cannot go one lower, and it fits on every row on the way. */
  lemma {:induction false} LandingFits(g: Grid, block: seq<seq<int>>, row: int, col: int)
    requires IsGrid(g) && Shape(block) && |block[0]| > 0 && block[0][0] == 1
    requires Fits(g, block, row, col)
    ensures var r := Landing(g, block, row, col);
      Fits(g, block, r, col) && !Fits(g, block, r + 1, col) &&
      forall k :: row <= k <= r ==> Fits(g, block, k, col)
    decreases ROWS - row
  {
    if Fits(g, block, row + 1, col) {
      assert CellFits(g, block, row + 1, col, 0, 0);
      LandingFits(g, block, row + 1, col);
    }
  }

  /** `handleInput`: after the game is over only R (a reset) does anything;
      otherwise the arrows move the piece when it fits at the new place and
      the space bar drops it as far as it goes and places it. */
  function Input(s: Game, key: int): Game
    requires Sane(s)
  {
    if s.over then (if key == KeyR then Reset(s) else s)
    else if key == KeyLeft then (if Fits(s.cells, s.block, s.row, s.col - 1) then s.(col := s.col - 1) else s)
    else if key == KeyRight then (if Fits(s.cells, s.block, s.row, s.col + 1) then s.(col := s.col + 1) else s)
    else if key == KeyDown then (if Fits(s.cells, s.block, s.row + 1, s.col) then s.(row := s.row + 1) else s)
    else if key == KeySpace then
      var r := Landing(s.cells, s.block, s.row, s.col);
      LandingFits(s.cells, s.block, s.row, s.col);
      FitsWithin(s.cells, s.block, r, s.col);
      Place(s.(row := r))
    else s
  }

  /** `actionPerformed`, one tick of the timer: the piece falls one row or,
      when it cannot, is placed. */
  function Tick(s: Game): Game
    requires Sane(s)
  {
    if s.over then s
    else if Fits(s.cells, s.block, s.row + 1, s.col) then s.(row := s.row + 1)
    else
      FitsWithin(s.cells, s.block, s.row, s.col);
      Place(s)
  }

  /** `resetGame`: an empty board, score 0, the starting speed, and a new piece. */
  function Reset(s: Game): Game {
    Spawn(Game(Empty(ROWS), s.block, 0, COLS / 2, false, 0, StartSpeed))
  }

  /** The state right after construction and after every reset. */
  function Initial(): Game {
    Game(Empty(ROWS), TPiece, 0, SpawnCol, false, 0, StartSpeed)
  }

  /** Where the T-piece fits, spelled out: its three top cells and the
      cell below the middle one are between the walls, above the bottom and
      empty when on the board. */
  lemma FitsTPiece(g: Grid, row: int, col: int)
    requires IsGrid(g)
    ensures Fits(g, TPiece, row, col) <==>
      && 0 <= col && col + 2 < COLS && row + 1 < ROWS
      && (row >= 0 ==> g[row][col] != 1 && g[row][col + 1] != 1 && g[row][col + 2] != 1)
      && (row + 1 >= 0 ==> g[row + 1][col + 1] != 1)
  {
    if Fits(g, TPiece, row, col) {
      assert CellFits(g, TPiece, row, col, 0, 0) && CellFits(g, TPiece, row, col, 0, 2);
      assert CellFits(g, TPiece, row, col, 0, 1) && CellFits(g, TPiece, row, col, 1, 1);
    }
  }

  /** Once placed, a piece leaves no room for itself at the same place. */
  lemma StampBlocks(g: Grid, row: int, col: int)
    requires IsGrid(g) && Fits(g, TPiece, row, col) && row >= 0
    ensures !Fits(Stamp(g, TPiece, row, col), TPiece, row, col)
  {
    FitsTPiece(g, row, col);
    var g' := Stamp(g, TPiece, row, col);
    assert Covers(TPiece, row, col, row, col);
    assert !CellFits(g', TPiece, row, col, 0, 0);
  }

  /** A reset always gives the initial state, whatever the game was in:
      the new piece fits on the empty board, so the game is not over. */
  lemma ResetRestores(s: Game)
    ensures Reset(s) == Initial() && Good(Initial())
  {
    FitsTPiece(Empty(ROWS), 0, SpawnCol);
    assert !Full(EmptyRow()) by { assert EmptyRow()[0] == 0; }
  }

  /** Placing a piece from a good state (with the piece within the walls)
      gives a good state. */
  lemma PlaceGood(s: Game)
    requires Good(s.(over := false)) && Within(s.block, s.row, s.col)
    ensures Good(Place(s))
  {
    if !Above(s.block, s.row) {
      var g := Stamp(s.cells, s.block, s.row, s.col);
      assert Binary(g);
      CleanShape(g);
    }
  }

  /** Every key keeps the game in a good state. */
  lemma InputGood(s: Game, key: int)
    requires Good(s)
    ensures Good(Input(s, key))
  {
    if s.over {
      if key == KeyR {
        ResetRestores(s);
      }
    } else if key == KeySpace {
      DropGood(s);
    } else {
      MoveGood(s, key);
    }
  }

  /** The arrow keys keep the game in a good state. */
  lemma MoveGood(s: Game, key: int)
    requires Good(s) && !s.over && key != KeySpace
    ensures Good(Input(s, key))
  {
  }

  /** A hard drop keeps the game in a good state. */
  lemma DropGood(s: Game)
    requires Good(s) && !s.over
    ensures Good(Input(s, KeySpace))
  {
    var r := Landing(s.cells, s.block, s.row, s.col);
    LandingFits(s.cells, s.block, s.row, s.col);
    FitsWithin(s.cells, s.block, r, s.col);
    PlaceGood(s.(row := r));
  }

  /** Every tick of the timer keeps the game in a good state. */
  lemma TickGood(s: Game)
    requires Good(s)
    ensures Good(Tick(s))
  {
    if !s.over && !Fits(s.cells, s.block, s.row + 1, s.col) {
      FitsWithin(s.cells, s.block, s.row, s.col);
      PlaceGood(s);
    }
  }

  /** Between resets the score never goes down and the delay never goes up. */
  lemma InputMonotone(s: Game, key: int)
    requires Good(s)
    ensures !(s.over && key == KeyR) ==> s.score <= Input(s, key).score && Input(s, key).speed <= s.speed
    ensures s.score <= Tick(s).score && Tick(s).speed <= s.speed
  {
    if !s.over && key == KeySpace {
      var r := Landing(s.cells, s.block, s.row, s.col);
      LandingFits(s.cells, s.block, s.row, s.col);
      FitsWithin(s.cells, s.block, r, s.col);
    }
    if !s.over && !Fits(s.cells, s.block, s.row + 1, s.col) {
      FitsWithin(s.cells, s.block, s.row, s.col);
    }
  }
}

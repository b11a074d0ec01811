/**
 * The game session of the Minesweeper rule engine: the state the game
 * composable keeps (level index, game state, board, mine counter, timer
 * value) and the operations that change it.
 *
 * Every operation that changes the board builds a new array and then
 * replaces the `board` field with it, so an array once published as the
 * board is never written again.
 */
module Game {
  import opened Cells
  import opened Adjacency
  import opened Reveal
  import opened Generator

  /** The invariant of a session on `level` in `state`, with board b and
      flag counter minesLeft. */
  ghost predicate Session(level: LevelConfig, state: GameState, b: seq<Cell>, minesLeft: int)
    requires ValidLevel(level)
  {
    |b| == level.rows * level.cols &&
    WellFormed(b, level.cols) &&
    // every number is the count of adjacent mines
    Consistent(b, level.rows, level.cols) &&
    // no mines yet, or exactly the level's mines
    (Count(b, IsMine) == 0 || Count(b, IsMine) == level.totalMines) &&
    (state == NotStarted ==> Pristine(b, level.cols)) &&
    // until a loss, no mine and no flagged cell is revealed
    (state != Lost ==> forall i :: 0 <= i < |b| && b[i].isRevealed ==> !b[i].isMine && !b[i].isFlagged) &&
    (state == Won ==> minesLeft == 0 && Count(b, IsRevealed) == level.rows * level.cols - level.totalMines) &&
    // the flag counter is the level's mines minus the flags
    (state != Won ==> minesLeft + Count(b, IsFlagged) == level.totalMines)
  }

  /** startNewGame's board starts a session. */
  lemma NewGameSession(level: LevelConfig, b: seq<Cell>)
    requires ValidLevel(level)
    requires |b| == level.rows * level.cols && Pristine(b, level.cols)
    ensures Session(level, NotStarted, b, level.totalMines)
  {
    CountNone(b, IsMine);
    CountNone(b, IsFlagged);
    NoMinesConsistent(b, level.rows, level.cols);
  }

  /** Generating the board on the first click: the session keeps its invariant,
      now with exactly the level's mines, none of them on the safe cell. */
  lemma GeneratedSession(level: LevelConfig, b: seq<Cell>, minesLeft: int, g: seq<Cell>, safe: int)
    requires ValidLevel(level)
    requires Session(level, NotStarted, b, minesLeft)
    requires 0 <= safe < |b| && |g| == |b|
    requires Count(g, IsMine) == Count(b, IsMine) + level.totalMines
    requires g[safe].isMine == b[safe].isMine
    requires forall i :: 0 <= i < |b| ==> g[i] == b[i].(isMine := g[i].isMine, number := g[i].number)
    requires forall i :: 0 <= i < |g| ==> IndexNumberOk(g, level.rows, level.cols, i)
    ensures minesLeft == level.totalMines
    ensures Session(level, Running, g, minesLeft)
    ensures !g[safe].isMine && Count(g, IsMine) == level.totalMines
    ensures forall i :: 0 <= i < |g| ==> !g[i].isRevealed && !g[i].isFlagged
  {
    CountNone(b, IsMine);
    CountNone(b, IsFlagged);
    assert forall i :: 0 <= i < |g| ==> !g[i].isRevealed && !g[i].isFlagged;
    CountNone(g, IsFlagged);
    assert WellFormed(g, level.cols);
    forall i | 0 <= i < |g|
      ensures NumberOk(g, level.rows, level.cols, i)
    {
      assert IndexNumberOk(g, level.rows, level.cols, i);
    }
  }

  /** Clicking a mine: revealing every mine keeps the invariant of a lost session. */
  lemma LossSession(level: LevelConfig, g: seq<Cell>, t: seq<Cell>, minesLeft: int)
    requires ValidLevel(level)
    requires Session(level, Running, g, minesLeft)
    requires |t| == |g|
    requires forall j :: 0 <= j < |g| ==> t[j] == if g[j].isMine then g[j].(isRevealed := true) else g[j]
    ensures Session(level, Lost, t, minesLeft)
  {
    assert SameLayout(g, t);
    ConsistentFrame(g, t, level.rows, level.cols);
    CountSame(g, t, IsMine);
    CountSame(g, t, IsFlagged);
  }

  /** Clicking any other cell: after the flood fill the session is won exactly
      when rows * cols - totalMines cells are revealed, and keeps its invariant. */
  lemma FloodSession(level: LevelConfig, g: seq<Cell>, t: seq<Cell>, id: int, minesLeft: int)
    requires ValidLevel(level)
    requires Session(level, Running, g, minesLeft)
    requires 0 <= id < |g| && !g[id].isMine
    requires FloodPost(g, t, level.rows, level.cols, id)
    ensures Count(t, IsRevealed) == level.rows * level.cols - level.totalMines ==> Session(level, Won, t, 0)
    ensures Count(t, IsRevealed) != level.rows * level.cols - level.totalMines ==> Session(level, Running, t, minesLeft)
  {
    OnlyRevealsLayout(g, t);
    ConsistentFrame(g, t, level.rows, level.cols);
    CountSame(g, t, IsMine);
    CountSame(g, t, IsFlagged);
    assert MineSafe(g, level.rows, level.cols, id);
  }

  /** Toggling a flag moves the counter the other way and keeps the invariant of a running session. */
  lemma FlagSession(level: LevelConfig, state: GameState, b: seq<Cell>, minesLeft: int, id: int)
    requires ValidLevel(level)
    requires Session(level, state, b, minesLeft)
    requires 0 <= id < |b| && (state == NotStarted || state == Running) && !b[id].isRevealed
    ensures Session(level, Running, b[id := b[id].(isFlagged := !b[id].isFlagged)],
                    minesLeft + (if b[id].isFlagged then 1 else -1))
    ensures Count(b[id := b[id].(isFlagged := !b[id].isFlagged)], IsMine) == Count(b, IsMine)
    ensures state == NotStarted ==> Count(b, IsMine) == 0
  {
    var t := b[id := b[id].(isFlagged := !b[id].isFlagged)];
    CountUpdate(b, id, t[id], IsFlagged);
    CountUpdate(b, id, t[id], IsMine);
    assert SameLayout(b, t);
    ConsistentFrame(b, t, level.rows, level.cols);
    if state == NotStarted {
      CountNone(b, IsMine);
    }
  }

  /** On a board with nothing revealed, every revealed 0-numbered cell after a
      flood fill is one the fill revealed, so its neighbours are all settled. */
  lemma FreshFloodClosed(g: seq<Cell>, t: seq<Cell>, rows: int, cols: int)
    requires |g| == |t| == rows * cols
    requires forall i :: 0 <= i < |g| ==> !g[i].isRevealed
    requires Closed(g, t, rows, cols)
    ensures forall k :: 0 <= k < |t| && t[k].isRevealed && t[k].number == 0 ==> NeighboursSettled(t, rows, cols, k)
  {
    forall k | 0 <= k < |t| && t[k].isRevealed && t[k].number == 0
      ensures NeighboursSettled(t, rows, cols, k)
    {
      assert NewlyRevealed(g, t, k);
    }
  }

  /** What a click that is not ignored does to a running session on board g
      with counter m0, ending in state s1 with board t and counter m1:
      a mine loses the game and reveals every mine; any other cell floods
      from the clicked cell, revealing only cells its cascade reaches, and
      the game is won exactly when
      rows * cols - totalMines cells are revealed, the counter then set to 0. */
  ghost predicate PlayOutcome(level: LevelConfig, g: seq<Cell>, m0: int, id: int, s1: GameState, t: seq<Cell>, m1: int)
    requires ValidLevel(level) && |g| == level.rows * level.cols && 0 <= id < |g|
  {
    |t| == |g| && Session(level, s1, t, m1) && t[id].isRevealed &&
    (g[id].isMine ==>
      s1 == Lost && m1 == m0 &&
      forall j :: 0 <= j < |g| ==> t[j] == if g[j].isMine then g[j].(isRevealed := true) else g[j]) &&
    (!g[id].isMine ==>
      OnlyReveals(g, t) && Closed(g, t, level.rows, level.cols) &&
      Reached(g, t, level.rows, level.cols, id) &&
      (s1 == Won <==> Count(t, IsRevealed) == level.rows * level.cols - level.totalMines) &&
      (s1 == Won ==> m1 == 0) &&
      (s1 != Won ==> s1 == Running && m1 == m0))
  }

  /** The flood barrier of a click: a click on a cell that is not a mine
      changes no cell outside a region closed under the cascade around the
      clicked cell, so flagged cells on its border shield what lies behind. */
  lemma ClickConfined(level: LevelConfig, g: seq<Cell>, m0: int, id: int, s1: GameState, t: seq<Cell>, m1: int,
                      region: set<int>)
    requires ValidLevel(level) && |g| == level.rows * level.cols && 0 <= id < |g|
    requires PlayOutcome(level, g, m0, id, s1, t, m1) && !g[id].isMine
    requires id in region && Confining(g, level.rows, level.cols, region)
    ensures forall j :: 0 <= j < |g| && j !in region ==> t[j] == g[j]
  {
    FloodConfined(g, t, level.rows, level.cols, id, region);
  }

  /** Clicking a mine on a running board. */
  lemma MinePlay(level: LevelConfig, g: seq<Cell>, t: seq<Cell>, m0: int, id: int)
    requires ValidLevel(level)
    requires Session(level, Running, g, m0)
    requires 0 <= id < |g| && g[id].isMine
    requires |t| == |g|
    requires forall j :: 0 <= j < |g| ==> t[j] == if g[j].isMine then g[j].(isRevealed := true) else g[j]
    ensures PlayOutcome(level, g, m0, id, Lost, t, m0)
  {
    LossSession(level, g, t, m0);
  }

  /** Clicking a hidden, unflagged cell that is not a mine on a running board. */
  lemma FloodPlay(level: LevelConfig, g: seq<Cell>, t: seq<Cell>, m0: int, id: int)
    requires ValidLevel(level)
    requires Session(level, Running, g, m0)
    requires 0 <= id < |g| && !g[id].isMine && !Settled(g[id])
    requires FloodPost(g, t, level.rows, level.cols, id)
    ensures var won := Count(t, IsRevealed) == level.rows * level.cols - level.totalMines;
      PlayOutcome(level, g, m0, id, if won then Won else Running, t, if won then 0 else m0)
  {
    FloodSession(level, g, t, id, m0);
  }

  /** The board t with every cell hidden again. */
  function Concealed(t: seq<Cell>): (c: seq<Cell>)
    ensures |c| == |t| && forall j :: 0 <= j < |t| ==> c[j] == t[j].(isRevealed := false)
  {
    seq(|t|, j requires 0 <= j < |t| => t[j].(isRevealed := false))
  }

  /** On a board with nothing revealed, the cells a flood reveals are all the
      revealed cells of its result. */
  lemma FreshReached(g: seq<Cell>, t: seq<Cell>, rows: int, cols: int, id: int)
    requires |g| == |t| == rows * cols && 0 <= id < |g|
    requires forall i :: 0 <= i < |g| ==> !g[i].isRevealed
    requires Reached(g, t, rows, cols, id)
    ensures Reached(Concealed(t), t, rows, cols, id)
  {
    var c := Concealed(t);
    var m :| Linked(g, t, rows, cols, id, m);
    assert forall k :: 0 <= k < |t| ==> NewlyRevealed(g, t, k) == NewlyRevealed(c, t, k);
    forall j | 0 <= j < |t| && NewlyRevealed(c, t, j)
      ensures LinkOk(c, t, rows, cols, id, m, j)
    {
      assert LinkOk(g, t, rows, cols, id, m, j);
    }
    assert Linked(c, t, rows, cols, id, m);
  }

  /** What the first click promises beyond PlayOutcome on the generated board:
      the level's mines are on the board, the clicked cell is not one of
      them, so the game is not lost, no cell is flagged, every revealed
      0-numbered cell has all its neighbours revealed, and every revealed
      cell was reached by the cascade from the clicked cell. */
  ghost predicate FirstClickOutcome(level: LevelConfig, id: int, s1: GameState, t: seq<Cell>, m1: int)
    requires ValidLevel(level) && |t| == level.rows * level.cols && 0 <= id < |t|
  {
    Session(level, s1, t, m1) && s1 != Lost && t[id].isRevealed && !t[id].isMine &&
    Count(t, IsMine) == level.totalMines &&
    (forall i :: 0 <= i < |t| ==> !t[i].isFlagged) &&
    (forall k :: 0 <= k < |t| && t[k].isRevealed && t[k].number == 0 ==> NeighboursSettled(t, level.rows, level.cols, k)) &&
    Reached(Concealed(t), t, level.rows, level.cols, id) &&
    (s1 == Won <==> Count(t, IsRevealed) == level.rows * level.cols - level.totalMines) &&
    (s1 == Won ==> m1 == 0) &&
    (s1 != Won ==> s1 == Running && m1 == level.totalMines)
  }

  /** The first click's mines on the board t: exactly the cells that the
      draws choose on the pristine board b, away from the clicked cell, each
      keeping the number 0 of a fresh cell. */
  ghost predicate FirstClickMines(level: LevelConfig, b: seq<Cell>, id: int, draws: seq<int>, t: seq<Cell>)
  {
    |t| == |b| &&
    forall i :: 0 <= i < |t| ==>
      t[i].isMine == (i in Chosen(b, id, draws, level.totalMines)) && (t[i].isMine ==> t[i].number == 0)
  }

  /** generateBoard's mines on a pristine board are the chosen draws. */
  lemma GeneratedMines(level: LevelConfig, b: seq<Cell>, id: int, draws: seq<int>, g: seq<Cell>)
    requires ValidLevel(level) && Pristine(b, level.cols) && |g| == |b|
    requires forall i :: 0 <= i < |b| ==> g[i].isMine == (b[i].isMine || i in Chosen(b, id, draws, level.totalMines))
    requires forall i :: 0 <= i < |b| && g[i].isMine ==> g[i].number == b[i].number
    ensures FirstClickMines(level, b, id, draws, g)
  {
    forall i | 0 <= i < |g|
      ensures g[i].isMine == (i in Chosen(b, id, draws, level.totalMines)) && (g[i].isMine ==> g[i].number == 0)
    {
      assert b[i] == FreshCell(i, level.cols);
    }
  }

  /** A step that keeps every cell's mine flag and number keeps the first
      click's mines. */
  lemma FirstClickMinesKept(level: LevelConfig, b: seq<Cell>, id: int, draws: seq<int>, g: seq<Cell>, t: seq<Cell>)
    requires FirstClickMines(level, b, id, draws, g) && SameLayout(g, t)
    ensures FirstClickMines(level, b, id, draws, t)
  {
    forall i | 0 <= i < |t|
      ensures t[i].isMine == (i in Chosen(b, id, draws, level.totalMines)) && (t[i].isMine ==> t[i].number == 0)
    {
      assert g[i].isMine == t[i].isMine && g[i].number == t[i].number;
    }
  }

  /** The first click: generation followed by the flood fill from the safe cell,
      which changes no mine flag and no number. */
  lemma FirstClickPlay(level: LevelConfig, g: seq<Cell>, id: int, s1: GameState, t: seq<Cell>, m1: int)
    requires ValidLevel(level) && |g| == level.rows * level.cols && 0 <= id < |g|
    requires !g[id].isMine && Count(g, IsMine) == level.totalMines
    requires forall i :: 0 <= i < |g| ==> !g[i].isRevealed && !g[i].isFlagged
    requires PlayOutcome(level, g, level.totalMines, id, s1, t, m1)
    ensures FirstClickOutcome(level, id, s1, t, m1)
    ensures SameLayout(g, t)
  {
    OnlyRevealsLayout(g, t);
    CountSame(g, t, IsMine);
    FreshFloodClosed(g, t, level.rows, level.cols);
    FreshReached(g, t, level.rows, level.cols, id);
  }

  /** The win test of onCellClick, read on a board that holds the level's
      mines and shows none of them: rows * cols - totalMines cells are
      revealed exactly when every cell that is not a mine is revealed. */
  lemma WinCondition(level: LevelConfig, state: GameState, t: seq<Cell>, m: int)
    requires ValidLevel(level)
    requires Session(level, state, t, m) && state != Lost
    requires Count(t, IsMine) == level.totalMines
    ensures Count(t, IsRevealed) == level.rows * level.cols - level.totalMines <==>
      forall i :: 0 <= i < |t| && !t[i].isMine ==> t[i].isRevealed
  {
    CountComplement(t, IsMine, IsSafe);
    CountImplies(t, IsRevealed, IsSafe);
    if forall i :: 0 <= i < |t| && !t[i].isMine ==> t[i].isRevealed {
      CountImplies(t, IsSafe, IsRevealed);
    } else {
      var k :| 0 <= k < |t| && !t[k].isMine && !t[k].isRevealed;
      CountImpliesStrict(t, IsRevealed, IsSafe, k);
    }
  }

  /** A click is ignored once the game is over, and on a flagged or revealed cell. */
  predicate ClickIgnored(state: GameState, cell: Cell) {
    state == Won || state == Lost || cell.isFlagged || cell.isRevealed
  }

  /** A long-press is ignored once the game is over, and on a revealed cell. */
  predicate LongPressIgnored(state: GameState, cell: Cell) {
    state == Won || state == Lost || cell.isRevealed
  }

  /** The two phases of generation composed, on plain values: b0 is the
      board copied, m the board after mine placement, g after numbering.
      Only mine flags and numbers change, mines stay mines, the mines are the
      old ones and the chosen draws, every new mine was drawn, mine cells
      keep their number and the mine count is that of m. */
  lemma GeneratedLayout(b0: seq<Cell>, m: seq<Cell>, g: seq<Cell>, draws: seq<int>, chosen: set<int>)
    requires |m| == |b0| && |g| == |m|
    requires forall i :: 0 <= i < |b0| ==> m[i] == if i in chosen then b0[i].(isMine := true) else b0[i]
    requires forall i :: 0 <= i < |b0| ==>
      m[i] == b0[i] || (!b0[i].isMine && m[i] == b0[i].(isMine := true) && i in draws)
    requires forall i :: 0 <= i < |m| ==> g[i] == m[i].(number := g[i].number)
    requires forall i :: 0 <= i < |m| && g[i].isMine ==> g[i] == m[i]
    ensures Count(g, IsMine) == Count(m, IsMine)
    ensures forall i :: 0 <= i < |b0| ==>
      g[i] == b0[i].(isMine := g[i].isMine, number := g[i].number) && (b0[i].isMine ==> g[i].isMine)
    ensures forall i :: 0 <= i < |b0| && g[i].isMine ==>
      g[i].number == b0[i].number && (b0[i].isMine || i in draws)
    ensures forall i :: 0 <= i < |b0| ==> g[i].isMine == (b0[i].isMine || i in chosen)
  {
    CountSame(m, g, IsMine);
  }

  /** board.toMutableList(): a fresh array with the same cells. */
  method CopyBoard(a: array<Cell>) returns (b: array<Cell>)
    ensures fresh(b) && b[..] == a[..]
  {
    b := new Cell[a.Length](i reads a requires 0 <= i < a.Length => a[i]);
  }

  /** The part of onCellClick after the first-click generation, on the
      working copy `a` of a running board: a mine loses and reveals every
      mine, any other cell is flood-filled and the win condition checked. */
  method Play(a: array<Cell>, level: LevelConfig, id: int, minesLeft: int) returns (state: GameState, mines: int)
    requires ValidLevel(level) && a.Length == level.rows * level.cols && 0 <= id < a.Length
    requires Session(level, Running, a[..], minesLeft) && !Settled(a[id])
    modifies a
    ensures PlayOutcome(level, old(a[..]), minesLeft, id, state, a[..], mines)
  {
    ghost var g := a[..];
    mines := minesLeft;
    if a[id].isMine {
      state := Lost;
      RevealAllMines(a);
      MinePlay(level, g, a[..], minesLeft, id);
    } else {
      RevealCellsRecursive(a, level.rows, level.cols, id);
      FloodPlay(level, g, a[..], minesLeft, id);
      var revealedCount := Count(a[..], IsRevealed);
      state := Running;
      if revealedCount == level.rows * level.cols - level.totalMines {
        state := Won;
        mines := 0;
      }
    }
  }

  class MinesweeperGame {
    var currentLevelIndex: int
    var gameState: GameState
    var board: array<Cell>
    var minesLeft: int
    var timeSeconds: int

    function Level(): (l: LevelConfig)
      reads this
      requires 0 <= currentLevelIndex < |Levels|
    {
      Levels[currentLevelIndex]
    }

    /** The invariant every operation keeps. */
    ghost predicate Valid()
      reads this, board
    {
      0 <= currentLevelIndex < |Levels| && ValidLevel(Levels[currentLevelIndex]) &&
      Session(Levels[currentLevelIndex], gameState, board[..], minesLeft)
    }

    /** The first composition: level 0, then the initial startNewGame. */
    constructor ()
      ensures Valid() && fresh(board)
      ensures currentLevelIndex == 0 && gameState == NotStarted
      ensures minesLeft == Levels[0].totalMines && timeSeconds == 0
      ensures Pristine(board[..], Levels[0].cols) && board.Length == Levels[0].rows * Levels[0].cols
    {
      currentLevelIndex := 0;
      gameState := NotStarted;
      board := new Cell[0];
      minesLeft := Levels[0].totalMines;
      timeSeconds := 0;
      new;
      StartNewGame();
    }

    /** startNewGame: a board of rows * cols new cells in row-major order, the
        counter back at the level's mine count, the timer at 0. */
    method StartNewGame()
      requires 0 <= currentLevelIndex < |Levels|
      modifies this
      ensures Valid() && fresh(board)
      ensures currentLevelIndex == old(currentLevelIndex)
      ensures gameState == NotStarted && minesLeft == Level().totalMines && timeSeconds == 0
      ensures board.Length == Level().rows * Level().cols
      ensures forall i :: 0 <= i < board.Length ==>
        board[i].id == i && board[i].row == i / Level().cols && board[i].col == i % Level().cols &&
        !board[i].isMine && board[i].number == 0 && !board[i].isRevealed && !board[i].isFlagged
    {
      var level := Levels[currentLevelIndex];
      assert ValidLevel(level) by { CatalogValid(); }
      gameState := NotStarted;
      minesLeft := level.totalMines;
      timeSeconds := 0;
      board := new Cell[level.rows * level.cols](i => FreshCell(i, level.cols));
      assert Pristine(board[..], level.cols);
      NewGameSession(level, board[..]);
    }

    /** nextLevel, followed by the reset its level change triggers. */
    method NextLevel()
      requires Valid()
      modifies this
      ensures Valid() && fresh(board)
      ensures currentLevelIndex == NextIndex(old(currentLevelIndex))
      ensures gameState == NotStarted && minesLeft == Level().totalMines && timeSeconds == 0
      ensures board.Length == Level().rows * Level().cols && Pristine(board[..], Level().cols)
    {
      if currentLevelIndex < |Levels| - 1 {
        currentLevelIndex := currentLevelIndex + 1;
      } else {
        currentLevelIndex := 0;
      }
      StartNewGame();
    }

    /** generateBoard: copy the current `board` field, mine cells drawn at
        random (the draws) until the level's mines are placed, never the safe
        cell and never one twice, then write every non-mine cell's count of
        adjacent mines. */
    method GenerateBoard(safeCellId: int, draws: seq<int>) returns (newBoard: array<Cell>)
      requires 0 <= currentLevelIndex < |Levels|
      requires board.Length == Level().rows * Level().cols
      requires 0 <= safeCellId < board.Length
      requires DrawsSuffice(board[..], safeCellId, draws, Level().totalMines)
      ensures fresh(newBoard) && newBoard.Length == board.Length
      ensures Count(newBoard[..], IsMine) == Count(board[..], IsMine) + Level().totalMines
      ensures newBoard[safeCellId].isMine == board[safeCellId].isMine
      // only the mine flag and the number change; mines stay mines
      ensures forall i :: 0 <= i < board.Length ==>
        newBoard[i] == board[i].(isMine := newBoard[i].isMine, number := newBoard[i].number) &&
        (board[i].isMine ==> newBoard[i].isMine)
      // the mines are the old ones and the first totalMines eligible draws
      ensures forall i :: 0 <= i < board.Length ==>
        newBoard[i].isMine == (board[i].isMine || i in Chosen(board[..], safeCellId, draws, Level().totalMines))
      // new mines were drawn, and mine cells keep their number
      ensures forall i :: 0 <= i < board.Length && newBoard[i].isMine ==>
        newBoard[i].number == board[i].number && (board[i].isMine || i in draws)
      ensures forall i :: 0 <= i < board.Length ==> IndexNumberOk(newBoard[..], Level().rows, Level().cols, i)
    {
      var level := Levels[currentLevelIndex];
      assert ValidLevel(level) by { CatalogValid(); }
      ghost var b0 := board[..];
      newBoard := CopyBoard(board);
      PlaceMines(newBoard, safeCellId, draws, level.totalMines);
      ghost var m := newBoard[..];
      WriteNumbers(newBoard, level.rows, level.cols);
      ghost var g := newBoard[..];
      GeneratedLayout(b0, m, g, draws, Chosen(b0, safeCellId, draws, level.totalMines));
      assert board[..] == b0 && newBoard[..] == g;
    }

    /** The working copy onCellClick starts from: the board itself during a
        game, the generated board on the first click. */
    method WorkingBoard(id: int, draws: seq<int>) returns (currentBoard: array<Cell>)
      requires Valid()
      requires 0 <= id < board.Length && !Settled(board[id])
      requires gameState == NotStarted || gameState == Running
      requires gameState == NotStarted ==> DrawsSuffice(board[..], id, draws, Level().totalMines)
      ensures fresh(currentBoard) && currentBoard.Length == board.Length
      ensures Session(Level(), Running, currentBoard[..], minesLeft) && !Settled(currentBoard[id])
      ensures gameState == Running ==> currentBoard[..] == board[..]
      ensures gameState == NotStarted ==>
        minesLeft == Level().totalMines && !currentBoard[id].isMine &&
        Count(currentBoard[..], IsMine) == Level().totalMines &&
        forall i :: 0 <= i < currentBoard.Length ==> !currentBoard[i].isRevealed && !currentBoard[i].isFlagged
      // the generated mines are exactly the cells the draws choose
      ensures gameState == NotStarted ==> FirstClickMines(Level(), board[..], id, draws, currentBoard[..])
    {
      var level := Levels[currentLevelIndex];
      if gameState == NotStarted {
        ghost var b0 := board[..];
        currentBoard := GenerateBoard(id, draws);
        GeneratedSession(level, b0, minesLeft, currentBoard[..], id);
        GeneratedMines(level, b0, id, draws, currentBoard[..]);
      } else {
        currentBoard := CopyBoard(board);
      }
    }

    /** onCellClick on the cell with id `id`; `draws` stands for the random
        indices generateBoard would draw if this is the first click. */
    method OnCellClick(id: int, draws: seq<int>)
      requires Valid()
      requires 0 <= id < board.Length
      requires gameState == NotStarted ==> DrawsSuffice(board[..], id, draws, Level().totalMines)
      modifies this
      ensures Valid()
      ensures currentLevelIndex == old(currentLevelIndex) && timeSeconds == old(timeSeconds)
      // ignored clicks change nothing
      ensures ClickIgnored(old(gameState), old(board[id])) ==>
        gameState == old(gameState) && board == old(board) && minesLeft == old(minesLeft)
      ensures !ClickIgnored(old(gameState), old(board[id])) ==> fresh(board)
      // a click during the game reveals or loses
      ensures old(gameState) == Running && !ClickIgnored(old(gameState), old(board[id])) ==>
        PlayOutcome(Level(), old(board[..]), old(minesLeft), id, gameState, board[..], minesLeft)
      // the first click places the mines away from the clicked cell and never loses
      ensures old(gameState) == NotStarted && !ClickIgnored(old(gameState), old(board[id])) ==>
        FirstClickOutcome(Level(), id, gameState, board[..], minesLeft) &&
        FirstClickMines(Level(), old(board[..]), id, draws, board[..])
    {
      var cell := board[id];
      if gameState == Won || gameState == Lost {
        return;
      }
      if cell.isFlagged || cell.isRevealed {
        return;
      }
      Click(id, draws);
    }

    /** The part of onCellClick past its guards: the working board (generated
        on the first click, which also sets Running), the click's outcome on
        it, and the new board published. */
    method Click(id: int, draws: seq<int>)
      requires Valid()
      requires 0 <= id < board.Length && !ClickIgnored(gameState, board[id])
      requires gameState == NotStarted ==> DrawsSuffice(board[..], id, draws, Level().totalMines)
      modifies this
      ensures Valid() && fresh(board)
      ensures currentLevelIndex == old(currentLevelIndex) && timeSeconds == old(timeSeconds)
      ensures old(gameState) == Running ==>
        PlayOutcome(Level(), old(board[..]), old(minesLeft), id, gameState, board[..], minesLeft)
      ensures old(gameState) == NotStarted ==>
        FirstClickOutcome(Level(), id, gameState, board[..], minesLeft) &&
        FirstClickMines(Level(), old(board[..]), id, draws, board[..])
    {
      var level := Levels[currentLevelIndex];
      ghost var b0 := board[..];
      var currentBoard := WorkingBoard(id, draws);
      ghost var g := currentBoard[..];
      var state, mines := Play(currentBoard, level, id, minesLeft);
      ghost var t := currentBoard[..];
      if gameState == NotStarted {
        FirstClickPlay(level, g, id, state, t, mines);
        FirstClickMinesKept(level, b0, id, draws, g, t);
      }
      assert Session(level, state, t, mines);
      gameState, minesLeft, board := state, mines, currentBoard;
      assert board[..] == t && old(board[..]) == b0 && Levels[currentLevelIndex] == level;
    }

    /** onCellLongPress on the cell with id `id`: toggle its flag and move the
        counter the other way. */
    method OnCellLongPress(id: int)
      requires Valid()
      requires 0 <= id < board.Length
      modifies this
      ensures Valid()
      ensures currentLevelIndex == old(currentLevelIndex) && timeSeconds == old(timeSeconds)
      ensures LongPressIgnored(old(gameState), old(board[id])) ==>
        gameState == old(gameState) && board == old(board) && minesLeft == old(minesLeft)
      ensures !LongPressIgnored(old(gameState), old(board[id])) ==>
        fresh(board) && gameState == Running &&
        board[..] == old(board[..])[id := old(board[id]).(isFlagged := !old(board[id]).isFlagged)] &&
        minesLeft == old(minesLeft) + (if old(board[id]).isFlagged then 1 else -1)
      // a long-press before the first click starts the game with no mines placed
      ensures old(gameState) == NotStarted ==> gameState == Running && Count(board[..], IsMine) == 0
    {
      var cell := board[id];
      if gameState == Won || gameState == Lost {
        return;
      }
      if cell.isRevealed {
        return;
      }
      var level := Levels[currentLevelIndex];
      ghost var b0 := board[..];
      ghost var m0 := minesLeft;
      FlagSession(level, gameState, b0, minesLeft, id);
      ghost var t := b0[id := cell.(isFlagged := !cell.isFlagged)];
      ghost var m1 := m0 + (if cell.isFlagged then 1 else -1);
      assert Session(level, Running, t, m1);
      if gameState == NotStarted {
        gameState := Running;
      }
      var newBoard := CopyBoard(board);
      var isFlagged := !cell.isFlagged;
      newBoard[id] := cell.(isFlagged := isFlagged);
      assert newBoard[..] == t;
      if isFlagged {
        minesLeft := minesLeft - 1;
      } else {
        minesLeft := minesLeft + 1;
      }
      assert minesLeft == m1;
      board := newBoard;
      assert board[..] == t;
    }
  }
}

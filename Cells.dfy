/**
 * Cells, level configurations and game states of the Minesweeper rule
 * engine, the fixed level catalog, and counting over boards.
 *
 * A board is a sequence of cells in row-major order: on a grid `cols` wide
 * the cell with id i sits at row i / cols and column i % cols.
 */
module Cells {

  /** One square of the grid. `number` is the count of adjacent mines; it is
      meaningful only for a cell that is not a mine. */
  datatype Cell = Cell(
    id: int,
    row: int,
    col: int,
    isMine: bool,
    number: int,
    isRevealed: bool,
    isFlagged: bool)

  /** A level: grid height, grid width and number of mines (the display name
      is presentation only and is not kept). */
  datatype LevelConfig = LevelConfig(rows: int, cols: int, totalMines: int)

  datatype GameState = NotStarted | Running | Won | Lost

  /** The three preset levels, ordered by difficulty. */
  const Levels: seq<LevelConfig> := [
    LevelConfig(8, 8, 8),
    LevelConfig(10, 10, 15),
    LevelConfig(14, 10, 30)
  ]

  /** A level whose grid is non-empty and holds its mines with room to spare. */
  predicate ValidLevel(level: LevelConfig) {
    0 < level.rows && 0 < level.cols && 0 < level.totalMines < level.rows * level.cols
  }

  lemma CatalogValid()
    ensures forall i :: 0 <= i < |Levels| ==> ValidLevel(Levels[i])
  {
  }

  /** The level that follows level i: the next one, or the first after the last. */
  function NextIndex(i: int): (j: int)
    requires 0 <= i < |Levels|
    ensures 0 <= j < |Levels|
    ensures j == (i + 1) % |Levels|
  {
    if i < |Levels| - 1 then i + 1 else 0
  }

  /** The cell with id i of a new game on a grid `cols` wide. */
  function FreshCell(i: int, cols: int): (c: Cell)
    requires 0 < cols
  {
    Cell(i, i / cols, i % cols, false, 0, false, false)
  }

  /** Every cell is the new-game cell of its index. */
  ghost predicate Pristine(b: seq<Cell>, cols: int)
    requires 0 < cols
  {
    forall i :: 0 <= i < |b| ==> b[i] == FreshCell(i, cols)
  }

  /** Every cell's id is its index and its row and column are derived from it. */
  ghost predicate WellFormed(b: seq<Cell>, cols: int)
    requires 0 < cols
  {
    forall i :: 0 <= i < |b| ==> b[i].id == i && b[i].row == i / cols && b[i].col == i % cols
  }

  predicate IsMine(c: Cell) { c.isMine }
  predicate IsRevealed(c: Cell) { c.isRevealed }
  predicate IsHidden(c: Cell) { !c.isRevealed }
  predicate IsFlagged(c: Cell) { c.isFlagged }
  predicate IsSafe(c: Cell) { !c.isMine }

  /** The number of cells of s that satisfy p. */
  function Count(s: seq<Cell>, p: Cell -> bool): (n: nat)
    ensures n <= |s|
  {
    if s == [] then 0 else (if p(s[0]) then 1 else 0) + Count(s[1..], p)
  }

  /** Replacing one cell moves the count by the difference of the two cells. */
  lemma {:induction false} CountUpdate(s: seq<Cell>, i: int, x: Cell, p: Cell -> bool)
    requires 0 <= i < |s|
    ensures Count(s[i := x], p) == Count(s, p) - (if p(s[i]) then 1 else 0) + (if p(x) then 1 else 0)
  {
    if i == 0 {
      assert s[i := x][1..] == s[1..];
    } else {
      assert s[i := x][1..] == s[1..][i - 1 := x];
      CountUpdate(s[1..], i - 1, x, p);
    }
  }

  /** If every cell of t that satisfies p sits where a cell of s satisfies p,
      t has at most as many such cells. */
  lemma {:induction false} CountMono(s: seq<Cell>, t: seq<Cell>, p: Cell -> bool)
    requires |s| == |t|
    requires forall j :: 0 <= j < |t| && p(t[j]) ==> p(s[j])
    ensures Count(t, p) <= Count(s, p)
  {
    if s != [] {
      CountMono(s[1..], t[1..], p);
    }
  }

  /** Boards that agree on p position by position have the same count. */
  lemma CountSame(s: seq<Cell>, t: seq<Cell>, p: Cell -> bool)
    requires |s| == |t|
    requires forall j :: 0 <= j < |s| ==> p(s[j]) == p(t[j])
    ensures Count(s, p) == Count(t, p)
  {
    CountMono(s, t, p);
    CountMono(t, s, p);
  }

  /** No cell satisfies p: the count is zero. */
  lemma {:induction false} CountNone(s: seq<Cell>, p: Cell -> bool)
    requires forall j :: 0 <= j < |s| ==> !p(s[j])
    ensures Count(s, p) == 0
  {
    if s != [] {
      CountNone(s[1..], p);
    }
  }

  /** On one board, a predicate p that implies q counts no more cells than q. */
  lemma {:induction false} CountImplies(s: seq<Cell>, p: Cell -> bool, q: Cell -> bool)
    requires forall j :: 0 <= j < |s| && p(s[j]) ==> q(s[j])
    ensures Count(s, p) <= Count(s, q)
  {
    if s != [] {
      CountImplies(s[1..], p, q);
    }
  }

  /** As CountImplies, strictly fewer when some cell satisfies q and not p. */
  lemma {:induction false} CountImpliesStrict(s: seq<Cell>, p: Cell -> bool, q: Cell -> bool, k: int)
    requires forall j :: 0 <= j < |s| && p(s[j]) ==> q(s[j])
    requires 0 <= k < |s| && q(s[k]) && !p(s[k])
    ensures Count(s, p) < Count(s, q)
  {
    if k == 0 {
      CountImplies(s[1..], p, q);
    } else {
      CountImpliesStrict(s[1..], p, q, k - 1);
    }
  }

  /** Complementary predicates split the board between them. */
  lemma {:induction false} CountComplement(s: seq<Cell>, p: Cell -> bool, q: Cell -> bool)
    requires forall j :: 0 <= j < |s| ==> q(s[j]) == !p(s[j])
    ensures Count(s, p) + Count(s, q) == |s|
  {
    if s != [] {
      CountComplement(s[1..], p, q);
    }
  }
}

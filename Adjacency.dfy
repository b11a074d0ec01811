/**
 * The number written on a cell: how many of its up to eight grid neighbours
 * (sharing an edge or a corner, never wrapping round an edge) are mines.
 */
module Adjacency {
  import opened Cells

  predicate InGrid(rows: int, cols: int, r: int, c: int) {
    0 <= r < rows && 0 <= c < cols
  }

  /** The row-major index of an in-grid position is a valid board index. */
  lemma IndexInGrid(rows: int, cols: int, r: int, c: int)
    requires InGrid(rows, cols, r, c)
    ensures 0 <= r * cols + c < rows * cols
  {
    MulNonNeg(r, cols);
    MulNonNeg(rows - (r + 1), cols);
    assert (r + 1) * cols == r * cols + cols;
    assert rows * cols == (r + 1) * cols + (rows - (r + 1)) * cols;
  }

  lemma MulNonNeg(x: int, y: int)
    requires 0 <= x && 0 <= y
    ensures 0 <= x * y
  {
  }

  /** 1 when (r, c) is on the grid and holds a mine, 0 otherwise. */
  function MineAt(b: seq<Cell>, rows: int, cols: int, r: int, c: int): (m: nat)
    requires |b| == rows * cols
    ensures m <= 1
    ensures m == 1 <==> InGrid(rows, cols, r, c) && 0 <= r * cols + c < |b| && b[r * cols + c].isMine
  {
    if InGrid(rows, cols, r, c) then
      IndexInGrid(rows, cols, r, c);
      if b[r * cols + c].isMine then 1 else 0
    else
      0
  }

  /** The number of mines among the eight neighbours of (r, c). */
  function AdjacentMines(b: seq<Cell>, rows: int, cols: int, r: int, c: int): (n: nat)
    requires |b| == rows * cols
    ensures n <= 8
  {
    MineAt(b, rows, cols, r - 1, c - 1) + MineAt(b, rows, cols, r - 1, c) + MineAt(b, rows, cols, r - 1, c + 1) +
    MineAt(b, rows, cols, r, c - 1)                                        + MineAt(b, rows, cols, r, c + 1) +
    MineAt(b, rows, cols, r + 1, c - 1) + MineAt(b, rows, cols, r + 1, c) + MineAt(b, rows, cols, r + 1, c + 1)
  }

  /** Cell i, unless it is a mine, carries the number of mines around its own row and column. */
  ghost predicate NumberOk(b: seq<Cell>, rows: int, cols: int, i: int)
    requires |b| == rows * cols && 0 <= i < |b|
  {
    !b[i].isMine ==> b[i].number == AdjacentMines(b, rows, cols, b[i].row, b[i].col)
  }

  /** Cell i, unless it is a mine, carries the number of mines around the row
      and column that index i stands for. */
  ghost predicate IndexNumberOk(b: seq<Cell>, rows: int, cols: int, i: int)
    requires |b| == rows * cols && 0 < cols && 0 <= i < |b|
  {
    !b[i].isMine ==> b[i].number == AdjacentMines(b, rows, cols, i / cols, i % cols)
  }

  /** Every cell that is not a mine carries the number of mines around it. */
  ghost predicate Consistent(b: seq<Cell>, rows: int, cols: int)
    requires |b| == rows * cols
  {
    forall i :: 0 <= i < |b| ==> NumberOk(b, rows, cols, i)
  }

  /** Two boards that agree cell by cell on identity, mine and number. */
  ghost predicate SameLayout(s: seq<Cell>, t: seq<Cell>) {
    |s| == |t| &&
    forall j :: 0 <= j < |s| ==>
      s[j].id == t[j].id && s[j].row == t[j].row && s[j].col == t[j].col &&
      s[j].isMine == t[j].isMine && s[j].number == t[j].number
  }

  /** The mine count around a position depends on where the mines are and nothing else. */
  lemma AdjacentFrame(s: seq<Cell>, t: seq<Cell>, rows: int, cols: int, r: int, c: int)
    requires |s| == |t| == rows * cols
    requires forall j :: 0 <= j < |s| ==> s[j].isMine == t[j].isMine
    ensures AdjacentMines(s, rows, cols, r, c) == AdjacentMines(t, rows, cols, r, c)
  {
  }

  /** Revealing or flagging cells keeps a board consistent. */
  lemma ConsistentFrame(s: seq<Cell>, t: seq<Cell>, rows: int, cols: int)
    requires |s| == rows * cols
    requires SameLayout(s, t)
    requires Consistent(s, rows, cols)
    ensures Consistent(t, rows, cols)
  {
    forall i | 0 <= i < |t|
      ensures NumberOk(t, rows, cols, i)
    {
      assert NumberOk(s, rows, cols, i);
      AdjacentFrame(s, t, rows, cols, t[i].row, t[i].col);
    }
  }

  /** A board without mines whose numbers are all 0 is consistent. */
  lemma NoMinesConsistent(b: seq<Cell>, rows: int, cols: int)
    requires |b| == rows * cols
    requires forall j :: 0 <= j < |b| ==> !b[j].isMine && b[j].number == 0
    ensures Consistent(b, rows, cols)
  {
  }

  /** Around a position whose mine count is 0, no in-grid neighbour is a mine. */
  lemma NoMineNearZero(b: seq<Cell>, rows: int, cols: int, r: int, c: int, dr: int, dc: int)
    requires |b| == rows * cols
    requires AdjacentMines(b, rows, cols, r, c) == 0
    requires -1 <= dr <= 1 && -1 <= dc <= 1 && (dr != 0 || dc != 0)
    requires InGrid(rows, cols, r + dr, c + dc)
    ensures 0 <= (r + dr) * cols + (c + dc) < |b| && !b[(r + dr) * cols + (c + dc)].isMine
  {
    IndexInGrid(rows, cols, r + dr, c + dc);
    assert MineAt(b, rows, cols, r + dr, c + dc) == 0;
  }

  // The neighbour count in the order generateBoard's nested loops visit the
  // offsets: dr from -1 to 1 outside, dc from -1 to 1 inside, (0, 0) skipped.

  function Offset(b: seq<Cell>, rows: int, cols: int, r: int, c: int, dr: int, dc: int): (m: nat)
    requires |b| == rows * cols
  {
    if dr == 0 && dc == 0 then 0 else MineAt(b, rows, cols, r + dr, c + dc)
  }

  /** The offsets (dr, -1) .. (dr, dcEnd - 1) of one row of the neighbourhood. */
  function RowPrefix(b: seq<Cell>, rows: int, cols: int, r: int, c: int, dr: int, dcEnd: int): (n: nat)
    requires |b| == rows * cols
    requires -1 <= dcEnd <= 2
    decreases dcEnd + 1
  {
    if dcEnd == -1 then 0 else RowPrefix(b, rows, cols, r, c, dr, dcEnd - 1) + Offset(b, rows, cols, r, c, dr, dcEnd - 1)
  }

  /** The full rows -1 .. drEnd - 1 of the neighbourhood. */
  function GridPrefix(b: seq<Cell>, rows: int, cols: int, r: int, c: int, drEnd: int): (n: nat)
    requires |b| == rows * cols
    requires -1 <= drEnd <= 2
    decreases drEnd + 1
  {
    if drEnd == -1 then 0 else GridPrefix(b, rows, cols, r, c, drEnd - 1) + RowPrefix(b, rows, cols, r, c, drEnd - 1, 2)
  }

  /** Visiting the nine offsets in loop order and skipping the centre counts the eight neighbours. */
  lemma LoopOrderCount(b: seq<Cell>, rows: int, cols: int, r: int, c: int)
    requires |b| == rows * cols
    ensures GridPrefix(b, rows, cols, r, c, 2) == AdjacentMines(b, rows, cols, r, c)
  {
    forall dr | -1 <= dr <= 1
      ensures RowPrefix(b, rows, cols, r, c, dr, 2) ==
              Offset(b, rows, cols, r, c, dr, -1) + Offset(b, rows, cols, r, c, dr, 0) + Offset(b, rows, cols, r, c, dr, 1)
    {
      assert RowPrefix(b, rows, cols, r, c, dr, 0) == Offset(b, rows, cols, r, c, dr, -1);
    }
    assert GridPrefix(b, rows, cols, r, c, 0) == RowPrefix(b, rows, cols, r, c, -1, 2);
  }

  /** An in-grid offset other than the centre counts the mine at its index. */
  lemma OffsetAt(b: seq<Cell>, rows: int, cols: int, r: int, c: int, dr: int, dc: int)
    requires |b| == rows * cols && (dr != 0 || dc != 0) && InGrid(rows, cols, r + dr, c + dc)
    ensures 0 <= (r + dr) * cols + (c + dc) < |b|
    ensures Offset(b, rows, cols, r, c, dr, dc) == if b[(r + dr) * cols + (c + dc)].isMine then 1 else 0
  {
    IndexInGrid(rows, cols, r + dr, c + dc);
  }

  /** The neighbour count of generateBoard: the in-grid mines among the
      eight offsets around (r, c), visited by two nested loops. */
  method CountAdjacentMines(a: array<Cell>, rows: int, cols: int, r: int, c: int) returns (count: nat)
    requires a.Length == rows * cols
    ensures count == AdjacentMines(a[..], rows, cols, r, c)
  {
    ghost var b := a[..];
    count := 0;
    for dr := -1 to 2
      invariant count == GridPrefix(b, rows, cols, r, c, dr)
    {
      for dc := -1 to 2
        invariant count == GridPrefix(b, rows, cols, r, c, dr) + RowPrefix(b, rows, cols, r, c, dr, dc)
      {
        assert RowPrefix(b, rows, cols, r, c, dr, dc + 1) ==
               RowPrefix(b, rows, cols, r, c, dr, dc) + Offset(b, rows, cols, r, c, dr, dc);
        if dr == 0 && dc == 0 {
          continue;
        }
        var nr := r + dr;
        var nc := c + dc;
        if 0 <= nr < rows && 0 <= nc < cols {
          OffsetAt(b, rows, cols, r, c, dr, dc);
          if a[nr * cols + nc].isMine {
            count := count + 1;
          }
        }
      }
      assert GridPrefix(b, rows, cols, r, c, dr + 1) ==
             GridPrefix(b, rows, cols, r, c, dr) + RowPrefix(b, rows, cols, r, c, dr, 2);
    }
    LoopOrderCount(b, rows, cols, r, c);
  }

  /** The worked example of a 3 x 3 grid with mines at ids 0 and 4: the cell
      with id 1 touches both, the cell with id 8 touches only the centre. */
  lemma ThreeByThreeExample(b: seq<Cell>)
    requires |b| == 9
    requires forall j :: 0 <= j < 9 ==> (b[j].isMine <==> j == 0 || j == 4)
    ensures AdjacentMines(b, 3, 3, 0, 1) == 2
    ensures AdjacentMines(b, 3, 3, 2, 2) == 1
  {
    assert b[0].isMine && b[4].isMine;
    assert !b[1].isMine && !b[2].isMine && !b[3].isMine && !b[5].isMine && !b[6].isMine && !b[7].isMine && !b[8].isMine;
  }
}

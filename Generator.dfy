/**
 * The two phases of board generation, each in place on the new board:
 * rejection sampling of mine positions from a stream of random draws, then
 * the adjacency number of every cell that is not a mine.
 *
 * The random source is replaced by `draws`, the indices it would return in
 * order.
 */
module Generator {
  import opened Cells
  import opened Adjacency

  /** A cell the sampling loop may mine: on the grid, not the safe cell and
      not a mine on the board it started from. */
  ghost predicate Eligible(b: seq<Cell>, safe: int, x: int) {
    0 <= x < |b| && x != safe && !b[x].isMine
  }

  /** The distinct eligible cells among the draws. */
  ghost function Candidates(b: seq<Cell>, safe: int, draws: seq<int>): (xs: set<int>)
  {
    if draws == [] then {}
    else
      var last := draws[|draws| - 1];
      Candidates(b, safe, draws[..|draws| - 1]) + (if Eligible(b, safe, last) then {last} else {})
  }

  /** The draws lie on the grid (as a random index in [0, rows * cols) does)
      and offer at least `mines` distinct eligible cells, so the sampling loop
      ends before the draws run out. */
  ghost predicate DrawsSuffice(b: seq<Cell>, safe: int, draws: seq<int>, mines: int) {
    (forall j :: 0 <= j < |draws| ==> 0 <= draws[j] < |b|) &&
    |Candidates(b, safe, draws)| >= mines
  }

  /** Every candidate was drawn and is eligible. */
  lemma {:induction false} CandidatesSound(b: seq<Cell>, safe: int, draws: seq<int>, x: int)
    requires x in Candidates(b, safe, draws)
    ensures x in draws && Eligible(b, safe, x)
  {
    var prefix := draws[..|draws| - 1];
    if x != draws[|draws| - 1] || !Eligible(b, safe, x) {
      CandidatesSound(b, safe, prefix, x);
      assert forall j :: 0 <= j < |prefix| ==> prefix[j] == draws[j];
    }
  }

  lemma CandidatesAll(b: seq<Cell>, safe: int, draws: seq<int>)
    ensures Candidates(b, safe, draws[..|draws|]) == Candidates(b, safe, draws)
  {
    assert draws[..|draws|] == draws;
  }

  /** The number of draws the sampling loop consumes, searching from draw k:
      the first prefix length from k on whose eligible cells number at least
      `mines`, or all the draws. */
  ghost function StopAt(b: seq<Cell>, safe: int, draws: seq<int>, mines: int, k: nat): (n: nat)
    requires k <= |draws|
    ensures k <= n <= |draws|
    decreases |draws| - k
  {
    if k == |draws| || |Candidates(b, safe, draws[..k])| >= mines then k
    else StopAt(b, safe, draws, mines, k + 1)
  }

  /** The cells the sampling loop mines: the distinct eligible cells among
      the draws it consumes, that is, the first `mines` distinct eligible
      draws in draw order. */
  ghost function Chosen(b: seq<Cell>, safe: int, draws: seq<int>, mines: int): (xs: set<int>)
  {
    Candidates(b, safe, draws[..StopAt(b, safe, draws, mines, 0)])
  }

  /** Searching from a prefix with at most `mines` candidates stops at a
      prefix with exactly `mines`, as each draw adds at most one candidate. */
  lemma {:induction false} StopAtExact(b: seq<Cell>, safe: int, draws: seq<int>, mines: int, k: nat)
    requires DrawsSuffice(b, safe, draws, mines)
    requires k <= |draws| && |Candidates(b, safe, draws[..k])| <= mines
    ensures |Candidates(b, safe, draws[..StopAt(b, safe, draws, mines, k)])| == mines
    decreases |draws| - k
  {
    if |Candidates(b, safe, draws[..k])| < mines {
      if k == |draws| {
        CandidatesAll(b, safe, draws);
      }
      DrawStep(b, safe, draws, k, Candidates(b, safe, draws[..k]));
      StopAtExact(b, safe, draws, mines, k + 1);
    }
  }

  /** With enough draws, exactly `mines` cells are chosen, each of them drawn,
      not the safe cell and not a mine before. */
  lemma ChosenSound(b: seq<Cell>, safe: int, draws: seq<int>, mines: int)
    requires 0 <= mines && DrawsSuffice(b, safe, draws, mines)
    ensures |Chosen(b, safe, draws, mines)| == mines
    ensures forall x :: x in Chosen(b, safe, draws, mines) ==> x in draws && Eligible(b, safe, x)
  {
    var k := StopAt(b, safe, draws, mines, 0);
    assert draws[..0] == [];
    StopAtExact(b, safe, draws, mines, 0);
    forall x | x in Chosen(b, safe, draws, mines)
      ensures x in draws && Eligible(b, safe, x)
    {
      CandidatesSound(b, safe, draws[..k], x);
      assert forall y :: y in draws[..k] ==> y in draws;
    }
  }

  /** Three mine-free cells, safe cell 0, draws 1 then 2, one mine: the
      first eligible draw, cell 1, is mined and cell 2 is not. */
  lemma ChosenExample(b: seq<Cell>)
    requires |b| == 3 && forall j :: 0 <= j < 3 ==> !b[j].isMine
    ensures Chosen(b, 0, [1, 2], 1) == {1}
  {
    var draws := [1, 2];
    assert draws[..0] == [];
    assert draws[..1] == [1] && [1][..0] == [];
    assert Candidates(b, 0, draws[..0]) == {};
    assert Candidates(b, 0, draws[..1]) == {1};
    assert StopAt(b, 0, draws, 1, 1) == 1;
    assert StopAt(b, 0, draws, 1, 0) == 1;
  }

  /** The sampling loop's bookkeeping: after one more draw the candidates grow
      by that draw exactly when it is eligible and new. */
  lemma DrawStep(b: seq<Cell>, safe: int, draws: seq<int>, k: int, placed: set<int>)
    requires 0 <= k < |draws|
    requires placed == Candidates(b, safe, draws[..k])
    ensures Candidates(b, safe, draws[..k + 1]) ==
            if Eligible(b, safe, draws[k]) && draws[k] !in placed then placed + {draws[k]} else placed
  {
    assert draws[..k + 1][..k] == draws[..k];
  }

  /** The state of the sampling loop after k draws on a board that started as
      b0: the mined cells `placed` are the eligible draws so far, and s is b0
      with exactly those cells turned into mines. */
  ghost predicate SampleInv(b0: seq<Cell>, safe: int, draws: seq<int>, k: int, placed: set<int>, s: seq<Cell>, minesPlaced: int) {
    0 <= k <= |draws| &&
    placed == Candidates(b0, safe, draws[..k]) && |placed| == minesPlaced &&
    |s| == |b0| &&
    (forall i :: 0 <= i < |s| ==> s[i] == if i in placed then b0[i].(isMine := true) else b0[i]) &&
    Count(s, IsMine) == Count(b0, IsMine) + minesPlaced
  }

  /** One iteration of the sampling loop keeps its state. */
  lemma SampleStep(b0: seq<Cell>, safe: int, draws: seq<int>, k: int, placed: set<int>, s: seq<Cell>, minesPlaced: int)
    requires SampleInv(b0, safe, draws, k, placed, s, minesPlaced)
    requires k < |draws| && 0 <= draws[k] < |s|
    ensures var x := draws[k];
      if x != safe && !s[x].isMine then
        SampleInv(b0, safe, draws, k + 1, placed + {x}, s[x := s[x].(isMine := true)], minesPlaced + 1)
      else
        SampleInv(b0, safe, draws, k + 1, placed, s, minesPlaced)
  {
    var x := draws[k];
    DrawStep(b0, safe, draws, k, placed);
    assert s[x] == if x in placed then b0[x].(isMine := true) else b0[x];
    if x != safe && !s[x].isMine {
      assert x !in placed && Eligible(b0, safe, x);
      var s' := s[x := s[x].(isMine := true)];
      CountUpdate(s, x, s'[x], IsMine);
      assert |placed + {x}| == minesPlaced + 1;
      assert forall i :: 0 <= i < |s'| ==> s'[i] == if i in placed + {x} then b0[i].(isMine := true) else b0[i];
    } else {
      assert !(Eligible(b0, safe, x) && x !in placed);
    }
  }

  /** What the sampling loop's state says once it stops: the safe cell is as
      it was, and every changed cell was a drawn non-mine that became a mine. */
  lemma SampleDone(b0: seq<Cell>, safe: int, draws: seq<int>, k: int, placed: set<int>, s: seq<Cell>, minesPlaced: int)
    requires SampleInv(b0, safe, draws, k, placed, s, minesPlaced) && 0 <= safe < |s|
    ensures Count(s, IsMine) == Count(b0, IsMine) + minesPlaced
    ensures s[safe] == b0[safe]
    ensures forall i :: 0 <= i < |s| ==>
      s[i] == b0[i] || (!b0[i].isMine && s[i] == b0[i].(isMine := true) && i in draws)
  {
    forall i | 0 <= i < |s| && i in placed
      ensures i in draws && Eligible(b0, safe, i)
    {
      CandidatesSound(b0, safe, draws[..k], i);
      assert forall x :: x in draws[..k] ==> x in draws;
    }
  }

  /** The sampling loop of generateBoard: draw an index; if it is not the safe
      cell and not yet a mine, make it a mine; stop once `totalMines` are
      placed. Each successful draw mines a cell that was not a mine, so the
      mine count grows by exactly `totalMines`. */
  method PlaceMines(a: array<Cell>, safeCellId: int, draws: seq<int>, totalMines: int)
    requires 0 <= safeCellId < a.Length && 0 <= totalMines
    requires DrawsSuffice(a[..], safeCellId, draws, totalMines)
    modifies a
    ensures Count(a[..], IsMine) == Count(old(a[..]), IsMine) + totalMines
    // the new state: exactly the chosen draws become mines
    ensures forall i :: 0 <= i < a.Length ==>
      a[..][i] == if i in Chosen(old(a[..]), safeCellId, draws, totalMines)
                  then old(a[..])[i].(isMine := true) else old(a[..])[i]
    ensures a[..][safeCellId] == old(a[..])[safeCellId]
    ensures forall i :: 0 <= i < a.Length ==>
      a[..][i] == old(a[..])[i] ||
      (!old(a[..])[i].isMine && a[..][i] == old(a[..])[i].(isMine := true) && i in draws)
  {
    ghost var b0 := a[..];
    var minesPlaced := 0;
    var k := 0;
    ghost var placed: set<int> := {};
    // `cur` mirrors the array, so the sampling state is kept on plain values
    ghost var cur := b0;
    while minesPlaced < totalMines
      invariant minesPlaced <= totalMines && a[..] == cur
      invariant SampleInv(b0, safeCellId, draws, k, placed, cur, minesPlaced)
      invariant StopAt(b0, safeCellId, draws, totalMines, k) == StopAt(b0, safeCellId, draws, totalMines, 0)
      decreases |draws| - k
    {
      assert k < |draws| by {
        if k == |draws| {
          CandidatesAll(b0, safeCellId, draws);
        }
      }
      var randomIdx := draws[k];
      SampleStep(b0, safeCellId, draws, k, placed, cur, minesPlaced);
      if randomIdx != safeCellId && !a[randomIdx].isMine {
        a[randomIdx] := a[randomIdx].(isMine := true);
        cur := cur[randomIdx := cur[randomIdx].(isMine := true)];
        placed := placed + {randomIdx};
        minesPlaced := minesPlaced + 1;
      }
      k := k + 1;
    }
    assert StopAt(b0, safeCellId, draws, totalMines, k) == k;
    SampleDone(b0, safeCellId, draws, k, placed, cur, minesPlaced);
  }

  /** The numbering loop's state after the first i cells, on a board that
      held `mined` when the loop started: every cell keeps all fields but its
      number, cells from i on are untouched, mine cells are untouched, and
      each earlier non-mine cell carries the count of mines around its index. */
  ghost predicate NumberedUpTo(mined: seq<Cell>, t: seq<Cell>, rows: int, cols: int, i: int)
    requires |mined| == rows * cols && 0 < cols
  {
    0 <= i <= |t| == |mined| &&
    (forall j :: 0 <= j < |t| ==> t[j] == mined[j].(number := t[j].number)) &&
    (forall j :: i <= j < |t| ==> t[j] == mined[j]) &&
    (forall j :: 0 <= j < i && t[j].isMine ==> t[j] == mined[j]) &&
    (forall j :: 0 <= j < i && !t[j].isMine ==> t[j].number == AdjacentMines(mined, rows, cols, j / cols, j % cols))
  }

  /** One iteration of the numbering loop keeps its state. */
  lemma NumberStep(mined: seq<Cell>, t: seq<Cell>, rows: int, cols: int, i: int, count: int)
    requires |mined| == rows * cols && 0 < cols
    requires NumberedUpTo(mined, t, rows, cols, i) && i < |t|
    requires !t[i].isMine ==> count == AdjacentMines(mined, rows, cols, i / cols, i % cols)
    ensures NumberedUpTo(mined, if t[i].isMine then t else t[i := t[i].(number := count)], rows, cols, i + 1)
  {
  }

  /** At the end of the numbering loop every cell's number is right on the
      final board, whose mines are those of `mined`. */
  lemma NumberedAll(mined: seq<Cell>, t: seq<Cell>, rows: int, cols: int)
    requires |mined| == rows * cols && 0 < cols
    requires NumberedUpTo(mined, t, rows, cols, |t|)
    ensures forall i :: 0 <= i < |t| ==> IndexNumberOk(t, rows, cols, i)
  {
    forall i | 0 <= i < |t|
      ensures IndexNumberOk(t, rows, cols, i)
    {
      AdjacentFrame(t, mined, rows, cols, i / cols, i % cols);
    }
  }

  /** The numbering loop of generateBoard: every cell that is not a mine gets
      the count of mines around its index's row and column; mine cells and all
      other fields stay as they are. */
  method WriteNumbers(a: array<Cell>, rows: int, cols: int)
    requires a.Length == rows * cols && 0 < cols
    modifies a
    ensures forall i :: 0 <= i < a.Length ==> a[i] == old(a[i]).(number := a[i].number)
    ensures forall i :: 0 <= i < a.Length && a[i].isMine ==> a[i] == old(a[i])
    ensures forall i :: 0 <= i < a.Length ==> IndexNumberOk(a[..], rows, cols, i)
  {
    ghost var mined := a[..];
    for i := 0 to a.Length
      invariant NumberedUpTo(mined, a[..], rows, cols, i)
    {
      ghost var t := a[..];
      var count := 0;
      if !a[i].isMine {
        var r := i / cols;
        var c := i % cols;
        count := CountAdjacentMines(a, rows, cols, r, c);
        AdjacentFrame(t, mined, rows, cols, r, c);
        a[i] := a[i].(number := count);
      }
      NumberStep(mined, t, rows, cols, i, count);
      assert a[..] == if t[i].isMine then t else t[i := t[i].(number := count)];
    }
    NumberedAll(mined, a[..], rows, cols);
  }
}
